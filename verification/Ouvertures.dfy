/** What an attempt to open a tunnel does with each answer, and which password it submits and saves. */
module Ouvertures {
  import opened Octets
  import opened Marqueurs
  import opened Tunnels

  // ---------- One answer ----------

  /** Has the password that has just worked to be saved? One was typed, it is not empty, the user asked, and the host is
      one of those saved. */
  predicate AMemoriser(t: Tentative) {
    t.saisie.Some? && t.saisie.value.motDePasse != "" && t.saisie.value.memoriser && t.hoteConnu
  }

  /** Where an attempt stands after an answer; `tenue`: did it still hold its row? */
  ghost predicate Apres(t: Tentative, tenue: bool, r: Reponse, p: Phase) {
    match t.phase
    // A password is asked first exactly when the host needs one, and the opening is given up when none is typed.
    case Interroge => if r == Besoin(true) then p == DemandeAvant else p == Ouvre(0)
    case DemandeAvant => if r == Rendue(None) then p == Finie else p == Ouvre(0)
    // Opened: saved or not. Refused for want of a password: asked again, twice at most. Otherwise over.
    case Ouvre(n) =>
      if !r.Echec? then p == if tenue && AMemoriser(t) then Memorise else Finie
      else p == if tenue && MotDePasseRequis(r.message) && n < 2 then Redemande(n) else Finie
    case Redemande(n) => p == if tenue && r.Rendue? && r.saisie.Some? then Ouvre(n + 1) else Finie
    case _ => p == Finie
  }

  /** The row of an attempt after an answer: taken when the first opening goes out, freed when an attempt that held it
      ends, as it was otherwise. */
  ghost predicate LigneApres(e: Etat, k: nat, f: Etat)
    requires k < |e.tentatives| && k < |f.tentatives|
  {
    var id, p, q := e.tentatives[k].id, e.tentatives[k].phase, f.tentatives[k].phase;
    if !EnVol(p) && EnVol(q) then f.busy == e.busy + {id} && f.ouvertures == e.ouvertures[id := k]
    else if q == Finie && p != Finie && EnVol(p) && Courante(e, k) then
      f.busy == e.busy - {id} && f.ouvertures == e.ouvertures - {id}
    else f.busy == e.busy && f.ouvertures == e.ouvertures
  }

  lemma PhaseExacte(e: Etat, k: nat, r: Reponse)
    requires k < |e.tentatives| && Compte(e.tentatives[k])
    ensures var t, f := e.tentatives[k], Suit(e, Revient(k, r));
            && |f.tentatives| == |e.tentatives|
            && Apres(t, Courante(e, k), r, f.tentatives[k].phase)
            && f.tentatives[k].appels
               == t.appels + if f.tentatives[k].phase.Ouvre? && f.tentatives[k].phase != t.phase then 1 else 0
  {
  }

  lemma LigneExacte(e: Etat, k: nat, r: Reponse)
    requires k < |e.tentatives| && (Courante(e, k) ==> EnVol(e.tentatives[k].phase))
    ensures var f := Suit(e, Revient(k, r)); |f.tentatives| == |e.tentatives| && LigneApres(e, k, f)
  {
  }

  /** An answer moves its attempt on as the dialogue goes, takes or frees its row, and changes no other attempt. */
  lemma RevientExact(e: Etat, k: nat, r: Reponse)
    requires Coherent(e) && k < |e.tentatives|
    ensures var t, f := e.tentatives[k], Suit(e, Revient(k, r));
            && |f.tentatives| == |e.tentatives|
            && (forall j :: 0 <= j < |f.tentatives| && j != k ==> f.tentatives[j] == e.tentatives[j])
            && f.tentatives[k].id == t.id && f.tentatives[k].hoteConnu == t.hoteConnu
            && Apres(t, Courante(e, k), r, f.tentatives[k].phase)
            && LigneApres(e, k, f)
            && f.tentatives[k].appels
               == t.appels + if f.tentatives[k].phase.Ouvre? && f.tentatives[k].phase != t.phase then 1 else 0
  {
    assert Compte(e.tentatives[k]);
    if Courante(e, k) {
      CouranteEnVol(e, k);
    }
    PhaseExacte(e, k, r);
    LigneExacte(e, k, r);
    forall j | 0 <= j < |e.tentatives| && j != k ensures Suit(e, Revient(k, r)).tentatives[j] == e.tentatives[j] {
      AutresNEloignentPas(e, Revient(k, r), j);
    }
    ReprendGarde(e, k, k, r);
    HoteGarde(e, k, r);
  }

  lemma HoteGarde(e: Etat, k: nat, r: Reponse)
    requires k < |e.tentatives|
    ensures var f := Suit(e, Revient(k, r));
            |f.tentatives| == |e.tentatives| && f.tentatives[k].hoteConnu == e.tentatives[k].hoteConnu
  {
  }

  // ---------- Whole runs ----------

  /** The attempts started, in order: tunnel, and is its host one of those saved? */
  function Demarrages(evs: seq<Evenement>): seq<(string, bool)> {
    if evs == [] then [] else
      var debut, ev := Demarrages(evs[..|evs| - 1]), evs[|evs| - 1];
      if ev.Demarrer? then debut + [(ev.id, ev.hoteConnu)] else debut
  }

  /** Was attempt k waiting for the user to type a password? */
  predicate Demandait(evs: seq<Evenement>, k: nat) {
    var e := SuitTous(INITIAL, evs);
    k < |e.tentatives| && (e.tentatives[k].phase.DemandeAvant? || e.tentatives[k].phase.Redemande?)
  }

  /** The last password the user typed for attempt k. */
  function DerniereRendue(evs: seq<Evenement>, k: nat): Option<Saisie> {
    if evs == [] then None else
      var debut, ev := evs[..|evs| - 1], evs[|evs| - 1];
      if DeLaTentative(ev, k) && ev.reponse.Rendue? && ev.reponse.saisie.Some? && Demandait(debut, k)
      then ev.reponse.saisie else DerniereRendue(debut, k)
  }

  /** Attempt k is the k-th started, and submits, while under way, the last password typed for it; none was typed before
      its first opening unless it is that one. */
  ghost predicate SaisieJuste(evs: seq<Evenement>, k: nat) {
    var e := SuitTous(INITIAL, evs);
    && |e.tentatives| == |Demarrages(evs)|
    && (k >= |e.tentatives| ==> DerniereRendue(evs, k) == None)
    && (k < |e.tentatives| ==>
          var t := e.tentatives[k];
          && (t.id, t.hoteConnu) == Demarrages(evs)[k]
          && (EnVol(t.phase) ==> t.saisie == DerniereRendue(evs, k))
          && (t.phase.Interroge? || t.phase.DemandeAvant? ==> t.saisie == DerniereRendue(evs, k) == None))
  }

  /** Over any run, whatever the interleaving. */
  lemma {:induction false} ToujoursSaisieJuste(evs: seq<Evenement>, k: nat)
    ensures SaisieJuste(evs, k)
  {
    if evs != [] {
      var debut, ev := evs[..|evs| - 1], evs[|evs| - 1];
      ToujoursSaisieJuste(debut, k);
      var e := SuitTous(INITIAL, debut);
      if ev.Revient? && ev.k < |e.tentatives| {
        ToujoursCoherent(debut);
        RevientExact(e, ev.k, ev.reponse);
        if ev.k == k {
          SaisieSuite(e, k, ev.reponse);
        }
      }
    }
  }

  /** The password an attempt holds after an answer. */
  lemma SaisieSuite(e: Etat, k: nat, r: Reponse)
    requires k < |e.tentatives|
    ensures var t, u := e.tentatives[k], Suit(e, Revient(k, r)).tentatives[k];
            EnVol(u.phase) ==>
              u.saisie == if t.phase.Interroge? then None
                          else if t.phase.DemandeAvant? then (if r.Rendue? then r.saisie else None)
                          else if t.phase.Redemande? && r.Rendue? && r.saisie.Some? then r.saisie
                          else t.saisie
  {
  }

  /** An opening that succeeds goes on to save the password if and only if the last one typed for it is not empty, the
      user asked to keep it, and the host is one of those saved. */
  lemma MemoriseSsi(evs: seq<Evenement>, k: nat, r: Reponse)
    requires var e := SuitTous(INITIAL, evs); k < |e.tentatives| && e.tentatives[k].phase.Ouvre? && Courante(e, k)
    ensures k < |Demarrages(evs)|
    ensures var s := DerniereRendue(evs, k);
            SuitTous(INITIAL, evs + [Revient(k, r)]).tentatives[k].phase == Memorise
            <==> !r.Echec? && s.Some? && s.value.motDePasse != "" && s.value.memoriser && Demarrages(evs)[k].1
  {
    var e, ev := SuitTous(INITIAL, evs), Revient(k, r);
    assert (evs + [ev])[..|evs|] == evs;
    ToujoursSaisieJuste(evs, k);
    ToujoursCoherent(evs);
    RevientExact(e, k, r);
  }

  // ---------- What a row says ----------

  /** What an event has to say about a row: nothing, that all is well, or why its opening failed. */
  datatype Nouvelle = Rien | Bon | Mauvais(motif: Motif)

  /** An opening that comes back for a row its attempt holds: well, with a failure, or refused for the third time. A
      cancellation, or the error being cleared, leaves nothing to say. */
  ghost function NouvelleDe(evs: seq<Evenement>, ev: Evenement, id: string): Nouvelle {
    var e := SuitTous(INITIAL, evs);
    match ev
    case AnnulerOuverture(i) => if i == id then Bon else Rien
    case EffacerErreur(i) => if i == id then Bon else Rien
    case Demarrer(_, _) => Rien
    case Revient(k, r) =>
      if !(Courante(e, k) && e.tentatives[k].id == id && e.tentatives[k].phase.Ouvre?) then Rien
      else if !r.Echec? then Bon
      else if !MotDePasseRequis(r.message) then Mauvais(Impossible(r.message))
      else if e.tentatives[k].appels == 3 then Mauvais(TropDeRefus)
      else Rien
  }

  /** The last thing said about a row. */
  ghost function DerniereNouvelle(evs: seq<Evenement>, id: string): Nouvelle {
    if evs == [] then Rien else
      var n := NouvelleDe(evs[..|evs| - 1], evs[|evs| - 1], id);
      if n == Rien then DerniereNouvelle(evs[..|evs| - 1], id) else n
  }

  /** Over any run, a row shows an error exactly when the last thing said about it is that one. */
  lemma {:induction false} ErreurDeLaLigne(evs: seq<Evenement>, id: string)
    ensures var e, n := SuitTous(INITIAL, evs), DerniereNouvelle(evs, id);
            (id in e.erreurs <==> n.Mauvais?) && (n.Mauvais? ==> e.erreurs[id] == n.motif)
  {
    if evs != [] {
      var debut, ev := evs[..|evs| - 1], evs[|evs| - 1];
      ErreurDeLaLigne(debut, id);
      ToujoursCoherent(debut);
      ErreurSuite(debut, ev, id);
    }
  }

  lemma ErreurSuite(debut: seq<Evenement>, ev: Evenement, id: string)
    requires Coherent(SuitTous(INITIAL, debut))
    ensures var e, f, n := SuitTous(INITIAL, debut), Suit(SuitTous(INITIAL, debut), ev), NouvelleDe(debut, ev, id);
            match n
            case Rien => (id in f.erreurs <==> id in e.erreurs) && (id in e.erreurs ==> f.erreurs[id] == e.erreurs[id])
            case Bon => id !in f.erreurs
            case Mauvais(m) => id in f.erreurs && f.erreurs[id] == m
  {
    var e := SuitTous(INITIAL, debut);
    if ev.Revient? && ev.k < |e.tentatives| {
      assert Compte(e.tentatives[ev.k]);
    }
  }
}
