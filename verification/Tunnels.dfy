/** Opening tunnels: any number of attempts, each suspended at its awaits, sharing three tables. */
module Tunnels {
  import opened Octets
  import opened Marqueurs

  const ESSAIS := 3

  /** Where an attempt is suspended. */
  datatype Phase =
    | Interroge                   // does the host need a password?
    | DemandeAvant                // a password is asked before the first try
    | Ouvre(essai: nat)           // tunnel_start
    | Redemande(essai: nat)       // a password is asked after a refusal
    | Memorise                    // password_save
    | Finie

  datatype Motif = Impossible(message: string) | TropDeRefus

  /** One call of tunnelStart; its rank among the attempts is its token. */
  datatype Tentative = Tentative(id: string, hoteConnu: bool, phase: Phase, saisie: Option<Saisie>, appels: nat)

  datatype Etat = Etat(
    busy: set<string>, ouvertures: map<string, nat>, erreurs: map<string, Motif>, tentatives: seq<Tentative>)

  const INITIAL := Etat({}, map[], map[], [])

  /** What an awaited call gives back. */
  datatype Reponse = Besoin(oui: bool) | Echec(message: string) | Reussite | Rendue(saisie: Option<Saisie>)

  /** An attempt starts; the call an attempt awaits comes back; a tunnel_stop succeeds for an opening in progress;
      the error shown on a row is cleared (tunnel stopped or its definition deleted). */
  datatype Evenement =
    | Demarrer(id: string, hoteConnu: bool)
    | Revient(k: nat, reponse: Reponse)
    | AnnulerOuverture(id: string)
    | EffacerErreur(id: string)

  /** Has an attempt gone past its preliminaries without being over? */
  predicate EnVol(p: Phase) {
    p.Ouvre? || p.Redemande? || p.Memorise?
  }

  predicate Courante(e: Etat, k: nat) {
    k < |e.tentatives| && e.tentatives[k].id in e.ouvertures && e.ouvertures[e.tentatives[k].id] == k
  }

  function Avec(e: Etat, k: nat, t: Tentative): Etat
    requires k < |e.tentatives|
  {
    e.(tentatives := e.tentatives[k := t])
  }

  /** The row becomes busy under a new token, and the first tunnel_start goes out. */
  function Commence(e: Etat, k: nat, saisie: Option<Saisie>): Etat
    requires k < |e.tentatives|
  {
    var t := e.tentatives[k];
    Avec(e, k, t.(phase := Ouvre(0), saisie := saisie, appels := t.appels + 1))
      .(busy := e.busy + {t.id}, ouvertures := e.ouvertures[t.id := k])
  }

  /** The attempt ends; the row is freed if the attempt still holds its token. */
  function Termine(e: Etat, k: nat): Etat
    requires k < |e.tentatives|
  {
    var t := e.tentatives[k];
    var f := Avec(e, k, t.(phase := Finie));
    if Courante(e, k) then f.(busy := e.busy - {t.id}, ouvertures := e.ouvertures - {t.id}) else f
  }

  /** tunnel_start has come back. */
  function OuvreRevient(e: Etat, k: nat, reponse: Reponse): Etat
    requires k < |e.tentatives| && e.tentatives[k].phase.Ouvre?
  {
    var t := e.tentatives[k];
    if !Courante(e, k) then Termine(e, k)
    else if !reponse.Echec? then
      var f := e.(erreurs := e.erreurs - {t.id});
      if t.saisie.Some? && t.saisie.value.motDePasse != "" && t.saisie.value.memoriser && t.hoteConnu
      then Avec(f, k, t.(phase := Memorise)) else Termine(f, k)
    else if !MotDePasseRequis(reponse.message) then
      Termine(e.(erreurs := e.erreurs[t.id := Impossible(reponse.message)]), k)
    else if t.phase.essai >= ESSAIS - 1 then Termine(e.(erreurs := e.erreurs[t.id := TropDeRefus]), k)
    else Avec(e, k, t.(phase := Redemande(t.phase.essai)))
  }

  function Reprend(e: Etat, k: nat, reponse: Reponse): Etat
    requires k < |e.tentatives|
  {
    var t := e.tentatives[k];
    match t.phase
    case Interroge =>
      if reponse == Besoin(true) then Avec(e, k, t.(phase := DemandeAvant)) else Commence(e, k, None)
    case DemandeAvant =>
      if reponse == Rendue(None) then Avec(e, k, t.(phase := Finie))
      else Commence(e, k, if reponse.Rendue? then reponse.saisie else None)
    case Ouvre(_) => OuvreRevient(e, k, reponse)
    case Redemande(essai) =>
      if reponse.Rendue? && reponse.saisie.Some? && Courante(e, k)
      then Avec(e, k, t.(phase := Ouvre(essai + 1), saisie := reponse.saisie, appels := t.appels + 1))
      else Termine(e, k)
    case Memorise => Termine(e, k)
    case Finie => e
  }

  function Suit(e: Etat, ev: Evenement): Etat {
    match ev
    case Demarrer(id, hoteConnu) => e.(tentatives := e.tentatives + [Tentative(id, hoteConnu, Interroge, None, 0)])
    case Revient(k, reponse) => if k < |e.tentatives| then Reprend(e, k, reponse) else e
    case AnnulerOuverture(id) =>
      e.(busy := e.busy - {id}, ouvertures := e.ouvertures - {id}, erreurs := e.erreurs - {id})
    case EffacerErreur(id) => e.(erreurs := e.erreurs - {id})
  }

  function SuitTous(e: Etat, evs: seq<Evenement>): Etat {
    if evs == [] then e else Suit(SuitTous(e, evs[..|evs| - 1]), evs[|evs| - 1])
  }

  // ---------- What every interleaving keeps ----------

  /** tunnel_start calls so far, by phase: never more than three. */
  predicate Compte(t: Tentative) {
    match t.phase
    case Interroge => t.appels == 0
    case DemandeAvant => t.appels == 0
    case Ouvre(essai) => t.appels == essai + 1 <= ESSAIS
    case Redemande(essai) => t.appels == essai + 1 < ESSAIS
    case _ => t.appels <= ESSAIS
  }

  /** A row is busy exactly when it has a token, and the token's attempt is for that row and still running; no
      attempt ever called tunnel_start more than three times. */
  ghost predicate Coherent(e: Etat) {
    && e.busy == e.ouvertures.Keys
    && (forall id :: id in e.ouvertures ==> Tenu(e, id))
    && (forall k :: 0 <= k < |e.tentatives| ==> Compte(e.tentatives[k]))
  }

  ghost predicate Tenu(e: Etat, id: string)
    requires id in e.ouvertures
  {
    var k := e.ouvertures[id];
    k < |e.tentatives| && e.tentatives[k].id == id && EnVol(e.tentatives[k].phase)
  }

  lemma CommenceCoherent(e: Etat, k: nat, saisie: Option<Saisie>)
    requires Coherent(e) && k < |e.tentatives| && e.tentatives[k].appels == 0
    ensures Coherent(Commence(e, k, saisie))
  {
    var f := Commence(e, k, saisie);
    forall id | id in f.ouvertures ensures Tenu(f, id) {
      if id != e.tentatives[k].id {
        assert Tenu(e, id);
      }
    }
  }

  lemma TermineCoherent(e: Etat, k: nat)
    requires Coherent(e) && k < |e.tentatives|
    ensures Coherent(Termine(e, k))
  {
    var f := Termine(e, k);
    forall id | id in f.ouvertures ensures Tenu(f, id) {
      assert Tenu(e, id);
    }
  }

  /** An attempt that goes on without touching the tables. */
  lemma AvecCoherent(e: Etat, k: nat, t: Tentative)
    requires Coherent(e) && k < |e.tentatives| && t.id == e.tentatives[k].id && Compte(t)
    requires Courante(e, k) ==> EnVol(t.phase)
    ensures Coherent(Avec(e, k, t))
  {
    var f := Avec(e, k, t);
    forall id | id in f.ouvertures ensures Tenu(f, id) {
      assert Tenu(e, id);
    }
  }

  /** A token is never held by an attempt still in its preliminaries, or over. */
  lemma CouranteEnVol(e: Etat, k: nat)
    requires Coherent(e) && Courante(e, k)
    ensures EnVol(e.tentatives[k].phase)
  {
    assert Tenu(e, e.tentatives[k].id);
  }

  lemma ErreursCoherent(e: Etat, erreurs: map<string, Motif>)
    requires Coherent(e)
    ensures Coherent(e.(erreurs := erreurs))
  {
    forall id | id in e.ouvertures ensures Tenu(e.(erreurs := erreurs), id) {
      assert Tenu(e, id);
    }
  }

  lemma OuvreCoherent(e: Etat, k: nat, reponse: Reponse)
    requires Coherent(e) && k < |e.tentatives| && e.tentatives[k].phase.Ouvre?
    ensures Coherent(OuvreRevient(e, k, reponse))
  {
    var t := e.tentatives[k];
    if !Courante(e, k) {
      TermineCoherent(e, k);
    } else if !reponse.Echec? {
      var f := e.(erreurs := e.erreurs - {t.id});
      ErreursCoherent(e, f.erreurs);
      AvecCoherent(f, k, t.(phase := Memorise));
      TermineCoherent(f, k);
    } else if !MotDePasseRequis(reponse.message) {
      ErreursCoherent(e, e.erreurs[t.id := Impossible(reponse.message)]);
      TermineCoherent(e.(erreurs := e.erreurs[t.id := Impossible(reponse.message)]), k);
    } else if t.phase.essai >= ESSAIS - 1 {
      ErreursCoherent(e, e.erreurs[t.id := TropDeRefus]);
      TermineCoherent(e.(erreurs := e.erreurs[t.id := TropDeRefus]), k);
    } else {
      AvecCoherent(e, k, t.(phase := Redemande(t.phase.essai)));
    }
  }

  lemma ReprendCoherent(e: Etat, k: nat, reponse: Reponse)
    requires Coherent(e) && k < |e.tentatives|
    ensures Coherent(Reprend(e, k, reponse))
  {
    var t := e.tentatives[k];
    if Courante(e, k) {
      CouranteEnVol(e, k);
    }
    match t.phase
    case Interroge =>
      AvecCoherent(e, k, t.(phase := DemandeAvant));
      CommenceCoherent(e, k, None);
    case DemandeAvant =>
      AvecCoherent(e, k, t.(phase := Finie));
      CommenceCoherent(e, k, if reponse.Rendue? then reponse.saisie else None);
    case Ouvre(_) => OuvreCoherent(e, k, reponse);
    case Redemande(essai) =>
      if reponse.Rendue? && reponse.saisie.Some? && Courante(e, k) {
        AvecCoherent(e, k, t.(phase := Ouvre(essai + 1), saisie := reponse.saisie, appels := t.appels + 1));
      }
      TermineCoherent(e, k);
    case Memorise => TermineCoherent(e, k);
    case Finie =>
  }

  lemma DemarrerCoherent(e: Etat, id: string, hoteConnu: bool)
    requires Coherent(e)
    ensures Coherent(Suit(e, Demarrer(id, hoteConnu)))
  {
    var f := Suit(e, Demarrer(id, hoteConnu));
    forall i | i in f.ouvertures ensures Tenu(f, i) {
      assert Tenu(e, i);
    }
  }

  lemma AnnulerCoherent(e: Etat, id: string)
    requires Coherent(e)
    ensures Coherent(Suit(e, AnnulerOuverture(id)))
  {
    var f := Suit(e, AnnulerOuverture(id));
    forall i | i in f.ouvertures ensures Tenu(f, i) {
      assert Tenu(e, i);
    }
  }

  lemma SuitCoherent(e: Etat, ev: Evenement)
    requires Coherent(e)
    ensures Coherent(Suit(e, ev))
  {
    match ev
    case Demarrer(id, hoteConnu) => DemarrerCoherent(e, id, hoteConnu);
    case Revient(k, reponse) => if k < |e.tentatives| { ReprendCoherent(e, k, reponse); }
    case AnnulerOuverture(id) => AnnulerCoherent(e, id);
    case EffacerErreur(id) => ErreursCoherent(e, e.erreurs - {id});
  }

  /** Whatever the interleaving of attempts, cancellations and stops. */
  lemma {:induction false} ToujoursCoherent(evs: seq<Evenement>)
    ensures Coherent(SuitTous(INITIAL, evs))
  {
    if evs != [] {
      ToujoursCoherent(evs[..|evs| - 1]);
      SuitCoherent(SuitTous(INITIAL, evs[..|evs| - 1]), evs[|evs| - 1]);
    }
  }

  /** A busy row never stays stuck: an attempt that will free it is still running. */
  lemma OccupeDoncEnVol(e: Etat, id: string)
    requires Coherent(e) && id in e.busy
    ensures exists k: nat :: Courante(e, k) && e.tentatives[k].id == id && EnVol(e.tentatives[k].phase)
  {
    assert Tenu(e, id);
    assert Courante(e, e.ouvertures[id]);
  }

  /** The most answers an attempt still waits for before it is over. */
  function Attentes(p: Phase): int {
    match p
    case Interroge => 8
    case DemandeAvant => 7
    case Ouvre(essai) => 2 * (ESSAIS - essai)
    case Redemande(essai) => 2 * (ESSAIS - essai) - 1
    case Memorise => 1
    case Finie => 0
  }

  predicate DeLaTentative(ev: Evenement, k: nat) {
    ev.Revient? && ev.k == k
  }

  /** How many answers of a run are for attempt k. */
  function Retours(evs: seq<Evenement>, k: nat): nat {
    if evs == [] then 0 else Retours(evs[..|evs| - 1], k) + if DeLaTentative(evs[|evs| - 1], k) then 1 else 0
  }

  lemma RetourRapproche(e: Etat, k: nat, reponse: Reponse)
    requires Coherent(e) && k < |e.tentatives|
    ensures var p, q := e.tentatives[k].phase, Suit(e, Revient(k, reponse)).tentatives[k].phase;
            if p == Finie then q == Finie else 0 <= Attentes(q) < Attentes(p)
  {
    assert Compte(e.tentatives[k]);
  }

  lemma AutresNEloignentPas(e: Etat, ev: Evenement, k: nat)
    requires k < |e.tentatives| && !DeLaTentative(ev, k)
    ensures k < |Suit(e, ev).tentatives| && Suit(e, ev).tentatives[k] == e.tentatives[k]
  {
  }

  /** However the others interleave, each answer an attempt gets brings it closer to its end. */
  lemma {:induction false} RetoursRapprochent(e: Etat, evs: seq<Evenement>, k: nat)
    requires Coherent(e) && k < |e.tentatives|
    ensures Coherent(SuitTous(e, evs)) && k < |SuitTous(e, evs).tentatives|
    ensures var p := SuitTous(e, evs).tentatives[k].phase;
            p == Finie || 0 <= Attentes(p) <= Attentes(e.tentatives[k].phase) - Retours(evs, k)
  {
    if evs == [] {
      assert Compte(e.tentatives[k]);
    } else {
      var debut, ev := evs[..|evs| - 1], evs[|evs| - 1];
      RetoursRapprochent(e, debut, k);
      SuitCoherent(SuitTous(e, debut), ev);
      if DeLaTentative(ev, k) {
        RetourRapproche(SuitTous(e, debut), k, ev.reponse);
      } else {
        AutresNEloignentPas(SuitTous(e, debut), ev, k);
      }
    }
  }

  /** The row is held by a running attempt that is not attempt k. */
  ghost predicate PriseParUneAutre(e: Etat, id: string, k: nat) {
    id in e.ouvertures && e.ouvertures[id] != k && Tenu(e, id)
  }

  /** No attempt goes on for ever: once it has got the answers it may still wait for, eight at most, it is over and no
      longer holds its row, which is then free unless another attempt has taken it. */
  lemma ToutFinit(e: Etat, evs: seq<Evenement>, k: nat)
    requires Coherent(e) && k < |e.tentatives| && Retours(evs, k) >= Attentes(e.tentatives[k].phase)
    ensures Attentes(e.tentatives[k].phase) <= 8
    ensures var f, id := SuitTous(e, evs), e.tentatives[k].id;
            k < |f.tentatives| && f.tentatives[k].phase == Finie && (id in f.busy ==> PriseParUneAutre(f, id, k))
  {
    assert Compte(e.tentatives[k]);
    var f, id := SuitTous(e, evs), e.tentatives[k].id;
    RetoursRapprochent(e, evs, k);
    var p := f.tentatives[k].phase;
    assert Attentes(p) <= 0 ==> p == Finie by {
      assert Compte(f.tentatives[k]);
    }
    if id in f.busy {
      assert Tenu(f, id);
    }
  }

  /** What a row says of the last opening is true: no error once it has opened; "too many refusals" only after three
      calls, the last refused for want of a password; any other failure with its own message. */
  lemma ErreurFondee(e: Etat, k: nat, reponse: Reponse)
    requires Coherent(e) && Courante(e, k) && e.tentatives[k].phase.Ouvre?
    ensures var id, f := e.tentatives[k].id, Suit(e, Revient(k, reponse));
            if !reponse.Echec? then id !in f.erreurs
            else if !MotDePasseRequis(reponse.message) then
              id in f.erreurs && f.erreurs[id] == Impossible(reponse.message) && id !in f.busy
            else if e.tentatives[k].appels == ESSAIS then
              id in f.erreurs && f.erreurs[id] == TropDeRefus && id !in f.busy
            else f.erreurs == e.erreurs && id in f.busy && f.tentatives[k].phase.Redemande?
  {
    assert Compte(e.tentatives[k]);
    assert Tenu(e, e.tentatives[k].id);
  }

  // ---------- An abandoned attempt keeps quiet ----------

  /** An attempt past its preliminaries that no longer holds its token changes none of the three tables. */
  lemma AbandonneeSeTait(e: Etat, k: nat, reponse: Reponse)
    requires k < |e.tentatives| && (EnVol(e.tentatives[k].phase) || e.tentatives[k].phase == Finie) && !Courante(e, k)
    ensures var f := Suit(e, Revient(k, reponse));
            && f.busy == e.busy && f.ouvertures == e.ouvertures && f.erreurs == e.erreurs
            && f.tentatives == e.tentatives[k := e.tentatives[k].(phase := Finie)]
  {
  }

  /** The three tables say the same of a row. */
  ghost predicate LigneIntacte(e: Etat, f: Etat, id: string) {
    && (id in f.busy <==> id in e.busy)
    && (id in f.ouvertures <==> id in e.ouvertures) && (id in f.erreurs <==> id in e.erreurs)
    && (id in e.ouvertures ==> f.ouvertures[id] == e.ouvertures[id])
    && (id in e.erreurs ==> f.erreurs[id] == e.erreurs[id])
  }

  lemma OuvreIntacte(e: Etat, k: nat, reponse: Reponse, id: string)
    requires k < |e.tentatives| && e.tentatives[k].phase.Ouvre? && id != e.tentatives[k].id
    ensures LigneIntacte(e, OuvreRevient(e, k, reponse), id)
  {
  }

  /** No attempt ever touches the row of another tunnel. */
  lemma AutresLignesIntactes(e: Etat, k: nat, reponse: Reponse, id: string)
    requires k < |e.tentatives| && id != e.tentatives[k].id
    ensures LigneIntacte(e, Suit(e, Revient(k, reponse)), id)
  {
    if e.tentatives[k].phase.Ouvre? {
      OuvreIntacte(e, k, reponse, id);
    }
  }

  ghost predicate Abandonnee(e: Etat, k: nat) {
    && k < |e.tentatives| && !Courante(e, k)
    && (EnVol(e.tentatives[k].phase) || e.tentatives[k].phase == Finie)
  }

  /** Cancelling abandons whatever opening of that tunnel was in progress, and clears its row. */
  lemma AnnulationAbandonne(e: Etat, id: string, k: nat)
    requires k < |e.tentatives| && e.tentatives[k].id == id && EnVol(e.tentatives[k].phase)
    ensures var f := Suit(e, AnnulerOuverture(id));
            Abandonnee(f, k) && id !in f.busy && id !in f.ouvertures && id !in f.erreurs
  {
  }

  lemma ResteAbandonneeUnPas(e: Etat, ev: Evenement, k: nat)
    requires Abandonnee(e, k)
    ensures Abandonnee(Suit(e, ev), k) && Suit(e, ev).tentatives[k].appels == e.tentatives[k].appels
  {
  }

  /** Abandoned for good: over any run it never holds a token again, and never calls tunnel_start again. */
  lemma {:induction false} ResteAbandonnee(e: Etat, evs: seq<Evenement>, k: nat)
    requires Abandonnee(e, k)
    ensures Abandonnee(SuitTous(e, evs), k) && SuitTous(e, evs).tentatives[k].appels == e.tentatives[k].appels
  {
    if evs != [] {
      ResteAbandonnee(e, evs[..|evs| - 1], k);
      ResteAbandonneeUnPas(SuitTous(e, evs[..|evs| - 1]), evs[|evs| - 1], k);
    }
  }

  /** The same tables and the same attempts, but for how far attempt k has come. */
  ghost predicate Pareils(e: Etat, f: Etat, k: nat) {
    && k < |e.tentatives| && k < |f.tentatives| && f.tentatives[k].id == e.tentatives[k].id
    && f == Avec(e, k, f.tentatives[k])
  }

  lemma AvecCommute(e: Etat, k: nat, x: Tentative, j: nat, y: Tentative)
    requires k < |e.tentatives| && j < |e.tentatives| && j != k
    ensures Avec(Avec(e, k, x), j, y) == Avec(Avec(e, j, y), k, x)
  {
    assert e.tentatives[k := x][j := y] == e.tentatives[j := y][k := x];
  }

  lemma TermineCommute(e: Etat, k: nat, x: Tentative, j: nat)
    requires k < |e.tentatives| && j < |e.tentatives| && j != k
    ensures Termine(Avec(e, k, x), j) == Avec(Termine(e, j), k, x)
  {
    AvecCommute(e, k, x, j, e.tentatives[j].(phase := Finie));
  }

  lemma CommenceCommute(e: Etat, k: nat, x: Tentative, j: nat, saisie: Option<Saisie>)
    requires k < |e.tentatives| && j < |e.tentatives| && j != k
    ensures Commence(Avec(e, k, x), j, saisie) == Avec(Commence(e, j, saisie), k, x)
  {
    var t := e.tentatives[j];
    AvecCommute(e, k, x, j, t.(phase := Ouvre(0), saisie := saisie, appels := t.appels + 1));
  }

  lemma OuvreCommute(e: Etat, k: nat, x: Tentative, j: nat, r: Reponse)
    requires k < |e.tentatives| && j < |e.tentatives| && j != k && e.tentatives[j].phase.Ouvre?
    ensures OuvreRevient(Avec(e, k, x), j, r) == Avec(OuvreRevient(e, j, r), k, x)
  {
    var t := e.tentatives[j];
    TermineCommute(e, k, x, j);
    if !r.Echec? {
      TermineCommute(e.(erreurs := e.erreurs - {t.id}), k, x, j);
      AvecCommute(e, k, x, j, t.(phase := Memorise));
    } else {
      TermineCommute(e.(erreurs := e.erreurs[t.id := Impossible(r.message)]), k, x, j);
      TermineCommute(e.(erreurs := e.erreurs[t.id := TropDeRefus]), k, x, j);
      AvecCommute(e, k, x, j, t.(phase := Redemande(t.phase.essai)));
    }
  }

  lemma ReprendCommute(e: Etat, k: nat, x: Tentative, j: nat, r: Reponse)
    requires k < |e.tentatives| && j < |e.tentatives| && j != k
    ensures Reprend(Avec(e, k, x), j, r) == Avec(Reprend(e, j, r), k, x)
  {
    var t := e.tentatives[j];
    match t.phase
    case Interroge =>
      AvecCommute(e, k, x, j, t.(phase := DemandeAvant));
      CommenceCommute(e, k, x, j, None);
    case DemandeAvant =>
      AvecCommute(e, k, x, j, t.(phase := Finie));
      CommenceCommute(e, k, x, j, if r.Rendue? then r.saisie else None);
    case Ouvre(_) => OuvreCommute(e, k, x, j, r);
    case Redemande(essai) =>
      if r.Rendue? {
        AvecCommute(e, k, x, j, t.(phase := Ouvre(essai + 1), saisie := r.saisie, appels := t.appels + 1));
      }
      TermineCommute(e, k, x, j);
    case Memorise => TermineCommute(e, k, x, j);
    case Finie =>
  }

  lemma PareilsUnPas(e: Etat, f: Etat, k: nat, ev: Evenement)
    requires Pareils(e, f, k) && !DeLaTentative(ev, k)
    ensures Pareils(Suit(e, ev), Suit(f, ev), k)
  {
    if ev.Revient? && ev.k < |e.tentatives| {
      ReprendCommute(e, k, f.tentatives[k], ev.k, ev.reponse);
      ReprendGarde(e, k, ev.k, ev.reponse);
    } else if ev.Demarrer? {
      var t := [Tentative(ev.id, ev.hoteConnu, Interroge, None, 0)];
      assert e.tentatives[k := f.tentatives[k]] + t == (e.tentatives + t)[k := f.tentatives[k]];
    }
  }

  lemma ReprendGarde(e: Etat, k: nat, j: nat, r: Reponse)
    requires k < |e.tentatives| && j < |e.tentatives|
    ensures var f := Reprend(e, j, r); |f.tentatives| == |e.tentatives| && f.tentatives[k].id == e.tentatives[k].id
  {
  }

  function SansElle(evs: seq<Evenement>, k: nat): seq<Evenement> {
    if evs == [] then [] else
      var debut, ev := SansElle(evs[..|evs| - 1], k), evs[|evs| - 1];
      if DeLaTentative(ev, k) then debut else debut + [ev]
  }

  /** Every run goes, for the tables and all other attempts, exactly as if what comes back to an abandoned attempt
      never did. */
  lemma {:induction false} AbandonSansEffet(e: Etat, evs: seq<Evenement>, k: nat)
    requires Abandonnee(e, k)
    ensures Pareils(SuitTous(e, evs), SuitTous(e, SansElle(evs, k)), k)
  {
    if evs != [] {
      var debut, ev := evs[..|evs| - 1], evs[|evs| - 1];
      AbandonSansEffet(e, debut, k);
      ResteAbandonnee(e, debut, k);
      if DeLaTentative(ev, k) {
        AbandonneeSeTait(SuitTous(e, debut), k, ev.reponse);
      } else {
        PareilsUnPas(SuitTous(e, debut), SuitTous(e, SansElle(debut, k)), k, ev);
        assert (SansElle(debut, k) + [ev])[..|SansElle(debut, k)|] == SansElle(debut, k);
      }
    }
  }

  // ---------- The tables themselves ----------

  class Tables {
    var busy: set<string>
    var ouvertures: map<string, nat>
    var erreurs: map<string, Motif>
    var tentatives: seq<Tentative>

    ghost function Vue(): Etat
      reads this
    {
      Etat(busy, ouvertures, erreurs, tentatives)
    }

    ghost predicate Valid()
      reads this
    {
      Coherent(Vue())
    }

    constructor ()
      ensures Vue() == INITIAL && Valid()
    {
      busy, ouvertures, erreurs, tentatives := {}, map[], map[], [];
    }

    /** The attempt moves on to another await. */
    method Attendre(k: nat, phase: Phase)
      requires k < |tentatives|
      modifies `tentatives
      ensures tentatives == old(tentatives)[k := old(tentatives)[k].(phase := phase)]
    {
      tentatives := tentatives[k := tentatives[k].(phase := phase)];
    }

    /** tunnel_start goes out. */
    method Appeler(k: nat, essai: nat, saisie: Option<Saisie>)
      requires k < |tentatives|
      modifies `tentatives
      ensures var t := old(tentatives)[k];
              tentatives == old(tentatives)[k := t.(phase := Ouvre(essai), saisie := saisie, appels := t.appels + 1)]
    {
      var t := tentatives[k];
      tentatives := tentatives[k := t.(phase := Ouvre(essai), saisie := saisie, appels := t.appels + 1)];
    }

    method Commencer(k: nat, saisie: Option<Saisie>)
      requires k < |tentatives|
      modifies this
      ensures Vue() == Commence(old(Vue()), k, saisie)
    {
      busy := busy + {tentatives[k].id};
      ouvertures := ouvertures[tentatives[k].id := k];
      Appeler(k, 0, saisie);
    }

    /** The way out of every attempt. */
    method Finir(k: nat)
      requires k < |tentatives|
      modifies this
      ensures Vue() == Termine(old(Vue()), k)
    {
      var id := tentatives[k].id;
      if id in ouvertures && ouvertures[id] == k {
        ouvertures := ouvertures - {id};
        busy := busy - {id};
      }
      Attendre(k, Finie);
    }

    method RevenirDeOuvre(k: nat, reponse: Reponse)
      requires k < |tentatives| && tentatives[k].phase.Ouvre?
      modifies this
      ensures Vue() == OuvreRevient(old(Vue()), k, reponse)
    {
      var t := tentatives[k];
      if t.id !in ouvertures || ouvertures[t.id] != k {
        Finir(k);
        return;
      }
      if !reponse.Echec? {
        erreurs := erreurs - {t.id};
        if t.saisie.Some? && t.saisie.value.motDePasse != "" && t.saisie.value.memoriser && t.hoteConnu {
          Attendre(k, Memorise);
        } else {
          Finir(k);
        }
        return;
      }
      if !MotDePasseRequis(reponse.message) {
        erreurs := erreurs[t.id := Impossible(reponse.message)];
        Finir(k);
      } else if t.phase.essai >= ESSAIS - 1 {
        erreurs := erreurs[t.id := TropDeRefus];
        Finir(k);
      } else {
        Attendre(k, Redemande(t.phase.essai));
      }
    }

    /** The call awaited by an attempt has come back. */
    method Reprendre(k: nat, reponse: Reponse)
      requires Valid() && k < |tentatives|
      modifies this
      ensures Valid() && Vue() == Suit(old(Vue()), Revient(k, reponse))
    {
      SuitCoherent(Vue(), Revient(k, reponse));
      var t := tentatives[k];
      match t.phase
      case Interroge =>
        if reponse == Besoin(true) { Attendre(k, DemandeAvant); } else { Commencer(k, None); }
      case DemandeAvant =>
        if reponse == Rendue(None) {
          Attendre(k, Finie);
        } else {
          Commencer(k, if reponse.Rendue? then reponse.saisie else None);
        }
      case Ouvre(_) => RevenirDeOuvre(k, reponse);
      case Redemande(essai) =>
        if reponse.Rendue? && reponse.saisie.Some? && t.id in ouvertures && ouvertures[t.id] == k {
          Appeler(k, essai + 1, reponse.saisie);
        } else {
          Finir(k);
        }
      case Memorise => Finir(k);
      case Finie =>
    }

    method Demarrer(id: string, hoteConnu: bool) returns (k: nat)
      requires Valid()
      modifies `tentatives
      ensures Valid() && Vue() == Suit(old(Vue()), Evenement.Demarrer(id, hoteConnu)) && k == old(|tentatives|)
    {
      SuitCoherent(Vue(), Evenement.Demarrer(id, hoteConnu));
      k, tentatives := |tentatives|, tentatives + [Tentative(id, hoteConnu, Interroge, None, 0)];
    }

    method AnnulerOuverture(id: string)
      requires Valid()
      modifies this
      ensures Valid() && Vue() == Suit(old(Vue()), Evenement.AnnulerOuverture(id))
    {
      SuitCoherent(Vue(), Evenement.AnnulerOuverture(id));
      ouvertures := ouvertures - {id};
      busy := busy - {id};
      erreurs := erreurs - {id};
    }

    method EffacerErreur(id: string)
      requires Valid()
      modifies `erreurs
      ensures Valid() && Vue() == Suit(old(Vue()), Evenement.EffacerErreur(id))
    {
      SuitCoherent(Vue(), Evenement.EffacerErreur(id));
      erreurs := erreurs - {id};
    }
  }
}
