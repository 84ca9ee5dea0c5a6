/** The queue of SFTP transfers: which ones wait, run and end, and in what order they start. */
module Transferts {
  import opened Marqueurs

  datatype EtatTransfert = Attente | EnCours | Fini | Erreur | Annule

  predicate Termine(e: EtatTransfert) {
    e == Fini || e == Erreur || e == Annule
  }

  const PARALLELE := 3

  /** One transfer as the queue sees it. */
  datatype Fiche = Fiche(id: nat, etat: EtatTransfert)

  /** How a transfer ended. */
  datatype Issue = Reussie | Echec(erreur: string)

  /** A success ends the transfer; a failure that says it was cancelled is a cancellation, any other an error. */
  function Conclusion(i: Issue): (e: EtatTransfert)
    ensures Termine(e)
  {
    match i
    case Reussie => Fini
    case Echec(erreur) => if Contient(erreur, "Transfert annulé") then Annule else Erreur
  }

  // ---------- The queue as a value ----------

  function Actifs(f: seq<Fiche>): nat {
    if f == [] then 0 else Actifs(f[..|f| - 1]) + if f[|f| - 1].etat == EnCours then 1 else 0
  }

  /** The identifiers of the first `places` waiting transfers, in the order of the queue. */
  function Partants(f: seq<Fiche>, places: nat): (r: seq<nat>)
    ensures |r| <= places
  {
    if f == [] then [] else
      var debut, x := Partants(f[..|f| - 1], places), f[|f| - 1];
      if x.etat == Attente && |debut| < places then debut + [x.id] else debut
  }

  /** The queue once they have started. */
  function Lance(f: seq<Fiche>, places: nat): (r: seq<Fiche>)
    ensures |r| == |f|
  {
    if f == [] then [] else
      var debut, x := Lance(f[..|f| - 1], places), f[|f| - 1];
      debut + [if x.etat == Attente && |Partants(f[..|f| - 1], places)| < places then x.(etat := EnCours) else x]
  }

  /** The queue, the next identifier, and the identifiers started so far, in order. */
  datatype File = File(fiches: seq<Fiche>, prochain: nat, lances: seq<nat>)

  function Planifie(f: File): File {
    var places := if Actifs(f.fiches) < PARALLELE then PARALLELE - Actifs(f.fiches) else 0;
    f.(fiches := Lance(f.fiches, places), lances := f.lances + Partants(f.fiches, places))
  }

  /** Position of a transfer in the queue, or the length. */
  function Rang(f: seq<Fiche>, id: nat): (i: nat)
    ensures i <= |f| && (i < |f| ==> f[i].id == id) && forall j :: 0 <= j < i ==> f[j].id != id
  {
    if f == [] || f[0].id == id then 0 else 1 + Rang(f[1..], id)
  }

  /** The rest of the queue, when the transfer at rank i leaves it. */
  function Reste(f: seq<Fiche>, i: nat): (r: seq<Fiche>)
    requires i < |f|
    ensures |r| == |f| - 1 && forall k :: 0 <= k < |r| ==> r[k] == f[if k < i then k else k + 1]
  {
    f[..i] + f[i + 1..]
  }

  /** With a new transfer waiting at the end. */
  function Enfilee(f: File): File {
    f.(fiches := f.fiches + [Fiche(f.prochain, Attente)], prochain := f.prochain + 1)
  }

  /** A transfer is added; a running one ends; a waiting or running one is cancelled; a finished one is dismissed. */
  datatype Evenement = Ajouter | Terminer(id: nat, issue: Issue) | Annuler(id: nat) | Effacer(id: nat)

  function Suit(f: File, ev: Evenement): File {
    match ev
    case Ajouter => Planifie(Enfilee(f))
    case Terminer(id, issue) =>
      var i := Rang(f.fiches, id);
      if i < |f.fiches| && f.fiches[i].etat == EnCours
      then Planifie(f.(fiches := f.fiches[i := Fiche(id, Conclusion(issue))])) else f
    case Annuler(id) =>
      var i := Rang(f.fiches, id);
      if i < |f.fiches| && f.fiches[i].etat == Attente then f.(fiches := f.fiches[i := Fiche(id, Annule)]) else f
    case Effacer(id) =>
      var i := Rang(f.fiches, id);
      if i < |f.fiches| && Termine(f.fiches[i].etat) then f.(fiches := Reste(f.fiches, i)) else f
  }

  function SuitTous(f: File, evs: seq<Evenement>): File {
    if evs == [] then f else Suit(SuitTous(f, evs[..|evs| - 1]), evs[|evs| - 1])
  }

  const VIDE := File([], 1, [])

  // ---------- What every run keeps ----------

  ghost predicate Ordonnee(f: seq<Fiche>) {
    forall i, j :: 0 <= i < j < |f| ==> f[i].id < f[j].id
  }

  ghost predicate Croissante(s: seq<nat>) {
    forall i, j :: 0 <= i < j < |s| ==> s[i] < s[j]
  }

  /** Everything about the queue but who waits and who was started. */
  ghost predicate Rangee(f: File) {
    && Ordonnee(f.fiches) && Croissante(f.lances)
    && (forall i :: 0 <= i < |f.fiches| ==> f.fiches[i].id < f.prochain)
    && (forall id :: id in f.lances ==> id < f.prochain)
  }

  /** Between events: identifiers increase; at most three run; a transfer waits only if three run; every started
      identifier is older than every waiting one, and was started once, in order of arrival. */
  ghost predicate Reglee(f: File) {
    Rangee(f) && PlacesPrises(f.fiches) && AttentesApres(f)
  }

  /** At most three run, and three do if one waits. */
  ghost predicate PlacesPrises(f: seq<Fiche>) {
    && Actifs(f) <= PARALLELE
    && forall i :: 0 <= i < |f| && f[i].etat == Attente ==> Actifs(f) == PARALLELE
  }

  /** Waiting transfers are younger than all started ones; running ones were started. */
  ghost predicate AttentesApres(f: File) {
    && (forall i, id :: 0 <= i < |f.fiches| && f.fiches[i].etat == Attente && id in f.lances ==> id < f.fiches[i].id)
    && (forall i :: 0 <= i < |f.fiches| && f.fiches[i].etat == EnCours ==> f.fiches[i].id in f.lances)
  }

  lemma {:induction false} ActifsAjout(f: seq<Fiche>, x: Fiche)
    ensures Actifs(f + [x]) == Actifs(f) + if x.etat == EnCours then 1 else 0
  {
    assert (f + [x])[..|f|] == f;
  }

  /** Starting up to `places` waiting transfers: the running count grows by the number started, and a transfer is
      left waiting only if the places were all taken. */
  lemma {:induction false} LanceCompte(f: seq<Fiche>, places: nat)
    ensures Actifs(Lance(f, places)) == Actifs(f) + |Partants(f, places)|
    ensures forall i :: 0 <= i < |f| && Lance(f, places)[i].etat == Attente ==> |Partants(f, places)| == places
  {
    if f != [] {
      var d := f[..|f| - 1];
      LanceCompte(d, places);
      ActifsAjout(Lance(d, places), Lance(f, places)[|f| - 1]);
    }
  }

  /** Nothing changes but the started transfers, which were waiting. */
  lemma {:induction false} LanceExact(f: seq<Fiche>, places: nat, i: nat)
    requires i < |f|
    ensures var r, p := Lance(f, places), Partants(f, places);
            r[i] == f[i] || (f[i].etat == Attente && r[i] == f[i].(etat := EnCours) && f[i].id in p)
  {
    if i < |f| - 1 {
      LanceExact(f[..|f| - 1], places, i);
    }
  }

  /** The started ones are transfers of the queue, in its order. */
  lemma {:induction false} PartantsOrdonnes(f: seq<Fiche>, places: nat)
    requires Ordonnee(f)
    ensures Croissante(Partants(f, places))
    ensures forall id :: id in Partants(f, places) ==> exists i :: 0 <= i < |f| && f[i] == Fiche(id, Attente)
  {
    if f != [] {
      var n := |f| - 1;
      PartantsOrdonnes(f[..n], places);
      var p := Partants(f[..n], places);
      forall k | 0 <= k < |p| ensures p[k] < f[n].id {
        assert p[k] in p;
        var i :| 0 <= i < n && f[..n][i] == Fiche(p[k], Attente);
        assert f[i].id < f[n].id;
      }
      forall id | id in Partants(f, places) ensures exists i :: 0 <= i < |f| && f[i] == Fiche(id, Attente) {
        if id in Partants(f[..n], places) {
          var i :| 0 <= i < n && f[..n][i] == Fiche(id, Attente);
          assert f[i] == Fiche(id, Attente);
        } else {
          assert f[n] == Fiche(id, Attente);
        }
      }
    }
  }

  /** A transfer left waiting is younger than all those started. */
  lemma {:induction false} ResteApres(f: seq<Fiche>, places: nat, i: nat, id: nat)
    requires Ordonnee(f) && i < |f| && Lance(f, places)[i].etat == Attente && id in Partants(f, places)
    ensures id < f[i].id
  {
    var n := |f| - 1;
    PartantsOrdonnes(f[..n], places);
    if i < n {
      LanceCompte(f[..n], places);
      assert Lance(f[..n], places)[i].etat == Attente;
      ResteApres(f[..n], places, i, id);
    } else {
      assert id in Partants(f[..n], places);
    }
  }

  lemma CroissanteConcat(a: seq<nat>, b: seq<nat>)
    requires Croissante(a) && Croissante(b) && forall x, y :: x in a && y in b ==> x < y
    ensures Croissante(a + b)
  {
    forall i, j | 0 <= i < j < |a + b| ensures (a + b)[i] < (a + b)[j] {
      if i < |a| <= j {
        assert a[i] in a && b[j - |a|] in b;
      }
    }
  }

  lemma PlanifieRangee(f: File)
    requires Rangee(f) && AttentesApres(f) && Actifs(f.fiches) <= PARALLELE
    ensures Rangee(Planifie(f))
  {
    var places := PARALLELE - Actifs(f.fiches);
    var r, p := Lance(f.fiches, places), Partants(f.fiches, places);
    PartantsOrdonnes(f.fiches, places);
    forall i | 0 <= i < |r| ensures r[i].id == f.fiches[i].id {
      LanceExact(f.fiches, places, i);
    }
    forall a, b | a in f.lances && b in p ensures a < b < f.prochain {
      var i :| 0 <= i < |f.fiches| && f.fiches[i] == Fiche(b, Attente);
      assert f.fiches[i].etat == Attente;
    }
    forall b | b in p ensures b < f.prochain {
      var i :| 0 <= i < |f.fiches| && f.fiches[i] == Fiche(b, Attente);
    }
    CroissanteConcat(f.lances, p);
  }

  lemma PlanifieAttentes(f: File)
    requires Rangee(f) && AttentesApres(f) && Actifs(f.fiches) <= PARALLELE
    ensures AttentesApres(Planifie(f))
  {
    var places := PARALLELE - Actifs(f.fiches);
    var r, p := Lance(f.fiches, places), Partants(f.fiches, places);
    forall i, id | 0 <= i < |r| && r[i].etat == Attente && id in f.lances + p ensures id < r[i].id {
      LanceExact(f.fiches, places, i);
      if id in p {
        ResteApres(f.fiches, places, i, id);
      }
    }
    forall i | 0 <= i < |r| && r[i].etat == EnCours ensures r[i].id in f.lances + p {
      LanceExact(f.fiches, places, i);
    }
  }

  lemma PlanifieComptes(f: File)
    requires Actifs(f.fiches) <= PARALLELE
    ensures PlacesPrises(Planifie(f).fiches)
  {
    LanceCompte(f.fiches, PARALLELE - Actifs(f.fiches));
  }

  /** Scheduling a queue that kept its order: three run, or none waits. */
  lemma PlanifieReglee(f: File)
    requires Rangee(f) && AttentesApres(f) && Actifs(f.fiches) <= PARALLELE
    ensures Reglee(Planifie(f))
  {
    PlanifieRangee(f);
    PlanifieAttentes(f);
    PlanifieComptes(f);
  }

  lemma EnfileeRangee(f: File)
    requires Reglee(f)
    ensures Rangee(Enfilee(f)) && AttentesApres(Enfilee(f)) && Actifs(Enfilee(f).fiches) <= PARALLELE
  {
    ActifsAjout(f.fiches, Fiche(f.prochain, Attente));
    EnfileeOrdonnee(f);
    EnfileeAttentes(f);
  }

  lemma EnfileeOrdonnee(f: File)
    requires Rangee(f)
    ensures Rangee(Enfilee(f))
  {
  }

  lemma EnfileeAttentes(f: File)
    requires Rangee(f) && AttentesApres(f)
    ensures AttentesApres(Enfilee(f))
  {
  }

  lemma AjouterReglee(f: File)
    requires Reglee(f)
    ensures Reglee(Suit(f, Ajouter))
  {
    EnfileeRangee(f);
    PlanifieReglee(Enfilee(f));
  }

  lemma {:induction false} ActifsRemplace(f: seq<Fiche>, i: nat, x: Fiche)
    requires i < |f|
    ensures Actifs(f[i := x])
         == Actifs(f) - (if f[i].etat == EnCours then 1 else 0) + if x.etat == EnCours then 1 else 0
  {
    var n := |f| - 1;
    if i == n {
      assert f[i := x][..n] == f[..n];
    } else {
      assert f[i := x][..n] == f[..n][i := x];
      ActifsRemplace(f[..n], i, x);
    }
  }

  lemma {:induction false} ActifsRetire(f: seq<Fiche>, i: nat)
    requires i < |f| && f[i].etat != EnCours
    ensures Actifs(f[..i] + f[i + 1..]) == Actifs(f)
  {
    var n := |f| - 1;
    if i == n {
      assert f[..i] + f[i + 1..] == f[..n];
    } else {
      assert f[..i] + f[i + 1..] == (f[..n][..i] + f[..n][i + 1..]) + [f[n]];
      ActifsAjout(f[..n][..i] + f[..n][i + 1..], f[n]);
      ActifsRetire(f[..n], i);
    }
  }

  lemma TerminerReglee(f: File, id: nat, issue: Issue)
    requires Reglee(f)
    ensures Reglee(Suit(f, Terminer(id, issue)))
  {
    var i := Rang(f.fiches, id);
    if i < |f.fiches| && f.fiches[i].etat == EnCours {
      var x := Fiche(id, Conclusion(issue));
      ActifsRemplace(f.fiches, i, x);
      PlanifieReglee(f.(fiches := f.fiches[i := x]));
    }
  }

  lemma AnnulerReglee(f: File, id: nat)
    requires Reglee(f)
    ensures Reglee(Suit(f, Annuler(id)))
  {
    var i := Rang(f.fiches, id);
    if i < |f.fiches| && f.fiches[i].etat == Attente {
      ActifsRemplace(f.fiches, i, Fiche(id, Annule));
    }
  }

  lemma ResteRange(f: File, i: nat)
    requires Rangee(f) && i < |f.fiches|
    ensures Rangee(f.(fiches := Reste(f.fiches, i)))
  {
  }

  lemma ResteAttentes(f: File, i: nat)
    requires AttentesApres(f) && i < |f.fiches|
    ensures AttentesApres(f.(fiches := Reste(f.fiches, i)))
  {
  }

  /** Taking a finished transfer out of the queue. */
  lemma RetraitRegle(f: File, i: nat)
    requires Reglee(f) && i < |f.fiches| && Termine(f.fiches[i].etat)
    ensures Reglee(f.(fiches := Reste(f.fiches, i)))
  {
    ActifsRetire(f.fiches, i);
    ResteRange(f, i);
    ResteAttentes(f, i);
  }

  lemma EffacerReglee(f: File, id: nat)
    requires Reglee(f)
    ensures Reglee(Suit(f, Effacer(id)))
  {
    var i := Rang(f.fiches, id);
    if i < |f.fiches| && Termine(f.fiches[i].etat) {
      RetraitRegle(f, i);
    }
  }

  lemma SuitReglee(f: File, ev: Evenement)
    requires Reglee(f)
    ensures Reglee(Suit(f, ev))
  {
    match ev
    case Ajouter => AjouterReglee(f);
    case Terminer(id, issue) => TerminerReglee(f, id, issue);
    case Annuler(id) => AnnulerReglee(f, id);
    case Effacer(id) => EffacerReglee(f, id);
  }

  /** Over any run of additions, endings, cancellations and dismissals: at most three transfers run, none waits while
      a place is free, and transfers start once each, in the order they were added. */
  lemma {:induction false} ToujoursReglee(evs: seq<Evenement>)
    ensures Reglee(SuitTous(VIDE, evs))
  {
    if evs != [] {
      ToujoursReglee(evs[..|evs| - 1]);
      SuitReglee(SuitTous(VIDE, evs[..|evs| - 1]), evs[|evs| - 1]);
    }
  }

  // ---------- What one event may do to a transfer ----------

  /** Waiting, then running or cancelled; running, then over; over for good. */
  predicate Transition(avant: EtatTransfert, apres: EtatTransfert) {
    || apres == avant
    || (avant == Attente && (apres == EnCours || apres == Annule))
    || (avant == EnCours && Termine(apres))
  }

  /** The transfer is in the queue in a state it may reach from `e`. */
  ghost predicate Suivi(f: seq<Fiche>, id: nat, e: EtatTransfert) {
    exists i :: 0 <= i < |f| && f[i].id == id && Transition(e, f[i].etat)
  }

  ghost predicate Absent(f: seq<Fiche>, id: nat) {
    forall i :: 0 <= i < |f| ==> f[i].id != id
  }

  /** One event makes only legal transitions, and only dismissing a finished transfer takes it out of the queue: a
      running or waiting one never leaves. */
  lemma TransitionsLegales(f: File, ev: Evenement, k: nat)
    requires Reglee(f) && k < |f.fiches|
    ensures var x := f.fiches[k];
            if ev == Effacer(x.id) && Termine(x.etat) then Absent(Suit(f, ev).fiches, x.id)
            else Suivi(Suit(f, ev).fiches, x.id, x.etat)
  {
    var x, g := f.fiches[k], Suit(f, ev).fiches;
    match ev
    case Ajouter =>
      var m := Enfilee(f);
      assert m.fiches[k] == x;
      PlanifieTransition(m, k);
      assert g[k].id == x.id && Transition(x.etat, g[k].etat);
    case Terminer(autre, issue) =>
      var i := Rang(f.fiches, autre);
      if i < |f.fiches| && f.fiches[i].etat == EnCours {
        var m := f.(fiches := f.fiches[i := Fiche(autre, Conclusion(issue))]);
        PlanifieTransition(m, k);
      }
      assert g[k].id == x.id && Transition(x.etat, g[k].etat);
    case Annuler(autre) =>
      assert g[k].id == x.id && Transition(x.etat, g[k].etat);
    case Effacer(autre) => EffacerLegal(f, autre, k);
  }

  lemma EffacerLegal(f: File, autre: nat, k: nat)
    requires Reglee(f) && k < |f.fiches|
    ensures var x := f.fiches[k];
            if autre == x.id && Termine(x.etat) then Absent(Suit(f, Effacer(autre)).fiches, x.id)
            else Suivi(Suit(f, Effacer(autre)).fiches, x.id, x.etat)
  {
    var x, g, i := f.fiches[k], Suit(f, Effacer(autre)).fiches, Rang(f.fiches, autre);
    if i < |f.fiches| && Termine(f.fiches[i].etat) {
      forall q | 0 <= q < |g| ensures g[q] == f.fiches[if q < i then q else q + 1] {
      }
      if k != i {
        var q := if k < i then k else k - 1;
        assert g[q] == x && Transition(x.etat, g[q].etat);
      }
    } else {
      assert g[k] == x && Transition(x.etat, g[k].etat);
    }
  }

  lemma PlanifieTransition(f: File, k: nat)
    requires k < |f.fiches|
    ensures var x, y := f.fiches[k], Planifie(f).fiches[k];
            y == x || (x.etat == Attente && y == Fiche(x.id, EnCours))
  {
    var places := if Actifs(f.fiches) < PARALLELE then PARALLELE - Actifs(f.fiches) else 0;
    LanceExact(f.fiches, places, k);
  }

  // ---------- Exactly what one event does ----------

  /** How an issue ends a transfer. */
  ghost predicate Conclut(issue: Issue, e: EtatTransfert) {
    match issue
    case Reussie => e == Fini
    case Echec(erreur) =>
      e == if exists i: nat :: ContientEn(erreur, "Transfert annulé", i) then Annule else Erreur
  }

  /** Transfer w is the first one waiting. */
  ghost predicate PremiereAttente(f: seq<Fiche>, w: nat) {
    w < |f| && f[w].etat == Attente && forall i :: 0 <= i < w ==> f[i].etat != Attente
  }

  ghost predicate AucuneAttente(f: seq<Fiche>) {
    forall i :: 0 <= i < |f| ==> f[i].etat != Attente
  }

  lemma {:induction false} LanceRien(f: seq<Fiche>, places: nat)
    requires places == 0 || AucuneAttente(f)
    ensures Lance(f, places) == f && Partants(f, places) == []
  {
    if f != [] {
      LanceRien(f[..|f| - 1], places);
    }
  }

  lemma {:induction false} LanceUne(f: seq<Fiche>, w: nat)
    requires PremiereAttente(f, w)
    ensures Lance(f, 1) == f[w := Fiche(f[w].id, EnCours)] && Partants(f, 1) == [f[w].id]
  {
    var n := |f| - 1;
    if w == n {
      LanceRien(f[..n], 1);
    } else {
      LanceUne(f[..n], w);
    }
  }

  /** A new transfer comes last, and starts at once if fewer than three run. */
  lemma AjouterExact(f: File)
    requires Reglee(f)
    ensures var g, part := Suit(f, Ajouter), Actifs(f.fiches) < 3;
            && g.fiches == f.fiches + [Fiche(f.prochain, if part then EnCours else Attente)]
            && g.prochain == f.prochain + 1 && g.lances == f.lances + if part then [f.prochain] else []
  {
    var x := Fiche(f.prochain, Attente);
    ActifsAjout(f.fiches, x);
    assert (f.fiches + [x])[..|f.fiches|] == f.fiches;
    if Actifs(f.fiches) < 3 {
      LanceRien(f.fiches, 3 - Actifs(f.fiches));
    } else {
      LanceRien(f.fiches + [x], 0);
    }
  }

  lemma RangDe(f: seq<Fiche>, i: nat)
    requires Ordonnee(f) && i < |f|
    ensures Rang(f, f[i].id) == i
  {
  }

  lemma PlanifieRien(f: File)
    requires AucuneAttente(f.fiches)
    ensures Planifie(f) == f
  {
    LanceRien(f.fiches, if Actifs(f.fiches) < PARALLELE then PARALLELE - Actifs(f.fiches) else 0);
  }

  lemma PlanifieUne(f: File, w: nat)
    requires Actifs(f.fiches) == 2 && PremiereAttente(f.fiches, w)
    ensures Planifie(f)
         == f.(fiches := f.fiches[w := Fiche(f.fiches[w].id, EnCours)], lances := f.lances + [f.fiches[w].id])
  {
    LanceUne(f.fiches, w);
  }

  /** In place of a running transfer, one that is over; then the first one waiting starts. */
  lemma RemplacePuisPlanifie(f: File, i: nat, x: Fiche)
    requires Reglee(f) && i < |f.fiches| && f.fiches[i].etat == EnCours && Termine(x.etat)
    ensures var m, g := f.fiches[i := x], Planifie(f.(fiches := f.fiches[i := x]));
            if AucuneAttente(f.fiches) then g == f.(fiches := m)
            else exists w: nat :: PremiereAttente(f.fiches, w)
                   && g == f.(fiches := m[w := Fiche(f.fiches[w].id, EnCours)], lances := f.lances + [f.fiches[w].id])
  {
    var m := f.fiches[i := x];
    ActifsRemplace(f.fiches, i, x);
    if AucuneAttente(f.fiches) {
      PlanifieRien(f.(fiches := m));
    } else {
      var w := PremiereDes(f.fiches);
      assert PremiereAttente(m, w);
      PlanifieUne(f.(fiches := m), w);
    }
  }

  /** A running transfer that ends takes the state its issue says, and the first one waiting takes its place; an ending
      of any other transfer changes nothing. */
  lemma TerminerExact(f: File, i: nat, issue: Issue) returns (e: EtatTransfert)
    requires Reglee(f) && i < |f.fiches|
    ensures Conclut(issue, e)
    ensures var g, m := Suit(f, Terminer(f.fiches[i].id, issue)), f.fiches[i := Fiche(f.fiches[i].id, e)];
            if f.fiches[i].etat != EnCours then g == f
            else if AucuneAttente(f.fiches) then g == f.(fiches := m)
            else exists w: nat :: PremiereAttente(f.fiches, w)
                   && g == f.(fiches := m[w := Fiche(f.fiches[w].id, EnCours)], lances := f.lances + [f.fiches[w].id])
  {
    e := Conclusion(issue);
    if issue.Echec? {
      ContientSsi(issue.erreur, "Transfert annulé");
    }
    RangDe(f.fiches, i);
    if f.fiches[i].etat == EnCours {
      RemplacePuisPlanifie(f, i, Fiche(f.fiches[i].id, e));
    }
  }

  lemma {:induction false} PremiereDes(f: seq<Fiche>) returns (w: nat)
    requires !AucuneAttente(f)
    ensures PremiereAttente(f, w)
  {
    if f[0].etat == Attente {
      w := 0;
    } else {
      w := PremiereDes(f[1..]);
      w := w + 1;
    }
  }

  /** Cancelling a waiting transfer, and only one, marks it cancelled; dismissing a finished one, and only one, takes it
      out and keeps the order of the others. */
  lemma AnnulerEffacerExacts(f: File, i: nat)
    requires Reglee(f) && i < |f.fiches|
    ensures var x := f.fiches[i];
            && Suit(f, Annuler(x.id))
               == (if x.etat == Attente then f.(fiches := f.fiches[i := Fiche(x.id, Annule)]) else f)
            && Suit(f, Effacer(x.id))
               == if x.etat == Fini || x.etat == Erreur || x.etat == Annule
                  then f.(fiches := f.fiches[..i] + f.fiches[i + 1..]) else f
  {
    RangDe(f.fiches, i);
  }

  /** What is said of a transfer that is not in the queue changes nothing. */
  lemma AbsentSansEffet(f: File, ev: Evenement)
    requires !ev.Ajouter? && Absent(f.fiches, ev.id)
    ensures Suit(f, ev) == f
  {
  }
}
