/** What a VNC server holds and is sent, told from the keystrokes the filter lets through and the losses of focus. */
module Tenues {
  import opened Octets
  import opened Suites
  import opened Clavier

  // ---------- What comes out of the filter ----------

  /** A keystroke let through, or a loss of focus. */
  datatype Trace = Passee(e: Frappe) | Perdue

  function EnTraces(es: seq<Frappe>): (ts: seq<Trace>)
    ensures |ts| == |es| && forall i :: 0 <= i < |ts| ==> ts[i] == Passee(es[i])
  {
    seq(|es|, i requires 0 <= i < |es| => Passee(es[i]))
  }

  /** The inputs of the filter: losing focus is none. */
  function Coups(evs: seq<Evenement>): seq<Coup> {
    if evs == [] then [] else
      Coups(evs[..|evs| - 1])
        + match evs[|evs| - 1] case Frapper(e) => [Recue(e)] case Expiration => [Echeance] case Flou => []
  }

  function Filtree(actif: bool, evs: seq<Evenement>): Suivi {
    JouerTous(Neuf(actif), Coups(evs))
  }

  /** One more event adds to what the filter lets through. */
  lemma FiltreeSuite(actif: bool, evs: seq<Evenement>, ev: Evenement)
    ensures var f, g := Filtree(actif, evs), Filtree(actif, evs + [ev]);
            match ev
            case Frapper(e) => g.f == Filtrer(f.f, e).0 && g.sorties == f.sorties + Filtrer(f.f, e).1
            case Expiration => g.f == Expirer(f.f).0 && g.sorties == f.sorties + Expirer(f.f).1
            case Flou => g == f
  {
    var cs := Coups(evs);
    assert (evs + [ev])[..|evs|] == evs;
    if ev.Flou? {
      assert cs + [] == cs;
    } else {
      var c := if ev.Frapper? then Recue(ev.e) else Echeance;
      assert Coups(evs + [ev]) == cs + [c] && (cs + [c])[..|cs|] == cs;
    }
  }

  /** In order, the keystrokes the filter lets through and the losses of focus. */
  function Sortie(actif: bool, evs: seq<Evenement>): seq<Trace> {
    if evs == [] then [] else
      var debut, ev := evs[..|evs| - 1], evs[|evs| - 1];
      FiltreeSuite(actif, debut, ev);
      assert debut + [ev] == evs;
      Sortie(actif, debut)
        + if ev == Flou then [Perdue]
          else EnTraces(Filtree(actif, evs).sorties[|Filtree(actif, debut).sorties|..])
  }

  // ---------- Which keys are held ----------

  /** The trace presses the keysym. */
  predicate Presse(keysym: Touche -> Option<u32>, t: Trace, ks: u32) {
    t.Passee? && t.e.enfonce && keysym(t.e.t) == Some(ks)
  }

  /** The trace releases the keysym, a loss of focus releasing all. */
  predicate Lache(keysym: Touche -> Option<u32>, t: Trace, ks: u32) {
    t.Perdue? || (!t.e.enfonce && keysym(t.e.t) == Some(ks))
  }

  /** The keysym was pressed at i and not released since. */
  predicate TenueDepuis(keysym: Touche -> Option<u32>, ts: seq<Trace>, ks: u32, i: nat) {
    i < |ts| && Presse(keysym, ts[i], ks) && forall j :: i < j < |ts| ==> !Lache(keysym, ts[j], ks)
  }

  /** The last keystroke about the keysym since focus was last lost is a press. */
  ghost predicate EstTenue(keysym: Touche -> Option<u32>, ts: seq<Trace>, ks: u32) {
    exists i: nat :: TenueDepuis(keysym, ts, ks, i)
  }

  /** It is held since i: earlier presses do not count, having been released, and later ones only repeat it. */
  ghost predicate Debute(keysym: Touche -> Option<u32>, ts: seq<Trace>, ks: u32, i: nat) {
    TenueDepuis(keysym, ts, ks, i) && forall j: nat :: j < i ==> !TenueDepuis(keysym, ts, ks, j)
  }

  /** The list is that of the keysyms held, in the order they came to be, at the places `ps`. */
  ghost predicate EstListe(keysym: Touche -> Option<u32>, ts: seq<Trace>, l: seq<u32>, ps: seq<nat>) {
    && |l| == |ps| && (forall k :: 0 <= k < |l| ==> Debute(keysym, ts, l[k], ps[k]))
    && (forall j, k :: 0 <= j < k < |ps| ==> ps[j] < ps[k])
    && (forall ks: u32 :: EstTenue(keysym, ts, ks) ==> ks in l)
  }

  ghost predicate Listees(keysym: Touche -> Option<u32>, ts: seq<Trace>, l: seq<u32>) {
    exists ps: seq<nat> :: EstListe(keysym, ts, l, ps)
  }

  // ---------- Which messages are sent ----------

  /** The message of a keysym: code 14, four bytes from the lowest, then 1 for a press and 0 for a release. */
  function Message(ks: u32, enfonce: bool): seq<octet> {
    [14, ks % 0x100, ks / 0x100 % 0x100, ks / 0x1_0000 % 0x100, ks / 0x100_0000, if enfonce then 1 else 0]
  }

  /** What the n-th trace sends: a press of a key that has a keysym, one message; a release, one if the keysym is held;
      a loss of focus, one release for each keysym held, in order. */
  ghost predicate Envoie(keysym: Touche -> Option<u32>, ts: seq<Trace>, n: nat, ms: seq<seq<octet>>)
    requires n < |ts|
  {
    match ts[n]
    case Perdue =>
      exists l :: Listees(keysym, ts[..n], l) && |ms| == |l|
                  && forall k :: 0 <= k < |l| ==> ms[k] == Message(l[k], false)
    case Passee(e) =>
      match keysym(e.t)
      case None => ms == []
      case Some(ks) =>
        if e.enfonce then ms == [Message(ks, true)]
        else ms == if EstTenue(keysym, ts[..n], ks) then [Message(ks, false)] else []
  }

  function Bout(parts: seq<seq<seq<octet>>>): seq<seq<octet>> {
    if parts == [] then [] else Bout(parts[..|parts| - 1]) + parts[|parts| - 1]
  }

  /** Messages sent, trace by trace. */
  ghost predicate Envoyes(keysym: Touche -> Option<u32>, ts: seq<Trace>, parts: seq<seq<seq<octet>>>) {
    |parts| == |ts| && forall n :: 0 <= n < |ts| ==> Envoie(keysym, ts, n, parts[n])
  }

  // ---------- One more trace ----------

  lemma TenueSuite(keysym: Touche -> Option<u32>, ts: seq<Trace>, t: Trace, ks: u32, i: nat)
    ensures TenueDepuis(keysym, ts + [t], ks, i)
       <==> (i == |ts| && Presse(keysym, t, ks)) || (TenueDepuis(keysym, ts, ks, i) && !Lache(keysym, t, ks))
  {
    var u := ts + [t];
    if i < |ts| && TenueDepuis(keysym, u, ks, i) {
      assert u[|ts|] == t;
      forall j | i < j < |ts| ensures !Lache(keysym, ts[j], ks) {
        assert u[j] == ts[j];
      }
    }
  }

  lemma EstTenueSuite(keysym: Touche -> Option<u32>, ts: seq<Trace>, t: Trace, ks: u32)
    ensures EstTenue(keysym, ts + [t], ks)
       <==> Presse(keysym, t, ks) || (EstTenue(keysym, ts, ks) && !Lache(keysym, t, ks))
  {
    if i: nat :| TenueDepuis(keysym, ts + [t], ks, i) {
      TenueSuite(keysym, ts, t, ks, i);
    }
    if Presse(keysym, t, ks) {
      TenueSuite(keysym, ts, t, ks, |ts|);
    } else if i: nat :| TenueDepuis(keysym, ts, ks, i) {
      TenueSuite(keysym, ts, t, ks, i);
    }
  }

  lemma DebuteReste(keysym: Touche -> Option<u32>, ts: seq<Trace>, t: Trace, ks: u32, i: nat)
    requires Debute(keysym, ts, ks, i) && !Lache(keysym, t, ks)
    ensures Debute(keysym, ts + [t], ks, i)
  {
    TenueSuite(keysym, ts, t, ks, i);
    forall j: nat | j < i ensures !TenueDepuis(keysym, ts + [t], ks, j) {
      TenueSuite(keysym, ts, t, ks, j);
    }
  }

  lemma DebuteAussitot(keysym: Touche -> Option<u32>, ts: seq<Trace>, t: Trace, ks: u32)
    requires Presse(keysym, t, ks) && !EstTenue(keysym, ts, ks)
    ensures Debute(keysym, ts + [t], ks, |ts|)
  {
    TenueSuite(keysym, ts, t, ks, |ts|);
    forall j: nat | j < |ts| ensures !TenueDepuis(keysym, ts + [t], ks, j) {
      TenueSuite(keysym, ts, t, ks, j);
    }
  }

  lemma TenueSiListee(keysym: Touche -> Option<u32>, ts: seq<Trace>, l: seq<u32>, ps: seq<nat>, ks: u32)
    requires EstListe(keysym, ts, l, ps)
    ensures ks in l <==> EstTenue(keysym, ts, ks)
  {
    if ks in l {
      var k :| 0 <= k < |l| && l[k] == ks;
      assert TenueDepuis(keysym, ts, ks, ps[k]);
    }
  }

  /** A trace that neither adds nor takes out a key. */
  lemma ListeReste(keysym: Touche -> Option<u32>, ts: seq<Trace>, t: Trace, l: seq<u32>, ps: seq<nat>)
    requires EstListe(keysym, ts, l, ps)
    requires forall ks: u32 :: ks in l ==> !Lache(keysym, t, ks)
    requires forall ks: u32 :: Presse(keysym, t, ks) ==> ks in l
    ensures EstListe(keysym, ts + [t], l, ps)
  {
    forall k | 0 <= k < |l| ensures Debute(keysym, ts + [t], l[k], ps[k]) {
      DebuteReste(keysym, ts, t, l[k], ps[k]);
    }
    forall ks: u32 | EstTenue(keysym, ts + [t], ks) ensures ks in l {
      EstTenueSuite(keysym, ts, t, ks);
    }
  }

  lemma ListePlus(keysym: Touche -> Option<u32>, ts: seq<Trace>, t: Trace, l: seq<u32>, ps: seq<nat>, ks: u32)
    requires EstListe(keysym, ts, l, ps) && Presse(keysym, t, ks) && ks !in l
    ensures EstListe(keysym, ts + [t], l + [ks], ps + [|ts|])
  {
    forall k | 0 <= k < |l| ensures Debute(keysym, ts + [t], l[k], ps[k]) && ps[k] < |ts| {
      assert TenueDepuis(keysym, ts, l[k], ps[k]);
      DebuteReste(keysym, ts, t, l[k], ps[k]);
    }
    TenueSiListee(keysym, ts, l, ps, ks);
    DebuteAussitot(keysym, ts, t, ks);
    forall q: u32 | EstTenue(keysym, ts + [t], q) ensures q in l + [ks] {
      EstTenueSuite(keysym, ts, t, q);
    }
  }

  function SansRang<T>(s: seq<T>, m: nat): (r: seq<T>)
    requires m < |s|
    ensures |r| == |s| - 1 && forall k :: 0 <= k < |r| ==> r[k] == s[if k < m then k else k + 1]
  {
    s[..m] + s[m + 1..]
  }

  lemma ListeMoins(keysym: Touche -> Option<u32>, ts: seq<Trace>, t: Trace, l: seq<u32>, ps: seq<nat>, m: nat)
    requires EstListe(keysym, ts, l, ps) && m < |l| && Lache(keysym, t, l[m])
    requires SansDoublon(l) && t.Passee?
    ensures EstListe(keysym, ts + [t], SansRang(l, m), SansRang(ps, m))
  {
    var r := SansRang(l, m);
    forall k | 0 <= k < |r| ensures Debute(keysym, ts + [t], r[k], SansRang(ps, m)[k]) {
      var q := if k < m then k else k + 1;
      assert l[q] != l[m];
      DebuteReste(keysym, ts, t, l[q], ps[q]);
    }
    forall ks: u32 | EstTenue(keysym, ts + [t], ks) ensures ks in r {
      EstTenueSuite(keysym, ts, t, ks);
      var q :| 0 <= q < |l| && l[q] == ks;
      assert r[if q < m then q else q - 1] == ks;
    }
  }

  lemma ListeVide(keysym: Touche -> Option<u32>, ts: seq<Trace>)
    requires ts == [] || ts[|ts| - 1] == Perdue
    ensures EstListe(keysym, ts, [], [])
  {
    forall ks: u32 ensures !EstTenue(keysym, ts, ks) {
    }
  }

  lemma SansRangSuite<T>(s: seq<T>, m: nat)
    requires 0 < m < |s|
    ensures SansRang(s, m) == [s[0]] + SansRang(s[1..], m - 1)
  {
  }

  /** Taking a key out of the list. */
  lemma {:induction false} SansExact(l: seq<u32>, m: nat)
    requires m < |l| && SansDoublon(l)
    ensures Sans(l, l[m]) == SansRang(l, m)
  {
    if m > 0 {
      assert l[0] != l[m] && l[1..][m - 1] == l[m];
      SansExact(l[1..], m - 1);
      SansRangSuite(l, m);
    }
  }

  // ---------- The session does it ----------

  lemma MessageLitteral(ks: u32, enfonce: bool)
    ensures MessageKeysym(ks, enfonce) == Message(ks, enfonce)
  {
    QuatreOctets(ks);
    assert Le32(ks) == [ks % 0x1_0000 % 0x100, ks % 0x1_0000 / 0x100, ks / 0x1_0000 % 0x100, ks / 0x1_0000 / 0x100];
  }

  lemma QuatreOctets(v: u32)
    ensures v % 0x1_0000 % 0x100 == v % 0x100 && v % 0x1_0000 / 0x100 == v / 0x100 % 0x100
    ensures v / 0x1_0000 / 0x100 == v / 0x100_0000
  {
  }

  lemma {:induction false} RelachementsLitteraux(l: seq<u32>)
    ensures forall k :: 0 <= k < |l| ==> Relachements(l)[k] == Message(l[k], false)
  {
    if l != [] {
      RelachementsLitteraux(l[..|l| - 1]);
      MessageLitteral(l[|l| - 1], false);
    }
  }

  /** A keystroke let through keeps the list of keys held, and sends what it should. */
  lemma EmettreExact(keysym: Touche -> Option<u32>, ts: seq<Trace>, l: seq<u32>, e: Frappe)
    requires SansDoublon(l) && Listees(keysym, ts, l)
    ensures var r := Emettre(keysym, l, e);
            && SansDoublon(r.0) && Listees(keysym, ts + [Passee(e)], r.0)
            && Envoie(keysym, ts + [Passee(e)], |ts|, r.1)
  {
    var t, ps: seq<nat> := Passee(e), [];
    ps :| EstListe(keysym, ts, l, ps);
    assert (ts + [t])[..|ts|] == ts;
    var ks := keysym(e.t);
    EmettreAccord(keysym, l, e);
    if ks.None? {
      ListeReste(keysym, ts, t, l, ps);
    } else {
      MessageLitteral(ks.value, e.enfonce);
      TenueSiListee(keysym, ts, l, ps, ks.value);
      EmettreListe(keysym, ts, t, l, ps, ks.value);
    }
  }

  lemma EmettreListe(keysym: Touche -> Option<u32>, ts: seq<Trace>, t: Trace, l: seq<u32>, ps: seq<nat>, ks: u32)
    requires SansDoublon(l) && EstListe(keysym, ts, l, ps) && t.Passee? && keysym(t.e.t) == Some(ks)
    ensures Listees(keysym, ts + [t], Emettre(keysym, l, t.e).0)
  {
    if t.e.enfonce && ks !in l {
      ListePlus(keysym, ts, t, l, ps, ks);
    } else if !t.e.enfonce && ks in l {
      var m :| 0 <= m < |l| && l[m] == ks;
      SansExact(l, m);
      ListeMoins(keysym, ts, t, l, ps, m);
    } else {
      ListeReste(keysym, ts, t, l, ps);
    }
  }

  /** Held keys and messages of a session agree with what came out of its filter. */
  ghost predicate Exacte(keysym: Touche -> Option<u32>, ts: seq<Trace>, l: seq<u32>, ms: seq<seq<octet>>) {
    && SansDoublon(l) && Listees(keysym, ts, l)
    && exists parts :: Envoyes(keysym, ts, parts) && ms == Bout(parts)
  }

  lemma EnvoyesSuite(keysym: Touche -> Option<u32>, ts: seq<Trace>, t: Trace, parts: seq<seq<seq<octet>>>,
                     ms: seq<seq<octet>>)
    requires Envoyes(keysym, ts, parts) && Envoie(keysym, ts + [t], |ts|, ms)
    ensures Envoyes(keysym, ts + [t], parts + [ms]) && Bout(parts + [ms]) == Bout(parts) + ms
  {
    var u := ts + [t];
    assert (parts + [ms])[..|parts|] == parts;
    forall n | 0 <= n < |u| ensures Envoie(keysym, u, n, (parts + [ms])[n]) {
      if n < |ts| {
        assert u[..n] == ts[..n] && u[n] == ts[n];
      }
    }
  }

  lemma ExacteSuite(keysym: Touche -> Option<u32>, ts: seq<Trace>, t: Trace, l: seq<u32>, ms: seq<seq<octet>>,
                    l': seq<u32>, part: seq<seq<octet>>)
    requires Exacte(keysym, ts, l, ms)
    requires SansDoublon(l') && Listees(keysym, ts + [t], l') && Envoie(keysym, ts + [t], |ts|, part)
    ensures Exacte(keysym, ts + [t], l', ms + part)
  {
    var parts :| Envoyes(keysym, ts, parts) && ms == Bout(parts);
    EnvoyesSuite(keysym, ts, t, parts, part);
  }

  lemma {:induction false} EmettreTousExact(keysym: Touche -> Option<u32>, ts: seq<Trace>, l: seq<u32>,
                                            ms: seq<seq<octet>>, es: seq<Frappe>)
    requires Exacte(keysym, ts, l, ms)
    ensures var r := EmettreTous(keysym, l, es); Exacte(keysym, ts + EnTraces(es), r.0, ms + r.1)
  {
    if es == [] {
      RienDePlus(ts);
      RienDePlus(ms);
    } else {
      var debut, e := es[..|es| - 1], es[|es| - 1];
      var avant := EmettreTous(keysym, l, debut);
      var r := Emettre(keysym, avant.0, e);
      EmettreTousExact(keysym, ts, l, ms, debut);
      EmettreUnDePlus(keysym, ts + EnTraces(debut), avant.0, ms + avant.1, e);
      TracesSuite(ts, es);
      Associe(ms, avant.1, r.1);
    }
  }

  lemma TracesSuite(ts: seq<Trace>, es: seq<Frappe>)
    requires es != []
    ensures ts + EnTraces(es[..|es| - 1]) + [Passee(es[|es| - 1])] == ts + EnTraces(es)
  {
  }

  lemma RienDePlus<T>(s: seq<T>)
    ensures s + [] == s
  {
  }

  lemma EmettreUnDePlus(keysym: Touche -> Option<u32>, ts: seq<Trace>, l: seq<u32>, ms: seq<seq<octet>>, e: Frappe)
    requires Exacte(keysym, ts, l, ms)
    ensures var r := Emettre(keysym, l, e); Exacte(keysym, ts + [Passee(e)], r.0, ms + r.1)
  {
    var r := Emettre(keysym, l, e);
    EmettreExact(keysym, ts, l, e);
    ExacteSuite(keysym, ts, Passee(e), l, ms, r.0, r.1);
  }

  lemma FlouExact(keysym: Touche -> Option<u32>, ts: seq<Trace>, l: seq<u32>, ms: seq<seq<octet>>)
    requires Exacte(keysym, ts, l, ms)
    ensures Exacte(keysym, ts + [Perdue], [], ms + Relachements(l))
  {
    ListeVide(keysym, ts + [Perdue]);
    RelachementsLitteraux(l);
    assert (ts + [Perdue])[..|ts|] == ts;
    ExacteSuite(keysym, ts, Perdue, l, ms, [], Relachements(l));
  }

  /** What an event adds to what came out of the filter. */
  function Ajout(f: Filtre, ev: Evenement): seq<Trace> {
    match ev
    case Frapper(e) => EnTraces(Filtrer(f, e).1)
    case Expiration => EnTraces(Expirer(f).1)
    case Flou => [Perdue]
  }

  lemma SuitExact(keysym: Touche -> Option<u32>, s: SessionVnc, ts: seq<Trace>, ev: Evenement)
    requires Exacte(keysym, ts, s.tenues, s.envoyes)
    ensures var s' := Suit(keysym, s, ev); Exacte(keysym, ts + Ajout(s.f, ev), s'.tenues, s'.envoyes)
  {
    match ev
    case Frapper(e) => EmettreTousExact(keysym, ts, s.tenues, s.envoyes, Filtrer(s.f, e).1);
    case Expiration => EmettreTousExact(keysym, ts, s.tenues, s.envoyes, Expirer(s.f).1);
    case Flou => FlouExact(keysym, ts, s.tenues, s.envoyes);
  }

  lemma SortieSuite(actif: bool, evs: seq<Evenement>)
    requires evs != []
    ensures var debut, ev := evs[..|evs| - 1], evs[|evs| - 1];
            var f := Filtree(actif, debut).f;
            && Sortie(actif, evs) == Sortie(actif, debut) + Ajout(f, ev)
            && Filtree(actif, evs).f
               == match ev case Frapper(e) => Filtrer(f, e).0 case Expiration => Expirer(f).0 case Flou => f
  {
    var debut, ev := evs[..|evs| - 1], evs[|evs| - 1];
    FiltreeSuite(actif, debut, ev);
    assert debut + [ev] == evs;
  }

  /** Over any sequence of keystrokes, timer expiries and losses of focus, with any keyboard table: the keys held are
      those whose last keystroke let through since focus was last lost is a press, in the order they came to be held,
      and the messages sent are those of the keystrokes let through and of the losses of focus, one after the other.
      */
  lemma {:induction false} ToujoursExact(keysym: Touche -> Option<u32>, actif: bool, evs: seq<Evenement>)
    ensures var s := SuitTous(keysym, SessionVnc(Neuf(actif).f, [], []), evs);
            Exacte(keysym, Sortie(actif, evs), s.tenues, s.envoyes) && s.f == Filtree(actif, evs).f
  {
    if evs == [] {
      ListeVide(keysym, []);
      assert Envoyes(keysym, [], []) && Bout([]) == [];
    } else {
      var debut, ev := evs[..|evs| - 1], evs[|evs| - 1];
      ToujoursExact(keysym, actif, debut);
      SortieSuite(actif, evs);
      SuitExact(keysym, SuitTous(keysym, SessionVnc(Neuf(actif).f, [], []), debut), Sortie(actif, debut), ev);
    }
  }

  /** ... so the server holds a keysym if and only if the last keystroke about it let through since focus was last lost
      is a press. */
  lemma ServeurExact(keysym: Touche -> Option<u32>, actif: bool, evs: seq<Evenement>, ks: u32)
    ensures var s := SuitTous(keysym, SessionVnc(Neuf(actif).f, [], []), evs);
            ks in ServeurTous({}, s.envoyes) <==> EstTenue(keysym, Sortie(actif, evs), ks)
  {
    var s := SuitTous(keysym, SessionVnc(Neuf(actif).f, [], []), evs);
    ToujoursExact(keysym, actif, evs);
    ToujoursAccord(keysym, actif, evs);
    var ps: seq<nat> :| EstListe(keysym, Sortie(actif, evs), s.tenues, ps);
    TenueSiListee(keysym, Sortie(actif, evs), s.tenues, ps, ks);
  }
}
