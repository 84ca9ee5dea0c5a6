/** The keyboard of a VNC desktop: the filter of the synthetic Ctrl of AltGr, then the set of keys the server holds. */
module Clavier {
  import opened Octets

  datatype Touche = Touche(key: string, code: string)

  /** A key going down or up. */
  datatype Frappe = Frappe(t: Touche, enfonce: bool)

  predicate CtrlGauche(f: Frappe) {
    f.enfonce && f.t.key == "Control" && f.t.code == "ControlLeft"
  }

  predicate AltGr(f: Frappe) {
    f.enfonce && f.t.key == "AltGraph"
  }

  predicate FinCtrlGauche(f: Frappe) {
    !f.enfonce && f.t.code == "ControlLeft"
  }

  // ---------- The filter ----------

  /** The Ctrl held back, whether its timer is armed, and whether the next left Ctrl release is its twin. */
  datatype Filtre = Filtre(actif: bool, differe: Option<Touche>, minuteur: bool, avaler: bool)

  function EnAttente(f: Filtre): seq<Frappe> {
    if f.differe.Some? then [Frappe(f.differe.value, true)] else []
  }

  /** What becomes of a keystroke: state after, and what is emitted. */
  function Filtrer(f: Filtre, e: Frappe): (r: (Filtre, seq<Frappe>)) {
    if !f.actif then (f, [e])
    else if CtrlGauche(e) then (f.(differe := Some(e.t), minuteur := true), EnAttente(f))
    else if AltGr(e) then
      if f.differe.Some? then (f.(differe := None, minuteur := false, avaler := true), [e]) else (f, [e])
    else if FinCtrlGauche(e) && f.avaler then (f.(avaler := false), [])
    else (f.(differe := None, minuteur := false), EnAttente(f) + [e])
  }

  /** The timer fires. */
  function Expirer(f: Filtre): (Filtre, seq<Frappe>) {
    if f.minuteur then (f.(differe := None, minuteur := false), EnAttente(f)) else (f, [])
  }

  class FiltreCtrlAltGrWindows {
    const actif: bool
    var ctrlDiffere: Option<Touche>
    var minuteur: bool
    var avaler: bool

    ghost function Vue(): Filtre
      reads this
    {
      Filtre(actif, ctrlDiffere, minuteur, avaler)
    }

    /** A Ctrl is held back exactly while its timer is armed. */
    ghost predicate Valid()
      reads this
    {
      ctrlDiffere.Some? <==> minuteur
    }

    constructor (actif: bool)
      ensures Valid() && Vue() == Filtre(actif, None, false, false)
    {
      this.actif := actif;
      ctrlDiffere, minuteur, avaler := None, false, false;
    }

    method ViderDiffere() returns (emis: seq<Frappe>)
      modifies this`ctrlDiffere
      ensures ctrlDiffere == None && emis == EnAttente(old(Vue()))
    {
      if ctrlDiffere.None? {
        return [];
      }
      var e := ctrlDiffere.value;
      ctrlDiffere := None;
      return [Frappe(e, true)];
    }

    method Vider() returns (emis: seq<Frappe>)
      modifies this`ctrlDiffere, this`minuteur
      ensures ctrlDiffere == None && !minuteur && emis == EnAttente(old(Vue()))
    {
      minuteur := false;
      emis := ViderDiffere();
    }

    method Traiter(e: Frappe) returns (emis: seq<Frappe>)
      requires Valid()
      modifies this
      ensures Valid() && (Vue(), emis) == Filtrer(old(Vue()), e)
    {
      if !actif {
        return [e];
      }
      if e.enfonce && e.t.key == "Control" && e.t.code == "ControlLeft" {
        emis := Vider();
        ctrlDiffere, minuteur := Some(e.t), true;
        return;
      }
      if e.enfonce && e.t.key == "AltGraph" {
        if ctrlDiffere.Some? {
          minuteur := false;
          ctrlDiffere := None;
          avaler := true;
        }
        return [e];
      }
      if !e.enfonce && e.t.code == "ControlLeft" && avaler {
        avaler := false;
        return [];
      }
      emis := Vider();
      emis := emis + [e];
    }

    /** The timer of the held Ctrl fires. */
    method Minuteur() returns (emis: seq<Frappe>)
      requires Valid()
      modifies this
      ensures Valid() && (Vue(), emis) == Expirer(old(Vue()))
    {
      if !minuteur {
        return [];
      }
      minuteur := false;
      emis := ViderDiffere();
    }
  }

  // ---------- What the filter does over whole runs ----------

  /** The fate of a keystroke: sent on, held back, dropped as the synthetic Ctrl, swallowed as its release. */
  datatype Sort = Emise | Retenue | Abandonnee | Avalee

  /** A run of the filter: its state, the keystrokes received with their fates, and those sent on. */
  datatype Suivi = Suivi(f: Filtre, entrees: seq<Frappe>, sorts: seq<Sort>, sorties: seq<Frappe>)

  datatype Coup = Recue(e: Frappe) | Echeance

  /** A held keystroke gets its final fate. */
  function Fixer(sorts: seq<Sort>, s: Sort): seq<Sort> {
    seq(|sorts|, k requires 0 <= k < |sorts| => if sorts[k] == Retenue then s else sorts[k])
  }

  function SortDe(f: Filtre, e: Frappe): Sort {
    if !f.actif then Emise
    else if CtrlGauche(e) then Retenue
    else if !AltGr(e) && FinCtrlGauche(e) && f.avaler then Avalee
    else Emise
  }

  function Jouer(s: Suivi, c: Coup): Suivi {
    match c
    case Echeance => var r := Expirer(s.f); Suivi(r.0, s.entrees, Fixer(s.sorts, Emise), s.sorties + r.1)
    case Recue(e) =>
      var r := Filtrer(s.f, e);
      var sorts := if s.f.actif && AltGr(e) then Fixer(s.sorts, Abandonnee)
                   else if SortDe(s.f, e) == Avalee then s.sorts
                   else Fixer(s.sorts, Emise);
      Suivi(r.0, s.entrees + [e], sorts + [SortDe(s.f, e)], s.sorties + r.1)
  }

  function JouerTous(s: Suivi, cs: seq<Coup>): Suivi {
    if cs == [] then s else Jouer(JouerTous(s, cs[..|cs| - 1]), cs[|cs| - 1])
  }

  function Neuf(actif: bool): Suivi {
    Suivi(Filtre(actif, None, false, false), [], [], [])
  }

  /** The keystrokes of a given fate, in order. */
  function Choix(es: seq<Frappe>, sorts: seq<Sort>, s: Sort): seq<Frappe>
    requires |es| == |sorts|
  {
    if es == [] then [] else
      var debut := Choix(es[..|es| - 1], sorts[..|es| - 1], s);
      if sorts[|es| - 1] == s then debut + [es[|es| - 1]] else debut
  }

  function Compte(sorts: seq<Sort>, s: Sort): nat {
    if sorts == [] then 0 else Compte(sorts[..|sorts| - 1], s) + if sorts[|sorts| - 1] == s then 1 else 0
  }

  /** Position k holds a left Ctrl keydown and everything after it was swallowed. */
  ghost predicate DerniereUtile(s: Suivi, k: nat) {
    && k < |s.sorts| == |s.entrees| && s.sorts[k] == Retenue && CtrlGauche(s.entrees[k])
    && (s.f.differe == Some(s.entrees[k].t))
    && (forall j :: k < j < |s.sorts| ==> s.sorts[j] == Avalee)
    && (forall j :: 0 <= j < k ==> s.sorts[j] != Retenue)
  }

  /** A dropped keystroke is a left Ctrl keydown followed, but for swallowed releases, by an AltGr keydown. */
  ghost predicate SuivieAltGr(s: Suivi, k: nat)
    requires k < |s.sorts| == |s.entrees|
  {
    CtrlGauche(s.entrees[k])
    && exists j :: k < j < |s.sorts| && AltGr(s.entrees[j]) && s.sorts[j] == Emise
                   && forall i :: k < i < j ==> s.sorts[i] == Avalee
  }

  ghost predicate Fidele(s: Suivi) {
    && |s.entrees| == |s.sorts|
    && (s.f.differe.Some? <==> s.f.minuteur)
    && (if s.f.differe.Some? then exists k :: DerniereUtile(s, k) else Retenue !in s.sorts)
    && s.sorties == Choix(s.entrees, s.sorts, Emise)
    && (forall k :: 0 <= k < |s.sorts| && s.sorts[k] == Abandonnee ==> SuivieAltGr(s, k))
    && (forall k :: 0 <= k < |s.sorts| && s.sorts[k] == Avalee ==> FinCtrlGauche(s.entrees[k]))
    && Compte(s.sorts, Avalee) + (if s.f.avaler then 1 else 0) <= Compte(s.sorts, Abandonnee)
    && (!s.f.actif ==> s.f.differe.None? && !s.f.avaler && forall k :: 0 <= k < |s.sorts| ==> s.sorts[k] == Emise)
  }

  lemma FixerSansRetenue(sorts: seq<Sort>, s: Sort)
    requires Retenue !in sorts
    ensures Fixer(sorts, s) == sorts
  {
  }

  /** Giving its fate to a held keystroke that only swallowed ones follow. */
  lemma {:induction false} ChoixFixe(es: seq<Frappe>, sorts: seq<Sort>, k: nat, s: Sort)
    requires k < |es| == |sorts| && sorts[k] == Retenue && s != Retenue && s != Avalee
    requires forall j :: k < j < |sorts| ==> sorts[j] == Avalee
    requires forall j :: 0 <= j < k ==> sorts[j] != Retenue
    ensures Choix(es, Fixer(sorts, s), Emise) == Choix(es, sorts, Emise) + if s == Emise then [es[k]] else []
    ensures Compte(Fixer(sorts, s), Avalee) == Compte(sorts, Avalee)
    ensures Compte(Fixer(sorts, s), Abandonnee) == Compte(sorts, Abandonnee) + if s == Abandonnee then 1 else 0
  {
    var n := |es| - 1;
    assert Fixer(sorts, s)[..n] == Fixer(sorts[..n], s);
    if k < n {
      ChoixFixe(es[..n], sorts[..n], k, s);
    } else {
      assert Fixer(sorts[..n], s) == sorts[..n];
    }
  }

  lemma {:induction false} UnDePlus(es: seq<Frappe>, sorts: seq<Sort>, e: Frappe, s: Sort)
    requires |es| == |sorts|
    ensures Choix(es + [e], sorts + [s], Emise) == Choix(es, sorts, Emise) + if s == Emise then [e] else []
    ensures forall t :: Compte(sorts + [s], t) == Compte(sorts, t) + if s == t then 1 else 0
  {
    assert (es + [e])[..|es|] == es && (sorts + [s])[..|es|] == sorts;
  }

  /** Sending the held Ctrl on, if there is one. */
  lemma ViderFidele(s: Suivi)
    requires Fidele(s)
    ensures Fidele(Jouer(s, Echeance)) && Jouer(s, Echeance).f.differe.None?
  {
    var s' := Jouer(s, Echeance);
    if s.f.differe.Some? {
      var k: nat :| DerniereUtile(s, k);
      ChoixFixe(s.entrees, s.sorts, k, Emise);
      assert s.entrees[k] == Frappe(s.f.differe.value, true);
      forall i | 0 <= i < |s'.sorts| && s'.sorts[i] == Abandonnee ensures SuivieAltGr(s', i) {
        MemeSuite(s, s', i);
      }
    } else {
      FixerSansRetenue(s.sorts, Emise);
      assert s.sorties + [] == s.sorties;
    }
  }

  /** What made a drop legitimate still does when only the fate of held keystrokes changes, or keystrokes are added. */
  lemma MemeSuite(s: Suivi, s': Suivi, i: nat)
    requires i < |s.sorts| == |s.entrees| <= |s'.sorts| == |s'.entrees| && SuivieAltGr(s, i)
    requires forall k :: 0 <= k < |s.sorts| ==>
      s'.entrees[k] == s.entrees[k] && (s.sorts[k] != Retenue ==> s'.sorts[k] == s.sorts[k])
    ensures SuivieAltGr(s', i)
  {
    var j :| i < j < |s.sorts| && AltGr(s.entrees[j]) && s.sorts[j] == Emise
      && forall q :: i < q < j ==> s.sorts[q] == Avalee;
    assert AltGr(s'.entrees[j]) && s'.sorts[j] == Emise;
  }

  /** Receiving a keystroke that is sent on at once. */
  lemma EmiseFidele(s: Suivi, e: Frappe)
    requires Fidele(s) && s.f.differe.None?
    ensures Fidele(Suivi(s.f, s.entrees + [e], s.sorts + [Emise], s.sorties + [e]))
  {
    var s' := Suivi(s.f, s.entrees + [e], s.sorts + [Emise], s.sorties + [e]);
    UnDePlus(s.entrees, s.sorts, e, Emise);
    forall i | 0 <= i < |s'.sorts| && s'.sorts[i] == Abandonnee ensures SuivieAltGr(s', i) {
      MemeSuite(s, s', i);
    }
  }

  /** Receiving a left Ctrl, held back. */
  lemma RetenueFidele(s: Suivi, e: Frappe)
    requires Fidele(s) && s.f.actif && s.f.differe.None? && CtrlGauche(e)
    ensures Fidele(Suivi(s.f.(differe := Some(e.t), minuteur := true), s.entrees + [e], s.sorts + [Retenue], s.sorties))
  {
    var s' := Suivi(s.f.(differe := Some(e.t), minuteur := true), s.entrees + [e], s.sorts + [Retenue], s.sorties);
    UnDePlus(s.entrees, s.sorts, e, Retenue);
    assert DerniereUtile(s', |s.sorts|);
    forall i | 0 <= i < |s'.sorts| && s'.sorts[i] == Abandonnee ensures SuivieAltGr(s', i) {
      MemeSuite(s, s', i);
    }
  }

  /** Receiving the release of a dropped Ctrl, swallowed. */
  lemma AvaleeFidele(s: Suivi, e: Frappe)
    requires Fidele(s) && s.f.actif && s.f.avaler && FinCtrlGauche(e)
    ensures Fidele(Suivi(s.f.(avaler := false), s.entrees + [e], s.sorts + [Avalee], s.sorties))
  {
    var s' := Suivi(s.f.(avaler := false), s.entrees + [e], s.sorts + [Avalee], s.sorties);
    UnDePlus(s.entrees, s.sorts, e, Avalee);
    if s.f.differe.Some? {
      var k :| DerniereUtile(s, k);
      assert DerniereUtile(s', k);
    }
    forall i | 0 <= i < |s'.sorts| && s'.sorts[i] == Abandonnee ensures SuivieAltGr(s', i) {
      MemeSuite(s, s', i);
    }
  }

  /** Receiving AltGr while a Ctrl is held: the Ctrl is dropped. */
  lemma AbandonFidele(s: Suivi, e: Frappe)
    requires Fidele(s) && s.f.differe.Some? && AltGr(e)
    ensures Fidele(Suivi(s.f.(differe := None, minuteur := false, avaler := true),
                         s.entrees + [e], Fixer(s.sorts, Abandonnee) + [Emise], s.sorties + [e]))
  {
    var sorts := Fixer(s.sorts, Abandonnee);
    var s' := Suivi(s.f.(differe := None, minuteur := false, avaler := true),
                     s.entrees + [e], sorts + [Emise], s.sorties + [e]);
    var k: nat :| DerniereUtile(s, k);
    ChoixFixe(s.entrees, s.sorts, k, Abandonnee);
    UnDePlus(s.entrees, sorts, e, Emise);
    AbandonsSuivis(s, s', k, e);
  }

  lemma AbandonsSuivis(s: Suivi, s': Suivi, k: nat, e: Frappe)
    requires DerniereUtile(s, k) && AltGr(e) && s'.entrees == s.entrees + [e]
    requires s'.sorts == Fixer(s.sorts, Abandonnee) + [Emise]
    requires forall i :: 0 <= i < |s.sorts| && s.sorts[i] == Abandonnee ==> SuivieAltGr(s, i)
    ensures forall i :: 0 <= i < |s'.sorts| && s'.sorts[i] == Abandonnee ==> SuivieAltGr(s', i)
  {
    AbandonSuivi(s, s', k, e);
    forall i | 0 <= i < |s'.sorts| && s'.sorts[i] == Abandonnee ensures SuivieAltGr(s', i) {
      if i != k {
        MemeSuite(s, s', i);
      }
    }
  }

  /** The dropped Ctrl is followed by the AltGr just received. */
  lemma AbandonSuivi(s: Suivi, s': Suivi, k: nat, e: Frappe)
    requires DerniereUtile(s, k) && AltGr(e) && s'.entrees == s.entrees + [e]
    requires s'.sorts == Fixer(s.sorts, Abandonnee) + [Emise]
    ensures SuivieAltGr(s', k)
  {
    assert AltGr(s'.entrees[|s.sorts|]) && s'.sorts[|s.sorts|] == Emise;
  }

  /** Receiving AltGr. */
  lemma AltGrFidele(s: Suivi, e: Frappe)
    requires Fidele(s) && s.f.actif && AltGr(e)
    ensures Fidele(Jouer(s, Recue(e)))
  {
    if s.f.differe.Some? {
      AbandonFidele(s, e);
    } else {
      FixerSansRetenue(s.sorts, Abandonnee);
      EmiseFidele(s, e);
    }
  }

  /** Receiving anything else, after the held Ctrl. */
  lemma AutreFidele(s: Suivi, e: Frappe)
    requires Fidele(s) && s.f.actif && !CtrlGauche(e) && !AltGr(e) && !(FinCtrlGauche(e) && s.f.avaler)
    ensures Fidele(Jouer(s, Recue(e)))
  {
    ViderFidele(s);
    EmiseFidele(Jouer(s, Echeance), e);
    assert s.sorties + EnAttente(s.f) + [e] == s.sorties + (EnAttente(s.f) + [e]);
  }

  lemma RecueFidele(s: Suivi, e: Frappe)
    requires Fidele(s)
    ensures Fidele(Jouer(s, Recue(e)))
  {
    if !s.f.actif {
      FixerSansRetenue(s.sorts, Emise);
      EmiseFidele(s, e);
    } else if CtrlGauche(e) {
      ViderFidele(s);
      RetenueFidele(Jouer(s, Echeance), e);
    } else if AltGr(e) {
      AltGrFidele(s, e);
    } else if FinCtrlGauche(e) && s.f.avaler {
      AvaleeFidele(s, e);
      assert s.sorties + [] == s.sorties;
    } else {
      AutreFidele(s, e);
    }
  }

  /** Over any run of keystrokes and timer expiries: what is sent on is the keystrokes of fate Emise, in order; a
      Ctrl is pending exactly while the timer runs, and nothing useful was received after it; every dropped
      keystroke is a left Ctrl that an AltGr follows; every swallowed one is a left Ctrl release, and there are no
      more of them than drops; a filter out of service sends everything on. */
  lemma {:induction false} ToujoursFidele(actif: bool, cs: seq<Coup>)
    ensures Fidele(JouerTous(Neuf(actif), cs))
  {
    if cs != [] {
      var s := JouerTous(Neuf(actif), cs[..|cs| - 1]);
      ToujoursFidele(actif, cs[..|cs| - 1]);
      match cs[|cs| - 1]
      case Echeance => ViderFidele(s);
      case Recue(e) => RecueFidele(s, e);
    }
  }

  // ---------- In-order subsequence ----------

  /** `a` can be got from `b` by deleting elements. */
  ghost predicate SousSuite<T(!new)>(a: seq<T>, b: seq<T>) {
    a == [] || (b != [] && (SousSuite(a, b[..|b| - 1])
                            || (a[|a| - 1] == b[|b| - 1] && SousSuite(a[..|a| - 1], b[..|b| - 1]))))
  }

  lemma {:induction false} ChoixSousSuite(es: seq<Frappe>, sorts: seq<Sort>, s: Sort)
    requires |es| == |sorts|
    ensures SousSuite(Choix(es, sorts, s), es)
  {
    if es != [] {
      ChoixSousSuite(es[..|es| - 1], sorts[..|es| - 1], s);
      var c := Choix(es, sorts, s);
      if sorts[|es| - 1] == s {
        assert c[..|c| - 1] == Choix(es[..|es| - 1], sorts[..|es| - 1], s);
      }
    }
  }

  /** What was sent on, then the pending Ctrl, is always an in-order subsequence of what was received. */
  lemma EnOrdre(actif: bool, cs: seq<Coup>)
    ensures var s := JouerTous(Neuf(actif), cs); SousSuite(s.sorties + EnAttente(s.f), s.entrees)
  {
    var s := JouerTous(Neuf(actif), cs);
    ToujoursFidele(actif, cs);
    ViderFidele(s);
    var v := Jouer(s, Echeance);
    assert v.sorties == s.sorties + EnAttente(s.f);
    ChoixSousSuite(v.entrees, v.sorts, Emise);
  }

  /** A filter out of service is the identity. */
  lemma {:induction false} HorsService(cs: seq<Coup>)
    ensures var s := JouerTous(Neuf(false), cs); s.sorties == s.entrees && s.f == Neuf(false).f
  {
    if cs != [] {
      HorsService(cs[..|cs| - 1]);
    }
  }

  // ---------- Keys held on the server ----------

  /** The keysym message [14]: keysym on four bytes, then 1 for a press. */
  function MessageKeysym(ks: u32, enfonce: bool): (m: seq<octet>)
    ensures |m| == 6
  {
    [14] + Le32(ks) + [if enfonce then 1 else 0]
  }

  /** The set of keysyms a server holds after a message: it decodes the bytes. */
  function Serveur(tenus: set<u32>, m: seq<octet>): set<u32> {
    if |m| == 6 && m[0] == 14 then
      if m[5] == 1 then tenus + {U32(m, 1)} else tenus - {U32(m, 1)}
    else tenus
  }

  function ServeurTous(tenus: set<u32>, ms: seq<seq<octet>>): set<u32> {
    if ms == [] then tenus else Serveur(ServeurTous(tenus, ms[..|ms| - 1]), ms[|ms| - 1])
  }

  lemma KeysymRelu(tenus: set<u32>, ks: u32, enfonce: bool)
    ensures Serveur(tenus, MessageKeysym(ks, enfonce)) == if enfonce then tenus + {ks} else tenus - {ks}
  {
    var m := MessageKeysym(ks, enfonce);
    assert m[1..5] == Le32(ks);
    Le32Relu(m, 1, ks);
  }

  /** No message releases a keysym the server does not hold. */
  ghost predicate SansFantome(tenus: set<u32>, ms: seq<seq<octet>>) {
    forall k :: 0 <= k < |ms| && |ms[k]| == 6 && ms[k][5] == 0 ==> U32(ms[k], 1) in ServeurTous(tenus, ms[..k])
  }

  /** The keys held in this session, in the order they were pressed. */
  class ToucheTenues {
    var tenues: seq<u32>

    ghost predicate Valid()
      reads this
    {
      SansDoublon(tenues)
    }

    constructor ()
      ensures Valid() && tenues == []
    {
      tenues := [];
    }

    method Enfoncer(ks: u32)
      requires Valid()
      modifies this
      ensures Valid() && tenues == if ks in old(tenues) then old(tenues) else old(tenues) + [ks]
    {
      if ks !in tenues {
        tenues := tenues + [ks];
      }
    }

    /** Removes a key; false if it was not held. */
    method Relacher(ks: u32) returns (tenue: bool)
      requires Valid()
      modifies this
      ensures Valid() && tenues == Sans(old(tenues), ks)
      ensures (tenue <==> ks in old(tenues)) && (!tenue ==> tenues == old(tenues))
    {
      tenue := ks in tenues;
      SansRetire(tenues, ks);
      tenues := Sans(tenues, ks);
    }

    /** The release messages of everything held, then nothing is held. */
    method RelacherTout() returns (ms: seq<seq<octet>>)
      requires Valid()
      modifies this
      ensures Valid() && tenues == []
      ensures ms == Relachements(old(tenues))
    {
      ms := [];
      for i := 0 to |tenues|
        invariant ms == Relachements(tenues[..i]) && tenues == old(tenues)
      {
        assert tenues[..i + 1][..i] == tenues[..i];
        ms := ms + [MessageKeysym(tenues[i], false)];
      }
      assert tenues[..|tenues|] == tenues;
      tenues := [];
    }
  }

  function Ensemble(s: seq<u32>): set<u32> {
    set k | k in s
  }

  function Relachements(tenues: seq<u32>): (ms: seq<seq<octet>>)
    ensures |ms| == |tenues|
  {
    if tenues == [] then [] else Relachements(tenues[..|tenues| - 1]) + [MessageKeysym(tenues[|tenues| - 1], false)]
  }

  lemma {:induction false} ServeurConcat(tenus: set<u32>, a: seq<seq<octet>>, b: seq<seq<octet>>)
    ensures ServeurTous(tenus, a + b) == ServeurTous(ServeurTous(tenus, a), b)
  {
    if b == [] {
      assert a + b == a;
    } else {
      assert (a + b)[..|a + b| - 1] == a + b[..|b| - 1];
      ServeurConcat(tenus, a, b[..|b| - 1]);
    }
  }

  lemma SansFantomeConcat(tenus: set<u32>, a: seq<seq<octet>>, b: seq<seq<octet>>)
    requires SansFantome(tenus, a) && SansFantome(ServeurTous(tenus, a), b)
    ensures SansFantome(tenus, a + b)
  {
    forall k | 0 <= k < |a + b| && |(a + b)[k]| == 6 && (a + b)[k][5] == 0
      ensures U32((a + b)[k], 1) in ServeurTous(tenus, (a + b)[..k])
    {
      if k < |a| {
        assert (a + b)[..k] == a[..k];
      } else {
        assert (a + b)[..k] == a + b[..k - |a|];
        ServeurConcat(tenus, a, b[..k - |a|]);
      }
    }
  }

  /** Releasing every held key, one message each, leaves nothing held and releases nothing twice. */
  lemma {:induction false} RelachementsVident(tenues: seq<u32>)
    requires SansDoublon(tenues)
    ensures ServeurTous(Ensemble(tenues), Relachements(tenues)) == {}
    ensures SansFantome(Ensemble(tenues), Relachements(tenues))
  {
    RelachementsJusqua(tenues, |tenues|);
    assert tenues[..|tenues|] == tenues && tenues[|tenues|..] == [];
    forall k | 0 <= k < |tenues| && |Relachements(tenues)[k]| == 6 && Relachements(tenues)[k][5] == 0
      ensures U32(Relachements(tenues)[k], 1) in ServeurTous(Ensemble(tenues), Relachements(tenues)[..k])
    {
      RelachementsJusqua(tenues, k);
      RelachementsPrefixe(tenues, k);
      var m := MessageKeysym(tenues[k], false);
      assert m[1..5] == Le32(tenues[k]);
      Le32Relu(m, 1, tenues[k]);
      assert tenues[k] in tenues[k..];
    }
  }

  lemma {:induction false} RelachementsPrefixe(tenues: seq<u32>, k: nat)
    requires k <= |tenues|
    ensures Relachements(tenues)[..k] == Relachements(tenues[..k])
    ensures k < |tenues| ==> Relachements(tenues)[k] == MessageKeysym(tenues[k], false)
  {
    var n := |tenues|;
    if k == n {
      assert tenues[..k] == tenues;
    } else if k < n - 1 {
      RelachementsPrefixe(tenues[..n - 1], k);
      assert tenues[..n - 1][..k] == tenues[..k];
    }
  }

  /** After the first k releases exactly the other keys are held. */
  lemma {:induction false} RelachementsJusqua(tenues: seq<u32>, k: nat)
    requires k <= |tenues|
    requires SansDoublon(tenues)
    ensures ServeurTous(Ensemble(tenues), Relachements(tenues[..k])) == Ensemble(tenues[k..])
  {
    if k == 0 {
      assert tenues[0..] == tenues;
    } else {
      RelachementsJusqua(tenues, k - 1);
      assert tenues[..k][..k - 1] == tenues[..k - 1];
      KeysymRelu(Ensemble(tenues[k - 1..]), tenues[k - 1], false);
      assert tenues[k - 1..] == [tenues[k - 1]] + tenues[k..];
    }
  }

  // ---------- The two together ----------

  /** What emitting a keystroke does: held keys after, and messages sent. `keysym` is the keyboard table. */
  function Emettre(keysym: Touche -> Option<u32>, tenues: seq<u32>, e: Frappe): (r: (seq<u32>, seq<seq<octet>>)) {
    var ks := keysym(e.t);
    if ks.None? then (tenues, [])
    else if e.enfonce then
      (if ks.value in tenues then tenues else tenues + [ks.value], [MessageKeysym(ks.value, true)])
    else if ks.value in tenues then (Sans(tenues, ks.value), [MessageKeysym(ks.value, false)])
    else (tenues, [])
  }

  /** The list without its first occurrence of a key. */
  function Sans(tenues: seq<u32>, ks: u32): seq<u32> {
    if tenues == [] then [] else if tenues[0] == ks then tenues[1..] else [tenues[0]] + Sans(tenues[1..], ks)
  }

  function EmettreTous(keysym: Touche -> Option<u32>, tenues: seq<u32>, es: seq<Frappe>)
    : (r: (seq<u32>, seq<seq<octet>>)) {
    if es == [] then (tenues, []) else
      var avant := EmettreTous(keysym, tenues, es[..|es| - 1]);
      var r := Emettre(keysym, avant.0, es[|es| - 1]);
      (r.0, avant.1 + r.1)
  }

  /** A VNC session: filter, held keys, messages sent so far on the open socket. */
  datatype SessionVnc = SessionVnc(f: Filtre, tenues: seq<u32>, envoyes: seq<seq<octet>>)

  /** A keystroke on the canvas, the timer of the filter, or the canvas losing focus (or being hidden). */
  datatype Evenement = Frapper(e: Frappe) | Expiration | Flou

  function Suit(keysym: Touche -> Option<u32>, s: SessionVnc, ev: Evenement): SessionVnc {
    match ev
    case Frapper(e) =>
      var r := Filtrer(s.f, e);
      var m := EmettreTous(keysym, s.tenues, r.1);
      SessionVnc(r.0, m.0, s.envoyes + m.1)
    case Expiration =>
      var r := Expirer(s.f);
      var m := EmettreTous(keysym, s.tenues, r.1);
      SessionVnc(r.0, m.0, s.envoyes + m.1)
    case Flou => SessionVnc(s.f, [], s.envoyes + Relachements(s.tenues))
  }

  function SuitTous(keysym: Touche -> Option<u32>, s: SessionVnc, evs: seq<Evenement>): SessionVnc {
    if evs == [] then s else Suit(keysym, SuitTous(keysym, s, evs[..|evs| - 1]), evs[|evs| - 1])
  }

  predicate SansDoublon(tenues: seq<u32>) {
    forall i, j :: 0 <= i < j < |tenues| ==> tenues[i] != tenues[j]
  }

  /** The held keys are those of the server, each once, and no release was ever sent for a key it did not hold. */
  ghost predicate Accord(s: SessionVnc) {
    && SansDoublon(s.tenues)
    && ServeurTous({}, s.envoyes) == Ensemble(s.tenues)
    && SansFantome({}, s.envoyes)
  }

  lemma {:induction false} SansRetire(tenues: seq<u32>, ks: u32)
    requires SansDoublon(tenues)
    ensures SansDoublon(Sans(tenues, ks)) && Ensemble(Sans(tenues, ks)) == Ensemble(tenues) - {ks}
    ensures ks !in tenues ==> Sans(tenues, ks) == tenues
  {
    if tenues != [] {
      SansRetire(tenues[1..], ks);
      assert tenues == [tenues[0]] + tenues[1..];
      assert Ensemble(tenues) == {tenues[0]} + Ensemble(tenues[1..]);
      assert tenues[0] !in tenues[1..];
      if tenues[0] != ks {
        var r := Sans(tenues[1..], ks);
        assert forall k :: k in r ==> k in Ensemble(r);
        assert Ensemble([tenues[0]] + r) == {tenues[0]} + Ensemble(r);
      }
    }
  }

  /** One keystroke: its message keeps the server in step and is no phantom release. */
  lemma EmettreAccord(keysym: Touche -> Option<u32>, tenues: seq<u32>, e: Frappe)
    requires SansDoublon(tenues)
    ensures var r := Emettre(keysym, tenues, e);
            && SansDoublon(r.0)
            && ServeurTous(Ensemble(tenues), r.1) == Ensemble(r.0)
            && SansFantome(Ensemble(tenues), r.1)
  {
    var ks := keysym(e.t);
    if ks.Some? {
      var m := MessageKeysym(ks.value, e.enfonce);
      KeysymRelu(Ensemble(tenues), ks.value, e.enfonce);
      var un: seq<seq<octet>> := [m];
      assert un[..0] == [];
      assert m[1..5] == Le32(ks.value);
      Le32Relu(m, 1, ks.value);
      SansRetire(tenues, ks.value);
    }
  }

  lemma {:induction false} EmettreTousAccord(keysym: Touche -> Option<u32>, tenues: seq<u32>, es: seq<Frappe>)
    requires SansDoublon(tenues)
    ensures var r := EmettreTous(keysym, tenues, es);
            && SansDoublon(r.0)
            && ServeurTous(Ensemble(tenues), r.1) == Ensemble(r.0)
            && SansFantome(Ensemble(tenues), r.1)
  {
    if es != [] {
      EmettreTousAccord(keysym, tenues, es[..|es| - 1]);
      var avant := EmettreTous(keysym, tenues, es[..|es| - 1]);
      EmettreAccord(keysym, avant.0, es[|es| - 1]);
      ServeurConcat(Ensemble(tenues), avant.1, Emettre(keysym, avant.0, es[|es| - 1]).1);
      SansFantomeConcat(Ensemble(tenues), avant.1, Emettre(keysym, avant.0, es[|es| - 1]).1);
    }
  }

  lemma SuitAccord(keysym: Touche -> Option<u32>, s: SessionVnc, ev: Evenement)
    requires Accord(s)
    ensures Accord(Suit(keysym, s, ev))
  {
    var ms := match ev
      case Frapper(e) => EmettreTous(keysym, s.tenues, Filtrer(s.f, e).1).1
      case Expiration => EmettreTous(keysym, s.tenues, Expirer(s.f).1).1
      case Flou => Relachements(s.tenues);
    match ev {
      case Frapper(e) => EmettreTousAccord(keysym, s.tenues, Filtrer(s.f, e).1);
      case Expiration => EmettreTousAccord(keysym, s.tenues, Expirer(s.f).1);
      case Flou => RelachementsVident(s.tenues);
    }
    ServeurConcat({}, s.envoyes, ms);
    SansFantomeConcat({}, s.envoyes, ms);
  }

  /** Over any sequence of keystrokes, timer expiries and losses of focus, with any keyboard table, the server holds
      exactly the keys of the session, and is never sent the release of a key it does not hold. */
  lemma {:induction false} ToujoursAccord(keysym: Touche -> Option<u32>, actif: bool, evs: seq<Evenement>)
    ensures Accord(SuitTous(keysym, SessionVnc(Neuf(actif).f, [], []), evs))
  {
    if evs == [] {
      assert Ensemble([]) == {};
    } else {
      ToujoursAccord(keysym, actif, evs[..|evs| - 1]);
      SuitAccord(keysym, SuitTous(keysym, SessionVnc(Neuf(actif).f, [], []), evs[..|evs| - 1]), evs[|evs| - 1]);
    }
  }

  /** Losing focus leaves nothing held, here or on the server; only a Ctrl still held back by the filter may be
      pressed later, by its timer. */
  lemma FlouRelacheTout(keysym: Touche -> Option<u32>, s: SessionVnc)
    requires Accord(s)
    ensures var s' := Suit(keysym, s, Flou); s'.tenues == [] && ServeurTous({}, s'.envoyes) == {} && s'.f == s.f
  {
    SuitAccord(keysym, s, Flou);
    assert Ensemble([]) == {};
  }

  /** The keyboard of one session, as wired on the canvas. */
  class ClavierVnc {
    const filtre: FiltreCtrlAltGrWindows
    const tenues: ToucheTenues
    const keysym: Touche -> Option<u32>
    var envoyes: seq<seq<octet>>

    ghost function Vue(): SessionVnc
      reads this, filtre, tenues
    {
      SessionVnc(filtre.Vue(), tenues.tenues, envoyes)
    }

    ghost predicate Valid()
      reads this, filtre, tenues
    {
      filtre.Valid() && tenues.Valid()
    }

    constructor (actif: bool, keysym: Touche -> Option<u32>)
      ensures Valid() && fresh(filtre) && fresh(tenues)
      ensures Vue() == SessionVnc(Neuf(actif).f, [], []) && this.keysym == keysym
    {
      filtre := new FiltreCtrlAltGrWindows(actif);
      tenues := new ToucheTenues();
      this.keysym := keysym;
      envoyes := [];
    }

    /** A keystroke that passed the filter: keysym, held keys, message. */
    method EmettreVnc(e: Frappe)
      requires Valid()
      modifies this, tenues
      ensures Valid() && filtre.Vue() == old(filtre.Vue())
      ensures tenues.tenues == Emettre(keysym, old(tenues.tenues), e).0
      ensures envoyes == old(envoyes) + Emettre(keysym, old(tenues.tenues), e).1
    {
      var ks := keysym(e.t);
      if ks.None? {
        return;
      }
      if e.enfonce {
        tenues.Enfoncer(ks.value);
      } else {
        var tenue := tenues.Relacher(ks.value);
        if !tenue {
          return;
        }
      }
      envoyes := envoyes + [MessageKeysym(ks.value, e.enfonce)];
    }

    method EmettreListe(es: seq<Frappe>)
      requires Valid()
      modifies this, tenues
      ensures Valid() && filtre.Vue() == old(filtre.Vue())
      ensures tenues.tenues == EmettreTous(keysym, old(tenues.tenues), es).0
      ensures envoyes == old(envoyes) + EmettreTous(keysym, old(tenues.tenues), es).1
    {
      for i := 0 to |es|
        invariant Valid() && filtre.Vue() == old(filtre.Vue())
        invariant tenues.tenues == EmettreTous(keysym, old(tenues.tenues), es[..i]).0
        invariant envoyes == old(envoyes) + EmettreTous(keysym, old(tenues.tenues), es[..i]).1
      {
        assert es[..i + 1][..i] == es[..i];
        EmettreVnc(es[i]);
      }
      assert es[..|es|] == es;
    }

    /** A key goes down or up on the canvas. */
    method ToucheVnc(e: Frappe)
      requires Valid()
      modifies this, filtre, tenues
      ensures Valid() && Vue() == Suit(keysym, old(Vue()), Frapper(e))
    {
      var emis := filtre.Traiter(e);
      EmettreListe(emis);
    }

    method Echeance()
      requires Valid()
      modifies this, filtre, tenues
      ensures Valid() && Vue() == Suit(keysym, old(Vue()), Expiration)
    {
      var emis := filtre.Minuteur();
      EmettreListe(emis);
    }

    /** The canvas loses focus. */
    method RelacherTenues()
      requires Valid()
      modifies this, tenues
      ensures Valid() && Vue() == Suit(keysym, old(Vue()), Flou)
    {
      var ms := tenues.RelacherTout();
      envoyes := envoyes + ms;
    }
  }
}
