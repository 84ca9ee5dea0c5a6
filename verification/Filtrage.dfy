/** The filter of the synthetic Ctrl told from its inputs alone: which keystrokes it lets through, and when. */
module Filtrage {
  import opened Octets
  import opened Clavier

  // ---------- Fates, read from the inputs ----------

  /** A left Ctrl goes down. */
  predicate CtrlBas(c: Coup) {
    c.Recue? && c.e.enfonce && c.e.t.key == "Control" && c.e.t.code == "ControlLeft"
  }

  predicate AltGrBas(c: Coup) {
    c.Recue? && c.e.enfonce && c.e.t.key == "AltGraph"
  }

  /** The left Ctrl comes up. */
  predicate CtrlHaut(c: Coup) {
    c.Recue? && !c.e.enfonce && c.e.t.code == "ControlLeft"
  }

  /** A left Ctrl coming up is swallowed when it is the first to do so since an AltGr that dropped its twin. */
  ghost predicate Avale(cs: seq<Coup>, k: nat)
    requires k < |cs|
    decreases k
  {
    CtrlHaut(cs[k]) && exists i :: 0 <= i < k && Chasse(cs, i) && forall j :: i < j < k ==> !CtrlHaut(cs[j])
  }

  /** An AltGr drops the left Ctrl that came just before it, swallowed inputs aside. */
  ghost predicate Chasse(cs: seq<Coup>, i: nat)
    requires i < |cs|
    decreases i
  {
    AltGrBas(cs[i]) && exists k :: 0 <= k < i && CtrlBas(cs[k]) && forall j :: k < j < i ==> Avale(cs, j)
  }

  /** A left Ctrl after which nothing came but swallowed inputs is held back. */
  ghost predicate EnSuspens(cs: seq<Coup>, k: nat) {
    k < |cs| && CtrlBas(cs[k]) && forall j :: k < j < |cs| ==> Avale(cs, j)
  }

  /** What ends the wait of a left Ctrl without dropping it: its timer, or any other keystroke but AltGr. */
  ghost predicate Libere(cs: seq<Coup>, k: nat, j: nat) {
    k < j < |cs| && !AltGrBas(cs[j]) && !Avale(cs, j) && forall i :: k < i < j ==> Avale(cs, i)
  }

  /** Is the keystroke let through by now? */
  ghost predicate Passe(cs: seq<Coup>, k: nat)
    requires k < |cs|
  {
    cs[k].Recue? && if CtrlBas(cs[k]) then exists j :: Libere(cs, k, j) else !Avale(cs, k)
  }

  /** The keystrokes let through among the first n inputs, in order. */
  ghost function Passees(cs: seq<Coup>, n: nat): seq<Frappe>
    requires n <= |cs|
  {
    if n == 0 then [] else Passees(cs, n - 1) + if Passe(cs, n - 1) then [cs[n - 1].e] else []
  }

  // ---------- One more input ----------

  lemma {:induction false} AvalePrefixe(a: seq<Coup>, b: seq<Coup>, k: nat)
    requires a <= b && k < |a|
    ensures Avale(b, k) <==> Avale(a, k)
    ensures Chasse(b, k) <==> Chasse(a, k)
    decreases k
  {
    forall i | 0 <= i < k ensures (Avale(b, i) <==> Avale(a, i)) && (Chasse(b, i) <==> Chasse(a, i)) {
      AvalePrefixe(a, b, i);
    }
    assert forall i :: 0 <= i <= k ==> a[i] == b[i];
  }

  /** The next left Ctrl to come up is to be swallowed. */
  ghost predicate DoitAvaler(cs: seq<Coup>) {
    exists i :: 0 <= i < |cs| && Chasse(cs, i) && forall j :: i < j < |cs| ==> !CtrlHaut(cs[j])
  }

  ghost predicate Suspendu(cs: seq<Coup>) {
    exists k: nat :: EnSuspens(cs, k)
  }

  lemma AvaleDernier(cs: seq<Coup>, c: Coup)
    ensures Avale(cs + [c], |cs|) <==> CtrlHaut(c) && DoitAvaler(cs)
  {
    var t := cs + [c];
    forall i | 0 <= i < |cs| ensures (Chasse(t, i) <==> Chasse(cs, i)) && t[i] == cs[i] {
      AvalePrefixe(cs, t, i);
    }
  }

  lemma ChasseDernier(cs: seq<Coup>, c: Coup)
    ensures Chasse(cs + [c], |cs|) <==> AltGrBas(c) && Suspendu(cs)
  {
    var t := cs + [c];
    forall i | 0 <= i < |cs| ensures (Avale(t, i) <==> Avale(cs, i)) && t[i] == cs[i] {
      AvalePrefixe(cs, t, i);
    }
    if Chasse(t, |cs|) {
      var k :| 0 <= k < |cs| && CtrlBas(t[k]) && forall j :: k < j < |cs| ==> Avale(t, j);
      assert EnSuspens(cs, k);
    }
    if AltGrBas(c) && Suspendu(cs) {
      var k: nat :| EnSuspens(cs, k);
      assert CtrlBas(t[k]) && forall j :: k < j < |cs| ==> Avale(t, j);
    }
  }

  /** After one more input, a release is due to be swallowed if an AltGr has just dropped a Ctrl, or one was and this is
      not it. */
  lemma DoitAvalerSuite(cs: seq<Coup>, c: Coup)
    ensures DoitAvaler(cs + [c]) <==> (AltGrBas(c) && Suspendu(cs)) || (!CtrlHaut(c) && DoitAvaler(cs))
  {
    var t, n := cs + [c], |cs|;
    ChasseDernier(cs, c);
    forall i | 0 <= i < n ensures (Chasse(t, i) <==> Chasse(cs, i)) && t[i] == cs[i] {
      AvalePrefixe(cs, t, i);
    }
    if DoitAvaler(t) {
      var i :| 0 <= i < |t| && Chasse(t, i) && forall j :: i < j < |t| ==> !CtrlHaut(t[j]);
      if i < n {
        assert t[n] == c && Chasse(cs, i);
      }
    }
    if AltGrBas(c) && Suspendu(cs) {
      assert Chasse(t, n);
    } else if !CtrlHaut(c) && DoitAvaler(cs) {
      var i :| 0 <= i < n && Chasse(cs, i) && forall j :: i < j < n ==> !CtrlHaut(cs[j]);
      assert Chasse(t, i) && forall j :: i < j < |t| ==> !CtrlHaut(t[j]);
    }
  }

  /** ... and a Ctrl is held back if it has just come, or one was and this input is swallowed. */
  lemma SuspensSuite(cs: seq<Coup>, c: Coup, k: nat)
    ensures EnSuspens(cs + [c], k) <==> (k == |cs| && CtrlBas(c)) || (EnSuspens(cs, k) && Avale(cs + [c], |cs|))
  {
    var t, n := cs + [c], |cs|;
    forall i | 0 <= i < n ensures (Avale(t, i) <==> Avale(cs, i)) && t[i] == cs[i] {
      AvalePrefixe(cs, t, i);
    }
    if EnSuspens(t, k) && k < n {
      assert Avale(t, n);
      forall j | k < j < n ensures Avale(cs, j) {
        assert Avale(t, j);
      }
    }
  }

  lemma PasAvale(cs: seq<Coup>, k: nat)
    requires k < |cs| && CtrlBas(cs[k])
    ensures !Avale(cs, k)
  {
  }

  /** Only one Ctrl is held back at a time. */
  lemma UnSeulSuspens(cs: seq<Coup>, k: nat, q: nat)
    requires EnSuspens(cs, k) && EnSuspens(cs, q)
    ensures k == q
  {
    PasAvale(cs, k);
    PasAvale(cs, q);
  }

  /** An input lets through, of those before it, the Ctrl held back and no other, unless it is an AltGr or swallowed. */
  lemma PasseSuite(cs: seq<Coup>, c: Coup, k: nat)
    requires k < |cs|
    ensures Passe(cs + [c], k)
       <==> Passe(cs, k) || (EnSuspens(cs, k) && !AltGrBas(c) && !Avale(cs + [c], |cs|))
  {
    var t, n := cs + [c], |cs|;
    forall i | 0 <= i < n ensures (Avale(t, i) <==> Avale(cs, i)) && t[i] == cs[i] {
      AvalePrefixe(cs, t, i);
    }
    if CtrlBas(cs[k]) {
      forall j | k < j < n ensures Libere(t, k, j) <==> Libere(cs, k, j) {
      }
      assert Libere(t, k, n) <==> EnSuspens(cs, k) && !AltGrBas(c) && !Avale(t, n);
    }
  }

  /** What passed among the first n inputs, when one more input comes. */
  lemma {:induction false} PasseesSuite(cs: seq<Coup>, c: Coup, n: nat, k: nat)
    requires n <= |cs| && (Suspendu(cs) ==> EnSuspens(cs, k))
    ensures var libere := Suspendu(cs) && k < n && !AltGrBas(c) && !Avale(cs + [c], |cs|);
            Passees(cs + [c], n) == Passees(cs, n) + if libere then [cs[k].e] else []
  {
    if n > 0 {
      PasseesSuite(cs, c, n - 1, k);
      PasseSuite(cs, c, n - 1);
      if EnSuspens(cs, n - 1) {
        UnSeulSuspens(cs, n - 1, k);
      }
      if Suspendu(cs) && k < n - 1 {
        SuspensDernier(cs, k, n - 1);
      }
    }
  }

  /** Nothing after the Ctrl held back was let through. */
  lemma SuspensDernier(cs: seq<Coup>, k: nat, j: nat)
    requires EnSuspens(cs, k) && k < j < |cs|
    ensures !Passe(cs, j)
  {
    assert Avale(cs, j);
  }

  // ---------- The filter does it ----------

  /** The filter in service, after its inputs: it holds back the Ctrl they leave held back, with its timer armed; it
      is to swallow a release when they say so; it has let through what they let through. */
  ghost predicate Exact(s: Suivi, cs: seq<Coup>) {
    && s.f.actif && (s.f.minuteur <==> s.f.differe.Some?) && (s.f.differe.Some? <==> Suspendu(cs))
    && (forall k: nat :: EnSuspens(cs, k) ==> s.f.differe == Some(cs[k].e.t))
    && (s.f.avaler <==> DoitAvaler(cs))
    && s.sorties == Passees(cs, |cs|)
  }

  lemma UneDePlus(cs: seq<Coup>, c: Coup, k: nat)
    requires Suspendu(cs) ==> EnSuspens(cs, k)
    ensures var avale := CtrlHaut(c) && DoitAvaler(cs);
            Passees(cs + [c], |cs| + 1)
            == Passees(cs, |cs|) + (if Suspendu(cs) && !AltGrBas(c) && !avale then [cs[k].e] else [])
               + (if c.Recue? && !CtrlBas(c) && !avale then [c.e] else [])
  {
    AvaleDernier(cs, c);
    PasseesSuite(cs, c, |cs|, k);
    assert (cs + [c])[|cs|] == c;
    assert CtrlBas(c) ==> !Passe(cs + [c], |cs|);
  }

  /** What the filter does with one more input. */
  lemma JouerDetail(s: Suivi, c: Coup)
    requires s.f.actif && (s.f.minuteur <==> s.f.differe.Some?)
    ensures var f, g := s.f, Jouer(s, c).f;
            var avale := CtrlHaut(c) && f.avaler;
            && g.actif && (g.minuteur <==> g.differe.Some?)
            && g.differe == (if CtrlBas(c) then Some(c.e.t) else if avale then f.differe else None)
            && (g.avaler <==> (AltGrBas(c) && f.differe.Some?) || (!CtrlHaut(c) && f.avaler))
            && Jouer(s, c).sorties
               == s.sorties
                  + (if f.differe.Some? && !AltGrBas(c) && !avale then [Frappe(f.differe.value, true)] else [])
                  + (if c.Recue? && !CtrlBas(c) && !avale then [c.e] else [])
  {
    assert CtrlBas(c) <==> c.Recue? && CtrlGauche(c.e);
    assert AltGrBas(c) <==> c.Recue? && AltGr(c.e);
    assert CtrlHaut(c) <==> c.Recue? && FinCtrlGauche(c.e);
  }

  lemma JouerExact(s: Suivi, cs: seq<Coup>, c: Coup)
    requires Exact(s, cs)
    ensures Exact(Jouer(s, c), cs + [c])
  {
    var k: nat := 0;
    if Suspendu(cs) {
      k :| EnSuspens(cs, k);
    }
    JouerDetail(s, c);
    UneDePlus(cs, c, k);
    AvaleDernier(cs, c);
    DoitAvalerSuite(cs, c);
    SuspensSuite(cs, c, k);
    SuspensSuite(cs, c, |cs|);
    forall q: nat | EnSuspens(cs + [c], q) ensures Jouer(s, c).f.differe == Some((cs + [c])[q].e.t) {
      SuspensSuite(cs, c, q);
    }
  }

  /** Over any inputs, a filter in service lets through exactly the keystrokes their fates say, in their order: all but
      the left Ctrl that an AltGr follows, its release, and a left Ctrl still waiting for what comes next. */
  lemma {:induction false} FiltreExact(cs: seq<Coup>)
    ensures Exact(JouerTous(Neuf(true), cs), cs)
  {
    if cs != [] {
      var debut, c := cs[..|cs| - 1], cs[|cs| - 1];
      FiltreExact(debut);
      JouerExact(JouerTous(Neuf(true), debut), debut, c);
      assert debut + [c] == cs;
    }
  }
}
