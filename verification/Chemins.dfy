/** Folder paths: their segments, their prefixes, and the list of all folders to offer. */
module Chemins {
  import opened Suites
  import opened Tris

  /** A non-empty name without a slash. */
  predicate Segment(s: string) {
    s != "" && '/' !in s
  }

  function Barre(s: string): (i: nat)
    ensures i <= |s| && '/' !in s[..i] && (i < |s| ==> s[i] == '/')
  {
    if s == "" || s[0] == '/' then 0 else
      var i := 1 + Barre(s[1..]);
      assert s[..i] == [s[0]] + s[1..][..i - 1];
      i
  }

  /** The non-empty pieces between slashes. */
  function Segments(s: string): (p: seq<string>)
    ensures forall i :: 0 <= i < |p| ==> Segment(p[i])
    decreases |s|
  {
    if s == "" then [] else
      var i := Barre(s);
      var fin := if i < |s| then Segments(s[i + 1..]) else [];
      if i == 0 then fin else [s[..i]] + fin
  }

  /** The path of a sequence of segments. */
  function Joint(p: seq<string>): (s: string)
    ensures p == [] ==> s == ""
  {
    if p == [] then "" else
      var debut := Joint(p[..|p| - 1]);
      if debut == "" then p[|p| - 1] else debut + "/" + p[|p| - 1]
  }

  lemma {:induction false} BarreUnique(a: string, b: string)
    requires '/' !in a
    ensures Barre(a + "/" + b) == |a| && Barre(a) == |a|
  {
    if a != "" {
      assert (a + "/" + b)[1..] == a[1..] + "/" + b;
      BarreUnique(a[1..], b);
    }
  }

  /** Cutting at the first slash. */
  lemma SegmentsTete(a: string, b: string)
    requires '/' !in a
    ensures Segments(a + "/" + b) == (if a == "" then [] else [a]) + Segments(b)
    ensures Segments(a) == if a == "" then [] else [a]
  {
    BarreUnique(a, b);
    assert (a + "/" + b)[|a| + 1..] == b && (a + "/" + b)[..|a|] == a;
    assert a[..|a|] == a;
  }

  lemma SegmentsSuite(tete: string, fin: string, b: string, s: string)
    requires '/' !in tete && Segments(fin + "/" + b) == Segments(fin) + Segments(b)
    requires s == tete + "/" + (fin + "/" + b)
    ensures Segments(s) == Segments(tete + "/" + fin) + Segments(b)
  {
    SegmentsTete(tete, fin);
    SegmentsTete(tete, fin + "/" + b);
    Associe(if tete == "" then [] else [tete], Segments(fin), Segments(b));
  }

  /** Cutting at a slash cuts the two sides. */
  lemma {:induction false} SegmentsConcat(a: string, b: string)
    ensures Segments(a + "/" + b) == Segments(a) + Segments(b)
    decreases |a|
  {
    var i := Barre(a);
    if i == |a| {
      assert a[..i] == a;
      SegmentsTete(a, b);
    } else {
      assert a == a[..i] + "/" + a[i + 1..];
      assert a + "/" + b == a[..i] + "/" + (a[i + 1..] + "/" + b);
      SegmentsConcat(a[i + 1..], b);
      SegmentsSuite(a[..i], a[i + 1..], b, a + "/" + b);
    }
  }

  lemma SegmentsUn(s: string)
    requires Segment(s)
    ensures Segments(s) == [s]
  {
    BarreUnique(s, "");
    assert s[..|s|] == s;
  }

  predicate Propre(p: seq<string>) {
    forall i :: 0 <= i < |p| ==> Segment(p[i])
  }

  /** Joining segments and cutting again gives them back. */
  lemma {:induction false} SegmentsJoint(p: seq<string>)
    requires Propre(p)
    ensures Segments(Joint(p)) == p
  {
    if p != [] {
      var n := |p| - 1;
      var debut := Joint(p[..n]);
      SegmentsJoint(p[..n]);
      SegmentsUn(p[n]);
      assert p == p[..n] + [p[n]];
      if debut != "" {
        SegmentsConcat(debut, p[n]);
      }
    }
  }

  // ---------- All the folders to offer ----------

  /** The paths of the first k folders on the way down to a folder. */
  function Prefixes(p: seq<string>, k: nat): (r: set<string>)
    requires k <= |p|
    ensures forall j :: 1 <= j <= k ==> Joint(p[..j]) in r
    ensures forall x :: x in r ==> exists j :: 1 <= j <= k && x == Joint(p[..j])
  {
    if k == 0 then {} else Prefixes(p, k - 1) + {Joint(p[..k])}
  }

  /** The paths of a folder and of the folders above it. */
  function Lignee(f: string): set<string> {
    Prefixes(Segments(f), |Segments(f)|)
  }

  function Lignees(fs: seq<string>): set<string> {
    set f, x | f in fs && x in Lignee(f) :: x
  }

  lemma LigneesSuivant(fs: seq<string>, i: nat)
    requires i < |fs|
    ensures Lignees(fs[..i + 1]) == Lignees(fs[..i]) + Lignee(fs[i])
  {
    assert fs[..i + 1] == fs[..i] + [fs[i]];
  }

  lemma LigneesConcat(a: seq<string>, b: seq<string>)
    ensures Lignees(a + b) == Lignees(a) + Lignees(b)
  {
  }

  /** The path of a used folder, rebuilt segment by segment. */
  method AjouterLignee(chemins: set<string>, f: string) returns (r: set<string>)
    ensures r == chemins + Lignee(f)
  {
    var p, acc := Segments(f), "";
    r := chemins;
    for k := 0 to |p|
      invariant acc == Joint(p[..k])
      invariant r == chemins + Prefixes(p, k)
    {
      assert p[..k + 1][..k] == p[..k];
      acc := if acc != "" then acc + "/" + p[k] else p[k];
      r := r + {acc};
    }
  }

  /** All the folders to offer, each once, in order. */
  method AllFolderPaths(registered: seq<string>, used: seq<string>) returns (chemins: seq<string>)
    ensures Membres(chemins) == (Membres(registered) + Lignees(used)) - {""}
    ensures Triee(chemins)
  {
    var tous := Membres(registered);
    for i := 0 to |used|
      invariant tous == Membres(registered) + Lignees(used[..i])
    {
      LigneesSuivant(used, i);
      tous := AjouterLignee(tous, used[i]);
    }
    assert used[..|used|] == used;
    chemins := Trier(tous - {""});
  }

  // ---------- When the list and the tree agree ----------

  /** Every registered folder is written the way the tree writes it. */
  ghost predicate Normalises(registered: seq<string>) {
    forall f :: f in registered && f != "" ==> Joint(Segments(f)) == f
  }

  /** Every folder above a registered one is registered, or above a used one. */
  ghost predicate Clos(registered: seq<string>, used: seq<string>) {
    Lignees(registered) <= Membres(registered) + Lignees(used)
  }

  /** The path of the folder above. */
  function Parent(f: string): string {
    var p := Segments(f);
    if p == [] then "" else Joint(p[..|p| - 1])
  }

  /** What a caller can check: the folder above each registered one is the root, registered, or above a used one. */
  ghost predicate ParentsLa(registered: seq<string>, used: seq<string>) {
    forall f :: f in registered && Parent(f) != "" ==> Parent(f) in registered || Parent(f) in Lignees(used)
  }

  /** Paths in a lineage are written the way the tree writes them, and are not empty. */
  lemma LigneeNormale(f: string, x: string)
    requires x in Lignee(f)
    ensures Joint(Segments(x)) == x && x != "" && x in Lignee(x)
  {
    var p := Segments(f);
    var j :| 1 <= j <= |p| && x == Joint(p[..j]);
    SegmentsJoint(p[..j]);
    assert p[..j][..j] == p[..j];
    assert Joint(Segments(x)[..j]) in Lignee(x);
  }

  lemma NormaleDansSaLignee(f: string)
    requires Joint(Segments(f)) == f && f != ""
    ensures f in Lignee(f)
  {
    var p := Segments(f);
    assert p[..|p|] == p;
  }

  lemma LigneesNormales(fs: seq<string>, x: string)
    requires x in Lignees(fs)
    ensures Joint(Segments(x)) == x && x != ""
  {
    var f :| f in fs && x in Lignee(f);
    LigneeNormale(f, x);
  }

  lemma NormalisesDansLignees(registered: seq<string>)
    ensures Normalises(registered) <==> Membres(registered) - {""} <= Lignees(registered)
  {
    if Normalises(registered) {
      forall f | f in registered && f != "" ensures f in Lignees(registered) {
        NormaleDansSaLignee(f);
      }
    }
    if Membres(registered) - {""} <= Lignees(registered) {
      forall f | f in registered && f != "" ensures Joint(Segments(f)) == f {
        LigneesNormales(registered, f);
      }
    }
  }

  /** The folders above a folder of a lineage are in it. */
  lemma LigneeTransitive(g: string, f: string, x: string)
    requires f in Lignee(g) && x in Lignee(f)
    ensures x in Lignee(g)
  {
    var p := Segments(g);
    var j :| 1 <= j <= |p| && f == Joint(p[..j]);
    SegmentsJoint(p[..j]);
    var i :| 1 <= i <= j && x == Joint(p[..j][..i]);
    assert p[..j][..i] == p[..i];
  }

  lemma LigneesTransitives(fs: seq<string>, f: string, x: string)
    requires f in Lignees(fs) && x in Lignee(f)
    ensures x in Lignees(fs)
  {
    var g :| g in fs && f in Lignee(g);
    LigneeTransitive(g, f, x);
  }

  lemma SegmentsDuParent(f: string)
    requires |Segments(f)| > 1
    ensures Segments(Parent(f)) == Segments(f)[..|Segments(f)| - 1] && Parent(f) != ""
  {
    SegmentsJoint(Segments(f)[..|Segments(f)| - 1]);
    assert Segments("") == [];
  }

  /** The folder is registered, or above a used one. */
  ghost predicate Offert(registered: seq<string>, used: seq<string>, f: string) {
    f in registered || f in Lignees(used)
  }

  lemma ParentDansSaLignee(f: string)
    requires |Segments(f)| > 1
    ensures Parent(f) in Lignee(f)
  {
    assert Joint(Segments(f)[..|Segments(f)| - 1]) in Lignee(f);
  }

  lemma ParentOffert(registered: seq<string>, used: seq<string>, f: string)
    requires ParentsLa(registered, used) && Offert(registered, used, f) && |Segments(f)| > 1
    ensures Offert(registered, used, Parent(f))
  {
    SegmentsDuParent(f);
    if f in Lignees(used) {
      ParentDansSaLignee(f);
      LigneesTransitives(used, f, Parent(f));
    }
  }

  lemma OffertNormal(registered: seq<string>, used: seq<string>, f: string)
    requires Normalises(registered) && Offert(registered, used, f) && f != ""
    ensures Joint(Segments(f)) == f
  {
    if f in Lignees(used) {
      LigneesNormales(used, f);
    }
  }

  /** Where parents are there, so is every folder above. */
  lemma {:induction false} AieuxLa(registered: seq<string>, used: seq<string>, f: string, j: nat)
    requires Normalises(registered) && ParentsLa(registered, used) && 1 <= j <= |Segments(f)|
    requires Offert(registered, used, f)
    ensures Offert(registered, used, Joint(Segments(f)[..j]))
    decreases |Segments(f)|
  {
    var p := Segments(f);
    if j == |p| {
      assert p[..j] == p;
      OffertNormal(registered, used, f);
    } else {
      ParentOffert(registered, used, f);
      SegmentsDuParent(f);
      assert p[..|p| - 1][..j] == p[..j];
      AieuxLa(registered, used, Parent(f), j);
    }
  }

  lemma ClosSiParentsLa(registered: seq<string>, used: seq<string>)
    requires Normalises(registered)
    ensures Clos(registered, used) <==> ParentsLa(registered, used)
  {
    if Clos(registered, used) {
      forall f | f in registered && Parent(f) != "" ensures Parent(f) in registered || Parent(f) in Lignees(used) {
        assert Joint([]) == "";
        assert Parent(f) in Lignee(f);
        assert Parent(f) in Lignees(registered);
      }
    }
    if ParentsLa(registered, used) {
      forall x | x in Lignees(registered) ensures x in Membres(registered) + Lignees(used) {
        var f :| f in registered && x in Lignee(f);
        var j :| 1 <= j <= |Segments(f)| && x == Joint(Segments(f)[..j]);
        AieuxLa(registered, used, f, j);
      }
    }
  }

  /** The list offered is the set of folders of the tree exactly when every registered folder is written the way the
      tree writes it and the folder above each is there. */
  lemma ListeEgaleArbre(registered: seq<string>, used: seq<string>)
    ensures (Membres(registered) + Lignees(used)) - {""} == Lignees(registered + used)
            <==> Normalises(registered) && ParentsLa(registered, used)
  {
    ListeEgaleSiClos(registered, used);
    if Normalises(registered) {
      ClosSiParentsLa(registered, used);
    }
  }

  lemma SegmentsAB()
    ensures Segments("a/b") == ["a", "b"]
  {
    assert "a/b" == "a" + "/" + "b";
    SegmentsConcat("a", "b");
    SegmentsUn("a");
    SegmentsUn("b");
  }

  lemma JointA()
    ensures Joint(["a"]) == "a"
  {
    assert ["a"][..0] == [];
  }

  /** A registry holding "a/b" without "a": the tree shows "a", the list does not offer it. */
  lemma ListeSansParent()
    ensures var r: seq<string> := ["a/b"];
            "a" in Lignees(r + []) && "a" !in (Membres(r) + Lignees([])) - {""}
  {
    var r: seq<string> := ["a/b"];
    SegmentsAB();
    JointA();
    assert Segments("a/b")[..1] == ["a"];
    assert "a" in Lignee("a/b");
    assert r + [] == r && "a/b" in r;
    assert |"a"| == 1 && |"a/b"| == 3;
  }

  lemma ListeEgaleSiClos(registered: seq<string>, used: seq<string>)
    ensures (Membres(registered) + Lignees(used)) - {""} == Lignees(registered + used)
            <==> Normalises(registered) && Clos(registered, used)
  {
    LigneesConcat(registered, used);
    NormalisesDansLignees(registered);
    forall x | x in Lignees(registered + used) ensures x != "" {
      LigneesNormales(registered + used, x);
    }
    var m, r, u := Membres(registered), Lignees(registered), Lignees(used);
    if (m + u) - {""} == r + u {
      forall f | f in registered && f != "" ensures Joint(Segments(f)) == f {
        LigneesNormales(registered + used, f);
      }
    }
  }
}
