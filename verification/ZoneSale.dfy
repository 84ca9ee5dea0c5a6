/** The dirty zone of the screen: a short list of rectangles that must cover everything reported, as cheaply as
    possible. */
module ZoneSale {
  import opened Octets
  import opened EgfxModele

  /** A rectangle with its upper bounds included; degenerate when right < left or bottom < top. */
  datatype Rect = Rect(left: u16, top: u16, right: u16, bottom: u16) {
    predicate Contient(x: int, y: int) {
      left <= x <= right && top <= y <= bottom
    }
  }

  const ENTETE_RECT := 8

  function MoinsSature(a: nat, b: nat): nat {
    if a >= b then a - b else 0
  }

  function Aire(a: Rect): nat {
    MoinsSature(a.right + 1, a.left) * MoinsSature(a.bottom + 1, a.top)
  }

  function Union(a: Rect, b: Rect): (r: Rect)
    ensures forall x, y :: a.Contient(x, y) || b.Contient(x, y) ==> r.Contient(x, y)
  {
    Rect(if a.left <= b.left then a.left else b.left, if a.top <= b.top then a.top else b.top,
         if a.right >= b.right then a.right else b.right, if a.bottom >= b.bottom then a.bottom else b.bottom)
  }

  predicate Inclus(a: Rect, b: Rect) {
    b.left <= a.left && b.top <= a.top && a.right <= b.right && a.bottom <= b.bottom
  }

  /** The union is the smallest rectangle around both. */
  lemma UnionMinimale(a: Rect, b: Rect, z: Rect)
    ensures Inclus(a, Union(a, b)) && Inclus(b, Union(a, b))
    ensures Inclus(a, z) && Inclus(b, z) ==> Inclus(Union(a, b), z)
  {
  }

  /** Bytes a rectangle costs in a message, header included. */
  function Cout(a: Rect): nat {
    Aire(a) * 4 + ENTETE_RECT
  }

  function CoutTotal(zone: seq<Rect>): nat {
    if zone == [] then 0 else CoutTotal(zone[..|zone| - 1]) + Cout(zone[|zone| - 1])
  }

  /** What merging two rectangles would waste. */
  function Perte(a: Rect, b: Rect): nat {
    MoinsSature(Aire(Union(a, b)), Aire(a) + Aire(b))
  }

  function PerteEn(zone: seq<Rect>, a: nat, b: nat): nat {
    if a < |zone| && b < |zone| then Perte(zone[a], zone[b]) else 0
  }

  ghost predicate Couvre(zone: seq<Rect>, x: int, y: int) {
    exists r :: r in zone && r.Contient(x, y)
  }

  lemma {:induction false} CoutRemplace(zone: seq<Rect>, i: nat, r: Rect)
    requires i < |zone|
    ensures CoutTotal(zone[i := r]) == CoutTotal(zone) - Cout(zone[i]) + Cout(r)
    ensures Cout(zone[i]) <= CoutTotal(zone)
  {
    var n := |zone| - 1;
    if i == n {
      assert zone[i := r][..n] == zone[..n];
    } else {
      assert zone[i := r][..n] == zone[..n][i := r];
      CoutRemplace(zone[..n], i, r);
    }
  }

  /** The pair of indices below `n` of least loss, the first one in order if several are. */
  method MeilleurePaire(n: nat, perte: (nat, nat) -> nat) returns (i: nat, j: nat)
    requires n >= 2
    ensures i < j < n
    ensures forall a, b :: 0 <= a < b < n ==> perte(i, j) <= perte(a, b)
    ensures forall a, b :: 0 <= a < b < n && (a < i || (a == i && b < j)) ==> perte(i, j) < perte(a, b)
  {
    i, j := 0, 1;
    for a := 0 to n
      invariant i < j < n
      invariant a == 0 ==> i == 0 && j == 1
      invariant a > 0 ==> i < a
      invariant forall c, d :: 0 <= c < d < n && c < a ==> perte(i, j) <= perte(c, d)
      invariant forall c, d :: 0 <= c < d < n && (c < i || (c == i && d < j)) ==> perte(i, j) < perte(c, d)
    {
      for b := a + 1 to n
        invariant i < j < n
        invariant a == 0 && b == 1 ==> i == 0 && j == 1
        invariant i <= a && (i == a ==> j < b || (a == 0 && j == 1))
        invariant forall c, d :: 0 <= c < d < n && (c < a || (c == a && d < b)) ==> perte(i, j) <= perte(c, d)
        invariant forall c, d :: 0 <= c < d < n && (c < i || (c == i && d < j)) ==> perte(i, j) < perte(c, d)
      {
        if perte(a, b) < perte(i, j) {
          i, j := a, b;
        }
      }
    }
  }

  /** Merges the pair (i, j) of a list: the union takes the place of the first, the second disappears. */
  function Fusionne(zone: seq<Rect>, i: nat, j: nat): (r: seq<Rect>)
    requires i < j < |zone|
    ensures |r| == |zone| - 1
    ensures forall k :: 0 <= k < |r| ==>
      r[k] == if k == i then Union(zone[i], zone[j]) else zone[if k < j then k else k + 1]
  {
    var z := zone[i := Union(zone[i], zone[j])];
    z[..j] + z[j + 1..]
  }

  lemma FusionneCouvre(zone: seq<Rect>, i: nat, j: nat, x: int, y: int)
    requires i < j < |zone| && Couvre(zone, x, y)
    ensures Couvre(Fusionne(zone, i, j), x, y)
  {
    var f := Fusionne(zone, i, j);
    var k :| 0 <= k < |zone| && zone[k].Contient(x, y);
    if k == i || k == j {
      assert f[i].Contient(x, y);
    } else if k < j {
      assert f[k] == zone[k];
    } else {
      assert f[k - 1] == zone[k];
    }
  }

  /** The first rectangle it pays to merge with `r`, or the length. */
  function Rentable(zone: seq<Rect>, r: Rect): (i: nat)
    ensures i <= |zone|
    ensures i < |zone| ==> Cout(Union(zone[i], r)) <= Cout(zone[i]) + Cout(r)
    ensures forall k :: 0 <= k < i ==> Cout(Union(zone[k], r)) > Cout(zone[k]) + Cout(r)
  {
    if zone == [] then 0
    else if Cout(Union(zone[0], r)) <= Cout(zone[0]) + Cout(r) then 0
    else 1 + Rentable(zone[1..], r)
  }

  /** Merging (i, j) wastes no more than merging any other pair. */
  ghost predicate MoindrePerte(zone: seq<Rect>, i: nat, j: nat) {
    i < j < |zone| && forall a, b :: 0 <= a < b < |zone| ==> PerteEn(zone, i, j) <= PerteEn(zone, a, b)
  }

  /** `z` is the list with a least wasteful pair merged. */
  ghost predicate EstFusion(zone: seq<Rect>, z: seq<Rect>) {
    exists i, j :: MoindrePerte(zone, i, j) && z == Fusionne(zone, i, j)
  }

  lemma EstFusionCouvre(zone: seq<Rect>, z: seq<Rect>)
    requires EstFusion(zone, z)
    ensures |z| == |zone| - 1 && forall x, y :: Couvre(zone, x, y) ==> Couvre(z, x, y)
  {
    var i, j :| MoindrePerte(zone, i, j) && z == Fusionne(zone, i, j);
    forall x, y | Couvre(zone, x, y) ensures Couvre(z, x, y) {
      FusionneCouvre(zone, i, j, x, y);
    }
  }

  method FusionnerMeilleure(zone: seq<Rect>) returns (z: seq<Rect>)
    requires |zone| >= 2
    ensures EstFusion(zone, z)
  {
    var perte := (a: nat, b: nat) => PerteEn(zone, a, b);
    var i, j := MeilleurePaire(|zone|, perte);
    forall a, b | 0 <= a < b < |zone| ensures PerteEn(zone, i, j) <= PerteEn(zone, a, b) {
      assert perte(i, j) <= perte(a, b);
    }
    assert MoindrePerte(zone, i, j);
    z := Fusionne(zone, i, j);
  }

  /** Merges the least wasteful pairs until the list is short enough, losing nothing it covered. */
  method Reduire(zone: seq<Rect>) returns (z: seq<Rect>)
    ensures forall x, y :: Couvre(zone, x, y) ==> Couvre(z, x, y)
    ensures |z| <= RECTS_MAX && (|zone| <= RECTS_MAX ==> z == zone) && (zone != [] ==> z != [])
    ensures |zone| == RECTS_MAX + 1 ==> EstFusion(zone, z)
  {
    z := zone;
    while |z| > RECTS_MAX
      invariant forall x, y :: Couvre(zone, x, y) ==> Couvre(z, x, y)
      invariant |zone| <= RECTS_MAX ==> z == zone
      invariant zone != [] ==> z != []
      invariant |zone| == RECTS_MAX + 1 ==> z == zone || (|z| == RECTS_MAX && EstFusion(zone, z))
      decreases |z|
    {
      var suite := FusionnerMeilleure(z);
      EstFusionCouvre(z, suite);
      z := suite;
    }
  }

  /** The scan for the first rectangle worth merging with. */
  method ChercherRentable(zone: seq<Rect>, r: Rect) returns (i: nat)
    ensures i == Rentable(zone, r)
  {
    i := 0;
    while i < |zone| && Cout(Union(zone[i], r)) > Cout(zone[i]) + Cout(r)
      invariant i <= |zone| && forall k :: 0 <= k < i ==> Cout(Union(zone[k], r)) > Cout(zone[k]) + Cout(r)
    {
      i := i + 1;
    }
  }

  /** Adds a rectangle to the dirty zone: merged with the first one it costs no more to send together, or else
      appended; a list that gets too long loses its least wasteful pair. Nothing reported is ever lost, the list
      stays short, and below the limit the message never costs more than with one more rectangle. */
  method AjouterRect(zone: seq<Rect>, r: Rect) returns (z: seq<Rect>)
    ensures forall x, y :: Couvre(zone, x, y) || r.Contient(x, y) ==> Couvre(z, x, y)
    ensures |zone| <= RECTS_MAX ==> |z| <= RECTS_MAX
    ensures |zone| < RECTS_MAX ==> CoutTotal(z) <= CoutTotal(zone) + Cout(r)
    ensures Rentable(zone, r) < |zone| ==> z == zone[Rentable(zone, r) := Union(zone[Rentable(zone, r)], r)]
    ensures Rentable(zone, r) == |zone| < RECTS_MAX ==> z == zone + [r]
    ensures Rentable(zone, r) == |zone| == RECTS_MAX ==> EstFusion(zone + [r], z)
    ensures z != []
  {
    var i := ChercherRentable(zone, r);
    if i < |zone| {
      var fusion := Union(zone[i], r);
      CoutRemplace(zone, i, fusion);
      RemplaceCouvre(zone, i, r);
      z := zone[i := fusion];
    } else {
      AjoutCouvre(zone, r);
      z := Reduire(zone + [r]);
    }
  }

  lemma AjoutCouvre(zone: seq<Rect>, r: Rect)
    ensures forall x, y :: Couvre(zone, x, y) || r.Contient(x, y) ==> Couvre(zone + [r], x, y)
    ensures CoutTotal(zone + [r]) == CoutTotal(zone) + Cout(r)
  {
    var z := zone + [r];
    assert z[..|zone|] == zone && z[|zone|] == r;
    forall x, y | Couvre(zone, x, y) || r.Contient(x, y) ensures Couvre(z, x, y) {
      if Couvre(zone, x, y) {
        var k :| 0 <= k < |zone| && zone[k].Contient(x, y);
        assert z[k].Contient(x, y);
      } else {
        assert z[|zone|].Contient(x, y);
      }
    }
  }

  lemma RemplaceCouvre(zone: seq<Rect>, i: nat, r: Rect)
    requires i < |zone|
    ensures forall x, y :: Couvre(zone, x, y) || r.Contient(x, y) ==> Couvre(zone[i := Union(zone[i], r)], x, y)
  {
    var z := zone[i := Union(zone[i], r)];
    forall x, y | Couvre(zone, x, y) || r.Contient(x, y) ensures Couvre(z, x, y) {
      if r.Contient(x, y) {
        assert z[i].Contient(x, y);
      } else {
        var k :| 0 <= k < |zone| && zone[k].Contient(x, y);
        assert z[k].Contient(x, y);
      }
    }
  }
}
