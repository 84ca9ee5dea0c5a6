/** Pixels, bitmaps addressed by column and row, and rectangles. */
module Bitmaps {
  import opened Octets

  datatype Pixel = Pixel(r: octet, g: octet, b: octet, a: octet)

  const NOIR := Pixel(0, 0, 0, 0)

  /** Where row `y` begins in a buffer of rows of `w` pixels: the product w * y, by repeated addition. */
  function Debut(w: nat, y: nat): nat {
    if y == 0 then 0 else Debut(w, y - 1) + w
  }

  lemma {:induction false} DebutProduit(w: nat, y: nat)
    ensures Debut(w, y) == w * y
  {
    if y > 0 {
      DebutProduit(w, y - 1);
      assert w * y == w * (y - 1) + w;
    }
  }

  /** Row-major position of column `x` of row `y`. */
  function Indice(w: nat, x: nat, y: nat): nat {
    Debut(w, y) + x
  }

  /** A row ends before every later row begins. */
  lemma {:induction false} LignesSuccessives(w: nat, y: nat, y': nat)
    requires y < y'
    ensures Debut(w, y) + w <= Debut(w, y')
  {
    if y + 1 < y' {
      LignesSuccessives(w, y, y' - 1);
    }
  }

  /** Every position of a buffer is that of one column and one row. */
  lemma {:induction false} IndiceDecompose(w: nat, h: nat, i: nat) returns (x: nat, y: nat)
    requires i < Debut(w, h)
    ensures x < w && y < h && i == Indice(w, x, y)
  {
    if Debut(w, h - 1) <= i {
      x, y := i - Debut(w, h - 1), h - 1;
    } else {
      x, y := IndiceDecompose(w, h - 1, i);
    }
  }

  /** A run of pixels on one row meets position (x, y) only on that row. */
  lemma IndiceSurLigne(w: nat, x: nat, y: nat, x0: nat, n: nat, ligne: nat)
    requires x < w && x0 + n <= w
    ensures Indice(w, x0, ligne) <= Indice(w, x, y) < Indice(w, x0, ligne) + n <==> y == ligne && x0 <= x < x0 + n
  {
    if y < ligne {
      LignesSuccessives(w, y, ligne);
    } else if y > ligne {
      LignesSuccessives(w, ligne, y);
    }
  }

  /** An image: `hauteur` rows of `largeur` pixels, row after row. */
  datatype Bitmap = Bitmap(largeur: nat, hauteur: nat, pixels: seq<Pixel>) {
    ghost predicate BienForme() {
      |pixels| == Debut(largeur, hauteur)
    }

    predicate Contient(x: int, y: int) {
      0 <= x < largeur && 0 <= y < hauteur
    }

    /** The pixel of column `x`, row `y`; black outside. */
    function At(x: int, y: int): Pixel {
      if Contient(x, y) && Indice(largeur, x, y) < |pixels| then pixels[Indice(largeur, x, y)] else NOIR
    }

    /** Size in bytes, four to a pixel. */
    function Octets(): nat {
      4 * |pixels|
    }
  }

  /** Appending one row to the first rows of an image. */
  lemma {:induction false} LignesPlusUne(w: nat, h: nat, f: (int, int) -> Pixel, debut: seq<Pixel>, ligne: seq<Pixel>)
    requires h > 0 && |debut| == Debut(w, h - 1)
    requires |ligne| == w && forall x :: 0 <= x < w ==> ligne[x] == f(x, h - 1)
    requires forall x: nat, y: nat :: x < w && y < h - 1 ==>
      Indice(w, x, y) < |debut| && debut[Indice(w, x, y)] == f(x, y)
    ensures |debut + ligne| == Debut(w, h)
    ensures forall x: nat, y: nat :: x < w && y < h ==>
      Indice(w, x, y) < |debut + ligne| && (debut + ligne)[Indice(w, x, y)] == f(x, y)
  {
    forall x: nat, y: nat | x < w && y < h
      ensures Indice(w, x, y) < |debut + ligne| && (debut + ligne)[Indice(w, x, y)] == f(x, y)
    {
      if y < h - 1 {
        LignesSuccessives(w, y, h - 1);
        assert debut[Indice(w, x, y)] == f(x, y);
      } else {
        assert ligne[x] == f(x, y);
      }
    }
  }

  lemma {:induction false} LignesExistent(w: nat, h: nat, f: (int, int) -> Pixel) returns (p: seq<Pixel>)
    ensures |p| == Debut(w, h)
    ensures forall x: nat, y: nat :: x < w && y < h ==> Indice(w, x, y) < |p| && p[Indice(w, x, y)] == f(x, y)
  {
    if h == 0 {
      p := [];
    } else {
      var debut := LignesExistent(w, h - 1, f);
      var ligne := seq(w, x => f(x, h - 1));
      LignesPlusUne(w, h, f, debut, ligne);
      p := debut + ligne;
    }
  }

  /** `b` is the w by h bitmap whose pixel at each (x, y) is f(x, y). */
  ghost predicate EstTrace(b: Bitmap, w: nat, h: nat, f: (int, int) -> Pixel) {
    b.largeur == w && b.hauteur == h && b.BienForme() && forall x, y :: b.Contient(x, y) ==> b.At(x, y) == f(x, y)
  }

  /** The bitmap whose pixel at each (x, y) is f(x, y). */
  ghost function Tracer(w: nat, h: nat, f: (int, int) -> Pixel): (b: Bitmap)
    ensures EstTrace(b, w, h, f)
  {
    assert exists b :: EstTrace(b, w, h, f) by {
      var p := LignesExistent(w, h, f);
      assert EstTrace(Bitmap(w, h, p), w, h, f);
    }
    var b :| EstTrace(b, w, h, f);
    b
  }

  function Noire(w: nat, h: nat): (b: Bitmap)
    ensures b.largeur == w && b.hauteur == h && b.BienForme()
    ensures forall x, y :: b.At(x, y) == NOIR
  {
    Bitmap(w, h, seq(Debut(w, h), _ => NOIR))
  }

  /** Two bitmaps of the same size showing the same pixels are the same bitmap. */
  lemma MemeImage(a: Bitmap, b: Bitmap)
    requires a.BienForme() && b.BienForme() && a.largeur == b.largeur && a.hauteur == b.hauteur
    requires forall x, y :: a.Contient(x, y) ==> a.At(x, y) == b.At(x, y)
    ensures a == b
  {
    forall i | 0 <= i < |a.pixels| ensures a.pixels[i] == b.pixels[i] {
      var x, y := IndiceDecompose(a.largeur, a.hauteur, i);
      assert a.At(x, y) == b.At(x, y);
    }
  }

  /** Overwriting a run of pixels inside row `ligne` changes that run and nothing else. */
  lemma LigneRemplacee(b: Bitmap, b': Bitmap, x0: nat, ligne: nat, segment: seq<Pixel>)
    requires b.BienForme() && b'.largeur == b.largeur && b'.hauteur == b.hauteur
    requires x0 + |segment| <= b.largeur && ligne < b.hauteur
    requires Indice(b.largeur, x0, ligne) + |segment| <= |b.pixels|
    requires b'.pixels == b.pixels[..Indice(b.largeur, x0, ligne)] + segment
                        + b.pixels[Indice(b.largeur, x0, ligne) + |segment|..]
    ensures b'.BienForme()
    ensures forall px, py :: b.Contient(px, py) ==>
      b'.At(px, py) == if py == ligne && x0 <= px < x0 + |segment| then segment[px - x0] else b.At(px, py)
  {
    forall px, py | b.Contient(px, py)
      ensures b'.At(px, py) == if py == ligne && x0 <= px < x0 + |segment| then segment[px - x0] else b.At(px, py)
    {
      LignesSuccessives(b.largeur, py, b.hauteur);
      IndiceSurLigne(b.largeur, px, py, x0, |segment|, ligne);
    }
  }

  /** A rectangle in pixels, upper bounds excluded. */
  datatype Zone = Zone(x: nat, y: nat, largeur: nat, hauteur: nat) {
    predicate Contient(px: int, py: int) {
      x <= px < x + largeur && y <= py < y + hauteur
    }

    /** Clips the rectangle to a surface; `None` when nothing is left. */
    function Rognee(l: nat, h: nat): (r: Option<Zone>) {
      if x >= l || y >= h || largeur == 0 || hauteur == 0 then None
      else Some(Zone(x, y, Min(largeur, l - x), Min(hauteur, h - y)))
    }
  }

  /** The pixel is under one of the rectangles. */
  ghost predicate Couvert(zones: seq<Zone>, x: int, y: int) {
    exists z :: z in zones && z.Contient(x, y)
  }

  /** A clipped rectangle covers exactly the pixels of the original that lie on the surface. */
  lemma RogneeExacte(z: Zone, l: nat, h: nat)
    ensures match z.Rognee(l, h)
            case None => forall px, py :: z.Contient(px, py) ==> !(px < l && py < h)
            case Some(r) => r.largeur > 0 && r.hauteur > 0 && r.Rognee(l, h) == Some(r)
                            && forall px, py :: r.Contient(px, py) <==> z.Contient(px, py) && px < l && py < h
  {
  }
}
