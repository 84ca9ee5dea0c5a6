/** What the drawing commands show, pixel by pixel, read straight from the bytes of the PDU. */
module Dessins {
  import opened Octets
  import opened Bitmaps
  import opened Surfaces
  import opened EgfxModele

  /** Index of the last rectangle covering (px, py), or -1. */
  function Dernier(zones: seq<Zone>, px: int, py: int): (k: int)
    ensures -1 <= k < |zones|
    ensures k >= 0 ==> zones[k].Contient(px, py)
    ensures forall i :: k < i < |zones| ==> !zones[i].Contient(px, py)
  {
    if zones == [] then -1
    else if zones[|zones| - 1].Contient(px, py) then |zones| - 1
    else Dernier(zones[..|zones| - 1], px, py)
  }

  /** The last covering destination wins; every other pixel keeps its value. */
  lemma {:induction false} EcritTousExact(b: Bitmap, zones: seq<Zone>, p: Bitmap, px: int, py: int)
    requires b.BienForme() && p.BienForme() && b.Contient(px, py)
    requires forall z :: z in zones ==> z.largeur == p.largeur && z.hauteur == p.hauteur
    ensures EcritTous(b, zones, p).At(px, py)
         == var k := Dernier(zones, px, py);
            if k < 0 then b.At(px, py) else p.At(px - zones[k].x, py - zones[k].y)
  {
    if zones != [] {
      var debut, z := zones[..|zones| - 1], zones[|zones| - 1];
      EcritTousExact(b, debut, p, px, py);
      EcritBitmap(EcritTous(b, debut, p), z.x, z.y, p, px, py);
      assert z in zones && z == Zone(z.x, z.y, p.largeur, p.hauteur);
    }
  }

  lemma {:induction false} RempliTousExact(b: Bitmap, zones: seq<Zone>, couleur: Pixel, px: int, py: int)
    requires b.BienForme() && b.Contient(px, py)
    ensures RempliTous(b, zones, couleur).At(px, py)
         == if exists z :: z in zones && z.Contient(px, py) then couleur else b.At(px, py)
  {
    if zones != [] {
      var debut, z := zones[..|zones| - 1], zones[|zones| - 1];
      RempliTousExact(b, debut, couleur, px, py);
      RogneeExacte(z, b.largeur, b.hauteur);
      assert forall y :: y in zones <==> y in debut || y == z;
    }
  }

  /** Pixel (px, py) lies between the edges of the i-th rectangle of a SolidFill. */
  predicate SousRect(c: seq<octet>, i: nat, px: int, py: int)
    requires 8 + 8 * (i + 1) <= |c|
  {
    U16(c, 8 + 8 * i) <= px < U16(c, 8 + 8 * i + 4) && U16(c, 8 + 8 * i + 2) <= py < U16(c, 8 + 8 * i + 6)
  }

  lemma {:induction false} RectsExacts(c: seq<octet>, k: nat, px: int, py: int)
    requires k == 0 || 8 + 8 * k <= |c|
    ensures (exists z :: z in Rects(c, k) && z.Contient(px, py)) <==> exists i :: 0 <= i < k && SousRect(c, i, px, py)
  {
    if k > 0 {
      RectsExacts(c, k - 1, px, py);
      var m := DepuisBords(c, 8 + 8 * (k - 1));
      if m.Some? {
        assert m.value.Contient(px, py) <==> SousRect(c, k - 1, px, py);
        assert forall y :: y in Rects(c, k) <==> y in Rects(c, k - 1) || y == m.value;
      } else {
        assert !SousRect(c, k - 1, px, py);
      }
    }
  }

  /** SolidFill paints exactly the pixels under one of its complete rectangles, in its colour made opaque,
      and no pixel under an inverted or truncated one. */
  lemma SolidFillExact(e: Etat, c: seq<octet>, px: int, py: int)
    requires |c| >= 8 && U16(c, 0) in e.surfaces
    requires e.surfaces[U16(c, 0)].BienForme() && e.surfaces[U16(c, 0)].Contient(px, py)
    ensures var k := Presents(c, 8, 8, U16(c, 6));
            SolidFill(e, c).value.image.At(px, py)
            == if exists i :: 0 <= i < k && SousRect(c, i, px, py) then Pixel(c[4], c[3], c[2], 0xFF)
               else e.surfaces[U16(c, 0)].At(px, py)
  {
    var k := Presents(c, 8, 8, U16(c, 6));
    RempliTousExact(e.surfaces[U16(c, 0)], Rects(c, k), Pixel(c[4], c[3], c[2], 0xFF), px, py);
    RectsExacts(c, k, px, py);
  }

  /** The destinations are the complete points of the PDU, in order. */
  lemma CiblesExactes(c: seq<octet>, base: nat, n: nat, largeur: nat, hauteur: nat, i: nat)
    requires base <= |c|
    ensures i < |Cibles(c, base, n, largeur, hauteur)| <==> i < n && base + 4 * (i + 1) <= |c|
    ensures i < |Cibles(c, base, n, largeur, hauteur)| ==>
      Cibles(c, base, n, largeur, hauteur)[i] == Zone(U16(c, base + 4 * i), U16(c, base + 4 * i + 2), largeur, hauteur)
  {
    var k := Presents(c, base, 4, n);
    if i < k {
      PointsExacts(c, base, k, largeur, hauteur, i);
    }
  }

  lemma {:induction false} PointsExacts(c: seq<octet>, base: nat, k: nat, largeur: nat, hauteur: nat, i: nat)
    requires i < k && base + 4 * k <= |c|
    ensures Points(c, base, k, largeur, hauteur)[i]
         == Zone(U16(c, base + 4 * i), U16(c, base + 4 * i + 2), largeur, hauteur)
  {
    if i < k - 1 {
      PointsExacts(c, base, k - 1, largeur, hauteur, i);
    }
  }

  /** The pixel (px, py) of `dst` once the piece of `src` at (x0, y0) is copied to every target: that of the
      last covering target, or else unchanged. */
  function PixelCopie(dst: Bitmap, src: Bitmap, x0: int, y0: int, cibles: seq<Zone>, px: int, py: int): Pixel {
    var k := Dernier(cibles, px, py);
    if k < 0 then dst.At(px, py) else src.At(x0 + px - cibles[k].x, y0 + py - cibles[k].y)
  }

  lemma PoseExacte(e: Etat, id: u16, p: Bitmap, c: seq<octet>, base: nat, n: nat, px: int, py: int)
    requires id in e.surfaces && e.surfaces[id].BienForme() && p.BienForme() && e.surfaces[id].Contient(px, py)
    ensures Pose(e, id, p, c, base, n).Some? && Pose(e, id, p, c, base, n).value.id == id
    ensures Pose(e, id, p, c, base, n).value.image.At(px, py)
         == PixelCopie(e.surfaces[id], p, 0, 0, Cibles(c, base, n, p.largeur, p.hauteur), px, py)
  {
    EcritTousExact(e.surfaces[id], Cibles(c, base, n, p.largeur, p.hauteur), p, px, py);
  }

  lemma CopieDecoupee(dst: Bitmap, src: Bitmap, zone: Zone, cibles: seq<Zone>, px: int, py: int)
    requires forall z :: z in cibles ==> z.largeur == zone.largeur && z.hauteur == zone.hauteur
    ensures PixelCopie(dst, Decoupe(src, zone), 0, 0, cibles, px, py)
         == PixelCopie(dst, src, zone.x, zone.y, cibles, px, py)
  {
    var k := Dernier(cibles, px, py);
    if k >= 0 {
      assert cibles[k] in cibles;
      assert Decoupe(src, zone).Contient(px - cibles[k].x, py - cibles[k].y);
    }
  }

  /** SurfaceToSurface gives each destination pixel the source pixel of the state BEFORE the PDU, the last covering
      point winning, even when source and destination are the same surface and overlap. */
  lemma SurfaceVersSurfaceExact(e: Etat, c: seq<octet>, zone: Zone, px: int, py: int)
    requires |c| >= 14 && U16(c, 0) in e.surfaces && U16(c, 2) in e.surfaces
    requires e.surfaces[U16(c, 2)].BienForme() && e.surfaces[U16(c, 2)].Contient(px, py)
    requires DepuisBords(c, 4).Some?
      && DepuisBords(c, 4).value.Rognee(e.surfaces[U16(c, 0)].largeur, e.surfaces[U16(c, 0)].hauteur) == Some(zone)
    ensures SurfaceVersSurface(e, c).Some? && SurfaceVersSurface(e, c).value.id == U16(c, 2)
    ensures SurfaceVersSurface(e, c).value.image.At(px, py)
         == PixelCopie(e.surfaces[U16(c, 2)], e.surfaces[U16(c, 0)], zone.x, zone.y,
                       Cibles(c, 14, U16(c, 12), zone.largeur, zone.hauteur), px, py)
  {
    var src, dst := e.surfaces[U16(c, 0)], e.surfaces[U16(c, 2)];
    var p := Decoupe(src, zone);
    PoseExacte(e, U16(c, 2), p, c, 14, U16(c, 12), px, py);
    CopieDecoupee(dst, src, zone, Cibles(c, 14, U16(c, 12), zone.largeur, zone.hauteur), px, py);
  }

  /** CacheToSurface likewise, from the cached piece. */
  lemma CacheVersSurfaceExact(e: Etat, c: seq<octet>, px: int, py: int)
    requires |c| >= 6 && U16(c, 0) in e.cache && U16(c, 2) in e.surfaces
    requires e.cache[U16(c, 0)].BienForme() && e.surfaces[U16(c, 2)].BienForme()
    requires e.surfaces[U16(c, 2)].Contient(px, py)
    ensures CacheVersSurface(e, c).Some? && CacheVersSurface(e, c).value.id == U16(c, 2)
    ensures var p := e.cache[U16(c, 0)];
            CacheVersSurface(e, c).value.image.At(px, py)
            == PixelCopie(e.surfaces[U16(c, 2)], p, 0, 0, Cibles(c, 6, U16(c, 4), p.largeur, p.hauteur), px, py)
  {
    PoseExacte(e, U16(c, 2), e.cache[U16(c, 0)], c, 6, U16(c, 4), px, py);
  }

  /** Where the bytes of pixel (px, py) of an uncompressed image begin in the PDU. */
  function OctetDe(z: Zone, px: int, py: int): nat
    requires z.Contient(px, py)
  {
    17 + 4 * Indice(z.largeur, px - z.x, py - z.y)
  }

  /** An uncompressed WireToSurface1 draws iff its rectangle is upright and inside the surface and all its bytes are
      there. */
  lemma NonCompresseAccepte(e: Etat, c: seq<octet>, decode: Decodage)
    requires |c| > 17 && U16(c, 2) == CODEC_NON_COMPRESSE
    ensures WireToSurface1(e, c, decode).Some? <==>
      && U16(c, 0) in e.surfaces
      && U16(c, 5) < U16(c, 9) <= e.surfaces[U16(c, 0)].largeur
      && U16(c, 7) < U16(c, 11) <= e.surfaces[U16(c, 0)].hauteur
      && 4 * Debut(U16(c, 9) - U16(c, 5), U16(c, 11) - U16(c, 7)) <= U32(c, 13) <= |c| - 17
  {
  }

  /** ... and then shows the B, G, R bytes of the PDU, opaque, inside the rectangle, and nothing new outside. */
  lemma NonCompresseExact(e: Etat, c: seq<octet>, decode: Decodage, px: int, py: int)
    requires |c| > 17 && U16(c, 2) == CODEC_NON_COMPRESSE && WireToSurface1(e, c, decode).Some?
    requires e.surfaces[U16(c, 0)].BienForme() && e.surfaces[U16(c, 0)].Contient(px, py)
    ensures var z := DepuisBords(c, 5).value;
            if z.Contient(px, py) then
              OctetDe(z, px, py) + 4 <= |c|
              && WireToSurface1(e, c, decode).value.image.At(px, py)
                 == Pixel(c[OctetDe(z, px, py) + 2], c[OctetDe(z, px, py) + 1], c[OctetDe(z, px, py)], 0xFF)
            else WireToSurface1(e, c, decode).value.image.At(px, py) == e.surfaces[U16(c, 0)].At(px, py)
  {
    var z, b := DepuisBords(c, 5).value, e.surfaces[U16(c, 0)];
    var donnees := c[17..17 + U32(c, 13)];
    var n := Debut(z.largeur, z.hauteur);
    var p := Bitmap(z.largeur, z.hauteur, DepuisBgra(donnees, n));
    EcritBitmap(b, z.x, z.y, p, px, py);
    assert z == Zone(z.x, z.y, p.largeur, p.hauteur);
    if z.Contient(px, py) {
      LignesSuccessives(z.largeur, py - z.y, z.hauteur);
    }
  }
}
