/** The screen mirrors the surfaces: painting the published frames puts every pixel the server drew at its place. */
module Miroir {
  import opened Octets
  import opened Bitmaps
  import opened Surfaces
  import opened EgfxModele
  import opened Comptes

  // ---------- Painting ----------

  /** The part of the screen a frame may touch. */
  function Visible(ecran: Bitmap, x: nat, y: nat, l: nat, h: nat): Zone
    requires x < ecran.largeur && y < ecran.hauteur
  {
    Zone(x, y, Min(l, ecran.largeur - x), Min(h, ecran.hauteur - y))
  }

  /** Paints rows of pixels on the screen. As in the source, the rows of `pixels` are taken to be as wide as
      the part that fits on the screen. */
  ghost function PeintRgba(ecran: Bitmap, x: nat, y: nat, l: nat, h: nat, pixels: seq<Pixel>): (r: Bitmap)
    ensures r.largeur == ecran.largeur && r.hauteur == ecran.hauteur && (ecran.BienForme() ==> r.BienForme())
  {
    if x >= ecran.largeur || y >= ecran.hauteur then ecran else
      var z := Visible(ecran, x, y, l, h);
      Colle(ecran, z, pixels, z.largeur)
  }

  ghost function Peint(ecran: Bitmap, t: Trame): (r: Bitmap)
    ensures r.largeur == ecran.largeur && r.hauteur == ecran.hauteur && (ecran.BienForme() ==> r.BienForme())
  {
    PeintRgba(ecran, t.x, t.y, t.image.largeur, t.image.hauteur, t.image.pixels)
  }

  ghost function PeintTous(ecran: Bitmap, ts: seq<Trame>): (r: Bitmap)
    ensures r.largeur == ecran.largeur && r.hauteur == ecran.hauteur && (ecran.BienForme() ==> r.BienForme())
  {
    if ts == [] then ecran else Peint(PeintTous(ecran, ts[..|ts| - 1]), ts[|ts| - 1])
  }

  lemma {:induction false} PeintSuite(ecran: Bitmap, a: seq<Trame>, b: seq<Trame>)
    ensures PeintTous(ecran, a + b) == PeintTous(PeintTous(ecran, a), b)
  {
    if b == [] {
      assert a + b == a;
    } else {
      PeintSuite(ecran, a, b[..|b| - 1]);
      assert (a + b)[..|a + b| - 1] == a + b[..|b| - 1];
    }
  }

  // ---------- When painting is faithful ----------

  /** What painting a w by h image at (x, y) ought to do: each of its pixels that falls on the screen is shown there. */
  ghost predicate Fidele(ecran: Bitmap, x: nat, y: nat, t: Bitmap) {
    forall px, py :: ecran.Contient(px, py) ==>
      PeintRgba(ecran, x, y, t.largeur, t.hauteur, t.pixels).At(px, py)
      == if Zone(x, y, t.largeur, t.hauteur).Contient(px, py) then t.At(px - x, py - y) else ecran.At(px, py)
  }

  /** The frame is off screen, or not cut on its right side, or shows at most one row. */
  predicate NonCisaillee(l: nat, h: nat, x: nat, y: nat, tl: nat, th: nat) {
    x >= l || y >= h || x + tl <= l || Min(th, h - y) <= 1
  }

  lemma FideleSi(ecran: Bitmap, x: nat, y: nat, t: Bitmap)
    requires ecran.BienForme() && t.BienForme()
    requires NonCisaillee(ecran.largeur, ecran.hauteur, x, y, t.largeur, t.hauteur)
    ensures Fidele(ecran, x, y, t)
  {
    if x < ecran.largeur && y < ecran.hauteur {
      var z := Visible(ecran, x, y, t.largeur, t.hauteur);
      forall px, py | ecran.Contient(px, py)
        ensures PeintRgba(ecran, x, y, t.largeur, t.hauteur, t.pixels).At(px, py)
          == if Zone(x, y, t.largeur, t.hauteur).Contient(px, py) then t.At(px - x, py - y) else ecran.At(px, py)
      {
        if z.Contient(px, py) {
          LignesSuccessives(t.largeur, py - y, t.hauteur);
          MemeDebut(z.largeur, t.largeur, py - y);
        }
      }
    }
  }

  /** Row starts agree for equal widths, and for the first row whatever the widths. */
  lemma MemeDebut(w: nat, w': nat, j: nat)
    ensures w == w' || j == 0 ==> Debut(w, j) == Debut(w', j)
  {
  }

  /** The painter is faithful to every image of a given size at a given place if and only if the image is off screen,
      not cut on the right, or one row high: a wider image is sheared, its rows being read at the wrong stride. */
  lemma PeintureFideleSsi(ecran: Bitmap, x: nat, y: nat, tl: nat, th: nat)
    requires ecran.BienForme()
    ensures (forall t: Bitmap :: t.BienForme() && t.largeur == tl && t.hauteur == th ==> Fidele(ecran, x, y, t))
       <==> NonCisaillee(ecran.largeur, ecran.hauteur, x, y, tl, th)
  {
    if NonCisaillee(ecran.largeur, ecran.hauteur, x, y, tl, th) {
      forall t: Bitmap | t.BienForme() && t.largeur == tl && t.hauteur == th ensures Fidele(ecran, x, y, t) {
        FideleSi(ecran, x, y, t);
      }
    } else {
      var t := TemoinCisaille(ecran, x, y, tl, th);
      assert !Fidele(ecran, x, y, t);
    }
  }

  /** The witness: all black but for the first pixel of its second row, which the painter reads elsewhere. */
  lemma TemoinCisaille(ecran: Bitmap, x: nat, y: nat, tl: nat, th: nat) returns (t: Bitmap)
    requires ecran.BienForme() && !NonCisaillee(ecran.largeur, ecran.hauteur, x, y, tl, th)
    ensures t.BienForme() && t.largeur == tl && t.hauteur == th && !Fidele(ecran, x, y, t)
    ensures ecran.Contient(x, y + 1) && t.Contient(0, 1)
    ensures PeintRgba(ecran, x, y, tl, th, t.pixels).At(x, y + 1) != t.At(0, 1)
  {
    var blanc := Pixel(255, 255, 255, 255);
    t := Tracer(tl, th, (i, j) => if i == 0 && j == 1 then blanc else NOIR);
    var z := Visible(ecran, x, y, tl, th);
    assert z.Contient(x, y + 1) && z.largeur < tl;
    assert t.Contient(0, 1) && t.At(0, 1) == blanc;
    assert t.Contient(z.largeur, 0) && t.At(z.largeur, 0) == NOIR;
    LignesSuccessives(tl, 1, th);
    assert Debut(z.largeur, 1) == z.largeur && Debut(tl, 0) == 0;
    assert PeintRgba(ecran, x, y, tl, th, t.pixels).At(x, y + 1) == NOIR by {
      assert LigneLue(t.pixels, z.largeur, z.largeur, 1) by {
        assert Debut(tl, 2) == 2 * tl;
      }
    }
  }

  // ---------- What publishing shows ----------

  /** The bytes a zone weighs once clipped to the surface. */
  function OctetsZone(b: Bitmap, z: Zone): nat {
    match z.Rognee(b.largeur, b.hauteur)
    case None => 0
    case Some(r) => OctetsSurface(r.largeur, r.hauteur)
  }

  function OctetsZones(b: Bitmap, zones: seq<Zone>): nat {
    if zones == [] then 0 else OctetsZone(b, zones[0]) + OctetsZones(b, zones[1..])
  }

  /** The bytes spent so far and those of all the zones but the last leave some of the budget. */
  predicate BudgetTient(b: Bitmap, zones: seq<Zone>, octets: nat) {
    zones == [] || octets + OctetsZones(b, zones[..|zones| - 1]) < OCTETS_PUBLIES_MAX
  }

  /** One zone: the budget holds for a list when it is not spent and holds for the rest once the first is counted. */
  lemma BudgetSuite(b: Bitmap, zones: seq<Zone>, octets: nat)
    requires zones != []
    ensures BudgetTient(b, zones, octets)
       <==> octets < OCTETS_PUBLIES_MAX && BudgetTient(b, zones[1..], octets + OctetsZone(b, zones[0]))
  {
    if |zones| > 1 {
      assert zones[..|zones| - 1][0] == zones[0];
      assert zones[..|zones| - 1][1..] == zones[1..][..|zones| - 2];
    }
  }

  lemma OctetsDecoupe(b: Bitmap, z: Zone)
    ensures match z.Rognee(b.largeur, b.hauteur)
            case None => OctetsZone(b, z) == 0
            case Some(r) => OctetsZone(b, z) == Decoupe(b, r).Octets()
  {
  }

  ghost predicate Ecran(ecran: Bitmap) {
    ecran.BienForme() && ecran.largeur < 0x1_0000 && ecran.hauteur < 0x1_0000
  }

  /** The frame of a zone, once on the screen, is painted right: off screen, or not cut on its right, or one row. */
  predicate ZoneDroite(l: nat, h: nat, b: Bitmap, ox: nat, oy: nat, z: Zone) {
    match z.Rognee(b.largeur, b.hauteur)
    case None => true
    case Some(r) => NonCisaillee(l, h, Sature16(ox + r.x), Sature16(oy + r.y), r.largeur, r.hauteur)
  }

  /** One frame, painted right. */
  lemma UneTramePeinte(ecran: Bitmap, b: Bitmap, ox: nat, oy: nat, z: Zone, px: int, py: int)
    requires Ecran(ecran) && ecran.Contient(px, py) && ZoneDroite(ecran.largeur, ecran.hauteur, b, ox, oy, z)
    requires z.Rognee(b.largeur, b.hauteur) == Some(z)
    ensures Peint(ecran, TrameDe(b, ox, oy, z)).At(px, py)
         == if z.Contient(px - ox, py - oy) then b.At(px - ox, py - oy) else ecran.At(px, py)
  {
    PixelPeint(ecran, TrameDe(b, ox, oy, z), px, py);
    PlaceDansTrame(ecran, ox + z.x, oy + z.y, z.largeur, z.hauteur, px, py);
    DansDecoupe(b, z, px - ox, py - oy);
  }

  lemma PixelPeint(ecran: Bitmap, t: Trame, px: int, py: int)
    requires ecran.BienForme() && ecran.Contient(px, py) && t.image.BienForme()
    requires NonCisaillee(ecran.largeur, ecran.hauteur, t.x, t.y, t.image.largeur, t.image.hauteur)
    ensures Peint(ecran, t).At(px, py)
         == if Zone(t.x, t.y, t.image.largeur, t.image.hauteur).Contient(px, py) then t.image.At(px - t.x, py - t.y)
            else ecran.At(px, py)
  {
    FideleSi(ecran, t.x, t.y, t.image);
  }

  lemma DansDecoupe(b: Bitmap, z: Zone, x: int, y: int)
    ensures z.Contient(x, y) ==> Decoupe(b, z).At(x - z.x, y - z.y) == b.At(x, y)
  {
    if z.Contient(x, y) {
      assert Decoupe(b, z).Contient(x - z.x, y - z.y);
    }
  }

  /** A saturated corner is off the screen, where its frame shows nothing. */
  lemma PlaceDansTrame(ecran: Bitmap, x: nat, y: nat, l: nat, h: nat, px: int, py: int)
    requires Ecran(ecran) && ecran.Contient(px, py)
    ensures Zone(Sature16(x), Sature16(y), l, h).Contient(px, py) <==> Zone(x, y, l, h).Contient(px, py)
    ensures Zone(x, y, l, h).Contient(px, py) ==> Sature16(x) == x && Sature16(y) == y
  {
  }

  /** From one screen to the next, the places under the zones of surface content `b` were refreshed and nothing else. */
  ghost predicate Rafraichi(avant: Bitmap, apres: Bitmap, b: Bitmap, ox: nat, oy: nat, zones: seq<Zone>) {
    && apres.largeur == avant.largeur && apres.hauteur == avant.hauteur
    && forall px, py :: avant.Contient(px, py) ==>
         apres.At(px, py) == if Couvert(zones, px - ox, py - oy) && b.Contient(px - ox, py - oy)
                             then b.At(px - ox, py - oy) else avant.At(px, py)
  }

  lemma RafraichiSuite(e0: Bitmap, e1: Bitmap, e2: Bitmap, b: Bitmap, ox: nat, oy: nat, z: Zone, zones: seq<Zone>)
    requires Rafraichi(e0, e1, b, ox, oy, [z]) && Rafraichi(e1, e2, b, ox, oy, zones)
    ensures Rafraichi(e0, e2, b, ox, oy, [z] + zones)
  {
    forall px, py | e0.Contient(px, py)
      ensures e2.At(px, py) == if Couvert([z] + zones, px - ox, py - oy) && b.Contient(px - ox, py - oy)
                               then b.At(px - ox, py - oy) else e0.At(px, py)
    {
      CouvertPlus(z, zones, px - ox, py - oy);
    }
  }

  lemma CouvertPlus(z: Zone, zones: seq<Zone>, x: int, y: int)
    ensures Couvert([z] + zones, x, y) <==> Couvert([z], x, y) || Couvert(zones, x, y)
    ensures Couvert([z], x, y) <==> z.Contient(x, y)
  {
    assert z in [z];
  }

  /** A zone off the surface refreshes nothing. */
  lemma RienAuDehors(avant: Bitmap, b: Bitmap, ox: nat, oy: nat, z: Zone)
    requires z.Rognee(b.largeur, b.hauteur).None?
    ensures Rafraichi(avant, avant, b, ox, oy, [z])
  {
    RogneeExacte(z, b.largeur, b.hauteur);
  }

  lemma UneTrameRafraichit(avant: Bitmap, b: Bitmap, ox: nat, oy: nat, z: Zone)
    requires Ecran(avant) && ZoneDroite(avant.largeur, avant.hauteur, b, ox, oy, z)
    requires z.Rognee(b.largeur, b.hauteur).Some?
    ensures Rafraichi(avant, Peint(avant, TrameDe(b, ox, oy, z.Rognee(b.largeur, b.hauteur).value)), b, ox, oy, [z])
  {
    var r := z.Rognee(b.largeur, b.hauteur).value;
    var apres := Peint(avant, TrameDe(b, ox, oy, r));
    RogneeExacte(z, b.largeur, b.hauteur);
    forall px, py | avant.Contient(px, py)
      ensures apres.At(px, py) == if Couvert([z], px - ox, py - oy) && b.Contient(px - ox, py - oy)
                                  then b.At(px - ox, py - oy) else avant.At(px, py)
    {
      UneTramePeinte(avant, b, ox, oy, r, px, py);
      CouvertPlus(z, [], px - ox, py - oy);
    }
  }

  ghost predicate ZonesDroites(l: nat, h: nat, b: Bitmap, ox: nat, oy: nat, zones: seq<Zone>) {
    forall z :: z in zones ==> ZoneDroite(l, h, b, ox, oy, z)
  }

  /** Painting the frames of a publication shows, at its place on the screen, every pixel of the surface under one
      of the zones, and leaves the rest of the screen alone. */
  lemma {:induction false} PublicationRafraichit(avant: Bitmap, b: Bitmap, ox: nat, oy: nat, zones: seq<Zone>,
                                                octets: nat)
    requires Ecran(avant) && ZonesDroites(avant.largeur, avant.hauteur, b, ox, oy, zones)
    requires BudgetTient(b, zones, octets)
    ensures Rafraichi(avant, PeintTous(avant, PublieZones(b, ox, oy, zones, octets).0), b, ox, oy, zones)
    decreases |zones|
  {
    if zones != [] {
      var e, apres := ApresZone(avant, b, ox, oy, zones[0]), octets + OctetsZone(b, zones[0]);
      DroitesSuite(avant.largeur, avant.hauteur, b, ox, oy, zones);
      PublieSuite(b, ox, oy, zones, octets);
      PublicationRafraichit(e, b, ox, oy, zones[1..], apres);
      UneZonePuis(avant, b, ox, oy, zones, octets, PublieZones(b, ox, oy, zones[1..], apres).0);
    }
  }

  /** The screen once the frame of a zone, if it has one, is painted. */
  ghost function ApresZone(ecran: Bitmap, b: Bitmap, ox: nat, oy: nat, z: Zone): (r: Bitmap)
    ensures r.largeur == ecran.largeur && r.hauteur == ecran.hauteur && (ecran.BienForme() ==> r.BienForme())
  {
    match z.Rognee(b.largeur, b.hauteur)
    case None => ecran
    case Some(r) => Peint(ecran, TrameDe(b, ox, oy, r))
  }

  /** The frame of the first zone, then frames that refresh the others. */
  lemma UneZonePuis(avant: Bitmap, b: Bitmap, ox: nat, oy: nat, zones: seq<Zone>, octets: nat, suite: seq<Trame>)
    requires Ecran(avant) && zones != [] && ZoneDroite(avant.largeur, avant.hauteur, b, ox, oy, zones[0])
    requires PublieZones(b, ox, oy, zones, octets).0
          == match zones[0].Rognee(b.largeur, b.hauteur)
             case None => suite
             case Some(z) => [TrameDe(b, ox, oy, z)] + suite
    requires var e := ApresZone(avant, b, ox, oy, zones[0]); Rafraichi(e, PeintTous(e, suite), b, ox, oy, zones[1..])
    ensures Rafraichi(avant, PeintTous(avant, PublieZones(b, ox, oy, zones, octets).0), b, ox, oy, zones)
  {
    assert [zones[0]] + zones[1..] == zones;
    match zones[0].Rognee(b.largeur, b.hauteur)
    case None => SansTramePuis(avant, PeintTous(avant, suite), b, ox, oy, zones[0], zones[1..]);
    case Some(z) => UneTramePuis(avant, b, ox, oy, zones[0], zones[1..], suite);
  }

  /** The first zone of a list the budget lets through, then the others. */
  lemma PublieSuite(b: Bitmap, ox: nat, oy: nat, zones: seq<Zone>, octets: nat)
    requires zones != [] && BudgetTient(b, zones, octets)
    ensures BudgetTient(b, zones[1..], octets + OctetsZone(b, zones[0]))
    ensures var suite := PublieZones(b, ox, oy, zones[1..], octets + OctetsZone(b, zones[0])).0;
            PublieZones(b, ox, oy, zones, octets).0
            == match zones[0].Rognee(b.largeur, b.hauteur)
               case None => suite
               case Some(z) => [TrameDe(b, ox, oy, z)] + suite
  {
    BudgetSuite(b, zones, octets);
    OctetsDecoupe(b, zones[0]);
  }

  lemma DroitesSuite(l: nat, h: nat, b: Bitmap, ox: nat, oy: nat, zones: seq<Zone>)
    requires zones != [] && ZonesDroites(l, h, b, ox, oy, zones)
    ensures ZoneDroite(l, h, b, ox, oy, zones[0]) && ZonesDroites(l, h, b, ox, oy, zones[1..])
  {
    assert forall z :: z in zones[1..] ==> z in zones;
  }

  /** No frame for one zone, then frames that refresh the others. */
  lemma SansTramePuis(avant: Bitmap, apres: Bitmap, b: Bitmap, ox: nat, oy: nat, z: Zone, zones: seq<Zone>)
    requires z.Rognee(b.largeur, b.hauteur).None? && Rafraichi(avant, apres, b, ox, oy, zones)
    ensures Rafraichi(avant, apres, b, ox, oy, [z] + zones)
  {
    RienAuDehors(avant, b, ox, oy, z);
    RafraichiSuite(avant, avant, apres, b, ox, oy, z, zones);
  }

  /** The frame of one zone, then frames that refresh the others. */
  lemma UneTramePuis(avant: Bitmap, b: Bitmap, ox: nat, oy: nat, z: Zone, zones: seq<Zone>, suite: seq<Trame>)
    requires Ecran(avant) && ZoneDroite(avant.largeur, avant.hauteur, b, ox, oy, z)
    requires z.Rognee(b.largeur, b.hauteur).Some?
    requires var e := Peint(avant, TrameDe(b, ox, oy, z.Rognee(b.largeur, b.hauteur).value));
             Rafraichi(e, PeintTous(e, suite), b, ox, oy, zones)
    ensures var t := TrameDe(b, ox, oy, z.Rognee(b.largeur, b.hauteur).value);
            Rafraichi(avant, PeintTous(avant, [t] + suite), b, ox, oy, [z] + zones)
  {
    var t := TrameDe(b, ox, oy, z.Rognee(b.largeur, b.hauteur).value);
    UneTrameRafraichit(avant, b, ox, oy, z);
    RafraichiSuite(avant, Peint(avant, t), PeintTous(Peint(avant, t), suite), b, ox, oy, z, zones);
    PeintUnPuis(avant, t, suite);
  }

  lemma PeintUnPuis(ecran: Bitmap, t: Trame, suite: seq<Trame>)
    ensures PeintTous(ecran, [t] + suite) == PeintTous(Peint(ecran, t), suite)
  {
    PeintSuite(ecran, [t], suite);
    assert [t][..0] == [];
    assert PeintTous(ecran, [t]) == Peint(ecran, t);
  }

  /** Every pixel of surface content `b` placed at (ox, oy) shows on the screen, where it falls on it. */
  ghost predicate Montre(ecran: Bitmap, b: Bitmap, ox: nat, oy: nat) {
    forall x, y :: b.Contient(x, y) && ecran.Contient(ox + x, oy + y) ==> ecran.At(ox + x, oy + y) == b.At(x, y)
  }

  /** Publishing a whole l by h surface at origin (ox, oy) and painting shows it, whatever it holds, if and only if
      the surface is not cut on the right of the screen (or is off screen, or shows one row). */
  lemma SurfaceEntiereSsi(ecran: Bitmap, l: nat, h: nat, ox: u16, oy: u16)
    requires Ecran(ecran) && l > 0 && h > 0
    ensures (forall b: Bitmap :: b.BienForme() && b.largeur == l && b.hauteur == h ==>
               Montre(PeintTous(ecran, PublieZones(b, ox, oy, [Zone(0, 0, l, h)], 0).0), b, ox, oy))
       <==> NonCisaillee(ecran.largeur, ecran.hauteur, ox, oy, l, h)
  {
    forall b: Bitmap | b.BienForme() && b.largeur == l && b.hauteur == h
      ensures PeintTous(ecran, PublieZones(b, ox, oy, [Zone(0, 0, l, h)], 0).0)
           == PeintRgba(ecran, ox, oy, l, h, b.pixels)
    {
      EntierePubliee(ecran, b, ox, oy);
    }
    if NonCisaillee(ecran.largeur, ecran.hauteur, ox, oy, l, h) {
      forall b: Bitmap | b.BienForme() && b.largeur == l && b.hauteur == h
        ensures Montre(PeintRgba(ecran, ox, oy, l, h, b.pixels), b, ox, oy)
      {
        FideleSi(ecran, ox, oy, b);
      }
    } else {
      var t := TemoinCisaille(ecran, ox, oy, l, h);
      assert !Montre(PeintRgba(ecran, ox, oy, l, h, t.pixels), t, ox, oy) by {
        assert PeintRgba(ecran, ox, oy, l, h, t.pixels).At(ox + 0, oy + 1) != t.At(0, 1);
      }
    }
  }

  lemma EntierePubliee(ecran: Bitmap, b: Bitmap, ox: u16, oy: u16)
    requires b.BienForme() && b.largeur > 0 && b.hauteur > 0
    ensures PeintTous(ecran, PublieZones(b, ox, oy, [Zone(0, 0, b.largeur, b.hauteur)], 0).0)
         == PeintRgba(ecran, ox, oy, b.largeur, b.hauteur, b.pixels)
  {
    var z := Zone(0, 0, b.largeur, b.hauteur);
    MemeImage(Decoupe(b, z), b);
    var t := TrameDe(b, ox, oy, z);
    assert t == Trame(ox, oy, b);
    assert [z][1..] == [];
    assert PublieZones(b, ox, oy, [z], 0).0 == [t] + [] == [t];
    PeintUnPuis(ecran, t, []);
    assert [t] + [] == [t];
  }

  /** Every zone becomes a frame if and only if the bytes spent and those of all of them but the last are below the
      budget: a single zone, or the box of many, if and only if the budget is not spent before it. */
  lemma {:induction false} BudgetSsi(b: Bitmap, ox: nat, oy: nat, zones: seq<Zone>, octets: nat)
    requires forall z :: z in zones ==> z.Rognee(b.largeur, b.hauteur).Some?
    ensures |PublieZones(b, ox, oy, zones, octets).0| <= |zones|
    ensures |PublieZones(b, ox, oy, zones, octets).0| == |zones| <==> BudgetTient(b, zones, octets)
    decreases |zones|
  {
    if zones != [] {
      BudgetSuite(b, zones, octets);
      OctetsDecoupe(b, zones[0]);
    }
    if zones != [] && octets < OCTETS_PUBLIES_MAX {
      var z := zones[0].Rognee(b.largeur, b.hauteur).value;
      BudgetSsi(b, ox, oy, zones[1..], octets + Decoupe(b, z).Octets());
    }
  }

  /** The bounding box covers everything the zones cover. */
  lemma {:induction false} BoiteCouvre(zones: seq<Zone>, x: int, y: int)
    requires zones != [] && Couvert(zones, x, y)
    ensures BoiteEnglobante(zones).Contient(x, y)
  {
    var n := |zones| - 1;
    if zones[n].Contient(x, y) {
      if n > 0 {
        var p := BoiteEnglobante(zones[..n]);
      }
    } else {
      assert zones == zones[..n] + [zones[n]];
      BoiteCouvre(zones[..n], x, y);
    }
  }

  lemma APublierCouvre(zones: seq<Zone>, x: int, y: int)
    requires Couvert(zones, x, y)
    ensures Couvert(APublier(zones), x, y)
  {
    if |zones| > RECTS_MAX {
      BoiteCouvre(zones, x, y);
      assert BoiteEnglobante(zones) in APublier(zones);
    }
  }

  // ---------- The commands draw only under the zones they publish ----------

  /** The image has the size of the surface, and every zone lies on it. */
  ghost predicate SurSaSurface(e: Etat, d: Dessin) {
    && d.id in e.surfaces
    && d.image.largeur == e.surfaces[d.id].largeur && d.image.hauteur == e.surfaces[d.id].hauteur
    && (forall x, y :: Couvert(d.zones, x, y) ==> d.image.Contient(x, y))
  }

  /** ... and outside the zones the image is the old one. */
  ghost predicate DessineSousZones(e: Etat, d: Dessin) {
    && SurSaSurface(e, d)
    && (forall x, y :: d.image.Contient(x, y) && !Couvert(d.zones, x, y) ==>
          d.image.At(x, y) == e.surfaces[d.id].At(x, y))
  }

  lemma {:induction false} RogneesCouvrent(zones: seq<Zone>, l: nat, h: nat, x: int, y: int)
    ensures Couvert(Rognees(zones, l, h), x, y) <==> Couvert(zones, x, y) && x < l && y < h
  {
    if zones != [] {
      var debut, z := zones[..|zones| - 1], zones[|zones| - 1];
      RogneesCouvrent(debut, l, h, x, y);
      RogneeExacte(z, l, h);
      assert zones == debut + [z];
      assert Couvert(zones, x, y) <==> Couvert(debut, x, y) || z.Contient(x, y);
      var m := z.Rognee(l, h);
      if m.Some? {
        assert Couvert(Rognees(zones, l, h), x, y) <==> Couvert(Rognees(debut, l, h), x, y) || m.value.Contient(x, y);
      }
    }
  }

  lemma {:induction false} EcritTousHors(b: Bitmap, zones: seq<Zone>, p: Bitmap, x: int, y: int)
    requires b.BienForme() && b.Contient(x, y) && !Couvert(zones, x, y)
    ensures EcritTous(b, zones, p).At(x, y) == b.At(x, y)
  {
    if zones != [] {
      var debut, z := zones[..|zones| - 1], zones[|zones| - 1];
      assert zones == debut + [z] && z in zones && forall y' :: y' in debut ==> y' in zones;
      EcritTousHors(b, debut, p, x, y);
      EcritHors(EcritTous(b, debut, p), z, p.pixels, p.largeur, x, y);
    }
  }

  lemma EcritHors(b: Bitmap, z: Zone, source: seq<Pixel>, pas: nat, x: int, y: int)
    requires b.BienForme() && b.Contient(x, y) && !z.Contient(x, y)
    ensures Ecrit(b, z, source, pas).At(x, y) == b.At(x, y)
  {
    RogneeExacte(z, b.largeur, b.hauteur);
  }

  lemma {:induction false} RempliTousHors(b: Bitmap, zones: seq<Zone>, couleur: Pixel, x: int, y: int)
    requires b.BienForme() && b.Contient(x, y) && !Couvert(zones, x, y)
    ensures RempliTous(b, zones, couleur).At(x, y) == b.At(x, y)
  {
    if zones != [] {
      var debut, z := zones[..|zones| - 1], zones[|zones| - 1];
      assert zones == debut + [z] && z in zones && forall y' :: y' in debut ==> y' in zones;
      RempliTousHors(b, debut, couleur, x, y);
      RogneeExacte(z, b.largeur, b.hauteur);
    }
  }

  lemma SolidFillSousZones(e: Etat, c: seq<octet>)
    requires Sain(e) && |c| >= 8 && SolidFill(e, c).Some?
    ensures DessineSousZones(e, SolidFill(e, c).value)
  {
    var b, rects := e.surfaces[U16(c, 0)], Rects(c, Presents(c, 8, 8, U16(c, 6)));
    var couleur := Pixel(c[4], c[3], c[2], 0xFF);
    forall x, y
      ensures Couvert(Rognees(rects, b.largeur, b.hauteur), x, y)
         <==> Couvert(rects, x, y) && x < b.largeur && y < b.hauteur
    {
      RogneesCouvrent(rects, b.largeur, b.hauteur, x, y);
    }
    forall x, y | b.Contient(x, y) && !Couvert(rects, x, y)
      ensures RempliTous(b, rects, couleur).At(x, y) == b.At(x, y)
    {
      RempliTousHors(b, rects, couleur, x, y);
    }
  }

  lemma PoseSousZones(e: Etat, id: u16, p: Bitmap, c: seq<octet>, base: nat, n: nat)
    requires Sain(e) && Pose(e, id, p, c, base, n).Some?
    ensures DessineSousZones(e, Pose(e, id, p, c, base, n).value)
  {
    var b, cibles := e.surfaces[id], Cibles(c, base, n, p.largeur, p.hauteur);
    forall x, y
      ensures Couvert(Rognees(cibles, b.largeur, b.hauteur), x, y)
         <==> Couvert(cibles, x, y) && x < b.largeur && y < b.hauteur
    {
      RogneesCouvrent(cibles, b.largeur, b.hauteur, x, y);
    }
    forall x, y | b.Contient(x, y) && !Couvert(cibles, x, y) ensures EcritTous(b, cibles, p).At(x, y) == b.At(x, y) {
      EcritTousHors(b, cibles, p, x, y);
    }
  }

  lemma WireSousZones(e: Etat, c: seq<octet>, decode: Decodage)
    requires Sain(e) && |c| > 17 && WireToSurface1(e, c, decode).Some?
    ensures DessineSousZones(e, WireToSurface1(e, c, decode).value)
  {
    var b, d, z := e.surfaces[U16(c, 0)], WireToSurface1(e, c, decode).value, DepuisBords(c, 5).value;
    assert d.zones == [z];
    assert forall x, y :: Couvert([z], x, y) <==> z.Contient(x, y);
    var p := PixelsRecus(U16(c, 2), c[17..17 + U32(c, 13)], Debut(z.largeur, z.hauteur), decode).value;
    forall x, y | b.Contient(x, y) && !z.Contient(x, y) ensures Ecrit(b, z, p, z.largeur).At(x, y) == b.At(x, y) {
      EcritHors(b, z, p, z.largeur, x, y);
    }
  }

  lemma {:induction false} PoseTuilesHors(b: Bitmap, ts: seq<Tuile>, x: int, y: int)
    requires b.BienForme() && b.Contient(x, y) && !Couvert(PlacesTuiles(ts), x, y)
    ensures PoseTuiles(b, ts).At(x, y) == b.At(x, y)
  {
    if ts != [] {
      var debut, t := ts[..|ts| - 1], ts[|ts| - 1];
      assert PlacesTuiles(ts) == PlacesTuiles(debut) + [PlaceTuile(t)];
      assert PlaceTuile(t) in PlacesTuiles(ts) && forall z :: z in PlacesTuiles(debut) ==> z in PlacesTuiles(ts);
      PoseTuilesHors(b, debut, x, y);
      EcritHors(PoseTuiles(b, debut), PlaceTuile(t), t.pixels, COTE, x, y);
    }
  }

  lemma ProgressifSousZones(e: Etat, c: seq<octet>, decode: Decodage)
    requires Sain(e) && |c| > 13 && WireToSurface2(e, c, decode).Some? && decode.aboutie
    ensures DessineSousZones(e, WireToSurface2(e, c, decode).value)
  {
    var b, places := e.surfaces[U16(c, 0)], PlacesTuiles(decode.tuiles);
    forall x, y
      ensures Couvert(Rognees(places, b.largeur, b.hauteur), x, y)
         <==> Couvert(places, x, y) && x < b.largeur && y < b.hauteur
    {
      RogneesCouvrent(places, b.largeur, b.hauteur, x, y);
    }
    forall x, y | b.Contient(x, y) && !Couvert(places, x, y)
      ensures PoseTuiles(b, decode.tuiles).At(x, y) == b.At(x, y)
    {
      PoseTuilesHors(b, decode.tuiles, x, y);
    }
  }

  /** The one drawing that may change pixels without publishing them: a progressive image whose decoder failed. */
  predicate Rate(p: Pdu, decode: Decodage) {
    p.id == CMD_WIRE_TO_SURFACE_2 && !(decode.Tuiles? && decode.aboutie)
  }

  /** No other drawing command changes a pixel it does not publish. */
  lemma DessinSousZones(e: Etat, p: Pdu, decode: Decodage)
    requires Sain(e) && DessinDe(e, p, decode).Some? && !Rate(p, decode)
    ensures DessineSousZones(e, DessinDe(e, p, decode).value)
  {
    var c, n := p.charge, |p.charge|;
    if p.id == CMD_WIRE_TO_SURFACE_1 && n > 17 {
      WireSousZones(e, c, decode);
    } else if p.id == CMD_WIRE_TO_SURFACE_2 && n > 13 {
      ProgressifSousZones(e, c, decode);
    } else if p.id == CMD_SOLIDFILL && n >= 8 {
      SolidFillSousZones(e, c);
    } else if p.id == CMD_SURFACE_TO_SURFACE && n >= 14 {
      SurfaceVersSurfaceSousZones(e, c);
    } else {
      PoseSousZones(e, U16(c, 2), e.cache[U16(c, 0)], c, 6, U16(c, 4));
    }
  }

  /** The other way: on every live surface, a decoder that fails after one tile changes a pixel it does not publish. The
      tile is of one colour, which the surface does not have at its corner. */
  lemma TemoinRate(e: Etat, c: seq<octet>) returns (ts: seq<Tuile>)
    requires Sain(e) && |c| > 13 && U16(c, 2) == CODEC_CAPROGRESSIVE && U16(c, 0) in e.surfaces
    ensures WireToSurface2(e, c, Tuiles(ts, false)).Some?
    ensures var d := WireToSurface2(e, c, Tuiles(ts, false)).value;
            d.image.Contient(0, 0) && d.zones == [] && d.image.At(0, 0) != e.surfaces[U16(c, 0)].At(0, 0)
    ensures !DessineSousZones(e, WireToSurface2(e, c, Tuiles(ts, false)).value)
  {
    var b := e.surfaces[U16(c, 0)];
    var couleur := if b.At(0, 0) == NOIR then Pixel(255, 255, 255, 255) else NOIR;
    var t := Tuile(0, 0, seq(COTE * COTE, _ => couleur));
    ts := [t];
    assert ts[..0] == [] && PlaceTuile(t).Contient(0, 0);
    assert PoseTuiles(b, ts) == Ecrit(b, PlaceTuile(t), t.pixels, COTE);
    assert Ecrit(b, PlaceTuile(t), t.pixels, COTE).At(0, 0) == couleur;
  }

  /** A progressive image drawn on a live surface publishes all it changes, whatever its tiles, if and only if its
      decoder finished. */
  lemma ProgressifSsi(e: Etat, c: seq<octet>, aboutie: bool)
    requires Sain(e) && |c| > 13 && U16(c, 2) == CODEC_CAPROGRESSIVE && U16(c, 0) in e.surfaces
    ensures (forall ts :: DessineSousZones(e, WireToSurface2(e, c, Tuiles(ts, aboutie)).value)) <==> aboutie
  {
    if aboutie {
      forall ts ensures DessineSousZones(e, WireToSurface2(e, c, Tuiles(ts, aboutie)).value) {
        ProgressifSousZones(e, c, Tuiles(ts, aboutie));
      }
    } else {
      var ts := TemoinRate(e, c);
      assert !DessineSousZones(e, WireToSurface2(e, c, Tuiles(ts, aboutie)).value);
    }
  }

  /** Every drawing keeps the size of its surface, and its zones are on it. */
  lemma DessinSurSaSurface(e: Etat, p: Pdu, decode: Decodage)
    requires Sain(e) && DessinDe(e, p, decode).Some?
    ensures SurSaSurface(e, DessinDe(e, p, decode).value)
  {
    if Rate(p, decode) {
      assert DessinDe(e, p, decode).value.zones == [];
      DessinMemeTaille(e, p, decode);
    } else {
      DessinSousZones(e, p, decode);
    }
  }

  lemma SurfaceVersSurfaceSousZones(e: Etat, c: seq<octet>)
    requires Sain(e) && |c| >= 14 && SurfaceVersSurface(e, c).Some?
    ensures DessineSousZones(e, SurfaceVersSurface(e, c).value)
  {
    PoseSousZones(e, U16(c, 2), Extrait(e, U16(c, 0), DepuisBords(c, 4)).value, c, 14, U16(c, 12));
  }

  // ---------- The mirror over whole sessions ----------

  /** What reaches the channel and its painter: a new segment (the byte budget starts again), a PDU of it
      (with the answer of the image decoder, if it asks for one), and the queue being painted. */
  datatype Evenement = Segment | Recu(pdu: Pdu, decode: Decodage) | Peinture

  /** The pixels (surface, x, y) known to be on the screen. */
  type Connus = iset<(u16, int, int)>

  ghost function Redimensionne(image: Bitmap, taille: Option<(u16, u16)>): (r: Bitmap) {
    if taille.None? || taille.value == (image.largeur, image.hauteur) then image
    else Noire(taille.value.0, taille.value.1)
  }

  /** The screen as it will be once the queue is painted. */
  ghost function Affiche(e: Etat, image: Bitmap): Bitmap {
    PeintTous(Redimensionne(image, e.taille), e.trames)
  }

  datatype Session = Session(e: Etat, image: Bitmap)

  ghost function Suit(s: Session, ev: Evenement): Session {
    match ev
    case Segment => s.(e := s.e.(octetsPublies := 0))
    case Recu(p, decode) => s.(e := Traite(s.e, p, decode))
    case Peinture => Session(s.e.(trames := [], taille := None), Affiche(s.e, s.image))
  }

  /** Drawing adds the pixels under its zones. It forgets those it changed without publishing them (a progressive image
      that failed half way; no other drawing has any, see `DessinSousZones`), and those of other surfaces that it paints
      over. A management command forgets the pixels of a surface it recreates, deletes or moves, and all of them when
      the screen changes size. */
  ghost function ConnusApres(s: Session, connus: Connus, ev: Evenement): Connus {
    if ev.Recu? && EstDessin(ev.pdu) then
      match DessinDe(s.e, ev.pdu, ev.decode)
      case None => connus
      case Some(d) => ConnusDessin(s.e, connus, d)
    else if ev.Recu? then
      var e' := Gere(s.e, ev.pdu);
      if Redimensionne(s.image, e'.taille) == Redimensionne(s.image, s.e.taille)
      then Restes(connus, s.e, e') else iset{}
    else connus
  }

  /** The pixels published, and those known before that kept their colour, or are not painted over. */
  ghost function ConnusDessin(e: Etat, connus: Connus, d: Dessin): Connus {
    iset id: u16, x: int, y: int | Reste(e, connus, d, id, x, y) || (id == d.id && Couvert(d.zones, x, y)) :: (id, x, y)
  }

  ghost predicate Reste(e: Etat, connus: Connus, d: Dessin, id: u16, x: int, y: int) {
    && (id, x, y) in connus
    && (if id == d.id then d.id in e.surfaces && d.image.At(x, y) == e.surfaces[d.id].At(x, y)
        else !Repeint(e, d, id, x, y))
  }

  /** The place of pixel (x, y) of surface `id` on the screen lies under what the drawing publishes. */
  ghost predicate Repeint(e: Etat, d: Dessin, id: u16, x: int, y: int) {
    var px, py := Origine(e, id).0 + x - Origine(e, d.id).0, Origine(e, id).1 + y - Origine(e, d.id).1;
    Couvert(APublier(d.zones), px, py) && d.image.Contient(px, py)
  }

  /** A drawing that publishes all it changes, on a surface that overlaps no other, forgets nothing. */
  lemma RienNEstOublie(e: Etat, connus: Connus, d: Dessin, ecran: Bitmap)
    requires DessineSousZones(e, d) && Isolee(e, d.id) && Miroir(e, connus, ecran)
    ensures connus <= ConnusDessin(e, connus, d)
  {
    forall t | t in connus ensures t in ConnusDessin(e, connus, d) {
      assert EnPlace(e, ecran, t.0, t.1, t.2);
      assert t.0 != d.id ==> Disjointes(e, d.id, t.0);
    }
  }

  /** Surface `id` is there in both states, with the same pixels and the same origin. */
  ghost predicate MemePlace(e: Etat, e': Etat, id: u16) {
    id in e.surfaces && id in e'.surfaces && e'.surfaces[id] == e.surfaces[id] && Origine(e', id) == Origine(e, id)
  }

  /** The known pixels of the surfaces that did not change between two states. */
  ghost function Restes(connus: Connus, e: Etat, e': Etat): Connus {
    iset t | t in connus && MemePlace(e, e', t.0)
  }

  /** Pixel (x, y) of an image at origin `o` shows, if that place is on the screen. */
  ghost predicate Vu(ecran: Bitmap, b: Bitmap, o: (u16, u16), x: int, y: int) {
    ecran.Contient(o.0 + x, o.1 + y) ==> ecran.At(o.0 + x, o.1 + y) == b.At(x, y)
  }

  /** Pixel (x, y) of surface `id` shows at the surface's origin. */
  ghost predicate EnPlace(e: Etat, ecran: Bitmap, id: u16, x: int, y: int) {
    id in e.surfaces && e.surfaces[id].Contient(x, y) && Vu(ecran, e.surfaces[id], Origine(e, id), x, y)
  }

  /** Every known pixel shows at its place. */
  ghost predicate Miroir(e: Etat, connus: Connus, ecran: Bitmap) {
    forall id, x, y :: (id, x, y) in connus ==> EnPlace(e, ecran, id, x, y)
  }

  /** The places of surfaces i and j on the screen have no pixel in common. */
  ghost predicate Disjointes(e: Etat, i: u16, j: u16)
    requires i in e.surfaces && j in e.surfaces
  {
    var a, b, oa, ob := e.surfaces[i], e.surfaces[j], Origine(e, i), Origine(e, j);
    || oa.0 + a.largeur <= ob.0 || ob.0 + b.largeur <= oa.0
    || oa.1 + a.hauteur <= ob.1 || ob.1 + b.hauteur <= oa.1
  }

  /** Surface `i` overlaps no other on the screen. */
  ghost predicate Isolee(e: Etat, i: u16)
    requires i in e.surfaces
  {
    forall j :: j in e.surfaces && j != i ==> Disjointes(e, i, j)
  }

  /** A drawing is favourable when none of the rectangles it publishes is cut on the right of the screen (but off it, or
      on one row), and the byte budget lets all it publishes through. */
  ghost predicate DessinFavorable(s: Session, d: Dessin) {
    && d.id in s.e.surfaces
    && ZonesDroites(Redimensionne(s.image, s.e.taille).largeur, Redimensionne(s.image, s.e.taille).hauteur,
                    d.image, Origine(s.e, d.id).0, Origine(s.e, d.id).1, APublier(d.zones))
    && BudgetTient(d.image, APublier(d.zones), s.e.octetsPublies)
  }

  ghost predicate Favorable(s: Session, ev: Evenement) {
    ev.Recu? && EstDessin(ev.pdu) && DessinDe(s.e, ev.pdu, ev.decode).Some? ==>
      DessinFavorable(s, DessinDe(s.e, ev.pdu, ev.decode).value)
  }

  ghost predicate SessionSaine(s: Session) {
    Sain(s.e) && Ecran(s.image)
  }

  lemma RedimensionneEcran(image: Bitmap, taille: Option<(u16, u16)>)
    requires Ecran(image) && (taille.Some? ==> TailleSure(taille.value.0, taille.value.1))
    ensures Ecran(Redimensionne(image, taille))
  {
  }

  lemma AppliqueAffiche(e: Etat, image: Bitmap, d: Dessin)
    ensures var o := Origine(e, d.id);
            Affiche(Applique(e, d), image)
            == PeintTous(Affiche(e, image), PublieZones(d.image, o.0, o.1, APublier(d.zones), e.octetsPublies).0)
  {
    var o := Origine(e, d.id);
    var ts := PublieZones(d.image, o.0, o.1, APublier(d.zones), e.octetsPublies).0;
    assert Applique(e, d).trames == e.trames + ts && Applique(e, d).taille == e.taille;
    PeintSuite(Redimensionne(image, e.taille), e.trames, ts);
  }

  lemma AppliqueEtat(e: Etat, d: Dessin)
    requires d.id in e.surfaces
    ensures Applique(e, d).surfaces == e.surfaces[d.id := d.image] && Applique(e, d).origines == e.origines
  {
  }

  lemma AppliqueRafraichit(s: Session, d: Dessin)
    requires SessionSaine(s) && DessinFavorable(s, d)
    ensures Rafraichi(Affiche(s.e, s.image), Affiche(Applique(s.e, d), s.image),
                      d.image, Origine(s.e, d.id).0, Origine(s.e, d.id).1, APublier(d.zones))
  {
    RedimensionneEcran(s.image, s.e.taille);
    AppliqueAffiche(s.e, s.image, d);
    PublicationRafraichit(Affiche(s.e, s.image), d.image, Origine(s.e, d.id).0, Origine(s.e, d.id).1,
                          APublier(d.zones), s.e.octetsPublies);
  }

  lemma RafraichiEnPlace(e: Etat, e': Etat, ecran: Bitmap, apres: Bitmap, d: Dessin, id: u16, x: int, y: int)
    requires SurSaSurface(e, d) && e'.surfaces == e.surfaces[d.id := d.image] && e'.origines == e.origines
    requires Rafraichi(ecran, apres, d.image, Origine(e, d.id).0, Origine(e, d.id).1, APublier(d.zones))
    requires (id == d.id && Couvert(d.zones, x, y))
             || (EnPlace(e, ecran, id, x, y)
                 && (if id == d.id then d.image.At(x, y) == e.surfaces[id].At(x, y) else !Repeint(e, d, id, x, y)))
    ensures EnPlace(e', apres, id, x, y)
  {
    assert Origine(e', id) == Origine(e, id);
    if id == d.id {
      assert e'.surfaces[id] == d.image;
      if Couvert(d.zones, x, y) {
        APublierCouvre(d.zones, x, y);
      }
    } else {
      assert e'.surfaces[id] == e.surfaces[id];
    }
  }

  lemma AppliqueMiroir(s: Session, connus: Connus, d: Dessin)
    requires SessionSaine(s) && SurSaSurface(s.e, d) && DessinFavorable(s, d)
    requires Miroir(s.e, connus, Affiche(s.e, s.image))
    ensures Miroir(Applique(s.e, d), ConnusDessin(s.e, connus, d), Affiche(Applique(s.e, d), s.image))
  {
    var ecran, apres := Affiche(s.e, s.image), Affiche(Applique(s.e, d), s.image);
    AppliqueEtat(s.e, d);
    AppliqueRafraichit(s, d);
    forall id, x, y | (id, x, y) in ConnusDessin(s.e, connus, d)
      ensures EnPlace(Applique(s.e, d), apres, id, x, y)
    {
      assert (id, x, y) in connus ==> EnPlace(s.e, ecran, id, x, y);
      RafraichiEnPlace(s.e, Applique(s.e, d), ecran, apres, d, id, x, y);
    }
  }

  lemma PeintureMiroir(s: Session, connus: Connus)
    requires SessionSaine(s) && Miroir(s.e, connus, Affiche(s.e, s.image))
    ensures SessionSaine(Suit(s, Peinture))
    ensures Miroir(Suit(s, Peinture).e, connus, Affiche(Suit(s, Peinture).e, Suit(s, Peinture).image))
  {
    RedimensionneEcran(s.image, s.e.taille);
    FileVide(s.e, Affiche(s.e, s.image));
    MemesSurfaces(s.e, Suit(s, Peinture).e, connus, Affiche(s.e, s.image));
  }

  lemma FileVide(e: Etat, image: Bitmap)
    ensures Affiche(e.(trames := [], taille := None), image) == image
  {
  }

  lemma MemesSurfaces(e: Etat, e': Etat, connus: Connus, ecran: Bitmap)
    requires Miroir(e, connus, ecran) && e'.surfaces == e.surfaces && e'.origines == e.origines
    ensures Miroir(e', connus, ecran)
  {
    forall id, x, y | (id, x, y) in connus ensures EnPlace(e', ecran, id, x, y) {
      assert EnPlace(e, ecran, id, x, y);
    }
  }

  lemma GereMiroir(s: Session, connus: Connus, p: Pdu)
    requires SessionSaine(s) && !EstDessin(p) && Miroir(s.e, connus, Affiche(s.e, s.image))
    ensures Miroir(Gere(s.e, p), ConnusApres(s, connus, Recu(p, Echec)), Affiche(Gere(s.e, p), s.image))
  {
    GereGardeFile(s.e, p);
    var e' := Gere(s.e, p);
    if Redimensionne(s.image, e'.taille) == Redimensionne(s.image, s.e.taille) {
      GereMemeEcran(s.e, e', connus, s.image);
    }
  }

  lemma GereMemeEcran(e: Etat, e': Etat, connus: Connus, image: Bitmap)
    requires e'.trames == e.trames && Miroir(e, connus, Affiche(e, image))
    requires Redimensionne(image, e'.taille) == Redimensionne(image, e.taille)
    ensures Miroir(e', Restes(connus, e, e'), Affiche(e', image))
  {
    forall id, x, y | (id, x, y) in Restes(connus, e, e') ensures EnPlace(e', Affiche(e', image), id, x, y) {
      assert EnPlace(e, Affiche(e, image), id, x, y) && MemePlace(e, e', id);
    }
  }

  /** One event keeps the mirror. */
  lemma SuitMiroir(s: Session, connus: Connus, ev: Evenement)
    requires SessionSaine(s) && Favorable(s, ev) && Miroir(s.e, connus, Affiche(s.e, s.image))
    ensures SessionSaine(Suit(s, ev))
    ensures Miroir(Suit(s, ev).e, ConnusApres(s, connus, ev), Affiche(Suit(s, ev).e, Suit(s, ev).image))
  {
    match ev
    case Segment =>
    case Peinture => PeintureMiroir(s, connus);
    case Recu(p, decode) =>
      TraiteSain(s.e, p, decode);
      if !EstDessin(p) {
        GereMiroir(s, connus, p);
      } else if DessinDe(s.e, p, decode).Some? {
        DessinSurSaSurface(s.e, p, decode);
        AppliqueMiroir(s, connus, DessinDe(s.e, p, decode).value);
      }
  }

  lemma GereGardeFile(e: Etat, p: Pdu)
    ensures Gere(e, p).trames == e.trames
  {
  }

  ghost function SuitTous(s: Session, evs: seq<Evenement>): Session {
    if evs == [] then s else Suit(SuitTous(s, evs[..|evs| - 1]), evs[|evs| - 1])
  }

  ghost function ConnusApresTous(s: Session, connus: Connus, evs: seq<Evenement>): Connus {
    if evs == [] then connus else
      ConnusApres(SuitTous(s, evs[..|evs| - 1]), ConnusApresTous(s, connus, evs[..|evs| - 1]), evs[|evs| - 1])
  }

  /** Over any session whose drawings are all favourable, from any state where the screen agreed with the surfaces
      on the known pixels: every pixel published since its surface was created and last moved, since the screen last
      changed size and since a failed image last changed it, is on the screen once the queue is painted, and so is every
      pixel known before that none of these touched. */
  lemma {:induction false} ToujoursMiroir(s: Session, connus: Connus, evs: seq<Evenement>)
    requires SessionSaine(s) && Miroir(s.e, connus, Affiche(s.e, s.image))
    requires forall k :: 0 <= k < |evs| ==> Favorable(SuitTous(s, evs[..k]), evs[k])
    ensures var f := SuitTous(s, evs);
            SessionSaine(f) && Miroir(f.e, ConnusApresTous(s, connus, evs), Affiche(f.e, f.image))
  {
    if evs != [] {
      var debut := evs[..|evs| - 1];
      forall k | 0 <= k < |debut| ensures Favorable(SuitTous(s, debut[..k]), debut[k]) {
        assert debut[..k] == evs[..k];
      }
      ToujoursMiroir(s, connus, debut);
      SuitMiroir(SuitTous(s, debut), ConnusApresTous(s, connus, debut), evs[|evs| - 1]);
    }
  }

  // ---------- Full agreement over a run of drawings ----------

  /** Every pixel of every surface. */
  ghost function Tous(e: Etat): Connus {
    iset id: u16, x: int, y: int | id in e.surfaces && e.surfaces[id].Contient(x, y) :: (id, x, y)
  }

  /** The screen agrees with every surface, pixel for pixel, once the queue is painted. */
  ghost predicate Accord(s: Session) {
    Miroir(s.e, Tous(s.e), Affiche(s.e, s.image))
  }

  /** No two surfaces have a place on the screen in common. */
  ghost predicate Separees(e: Etat) {
    forall i :: i in e.surfaces ==> Isolee(e, i)
  }

  /** The commands that make, delete or place surfaces, or change the size of the screen. */
  predicate EstPlacement(p: Pdu) {
    EstTable(p) || p.id == CMD_MAP_SURFACE_TO_OUTPUT || p.id == CMD_RESET_GRAPHICS
  }

  /** A PDU that leaves every surface where it is and publishes all it changes. */
  predicate Discret(ev: Evenement) {
    ev.Recu? ==> !EstPlacement(ev.pdu) && !Rate(ev.pdu, ev.decode)
  }

  /** The surfaces of two states have the same sizes and the same places. */
  ghost predicate MemesPlaces(e: Etat, e': Etat) {
    && e'.origines == e.origines && e'.surfaces.Keys == e.surfaces.Keys
    && forall id :: id in e.surfaces ==>
         e'.surfaces[id].largeur == e.surfaces[id].largeur && e'.surfaces[id].hauteur == e.surfaces[id].hauteur
  }

  lemma MemesPlacesSeparees(e: Etat, e': Etat)
    requires Separees(e) && MemesPlaces(e, e')
    ensures Separees(e') && Tous(e') == Tous(e)
  {
    forall i, j | i in e'.surfaces && j in e'.surfaces && j != i ensures Disjointes(e', i, j) {
      assert Isolee(e, i) && Disjointes(e, i, j);
    }
  }

  lemma GereDiscret(e: Etat, p: Pdu)
    requires !EstDessin(p) && !EstPlacement(p)
    ensures Gere(e, p).surfaces == e.surfaces && Gere(e, p).origines == e.origines && Gere(e, p).taille == e.taille
  {
  }

  lemma DessinAccord(s: Session, p: Pdu, decode: Decodage)
    requires SessionSaine(s) && Separees(s.e) && Accord(s) && EstDessin(p) && !Rate(p, decode)
    requires DessinDe(s.e, p, decode).Some? && Favorable(s, Recu(p, decode))
    ensures MemesPlaces(s.e, Traite(s.e, p, decode)) && Accord(s.(e := Traite(s.e, p, decode)))
  {
    var d := DessinDe(s.e, p, decode).value;
    DessinSousZones(s.e, p, decode);
    AppliqueEtat(s.e, d);
    MemesPlacesSeparees(s.e, Applique(s.e, d));
    AppliqueMiroir(s, Tous(s.e), d);
    RienNEstOublie(s.e, Tous(s.e), d, Affiche(s.e, s.image));
  }

  lemma GereAccord(s: Session, p: Pdu)
    requires SessionSaine(s) && Accord(s) && !EstDessin(p) && !EstPlacement(p)
    ensures MemesPlaces(s.e, Gere(s.e, p)) && Accord(s.(e := Gere(s.e, p)))
  {
    GereDiscret(s.e, p);
    GereGardeFile(s.e, p);
    MemesSurfaces(s.e, Gere(s.e, p), Tous(s.e), Affiche(s.e, s.image));
    assert Tous(Gere(s.e, p)) == Tous(s.e);
  }

  /** One event keeps the full agreement. */
  lemma SuitAccord(s: Session, ev: Evenement)
    requires SessionSaine(s) && Separees(s.e) && Accord(s) && Favorable(s, ev) && Discret(ev)
    ensures SessionSaine(Suit(s, ev)) && Separees(Suit(s, ev).e) && Accord(Suit(s, ev))
    ensures MemesPlaces(s.e, Suit(s, ev).e)
  {
    SuitMiroir(s, Tous(s.e), ev);
    match ev
    case Segment =>
    case Peinture =>
    case Recu(p, decode) =>
      if !EstDessin(p) {
        GereAccord(s, p);
      } else if DessinDe(s.e, p, decode).Some? {
        DessinAccord(s, p, decode);
      }
    MemesPlacesSeparees(s.e, Suit(s, ev).e);
  }

  /** When surfaces do not overlap on the screen and the screen agrees with every one of them, it still does, pixel for
      pixel, after any run of favourable drawings, segments, paintings and commands that place no surface. */
  lemma {:induction false} ToujoursAccord(s: Session, evs: seq<Evenement>)
    requires SessionSaine(s) && Separees(s.e) && Accord(s)
    requires forall k :: 0 <= k < |evs| ==> Discret(evs[k]) && Favorable(SuitTous(s, evs[..k]), evs[k])
    ensures var f := SuitTous(s, evs);
            SessionSaine(f) && Separees(f.e) && Accord(f) && MemesPlaces(s.e, f.e)
  {
    if evs != [] {
      var debut := evs[..|evs| - 1];
      forall k | 0 <= k < |debut| ensures Discret(debut[k]) && Favorable(SuitTous(s, debut[..k]), debut[k]) {
        assert debut[..k] == evs[..k];
      }
      ToujoursAccord(s, debut);
      SuitAccord(SuitTous(s, debut), evs[|evs| - 1]);
    }
  }
}
