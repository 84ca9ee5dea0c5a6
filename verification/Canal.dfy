/** The graphics channel processor itself: mutable surfaces and cache, parsing loops, byte counters.
    Every method is tied to the state machine of `EgfxModele`. */
module Canal {
  import opened Octets
  import opened Suites
  import opened Bitmaps
  import opened Surfaces
  import opened EgfxModele
  import opened Cadrage

  class Cache {
    var entrees: map<u16, Bitmap>
    var octets: int

    constructor ()
      ensures entrees == map[] && octets == 0
    {
      entrees, octets := map[], 0;
    }

    /** Stores a piece of image unless a slot or the byte budget is missing; the old piece of the slot is given back. */
    method Deposer(emplacement: u16, p: Bitmap)
      modifies this
      ensures (entrees, octets) == DeposeDans(old(entrees), old(octets), emplacement, p)
    {
      if |entrees| >= EMPLACEMENTS_MAX && emplacement !in entrees {
        return;
      }
      var anciens := OctetsEn(entrees, emplacement);
      if octets - anciens + p.Octets() > OCTETS_CACHE_MAX {
        return;
      }
      octets := octets - anciens + p.Octets();
      entrees := entrees[emplacement := p];
    }

    method Oublier(emplacement: u16)
      modifies this
      ensures entrees == old(entrees) - {emplacement} && octets == old(octets) - OctetsEn(old(entrees), emplacement)
    {
      if emplacement in entrees {
        octets := octets - entrees[emplacement].Octets();
        entrees := entrees - {emplacement};
      }
    }
  }

  /** The smallest rectangle around a list of rectangles, in one pass. */
  method Boite(zones: seq<Zone>) returns (b: Zone)
    requires zones != []
    ensures b == BoiteEnglobante(zones)
  {
    var x0: nat, y0: nat := zones[0].x, zones[0].y;
    var x1: nat, y1: nat := zones[0].x + zones[0].largeur, zones[0].y + zones[0].hauteur;
    for i := 1 to |zones|
      invariant 0 <= x0 <= x1 && 0 <= y0 <= y1
      invariant BoiteEnglobante(zones[..i]) == Zone(x0, y0, x1 - x0, y1 - y0)
    {
      assert zones[..i + 1][..i] == zones[..i];
      var z := zones[i];
      x0, y0 := Min(x0, z.x), Min(y0, z.y);
      x1, y1 := Max(x1, z.x + z.largeur), Max(y1, z.y + z.hauteur);
    }
    assert zones[..|zones|] == zones;
    b := Zone(x0, y0, x1 - x0, y1 - y0);
  }

  /** More than RECTS_MAX zones are sent as their box. */
  method Choisir(zones: seq<Zone>) returns (r: seq<Zone>)
    ensures r == APublier(zones)
  {
    r := zones;
    if |zones| > RECTS_MAX {
      var boite := Boite(zones);
      r := [boite];
    }
  }

  /** The frames of a list of zones, in order, while the byte budget lasts. */
  method Extractions(surface: Surface, ox: u16, oy: u16, zones: seq<Zone>, octets: nat)
    returns (ts: seq<Trame>, apres: nat)
    requires surface.Valid()
    ensures (ts, apres) == PublieZones(surface.Vue(), ox, oy, zones, octets)
  {
    ghost var b := surface.Vue();
    ts, apres := [], octets;
    var i := 0;
    assert zones[0..] == zones;
    assert [] + PublieZones(b, ox, oy, zones, octets).0 == PublieZones(b, ox, oy, zones, octets).0;
    while i < |zones| && apres < OCTETS_PUBLIES_MAX
      invariant i <= |zones|
      invariant PublieZones(b, ox, oy, zones, octets)
        == (ts + PublieZones(b, ox, oy, zones[i..], apres).0, PublieZones(b, ox, oy, zones[i..], apres).1)
    {
      assert zones[i..][1..] == zones[i + 1..] && zones[i..][0] == zones[i];
      ghost var suite := PublieZones(b, ox, oy, zones[i..], apres);
      var r := surface.Extraire(zones[i]);
      i := i + 1;
      if r.Some? {
        var (z, pixels) := r.value;
        var t := Trame(Sature16(ox + z.x), Sature16(oy + z.y), Bitmap(z.largeur, z.hauteur, pixels));
        assert t == TrameDe(b, ox, oy, z) && suite.0 == [t] + suite.0[1..];
        Associe(ts, [t], suite.0[1..]);
        apres := apres + 4 * |pixels|;
        ts := ts + [t];
      }
    }
    assert PublieZones(b, ox, oy, zones[i..], apres) == ([], apres) && ts + [] == ts;
  }

  /** Filling the usable rectangles among the first `k` of `b` gives `apres` and the clips `zones`. */
  ghost predicate Remplie(b: Bitmap, c: seq<octet>, k: nat, couleur: Pixel, apres: Bitmap, zones: seq<Zone>)
    requires k == 0 || 8 + 8 * k <= |c|
  {
    apres == RempliTous(b, Rects(c, k), couleur) && zones == Rognees(Rects(c, k), b.largeur, b.hauteur)
  }

  /** One more rectangle, if it is usable. */
  lemma RemplieSuivante(b: Bitmap, c: seq<octet>, k: nat, couleur: Pixel, apres: Bitmap, zones: seq<Zone>)
    requires 8 + 8 * (k + 1) <= |c| && Remplie(b, c, k, couleur, apres, zones)
    ensures match DepuisBords(c, 8 + 8 * k)
            case None => Remplie(b, c, k + 1, couleur, apres, zones)
            case Some(r) =>
              Remplie(b, c, k + 1, couleur, Rempli(apres, r, couleur),
                      match r.Rognee(b.largeur, b.hauteur) case None => zones case Some(z) => zones + [z])
  {
    var rects := Rects(c, k + 1);
    assert DepuisBords(c, 8 + 8 * k).Some? ==> rects[..|rects| - 1] == Rects(c, k);
  }

  /** Fills one more rectangle. */
  method RemplirUn(surface: Surface, c: seq<octet>, i: nat, couleur: Pixel, zones: seq<Zone>, ghost b: Bitmap)
    returns (apres: seq<Zone>)
    requires surface.Valid() && b.largeur == surface.largeur && b.hauteur == surface.hauteur
    requires 8 + 8 * (i + 1) <= |c| && Remplie(b, c, i, couleur, surface.Vue(), zones)
    modifies surface.pixels
    ensures Remplie(b, c, i + 1, couleur, surface.Vue(), apres)
  {
    apres := zones;
    RemplieSuivante(b, c, i, couleur, surface.Vue(), zones);
    var lu := DepuisBords(c, 8 + 8 * i);
    if lu.Some? {
      var z := surface.Remplir(lu.value, couleur);
      apres := match z case None => zones case Some(r) => zones + [r];
    }
  }

  /** Fills the complete, upright rectangles of a SolidFill one after the other; returns the clips that were painted. */
  method RemplirRects(surface: Surface, c: seq<octet>, n: nat, couleur: Pixel) returns (zones: seq<Zone>)
    requires surface.Valid() && |c| >= 8
    modifies surface.pixels
    ensures var rects := Rects(c, Presents(c, 8, 8, n));
            surface.Vue() == RempliTous(old(surface.Vue()), rects, couleur)
            && zones == Rognees(rects, surface.largeur, surface.hauteur)
  {
    zones := [];
    var i := 0;
    while i < n && 8 + 8 * (i + 1) <= |c|
      invariant i <= Presents(c, 8, 8, n)
      invariant Remplie(old(surface.Vue()), c, i, couleur, surface.Vue(), zones)
    {
      zones := RemplirUn(surface, c, i, couleur, zones, old(surface.Vue()));
      i := i + 1;
    }
  }

  /** Copying `p` to the first `k` points of `b` gives `apres` and the clips `zones`. */
  ghost predicate Copiee(b: Bitmap, c: seq<octet>, base: nat, k: nat, p: Bitmap, apres: Bitmap, zones: seq<Zone>)
    requires k == 0 || base + 4 * k <= |c|
  {
    var points := Points(c, base, k, p.largeur, p.hauteur);
    apres == EcritTous(b, points, p) && zones == Rognees(points, b.largeur, b.hauteur)
  }

  /** One more point. */
  lemma CopieeSuivante(b: Bitmap, c: seq<octet>, base: nat, k: nat, p: Bitmap, apres: Bitmap, zones: seq<Zone>)
    requires base + 4 * (k + 1) <= |c| && Copiee(b, c, base, k, p, apres, zones)
    ensures var cible := Zone(U16(c, base + 4 * k), U16(c, base + 4 * k + 2), p.largeur, p.hauteur);
            Copiee(b, c, base, k + 1, p, Ecrit(apres, cible, p.pixels, p.largeur),
                   match cible.Rognee(b.largeur, b.hauteur) case None => zones case Some(z) => zones + [z])
  {
    var points := Points(c, base, k + 1, p.largeur, p.hauteur);
    assert points[..|points| - 1] == Points(c, base, k, p.largeur, p.hauteur);
  }

  /** Copies an image to one more point. */
  method CopierUn(surface: Surface, c: seq<octet>, base: nat, i: nat, p: Bitmap, zones: seq<Zone>, ghost b: Bitmap)
    returns (apres: seq<Zone>)
    requires surface.Valid() && b.largeur == surface.largeur && b.hauteur == surface.hauteur
    requires base + 4 * (i + 1) <= |c| && Copiee(b, c, base, i, p, surface.Vue(), zones)
    modifies surface.pixels
    ensures Copiee(b, c, base, i + 1, p, surface.Vue(), apres)
  {
    var cible := Zone(U16(c, base + 4 * i), U16(c, base + 4 * i + 2), p.largeur, p.hauteur);
    CopieeSuivante(b, c, base, i, p, surface.Vue(), zones);
    var z := surface.Ecrire(cible, p.pixels, p.largeur);
    apres := match z case None => zones case Some(r) => zones + [r];
  }

  /** Copies an image to each complete destination point, one after the other; returns the clips that were painted. */
  method CopierVers(surface: Surface, c: seq<octet>, base: nat, n: nat, p: Bitmap) returns (zones: seq<Zone>)
    requires surface.Valid() && base <= |c|
    modifies surface.pixels
    ensures var cibles := Cibles(c, base, n, p.largeur, p.hauteur);
            surface.Vue() == EcritTous(old(surface.Vue()), cibles, p)
            && zones == Rognees(cibles, surface.largeur, surface.hauteur)
  {
    zones := [];
    var i := 0;
    while i < n && base + 4 * (i + 1) <= |c|
      invariant i <= Presents(c, base, 4, n) && base + 4 * i <= |c|
      invariant Copiee(old(surface.Vue()), c, base, i, p, surface.Vue(), zones)
    {
      zones := CopierUn(surface, c, base, i, p, zones, old(surface.Vue()));
      i := i + 1;
    }
  }

  /** Lays tiles on a surface one after the other, clipped to its edges; returns the clips that were painted. */
  method PoserTuiles(surface: Surface, ts: seq<Tuile>) returns (zones: seq<Zone>)
    requires surface.Valid()
    modifies surface.pixels
    ensures surface.Vue() == PoseTuiles(old(surface.Vue()), ts)
    ensures zones == Rognees(PlacesTuiles(ts), surface.largeur, surface.hauteur)
  {
    zones := [];
    for i := 0 to |ts|
      invariant surface.Vue() == PoseTuiles(old(surface.Vue()), ts[..i])
      invariant zones == Rognees(PlacesTuiles(ts[..i]), surface.largeur, surface.hauteur)
    {
      assert ts[..i + 1][..i] == ts[..i];
      assert PlacesTuiles(ts[..i + 1])[..i] == PlacesTuiles(ts[..i]);
      var z := surface.Ecrire(PlaceTuile(ts[i]), ts[i].pixels, COTE);
      if z.Some? {
        zones := zones + [z.value];
      }
    }
    assert ts[..|ts|] == ts;
  }

  lemma TraiteUnDePlus(e: Etat, pdus: seq<Pdu>, decodes: nat -> Decodage, i: nat)
    requires i < |pdus|
    ensures var avant, rep := TraiteTous(e, pdus[..i], decodes), Reponse(TraiteTous(e, pdus[..i], decodes).0, pdus[i]);
            TraiteTous(e, pdus[..i + 1], decodes)
            == (Traite(avant.0, pdus[i], decodes(i)), if rep.Some? then avant.1 + [rep.value] else avant.1)
  {
    assert pdus[..i + 1][..i] == pdus[..i];
  }

  class Egfx {
    var surfaces: map<u16, Surface>
    var octetsSurfaces: int
    var octetsPublies: nat
    const cache: Cache
    var origines: map<u16, (u16, u16)>
    var tramesDecodees: u32
    var trames: seq<Trame>
    var taille: Option<(u16, u16)>

    ghost function Tampons(): set<array<Pixel>>
      reads this`surfaces
    {
      set id | id in surfaces :: surfaces[id].pixels
    }

    ghost function Images(): map<u16, Bitmap>
      reads this`surfaces, Tampons()
    {
      map id | id in surfaces :: surfaces[id].Vue()
    }

    /** The state of the channel, as a value. */
    ghost function Vue(): Etat
      reads this, cache, Tampons()
    {
      Etat(Images(), octetsSurfaces, octetsPublies, cache.entrees, cache.octets, origines,
           tramesDecodees, trames, taille)
    }

    /** Surfaces own distinct buffers of their own size. */
    ghost predicate Valid()
      reads this`surfaces
    {
      && (forall id :: id in surfaces ==> surfaces[id].Valid())
      && (forall i, j :: i in surfaces && j in surfaces && i != j ==> surfaces[i].pixels != surfaces[j].pixels)
    }

    constructor ()
      ensures Valid() && Vue() == INITIAL && fresh(cache) && Tampons() == {}
    {
      surfaces, octetsSurfaces, octetsPublies := map[], 0, 0;
      cache := new Cache();
      origines, tramesDecodees, trames, taille := map[], 0, [], None;
      new;
      assert Images() == map[];
    }

    /** Pushes the zones of a surface to the display queue: all of them or their box, until the byte budget is spent. */
    static lemma PublieDe(e: Etat, id: u16, zones: seq<Zone>, ts: seq<Trame>, octets: nat)
      requires id in e.surfaces
      requires (ts, octets)
        == PublieZones(e.surfaces[id], Origine(e, id).0, Origine(e, id).1, APublier(zones), e.octetsPublies)
      ensures Publie(e, id, zones) == e.(trames := e.trames + ts, octetsPublies := octets)
    {
    }

    /** The frames to push, and the byte count once they are. */
    method Morceaux(id: u16, zones: seq<Zone>) returns (ts: seq<Trame>, octets: nat)
      requires Valid() && id in surfaces
      ensures Publie(Vue(), id, zones) == Vue().(trames := trames + ts, octetsPublies := octets)
    {
      var surface := surfaces[id];
      assert Images()[id] == surface.Vue();
      var o := if id in origines then origines[id] else (0, 0);
      var aPublier := Choisir(zones);
      ts, octets := Extractions(surface, o.0, o.1, aPublier, octetsPublies);
      PublieDe(Vue(), id, zones, ts, octets);
    }

    method Publier(id: u16, zones: seq<Zone>)
      requires Valid()
      modifies this`trames, this`octetsPublies
      ensures Vue() == Publie(old(Vue()), id, zones)
    {
      if id !in surfaces {
        return;
      }
      var ts, octets := Morceaux(id, zones);
      trames, octetsPublies := trames + ts, octets;
    }

    /** The state after a drawing, if there is one. */
    static ghost function Apres(e: Etat, d: Option<Dessin>): Etat {
      match d
      case None => e
      case Some(d) => Applique(e, d)
    }

    method SolidFill(c: seq<octet>)
      requires Valid() && |c| >= 8
      modifies this`trames, this`octetsPublies, Tampons()
      ensures Vue() == Apres(old(Vue()), EgfxModele.SolidFill(old(Vue()), c))
    {
      var id := U16(c, 0);
      if id !in surfaces {
        return;
      }
      var surface := surfaces[id];
      var zones := RemplirRects(surface, c, U16(c, 6), Pixel(c[4], c[3], c[2], 0xFF));
      assert Images() == old(Images())[id := surface.Vue()];
      Publier(id, zones);
    }

    /** Copies an image to the destinations listed in the PDU and publishes them. */
    method Poser(id: u16, p: Bitmap, c: seq<octet>, base: nat, n: nat)
      requires Valid() && base <= |c|
      modifies this`trames, this`octetsPublies, Tampons()
      ensures Vue() == Apres(old(Vue()), Pose(old(Vue()), id, p, c, base, n))
    {
      if id !in surfaces {
        return;
      }
      var surface := surfaces[id];
      var zones := CopierVers(surface, c, base, n, p);
      assert Images() == old(Images())[id := surface.Vue()];
      Publier(id, zones);
    }

    /** The part of a surface under a rectangle, if both exist. */
    method Extraire(id: u16, zone: Option<Zone>) returns (r: Option<Bitmap>)
      requires Valid()
      ensures r == Extrait(Vue(), id, zone)
    {
      if zone.None? || id !in surfaces {
        return None;
      }
      var surface := surfaces[id];
      assert Images()[id] == surface.Vue();
      var m := surface.Extraire(zone.value);
      if m.None? {
        return None;
      }
      var (z, pixels) := m.value;
      return Some(Bitmap(z.largeur, z.hauteur, pixels));
    }

    method SurfaceVersSurface(c: seq<octet>)
      requires Valid() && |c| >= 14
      modifies this`trames, this`octetsPublies, Tampons()
      ensures Vue() == Apres(old(Vue()), EgfxModele.SurfaceVersSurface(old(Vue()), c))
    {
      var p := Extraire(U16(c, 0), DepuisBords(c, 4));
      if p.Some? {
        Poser(U16(c, 2), p.value, c, 14, U16(c, 12));
      }
    }

    method CacheVersSurface(c: seq<octet>)
      requires Valid() && |c| >= 6
      modifies this`trames, this`octetsPublies, Tampons()
      ensures Vue() == Apres(old(Vue()), EgfxModele.CacheVersSurface(old(Vue()), c))
    {
      if U16(c, 0) in cache.entrees {
        Poser(U16(c, 2), cache.entrees[U16(c, 0)], c, 6, U16(c, 4));
      }
    }

    /** Copies pixels under a rectangle that lies on the surface, and publishes it. */
    method EcrireEtPublier(id: u16, z: Zone, p: seq<Pixel>)
      requires Valid() && id in surfaces && z.largeur > 0 && z.hauteur > 0
      requires z.x + z.largeur <= surfaces[id].largeur && z.y + z.hauteur <= surfaces[id].hauteur
      modifies this`trames, this`octetsPublies, Tampons()
      ensures Vue() == Applique(old(Vue()), Dessin(id, Ecrit(old(surfaces[id].Vue()), z, p, z.largeur), [z]))
    {
      var surface := surfaces[id];
      var clip := surface.Ecrire(z, p, z.largeur);
      assert Images() == old(Images())[id := surface.Vue()];
      Publier(id, [clip.value]);
    }

    /** An image laid on a surface; `decode` is what the codec's decoder answered, if one is called. */
    method WireToSurface1(c: seq<octet>, decode: Decodage)
      requires Valid() && |c| > 17
      modifies this`trames, this`octetsPublies, Tampons()
      ensures Vue() == Apres(old(Vue()), EgfxModele.WireToSurface1(old(Vue()), c, decode))
    {
      var id, zone, n := U16(c, 0), DepuisBords(c, 5), U32(c, 13);
      if zone.None? || 17 + n > |c| || id !in surfaces {
        return;
      }
      var z, surface := zone.value, surfaces[id];
      assert Images()[id] == surface.Vue();
      if z.x + z.largeur > surface.largeur || z.y + z.hauteur > surface.hauteur {
        return;
      }
      var rgba := PixelsRecus(U16(c, 2), c[17..17 + n], Debut(z.largeur, z.hauteur), decode);
      if rgba.None? {
        return;
      }
      EcrireEtPublier(id, z, rgba.value);
    }

    /** A progressive image: tiles are laid as they are decoded, and published if none failed. */
    method WireToSurface2(c: seq<octet>, decode: Decodage)
      requires Valid() && |c| > 13
      modifies this`trames, this`octetsPublies, Tampons()
      ensures Vue() == Apres(old(Vue()), EgfxModele.WireToSurface2(old(Vue()), c, decode))
    {
      var id := U16(c, 0);
      if U16(c, 2) != CODEC_CAPROGRESSIVE || id !in surfaces || !decode.Tuiles? {
        return;
      }
      var surface := surfaces[id];
      var zones := PoserTuiles(surface, decode.tuiles);
      assert Images() == old(Images())[id := surface.Vue()];
      Publier(id, if decode.aboutie then zones else []);
    }

    method SurfaceVersCache(c: seq<octet>)
      requires Valid() && |c| >= 20
      modifies cache
      ensures Vue() == EgfxModele.SurfaceVersCache(old(Vue()), c)
    {
      ghost var e := Vue();
      var p := Extraire(U16(c, 0), DepuisBords(c, 12));
      if p.Some? {
        cache.Deposer(U16(c, 10), p.value);
        assert Images() == e.surfaces;
      }
    }

    /** Puts a new black surface in the table. */
    method Installer(id: u16, l: u16, h: u16, octets: int)
      requires Valid()
      modifies this`surfaces, this`octetsSurfaces
      ensures Valid() && fresh(Tampons() - old(Tampons()))
      ensures Vue() == old(Vue()).(surfaces := old(Images())[id := Noire(l, h)], octetsSurfaces := octets)
    {
      octetsSurfaces := octets;
      var surface := new Surface(l, h);
      surfaces := surfaces[id := surface];
      assert Images() == old(Images())[id := Noire(l, h)];
    }

    /** The table of surfaces and the images it stands for have the same identifiers. */
    lemma MemeTable()
      ensures Images().Keys == surfaces.Keys && |Images()| == |surfaces|
    {
      assert |Images()| == |Images().Keys| && |surfaces| == |surfaces.Keys|;
    }

    /** The bytes accounted for a live surface. */
    method Comptes(id: u16) returns (n: nat)
      requires Valid()
      ensures n == if id in Images() then OctetsSurface(Images()[id].largeur, Images()[id].hauteur) else 0
    {
      n := if id in surfaces then OctetsSurface(surfaces[id].largeur, surfaces[id].hauteur) else 0;
    }

    /** Is there a slot and enough budget for an l by h surface? `apres` is the byte count it would give. */
    method Place(id: u16, l: u16, h: u16) returns (ok: bool, apres: int)
      requires Valid()
      ensures Ajoute(Images(), octetsSurfaces, id, l, h)
        == if ok then (Images()[id := Noire(l, h)], apres) else (Images(), octetsSurfaces)
    {
      MemeTable();
      var deja := Comptes(id);
      apres := octetsSurfaces - deja + OctetsSurface(l, h);
      ok := !(id !in surfaces && |surfaces| >= SURFACES_MAX) && apres <= OCTETS_SURFACES_MAX;
    }

    static lemma SurfaceCreee(e: Etat, c: seq<octet>, ok: bool, apres: int)
      requires |c| >= 7 && 0 < U16(c, 2) <= TAILLE_MAX && 0 < U16(c, 4) <= TAILLE_MAX
      requires var image := Noire(U16(c, 2), U16(c, 4));
               Ajoute(e.surfaces, e.octetsSurfaces, U16(c, 0), U16(c, 2), U16(c, 4))
               == if ok then (e.surfaces[U16(c, 0) := image], apres) else (e.surfaces, e.octetsSurfaces)
      ensures var image := Noire(U16(c, 2), U16(c, 4));
              EgfxModele.CreateSurface(e, c)
              == if ok then e.(surfaces := e.surfaces[U16(c, 0) := image], octetsSurfaces := apres) else e
    {
    }

    method CreateSurface(c: seq<octet>)
      requires Valid() && |c| >= 7
      modifies this`surfaces, this`octetsSurfaces
      ensures Valid() && fresh(Tampons() - old(Tampons()))
      ensures Vue() == EgfxModele.CreateSurface(old(Vue()), c)
    {
      var id, l, h := U16(c, 0), U16(c, 2), U16(c, 4);
      if l == 0 || h == 0 || l > TAILLE_MAX || h > TAILLE_MAX {
        return;
      }
      var ok, apres := Place(id, l, h);
      SurfaceCreee(Vue(), c, ok, apres);
      if ok {
        Installer(id, l, h, apres);
      }
    }

    /** Takes a surface out of the table, with its bytes. */
    method Supprimer(id: u16)
      requires Valid()
      modifies this`surfaces, this`octetsSurfaces
      ensures Valid() && Tampons() <= old(Tampons()) && Images() == old(Images()) - {id}
      ensures octetsSurfaces == old(octetsSurfaces)
        - if id in old(Images()) then OctetsSurface(old(Images())[id].largeur, old(Images())[id].hauteur) else 0
    {
      var rendus := Comptes(id);
      octetsSurfaces := octetsSurfaces - rendus;
      surfaces := surfaces - {id};
    }

    method DeleteSurface(id: u16)
      requires Valid()
      modifies this`surfaces, this`octetsSurfaces, this`origines
      ensures Valid() && Tampons() <= old(Tampons())
      ensures Vue() == EgfxModele.DeleteSurface(old(Vue()), id)
    {
      Supprimer(id);
      origines := origines - {id};
    }

    method Dessiner(p: Pdu, decode: Decodage)
      requires Valid() && EstDessin(p)
      modifies this`trames, this`octetsPublies, Tampons()
      ensures Vue() == Dessine(old(Vue()), p, decode)
    {
      var c := p.charge;
      if p.id == CMD_WIRE_TO_SURFACE_1 {
        if |c| > 17 {
          WireToSurface1(c, decode);
        }
      } else if p.id == CMD_WIRE_TO_SURFACE_2 {
        if |c| > 13 {
          WireToSurface2(c, decode);
        }
      } else if p.id == CMD_SOLIDFILL {
        if |c| >= 8 {
          SolidFill(c);
        }
      } else if p.id == CMD_SURFACE_TO_SURFACE {
        if |c| >= 14 {
          SurfaceVersSurface(c);
        }
      } else {
        if |c| >= 6 {
          CacheVersSurface(c);
        }
      }
    }

    method GererTable(p: Pdu)
      requires Valid() && EstTable(p)
      modifies this`surfaces, this`octetsSurfaces, this`origines
      ensures Valid() && fresh(Tampons() - old(Tampons()))
      ensures Vue() == GereTable(old(Vue()), p)
    {
      if p.id == CMD_CREATE_SURFACE {
        if |p.charge| >= 7 {
          CreateSurface(p.charge);
        }
      } else if |p.charge| >= 2 {
        DeleteSurface(U16(p.charge, 0));
      }
    }

    method MapSurface(c: seq<octet>)
      requires Valid() && |c| >= 12
      modifies this`origines
      ensures Vue() == EgfxModele.MapSurface(old(Vue()), c)
    {
      var x, y := U32(c, 4), U32(c, 8);
      if x < 0x1_0000 && y < 0x1_0000 {
        origines := origines[U16(c, 0) := (x, y)];
      }
    }

    method ResetGraphics(c: seq<octet>)
      requires Valid() && |c| >= 8
      modifies this`taille
      ensures Vue() == EgfxModele.ResetGraphics(old(Vue()), c)
    {
      var l, h := U32(c, 0), U32(c, 4);
      if 0 < l <= TAILLE_MAX && 0 < h <= TAILLE_MAX {
        taille := Some((l, h));
      }
    }

    method GererReste(p: Pdu)
      requires Valid() && !EstDessin(p) && !EstTable(p)
      modifies this`origines, this`taille, this`tramesDecodees, cache
      ensures Vue() == GereReste(old(Vue()), p)
    {
      var c, n := p.charge, |p.charge|;
      if p.id == CMD_MAP_SURFACE_TO_OUTPUT && n >= 12 {
        MapSurface(c);
      } else if p.id == CMD_RESET_GRAPHICS && n >= 8 {
        ResetGraphics(c);
      } else if p.id == CMD_SURFACE_TO_CACHE && n >= 20 {
        SurfaceVersCache(c);
      } else if p.id == CMD_EVICT_CACHE_ENTRY && n >= 2 {
        cache.Oublier(U16(c, 0));
      } else if EstEndFrame(p) {
        tramesDecodees := (tramesDecodees + 1) % 0x1_0000_0000;
      }
    }

    /** Handles one PDU of the server; returns the frame acknowledgement to send back, if any. */
    method Traiter(p: Pdu, decode: Decodage) returns (r: Option<seq<octet>>)
      requires Valid()
      modifies this, cache, Tampons()
      ensures Valid() && fresh(Tampons() - old(Tampons()))
      ensures Vue() == Traite(old(Vue()), p, decode) && r == Reponse(old(Vue()), p)
    {
      if EstDessin(p) {
        Dessiner(p, decode);
      } else if EstTable(p) {
        GererTable(p);
      } else {
        GererReste(p);
      }
      r := if EstEndFrame(p) then Some(FrameAcknowledge(U32(p.charge, 0), tramesDecodees)) else None;
    }

    /** Handles a list of PDUs in order; `decodes(i)` answers for the i-th of them. */
    method TraiterTous(pdus: seq<Pdu>, decodes: nat -> Decodage) returns (reponses: seq<seq<octet>>)
      requires Valid()
      modifies this, cache, Tampons()
      ensures Valid() && fresh(Tampons() - old(Tampons()))
      ensures (Vue(), reponses) == TraiteTous(old(Vue()), pdus, decodes)
    {
      reponses := [];
      ghost var e := Vue();
      for i := 0 to |pdus|
        invariant Valid() && fresh(Tampons() - old(Tampons()))
        invariant (Vue(), reponses) == TraiteTous(e, pdus[..i], decodes)
      {
        TraiteUnDePlus(e, pdus, decodes, i);
        var accuse := Traiter(pdus[i], decodes(i));
        if accuse.Some? {
          reponses := reponses + [accuse.value];
        }
      }
      assert pdus[..|pdus|] == pdus;
    }

    /** Handles one segment (`None`: it could not be decompressed), with a byte budget of its own. */
    method Process(clair: Option<seq<octet>>, decodes: nat -> Decodage) returns (reponses: seq<seq<octet>>)
      requires Valid()
      modifies this, cache, Tampons()
      ensures Valid() && fresh(Tampons() - old(Tampons()))
      ensures var pdus := if clair.Some? then Pdus(clair.value) else [];
              (Vue(), reponses) == TraiteTous(old(Vue()).(octetsPublies := 0), pdus, decodes)
    {
      octetsPublies := 0;
      var pdus := [];
      if clair.Some? {
        pdus := Decouper(clair.value);
      }
      assert Vue() == old(Vue()).(octetsPublies := 0);
      reponses := TraiterTous(pdus, decodes);
    }
  }
}
