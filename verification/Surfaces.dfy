/** Surfaces of the graphics channel: what their operations mean, and the in-place row loops that do it. */
module Surfaces {
  import opened Octets
  import opened Bitmaps

  // ---------- What the operations mean ----------

  /** Row `j` of a buffer read with stride `pas`, `l` pixels wide, lies inside the buffer. */
  predicate LigneLue(source: seq<Pixel>, pas: nat, l: nat, j: int) {
    0 <= j && Indice(pas, 0, j) + l <= |source|
  }

  function PixelLu(source: seq<Pixel>, pas: nat, l: nat, i: int, j: int): Pixel {
    if 0 <= i < l && LigneLue(source, pas, l, j) then source[Indice(pas, i, j)] else NOIR
  }

  /** Bitmap `b` with the rows of `source` copied over zone `z`; rows the buffer is too short for are left alone. */
  ghost function Colle(b: Bitmap, z: Zone, source: seq<Pixel>, pas: nat): (r: Bitmap)
    ensures r.largeur == b.largeur && r.hauteur == b.hauteur && r.BienForme()
  {
    Tracer(b.largeur, b.hauteur, (px, py) =>
      if z.Contient(px, py) && LigneLue(source, pas, z.largeur, py - z.y)
      then PixelLu(source, pas, z.largeur, px - z.x, py - z.y) else b.At(px, py))
  }

  /** Clips, then copies. */
  ghost function Ecrit(b: Bitmap, z: Zone, source: seq<Pixel>, pas: nat): (r: Bitmap)
    ensures r.largeur == b.largeur && r.hauteur == b.hauteur && (b.BienForme() ==> r.BienForme())
  {
    match z.Rognee(b.largeur, b.hauteur)
    case None => b
    case Some(c) => Colle(b, c, source, pas)
  }

  ghost function Rempli(b: Bitmap, z: Zone, couleur: Pixel): (r: Bitmap)
    ensures r.largeur == b.largeur && r.hauteur == b.hauteur && (b.BienForme() ==> r.BienForme())
  {
    match z.Rognee(b.largeur, b.hauteur)
    case None => b
    case Some(c) => Tracer(b.largeur, b.hauteur, (px, py) => if c.Contient(px, py) then couleur else b.At(px, py))
  }

  /** The part of `b` under zone `z`, as a bitmap of its own. */
  ghost function Decoupe(b: Bitmap, z: Zone): (r: Bitmap)
    ensures r.largeur == z.largeur && r.hauteur == z.hauteur && r.BienForme()
  {
    Tracer(z.largeur, z.hauteur, (i, j) => b.At(z.x + i, z.y + j))
  }

  /** Copying a whole bitmap at its own stride puts its pixel (i, j) at the target's corner plus (i, j),
      whatever the surface clips, and touches nothing else. */
  lemma EcritBitmap(b: Bitmap, x: nat, y: nat, p: Bitmap, px: int, py: int)
    requires p.BienForme() && b.Contient(px, py)
    ensures Ecrit(b, Zone(x, y, p.largeur, p.hauteur), p.pixels, p.largeur).At(px, py)
         == if Zone(x, y, p.largeur, p.hauteur).Contient(px, py) then p.At(px - x, py - y) else b.At(px, py)
  {
    var z := Zone(x, y, p.largeur, p.hauteur);
    RogneeExacte(z, b.largeur, b.hauteur);
    if z.Contient(px, py) {
      LignesSuccessives(p.largeur, py - y, p.hauteur);
    }
  }

  /** Cutting a zone out and copying it back at the same place changes nothing. */
  lemma DecoupePuisEcrit(b: Bitmap, z: Zone)
    requires b.BienForme()
    ensures Ecrit(b, z, Decoupe(b, z).pixels, z.largeur) == b
  {
    var r := Ecrit(b, z, Decoupe(b, z).pixels, z.largeur);
    var d := Decoupe(b, z);
    forall px, py | r.Contient(px, py) ensures r.At(px, py) == b.At(px, py) {
      EcritBitmap(b, z.x, z.y, d, px, py);
      if z.Contient(px, py) {
        assert d.Contient(px - z.x, py - z.y);
      }
    }
    MemeImage(r, b);
  }

  /** `v` holds the first `n` rows of `b` under zone `z`. */
  ghost predicate PremieresLignes(b: Bitmap, z: Zone, v: seq<Pixel>, n: nat) {
    |v| == Debut(z.largeur, n)
    && forall i: nat, j: nat :: i < z.largeur && j < n ==>
         Indice(z.largeur, i, j) < |v| && v[Indice(z.largeur, i, j)] == b.At(z.x + i, z.y + j)
  }

  lemma LigneDePlus(b: Bitmap, z: Zone, v: seq<Pixel>, n: nat, ligne: seq<Pixel>)
    requires PremieresLignes(b, z, v, n)
    requires |ligne| == z.largeur && forall i :: 0 <= i < z.largeur ==> ligne[i] == b.At(z.x + i, z.y + n)
    ensures PremieresLignes(b, z, v + ligne, n + 1)
  {
    forall i: nat, j: nat | i < z.largeur && j < n + 1
      ensures Indice(z.largeur, i, j) < |v + ligne| && (v + ligne)[Indice(z.largeur, i, j)] == b.At(z.x + i, z.y + j)
    {
      if j < n {
        LignesSuccessives(z.largeur, j, n);
        assert v[Indice(z.largeur, i, j)] == b.At(z.x + i, z.y + j);
      } else {
        assert ligne[i] == b.At(z.x + i, z.y + n);
      }
    }
  }

  /** A slice of one row of a buffer is that row of the image. */
  lemma LigneDuTampon(b: Bitmap, x: nat, y: nat, segment: seq<Pixel>)
    requires b.BienForme() && x + |segment| <= b.largeur && y < b.hauteur
    requires Indice(b.largeur, x, y) + |segment| <= |b.pixels|
    requires segment == b.pixels[Indice(b.largeur, x, y)..Indice(b.largeur, x, y) + |segment|]
    ensures forall i :: 0 <= i < |segment| ==> segment[i] == b.At(x + i, y)
  {
  }

  lemma LignesCompletes(b: Bitmap, z: Zone, v: seq<Pixel>)
    requires PremieresLignes(b, z, v, z.hauteur)
    ensures v == Decoupe(b, z).pixels
  {
    MemeImage(Bitmap(z.largeur, z.hauteur, v), Decoupe(b, z));
  }

  // ---------- The surface itself ----------

  /** Overwrites `segment` pixels of row `ligne` of an image buffer, from column `x`. */
  method CopierLigne(pixels: array<Pixel>, largeur: nat, hauteur: nat, x: nat, ligne: nat, segment: seq<Pixel>)
    requires pixels.Length == Debut(largeur, hauteur) && x + |segment| <= largeur && ligne < hauteur
    modifies pixels
    ensures var avant, apres := Bitmap(largeur, hauteur, old(pixels[..])), Bitmap(largeur, hauteur, pixels[..]);
            forall px, py :: avant.Contient(px, py) ==>
              apres.At(px, py) == if py == ligne && x <= px < x + |segment| then segment[px - x] else avant.At(px, py)
  {
    ghost var avant := Bitmap(largeur, hauteur, pixels[..]);
    var d := Indice(largeur, x, ligne);
    LignesSuccessives(largeur, ligne, hauteur);
    forall i | 0 <= i < |segment| {
      pixels[d + i] := segment[i];
    }
    LigneRemplacee(avant, Bitmap(largeur, hauteur, pixels[..]), x, ligne, segment);
  }

  class Surface {
    const largeur: u16
    const hauteur: u16
    const pixels: array<Pixel>

    ghost predicate Valid() {
      pixels.Length == Debut(largeur, hauteur)
    }

    ghost function Vue(): (b: Bitmap)
      reads pixels
      ensures Valid() ==> b.BienForme()
    {
      Bitmap(largeur, hauteur, pixels[..])
    }

    constructor (l: u16, h: u16)
      ensures Valid() && fresh(pixels) && largeur == l && hauteur == h
      ensures Vue() == Noire(l, h)
    {
      largeur, hauteur := l, h;
      DebutProduit(l, h);
      pixels := new Pixel[l * h](_ => NOIR);
      new;
      assert pixels[..] == Noire(l, h).pixels;
    }

    /** Copies RGBA pixels into the surface, clipped to its edges, row after row. */
    method Ecrire(zone: Zone, source: seq<Pixel>, pas: nat) returns (r: Option<Zone>)
      requires Valid()
      modifies pixels
      ensures Vue() == Ecrit(old(Vue()), zone, source, pas)
      ensures r == zone.Rognee(largeur, hauteur)
    {
      r := zone.Rognee(largeur, hauteur);
      if r.None? {
        return;
      }
      var z := r.value;
      ghost var avant := Vue();
      var ligne := 0;
      while ligne < z.hauteur
        invariant 0 <= ligne <= z.hauteur
        invariant Valid()
        invariant forall j :: 0 <= j < ligne ==> LigneLue(source, pas, z.largeur, j)
        invariant forall px, py :: avant.Contient(px, py) ==>
          Vue().At(px, py) == (if z.Contient(px, py) && py - z.y < ligne
                               then PixelLu(source, pas, z.largeur, px - z.x, py - z.y)
                               else avant.At(px, py))
      {
        var src := Indice(pas, 0, ligne);
        if src + z.largeur > |source| {
          break;
        }
        CopierLigne(pixels, largeur, hauteur, z.x, z.y + ligne, source[src..src + z.largeur]);
        ligne := ligne + 1;
      }
      forall px, py | avant.Contient(px, py)
        ensures Vue().At(px, py) == Colle(avant, z, source, pas).At(px, py)
      {
        if z.Contient(px, py) && py - z.y >= ligne {
          LignesCroissantes(pas, ligne, py - z.y);
        }
      }
      MemeImage(Vue(), Colle(avant, z, source, pas));
    }

    /** Paints a rectangle of a single colour. */
    method Remplir(zone: Zone, couleur: Pixel) returns (r: Option<Zone>)
      requires Valid()
      modifies pixels
      ensures Vue() == Rempli(old(Vue()), zone, couleur)
      ensures r == zone.Rognee(largeur, hauteur)
    {
      r := zone.Rognee(largeur, hauteur);
      if r.None? {
        return;
      }
      var z := r.value;
      ghost var avant := Vue();
      for ligne := 0 to z.hauteur
        invariant Valid()
        invariant forall px, py :: avant.Contient(px, py) ==>
          Vue().At(px, py) == (if z.Contient(px, py) && py - z.y < ligne then couleur else avant.At(px, py))
      {
        CopierLigne(pixels, largeur, hauteur, z.x, z.y + ligne, seq(z.largeur, _ => couleur));
      }
      MemeImage(Vue(), Rempli(avant, zone, couleur));
    }

    /** Extracts a rectangle as compact rows. */
    method Extraire(zone: Zone) returns (r: Option<(Zone, seq<Pixel>)>)
      requires Valid()
      ensures match zone.Rognee(largeur, hauteur)
              case None => r == None
              case Some(z) => r == Some((z, Decoupe(Vue(), z).pixels))
    {
      var rognee := zone.Rognee(largeur, hauteur);
      if rognee.None? {
        return None;
      }
      var z := rognee.value;
      ghost var b := Vue();
      var v: seq<Pixel> := [];
      for ligne := 0 to z.hauteur
        invariant PremieresLignes(b, z, v, ligne)
      {
        var d := Indice(largeur, z.x, z.y + ligne);
        LignesSuccessives(largeur, z.y + ligne, hauteur);
        var segment := pixels[d..d + z.largeur];
        LigneDuTampon(b, z.x, z.y + ligne, segment);
        LigneDePlus(b, z, v, ligne, segment);
        v := v + segment;
      }
      LignesCompletes(b, z, v);
      return Some((z, v));
    }
  }

  lemma LignesCroissantes(pas: nat, j: nat, k: nat)
    requires j <= k
    ensures Indice(pas, 0, j) <= Indice(pas, 0, k)
  {
    if j < k {
      LignesSuccessives(pas, j, k);
    }
  }
}
