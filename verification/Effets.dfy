/** What each PDU of the graphics channel does, by its number and read from its bytes. */
module Effets {
  import opened Octets
  import opened Bitmaps
  import opened Surfaces
  import opened EgfxModele
  import opened Comptes
  import opened Dessins
  import opened Miroir

  // ---------- What a drawing paints ----------

  /** Left, top, right and bottom stand at `d`: is (px, py) between them? */
  predicate EntreBords(c: seq<octet>, d: nat, px: int, py: int)
    requires d + 8 <= |c|
  {
    U16(c, d) <= px < U16(c, d + 4) && U16(c, d + 2) <= py < U16(c, d + 6)
  }

  predicate BordsDroits(c: seq<octet>, d: nat)
    requires d + 8 <= |c|
  {
    U16(c, d) < U16(c, d + 4) && U16(c, d + 2) < U16(c, d + 6)
  }

  function Produit(w: nat, h: nat): nat {
    w * h
  }

  /** Width times height of the rectangle at `d`. */
  function Aire(c: seq<octet>, d: nat): nat
    requires d + 8 <= |c| && BordsDroits(c, d)
  {
    Produit(U16(c, d + 4) - U16(c, d), U16(c, d + 6) - U16(c, d + 2))
  }

  /** Rank of (px, py) in the rectangle at `d`, row after row. */
  function Rang(c: seq<octet>, d: nat, px: int, py: int): (k: nat)
    requires d + 8 <= |c| && EntreBords(c, d, px, py)
    ensures BordsDroits(c, d) && k < Aire(c, d)
  {
    var w, h, x, y := U16(c, d + 4) - U16(c, d), U16(c, d + 6) - U16(c, d + 2), px - U16(c, d), py - U16(c, d + 2);
    RangDedans(w, h, x, y);
    Produit(y, w) + x
  }

  lemma RangDedans(w: nat, h: nat, x: nat, y: nat)
    requires x < w && y < h
    ensures Produit(y, w) + x < Produit(w, h) == Debut(w, h) && Produit(y, w) + x == Indice(w, x, y)
  {
    DebutProduit(w, y);
    DebutProduit(w, h);
    LignesSuccessives(w, y, h);
  }

  /** The `i`-th destination point after `base` is whole, and a w by h piece put there covers (px, py). */
  predicate SousPoint(c: seq<octet>, base: nat, i: nat, w: nat, h: nat, px: int, py: int) {
    && base + 4 * i + 4 <= |c|
    && U16(c, base + 4 * i) <= px < U16(c, base + 4 * i) + w
    && U16(c, base + 4 * i + 2) <= py < U16(c, base + 4 * i + 2) + h
  }

  /** The last of `n` destination points that covers (px, py), or -1. */
  function DernierPoint(c: seq<octet>, base: nat, n: nat, w: nat, h: nat, px: int, py: int): (k: int)
    ensures -1 <= k < n && (k >= 0 ==> SousPoint(c, base, k, w, h, px, py))
    ensures forall i :: k < i < n ==> !SousPoint(c, base, i, w, h, px, py)
  {
    if n == 0 then -1
    else if SousPoint(c, base, n - 1, w, h, px, py) then n - 1
    else DernierPoint(c, base, n - 1, w, h, px, py)
  }

  /** The last tile of the column and row of 64 pixels that (px, py) is in, or -1. */
  function DerniereTuile(ts: seq<Tuile>, px: nat, py: nat): (k: int)
    ensures -1 <= k < |ts| && (k >= 0 ==> ts[k].x == px / 64 && ts[k].y == py / 64)
    ensures forall i :: k < i < |ts| ==> !(ts[i].x == px / 64 && ts[i].y == py / 64)
  {
    if ts == [] then -1
    else if ts[|ts| - 1].x == px / 64 && ts[|ts| - 1].y == py / 64 then |ts| - 1
    else DerniereTuile(ts[..|ts| - 1], px, py)
  }

  /** Are the bytes of the pixels all there? Uncompressed in the PDU; ClearCodec and planar from their decoder. */
  predicate PixelsLa(c: seq<octet>, decode: Decodage)
    requires |c| > 17 && BordsDroits(c, 5)
  {
    || (U16(c, 2) == 0x0000 && 4 * Aire(c, 5) <= U32(c, 13))
    || (U16(c, 2) == 0x0008 && decode.Donnees? && 4 * Aire(c, 5) <= |decode.octets|)
    || (U16(c, 2) == 0x000A && decode.Donnees? && 3 * Aire(c, 5) <= |decode.octets|)
  }

  /** Does the PDU draw? */
  predicate Dessinable(e: Etat, p: Pdu, decode: Decodage) {
    var c, n := p.charge, |p.charge|;
    match p.id
    case 0x0001 =>
      && n > 17 && U16(c, 0) in e.surfaces && BordsDroits(c, 5)
      && U16(c, 9) <= e.surfaces[U16(c, 0)].largeur && U16(c, 11) <= e.surfaces[U16(c, 0)].hauteur
      && 17 + U32(c, 13) <= n && PixelsLa(c, decode)
    case 0x0002 => n > 13 && U16(c, 2) == 0x0009 && U16(c, 0) in e.surfaces && decode.Tuiles?
    case 0x0004 => n >= 8 && U16(c, 0) in e.surfaces
    case 0x0005 =>
      && n >= 14 && U16(c, 0) in e.surfaces && U16(c, 2) in e.surfaces && BordsDroits(c, 4)
      && U16(c, 4) < e.surfaces[U16(c, 0)].largeur && U16(c, 6) < e.surfaces[U16(c, 0)].hauteur
    case 0x0007 => n >= 6 && U16(c, 0) in e.cache && U16(c, 2) in e.surfaces
    case _ => false
  }

  /** The surface drawn on. */
  function Dessinee(e: Etat, p: Pdu, decode: Decodage): u16
    requires Dessinable(e, p, decode)
  {
    if p.id == 0x0005 || p.id == 0x0007 then U16(p.charge, 2) else U16(p.charge, 0)
  }

  /** The pixel of rank k: blue, green, red on four bytes, or red, green, blue on three from the planar decoder. */
  function PixelDe(c: seq<octet>, decode: Decodage, k: nat): Pixel
    requires |c| > 17 && BordsDroits(c, 5) && 17 + U32(c, 13) <= |c| && PixelsLa(c, decode) && k < Aire(c, 5)
  {
    if U16(c, 2) == 0x0000 then Pixel(c[17 + 4 * k + 2], c[17 + 4 * k + 1], c[17 + 4 * k], 255)
    else if U16(c, 2) == 0x0008 then
      Pixel(decode.octets[4 * k + 2], decode.octets[4 * k + 1], decode.octets[4 * k], 255)
    else Pixel(decode.octets[3 * k], decode.octets[3 * k + 1], decode.octets[3 * k + 2], 255)
  }

  function CouleurImage(c: seq<octet>, decode: Decodage, px: nat, py: nat): Option<Pixel>
    requires |c| > 17 && BordsDroits(c, 5) && 17 + U32(c, 13) <= |c| && PixelsLa(c, decode)
  {
    if EntreBords(c, 5, px, py) then Some(PixelDe(c, decode, Rang(c, 5, px, py))) else None
  }

  /** Copying a part of `src` that begins at (x, y), w by h, to each of the points: the last that covers the place. */
  function CouleurCopie(src: Bitmap, x: nat, y: nat, w: nat, h: nat, c: seq<octet>, base: nat, n: nat, px: nat, py: nat)
    : Option<Pixel>
  {
    var k := DernierPoint(c, base, n, w, h, px, py);
    if k < 0 then None else Some(src.At(x + px - U16(c, base + 4 * k), y + py - U16(c, base + 4 * k + 2)))
  }

  /** The colour the PDU gives to place (px, py) of the surface it draws on; `None` where it paints nothing. */
  function Couleur(e: Etat, p: Pdu, decode: Decodage, px: nat, py: nat): Option<Pixel>
    requires Dessinable(e, p, decode)
  {
    var c := p.charge;
    match p.id
    case 0x0001 => CouleurImage(c, decode, px, py)
    case 0x0002 =>
      var k := DerniereTuile(decode.tuiles, px, py);
      if k < 0 then None else Some(decode.tuiles[k].pixels[64 * (py % 64) + px % 64])
    case 0x0004 =>
      if exists i :: 0 <= i < U16(c, 6) && 8 + 8 * i + 8 <= |c| && EntreBords(c, 8 + 8 * i, px, py)
      then Some(Pixel(c[4], c[3], c[2], 255)) else None
    case 0x0005 =>
      var src := e.surfaces[U16(c, 0)];
      CouleurCopie(src, U16(c, 4), U16(c, 6), Min(U16(c, 8), src.largeur) - U16(c, 4),
                   Min(U16(c, 10), src.hauteur) - U16(c, 6), c, 14, U16(c, 12), px, py)
    case 0x0007 =>
      var src := e.cache[U16(c, 0)];
      CouleurCopie(src, 0, 0, src.largeur, src.hauteur, c, 6, U16(c, 4), px, py)
  }

  /** Is what the PDU paints published? All but a progressive image whose decoder failed. */
  predicate Publiee(p: Pdu, decode: Decodage) {
    p.id == 0x0002 ==> decode.Tuiles? && decode.aboutie
  }

  /** The image has the colours the PDU gives and the old ones elsewhere; the zones cover exactly what it paints, if
      that is published. */
  ghost predicate PeintAvec(e: Etat, p: Pdu, decode: Decodage, image: Bitmap, zones: seq<Zone>)
    requires Dessinable(e, p, decode) && Dessinee(e, p, decode) in e.surfaces
  {
    var b := e.surfaces[Dessinee(e, p, decode)];
    && image.BienForme() && image.largeur == b.largeur && image.hauteur == b.hauteur
    && (forall px: nat, py: nat :: b.Contient(px, py) ==>
          image.At(px, py) == ApresCouleur(b, px, py, Couleur(e, p, decode, px, py)))
    && (forall px: nat, py: nat ::
          Couvert(zones, px, py)
          <==> b.Contient(px, py) && Couleur(e, p, decode, px, py).Some? && Publiee(p, decode))
    && (!Publiee(p, decode) ==> zones == [])
  }

  function ApresCouleur(b: Bitmap, px: nat, py: nat, v: Option<Pixel>): Pixel {
    match v
    case None => b.At(px, py)
    case Some(v) => v
  }

  /** From `e` to `e'`: the surface shows the image, the frames of the zones were pushed, or that of their box if there
      are more than eight, and nothing else changed. */
  ghost predicate ImagePosee(e: Etat, e': Etat, id: u16, image: Bitmap, zones: seq<Zone>) {
    var o := Origine(e, id);
    var aPublier := if |zones| <= 8 then zones else [BoiteEnglobante(zones)];
    var publies := PublieZones(image, o.0, o.1, aPublier, e.octetsPublies);
    e' == e.(surfaces := e.surfaces[id := image], trames := e.trames + publies.0, octetsPublies := publies.1)
  }

  // ---------- Tiles ----------

  lemma TuileContient(t: Tuile, px: nat, py: nat)
    ensures PlaceTuile(t).Contient(px, py) <==> t.x == px / 64 && t.y == py / 64
  {
  }

  lemma PixelDeTuile(t: Tuile, i: nat, j: nat)
    requires i < 64 && j < 64
    ensures Bitmap(64, 64, t.pixels).BienForme() && Bitmap(64, 64, t.pixels).At(i, j) == t.pixels[64 * j + i]
  {
    DebutProduit(64, 64);
    DebutProduit(64, j);
  }

  /** After the tiles are laid, each pixel is that of the last tile of its column and row, or the old one. */
  lemma {:induction false} TuilesExactes(b: Bitmap, ts: seq<Tuile>, px: nat, py: nat)
    requires b.BienForme() && b.Contient(px, py)
    ensures var k := DerniereTuile(ts, px, py);
            PoseTuiles(b, ts).At(px, py) == if k < 0 then b.At(px, py) else ts[k].pixels[64 * (py % 64) + px % 64]
  {
    if ts != [] {
      var debut, t := ts[..|ts| - 1], ts[|ts| - 1];
      TuilesExactes(b, debut, px, py);
      TuileContient(t, px, py);
      PixelDeTuile(t, px % 64, py % 64);
      EcritBitmap(PoseTuiles(b, debut), COTE * t.x, COTE * t.y, Bitmap(64, 64, t.pixels), px, py);
    }
  }

  /** The zones of the tiles cover exactly the pixels of the surface some tile gives. */
  lemma TuilesCouvrent(ts: seq<Tuile>, l: nat, h: nat, px: nat, py: nat)
    ensures Couvert(Rognees(PlacesTuiles(ts), l, h), px, py) <==> px < l && py < h && DerniereTuile(ts, px, py) >= 0
  {
    RogneesCouvrent(PlacesTuiles(ts), l, h, px, py);
    var k := DerniereTuile(ts, px, py);
    if k >= 0 {
      TuileContient(ts[k], px, py);
      assert PlacesTuiles(ts)[k] in PlacesTuiles(ts);
    }
    if z :| z in PlacesTuiles(ts) && z.Contient(px, py) {
      var i :| 0 <= i < |ts| && PlacesTuiles(ts)[i] == z;
      TuileContient(ts[i], px, py);
    }
  }

  // ---------- Copies ----------

  lemma MemeDernier(c: seq<octet>, base: nat, n: nat, w: nat, h: nat, px: int, py: int)
    requires base <= |c|
    ensures Dernier(Cibles(c, base, n, w, h), px, py) == DernierPoint(c, base, n, w, h, px, py)
  {
    var cibles := Cibles(c, base, n, w, h);
    forall i: nat ensures i < |cibles| && cibles[i].Contient(px, py) <==> i < n && SousPoint(c, base, i, w, h, px, py) {
      CiblesExactes(c, base, n, w, h, i);
    }
  }

  lemma CiblesCouvrent(c: seq<octet>, base: nat, n: nat, w: nat, h: nat, l: nat, m: nat, px: nat, py: nat)
    requires base <= |c|
    ensures Couvert(Rognees(Cibles(c, base, n, w, h), l, m), px, py)
       <==> px < l && py < m && DernierPoint(c, base, n, w, h, px, py) >= 0
  {
    var cibles := Cibles(c, base, n, w, h);
    RogneesCouvrent(cibles, l, m, px, py);
    MemeDernier(c, base, n, w, h, px, py);
    var k := Dernier(cibles, px, py);
    assert k >= 0 ==> cibles[k] in cibles;
  }

  // ---------- Fills ----------

  lemma RectComplet(c: seq<octet>, n: nat, px: int, py: int)
    requires |c| >= 8
    ensures (exists i :: 0 <= i < Presents(c, 8, 8, n) && SousRect(c, i, px, py))
       <==> (exists i :: 0 <= i < n && 8 + 8 * i + 8 <= |c| && EntreBords(c, 8 + 8 * i, px, py))
  {
    var k := Presents(c, 8, 8, n);
    if i :| 0 <= i < k && SousRect(c, i, px, py) {
      assert EntreBords(c, 8 + 8 * i, px, py);
    }
    if i :| 0 <= i < n && 8 + 8 * i + 8 <= |c| && EntreBords(c, 8 + 8 * i, px, py) {
      assert i < k && SousRect(c, i, px, py);
    }
  }

  // ---------- The five drawing commands ----------

  lemma SolidFillPeint(e: Etat, p: Pdu, decode: Decodage)
    requires Sain(e) && p.id == 0x0004 && Dessinable(e, p, decode)
    ensures SolidFill(e, p.charge).Some? && SolidFill(e, p.charge).value.id == Dessinee(e, p, decode)
    ensures PeintAvec(e, p, decode, SolidFill(e, p.charge).value.image, SolidFill(e, p.charge).value.zones)
  {
    var c, d := p.charge, SolidFill(e, p.charge).value;
    var b := e.surfaces[U16(c, 0)];
    forall px: nat, py: nat | b.Contient(px, py)
      ensures d.image.At(px, py) == ApresCouleur(b, px, py, Couleur(e, p, decode, px, py))
    {
      SolidFillExact(e, c, px, py);
      RectComplet(c, U16(c, 6), px, py);
    }
    forall px: nat, py: nat
      ensures Couvert(d.zones, px, py) <==> b.Contient(px, py) && Couleur(e, p, decode, px, py).Some?
    {
      RectsCouvrent(c, U16(c, 6), b.largeur, b.hauteur, px, py);
    }
  }

  /** The clipped rectangles cover what lies between the edges of a whole rectangle. */
  lemma RectsCouvrent(c: seq<octet>, n: nat, l: nat, h: nat, px: nat, py: nat)
    requires |c| >= 8
    ensures Couvert(Rognees(Rects(c, Presents(c, 8, 8, n)), l, h), px, py)
       <==> px < l && py < h
            && exists i :: 0 <= i < n && 8 + 8 * i + 8 <= |c| && EntreBords(c, 8 + 8 * i, px, py)
  {
    var k := Presents(c, 8, 8, n);
    RogneesCouvrent(Rects(c, k), l, h, px, py);
    RectsExacts(c, k, px, py);
    RectComplet(c, n, px, py);
  }

  /** Where the last covering destination stands. */
  lemma PointDernier(c: seq<octet>, base: nat, n: nat, w: nat, h: nat, px: int, py: int)
    requires base <= |c|
    ensures var k := DernierPoint(c, base, n, w, h, px, py);
            k >= 0 ==> k < |Cibles(c, base, n, w, h)|
                       && Cibles(c, base, n, w, h)[k] == Zone(U16(c, base + 4 * k), U16(c, base + 4 * k + 2), w, h)
  {
    var k := DernierPoint(c, base, n, w, h, px, py);
    if k >= 0 {
      CiblesExactes(c, base, n, w, h, k);
    }
  }

  lemma CopiePixel(e: Etat, id: u16, src: Bitmap, c: seq<octet>, base: nat, n: nat, px: nat, py: nat)
    requires id in e.surfaces && e.surfaces[id].BienForme() && src.BienForme() && base <= |c|
    requires e.surfaces[id].Contient(px, py)
    ensures Pose(e, id, src, c, base, n).value.image.At(px, py)
         == ApresCouleur(e.surfaces[id], px, py, CouleurCopie(src, 0, 0, src.largeur, src.hauteur, c, base, n, px, py))
  {
    PoseExacte(e, id, src, c, base, n, px, py);
    MemeDernier(c, base, n, src.largeur, src.hauteur, px, py);
    PointDernier(c, base, n, src.largeur, src.hauteur, px, py);
  }

  lemma CopiePeint(e: Etat, p: Pdu, decode: Decodage, src: Bitmap, base: nat, n: nat)
    requires Sain(e) && src.BienForme() && base <= |p.charge|
    requires Dessinable(e, p, decode) && (p.id == 0x0005 || p.id == 0x0007)
    requires forall px: nat, py: nat ::
      Couleur(e, p, decode, px, py) == CouleurCopie(src, 0, 0, src.largeur, src.hauteur, p.charge, base, n, px, py)
    ensures var d := Pose(e, U16(p.charge, 2), src, p.charge, base, n);
            d.Some? && d.value.id == Dessinee(e, p, decode) && PeintAvec(e, p, decode, d.value.image, d.value.zones)
  {
    var c, id := p.charge, U16(p.charge, 2);
    var b, d := e.surfaces[id], Pose(e, id, src, c, base, n).value;
    forall px: nat, py: nat | b.Contient(px, py)
      ensures d.image.At(px, py) == ApresCouleur(b, px, py, Couleur(e, p, decode, px, py))
    {
      CopiePixel(e, id, src, c, base, n, px, py);
    }
    forall px: nat, py: nat
      ensures Couvert(d.zones, px, py) <==> b.Contient(px, py) && Couleur(e, p, decode, px, py).Some?
    {
      CiblesCouvrent(c, base, n, src.largeur, src.hauteur, b.largeur, b.hauteur, px, py);
    }
  }

  /** The piece a SurfaceToSurface copies. */
  ghost function Piece(e: Etat, c: seq<octet>): (r: Bitmap)
    requires |c| >= 14 && U16(c, 0) in e.surfaces && BordsDroits(c, 4)
    requires U16(c, 4) < e.surfaces[U16(c, 0)].largeur && U16(c, 6) < e.surfaces[U16(c, 0)].hauteur
    ensures r.BienForme() && Extrait(e, U16(c, 0), DepuisBords(c, 4)) == Some(r)
    ensures var src := e.surfaces[U16(c, 0)];
            && r.largeur == Min(U16(c, 8), src.largeur) - U16(c, 4)
            && r.hauteur == Min(U16(c, 10), src.hauteur) - U16(c, 6)
            && forall i, j :: r.Contient(i, j) ==> r.At(i, j) == src.At(U16(c, 4) + i, U16(c, 6) + j)
  {
    var src := e.surfaces[U16(c, 0)];
    var w, h := Min(U16(c, 8), src.largeur) - U16(c, 4), Min(U16(c, 10), src.hauteur) - U16(c, 6);
    Decoupe(src, Zone(U16(c, 4), U16(c, 6), w, h))
  }

  lemma CouleurPiece(src: Bitmap, piece: Bitmap, x: nat, y: nat, c: seq<octet>, base: nat, n: nat, px: nat, py: nat)
    requires forall i, j :: piece.Contient(i, j) ==> piece.At(i, j) == src.At(x + i, y + j)
    ensures CouleurCopie(src, x, y, piece.largeur, piece.hauteur, c, base, n, px, py)
         == CouleurCopie(piece, 0, 0, piece.largeur, piece.hauteur, c, base, n, px, py)
  {
    var k := DernierPoint(c, base, n, piece.largeur, piece.hauteur, px, py);
    if k >= 0 {
      assert piece.Contient(px - U16(c, base + 4 * k), py - U16(c, base + 4 * k + 2));
    }
  }

  lemma SurfaceVersSurfacePeint(e: Etat, p: Pdu, decode: Decodage)
    requires Sain(e) && p.id == 0x0005 && Dessinable(e, p, decode)
    ensures var d := SurfaceVersSurface(e, p.charge);
            d.Some? && d.value.id == Dessinee(e, p, decode) && PeintAvec(e, p, decode, d.value.image, d.value.zones)
  {
    var c := p.charge;
    var piece := Piece(e, c);
    forall px: nat, py: nat
      ensures Couleur(e, p, decode, px, py)
           == CouleurCopie(piece, 0, 0, piece.largeur, piece.hauteur, c, 14, U16(c, 12), px, py)
    {
      CouleurPiece(e.surfaces[U16(c, 0)], piece, U16(c, 4), U16(c, 6), c, 14, U16(c, 12), px, py);
    }
    CopiePeint(e, p, decode, piece, 14, U16(c, 12));
  }

  lemma CacheVersSurfacePeint(e: Etat, p: Pdu, decode: Decodage)
    requires Sain(e) && p.id == 0x0007 && Dessinable(e, p, decode)
    ensures var d := CacheVersSurface(e, p.charge);
            d.Some? && d.value.id == Dessinee(e, p, decode) && PeintAvec(e, p, decode, d.value.image, d.value.zones)
  {
    CopiePeint(e, p, decode, e.cache[U16(p.charge, 0)], 6, U16(p.charge, 4));
  }

  lemma ProgressifPeint(e: Etat, p: Pdu, decode: Decodage)
    requires Sain(e) && p.id == 0x0002 && Dessinable(e, p, decode)
    ensures var d := WireToSurface2(e, p.charge, decode);
            d.Some? && d.value.id == Dessinee(e, p, decode) && PeintAvec(e, p, decode, d.value.image, d.value.zones)
  {
    var b, d := e.surfaces[U16(p.charge, 0)], WireToSurface2(e, p.charge, decode).value;
    forall px: nat, py: nat | b.Contient(px, py)
      ensures d.image.At(px, py) == ApresCouleur(b, px, py, Couleur(e, p, decode, px, py))
    {
      TuilesExactes(b, decode.tuiles, px, py);
    }
    forall px: nat, py: nat
      ensures Couvert(d.zones, px, py)
         <==> b.Contient(px, py) && Couleur(e, p, decode, px, py).Some? && Publiee(p, decode)
    {
      TuilesCouvrent(decode.tuiles, b.largeur, b.hauteur, px, py);
    }
  }

  /** Writing the pixels of a rectangle, row after row. */
  lemma PixelEcrit(b: Bitmap, z: Zone, pixels: seq<Pixel>, px: nat, py: nat)
    requires b.BienForme() && b.Contient(px, py) && |pixels| == Debut(z.largeur, z.hauteur)
    ensures z.Contient(px, py) ==> Indice(z.largeur, px - z.x, py - z.y) < |pixels|
    ensures Ecrit(b, z, pixels, z.largeur).At(px, py)
         == if z.Contient(px, py) then pixels[Indice(z.largeur, px - z.x, py - z.y)] else b.At(px, py)
  {
    var t := Bitmap(z.largeur, z.hauteur, pixels);
    assert z == Zone(z.x, z.y, t.largeur, t.hauteur);
    EcritBitmap(b, z.x, z.y, t, px, py);
    if z.Contient(px, py) {
      LignesSuccessives(z.largeur, py - z.y, z.hauteur);
    }
  }

  /** The pixels of an image, whatever its codec, are those its bytes give. */
  lemma PixelRecu(c: seq<octet>, decode: Decodage, k: nat)
    requires |c| > 17 && BordsDroits(c, 5) && 17 + U32(c, 13) <= |c| && PixelsLa(c, decode) && k < Aire(c, 5)
    ensures var recus := PixelsRecus(U16(c, 2), c[17..17 + U32(c, 13)], Aire(c, 5), decode);
            recus.Some? && |recus.value| == Aire(c, 5) && recus.value[k] == PixelDe(c, decode, k)
  {
  }

  /** The rectangle of the image. */
  function ZoneImage(c: seq<octet>): Zone
    requires |c| > 17 && BordsDroits(c, 5)
  {
    Zone(U16(c, 5), U16(c, 7), U16(c, 9) - U16(c, 5), U16(c, 11) - U16(c, 7))
  }

  lemma PixelImage(b: Bitmap, c: seq<octet>, decode: Decodage, px: nat, py: nat)
    requires |c| > 17 && BordsDroits(c, 5) && 17 + U32(c, 13) <= |c| && PixelsLa(c, decode)
    requires b.BienForme() && b.Contient(px, py)
    ensures var z, recus := ZoneImage(c), PixelsRecus(U16(c, 2), c[17..17 + U32(c, 13)], Aire(c, 5), decode);
            recus.Some? && Ecrit(b, z, recus.value, z.largeur).At(px, py)
                           == ApresCouleur(b, px, py, CouleurImage(c, decode, px, py))
  {
    var z := ZoneImage(c);
    assert Aire(c, 5) == Debut(z.largeur, z.hauteur) by { DebutProduit(z.largeur, z.hauteur); }
    PixelRecu(c, decode, 0);
    PixelEcrit(b, z, PixelsRecus(U16(c, 2), c[17..17 + U32(c, 13)], Aire(c, 5), decode).value, px, py);
    if EntreBords(c, 5, px, py) {
      RangDedans(z.largeur, z.hauteur, px - z.x, py - z.y);
      PixelRecu(c, decode, Rang(c, 5, px, py));
    }
  }

  lemma ImageAccepte(e: Etat, p: Pdu, decode: Decodage)
    requires p.id == 0x0001 && |p.charge| > 17
    ensures WireToSurface1(e, p.charge, decode).Some? <==> Dessinable(e, p, decode)
    ensures Dessinable(e, p, decode) ==>
      var c := p.charge;
      var z, recus := ZoneImage(c), PixelsRecus(U16(c, 2), c[17..17 + U32(c, 13)], Aire(c, 5), decode);
      && recus.Some?
      && WireToSurface1(e, c, decode).value
         == Dessin(U16(c, 0), Ecrit(e.surfaces[U16(c, 0)], z, recus.value, z.largeur), [z])
  {
    var c := p.charge;
    if BordsDroits(c, 5) {
      DebutProduit(U16(c, 9) - U16(c, 5), U16(c, 11) - U16(c, 7));
    }
  }

  lemma ImagePeint(e: Etat, p: Pdu, decode: Decodage)
    requires Sain(e) && p.id == 0x0001 && Dessinable(e, p, decode)
    ensures var d := WireToSurface1(e, p.charge, decode);
            d.Some? && d.value.id == Dessinee(e, p, decode) && PeintAvec(e, p, decode, d.value.image, d.value.zones)
  {
    var c := p.charge;
    ImageAccepte(e, p, decode);
    var d, b := WireToSurface1(e, c, decode).value, e.surfaces[U16(c, 0)];
    forall px: nat, py: nat | b.Contient(px, py)
      ensures d.image.At(px, py) == ApresCouleur(b, px, py, Couleur(e, p, decode, px, py))
    {
      PixelImage(b, c, decode, px, py);
    }
    forall px: nat, py: nat
      ensures Couvert(d.zones, px, py) <==> b.Contient(px, py) && Couleur(e, p, decode, px, py).Some?
    {
      CouvertPlus(ZoneImage(c), [], px, py);
    }
  }

  // ---------- The frames pushed ----------

  /** The bytes of the first k zones, all of them on an image. */
  function OctetsAvant(zones: seq<Zone>, k: nat): nat
    requires k <= |zones|
  {
    if k == 0 then 0 else OctetsAvant(zones, k - 1) + 4 * Produit(zones[k - 1].largeur, zones[k - 1].hauteur)
  }

  ghost predicate SurImage(b: Bitmap, zones: seq<Zone>) {
    forall k :: 0 <= k < |zones| ==> zones[k].Rognee(b.largeur, b.hauteur) == Some(zones[k])
  }

  /** `t` shows the part of the image under `z`, at the place of the zone on the screen, held at 65535. */
  ghost predicate TrameMontre(t: Trame, b: Bitmap, ox: nat, oy: nat, z: Zone) {
    && t.x == Min(ox + z.x, 65535) && t.y == Min(oy + z.y, 65535)
    && EstPiece(t.image, b, z.x, z.y, z.largeur, z.hauteur)
  }

  lemma OctetsAvantSuite(zones: seq<Zone>, k: nat)
    requires 0 < k <= |zones|
    ensures OctetsAvant(zones, k) == 4 * Produit(zones[0].largeur, zones[0].hauteur) + OctetsAvant(zones[1..], k - 1)
  {
    if k > 1 {
      OctetsAvantSuite(zones, k - 1);
    }
  }

  /** Publishing zones of an image: the k-th becomes the k-th frame exactly when those before it, and the bytes already
      spent, are under 64 MiB; it shows what is under it. */
  lemma {:induction false} TramesExactes(b: Bitmap, ox: nat, oy: nat, zones: seq<Zone>, octets: nat, k: nat)
    requires SurImage(b, zones) && k < |zones|
    ensures var ts := PublieZones(b, ox, oy, zones, octets).0;
            && |ts| <= |zones| && (k < |ts| <==> octets + OctetsAvant(zones, k) < 67108864)
            && (k < |ts| ==> TrameMontre(ts[k], b, ox, oy, zones[k]))
    decreases |zones|
  {
    assert zones[0].Rognee(b.largeur, b.hauteur) == Some(zones[0]);
    PieceDecoupee(b, zones[0]);
    var apres := octets + Decoupe(b, zones[0]).Octets();
    if octets < OCTETS_PUBLIES_MAX {
      assert PublieZones(b, ox, oy, zones, octets).0
          == [TrameDe(b, ox, oy, zones[0])] + PublieZones(b, ox, oy, zones[1..], apres).0;
    }
    if k > 0 {
      OctetsAvantSuite(zones, k);
      TramesExactes(b, ox, oy, zones[1..], apres, k - 1);
    } else if |zones| > 1 {
      TramesExactes(b, ox, oy, zones[1..], apres, 0);
    } else {
      assert zones[1..] == [];
    }
  }

  predicate Dans(a: Zone, b: Zone) {
    b.x <= a.x && b.y <= a.y && a.x + a.largeur <= b.x + b.largeur && a.y + a.hauteur <= b.y + b.hauteur
  }

  /** The box published for more than eight zones is the smallest around them all. */
  lemma {:induction false} BoiteMinimale(zones: seq<Zone>, z: Zone)
    requires zones != []
    ensures forall y :: y in zones ==> Dans(y, BoiteEnglobante(zones))
    ensures (forall y :: y in zones ==> Dans(y, z)) ==> Dans(BoiteEnglobante(zones), z)
  {
    var n := |zones| - 1;
    assert zones[n] in zones && zones == zones[..n] + [zones[n]];
    if n > 0 {
      BoiteMinimale(zones[..n], z);
      forall y | y in zones ensures Dans(y, BoiteEnglobante(zones)) {
        assert y in zones[..n] || y == zones[n];
      }
    } else {
      assert zones == [zones[0]];
    }
  }

  // ---------- The commands that manage ----------

  /** The bytes of an image of four-byte pixels, l by h. */
  function Octets4(l: nat, h: nat): nat {
    4 * Produit(l, h)
  }

  ghost predicate EstNoire(b: Bitmap, l: nat, h: nat) {
    b.largeur == l && b.hauteur == h && b.BienForme() && forall x, y :: b.Contient(x, y) ==> b.At(x, y) == NOIR
  }

  /** What a table of images accounts for under an identifier. */
  function Compte(m: map<u16, Bitmap>, id: u16): nat {
    if id in m then Octets4(m[id].largeur, m[id].hauteur) else 0
  }

  /** Creation: sides from 1 to 8192, 64 surfaces and 512 MiB at most, a surface of the same identifier being
      replaced. */
  ghost predicate Cree(e: Etat, c: seq<octet>, e': Etat)
    requires |c| >= 7
  {
    var id, l, h := U16(c, 0), U16(c, 2), U16(c, 4);
    var total := e.octetsSurfaces - Compte(e.surfaces, id) + Octets4(l, h);
    if 1 <= l <= 8192 && 1 <= h <= 8192 && (id in e.surfaces || |e.surfaces| < 64) && total <= 536870912
    then id in e'.surfaces && EstNoire(e'.surfaces[id], l, h)
         && e' == e.(surfaces := e.surfaces[id := e'.surfaces[id]], octetsSurfaces := total)
    else e' == e
  }

  /** Caching: the part of the rectangle that is on the surface, if there is one, a slot free or taken over among 4096,
      and room in 16 MiB. */
  ghost predicate Cachee(e: Etat, c: seq<octet>, e': Etat)
    requires |c| >= 20
  {
    var id, k := U16(c, 0), U16(c, 10);
    if id !in e.surfaces || !BordsDroits(c, 12)
       || U16(c, 12) >= e.surfaces[id].largeur || U16(c, 14) >= e.surfaces[id].hauteur then e' == e
    else
      var src := e.surfaces[id];
      var w, h := Min(U16(c, 16), src.largeur) - U16(c, 12), Min(U16(c, 18), src.hauteur) - U16(c, 14);
      var total := e.octetsCache - Compte(e.cache, k) + Octets4(w, h);
      if (k in e.cache || |e.cache| < 4096) && total <= 16777216
      then k in e'.cache && EstPiece(e'.cache[k], src, U16(c, 12), U16(c, 14), w, h)
           && e' == e.(cache := e.cache[k := e'.cache[k]], octetsCache := total)
      else e' == e
  }

  /** `b` is the w by h part of `src` from (x, y). */
  ghost predicate EstPiece(b: Bitmap, src: Bitmap, x: nat, y: nat, w: nat, h: nat) {
    && b.largeur == w && b.hauteur == h && b.BienForme()
    && forall i, j :: b.Contient(i, j) ==> b.At(i, j) == src.At(x + i, y + j)
  }

  /** What a PDU that does not draw does; any number not listed, and any PDU too short, does nothing. */
  ghost predicate Gestion(e: Etat, p: Pdu, e': Etat) {
    var c, n := p.charge, |p.charge|;
    match p.id
    case 0x0006 => if n >= 20 then Cachee(e, c, e') else e' == e
    case 0x0008 =>
      e' == if n < 2 then e else
        e.(cache := e.cache - {U16(c, 0)}, octetsCache := e.octetsCache - Compte(e.cache, U16(c, 0)))
    case 0x0009 => if n >= 7 then Cree(e, c, e') else e' == e
    case 0x000A =>
      e' == if n < 2 then e else
        e.(surfaces := e.surfaces - {U16(c, 0)}, origines := e.origines - {U16(c, 0)},
           octetsSurfaces := e.octetsSurfaces - Compte(e.surfaces, U16(c, 0)))
    case 0x000C => e' == if n < 4 then e else e.(tramesDecodees := (e.tramesDecodees + 1) % 0x1_0000_0000)
    case 0x000E =>
      e' == if n < 8 || !(1 <= U32(c, 0) <= 8192 && 1 <= U32(c, 4) <= 8192) then e
            else e.(taille := Some((U32(c, 0), U32(c, 4))))
    case 0x000F =>
      e' == if n < 12 || U32(c, 4) >= 0x1_0000 || U32(c, 8) >= 0x1_0000 then e
            else e.(origines := e.origines[U16(c, 0) := (U32(c, 4), U32(c, 8))])
    case _ => e' == e
  }

  lemma CompteExact(m: map<u16, Bitmap>, id: u16)
    requires id in m ==> m[id].BienForme()
    ensures Compte(m, id) == OctetsEn(m, id)
    ensures id in m ==> Compte(m, id) == OctetsSurface(m[id].largeur, m[id].hauteur)
  {
    if id in m {
      DebutProduit(m[id].largeur, m[id].hauteur);
    }
  }

  lemma CreeExact(e: Etat, c: seq<octet>)
    requires Sain(e) && |c| >= 7
    ensures Cree(e, c, CreateSurface(e, c))
  {
    CompteExact(e.surfaces, U16(c, 0));
    DebutProduit(U16(c, 2), U16(c, 4));
  }

  lemma CacheeExact(e: Etat, c: seq<octet>)
    requires Sain(e) && |c| >= 20
    ensures Cachee(e, c, SurfaceVersCache(e, c))
  {
    CompteExact(e.cache, U16(c, 10));
    var id := U16(c, 0);
    if id in e.surfaces && BordsDroits(c, 12) {
      var src := e.surfaces[id];
      var w, h := Min(U16(c, 16), src.largeur) - U16(c, 12), Min(U16(c, 18), src.hauteur) - U16(c, 14);
      if w > 0 && h > 0 {
        var z := Zone(U16(c, 12), U16(c, 14), w, h);
        assert DepuisBords(c, 12).value.Rognee(src.largeur, src.hauteur) == Some(z);
        PieceDecoupee(src, z);
      }
    }
  }

  lemma PieceDecoupee(src: Bitmap, z: Zone)
    ensures EstPiece(Decoupe(src, z), src, z.x, z.y, z.largeur, z.hauteur)
    ensures Decoupe(src, z).Octets() == Octets4(z.largeur, z.hauteur)
  {
    DebutProduit(z.largeur, z.hauteur);
  }

  lemma OublieExact(e: Etat, k: u16)
    requires Sain(e)
    ensures Oublie(e, k) == e.(cache := e.cache - {k}, octetsCache := e.octetsCache - Compte(e.cache, k))
  {
    CompteExact(e.cache, k);
  }

  lemma DeleteExact(e: Etat, id: u16)
    requires Sain(e)
    ensures DeleteSurface(e, id)
         == e.(surfaces := e.surfaces - {id}, origines := e.origines - {id},
               octetsSurfaces := e.octetsSurfaces - Compte(e.surfaces, id))
  {
    CompteExact(e.surfaces, id);
  }

  lemma GereTableExact(e: Etat, p: Pdu)
    requires Sain(e) && (p.id == 0x0009 || p.id == 0x000A)
    ensures Gestion(e, p, GereTable(e, p))
  {
    if p.id == 0x0009 && |p.charge| >= 7 {
      CreeExact(e, p.charge);
    } else if p.id == 0x000A && |p.charge| >= 2 {
      DeleteExact(e, U16(p.charge, 0));
    }
  }

  lemma GereCacheExact(e: Etat, p: Pdu)
    requires Sain(e) && (p.id == 0x0006 || p.id == 0x0008)
    ensures Gestion(e, p, GereReste(e, p))
  {
    if p.id == 0x0006 && |p.charge| >= 20 {
      CacheeExact(e, p.charge);
    } else if p.id == 0x0008 && |p.charge| >= 2 {
      OublieExact(e, U16(p.charge, 0));
    }
  }

  lemma GereResteExact(e: Etat, p: Pdu)
    requires p.id !in {0x0001, 0x0002, 0x0004, 0x0005, 0x0006, 0x0007, 0x0008, 0x0009, 0x000A}
    ensures Gestion(e, p, GereReste(e, p))
  {
  }

  lemma GereExact(e: Etat, p: Pdu)
    requires Sain(e) && p.id !in {0x0001, 0x0002, 0x0004, 0x0005, 0x0007}
    ensures Gestion(e, p, Gere(e, p))
  {
    if p.id == 0x0009 || p.id == 0x000A {
      GereTableExact(e, p);
    } else if p.id == 0x0006 || p.id == 0x0008 {
      GereCacheExact(e, p);
    } else {
      GereResteExact(e, p);
    }
  }

  // ---------- Every PDU ----------

  /** From `e` to `e'` the PDU did what its number says. */
  ghost predicate Effet(e: Etat, p: Pdu, decode: Decodage, e': Etat) {
    if p.id in {0x0001, 0x0002, 0x0004, 0x0005, 0x0007} then
      if Dessinable(e, p, decode)
      then exists image, zones :: PeintAvec(e, p, decode, image, zones)
                                  && ImagePosee(e, e', Dessinee(e, p, decode), image, zones)
      else e' == e
    else Gestion(e, p, e')
  }

  lemma DessinPeint(e: Etat, p: Pdu, decode: Decodage)
    requires Sain(e)
    ensures DessinDe(e, p, decode).Some? <==> Dessinable(e, p, decode)
    ensures Dessinable(e, p, decode) ==>
      var d := DessinDe(e, p, decode).value;
      d.id == Dessinee(e, p, decode) && PeintAvec(e, p, decode, d.image, d.zones)
  {
    if Dessinable(e, p, decode) {
      match p.id
      case 0x0001 => ImagePeint(e, p, decode);
      case 0x0002 => ProgressifPeint(e, p, decode);
      case 0x0004 => SolidFillPeint(e, p, decode);
      case 0x0005 => SurfaceVersSurfacePeint(e, p, decode);
      case 0x0007 => CacheVersSurfacePeint(e, p, decode);
    } else if p.id == 0x0001 && |p.charge| > 17 {
      ImageAccepte(e, p, decode);
    }
  }

  lemma PosePuisPublie(e: Etat, d: Dessin)
    requires d.id in e.surfaces
    ensures ImagePosee(e, Applique(e, d), d.id, d.image, d.zones)
  {
  }

  /** Every PDU, whatever its bytes and whatever the decoders answer, does what its number says, read from its bytes. */
  lemma TraiteExact(e: Etat, p: Pdu, decode: Decodage)
    requires Sain(e)
    ensures Effet(e, p, decode, Traite(e, p, decode))
  {
    if EstDessin(p) {
      DessinPeint(e, p, decode);
      if Dessinable(e, p, decode) {
        PosePuisPublie(e, DessinDe(e, p, decode).value);
      }
    } else {
      GereExact(e, p);
    }
  }

  /** A screen size received is that of the screen once it is painted: columns first, then rows. With nothing to paint,
      the screen is then as it was if it had that size already, and black if not. */
  lemma TailleSuivie(s: Session, p: Pdu)
    requires p.id == 0x000E && |p.charge| >= 8
    requires 1 <= U32(p.charge, 0) <= 8192 && 1 <= U32(p.charge, 4) <= 8192
    ensures var f := Suit(Suit(s, Recu(p, Echec)), Peinture);
            && f.image.largeur == U32(p.charge, 0) && f.image.hauteur == U32(p.charge, 4) && f.e.taille == None
            && (s.e.trames == [] ==>
                  if s.image.largeur == U32(p.charge, 0) && s.image.hauteur == U32(p.charge, 4) then f.image == s.image
                  else EstNoire(f.image, U32(p.charge, 0), U32(p.charge, 4)))
  {
  }

  // ---------- What is sent back ----------

  /** The only answer is to the end of a frame: an acknowledgement of twenty bytes, number 13, depth zero, the number of
      the frame as it came and the count of frames ended, this one included. */
  lemma ReponseExacte(e: Etat, p: Pdu)
    ensures Reponse(e, p)
         == if p.id == 0x000C && |p.charge| >= 4
            then Some([13, 0, 0, 0, 20, 0, 0, 0, 0, 0, 0, 0] + p.charge[..4]
                      + Le32((e.tramesDecodees + 1) % 0x1_0000_0000))
            else None
  {
    if EstEndFrame(p) {
      EntierEcrit(p.charge, 0);
      assert Le16(CMD_FRAME_ACKNOWLEDGE) == [13, 0] && Le16(0) == [0, 0];
      assert Le32(20) == [20, 0, 0, 0] && Le32(0) == [0, 0, 0, 0] && p.charge[0..4] == p.charge[..4];
      assert [13, 0] + [0, 0] + [20, 0, 0, 0] + [0, 0, 0, 0] == [13, 0, 0, 0, 20, 0, 0, 0, 0, 0, 0, 0];
    }
  }
}
