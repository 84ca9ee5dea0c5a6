/** The graphics channel (MS-RDPEGFX) as a state machine over values: what each PDU does to the surfaces,
    the cache, the origins, the byte budgets and the queue of frames to paint. */
module EgfxModele {
  import opened Octets
  import opened Bitmaps
  import opened Surfaces

  const CMD_WIRE_TO_SURFACE_1: u16 := 0x0001
  const CMD_WIRE_TO_SURFACE_2: u16 := 0x0002
  const CMD_SOLIDFILL: u16 := 0x0004
  const CMD_SURFACE_TO_SURFACE: u16 := 0x0005
  const CMD_SURFACE_TO_CACHE: u16 := 0x0006
  const CMD_CACHE_TO_SURFACE: u16 := 0x0007
  const CMD_EVICT_CACHE_ENTRY: u16 := 0x0008
  const CMD_CREATE_SURFACE: u16 := 0x0009
  const CMD_DELETE_SURFACE: u16 := 0x000A
  const CMD_END_FRAME: u16 := 0x000C
  const CMD_FRAME_ACKNOWLEDGE: u16 := 0x000D
  const CMD_RESET_GRAPHICS: u16 := 0x000E
  const CMD_MAP_SURFACE_TO_OUTPUT: u16 := 0x000F

  const CODEC_NON_COMPRESSE: u16 := 0x0000
  const CODEC_CLEARCODEC: u16 := 0x0008
  const CODEC_PLANAIRE: u16 := 0x000A
  const CODEC_CAPROGRESSIVE: u16 := 0x0009

  /** Side of a tile of the progressive codec. */
  const COTE := 64

  const TAILLE_MAX := 8192
  const RECTS_MAX := 8
  const SURFACES_MAX := 64
  const OCTETS_SURFACES_MAX := 512 * 1024 * 1024
  const OCTETS_PUBLIES_MAX := 64 * 1024 * 1024
  const EMPLACEMENTS_MAX := 4096
  const OCTETS_CACHE_MAX := 16 * 1024 * 1024

  datatype Pdu = Pdu(id: u16, charge: seq<octet>)

  /** The pixels of one tile. */
  type Carreau = p: seq<Pixel> | |p| == COTE * COTE witness seq(COTE * COTE, _ => NOIR)

  /** A tile of the progressive codec, at a column and row counted in tiles. */
  datatype Tuile = Tuile(x: u16, y: u16, pixels: Carreau)

  /** What an image decoder answered: nothing usable; bytes (ClearCodec, planar); or, for the progressive codec, the
      tiles it decoded before it finished or failed. */
  datatype Decodage = Echec | Donnees(octets: seq<octet>) | Tuiles(tuiles: seq<Tuile>, aboutie: bool)

  /** A decoded piece of image, ready to be painted at screen coordinates. */
  datatype Trame = Trame(x: u16, y: u16, image: Bitmap)

  datatype Etat = Etat(
    surfaces: map<u16, Bitmap>,
    octetsSurfaces: int,
    octetsPublies: nat,
    cache: map<u16, Bitmap>,
    octetsCache: int,
    origines: map<u16, (u16, u16)>,
    tramesDecodees: u32,
    trames: seq<Trame>,
    taille: Option<(u16, u16)>)

  const INITIAL := Etat(map[], 0, 0, map[], 0, map[], 0, [], None)

  function OctetsSurface(l: nat, h: nat): nat {
    4 * Debut(l, h)
  }

  // ---------- Reading the payloads ----------

  /** A "left, top, right, bottom" rectangle; inverted or empty edges are refused. */
  function DepuisBords(c: seq<octet>, d: nat): Option<Zone>
    requires d + 8 <= |c|
  {
    var g, h, dr, b := U16(c, d), U16(c, d + 2), U16(c, d + 4), U16(c, d + 6);
    if dr > g && b > h then Some(Zone(g, h, dr - g, b - h)) else None
  }

  /** How many of the `n` announced records of `pas` bytes are entirely present after `base`. */
  function Presents(c: seq<octet>, base: nat, pas: nat, n: nat): (k: nat)
    ensures k <= n && (k == 0 || base + pas * k <= |c|)
    ensures k < n ==> base + pas * (k + 1) > |c|
  {
    if n == 0 || base + pas * n <= |c| then n else Presents(c, base, pas, n - 1)
  }

  /** The usable rectangles among the first `k` of a SolidFill. */
  function Rects(c: seq<octet>, k: nat): seq<Zone>
    requires k == 0 || 8 + 8 * k <= |c|
  {
    if k == 0 then [] else
      match DepuisBords(c, 8 + 8 * (k - 1))
      case None => Rects(c, k - 1)
      case Some(z) => Rects(c, k - 1) + [z]
  }

  /** The first `k` destination points after `base`, as rectangles of the given size. */
  function Points(c: seq<octet>, base: nat, k: nat, largeur: nat, hauteur: nat): (zs: seq<Zone>)
    requires k == 0 || base + 4 * k <= |c|
    ensures |zs| == k && forall z :: z in zs ==> z.largeur == largeur && z.hauteur == hauteur
  {
    if k == 0 then [] else
      Points(c, base, k - 1, largeur, hauteur)
        + [Zone(U16(c, base + 4 * (k - 1)), U16(c, base + 4 * (k - 1) + 2), largeur, hauteur)]
  }

  /** The destination rectangles of a copy: as many of the `n` announced points as are entirely present. */
  function Cibles(c: seq<octet>, base: nat, n: nat, largeur: nat, hauteur: nat): (zs: seq<Zone>)
    ensures forall z :: z in zs ==> z.largeur == largeur && z.hauteur == hauteur
  {
    Points(c, base, Presents(c, base, 4, n), largeur, hauteur)
  }

  /** The first `n` pixels of a B, G, R, filler stream, made opaque RGBA. */
  function DepuisBgra(o: seq<octet>, n: nat): (p: seq<Pixel>)
    requires 4 * n <= |o|
  {
    seq(n, i requires 0 <= i < n => Pixel(o[4 * i + 2], o[4 * i + 1], o[4 * i], 0xFF))
  }

  function DepuisRgb(o: seq<octet>, n: nat): (p: seq<Pixel>)
    requires 3 * n <= |o|
  {
    seq(n, i requires 0 <= i < n => Pixel(o[3 * i], o[3 * i + 1], o[3 * i + 2], 0xFF))
  }

  // ---------- Drawing ----------

  /** The non-empty clips of a list of rectangles, in order. */
  function Rognees(zones: seq<Zone>, l: nat, h: nat): seq<Zone> {
    if zones == [] then [] else
      var debut := Rognees(zones[..|zones| - 1], l, h);
      match zones[|zones| - 1].Rognee(l, h)
      case None => debut
      case Some(z) => debut + [z]
  }

  /** Fills every rectangle in turn. */
  ghost function RempliTous(b: Bitmap, zones: seq<Zone>, couleur: Pixel): (r: Bitmap)
    ensures r.largeur == b.largeur && r.hauteur == b.hauteur && (b.BienForme() ==> r.BienForme())
  {
    if zones == [] then b else Rempli(RempliTous(b, zones[..|zones| - 1], couleur), zones[|zones| - 1], couleur)
  }

  /** Copies `p` onto every rectangle in turn. */
  ghost function EcritTous(b: Bitmap, zones: seq<Zone>, p: Bitmap): (r: Bitmap)
    ensures r.largeur == b.largeur && r.hauteur == b.hauteur && (b.BienForme() ==> r.BienForme())
  {
    if zones == [] then b else Ecrit(EcritTous(b, zones[..|zones| - 1], p), zones[|zones| - 1], p.pixels, p.largeur)
  }

  // ---------- Publishing ----------

  /** The smallest rectangle around a non-empty list of rectangles. */
  function BoiteEnglobante(zones: seq<Zone>): (b: Zone)
    requires zones != []
  {
    var n := |zones| - 1;
    var z := zones[n];
    if n == 0 then z else
      var p := BoiteEnglobante(zones[..n]);
      var x0, y0 := Min(p.x, z.x), Min(p.y, z.y);
      Zone(x0, y0,
           Max(p.x + p.largeur, z.x + z.largeur) - x0,
           Max(p.y + p.hauteur, z.y + z.hauteur) - y0)
  }

  /** What `publier` decides to send: the zones, or their box when there are more than RECTS_MAX. */
  function APublier(zones: seq<Zone>): seq<Zone> {
    if |zones| > RECTS_MAX then [BoiteEnglobante(zones)] else zones
  }

  ghost function TrameDe(b: Bitmap, ox: nat, oy: nat, z: Zone): Trame {
    Trame(Sature16(ox + z.x), Sature16(oy + z.y), Decoupe(b, z))
  }

  /** The frames pushed for a list of zones, and the byte count afterwards; stops once the budget is spent. */
  ghost function PublieZones(b: Bitmap, ox: nat, oy: nat, zones: seq<Zone>, octets: nat): (r: (seq<Trame>, nat)) {
    if zones == [] || octets >= OCTETS_PUBLIES_MAX then ([], octets)
    else
      match zones[0].Rognee(b.largeur, b.hauteur)
      case None => PublieZones(b, ox, oy, zones[1..], octets)
      case Some(z) =>
        var t := TrameDe(b, ox, oy, z);
        var suite := PublieZones(b, ox, oy, zones[1..], octets + t.image.Octets());
        ([t] + suite.0, suite.1)
  }

  function Origine(e: Etat, id: u16): (u16, u16) {
    if id in e.origines then e.origines[id] else (0, 0)
  }

  ghost function Publie(e: Etat, id: u16, zones: seq<Zone>): Etat {
    if id !in e.surfaces then e else
      var o := Origine(e, id);
      var r := PublieZones(e.surfaces[id], o.0, o.1, APublier(zones), e.octetsPublies);
      e.(trames := e.trames + r.0, octetsPublies := r.1)
  }

  // ---------- The commands that draw ----------

  /** What a drawing command does: surface `id` becomes `image`, `zones` being the clipped rectangles it touched. */
  datatype Dessin = Dessin(id: u16, image: Bitmap, zones: seq<Zone>)

  ghost function SolidFill(e: Etat, c: seq<octet>): Option<Dessin>
    requires |c| >= 8
  {
    var id := U16(c, 0);
    if id !in e.surfaces then None else
      var b := e.surfaces[id];
      var rects := Rects(c, Presents(c, 8, 8, U16(c, 6)));
      Some(Dessin(id, RempliTous(b, rects, Pixel(c[4], c[3], c[2], 0xFF)), Rognees(rects, b.largeur, b.hauteur)))
  }

  /** Copies `p` to the destinations listed in `c` after `base`. */
  ghost function Pose(e: Etat, id: u16, p: Bitmap, c: seq<octet>, base: nat, n: nat): Option<Dessin> {
    if id !in e.surfaces then None else
      var b := e.surfaces[id];
      var cibles := Cibles(c, base, n, p.largeur, p.hauteur);
      Some(Dessin(id, EcritTous(b, cibles, p), Rognees(cibles, b.largeur, b.hauteur)))
  }

  /** The part of surface `id` under a rectangle, when both exist. */
  ghost function Extrait(e: Etat, id: u16, zone: Option<Zone>): Option<Bitmap> {
    if zone.None? || id !in e.surfaces then None else
      match zone.value.Rognee(e.surfaces[id].largeur, e.surfaces[id].hauteur)
      case None => None
      case Some(z) => Some(Decoupe(e.surfaces[id], z))
  }

  ghost function SurfaceVersSurface(e: Etat, c: seq<octet>): Option<Dessin>
    requires |c| >= 14
  {
    match Extrait(e, U16(c, 0), DepuisBords(c, 4))
    case None => None
    case Some(p) => Pose(e, U16(c, 2), p, c, 14, U16(c, 12))
  }

  ghost function CacheVersSurface(e: Etat, c: seq<octet>): Option<Dessin>
    requires |c| >= 6
  {
    if U16(c, 0) !in e.cache then None else Pose(e, U16(c, 2), e.cache[U16(c, 0)], c, 6, U16(c, 4))
  }

  /** The pixels of a WireToSurface1 of n pixels: `decode` is what the ClearCodec or planar decoder answered. */
  function PixelsRecus(codec: u16, donnees: seq<octet>, n: nat, decode: Decodage): Option<seq<Pixel>> {
    if codec == CODEC_CLEARCODEC then
      if decode.Donnees? && |decode.octets| >= 4 * n then Some(DepuisBgra(decode.octets, n)) else None
    else if codec == CODEC_PLANAIRE then
      if decode.Donnees? && |decode.octets| >= 3 * n then Some(DepuisRgb(decode.octets, n)) else None
    else if codec == CODEC_NON_COMPRESSE && |donnees| >= 4 * n then Some(DepuisBgra(donnees, n))
    else None
  }

  ghost function WireToSurface1(e: Etat, c: seq<octet>, decode: Decodage): Option<Dessin>
    requires |c| > 17
  {
    var id := U16(c, 0);
    var zone := DepuisBords(c, 5);
    var n := U32(c, 13);
    if zone.None? || 17 + n > |c| || id !in e.surfaces then None else
      var z, b := zone.value, e.surfaces[id];
      if z.x + z.largeur > b.largeur || z.y + z.hauteur > b.hauteur then None else
        match PixelsRecus(U16(c, 2), c[17..17 + n], Debut(z.largeur, z.hauteur), decode)
        case None => None
        case Some(p) => Some(Dessin(id, Ecrit(b, z, p, z.largeur), [z]))
  }

  function PlaceTuile(t: Tuile): Zone {
    Zone(COTE * t.x, COTE * t.y, COTE, COTE)
  }

  function PlacesTuiles(ts: seq<Tuile>): (zs: seq<Zone>)
    ensures |zs| == |ts| && forall i :: 0 <= i < |zs| ==> zs[i] == PlaceTuile(ts[i])
  {
    seq(|ts|, i requires 0 <= i < |ts| => PlaceTuile(ts[i]))
  }

  /** Copies every tile to its place in turn, clipped to the image. */
  ghost function PoseTuiles(b: Bitmap, ts: seq<Tuile>): (r: Bitmap)
    ensures r.largeur == b.largeur && r.hauteur == b.hauteur && (b.BienForme() ==> r.BienForme())
  {
    if ts == [] then b else
      var t := ts[|ts| - 1];
      Ecrit(PoseTuiles(b, ts[..|ts| - 1]), PlaceTuile(t), t.pixels, COTE)
  }

  /** A progressive image: the tiles decoded are laid on the surface; their places are published only if the whole
      image decoded. */
  ghost function WireToSurface2(e: Etat, c: seq<octet>, decode: Decodage): Option<Dessin>
    requires |c| > 13
  {
    var id := U16(c, 0);
    if U16(c, 2) != CODEC_CAPROGRESSIVE || id !in e.surfaces || !decode.Tuiles? then None else
      var b := e.surfaces[id];
      Some(Dessin(id, PoseTuiles(b, decode.tuiles),
                  if decode.aboutie then Rognees(PlacesTuiles(decode.tuiles), b.largeur, b.hauteur) else []))
  }

  /** The commands that draw on a surface and publish what changed. */
  predicate EstDessin(p: Pdu) {
    || p.id == CMD_WIRE_TO_SURFACE_1
    || p.id == CMD_WIRE_TO_SURFACE_2
    || p.id == CMD_SOLIDFILL
    || p.id == CMD_SURFACE_TO_SURFACE
    || p.id == CMD_CACHE_TO_SURFACE
  }

  ghost function DessinDe(e: Etat, p: Pdu, decode: Decodage): Option<Dessin> {
    var c, n := p.charge, |p.charge|;
    if p.id == CMD_WIRE_TO_SURFACE_1 && n > 17 then WireToSurface1(e, c, decode)
    else if p.id == CMD_WIRE_TO_SURFACE_2 && n > 13 then WireToSurface2(e, c, decode)
    else if p.id == CMD_SOLIDFILL && n >= 8 then SolidFill(e, c)
    else if p.id == CMD_SURFACE_TO_SURFACE && n >= 14 then SurfaceVersSurface(e, c)
    else if p.id == CMD_CACHE_TO_SURFACE && n >= 6 then CacheVersSurface(e, c)
    else None
  }

  /** Installs the new image of the surface and publishes the zones. */
  ghost function Applique(e: Etat, d: Dessin): Etat {
    Publie(e.(surfaces := e.surfaces[d.id := d.image]), d.id, d.zones)
  }

  ghost function Dessine(e: Etat, p: Pdu, decode: Decodage): Etat {
    match DessinDe(e, p, decode)
    case None => e
    case Some(d) => Applique(e, d)
  }

  // ---------- The commands that manage ----------

  function OctetsEn(cache: map<u16, Bitmap>, emplacement: u16): nat {
    if emplacement in cache then cache[emplacement].Octets() else 0
  }

  /** The cache and its byte count after a deposit, refused when a slot or the budget is missing. */
  function DeposeDans(cache: map<u16, Bitmap>, octets: int, emplacement: u16, p: Bitmap): (map<u16, Bitmap>, int) {
    var apres := octets - OctetsEn(cache, emplacement) + p.Octets();
    if |cache| >= EMPLACEMENTS_MAX && emplacement !in cache then (cache, octets)
    else if apres > OCTETS_CACHE_MAX then (cache, octets)
    else (cache[emplacement := p], apres)
  }

  function Depose(e: Etat, emplacement: u16, p: Bitmap): Etat {
    var r := DeposeDans(e.cache, e.octetsCache, emplacement, p);
    e.(cache := r.0, octetsCache := r.1)
  }

  ghost function SurfaceVersCache(e: Etat, c: seq<octet>): Etat
    requires |c| >= 20
  {
    match Extrait(e, U16(c, 0), DepuisBords(c, 12))
    case None => e
    case Some(p) => Depose(e, U16(c, 10), p)
  }

  function Oublie(e: Etat, emplacement: u16): Etat {
    e.(cache := e.cache - {emplacement}, octetsCache := e.octetsCache - OctetsEn(e.cache, emplacement))
  }

  /** The table and the byte count after creating an l by h surface, refused when a slot or the budget is missing. */
  ghost function Ajoute(surfaces: map<u16, Bitmap>, octets: int, id: u16, l: u16, h: u16): (map<u16, Bitmap>, int) {
    var deja := if id in surfaces then OctetsSurface(surfaces[id].largeur, surfaces[id].hauteur) else 0;
    var apres := octets - deja + OctetsSurface(l, h);
    if id !in surfaces && |surfaces| >= SURFACES_MAX then (surfaces, octets)
    else if apres > OCTETS_SURFACES_MAX then (surfaces, octets)
    else (surfaces[id := Noire(l, h)], apres)
  }

  ghost function CreateSurface(e: Etat, c: seq<octet>): Etat
    requires |c| >= 7
  {
    var id, l, h := U16(c, 0), U16(c, 2), U16(c, 4);
    if l == 0 || h == 0 || l > TAILLE_MAX || h > TAILLE_MAX then e else
      var r := Ajoute(e.surfaces, e.octetsSurfaces, id, l, h);
      e.(surfaces := r.0, octetsSurfaces := r.1)
  }

  function DeleteSurface(e: Etat, id: u16): Etat {
    var rendus := if id in e.surfaces then OctetsSurface(e.surfaces[id].largeur, e.surfaces[id].hauteur) else 0;
    e.(surfaces := e.surfaces - {id}, octetsSurfaces := e.octetsSurfaces - rendus, origines := e.origines - {id})
  }

  function MapSurface(e: Etat, c: seq<octet>): Etat
    requires |c| >= 12
  {
    var x, y := U32(c, 4), U32(c, 8);
    if x < 0x1_0000 && y < 0x1_0000 then e.(origines := e.origines[U16(c, 0) := (x, y)]) else e
  }

  function ResetGraphics(e: Etat, c: seq<octet>): Etat
    requires |c| >= 8
  {
    var l, h := U32(c, 0), U32(c, 4);
    if 0 < l <= TAILLE_MAX && 0 < h <= TAILLE_MAX then e.(taille := Some((l, h))) else e
  }

  function FrameAcknowledge(trame: u32, total: u32): (m: seq<octet>)
    ensures |m| == 20
  {
    Le16(CMD_FRAME_ACKNOWLEDGE) + Le16(0) + Le32(20) + Le32(0) + Le32(trame) + Le32(total)
  }

  function EndFrame(e: Etat): Etat {
    e.(tramesDecodees := (e.tramesDecodees + 1) % 0x1_0000_0000)
  }

  predicate EstEndFrame(p: Pdu) {
    p.id == CMD_END_FRAME && |p.charge| >= 4
  }

  /** The commands that create and delete surfaces. */
  predicate EstTable(p: Pdu) {
    p.id == CMD_CREATE_SURFACE || p.id == CMD_DELETE_SURFACE
  }

  ghost function GereTable(e: Etat, p: Pdu): Etat {
    var c, n := p.charge, |p.charge|;
    if p.id == CMD_CREATE_SURFACE && n >= 7 then CreateSurface(e, c)
    else if p.id == CMD_DELETE_SURFACE && n >= 2 then DeleteSurface(e, U16(c, 0))
    else e
  }

  /** The commands that manage origins, screen size, cache and frame count. */
  ghost function GereReste(e: Etat, p: Pdu): Etat {
    var c, n := p.charge, |p.charge|;
    if p.id == CMD_MAP_SURFACE_TO_OUTPUT && n >= 12 then MapSurface(e, c)
    else if p.id == CMD_RESET_GRAPHICS && n >= 8 then ResetGraphics(e, c)
    else if p.id == CMD_SURFACE_TO_CACHE && n >= 20 then SurfaceVersCache(e, c)
    else if p.id == CMD_EVICT_CACHE_ENTRY && n >= 2 then Oublie(e, U16(c, 0))
    else if EstEndFrame(p) then EndFrame(e)
    else e
  }

  ghost function Gere(e: Etat, p: Pdu): Etat {
    if EstTable(p) then GereTable(e, p) else GereReste(e, p)
  }

  /** The state after one PDU; `decode` is what the image decoder answered, if the PDU calls one. */
  ghost function Traite(e: Etat, p: Pdu, decode: Decodage): Etat {
    if EstDessin(p) then Dessine(e, p, decode) else Gere(e, p)
  }

  /** What is sent back for one PDU, given the state before it. */
  function Reponse(e: Etat, p: Pdu): Option<seq<octet>> {
    if EstEndFrame(p) then Some(FrameAcknowledge(U32(p.charge, 0), EndFrame(e).tramesDecodees)) else None
  }

  /** The states and the answers of a whole list of PDUs; `decodes(i)` answers for the i-th of them. */
  ghost function TraiteTous(e: Etat, pdus: seq<Pdu>, decodes: nat -> Decodage): (r: (Etat, seq<seq<octet>>)) {
    if pdus == [] then (e, []) else
      var k := |pdus| - 1;
      var avant := TraiteTous(e, pdus[..k], decodes);
      var rep := Reponse(avant.0, pdus[k]);
      (Traite(avant.0, pdus[k], decodes(k)), if rep.Some? then avant.1 + [rep.value] else avant.1)
  }
}
