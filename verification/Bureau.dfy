/** From the screen image to the canvas of the front end: painting, dirty zone, messages in flight, canvas. */
module Bureau {
  import opened Octets
  import opened Bitmaps
  import opened Surfaces
  import opened ZoneSale
  import opened Messages
  import opened EgfxModele
  import Miroir

  // ---------- Applying one message to the canvas ----------

  /** `putImageData` of one rectangle of the buffer `o`. */
  ghost function Pose(c: Bitmap, o: seq<octet>, r: RectLu): (c': Bitmap)
    ensures c'.largeur == c.largeur && c'.hauteur == c.hauteur && c'.BienForme()
  {
    Tracer(c.largeur, c.hauteur, (px, py) =>
      if Zone(r.x, r.y, r.largeur, r.hauteur).Contient(px, py) then PixelDe(o, r, px - r.x, py - r.y) else c.At(px, py))
  }

  function PixelDe(o: seq<octet>, r: RectLu, i: int, j: int): Pixel {
    if i >= 0 && j >= 0 && r.decalage + 4 * Indice(r.largeur, i, j) + 4 <= |o|
    then PixelEn(o, r.decalage + 4 * Indice(r.largeur, i, j)) else NOIR
  }

  ghost function PoseTous(c: Bitmap, o: seq<octet>, rs: seq<RectLu>): (c': Bitmap)
    ensures c'.largeur == c.largeur && c'.hauteur == c.hauteur && (c.BienForme() ==> c'.BienForme())
    decreases |rs|
  {
    if rs == [] then c else PoseTous(Pose(c, o, rs[0]), o, rs[1..])
  }

  /** An image in another size, each pixel taken from the nearest place of the old one. */
  ghost function Etire(b: Bitmap, l: nat, h: nat): (r: Bitmap)
    ensures r.largeur == l && r.hauteur == h && r.BienForme()
  {
    if l == 0 || h == 0 then Noire(l, h) else
      Tracer(l, h, (x, y) => b.At(x * b.largeur / l, y * b.hauteur / h))
  }

  /** What the front end does with a message: frames are drawn, a new size stretches the canvas. */
  ghost function Applique(c: Bitmap, o: seq<octet>): (c': Bitmap)
    ensures c.BienForme() ==> c'.BienForme()
  {
    if o != [] && (o[0] == 2 || o[0] == 13) then PoseTous(c, o, DecodeImage(o).rects)
    else if |o| >= 5 && o[0] == 1 then Etire(c, U16(o, 1), U16(o, 3))
    else c
  }

  /** From `c` to `c'`, the pixels under the zones became those of `b`, and no other changed. */
  ghost predicate AJour(c: Bitmap, c': Bitmap, b: Bitmap, zs: seq<Zone>) {
    && c'.largeur == c.largeur && c'.hauteur == c.hauteur
    && forall px, py :: c.Contient(px, py) ==>
         c'.At(px, py) == if Couvert(zs, px, py) then b.At(px, py) else c.At(px, py)
  }

  lemma AJourSuite(c0: Bitmap, c1: Bitmap, c2: Bitmap, b: Bitmap, z: Zone, zs: seq<Zone>)
    requires AJour(c0, c1, b, [z]) && AJour(c1, c2, b, zs)
    ensures AJour(c0, c2, b, [z] + zs)
  {
    forall px, py | c0.Contient(px, py)
      ensures c2.At(px, py) == if Couvert([z] + zs, px, py) then b.At(px, py) else c0.At(px, py)
    {
      assert forall y :: y in [z] + zs <==> y == z || y in zs;
      assert Couvert([z] + zs, px, py) <==> Couvert([z], px, py) || Couvert(zs, px, py) by {
        assert z in [z];
      }
    }
  }

  lemma BlocPose(c: Bitmap, o: seq<octet>, p: nat, b: Bitmap, z: Zone)
    requires Petite(z) && EcritEn(o, p, Bloc(b, z))
    ensures AJour(c, Pose(c, o, RectDe(z, p)), b, [z])
  {
    var c' := Pose(c, o, RectDe(z, p));
    forall px, py | c.Contient(px, py)
      ensures c'.At(px, py) == if Couvert([z], px, py) then b.At(px, py) else c.At(px, py)
    {
      assert z in [z];
      if z.Contient(px, py) {
        PixelsRelus(o, p, b, z, px - z.x, py - z.y);
      }
    }
  }

  /** An empty rectangle shows nothing. */
  lemma BlocVide(c: Bitmap, b: Bitmap, z: Zone)
    requires z.largeur == 0 || z.hauteur == 0
    ensures AJour(c, c, b, [z])
  {
  }

  lemma UnRectLu(o: seq<octet>, p: nat, n: nat, rect: RectLu, q: nat)
    requires LireRect(o, p) == Some((rect, q))
    ensures LireRects(o, p, n + 1).1 == LireRects(o, q, n).1
    ensures LireRects(o, p, n + 1).0
         == (if rect.largeur > 0 && rect.hauteur > 0 then [rect] else []) + LireRects(o, q, n).0
  {
  }

  lemma PoseUnPuis(c: Bitmap, o: seq<octet>, r: RectLu, rs: seq<RectLu>)
    ensures PoseTous(c, o, [r] + rs) == PoseTous(Pose(c, o, r), o, rs)
  {
    assert ([r] + rs)[1..] == rs;
  }

  /** The rectangle of a zone written at offset p, if it is not empty. */
  function NonVide(z: Zone, p: nat): seq<RectLu>
    requires Petite(z)
  {
    if z.largeur > 0 && z.hauteur > 0 then [RectDe(z, p)] else []
  }

  function Apres(z: Zone, p: nat): nat {
    p + 8 + Taille(z.largeur, z.hauteur)
  }

  /** The non-empty zones of a list of blocks written from offset p, with the place of their pixels. */
  ghost function NonVides(zs: seq<Zone>, p: nat): seq<RectLu>
    requires Petites(zs)
    decreases |zs|
  {
    if zs == [] then [] else NonVide(zs[0], p) + NonVides(zs[1..], Apres(zs[0], p))
  }

  /** The first block of a written list, and the list of the others. */
  lemma EcritsTete(o: seq<octet>, p: nat, b: Bitmap, zs: seq<Zone>)
    requires Petites(zs) && zs != [] && Ecrits(o, p, ListeBlocs(b, zs))
    ensures EcritEn(o, p, Bloc(b, zs[0])) && Ecrits(o, Apres(zs[0], p), ListeBlocs(b, zs[1..]))
  {
    ListeSuite(b, zs);
    BlocRelu(o, p, b, zs[0]);
  }

  lemma UnBlocLu(o: seq<octet>, p: nat, b: Bitmap, z: Zone, n: nat, suite: seq<RectLu>)
    requires Petite(z) && EcritEn(o, p, Bloc(b, z)) && LireRects(o, Apres(z, p), n) == (suite, true)
    ensures LireRects(o, p, n + 1) == (NonVide(z, p) + suite, true)
  {
    BlocRelu(o, p, b, z);
    UnRectLu(o, p, n, RectDe(z, p), Apres(z, p));
  }

  /** Decoding an encoded list returns exactly its non-empty rectangles, in order and at their place. */
  lemma {:induction false} BlocsRelus(o: seq<octet>, p: nat, b: Bitmap, zs: seq<Zone>, lus: seq<RectLu>)
    requires Petites(zs) && Ecrits(o, p, ListeBlocs(b, zs)) && lus == NonVides(zs, p)
    ensures LireRects(o, p, |zs|) == (lus, true)
    decreases |zs|
  {
    if zs != [] {
      var suite := NonVides(zs[1..], Apres(zs[0], p));
      EcritsTete(o, p, b, zs);
      BlocsRelus(o, Apres(zs[0], p), b, zs[1..], suite);
      UnBlocLu(o, p, b, zs[0], |zs| - 1, suite);
    }
  }

  /** The first block, shown or skipped, then the others. */
  lemma UnBlocPose(c: Bitmap, o: seq<octet>, p: nat, b: Bitmap, z: Zone, suite: seq<RectLu>) returns (c1: Bitmap)
    requires Petite(z) && EcritEn(o, p, Bloc(b, z))
    ensures AJour(c, c1, b, [z]) && PoseTous(c, o, NonVide(z, p) + suite) == PoseTous(c1, o, suite)
  {
    if z.largeur > 0 && z.hauteur > 0 {
      c1 := Pose(c, o, RectDe(z, p));
      BlocPose(c, o, p, b, z);
      PoseUnPuis(c, o, RectDe(z, p), suite);
    } else {
      c1 := c;
      BlocVide(c, b, z);
      assert [] + suite == suite;
    }
  }

  /** Painting the rectangles of a written list shows the image under each of them. */
  lemma {:induction false} BlocsPoses(c: Bitmap, o: seq<octet>, p: nat, b: Bitmap, zs: seq<Zone>)
    requires Petites(zs) && Ecrits(o, p, ListeBlocs(b, zs))
    ensures AJour(c, PoseTous(c, o, NonVides(zs, p)), b, zs)
    decreases |zs|
  {
    if zs != [] {
      var suite := NonVides(zs[1..], Apres(zs[0], p));
      EcritsTete(o, p, b, zs);
      var c1 := UnBlocPose(c, o, p, b, zs[0], suite);
      BlocsPoses(c1, o, Apres(zs[0], p), b, zs[1..]);
      AJourSuite(c, c1, PoseTous(c1, o, suite), b, zs[0], zs[1..]);
      assert [zs[0]] + zs[1..] == zs;
    }
  }

  /** On the image, the clipped rectangles cover what the rectangles cover. */
  lemma {:induction false} BornesCouvrent(rs: seq<Rect>, l: nat, h: nat, x: int, y: int)
    requires 0 <= x < l && 0 <= y < h
    ensures Couvert(Bornes(rs, l, h), x, y) <==> Couvre(rs, x, y)
  {
    if rs != [] {
      BornesCouvrent(rs[1..], l, h, x, y);
      BorneExacte(rs[0], l, h);
      assert rs == [rs[0]] + rs[1..];
      assert Couvre(rs, x, y) <==> rs[0].Contient(x, y) || Couvre(rs[1..], x, y);
      var m := Borne(rs[0], l, h);
      if m.Some? {
        assert Couvert(Bornes(rs, l, h), x, y) <==> m.value.Contient(x, y) || Couvert(Bornes(rs[1..], l, h), x, y);
      }
    }
  }

  /** Applying the message of a dirty zone of up to 255 rectangles shows the image under the zone and nothing else
      new. */
  lemma MessageMontre(c: Bitmap, b: Bitmap, rs: seq<Rect>, px: int, py: int)
    requires b.largeur < 0x1_0000 && b.hauteur < 0x1_0000 && |rs| <= 255
    requires c.largeur == b.largeur && c.hauteur == b.hauteur && c.Contient(px, py)
    ensures Applique(c, FramesMsg(b, rs)).At(px, py) == if Couvre(rs, px, py) then b.At(px, py) else c.At(px, py)
  {
    BornesPetites(rs, b.largeur, b.hauteur);
    BornesCouvrent(rs, b.largeur, b.hauteur, px, py);
    MessageAJour(c, b, rs, Bornes(rs, b.largeur, b.hauteur));
  }

  /** A message of blocks from offset p, applied. */
  lemma BlocsAJour(c: Bitmap, b: Bitmap, o: seq<octet>, p: nat, zs: seq<Zone>)
    requires Petites(zs) && p + |Blocs(b, zs)| == |o| && o[p..] == Blocs(b, zs)
    ensures AJour(c, PoseTous(c, o, LireRects(o, p, |zs|).0), b, zs)
  {
    assert o[p..p + |Blocs(b, zs)|] == Blocs(b, zs);
    ConcatEcrits(o, p, ListeBlocs(b, zs));
    BlocsRelus(o, p, b, zs, NonVides(zs, p));
    BlocsPoses(c, o, p, b, zs);
  }

  lemma MessageAJour(c: Bitmap, b: Bitmap, rs: seq<Rect>, zs: seq<Zone>)
    requires b.largeur < 0x1_0000 && b.hauteur < 0x1_0000
    requires zs == Bornes(rs, b.largeur, b.hauteur) && Petites(zs) && |zs| <= 255
    ensures AJour(c, Applique(c, FramesMsg(b, rs)), b, zs)
  {
    var o := FramesMsg(b, rs);
    if |zs| == 1 {
      ListeSuite(b, zs);
      assert zs[1..] == [] && Concat([]) == [] && Blocs(b, zs) == Bloc(b, zs[0]);
      BlocsAJour(c, b, o, 1, zs);
    } else {
      BlocsAJour(c, b, o, 2, zs);
    }
  }

  // ---------- The whole pipeline ----------

  /** Places of the desktop whose pixel on the canvas is not promised. */
  type Places = iset<(int, int)>

  /** The image and dirty zone of the sidecar, the messages on their way, and the canvas; `floues` are the places lost
      by a blanked or resized canvas and not sent again since. */
  datatype Poste = Poste(image: Bitmap, sale: seq<Rect>, enVol: seq<seq<octet>>, canvas: Bitmap,
                         attente: bool, pause: bool,
                         floues: Places)

  /** A frame is painted; the dirty zone is sent; a message is received; an acknowledgement comes or is given up; the
      tab goes to the background or back; the front end asks for the whole image; the browser blanks the canvas; the
      desktop takes another size. */
  datatype Evenement =
    | Peindre(t: EgfxModele.Trame, z: seq<Rect>)
    | Emettre
    | Recevoir
    | Acquitter
    | MettreEnPause(oui: bool)
    | Rafraichir
    | Effacer
    | Redimensionner(largeur: nat, hauteur: nat)

  ghost const PARTOUT: Places := iset x: int, y: int :: (x, y)

  /** The rectangle reported for a frame, clipped to the image. */
  function RectTrame(t: EgfxModele.Trame, l: nat, h: nat): Rect
    requires 0 < l < 0x1_0000 && 0 < h < 0x1_0000
  {
    Rect(t.x, t.y,
         Min(MoinsSature(Sature16(t.x + t.image.largeur), 1), l - 1),
         Min(MoinsSature(Sature16(t.y + t.image.hauteur), 1), h - 1))
  }

  /** What `AjouterRect` promises of its result. */
  ghost predicate AjoutPossible(zone: seq<Rect>, r: Rect, z: seq<Rect>) {
    && (forall x, y :: Couvre(zone, x, y) || r.Contient(x, y) ==> Couvre(z, x, y))
    && (|zone| <= RECTS_MAX ==> |z| <= RECTS_MAX)
  }

  function Entiere(b: Bitmap): Rect
    requires 0 < b.largeur < 0x1_0000 && 0 < b.hauteur < 0x1_0000
  {
    Rect(0, 0, b.largeur - 1, b.hauteur - 1)
  }

  function MessageTaille(l: u16, h: u16): seq<octet> {
    [1] + Le16(l) + Le16(h)
  }

  /** One event; `z` is the dirty zone `AjouterRect` returned for the painted frame. */
  ghost function Suit(s: Poste, ev: Evenement): Poste
    requires 0 < s.image.largeur < 0x1_0000 && 0 < s.image.hauteur < 0x1_0000
  {
    match ev
    case Peindre(t, z) =>
      if t.x >= s.image.largeur || t.y >= s.image.hauteur then s
      else if !AjoutPossible(s.sale, RectTrame(t, s.image.largeur, s.image.hauteur), z) then s
      else s.(image := Miroir.Peint(s.image, t), sale := z)
    case Emettre =>
      if s.attente || s.pause || s.sale == [] then s
      else s.(enVol := s.enVol + [FramesMsg(s.image, s.sale)], sale := [], attente := true,
              floues := iset t | t in s.floues && !Couvre(s.sale, t.0, t.1))
    case Recevoir => if s.enVol == [] then s else s.(canvas := Applique(s.canvas, s.enVol[0]), enVol := s.enVol[1..])
    case Acquitter => s.(attente := false)
    case MettreEnPause(oui) => s.(pause := oui)
    case Rafraichir =>
      s.(enVol := s.enVol + [FramesMsg(s.image, [Entiere(s.image)])], sale := [], attente := true, pause := false,
         floues := iset{})
    case Effacer => s.(canvas := Noire(s.canvas.largeur, s.canvas.hauteur), floues := PARTOUT)
    case Redimensionner(l, h) =>
      if (l, h) == (s.image.largeur, s.image.hauteur) || l == 0 || h == 0 || l > TAILLE_MAX || h > TAILLE_MAX then s
      else s.(image := Etire(s.image, l, h), sale := [], attente := false, enVol := s.enVol + [MessageTaille(l, h)],
              floues := PARTOUT)
  }

  ghost function AppliqueTous(c: Bitmap, ms: seq<seq<octet>>): (c': Bitmap)
    ensures c.BienForme() ==> c'.BienForme()
    decreases |ms|
  {
    if ms == [] then c else AppliqueTous(Applique(c, ms[0]), ms[1..])
  }

  lemma {:induction false} AppliqueUnDePlus(c: Bitmap, ms: seq<seq<octet>>, m: seq<octet>)
    ensures AppliqueTous(c, ms + [m]) == Applique(AppliqueTous(c, ms), m)
    decreases |ms|
  {
    if ms == [] {
      assert ms + [m] == [m] && [m][1..] == [];
    } else {
      assert (ms + [m])[1..] == ms[1..] + [m];
      AppliqueUnDePlus(Applique(c, ms[0]), ms[1..], m);
    }
  }

  /** The canvas once everything in flight is received. */
  ghost function Recu(s: Poste): Bitmap {
    AppliqueTous(s.canvas, s.enVol)
  }

  /** Once everything in flight is received, the canvas has the size of the image and shows it everywhere but in the
      dirty zone and at the places lost. */
  ghost predicate Coherent(s: Poste) {
    && s.image.BienForme() && s.canvas.BienForme()
    && 0 < s.image.largeur < 0x1_0000 && 0 < s.image.hauteur < 0x1_0000
    && Recu(s).largeur == s.image.largeur && Recu(s).hauteur == s.image.hauteur
    && |s.sale| <= RECTS_MAX
    && forall x, y :: s.image.Contient(x, y) && !Couvre(s.sale, x, y) && (x, y) !in s.floues ==>
         Recu(s).At(x, y) == s.image.At(x, y)
  }

  lemma MemesTaillesUn(c: Bitmap, d: Bitmap, m: seq<octet>)
    requires c.largeur == d.largeur && c.hauteur == d.hauteur
    ensures Applique(c, m).largeur == Applique(d, m).largeur && Applique(c, m).hauteur == Applique(d, m).hauteur
  {
  }

  /** The size a canvas ends with does not depend on what it showed. */
  lemma {:induction false} MemesTailles(c: Bitmap, d: Bitmap, ms: seq<seq<octet>>)
    requires c.largeur == d.largeur && c.hauteur == d.hauteur
    ensures var c', d' := AppliqueTous(c, ms), AppliqueTous(d, ms); c'.largeur == d'.largeur && c'.hauteur == d'.hauteur
    decreases |ms|
  {
    if ms != [] {
      MemesTaillesUn(c, d, ms[0]);
      MemesTailles(Applique(c, ms[0]), Applique(d, ms[0]), ms[1..]);
    }
  }

  lemma MessageTailleMesure(c: Bitmap, l: u16, h: u16)
    ensures Applique(c, MessageTaille(l, h)) == Etire(c, l, h)
    ensures MessageTaille(l, h) == [1, l % 256, l / 256, h % 256, h / 256]
  {
    var m := MessageTaille(l, h);
    assert m[1..3] == Le16(l) && m[3..5] == Le16(h);
    Le16Relu(m, 1, l);
    Le16Relu(m, 3, h);
  }

  /** A frame changes no pixel outside the rectangle reported for it, even a frame cut on the right. */
  lemma PeintSousRect(b: Bitmap, t: EgfxModele.Trame, x: int, y: int)
    requires b.BienForme() && 0 < b.largeur < 0x1_0000 && 0 < b.hauteur < 0x1_0000
    requires t.x < b.largeur && t.y < b.hauteur && b.Contient(x, y)
    requires !RectTrame(t, b.largeur, b.hauteur).Contient(x, y)
    ensures Miroir.Peint(b, t).At(x, y) == b.At(x, y)
  {
    assert !Miroir.Visible(b, t.x, t.y, t.image.largeur, t.image.hauteur).Contient(x, y);
  }

  lemma PeindreCoherent(s: Poste, t: EgfxModele.Trame, z: seq<Rect>)
    requires Coherent(s)
    ensures Coherent(Suit(s, Peindre(t, z)))
  {
    var s' := Suit(s, Peindre(t, z));
    if s' != s {
      forall x, y | s.image.Contient(x, y) && !Couvre(z, x, y) && (x, y) !in s.floues
        ensures Recu(s).At(x, y) == s'.image.At(x, y)
      {
        PeintSousRect(s.image, t, x, y);
      }
    }
  }

  /** A message of the image under `rs`, last in flight: what it covers will show, the rest as before. */
  lemma EnvoiMontre(s: Poste, rs: seq<Rect>, s': Poste, x: int, y: int)
    requires Coherent(s) && |rs| <= 255 && s.image.Contient(x, y)
    requires s'.canvas == s.canvas && s'.enVol == s.enVol + [FramesMsg(s.image, rs)]
    ensures Recu(s').largeur == s.image.largeur && Recu(s').hauteur == s.image.hauteur
    ensures Recu(s').At(x, y) == if Couvre(rs, x, y) then s.image.At(x, y) else Recu(s).At(x, y)
  {
    AppliqueUnDePlus(s.canvas, s.enVol, FramesMsg(s.image, rs));
    MessageMontre(Recu(s), s.image, rs, x, y);
    MessageMemeTaille(Recu(s), s.image, rs);
  }

  lemma MessageMemeTaille(c: Bitmap, b: Bitmap, rs: seq<Rect>)
    requires b.largeur < 0x1_0000 && b.hauteur < 0x1_0000
    ensures var c' := Applique(c, FramesMsg(b, rs)); c'.largeur == c.largeur && c'.hauteur == c.hauteur
  {
  }

  lemma EmettreCoherent(s: Poste)
    requires Coherent(s)
    ensures Coherent(Suit(s, Emettre))
  {
    var s' := Suit(s, Emettre);
    if !s.attente && !s.pause && s.sale != [] {
      EnvoiMontre(s, s.sale, s', 0, 0);
      forall x, y | s.image.Contient(x, y) && (x, y) !in s'.floues ensures Recu(s').At(x, y) == s.image.At(x, y) {
        EnvoiMontre(s, s.sale, s', x, y);
      }
    }
  }

  /** Asking for the whole image restores any canvas, whatever was lost: once all is received it is the image. */
  lemma RafraichirRestaure(s: Poste)
    requires Coherent(s)
    ensures Coherent(Suit(s, Rafraichir)) && Suit(s, Rafraichir).floues == iset{}
    ensures Recu(Suit(s, Rafraichir)) == s.image
  {
    var s' := Suit(s, Rafraichir);
    EnvoiMontre(s, [Entiere(s.image)], s', 0, 0);
    forall x, y | s.image.Contient(x, y) ensures Recu(s').At(x, y) == s.image.At(x, y) {
      assert Entiere(s.image) in [Entiere(s.image)] && Entiere(s.image).Contient(x, y);
      EnvoiMontre(s, [Entiere(s.image)], s', x, y);
    }
    MemeImage(Recu(s'), s.image);
  }

  lemma EffacerCoherent(s: Poste)
    requires Coherent(s)
    ensures Coherent(Suit(s, Effacer))
  {
    MemesTailles(s.canvas, Suit(s, Effacer).canvas, s.enVol);
  }

  lemma RedimensionnerCoherent(s: Poste, l: nat, h: nat)
    requires Coherent(s)
    ensures Coherent(Suit(s, Redimensionner(l, h)))
  {
    var s' := Suit(s, Redimensionner(l, h));
    if s' != s {
      AppliqueUnDePlus(s.canvas, s.enVol, MessageTaille(l, h));
      MessageTailleMesure(Recu(s), l, h);
    }
  }

  lemma SuitCoherent(s: Poste, ev: Evenement)
    requires Coherent(s)
    ensures Coherent(Suit(s, ev))
  {
    match ev
    case Peindre(t, z) => PeindreCoherent(s, t, z);
    case Emettre => EmettreCoherent(s);
    case Recevoir =>
      if s.enVol != [] {
        assert Recu(s) == AppliqueTous(Applique(s.canvas, s.enVol[0]), s.enVol[1..]);
      }
    case Acquitter =>
    case MettreEnPause(oui) =>
    case Rafraichir => RafraichirRestaure(s);
    case Effacer => EffacerCoherent(s);
    case Redimensionner(l, h) => RedimensionnerCoherent(s, l, h);
  }

  ghost function SuitTous(s: Poste, evs: seq<Evenement>): (s': Poste)
    requires Coherent(s)
    ensures Coherent(s')
  {
    if evs == [] then s else
      var m := SuitTous(s, evs[..|evs| - 1]);
      SuitCoherent(m, evs[|evs| - 1]);
      Suit(m, evs[|evs| - 1])
  }

  /** A desktop whose canvas shows its image, nothing dirty and nothing in flight. */
  ghost function Debutant(image: Bitmap): (s: Poste)
    requires image.BienForme() && 0 < image.largeur < 0x1_0000 && 0 < image.hauteur < 0x1_0000
    ensures Coherent(s)
  {
    Poste(image, [], [], image, false, false, iset{})
  }

  /** Over any run, from a canvas that showed the image: whenever nothing is dirty and nothing is in flight, canvas and
      image have the same size and the same pixels, but for the places lost and not sent again. */
  lemma CanvasFidele(image: Bitmap, evs: seq<Evenement>, x: int, y: int)
    requires image.BienForme() && 0 < image.largeur < 0x1_0000 && 0 < image.hauteur < 0x1_0000
    ensures var s := SuitTous(Debutant(image), evs);
            s.sale == [] && s.enVol == [] ==>
              && s.canvas.largeur == s.image.largeur && s.canvas.hauteur == s.image.hauteur
              && (s.image.Contient(x, y) && (x, y) !in s.floues ==> s.canvas.At(x, y) == s.image.At(x, y))
  {
    var s := SuitTous(Debutant(image), evs);
    if s.sale == [] && s.enVol == [] {
      assert !Couvre(s.sale, x, y) && Recu(s) == s.canvas;
    }
  }

  predicate Perd(ev: Evenement) {
    ev.Effacer? || ev.Redimensionner?
  }

  lemma RienEnCours(s: Poste)
    requires Coherent(s) && s.floues == iset{} && s.sale == [] && s.enVol == []
    ensures s.canvas == s.image
  {
    assert Recu(s) == s.canvas;
    forall x, y | s.canvas.Contient(x, y) ensures s.canvas.At(x, y) == s.image.At(x, y) {
      assert !Couvre(s.sale, x, y);
    }
    MemeImage(s.canvas, s.image);
  }

  lemma SansPerteUnPas(s: Poste, ev: Evenement)
    requires Coherent(s) && s.floues == iset{} && !Perd(ev)
    ensures Suit(s, ev).floues == iset{}
  {
  }

  /** Only a blanked canvas or another size loses places: without them the canvas of a run that lost none, from its
      start or from a refresh, is the image whenever nothing is dirty nor in flight, pixel for pixel. */
  lemma {:induction false} SansPerteFidele(s: Poste, evs: seq<Evenement>)
    requires Coherent(s) && s.floues == iset{} && forall k :: 0 <= k < |evs| ==> !Perd(evs[k])
    ensures SuitTous(s, evs).floues == iset{}
    ensures var f := SuitTous(s, evs); f.sale == [] && f.enVol == [] ==> f.canvas == f.image
  {
    var f := SuitTous(s, evs);
    if evs != [] {
      var n := |evs| - 1;
      SansPerteFidele(s, evs[..n]);
      SansPerteUnPas(SuitTous(s, evs[..n]), evs[n]);
    }
    if f.sale == [] && f.enVol == [] {
      RienEnCours(f);
    }
  }

  /** ... and one sending received is enough to get there. */
  lemma UnEnvoiSuffit(s: Poste)
    requires Coherent(s) && !s.attente && !s.pause && s.enVol == [] && s.floues == iset{}
    ensures Suit(Suit(s, Emettre), Recevoir).canvas == s.image
  {
    var evs := [Emettre, Recevoir];
    assert evs[..1] == [Emettre] && evs[..1][..0] == [];
    assert SuitTous(s, evs[..1]) == Suit(s, Emettre) && SuitTous(s, evs) == Suit(Suit(s, Emettre), Recevoir);
    SansPerteFidele(s, evs);
  }

  // ---------- From the frame to the canvas ----------

  /** The tab comes back, the acknowledgement too, what is dirty goes out. */
  ghost function Reprise(s: Poste): Poste
    requires Coherent(s)
    ensures Coherent(Reprise(s))
  {
    SuitCoherent(s, MettreEnPause(false));
    SuitCoherent(Suit(s, MettreEnPause(false)), Acquitter);
    SuitCoherent(Suit(Suit(s, MettreEnPause(false)), Acquitter), Emettre);
    Suit(Suit(Suit(s, MettreEnPause(false)), Acquitter), Emettre)
  }

  /** The state after n messages are received. */
  ghost function Recevant(s: Poste, n: nat): Poste
    requires Coherent(s)
    ensures Coherent(Recevant(s, n))
    decreases n
  {
    if n == 0 then s else
      SuitCoherent(s, Recevoir);
      Recevant(Suit(s, Recevoir), n - 1)
  }

  lemma {:induction false} ReceptionTotale(s: Poste)
    requires Coherent(s)
    ensures var f := Recevant(s, |s.enVol|);
            f.canvas == Recu(s) && f.enVol == [] && f.image == s.image && f.sale == s.sale
    decreases |s.enVol|
  {
    if s.enVol != [] {
      SuitCoherent(s, Recevoir);
      ReceptionTotale(Suit(s, Recevoir));
    }
  }

  /** Whatever was painted, paused, sent or in flight: once the tab is back, the acknowledgement in, what is dirty sent
      and all received, the canvas is the image, if no place was lost. */
  lemma RattrapageComplet(s: Poste)
    requires Coherent(s) && s.floues == iset{}
    ensures var r := Reprise(s); Recevant(r, |r.enVol|).canvas == s.image
  {
    var r := Reprise(s);
    assert r.image == s.image && r.sale == [] && r.floues == iset{};
    forall x, y | s.image.Contient(x, y) ensures Recu(r).At(x, y) == s.image.At(x, y) {
      assert !Couvre(r.sale, x, y);
    }
    MemeImage(Recu(r), s.image);
    ReceptionTotale(r);
  }

  /** A frame painted on the image, not cut on its right, ends up on the canvas, at its place and as it is. */
  lemma TrameAuCanvas(s: Poste, t: EgfxModele.Trame, z: seq<Rect>, x: int, y: int)
    requires Coherent(s) && s.floues == iset{} && t.image.BienForme() && t.x < s.image.largeur && t.y < s.image.hauteur
    requires AjoutPossible(s.sale, RectTrame(t, s.image.largeur, s.image.hauteur), z)
    requires Miroir.NonCisaillee(s.image.largeur, s.image.hauteur, t.x, t.y, t.image.largeur, t.image.hauteur)
    requires s.image.Contient(x, y)
    ensures Coherent(Suit(s, Peindre(t, z)))
    ensures var r := Reprise(Suit(s, Peindre(t, z)));
            Recevant(r, |r.enVol|).canvas.At(x, y)
            == if Zone(t.x, t.y, t.image.largeur, t.image.hauteur).Contient(x, y) then t.image.At(x - t.x, y - t.y)
               else s.image.At(x, y)
  {
    var p := Suit(s, Peindre(t, z));
    SuitCoherent(s, Peindre(t, z));
    RattrapageComplet(p);
    assert p.image == Miroir.Peint(s.image, t);
    Miroir.PixelPeint(s.image, t, x, y);
  }

  // ---------- Pacing ----------

  /** How many events of a run lift the wait: an acknowledgement, or a new size. */
  function Leves(evs: seq<Evenement>): nat {
    if evs == [] then 0 else
      Leves(evs[..|evs| - 1]) + if evs[|evs| - 1].Acquitter? || evs[|evs| - 1].Redimensionner? then 1 else 0
  }

  /** How many times the dirty zone went out. */
  ghost function Envois(s: Poste, evs: seq<Evenement>): nat
    requires Coherent(s)
  {
    if evs == [] then 0 else
      var m := SuitTous(s, evs[..|evs| - 1]);
      Envois(s, evs[..|evs| - 1]) + if evs[|evs| - 1].Emettre? && Suit(m, Emettre) != m then 1 else 0
  }

  /** Over any run, the dirty zone goes out at most once more than the wait was lifted; nothing goes out while the tab
      is in the background. */
  lemma {:induction false} CadenceTenue(s: Poste, evs: seq<Evenement>)
    requires Coherent(s)
    ensures Envois(s, evs) + (if SuitTous(s, evs).attente then 0 else 1) <= Leves(evs) + if s.attente then 0 else 1
    ensures SuitTous(s, evs).pause ==> Suit(SuitTous(s, evs), Emettre) == SuitTous(s, evs)
  {
    if evs != [] {
      CadenceTenue(s, evs[..|evs| - 1]);
    }
  }
}
