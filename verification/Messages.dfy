/** Desktop frames on the local channel: the sidecar writes rectangles of the screen, the front end reads them back. */
module Messages {
  import opened Octets
  import opened Bitmaps
  import opened Surfaces
  import opened ZoneSale

  // ---------- Pixels as bytes ----------

  function OctetsPixel(p: Pixel): (o: seq<octet>)
    ensures |o| == 4
  {
    [p.r, p.g, p.b, p.a]
  }

  function PixelEn(o: seq<octet>, i: nat): Pixel
    requires i + 4 <= |o|
  {
    Pixel(o[i], o[i + 1], o[i + 2], o[i + 3])
  }

  function OctetsPixels(ps: seq<Pixel>): (o: seq<octet>)
    ensures |o| == 4 * |ps|
  {
    if ps == [] then [] else OctetsPixels(ps[..|ps| - 1]) + OctetsPixel(ps[|ps| - 1])
  }

  lemma {:induction false} PixelRelu(ps: seq<Pixel>, i: nat)
    requires i < |ps|
    ensures PixelEn(OctetsPixels(ps), 4 * i) == ps[i]
  {
    if i < |ps| - 1 {
      PixelRelu(ps[..|ps| - 1], i);
    }
  }

  lemma {:induction false} OctetsPixelsConcat(a: seq<Pixel>, b: seq<Pixel>)
    ensures OctetsPixels(a + b) == OctetsPixels(a) + OctetsPixels(b)
  {
    if b == [] {
      assert a + b == a;
    } else {
      OctetsPixelsConcat(a, b[..|b| - 1]);
      assert (a + b)[..|a + b| - 1] == a + b[..|b| - 1];
    }
  }

  // ---------- Writing (sidecar) ----------

  /** Intersection of a rectangle with the image; `None` when it touches nothing. */
  function Borne(r: Rect, l: nat, h: nat): (z: Option<Zone>) {
    if l == 0 || h == 0 || r.left >= l || r.top >= h || r.right < r.left || r.bottom < r.top then None
    else Some(Zone(r.left, r.top, Min(r.right, l - 1) - r.left + 1, Min(r.bottom, h - 1) - r.top + 1))
  }

  lemma BorneExacte(r: Rect, l: nat, h: nat)
    ensures match Borne(r, l, h)
            case None => forall x, y :: 0 <= x < l && 0 <= y < h ==> !r.Contient(x, y)
            case Some(z) => z.largeur > 0 && z.hauteur > 0 && z.x + z.largeur <= l && z.y + z.hauteur <= h
                            && forall x, y :: z.Contient(x, y) <==> r.Contient(x, y) && x < l && y < h
  {
  }

  /** The rectangles of the list that touch the image, clipped to it. */
  function Bornes(rs: seq<Rect>, l: nat, h: nat): seq<Zone> {
    if rs == [] then [] else
      match Borne(rs[0], l, h)
      case None => Bornes(rs[1..], l, h)
      case Some(z) => [z] + Bornes(rs[1..], l, h)
  }

  function EnTete(z: Zone): (m: seq<octet>)
    requires Petite(z)
    ensures |m| == 8
  {
    Le16(z.x) + Le16(z.y) + Le16(z.largeur) + Le16(z.hauteur)
  }

  /** Header and pixels of one rectangle of an image. */
  ghost function Bloc(b: Bitmap, z: Zone): seq<octet>
    requires Petite(z)
  {
    EnTete(z) + OctetsPixels(Decoupe(b, z).pixels)
  }

  predicate Petite(z: Zone) {
    z.x < 0x1_0000 && z.y < 0x1_0000 && z.largeur < 0x1_0000 && z.hauteur < 0x1_0000
  }

  ghost predicate Petites(zs: seq<Zone>) {
    forall k :: 0 <= k < |zs| ==> Petite(zs[k])
  }

  ghost function ListeBlocs(b: Bitmap, zs: seq<Zone>): (ms: seq<seq<octet>>)
    requires Petites(zs)
    ensures |ms| == |zs| && forall k :: 0 <= k < |ms| ==> ms[k] == Bloc(b, zs[k])
  {
    seq(|zs|, k requires 0 <= k < |zs| => Bloc(b, zs[k]))
  }

  ghost function Blocs(b: Bitmap, zs: seq<Zone>): seq<octet>
    requires Petites(zs)
  {
    Concat(ListeBlocs(b, zs))
  }

  lemma ListeSuite(b: Bitmap, zs: seq<Zone>)
    requires Petites(zs) && zs != []
    ensures ListeBlocs(b, zs)[0] == Bloc(b, zs[0]) && ListeBlocs(b, zs)[1..] == ListeBlocs(b, zs[1..])
  {
  }

  lemma {:induction false} BornesPetites(rs: seq<Rect>, l: nat, h: nat)
    requires l < 0x1_0000 && h < 0x1_0000
    ensures Petites(Bornes(rs, l, h)) && |Bornes(rs, l, h)| <= |rs|
    ensures forall k :: 0 <= k < |Bornes(rs, l, h)| ==>
      Bornes(rs, l, h)[k].largeur > 0 && Bornes(rs, l, h)[k].hauteur > 0
  {
    if rs != [] {
      BornesPetites(rs[1..], l, h);
    }
  }

  /** The message of a dirty zone: one rectangle keeps the historical form [2], any other number takes [13] with its
      count. */
  ghost function FramesMsg(b: Bitmap, rs: seq<Rect>): (m: seq<octet>)
    requires b.largeur < 0x1_0000 && b.hauteur < 0x1_0000
  {
    var zs := Bornes(rs, b.largeur, b.hauteur);
    BornesPetites(rs, b.largeur, b.hauteur);
    if |zs| == 1 then [2] + Bloc(b, zs[0]) else [13, Min(|zs|, 255)] + Blocs(b, zs)
  }

  /** Writes one rectangle, row after row. */
  method EcrireBloc(b: Bitmap, z: Zone) returns (m: seq<octet>)
    requires b.BienForme() && z.x + z.largeur <= b.largeur < 0x1_0000 && z.y + z.hauteur <= b.hauteur < 0x1_0000
    ensures m == Bloc(b, z)
  {
    m := EnTete(z);
    ghost var lus: seq<Pixel> := [];
    for row := 0 to z.hauteur
      invariant m == EnTete(z) + OctetsPixels(lus) && PremieresLignes(b, z, lus, row)
    {
      var start := Indice(b.largeur, z.x, z.y + row);
      LignesSuccessives(b.largeur, z.y + row, b.hauteur);
      var segment := b.pixels[start..start + z.largeur];
      RangeeSuivante(b, z, lus, row, segment, EnTete(z));
      lus := lus + segment;
      m := m + OctetsPixels(segment);
    }
    LignesCompletes(b, z, lus);
  }

  lemma RangeeSuivante(b: Bitmap, z: Zone, lus: seq<Pixel>, row: nat, segment: seq<Pixel>, tete: seq<octet>)
    requires b.BienForme() && z.x + z.largeur <= b.largeur && z.y + row < b.hauteur
    requires Indice(b.largeur, z.x, z.y + row) + z.largeur <= |b.pixels|
    requires segment == b.pixels[Indice(b.largeur, z.x, z.y + row)..Indice(b.largeur, z.x, z.y + row) + z.largeur]
    requires PremieresLignes(b, z, lus, row)
    ensures PremieresLignes(b, z, lus + segment, row + 1)
    ensures tete + OctetsPixels(lus) + OctetsPixels(segment) == tete + OctetsPixels(lus + segment)
  {
    LigneDuTampon(b, z.x, z.y + row, segment);
    LigneDePlus(b, z, lus, row, segment);
    OctetsPixelsConcat(lus, segment);
  }

  // ---------- Reading (front end) ----------

  datatype RectLu = RectLu(x: u16, y: u16, largeur: u16, hauteur: u16, decalage: nat)

  datatype Trame = Image(rects: seq<RectLu>, complete: bool) | Invalide | Autre(code: octet)

  /** Bytes taken by the pixels of a rectangle. */
  function Taille(l: nat, h: nat): nat {
    4 * Debut(l, h)
  }

  /** Reads a rectangle at `p` and the offset after it; `None` when it overruns the buffer. */
  function LireRect(o: seq<octet>, p: nat): (r: Option<(RectLu, nat)>)
    ensures r.Some? ==>
      p + 8 == r.value.0.decalage
      && r.value.1 == r.value.0.decalage + Taille(r.value.0.largeur, r.value.0.hauteur) <= |o|
  {
    if p + 8 > |o| then None else
      var l, h := U16(o, p + 4), U16(o, p + 6);
      var suite := p + 8 + Taille(l, h);
      if suite > |o| then None else Some((RectLu(U16(o, p), U16(o, p + 2), l, h, p + 8), suite))
  }

  /** Up to `n` rectangles from `p`: the non-empty ones, and whether all were there. */
  function LireRects(o: seq<octet>, p: nat, n: nat): (r: (seq<RectLu>, bool))
    decreases n
  {
    if n == 0 then ([], true) else
      match LireRect(o, p)
      case None => ([], false)
      case Some((rect, suite)) =>
        var r := LireRects(o, suite, n - 1);
        (if rect.largeur > 0 && rect.hauteur > 0 then [rect] + r.0 else r.0, r.1)
  }

  /** What the two image messages mean. */
  function DecodeImage(o: seq<octet>): Trame
    requires o != [] && (o[0] == 2 || o[0] == 13)
  {
    if o[0] == 2 then var r := LireRects(o, 1, 1); Image(r.0, r.1)
    else if |o| < 2 then Image([], false)
    else var r := LireRects(o, 2, o[1]); Image(r.0, r.1)
  }

  /** Decodes a message; every code but those of images is left to others. */
  method DecoderTrame(o: seq<octet>) returns (t: Trame)
    ensures t == if o == [] then Invalide else if o[0] == 2 || o[0] == 13 then DecodeImage(o) else Autre(o[0])
  {
    if o == [] {
      return Invalide;
    }
    if o[0] != 2 && o[0] != 13 {
      return Autre(o[0]);
    }
    var rects: seq<RectLu> := [];
    var p := if o[0] == 2 then 1 else 2;
    var n: int := if o[0] == 2 then 1 else if |o| >= 2 then o[1] else -1;
    if n < 0 {
      return Image(rects, false);
    }
    for i := 0 to n
      invariant DecodeImage(o) == var r := LireRects(o, p, n - i); Image(rects + r.0, r.1)
    {
      var lu := LireRect(o, p);
      if lu.None? {
        assert rects + [] == rects;
        return Image(rects, false);
      }
      if lu.value.0.largeur > 0 && lu.value.0.hauteur > 0 {
        assert rects + ([lu.value.0] + LireRects(o, lu.value.1, n - i - 1).0)
            == rects + [lu.value.0] + LireRects(o, lu.value.1, n - i - 1).0;
        rects := rects + [lu.value.0];
      }
      p := lu.value.1;
    }
    assert rects + [] == rects;
    return Image(rects, true);
  }

  /** Rectangles with pixels, whose ranges lie in the buffer after offset p, disjoint and increasing. */
  ghost predicate Surs(o: seq<octet>, p: nat, rs: seq<RectLu>) {
    && (forall k :: 0 <= k < |rs| ==>
          rs[k].largeur > 0 && rs[k].hauteur > 0
          && p + 8 <= rs[k].decalage && rs[k].decalage + Taille(rs[k].largeur, rs[k].hauteur) <= |o|)
    && (forall j, k :: 0 <= j < k < |rs| ==>
          rs[j].decalage + Taille(rs[j].largeur, rs[j].hauteur) + 8 <= rs[k].decalage)
  }

  lemma LireRectExact(o: seq<octet>, p: nat, r: RectLu, q: nat)
    requires LireRect(o, p) == Some((r, q))
    ensures r.decalage == p + 8 && q == p + 8 + Taille(r.largeur, r.hauteur) <= |o|
  {
  }

  lemma SursUnDePlus(o: seq<octet>, p: nat, r: RectLu, q: nat, suite: seq<RectLu>)
    requires r.decalage == p + 8 && q == p + 8 + Taille(r.largeur, r.hauteur) <= |o| && Surs(o, q, suite)
    ensures Surs(o, p, if r.largeur > 0 && r.hauteur > 0 then [r] + suite else suite)
  {
    if r.largeur > 0 && r.hauteur > 0 {
      var rs := [r] + suite;
      assert forall k :: 1 <= k < |rs| ==> rs[k] == suite[k - 1];
    }
  }

  /** Whatever the bytes: the pixels of every returned rectangle lie inside the buffer, after those of the rectangles
      before it, and none is empty. */
  lemma {:induction false} RectsSurs(o: seq<octet>, p: nat, n: nat)
    ensures |LireRects(o, p, n).0| <= n && Surs(o, p, LireRects(o, p, n).0)
    decreases n
  {
    if n > 0 {
      var lu := LireRect(o, p);
      if lu.Some? {
        RectsSurs(o, lu.value.1, n - 1);
        LireRectExact(o, p, lu.value.0, lu.value.1);
        SursUnDePlus(o, p, lu.value.0, lu.value.1, LireRects(o, lu.value.1, n - 1).0);
      }
    }
  }

  /** A whole rectangle lies between the offsets `a` and `b`. */
  predicate Occupe(o: seq<octet>, a: nat, b: nat) {
    a + 8 <= |o| && b == a + 8 + Taille(U16(o, a + 4), U16(o, a + 6)) <= |o|
  }

  /** Offsets p_0 = p, ..., p_n of `n` consecutive rectangles, each entirely inside the buffer. */
  ghost predicate Annonces(o: seq<octet>, p: nat, n: nat, ps: seq<nat>) {
    |ps| == n + 1 && ps[0] == p && forall k :: 0 <= k < n ==> Occupe(o, ps[k], ps[k + 1])
  }

  lemma {:induction false} CompleteAnnonces(o: seq<octet>, p: nat, n: nat) returns (ps: seq<nat>)
    requires LireRects(o, p, n).1
    ensures Annonces(o, p, n, ps)
    decreases n
  {
    if n == 0 {
      ps := [p];
    } else {
      var q := LireRect(o, p).value.1;
      assert Occupe(o, p, q);
      var suite := CompleteAnnonces(o, q, n - 1);
      ps := [p] + suite;
      forall k | 0 <= k < n ensures Occupe(o, ps[k], ps[k + 1]) {
        if k > 0 {
          assert Occupe(o, suite[k - 1], suite[k - 1 + 1]);
        }
      }
    }
  }

  lemma {:induction false} AnnoncesComplete(o: seq<octet>, p: nat, n: nat, ps: seq<nat>)
    requires Annonces(o, p, n, ps)
    ensures LireRects(o, p, n).1
    decreases n
  {
    if n > 0 {
      assert Occupe(o, ps[0], ps[0 + 1]);
      forall k | 0 <= k < n - 1 ensures Occupe(o, ps[1..][k], ps[1..][k + 1]) {
        assert Occupe(o, ps[k + 1], ps[k + 1 + 1]);
      }
      AnnoncesComplete(o, ps[1], n - 1, ps[1..]);
    }
  }

  /** `complete` holds if and only if all the announced rectangles are entirely in the buffer, one after the other. */
  lemma CompleteSsi(o: seq<octet>, p: nat, n: nat)
    ensures LireRects(o, p, n).1 <==> exists ps: seq<nat> :: Annonces(o, p, n, ps)
  {
    if LireRects(o, p, n).1 {
      var ps := CompleteAnnonces(o, p, n);
    }
    forall ps: seq<nat> | Annonces(o, p, n, ps) ensures LireRects(o, p, n).1 {
      AnnoncesComplete(o, p, n, ps);
    }
  }

  // ---------- Round trip ----------

  /** The rectangle read back from a block written at `p`. */
  function RectDe(z: Zone, p: nat): RectLu
    requires Petite(z)
  {
    RectLu(z.x, z.y, z.largeur, z.hauteur, p + 8)
  }

  lemma SousTranche(o: seq<octet>, p: nat, m: seq<octet>, i: nat, j: nat)
    requires p + |m| <= |o| && o[p..p + |m|] == m && i <= j <= |m|
    ensures o[p + i..p + j] == m[i..j]
  {
    forall k | 0 <= k < j - i ensures o[p + i..p + j][k] == m[i..j][k] {
      assert o[p..p + |m|][i + k] == o[p + (i + k)];
    }
  }

  lemma BlocRelu(o: seq<octet>, p: nat, b: Bitmap, z: Zone)
    requires Petite(z)
    requires EcritEn(o, p, Bloc(b, z))
    ensures |Bloc(b, z)| == 8 + Taille(z.largeur, z.hauteur)
    ensures LireRect(o, p) == Some((RectDe(z, p), p + |Bloc(b, z)|))
  {
    var m := Bloc(b, z);
    assert m[0..2] == Le16(z.x) && m[2..4] == Le16(z.y) && m[4..6] == Le16(z.largeur) && m[6..8] == Le16(z.hauteur);
    SousTranche(o, p, m, 0, 2);
    SousTranche(o, p, m, 2, 4);
    SousTranche(o, p, m, 4, 6);
    SousTranche(o, p, m, 6, 8);
    Le16Relu(o, p, z.x);
    Le16Relu(o, p + 2, z.y);
    Le16Relu(o, p + 4, z.largeur);
    Le16Relu(o, p + 6, z.hauteur);
  }

  lemma PixelDecale(o: seq<octet>, p: nat, m: seq<octet>, i: nat)
    requires p + |m| <= |o| && o[p..p + |m|] == m && i + 4 <= |m|
    ensures PixelEn(o, p + i) == PixelEn(m, i)
  {
    assert o[p + i] == m[i] && o[p + i + 1] == m[i + 1] && o[p + i + 2] == m[i + 2] && o[p + i + 3] == m[i + 3];
  }

  /** The pixels the front end finds at the offset of a rectangle are those of the image under it. */
  lemma PixelsRelus(o: seq<octet>, p: nat, b: Bitmap, z: Zone, i: nat, j: nat)
    requires Petite(z)
    requires EcritEn(o, p, Bloc(b, z))
    requires i < z.largeur && j < z.hauteur
    ensures p + 8 + 4 * Indice(z.largeur, i, j) + 4 <= |o|
    ensures PixelEn(o, p + 8 + 4 * Indice(z.largeur, i, j)) == b.At(z.x + i, z.y + j)
  {
    var d, m := Decoupe(b, z), Bloc(b, z);
    var k := Indice(z.largeur, i, j);
    LignesSuccessives(z.largeur, j, z.hauteur);
    PixelRelu(d.pixels, k);
    assert m[8..|m|] == OctetsPixels(d.pixels);
    SousTranche(o, p, m, 8, |m|);
    PixelDecale(o, p + 8, OctetsPixels(d.pixels), 4 * k);
    assert d.Contient(i, j) && d.At(i, j) == d.pixels[k];
  }

  /** A block byte by byte: left, top, width and height, low byte first, then red, green, blue and alpha of each
      pixel, row after row. */
  lemma BlocOctets(b: Bitmap, z: Zone, i: nat, j: nat)
    requires Petite(z) && i < z.largeur && j < z.hauteur
    ensures var m, q := Bloc(b, z), 8 + 4 * Indice(z.largeur, i, j);
            && q + 4 <= |m|
            && m[..8] == [z.x % 256, z.x / 256, z.y % 256, z.y / 256,
                          z.largeur % 256, z.largeur / 256, z.hauteur % 256, z.hauteur / 256]
            && Pixel(m[q], m[q + 1], m[q + 2], m[q + 3]) == b.At(z.x + i, z.y + j)
  {
    var m := Bloc(b, z);
    assert m[0..|m|] == m;
    PixelsRelus(m, 0, b, z, i, j);
  }

  /** The message of an image: code 2 and the block when one rectangle of the dirty zone touches the image, or else code
      13, how many do, and their blocks. */
  lemma MessageOctets(b: Bitmap, rs: seq<Rect>)
    requires b.largeur < 0x1_0000 && b.hauteur < 0x1_0000 && |rs| <= 255
    ensures var zs, m := Bornes(rs, b.largeur, b.hauteur), FramesMsg(b, rs);
            Petites(zs) && m == (if |zs| == 1 then [2] else [13, |zs|]) + Concat(ListeBlocs(b, zs))
  {
    var zs := Bornes(rs, b.largeur, b.hauteur);
    BornesPetites(rs, b.largeur, b.hauteur);
    if |zs| == 1 {
      ListeSuite(b, zs);
      assert Concat(ListeBlocs(b, zs)) == Bloc(b, zs[0]) + Concat([]);
    }
  }

  /** What a rectangle is said to cost is what its block weighs. */
  lemma CoutExact(b: Bitmap, r: Rect)
    requires r.left <= r.right < b.largeur < 0x1_0000 && r.top <= r.bottom < b.hauteur < 0x1_0000
    ensures Borne(r, b.largeur, b.hauteur).Some? && |Bloc(b, Borne(r, b.largeur, b.hauteur).value)| == Cout(r)
  {
    DebutProduit(r.right - r.left + 1, r.bottom - r.top + 1);
    assert |Decoupe(b, Borne(r, b.largeur, b.hauteur).value).pixels| == Aire(r);
  }
}
