/** A whole session, from the first PDU, that every screen shows wrong. */
module Cisaillement {
  import opened Octets
  import opened Bitmaps
  import opened EgfxModele
  import opened Dessins
  import opened Miroir

  /** Surface 1, two pixels by two. */
  function CreerDeux(): Pdu {
    Pdu(CMD_CREATE_SURFACE, Le16(1) + Le16(2) + Le16(2) + [0x20])
  }

  /** ... placed on the top row of the screen, from column `x`. */
  function PlacerEn(x: u16): Pdu {
    Pdu(CMD_MAP_SURFACE_TO_OUTPUT, Le16(1) + Le16(0) + Le32(x) + Le32(0))
  }

  /** ... and drawn whole, uncompressed: black, but for the first pixel of its second row, which is white. */
  function DessinerDeux(): Pdu {
    // surface, codec and format; left, top, right and bottom; length; then two rows of two pixels
    Pdu(CMD_WIRE_TO_SURFACE_1,
        [1, 0, 0, 0, 0x20] + [0, 0, 0, 0, 2, 0, 2, 0] + [16, 0, 0, 0]
          + [0, 0, 0, 0, 0, 0, 0, 0] + [255, 255, 255, 0, 0, 0, 0, 0])
  }

  function SessionTemoin(x: u16): seq<Evenement> {
    [Recu(CreerDeux(), Echec), Recu(PlacerEn(x), Echec), Recu(DessinerDeux(), Echec), Peinture]
  }

  /** The state once surface 1 is made and placed. */
  function Placee(x: u16): Etat {
    INITIAL.(surfaces := map[1 := Noire(2, 2)], octetsSurfaces := 16, origines := map[1 := (x, 0)])
  }

  lemma DeuxPdus(x: u16)
    ensures Traite(Traite(INITIAL, CreerDeux(), Echec), PlacerEn(x), Echec) == Placee(x)
  {
    var c, m := CreerDeux(), PlacerEn(x);
    assert U16(c.charge, 0) == 1 && U16(c.charge, 2) == 2 && U16(c.charge, 4) == 2;
    assert OctetsSurface(2, 2) == 16;
    assert Traite(INITIAL, c, Echec) == INITIAL.(surfaces := map[1 := Noire(2, 2)], octetsSurfaces := 16);
    assert U16(m.charge, 0) == 1 && U32(m.charge, 4) == x && U32(m.charge, 8) == 0;
  }

  lemma TroisiemeLu()
    ensures var c := DessinerDeux().charge;
            && |c| == 33 && U16(c, 0) == 1 && U16(c, 2) == CODEC_NON_COMPRESSE && U32(c, 13) == 16
            && U16(c, 5) == 0 && U16(c, 7) == 0 && U16(c, 9) == 2 && U16(c, 11) == 2
            && c[21] == 0 && c[22] == 0 && c[23] == 0 && c[25] == 255 && c[26] == 255 && c[27] == 255
  {
  }

  /** An uncompressed image of the whole of surface 1. */
  ghost predicate WireDe(e: Etat, c: seq<octet>) {
    && 1 in e.surfaces && e.surfaces[1] == Noire(2, 2)
    && |c| == 33 && U16(c, 0) == 1 && U16(c, 2) == CODEC_NON_COMPRESSE && U32(c, 13) == 16
    && U16(c, 5) == 0 && U16(c, 7) == 0 && U16(c, 9) == 2 && U16(c, 11) == 2
  }

  /** Pixel (px, py) of the image drawn, from the bytes sent. */
  lemma PixelEnvoye(e: Etat, c: seq<octet>, px: nat, py: nat)
    requires WireDe(e, c) && px < 2 && py < 2
    ensures WireToSurface1(e, c, Echec).Some?
    ensures WireToSurface1(e, c, Echec).value.image.At(px, py)
         == var k := 17 + 4 * Indice(2, px, py); Pixel(c[k + 2], c[k + 1], c[k], 0xFF)
  {
    WireAccepte(e, c);
    NonCompresseExact(e, c, Echec, px, py);
    assert Debut(2, 1) == 2 && Debut(2, 0) == 0;
  }

  lemma WireAccepte(e: Etat, c: seq<octet>)
    requires WireDe(e, c)
    ensures WireToSurface1(e, c, Echec).Some?
    ensures var d := WireToSurface1(e, c, Echec).value;
            && d.id == 1 && d.zones == [Zone(0, 0, 2, 2)]
            && d.image.largeur == 2 && d.image.hauteur == 2 && d.image.BienForme()
  {
    assert Debut(2, 1) == 2 && Debut(2, 2) == 4;
    NonCompresseAccepte(e, c, Echec);
  }

  /** The image is drawn as sent. */
  lemma TroisiemePdu(x: u16)
    ensures var d := DessinDe(Placee(x), DessinerDeux(), Echec);
            && d.Some? && d.value.id == 1 && d.value.zones == [Zone(0, 0, 2, 2)]
            && d.value.image.largeur == 2 && d.value.image.hauteur == 2 && d.value.image.BienForme()
            && d.value.image.At(1, 0) == Pixel(0, 0, 0, 255) && d.value.image.At(0, 1) == Pixel(255, 255, 255, 255)
  {
    TroisiemeLu();
    DeuxPixels(Placee(x), DessinerDeux().charge);
  }

  lemma DeuxPixels(e: Etat, c: seq<octet>)
    requires WireDe(e, c) && c[21] == 0 && c[22] == 0 && c[23] == 0 && c[25] == 255 && c[26] == 255 && c[27] == 255
    ensures var d := WireToSurface1(e, c, Echec);
            && d.Some? && d.value.id == 1 && d.value.zones == [Zone(0, 0, 2, 2)]
            && d.value.image.largeur == 2 && d.value.image.hauteur == 2 && d.value.image.BienForme()
            && d.value.image.At(1, 0) == Pixel(0, 0, 0, 255) && d.value.image.At(0, 1) == Pixel(255, 255, 255, 255)
  {
    WireAccepte(e, c);
    PixelNoir(e, c);
    PixelBlanc(e, c);
  }

  lemma PixelNoir(e: Etat, c: seq<octet>)
    requires WireDe(e, c) && WireToSurface1(e, c, Echec).Some? && c[21] == 0 && c[22] == 0 && c[23] == 0
    ensures WireToSurface1(e, c, Echec).value.image.At(1, 0) == Pixel(0, 0, 0, 255)
  {
    PixelEnvoye(e, c, 1, 0);
    assert Indice(2, 1, 0) == 1;
  }

  lemma PixelBlanc(e: Etat, c: seq<octet>)
    requires WireDe(e, c) && WireToSurface1(e, c, Echec).Some? && c[25] == 255 && c[26] == 255 && c[27] == 255
    ensures WireToSurface1(e, c, Echec).value.image.At(0, 1) == Pixel(255, 255, 255, 255)
  {
    PixelEnvoye(e, c, 0, 1);
    assert Indice(2, 0, 1) == 2;
  }

  /** Only the first column of the image is on the screen; its rows are read one pixel wide. */
  lemma PeinteCisaillee(ecran: Bitmap, b: Bitmap)
    requires Ecran(ecran) && ecran.largeur >= 1 && ecran.hauteur >= 2
    requires b.BienForme() && b.largeur == 2 && b.hauteur == 2
    ensures PeintRgba(ecran, ecran.largeur - 1, 0, 2, 2, b.pixels).At(ecran.largeur - 1, 1) == b.At(1, 0)
  {
    var z := Visible(ecran, ecran.largeur - 1, 0, 2, 2);
    assert z == Zone(ecran.largeur - 1, 0, 1, 2) && z.Contient(ecran.largeur - 1, 1);
    assert Debut(1, 1) == 1 && Debut(2, 0) == 0 && Debut(2, 2) == 4;
  }

  /** On every screen of at least one column and two rows, three PDUs received from the start are painted wrong: one
      column of the surface is on the screen, and its second pixel does not show as the surface has it. */
  lemma SessionCisaillee(ecran: Bitmap)
    requires Ecran(ecran) && ecran.largeur >= 1 && ecran.hauteur >= 2
    ensures var f := SuitTous(Session(INITIAL, ecran), SessionTemoin(ecran.largeur - 1));
            && f.e.trames == [] && 1 in f.e.surfaces && Origine(f.e, 1) == (ecran.largeur - 1, 0)
            && f.e.surfaces[1].Contient(0, 1) && f.image.Contient(ecran.largeur - 1, 1)
            && f.image.At(ecran.largeur - 1, 1) != f.e.surfaces[1].At(0, 1)
  {
    var x, s := ecran.largeur - 1, Session(INITIAL, ecran);
    QuatreEvenements(s, SessionTemoin(x));
    DeuxPdus(x);
    TroisiemePdu(x);
    DessinPeint(ecran, DessinDe(Placee(x), DessinerDeux(), Echec).value);
  }

  lemma DessinPeint(ecran: Bitmap, d: Dessin)
    requires Ecran(ecran) && ecran.largeur >= 1 && ecran.hauteur >= 2
    requires d.id == 1 && d.zones == [Zone(0, 0, 2, 2)] && d.image.BienForme()
    requires d.image.largeur == 2 && d.image.hauteur == 2
    ensures var e := Applique(Placee(ecran.largeur - 1), d);
            && e.surfaces == map[1 := d.image] && e.origines == map[1 := (ecran.largeur - 1, 0)]
            && Affiche(e, ecran).At(ecran.largeur - 1, 1) == d.image.At(1, 0)
  {
    AppliqueEtat(Placee(ecran.largeur - 1), d);
    DessinAffiche(ecran, d, ecran.largeur - 1);
    PeinteCisaillee(ecran, d.image);
  }

  lemma DessinAffiche(ecran: Bitmap, d: Dessin, x: u16)
    requires d.id == 1 && d.zones == [Zone(0, 0, 2, 2)] && d.image.BienForme()
    requires d.image.largeur == 2 && d.image.hauteur == 2
    ensures Affiche(Applique(Placee(x), d), ecran) == PeintRgba(ecran, x, 0, 2, 2, d.image.pixels)
  {
    AppliqueAffiche(Placee(x), ecran, d);
    assert Affiche(Placee(x), ecran) == ecran;
    EntierePubliee(ecran, d.image, x, 0);
  }

  lemma QuatreEvenements(s: Session, evs: seq<Evenement>)
    requires |evs| == 4
    ensures SuitTous(s, evs) == Suit(Suit(Suit(Suit(s, evs[0]), evs[1]), evs[2]), evs[3])
  {
    assert evs[..3][..2] == evs[..2] && evs[..2][..1] == evs[..1] && evs[..1][..0] == [];
    assert SuitTous(s, evs[..1]) == Suit(s, evs[0]);
    assert SuitTous(s, evs[..2]) == Suit(Suit(s, evs[0]), evs[1]);
  }
}
