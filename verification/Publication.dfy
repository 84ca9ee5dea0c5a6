/** How much one call to `process` can push to the display queue. */
module Publication {
  import opened Octets
  import opened Bitmaps
  import opened Surfaces
  import opened EgfxModele
  import opened Comptes

  ghost function OctetsTrames(ts: seq<Trame>): nat {
    if ts == [] then 0 else OctetsTrames(ts[..|ts| - 1]) + ts[|ts| - 1].image.Octets()
  }

  /** The largest possible frame: a whole surface of 8192 by 8192 pixels. */
  const TRAME_MAX := 256 * 1024 * 1024

  lemma {:induction false} OctetsConcat(a: seq<Trame>, b: seq<Trame>)
    ensures OctetsTrames(a + b) == OctetsTrames(a) + OctetsTrames(b)
  {
    if b == [] {
      assert a + b == a;
    } else {
      var n := |b| - 1;
      OctetsConcat(a, b[..n]);
      assert (a + b)[..|a + b| - 1] == a + b[..n];
    }
  }

  lemma {:induction false} DebutCroissant(w: nat, h: nat, w': nat, h': nat)
    requires w <= w' && h <= h'
    ensures Debut(w, h) <= Debut(w', h')
    decreases h'
  {
    if h' > 0 {
      DebutCroissant(w, if h == 0 then 0 else h - 1, w', h' - 1);
    }
  }

  /** A zone of a safe surface is at most 256 MiB. */
  lemma UneTrame(b: Bitmap, z: Zone)
    requires TailleSure(b.largeur, b.hauteur) && z.Rognee(b.largeur, b.hauteur).Some?
    ensures 0 < Decoupe(b, z.Rognee(b.largeur, b.hauteur).value).Octets() <= TRAME_MAX
  {
    var r := z.Rognee(b.largeur, b.hauteur).value;
    DebutCroissant(r.largeur, r.hauteur, TAILLE_MAX, TAILLE_MAX);
    DebutCroissant(1, 1, r.largeur, r.hauteur);
    DebutProduit(TAILLE_MAX, TAILLE_MAX);
  }

  /** One `publier`: the counter grows by exactly the bytes pushed, at most one frame per zone, one zone past the
      budget at most. */
  lemma {:induction false} PublieZonesBornee(b: Bitmap, ox: nat, oy: nat, zones: seq<Zone>, octets: nat)
    requires TailleSure(b.largeur, b.hauteur)
    ensures var r := PublieZones(b, ox, oy, zones, octets);
            && r.1 == octets + OctetsTrames(r.0) && |r.0| <= |zones|
            && (octets < OCTETS_PUBLIES_MAX + TRAME_MAX ==> r.1 < OCTETS_PUBLIES_MAX + TRAME_MAX)
            && (octets >= OCTETS_PUBLIES_MAX ==> r.0 == [])
  {
    if zones != [] && octets < OCTETS_PUBLIES_MAX {
      match zones[0].Rognee(b.largeur, b.hauteur)
      case None => PublieZonesBornee(b, ox, oy, zones[1..], octets);
      case Some(z) =>
        UneTrame(b, zones[0]);
        var t := TrameDe(b, ox, oy, z);
        PublieZonesBornee(b, ox, oy, zones[1..], octets + t.image.Octets());
        OctetsConcat([t], PublieZones(b, ox, oy, zones[1..], octets + t.image.Octets()).0);
        assert [t][..0] == [];
        assert OctetsTrames([t]) == t.image.Octets();
    }
  }

  /** From a zero counter, the first zone that touches the surface becomes the first frame, however large. */
  lemma {:induction false} PremiereZonePasse(b: Bitmap, ox: nat, oy: nat, zones: seq<Zone>, i: nat)
    requires i < |zones| && zones[i].Rognee(b.largeur, b.hauteur).Some?
    requires forall j :: 0 <= j < i ==> zones[j].Rognee(b.largeur, b.hauteur).None?
    ensures var r := PublieZones(b, ox, oy, zones, 0).0;
            r != [] && r[0] == TrameDe(b, ox, oy, zones[i].Rognee(b.largeur, b.hauteur).value)
  {
    if i > 0 {
      assert zones[0].Rognee(b.largeur, b.hauteur).None?;
      PremiereZonePasse(b, ox, oy, zones[1..], i - 1);
    }
  }

  ghost predicate Borne(e: Etat) {
    e.octetsPublies < OCTETS_PUBLIES_MAX + TRAME_MAX
  }

  /** From `e` to `e'`, at most `n` frames were appended to the queue and the counter grew by their exact size. */
  ghost predicate Pousse(e: Etat, e': Etat, n: nat) {
    && |e.trames| <= |e'.trames| <= |e.trames| + n
    && e'.trames[..|e.trames|] == e.trames
    && e'.octetsPublies == e.octetsPublies + OctetsTrames(e'.trames[|e.trames|..])
  }

  lemma PousseRien(e: Etat, e': Etat, n: nat)
    requires e'.trames == e.trames && e'.octetsPublies == e.octetsPublies
    ensures Pousse(e, e', n)
  {
    assert e'.trames[|e.trames|..] == [] && e'.trames[..|e.trames|] == e.trames;
    assert OctetsTrames([]) == 0;
  }

  lemma PousseEncore(e: Etat, m: Etat, e': Etat, n: nat, k: nat)
    requires Pousse(e, m, n) && Pousse(m, e', k)
    ensures Pousse(e, e', n + k)
  {
    var i := |e.trames|;
    OctetsConcat(m.trames[i..], e'.trames[|m.trames|..]);
    assert e'.trames[i..] == m.trames[i..] + e'.trames[|m.trames|..];
    assert e'.trames[..i] == e'.trames[..|m.trames|][..i];
  }

  lemma GereNePubliePas(e: Etat, p: Pdu)
    ensures Gere(e, p).trames == e.trames && Gere(e, p).octetsPublies == e.octetsPublies
  {
  }

  lemma AppliquePublie(e: Etat, d: Dessin)
    requires Borne(e) && TailleSure(d.image.largeur, d.image.hauteur)
    ensures Borne(Applique(e, d)) && Pousse(e, Applique(e, d), RECTS_MAX)
  {
    var o := Origine(e, d.id);
    PublieZonesBornee(d.image, o.0, o.1, APublier(d.zones), e.octetsPublies);
    var r := PublieZones(d.image, o.0, o.1, APublier(d.zones), e.octetsPublies);
    assert Applique(e, d).trames == e.trames + r.0;
    assert (e.trames + r.0)[|e.trames|..] == r.0;
  }

  /** One PDU adds at most RECTS_MAX frames, counted to the byte. */
  lemma TraitePublie(e: Etat, p: Pdu, decode: Decodage)
    requires Sain(e) && Borne(e)
    ensures Borne(Traite(e, p, decode)) && Pousse(e, Traite(e, p, decode), RECTS_MAX)
  {
    if !EstDessin(p) {
      GereNePubliePas(e, p);
      PousseRien(e, Gere(e, p), RECTS_MAX);
    } else if DessinDe(e, p, decode).Some? {
      DessinMemeTaille(e, p, decode);
      AppliquePublie(e, DessinDe(e, p, decode).value);
    } else {
      PousseRien(e, e, RECTS_MAX);
    }
  }

  /** Whatever a segment holds, one call pushes less than 64 MiB plus one frame, and the counter is exactly what it
      pushed. */
  lemma {:induction false} AppelBorne(e: Etat, pdus: seq<Pdu>, decodes: nat -> Decodage)
    requires Sain(e) && e.octetsPublies == 0
    ensures Sain(TraiteTous(e, pdus, decodes).0)
    ensures Borne(TraiteTous(e, pdus, decodes).0)
    ensures Pousse(e, TraiteTous(e, pdus, decodes).0, RECTS_MAX * |pdus|)
  {
    if pdus == [] {
      PousseRien(e, e, 0);
    } else {
      var k := |pdus| - 1;
      AppelBorne(e, pdus[..k], decodes);
      var m := TraiteTous(e, pdus[..k], decodes).0;
      TraiteSain(m, pdus[k], decodes(k));
      TraitePublie(m, pdus[k], decodes(k));
      PousseEncore(e, m, Traite(m, pdus[k], decodes(k)), RECTS_MAX * k, RECTS_MAX);
    }
  }

  /** The first frame a PDU pushes, when its call has pushed none before. */
  lemma PremiereTrame(e: Etat, p: Pdu, decode: Decodage, i: nat)
    requires e.octetsPublies == 0 && EstDessin(p) && DessinDe(e, p, decode).Some?
    requires PremiereVisible(DessinDe(e, p, decode).value, i)
    ensures PremierePousse(e.trames, Traite(e, p, decode).trames, TrameVisible(e, DessinDe(e, p, decode).value, i))
  {
    var d := DessinDe(e, p, decode).value;
    var o, zones := Origine(e, d.id), APublier(d.zones);
    PremiereZonePasse(d.image, o.0, o.1, zones, i);
    assert Traite(e, p, decode).trames == e.trames + PublieZones(d.image, o.0, o.1, zones, 0).0;
  }

  /** The zone at rank i is the first of those to publish that touches the surface. */
  ghost predicate PremiereVisible(d: Dessin, i: nat) {
    var zones := APublier(d.zones);
    && i < |zones| && zones[i].Rognee(d.image.largeur, d.image.hauteur).Some?
    && forall j :: 0 <= j < i ==> zones[j].Rognee(d.image.largeur, d.image.hauteur).None?
  }

  ghost function TrameVisible(e: Etat, d: Dessin, i: nat): Trame
    requires PremiereVisible(d, i)
  {
    var o := Origine(e, d.id);
    TrameDe(d.image, o.0, o.1, APublier(d.zones)[i].Rognee(d.image.largeur, d.image.hauteur).value)
  }

  /** The queue grew, and `t` is the first frame it gained. */
  ghost predicate PremierePousse(avant: seq<Trame>, apres: seq<Trame>, t: Trame) {
    |avant| < |apres| && avant == apres[..|avant|] && apres[|avant|] == t
  }

  lemma PousseGarde(trames: seq<Trame>, m: Etat, f: Etat, t: Trame, n: nat)
    requires PremierePousse(trames, m.trames, t) && Pousse(m, f, n)
    ensures PremierePousse(trames, f.trames, t)
  {
    assert f.trames[..|trames|] == m.trames[..|trames|];
    assert f.trames[..|m.trames|][|trames|] == m.trames[|trames|];
  }

  /** A call that has pushed nothing has spent nothing. */
  lemma RienPousseRienCompte(e: Etat, m: Etat, n: nat)
    requires Pousse(e, m, n) && m.trames == e.trames
    ensures m.octetsPublies == e.octetsPublies
  {
    assert m.trames[|e.trames|..] == [] && OctetsTrames([]) == 0;
  }

  /** A drawing that publishes `t` first. */
  ghost predicate PublieDAbord(m: Etat, p: Pdu, decode: Decodage, t: Trame) {
    && EstDessin(p) && DessinDe(m, p, decode).Some?
    && var d := DessinDe(m, p, decode).value;
       exists i: nat :: PremiereVisible(d, i) && t == TrameVisible(m, d, i)
  }

  lemma DessinPousse(m: Etat, p: Pdu, decode: Decodage, t: Trame)
    requires m.octetsPublies == 0 && PublieDAbord(m, p, decode, t)
    ensures PremierePousse(m.trames, Traite(m, p, decode).trames, t)
  {
    var d := DessinDe(m, p, decode).value;
    var i: nat :| PremiereVisible(d, i) && t == TrameVisible(m, d, i);
    PremiereTrame(m, p, decode, i);
  }

  lemma EncorePremiere(trames: seq<Trame>, m: Etat, p: Pdu, decode: Decodage, t: Trame)
    requires Sain(m) && Borne(m) && PremierePousse(trames, m.trames, t)
    ensures PremierePousse(trames, Traite(m, p, decode).trames, t)
  {
    TraitePublie(m, p, decode);
    PousseGarde(trames, m, Traite(m, p, decode), t, RECTS_MAX);
  }

  /** What a list of PDUs does is what its last does to what the others did. */
  lemma DernierPdu(e: Etat, pdus: seq<Pdu>, decodes: nat -> Decodage, avant: Etat)
    requires pdus != [] && avant == TraiteTous(e, pdus[..|pdus| - 1], decodes).0
    ensures TraiteTous(e, pdus, decodes).0 == Traite(avant, pdus[|pdus| - 1], decodes(|pdus| - 1))
  {
  }

  /** The first drawing of a call that publishes anything: before it, nothing was pushed nor spent. */
  lemma PremierDessin(e: Etat, debut: seq<Pdu>, decodes: nat -> Decodage, m: Etat, p: Pdu, decode: Decodage, t: Trame)
    requires Sain(e) && e.octetsPublies == 0 && m == TraiteTous(e, debut, decodes).0 && m.trames == e.trames
    requires PublieDAbord(m, p, decode, t)
    ensures PremierePousse(e.trames, Traite(m, p, decode).trames, t)
  {
    AppelBorne(e, debut, decodes);
    RienPousseRienCompte(e, m, RECTS_MAX * |debut|);
    DessinPousse(m, p, decode, t);
  }

  lemma UnPduDePlus(e: Etat, pdus: seq<Pdu>, decodes: nat -> Decodage, k: nat, m: Etat)
    requires k < |pdus| && m == TraiteTous(e, pdus[..k], decodes).0
    ensures TraiteTous(e, pdus[..k + 1], decodes).0 == Traite(m, pdus[k], decodes(k))
  {
    var jusque := pdus[..k + 1];
    assert jusque[..k] == pdus[..k];
    DernierPdu(e, jusque, decodes, m);
  }

  /** What stands first among the frames of a call still does whatever PDUs follow. */
  lemma {:induction false} PremiereReste(e: Etat, pdus: seq<Pdu>, decodes: nat -> Decodage, k: nat, t: Trame)
    requires Sain(e) && e.octetsPublies == 0 && k <= |pdus|
    requires PremierePousse(e.trames, TraiteTous(e, pdus[..k], decodes).0.trames, t)
    ensures PremierePousse(e.trames, TraiteTous(e, pdus, decodes).0.trames, t)
  {
    if k == |pdus| {
      assert pdus[..k] == pdus;
    } else {
      var n := |pdus| - 1;
      var debut := pdus[..n];
      assert debut[..k] == pdus[..k];
      PremiereReste(e, debut, decodes, k, t);
      AppelBorne(e, debut, decodes);
      var avant := TraiteTous(e, debut, decodes).0;
      EncorePremiere(e.trames, avant, pdus[n], decodes(n), t);
      DernierPdu(e, pdus, decodes, avant);
    }
  }

  /** In a whole call: the first zone that touches its surface, in the first drawing that has one, is published, and
      still stands first among the frames of the call when it ends, whatever follows. */
  lemma PremiereZoneDeLAppel(e: Etat, pdus: seq<Pdu>, decodes: nat -> Decodage, k: nat, m: Etat, t: Trame)
    requires Sain(e) && e.octetsPublies == 0 && k < |pdus|
    requires m == TraiteTous(e, pdus[..k], decodes).0 && m.trames == e.trames
    requires PublieDAbord(m, pdus[k], decodes(k), t)
    ensures PremierePousse(e.trames, TraiteTous(e, pdus, decodes).0.trames, t)
  {
    PremierDessin(e, pdus[..k], decodes, m, pdus[k], decodes(k), t);
    UnPduDePlus(e, pdus, decodes, k, m);
    PremiereReste(e, pdus, decodes, k + 1, t);
  }
}
