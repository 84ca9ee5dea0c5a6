/** The byte and slot accounts of the graphics channel: exact, bounded and never negative in every reachable state. */
module Comptes {
  import opened Octets
  import opened Bitmaps
  import opened Surfaces
  import opened EgfxModele

  /** Bytes of the bitmaps stored under identifiers below `n`. */
  ghost function Somme(m: map<u16, Bitmap>, n: nat): nat
    requires n <= 0x1_0000
  {
    if n == 0 then 0 else Somme(m, n - 1) + OctetsEn(m, n - 1)
  }

  ghost function Total(m: map<u16, Bitmap>): nat {
    Somme(m, 0x1_0000)
  }

  lemma {:induction false} SommeDepose(m: map<u16, Bitmap>, id: u16, b: Bitmap, n: nat)
    requires n <= 0x1_0000
    ensures Somme(m[id := b], n) == Somme(m, n) + if id < n then b.Octets() - OctetsEn(m, id) else 0
  {
    if n > 0 {
      SommeDepose(m, id, b, n - 1);
    }
  }

  lemma {:induction false} SommeRetire(m: map<u16, Bitmap>, id: u16, n: nat)
    requires n <= 0x1_0000
    ensures Somme(m - {id}, n) == Somme(m, n) - if id < n then OctetsEn(m, id) else 0
  {
    if n > 0 {
      SommeRetire(m, id, n - 1);
    }
  }

  lemma {:induction false} UnDesTermes(m: map<u16, Bitmap>, id: u16, n: nat)
    requires id < n <= 0x1_0000
    ensures OctetsEn(m, id) <= Somme(m, n)
  {
    if id < n - 1 {
      UnDesTermes(m, id, n - 1);
    }
  }

  lemma {:induction false} SommeVide(n: nat)
    requires n <= 0x1_0000
    ensures Somme(map[], n) == 0
  {
    if n > 0 {
      SommeVide(n - 1);
    }
  }

  predicate TailleSure(l: nat, h: nat) {
    0 < l <= TAILLE_MAX && 0 < h <= TAILLE_MAX
  }

  ghost predicate SurfacesSaines(e: Etat) {
    && (forall id :: id in e.surfaces ==>
         e.surfaces[id].BienForme() && TailleSure(e.surfaces[id].largeur, e.surfaces[id].hauteur))
    && |e.surfaces| <= SURFACES_MAX
    && e.octetsSurfaces == Total(e.surfaces) <= OCTETS_SURFACES_MAX
  }

  ghost predicate CacheSain(e: Etat) {
    && (forall k :: k in e.cache ==> e.cache[k].BienForme() && TailleSure(e.cache[k].largeur, e.cache[k].hauteur))
    && |e.cache| <= EMPLACEMENTS_MAX
    && e.octetsCache == Total(e.cache) <= OCTETS_CACHE_MAX
  }

  /** Every account is exact and inside its bound; every announced screen size is safe. */
  ghost predicate Sain(e: Etat) {
    SurfacesSaines(e) && CacheSain(e) && (e.taille.Some? ==> TailleSure(e.taille.value.0, e.taille.value.1))
  }

  // ---------- Every step keeps it ----------

  lemma CreateSain(e: Etat, c: seq<octet>)
    requires Sain(e) && |c| >= 7
    ensures Sain(CreateSurface(e, c))
    ensures U16(c, 0) in e.surfaces ==>
      OctetsSurface(e.surfaces[U16(c, 0)].largeur, e.surfaces[U16(c, 0)].hauteur) <= e.octetsSurfaces
  {
    var id, l, h := U16(c, 0), U16(c, 2), U16(c, 4);
    SommeDepose(e.surfaces, id, Noire(l, h), 0x1_0000);
    UnDesTermes(e.surfaces, id, 0x1_0000);
    TailleApresAjout(e.surfaces, id, Noire(l, h));
  }

  lemma TailleApresAjout(m: map<u16, Bitmap>, id: u16, b: Bitmap)
    ensures |m[id := b]| == if id in m then |m| else |m| + 1
  {
    if id in m {
      assert m[id := b].Keys == m.Keys;
    } else {
      assert m[id := b].Keys == m.Keys + {id};
    }
    assert |m| == |m.Keys| && |m[id := b]| == |m[id := b].Keys|;
  }

  lemma TailleApresRetrait(m: map<u16, Bitmap>, id: u16)
    ensures |m - {id}| <= |m|
  {
    assert (m - {id}).Keys == m.Keys - {id};
    assert |m| == |m.Keys| && |m - {id}| == |(m - {id}).Keys|;
  }

  lemma DeleteSain(e: Etat, id: u16)
    requires Sain(e)
    ensures Sain(DeleteSurface(e, id))
    ensures id in e.surfaces ==> OctetsSurface(e.surfaces[id].largeur, e.surfaces[id].hauteur) <= e.octetsSurfaces
  {
    SommeRetire(e.surfaces, id, 0x1_0000);
    UnDesTermes(e.surfaces, id, 0x1_0000);
    TailleApresRetrait(e.surfaces, id);
  }

  lemma DeposeSain(e: Etat, k: u16, p: Bitmap)
    requires Sain(e) && p.BienForme() && TailleSure(p.largeur, p.hauteur)
    ensures Sain(Depose(e, k, p)) && OctetsEn(e.cache, k) <= e.octetsCache
  {
    SommeDepose(e.cache, k, p, 0x1_0000);
    UnDesTermes(e.cache, k, 0x1_0000);
    TailleApresAjout(e.cache, k, p);
  }

  lemma OublieSain(e: Etat, k: u16)
    requires Sain(e)
    ensures Sain(Oublie(e, k)) && OctetsEn(e.cache, k) <= e.octetsCache
  {
    SommeRetire(e.cache, k, 0x1_0000);
    UnDesTermes(e.cache, k, 0x1_0000);
    TailleApresRetrait(e.cache, k);
  }

  /** A drawing command keeps the size of the surface it draws on. */
  lemma DessinMemeTaille(e: Etat, p: Pdu, decode: Decodage)
    requires DessinDe(e, p, decode).Some?
    ensures var d := DessinDe(e, p, decode).value;
            && d.id in e.surfaces
            && d.image.largeur == e.surfaces[d.id].largeur && d.image.hauteur == e.surfaces[d.id].hauteur
            && (e.surfaces[d.id].BienForme() ==> d.image.BienForme())
  {
  }

  lemma DessineSain(e: Etat, p: Pdu, decode: Decodage)
    requires Sain(e)
    ensures Sain(Dessine(e, p, decode))
  {
    var d := DessinDe(e, p, decode);
    if d.Some? {
      DessinMemeTaille(e, p, decode);
      AppliqueSain(e, d.value);
    }
  }

  lemma AppliqueSain(e: Etat, d: Dessin)
    requires Sain(e) && d.id in e.surfaces && d.image.BienForme()
    requires d.image.largeur == e.surfaces[d.id].largeur && d.image.hauteur == e.surfaces[d.id].hauteur
    ensures Sain(Applique(e, d))
  {
    SommeDepose(e.surfaces, d.id, d.image, 0x1_0000);
    TailleApresAjout(e.surfaces, d.id, d.image);
  }

  lemma GereTableSain(e: Etat, p: Pdu)
    requires Sain(e)
    ensures Sain(GereTable(e, p))
  {
    if p.id == CMD_CREATE_SURFACE && |p.charge| >= 7 {
      CreateSain(e, p.charge);
    } else if p.id == CMD_DELETE_SURFACE && |p.charge| >= 2 {
      DeleteSain(e, U16(p.charge, 0));
    }
  }

  /** The accounts only concern the surfaces, the cache, their counters and the announced size. */
  lemma MemesComptes(e: Etat, e': Etat)
    requires Sain(e)
    requires e'.surfaces == e.surfaces && e'.octetsSurfaces == e.octetsSurfaces
    requires e'.cache == e.cache && e'.octetsCache == e.octetsCache
    requires e'.taille.Some? ==> e'.taille == e.taille || TailleSure(e'.taille.value.0, e'.taille.value.1)
    ensures Sain(e')
  {
  }

  lemma GereResteSain(e: Etat, p: Pdu)
    requires Sain(e)
    ensures Sain(GereReste(e, p))
  {
    var c, n := p.charge, |p.charge|;
    if p.id == CMD_SURFACE_TO_CACHE && n >= 20 {
      SurfaceVersCacheSain(e, c);
    } else if p.id == CMD_EVICT_CACHE_ENTRY && n >= 2 {
      OublieSain(e, U16(c, 0));
    } else {
      GereResteSansCache(e, p);
      MemesComptes(e, GereReste(e, p));
    }
  }

  lemma GereResteSansCache(e: Etat, p: Pdu)
    requires p.id == CMD_SURFACE_TO_CACHE ==> |p.charge| < 20
    requires p.id == CMD_EVICT_CACHE_ENTRY ==> |p.charge| < 2
    ensures var e' := GereReste(e, p);
            && e'.surfaces == e.surfaces && e'.octetsSurfaces == e.octetsSurfaces
            && e'.cache == e.cache && e'.octetsCache == e.octetsCache
            && (e'.taille == e.taille || (e'.taille.Some? && TailleSure(e'.taille.value.0, e'.taille.value.1)))
  {
  }

  /** No PDU, however malformed, and no decoder answer can break the accounts. */
  lemma TraiteSain(e: Etat, p: Pdu, decode: Decodage)
    requires Sain(e)
    ensures Sain(Traite(e, p, decode))
  {
    if EstDessin(p) {
      DessineSain(e, p, decode);
    } else if EstTable(p) {
      GereTableSain(e, p);
    } else {
      GereResteSain(e, p);
    }
  }

  lemma SurfaceVersCacheSain(e: Etat, c: seq<octet>)
    requires Sain(e) && |c| >= 20
    ensures Sain(SurfaceVersCache(e, c))
  {
    var m := Extrait(e, U16(c, 0), DepuisBords(c, 12));
    if m.Some? {
      DeposeSain(e, U16(c, 10), m.value);
    }
  }

  /** In every state reachable from the empty one by any list of PDUs the accounts are exact and bounded. */
  lemma {:induction false} ToujoursSain(pdus: seq<Pdu>, decodes: nat -> Decodage)
    ensures Sain(TraiteTous(INITIAL, pdus, decodes).0)
  {
    if pdus == [] {
      SommeVide(0x1_0000);
    } else {
      ToujoursSain(pdus[..|pdus| - 1], decodes);
      TraiteSain(TraiteTous(INITIAL, pdus[..|pdus| - 1], decodes).0, pdus[|pdus| - 1], decodes(|pdus| - 1));
    }
  }
}
