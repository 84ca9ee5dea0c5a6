/** The transfer panel: transfer objects started, ended, cancelled and dismissed in place, each with its row. */
module Panneaux {
  import opened Transferts
  import opened Lignes
  import opened Suites

  class Transfert {
    const id: nat
    var etat: EtatTransfert

    constructor (id: nat)
      ensures this.id == id && etat == Attente
    {
      this.id, etat := id, Attente;
    }
  }

  function Fiches(file: seq<Transfert>): (r: seq<Fiche>)
    reads file
    ensures |r| == |file| && forall i :: 0 <= i < |r| ==> r[i] == Fiche(file[i].id, file[i].etat)
  {
    seq(|file|, i requires 0 <= i < |file| reads file => Fiche(file[i].id, file[i].etat))
  }

  function Ids(file: seq<Transfert>): (r: seq<nat>)
    ensures |r| == |file| && forall i :: 0 <= i < |r| ==> r[i] == file[i].id
  {
    seq(|file|, i requires 0 <= i < |file| => file[i].id)
  }

  // ---------- Starting transfers ----------

  lemma {:induction false} PartantsPleins(f: seq<Fiche>, places: nat, k: nat)
    requires k <= |f| && |Partants(f[..k], places)| >= places
    ensures Partants(f, places) == Partants(f[..k], places)
  {
    if k < |f| {
      assert f[..|f| - 1][..k] == f[..k];
      PartantsPleins(f[..|f| - 1], places, k);
    } else {
      assert f[..k] == f;
    }
  }

  /** In a queue without duplicates, exactly the transfers chosen to start are started. */
  lemma {:induction false} LanceSsi(f: seq<Fiche>, places: nat, i: nat)
    requires Ordonnee(f) && i < |f|
    ensures Lance(f, places)[i] == if f[i].id in Partants(f, places) then Fiche(f[i].id, EnCours) else f[i]
  {
    var n := |f| - 1;
    PartantsOrdonnes(f[..n], places);
    forall id | id in Partants(f[..n], places) ensures id < f[n].id {
      var j :| 0 <= j < n && f[..n][j] == Fiche(id, Attente);
      assert f[j].id < f[n].id;
    }
    if i < n {
      LanceSsi(f[..n], places, i);
    }
  }

  method CompteEnCours(file: seq<Transfert>) returns (enCours: nat)
    ensures enCours == Actifs(Fiches(file))
  {
    enCours := 0;
    ghost var f := Fiches(file);
    for k := 0 to |file|
      invariant enCours == Actifs(f[..k])
    {
      assert f[..k + 1][..k] == f[..k];
      if file[k].etat == EnCours {
        enCours := enCours + 1;
      }
    }
    assert f[..|f|] == f;
  }

  lemma PartantsSuivant(f: seq<Fiche>, places: nat, k: nat)
    requires k < |f|
    ensures var p := Partants(f[..k], places);
            Partants(f[..k + 1], places) == if f[k].etat == Attente && |p| < places then p + [f[k].id] else p
  {
    assert f[..k + 1][..k] == f[..k];
  }

  /** The transfers that may start now: a scan of the queue that stops when three would run. */
  method ALancer(file: seq<Transfert>) returns (partants: seq<Transfert>)
    requires Actifs(Fiches(file)) <= PARALLELE
    ensures Ids(partants) == Partants(Fiches(file), PARALLELE - Actifs(Fiches(file)))
    ensures forall x :: x in partants ==> x in file
  {
    var enCours := CompteEnCours(file);
    ghost var f, places := Fiches(file), PARALLELE - enCours;
    partants := [];
    var k := 0;
    while k < |file| && enCours < PARALLELE
      invariant k <= |file| && enCours == PARALLELE - places + |partants|
      invariant Ids(partants) == Partants(f[..k], places)
      invariant forall x :: x in partants ==> x in file
    {
      PartantsSuivant(f, places, k);
      if file[k].etat == Attente {
        assert Ids(partants + [file[k]]) == Ids(partants) + [file[k].id];
        partants, enCours := partants + [file[k]], enCours + 1;
      }
      k := k + 1;
    }
    if k < |file| {
      PartantsPleins(f, places, k);
    } else {
      assert f[..k] == f;
    }
  }

  ghost predicate Planifiable(f: seq<Fiche>) {
    Ordonnee(f) && Actifs(f) <= PARALLELE
  }

  // ---------- What each redraw may do ----------

  /** Every transfer ever added has had one row, made and inserted once, and those still there keep it. */
  ghost predicate UneLigneChacun(prochain: nat, lignes: map<nat, nat>, noeuds: nat, inserees: seq<nat>) {
    && prochain == noeuds + 1 && inserees == seq(noeuds, i requires 0 <= i => i)
    && forall id :: id in lignes ==> id == lignes[id] + 1
  }

  lemma {:induction false} GardesTous(ids: seq<nat>)
    ensures Gardes(ids, ids) == ids
  {
    SansAucun(ids, {});
    assert Membres(ids) - Membres(ids) == {};
  }

  lemma GardesAjout(ids: seq<nat>, id: nat)
    ensures Gardes(ids, ids + [id]) == ids
  {
    SansAucun(ids, {});
    assert Membres(ids) - Membres(ids + [id]) == {};
  }

  lemma GardesRetrait(ids: seq<nat>, i: nat)
    requires i < |ids| && Distincts(ids)
    ensures Gardes(ids, ids[..i] + ids[i + 1..]) == ids[..i] + ids[i + 1..]
  {
    var a, b := ids[..i], ids[i + 1..];
    assert ids == a + [ids[i]] + b;
    forall n | n in a + b ensures n != ids[i] {
    }
    assert Membres(ids) - Membres(a + b) == {ids[i]};
    SansConcat(a + [ids[i]], b, {ids[i]});
    SansConcat(a, [ids[i]], {ids[i]});
    SansAucun(a, {ids[i]});
    SansAucun(b, {ids[i]});
  }

  ghost predicate ARendre(ordre: seq<nat>, ids: seq<nat>, prochain: nat, neuf: bool) {
    if neuf then prochain > 0 && ids == ordre + [prochain - 1] else Gardes(ordre, ids) == ids
  }

  lemma GardesARendre(ordre: seq<nat>, ids: seq<nat>, prochain: nat, neuf: bool)
    requires ARendre(ordre, ids, prochain, neuf)
    ensures Gardes(ordre, ids) == if neuf then ordre else ids
  {
    if neuf {
      GardesAjout(ordre, prochain - 1);
    }
  }

  lemma RenduUneFois(ordre: seq<nat>, ids: seq<nat>, prochain: nat, neuf: bool,
                     l: map<nat, nat>, n: nat, deja: seq<nat>,
                     lignes: map<nat, nat>, noeuds: nat, zone: seq<nat>, inserees: seq<nat>)
    requires ARendre(ordre, ids, prochain, neuf) && Membres(ordre) == l.Keys && Membres(ids) == lignes.Keys
    requires UneLigneChacun(if neuf then prochain - 1 else prochain, l, n, deja) && deja <= inserees
    requires forall id :: id in ids && id in l ==> lignes[id] == l[id]
    requires var gardes := if neuf then ordre else ids;
             && |gardes| <= |ids|
             && SansDeplacer(gardes, n, ids, |ids|, lignes, noeuds, zone, inserees[|deja|..])
    ensures UneLigneChacun(prochain, lignes, noeuds, inserees)
  {
    assert inserees == deja + inserees[|deja|..];
    forall id | id in lignes ensures id == lignes[id] + 1 {
      var i :| 0 <= i < |ids| && ids[i] == id;
      if i < |ordre| && neuf {
        assert ordre[i] in Membres(ordre);
      } else if !neuf {
        assert id in Sans(ordre, Membres(ordre) - Membres(ids));
        assert id in Membres(ordre);
      }
    }
  }

  /** The queue once the transfers of these identifiers run. */
  ghost predicate Lancees(f: seq<Fiche>, ids: seq<nat>, g: seq<Fiche>) {
    && |g| == |f|
    && forall i :: 0 <= i < |f| ==> g[i] == if f[i].id in ids then Fiche(f[i].id, EnCours) else f[i]
  }

  lemma LanceLancees(f: File, ids: seq<nat>, g: File)
    requires Ordonnee(f.fiches) && Actifs(f.fiches) <= PARALLELE
    requires ids == Partants(f.fiches, PARALLELE - Actifs(f.fiches)) && Lancees(f.fiches, ids, g.fiches)
    requires g.lances == f.lances + ids && g.prochain == f.prochain
    ensures g == Planifie(f)
  {
    var places := PARALLELE - Actifs(f.fiches);
    var r := Lance(f.fiches, places);
    forall i | 0 <= i < |r| ensures g.fiches[i] == r[i] {
      LanceSsi(f.fiches, places, i);
    }
    assert g.fiches == r;
  }

  class Panneau {
    var file: seq<Transfert>
    var prochain: nat
    /** The transfers launched so far, in order. */
    var lances: seq<nat>
    const rendu: Rendu

    ghost function Vue(): File
      reads this, file
    {
      File(Fiches(file), prochain, lances)
    }

    ghost predicate Dessine()
      reads `file, `prochain, rendu
    {
      && rendu.Valid() && rendu.ordre == Ids(file)
      && UneLigneChacun(prochain, rendu.lignes, rendu.noeuds, rendu.inserees)
    }

    constructor ()
      ensures Vue() == VIDE && Dessine() && fresh(rendu)
    {
      file, prochain, lances := [], 1, [];
      rendu := new Rendu();
    }

    /** Redraws the queue after it gained a last transfer (`neuf`), lost one or kept all. */
    method Rendre(ghost neuf: bool)
      requires rendu.Valid() && Distincts(Ids(file)) && ARendre(rendu.ordre, Ids(file), prochain, neuf)
      requires UneLigneChacun(if neuf then prochain - 1 else prochain, rendu.lignes, rendu.noeuds, rendu.inserees)
      modifies rendu
      ensures Dessine()
    {
      ghost var ordre, l, n, deja := rendu.ordre, rendu.lignes, rendu.noeuds, rendu.inserees;
      var ids := Ids(file);
      GardesARendre(ordre, ids, prochain, neuf);
      rendu.Rendre(ids);
      RenduUneFois(ordre, ids, prochain, neuf, l, n, deja, rendu.lignes, rendu.noeuds, rendu.zone, rendu.inserees);
    }

    /** Redraws a queue whose transfers are those drawn last. */
    method Redessiner()
      requires Dessine()
      modifies rendu
      ensures Dessine()
    {
      GardesTous(Ids(file));
      Rendre(false);
    }

    /** Starts these transfers of the queue, one after the other. */
    method Lancer(partants: seq<Transfert>)
      requires Ordonnee(Fiches(file)) && forall x :: x in partants ==> x in file
      modifies `lances, file
      ensures lances == old(lances) + Ids(partants)
      ensures Lancees(old(Fiches(file)), Ids(partants), Fiches(file))
    {
      ghost var f := Fiches(file);
      assert old(lances) + Ids([]) == old(lances);
      for k := 0 to |partants|
        invariant lances == old(lances) + Ids(partants[..k])
        invariant forall i :: 0 <= i < |file| ==>
                    file[i].etat == if file[i].id in Ids(partants[..k]) then EnCours else old(file[i].etat)
      {
        assert Ids(partants[..k + 1]) == Ids(partants[..k]) + [partants[k].id];
        assert partants[k] in partants;
        partants[k].etat := EnCours;
        lances := lances + [partants[k].id];
        forall i | 0 <= i < |file| && file[i] != partants[k] ensures file[i].id != partants[k].id {
          IdsDistincts(f, file, i, partants[k]);
        }
      }
      assert partants[..|partants|] == partants;
    }

    method LancerPossibles()
      requires Planifiable(Fiches(file))
      modifies `lances, file
      ensures Vue() == Planifie(old(Vue()))
    {
      ghost var avant := Vue();
      var partants := ALancer(file);
      Lancer(partants);
      LanceLancees(avant, Ids(partants), Vue());
    }

    /** Starts what may start now, and redraws. */
    method Planifier()
      requires Planifiable(Fiches(file)) && Dessine()
      modifies `lances, file, rendu
      ensures Vue() == Planifie(old(Vue())) && Dessine() && file == old(file)
    {
      LancerPossibles();
      Redessiner();
    }

    /** A new transfer at the end of the queue. */
    method Enfiler() returns (x: Transfert)
      requires Dessine() && Ordonnee(Enfilee(Vue()).fiches)
      modifies `file, `prochain, rendu
      ensures fresh(x) && file == old(file) + [x] && Dessine() && Vue() == Enfilee(old(Vue()))
    {
      ghost var f := Enfilee(Vue()).fiches;
      x := new Transfert(prochain);
      file, prochain := file + [x], prochain + 1;
      OrdonneeDistincts(f, Ids(file));
      assert Fiches(file) == f;
      assert Ids(file) == Ids(old(file)) + [prochain - 1];
      Rendre(true);
    }

    /** The transfer passes to a state; the rows are redrawn. */
    method Changer(x: Transfert, etat: EtatTransfert)
      requires Dessine() && Ordonnee(Fiches(file)) && x in file
      modifies x, rendu
      ensures Dessine() && Fiches(file) == old(Remplacee(Fiches(file), x.id, etat))
    {
      ghost var f := Fiches(file);
      x.etat := etat;
      FichesModifiees(f, file, x);
      Redessiner();
    }

    /** The transfer leaves the queue. */
    method Retirer(x: Transfert)
      requires Dessine() && Ordonnee(Fiches(file)) && x in file
      modifies `file, rendu
      ensures Dessine() && Fiches(file) == old(Retiree(Fiches(file), x.id))
    {
      var i := Position(file, x);
      RetraitObjet(file, x, i);
      file := file[..i] + file[i + 1..];
      Rendre(false);
    }

    method AjouterEtPlanifier() returns (x: Transfert)
      requires Dessine() && Planifiable(Enfilee(Vue()).fiches)
      modifies this, file, rendu
      ensures Dessine() && Vue() == Planifie(Enfilee(old(Vue())))
      ensures fresh(x) && file == old(file) + [x]
    {
      ghost var tous := file;
      x := Enfiler();
      tous := tous + [x];
      Planifier();
      assert file == tous;
    }

    method ConclureEtPlanifier(x: Transfert, issue: Issue)
      requires Dessine() && Ordonnee(Fiches(file)) && x in file && x.etat == EnCours
      requires Planifiable(Remplacee(Fiches(file), x.id, Conclusion(issue)))
      modifies `lances, file, rendu
      ensures Dessine() && Vue() == Suit(old(Vue()), Transferts.Terminer(x.id, issue))
    {
      RangObjet(file, x);
      Changer(x, Conclusion(issue));
      Planifier();
    }

    ghost predicate Valid()
      reads this, file, rendu
    {
      Reglee(Vue()) && Dessine()
    }

    /** A transfer joins the queue, and starts if it may. */
    method Ajouter() returns (x: Transfert)
      requires Valid()
      modifies this, file, rendu
      ensures Valid() && Vue() == Suit(old(Vue()), Transferts.Ajouter)
      ensures fresh(x) && file == old(file) + [x]
    {
      SuitReglee(Vue(), Transferts.Ajouter);
      AjoutPlanifiable(Vue());
      x := AjouterEtPlanifier();
    }

    /** A running transfer has ended. */
    method Terminer(x: Transfert, issue: Issue)
      requires Valid() && x in file && x.etat == EnCours
      modifies `lances, file, rendu
      ensures Valid() && Vue() == Suit(old(Vue()), Transferts.Terminer(x.id, issue))
    {
      SuitReglee(Vue(), Transferts.Terminer(x.id, issue));
      RangObjet(file, x);
      FinPlanifiable(Vue(), x.id, issue);
      ConclureEtPlanifier(x, issue);
    }

    /** The user cancels: a waiting transfer is cancelled on the spot, a running one only by its own end. */
    method Annuler(x: Transfert)
      requires Valid() && x in file
      modifies x, rendu
      ensures Valid() && Vue() == Suit(old(Vue()), Transferts.Annuler(x.id))
    {
      SuitReglee(Vue(), Transferts.Annuler(x.id));
      RangObjet(file, x);
      if x.etat == Attente {
        Changer(x, Annule);
      }
    }

    /** A click on the row of a transfer: a finished one leaves the queue. */
    method Effacer(x: Transfert)
      requires Valid() && x in file
      modifies `file, rendu
      ensures Valid() && Vue() == Suit(old(Vue()), Transferts.Effacer(x.id))
    {
      SuitReglee(Vue(), Transferts.Effacer(x.id));
      RangObjet(file, x);
      if Termine(x.etat) {
        Retirer(x);
      }
    }
  }

  function Remplacee(f: seq<Fiche>, id: nat, e: EtatTransfert): seq<Fiche> {
    var i := Rang(f, id);
    if i < |f| then f[i := Fiche(id, e)] else f
  }

  function Retiree(f: seq<Fiche>, id: nat): seq<Fiche> {
    var i := Rang(f, id);
    if i < |f| then Reste(f, i) else f
  }

  lemma AjoutPlanifiable(f: File)
    requires Reglee(f)
    ensures Planifiable(Enfilee(f).fiches)
  {
    ActifsAjout(f.fiches, Fiche(f.prochain, Attente));
  }

  lemma FinPlanifiable(f: File, id: nat, issue: Issue)
    requires Reglee(f) && Rang(f.fiches, id) < |f.fiches| && f.fiches[Rang(f.fiches, id)].etat == EnCours
    ensures Planifiable(Remplacee(f.fiches, id, Conclusion(issue)))
  {
    ActifsRemplace(f.fiches, Rang(f.fiches, id), Fiche(id, Conclusion(issue)));
  }

  lemma RangUnique(f: seq<Fiche>, j: nat)
    requires Ordonnee(f) && j < |f|
    ensures Rang(f, f[j].id) == j
  {
    var r := Rang(f, f[j].id);
    assert r <= j;
    assert f[r].id == f[j].id;
  }

  /** A transfer of the queue is the one at the rank of its identifier. */
  lemma RangObjet(file: seq<Transfert>, x: Transfert)
    requires Ordonnee(Fiches(file)) && x in file
    ensures var i := Rang(Fiches(file), x.id); i < |file| && file[i] == x
  {
    var j :| 0 <= j < |file| && file[j] == x;
    RangUnique(Fiches(file), j);
  }

  lemma IndexRang(file: seq<Transfert>, x: Transfert, i: nat)
    requires Ordonnee(Fiches(file)) && x in file && i == Position(file, x)
    ensures i == Rang(Fiches(file), x.id) && i < |file|
  {
    RangUnique(Fiches(file), i);
  }

  /** What is left, and that its rows are those of the queue drawn before less one. */
  lemma RetraitObjet(file: seq<Transfert>, x: Transfert, i: nat)
    requires Ordonnee(Fiches(file)) && x in file && i == Position(file, x)
    ensures i < |file|
    ensures var reste := file[..i] + file[i + 1..];
            && Fiches(reste) == Retiree(Fiches(file), x.id)
            && Gardes(Ids(file), Ids(reste)) == Ids(reste) && Distincts(Ids(reste))
  {
    IndexRang(file, x, i);
    OrdonneeDistincts(Fiches(file), Ids(file));
    RetraitFiches(file, i);
    RetraitIds(file, i);
  }

  lemma RetraitFiches(file: seq<Transfert>, i: nat)
    requires i < |file|
    ensures Fiches(file[..i] + file[i + 1..]) == Reste(Fiches(file), i)
  {
  }

  lemma RetraitIds(file: seq<Transfert>, i: nat)
    requires i < |file| && Distincts(Ids(file))
    ensures var r := Ids(file[..i] + file[i + 1..]); Gardes(Ids(file), r) == r && Distincts(r)
  {
    var ids := Ids(file);
    RetraitDistincts(ids, i);
    GardesRetrait(ids, i);
    assert Ids(file[..i] + file[i + 1..]) == ids[..i] + ids[i + 1..];
  }

  lemma FichesModifiees(f: seq<Fiche>, file: seq<Transfert>, x: Transfert)
    requires Ordonnee(f) && |f| == |file| && x in file
    requires forall k :: 0 <= k < |f| ==> f[k].id == file[k].id
    requires forall k :: 0 <= k < |f| && file[k] != x ==> f[k].etat == file[k].etat
    ensures Fiches(file) == Remplacee(f, x.id, x.etat)
  {
    var j :| 0 <= j < |file| && file[j] == x;
    RangUnique(f, j);
    forall k | 0 <= k < |f| && k != j ensures file[k] != x {
      assert f[k].id != f[j].id;
    }
  }

  lemma RetraitDistincts(ids: seq<nat>, i: nat)
    requires Distincts(ids) && i < |ids|
    ensures Distincts(ids[..i] + ids[i + 1..])
  {
  }

  lemma IdsDistincts(f: seq<Fiche>, file: seq<Transfert>, i: nat, x: Transfert)
    requires Ordonnee(f) && |f| == |file| && i < |file| && x in file && file[i] != x
    requires forall k :: 0 <= k < |f| ==> f[k].id == file[k].id
    ensures file[i].id != x.id
  {
    var j :| 0 <= j < |file| && file[j] == x;
    assert f[i].id == file[i].id && f[j].id == x.id;
  }

  lemma OrdonneeDistincts(f: seq<Fiche>, ids: seq<nat>)
    requires Ordonnee(f) && |f| == |ids| && forall k :: 0 <= k < |f| ==> f[k].id == ids[k]
    ensures Distincts(ids)
  {
    forall i, j | 0 <= i < j < |ids| ensures ids[i] != ids[j] {
      assert f[i].id < f[j].id;
    }
  }
}
