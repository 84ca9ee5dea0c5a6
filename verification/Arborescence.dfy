/** The tree of host folders, built in place node by node. */
module Arborescence {
  import opened Chemins

  class FolderNode<T> {
    const name: string
    const path: string
    var children: map<string, FolderNode<T>>
    var items: seq<T>

    constructor (name: string, path: string)
      ensures this.name == name && this.path == path && children == map[] && items == []
    {
      this.name, this.path, children, items := name, path, map[], [];
    }
  }

  /** The nodes of a tree, by the segments that lead to them from the root. */
  type Noeuds<T> = map<seq<string>, FolderNode<T>>

  function Dernier(p: seq<string>): string {
    if p == [] then "" else p[|p| - 1]
  }

  /** The children of every node. */
  type Enfants<T> = map<seq<string>, map<string, FolderNode<T>>>

  ghost function LesEnfants<T>(noeuds: Noeuds<T>): (e: Enfants<T>)
    reads noeuds.Values`children
  {
    map p | p in noeuds :: noeuds[p].children
  }

  /** The node at p has the name and path its place gives it, and its children are the nodes one segment further. */
  ghost predicate BienForme<T>(noeuds: Noeuds<T>, enfants: Enfants<T>, p: seq<string>)
    requires p in noeuds && p in enfants
  {
    && Propre(p) && noeuds[p].name == Dernier(p) && noeuds[p].path == Joint(p) && Segments(noeuds[p].path) == p
    && forall s :: s in enfants[p] ==> p + [s] in noeuds && enfants[p][s] == noeuds[p + [s]]
  }

  /** The node at p hangs from the node above it. */
  ghost predicate Rattache<T>(enfants: Enfants<T>, p: seq<string>) {
    p == [] || (p[..|p| - 1] in enfants && Dernier(p) in enfants[p[..|p| - 1]])
  }

  ghost predicate Forme<T>(noeuds: Noeuds<T>, enfants: Enfants<T>) {
    && [] in noeuds && enfants.Keys == noeuds.Keys
    && (forall p {:trigger BienForme(noeuds, enfants, p)} :: p in noeuds ==> BienForme(noeuds, enfants, p))
    && (forall p {:trigger Rattache(enfants, p)} :: p in noeuds ==> Rattache(enfants, p))
  }

  ghost predicate Arbre<T>(noeuds: Noeuds<T>)
    reads noeuds.Values`children
  {
    Forme(noeuds, LesEnfants(noeuds))
  }

  /** The children once `child` hangs from p. */
  ghost function Greffe<T>(enfants: Enfants<T>, p: seq<string>, seg: string, child: FolderNode<T>): Enfants<T>
    requires p in enfants
  {
    enfants[p := enfants[p][seg := child]][p + [seg] := map[]]
  }

  lemma PlaceLibre<T>(noeuds: Noeuds<T>, enfants: Enfants<T>, p: seq<string>, seg: string)
    requires Forme(noeuds, enfants) && p in noeuds && seg !in enfants[p]
    ensures p + [seg] !in noeuds
  {
    assert (p + [seg])[..|p + [seg]| - 1] == p && !Rattache(enfants, p + [seg]);
  }

  lemma GreffeBienForme<T>(noeuds: Noeuds<T>, enfants: Enfants<T>, p: seq<string>, seg: string, child: FolderNode<T>,
                           r: seq<string>)
    requires p in noeuds && p in enfants && p + [seg] !in noeuds && r in noeuds && r in enfants
    requires BienForme(noeuds, enfants, r)
    ensures BienForme(noeuds[p + [seg] := child], Greffe(enfants, p, seg, child), r)
  {
    var q := p + [seg];
    var apres, e := noeuds[q := child], Greffe(enfants, p, seg, child);
    assert r != q;
    forall s | s in e[r] ensures r + [s] in apres && e[r][s] == apres[r + [s]] {
      if s in enfants[r] && !(r == p && s == seg) {
        assert r + [s] != q by {
          assert (r + [s])[..|r|] == r && (r + [s])[|r|] == s;
        }
      }
    }
  }

  lemma GreffeNeuve<T>(noeuds: Noeuds<T>, enfants: Enfants<T>, p: seq<string>, seg: string, child: FolderNode<T>)
    requires p in enfants && Propre(p) && Segment(seg) && child.name == seg && child.path == Joint(p + [seg])
    ensures BienForme(noeuds[p + [seg] := child], Greffe(enfants, p, seg, child), p + [seg])
  {
    SegmentsJoint(p + [seg]);
  }

  lemma GreffeRattache<T>(enfants: Enfants<T>, p: seq<string>, seg: string, child: FolderNode<T>, r: seq<string>)
    requires p in enfants && p + [seg] !in enfants && (r == p + [seg] || Rattache(enfants, r))
    ensures Rattache(Greffe(enfants, p, seg, child), r)
  {
    if r == p + [seg] {
      assert r[..|r| - 1] == p;
    }
  }

  lemma GreffesBienFormees<T>(noeuds: Noeuds<T>, enfants: Enfants<T>, p: seq<string>, seg: string, child: FolderNode<T>)
    requires Forme(noeuds, enfants) && p in noeuds && p + [seg] !in noeuds
    requires Segment(seg) && child.name == seg && child.path == Joint(p + [seg])
    ensures forall r {:trigger BienForme(noeuds[p + [seg] := child], Greffe(enfants, p, seg, child), r)} ::
              r in noeuds[p + [seg] := child] ==>
                BienForme(noeuds[p + [seg] := child], Greffe(enfants, p, seg, child), r)
  {
    var apres, e := noeuds[p + [seg] := child], Greffe(enfants, p, seg, child);
    assert BienForme(noeuds, enfants, p);
    GreffeNeuve(noeuds, enfants, p, seg, child);
    forall r | r in apres ensures BienForme(apres, e, r) {
      if r != p + [seg] {
        GreffeBienForme(noeuds, enfants, p, seg, child, r);
      }
    }
  }

  /** A tree stays one when a child is hung where there was none. */
  lemma FormeGreffe<T>(noeuds: Noeuds<T>, enfants: Enfants<T>, p: seq<string>, seg: string, child: FolderNode<T>)
    requires Forme(noeuds, enfants) && p in noeuds && seg !in enfants[p]
    requires Segment(seg) && child.name == seg && child.path == Joint(p + [seg])
    ensures p + [seg] !in noeuds
    ensures Forme(noeuds[p + [seg] := child], Greffe(enfants, p, seg, child))
  {
    PlaceLibre(noeuds, enfants, p, seg);
    GreffesBienFormees(noeuds, enfants, p, seg, child);
    forall r | r in noeuds[p + [seg] := child] ensures Rattache(Greffe(enfants, p, seg, child), r) {
      GreffeRattache(enfants, p, seg, child, r);
    }
  }

  /** The places passed through on the way down to p. */
  function Descente(p: seq<string>, k: nat): (r: set<seq<string>>)
    requires k <= |p|
  {
    if k == 0 then {[]} else Descente(p, k - 1) + {p[..k]}
  }

  /** The places on the way to a folder, root included. */
  function Route(f: string): set<seq<string>> {
    Descente(Segments(f), |Segments(f)|)
  }

  /** A node is at one place only. */
  lemma UnePlace<T>(noeuds: Noeuds<T>, enfants: Enfants<T>, p: seq<string>, q: seq<string>)
    requires Forme(noeuds, enfants) && p in noeuds && q in noeuds && noeuds[p] == noeuds[q]
    ensures p == q
  {
    assert BienForme(noeuds, enfants, p) && BienForme(noeuds, enfants, q);
  }

  /** A missing child is made. */
  method Creer<T>(node: FolderNode<T>, seg: string, acc: string, ghost noeuds: Noeuds<T>, ghost p: seq<string>)
    returns (child: FolderNode<T>)
    requires Arbre(noeuds) && p in noeuds && noeuds[p] == node
    requires Segment(seg) && acc == Joint(p + [seg]) && seg !in node.children
    modifies node`children
    ensures fresh(child) && child.items == [] && p + [seg] !in noeuds && Arbre(noeuds[p + [seg] := child])
  {
    ghost var enfants := LesEnfants(noeuds);
    child := new FolderNode(seg, acc);
    node.children := node.children[seg := child];
    FormeGreffe(noeuds, enfants, p, seg, child);
    ghost var apres := noeuds[p + [seg] := child];
    forall r | r in noeuds && r != p ensures noeuds[r].children == enfants[r] {
      if noeuds[r] == node {
        UnePlace(noeuds, enfants, p, r);
      }
    }
    assert LesEnfants(apres) == Greffe(enfants, p, seg, child);
  }

  /** One step down: the child, made if it is missing. */
  method Descendre<T>(node: FolderNode<T>, seg: string, acc: string, ghost noeuds: Noeuds<T>, ghost p: seq<string>)
    returns (child: FolderNode<T>, ghost apres: Noeuds<T>)
    requires Arbre(noeuds) && p in noeuds && noeuds[p] == node
    requires Segment(seg) && acc == Joint(p + [seg])
    modifies node`children
    ensures Arbre(apres) && apres.Keys == noeuds.Keys + {p + [seg]} && apres[p + [seg]] == child
    ensures Conserve(noeuds, apres) && GainsVides(noeuds, apres) && fresh(apres.Values - noeuds.Values)
  {
    apres := noeuds;
    if seg in node.children {
      child := node.children[seg];
      assert BienForme(noeuds, LesEnfants(noeuds), p);
    } else {
      child := Creer(node, seg, acc, noeuds, p);
      apres := noeuds[p + [seg] := child];
    }
  }

  /** The tree has kept every node. */
  ghost predicate Conserve<T>(noeuds: Noeuds<T>, apres: Noeuds<T>) {
    noeuds.Keys <= apres.Keys && forall q {:trigger noeuds[q]} :: q in noeuds ==> apres[q] == noeuds[q]
  }

  /** The nodes gained hold no item. */
  ghost predicate GainsVides<T>(noeuds: Noeuds<T>, apres: Noeuds<T>)
    reads apres.Values
  {
    forall q {:trigger apres[q]} :: q in apres && q !in noeuds ==> apres[q].items == []
  }

  lemma DescenteSuivante(segs: seq<string>, k: nat)
    requires k < |segs|
    ensures segs[..k + 1] == segs[..k] + [segs[k]]
    ensures Descente(segs, k + 1) == Descente(segs, k) + {segs[..k] + [segs[k]]}
  {
    assert segs[..k + 1] == segs[..k] + [segs[k]];
  }

  /** Where the descent stands after k segments. */
  ghost predicate Descendu<T>(noeuds: Noeuds<T>, segs: seq<string>, k: nat, acc: string, node: FolderNode<T>,
                              apres: Noeuds<T>)
    requires k <= |segs|
    reads apres.Values
  {
    && acc == Joint(segs[..k]) && Arbre(apres) && segs[..k] in apres && apres[segs[..k]] == node
    && apres.Keys == noeuds.Keys + Descente(segs, k) && Conserve(noeuds, apres) && GainsVides(noeuds, apres)
  }

  method DescendreEncore<T>(node: FolderNode<T>, segs: seq<string>, k: nat, acc: string,
                            ghost noeuds: Noeuds<T>, ghost milieu: Noeuds<T>)
    returns (child: FolderNode<T>, plus: string, ghost apres: Noeuds<T>)
    requires k < |segs| && Propre(segs) && Descendu(noeuds, segs, k, acc, node, milieu)
    modifies node`children
    ensures Descendu(noeuds, segs, k + 1, plus, child, apres) && fresh(apres.Values - milieu.Values)
  {
    DescenteSuivante(segs, k);
    plus := if acc != "" then acc + "/" + segs[k] else segs[k];
    child, apres := Descendre(node, segs[k], plus, milieu, segs[..k]);
  }

  /** The loop over the segments. */
  method DescendreTout<T>(root: FolderNode<T>, segs: seq<string>, ghost noeuds: Noeuds<T>)
    returns (node: FolderNode<T>, acc: string, ghost apres: Noeuds<T>)
    requires Propre(segs) && Descendu(noeuds, segs, 0, "", root, noeuds)
    modifies noeuds.Values`children
    ensures Descendu(noeuds, segs, |segs|, acc, node, apres) && fresh(apres.Values - noeuds.Values)
  {
    node, acc, apres := root, "", noeuds;
    for k := 0 to |segs|
      invariant Descendu(noeuds, segs, k, acc, node, apres)
      invariant fresh(apres.Values - noeuds.Values)
    {
      assert node in apres.Values;
      node, acc, apres := DescendreEncore(node, segs, k, acc, noeuds, apres);
    }
  }

  /** Goes down to the node of a path, making what is missing: the tree gains exactly the places on the way, with no
      item, and keeps every node it had. */
  method EnsureFolderNode<T>(root: FolderNode<T>, path: string, ghost noeuds: Noeuds<T>)
    returns (node: FolderNode<T>, ghost apres: Noeuds<T>)
    requires Arbre(noeuds) && noeuds[[]] == root
    modifies noeuds.Values`children
    ensures Arbre(apres) && Segments(path) in apres && apres[Segments(path)] == node
    ensures apres.Keys == noeuds.Keys + Route(path)
    ensures Conserve(noeuds, apres) && GainsVides(noeuds, apres) && fresh(apres.Values - noeuds.Values)
  {
    var segs := Segments(path);
    var acc;
    node, acc, apres := DescendreTout(root, segs, noeuds);
    assert segs[..|segs|] == segs;
  }

  datatype Rangement<T> = Rangement(folder: string, item: T)

  /** The items stored in the folder at p, in order. */
  function Ranges<T>(items: seq<Rangement<T>>, p: seq<string>): seq<T> {
    if items == [] then [] else
      var debut, x := Ranges(items[..|items| - 1], p), items[|items| - 1];
      if Segments(x.folder) == p then debut + [x.item] else debut
  }

  function Dossiers<T>(items: seq<Rangement<T>>): (r: seq<string>)
    ensures |r| == |items| && forall i :: 0 <= i < |r| ==> r[i] == items[i].folder
  {
    seq(|items|, i requires 0 <= i < |items| => items[i].folder)
  }

  function Routes(fs: seq<string>): set<seq<string>> {
    set f, q | f in fs && q in Route(f) :: q
  }

  lemma RoutesSuivant(fs: seq<string>, i: nat)
    requires i < |fs|
    ensures Routes(fs[..i + 1]) == Routes(fs[..i]) + Route(fs[i])
  {
    assert fs[..i + 1] == fs[..i] + [fs[i]];
  }

  lemma RoutesConcat(a: seq<string>, b: seq<string>)
    ensures Routes(a + b) == Routes(a) + Routes(b)
  {
  }

  lemma RoutesDossiers<T>(items: seq<Rangement<T>>, i: nat)
    requires i < |items|
    ensures Routes(Dossiers(items[..i + 1])) == Routes(Dossiers(items[..i])) + Route(items[i].folder)
  {
    var d := Dossiers(items);
    assert d[..i + 1] == Dossiers(items[..i + 1]) && d[..i] == Dossiers(items[..i]);
    RoutesSuivant(d, i);
  }

  lemma RangesSuivant<T>(items: seq<Rangement<T>>, i: nat, p: seq<string>)
    requires i < |items|
    ensures Ranges(items[..i + 1], p)
         == Ranges(items[..i], p) + if Segments(items[i].folder) == p then [items[i].item] else []
  {
    assert items[..i + 1][..i] == items[..i];
  }

  /** No item is stored where no item's folder leads. */
  lemma {:induction false} RangesAilleurs<T>(items: seq<Rangement<T>>, p: seq<string>)
    requires p !in Routes(Dossiers(items))
    ensures Ranges(items, p) == []
  {
    if items != [] {
      var n := |items| - 1;
      assert items[..n + 1] == items;
      RoutesDossiers(items, n);
      RangesAilleurs(items[..n], p);
      var f := Segments(items[n].folder);
      assert f[..|f|] == f;
    }
  }

  /** One item goes to the node of its folder. */
  method Ranger<T>(root: FolderNode<T>, x: Rangement<T>, ghost noeuds: Noeuds<T>) returns (ghost apres: Noeuds<T>)
    requires Arbre(noeuds) && noeuds[[]] == root
    modifies noeuds.Values
    ensures Arbre(apres) && fresh(apres.Values - noeuds.Values)
    ensures apres.Keys == noeuds.Keys + Route(x.folder)
    ensures forall q :: q in noeuds ==> apres[q] == noeuds[q]
    ensures forall q :: q in apres ==>
              apres[q].items == (if q in noeuds then old(noeuds[q].items) else [])
                              + if q == Segments(x.folder) then [x.item] else []
  {
    var node;
    node, apres := EnsureFolderNode(root, x.folder, noeuds);
    forall q | q in apres && apres[q] == node ensures q == Segments(x.folder) {
      UnePlace(apres, LesEnfants(apres), q, Segments(x.folder));
    }
    node.items := node.items + [x.item];
  }

  /** The node holds exactly the items of the folder at p. */
  ghost predicate Garnie<T>(node: FolderNode<T>, p: seq<string>, items: seq<Rangement<T>>)
    reads node`items
  {
    node.items == Ranges(items, p)
  }

  /** What a build has reached: the places of these folders, and these items in theirs. */
  ghost predicate Construit<T>(noeuds: Noeuds<T>, root: FolderNode<T>, places: set<seq<string>>,
                               items: seq<Rangement<T>>)
    reads noeuds.Values
  {
    && Arbre(noeuds) && noeuds[[]] == root && noeuds.Keys == places
    && forall p {:trigger Garnie(noeuds[p], p, items)} :: p in noeuds ==> Garnie(noeuds[p], p, items)
  }

  method RangerSuivant<T>(root: FolderNode<T>, items: seq<Rangement<T>>, i: nat, ghost places: set<seq<string>>,
                          ghost noeuds: Noeuds<T>)
    returns (ghost apres: Noeuds<T>)
    requires i < |items| && Construit(noeuds, root, places, items[..i]) && Routes(Dossiers(items[..i])) <= places
    modifies noeuds.Values
    ensures fresh(apres.Values - noeuds.Values)
    ensures Construit(apres, root, places + Route(items[i].folder), items[..i + 1])
  {
    forall p | p in noeuds ensures noeuds[p].items == Ranges(items[..i], p) {
      assert Garnie(noeuds[p], p, items[..i]);
    }
    apres := Ranger(root, items[i], noeuds);
    forall p | p in apres ensures Garnie(apres[p], p, items[..i + 1]) {
      RangesSuivant(items, i, p);
      if p !in noeuds {
        RangesAilleurs(items[..i], p);
      }
    }
  }

  method NouvelleRacine<T>() returns (root: FolderNode<T>, ghost noeuds: Noeuds<T>)
    ensures Construit(noeuds, root, {[]}, []) && fresh(noeuds.Values)
  {
    root := new FolderNode("", "");
    noeuds := map[[] := root];
    assert BienForme(noeuds, LesEnfants(noeuds), []);
  }

  method PlacerDossier<T>(root: FolderNode<T>, folder: string, ghost places: set<seq<string>>, ghost avant: Noeuds<T>)
    returns (ghost noeuds: Noeuds<T>)
    requires Construit(avant, root, places, [])
    modifies avant.Values`children
    ensures fresh(noeuds.Values - avant.Values) && Construit(noeuds, root, places + Route(folder), [])
  {
    forall p | p in avant ensures avant[p].items == [] {
      assert Garnie(avant[p], p, []);
    }
    var node;
    node, noeuds := EnsureFolderNode(root, folder, avant);
  }

  /** The root, and the places on the way to each folder. */
  function Places(fs: seq<string>): set<seq<string>> {
    {[]} + Routes(fs)
  }

  lemma PlacesSuivant(fs: seq<string>, i: nat)
    requires i < |fs|
    ensures Places(fs[..i + 1]) == Places(fs[..i]) + Route(fs[i])
  {
    RoutesSuivant(fs, i);
  }

  method PlanterDossiers<T>(folders: seq<string>) returns (root: FolderNode<T>, ghost noeuds: Noeuds<T>)
    ensures fresh(noeuds.Values) && Construit(noeuds, root, Places(folders), [])
  {
    root, noeuds := NouvelleRacine();
    assert Places(folders[..0]) == {[]};
    for i := 0 to |folders|
      invariant fresh(noeuds.Values) && Construit(noeuds, root, Places(folders[..i]), [])
    {
      PlacesSuivant(folders, i);
      noeuds := PlacerDossier(root, folders[i], Places(folders[..i]), noeuds);
    }
    assert folders[..|folders|] == folders;
  }

  method PlacerItems<T>(root: FolderNode<T>, items: seq<Rangement<T>>, ghost places: set<seq<string>>,
                         ghost avant: Noeuds<T>)
    returns (ghost noeuds: Noeuds<T>)
    requires Construit(avant, root, places, [])
    modifies avant.Values
    ensures fresh(noeuds.Values - avant.Values)
    ensures Construit(noeuds, root, places + Routes(Dossiers(items)), items)
  {
    noeuds := avant;
    assert items[..0] == [];
    for i := 0 to |items|
      invariant fresh(noeuds.Values - avant.Values)
      invariant Construit(noeuds, root, places + Routes(Dossiers(items[..i])), items[..i])
    {
      ghost var p := places + Routes(Dossiers(items[..i]));
      RoutesDossiers(items, i);
      assert p + Route(items[i].folder) == places + Routes(Dossiers(items[..i + 1]));
      noeuds := RangerSuivant(root, items, i, p, noeuds);
    }
    assert items[..|items|] == items;
  }

  /** The tree of the registered folders and of those of the items: its places are exactly the prefixes of all these
      folders, and every item is at the place of its folder and nowhere else. */
  method BuildFolderTree<T>(folders: seq<string>, items: seq<Rangement<T>>)
    returns (root: FolderNode<T>, ghost noeuds: Noeuds<T>)
    ensures Construit(noeuds, root, Places(folders + Dossiers(items)), items) && fresh(noeuds.Values)
  {
    ghost var plants;
    root, plants := PlanterDossiers(folders);
    noeuds := PlacerItems(root, items, Places(folders), plants);
    RoutesConcat(folders, Dossiers(items));
    assert Places(folders) + Routes(Dossiers(items)) == Places(folders + Dossiers(items));
  }

  // ---------- Counting ----------

  ghost function Somme(s: set<seq<string>>, tailles: map<seq<string>, nat>): nat
    requires s <= tailles.Keys
  {
    if s == {} then 0 else
      var x :| x in s;
      tailles[x] + Somme(s - {x}, tailles)
  }

  lemma {:induction false} SommeSans(s: set<seq<string>>, tailles: map<seq<string>, nat>, x: seq<string>)
    requires s <= tailles.Keys && x in s
    ensures Somme(s, tailles) == tailles[x] + Somme(s - {x}, tailles)
    decreases s
  {
    var y :| y in s && Somme(s, tailles) == tailles[y] + Somme(s - {y}, tailles);
    if x != y {
      SommeSans(s - {y}, tailles, x);
      SommeSans(s - {x}, tailles, y);
      assert s - {y} - {x} == s - {x} - {y};
    }
  }

  lemma {:induction false} SommeUnion(a: set<seq<string>>, b: set<seq<string>>, tailles: map<seq<string>, nat>)
    requires a + b <= tailles.Keys && a * b == {}
    ensures Somme(a + b, tailles) == Somme(a, tailles) + Somme(b, tailles)
    decreases a
  {
    if a == {} {
      assert a + b == b;
    } else {
      var x :| x in a;
      SommeSans(a, tailles, x);
      SommeSans(a + b, tailles, x);
      assert a + b - {x} == (a - {x}) + b;
      SommeUnion(a - {x}, b, tailles);
    }
  }

  lemma {:induction false} SommePareille(s: set<seq<string>>, t: map<seq<string>, nat>, u: map<seq<string>, nat>)
    requires s <= t.Keys && s <= u.Keys && forall x :: x in s ==> t[x] == u[x]
    ensures Somme(s, t) == Somme(s, u)
    decreases s
  {
    if s != {} {
      var x :| x in s;
      SommeSans(s, t, x);
      SommeSans(s, u, x);
      SommePareille(s - {x}, t, u);
    }
  }

  /** How many items each place holds. */
  function Tailles<T>(places: set<seq<string>>, items: seq<Rangement<T>>): map<seq<string>, nat> {
    map p | p in places :: |Ranges(items, p)|
  }

  /** Conservation: over all places, every item is counted once. */
  lemma {:induction false} Conservation<T>(places: set<seq<string>>, items: seq<Rangement<T>>)
    requires forall i :: 0 <= i < |items| ==> Segments(items[i].folder) in places
    ensures Somme(places, Tailles(places, items)) == |items|
  {
    if items == [] {
      SommeNulle(places, Tailles(places, items));
    } else {
      var n := |items| - 1;
      var p := Segments(items[n].folder);
      Conservation(places, items[..n]);
      var t, u := Tailles(places, items[..n]), Tailles(places, items);
      SommeSans(places, t, p);
      SommeSans(places, u, p);
      SommePareille(places - {p}, t, u);
    }
  }

  lemma {:induction false} SommeNulle(s: set<seq<string>>, t: map<seq<string>, nat>)
    requires s <= t.Keys && forall x :: x in s ==> t[x] == 0
    ensures Somme(s, t) == 0
    decreases s
  {
    if s != {} {
      var x :| x in s;
      SommeSans(s, t, x);
      SommeNulle(s - {x}, t);
    }
  }

  /** The places at p and below, but for those under its children in `saufSous`. */
  ghost function Sous(places: set<seq<string>>, p: seq<string>, saufSous: set<string>): set<seq<string>> {
    set q | q in places && p <= q && (|q| == |p| || q[|p|] !in saufSous)
  }

  lemma {:induction false} PrefixeDedans<T>(noeuds: Noeuds<T>, enfants: Enfants<T>, q: seq<string>, k: nat)
    requires Forme(noeuds, enfants) && q in noeuds && k <= |q|
    ensures q[..k] in noeuds
    decreases |q|
  {
    assert Rattache(enfants, q);
    if k < |q| {
      var h := q[..|q| - 1];
      assert h[..k] == q[..k];
      PrefixeDedans(noeuds, enfants, h, k);
    } else {
      assert q[..k] == q;
    }
  }

  /** Without what is under its children, only the place itself is left. */
  lemma SousTous<T>(noeuds: Noeuds<T>, enfants: Enfants<T>, p: seq<string>)
    requires Forme(noeuds, enfants) && p in noeuds
    ensures Sous(noeuds.Keys, p, enfants[p].Keys) == {p}
  {
    forall q | q in noeuds && p <= q && |q| > |p| ensures q[|p|] in enfants[p] {
      var r := q[..|p| + 1];
      PrefixeDedans(noeuds, enfants, q, |p| + 1);
      assert Rattache(enfants, r) && r[..|p|] == p;
    }
    forall q | q in noeuds && p <= q && |q| == |p| ensures q == p {
    }
  }

  /** One child's branch more. */
  lemma SousUnDePlus(places: set<seq<string>>, p: seq<string>, sauf: set<string>, seg: string)
    requires seg in sauf
    ensures Sous(places, p, sauf - {seg}) == Sous(places, p, sauf) + Sous(places, p + [seg], {})
    ensures Sous(places, p, sauf) * Sous(places, p + [seg], {}) == {}
  {
    forall q | p + [seg] <= q ensures p <= q && |q| > |p| && q[|p|] == seg {
      assert q[..|p|] == p;
    }
    forall q | p <= q && |q| > |p| && q[|p|] == seg ensures p + [seg] <= q {
    }
  }

  lemma SousPlusPetit<T>(noeuds: Noeuds<T>, enfants: Enfants<T>, p: seq<string>, seg: string)
    requires Forme(noeuds, enfants) && p in noeuds && seg in enfants[p]
    ensures p + [seg] in noeuds && enfants[p][seg] == noeuds[p + [seg]]
    ensures Sous(noeuds.Keys, p + [seg], {}) < Sous(noeuds.Keys, p, {})
  {
    assert BienForme(noeuds, enfants, p);
    var a, b := Sous(noeuds.Keys, p + [seg], {}), Sous(noeuds.Keys, p, {});
    assert p in b && p !in a;
    forall q | q in a ensures q in b {
      assert q[..|p|] == p;
    }
  }

  ghost function TaillesReelles<T>(noeuds: Noeuds<T>): map<seq<string>, nat>
    reads noeuds.Values
  {
    map p | p in noeuds :: |noeuds[p].items|
  }

  /** Counts a folder: its own items, then those of each child. */
  method FolderNodeCount<T>(node: FolderNode<T>, ghost p: seq<string>, ghost noeuds: Noeuds<T>) returns (n: nat)
    requires Arbre(noeuds) && p in noeuds && noeuds[p] == node
    ensures n == Somme(Sous(noeuds.Keys, p, {}), TaillesReelles(noeuds))
    decreases Sous(noeuds.Keys, p, {})
  {
    ghost var enfants, tailles := LesEnfants(noeuds), TaillesReelles(noeuds);
    n := |node.items|;
    var reste := node.children.Keys;
    SousTous(noeuds, enfants, p);
    SommeSans({p}, tailles, p);
    while reste != {}
      invariant reste <= node.children.Keys && n == Somme(Sous(noeuds.Keys, p, reste), tailles)
      decreases reste
    {
      var seg :| seg in reste;
      SousPlusPetit(noeuds, enfants, p, seg);
      SousUnDePlus(noeuds.Keys, p, reste, seg);
      SommeUnion(Sous(noeuds.Keys, p, reste), Sous(noeuds.Keys, p + [seg], {}), tailles);
      var m := FolderNodeCount(node.children[seg], p + [seg], noeuds);
      n, reste := n + m, reste - {seg};
    }
  }

  // ---------- The whole tree ----------

  lemma DossiersDansPlaces<T>(folders: seq<string>, items: seq<Rangement<T>>, i: nat)
    requires i < |items|
    ensures Segments(items[i].folder) in Places(folders + Dossiers(items))
  {
    var f := Segments(items[i].folder);
    assert f[..|f|] == f && f in Route(items[i].folder);
    assert items[i].folder == (folders + Dossiers(items))[|folders| + i];
  }

  /** The count of the root of a tree just built is the number of items. */
  lemma CompteDeLaRacine<T>(folders: seq<string>, items: seq<Rangement<T>>, root: FolderNode<T>, noeuds: Noeuds<T>)
    requires Construit(noeuds, root, Places(folders + Dossiers(items)), items)
    ensures Somme(Sous(noeuds.Keys, [], {}), TaillesReelles(noeuds)) == |items|
  {
    forall i | 0 <= i < |items| ensures Segments(items[i].folder) in noeuds.Keys {
      DossiersDansPlaces(folders, items, i);
    }
    Conservation(noeuds.Keys, items);
    assert Sous(noeuds.Keys, [], {}) == noeuds.Keys;
    forall p | p in noeuds ensures |noeuds[p].items| == |Ranges(items, p)| {
      assert Garnie(noeuds[p], p, items);
    }
    SommePareille(noeuds.Keys, TaillesReelles(noeuds), Tailles(noeuds.Keys, items));
  }

  /** The paths of the folders of a tree, the root aside. */
  function Chemin(places: set<seq<string>>): set<string> {
    set p | p in places && p != [] :: Joint(p)
  }

  lemma {:induction false} DescenteRang(p: seq<string>, k: nat, q: seq<string>)
    requires k <= |p|
    ensures q in Descente(p, k) <==> |q| <= k && q == p[..|q|]
  {
    if k > 0 {
      DescenteRang(p, k - 1, q);
    }
  }

  /** The folders of the tree are the lineages of the folders it was built from. */
  lemma CheminsDesPlaces(fs: seq<string>)
    ensures Chemin(Places(fs)) == Lignees(fs)
  {
    forall x | x in Chemin(Places(fs)) ensures x in Lignees(fs) {
      var q :| q in Places(fs) && q != [] && x == Joint(q);
      var f :| f in fs && q in Route(f);
      var p := Segments(f);
      DescenteRang(p, |p|, q);
      assert Joint(p[..|q|]) in Lignee(f);
    }
    forall x | x in Lignees(fs) ensures x in Chemin(Places(fs)) {
      var f :| f in fs && x in Lignee(f);
      var p := Segments(f);
      var j :| 1 <= j <= |p| && x == Joint(p[..j]);
      DescenteRang(p, |p|, p[..j]);
      assert p[..j] in Route(f);
    }
  }
}
