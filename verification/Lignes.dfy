/** The rows of the transfer list: a keyed reconciliation of an ordered list of children. */
module Lignes {
  import opened Octets
  import opened Suites

  // ---------- The ordered children of one element ----------

  function Sans(z: seq<nat>, retires: set<nat>): (r: seq<nat>)
    ensures forall n :: n in r <==> n in z && n !in retires
  {
    if z == [] then [] else
      var debut := Sans(z[..|z| - 1], retires);
      if z[|z| - 1] in retires then debut else debut + [z[|z| - 1]]
  }

  function Position<T(==)>(z: seq<T>, n: T): (i: nat)
    ensures i <= |z| && (i < |z| ==> z[i] == n) && forall j :: 0 <= j < i ==> z[j] != n
  {
    if z == [] || z[0] == n then 0 else 1 + Position(z[1..], n)
  }

  /** The first child, or the sibling that follows `precedent`. */
  function Suivant(z: seq<nat>, precedent: Option<nat>): Option<nat> {
    var i := if precedent.None? then 0 else Position(z, precedent.value) + 1;
    if i < |z| then Some(z[i]) else None
  }

  /** `insertBefore`: the node leaves its place, if it had one, and comes just before `place`, or last. */
  function InsereAvant(z: seq<nat>, n: nat, place: Option<nat>): seq<nat> {
    var s := Sans(z, {n});
    var i := if place.None? then |s| else Position(s, place.value);
    s[..i] + [n] + s[i..]
  }

  ghost predicate Distincts(s: seq<nat>) {
    forall i, j :: 0 <= i < j < |s| ==> s[i] != s[j]
  }

  ghost predicate Injective(m: map<nat, nat>) {
    forall a, b :: a in m && b in m && m[a] == m[b] ==> a == b
  }

  /** The nodes of these identifiers, in their order. */
  function Rangees(m: map<nat, nat>, ids: seq<nat>): (r: seq<nat>)
    requires forall id :: id in ids ==> id in m
    ensures |r| == |ids| && forall i :: 0 <= i < |r| ==> r[i] == m[ids[i]]
  {
    seq(|ids|, i requires 0 <= i < |ids| => m[ids[i]])
  }

  lemma {:induction false} SansConcat(a: seq<nat>, b: seq<nat>, r: set<nat>)
    ensures Sans(a + b, r) == Sans(a, r) + Sans(b, r)
  {
    if b == [] {
      assert a + b == a;
    } else {
      assert (a + b)[..|a + b| - 1] == a + b[..|b| - 1];
      SansConcat(a, b[..|b| - 1], r);
    }
  }

  lemma SansUn(z: seq<nat>, n: nat, r: set<nat>)
    ensures Sans(z + [n], r) == Sans(z, r) + if n in r then [] else [n]
  {
    assert (z + [n])[..|z|] == z;
  }

  lemma {:induction false} SansAucun(z: seq<nat>, r: set<nat>)
    requires forall n :: n in z ==> n !in r
    ensures Sans(z, r) == z
  {
    if z != [] {
      SansAucun(z[..|z| - 1], r);
      assert z == z[..|z| - 1] + [z[|z| - 1]];
      assert z[|z| - 1] in z;
    }
  }

  lemma {:induction false} SansDeux(z: seq<nat>, r: set<nat>, q: set<nat>)
    ensures Sans(Sans(z, r), q) == Sans(z, r + q)
  {
    if z != [] {
      var d, x := z[..|z| - 1], z[|z| - 1];
      SansDeux(d, r, q);
      if x !in r {
        assert (Sans(d, r) + [x])[..|Sans(d, r)|] == Sans(d, r);
      }
    }
  }

  lemma {:induction false} SansDistincts(z: seq<nat>, r: set<nat>)
    requires Distincts(z)
    ensures Distincts(Sans(z, r))
  {
    if z != [] {
      var d, x := z[..|z| - 1], z[|z| - 1];
      SansDistincts(d, r);
      forall i | 0 <= i < |Sans(d, r)| ensures Sans(d, r)[i] != x {
        assert Sans(d, r)[i] in d;
      }
    }
  }

  lemma RangeesUn(m: map<nat, nat>, d: seq<nat>, x: nat)
    requires (forall id :: id in d ==> id in m) && x in m
    ensures Rangees(m, d + [x]) == Rangees(m, d) + [m[x]]
  {
  }

  lemma SansRangeeUn(m: map<nat, nat>, d: seq<nat>, x: nat, r: nat, z: seq<nat>)
    requires Injective(m) && (forall id :: id in d ==> id in m) && r in m && x in m && z == Rangees(m, d)
    requires Sans(z, {m[r]}) == Rangees(m, Sans(d, {r}))
    ensures Sans(Rangees(m, d + [x]), {m[r]}) == Rangees(m, Sans(d + [x], {r}))
  {
    RangeesUn(m, d, x);
    SansUn(z, m[x], {m[r]});
    SansUn(d, x, {r});
    if x != r {
      assert m[x] != m[r];
      RangeesUn(m, Sans(d, {r}), x);
    }
  }

  /** Taking out the row of one identifier leaves the rows of the others. */
  lemma {:induction false} SansRangee(m: map<nat, nat>, ids: seq<nat>, r: nat)
    requires Injective(m) && (forall id :: id in ids ==> id in m) && r in m
    ensures Sans(Rangees(m, ids), {m[r]}) == Rangees(m, Sans(ids, {r}))
  {
    if ids != [] {
      var d, x := ids[..|ids| - 1], ids[|ids| - 1];
      assert x in ids && ids == d + [x];
      SansRangee(m, d, r);
      SansRangeeUn(m, d, x, r, Rangees(m, d));
    }
  }

  /** A list without duplicates whose members are all among the first `k` of another such list has at most `k`. */
  lemma {:induction false} PasPlus(a: seq<nat>, b: seq<nat>)
    requires Distincts(a) && forall n :: n in a ==> n in b
    ensures |a| <= |b|
  {
    if a != [] {
      var x := a[|a| - 1];
      assert x in a;
      var i := Position(b, x);
      var c := b[..i] + b[i + 1..];
      forall n | n in a[..|a| - 1] ensures n in c {
        var k :| 0 <= k < |a| - 1 && a[k] == n;
        assert n in a;
        var j :| 0 <= j < |b| && b[j] == n;
        assert c[if j < i then j else j - 1] == n;
      }
      PasPlus(a[..|a| - 1], c);
    }
  }

  // ---------- One step of the second loop ----------

  /** Where the rows already placed end, the next sibling is the node at that index. */
  lemma SuivantApres(z: seq<nat>, debut: seq<nat>)
    requires Distincts(z) && debut <= z
    ensures Suivant(z, if debut == [] then None else Some(debut[|debut| - 1]))
         == if |debut| < |z| then Some(z[|debut|]) else None
  {
    if debut != [] {
      assert z[|debut| - 1] == debut[|debut| - 1];
    }
  }

  lemma SansTete(z: seq<nat>, n: nat)
    requires z != [] && z[0] != n
    ensures Sans(z, {n}) != [] && Sans(z, {n})[0] == z[0]
  {
    assert z == [z[0]] + z[1..];
    SansConcat([z[0]], z[1..], {n});
    SansAucun([z[0]], {n});
  }

  /** A row out of its place goes right after those already placed; the order of the others is kept. */
  lemma InsereApres(z: seq<nat>, debut: seq<nat>, n: nat)
    requires Distincts(z) && debut <= z && n !in debut && (|debut| < |z| ==> z[|debut|] != n)
    ensures InsereAvant(z, n, if |debut| < |z| then Some(z[|debut|]) else None)
         == debut + [n] + Sans(z[|debut|..], {n})
  {
    var k, fin := |debut|, z[|debut|..];
    assert z == debut + fin;
    SansConcat(debut, fin, {n});
    SansAucun(debut, {n});
    var s := debut + Sans(fin, {n});
    assert Sans(z, {n}) == s;
    if k < |z| {
      SansTete(fin, n);
      assert s[k] == z[k];
      PositionUnique(s, k, debut);
      assert s[..k] == debut && s[k..] == Sans(fin, {n});
    } else {
      assert s == debut && fin == [];
    }
  }

  lemma PositionUnique(s: seq<nat>, k: nat, debut: seq<nat>)
    requires |debut| == k < |s| && debut <= s && s[k] !in debut
    ensures Position(s, s[k]) == k
  {
    forall j | 0 <= j < k ensures s[j] in debut {
      assert s[j] == debut[j];
    }
  }

  /** Is the row already the one after those placed? */
  predicate EnPlace(z: seq<nat>, debut: seq<nat>, n: nat) {
    |debut| < |z| && z[|debut|] == n
  }

  /** The children once it is: nothing moves if it was, and otherwise the others keep their order. */
  function Placee(z: seq<nat>, debut: seq<nat>, n: nat): seq<nat>
    requires debut <= z
  {
    if EnPlace(z, debut, n) then z else debut + [n] + Sans(z[|debut|..], {n})
  }

  lemma PlaceeDistincts(z: seq<nat>, debut: seq<nat>, n: nat)
    requires Distincts(z) && debut <= z && n !in debut
    ensures Distincts(Placee(z, debut, n)) && debut + [n] <= Placee(z, debut, n)
    ensures forall m :: m in Placee(z, debut, n) ==> m in z || m == n
  {
    if EnPlace(z, debut, n) {
      assert z[..|debut| + 1] == debut + [n];
    } else {
      var fin := z[|debut|..];
      SansDistincts(fin, {n});
      var s := Sans(fin, {n});
      forall i, j | 0 <= i < |debut| && 0 <= j < |s| ensures debut[i] != s[j] {
        assert s[j] in fin;
        var k :| 0 <= k < |fin| && fin[k] == s[j];
        assert z[|debut| + k] == s[j];
      }
    }
  }

  /** The identifiers still wanted, in the order they were drawn in. */
  function Gardes(ordre: seq<nat>, ids: seq<nat>): seq<nat> {
    Sans(ordre, Membres(ordre) - Membres(ids))
  }

  /** The children are the rows of these transfers, in this order, one each. */
  ghost predicate Fidele(ordre: seq<nat>, lignes: map<nat, nat>, noeuds: nat, zone: seq<nat>) {
    && Distincts(ordre) && Membres(ordre) == lignes.Keys
    && Injective(lignes) && (forall id :: id in lignes ==> lignes[id] < noeuds)
    && zone == Rangees(lignes, ordre)
  }

  lemma RetraitFidele(ordre: seq<nat>, lignes: map<nat, nat>, noeuds: nat, zone: seq<nat>, id: nat)
    requires Fidele(ordre, lignes, noeuds, zone) && id in lignes
    ensures Fidele(Sans(ordre, {id}), lignes - {id}, noeuds, Sans(zone, {lignes[id]}))
  {
    SansRangee(lignes, ordre, id);
    SansDistincts(ordre, {id});
    MembresSans(ordre, lignes, id);
    var o, l := Sans(ordre, {id}), lignes - {id};
    assert Rangees(lignes, o) == Rangees(l, o);
  }

  lemma MembresSans(ordre: seq<nat>, lignes: map<nat, nat>, id: nat)
    requires Membres(ordre) == lignes.Keys
    ensures Membres(Sans(ordre, {id})) == (lignes - {id}).Keys
  {
  }

  // ---------- The loop over the rows, while `absents` are still to be taken out ----------

  function Restreinte(l: map<nat, nat>, s: set<nat>): map<nat, nat> {
    map id | id in l && id in s :: l[id]
  }

  ghost predicate Retrait(tous: seq<nat>, l: map<nat, nat>, ids: seq<nat>, absents: set<nat>, ordre: seq<nat>,
                          lignes: map<nat, nat>) {
    var attendus := Membres(tous) - Membres(ids);
    && Membres(tous) == l.Keys && absents <= attendus
    && ordre == Sans(tous, attendus - absents)
    && lignes.Keys == l.Keys - (attendus - absents) && forall id :: id in lignes ==> lignes[id] == l[id]
  }

  lemma DebutDuRetrait(tous: seq<nat>, l: map<nat, nat>, ids: seq<nat>)
    requires Membres(tous) == l.Keys
    ensures Retrait(tous, l, ids, l.Keys - Membres(ids), tous, l)
  {
    SansAucun(tous, {});
    var a := Membres(tous) - Membres(ids);
    assert a - a == {};
  }

  lemma UnRetrait(tous: seq<nat>, l: map<nat, nat>, ids: seq<nat>, absents: set<nat>, ordre: seq<nat>,
                  lignes: map<nat, nat>, id: nat)
    requires Retrait(tous, l, ids, absents, ordre, lignes) && id in absents
    ensures id in lignes && Retrait(tous, l, ids, absents - {id}, Sans(ordre, {id}), lignes - {id})
  {
    var attendus := Membres(tous) - Membres(ids);
    SansDeux(tous, attendus - absents, {id});
    assert attendus - (absents - {id}) == (attendus - absents) + {id};
  }

  lemma FinDuRetrait(tous: seq<nat>, l: map<nat, nat>, ids: seq<nat>, ordre: seq<nat>, lignes: map<nat, nat>)
    requires Retrait(tous, l, ids, {}, ordre, lignes)
    ensures ordre == Gardes(tous, ids) && lignes == Restreinte(l, Membres(ids))
  {
    assert (Membres(tous) - Membres(ids)) - {} == Membres(tous) - Membres(ids);
  }

  // ---------- The loop over the queue, after k rows ----------

  /** Rows `lignes` and children `zone` when the first k transfers are placed; `l` were the surviving rows. */
  ghost predicate Partiel(l: map<nat, nat>, n: nat, ids: seq<nat>, k: nat, lignes: map<nat, nat>, noeuds: nat,
                          zone: seq<nat>)
    requires k <= |ids|
  {
    && Injective(lignes) && Distincts(zone) && n <= noeuds
    && lignes.Keys == l.Keys + Membres(ids[..k])
    && (forall id :: id in l ==> id in lignes && lignes[id] == l[id])
    && (forall id :: id in lignes ==> lignes[id] < noeuds && (id in l || n <= lignes[id]))
    && (forall m :: m in zone ==> m in lignes.Values)
    && Rangees(lignes, ids[..k]) <= zone
  }

  /** When the surviving rows were already in order, only the new ones were inserted, each made just before. */
  ghost predicate SansDeplacer(gardes: seq<nat>, n: nat, ids: seq<nat>, k: nat, lignes: map<nat, nat>, noeuds: nat,
                               zone: seq<nat>, ajouts: seq<nat>)
    requires |gardes| <= |ids| && k <= |ids|
  {
    var j := if k < |gardes| then |gardes| else k;
    && noeuds == n + j - |gardes| && (forall i :: 0 <= i < j ==> ids[i] in lignes)
    && zone == Rangees(lignes, ids[..j])
    && ajouts == seq(j - |gardes|, i requires 0 <= i => n + i)
    && (forall i :: |gardes| <= i < j ==> lignes[ids[i]] == n + i - |gardes|)
  }

  /** Before the first row. */
  lemma DebutDuRendu(l: map<nat, nat>, gardes: seq<nat>, n: nat, ids: seq<nat>, zone: seq<nat>)
    requires Distincts(gardes) && Membres(gardes) == l.Keys && Injective(l) && zone == Rangees(l, gardes)
    requires forall id :: id in l ==> l[id] < n
    ensures Partiel(l, n, ids, 0, l, n, zone)
    ensures gardes <= ids ==> SansDeplacer(gardes, n, ids, 0, l, n, zone, [])
  {
    if gardes <= ids {
      assert ids[..|gardes|] == gardes;
    }
  }

  /** The row of the next transfer is at hand, and is not one of those placed. */
  lemma LigneSuivante(l: map<nat, nat>, n: nat, ids: seq<nat>, k: nat,
                      lignes: map<nat, nat>, noeuds: nat, zone: seq<nat>,
                      apres: map<nat, nat>, noeudsApres: nat)
    requires k < |ids| && Distincts(ids) && Partiel(l, n, ids, k, lignes, noeuds, zone)
    requires if ids[k] in lignes then apres == lignes && noeudsApres == noeuds
             else apres == lignes[ids[k] := noeuds] && noeudsApres == noeuds + 1
    ensures Rangees(apres, ids[..k]) == Rangees(lignes, ids[..k]) && apres[ids[k]] !in Rangees(apres, ids[..k])
    ensures Injective(apres) && n <= noeudsApres && apres.Keys == l.Keys + Membres(ids[..k + 1])
    ensures forall id :: id in l ==> id in apres && apres[id] == l[id]
    ensures forall id :: id in apres ==> apres[id] < noeudsApres && (id in l || n <= apres[id])
    ensures forall m :: m in zone ==> m in apres.Values
  {
    assert ids[..k + 1] == ids[..k] + [ids[k]];
  }

  /** It has been placed. */
  lemma LignePlacee(l: map<nat, nat>, n: nat, ids: seq<nat>, k: nat, avant: seq<nat>,
                     lignes: map<nat, nat>, noeuds: nat)
    requires k < |ids| && Injective(lignes) && n <= noeuds && lignes.Keys == l.Keys + Membres(ids[..k + 1])
    requires (forall id :: id in ids[..k] ==> id in lignes) && ids[k] in lignes
    requires forall id :: id in l ==> id in lignes && lignes[id] == l[id]
    requires forall id :: id in lignes ==> lignes[id] < noeuds && (id in l || n <= lignes[id])
    requires forall m :: m in avant ==> m in lignes.Values
    requires Distincts(avant) && Rangees(lignes, ids[..k]) <= avant && lignes[ids[k]] !in Rangees(lignes, ids[..k])
    ensures Partiel(l, n, ids, k + 1, lignes, noeuds, Placee(avant, Rangees(lignes, ids[..k]), lignes[ids[k]]))
  {
    assert ids[..k + 1] == ids[..k] + [ids[k]];
    PlaceeDistincts(avant, Rangees(lignes, ids[..k]), lignes[ids[k]]);
    assert Rangees(lignes, ids[..k + 1]) == Rangees(lignes, ids[..k]) + [lignes[ids[k]]];
  }

  /** The loop after k rows, with the insertions made since `deja`. */
  ghost predicate Avance(l: map<nat, nat>, gardes: seq<nat>, n: nat, ids: seq<nat>, k: nat, deja: seq<nat>,
                         lignes: map<nat, nat>, noeuds: nat, zone: seq<nat>, inserees: seq<nat>)
    requires k <= |ids|
  {
    && Partiel(l, n, ids, k, lignes, noeuds, zone) && deja <= inserees
    && (gardes <= ids ==> SansDeplacer(gardes, n, ids, k, lignes, noeuds, zone, inserees[|deja|..]))
  }

  /** A row already there was the next child; a new one goes last. */
  lemma SansDeplacerSuivant(l: map<nat, nat>, gardes: seq<nat>, n: nat, ids: seq<nat>, k: nat,
                            avant: map<nat, nat>, noeudsAvant: nat, zone: seq<nat>, ajouts: seq<nat>,
                            lignes: map<nat, nat>, noeuds: nat, debut: seq<nat>)
    requires k < |ids| && Distincts(ids) && gardes <= ids && Membres(gardes) == l.Keys
    requires avant.Keys == l.Keys + Membres(ids[..k])
    requires SansDeplacer(gardes, n, ids, k, avant, noeudsAvant, zone, ajouts)
    requires if ids[k] in avant then lignes == avant && noeuds == noeudsAvant
             else lignes == avant[ids[k] := noeudsAvant] && noeuds == noeudsAvant + 1
    requires debut <= zone && |debut| == k
    ensures var x := lignes[ids[k]];
            SansDeplacer(gardes, n, ids, k + 1, lignes, noeuds, Placee(zone, debut, x),
                         ajouts + if EnPlace(zone, debut, x) then [] else [x])
  {
    if k < |gardes| {
      assert ids[k] == gardes[k] && gardes[k] in gardes;
      assert zone[k] == avant[ids[k]];
      assert ajouts + [] == ajouts;
    } else {
      NouvelleLigne(l, gardes, ids, k, avant);
      assert zone[k..] == [];
      assert ids[..k + 1] == ids[..k] + [ids[k]];
      assert Placee(zone, debut, lignes[ids[k]]) == Rangees(lignes, ids[..k + 1]);
    }
  }

  lemma NouvelleLigne(l: map<nat, nat>, gardes: seq<nat>, ids: seq<nat>, k: nat, avant: map<nat, nat>)
    requires |gardes| <= k < |ids| && Distincts(ids) && gardes <= ids && Membres(gardes) == l.Keys
    requires avant.Keys == l.Keys + Membres(ids[..k])
    ensures ids[k] !in avant
  {
    forall i | 0 <= i < |gardes| ensures gardes[i] != ids[k] {
      assert gardes[i] == ids[i];
    }
    assert ids[k] !in Membres(gardes);
  }

  lemma AvanceSuivante(l: map<nat, nat>, gardes: seq<nat>, n: nat, ids: seq<nat>, k: nat, deja: seq<nat>,
                       avant: map<nat, nat>, noeudsAvant: nat, zone: seq<nat>, inserees: seq<nat>,
                       lignes: map<nat, nat>, noeuds: nat)
    requires k < |ids| && Distincts(ids) && Membres(gardes) == l.Keys
    requires Avance(l, gardes, n, ids, k, deja, avant, noeudsAvant, zone, inserees)
    requires if ids[k] in avant then lignes == avant && noeuds == noeudsAvant
             else lignes == avant[ids[k] := noeudsAvant] && noeuds == noeudsAvant + 1
    ensures forall id :: id in ids[..k] ==> id in lignes
    ensures var debut, x := Rangees(lignes, ids[..k]), lignes[ids[k]];
            && debut <= zone
            && Avance(l, gardes, n, ids, k + 1, deja, lignes, noeuds, Placee(zone, debut, x),
                      inserees + if EnPlace(zone, debut, x) then [] else [x])
  {
    PartielSuivant(l, n, ids, k, avant, noeudsAvant, zone, lignes, noeuds);
    var debut, x, ajouts := Rangees(lignes, ids[..k]), lignes[ids[k]], inserees[|deja|..];
    var plus := if EnPlace(zone, debut, x) then [] else [x];
    AjoutsSuivants(deja, inserees, plus);
    if gardes <= ids {
      SansDeplacerSuivant(l, gardes, n, ids, k, avant, noeudsAvant, zone, ajouts, lignes, noeuds, debut);
    }
  }

  lemma AjoutsSuivants(deja: seq<nat>, inserees: seq<nat>, plus: seq<nat>)
    requires deja <= inserees
    ensures deja <= inserees + plus && (inserees + plus)[|deja|..] == inserees[|deja|..] + plus
  {
  }

  lemma PartielSuivant(l: map<nat, nat>, n: nat, ids: seq<nat>, k: nat, avant: map<nat, nat>, noeudsAvant: nat,
                       zone: seq<nat>, lignes: map<nat, nat>, noeuds: nat)
    requires k < |ids| && Distincts(ids) && Partiel(l, n, ids, k, avant, noeudsAvant, zone)
    requires if ids[k] in avant then lignes == avant && noeuds == noeudsAvant
             else lignes == avant[ids[k] := noeudsAvant] && noeuds == noeudsAvant + 1
    ensures (forall id :: id in ids[..k] ==> id in lignes) && ids[k] in lignes
    ensures var debut := Rangees(lignes, ids[..k]);
            debut <= zone && Partiel(l, n, ids, k + 1, lignes, noeuds, Placee(zone, debut, lignes[ids[k]]))
  {
    LigneSuivante(l, n, ids, k, avant, noeudsAvant, zone, lignes, noeuds);
    LignePlacee(l, n, ids, k, zone, lignes, noeuds);
  }

  /** After the last row: nothing else is left in the list. */
  lemma FinDuRendu(l: map<nat, nat>, n: nat, ids: seq<nat>, lignes: map<nat, nat>, noeuds: nat, zone: seq<nat>)
    requires Partiel(l, n, ids, |ids|, lignes, noeuds, zone) && forall id :: id in l ==> id in ids
    ensures zone == Rangees(lignes, ids) && Membres(ids) == lignes.Keys
  {
    var rangs := Rangees(lignes, ids);
    assert ids[..|ids|] == ids;
    forall m | m in zone ensures m in rangs {
      var id :| id in lignes && lignes[id] == m;
      var i :| 0 <= i < |ids| && ids[i] == id;
      assert rangs[i] == m;
    }
    PasPlus(zone, rangs);
  }

  /** The row placed last, if any. */
  ghost predicate Precede(lignes: map<nat, nat>, ids: seq<nat>, k: nat, precedent: Option<nat>)
    requires k <= |ids|
  {
    if k == 0 then precedent == None else ids[k - 1] in lignes && precedent == Some(lignes[ids[k - 1]])
  }

  lemma PrecedeDernier(avant: map<nat, nat>, lignes: map<nat, nat>, ids: seq<nat>, k: nat, precedent: Option<nat>)
    requires k <= |ids| && Precede(avant, ids, k, precedent)
    requires forall id :: id in ids[..k] ==> id in avant && id in lignes
    requires Rangees(avant, ids[..k]) == Rangees(lignes, ids[..k])
    ensures var debut := Rangees(lignes, ids[..k]);
            precedent == if debut == [] then None else Some(debut[|debut| - 1])
  {
    if k > 0 {
      assert ids[..k][k - 1] == ids[k - 1];
      assert Rangees(avant, ids[..k])[k - 1] == avant[ids[k - 1]];
    }
  }

  /** What placing the next row asks for. */
  lemma PretAPlacer(l: map<nat, nat>, gardes: seq<nat>, n: nat, ids: seq<nat>, k: nat, deja: seq<nat>,
                    avant: map<nat, nat>, noeudsAvant: nat, zone: seq<nat>, inserees: seq<nat>,
                    lignes: map<nat, nat>, noeuds: nat, precedent: Option<nat>)
    requires k < |ids| && Distincts(ids) && Avance(l, gardes, n, ids, k, deja, avant, noeudsAvant, zone, inserees)
    requires if ids[k] in avant then lignes == avant && noeuds == noeudsAvant
             else lignes == avant[ids[k] := noeudsAvant] && noeuds == noeudsAvant + 1
    requires Precede(avant, ids, k, precedent)
    ensures forall id :: id in ids[..k] ==> id in lignes
    ensures var debut := Rangees(lignes, ids[..k]);
            && Distincts(zone) && debut <= zone && lignes[ids[k]] !in debut
            && precedent == if debut == [] then None else Some(debut[|debut| - 1])
  {
    LigneSuivante(l, n, ids, k, avant, noeudsAvant, zone, lignes, noeuds);
    PrecedeDernier(avant, lignes, ids, k, precedent);
  }

  class Rendu {
    /** The children of the list, in order; the row of each identifier; the next node; every insertion so far. */
    var zone: seq<nat>
    var lignes: map<nat, nat>
    var noeuds: nat
    var inserees: seq<nat>
    /** The identifiers in the order drawn last. */
    ghost var ordre: seq<nat>

    ghost predicate Valid()
      reads this
    {
      Fidele(ordre, lignes, noeuds, zone)
    }

    constructor ()
      ensures Valid() && ordre == [] && noeuds == 0 && inserees == []
    {
      zone, lignes, noeuds, inserees, ordre := [], map[], 0, [], [];
    }

    /** Brings a row right after those already in place; touches nothing if it is there. */
    method Placer(n: nat, precedent: Option<nat>, ghost debut: seq<nat>)
      requires Distincts(zone) && debut <= zone && n !in debut
      requires precedent == if debut == [] then None else Some(debut[|debut| - 1])
      modifies `zone, `inserees
      ensures zone == Placee(old(zone), debut, n)
      ensures inserees == old(inserees) + if EnPlace(old(zone), debut, n) then [] else [n]
    {
      var place := Suivant(zone, precedent);
      SuivantApres(zone, debut);
      if place != Some(n) {
        InsereApres(zone, debut, n);
        zone, inserees := InsereAvant(zone, n, place), inserees + [n];
      }
    }

    method RetirerLigne(id: nat)
      requires Valid() && id in lignes
      modifies `zone, `lignes, `ordre
      ensures Valid() && ordre == Sans(old(ordre), {id}) && lignes == old(lignes) - {id}
    {
      RetraitFidele(ordre, lignes, noeuds, zone, id);
      zone, lignes := Sans(zone, {lignes[id]}), lignes - {id};
      ordre := Sans(ordre, {id});
    }

    /** Takes out the rows of the transfers that have left. */
    method RetirerAbsents(ids: seq<nat>)
      requires Valid()
      modifies `zone, `lignes, `ordre
      ensures Valid() && ordre == Gardes(old(ordre), ids)
      ensures lignes == Restreinte(old(lignes), Membres(ids))
    {
      ghost var l, tous := lignes, ordre;
      var absents := lignes.Keys - Membres(ids);
      DebutDuRetrait(tous, l, ids);
      while absents != {}
        invariant Retrait(tous, l, ids, absents, ordre, lignes) && Valid()
        decreases absents
      {
        var id :| id in absents;
        UnRetrait(tous, l, ids, absents, ordre, lignes, id);
        RetirerLigne(id);
        absents := absents - {id};
      }
      FinDuRetrait(tous, l, ids, ordre, lignes);
    }

    /** The row of a transfer, made if it has none yet. */
    method Ligne(id: nat) returns (n: nat)
      modifies `lignes, `noeuds
      ensures id in lignes && n == lignes[id]
      ensures if id in old(lignes) then lignes == old(lignes) && noeuds == old(noeuds)
              else lignes == old(lignes)[id := old(noeuds)] && noeuds == old(noeuds) + 1
    {
      if id !in lignes {
        lignes, noeuds := lignes[id := noeuds], noeuds + 1;
      }
      n := lignes[id];
    }

    /** One turn of the loop over the queue. */
    method RendreLigne(ids: seq<nat>, k: nat, precedent: Option<nat>,
                       ghost l: map<nat, nat>, ghost gardes: seq<nat>, ghost n: nat, ghost deja: seq<nat>)
      returns (suivant: Option<nat>)
      requires k < |ids| && Distincts(ids) && Membres(gardes) == l.Keys
      requires Avance(l, gardes, n, ids, k, deja, lignes, noeuds, zone, inserees)
      requires Precede(lignes, ids, k, precedent)
      modifies `zone, `lignes, `noeuds, `inserees
      ensures Avance(l, gardes, n, ids, k + 1, deja, lignes, noeuds, zone, inserees)
      ensures Precede(lignes, ids, k + 1, suivant)
    {
      ghost var lignes0, noeuds0, zone0, inserees0 := lignes, noeuds, zone, inserees;
      var noeud := Ligne(ids[k]);
      suivant := Some(noeud);
      PretAPlacer(l, gardes, n, ids, k, deja, lignes0, noeuds0, zone0, inserees0, lignes, noeuds, precedent);
      Placer(noeud, precedent, Rangees(lignes, ids[..k]));
      AvanceSuivante(l, gardes, n, ids, k, deja, lignes0, noeuds0, zone0, inserees0, lignes, noeuds);
    }

    /** The loop over the queue. */
    method RendreLignes(ids: seq<nat>,
                        ghost l: map<nat, nat>, ghost gardes: seq<nat>, ghost n: nat, ghost deja: seq<nat>)
      requires Distincts(ids) && Membres(gardes) == l.Keys
      requires Avance(l, gardes, n, ids, 0, deja, lignes, noeuds, zone, inserees)
      modifies `zone, `lignes, `noeuds, `inserees
      ensures Avance(l, gardes, n, ids, |ids|, deja, lignes, noeuds, zone, inserees)
    {
      var precedent := None;
      for k := 0 to |ids|
        invariant Precede(lignes, ids, k, precedent)
        invariant Avance(l, gardes, n, ids, k, deja, lignes, noeuds, zone, inserees)
      {
        precedent := RendreLigne(ids, k, precedent, l, gardes, n, deja);
      }
    }

    /** Draws the queue: its rows are exactly its transfers in order, surviving rows keep their node, and when the
        survivors are already in order nothing but the new rows is inserted. */
    method Rendre(ids: seq<nat>)
      requires Valid() && Distincts(ids)
      modifies this
      ensures Valid() && ordre == ids && old(inserees) <= inserees
      ensures forall id :: id in ids && id in old(lignes) ==> lignes[id] == old(lignes)[id]
      ensures forall id :: id in ids && id !in old(lignes) ==> lignes[id] >= old(noeuds)
      ensures var gardes := Gardes(old(ordre), ids);
              gardes <= ids ==>
                SansDeplacer(gardes, old(noeuds), ids, |ids|, lignes, noeuds, zone, inserees[|old(inserees)|..])
    {
      RetirerAbsents(ids);
      ghost var l, gardes, n, deja := lignes, ordre, noeuds, inserees;
      DebutDuRendu(l, gardes, n, ids, zone);
      assert inserees[|deja|..] == [];
      RendreLignes(ids, l, gardes, n, deja);
      FinDuRendu(l, n, ids, lignes, noeuds, zone);
      ordre := ids;
    }
  }
}
