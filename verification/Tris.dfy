/** Sorted lists of strings, in the order of their UTF-16 code units. */
module Tris {
  import opened Suites

  /** The rank of a character in the order of the UTF-16 code units that write it: those beyond U+FFFF take a pair of
      units from D800 to DFFF, hence come before those from U+E000 to U+FFFF. */
  function Rang16(c: char): int {
    if 0xE000 <= c as int < 0x1_0000 then 0x11_0000 + c as int else c as int
  }

  /** `a` sorts before `b`, code unit by code unit. */
  predicate Avant(a: string, b: string) {
    b != "" && (a == "" || Rang16(a[0]) < Rang16(b[0]) || (a[0] == b[0] && Avant(a[1..], b[1..])))
  }

  lemma {:induction false} AvantTotal(a: string, b: string)
    ensures Avant(a, b) || Avant(b, a) || a == b
  {
    if a != "" && b != "" && a[0] == b[0] {
      AvantTotal(a[1..], b[1..]);
      assert a == [a[0]] + a[1..] && b == [b[0]] + b[1..];
    }
  }

  lemma {:induction false} AvantStrict(a: string, b: string)
    ensures !(Avant(a, b) && Avant(b, a))
  {
    if a != "" && b != "" && a[0] == b[0] {
      AvantStrict(a[1..], b[1..]);
    }
  }

  lemma {:induction false} AvantTransitif(a: string, b: string, c: string)
    requires Avant(a, b) && Avant(b, c)
    ensures Avant(a, c)
  {
    if a != "" && a[0] == b[0] == c[0] {
      AvantTransitif(a[1..], b[1..], c[1..]);
    }
  }

  /** In strictly increasing order, hence without duplicates. */
  ghost predicate Triee(s: seq<string>) {
    forall i, j :: 0 <= i < j < |s| ==> Avant(s[i], s[j])
  }

  function Inserer(s: seq<string>, x: string): seq<string> {
    if s == [] || Avant(x, s[0]) then [x] + s else [s[0]] + Inserer(s[1..], x)
  }

  lemma {:induction false} InsererTriee(s: seq<string>, x: string)
    requires Triee(s) && x !in s
    ensures Triee(Inserer(s, x))
  {
    if s != [] {
      if Avant(x, s[0]) {
        forall j | 0 < j < |s| ensures Avant(x, s[j]) {
          AvantTransitif(x, s[0], s[j]);
        }
        EnTete(x, s);
      } else {
        AvantTotal(x, s[0]);
        InsererTriee(s[1..], x);
        var suite := Inserer(s[1..], x);
        forall j | 0 <= j < |suite| ensures Avant(s[0], suite[j]) {
          MembresInserer(s[1..], x);
          assert suite[j] in Membres(suite);
        }
        EnTete(s[0], suite);
      }
    }
  }

  lemma EnTete(x: string, s: seq<string>)
    requires Triee(s) && forall j :: 0 <= j < |s| ==> Avant(x, s[j])
    ensures Triee([x] + s)
  {
  }

  lemma MembresEnTete(x: string, s: seq<string>)
    ensures Membres([x] + s) == Membres(s) + {x}
  {
    assert forall y :: y in [x] + s <==> y == x || y in s;
  }

  lemma {:induction false} MembresInserer(s: seq<string>, x: string)
    ensures Membres(Inserer(s, x)) == Membres(s) + {x}
  {
    if s == [] || Avant(x, s[0]) {
      MembresEnTete(x, s);
    } else {
      MembresInserer(s[1..], x);
      MembresEnTete(s[0], Inserer(s[1..], x));
      MembresEnTete(s[0], s[1..]);
      assert s == [s[0]] + s[1..];
    }
  }

  /** A set of paths has one sorted list only. */
  lemma {:induction false} TrieeUnique(a: seq<string>, b: seq<string>)
    requires Triee(a) && Triee(b) && Membres(a) == Membres(b)
    ensures a == b
  {
    if a == [] || b == [] {
      SansMembre(a);
      SansMembre(b);
    } else {
      MemePremier(a, b);
      assert Membres(a[1..]) == Membres(a) - {a[0]} by { SansPremier(a); }
      assert Membres(b[1..]) == Membres(b) - {b[0]} by { SansPremier(b); }
      TrieeUnique(a[1..], b[1..]);
      assert a == [a[0]] + a[1..] && b == [b[0]] + b[1..];
    }
  }

  lemma SansMembre(s: seq<string>)
    ensures Membres(s) == {} <==> s == []
  {
    if s != [] {
      assert s[0] in Membres(s);
    }
  }

  lemma MemePremier(a: seq<string>, b: seq<string>)
    requires Triee(a) && Triee(b) && Membres(a) == Membres(b) && a != [] && b != []
    ensures a[0] == b[0]
  {
    assert a[0] in Membres(b) && b[0] in Membres(a);
    var i :| 0 <= i < |a| && a[i] == b[0];
    var j :| 0 <= j < |b| && b[j] == a[0];
    AvantStrict(a[0], b[0]);
  }

  lemma SansPremier(s: seq<string>)
    requires Triee(s) && s != []
    ensures Membres(s[1..]) == Membres(s) - {s[0]}
  {
    AvantStrict(s[0], s[0]);
    assert s == [s[0]] + s[1..];
  }

  /** The library's sort, on what the set holds. */
  method Trier(chemins: set<string>) returns (s: seq<string>)
    ensures Triee(s) && Membres(s) == chemins
  {
    s := [];
    var reste := chemins;
    while reste != {}
      invariant reste <= chemins && Triee(s) && Membres(s) == chemins - reste
      decreases reste
    {
      var x :| x in reste;
      assert x !in Membres(s);
      InsererTriee(s, x);
      MembresInserer(s, x);
      s, reste := Inserer(s, x), reste - {x};
    }
  }
}
