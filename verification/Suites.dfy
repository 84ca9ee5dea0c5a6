/** What sequences have in common whatever they hold. */
module Suites {
  function Membres<T(==)>(s: seq<T>): set<T> {
    set x | x in s
  }

  lemma Associe<T>(a: seq<T>, b: seq<T>, c: seq<T>)
    ensures (a + b) + c == a + (b + c) && [] + b == b
  {
  }
}
