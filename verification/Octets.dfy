/** Bytes, little-endian integers and the usual optional value. */
module Octets {
  datatype Option<+T> = None | Some(value: T)

  type octet = x: int | 0 <= x < 0x100
  type u16 = x: int | 0 <= x < 0x1_0000
  type u32 = x: int | 0 <= x < 0x1_0000_0000

  function U16(o: seq<octet>, i: nat): u16
    requires i + 2 <= |o|
  {
    o[i] as int + 0x100 * (o[i + 1] as int)
  }

  function U32(o: seq<octet>, i: nat): u32
    requires i + 4 <= |o|
  {
    U16(o, i) as int + 0x1_0000 * (U16(o, i + 2) as int)
  }

  function Le16(v: u16): seq<octet> {
    [v % 0x100, v / 0x100]
  }

  function Le32(v: u32): seq<octet> {
    Le16(v % 0x1_0000) + Le16(v / 0x1_0000)
  }

  /** Reading back a two-byte integer written anywhere in a buffer gives it back. */
  lemma Le16Relu(o: seq<octet>, i: nat, v: u16)
    requires i + 2 <= |o| && o[i..i + 2] == Le16(v)
    ensures U16(o, i) == v
  {
    assert o[i] == o[i..i + 2][0] && o[i + 1] == o[i..i + 2][1];
  }

  lemma Le32Relu(o: seq<octet>, i: nat, v: u32)
    requires i + 4 <= |o| && o[i..i + 4] == Le32(v)
    ensures U32(o, i) == v
  {
    assert o[i..i + 2] == o[i..i + 4][..2] && o[i + 2..i + 4] == o[i..i + 4][2..];
    Le16Relu(o, i, v % 0x1_0000);
    Le16Relu(o, i + 2, v / 0x1_0000);
  }

  /** ... and writing one that was read gives its bytes. */
  lemma EntierEcrit(o: seq<octet>, i: nat)
    requires i + 4 <= |o|
    ensures o[i..i + 4] == Le32(U32(o, i))
  {
    var bas, haut := U16(o, i), U16(o, i + 2);
    assert U32(o, i) % 0x1_0000 == bas && U32(o, i) / 0x1_0000 == haut;
    assert Le16(bas) == o[i..i + 2] && Le16(haut) == o[i + 2..i + 4];
  }

  function Min(a: int, b: int): int {
    if a <= b then a else b
  }

  function Max(a: int, b: int): int {
    if a <= b then b else a
  }

  /** Rust's `saturating_add` on `u16`. */
  function Sature16(v: nat): u16 {
    if v < 0x1_0000 then v else 0xFFFF
  }

  // ---------- Messages written in a buffer ----------

  /** The buffer holds `m` from offset `i`. */
  ghost predicate EcritEn(o: seq<octet>, i: nat, m: seq<octet>) {
    i + |m| <= |o| && o[i..i + |m|] == m
  }

  lemma EcritDeux(o: seq<octet>, i: nat, a: seq<octet>, b: seq<octet>)
    requires EcritEn(o, i, a + b)
    ensures EcritEn(o, i, a) && EcritEn(o, i + |a|, b)
  {
    var m := a + b;
    assert o[i..i + |a|] == o[i..i + |m|][..|a|] && m[..|a|] == a;
    assert o[i + |a|..i + |m|] == o[i..i + |m|][|a|..] && m[|a|..] == b;
  }

  function Concat(ms: seq<seq<octet>>): seq<octet> {
    if ms == [] then [] else ms[0] + Concat(ms[1..])
  }

  /** The messages are written one after the other from offset `i`. */
  ghost predicate Ecrits(o: seq<octet>, i: nat, ms: seq<seq<octet>>)
    decreases |ms|
  {
    ms == [] || (EcritEn(o, i, ms[0]) && Ecrits(o, i + |ms[0]|, ms[1..]))
  }

  lemma {:induction false} ConcatEcrits(o: seq<octet>, i: nat, ms: seq<seq<octet>>)
    requires EcritEn(o, i, Concat(ms))
    ensures Ecrits(o, i, ms)
    decreases |ms|
  {
    if ms != [] {
      EcritDeux(o, i, ms[0], Concat(ms[1..]));
      ConcatEcrits(o, i + |ms[0]|, ms[1..]);
    }
  }
}
