/** Cutting the decompressed stream into PDUs, and the acknowledgements sent back. */
module Cadrage {
  import opened Octets
  import opened Suites
  import opened EgfxModele

  /** A whole PDU begins at `i`: its header is there, its length covers the header and stays inside the buffer. */
  predicate Entier(o: seq<octet>, i: nat) {
    i + 8 <= |o| && U32(o, i + 4) >= 8 && i + U32(o, i + 4) <= |o|
  }

  function Longueur(o: seq<octet>, i: nat): nat
    requires Entier(o, i)
  {
    U32(o, i + 4)
  }

  function PduEn(o: seq<octet>, i: nat): Pdu
    requires Entier(o, i)
  {
    Pdu(U16(o, i), o[i + 8..i + Longueur(o, i)])
  }

  /** The PDUs of a buffer from offset `i` on. */
  function PdusDe(o: seq<octet>, i: nat): seq<Pdu>
    decreases |o| - i
  {
    if Entier(o, i) then [PduEn(o, i)] + PdusDe(o, i + Longueur(o, i)) else []
  }

  function Pdus(o: seq<octet>): seq<Pdu> {
    PdusDe(o, 0)
  }

  method Decouper(o: seq<octet>) returns (v: seq<Pdu>)
    ensures v == Pdus(o)
  {
    v := [];
    var i := 0;
    while i + 8 <= |o|
      invariant i <= |o| && Pdus(o) == v + PdusDe(o, i)
      decreases |o| - i
    {
      var id, n := U16(o, i), U32(o, i + 4);
      if n < 8 || i + n > |o| {
        break;
      }
      Associe(v, [PduEn(o, i)], PdusDe(o, i + n));
      v := v + [Pdu(id, o[i + 8..i + n])];
      i := i + n;
    }
    assert PdusDe(o, i) == [];
  }

  lemma UnPdu(o: seq<octet>, i: nat)
    requires Entier(o, i)
    ensures PdusDe(o, i) == [PduEn(o, i)] + PdusDe(o, i + Longueur(o, i))
  {
  }

  // ---------- Encoding ----------

  /** `m` is the wire form of `p` (section 2.2.1.5 of MS-RDPEGFX), whatever its flags. */
  predicate Code(m: seq<octet>, p: Pdu) {
    |m| == 8 + |p.charge| && U16(m, 0) == p.id && U32(m, 4) == |m| && m[8..] == p.charge
  }

  /** Encoding a PDU: identifier, flags, total length, payload. */
  function Encode(p: Pdu, drapeaux: u16): (m: seq<octet>)
    requires |p.charge| + 8 < 0x1_0000_0000
    ensures Code(m, p)
  {
    var m := Le16(p.id) + Le16(drapeaux) + Le32(8 + |p.charge|) + p.charge;
    assert m[0..2] == Le16(p.id) && m[4..8] == Le32(8 + |p.charge|);
    Le16Relu(m, 0, p.id);
    Le32Relu(m, 4, 8 + |p.charge|);
    m
  }

  ghost predicate Codes(ms: seq<seq<octet>>, ps: seq<Pdu>) {
    |ms| == |ps| && forall k :: 0 <= k < |ms| ==> Code(ms[k], ps[k])
  }

  /** A PDU is read back wherever its wire form was written. */
  lemma CodeRelu(o: seq<octet>, i: nat, m: seq<octet>, p: Pdu)
    requires Code(m, p) && EcritEn(o, i, m)
    ensures Entier(o, i) && Longueur(o, i) == |m| && PduEn(o, i) == p
  {
    assert forall k :: 0 <= k < |m| ==> o[i + k] == m[k];
    assert U16(o, i) == U16(m, 0) && U32(o, i + 4) == U32(m, 4);
    assert o[i + 8..i + |m|] == m[8..];
  }

  lemma UnEcritRelu(o: seq<octet>, i: nat, m: seq<octet>, p: Pdu, ps: seq<Pdu>, suite: seq<Pdu>)
    requires Code(m, p) && EcritEn(o, i, m) && PdusDe(o, i + |m|) == ps + suite
    ensures PdusDe(o, i) == [p] + ps + suite
  {
    CodeRelu(o, i, m, p);
    UnPdu(o, i);
    Associe([p], ps, suite);
  }

  lemma EcritsTete(o: seq<octet>, i: nat, ms: seq<seq<octet>>, ps: seq<Pdu>)
    requires Codes(ms, ps) && Ecrits(o, i, ms) && ps != []
    ensures Code(ms[0], ps[0]) && EcritEn(o, i, ms[0])
    ensures Codes(ms[1..], ps[1..]) && Ecrits(o, i + |ms[0]|, ms[1..])
    ensures i + |Concat(ms)| == i + |ms[0]| + |Concat(ms[1..])|
  {
  }

  lemma {:induction false} EcritsRelus(o: seq<octet>, i: nat, ms: seq<seq<octet>>, ps: seq<Pdu>, suite: seq<Pdu>)
    requires Codes(ms, ps) && Ecrits(o, i, ms) && suite == PdusDe(o, i + |Concat(ms)|)
    ensures PdusDe(o, i) == ps + suite
    decreases |ps|
  {
    if ps != [] {
      EcritsTete(o, i, ms, ps);
      EcritsRelus(o, i + |ms[0]|, ms[1..], ps[1..], suite);
      UnEcritRelu(o, i, ms[0], ps[0], ps[1..], suite);
      assert [ps[0]] + ps[1..] == ps;
    }
  }

  /** Cutting undoes concatenated encodings, wherever they are written, and goes on with what follows them. */
  lemma ConcatRelu(o: seq<octet>, i: nat, ms: seq<seq<octet>>, ps: seq<Pdu>)
    requires Codes(ms, ps) && EcritEn(o, i, Concat(ms))
    ensures PdusDe(o, i) == ps + PdusDe(o, i + |Concat(ms)|)
  {
    ConcatEcrits(o, i, ms);
    EcritsRelus(o, i, ms, ps, PdusDe(o, i + |Concat(ms)|));
  }

  // ---------- Any input ----------

  /** Where the k-th PDU after offset `i` begins. */
  function Position(o: seq<octet>, i: nat, k: nat): nat
    requires k <= |PdusDe(o, i)|
    decreases k
  {
    if k == 0 then i else Position(o, i + Longueur(o, i), k - 1)
  }

  /** On any buffer, from any offset: the PDUs are consecutive slices, each behind its own whole header. */
  lemma {:induction false} TranchesConsecutives(o: seq<octet>, i: nat, k: nat)
    requires k < |PdusDe(o, i)|
    ensures Entier(o, Position(o, i, k)) && PdusDe(o, i)[k] == PduEn(o, Position(o, i, k))
    ensures Position(o, i, k + 1) == Position(o, i, k) + Longueur(o, Position(o, i, k))
    decreases k
  {
    var j := i + Longueur(o, i);
    UnPdu(o, i);
    if k > 0 {
      TranchesConsecutives(o, j, k - 1);
      assert Position(o, i, k) == Position(o, j, k - 1) && Position(o, i, k + 1) == Position(o, j, k);
    } else {
      assert Position(o, i, 1) == Position(o, j, 0);
    }
  }

  /** Cutting stops inside the buffer, and only where no whole PDU begins. */
  lemma {:induction false} ArretExact(o: seq<octet>, i: nat)
    requires i <= |o|
    ensures i <= Position(o, i, |PdusDe(o, i)|) <= |o| && !Entier(o, Position(o, i, |PdusDe(o, i)|))
    decreases |o| - i
  {
    if Entier(o, i) {
      ArretExact(o, i + Longueur(o, i));
    }
  }

  // ---------- Acknowledgements ----------

  /** The frame identifiers of the EndFrame PDUs of a list, in order. */
  function FinsDeTrame(pdus: seq<Pdu>): seq<u32> {
    if pdus == [] then [] else
      var debut, p := FinsDeTrame(pdus[..|pdus| - 1]), pdus[|pdus| - 1];
      if EstEndFrame(p) then debut + [U32(p.charge, 0)] else debut
  }

  /** The acknowledgements of a list of frames after `t` others: numbered t + 1, t + 2, ... modulo 2^32. */
  function Accuses(t: u32, fins: seq<u32>): (r: seq<seq<octet>>)
    ensures |r| == |fins|
  {
    if fins == [] then [] else
      var n := |fins|;
      Accuses(t, fins[..n - 1]) + [FrameAcknowledge(fins[n - 1], (t + n) % 0x1_0000_0000)]
  }

  lemma AccusesPlusUn(t: u32, fins: seq<u32>, trame: u32)
    ensures Accuses(t, fins + [trame]) == Accuses(t, fins) + [FrameAcknowledge(trame, (t + |fins| + 1) % 0x1_0000_0000)]
  {
    assert (fins + [trame])[..|fins|] == fins;
  }

  lemma {:induction false} CompteurExact(e: Etat, pdus: seq<Pdu>, decodes: nat -> Decodage)
    ensures TraiteTous(e, pdus, decodes).0.tramesDecodees == (e.tramesDecodees + |FinsDeTrame(pdus)|) % 0x1_0000_0000
  {
    if pdus != [] {
      var k := |pdus| - 1;
      CompteurExact(e, pdus[..k], decodes);
      CompteTrames(TraiteTous(e, pdus[..k], decodes).0, pdus[k], decodes(k));
      SuivantModulo(e.tramesDecodees + |FinsDeTrame(pdus[..k])|);
    }
  }

  /** One more PDU: the answers of the list grow by its acknowledgement, if it ends a frame. */
  lemma UnAccuseDePlus(e: Etat, t: u32, fins: seq<u32>, p: Pdu)
    requires e.tramesDecodees == (t + |fins|) % 0x1_0000_0000 && EstEndFrame(p)
    ensures Accuses(t, fins + [U32(p.charge, 0)]) == Accuses(t, fins) + [Reponse(e, p).value]
  {
    SuivantModulo(t + |fins|);
    AccusesPlusUn(t, fins, U32(p.charge, 0));
  }

  /** A call answers exactly one acknowledgement per EndFrame, in order and consecutively numbered. */
  lemma {:induction false} UnAccuseParTrame(e: Etat, pdus: seq<Pdu>, decodes: nat -> Decodage)
    ensures TraiteTous(e, pdus, decodes).1 == Accuses(e.tramesDecodees, FinsDeTrame(pdus))
  {
    if pdus != [] {
      var k := |pdus| - 1;
      UnAccuseParTrame(e, pdus[..k], decodes);
      if EstEndFrame(pdus[k]) {
        CompteurExact(e, pdus[..k], decodes);
        UnAccuseDePlus(TraiteTous(e, pdus[..k], decodes).0, e.tramesDecodees, FinsDeTrame(pdus[..k]), pdus[k]);
      }
    }
  }

  lemma SuivantModulo(n: nat)
    ensures (n % 0x1_0000_0000 + 1) % 0x1_0000_0000 == (n + 1) % 0x1_0000_0000
  {
  }

  lemma CompteTrames(e: Etat, p: Pdu, decode: Decodage)
    ensures Traite(e, p, decode).tramesDecodees
         == if EstEndFrame(p) then (e.tramesDecodees + 1) % 0x1_0000_0000 else e.tramesDecodees
  {
  }

  /** An acknowledgement is itself one well-formed PDU (section 2.2.2.13 of MS-RDPEGFX): queue depth zero, the frame,
      the total. */
  lemma AccuseBienForme(trame: u32, total: u32)
    ensures Pdus(FrameAcknowledge(trame, total)) == [Pdu(CMD_FRAME_ACKNOWLEDGE, Le32(0) + Le32(trame) + Le32(total))]
  {
    var o, p := FrameAcknowledge(trame, total), Pdu(CMD_FRAME_ACKNOWLEDGE, Le32(0) + Le32(trame) + Le32(total));
    assert o == Encode(p, 0) && o[0..20] == o;
    CodeRelu(o, 0, o, p);
    UnPdu(o, 0);
    assert PdusDe(o, 20) == [];
  }
}
