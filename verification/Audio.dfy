/** The sound of the remote desktop: blocks scheduled end to end on a cursor that may not run too far ahead. */
module Audio {
  import opened Octets

  const AVANCE_MAX: real := 0.5
  const REPRISE: real := 0.05

  /** A decoded block: its rate, its channels and its samples. */
  datatype Bloc = Bloc(cadence: nat, canaux: nat, pcm: seq<octet>)

  predicate Lisible(b: Bloc) {
    && 8000 <= b.cadence <= 192000 && 1 <= b.canaux <= 2
    && |b.pcm| > 0 && |b.pcm| % (b.canaux * 2) == 0
  }

  function DecoderBloc(buf: seq<octet>): (r: Option<Bloc>)
    ensures r.Some? ==> Lisible(r.value) && |buf| == 12 + |r.value.pcm|
  {
    if |buf| < 12 then None else
      var cadence, canaux, bits := U32(buf, 6), buf[10], buf[11];
      if cadence < 8000 || cadence > 192000 || canaux < 1 || canaux > 2 || bits != 16 then None
      else if |buf| == 12 || (|buf| - 12) % (canaux * 2) != 0 then None
      else Some(Bloc(cadence, canaux, buf[12..]))
  }

  function EncoderBloc(format: octet, ts: u32, b: Bloc): seq<octet>
    requires Lisible(b)
  {
    [20, format] + Le32(ts) + Le32(b.cadence) + [b.canaux, 16] + b.pcm
  }

  /** Whatever format and timestamp it carries, a block is read as it was written. */
  lemma BlocRelu(format: octet, ts: u32, b: Bloc)
    requires Lisible(b)
    ensures DecoderBloc(EncoderBloc(format, ts, b)) == Some(b)
  {
    var buf := EncoderBloc(format, ts, b);
    assert buf[6..10] == Le32(b.cadence);
    Le32Relu(buf, 6, b.cadence);
    assert buf[12..] == b.pcm;
  }

  function Trames(b: Bloc): (n: nat)
    requires Lisible(b)
    ensures n > 0 && |b.pcm| == n * b.canaux * 2
  {
    var n := |b.pcm| / (b.canaux * 2);
    n
  }

  function Duree(b: Bloc): (d: real)
    requires Lisible(b)
    ensures d > 0.0
  {
    Trames(b) as real / b.cadence as real
  }

  /** A two-byte sample, as a signed integer. */
  function Int16(o: seq<octet>, i: nat): (v: int)
    requires i + 2 <= |o|
    ensures -0x8000 <= v < 0x8000
  {
    var u := U16(o, i) as int;
    if u >= 0x8000 then u - 0x1_0000 else u
  }

  /** The sample of a channel in a frame, between -1 and 1. */
  function Echantillon(b: Bloc, c: nat, i: nat): (x: real)
    requires Lisible(b) && c < b.canaux && i < Trames(b)
    ensures -1.0 <= x < 1.0
  {
    EchantillonDedans(b, c, i);
    Int16(b.pcm, (i * b.canaux + c) * 2) as real / 32768.0
  }

  lemma EchantillonDedans(b: Bloc, c: nat, i: nat)
    requires Lisible(b) && c < b.canaux && i < Trames(b)
    ensures (i * b.canaux + c) * 2 + 2 <= |b.pcm|
  {
    assert b.canaux == 1 || b.canaux == 2;
  }

  /** Separates interleaved samples into one list per channel. */
  method Pcm16VersFlottants(b: Bloc) returns (sortie: seq<seq<real>>)
    requires Lisible(b)
    ensures |sortie| == b.canaux
    ensures forall c, i :: 0 <= c < b.canaux && 0 <= i < Trames(b) ==>
              |sortie[c]| == Trames(b) && sortie[c][i] == Echantillon(b, c, i)
  {
    var trames := Trames(b);
    sortie := seq(b.canaux, _ => []);
    for i := 0 to trames
      invariant |sortie| == b.canaux && forall c :: 0 <= c < b.canaux ==> |sortie[c]| == i
      invariant forall c, k :: 0 <= c < b.canaux && 0 <= k < i ==> sortie[c][k] == Echantillon(b, c, k)
    {
      for c := 0 to b.canaux
        invariant |sortie| == b.canaux
        invariant forall d :: 0 <= d < b.canaux ==> |sortie[d]| == if d < c then i + 1 else i
        invariant forall d, k :: 0 <= d < b.canaux && 0 <= k < |sortie[d]| ==> sortie[d][k] == Echantillon(b, d, k)
      {
        EchantillonDedans(b, c, i);
        var x := Int16(b.pcm, (i * b.canaux + c) * 2) as real / 32768.0;
        sortie := sortie[c := sortie[c] + [x]];
      }
    }
  }

  // ---------- Scheduling ----------

  /** A readable block. */
  type BlocLu = b: Bloc | Lisible(b) witness Bloc(8000, 1, [0, 0])

  /** A block and what the clock read when it came. */
  datatype Arrivee = Arrivee(bloc: BlocLu, maintenant: real)

  /** A block scheduled to start at a given time. */
  datatype Source = Source(debut: real, arrivee: Arrivee) {
    function Fin(): real {
      debut + Duree(arrivee.bloc)
    }
  }

  /** The cursor, the sources scheduled, the frames received, and the arrivals dropped. */
  datatype Lecteur = Lecteur(curseur: real, sources: seq<Source>, recues: nat, jetees: seq<Arrivee>)

  const NEUF := Lecteur(0.0, [], 0, [])

  /** A block arrives. */
  function Joue(l: Lecteur, a: Arrivee): Lecteur {
    var n := Trames(a.bloc);
    if l.curseur >= a.maintenant && l.curseur > a.maintenant + AVANCE_MAX then
      l.(recues := l.recues + n, jetees := l.jetees + [a])
    else
      var s := Source(if l.curseur < a.maintenant then a.maintenant + REPRISE else l.curseur, a);
      l.(curseur := s.Fin(), sources := l.sources + [s], recues := l.recues + n)
  }

  ghost predicate Croissant(arrivees: seq<Arrivee>) {
    && (forall i :: 0 <= i < |arrivees| ==> 0.0 <= arrivees[i].maintenant)
    && (forall i, j :: 0 <= i < j < |arrivees| ==> arrivees[i].maintenant <= arrivees[j].maintenant)
  }

  function JoueTout(arrivees: seq<Arrivee>): Lecteur {
    if arrivees == [] then NEUF else Joue(JoueTout(arrivees[..|arrivees| - 1]), arrivees[|arrivees| - 1])
  }

  function Jouees(sources: seq<Source>): (r: seq<Arrivee>)
    ensures |r| == |sources| && forall i :: 0 <= i < |r| ==> r[i] == sources[i].arrivee
  {
    seq(|sources|, i requires 0 <= i < |sources| => sources[i].arrivee)
  }

  /** The frames of a list of blocks. */
  function Total(arrivees: seq<Arrivee>): nat {
    if arrivees == [] then 0 else Total(arrivees[..|arrivees| - 1]) + Trames(arrivees[|arrivees| - 1].bloc)
  }

  lemma TotalUn(arrivees: seq<Arrivee>, a: Arrivee)
    ensures Total(arrivees + [a]) == Total(arrivees) + Trames(a.bloc)
  {
    assert (arrivees + [a])[..|arrivees|] == arrivees;
  }

  /** The blocks scheduled so far follow one another without overlap, none starting before it came, all before the
      cursor; the cursor is at most half a second and one block ahead of the clock. */
  ghost predicate Regulier(l: Lecteur, maintenant: real) {
    && (forall i, j :: 0 <= i < j < |l.sources| ==> l.sources[i].Fin() <= l.sources[j].debut)
    && (forall i :: 0 <= i < |l.sources| ==> l.sources[i].arrivee.maintenant <= l.sources[i].debut)
    && (forall i :: 0 <= i < |l.sources| ==> l.sources[i].Fin() <= l.curseur)
    && (if l.sources == [] then l.curseur == 0.0
        else l.curseur <= maintenant + AVANCE_MAX + Duree(l.sources[|l.sources| - 1].arrivee.bloc))
  }

  lemma JoueRegulier(l: Lecteur, avant: real, a: Arrivee)
    requires Regulier(l, avant) && 0.0 <= avant <= a.maintenant
    ensures Regulier(Joue(l, a), a.maintenant)
  {
  }

  /** Over any run of blocks on a clock that never goes back. */
  lemma {:induction false} ToujoursRegulier(arrivees: seq<Arrivee>, maintenant: real)
    requires Croissant(arrivees) && 0.0 <= maintenant
    requires forall i :: 0 <= i < |arrivees| ==> arrivees[i].maintenant <= maintenant
    ensures Regulier(JoueTout(arrivees), maintenant)
  {
    if arrivees != [] {
      var n := |arrivees| - 1;
      ToujoursRegulier(arrivees[..n], arrivees[n].maintenant);
      JoueRegulier(JoueTout(arrivees[..n]), arrivees[n].maintenant, arrivees[n]);
    }
  }

  /** What came is what was scheduled and what was dropped, each block once, and the frames counted as received are the
      frames of both. */
  ghost predicate Comptes(l: Lecteur, arrivees: seq<Arrivee>) {
    && multiset(arrivees) == multiset(Jouees(l.sources)) + multiset(l.jetees)
    && l.recues == Total(arrivees) == Total(Jouees(l.sources)) + Total(l.jetees)
  }

  lemma JoueComptes(l: Lecteur, arrivees: seq<Arrivee>, a: Arrivee)
    requires Comptes(l, arrivees)
    ensures Comptes(Joue(l, a), arrivees + [a])
  {
    var l' := Joue(l, a);
    TotalUn(arrivees, a);
    if l'.sources == l.sources {
      TotalUn(l.jetees, a);
    } else {
      assert Jouees(l'.sources) == Jouees(l.sources) + [a];
      TotalUn(Jouees(l.sources), a);
    }
  }

  /** Conservation over any run, whatever the clock reads. */
  lemma {:induction false} ToujoursComptes(arrivees: seq<Arrivee>)
    ensures Comptes(JoueTout(arrivees), arrivees)
  {
    if arrivees != [] {
      var n := |arrivees| - 1;
      ToujoursComptes(arrivees[..n]);
      JoueComptes(JoueTout(arrivees[..n]), arrivees[..n], arrivees[n]);
      assert arrivees[..n] + [arrivees[n]] == arrivees;
    }
  }

  // ---------- What is played, and when ----------

  /** When the last source ends: 0 if there is none. */
  function Bout(sources: seq<Source>): real {
    if sources == [] then 0.0
    else
      var s := sources[|sources| - 1];
      s.debut + Trames(s.arrivee.bloc) as real / s.arrivee.bloc.cadence as real
  }

  /** The cursor is where the last source ends. */
  lemma {:induction false} CurseurAuBout(arrivees: seq<Arrivee>)
    ensures JoueTout(arrivees).curseur == Bout(JoueTout(arrivees).sources)
  {
    if arrivees != [] {
      CurseurAuBout(arrivees[..|arrivees| - 1]);
    }
  }

  /** `apres` is what has been played and dropped once one more block has come: dropped when what is scheduled ends more
      than half a second after the clock, and then nothing else changes; played otherwise, from where that ends if it is
      not past, or else a twentieth of a second from now. */
  ghost predicate Suite(avant: Lecteur, a: Arrivee, apres: Lecteur) {
    if Bout(avant.sources) > a.maintenant + 0.5
    then apres.sources == avant.sources && apres.jetees == avant.jetees + [a]
    else
      && apres.jetees == avant.jetees
      && apres.sources == avant.sources + [Source(if Bout(avant.sources) >= a.maintenant then Bout(avant.sources)
                                                  else a.maintenant + 0.05, a)]
  }

  /** Over any run, whatever the clock reads, every block that comes is played or dropped as it should. */
  lemma ToujoursJoue(arrivees: seq<Arrivee>, n: nat)
    requires n < |arrivees|
    ensures Suite(JoueTout(arrivees[..n]), arrivees[n], JoueTout(arrivees[..n + 1]))
    ensures JoueTout([]).sources == [] && JoueTout([]).jetees == []
  {
    assert arrivees[..n + 1][..n] == arrivees[..n];
    CurseurAuBout(arrivees[..n]);
  }

  /** A sample is signed, its low byte first, and stands in the frame at the rank of its channel. */
  lemma EchantillonExact(b: Bloc, c: nat, i: nat, v: int)
    requires Lisible(b) && c < b.canaux && i < Trames(b) && -32768 <= v <= 32767
    requires var k := if b.canaux == 1 then 2 * i else 4 * i + 2 * c;
             k + 2 <= |b.pcm| && b.pcm[k] == v % 256 && b.pcm[k + 1] == v / 256 % 256
    ensures Echantillon(b, c, i) == v as real / 32768.0
  {
    assert (i * b.canaux + c) * 2 == if b.canaux == 1 then 2 * i else 4 * i + 2 * c;
  }

  /** A message gives a block exactly when its rate, its channels, the number 16 and its samples stand at their places,
      whatever its first byte, its format and its timestamp. */
  lemma LisibleSsi(buf: seq<octet>, b: Bloc)
    ensures DecoderBloc(buf) == Some(b)
       <==> && Lisible(b) && |buf| == 12 + |b.pcm| && buf[6..10] == Le32(b.cadence)
            && buf[10] == b.canaux && buf[11] == 16 && buf[12..] == b.pcm
  {
    if |buf| >= 12 {
      EntierEcrit(buf, 6);
      if Lisible(b) && buf[6..10] == Le32(b.cadence) {
        Le32Relu(buf, 6, b.cadence);
      }
    }
  }

  class LecteurAudio {
    var curseur: real
    var sources: seq<Source>
    var blocs: nat
    var echantillons: nat
    ghost var jetees: seq<Arrivee>

    ghost function Vue(): Lecteur
      reads this
    {
      Lecteur(curseur, sources, echantillons, jetees)
    }

    constructor ()
      ensures Vue() == NEUF && blocs == 0
    {
      curseur, sources, blocs, echantillons, jetees := 0.0, [], 0, 0, [];
    }

    /** Plays a message after the ones before; an unreadable one is ignored. */
    method Jouer(buf: seq<octet>, maintenant: real)
      modifies this
      ensures var b := DecoderBloc(buf);
              if b.None? then Vue() == old(Vue()) && blocs == old(blocs)
              else Vue() == Joue(old(Vue()), Arrivee(b.value, maintenant))
                   && blocs - old(blocs) == |sources| - |old(sources)|
    {
      var b := DecoderBloc(buf);
      if b.None? {
        return;
      }
      var trames := Trames(b.value);
      if curseur < maintenant {
        curseur := maintenant + REPRISE;
      } else if curseur > maintenant + AVANCE_MAX {
        echantillons, jetees := echantillons + trames, jetees + [Arrivee(b.value, maintenant)];
        return;
      }
      sources := sources + [Source(curseur, Arrivee(b.value, maintenant))];
      curseur := curseur + Duree(b.value);
      blocs, echantillons := blocs + 1, echantillons + trames;
    }
  }
}
