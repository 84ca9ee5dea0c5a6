/** The memory of the servers that need the graphics channel: a text file, one key per line, to which any number of
    processes append without locking. */
module Memoire {
  import opened Octets
  import opened Suites

  // ---------- Text ----------

  /** Unicode white space. */
  predicate Blanc(c: char) {
    var n := c as int;
    || 0x09 <= n <= 0x0D || n == 0x20 || n == 0x85 || n == 0xA0 || n == 0x1680 || 0x2000 <= n <= 0x200A
    || n == 0x2028 || n == 0x2029 || n == 0x202F || n == 0x205F || n == 0x3000
  }

  function RogneDebut(s: string): string {
    if s != "" && Blanc(s[0]) then RogneDebut(s[1..]) else s
  }

  function RogneFin(s: string): string {
    if s != "" && Blanc(s[|s| - 1]) then RogneFin(s[..|s| - 1]) else s
  }

  function Trim(s: string): string {
    RogneFin(RogneDebut(s))
  }

  /** Position of the first line feed, or the length. */
  function Saut(t: string): (i: nat)
    ensures i <= |t| && (i < |t| ==> t[i] == '\n') && '\n' !in t[..i]
  {
    if t == "" || t[0] == '\n' then 0 else
      var i := 1 + Saut(t[1..]);
      assert t[..i] == [t[0]] + t[1..][..i - 1];
      i
  }

  /** Drops the carriage return of a line that ended with one before its line feed. */
  function SansRetour(l: string): string {
    if l != "" && l[|l| - 1] == '\r' then l[..|l| - 1] else l
  }

  /** The lines of a text, terminators removed; no empty line after a final line feed. */
  function Lignes(t: string): seq<string>
    decreases |t|
  {
    if t == "" then [] else
      var i := Saut(t);
      if i == |t| then [t] else [SansRetour(t[..i])] + Lignes(t[i + 1..])
  }

  /** A key is recognised when some line, trimmed, is the key. */
  ghost predicate Reconnue(t: string, cle: string) {
    Parmi(Lignes(t), cle)
  }

  /** The text is empty or ends with a line feed. */
  predicate FinPropre(t: string) {
    t == "" || t[|t| - 1] == '\n'
  }

  // ---------- One append ----------

  function Ligne(cle: string, saut: bool): string {
    if saut then "\n" + cle + "\n" else cle + "\n"
  }

  lemma CoupeAvant<T>(a: seq<T>, b: seq<T>, i: nat)
    requires i < |a|
    ensures (a + b)[..i] == a[..i] && (a + b)[i + 1..] == a[i + 1..] + b
  {
  }

  /** `l` is the first line of the text, and `reste` what follows its line feed. */
  ghost predicate Coupe(t: string, l: string, reste: string) {
    var i := Saut(t);
    i < |t| && l == SansRetour(t[..i]) && reste == t[i + 1..]
  }

  lemma CoupeLignes(t: string, l: string, reste: string)
    requires Coupe(t, l, reste)
    ensures Lignes(t) == [l] + Lignes(reste)
  {
  }

  lemma PremiereCoupe(t: string) returns (l: string, reste: string)
    requires FinPropre(t) && t != ""
    ensures Coupe(t, l, reste) && FinPropre(reste) && |reste| < |t|
  {
    SautConcat(t, "");
    l, reste := SansRetour(t[..Saut(t)]), t[Saut(t) + 1..];
  }

  lemma CoupeConcat(a: string, b: string, l: string, reste: string)
    requires Coupe(a, l, reste)
    ensures Coupe(a + b, l, reste + b)
  {
    SautConcat(a, b);
    CoupeAvant(a, b, Saut(a));
  }

  /** An ended text has a first line, what follows is ended too, and more text changes neither. */
  lemma PremiereLigneConcat(a: string, b: string) returns (l: string, reste: string)
    requires FinPropre(a) && a != ""
    ensures FinPropre(reste) && |reste| < |a|
    ensures Lignes(a) == [l] + Lignes(reste) && Lignes(a + b) == [l] + Lignes(reste + b)
  {
    l, reste := PremiereCoupe(a);
    CoupeConcat(a, b, l, reste);
    CoupeLignes(a, l, reste);
    CoupeLignes(a + b, l, reste + b);
  }

  lemma {:induction false} LignesConcat(a: string, b: string)
    requires FinPropre(a)
    ensures Lignes(a + b) == Lignes(a) + Lignes(b)
    decreases |a|
  {
    if a == "" {
      assert a + b == b;
      Associe([], Lignes(b), []);
    } else {
      var l, reste := PremiereLigneConcat(a, b);
      LignesConcat(reste, b);
      Associe([l], Lignes(reste), Lignes(b));
    }
  }

  lemma {:induction false} SautConcat(a: string, b: string)
    requires '\n' in a
    ensures Saut(a) < |a| && Saut(a + b) == Saut(a)
  {
    if a[0] != '\n' {
      SautConcat(a[1..], b);
      assert (a + b)[1..] == a[1..] + b;
    }
  }

  lemma {:induction false} RogneDebutRetour(s: string)
    ensures if RogneDebut(s) == "" then RogneDebut(s + "\r") == "" else RogneDebut(s + "\r") == RogneDebut(s) + "\r"
  {
    if s == "" {
      assert s + "\r" == "\r" && "\r"[1..] == "";
    } else if Blanc(s[0]) {
      RogneDebutRetour(s[1..]);
      assert (s + "\r")[1..] == s[1..] + "\r";
    }
  }

  /** A trailing carriage return is trimmed away. */
  lemma TrimRetour(s: string)
    ensures Trim(s + "\r") == Trim(s)
  {
    RogneDebutRetour(s);
    var d := RogneDebut(s);
    assert (d + "\r")[..|d + "\r"| - 1] == d;
  }

  lemma TrimSansRetour(l: string)
    ensures Trim(SansRetour(l)) == Trim(l)
  {
    if l != "" && l[|l| - 1] == '\r' {
      assert l == l[..|l| - 1] + "\r";
      TrimRetour(l[..|l| - 1]);
    }
  }

  lemma {:induction false} SautAbsent(l: string)
    requires '\n' !in l
    ensures Saut(l) == |l| && Saut(l + "\n") == |l|
  {
    if l != "" {
      SautAbsent(l[1..]);
      assert (l + "\n")[1..] == l[1..] + "\n";
    }
  }

  /** The lines of one line and its line feed. */
  lemma UneLigne(l: string)
    requires '\n' !in l
    ensures Lignes(l + "\n") == [SansRetour(l)]
  {
    SautAbsent(l);
    assert (l + "\n")[..|l|] == l && (l + "\n")[|l| + 1..] == "";
  }

  /** Some line of the list, trimmed, is the key. */
  ghost predicate Parmi(ls: seq<string>, cle: string) {
    exists l :: l in ls && Trim(l) == cle
  }

  lemma ParmiConcat(a: seq<string>, b: seq<string>, cle: string)
    ensures Parmi(a + b, cle) <==> Parmi(a, cle) || Parmi(b, cle)
  {
    assert forall l :: l in a + b <==> l in a || l in b;
  }

  lemma ParmiUne(l: string, cle: string)
    ensures Parmi([l], cle) <==> Trim(l) == cle
  {
    assert l in [l];
  }

  lemma UneSeuleLigne(t: string)
    requires t != "" && '\n' !in t
    ensures Lignes(t) == [t] && Lignes(t + "\n") == [SansRetour(t)]
  {
    SautAbsent(t);
    UneLigne(t);
  }

  lemma PremiereLigne(t: string, suite: string)
    requires '\n' !in t
    ensures Lignes(t + "\n" + suite) == [SansRetour(t)] + Lignes(suite)
  {
    UneLigne(t);
    LignesConcat(t + "\n", suite);
  }

  /** Ending an unfinished last line changes no recognised key. */
  lemma {:induction false} LignesFinies(t: string, cle: string)
    requires !FinPropre(t)
    ensures Parmi(Lignes(t + "\n"), cle) <==> Parmi(Lignes(t), cle)
    decreases |t|
  {
    var i := Saut(t);
    if i == |t| {
      assert t[..i] == t;
      UneSeuleLigne(t);
      TrimSansRetour(t);
      ParmiUne(t, cle);
      ParmiUne(SansRetour(t), cle);
    } else {
      var tete, suite := t[..i], t[i + 1..];
      assert t == tete + "\n" + suite && t + "\n" == tete + "\n" + (suite + "\n");
      PremiereLigne(tete, suite);
      PremiereLigne(tete, suite + "\n");
      LignesFinies(suite, cle);
      ParmiConcat([SansRetour(tete)], Lignes(suite), cle);
      ParmiConcat([SansRetour(tete)], Lignes(suite + "\n"), cle);
    }
  }

  /** Text appended to an ended text keeps every recognised key. */
  lemma SuiteGarde(t: string, suite: string, k: string)
    requires FinPropre(t) && Reconnue(t, k)
    ensures Reconnue(t + suite, k)
  {
    LignesConcat(t, suite);
    ParmiConcat(Lignes(t), Lignes(suite), k);
  }

  /** Appending a line keeps every recognised key, provided the text was ended or the line feed comes first. */
  lemma AjoutGarde(t: string, cle: string, saut: bool, k: string)
    requires saut || FinPropre(t)
    requires Reconnue(t, k)
    ensures Reconnue(t + Ligne(cle, saut), k)
  {
    if FinPropre(t) {
      SuiteGarde(t, Ligne(cle, saut), k);
    } else {
      LignesFinies(t, k);
      SuiteGarde(t + "\n", cle + "\n", k);
      assert t + Ligne(cle, saut) == (t + "\n") + (cle + "\n");
    }
  }

  /** Without that, a key can be lost: the new line sticks to the unfinished one. */
  lemma SansSautCleLa(t: string, cle: string)
    requires '\n' !in t && t != "" && '\n' !in cle && cle != "" && Trim(t) == t && Trim(cle) == cle
    ensures Reconnue(t, t)
    ensures !Reconnue(t + Ligne(cle, false), t)
  {
    SautAbsent(t);
    assert t in Lignes(t);
    UneLigne(t + cle);
    assert t + Ligne(cle, false) == (t + cle) + "\n";
    TrimSansRetour(t + cle);
    TrimEntier(t, cle);
  }

  lemma {:induction false} RogneDebutCourt(s: string)
    ensures |RogneDebut(s)| <= |s| && (|RogneDebut(s)| == |s| ==> RogneDebut(s) == s)
    ensures RogneDebut(s) == s <==> s == "" || !Blanc(s[0])
  {
    if s != "" && Blanc(s[0]) {
      RogneDebutCourt(s[1..]);
    }
  }

  lemma {:induction false} RogneFinCourt(s: string)
    ensures |RogneFin(s)| <= |s| && RogneFin(s) == s[..|RogneFin(s)|]
    ensures RogneFin(s) == s <==> s == "" || !Blanc(s[|s| - 1])
    ensures RogneFin(s) != "" ==> !Blanc(RogneFin(s)[|RogneFin(s)| - 1])
  {
    if s != "" && Blanc(s[|s| - 1]) {
      RogneFinCourt(s[..|s| - 1]);
    }
  }

  /** Trimming changes nothing exactly when neither end is blank. */
  lemma TrimIdentite(s: string)
    ensures Trim(s) == s <==> s == "" || (!Blanc(s[0]) && !Blanc(s[|s| - 1]))
  {
    RogneDebutCourt(s);
    RogneFinCourt(s);
    RogneFinCourt(RogneDebut(s));
  }

  lemma TrimEntier(a: string, b: string)
    requires a != "" && b != "" && Trim(a) == a && Trim(b) == b
    ensures Trim(a + b) == a + b
  {
    TrimIdentite(a);
    TrimIdentite(b);
    TrimIdentite(a + b);
  }

  lemma {:induction false} RogneDebutFin(s: string)
    ensures RogneDebut(s) != "" ==> !Blanc(RogneDebut(s)[0])
    ensures forall c :: c in RogneDebut(s) ==> c in s
  {
    if s != "" && Blanc(s[0]) {
      RogneDebutFin(s[1..]);
    }
  }

  lemma TrimIdempotent(s: string)
    ensures Trim(Trim(s)) == Trim(s)
    ensures forall c :: c in Trim(s) ==> c in s
  {
    RogneDebutFin(s);
    RogneFinCourt(RogneDebut(s));
    TrimIdentite(Trim(s));
  }

  lemma {:induction false} LignesSansSaut(t: string)
    ensures forall l :: l in Lignes(t) ==> '\n' !in l
    decreases |t|
  {
    var i := Saut(t);
    if t != "" && i == |t| {
      assert t[..i] == t;
      UneSeuleLigne(t);
    } else if t != "" {
      assert t == t[..i] + "\n" + t[i + 1..];
      PremiereLigne(t[..i], t[i + 1..]);
      LignesSansSaut(t[i + 1..]);
    }
  }

  /** The keys a line can hold: one line of text without blanks at its ends. */
  predicate CleSaine(cle: string) {
    '\n' !in cle && Trim(cle) == cle
  }

  /** A key that is not one clean line is never recognised, whatever the file. */
  lemma CleMalsaine(t: string, cle: string)
    requires !CleSaine(cle)
    ensures !Reconnue(t, cle)
  {
    LignesSansSaut(t);
    forall l | l in Lignes(t) ensures Trim(l) != cle {
      TrimIdempotent(l);
    }
  }

  /** A key just appended is recognised if and only if it is one line without blanks at its ends. */
  lemma AjoutReconnu(t: string, cle: string, saut: bool)
    requires saut || FinPropre(t)
    ensures Reconnue(t + Ligne(cle, saut), cle) <==> CleSaine(cle)
  {
    if CleSaine(cle) {
      var debut := if saut then t + "\n" else t;
      assert FinPropre(debut) && t + Ligne(cle, saut) == debut + (cle + "\n");
      LignesConcat(debut, cle + "\n");
      UneLigne(cle);
      TrimSansRetour(cle);
      assert SansRetour(cle) in Lignes(debut + (cle + "\n"));
    } else {
      CleMalsaine(t + Ligne(cle, saut), cle);
    }
  }

  /** Appending one line makes that key recognised and no other, but perhaps the empty one. */
  lemma AjoutRienDAutre(t: string, cle: string, saut: bool, k: string)
    requires (saut || FinPropre(t)) && '\n' !in cle && k != ""
    ensures Reconnue(t + Ligne(cle, saut), k) <==> Reconnue(t, k) || Trim(cle) == k
  {
    var debut := if saut then t + "\n" else t;
    assert t + Ligne(cle, saut) == debut + (cle + "\n");
    LignesConcat(debut, cle + "\n");
    UneLigne(cle);
    TrimSansRetour(cle);
    ParmiConcat(Lignes(debut), [SansRetour(cle)], k);
    ParmiUne(SansRetour(cle), k);
    if saut {
      SautEnPlus(t, k);
    }
  }

  lemma SautEnPlus(t: string, k: string)
    requires k != ""
    ensures Parmi(Lignes(t + "\n"), k) <==> Parmi(Lignes(t), k)
  {
    if FinPropre(t) {
      LignesConcat(t, "\n");
      UneLigne("");
      assert "" + "\n" == "\n";
      ParmiConcat(Lignes(t), [""], k);
      ParmiUne("", k);
    } else {
      LignesFinies(t, k);
    }
  }

  // ---------- Where a recognised key stands ----------

  /** From i to j goes one line of the text: no line feed inside, the start of the text or a line feed before, a line
      feed after, or else the end of the text and something before it. */
  predicate EstUneLigne(t: string, i: nat, j: nat) {
    && i <= j <= |t| && '\n' !in t[i..j]
    && (i == 0 || t[i - 1] == '\n') && (if j < |t| then t[j] == '\n' else i < j)
  }

  predicate TousBlancs(s: string) {
    forall i :: 0 <= i < |s| ==> Blanc(s[i])
  }

  /** The line is the key between blanks, and the key neither begins nor ends with one. */
  predicate Entoure(l: string, cle: string, a: nat, b: nat) {
    && a <= b <= |l| && l[a..b] == cle && TousBlancs(l[..a]) && TousBlancs(l[b..])
    && (cle != "" ==> !Blanc(cle[0]) && !Blanc(cle[|cle| - 1]))
  }

  lemma {:induction false} RogneDebutExact(s: string) returns (a: nat)
    ensures a <= |s| && RogneDebut(s) == s[a..] && TousBlancs(s[..a]) && (a < |s| ==> !Blanc(s[a]))
  {
    if s != "" && Blanc(s[0]) {
      a := RogneDebutExact(s[1..]);
      assert s[1..][..a] == s[1..a + 1] && s[..a + 1] == [s[0]] + s[1..a + 1];
      a := a + 1;
    } else {
      a := 0;
    }
  }

  lemma {:induction false} RogneFinExact(s: string) returns (b: nat)
    ensures b <= |s| && RogneFin(s) == s[..b] && TousBlancs(s[b..]) && (b > 0 ==> !Blanc(s[b - 1]))
  {
    var n := |s|;
    if s != "" && Blanc(s[n - 1]) {
      b := RogneFinExact(s[..n - 1]);
      assert s[..n - 1][..b] == s[..b] && s[b..] == s[..n - 1][b..] + [s[n - 1]];
    } else {
      b := n;
    }
  }

  lemma {:induction false} RogneFinBlancs(s: string, b: nat)
    requires b <= |s| && TousBlancs(s[b..]) && (b > 0 ==> !Blanc(s[b - 1]))
    ensures RogneFin(s) == s[..b]
  {
    if b < |s| {
      var n := |s| - 1;
      assert s[n] == s[b..][n - b] && s[..n][..b] == s[..b] && s[..n][b..] == s[b..][..n - b];
      RogneFinBlancs(s[..n], b);
    } else {
      assert s[..b] == s;
    }
  }

  lemma {:induction false} RogneDebutBlancs(s: string, a: nat)
    requires a <= |s| && TousBlancs(s[..a]) && (a < |s| ==> !Blanc(s[a]))
    ensures RogneDebut(s) == s[a..]
  {
    if a > 0 {
      assert s[0] == s[..a][0] && s[1..][..a - 1] == s[..a][1..] && s[1..][a - 1..] == s[a..];
      RogneDebutBlancs(s[1..], a - 1);
    }
  }

  /** A line trimmed is the key exactly when it is the key between blanks. */
  lemma TrimExact(l: string, cle: string)
    ensures Trim(l) == cle <==> exists a: nat, b: nat :: Entoure(l, cle, a, b)
  {
    var a := RogneDebutExact(l);
    var b := RogneFinExact(l[a..]);
    assert l[a..][..b] == l[a..a + b] && l[a..][b..] == l[a + b..];
    assert Entoure(l, Trim(l), a, a + b);
    forall a: nat, b: nat | Entoure(l, cle, a, b) ensures Trim(l) == cle {
      EntoureRogne(l, cle, a, b);
    }
  }

  lemma EntoureRogne(l: string, cle: string, a: nat, b: nat)
    requires Entoure(l, cle, a, b)
    ensures Trim(l) == cle
  {
    if cle == "" {
      assert l == l[..a] + l[b..];
      assert l[..|l|] == l;
      RogneDebutBlancs(l, |l|);
    } else {
      assert l[a] == cle[0] && l[b - 1] == cle[|cle| - 1];
      RogneDebutBlancs(l, a);
      assert l[a..][b - a..] == l[b..] && l[a..][..b - a] == cle;
      RogneFinBlancs(l[a..], b - a);
    }
  }

  /** Some line of the text, trimmed, is the key. */
  ghost predicate LigneDonne(t: string, cle: string, i: nat, j: nat) {
    EstUneLigne(t, i, j) && Trim(t[i..j]) == cle
  }

  lemma LigneDecalee(t: string, s: nat, i: nat, j: nat)
    requires s < |t| && t[s] == '\n' && '\n' !in t[..s]
    ensures EstUneLigne(t[s + 1..], i, j) <==> EstUneLigne(t, s + 1 + i, s + 1 + j)
    ensures i <= j <= |t| - s - 1 ==> t[s + 1..][i..j] == t[s + 1 + i..s + 1 + j]
  {
    var u := t[s + 1..];
    if i <= j <= |u| {
      assert u[i..j] == t[s + 1 + i..s + 1 + j];
    }
  }

  lemma SansSautEntre(t: string, i: nat, j: nat)
    requires i <= j <= |t| && '\n' !in t[i..j]
    ensures forall k :: i <= k < j ==> t[k] != '\n'
  {
    assert forall k :: i <= k < j ==> t[k] == t[i..j][k - i];
  }

  lemma PremiereOuSuivante(t: string, s: nat, i: nat, j: nat)
    requires s < |t| && t[s] == '\n' && '\n' !in t[..s] && EstUneLigne(t, i, j)
    ensures (i == 0 && j == s) || i >= s + 1
  {
    assert t[0..s] == t[..s];
    SansSautEntre(t, 0, s);
    SansSautEntre(t, i, j);
  }

  lemma LigneSeule(t: string, cle: string)
    requires t != "" && '\n' !in t
    ensures (exists i: nat, j: nat :: LigneDonne(t, cle, i, j)) <==> Trim(t) == cle
  {
    assert t[0..|t|] == t;
    if Trim(t) == cle {
      assert LigneDonne(t, cle, 0, |t|);
    }
  }

  lemma {:induction false} LignesExactes(t: string, cle: string)
    ensures Parmi(Lignes(t), cle) <==> exists i: nat, j: nat :: LigneDonne(t, cle, i, j)
    decreases |t|
  {
    var s := Saut(t);
    if t == "" {
    } else if s == |t| {
      assert t[..s] == t;
      ParmiUne(t, cle);
      LigneSeule(t, cle);
    } else {
      var u := t[s + 1..];
      LignesExactes(u, cle);
      TrimSansRetour(t[..s]);
      ParmiUne(SansRetour(t[..s]), cle);
      ParmiConcat([SansRetour(t[..s])], Lignes(u), cle);
      LignesSuite(t, s, u, cle);
    }
  }

  lemma LignesSuite(t: string, s: nat, u: string, cle: string)
    requires s < |t| && t[s] == '\n' && '\n' !in t[..s] && u == t[s + 1..]
    ensures (exists i: nat, j: nat :: LigneDonne(t, cle, i, j))
       <==> Trim(t[..s]) == cle || exists i: nat, j: nat :: LigneDonne(u, cle, i, j)
  {
    assert t[0..s] == t[..s];
    if Trim(t[..s]) == cle {
      assert LigneDonne(t, cle, 0, s);
    }
    if i: nat, j: nat :| LigneDonne(u, cle, i, j) {
      DonneDecalee(t, s, u, cle, i, j);
    }
    if i: nat, j: nat :| LigneDonne(t, cle, i, j) {
      PremiereOuSuivante(t, s, i, j);
      if i >= s + 1 {
        DonneDecalee(t, s, u, cle, i - s - 1, j - s - 1);
      }
    }
  }

  lemma DonneDecalee(t: string, s: nat, u: string, cle: string, i: nat, j: nat)
    requires s < |t| && t[s] == '\n' && '\n' !in t[..s] && u == t[s + 1..]
    ensures LigneDonne(u, cle, i, j) <==> LigneDonne(t, cle, s + 1 + i, s + 1 + j)
  {
    LigneDecalee(t, s, i, j);
  }

  /** A key is recognised in a text if and only if one of its lines is the key between blanks. */
  lemma ReconnueSsi(t: string, cle: string)
    ensures Reconnue(t, cle)
       <==> exists i: nat, j: nat, a: nat, b: nat :: EstUneLigne(t, i, j) && Entoure(t[i..j], cle, a, b)
  {
    LignesExactes(t, cle);
    if i: nat, j: nat :| LigneDonne(t, cle, i, j) {
      TrimExact(t[i..j], cle);
      var a: nat, b: nat :| Entoure(t[i..j], cle, a, b);
      assert EstUneLigne(t, i, j) && Entoure(t[i..j], cle, a, b);
    }
    if i: nat, j: nat, a: nat, b: nat :| EstUneLigne(t, i, j) && Entoure(t[i..j], cle, a, b) {
      TrimExact(t[i..j], cle);
      assert LigneDonne(t, cle, i, j);
    }
  }

  /** Keys are "host:port"; the command line refuses a host with a blank, so a key has none and is sane. */
  lemma SansBlancSaine(cle: string)
    requires forall c :: c in cle ==> !Blanc(c)
    ensures CleSaine(cle)
  {
    TrimIdentite(cle);
    assert Blanc('\n');
  }

  // ---------- The file and one process ----------

  /** The file: not there, text, or bytes that are not text or cannot be read. */
  datatype Contenu = Absent | Texte(texte: string) | Illisible

  /** Does the file hold the key? */
  ghost predicate Tenue(f: Contenu, cle: string) {
    f.Texte? && Reconnue(f.texte, cle)
  }

  /** Would text appended now start on a line of its own? An unreadable file counts as if it would. */
  predicate FinLue(f: Contenu) {
    f.Texte? ==> FinPropre(f.texte)
  }

  /** The file after one append: what cannot be read does not become readable. */
  function Ajoutee(f: Contenu, ligne: string): Contenu {
    match f
    case Absent => Texte(ligne)
    case Texte(t) => Texte(t + ligne)
    case Illisible => Illisible
  }

  /** The file has only gained keys, still ends a line if it did, and is readable if it was. */
  ghost predicate Gagne(f: Contenu, g: Contenu) {
    && (FinLue(f) ==> FinLue(g)) && (f.Illisible? <==> g.Illisible?)
    && forall k :: Tenue(f, k) ==> Tenue(g, k)
  }

  /** One append, by a process that knows whether the file ended a line: no key is lost, and the key is recognised if
      and only if it is clean and the file is text. */
  lemma AppendGagne(f: Contenu, cle: string, saut: bool)
    requires saut || FinLue(f)
    ensures Gagne(f, Ajoutee(f, Ligne(cle, saut)))
    ensures Tenue(Ajoutee(f, Ligne(cle, saut)), cle) <==> CleSaine(cle) && !f.Illisible?
  {
    if !f.Illisible? {
      var t := if f.Texte? then f.texte else "";
      assert t + Ligne(cle, saut) == Ajoutee(f, Ligne(cle, saut)).texte;
      AjoutReconnu(t, cle, saut);
      forall k | Tenue(f, k) ensures Reconnue(t + Ligne(cle, saut), k) {
        AjoutGarde(t, cle, saut, k);
      }
    }
  }

  lemma TenueSaine(f: Contenu, cle: string)
    requires Tenue(f, cle)
    ensures CleSaine(cle) && !f.Illisible?
  {
    if !CleSaine(cle) {
      CleMalsaine(f.texte, cle);
    }
  }

  class Fichier {
    var contenu: Contenu

    constructor (c: Contenu)
      ensures contenu == c
    {
      contenu := c;
    }

    /** Does the file hold the key? */
    method Pour(cle: string) returns (accepte: bool)
      ensures accepte <==> Tenue(contenu, cle)
    {
      if !contenu.Texte? {
        return false;
      }
      var ls := Lignes(contenu.texte);
      for i := 0 to |ls|
        invariant forall j :: 0 <= j < i ==> Trim(ls[j]) != cle
      {
        if Trim(ls[i]) == cle {
          return true;
        }
      }
      return false;
    }

    /** Remembers the key; `ouvrable`: could the file be opened for appending? No key is ever lost; if it could, the key
        is recognised from then on exactly when it is clean and the file is not unreadable. */
    method Memoriser(cle: string, ouvrable: bool)
      modifies this
      ensures Gagne(old(contenu), contenu)
      ensures ouvrable ==> (Tenue(contenu, cle) <==> CleSaine(cle) && !contenu.Illisible?)
      ensures old(Tenue(contenu, cle)) || !ouvrable ==> contenu == old(contenu)
    {
      var connu := Pour(cle);
      if connu {
        TenueSaine(contenu, cle);
        return;
      }
      var saut := contenu.Texte? && !FinPropre(contenu.texte);
      if ouvrable {
        AppendGagne(contenu, cle, saut);
        contenu := Ajoutee(contenu, Ligne(cle, saut));
      }
    }
  }

  // ---------- Any number of processes ----------

  /** Where a process stands: key not yet looked up, looked up in vain, tail of the file read, finished
      (`su`: the key was found or written). */
  datatype Etape = Depart | Inconnue | Lu(saut: bool) | Fini(su: bool)

  datatype Processus = Processus(cle: string, etape: Etape)

  datatype Systeme = Systeme(fichier: Contenu, processus: map<nat, Processus>)

  datatype Pas =
    | Lance(pid: nat, cle: string)
    | Cherche(pid: nat)
    | LitFin(pid: nat)
    | Ajoute(pid: nat, ouvert: bool)

  /** One atomic step of one process; a step that is not the next one of its process does nothing. */
  ghost function Avance(s: Systeme, pas: Pas): Systeme {
    match pas
    case Lance(pid, cle) =>
      if pid in s.processus then s else s.(processus := s.processus[pid := Processus(cle, Depart)])
    case Cherche(pid) =>
      if pid !in s.processus || !s.processus[pid].etape.Depart? then s else
        var p := s.processus[pid];
        s.(processus := s.processus[pid := p.(etape := if Tenue(s.fichier, p.cle) then Fini(true) else Inconnue)])
    case LitFin(pid) =>
      if pid !in s.processus || !s.processus[pid].etape.Inconnue? then s else
        s.(processus := s.processus[pid := s.processus[pid].(etape := Lu(!FinLue(s.fichier)))])
    case Ajoute(pid, ouvert) =>
      if pid !in s.processus || !s.processus[pid].etape.Lu? then s else
        var p := s.processus[pid];
        Systeme(if ouvert then Ajoutee(s.fichier, Ligne(p.cle, p.etape.saut)) else s.fichier,
                s.processus[pid := p.(etape := Fini(ouvert))])
  }

  /** A process that read an ended file still faces one; a key found or written is in the file exactly when it is clean
      and the file is not unreadable. */
  ghost predicate Juste(f: Contenu, p: Processus) {
    && (p.etape == Lu(false) ==> FinLue(f))
    && (p.etape == Fini(true) ==> (Tenue(f, p.cle) <==> CleSaine(p.cle) && !f.Illisible?))
  }

  ghost predicate Coherent(s: Systeme) {
    forall pid :: pid in s.processus ==> Juste(s.fichier, s.processus[pid])
  }

  lemma JusteReste(f: Contenu, g: Contenu, p: Processus)
    requires Gagne(f, g) && Juste(f, p)
    ensures Juste(g, p)
  {
    if p.etape == Fini(true) && Tenue(g, p.cle) {
      TenueSaine(g, p.cle);
    }
  }

  lemma ResteCoherent(s: Systeme, g: Contenu, pid: nat, p: Processus)
    requires Coherent(s) && Gagne(s.fichier, g) && Juste(g, p)
    ensures Coherent(Systeme(g, s.processus[pid := p]))
  {
    forall q | q in s.processus ensures Juste(g, s.processus[q]) {
      JusteReste(s.fichier, g, s.processus[q]);
    }
  }

  lemma AvanceGarde(s: Systeme, pas: Pas)
    requires Coherent(s)
    ensures Coherent(Avance(s, pas)) && Gagne(s.fichier, Avance(s, pas).fichier)
  {
    var pid, t := pas.pid, Avance(s, pas);
    if t != s && !pas.Lance? {
      var p := s.processus[pid];
      assert Juste(s.fichier, p);
      if pas.Ajoute? && pas.ouvert {
        AppendGagne(s.fichier, p.cle, p.etape.saut);
      } else if pas.Cherche? && Tenue(s.fichier, p.cle) {
        TenueSaine(s.fichier, p.cle);
      }
    }
    if t != s {
      ResteCoherent(s, t.fichier, pid, t.processus[pid]);
    }
  }

  ghost function AvanceTous(s: Systeme, pas: seq<Pas>): Systeme {
    if pas == [] then s else Avance(AvanceTous(s, pas[..|pas| - 1]), pas[|pas| - 1])
  }

  /** In every interleaving of any number of processes, from any file, even one without a final line feed: no key is
      ever lost, and every key a process found or wrote is recognised from then on, exactly when it is clean and the
      file was not unreadable. */
  lemma {:induction false} JamaisPerdue(fichier: Contenu, pas: seq<Pas>, n: nat)
    requires n <= |pas|
    ensures var debut := AvanceTous(Systeme(fichier, map[]), pas[..n]);
            var fin := AvanceTous(Systeme(fichier, map[]), pas);
            Coherent(debut) && Coherent(fin) && Gagne(debut.fichier, fin.fichier)
    decreases |pas| - n, |pas|
  {
    if |pas| == 0 {
      assert pas[..n] == pas;
    } else if n == |pas| {
      assert pas[..n] == pas;
      JamaisPerdue(fichier, pas[..|pas| - 1], |pas| - 1);
      AvanceGarde(AvanceTous(Systeme(fichier, map[]), pas[..|pas| - 1]), pas[|pas| - 1]);
    } else {
      var court := pas[..|pas| - 1];
      assert court[..n] == pas[..n];
      JamaisPerdue(fichier, court, n);
      AvanceGarde(AvanceTous(Systeme(fichier, map[]), court), pas[|pas| - 1]);
    }
  }

  // ---------- A process that takes its steps gets its key remembered ----------

  /** How far a process has come. */
  function Avancement(e: Etape): nat {
    match e
    case Depart => 0
    case Inconnue => 1
    case Lu(_) => 2
    case Fini(_) => 3
  }

  /** Process `pid` keeps its key, has come at least as far as `n`, and has not failed. */
  predicate Rendu(s: Systeme, pid: nat, cle: string, n: nat) {
    && pid in s.processus && s.processus[pid].cle == cle && Avancement(s.processus[pid].etape) >= n
    && s.processus[pid].etape != Fini(false)
  }

  /** A step keeps it so far, and takes it further when it is its next one. */
  lemma RenduSuite(s: Systeme, pas: Pas, pid: nat, cle: string, n: nat)
    requires Rendu(s, pid, cle, n) && !(pas.Ajoute? && pas.pid == pid && !pas.ouvert)
    ensures Rendu(Avance(s, pas), pid, cle, n)
    ensures pas.pid == pid && (pas.Cherche? || (pas.LitFin? && n >= 1) || (pas.Ajoute? && n >= 2)) ==>
      Rendu(Avance(s, pas), pid, cle, if pas.Cherche? && n < 1 then 1 else if pas.LitFin? && n < 2 then 2
                                      else if pas.Ajoute? then 3 else n)
  {
  }

  /** The last place where the process was so far, among the steps taken. */
  lemma {:induction false} RenduJusqua(s: Systeme, pas: seq<Pas>, pid: nat, cle: string, n: nat, a: nat)
    requires a <= |pas| && Rendu(AvanceTous(s, pas[..a]), pid, cle, n)
    requires forall i :: a <= i < |pas| ==> !(pas[i].Ajoute? && pas[i].pid == pid && !pas[i].ouvert)
    ensures Rendu(AvanceTous(s, pas), pid, cle, n)
  {
    if a == |pas| {
      assert pas[..a] == pas;
    } else {
      var m := |pas| - 1;
      assert pas[..m][..a] == pas[..a];
      RenduJusqua(s, pas[..m], pid, cle, n, a);
      RenduSuite(AvanceTous(s, pas[..m]), pas[m], pid, cle, n);
    }
  }

  /** The process never fails to open the file. */
  ghost predicate SansEchec(pas: seq<Pas>, pid: nat) {
    forall i :: 0 <= i < |pas| ==> !(pas[i].Ajoute? && pas[i].pid == pid && !pas[i].ouvert)
  }

  /** The state after step k, from how far the process was at step a. */
  lemma RenduApres(s: Systeme, pas: seq<Pas>, pid: nat, cle: string, n: nat, a: nat, k: nat)
    requires a <= k < |pas| && Rendu(AvanceTous(s, pas[..a]), pid, cle, n) && SansEchec(pas, pid)
    requires pas[k] == (if n == 0 then Cherche(pid) else if n == 1 then LitFin(pid) else Ajoute(pid, true)) && n <= 2
    ensures Rendu(AvanceTous(s, pas[..k + 1]), pid, cle, n + 1)
  {
    assert pas[..k][..a] == pas[..a] && pas[..k + 1][..k] == pas[..k];
    RenduJusqua(s, pas[..k], pid, cle, n, a);
    RenduSuite(AvanceTous(s, pas[..k]), pas[k], pid, cle, n);
  }

  /** A process that is launched, looks its key up, reads the tail and appends, in this order and with any steps of the
      others in between, and can open the file, ends knowing its key is in the file: a clean key is then recognised, in
      a file that can be read. */
  lemma MemoriseAboutit(fichier: Contenu, pas: seq<Pas>, pid: nat, cle: string, a: nat, b: nat, c: nat, d: nat)
    requires a < b < c < d < |pas|
    requires pas[a] == Lance(pid, cle) && pas[b] == Cherche(pid) && pas[c] == LitFin(pid) && pas[d] == Ajoute(pid, true)
    requires forall i :: 0 <= i < a ==> pas[i].pid != pid
    requires SansEchec(pas, pid)
    ensures var f := AvanceTous(Systeme(fichier, map[]), pas);
            pid in f.processus && f.processus[pid] == Processus(cle, Fini(true))
            && (Tenue(f.fichier, cle) <==> CleSaine(cle) && !f.fichier.Illisible?)
  {
    var s := Systeme(fichier, map[]);
    VientDEtreLance(fichier, pas, pid, cle, a);
    TroisPas(s, pas, pid, cle, a + 1, b, c, d);
    JamaisPerdue(fichier, pas, |pas|);
    RenduDoncTenu(AvanceTous(s, pas), pid, cle);
  }

  /** From having read the tail to the end. */
  lemma PuisAjoute(s: Systeme, pas: seq<Pas>, pid: nat, cle: string, a: nat, d: nat)
    requires a <= d < |pas| && Rendu(AvanceTous(s, pas[..a]), pid, cle, 2)
    requires pas[d] == Ajoute(pid, true) && SansEchec(pas, pid)
    ensures Rendu(AvanceTous(s, pas), pid, cle, 3)
  {
    RenduApres(s, pas, pid, cle, 2, a, d);
    RenduJusqua(s, pas, pid, cle, 3, d + 1);
  }

  /** From having looked its key up. */
  lemma PuisLitFin(s: Systeme, pas: seq<Pas>, pid: nat, cle: string, a: nat, c: nat, d: nat)
    requires a <= c < d < |pas| && Rendu(AvanceTous(s, pas[..a]), pid, cle, 1)
    requires pas[c] == LitFin(pid) && pas[d] == Ajoute(pid, true) && SansEchec(pas, pid)
    ensures Rendu(AvanceTous(s, pas), pid, cle, 3)
  {
    RenduApres(s, pas, pid, cle, 1, a, c);
    PuisAjoute(s, pas, pid, cle, c + 1, d);
  }

  /** From its launch. */
  lemma TroisPas(s: Systeme, pas: seq<Pas>, pid: nat, cle: string, a: nat, b: nat, c: nat, d: nat)
    requires a <= b < c < d < |pas| && Rendu(AvanceTous(s, pas[..a]), pid, cle, 0)
    requires pas[b] == Cherche(pid) && pas[c] == LitFin(pid) && pas[d] == Ajoute(pid, true)
    requires SansEchec(pas, pid)
    ensures Rendu(AvanceTous(s, pas), pid, cle, 3)
  {
    RenduApres(s, pas, pid, cle, 0, a, b);
    PuisLitFin(s, pas, pid, cle, b + 1, c, d);
  }

  lemma RenduDoncTenu(s: Systeme, pid: nat, cle: string)
    requires Coherent(s) && Rendu(s, pid, cle, 3)
    ensures s.processus[pid] == Processus(cle, Fini(true))
    ensures Tenue(s.fichier, cle) <==> CleSaine(cle) && !s.fichier.Illisible?
  {
    assert Juste(s.fichier, s.processus[pid]);
  }

  lemma VientDEtreLance(fichier: Contenu, pas: seq<Pas>, pid: nat, cle: string, a: nat)
    requires a < |pas| && pas[a] == Lance(pid, cle) && forall i :: 0 <= i < a ==> pas[i].pid != pid
    ensures Rendu(AvanceTous(Systeme(fichier, map[]), pas[..a + 1]), pid, cle, 0)
  {
    PasLance(fichier, pas, pid, a);
    assert pas[..a + 1][..a] == pas[..a];
  }

  lemma {:induction false} PasLance(fichier: Contenu, pas: seq<Pas>, pid: nat, a: nat)
    requires a <= |pas| && forall i :: 0 <= i < a ==> pas[i].pid != pid
    ensures pid !in AvanceTous(Systeme(fichier, map[]), pas[..a]).processus
  {
    if a > 0 {
      PasLance(fichier, pas, pid, a - 1);
      assert pas[..a][..a - 1] == pas[..a - 1];
    }
  }
}
