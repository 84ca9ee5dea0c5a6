/** The command line of the sidecar, read position by position. */
module LigneDeCommande {
  import opened Octets

  const OPTIONS_A_VALEUR: set<string> :=
    {"--host", "--port", "-u", "--username", "--domain", "--layout", "--width", "--height", "--scale", "--shot",
     "--enregistrer", "--lecteur"}

  const DRAPEAUX: set<string> := {"--vnc", "--sans-nla", "--tls-herite", "--sans-son"}

  predicate MotDePasse(a: string) {
    a == "-p" || a == "--password"
  }

  datatype Refus = MotDePasseEnArgument(a: string) | SansValeur(a: string) | Inconnu(a: string) | Inattendue

  /** What a command line is made of: options with their value, and flags. */
  datatype Jeton = Valeur(cle: string, valeur: string) | Drapeau(d: string)

  predicate Permis(j: Jeton) {
    match j
    case Valeur(cle, _) => cle in OPTIONS_A_VALEUR
    case Drapeau(d) => d in DRAPEAUX
  }

  function Mots(j: Jeton): seq<string> {
    if j.Valeur? then [j.cle, j.valeur] else [j.d]
  }

  function Imprime(js: seq<Jeton>): seq<string> {
    if js == [] then [] else Mots(js[0]) + Imprime(js[1..])
  }

  function Valeurs(js: seq<Jeton>): seq<(string, string)> {
    if js == [] then [] else (if js[0].Valeur? then [(js[0].cle, js[0].valeur)] else []) + Valeurs(js[1..])
  }

  function Drapeaux(js: seq<Jeton>): seq<string> {
    if js == [] then [] else (if js[0].Drapeau? then [js[0].d] else []) + Drapeaux(js[1..])
  }

  ghost predicate TousPermis(js: seq<Jeton>) {
    forall i :: 0 <= i < |js| ==> Permis(js[i])
  }

  lemma {:induction false} ImprimeSuivant(js: seq<Jeton>, j: Jeton)
    ensures Imprime(js + [j]) == Imprime(js) + Mots(j)
  {
    if js == [] {
      assert [] + [j] == [j] && [j][1..] == [];
    } else {
      assert (js + [j])[1..] == js[1..] + [j] && (js + [j])[0] == js[0];
      ImprimeSuivant(js[1..], j);
    }
  }

  lemma {:induction false} ValeursSuivant(js: seq<Jeton>, j: Jeton)
    ensures Valeurs(js + [j]) == Valeurs(js) + if j.Valeur? then [(j.cle, j.valeur)] else []
  {
    if js == [] {
      assert [] + [j] == [j] && [j][1..] == [];
    } else {
      assert (js + [j])[1..] == js[1..] + [j] && (js + [j])[0] == js[0];
      ValeursSuivant(js[1..], j);
    }
  }

  lemma {:induction false} DrapeauxSuivant(js: seq<Jeton>, j: Jeton)
    ensures Drapeaux(js + [j]) == Drapeaux(js) + if j.Drapeau? then [j.d] else []
  {
    if js == [] {
      assert [] + [j] == [j] && [j][1..] == [];
    } else {
      assert (js + [j])[1..] == js[1..] + [j] && (js + [j])[0] == js[0];
      DrapeauxSuivant(js[1..], j);
    }
  }

  lemma Suivant(js: seq<Jeton>, j: Jeton)
    ensures Imprime(js + [j]) == Imprime(js) + Mots(j)
    ensures Valeurs(js + [j]) == Valeurs(js) + if j.Valeur? then [(j.cle, j.valeur)] else []
    ensures Drapeaux(js + [j]) == Drapeaux(js) + if j.Drapeau? then [j.d] else []
  {
    ImprimeSuivant(js, j);
    ValeursSuivant(js, j);
    DrapeauxSuivant(js, j);
  }

  datatype Pa = Pa(valeurs: seq<(string, string)>, drapeaux: seq<string>)

  /** Why these words cannot be read. */
  ghost predicate Bloque(suite: seq<string>, refus: Refus)
    requires suite != []
  {
    var a := suite[0];
    if MotDePasse(a) then refus == MotDePasseEnArgument(a)
    else if a in OPTIONS_A_VALEUR then |suite| == 1 && refus == SansValeur(a)
    else a !in DRAPEAUX && refus == if a != "" && a[0] == '-' then Inconnu(a) else Inattendue
  }

  /** The words read so far are those of permitted options and flags. */
  ghost predicate Lu(args: seq<string>, i: nat, js: seq<Jeton>)
    requires i <= |args|
  {
    TousPermis(js) && Imprime(js) == args[..i]
  }

  // ---------- What was read is what was meant ----------

  lemma OptionPasDrapeau(a: string)
    ensures !(a in OPTIONS_A_VALEUR && a in DRAPEAUX)
    ensures MotDePasse(a) ==> a !in OPTIONS_A_VALEUR && a !in DRAPEAUX
  {
    if a in DRAPEAUX {
      assert a == "--vnc" || a == "--sans-nla" || a == "--tls-herite" || a == "--sans-son";
    }
  }

  /** Two printings that begin alike begin with the same token. */
  lemma MemeJeton(j: Jeton, k: Jeton, a: seq<string>, b: seq<string>)
    requires Permis(j) && Permis(k) && Mots(j) + a == Mots(k) + b
    ensures j == k && a == b
  {
    var mots := Mots(j) + a;
    assert mots[0] == Mots(j)[0] == Mots(k)[0];
    OptionPasDrapeau(mots[0]);
    if j.Valeur? {
      assert mots[1] == Mots(j)[1] == Mots(k)[1];
    }
    assert a == mots[|Mots(j)|..] && b == mots[|Mots(k)|..];
  }

  /** A command line is the printing of at most one list of permitted options and flags. */
  lemma {:induction false} ImpressionUnique(js: seq<Jeton>, ks: seq<Jeton>)
    requires TousPermis(js) && TousPermis(ks) && Imprime(js) == Imprime(ks)
    ensures js == ks
  {
    if js != [] && ks != [] {
      assert Permis(js[0]) && Permis(ks[0]);
      MemeJeton(js[0], ks[0], Imprime(js[1..]), Imprime(ks[1..]));
      ImpressionUnique(js[1..], ks[1..]);
      assert js == [js[0]] + js[1..] && ks == [ks[0]] + ks[1..];
    }
  }

  lemma BloqueAussitot(k: Jeton, reste: seq<string>, suite: seq<string>, refus: Refus)
    requires Permis(k) && suite != [] && Bloque(suite, refus)
    ensures Mots(k) + reste != suite
  {
    OptionPasDrapeau(suite[0]);
    assert (Mots(k) + reste)[0] == Mots(k)[0];
  }

  /** What is refused is the printing of no list of permitted options and flags. */
  lemma {:induction false} RefusFonde(js: seq<Jeton>, suite: seq<string>, refus: Refus, ks: seq<Jeton>)
    requires TousPermis(js) && TousPermis(ks) && suite != [] && Bloque(suite, refus)
    ensures Imprime(ks) != Imprime(js) + suite
  {
    if ks != [] {
      assert Permis(ks[0]);
      var reste := Imprime(ks[1..]);
      if js == [] {
        assert Imprime(js) + suite == suite;
        BloqueAussitot(ks[0], reste, suite, refus);
      } else {
        assert Permis(js[0]);
        var milieu := Imprime(js[1..]) + suite;
        assert Imprime(js) + suite == Mots(js[0]) + milieu;
        RefusFonde(js[1..], suite, refus, ks[1..]);
        if Mots(ks[0]) + reste == Mots(js[0]) + milieu {
          MemeJeton(js[0], ks[0], milieu, reste);
        }
      }
    }
  }

  /** Is the word at i read as a key? A key that takes a value takes the next word whatever it is. */
  predicate EnCle(args: seq<string>, i: nat)
    requires i < |args|
  {
    i == 0 ||
    (if args[0] in OPTIONS_A_VALEUR then i >= 2 && EnCle(args[2..], i - 2) else EnCle(args[1..], i - 1))
  }

  /** The word at i of a printing, read as a key. */
  ghost predicate CleEn(mots: seq<string>, i: nat, k: string) {
    i < |mots| && EnCle(mots, i) && mots[i] == k
  }

  lemma CleSuivante(j: Jeton, suite: seq<string>, i: nat, k: string)
    requires Permis(j)
    ensures CleEn(Mots(j) + suite, |Mots(j)| + i, k) <==> CleEn(suite, i, k)
  {
    var mots := Mots(j) + suite;
    OptionPasDrapeau(mots[0]);
    assert mots[|Mots(j)|..] == suite;
  }

  lemma PremiereCle(j: Jeton, suite: seq<string>, i: nat, k: string)
    requires Permis(j) && k in DRAPEAUX && i < |Mots(j)| && CleEn(Mots(j) + suite, i, k)
    ensures j == Drapeau(k)
  {
    assert (Mots(j) + suite)[0] == Mots(j)[0];
    OptionPasDrapeau(k);
  }

  /** The word stands somewhere as a key. */
  ghost predicate EstCle(mots: seq<string>, k: string) {
    exists i: nat :: CleEn(mots, i, k)
  }

  /** A flag stands as a key in a printing when it is the first token, or stands as one in what follows. */
  lemma ClePremiereOuSuite(j: Jeton, suite: seq<string>, k: string)
    requires Permis(j) && k in DRAPEAUX
    ensures EstCle(Mots(j) + suite, k) <==> j == Drapeau(k) || EstCle(suite, k)
  {
    var mots, w := Mots(j) + suite, |Mots(j)|;
    if i: nat :| CleEn(mots, i, k) {
      if i >= w {
        CleSuivante(j, suite, i - w, k);
        assert CleEn(suite, i - w, k);
      } else {
        PremiereCle(j, suite, i, k);
      }
    }
    if j == Drapeau(k) {
      assert CleEn(mots, 0, k);
    }
    if i: nat :| CleEn(suite, i, k) {
      CleSuivante(j, suite, i, k);
      assert CleEn(mots, w + i, k);
    }
  }

  /** A flag is set exactly when it stands where a key is read: never because some value looks like it. */
  lemma {:induction false} DrapeauEnCle(js: seq<Jeton>, k: string)
    requires TousPermis(js) && k in DRAPEAUX
    ensures k in Drapeaux(js) <==> EstCle(Imprime(js), k)
  {
    if js != [] {
      assert Permis(js[0]);
      DrapeauEnCle(js[1..], k);
      ClePremiereOuSuite(js[0], Imprime(js[1..]), k);
      assert Drapeaux(js) == (if js[0].Drapeau? then [js[0].d] else []) + Drapeaux(js[1..]);
    }
  }

  /** The options of a line with their values, read from its words: a word that takes a value goes with the next. */
  function Paires(args: seq<string>): seq<(string, string)> {
    if args == [] then []
    else if args[0] in OPTIONS_A_VALEUR && |args| > 1 then [(args[0], args[1])] + Paires(args[2..])
    else Paires(args[1..])
  }

  /** The values read are those of the options of the line, in its order. */
  lemma {:induction false} ValeursExactes(js: seq<Jeton>)
    requires TousPermis(js)
    ensures Valeurs(js) == Paires(Imprime(js))
  {
    if js != [] {
      var mots, suite := Imprime(js), Imprime(js[1..]);
      assert Permis(js[0]);
      assert mots == Mots(js[0]) + suite;
      OptionPasDrapeau(mots[0]);
      assert mots[|Mots(js[0])|..] == suite;
      ValeursExactes(js[1..]);
    }
  }

  ghost predicate EstLigne(ks: seq<Jeton>, args: seq<string>) {
    TousPermis(ks) && Imprime(ks) == args
  }

  lemma RefusTotal(args: seq<string>, js: seq<Jeton>, refus: Refus)
    requires |Imprime(js)| < |args| && Lu(args, |Imprime(js)|, js) && Bloque(args[|Imprime(js)|..], refus)
    ensures forall ks :: !EstLigne(ks, args)
  {
    var suite := args[|Imprime(js)|..];
    assert args == Imprime(js) + suite;
    forall ks | TousPermis(ks) ensures Imprime(ks) != args {
      RefusFonde(js, suite, refus, ks);
    }
  }

  /** Reads the command line: the options and flags it is the printing of, or the reason it is not one. */
  method Analyser(args: seq<string>) returns (r: Option<Pa>, refus: Option<Refus>, ghost js: seq<Jeton>)
    ensures r.Some? <==> refus.None?
    ensures r.Some? <==> exists ks :: EstLigne(ks, args)
    ensures r.Some? ==> TousPermis(js) && Imprime(js) == args && r.value == Pa(Valeurs(js), Drapeaux(js))
    ensures refus.Some? ==>
              && |Imprime(js)| < |args| && Lu(args, |Imprime(js)|, js)
              && Bloque(args[|Imprime(js)|..], refus.value)
  {
    var valeurs: seq<(string, string)>, drapeaux: seq<string> := [], [];
    js := [];
    var i := 0;
    while i < |args|
      invariant i <= |args| && Lu(args, i, js) && valeurs == Valeurs(js) && drapeaux == Drapeaux(js)
    {
      var a := args[i];
      if MotDePasse(a) {
        RefusTotal(args, js, MotDePasseEnArgument(a));
        return None, Some(MotDePasseEnArgument(a)), js;
      }
      if a in OPTIONS_A_VALEUR {
        if i + 1 == |args| {
          RefusTotal(args, js, SansValeur(a));
          return None, Some(SansValeur(a)), js;
        }
        Suivant(js, Valeur(a, args[i + 1]));
        valeurs, js := valeurs + [(a, args[i + 1])], js + [Valeur(a, args[i + 1])];
        i := i + 2;
      } else if a in DRAPEAUX {
        Suivant(js, Drapeau(a));
        drapeaux, js := drapeaux + [a], js + [Drapeau(a)];
        i := i + 1;
      } else {
        RefusTotal(args, js, if a != "" && a[0] == '-' then Inconnu(a) else Inattendue);
        return None, Some(if a != "" && a[0] == '-' then Inconnu(a) else Inattendue), js;
      }
    }
    assert args[..i] == args && EstLigne(js, args);
    r, refus := Some(Pa(valeurs, drapeaux)), None;
  }
}
