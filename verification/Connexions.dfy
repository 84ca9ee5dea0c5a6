/** Connecting a tab to a host of the SSH configuration: the dialogue with the user and the server. */
module Connexions {
  import opened Octets
  import opened Marqueurs

  const REFUS_MAX := 3

  datatype Issue = Ouverte | Echec(message: string)

  /** One exchange with the world, with the answer it got. */
  datatype Acte =
    | Besoin(oui: bool)                                    // host_needs_password; a failed call counts as no
    | Demande(saisie: Option<Saisie>)                      // the password dialog; None when cancelled
    | Presence(ouvert: bool)                               // is the tab still there?
    | Ouverture(motDePasse: Option<string>, issue: Issue)  // pty_open
    | Confirmation(oui: bool)                              // forget the host key?
    | Oubli(reussi: bool)                                  // known_hosts_forget
    | Memorisation(garde: string)                          // password_save

  /** Everything the user or the server might answer next. */
  datatype Reponse = Reponse(oui: bool, saisie: Option<Saisie>, issue: Issue)

  datatype Fin = Vivante | Fermee | Muette

  // ---------- What a conversation says ----------

  /** The last password the user gave. */
  function Derniere(j: seq<Acte>): Option<Saisie> {
    if j == [] then None
    else if j[|j| - 1].Demande? && j[|j| - 1].saisie.Some? then j[|j| - 1].saisie
    else Derniere(j[..|j| - 1])
  }

  function MotDePasse(s: Option<Saisie>): Option<string> {
    if s.None? then None else Some(s.value.motDePasse)
  }

  /** A password was submitted and the server wants another. */
  predicate EstRefus(a: Acte) {
    && a.Ouverture? && a.motDePasse.Some? && a.issue.Echec?
    && !CleHoteChangee(a.issue.message) && MotDePasseRequis(a.issue.message)
  }

  function Ouvertures(j: seq<Acte>): nat {
    if j == [] then 0 else Ouvertures(j[..|j| - 1]) + if j[|j| - 1].Ouverture? then 1 else 0
  }

  function Refus(j: seq<Acte>): nat {
    if j == [] then 0 else Refus(j[..|j| - 1]) + if EstRefus(j[|j| - 1]) then 1 else 0
  }

  function Oublis(j: seq<Acte>): nat {
    if j == [] then 0 else Oublis(j[..|j| - 1]) + if j[|j| - 1].Oubli? then 1 else 0
  }

  /** A password given by the user goes to the server next, unless the tab is gone. */
  ghost predicate Soumise(j: seq<Acte>, i: nat)
    requires i < |j| && j[i].Demande? && j[i].saisie.Some?
  {
    && i + 1 < |j| && j[i + 1].Presence?
    && (j[i + 1].ouvert ==>
      i + 2 < |j| && j[i + 2].Ouverture? && j[i + 2].motDePasse == Some(j[i].saisie.value.motDePasse))
  }

  // ---------- The conversation, act by act ----------

  /** What comes next in a conversation, if anything does. */
  datatype Suite = Interroger | Demander | Regarder | Ouvrir | Confirmer | Oublier | Memoriser | Finir

  /** What must come after the acts `j`, told from the last one, and from the passwords, refusals and keys forgotten. */
  function Prochaine(j: seq<Acte>): Suite {
    if j == [] then Interroger else
      match j[|j| - 1]
      case Besoin(oui) => if oui then Demander else Regarder
      case Demande(saisie) => if saisie.Some? then Regarder else Finir
      case Presence(ouvert) => if ouvert then Ouvrir else Finir
      case Ouverture(_, issue) =>
        if issue.Ouverte? then
          (var s := Derniere(j);
           if s.Some? && s.value.motDePasse != "" && s.value.memoriser then Suite.Memoriser else Finir)
        else if CleHoteChangee(issue.message) then if Oublis(j) == 0 then Confirmer else Finir
        else if MotDePasseRequis(issue.message) && Refus(j) < 3 then Demander
        else Finir
      case Confirmation(oui) => if oui then Oublier else Finir
      case Oubli(reussi) => if reussi then Regarder else Finir
      case Memorisation(_) => Finir
  }

  /** `a` is the act `suite` calls for after `j`, with the answer `r` of the world; an opening submits the last password
      given, and that is the one saved. */
  predicate Appelle(suite: Suite, j: seq<Acte>, r: Reponse, a: Acte) {
    match suite
    case Interroger => a == Besoin(r.oui)
    case Demander => a == Demande(r.saisie)
    case Regarder => a == Presence(r.oui)
    case Ouvrir => a == Ouverture(MotDePasse(Derniere(j)), r.issue)
    case Confirmer => a == Confirmation(r.oui)
    case Oublier => a == Oubli(r.oui)
    case Memoriser => Derniere(j).Some? && a == Memorisation(Derniere(j).value.motDePasse)
    case Finir => false
  }

  /** Every act is the one called for by those before it, answered by the world. */
  ghost predicate Suivie(scenario: nat -> Reponse, j: seq<Acte>) {
    forall i :: 0 <= i < |j| ==> Appelle(Prochaine(j[..i]), j[..i], scenario(i), j[i])
  }

  lemma SuivieUn(scenario: nat -> Reponse, j: seq<Acte>, a: Acte)
    requires Suivie(scenario, j) && Appelle(Prochaine(j), j, scenario(|j|), a)
    ensures Suivie(scenario, j + [a])
  {
    var k := j + [a];
    forall i | 0 <= i < |k| ensures Appelle(Prochaine(k[..i]), k[..i], scenario(i), k[i]) {
      assert k[..i] == j[..i];
      assert i == |j| ==> j[..i] == j;
    }
  }

  lemma PasFini(scenario: nat -> Reponse, j: seq<Acte>, n: nat)
    requires Suivie(scenario, j) && n < |j|
    ensures Prochaine(j[..n]) != Finir
  {
    assert Appelle(Prochaine(j[..n]), j[..n], scenario(n), j[n]);
  }

  lemma UnSeulActe(suite: Suite, j: seq<Acte>, r: Reponse, a: Acte, b: Acte)
    requires Appelle(suite, j, r, a) && Appelle(suite, j, r, b)
    ensures a == b
  {
  }

  lemma {:induction false} MemeDebut(scenario: nat -> Reponse, j: seq<Acte>, k: seq<Acte>, n: nat)
    requires Suivie(scenario, j) && Suivie(scenario, k) && n <= |j| && n <= |k|
    ensures j[..n] == k[..n]
  {
    if n > 0 {
      MemeDebut(scenario, j, k, n - 1);
      var d := j[..n - 1];
      UnSeulActe(Prochaine(d), d, scenario(n - 1), j[n - 1], k[n - 1]);
      assert j[..n] == d + [j[n - 1]] && k[..n] == d + [k[n - 1]];
    }
  }

  /** Whatever the world answers, there is one conversation only. */
  lemma ConversationUnique(scenario: nat -> Reponse, j: seq<Acte>, k: seq<Acte>)
    requires Suivie(scenario, j) && Suivie(scenario, k) && Prochaine(j) == Prochaine(k) == Finir
    ensures j == k
  {
    assert j[..|j|] == j && k[..|k|] == k;
    MemeDebut(scenario, j, k, if |j| <= |k| then |j| else |k|);
    if |j| < |k| {
      PasFini(scenario, k, |j|);
    } else if |k| < |j| {
      PasFini(scenario, j, |k|);
    }
  }

  /** What every act owes to those before it. */
  ghost predicate Fonde(j: seq<Acte>, i: nat)
    requires i < |j|
  {
    match j[i]
    // Nothing is ever tried but the last password given, and only on a tab that is there.
    case Ouverture(motDePasse, _) =>
      motDePasse == MotDePasse(Derniere(j[..i])) && i > 0 && j[i - 1] == Presence(true)
    // The key is only forgotten when it changed and the user agreed.
    case Oubli(_) =>
      && i >= 2 && j[i - 1] == Confirmation(true)
      && j[i - 2].Ouverture? && j[i - 2].issue.Echec? && CleHoteChangee(j[i - 2].issue.message)
    // Only the password that has just worked is saved, and only if the user asked for it.
    case Memorisation(garde) =>
      && i > 0 && j[i - 1] == Ouverture(Some(garde), Ouverte)
      && Derniere(j[..i]) == Some(Saisie(garde, true))
    case _ => true
  }

  /** All acts are founded, and every password given was submitted, but for one given `attente` acts ago, if any. */
  ghost predicate Fondee(j: seq<Acte>, attente: nat) {
    && (forall i :: 0 <= i < |j| ==> Fonde(j, i))
    && (forall i :: 0 <= i < |j| && j[i].Demande? && j[i].saisie.Some? ==> Soumise(j, i) || i + attente == |j|)
  }

  lemma ProlongeFonde(j: seq<Acte>, a: Acte)
    requires (forall i :: 0 <= i < |j| ==> Fonde(j, i)) && Fonde(j + [a], |j|)
    ensures forall i :: 0 <= i < |j + [a]| ==> Fonde(j + [a], i)
  {
    forall i | 0 <= i < |j| ensures Fonde(j + [a], i) {
      assert (j + [a])[..i] == j[..i] && Fonde(j, i);
    }
  }

  lemma Compteurs(j: seq<Acte>, a: Acte)
    ensures Ouvertures(j + [a]) == Ouvertures(j) + if a.Ouverture? then 1 else 0
    ensures Refus(j + [a]) == Refus(j) + if EstRefus(a) then 1 else 0
    ensures Oublis(j + [a]) == Oublis(j) + if a.Oubli? then 1 else 0
    ensures Derniere(j + [a]) == if a.Demande? && a.saisie.Some? then a.saisie else Derniere(j)
  {
    assert (j + [a])[..|j|] == j;
  }

  /** An act that neither gives a password nor answers one. */
  lemma Prolonge(j: seq<Acte>, a: Acte)
    requires Fondee(j, 0) && Fonde(j + [a], |j|)
    ensures Fondee(j + [a], if a.Demande? then 1 else 0)
  {
    ProlongeFonde(j, a);
    forall i | 0 <= i < |j| && j[i].Demande? && j[i].saisie.Some? ensures Soumise(j + [a], i) {
      assert Soumise(j, i);
    }
  }

  lemma ProlongePresence(j: seq<Acte>, ouvert: bool)
    requires Fondee(j, 1)
    ensures Fondee(j + [Presence(ouvert)], if ouvert then 2 else 0)
  {
    ProlongeFonde(j, Presence(ouvert));
    forall i | 0 <= i < |j| - 1 && j[i].Demande? && j[i].saisie.Some? ensures Soumise(j + [Presence(ouvert)], i) {
      assert Soumise(j, i);
    }
  }

  lemma ProlongeOuverture(j: seq<Acte>, issue: Issue)
    requires |j| > 0 && Fondee(j, 2) && j[|j| - 1] == Presence(true)
    ensures Fondee(j + [Ouverture(MotDePasse(Derniere(j)), issue)], 0)
  {
    var a := Ouverture(MotDePasse(Derniere(j)), issue);
    assert (j + [a])[..|j|] == j;
    ProlongeFonde(j, a);
    forall i | 0 <= i < |j| && j[i].Demande? && j[i].saisie.Some? ensures Soumise(j + [a], i) {
      if i + 2 == |j| {
        assert j[..|j| - 1][i] == j[i];
      } else {
        assert Soumise(j, i);
      }
    }
  }

  /** What is left to try at most: three refusals, one key to learn again, one try without a password. */
  function Reste(refuses: nat, cleReapprise: bool, saisie: Option<Saisie>): int {
    (REFUS_MAX - refuses) + (if cleReapprise then 0 else 1) + (if saisie.None? then 1 else 0)
  }

  /** The state of the loop, between two tries. */
  ghost predicate EntreEssais(scenario: nat -> Reponse, j: seq<Acte>, refuses: nat, cleReapprise: bool,
                              saisie: Option<Saisie>) {
    && Suivie(scenario, j) && Prochaine(j) == Regarder
    && Fondee(j, 1) && Derniere(j) == saisie
    && refuses == Refus(j) < REFUS_MAX && Oublis(j) == (if cleReapprise then 1 else 0)
    && Ouvertures(j) + Reste(refuses, cleReapprise, saisie) <= 5
  }

  /** Is this failure the one that ends the conversation? A second changed key, a third refusal, or anything else. */
  predicate EchecFinal(j: seq<Acte>, message: string) {
    if CleHoteChangee(message) then Oublis(j) == 1
    else if MotDePasseRequis(message) then Refus(j) == REFUS_MAX
    else !Annulation(message)
  }

  /** How a conversation that ended this way must have finished. */
  ghost predicate FinJuste(j: seq<Acte>, fin: Fin)
    requires |j| > 0
  {
    var a := j[|j| - 1];
    match fin
    // Connected; the password is saved exactly when there is one and the user asked for it.
    case Vivante =>
      (match Derniere(j)
       case Some(Saisie(motDePasse, true)) =>
         a == if motDePasse != "" then Memorisation(motDePasse) else Ouverture(Some(motDePasse), Ouverte)
       case _ => a == Ouverture(MotDePasse(Derniere(j)), Ouverte))
    // Given up before trying, the tab closed meanwhile, or the core says it was cancelled.
    case Muette =>
      || a == Presence(false) || j == [Besoin(true), Demande(None)]
      || (a.Ouverture? && a.issue.Echec? && !CleHoteChangee(a.issue.message)
          && !MotDePasseRequis(a.issue.message) && Annulation(a.issue.message))
    case Fermee =>
      || a == Confirmation(false) || a == Oubli(false) || a == Demande(None)
      || (a.Ouverture? && a.issue.Echec? && EchecFinal(j, a.issue.message))
  }

  /** A whole conversation, act by act: at most five tries, three refused passwords and one key learnt again; nothing
      is tried, forgotten or saved but on the grounds `Fonde` gives; every password given is submitted unless the tab
      is gone. */
  ghost predicate Complete(scenario: nat -> Reponse, j: seq<Acte>, fin: Fin) {
    && Suivie(scenario, j) && Prochaine(j) == Finir
    && Fondee(j, 0) && |j| > 0
    && Ouvertures(j) <= 5 && Refus(j) <= REFUS_MAX && Oublis(j) <= 1
    && FinJuste(j, fin)
  }

  /** A password may be asked before the first try. */
  method DemanderAvant(scenario: nat -> Reponse) returns (j: seq<Acte>, saisie: Option<Saisie>, renonce: bool)
    ensures if renonce then Complete(scenario, j, Muette) else EntreEssais(scenario, j, 0, false, saisie)
  {
    var besoin := scenario(0).oui;
    PremiereQuestion(scenario);
    j, saisie, renonce := [Besoin(besoin)], None, false;
    if besoin {
      saisie := scenario(1).saisie;
      PremiereReponse(scenario);
      j, renonce := j + [Demande(saisie)], saisie.None?;
    }
  }

  /** Before the first try: no password yet. */
  lemma PremiereQuestion(scenario: nat -> Reponse)
    ensures var j := [Besoin(scenario(0).oui)];
            && Suivie(scenario, j) && Prochaine(j) == (if scenario(0).oui then Demander else Regarder)
            && Fondee(j, 0) && Fondee(j, 1) && Derniere(j) == None && Ouvertures(j) == Refus(j) == Oublis(j) == 0
  {
    var a := Besoin(scenario(0).oui);
    assert [] + [a] == [a];
    Compteurs([], a);
    Prolonge([], a);
    SuivieUn(scenario, [], a);
  }

  /** ... or the one just typed. */
  lemma PremiereReponse(scenario: nat -> Reponse)
    requires scenario(0).oui
    ensures var s := scenario(1).saisie;
            var j := [Besoin(true)] + [Demande(s)];
            && Suivie(scenario, j) && Prochaine(j) == (if s.Some? then Regarder else Finir)
            && Fondee(j, 1) && (s.None? ==> Fondee(j, 0)) && j == [Besoin(true), Demande(s)]
            && Derniere(j) == s && Ouvertures(j) == Refus(j) == Oublis(j) == 0
  {
    var j, a := [Besoin(true)], Demande(scenario(1).saisie);
    PremiereQuestion(scenario);
    Compteurs(j, a);
    Prolonge(j, a);
    SuivieUn(scenario, j, a);
  }

  /** The host key has changed: may it be forgotten? */
  method OublierLaCle(scenario: nat -> Reponse, avant: seq<Acte>) returns (j: seq<Acte>, oubliee: bool)
    requires Fondee(avant, 0) && |avant| > 0 && Suivie(scenario, avant) && Prochaine(avant) == Confirmer
    requires var a := avant[|avant| - 1]; a.Ouverture? && a.issue.Echec? && CleHoteChangee(a.issue.message)
    ensures Fondee(j, 0) && |j| > 0 && Derniere(j) == Derniere(avant)
    ensures Ouvertures(j) == Ouvertures(avant) && Refus(j) == Refus(avant)
    ensures Oublis(j) <= Oublis(avant) + 1 && (oubliee ==> Oublis(j) == Oublis(avant) + 1)
    ensures !oubliee ==> FinJuste(j, Fermee)
    ensures Suivie(scenario, j) && Prochaine(j) == if oubliee then Regarder else Finir
  {
    var oui := scenario(|avant|).oui;
    Compteurs(avant, Confirmation(oui));
    Prolonge(avant, Confirmation(oui));
    SuivieUn(scenario, avant, Confirmation(oui));
    j := avant + [Confirmation(oui)];
    if !oui {
      return j, false;
    }
    oubliee := scenario(|j|).oui;
    Compteurs(j, Oubli(oubliee));
    Prolonge(j, Oubli(oubliee));
    SuivieUn(scenario, j, Oubli(oubliee));
    j := j + [Oubli(oubliee)];
  }

  /** The tab is there: one try with the last password given. */
  method Essayer(scenario: nat -> Reponse, avant: seq<Acte>, saisie: Option<Saisie>)
    returns (j: seq<Acte>, issue: Issue)
    requires |avant| > 0 && Fondee(avant, 2) && avant[|avant| - 1] == Presence(true) && Derniere(avant) == saisie
    requires Suivie(scenario, avant)
    ensures j == avant + [Ouverture(MotDePasse(saisie), issue)] && Fondee(j, 0) && Derniere(j) == saisie
    ensures Ouvertures(j) == Ouvertures(avant) + 1 && Oublis(j) == Oublis(avant) && Suivie(scenario, j)
    ensures Refus(j) == Refus(avant) + if EstRefus(Ouverture(MotDePasse(saisie), issue)) then 1 else 0
  {
    issue := scenario(|avant|).issue;
    ProlongeOuverture(avant, issue);
    SuivieUn(scenario, avant, Ouverture(MotDePasse(saisie), issue));
    Compteurs(avant, Ouverture(MotDePasse(saisie), issue));
    j := avant + [Ouverture(MotDePasse(saisie), issue)];
  }

  /** Connected: the password is saved if the user asked. */
  method Memoriser(scenario: nat -> Reponse, avant: seq<Acte>, saisie: Option<Saisie>) returns (j: seq<Acte>)
    requires |avant| > 0 && Fondee(avant, 0) && Derniere(avant) == saisie && Suivie(scenario, avant)
    requires avant[|avant| - 1] == Ouverture(MotDePasse(saisie), Ouverte)
    ensures Fondee(j, 0) && |j| > 0 && FinJuste(j, Vivante) && Suivie(scenario, j) && Prochaine(j) == Finir
    ensures Ouvertures(j) == Ouvertures(avant) && Oublis(j) == Oublis(avant) && Refus(j) == Refus(avant)
  {
    j := avant;
    if saisie.Some? && saisie.value.motDePasse != "" && saisie.value.memoriser {
      var a := Memorisation(saisie.value.motDePasse);
      Compteurs(j, a);
      assert (j + [a])[..|j|] == j;
      Prolonge(j, a);
      SuivieUn(scenario, j, a);
      j := j + [a];
    }
  }

  /** The password is missing or refused: asked again, unless it was the third refusal. */
  method Redemander(scenario: nat -> Reponse, avant: seq<Acte>, refuses: nat, cleReapprise: bool,
                    saisie: Option<Saisie>)
    returns (j: seq<Acte>, rendue: Option<Saisie>)
    requires |avant| > 0 && Fondee(avant, 0) && Derniere(avant) == saisie
    requires Suivie(scenario, avant) && Prochaine(avant) == Demander
    requires refuses == Refus(avant) < REFUS_MAX && Oublis(avant) == if cleReapprise then 1 else 0
    requires Ouvertures(avant) <= 5
    requires saisie.None? ==> Ouvertures(avant) + Reste(refuses, cleReapprise, saisie) <= 6
    requires saisie.Some? ==> Ouvertures(avant) + Reste(refuses, cleReapprise, saisie) <= 5
    ensures if rendue.None? then Complete(scenario, j, Fermee)
            else EntreEssais(scenario, j, refuses, cleReapprise, rendue)
  {
    rendue := scenario(|avant|).saisie;
    Compteurs(avant, Demande(rendue));
    Prolonge(avant, Demande(rendue));
    SuivieUn(scenario, avant, Demande(rendue));
    j := avant + [Demande(rendue)];
  }

  /** A try that failed: what is asked of the user, and whether to go on. */
  method Reagir(scenario: nat -> Reponse, avant: seq<Acte>, refuses: nat, cleReapprise: bool, saisie: Option<Saisie>,
                message: string)
    returns (j: seq<Acte>, fin: Option<Fin>, refuses': nat, cleReapprise': bool, saisie': Option<Saisie>)
    requires |avant| > 0 && Fondee(avant, 0) && Derniere(avant) == saisie && Suivie(scenario, avant)
    requires avant[|avant| - 1] == Ouverture(MotDePasse(saisie), Echec(message))
    requires refuses < REFUS_MAX && Oublis(avant) == if cleReapprise then 1 else 0
    requires Refus(avant) == refuses + if EstRefus(avant[|avant| - 1]) then 1 else 0
    requires Ouvertures(avant) + Reste(refuses, cleReapprise, saisie) <= 6
    ensures fin.Some? ==> Complete(scenario, j, fin.value)
    ensures fin.None? ==>
      && EntreEssais(scenario, j, refuses', cleReapprise', saisie')
      && 0 <= Reste(refuses', cleReapprise', saisie') < Reste(refuses, cleReapprise, saisie)
  {
    j, refuses', cleReapprise', saisie' := avant, refuses, cleReapprise, saisie;
    if CleHoteChangee(message) {
      if cleReapprise {
        return j, Some(Fermee), refuses', cleReapprise', saisie';
      }
      var oubliee;
      j, oubliee := OublierLaCle(scenario, j);
      return j, if oubliee then None else Some(Fermee), refuses', true, saisie';
    }
    if !MotDePasseRequis(message) {
      return j, Some(if Annulation(message) then Muette else Fermee), refuses', cleReapprise', saisie';
    }
    if saisie.Some? {
      refuses' := refuses + 1;
    }
    if refuses' >= REFUS_MAX {
      return j, Some(Fermee), refuses', cleReapprise', saisie';
    }
    j, saisie' := Redemander(scenario, j, refuses', cleReapprise, saisie);
    fin := if saisie'.None? then Some(Fermee) else None;
  }

  /** Opens the tab, whatever the user and the server answer. */
  method ConnectByAlias(scenario: nat -> Reponse) returns (j: seq<Acte>, fin: Fin)
    ensures Complete(scenario, j, fin)
  {
    var saisie, renonce;
    j, saisie, renonce := DemanderAvant(scenario);
    if renonce {
      return j, Muette;
    }
    var refuses, cleReapprise := 0, false;
    while true
      invariant EntreEssais(scenario, j, refuses, cleReapprise, saisie)
      decreases Reste(refuses, cleReapprise, saisie)
    {
      var ouvert := scenario(|j|).oui;
      ProlongePresence(j, ouvert);
      Compteurs(j, Presence(ouvert));
      SuivieUn(scenario, j, Presence(ouvert));
      j := j + [Presence(ouvert)];
      if !ouvert {
        return j, Muette;
      }
      var issue;
      j, issue := Essayer(scenario, j, saisie);
      if issue.Ouverte? {
        j := Memoriser(scenario, j, saisie);
        return j, Vivante;
      }
      var issueFinale;
      j, issueFinale, refuses, cleReapprise, saisie :=
        Reagir(scenario, j, refuses, cleReapprise, saisie, issue.message);
      if issueFinale.Some? {
        return j, issueFinale.value;
      }
    }
  }
}
