/** The markers by which the core tells the interface why a call failed. */
module Marqueurs {
  predicate Contient(texte: string, fragment: string)
    decreases |texte|
  {
    fragment <= texte || (texte != "" && Contient(texte[1..], fragment))
  }

  /** The fragment stands at `i` in the text. */
  predicate ContientEn(texte: string, fragment: string, i: nat) {
    i + |fragment| <= |texte| && texte[i..i + |fragment|] == fragment
  }

  lemma {:induction false} ContientSsi(texte: string, fragment: string)
    ensures Contient(texte, fragment) <==> exists i: nat :: ContientEn(texte, fragment, i)
    decreases |texte|
  {
    if fragment <= texte {
      assert ContientEn(texte, fragment, 0);
    } else if texte != "" {
      ContientSsi(texte[1..], fragment);
      if i: nat :| ContientEn(texte[1..], fragment, i) {
        assert texte[1..][i..i + |fragment|] == texte[i + 1..i + 1 + |fragment|];
        assert ContientEn(texte, fragment, i + 1);
      }
      if i: nat :| ContientEn(texte, fragment, i) {
        assert i > 0 && texte[i..i + |fragment|] == texte[1..][i - 1..i - 1 + |fragment|];
        assert ContientEn(texte[1..], fragment, i - 1);
      }
    }
  }

  predicate CleHoteChangee(message: string) {
    Contient(message, "[AVASH_HOST_KEY_CHANGED]")
  }

  predicate MotDePasseRequis(message: string) {
    Contient(message, "[AVASH_PASSWORD_REQUIRED]")
  }

  predicate Annulation(message: string) {
    Contient(message, "[AVASH_ANNULE]")
  }

  /** What the user typed in the password dialog, and whether to remember it. */
  datatype Saisie = Saisie(motDePasse: string, memoriser: bool)
}
