/**
 * A worked example across the lexicon reader and the root generator: the
 * noun "kitap" (book) ends in a voiceless stop after two vowels, so inference
 * marks it Voicing and generation yields "kitap" and "kitab".
 */
module Scenarios {
  import opened Results
  import opened Model
  import opened Text
  import opened Phonetics
  import opened LexemeCreator
  import opened ImmutableRootGenerator

  /** The letter facts of Turkish the example relies on. */
  predicate KitapLetters(ph: Phonetics) {
    !ph.isVowel('k') && ph.isVowel('i') && !ph.isVowel('t') && ph.isVowel('a') && !ph.isVowel('p')
    && ph.isVoiceless('p') && !ph.isContinuant('p') && ph.voice('p') == Some('b')
  }

  /** A noun with no explicit attributes, ending in a voiceless stop after two vowels, is inferred to voice. */
  lemma KitapInfersVoicing(ph: Phonetics)
    requires KitapLetters(ph)
    ensures NewLexeme(ph, "kitap", "kitap", Some(NOUN), None, {}) == Success(Lexeme("kitap", "kitap", NOUN, None, {Voicing}))
  {
    assert Vowels(ph, "k") == 0 by { assert "k"[..0] == []; }
    assert Vowels(ph, "ki") == 1 by { assert "ki"[..1] == "k"; }
    assert Vowels(ph, "kit") == 1 by { assert "kit"[..2] == "ki"; }
    assert Vowels(ph, "kita") == 2 by { assert "kita"[..3] == "kit"; }
    assert Vowels(ph, "kitap") == 2 by { assert "kitap"[..4] == "kita"; }
    assert VoicesByShape(ph, 'p', 2, {});
    assert NounOrAdjectiveAttributes(ph, "kitap", 'p', 2, {}) == {Voicing};
    assert Inferred(ph, "kitap", NOUN, {}) == Success({Voicing});
  }

  /** The dictionary line "kitap" on its own is that noun. */
  lemma KitapLine(ph: Phonetics, vocab: Vocabulary)
    requires KitapLetters(ph)
    ensures LexemeFromLine(ph, vocab, "kitap") == Success(Some(Lexeme("kitap", "kitap", NOUN, None, {Voicing})))
  {
    BareWordLine(ph, vocab, "kitap");
    assert !EndsWith("kitap", "mek") && !EndsWith("kitap", "mak");
    KitapInfersVoicing(ph);
  }

  /** Its roots: "kitap" demanding a consonant next and "kitab" demanding a vowel. */
  lemma KitapRoots(ph: Phonetics)
    requires KitapLetters(ph)
    ensures var lexeme := Lexeme("kitap", "kitap", NOUN, None, {Voicing});
      Roots(ph, lexeme).Success?
      && (set x | x in Roots(ph, lexeme).value :: x.rootStr) == {"kitap", "kitab"}
      && forall x | x in Roots(ph, lexeme).value ::
           x.phoneticExpectations == (if x.rootStr == "kitap" then {ConsonantStart} else {VowelStart})
  {
    var lexeme := Lexeme("kitap", "kitap", NOUN, None, {Voicing});
    assert !EndsWith("kitap", "nk");
    assert "kitap"[..4] + ['b'] == "kitab";
    var a := Pipeline(ph, lexeme).value;
    assert a == UpToVoicing(ph, lexeme).value;
    assert a.modifiedRootStr == "kitab";
    assert Roots(ph, lexeme).value == RootsOf(lexeme, a);
  }
}
