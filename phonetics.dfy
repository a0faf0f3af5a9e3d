/**
 * The phonetics collaborators the core calls but does not define
 * (TurkishAlphabet's letter classes and voicing table, and
 * PhoneticsAnalyzer.calculatePhoneticAttributes), bundled as a record of
 * total functions that every operation takes as a parameter, together with
 * the two letter-counting helpers the core defines on top of them.
 */
module Phonetics {
  import opened Results
  import opened Model

  datatype Phonetics = Phonetics(
    isVowel: char -> bool,
    isVoiceless: char -> bool,
    isContinuant: char -> bool,
    /** TurkishAlphabet.voice: the voiced counterpart, or null when there is none. */
    voice: char -> Option<char>,
    /** calculatePhoneticAttributes(str, attributesOrNull). */
    calculatePhoneticAttributes: (string, Option<set<LexemeAttribute>>) -> set<PhoneticAttribute>)

  /** ImmutableRootGenerator.hasVowel: some letter of `s` is a vowel. */
  predicate HasVowel(ph: Phonetics, s: string) {
    exists i | 0 <= i < |s| :: ph.isVowel(s[i])
  }

  /** The number of vowels in `s`, counted from the left as LexemeCreator.vowelCount does. */
  function Vowels(ph: Phonetics, s: string): (n: nat)
    ensures n <= |s|
  {
    if s == [] then 0
    else Vowels(ph, s[..|s| - 1]) + (if ph.isVowel(s[|s| - 1]) then 1 else 0)
  }

  /** The two helpers agree: a string has a vowel exactly when its vowel count is positive. */
  lemma {:induction false} HasVowelIffVowels(ph: Phonetics, s: string)
    ensures HasVowel(ph, s) <==> Vowels(ph, s) > 0
  {
    if s != [] {
      var init := s[..|s| - 1];
      HasVowelIffVowels(ph, init);
      if HasVowel(ph, init) {
        var i :| 0 <= i < |init| && ph.isVowel(init[i]);
        assert s[i] == init[i];
      }
      if HasVowel(ph, s) && !ph.isVowel(s[|s| - 1]) {
        var i :| 0 <= i < |s| && ph.isVowel(s[i]);
        assert init[i] == s[i];
      }
    }
  }

  /** Counting is additive over concatenation. */
  lemma {:induction false} VowelsAppend(ph: Phonetics, s: string, t: string)
    ensures Vowels(ph, s + t) == Vowels(ph, s) + Vowels(ph, t)
    decreases |t|
  {
    if t != [] {
      assert (s + t)[..|s + t| - 1] == s + t[..|t| - 1];
      VowelsAppend(ph, s, t[..|t| - 1]);
    } else {
      assert s + t == s;
    }
  }
}
