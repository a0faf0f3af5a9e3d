/**
 * ImmutableRootGenerator: the surface variants (roots) of a lexeme. A lexeme
 * without any root-modifying attribute has one root, its lemma root; an
 * irregular lexeme takes its changed stem from a fixed table; every other
 * modified lexeme runs a fixed pipeline of edits (voicing, doubling, last
 * vowel drop, inverse harmony, progressive vowel drop) and yields its
 * original and its modified root.
 */
module ImmutableRootGenerator {
  import opened Results
  import opened Text
  import opened Model
  import opened Phonetics

  /** modifiersToWatch: the attributes that send a lexeme down the modified path. */
  const ModifiersToWatch: set<LexemeAttribute> :=
    {Doubling, LastVowelDrop, ProgressiveVowelDrop, InverseHarmony, Voicing, VoicingOpt, RootChange}

  /** rootChanges: the irregular stems, keyed by lemma and category; a key with no category applies to every category. */
  const RootChanges: map<(string, Option<SyntacticCategory>), string> := map[
    ("ben", Some(PRONOUN)) := "ban",
    ("sen", Some(PRONOUN)) := "san",
    ("demek", Some(VERB)) := "di",
    ("yemek", Some(VERB)) := "yi",
    ("hepsi", Some(PRONOUN)) := "hep",
    ("ora", Some(PRONOUN)) := "or",
    ("bura", Some(PRONOUN)) := "bur",
    ("şura", Some(PRONOUN)) := "şur",
    ("nere", Some(PRONOUN)) := "ner",
    ("içeri", None) := "içer",
    ("dışarı", None) := "dışar",
    ("birbiri", Some(PRONOUN)) := "birbir"]

  // ---------------------------------------------------------------------
  // Irregular roots
  // ---------------------------------------------------------------------

  /**
   * The changed stem of a RootChange lexeme: the entry for its lemma and
   * category, or, when that is missing or blank, the entry for its lemma alone;
   * no entry at all is a NullPointerException (Validate.notNull).
   */
  function ChangedRootStr(lexeme: Lexeme): (r: Result<string>)
    ensures var primary := (lexeme.lemmaStr, Some(lexeme.syntacticCategory));
      var fallback := (lexeme.lemmaStr, None);
      && (r.Success? <==> (primary in RootChanges && !IsBlank(RootChanges[primary])) || fallback in RootChanges)
      && (r.Failure? ==> r.error == NullPointer)
      && (r.Success? && primary in RootChanges && !IsBlank(RootChanges[primary]) ==> r.value == RootChanges[primary])
      && (r.Success? && !(primary in RootChanges && !IsBlank(RootChanges[primary])) ==> r.value == RootChanges[fallback])
  {
    var primary := (lexeme.lemmaStr, Some(lexeme.syntacticCategory));
    var fallback := (lexeme.lemmaStr, None);
    if primary in RootChanges && !IsBlank(RootChanges[primary]) then Success(RootChanges[primary])
    else if fallback in RootChanges then Success(RootChanges[fallback])
    else Failure(NullPointer)
  }

  /** The lexeme both special roots point at: the original without RootChange. */
  function WithoutRootChange(lexeme: Lexeme): (l: Lexeme)
    ensures l.attributes == lexeme.attributes - {RootChange}
    ensures l == lexeme.(attributes := l.attributes)
  {
    lexeme.(attributes := lexeme.attributes - {RootChange})
  }

  /**
   * handleSpecialRoots: the unchanged and the changed stem, both for the
   * lexeme without RootChange, each with the phonetic attributes computed in
   * the context of that lexeme's attributes, and no phonetic expectations.
   */
  function SpecialRoots(ph: Phonetics, lexeme: Lexeme): (r: Result<set<Root>>)
    ensures r.Success? <==> ChangedRootStr(lexeme).Success?
    ensures r.Failure? ==> r.error == NullPointer
    ensures r.Success? ==> 1 <= |r.value| <= 2
    ensures r.Success? ==> forall x | x in r.value :: x.lexeme == WithoutRootChange(lexeme)
    ensures r.Success? ==> (set x | x in r.value :: x.rootStr) == {lexeme.lemmaRoot, ChangedRootStr(lexeme).value}
    ensures r.Success? ==> forall x | x in r.value ::
      x.phoneticAttributes == ph.calculatePhoneticAttributes(x.rootStr, Some(lexeme.attributes - {RootChange}))
      && x.phoneticExpectations == {}
  {
    match ChangedRootStr(lexeme)
    case Failure(e) => Failure(e)
    case Success(changed) =>
      var modified := WithoutRootChange(lexeme);
      var unchangedRoot := Root(lexeme.lemmaRoot, modified,
        ph.calculatePhoneticAttributes(lexeme.lemmaRoot, Some(modified.attributes)), {});
      var changedRoot := Root(changed, modified,
        ph.calculatePhoneticAttributes(changed, Some(modified.attributes)), {});
      var roots := {unchangedRoot, changedRoot};
      assert (set x | x in roots :: x.rootStr) == {lexeme.lemmaRoot, changed};
      Success(roots)
  }

  // ---------------------------------------------------------------------
  // The modification pipeline
  // ---------------------------------------------------------------------

  /** The working string and the four accumulators generateModifiedRootNodes updates. */
  datatype Accumulator = Accumulator(
    modifiedRootStr: string,
    originalPhoneticAttrs: set<PhoneticAttribute>,
    modifiedPhoneticAttrs: set<PhoneticAttribute>,
    originalPhoneticExpectations: set<PhoneticExpectation>,
    modifiedPhoneticExpectations: set<PhoneticExpectation>)

  /** Before any edit: the lemma root, its phonetic attributes twice, no expectations. */
  function Start(ph: Phonetics, lexeme: Lexeme): (a: Accumulator)
    ensures a.modifiedRootStr == lexeme.lemmaRoot
    ensures a.originalPhoneticAttrs == a.modifiedPhoneticAttrs == ph.calculatePhoneticAttributes(lexeme.lemmaRoot, None)
    ensures a.originalPhoneticExpectations == a.modifiedPhoneticExpectations == {}
  {
    var attrs := ph.calculatePhoneticAttributes(lexeme.lemmaRoot, None);
    Accumulator(lexeme.lemmaRoot, attrs, attrs, {}, {})
  }

  /** The letter voicing puts at the end: 'g' after "nk", otherwise the voiced counterpart, if any. */
  function VoicedLastLetter(ph: Phonetics, lemmaRoot: string, last: char): (v: Option<char>)
    ensures EndsWith(lemmaRoot, "nk") ==> v == Some('g')
    ensures !EndsWith(lemmaRoot, "nk") ==> v == ph.voice(last)
  {
    if EndsWith(lemmaRoot, "nk") then Some('g') else ph.voice(last)
  }

  /**
   * Voicing / VoicingOpt: the last letter of the working string is replaced
   * by its voiced form; the modified root loses LastLetterVoicelessStop and
   * gets the continuance flag of its new letter; the original root then
   * demands a consonant next (unless voicing is optional) and the modified
   * root a vowel.
   */
  function VoicingStep(ph: Phonetics, lexeme: Lexeme, a: Accumulator): (r: Result<Accumulator>)
    ensures a.modifiedRootStr == [] ==> r == Failure(IndexOutOfBounds)
    ensures a.modifiedRootStr != [] ==>
      (r.Success? <==> VoicedLastLetter(ph, lexeme.lemmaRoot, a.modifiedRootStr[|a.modifiedRootStr| - 1]).Some?)
    ensures r.Failure? && a.modifiedRootStr != [] ==> r.error == NullPointer
    ensures r.Success? ==>
      var s := a.modifiedRootStr;
      var v := VoicedLastLetter(ph, lexeme.lemmaRoot, s[|s| - 1]).value;
      var m := r.value.modifiedPhoneticAttrs;
      && r.value.modifiedRootStr == s[..|s| - 1] + [v]
      && LastLetterVoicelessStop !in m
      && (LastLetterContinuant in m <==> ph.isContinuant(v))
      && (LastLetterNotContinuant in m <==> !ph.isContinuant(v))
      && m - {LastLetterContinuant, LastLetterNotContinuant}
         == a.modifiedPhoneticAttrs - {LastLetterVoicelessStop, LastLetterContinuant, LastLetterNotContinuant}
      && r.value.originalPhoneticAttrs == a.originalPhoneticAttrs
      && (ConsonantStart in r.value.originalPhoneticExpectations <==>
          ConsonantStart in a.originalPhoneticExpectations || VoicingOpt !in lexeme.attributes)
      && r.value.originalPhoneticExpectations - {ConsonantStart} == a.originalPhoneticExpectations - {ConsonantStart}
      && r.value.modifiedPhoneticExpectations == a.modifiedPhoneticExpectations + {VowelStart}
  {
    var s := a.modifiedRootStr;
    if s == [] then Failure(IndexOutOfBounds)
    else
      match VoicedLastLetter(ph, lexeme.lemmaRoot, s[|s| - 1])
      case None => Failure(NullPointer)
      case Some(v) =>
        var m := a.modifiedPhoneticAttrs - {LastLetterVoicelessStop};
        var m' := if ph.isContinuant(v) then (m - {LastLetterNotContinuant}) + {LastLetterContinuant}
                  else (m - {LastLetterContinuant}) + {LastLetterNotContinuant};
        var oe := if VoicingOpt !in lexeme.attributes then a.originalPhoneticExpectations + {ConsonantStart}
                  else a.originalPhoneticExpectations;
        Success(a.(modifiedRootStr := s[..|s| - 1] + [v], modifiedPhoneticAttrs := m',
                   originalPhoneticExpectations := oe,
                   modifiedPhoneticExpectations := a.modifiedPhoneticExpectations + {VowelStart}))
  }

  /** Doubling: the working string's current last letter is written twice; consonant next for the original, vowel for the modified. */
  function DoublingStep(a: Accumulator): (r: Result<Accumulator>)
    ensures r.Failure? <==> a.modifiedRootStr == []
    ensures r.Failure? ==> r.error == IndexOutOfBounds
    ensures r.Success? ==>
      var s := a.modifiedRootStr;
      && r.value.modifiedRootStr == s + [s[|s| - 1]]
      && |r.value.modifiedRootStr| == |s| + 1
      && r.value.originalPhoneticAttrs == a.originalPhoneticAttrs
      && r.value.modifiedPhoneticAttrs == a.modifiedPhoneticAttrs
      && r.value.originalPhoneticExpectations == a.originalPhoneticExpectations + {ConsonantStart}
      && r.value.modifiedPhoneticExpectations == a.modifiedPhoneticExpectations + {VowelStart}
  {
    var s := a.modifiedRootStr;
    if s == [] then Failure(IndexOutOfBounds)
    else Success(a.(modifiedRootStr := s + [s[|s| - 1]],
                    originalPhoneticExpectations := a.originalPhoneticExpectations + {ConsonantStart},
                    modifiedPhoneticExpectations := a.modifiedPhoneticExpectations + {VowelStart}))
  }

  /** LastVowelDrop: the next-to-last letter goes; only a non-verb's original root then demands a consonant. */
  function LastVowelDropStep(lexeme: Lexeme, a: Accumulator): (r: Result<Accumulator>)
    ensures r.Failure? <==> |a.modifiedRootStr| < 2
    ensures r.Failure? ==> r.error == IndexOutOfBounds
    ensures r.Success? ==>
      var s := a.modifiedRootStr;
      && r.value.modifiedRootStr == s[..|s| - 2] + [s[|s| - 1]]
      && |r.value.modifiedRootStr| + 1 == |s|
      && r.value.originalPhoneticAttrs == a.originalPhoneticAttrs
      && r.value.modifiedPhoneticAttrs == a.modifiedPhoneticAttrs
      && (ConsonantStart in r.value.originalPhoneticExpectations <==>
          ConsonantStart in a.originalPhoneticExpectations || lexeme.syntacticCategory != VERB)
      && r.value.originalPhoneticExpectations - {ConsonantStart} == a.originalPhoneticExpectations - {ConsonantStart}
      && r.value.modifiedPhoneticExpectations == a.modifiedPhoneticExpectations + {VowelStart}
  {
    var s := a.modifiedRootStr;
    if |s| < 2 then Failure(IndexOutOfBounds)
    else
      var oe := if lexeme.syntacticCategory != VERB then a.originalPhoneticExpectations + {ConsonantStart}
                else a.originalPhoneticExpectations;
      Success(a.(modifiedRootStr := s[..|s| - 2] + [s[|s| - 1]],
                 originalPhoneticExpectations := oe,
                 modifiedPhoneticExpectations := a.modifiedPhoneticExpectations + {VowelStart}))
  }

  /** The flags a root with inverse harmony carries: its last vowel counts as frontal. */
  function Frontal(attrs: set<PhoneticAttribute>): (r: set<PhoneticAttribute>)
    ensures LastVowelFrontal in r && LastVowelBack !in r
    ensures r - {LastVowelFrontal} == attrs - {LastVowelFrontal, LastVowelBack}
  {
    (attrs + {LastVowelFrontal}) - {LastVowelBack}
  }

  /** InverseHarmony: both roots' attributes are made frontal; nothing else changes. */
  function InverseHarmonyStep(a: Accumulator): Accumulator {
    a.(originalPhoneticAttrs := Frontal(a.originalPhoneticAttrs),
       modifiedPhoneticAttrs := Frontal(a.modifiedPhoneticAttrs))
  }

  /**
   * ProgressiveVowelDrop: the last letter goes; the modified attributes are
   * computed afresh only if a vowel is left, and the modified root demands a
   * vowel; the original root is not touched.
   */
  function ProgressiveVowelDropStep(ph: Phonetics, a: Accumulator): (r: Result<Accumulator>)
    ensures r.Failure? <==> a.modifiedRootStr == []
    ensures r.Failure? ==> r.error == IndexOutOfBounds
    ensures r.Success? ==>
      var s := a.modifiedRootStr;
      && r.value.modifiedRootStr == s[..|s| - 1]
      && (HasVowel(ph, s[..|s| - 1]) ==> r.value.modifiedPhoneticAttrs == ph.calculatePhoneticAttributes(s[..|s| - 1], None))
      && (!HasVowel(ph, s[..|s| - 1]) ==> r.value.modifiedPhoneticAttrs == a.modifiedPhoneticAttrs)
      && r.value.modifiedPhoneticExpectations == a.modifiedPhoneticExpectations + {VowelStart}
      && r.value.originalPhoneticAttrs == a.originalPhoneticAttrs
      && r.value.originalPhoneticExpectations == a.originalPhoneticExpectations
  {
    var s := a.modifiedRootStr;
    if s == [] then Failure(IndexOutOfBounds)
    else
      var t := s[..|s| - 1];
      Success(a.(modifiedRootStr := t,
                 modifiedPhoneticAttrs := if HasVowel(ph, t) then ph.calculatePhoneticAttributes(t, None) else a.modifiedPhoneticAttrs,
                 modifiedPhoneticExpectations := a.modifiedPhoneticExpectations + {VowelStart}))
  }

  /** Whether the voicing edit runs: Voicing or VoicingOpt is present. */
  predicate Voices(lexeme: Lexeme) {
    Voicing in lexeme.attributes || VoicingOpt in lexeme.attributes
  }

  /** The pipeline up to and including voicing. */
  function UpToVoicing(ph: Phonetics, lexeme: Lexeme): (r: Result<Accumulator>)
    ensures !Voices(lexeme) ==> r == Success(Start(ph, lexeme))
    ensures r.Success? ==> |r.value.modifiedRootStr| == |lexeme.lemmaRoot|
    ensures r.Success? ==> r.value.originalPhoneticAttrs == ph.calculatePhoneticAttributes(lexeme.lemmaRoot, None)
    ensures r.Success? ==>
      r.value.originalPhoneticExpectations == (if Voices(lexeme) && VoicingOpt !in lexeme.attributes then {ConsonantStart} else {})
    ensures r.Success? ==> r.value.modifiedPhoneticExpectations == (if Voices(lexeme) then {VowelStart} else {})
  {
    if Voices(lexeme) then VoicingStep(ph, lexeme, Start(ph, lexeme)) else Success(Start(ph, lexeme))
  }

  /** The pipeline up to and including doubling. */
  function UpToDoubling(ph: Phonetics, lexeme: Lexeme): (r: Result<Accumulator>)
    ensures r.Success? ==> UpToVoicing(ph, lexeme).Success?
    ensures r.Success? ==> |r.value.modifiedRootStr| == |lexeme.lemmaRoot| + (if Doubling in lexeme.attributes then 1 else 0)
    ensures r.Success? ==> r.value.originalPhoneticAttrs == ph.calculatePhoneticAttributes(lexeme.lemmaRoot, None)
    ensures r.Success? ==>
      r.value.originalPhoneticExpectations ==
        (if (Voices(lexeme) && VoicingOpt !in lexeme.attributes) || Doubling in lexeme.attributes then {ConsonantStart} else {})
    ensures r.Success? ==>
      r.value.modifiedPhoneticExpectations ==
        (if Voices(lexeme) || Doubling in lexeme.attributes then {VowelStart} else {})
  {
    match UpToVoicing(ph, lexeme)
    case Failure(e) => Failure(e)
    case Success(a) => if Doubling in lexeme.attributes then DoublingStep(a) else Success(a)
  }

  /** The pipeline up to and including the last vowel drop. */
  function UpToLastVowelDrop(ph: Phonetics, lexeme: Lexeme): (r: Result<Accumulator>)
    ensures r.Success? ==> UpToDoubling(ph, lexeme).Success?
    ensures r.Success? ==>
      |r.value.modifiedRootStr| + (if LastVowelDrop in lexeme.attributes then 1 else 0)
      == |lexeme.lemmaRoot| + (if Doubling in lexeme.attributes then 1 else 0)
    ensures r.Success? ==> r.value.originalPhoneticAttrs == ph.calculatePhoneticAttributes(lexeme.lemmaRoot, None)
    ensures r.Success? ==>
      r.value.originalPhoneticExpectations ==
        (if (Voices(lexeme) && VoicingOpt !in lexeme.attributes) || Doubling in lexeme.attributes
            || (LastVowelDrop in lexeme.attributes && lexeme.syntacticCategory != VERB)
         then {ConsonantStart} else {})
    ensures r.Success? ==>
      r.value.modifiedPhoneticExpectations ==
        (if Voices(lexeme) || Doubling in lexeme.attributes || LastVowelDrop in lexeme.attributes then {VowelStart} else {})
  {
    match UpToDoubling(ph, lexeme)
    case Failure(e) => Failure(e)
    case Success(a) => if LastVowelDrop in lexeme.attributes then LastVowelDropStep(lexeme, a) else Success(a)
  }

  /** The pipeline up to and including inverse harmony, which cannot fail. */
  function UpToInverseHarmony(ph: Phonetics, lexeme: Lexeme): (r: Result<Accumulator>)
    ensures r.Success? <==> UpToLastVowelDrop(ph, lexeme).Success?
    ensures r.Success? ==> r.value.modifiedRootStr == UpToLastVowelDrop(ph, lexeme).value.modifiedRootStr
    ensures r.Success? ==>
      r.value.originalPhoneticAttrs ==
        (if InverseHarmony in lexeme.attributes then Frontal(ph.calculatePhoneticAttributes(lexeme.lemmaRoot, None))
         else ph.calculatePhoneticAttributes(lexeme.lemmaRoot, None))
    ensures r.Success? ==> r.value.originalPhoneticExpectations == UpToLastVowelDrop(ph, lexeme).value.originalPhoneticExpectations
    ensures r.Success? ==> r.value.modifiedPhoneticExpectations == UpToLastVowelDrop(ph, lexeme).value.modifiedPhoneticExpectations
  {
    match UpToLastVowelDrop(ph, lexeme)
    case Failure(e) => Failure(e)
    case Success(a) => Success(if InverseHarmony in lexeme.attributes then InverseHarmonyStep(a) else a)
  }

  /**
   * The five edits in their fixed order, each applied when its attribute is
   * present: the working string grows by one for doubling and shrinks by one
   * for each drop; the original root keeps its own attributes except for
   * inverse harmony, and demands a consonant next exactly when voicing is not
   * optional, the root doubles, or a non-verb drops its last vowel; the
   * modified root demands a vowel exactly when any edit but inverse harmony ran.
   */
  function Pipeline(ph: Phonetics, lexeme: Lexeme): (r: Result<Accumulator>)
    ensures r.Success? ==>
      |r.value.modifiedRootStr| + (if LastVowelDrop in lexeme.attributes then 1 else 0)
        + (if ProgressiveVowelDrop in lexeme.attributes then 1 else 0)
      == |lexeme.lemmaRoot| + (if Doubling in lexeme.attributes then 1 else 0)
    ensures r.Success? ==>
      r.value.originalPhoneticAttrs ==
        (if InverseHarmony in lexeme.attributes then Frontal(ph.calculatePhoneticAttributes(lexeme.lemmaRoot, None))
         else ph.calculatePhoneticAttributes(lexeme.lemmaRoot, None))
    ensures r.Success? ==>
      r.value.originalPhoneticExpectations ==
        (if (Voices(lexeme) && VoicingOpt !in lexeme.attributes) || Doubling in lexeme.attributes
            || (LastVowelDrop in lexeme.attributes && lexeme.syntacticCategory != VERB)
         then {ConsonantStart} else {})
    ensures r.Success? ==>
      r.value.modifiedPhoneticExpectations ==
        (if Voices(lexeme) || Doubling in lexeme.attributes || LastVowelDrop in lexeme.attributes
            || ProgressiveVowelDrop in lexeme.attributes
         then {VowelStart} else {})
  {
    match UpToInverseHarmony(ph, lexeme)
    case Failure(e) => Failure(e)
    case Success(a) => if ProgressiveVowelDrop in lexeme.attributes then ProgressiveVowelDropStep(ph, a) else Success(a)
  }

  /** The original and the modified root; a set, so equal roots are one. */
  function RootsOf(lexeme: Lexeme, a: Accumulator): (r: set<Root>)
    ensures Root(lexeme.lemmaRoot, lexeme, a.originalPhoneticAttrs, a.originalPhoneticExpectations) in r
    ensures Root(a.modifiedRootStr, lexeme, a.modifiedPhoneticAttrs, a.modifiedPhoneticExpectations) in r
    ensures 1 <= |r| <= 2
    ensures |r| == 1 <==> (lexeme.lemmaRoot, a.originalPhoneticAttrs, a.originalPhoneticExpectations)
                          == (a.modifiedRootStr, a.modifiedPhoneticAttrs, a.modifiedPhoneticExpectations)
    ensures forall x | x in r :: x.lexeme == lexeme
  {
    var original := Root(lexeme.lemmaRoot, lexeme, a.originalPhoneticAttrs, a.originalPhoneticExpectations);
    var modified := Root(a.modifiedRootStr, lexeme, a.modifiedPhoneticAttrs, a.modifiedPhoneticExpectations);
    {original, modified}
  }

  /** generateModifiedRootNodes. */
  function ModifiedRootNodes(ph: Phonetics, lexeme: Lexeme): (r: Result<set<Root>>)
    ensures RootChange in lexeme.attributes ==> r == SpecialRoots(ph, lexeme)
    ensures RootChange !in lexeme.attributes ==>
      (r.Success? <==> Pipeline(ph, lexeme).Success?)
      && (r.Success? ==> r.value == RootsOf(lexeme, Pipeline(ph, lexeme).value))
  {
    if RootChange in lexeme.attributes then SpecialRoots(ph, lexeme)
    else
      match Pipeline(ph, lexeme)
      case Failure(e) => Failure(e)
      case Success(a) => Success(RootsOf(lexeme, a))
  }

  /**
   * generate: a lexeme without a watched modifier has exactly one root, its
   * lemma root with the attributes computed in the context of the lexeme's
   * attributes and no expectations; any other yields one or two roots, one of
   * which is always the unmodified lemma root.
   */
  function Roots(ph: Phonetics, lexeme: Lexeme): (r: Result<set<Root>>)
    ensures lexeme.attributes !! ModifiersToWatch ==>
      r == Success({Root(lexeme.lemmaRoot, lexeme, ph.calculatePhoneticAttributes(lexeme.lemmaRoot, Some(lexeme.attributes)), {})})
    ensures !(lexeme.attributes !! ModifiersToWatch) ==> r == ModifiedRootNodes(ph, lexeme)
    ensures r.Success? ==> 1 <= |r.value| <= 2
    ensures r.Success? ==> exists x :: x in r.value && x.rootStr == lexeme.lemmaRoot
    ensures r.Success? ==> forall x | x in r.value :: x.lexeme.attributes - {RootChange} == lexeme.attributes - {RootChange}
  {
    if !(lexeme.attributes !! ModifiersToWatch) then
      var r := ModifiedRootNodes(ph, lexeme);
      assert r.Success? && RootChange in lexeme.attributes ==> lexeme.lemmaRoot in (set x | x in r.value :: x.rootStr);
      r
    else
      Success({Root(lexeme.lemmaRoot, lexeme, ph.calculatePhoneticAttributes(lexeme.lemmaRoot, Some(lexeme.attributes)), {})})
  }

  /** The roots of every lexeme that has them. */
  function RootsOfAll(ph: Phonetics, lexemes: set<Lexeme>): set<Root> {
    set l, x | l in lexemes && Roots(ph, l).Success? && x in Roots(ph, l).value :: x
  }

  /** One more lexeme adds exactly its own roots. */
  lemma RootsOfAllAdd(ph: Phonetics, lexemes: set<Lexeme>, lexeme: Lexeme)
    requires Roots(ph, lexeme).Success?
    ensures RootsOfAll(ph, lexemes + {lexeme}) == RootsOfAll(ph, lexemes) + Roots(ph, lexeme).value
  {
  }

  // ---------------------------------------------------------------------
  // The operations, step by step
  // ---------------------------------------------------------------------

  /** handleSpecialRoots. */
  method HandleSpecialRoots(ph: Phonetics, originalLexeme: Lexeme) returns (r: Result<set<Root>>)
    ensures r == SpecialRoots(ph, originalLexeme)
  {
    var key := (originalLexeme.lemmaStr, Some(originalLexeme.syntacticCategory));
    var changedRootStr: Option<string> := if key in RootChanges then Some(RootChanges[key]) else None;
    if changedRootStr.None? || IsBlank(changedRootStr.value) {
      var fallback := (originalLexeme.lemmaStr, None);
      changedRootStr := if fallback in RootChanges then Some(RootChanges[fallback]) else None;
    }
    if changedRootStr.None? {
      return Failure(NullPointer);
    }

    var newAttributes := originalLexeme.attributes;
    newAttributes := newAttributes - {RootChange};
    var modifiedLexeme := originalLexeme.(attributes := newAttributes);

    var unchangedRootStr := originalLexeme.lemmaRoot;
    var rootUnchanged := Root(unchangedRootStr, modifiedLexeme,
      ph.calculatePhoneticAttributes(unchangedRootStr, Some(modifiedLexeme.attributes)), {});
    var rootChanged := Root(changedRootStr.value, modifiedLexeme,
      ph.calculatePhoneticAttributes(changedRootStr.value, Some(modifiedLexeme.attributes)), {});
    r := Success({rootUnchanged, rootChanged});
  }

  /** What a step that may throw leaves behind: it either ran or threw. */
  function OutcomeOf(r: Result<Accumulator>): (o: Outcome)
    ensures o.Pass? <==> r.Success?
    ensures o.Fail? ==> o.error == r.error
  {
    if r.Success? then Pass else Fail(r.error)
  }

  /**
   * The working string and the four EnumSet accumulators of
   * generateModifiedRootNodes, each edit changing them in place.
   */
  class RootAccumulator {
    var modifiedRootStr: string
    var originalPhoneticAttrs: set<PhoneticAttribute>
    var modifiedPhoneticAttrs: set<PhoneticAttribute>
    var originalPhoneticExpectations: set<PhoneticExpectation>
    var modifiedPhoneticExpectations: set<PhoneticExpectation>

    function State(): Accumulator
      reads this
    {
      Accumulator(modifiedRootStr, originalPhoneticAttrs, modifiedPhoneticAttrs,
                  originalPhoneticExpectations, modifiedPhoneticExpectations)
    }

    constructor (ph: Phonetics, lexeme: Lexeme)
      ensures State() == Start(ph, lexeme)
    {
      modifiedRootStr := lexeme.lemmaRoot;
      originalPhoneticAttrs := ph.calculatePhoneticAttributes(lexeme.lemmaRoot, None);
      modifiedPhoneticAttrs := ph.calculatePhoneticAttributes(lexeme.lemmaRoot, None);
      originalPhoneticExpectations := {};
      modifiedPhoneticExpectations := {};
    }

    method Voice(ph: Phonetics, lexeme: Lexeme) returns (o: Outcome)
      modifies this
      ensures o == OutcomeOf(VoicingStep(ph, lexeme, old(State())))
      ensures o.Pass? ==> State() == VoicingStep(ph, lexeme, old(State())).value
    {
      if |modifiedRootStr| == 0 {
        return Fail(IndexOutOfBounds);
      }
      var lastLetter := modifiedRootStr[|modifiedRootStr| - 1];
      var voicedLastLetter := if EndsWith(lexeme.lemmaRoot, "nk") then Some('g') else ph.voice(lastLetter);
      if voicedLastLetter.None? {
        return Fail(NullPointer);
      }
      modifiedRootStr := modifiedRootStr[..|modifiedRootStr| - 1] + [voicedLastLetter.value];

      modifiedPhoneticAttrs := modifiedPhoneticAttrs - {LastLetterVoicelessStop};

      if ph.isContinuant(voicedLastLetter.value) {
        modifiedPhoneticAttrs := modifiedPhoneticAttrs - {LastLetterNotContinuant};
        modifiedPhoneticAttrs := modifiedPhoneticAttrs + {LastLetterContinuant};
      } else {
        modifiedPhoneticAttrs := modifiedPhoneticAttrs - {LastLetterContinuant};
        modifiedPhoneticAttrs := modifiedPhoneticAttrs + {LastLetterNotContinuant};
      }

      if VoicingOpt !in lexeme.attributes {
        originalPhoneticExpectations := originalPhoneticExpectations + {ConsonantStart};
      }

      modifiedPhoneticExpectations := modifiedPhoneticExpectations + {VowelStart};
      o := Pass;
    }

    method Double() returns (o: Outcome)
      modifies this
      ensures o == OutcomeOf(DoublingStep(old(State())))
      ensures o.Pass? ==> State() == DoublingStep(old(State())).value
    {
      if |modifiedRootStr| == 0 {
        return Fail(IndexOutOfBounds);
      }
      modifiedRootStr := modifiedRootStr + [modifiedRootStr[|modifiedRootStr| - 1]];
      originalPhoneticExpectations := originalPhoneticExpectations + {ConsonantStart};
      modifiedPhoneticExpectations := modifiedPhoneticExpectations + {VowelStart};
      o := Pass;
    }

    method DropLastVowel(lexeme: Lexeme) returns (o: Outcome)
      modifies this
      ensures o == OutcomeOf(LastVowelDropStep(lexeme, old(State())))
      ensures o.Pass? ==> State() == LastVowelDropStep(lexeme, old(State())).value
    {
      if |modifiedRootStr| < 2 {
        return Fail(IndexOutOfBounds);
      }
      modifiedRootStr := modifiedRootStr[..|modifiedRootStr| - 2] + [modifiedRootStr[|modifiedRootStr| - 1]];
      if lexeme.syntacticCategory != VERB {
        originalPhoneticExpectations := originalPhoneticExpectations + {ConsonantStart};
      }
      modifiedPhoneticExpectations := modifiedPhoneticExpectations + {VowelStart};
      o := Pass;
    }

    method InvertHarmony()
      modifies this
      ensures State() == InverseHarmonyStep(old(State()))
    {
      originalPhoneticAttrs := originalPhoneticAttrs + {LastVowelFrontal};
      originalPhoneticAttrs := originalPhoneticAttrs - {LastVowelBack};
      modifiedPhoneticAttrs := modifiedPhoneticAttrs + {LastVowelFrontal};
      modifiedPhoneticAttrs := modifiedPhoneticAttrs - {LastVowelBack};
    }

    method DropProgressiveVowel(ph: Phonetics) returns (o: Outcome)
      modifies this
      ensures o == OutcomeOf(ProgressiveVowelDropStep(ph, old(State())))
      ensures o.Pass? ==> State() == ProgressiveVowelDropStep(ph, old(State())).value
    {
      if |modifiedRootStr| == 0 {
        return Fail(IndexOutOfBounds);
      }
      modifiedRootStr := modifiedRootStr[..|modifiedRootStr| - 1];
      if HasVowel(ph, modifiedRootStr) {
        modifiedPhoneticAttrs := {};
        modifiedPhoneticAttrs := modifiedPhoneticAttrs + ph.calculatePhoneticAttributes(modifiedRootStr, None);
        assert modifiedPhoneticAttrs == ph.calculatePhoneticAttributes(modifiedRootStr, None);
      }
      modifiedPhoneticExpectations := modifiedPhoneticExpectations + {VowelStart};
      o := Pass;
    }
  }

  lemma PairOfSameRoot(x: Root, y: Root)
    requires x == y
    ensures {x, y} == {x}
  {
  }

  /** generateModifiedRootNodes: the edits run in their fixed order on one accumulator; the first that throws ends it. */
  method GenerateModifiedRootNodes(ph: Phonetics, lexeme: Lexeme) returns (r: Result<set<Root>>)
    ensures r == ModifiedRootNodes(ph, lexeme)
  {
    var lexemeAttributes := lexeme.attributes;
    if RootChange in lexemeAttributes {
      r := HandleSpecialRoots(ph, lexeme);
      return;
    }

    var acc := new RootAccumulator(ph, lexeme);

    if Voicing in lexemeAttributes || VoicingOpt in lexemeAttributes {
      var o := acc.Voice(ph, lexeme);
      if o.Fail? {
        return Failure(o.error);
      }
    }
    assert UpToVoicing(ph, lexeme) == Success(acc.State());

    if Doubling in lexemeAttributes {
      var o := acc.Double();
      if o.Fail? {
        return Failure(o.error);
      }
    }
    assert UpToDoubling(ph, lexeme) == Success(acc.State());

    if LastVowelDrop in lexemeAttributes {
      var o := acc.DropLastVowel(lexeme);
      if o.Fail? {
        return Failure(o.error);
      }
    }
    assert UpToLastVowelDrop(ph, lexeme) == Success(acc.State());

    if InverseHarmony in lexemeAttributes {
      acc.InvertHarmony();
    }
    assert UpToInverseHarmony(ph, lexeme) == Success(acc.State());

    if ProgressiveVowelDrop in lexemeAttributes {
      var o := acc.DropProgressiveVowel(ph);
      if o.Fail? {
        return Failure(o.error);
      }
    }
    assert Pipeline(ph, lexeme) == Success(acc.State());

    var originalRoot := Root(lexeme.lemmaRoot, lexeme, acc.originalPhoneticAttrs, acc.originalPhoneticExpectations);
    var modifiedRoot := Root(acc.modifiedRootStr, lexeme, acc.modifiedPhoneticAttrs, acc.modifiedPhoneticExpectations);
    if originalRoot == modifiedRoot {
      PairOfSameRoot(originalRoot, modifiedRoot);
      r := Success({originalRoot});
    } else {
      r := Success({originalRoot, modifiedRoot});
    }
  }

  /** generate. */
  method Generate(ph: Phonetics, lexeme: Lexeme) returns (r: Result<set<Root>>)
    ensures r == Roots(ph, lexeme)
  {
    if !(lexeme.attributes !! ModifiersToWatch) {
      r := GenerateModifiedRootNodes(ph, lexeme);
    } else {
      var phoneticAttributes := ph.calculatePhoneticAttributes(lexeme.lemmaRoot, Some(lexeme.attributes));
      var root := Root(lexeme.lemmaRoot, lexeme, phoneticAttributes, {});
      r := Success({root});
    }
  }

  /**
   * generateAll: the union of the roots of every lexeme. The lexemes are
   * visted in an unspecified order, so when several of them fail, the
   * exception is that of one of them.
   */
  method GenerateAll(ph: Phonetics, lexemes: set<Lexeme>) returns (r: Result<set<Root>>)
    ensures r.Success? <==> forall l | l in lexemes :: Roots(ph, l).Success?
    ensures r.Success? ==> r.value == RootsOfAll(ph, lexemes)
    ensures r.Failure? ==> exists l :: l in lexemes && Roots(ph, l) == Failure(r.error)
  {
    var all: set<Root> := {};
    var remaining := lexemes;
    ghost var done: set<Lexeme> := {};
    while remaining != {}
      invariant done + remaining == lexemes && done !! remaining
      invariant forall l | l in done :: Roots(ph, l).Success?
      invariant all == RootsOfAll(ph, done)
      decreases |remaining|
    {
      var lexeme :| lexeme in remaining;
      var roots := Generate(ph, lexeme);
      if roots.Failure? {
        return Failure(roots.error);
      }
      RootsOfAllAdd(ph, done, lexeme);
      all := all + roots.value;
      done := done + {lexeme};
      remaining := remaining - {lexeme};
    }
    assert done == lexemes;
    r := Success(all);
  }

  /** No stem in the table is blank, so the lookup by category never falls back past a real entry. */
  lemma RootChangesAreNotBlank()
    ensures forall k | k in RootChanges :: RootChanges[k] != [] && !IsWhitespace(RootChanges[k][0])
    ensures forall k | k in RootChanges :: !IsBlank(RootChanges[k])
  {
    forall k | k in RootChanges ensures RootChanges[k] != [] && !IsWhitespace(RootChanges[k][0]) {
    }
  }

  /** A RootChange lexeme whose lemma the table knows, for its category or for every category, does not fail. */
  lemma {:induction false} KnownRootChangeResolves(ph: Phonetics, lexeme: Lexeme)
    requires RootChange in lexeme.attributes
    requires (lexeme.lemmaStr, Some(lexeme.syntacticCategory)) in RootChanges || (lexeme.lemmaStr, None) in RootChanges
    ensures Roots(ph, lexeme).Success?
    ensures (lexeme.lemmaStr, Some(lexeme.syntacticCategory)) in RootChanges ==>
      ChangedRootStr(lexeme).value == RootChanges[(lexeme.lemmaStr, Some(lexeme.syntacticCategory))]
  {
    RootChangesAreNotBlank();
  }

  /** The verb "demek" keeps its root "de" and gets the irregular stem "di". */
  lemma DemekBecomesDi(ph: Phonetics, lexeme: Lexeme)
    requires lexeme.lemmaStr == "demek" && lexeme.lemmaRoot == "de" && lexeme.syntacticCategory == VERB
    requires RootChange in lexeme.attributes
    ensures Roots(ph, lexeme).Success?
    ensures (set x | x in Roots(ph, lexeme).value :: x.rootStr) == {"de", "di"}
  {
    KnownRootChangeResolves(ph, lexeme);
  }

  /**
   * A lexeme whose only watched modifier is Voicing yields its lemma root,
   * which then demands a consonant, and the root with the voiced last letter,
   * which demands a vowel.
   */
  lemma {:induction false} VoicingOnlyRoots(ph: Phonetics, lexeme: Lexeme)
    requires lexeme.attributes * ModifiersToWatch == {Voicing}
    requires lexeme.lemmaRoot != []
    requires VoicedLastLetter(ph, lexeme.lemmaRoot, lexeme.lemmaRoot[|lexeme.lemmaRoot| - 1]).Some?
    ensures var s := lexeme.lemmaRoot;
      var v := VoicedLastLetter(ph, s, s[|s| - 1]).value;
      var attrs := ph.calculatePhoneticAttributes(s, None);
      Roots(ph, lexeme).Success?
      && Root(s, lexeme, attrs, {ConsonantStart}) in Roots(ph, lexeme).value
      && exists m :: (m in Roots(ph, lexeme).value && m.rootStr == s[..|s| - 1] + [v]
                      && m.phoneticExpectations == {VowelStart} && LastLetterVoicelessStop !in m.phoneticAttributes)
  {
    var s := lexeme.lemmaRoot;
    assert Voicing in lexeme.attributes;
    assert forall x | x in ModifiersToWatch - {Voicing} :: x !in lexeme.attributes by {
      forall x | x in ModifiersToWatch - {Voicing} ensures x !in lexeme.attributes {
        assert x !in lexeme.attributes * ModifiersToWatch;
      }
    }
    var a := Pipeline(ph, lexeme).value;
    assert a == UpToVoicing(ph, lexeme).value;
    var m := Root(a.modifiedRootStr, lexeme, a.modifiedPhoneticAttrs, a.modifiedPhoneticExpectations);
    assert m in Roots(ph, lexeme).value;
  }
}
