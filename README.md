# trnltk morphology core in Dafny

This project models the rule-based core of trnltk-java, a Turkish morphological analyser, and proves properties of that model:

- **Lexicon entries** (`LexemeCreator`). A dictionary line `root [P:cat,sec; A:attr,...; R:root; S:...]` is read into a lexeme. The syntactic category comes from the line, or defaults to VERB (a `mek`/`mak` ending, which is stripped) or NOUN. The implicit morphemic attributes are then inferred from the last letter and the vowel count: voicing class, aorist, causative and passive allomorphs, and progressive vowel drop.
- **Root variants** (`ImmutableRootGenerator`). A lexeme becomes one or two roots:
  - one root when no watched modifier is present;
  - the unchanged and the changed stem from a fixed table for a RootChange lexeme;
  - otherwise, the original and the modified root. The modified root comes from a fixed pipeline of edits: voicing, doubling, last vowel drop, inverse harmony and progressive vowel drop. The pipeline edits a working string and two attribute/expectation accumulators.
- **Forced transitions** (`RequiredTransitionApplier`, with the condition predicate `RootHasSyntacticCategory`). Each candidate parse (morpheme container) is run through a list of rules. A rule whose condition holds, and whose source state is the container's last state, applies its steps in order through the suffix applier. A step whose form does not fit drops the candidate. A suffix that is not allowed at all is an IllegalStateException.
- **`StringEnumMap`**, the string-to-enum lookup, and zemberek3's **`PhoneticAttribute`** enum with its short forms and converter map.

The model follows the source's own form:
- Pure code is datatypes, functions and lemmas.
- Code that updates state step by step is imperative Dafny, proved against specification functions:
  - the attribute set the `infer*` helpers change in place is the class `LexemeAttributeSet`;
  - the five accumulators of `generateModifiedRootNodes` are the class `RootAccumulator`;
  - `RequiredTransitionRuleBuilder` and `RequiredTransitionApplier` are classes;
  - the loops are `while`/`for` loops with invariants.

Modelling conventions:
- Java exceptions are `Results.Result`, whose `Failure` carries the exception kind.
- `null` is `Results.Option`.
- The collaborators the core calls but does not define are records of total functions passed as parameters:
  - `Phonetics.Phonetics`: TurkishAlphabet's letter classes and voicing table, and PhoneticsAnalyzer.calculatePhoneticAttributes, with its attribute-context argument kept;
  - `Morphotactics.SuffixGraph`: the state and suffix-form lookups;
  - `Morphotactics.SuffixApplier`: `transitionAllowedForSuffix` and `trySuffixForm`.

Behaviour of the code that is easy to misread:
- **Required transitions.** The rule list is walked once per container, in order (RequiredTransitionApplier.java:79-93). A later rule sees the container as earlier rules rewrote it, but the list is never re-scanned from the first rule (`RequiredTransitionApplier.ApplyRulesConcat`).
- **Doubling.** Doubling copies the last letter of the working string as it stands after voicing (ImmutableRootGenerator.java:118-122, `ImmutableRootGenerator.DoublingStep`).
- **RootChange.** The result is a set, so a RootChange lexeme yields one root when the table's stem equals the lemma root and the phonetic attributes coincide (`ImmutableRootGenerator.SpecialRoots` states 1 to 2 roots). None of the table's entries coincides with its own lemma.
- **Lexemes without a watched modifier.** Their phonetic attributes are computed in the context of the lexeme's attributes. The modified path calls the analyser with no context.
- **Two whitespace classes.** Blankness (StringUtils.isBlank) uses Character.isWhitespace (`Text.IsWhitespace`). Trimming, collapsing and splitting use Guava's CharMatcher.WHITESPACE (`Text.IsMatcherWhitespace`), which lacks U+001C-U+001F and has the no-break spaces and NEL. A line such as `a\u001Fb` is therefore one word.

## Model

| member | source | states |
|---|---|---|
| StringEnumMaps.FormMapKeys | core/src/main/java/org/trnltk/common/structure/StringEnumMap.java:39-43 | the keys of the map put together by the constructor's loop are exactly the string forms of the constants |
| StringEnumMaps.FormMapAt | core/src/main/java/org/trnltk/common/structure/StringEnumMap.java:39-43 | with distinct string forms, each constant's form maps back to that constant |
| StringEnumMaps.Build | core/src/main/java/org/trnltk/common/structure/StringEnumMap.java:37-44 | the constructor's loop succeeds exactly when no two constants share a string form (else IllegalArgumentException, from ImmutableMap.Builder); its map is the form-to-constant map |
| StringEnumMaps.StringEnumMap.GetEnum | core/src/main/java/org/trnltk/common/structure/StringEnumMap.java:50-57 | null or empty input is IllegalArgumentException; an unknown form is IllegalArgumentException; otherwise the mapped constant |
| StringEnumMaps.StringEnumMap.GetEach | core/src/main/java/org/trnltk/common/structure/StringEnumMap.java:63-68 | every element goes through getEnum; succeeds iff each lookup succeeds, else IllegalArgumentException; keeps length and order, element by element |
| StringEnumMaps.StringEnumMap.GetEnums | core/src/main/java/org/trnltk/common/structure/StringEnumMap.java:59-69 | a null or empty collection gives an empty result; otherwise the element-wise lookup |
| StringEnumMaps.RoundTrip | core/src/main/java/org/trnltk/common/structure/StringEnumMap.java:39-56 | getEnum(stringForm(c)) == c for every constant c with a non-empty, distinct form |
| StringEnumMaps.EnumExistsIff | core/src/main/java/org/trnltk/common/structure/StringEnumMap.java:72-74 | enumExists(s) holds exactly when s is the string form of some constant |
| ZemberekPhoneticAttribute.ValuesAreTheConstants | core/src/main/java/zemberek3/shared/lexicon/tr/PhoneticAttribute.java:7-23 | there are exactly twelve attributes in declaration order, each listed once, with distinct, non-empty short forms |
| ZemberekPhoneticAttribute.ShortFormsAreDistinct | core/src/main/java/zemberek3/shared/lexicon/tr/PhoneticAttribute.java:7-36 | no two attributes share a short form |
| ZemberekPhoneticAttribute.LoadShortFormMap | core/src/main/java/zemberek3/shared/lexicon/tr/PhoneticAttribute.java:25 | building the class-level map succeeds and gives exactly the map converter() returns |
| ZemberekPhoneticAttribute.ConverterRoundTrip | core/src/main/java/zemberek3/shared/lexicon/tr/PhoneticAttribute.java:25-40 | looking up any attribute's short form through converter() gives that attribute back |
| ZemberekPhoneticAttribute.ConverterKnowsOnlyShortForms | core/src/main/java/zemberek3/shared/lexicon/tr/PhoneticAttribute.java:25-40 | converter().enumExists(s) holds exactly when s is the short form of some attribute |
| Phonetics.HasVowelIffVowels | core/src/main/java/org/trnltk/morphology/lexicon/ImmutableRootGenerator.java:183-190 | hasVowel(s) holds exactly when the vowel count of s is positive |
| Phonetics.VowelsAppend | core/src/main/java/org/trnltk/morphology/lexicon/LexemeCreator.java:120-127 | the vowel count is additive over concatenation |
| Text.TrimAndCollapse | core/src/main/java/org/trnltk/morphology/lexicon/LexemeCreator.java:44 | no CharMatcher.WHITESPACE character at either end; every remaining one is a single space, never two in a row |
| Text.SplitFirst | core/src/main/java/org/trnltk/morphology/lexicon/LexemeCreator.java:56 | split(" ", 2): the first part has no space, and first + " " + rest is the line |
| Text.Tokens | core/src/main/java/org/trnltk/morphology/lexicon/LexemeCreator.java:70 | every token is non-empty, free of the separator, and trimmed: no CharMatcher.WHITESPACE character at either end |
| Text.StripIsSlice | core/src/main/java/org/trnltk/morphology/lexicon/LexemeCreator.java:44 | what trimming keeps is a slice of the text, with only trimmed characters before and after it |
| Text.SplitOn | core/src/main/java/org/trnltk/morphology/lexicon/LexemeCreator.java:70 | Splitter.on: at least one piece, none holds the separator, and joining them with the separator gives the text back |
| Text.SplitOnConcat | core/src/main/java/org/trnltk/morphology/lexicon/LexemeCreator.java:70 | splitting a + sep + b gives the pieces of a, then those of b |
| Text.TrimAndOmitEmptyConcat | core/src/main/java/org/trnltk/morphology/lexicon/LexemeCreator.java:70 | trimResults and omitEmptyStrings work piece by piece, keeping the pieces' order |
| Text.TokensOfPiece | core/src/main/java/org/trnltk/morphology/lexicon/LexemeCreator.java:70 | text without a separator gives its trimmed self as the one token, or no token if that is empty |
| Text.TokensConcat | core/src/main/java/org/trnltk/morphology/lexicon/LexemeCreator.java:70 | the tokens of a + sep + b are those of a followed by those of b, so tokens keep the text's order |
| Text.TrimAndCollapseKeepsWord | core/src/main/java/org/trnltk/morphology/lexicon/LexemeCreator.java:44 | trimAndCollapseFrom leaves text with no CharMatcher.WHITESPACE character unchanged |
| LexemeCreator.LexemeAttributeSet.constructor | core/src/main/java/org/trnltk/morphology/lexicon/LexemeCreator.java:134 | inference starts from a copy holding exactly the caller's attributes |
| LexemeCreator.InferredCausative | core/src/main/java/org/trnltk/morphology/lexicon/LexemeCreator.java:190-199 | Causative_t iff vowel-final, or l/r-final with more than one vowel; Causative_Ir iff not that and t-final with fewer than two vowels; else Causative_dIr |
| LexemeCreator.VerbAttributes | core/src/main/java/org/trnltk/morphology/lexicon/LexemeCreator.java:175-206 | a superset of the input that adds only the verb markers; always Voicing or NoVoicing; PVD implies NoVoicing; the aorist rules, never adding both aorists; vowel-final gives PVD, Passive_In, NoVoicing; l-final gives Passive_In; with no causative given, exactly the one inferred causative is added, else the causatives are unchanged |
| LexemeCreator.NounOrAdjectiveAttributes | core/src/main/java/org/trnltk/morphology/lexicon/LexemeCreator.java:151-164 | VoicingOpt removes Voicing and NoVoicing; otherwise only Voicing/NoVoicing are added, one of them is present, Voicing iff given, voiced by shape, or ending in nk/og/rt, and NoVoicing iff given or none of those holds |
| LexemeCreator.NounCompoundAttributes | core/src/main/java/org/trnltk/morphology/lexicon/LexemeCreator.java:166-173 | VoicingOpt removes Voicing and NoVoicing; otherwise NoVoicing is added unless Voicing is there, and nothing else changes |
| LexemeCreator.Inferred | core/src/main/java/org/trnltk/morphology/lexicon/LexemeCreator.java:129-149 | an empty root fails on its last letter (IndexOutOfBounds); VERB, compound NOUN and NOUN/ADJECTIVE go to their rules; every other category gets its attributes back unchanged; a voicing class is always present for the three without VoicingOpt |
| LexemeCreator.InferredIsIdempotent | core/src/main/java/org/trnltk/morphology/lexicon/LexemeCreator.java:129-206 | inference is a closure: running it on its own result changes nothing |
| LexemeCreator.CategoryAndLemmaRoot | core/src/main/java/org/trnltk/morphology/lexicon/LexemeCreator.java:104-113 | a given category keeps the root; otherwise a mek/mak ending makes a VERB with those three letters dropped, anything else a NOUN |
| LexemeCreator.NewLexeme | core/src/main/java/org/trnltk/morphology/lexicon/LexemeCreator.java:102-118 | succeeds iff the defaulted lemma root is non-empty, else IndexOutOfBoundsException; the lexeme has the lemma, the defaulted category and root, and the inferred attributes |
| LexemeCreator.ApplyMetaPart | core/src/main/java/org/trnltk/morphology/lexicon/LexemeCreator.java:72-92 | succeeds iff the part is known (P: with one item or exactly two comma items, A:, R:, S:); a bad P: is IllegalArgumentException, an unknown tag RuntimeException; R: sets the root only, S: changes nothing, A: sets the attribute strings, P: the category strings; the lemma never changes |
| LexemeCreator.ApplyMetaParts | core/src/main/java/org/trnltk/morphology/lexicon/LexemeCreator.java:70-93 | the parts are read in order; success iff every part is known; the lemma is kept |
| LexemeCreator.MetaPartsRoot | core/src/main/java/org/trnltk/morphology/lexicon/LexemeCreator.java:85-87 | R: changes the root but not the lemma, and the last R: part wins |
| LexemeCreator.ReadMeta | core/src/main/java/org/trnltk/morphology/lexicon/LexemeCreator.java:58-94 | unbracketed meta text is IllegalArgumentException; blank meta gives the root as lemma and root with nothing else; the lemma is always the first word |
| LexemeCreator.ReadLine | core/src/main/java/org/trnltk/morphology/lexicon/LexemeCreator.java:40-65 | a blank line gives null; a one-word line is lemma and root; otherwise the trimmed first word and the trimmed rest go to the meta reader |
| LexemeCreator.ReadLineLemmaIsOneWord | core/src/main/java/org/trnltk/morphology/lexicon/LexemeCreator.java:44-67 | the lemma a line yields contains no CharMatcher.WHITESPACE character |
| LexemeCreator.FirstWordHasNoWhitespace | core/src/main/java/org/trnltk/morphology/lexicon/LexemeCreator.java:56-58 | in a collapsed line, the trimmed text before the first space has no CharMatcher.WHITESPACE character |
| LexemeCreator.Lookup | core/src/main/java/org/trnltk/morphology/lexicon/LexemeCreator.java:97-98 | null stays null; a string goes through getEnum, failing exactly when it does, with IllegalArgumentException |
| LexemeCreator.LookupMultiple | core/src/main/java/org/trnltk/morphology/lexicon/LexemeCreator.java:99 | succeeds iff every string names an attribute, else IllegalArgumentException; the set holds exactly the attributes named |
| LexemeCreator.LexemeFromLine | core/src/main/java/org/trnltk/morphology/lexicon/LexemeCreator.java:40-100 | a blank line gives null; a line-reading exception escapes unchanged; otherwise the lexeme is createLexeme of the line's lemma, root and looked-up category, secondary category and attributes, failing with IllegalArgumentException when a lookup fails and IndexOutOfBoundsException when createLexeme does |
| LexemeCreator.BareWordLine | core/src/main/java/org/trnltk/morphology/lexicon/LexemeCreator.java:40-100 | a one-word line with no whitespace of either kind is createLexeme of that word as lemma and root, with no category and no attributes |
| LexemeCreator.VowelCount | core/src/main/java/org/trnltk/morphology/lexicon/LexemeCreator.java:120-127 | the loop's count is the number of vowels in the string |
| LexemeCreator.InferNounOrAdjectiveMorphemicAttributes | core/src/main/java/org/trnltk/morphology/lexicon/LexemeCreator.java:151-164 | the set changed in place becomes NounOrAdjectiveAttributes of its old contents |
| LexemeCreator.InferNounCompoundMorphemicAttributes | core/src/main/java/org/trnltk/morphology/lexicon/LexemeCreator.java:166-173 | the set changed in place becomes NounCompoundAttributes of its old contents |
| LexemeCreator.InferVerbMorphemicAttributes | core/src/main/java/org/trnltk/morphology/lexicon/LexemeCreator.java:175-206 | the set changed in place becomes VerbAttributes of its old contents |
| LexemeCreator.InferMorphemicAttributes | core/src/main/java/org/trnltk/morphology/lexicon/LexemeCreator.java:129-149 | returns Inferred of its inputs; the caller's set is a value and is left untouched |
| LexemeCreator.CreateLexeme | core/src/main/java/org/trnltk/morphology/lexicon/LexemeCreator.java:102-118 | returns NewLexeme of its inputs |
| LexemeCreator.ReadMetaParts | core/src/main/java/org/trnltk/morphology/lexicon/LexemeCreator.java:69-94 | the loop over meta parts returns ApplyMetaParts |
| LexemeCreator.ReadMetaFields | core/src/main/java/org/trnltk/morphology/lexicon/LexemeCreator.java:58-94 | returns ReadMeta |
| LexemeCreator.ReadLineFields | core/src/main/java/org/trnltk/morphology/lexicon/LexemeCreator.java:40-65 | returns ReadLine |
| LexemeCreator.CreateLexemeFromLine | core/src/main/java/org/trnltk/morphology/lexicon/LexemeCreator.java:40-100 | returns LexemeFromLine |
| ImmutableRootGenerator.ChangedRootStr | core/src/main/java/org/trnltk/morphology/lexicon/ImmutableRootGenerator.java:157-162 | the (lemma, category) entry if present and not blank, else the (lemma, no category) entry; no entry is NullPointerException |
| ImmutableRootGenerator.WithoutRootChange | core/src/main/java/org/trnltk/morphology/lexicon/ImmutableRootGenerator.java:164-168 | the same lexeme with RootChange removed from its attributes and nothing else changed |
| ImmutableRootGenerator.SpecialRoots | core/src/main/java/org/trnltk/morphology/lexicon/ImmutableRootGenerator.java:157-181 | fails exactly on a table miss; 1 to 2 roots, all for the lexeme without RootChange; their strings are the lemma root and the table stem; attributes computed in that lexeme's context; no expectations |
| ImmutableRootGenerator.Start | core/src/main/java/org/trnltk/morphology/lexicon/ImmutableRootGenerator.java:86-93 | the working string is the lemma root; both attribute sets are computed without context; no expectations |
| ImmutableRootGenerator.VoicedLastLetter | core/src/main/java/org/trnltk/morphology/lexicon/ImmutableRootGenerator.java:96-97 | 'g' when the lemma root ends in nk, else voice(last letter) |
| ImmutableRootGenerator.VoicingStep | core/src/main/java/org/trnltk/morphology/lexicon/ImmutableRootGenerator.java:95-116 | the last letter is replaced by its voiced form (a missing voiced form is NullPointerException); the modified set loses LastLetterVoicelessStop and gets exactly one continuance flag matching the new letter; ConsonantStart for the original unless VoicingOpt; VowelStart for the modified |
| ImmutableRootGenerator.DoublingStep | core/src/main/java/org/trnltk/morphology/lexicon/ImmutableRootGenerator.java:118-122 | appends the working string's current last letter (length + 1); ConsonantStart for the original, VowelStart for the modified; attributes unchanged |
| ImmutableRootGenerator.LastVowelDropStep | core/src/main/java/org/trnltk/morphology/lexicon/ImmutableRootGenerator.java:124-130 | removes the next-to-last letter (length - 1); ConsonantStart for the original only for a non-VERB; VowelStart for the modified |
| ImmutableRootGenerator.Frontal | core/src/main/java/org/trnltk/morphology/lexicon/ImmutableRootGenerator.java:132-137 | LastVowelFrontal in, LastVowelBack out, every other flag kept |
| ImmutableRootGenerator.ProgressiveVowelDropStep | core/src/main/java/org/trnltk/morphology/lexicon/ImmutableRootGenerator.java:139-146 | removes the last letter; recomputes the modified attributes only if a vowel is left, else keeps them; VowelStart for the modified; the original root is untouched |
| ImmutableRootGenerator.UpToVoicing | core/src/main/java/org/trnltk/morphology/lexicon/ImmutableRootGenerator.java:86-116 | the pipeline after voicing: length kept, original attributes unchanged, the expectations so far |
| ImmutableRootGenerator.UpToDoubling | core/src/main/java/org/trnltk/morphology/lexicon/ImmutableRootGenerator.java:86-122 | the pipeline after doubling: length and expectations so far |
| ImmutableRootGenerator.UpToLastVowelDrop | core/src/main/java/org/trnltk/morphology/lexicon/ImmutableRootGenerator.java:86-130 | the pipeline after the last vowel drop: length and expectations so far |
| ImmutableRootGenerator.UpToInverseHarmony | core/src/main/java/org/trnltk/morphology/lexicon/ImmutableRootGenerator.java:86-137 | inverse harmony cannot fail and makes the original attributes frontal, nothing else |
| ImmutableRootGenerator.Pipeline | core/src/main/java/org/trnltk/morphology/lexicon/ImmutableRootGenerator.java:86-146 | length + LVD + PVD = lemma-root length + Doubling; original attributes are the context-free ones, frontal under InverseHarmony; original expects a consonant iff voicing is not optional, doubling, or a non-verb's last vowel drop; modified expects a vowel iff any edit but inverse harmony ran |
| ImmutableRootGenerator.RootsOf | core/src/main/java/org/trnltk/morphology/lexicon/ImmutableRootGenerator.java:148-154 | holds the original and the modified root; one root exactly when they are equal, else two; all for the lexeme |
| ImmutableRootGenerator.ModifiedRootNodes | core/src/main/java/org/trnltk/morphology/lexicon/ImmutableRootGenerator.java:81-155 | RootChange goes to the special roots; otherwise the roots of the pipeline's result, failing exactly when the pipeline does |
| ImmutableRootGenerator.Roots | core/src/main/java/org/trnltk/morphology/lexicon/ImmutableRootGenerator.java:71-79 | no watched modifier gives exactly one root, the lemma root with attributes in the lexeme's context and no expectations; always 1 to 2 roots, one of them the lemma root; attributes other than RootChange kept |
| ImmutableRootGenerator.HandleSpecialRoots | core/src/main/java/org/trnltk/morphology/lexicon/ImmutableRootGenerator.java:157-181 | returns SpecialRoots |
| ImmutableRootGenerator.RootAccumulator.constructor | core/src/main/java/org/trnltk/morphology/lexicon/ImmutableRootGenerator.java:86-93 | the accumulators start as Start |
| ImmutableRootGenerator.RootAccumulator.Voice | core/src/main/java/org/trnltk/morphology/lexicon/ImmutableRootGenerator.java:95-116 | the in-place voicing edit has VoicingStep's outcome and new state |
| ImmutableRootGenerator.RootAccumulator.Double | core/src/main/java/org/trnltk/morphology/lexicon/ImmutableRootGenerator.java:118-122 | the in-place doubling edit has DoublingStep's outcome and new state |
| ImmutableRootGenerator.RootAccumulator.DropLastVowel | core/src/main/java/org/trnltk/morphology/lexicon/ImmutableRootGenerator.java:124-130 | the in-place edit has LastVowelDropStep's outcome and new state |
| ImmutableRootGenerator.RootAccumulator.InvertHarmony | core/src/main/java/org/trnltk/morphology/lexicon/ImmutableRootGenerator.java:132-137 | both attribute sets become Frontal of themselves |
| ImmutableRootGenerator.RootAccumulator.DropProgressiveVowel | core/src/main/java/org/trnltk/morphology/lexicon/ImmutableRootGenerator.java:139-146 | the in-place edit has ProgressiveVowelDropStep's outcome and new state |
| ImmutableRootGenerator.GenerateModifiedRootNodes | core/src/main/java/org/trnltk/morphology/lexicon/ImmutableRootGenerator.java:81-155 | returns ModifiedRootNodes |
| ImmutableRootGenerator.Generate | core/src/main/java/org/trnltk/morphology/lexicon/ImmutableRootGenerator.java:71-79 | returns Roots |
| ImmutableRootGenerator.GenerateAll | core/src/main/java/org/trnltk/morphology/lexicon/ImmutableRootGenerator.java:63-69 | succeeds iff generate succeeds on every lexeme, with exactly the union of their roots; a failure is some lexeme's failure |
| ImmutableRootGenerator.RootChangesAreNotBlank | core/src/main/java/org/trnltk/morphology/lexicon/ImmutableRootGenerator.java:46-59 | every stem in the table is non-blank, so a (lemma, category) hit is used |
| ImmutableRootGenerator.KnownRootChangeResolves | core/src/main/java/org/trnltk/morphology/lexicon/ImmutableRootGenerator.java:157-162 | a RootChange lexeme that the table knows does not fail, and a (lemma, category) entry takes precedence |
| ImmutableRootGenerator.DemekBecomesDi | core/src/main/java/org/trnltk/morphology/lexicon/ImmutableRootGenerator.java:49 | the verb demek with root de yields the roots de and di |
| ImmutableRootGenerator.VoicingOnlyRoots | core/src/main/java/org/trnltk/morphology/lexicon/ImmutableRootGenerator.java:95-154 | with Voicing as the only watched modifier: the lemma root expecting a consonant, and the voiced root expecting a vowel without LastLetterVoicelessStop |
| Scenarios.KitapInfersVoicing | core/src/main/java/org/trnltk/morphology/lexicon/LexemeCreator.java:156-158 | the noun kitap with no attributes is inferred to have exactly Voicing |
| Scenarios.KitapLine | core/src/main/java/org/trnltk/morphology/lexicon/LexemeCreator.java:40-100 | the dictionary line kitap is the noun kitap with exactly Voicing |
| Scenarios.KitapRoots | core/src/main/java/org/trnltk/morphology/lexicon/ImmutableRootGenerator.java:95-154 | kitap yields exactly kitap, expecting a consonant, and kitab, expecting a vowel |
| SuffixFormSpecifications.RootHasSyntacticCategory.Describe | core/src/main/java/org/trnltk/morphology/morphotactics/suffixformspecifications/RootHasSyntacticCategory.java:32-34 | root_has_syntactic_category( + the category name + ) |
| SuffixFormSpecifications.RootHasSyntacticCategory.IsSatisfiedBy | core/src/main/java/org/trnltk/morphology/morphotactics/suffixformspecifications/RootHasSyntacticCategory.java:37-41 | a null container is NullPointerException, not false; otherwise true exactly when the root's lexeme has the configured category |
| SuffixFormSpecifications.NamesAreDistinct | core/src/main/java/org/trnltk/morphology/morphotactics/suffixformspecifications/RootHasSyntacticCategory.java:32-34 | no two categories print the same name |
| SuffixFormSpecifications.DescribeIsInjective | core/src/main/java/org/trnltk/morphology/morphotactics/suffixformspecifications/RootHasSyntacticCategory.java:32-34 | equal descriptions mean equal specifications |
| SuffixFormSpecifications.HoldsDependsOnLexemeOnly | core/src/main/java/org/trnltk/morphology/contextless/parser/RequiredTransitionApplier.java:58-63 | a rule condition reads only the container's root lexeme |
| RequiredTransitionApplier.ResolvedStep | core/src/main/java/org/trnltk/morphology/contextless/parser/RequiredTransitionApplier.java:139-148 | a step exists exactly when both the suffix form and the target state resolve, and it holds them; else NullPointerException |
| RequiredTransitionApplier.BuiltRule | core/src/main/java/org/trnltk/morphology/contextless/parser/RequiredTransitionApplier.java:150-170 | a rule needs a source state and a condition (else NullPointerException) and at least one step (else IllegalArgumentException), and holds exactly them |
| RequiredTransitionApplier.ProgressiveVowelDropRule | core/src/main/java/org/trnltk/morphology/contextless/parser/RequiredTransitionApplier.java:57-67 | built exactly when all five names resolve (else NullPointerException): VERB and ProgressiveVowelDrop, at VERB_ROOT, Pos "" to VERB_WITH_POLARITY then Prog "Iyor" to VERB_WITH_TENSE |
| RequiredTransitionApplier.ApplyStep | core/src/main/java/org/trnltk/morphology/contextless/parser/RequiredTransitionApplier.java:101-115 | a disallowed suffix is IllegalStateException, not a drop; otherwise trySuffixForm's answer, null meaning a veto |
| RequiredTransitionApplier.ApplySteps | core/src/main/java/org/trnltk/morphology/contextless/parser/RequiredTransitionApplier.java:85-89 | the only exception is IllegalStateException; no steps leave the container as it is |
| RequiredTransitionApplier.ApplyRules | core/src/main/java/org/trnltk/morphology/contextless/parser/RequiredTransitionApplier.java:79-93 | the only exception is IllegalStateException; a container no rule fires on comes through unchanged |
| RequiredTransitionApplier.Kept | core/src/main/java/org/trnltk/morphology/contextless/parser/RequiredTransitionApplier.java:95-96 | a dropped container contributes nothing, a surviving one exactly itself |
| RequiredTransitionApplier.ApplyToAll | core/src/main/java/org/trnltk/morphology/contextless/parser/RequiredTransitionApplier.java:74-99 | succeeds iff every container's rule walk does; only IllegalStateException escapes; the output is no longer than the input |
| RequiredTransitionApplier.ApplyStepsConcat | core/src/main/java/org/trnltk/morphology/contextless/parser/RequiredTransitionApplier.java:85-89 | steps apply in order, each on the previous result: s1 + s2 is s1, then s2 unless s1 threw or vetoed |
| RequiredTransitionApplier.VetoDropsContainer | core/src/main/java/org/trnltk/morphology/contextless/parser/RequiredTransitionApplier.java:85-92 | once a step vetoes, later steps do not matter: the container is dropped |
| RequiredTransitionApplier.ApplyRulesConcat | core/src/main/java/org/trnltk/morphology/contextless/parser/RequiredTransitionApplier.java:79-93 | one pass: r1 + r2 is r1, then r2 on the container r1 produced; a container r1 drops meets no rule of r2 |
| RequiredTransitionApplier.NoRuleFiresKeepsAll | core/src/main/java/org/trnltk/morphology/contextless/parser/RequiredTransitionApplier.java:77-96 | if no rule fires on any container, the output is the input, unchanged and in order |
| RequiredTransitionApplier.ApplyToAllConcat | core/src/main/java/org/trnltk/morphology/contextless/parser/RequiredTransitionApplier.java:75-98 | the output for xs + ys is the output for xs followed by that for ys, so the input order is kept |
| RequiredTransitionApplier.ApplyToAllSingleton | core/src/main/java/org/trnltk/morphology/contextless/parser/RequiredTransitionApplier.java:76-97 | a single container yields its rewritten self, or nothing when vetoed |
| RequiredTransitionApplier.OutputComesFromInput | core/src/main/java/org/trnltk/morphology/contextless/parser/RequiredTransitionApplier.java:75-98 | every output container is the rule-walk result of some input container |
| RequiredTransitionApplier.InstalledRuleFiresOnProgressiveVowelDropVerbs | core/src/main/java/org/trnltk/morphology/contextless/parser/RequiredTransitionApplier.java:57-83 | the installed rule fires exactly on VERB roots with ProgressiveVowelDrop whose last state is VERB_ROOT |
| RequiredTransitionApplier.InstalledRuleAppliesPositiveThenProgressive | core/src/main/java/org/trnltk/morphology/contextless/parser/RequiredTransitionApplier.java:65-89 | the installed rule applies Pos, and Prog on Pos's result, stopping at an exception or a veto |
| RequiredTransitionApplier.RequiredTransitionRuleBuilder.constructor | core/src/main/java/org/trnltk/morphology/contextless/parser/RequiredTransitionApplier.java:117-126 | a builder for the graph with no condition, no source state and no steps |
| RequiredTransitionApplier.RequiredTransitionRuleBuilder.SetCondition | core/src/main/java/org/trnltk/morphology/contextless/parser/RequiredTransitionApplier.java:128-131 | sets the condition, nothing else |
| RequiredTransitionApplier.RequiredTransitionRuleBuilder.SetSourceState | core/src/main/java/org/trnltk/morphology/contextless/parser/RequiredTransitionApplier.java:133-137 | the field takes the lookup's answer; an unknown name is NullPointerException |
| RequiredTransitionApplier.RequiredTransitionRuleBuilder.AddStep | core/src/main/java/org/trnltk/morphology/contextless/parser/RequiredTransitionApplier.java:139-148 | appends the resolved step, or fails with NullPointerException and appends nothing |
| RequiredTransitionApplier.RequiredTransitionRuleBuilder.Build | core/src/main/java/org/trnltk/morphology/contextless/parser/RequiredTransitionApplier.java:150-156 | returns BuiltRule of the builder's fields |
| RequiredTransitionApplier.RequiredTransitionApplier.constructor | core/src/main/java/org/trnltk/morphology/contextless/parser/RequiredTransitionApplier.java:44-47 | the graph and the applier, with no rules yet |
| RequiredTransitionApplier.RequiredTransitionApplier.Create | core/src/main/java/org/trnltk/morphology/contextless/parser/RequiredTransitionApplier.java:44-49 | succeeds exactly when the installed rule can be built, and then holds that one rule |
| RequiredTransitionApplier.RequiredTransitionApplier.CreateRules | core/src/main/java/org/trnltk/morphology/contextless/parser/RequiredTransitionApplier.java:51-72 | appends ProgressiveVowelDropRule, or fails with its exception and leaves the list as it was |
| RequiredTransitionApplier.RequiredTransitionApplier.ApplyRequiredTransitionRuleStep | core/src/main/java/org/trnltk/morphology/contextless/parser/RequiredTransitionApplier.java:101-115 | returns ApplyStep |
| RequiredTransitionApplier.RequiredTransitionApplier.ApplyRequiredTransitionRuleSteps | core/src/main/java/org/trnltk/morphology/contextless/parser/RequiredTransitionApplier.java:85-89 | the step loop returns ApplySteps |
| RequiredTransitionApplier.RequiredTransitionApplier.ApplyRequiredTransitionRules | core/src/main/java/org/trnltk/morphology/contextless/parser/RequiredTransitionApplier.java:79-93 | the rule loop returns ApplyRules |
| RequiredTransitionApplier.RequiredTransitionApplier.ApplyRequiredTransitionsToMorphemeContainers | core/src/main/java/org/trnltk/morphology/contextless/parser/RequiredTransitionApplier.java:74-99 | the container loop returns ApplyToAll |

## Left out

- Logging (RequiredTransitionApplier.java:109-110): it has no effect on the result.
- TurkishAlphabet, PhoneticsAnalyzer, SuffixGraph, SuffixApplier, MorphemeContainer, TurkishSequence, SyntacticCategory, SecondarySyntacticCategory, LexemeAttribute, Lexeme and ImmutableRoot are not part of this model:
  - the collaborators are parameters with arbitrary behaviour;
  - the enums and value classes are datatypes with the constants the core uses;
  - TurkishSequence, the parser's input, is a string passed through to trySuffixForm unread.
- `TurkishAlphabet.getLetterForChar` returning null for a character outside the alphabet: letters are characters, and every letter predicate answers for every character.
- `SuffixFormSpecifications.Condition`'s `HasProgressiveVowelDrop`: rootHasProgressiveVowelDrop is not part of this model. It is read as "the root's lexeme carries ProgressiveVowelDrop".
- Whitespace: `Text.IsWhitespace` is Character.isWhitespace under the Unicode tables of Java 6 and 7, so it includes U+180E. `Text.IsMatcherWhitespace` is the table of Guava's CharMatcher.WHITESPACE of the same period, without U+180E. Later revisions of either table are not modelled.
- Splitter and CharMatcher: modelled only as far as split, trim and drop empties, and trim and collapse runs.
- `Collections2.transform` laziness: `StringEnumMap.GetEnums` looks every element up eagerly. An exception that Java would raise only when the view is iterated is raised at once.
- `LexemeCreator.ReadLine`: `Validate.isTrue(splits.length == 2)` cannot fail once the line contains a space, so it has no error path.
- `ZemberekPhoneticAttribute.Converter`: object identity is not modelled. converter() returns the same value every time, which is what identity buys callers.
- The zemberek3 StringEnumMap that PhoneticAttribute.java imports is not part of this model. Its map is built with the trnltk StringEnumMap of StringEnumMap.java.
- `ImmutableRootGenerator.GenerateAll`: the lexemes are a set with no order, so when several lexemes fail, which failure is reported is chosen nondeterministically. The contract says only that it is one of the failing lexemes' errors.
- A null expectation set (ImmutableRootGenerator.java:76, 173-177) is modelled as the empty set. Sets.immutableEnumSet copies are sets.
- `LexemeCreator.LineFields`: the attribute strings are kept as a sequence rather than a HashSet. The lexeme's attributes are the set they name.
- `RequiredTransitionApplier.RequiredTransitionRuleBuilder`: fluent chaining (returning `this`) is sequential calls. An exception ends the chain, as in Java.
- The Java constructor of RequiredTransitionApplier, which can throw from createRules, is `RequiredTransitionApplier.RequiredTransitionApplier.Create`. The Dafny constructor only sets the fields.
- `RequiredTransitionApplier.RequiredTransitionApplier.ApplyRequiredTransitionsToMorphemeContainers`: the three nested loops are three methods, one loop each. Each is proved against its own specification function.
- `ImmutableRootGenerator.GenerateModifiedRootNodes`: each in-place edit is a method of `RootAccumulator`. It is called in the source's order.
- Integer widths: vowel counts and lengths are unbounded. No input in range of a Java int behaves differently.
