/**
 * The value types of the morphology core: syntactic categories, lexeme
 * attributes, the phonetic attributes and expectations a root carries, and
 * the immutable Lexeme and Root values built at lexicon load time.
 */
module Model {
  import opened Results

  /** The primary part of speech of a lexeme. */
  datatype SyntacticCategory =
    | NOUN | ADJECTIVE | ADVERB | CONJUNCTION | DETERMINER | INTERJECTION
    | NUMERAL | PARTICLE | PRONOUN | PUNCTUATION | QUESTION | VERB
  {
    /** The constant's Java name, which is what Enum.toString gives. */
    function Name(): (n: string)
      ensures |n| > 0
    {
      match this
      case NOUN => "NOUN"
      case ADJECTIVE => "ADJECTIVE"
      case ADVERB => "ADVERB"
      case CONJUNCTION => "CONJUNCTION"
      case DETERMINER => "DETERMINER"
      case INTERJECTION => "INTERJECTION"
      case NUMERAL => "NUMERAL"
      case PARTICLE => "PARTICLE"
      case PRONOUN => "PRONOUN"
      case PUNCTUATION => "PUNCTUATION"
      case QUESTION => "QUESTION"
      case VERB => "VERB"
    }
  }

  /** The secondary part of speech; the core only carries it along. */
  datatype SecondarySyntacticCategory =
    | PERSONAL | DEMONSTRATIVE | REFLEXIVE | QUANTITATIVE | TIME
    | PROPER_NOUN | ABBREVIATION | DUPLICATOR | POST_P

  /** Morphological markers of a lexeme, explicit in the dictionary or inferred. */
  datatype LexemeAttribute =
    | Voicing | NoVoicing | VoicingOpt
    | Doubling | LastVowelDrop | ProgressiveVowelDrop | InverseHarmony
    | RootChange | CompoundP3sg
    | Aorist_A | Aorist_I
    | Causative_t | Causative_Ir | Causative_It | Causative_Ar | Causative_dIr
    | Passive_In

  /** LexemeAttribute.CAUSATIVES: the causative allomorph family. */
  const Causatives: set<LexemeAttribute> :=
    {Causative_t, Causative_Ir, Causative_It, Causative_Ar, Causative_dIr}

  /** Boundary-letter flags of a root string (org.trnltk.morphology.phonetics). */
  datatype PhoneticAttribute =
    | LastLetterVowel | LastLetterConsonant
    | LastVowelFrontal | LastVowelBack | LastVowelRounded | LastVowelUnrounded
    | LastLetterVoiceless | LastLetterNotVoiceless
    | LastLetterContinuant | LastLetterNotContinuant
    | LastLetterVoicelessStop
    | FirstLetterVowel | FirstLetterConsonant
    | HasNoVowel

  /** What a root variant demands of the first letter of the next suffix. */
  datatype PhoneticExpectation = VowelStart | ConsonantStart

  /** A dictionary entry after attribute inference. */
  datatype Lexeme = Lexeme(
    lemmaStr: string,  // Lexeme.getLemma (`lemma` is a Dafny keyword)
    lemmaRoot: string,
    syntacticCategory: SyntacticCategory,
    secondarySyntacticCategory: Option<SecondarySyntacticCategory>,
    attributes: set<LexemeAttribute>)

  /**
   * One surface variant of a lexeme's stem (ImmutableRoot). Equality is value
   * equality over all four components; a null expectation set is the empty set.
   */
  datatype Root = Root(
    rootStr: string,
    lexeme: Lexeme,
    phoneticAttributes: set<PhoneticAttribute>,
    phoneticExpectations: set<PhoneticExpectation>)
}
