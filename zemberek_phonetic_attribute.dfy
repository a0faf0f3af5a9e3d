/**
 * zemberek3's PhoneticAttribute: twelve boundary-letter flags, each declared
 * with a fixed short form, and the class-level short-form map built from them.
 */
module ZemberekPhoneticAttribute {
  import opened Results
  import opened StringEnumMaps

  datatype PhoneticAttribute =
    | LastLetterVowel | LastLetterConsonant
    | LastVowelFrontal | LastVowelBack | LastVowelRounded | LastVowelUnrounded
    | LastLetterVoiceless | LastLetterNotVoiceless
    | LastLetterVoicelessStop
    | FirstLetterVowel | FirstLetterConsonant
    | HasNoVowel
  {
    /** The short form given at the constant's declaration. */
    function GetStringForm(): string {
      match this
      case LastLetterVowel => "LLV"
      case LastLetterConsonant => "LLC"
      case LastVowelFrontal => "LVF"
      case LastVowelBack => "LVB"
      case LastVowelRounded => "LVR"
      case LastVowelUnrounded => "LVuR"
      case LastLetterVoiceless => "LLVless"
      case LastLetterNotVoiceless => "LLNotVless"
      case LastLetterVoicelessStop => "LLStop"
      case FirstLetterVowel => "FLV"
      case FirstLetterConsonant => "FLC"
      case HasNoVowel => "NoVow"
    }

    /** Enum.ordinal(): the position of the constant's declaration. */
    function Ordinal(): nat {
      match this
      case LastLetterVowel => 0
      case LastLetterConsonant => 1
      case LastVowelFrontal => 2
      case LastVowelBack => 3
      case LastVowelRounded => 4
      case LastVowelUnrounded => 5
      case LastLetterVoiceless => 6
      case LastLetterNotVoiceless => 7
      case LastLetterVoicelessStop => 8
      case FirstLetterVowel => 9
      case FirstLetterConsonant => 10
      case HasNoVowel => 11
    }
  }

  /** PhoneticAttribute.values(), in declaration order. */
  const Values: seq<PhoneticAttribute> := [
    LastLetterVowel, LastLetterConsonant,
    LastVowelFrontal, LastVowelBack, LastVowelRounded, LastVowelUnrounded,
    LastLetterVoiceless, LastLetterNotVoiceless,
    LastLetterVoicelessStop,
    FirstLetterVowel, FirstLetterConsonant,
    HasNoVowel]

  const StringForm: PhoneticAttribute -> string := (a: PhoneticAttribute) => a.GetStringForm()

  /** shortFormToPosMap: the one map the class builds when it is loaded. */
  const ShortFormToPosMap: StringEnumMap<PhoneticAttribute> := StringEnumMap(FormMap(Values, StringForm))

  /** converter(). */
  function Converter(): StringEnumMap<PhoneticAttribute> {
    ShortFormToPosMap
  }

  /** There are exactly twelve attributes, each listed once, with twelve distinct, non-empty short forms. */
  lemma ValuesAreTheConstants()
    ensures |Values| == 12
    ensures forall a: PhoneticAttribute :: a.Ordinal() < |Values| && Values[a.Ordinal()] == a
    ensures forall i, j | 0 <= i < j < |Values| :: Values[i] != Values[j]
    ensures DistinctForms(Values, StringForm)
    ensures forall a: PhoneticAttribute :: a.GetStringForm() != []
  {
  }

  /** No two attributes share a short form. */
  lemma ShortFormsAreDistinct(a: PhoneticAttribute, b: PhoneticAttribute)
    ensures a.GetStringForm() == b.GetStringForm() ==> a == b
  {
  }

  /** The class initializer's loop produces exactly the map converter() returns. */
  method LoadShortFormMap() returns (r: Result<StringEnumMap<PhoneticAttribute>>)
    ensures r == Success(Converter())
  {
    ValuesAreTheConstants();
    r := Build(Values, StringForm);
  }

  /** Looking up any attribute's short form through converter() gives that attribute back. */
  lemma ConverterRoundTrip(a: PhoneticAttribute)
    ensures Converter().GetEnum(Some(a.GetStringForm())) == Success(a)
  {
    ValuesAreTheConstants();
    RoundTrip(Converter(), Values, StringForm, a.Ordinal());
  }

  /** A string is a known short form exactly when it is the short form of some attribute. */
  lemma ConverterKnowsOnlyShortForms(s: string)
    ensures Converter().EnumExists(s) <==> exists a: PhoneticAttribute :: a.GetStringForm() == s
  {
    ValuesAreTheConstants();
    EnumExistsIff(Converter(), Values, StringForm, s);
    if exists a: PhoneticAttribute :: a.GetStringForm() == s {
      var a: PhoneticAttribute :| a.GetStringForm() == s;
      assert StringForm(Values[a.Ordinal()]) == s;
    }
  }
}
