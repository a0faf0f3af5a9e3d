/**
 * LexemeCreator: reads one dictionary line into a Lexeme, defaulting its
 * syntactic category and completing its attribute set from the shape of the
 * root (voicing class, aorist, causative and passive allomorphs, progressive
 * vowel drop).
 */
module LexemeCreator {
  import opened Results
  import opened Text
  import opened Model
  import opened Phonetics
  import opened StringEnumMaps

  // ---------------------------------------------------------------------
  // The attribute set the infer* helpers change in place
  // ---------------------------------------------------------------------

  /** The java.util.HashSet<LexemeAttribute> that inference works on. */
  class LexemeAttributeSet {
    var elements: set<LexemeAttribute>

    /** new HashSet<LexemeAttribute>(initial): a copy, sharing nothing with the caller. */
    constructor (initial: set<LexemeAttribute>)
      ensures elements == initial
    {
      elements := initial;
    }

    predicate Contains(a: LexemeAttribute)
      reads this
    {
      a in elements
    }

    /** CollectionUtils.containsAny. */
    predicate ContainsAny(xs: set<LexemeAttribute>)
      reads this
    {
      !(elements !! xs)
    }

    method Add(a: LexemeAttribute)
      modifies this
      ensures elements == old(elements) + {a}
    {
      elements := elements + {a};
    }

    method Remove(a: LexemeAttribute)
      modifies this
      ensures elements == old(elements) - {a}
    {
      elements := elements - {a};
    }
  }

  // ---------------------------------------------------------------------
  // What inference computes
  // ---------------------------------------------------------------------

  /** The causative allomorph a verb that has none is given. */
  function InferredCausative(ph: Phonetics, lastLetter: char, vowelCount: nat): (c: LexemeAttribute)
    ensures c in {Causative_t, Causative_Ir, Causative_dIr}
    ensures c == Causative_t <==>
      ph.isVowel(lastLetter) || ((lastLetter == 'l' || lastLetter == 'r') && vowelCount > 1)
    ensures c == Causative_Ir <==>
      !(ph.isVowel(lastLetter) || ((lastLetter == 'l' || lastLetter == 'r') && vowelCount > 1))
      && lastLetter == 't' && vowelCount < 2
  {
    if ph.isVowel(lastLetter) || ((lastLetter == 'l' || lastLetter == 'r') && vowelCount > 1) then Causative_t
    else if lastLetter == 't' && vowelCount < 2 then Causative_Ir
    else Causative_dIr
  }

  /** The attributes inferVerbMorphemicAttributes leaves behind. */
  function VerbAttributes(ph: Phonetics, lastLetter: char, vowelCount: nat, s: set<LexemeAttribute>): (r: set<LexemeAttribute>)
    // the verb path only adds, and only these seven markers
    ensures s <= r
    ensures r - s <= {ProgressiveVowelDrop, Passive_In, Aorist_I, Aorist_A, Causative_t, Causative_Ir, Causative_dIr, NoVoicing}
    // voicing class
    ensures Voicing in r || NoVoicing in r
    ensures ProgressiveVowelDrop in r ==> NoVoicing in r
    // aorist allomorph
    ensures vowelCount > 1 && Aorist_A !in s ==> Aorist_I in r
    ensures vowelCount == 1 && Aorist_I !in s ==> Aorist_A in r
    ensures !(Aorist_A in r - s && Aorist_I in r - s)
    ensures Aorist_I in r - s ==> vowelCount > 1
    ensures Aorist_A in r - s ==> vowelCount == 1
    // vowel-final and l-final verbs
    ensures ph.isVowel(lastLetter) ==> {ProgressiveVowelDrop, Passive_In, NoVoicing} <= r
    ensures lastLetter == 'l' ==> Passive_In in r
    ensures Passive_In in r - s ==> ph.isVowel(lastLetter) || lastLetter == 'l'
    // causative allomorph: exactly one, chosen by the last letter and the vowel count
    ensures s !! Causatives ==> r * Causatives == {InferredCausative(ph, lastLetter, vowelCount)}
    ensures !(s !! Causatives) ==> r * Causatives == s * Causatives
  {
    var s1 := if ph.isVowel(lastLetter) then s + {ProgressiveVowelDrop} + {Passive_In} else s;
    var s2 := if vowelCount > 1 && Aorist_A !in s1 then s1 + {Aorist_I} else s1;
    var s3 := if vowelCount == 1 && Aorist_I !in s2 then s2 + {Aorist_A} else s2;
    var s4 := if lastLetter == 'l' then s3 + {Passive_In} else s3;
    var s5 := if s4 !! Causatives then s4 + {InferredCausative(ph, lastLetter, vowelCount)} else s4;
    var s6 := if ProgressiveVowelDrop in s5 then s5 + {NoVoicing} else s5;
    if Voicing !in s6 && NoVoicing !in s6 then s6 + {NoVoicing} else s6
  }

  /** A noun or adjective of more than one vowel ending in a voiceless stop voices, unless told otherwise. */
  predicate VoicesByShape(ph: Phonetics, lastLetter: char, vowelCount: nat, s: set<LexemeAttribute>) {
    vowelCount > 1 && ph.isVoiceless(lastLetter) && !ph.isContinuant(lastLetter)
    && NoVoicing !in s && InverseHarmony !in s
  }

  /** Roots ending in "nk", "og" or "rt" voice whatever else holds. */
  predicate VoicesByEnding(lemmaRoot: string) {
    EndsWith(lemmaRoot, "nk") || EndsWith(lemmaRoot, "og") || EndsWith(lemmaRoot, "rt")
  }

  /** The attributes inferNounOrAdjectiveMorphemicAttributes leaves behind. */
  function NounOrAdjectiveAttributes(ph: Phonetics, lemmaRoot: string, lastLetter: char, vowelCount: nat,
                                     s: set<LexemeAttribute>): (r: set<LexemeAttribute>)
    ensures VoicingOpt in s ==> r == s - {Voicing, NoVoicing}
    ensures VoicingOpt !in s ==> s <= r && r - s <= {Voicing, NoVoicing}
    ensures VoicingOpt !in s ==> Voicing in r || NoVoicing in r
    ensures VoicingOpt !in s ==>
      (Voicing in r <==> Voicing in s || VoicesByShape(ph, lastLetter, vowelCount, s) || VoicesByEnding(lemmaRoot))
    ensures VoicingOpt !in s ==>
      (NoVoicing in r <==>
        NoVoicing in s || (Voicing !in s && !VoicesByShape(ph, lastLetter, vowelCount, s) && !VoicesByEnding(lemmaRoot)))
  {
    if VoicingOpt in s then s - {Voicing, NoVoicing}
    else if VoicesByShape(ph, lastLetter, vowelCount, s) then s + {Voicing}
    else if VoicesByEnding(lemmaRoot) then s + {Voicing}
    else if Voicing !in s then s + {NoVoicing}
    else s
  }

  /** The attributes inferNounCompoundMorphemicAttributes leaves behind. */
  function NounCompoundAttributes(s: set<LexemeAttribute>): (r: set<LexemeAttribute>)
    ensures VoicingOpt in s ==> r == s - {Voicing, NoVoicing}
    ensures VoicingOpt !in s ==> s <= r && r - s <= {NoVoicing}
    ensures VoicingOpt !in s ==> Voicing in r || NoVoicing in r
    ensures VoicingOpt !in s && Voicing in s ==> r == s
  {
    if VoicingOpt in s then s - {Voicing, NoVoicing}
    else if Voicing !in s then s + {NoVoicing}
    else s
  }

  /**
   * inferMorphemicAttributes: an empty root fails on its last letter; verbs,
   * compound nouns and other nouns or adjectives are completed by their own
   * rules; every other category keeps its attributes.
   */
  function Inferred(ph: Phonetics, lemmaRoot: string, category: SyntacticCategory, s: set<LexemeAttribute>): (r: Result<set<LexemeAttribute>>)
    ensures r.Success? <==> lemmaRoot != []
    ensures r.Failure? ==> r.error == IndexOutOfBounds
    ensures r.Success? && category !in {VERB, NOUN, ADJECTIVE} ==> r.value == s
    ensures r.Success? && category == VERB ==>
      r.value == VerbAttributes(ph, lemmaRoot[|lemmaRoot| - 1], Vowels(ph, lemmaRoot), s)
    ensures r.Success? && category == NOUN && CompoundP3sg in s ==> r.value == NounCompoundAttributes(s)
    ensures r.Success? && (category == ADJECTIVE || (category == NOUN && CompoundP3sg !in s)) ==>
      r.value == NounOrAdjectiveAttributes(ph, lemmaRoot, lemmaRoot[|lemmaRoot| - 1], Vowels(ph, lemmaRoot), s)
    ensures r.Success? && category in {VERB, NOUN, ADJECTIVE} && VoicingOpt !in s ==>
      Voicing in r.value || NoVoicing in r.value
  {
    if lemmaRoot == [] then Failure(IndexOutOfBounds)
    else
      var lastLetter := lemmaRoot[|lemmaRoot| - 1];
      var vowelCount := Vowels(ph, lemmaRoot);
      if category == VERB then Success(VerbAttributes(ph, lastLetter, vowelCount, s))
      else if category == NOUN && CompoundP3sg in s then Success(NounCompoundAttributes(s))
      else if category == NOUN || category == ADJECTIVE then
        Success(NounOrAdjectiveAttributes(ph, lemmaRoot, lastLetter, vowelCount, s))
      else Success(s)
  }

  /** Inference is a closure: running it again on its own result adds and removes nothing. */
  lemma {:induction false} InferredIsIdempotent(ph: Phonetics, lemmaRoot: string, category: SyntacticCategory, s: set<LexemeAttribute>)
    requires Inferred(ph, lemmaRoot, category, s).Success?
    ensures Inferred(ph, lemmaRoot, category, Inferred(ph, lemmaRoot, category, s).value) == Inferred(ph, lemmaRoot, category, s)
  {
    var lastLetter := lemmaRoot[|lemmaRoot| - 1];
    var vowelCount := Vowels(ph, lemmaRoot);
    var r := Inferred(ph, lemmaRoot, category, s).value;
    if category == VERB {
      var v := VerbAttributes(ph, lastLetter, vowelCount, r);
      // every marker the second pass could add is already there
      assert !(r !! Causatives);
      assert vowelCount > 1 && Aorist_A !in r ==> Aorist_I in r;
      assert vowelCount == 1 && Aorist_I !in r ==> Aorist_A in r;
      assert v - r <= {ProgressiveVowelDrop, Passive_In, NoVoicing};
      assert v == r;
    } else if category == NOUN && CompoundP3sg in s {
      assert CompoundP3sg in r;
      if VoicingOpt in s {
        assert r - {Voicing, NoVoicing} == r;
      }
    } else if category == NOUN || category == ADJECTIVE {
      assert CompoundP3sg in r <==> CompoundP3sg in s;
      if VoicingOpt in s {
        assert r - {Voicing, NoVoicing} == r;
      } else {
        assert VoicesByShape(ph, lastLetter, vowelCount, r) ==> VoicesByShape(ph, lastLetter, vowelCount, s);
      }
    }
  }

  /** The category a lexeme gets, and the root it keeps, when the line names no category or names one. */
  function CategoryAndLemmaRoot(rootStr: string, category: Option<SyntacticCategory>): (r: (SyntacticCategory, string))
    ensures category.Some? ==> r == (category.value, rootStr)
    ensures category.None? && (EndsWith(rootStr, "mek") || EndsWith(rootStr, "mak")) ==>
      r.0 == VERB && |r.1| + 3 == |rootStr| && (r.1 + "mek" == rootStr || r.1 + "mak" == rootStr)
    ensures category.None? && !(EndsWith(rootStr, "mek") || EndsWith(rootStr, "mak")) ==> r == (NOUN, rootStr)
  {
    if category.Some? then (category.value, rootStr)
    else if EndsWith(rootStr, "mek") || EndsWith(rootStr, "mak") then
      assert rootStr[..|rootStr| - 3] + rootStr[|rootStr| - 3..] == rootStr;
      (VERB, rootStr[..|rootStr| - 3])
    else (NOUN, rootStr)
  }

  /** createLexeme: default the category, then complete the attributes. */
  function NewLexeme(ph: Phonetics, lemmaStr: string, rootStr: string, category: Option<SyntacticCategory>,
                     secondary: Option<SecondarySyntacticCategory>, s: set<LexemeAttribute>): (r: Result<Lexeme>)
    ensures var (c, lemmaRoot) := CategoryAndLemmaRoot(rootStr, category);
      && (r.Success? <==> lemmaRoot != [])
      && (r.Failure? ==> r.error == IndexOutOfBounds)
      && (r.Success? ==> r.value == Lexeme(lemmaStr, lemmaRoot, c, secondary, Inferred(ph, lemmaRoot, c, s).value))
  {
    var (c, lemmaRoot) := CategoryAndLemmaRoot(rootStr, category);
    match Inferred(ph, lemmaRoot, c, s)
    case Failure(e) => Failure(e)
    case Success(attrs) => Success(Lexeme(lemmaStr, lemmaRoot, c, secondary, attrs))
  }

  // ---------------------------------------------------------------------
  // Reading a dictionary line
  // ---------------------------------------------------------------------

  /** The strings a line yields before any of them is looked up. */
  datatype LineFields = LineFields(
    lemmaStr: string,
    rootStr: string,
    syntacticCategoryStr: Option<string>,
    secondarySyntacticCategoryStr: Option<string>,
    lexemeAttributeStrs: seq<string>)

  /** `part` starts with the two-letter tag `k:` (String.startsWith on "P:", "A:", "R:" or "S:"). */
  predicate Tagged(part: string, k: char) {
    |part| >= 2 && part[0] == k && part[1] == ':'
  }

  /** A meta part the reader accepts: P: with one item or exactly two, A:, R: or S:. */
  predicate KnownMetaPart(part: string) {
    if Tagged(part, 'P') then ',' !in part[2..] || |Tokens(part[2..], ',')| == 2
    else Tagged(part, 'A') || Tagged(part, 'R') || Tagged(part, 'S')
  }

  /** One iteration of the loop over meta parts. */
  function ApplyMetaPart(part: string, f: LineFields): (r: Result<LineFields>)
    ensures r.Success? <==> KnownMetaPart(part)
    ensures r.Failure? ==> r.error == (if Tagged(part, 'P') then IllegalArgument else Runtime)
    ensures r.Success? ==> r.value.lemmaStr == f.lemmaStr
    ensures r.Success? && !Tagged(part, 'R') ==> r.value.rootStr == f.rootStr
    ensures Tagged(part, 'R') ==> r == Success(f.(rootStr := part[2..]))
    ensures Tagged(part, 'S') ==> r == Success(f)
    ensures Tagged(part, 'A') ==> r == Success(f.(lexemeAttributeStrs := Tokens(part[2..], ',')))
    ensures Tagged(part, 'P') && ',' !in part[2..] ==> r == Success(f.(syntacticCategoryStr := Some(part[2..])))
    ensures Tagged(part, 'P') && ',' in part[2..] && r.Success? ==>
      var items := Tokens(part[2..], ',');
      r.value == f.(syntacticCategoryStr := Some(items[0]), secondarySyntacticCategoryStr := Some(items[1]))
  {
    if Tagged(part, 'P') then
      var rest := part[2..];
      if ',' in rest then
        var items := Tokens(rest, ',');
        if |items| == 2 then
          Success(f.(syntacticCategoryStr := Some(items[0]), secondarySyntacticCategoryStr := Some(items[1])))
        else Failure(IllegalArgument)
      else Success(f.(syntacticCategoryStr := Some(rest)))
    else if Tagged(part, 'A') then Success(f.(lexemeAttributeStrs := Tokens(part[2..], ',')))
    else if Tagged(part, 'R') then Success(f.(rootStr := part[2..]))
    else if Tagged(part, 'S') then Success(f)
    else Failure(Runtime)
  }

  /** The loop over meta parts, in order; the first part it cannot read ends it with an exception. */
  function ApplyMetaParts(parts: seq<string>, f: LineFields): (r: Result<LineFields>)
    ensures r.Success? <==> forall i | 0 <= i < |parts| :: KnownMetaPart(parts[i])
    ensures r.Success? ==> r.value.lemmaStr == f.lemmaStr
  {
    if parts == [] then Success(f)
    else
      match ApplyMetaPart(parts[0], f)
      case Failure(e) => Failure(e)
      case Success(f') => ApplyMetaParts(parts[1..], f')
  }

  /** The meta text starts with '[' and ends with ']' (one character cannot do both). */
  predicate Bracketed(meta: string) {
    |meta| >= 2 && meta[0] == '[' && meta[|meta| - 1] == ']'
  }

  /**
   * The fields of a line whose first word is `rootStr` and whose remaining
   * text is `meta`: the meta text must be bracketed; inside the brackets,
   * blank means no meta parts, otherwise the ';'-separated parts are read in order.
   */
  function ReadMeta(rootStr: string, meta: string): (r: Result<LineFields>)
    ensures !Bracketed(meta) ==> r == Failure(IllegalArgument)
    ensures r.Success? ==> r.value.lemmaStr == rootStr
    ensures Bracketed(meta) && IsBlank(meta[1..|meta| - 1]) ==> r == Success(LineFields(rootStr, rootStr, None, None, []))
  {
    if !Bracketed(meta) then Failure(IllegalArgument)
    else
      var inner := meta[1..|meta| - 1];
      var f := LineFields(rootStr, rootStr, None, None, []);
      if IsBlank(inner) then Success(f) else ApplyMetaParts(Tokens(inner, ';'), f)
  }

  /**
   * The strings createLexemeFromLine reads from a line: none for a blank line;
   * otherwise, once whitespace is trimmed and collapsed, the first word is the
   * lemma and the root, and the text after it is the meta text.
   */
  function ReadLine(line: string): (r: Result<Option<LineFields>>)
    ensures IsBlank(line) ==> r == Success(None)
    ensures !IsBlank(line) && r.Success? ==> r.value.Some?
    ensures var l := TrimAndCollapse(line);
      !IsBlank(line) && ' ' !in l ==> r == Success(Some(LineFields(l, l, None, None, [])))
    ensures var l := TrimAndCollapse(line);
      !IsBlank(line) && ' ' in l ==>
        var split := SplitFirst(l, ' ');
        match ReadMeta(Trim(split.0), Trim(split.1))
        case Failure(e) => r == Failure(e)
        case Success(f) => r == Success(Some(f))
  {
    if IsBlank(line) then Success(None)
    else
      var l := TrimAndCollapse(line);
      if ' ' in l then
        var split := SplitFirst(l, ' ');
        match ReadMeta(Trim(split.0), Trim(split.1))
        case Failure(e) => Failure(e)
        case Success(f) => Success(Some(f))
      else Success(Some(LineFields(l, l, None, None, [])))
  }

  /** The lemma a line yields is one word: trimming and collapsing left no CharMatcher.WHITESPACE character in it. */
  lemma {:induction false} ReadLineLemmaIsOneWord(line: string)
    requires ReadLine(line).Success? && ReadLine(line).value.Some?
    ensures forall i | 0 <= i < |ReadLine(line).value.value.lemmaStr| :: !IsMatcherWhitespace(ReadLine(line).value.value.lemmaStr[i])
  {
    var l := TrimAndCollapse(line);
    var lemmaStr := ReadLine(line).value.value.lemmaStr;
    if ' ' in l {
      var split := SplitFirst(l, ' ');
      assert lemmaStr == Trim(split.0);
      FirstWordHasNoWhitespace(l);
    } else {
      assert lemmaStr == l;
    }
  }

  /** In a string whose only CharMatcher.WHITESPACE character is ' ', the trimmed text before the first ' ' has none. */
  lemma FirstWordHasNoWhitespace(l: string)
    requires ' ' in l
    requires forall i | 0 <= i < |l| :: IsMatcherWhitespace(l[i]) ==> l[i] == ' '
    ensures forall i | 0 <= i < |Trim(SplitFirst(l, ' ').0)| :: !IsMatcherWhitespace(Trim(SplitFirst(l, ' ').0)[i])
  {
    var first := SplitFirst(l, ' ').0;
    var w := Trim(first);
    assert l == first + [' '] + SplitFirst(l, ' ').1;
    assert forall j | 0 <= j < |first| :: first[j] == l[j];
    forall i | 0 <= i < |w| ensures !IsMatcherWhitespace(w[i]) {
      assert w[i] in first;
    }
  }

  /** The string-to-enum tables of the three enums a line mentions. */
  datatype Vocabulary = Vocabulary(
    syntacticCategories: StringEnumMap<SyntacticCategory>,
    secondarySyntacticCategories: StringEnumMap<SecondarySyntacticCategory>,
    lexemeAttributes: StringEnumMap<LexemeAttribute>)

  /** X.lookup(str): null stays null, anything else goes through getEnum. */
  function Lookup<T>(m: StringEnumMap<T>, s: Option<string>): (r: Result<Option<T>>)
    ensures s.None? ==> r == Success(None)
    ensures s.Some? ==> (r.Success? <==> m.GetEnum(s).Success?)
    ensures r.Failure? ==> r.error == IllegalArgument
    ensures s.Some? && r.Success? ==> r.value == Some(m.GetEnum(s).value)
  {
    if s.None? then Success(None)
    else
      match m.GetEnum(s)
      case Failure(e) => Failure(e)
      case Success(v) => Success(Some(v))
  }

  /** LexemeAttribute.lookupMultiple: every string looked up; the set of what they name. */
  function LookupMultiple(m: StringEnumMap<LexemeAttribute>, strs: seq<string>): (r: Result<set<LexemeAttribute>>)
    ensures r.Success? <==> forall i | 0 <= i < |strs| :: m.GetEnum(Some(strs[i])).Success?
    ensures r.Failure? ==> r.error == IllegalArgument
    ensures r.Success? ==> forall a :: a in r.value <==> exists i :: 0 <= i < |strs| && m.GetEnum(Some(strs[i])) == Success(a)
  {
    match m.GetEnums(Some(strs))
    case Failure(e) => Failure(e)
    case Success(xs) =>
      assert forall a :: a in xs <==> exists i :: 0 <= i < |strs| && xs[i] == a;
      Success(set a | a in xs)
  }

  /** createLexemeFromLine, from the line's text to the lexeme it describes. */
  function LexemeFromLine(ph: Phonetics, vocab: Vocabulary, line: string): (r: Result<Option<Lexeme>>)
    ensures IsBlank(line) ==> r == Success(None)
    ensures ReadLine(line).Failure? ==> r == Failure(ReadLine(line).error)
    ensures ReadLine(line) == Success(None) ==> r == Success(None)
    ensures ReadLine(line).Success? && ReadLine(line).value.Some? ==>
      var f := ReadLine(line).value.value;
      var category := Lookup(vocab.syntacticCategories, f.syntacticCategoryStr);
      var secondary := Lookup(vocab.secondarySyntacticCategories, f.secondarySyntacticCategoryStr);
      var attrs := LookupMultiple(vocab.lexemeAttributes, f.lexemeAttributeStrs);
      var resolved := category.Success? && secondary.Success? && attrs.Success?;
      && (r.Success? <==>
            resolved && NewLexeme(ph, f.lemmaStr, f.rootStr, category.value, secondary.value, attrs.value).Success?)
      && (r.Success? ==>
            r.value == Some(NewLexeme(ph, f.lemmaStr, f.rootStr, category.value, secondary.value, attrs.value).value))
      && (r.Failure? ==> r.error == if resolved then IndexOutOfBounds else IllegalArgument)
  {
    match ReadLine(line)
    case Failure(e) => Failure(e)
    case Success(None) => Success(None)
    case Success(Some(f)) =>
      match Lookup(vocab.syntacticCategories, f.syntacticCategoryStr)
      case Failure(e) => Failure(e)
      case Success(category) =>
        match Lookup(vocab.secondarySyntacticCategories, f.secondarySyntacticCategoryStr)
        case Failure(e) => Failure(e)
        case Success(secondary) =>
          match LookupMultiple(vocab.lexemeAttributes, f.lexemeAttributeStrs)
          case Failure(e) => Failure(e)
          case Success(attrs) =>
            match NewLexeme(ph, f.lemmaStr, f.rootStr, category, secondary, attrs)
            case Failure(e) => Failure(e)
            case Success(lexeme) => Success(Some(lexeme))
  }

  /**
   * A line that is one bare word, with no whitespace of either kind, is a
   * lexeme with that word as lemma and root, no given category and no
   * attributes: what createLexeme defaults and infers from the word alone.
   */
  lemma BareWordLine(ph: Phonetics, vocab: Vocabulary, w: string)
    requires w != []
    requires forall i | 0 <= i < |w| :: !IsWhitespace(w[i]) && !IsMatcherWhitespace(w[i])
    ensures var n := NewLexeme(ph, w, w, None, None, {});
      LexemeFromLine(ph, vocab, w) == if n.Success? then Success(Some(n.value)) else Failure(n.error)
  {
    ReadLineOfBareWord(w);
    assert LookupMultiple(vocab.lexemeAttributes, []).value == {};
  }

  /** A bare word is read as its own lemma and root, with no meta parts. */
  lemma ReadLineOfBareWord(w: string)
    requires w != []
    requires forall i | 0 <= i < |w| :: !IsWhitespace(w[i]) && !IsMatcherWhitespace(w[i])
    ensures ReadLine(w) == Success(Some(LineFields(w, w, None, None, [])))
  {
    TrimAndCollapseKeepsWord(w);
    assert !IsWhitespace(w[0]);
  }

  /** The root a line ends up with: the text of its last R: part, or the first word when there is none. */
  function RootAfter(parts: seq<string>, rootStr: string): string {
    if parts == [] then rootStr
    else RootAfter(parts[1..], if Tagged(parts[0], 'R') then parts[0][2..] else rootStr)
  }

  /** An R: part changes the root a lexeme is built from, never its lemma; the last one wins. */
  lemma {:induction false} MetaPartsRoot(parts: seq<string>, f: LineFields)
    requires ApplyMetaParts(parts, f).Success?
    ensures ApplyMetaParts(parts, f).value.lemmaStr == f.lemmaStr
    ensures ApplyMetaParts(parts, f).value.rootStr == RootAfter(parts, f.rootStr)
  {
    if parts != [] {
      MetaPartsRoot(parts[1..], ApplyMetaPart(parts[0], f).value);
    }
  }

  // ---------------------------------------------------------------------
  // The operations, step by step
  // ---------------------------------------------------------------------

  /** vowelCount: count the vowels of `s`, one letter at a time. */
  method VowelCount(ph: Phonetics, s: string) returns (count: nat)
    ensures count == Vowels(ph, s)
  {
    count := 0;
    for i := 0 to |s|
      invariant count == Vowels(ph, s[..i])
    {
      assert s[..i + 1][..i] == s[..i];
      if ph.isVowel(s[i]) {
        count := count + 1;
      }
    }
    assert s[..|s|] == s;
  }

  method InferNounOrAdjectiveMorphemicAttributes(ph: Phonetics, lemmaRoot: string, lastLetter: char, vowelCount: nat,
                                                 attrs: LexemeAttributeSet)
    modifies attrs
    ensures attrs.elements == NounOrAdjectiveAttributes(ph, lemmaRoot, lastLetter, vowelCount, old(attrs.elements))
  {
    if attrs.Contains(VoicingOpt) {
      attrs.Remove(Voicing);
      attrs.Remove(NoVoicing);
    } else {
      if vowelCount > 1 && ph.isVoiceless(lastLetter) && !ph.isContinuant(lastLetter)
         && !attrs.Contains(NoVoicing) && !attrs.Contains(InverseHarmony) {
        attrs.Add(Voicing);
      } else if EndsWith(lemmaRoot, "nk") || EndsWith(lemmaRoot, "og") || EndsWith(lemmaRoot, "rt") {
        attrs.Add(Voicing);
      } else if !attrs.Contains(Voicing) {
        attrs.Add(NoVoicing);
      }
    }
  }

  method InferNounCompoundMorphemicAttributes(attrs: LexemeAttributeSet)
    modifies attrs
    ensures attrs.elements == NounCompoundAttributes(old(attrs.elements))
  {
    if attrs.Contains(VoicingOpt) {
      attrs.Remove(Voicing);
      attrs.Remove(NoVoicing);
    } else if !attrs.Contains(Voicing) {
      attrs.Add(NoVoicing);
    }
  }

  method InferVerbMorphemicAttributes(ph: Phonetics, lastLetter: char, vowelCount: nat, attrs: LexemeAttributeSet)
    modifies attrs
    ensures attrs.elements == VerbAttributes(ph, lastLetter, vowelCount, old(attrs.elements))
  {
    if ph.isVowel(lastLetter) {
      attrs.Add(ProgressiveVowelDrop);
      attrs.Add(Passive_In);
    }
    if vowelCount > 1 && !attrs.Contains(Aorist_A) {
      attrs.Add(Aorist_I);
    }
    if vowelCount == 1 && !attrs.Contains(Aorist_I) {
      attrs.Add(Aorist_A);
    }
    if lastLetter == 'l' {
      attrs.Add(Passive_In);
    }
    if !attrs.ContainsAny(Causatives) {
      ghost var causative := InferredCausative(ph, lastLetter, vowelCount);
      if ph.isVowel(lastLetter) || ((lastLetter == 'l' || lastLetter == 'r') && vowelCount > 1) {
        assert causative == Causative_t;
        attrs.Add(Causative_t);
      } else if lastLetter == 't' && vowelCount < 2 {
        assert causative == Causative_Ir;
        attrs.Add(Causative_Ir);
      } else {
        assert causative == Causative_dIr;
        attrs.Add(Causative_dIr);
      }
    }
    if attrs.Contains(ProgressiveVowelDrop) {
      attrs.Add(NoVoicing);
    }
    if !attrs.Contains(Voicing) && !attrs.Contains(NoVoicing) {
      attrs.Add(NoVoicing);
    }
  }

  /** inferMorphemicAttributes: works on a copy, so the caller's set is a value it keeps. */
  method InferMorphemicAttributes(ph: Phonetics, lemmaRoot: string, category: SyntacticCategory,
                                  lexemeAttributes: set<LexemeAttribute>) returns (r: Result<set<LexemeAttribute>>)
    ensures r == Inferred(ph, lemmaRoot, category, lexemeAttributes)
  {
    if lemmaRoot == [] {
      return Failure(IndexOutOfBounds);
    }
    var lastLetter := lemmaRoot[|lemmaRoot| - 1];
    var vowelCount := VowelCount(ph, lemmaRoot);
    var attrs := new LexemeAttributeSet(lexemeAttributes);

    var isVerb := category == VERB;
    var isNoun := category == NOUN;
    var isAdjective := category == ADJECTIVE;
    var isNounCompound := isNoun && attrs.Contains(CompoundP3sg);

    if isVerb {
      InferVerbMorphemicAttributes(ph, lastLetter, vowelCount, attrs);
    } else if isNounCompound {
      InferNounCompoundMorphemicAttributes(attrs);
    } else if isNoun || isAdjective {
      InferNounOrAdjectiveMorphemicAttributes(ph, lemmaRoot, lastLetter, vowelCount, attrs);
    }
    r := Success(attrs.elements);
  }

  /** createLexeme. */
  method CreateLexeme(ph: Phonetics, lemmaStr: string, rootStr: string, syntacticCategory: Option<SyntacticCategory>,
                      secondarySyntacticCategory: Option<SecondarySyntacticCategory>,
                      lexemeAttributes: set<LexemeAttribute>) returns (r: Result<Lexeme>)
    ensures r == NewLexeme(ph, lemmaStr, rootStr, syntacticCategory, secondarySyntacticCategory, lexemeAttributes)
  {
    var lemmaRoot := rootStr;
    var category: SyntacticCategory;
    if syntacticCategory.None? {
      if EndsWith(rootStr, "mek") || EndsWith(rootStr, "mak") {
        category := VERB;
        lemmaRoot := rootStr[..|rootStr| - 3];
      } else {
        category := NOUN;
      }
    } else {
      category := syntacticCategory.value;
    }
    var attrs := InferMorphemicAttributes(ph, lemmaRoot, category, lexemeAttributes);
    if attrs.Failure? {
      return Failure(attrs.error);
    }
    r := Success(Lexeme(lemmaStr, lemmaRoot, category, secondarySyntacticCategory, attrs.value));
  }

  /** The loop of createLexemeFromLine over the meta parts of a line. */
  method ReadMetaParts(metaParts: seq<string>, f: LineFields) returns (r: Result<LineFields>)
    ensures r == ApplyMetaParts(metaParts, f)
  {
    var rootStr := f.rootStr;
    var syntacticCategoryStr := f.syntacticCategoryStr;
    var secondarySyntacticCategoryStr := f.secondarySyntacticCategoryStr;
    var lexemeAttributeStrs := f.lexemeAttributeStrs;
    for i := 0 to |metaParts|
      invariant ApplyMetaParts(metaParts, f) ==
        ApplyMetaParts(metaParts[i..], LineFields(f.lemmaStr, rootStr, syntacticCategoryStr, secondarySyntacticCategoryStr, lexemeAttributeStrs))
    {
      var metaPart := metaParts[i];
      assert metaParts[i..][0] == metaPart && metaParts[i..][1..] == metaParts[i + 1..];
      if Tagged(metaPart, 'P') {
        metaPart := metaPart[2..];
        if ',' in metaPart {
          var metaPartItems := Tokens(metaPart, ',');
          if |metaPartItems| != 2 {
            return Failure(IllegalArgument);
          }
          syntacticCategoryStr := Some(metaPartItems[0]);
          secondarySyntacticCategoryStr := Some(metaPartItems[1]);
        } else {
          syntacticCategoryStr := Some(metaPart);
        }
      } else if Tagged(metaPart, 'A') {
        lexemeAttributeStrs := Tokens(metaPart[2..], ',');
      } else if Tagged(metaPart, 'R') {
        rootStr := metaPart[2..];
      } else if Tagged(metaPart, 'S') {
        // skipped
      } else {
        return Failure(Runtime);
      }
    }
    r := Success(LineFields(f.lemmaStr, rootStr, syntacticCategoryStr, secondarySyntacticCategoryStr, lexemeAttributeStrs));
  }

  /** The meta text of a line: check the brackets, then read the parts inside them. */
  method ReadMetaFields(rootStr: string, meta: string) returns (r: Result<LineFields>)
    ensures r == ReadMeta(rootStr, meta)
  {
    if !Bracketed(meta) {
      return Failure(IllegalArgument);
    }
    var inner := meta[1..|meta| - 1];
    var fields := LineFields(rootStr, rootStr, None, None, []);
    if IsBlank(inner) {
      return Success(fields);
    }
    r := ReadMetaParts(Tokens(inner, ';'), fields);
  }

  /** The first half of createLexemeFromLine: from the line's text to the strings it names. */
  method ReadLineFields(line: string) returns (r: Result<Option<LineFields>>)
    ensures r == ReadLine(line)
  {
    if IsBlank(line) {
      return Success(None);
    }
    var l := TrimAndCollapse(line);
    if ' ' !in l {
      // no meta text: the whole line is the root
      return Success(Some(LineFields(l, l, None, None, [])));
    }
    var split := SplitFirst(l, ' ');
    var fields := ReadMetaFields(Trim(split.0), Trim(split.1));
    if fields.Failure? {
      return Failure(fields.error);
    }
    r := Success(Some(fields.value));
  }

  /** createLexemeFromLine: read the line, look its strings up, then build the lexeme. */
  method CreateLexemeFromLine(ph: Phonetics, vocab: Vocabulary, line: string) returns (r: Result<Option<Lexeme>>)
    ensures r == LexemeFromLine(ph, vocab, line)
  {
    var fields := ReadLineFields(line);
    if fields.Failure? {
      return Failure(fields.error);
    }
    if fields.value.None? {
      return Success(None);
    }
    var f := fields.value.value;
    var category := Lookup(vocab.syntacticCategories, f.syntacticCategoryStr);
    if category.Failure? {
      return Failure(category.error);
    }
    var secondary := Lookup(vocab.secondarySyntacticCategories, f.secondarySyntacticCategoryStr);
    if secondary.Failure? {
      return Failure(secondary.error);
    }
    var attrs := LookupMultiple(vocab.lexemeAttributes, f.lexemeAttributeStrs);
    if attrs.Failure? {
      return Failure(attrs.error);
    }
    var lexeme := CreateLexeme(ph, f.lemmaStr, f.rootStr, category.value, secondary.value, attrs.value);
    if lexeme.Failure? {
      return Failure(lexeme.error);
    }
    r := Success(Some(lexeme.value));
  }
}
