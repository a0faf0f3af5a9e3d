/**
 * The string operations the lexicon reader relies on: java.lang.String's
 * trim/startsWith/endsWith/split, commons-lang's isBlank and Guava's
 * CharMatcher.WHITESPACE and Splitter, each stated on `seq<char>`.
 */
module Text {

  /**
   * Character.isWhitespace: the space separators other than the no-break
   * spaces (U+00A0, U+2007, U+202F), the line and paragraph separators, and
   * the controls U+0009-U+000D and U+001C-U+001F.
   */
  predicate IsWhitespace(c: char) {
    c == '\t' || c == '\n' || c == '\U{B}' || c == '\U{C}' || c == '\r'
    || ('\U{1C}' <= c <= '\U{1F}') || c == ' '
    || c == '\U{1680}' || c == '\U{180E}'
    || ('\U{2000}' <= c <= '\U{2006}') || ('\U{2008}' <= c <= '\U{200A}')
    || c == '\U{2028}' || c == '\U{2029}' || c == '\U{205F}' || c == '\U{3000}'
  }

  /**
   * Guava's CharMatcher.WHITESPACE: the controls U+0009-U+000D, every space
   * separator including the no-break ones, NEL (U+0085) and the line and
   * paragraph separators. Unlike Character.isWhitespace it does not contain
   * U+001C-U+001F.
   */
  predicate IsMatcherWhitespace(c: char) {
    c == '\t' || c == '\n' || c == '\U{B}' || c == '\U{C}' || c == '\r'
    || c == ' ' || c == '\U{85}' || c == '\U{A0}' || c == '\U{1680}'
    || ('\U{2000}' <= c <= '\U{200A}')
    || c == '\U{2028}' || c == '\U{2029}' || c == '\U{202F}' || c == '\U{205F}' || c == '\U{3000}'
  }

  /** The characters java.lang.String.trim removes: every code point up to U+0020. */
  predicate IsTrimmable(c: char) {
    c as int <= 32
  }

  /** StringUtils.isBlank on a non-null string: empty or whitespace only. */
  predicate IsBlank(s: string) {
    forall i | 0 <= i < |s| :: IsWhitespace(s[i])
  }

  predicate StartsWith(s: string, prefix: string) {
    |prefix| <= |s| && s[..|prefix|] == prefix
  }

  predicate EndsWith(s: string, suffix: string) {
    |suffix| <= |s| && s[|s| - |suffix|..] == suffix
  }

  /** The two ways the lexicon reader trims text: String.trim and CharMatcher.WHITESPACE.trimFrom. */
  datatype Trimming = StringTrim | MatcherTrim

  /** Whether trimming of kind `k` removes `c` from an end. */
  predicate Drops(k: Trimming, c: char) {
    match k
    case StringTrim => IsTrimmable(c)
    case MatcherTrim => IsMatcherWhitespace(c)
  }

  /** The first index at or after `i` whose character `k` does not trim (`|s|` when there is none). */
  function SkipLeading(s: string, k: Trimming, i: nat): (a: nat)
    requires i <= |s|
    ensures i <= a <= |s|
    ensures forall j | i <= j < a :: Drops(k, s[j])
    ensures a == |s| || !Drops(k, s[a])
    decreases |s| - i
  {
    if i == |s| || !Drops(k, s[i]) then i else SkipLeading(s, k, i + 1)
  }

  /** The end of `s[a..b]` once the trailing characters `k` trims are removed. */
  function SkipTrailing(s: string, k: Trimming, a: nat, b: nat): (e: nat)
    requires a <= b <= |s|
    ensures a <= e <= b
    ensures forall j | e <= j < b :: Drops(k, s[j])
    ensures e == a || !Drops(k, s[e - 1])
    decreases b
  {
    if b == a || !Drops(k, s[b - 1]) then b else SkipTrailing(s, k, a, b - 1)
  }

  /** Removes the characters `k` trims from both ends. */
  function Strip(s: string, k: Trimming): (r: string)
    ensures |r| <= |s|
    ensures forall c | c in r :: c in s
    ensures r == [] || (!Drops(k, r[0]) && !Drops(k, r[|r| - 1]))
    ensures r == [] ==> forall i | 0 <= i < |s| :: Drops(k, s[i])
  {
    var a := SkipLeading(s, k, 0);
    s[a..SkipTrailing(s, k, a, |s|)]
  }

  /** What Strip keeps is a slice of `s` with only trimmed characters before and after it. */
  lemma StripIsSlice(s: string, k: Trimming)
    ensures exists a, b | 0 <= a <= b <= |s| ::
      Strip(s, k) == s[a..b] && (forall i | 0 <= i < a :: Drops(k, s[i])) && (forall i | b <= i < |s| :: Drops(k, s[i]))
  {
    var a := SkipLeading(s, k, 0);
    var b := SkipTrailing(s, k, a, |s|);
    assert Strip(s, k) == s[a..b];
  }

  /** java.lang.String.trim. */
  function Trim(s: string): string {
    Strip(s, StringTrim)
  }

  /** Guava's CharMatcher.WHITESPACE.trimFrom, as used by Splitter.trimResults. */
  function TrimWhitespace(s: string): string {
    Strip(s, MatcherTrim)
  }

  /** Replaces every maximal run of CharMatcher.WHITESPACE characters in `s` by one space. */
  function Collapse(s: string): (r: string)
    ensures (r == []) == (s == [])
    ensures r != [] ==> (IsMatcherWhitespace(r[0]) <==> IsMatcherWhitespace(s[0]))
    ensures r != [] ==> (IsMatcherWhitespace(r[|r| - 1]) <==> IsMatcherWhitespace(s[|s| - 1]))
    ensures forall i | 0 <= i < |r| :: IsMatcherWhitespace(r[i]) ==> r[i] == ' '
    ensures forall i | 0 <= i < |r| - 1 :: !(r[i] == ' ' && r[i + 1] == ' ')
    decreases |s|
  {
    if s == [] then []
    else if IsMatcherWhitespace(s[0]) then
      var rest := s[SkipLeading(s, MatcherTrim, 0)..];
      [' '] + Collapse(rest)
    else [s[0]] + Collapse(s[1..])
  }

  /**
   * CharMatcher.WHITESPACE.trimAndCollapseFrom(s, ' '): no whitespace at either
   * end, and every inner run of whitespace becomes a single space.
   */
  function TrimAndCollapse(s: string): (r: string)
    ensures r == [] || (!IsMatcherWhitespace(r[0]) && !IsMatcherWhitespace(r[|r| - 1]))
    ensures forall i | 0 <= i < |r| :: IsMatcherWhitespace(r[i]) ==> r[i] == ' '
    ensures forall i | 0 <= i < |r| - 1 :: !(r[i] == ' ' && r[i + 1] == ' ')
  {
    var t := TrimWhitespace(s);
    assert t != [] ==> !IsMatcherWhitespace(t[0]) && !IsMatcherWhitespace(t[|t| - 1]);
    Collapse(t)
  }

  /** The index of the first occurrence of `c` in `s`. */
  function IndexOf(s: string, c: char): (k: nat)
    requires c in s
    ensures k < |s| && s[k] == c && c !in s[..k]
  {
    if s[0] == c then 0 else 1 + IndexOf(s[1..], c)
  }

  /** `s.split(" ", 2)` on a string that holds `c`: the text before and after its first `c`. */
  function SplitFirst(s: string, c: char): (r: (string, string))
    requires c in s
    ensures c !in r.0 && r.0 + [c] + r.1 == s
  {
    var k := IndexOf(s, c);
    assert s[..k] + [c] + s[k + 1..] == s;
    (s[..k], s[k + 1..])
  }

  /** The pieces written back with `sep` between each two: the inverse of SplitOn. */
  function JoinWith(pieces: seq<string>, sep: char): string {
    if pieces == [] then []
    else if |pieces| == 1 then pieces[0]
    else pieces[0] + [sep] + JoinWith(pieces[1..], sep)
  }

  /** Guava Splitter.on(sep): every piece between separators, empty ones included. */
  function SplitOn(s: string, sep: char): (r: seq<string>)
    ensures |r| >= 1
    ensures forall i | 0 <= i < |r| :: sep !in r[i]
    ensures JoinWith(r, sep) == s
    decreases |s|
  {
    if sep !in s then [s]
    else
      var k := IndexOf(s, sep);
      var rest := SplitOn(s[k + 1..], sep);
      assert s[..k] + [sep] + s[k + 1..] == s;
      assert ([s[..k]] + rest)[1..] == rest;
      [s[..k]] + rest
  }

  /** The first occurrence is the only index before which `c` does not occur. */
  lemma IndexOfUnique(s: string, c: char, k: nat)
    requires k < |s| && s[k] == c && c !in s[..k]
    ensures IndexOf(s, c) == k
  {
  }

  /** SplitOn cuts at the first separator and goes on with the rest. */
  lemma SplitOnAt(s: string, sep: char, k: nat)
    requires k < |s| && s[k] == sep && sep !in s[..k]
    ensures SplitOn(s, sep) == [s[..k]] + SplitOn(s[k + 1..], sep)
  {
    IndexOfUnique(s, sep, k);
  }

  /** A separator after text without one cuts off exactly that text. */
  lemma SplitOnAfterPiece(a: string, b: string, sep: char)
    requires sep !in a
    ensures SplitOn(a + [sep] + b, sep) == [a] + SplitOn(b, sep)
  {
    var s := a + [sep] + b;
    assert s[..|a|] == a && s[|a| + 1..] == b;
    SplitOnAt(s, sep, |a|);
  }

  /** A separator after text that holds one: the first piece is cut as in the text alone. */
  lemma SplitOnAfterCut(a: string, b: string, sep: char, k: nat)
    requires sep in a && k == IndexOf(a, sep)
    ensures SplitOn(a + [sep] + b, sep) == [a[..k]] + SplitOn(a[k + 1..] + [sep] + b, sep)
    ensures SplitOn(a, sep) == [a[..k]] + SplitOn(a[k + 1..], sep)
  {
    var s := a + [sep] + b;
    assert s[..k] == a[..k] && s[k + 1..] == a[k + 1..] + [sep] + b;
    SplitOnAt(s, sep, k);
    SplitOnAt(a, sep, k);
  }

  lemma ConcatAssociates(x: seq<string>, y: seq<string>, z: seq<string>)
    ensures x + (y + z) == (x + y) + z
  {
  }

  /** Splitting at a separator splits the two sides independently. */
  lemma {:induction false} SplitOnConcat(a: string, b: string, sep: char)
    ensures SplitOn(a + [sep] + b, sep) == SplitOn(a, sep) + SplitOn(b, sep)
    decreases |a|
  {
    if sep !in a {
      SplitOnAfterPiece(a, b, sep);
    } else {
      var k := IndexOf(a, sep);
      SplitOnAfterCut(a, b, sep, k);
      SplitOnConcat(a[k + 1..], b, sep);
      ConcatAssociates([a[..k]], SplitOn(a[k + 1..], sep), SplitOn(b, sep));
    }
  }

  /** Trims every piece and drops the ones left empty. */
  function TrimAndOmitEmpty(pieces: seq<string>): (r: seq<string>)
    ensures |r| <= |pieces|
    ensures forall i | 0 <= i < |r| :: r[i] != [] && !IsMatcherWhitespace(r[i][0]) && !IsMatcherWhitespace(r[i][|r[i]| - 1])
  {
    if pieces == [] then []
    else
      var t := TrimWhitespace(pieces[0]);
      var rest := TrimAndOmitEmpty(pieces[1..]);
      if t == [] then rest
      else
        var r := [t] + rest;
        assert forall i | 1 <= i < |r| :: r[i] == rest[i - 1];
        r
  }

  /** Trimming adds no character: a character absent from every piece is absent from every result. */
  lemma {:induction false} TrimAndOmitEmptyAvoids(pieces: seq<string>, c: char)
    requires forall j | 0 <= j < |pieces| :: c !in pieces[j]
    ensures forall i | 0 <= i < |TrimAndOmitEmpty(pieces)| :: c !in TrimAndOmitEmpty(pieces)[i]
  {
    if pieces != [] {
      TrimAndOmitEmptyAvoids(pieces[1..], c);
    }
  }

  /** Trimming works piece by piece, so it keeps the pieces' order. */
  lemma {:induction false} TrimAndOmitEmptyConcat(p: seq<string>, q: seq<string>)
    ensures TrimAndOmitEmpty(p + q) == TrimAndOmitEmpty(p) + TrimAndOmitEmpty(q)
  {
    if p != [] {
      var head := if TrimWhitespace(p[0]) == [] then [] else [TrimWhitespace(p[0])];
      assert (p + q)[0] == p[0];
      assert (p + q)[1..] == p[1..] + q;
      assert TrimAndOmitEmpty(p + q) == head + TrimAndOmitEmpty(p[1..] + q);
      assert TrimAndOmitEmpty(p) == head + TrimAndOmitEmpty(p[1..]);
      TrimAndOmitEmptyConcat(p[1..], q);
      ConcatAssociates(head, TrimAndOmitEmpty(p[1..]), TrimAndOmitEmpty(q));
    } else {
      assert p + q == q;
    }
  }

  /**
   * Splitter.on(sep).omitEmptyStrings().trimResults().split(s): the trimmed,
   * non-empty pieces, none of which holds the separator.
   */
  function Tokens(s: string, sep: char): (r: seq<string>)
    ensures forall i | 0 <= i < |r| :: r[i] != [] && sep !in r[i]
    ensures forall i | 0 <= i < |r| :: !IsMatcherWhitespace(r[i][0]) && !IsMatcherWhitespace(r[i][|r[i]| - 1])
  {
    var pieces := SplitOn(s, sep);
    TrimAndOmitEmptyAvoids(pieces, sep);
    var r := TrimAndOmitEmpty(pieces);
    assert forall i | 0 <= i < |r| :: !IsMatcherWhitespace(r[i][0]) && !IsMatcherWhitespace(r[i][|r[i]| - 1]);
    r
  }

  /** Text without a separator is one token, its trimmed self, or none when that is empty. */
  lemma TokensOfPiece(s: string, sep: char)
    requires sep !in s
    ensures Tokens(s, sep) == if TrimWhitespace(s) == [] then [] else [TrimWhitespace(s)]
  {
    assert SplitOn(s, sep) == [s];
    assert [s][1..] == [];
  }

  /** The tokens on either side of a separator come out in order: those on the left, then those on the right. */
  lemma TokensConcat(a: string, b: string, sep: char)
    ensures Tokens(a + [sep] + b, sep) == Tokens(a, sep) + Tokens(b, sep)
  {
    SplitOnConcat(a, b, sep);
    TrimAndOmitEmptyConcat(SplitOn(a, sep), SplitOn(b, sep));
  }

  /** Text with no CharMatcher.WHITESPACE character is left as it is by trimAndCollapseFrom. */
  lemma {:induction false} TrimAndCollapseKeepsWord(s: string)
    requires forall i | 0 <= i < |s| :: !IsMatcherWhitespace(s[i])
    ensures TrimAndCollapse(s) == s
  {
    if s != [] {
      assert !Drops(MatcherTrim, s[0]) && !Drops(MatcherTrim, s[|s| - 1]);
      assert SkipLeading(s, MatcherTrim, 0) == 0;
      assert SkipTrailing(s, MatcherTrim, 0, |s|) == |s|;
      assert s[0..|s|] == s;
    }
    CollapseKeepsWord(s);
  }

  lemma {:induction false} CollapseKeepsWord(s: string)
    requires forall i | 0 <= i < |s| :: !IsMatcherWhitespace(s[i])
    ensures Collapse(s) == s
    decreases |s|
  {
    if s != [] {
      assert !IsMatcherWhitespace(s[0]);
      CollapseKeepsWord(s[1..]);
      assert [s[0]] + s[1..] == s;
    }
  }
}
