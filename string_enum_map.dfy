/**
 * StringEnumMap: a lookup from the string form of each constant of an enum
 * to the constant, built once by a loop over the constants.
 */
module StringEnumMaps {
  import opened Results

  /** No two constants share a string form (ImmutableMap.Builder refuses duplicate keys). */
  ghost predicate DistinctForms<T>(constants: seq<T>, stringForm: T -> string) {
    forall i, j | 0 <= i < j < |constants| :: stringForm(constants[i]) != stringForm(constants[j])
  }

  /** The map the constructor's loop builds after putting `constants` in order. */
  function FormMap<T>(constants: seq<T>, stringForm: T -> string): map<string, T> {
    if constants == [] then map[]
    else
      var last := constants[|constants| - 1];
      FormMap(constants[..|constants| - 1], stringForm)[stringForm(last) := last]
  }

  /** The keys of the map are exactly the string forms of the constants. */
  lemma {:induction false} FormMapKeys<T>(constants: seq<T>, stringForm: T -> string, s: string)
    ensures s in FormMap(constants, stringForm) <==> exists i :: 0 <= i < |constants| && stringForm(constants[i]) == s
  {
    if constants != [] {
      var init := constants[..|constants| - 1];
      FormMapKeys(init, stringForm, s);
      if exists i :: 0 <= i < |init| && stringForm(init[i]) == s {
        var i :| 0 <= i < |init| && stringForm(init[i]) == s;
        assert constants[i] == init[i];
      }
      if exists i :: 0 <= i < |constants| && stringForm(constants[i]) == s {
        var i :| 0 <= i < |constants| && stringForm(constants[i]) == s;
        if i < |init| { assert init[i] == constants[i]; }
      }
    }
  }

  /** With distinct forms, each constant's form maps back to that constant. */
  lemma {:induction false} FormMapAt<T>(constants: seq<T>, stringForm: T -> string, k: nat)
    requires DistinctForms(constants, stringForm)
    requires k < |constants|
    ensures stringForm(constants[k]) in FormMap(constants, stringForm)
    ensures FormMap(constants, stringForm)[stringForm(constants[k])] == constants[k]
  {
    var init := constants[..|constants| - 1];
    if k < |init| {
      assert forall i, j | 0 <= i < j < |init| :: init[i] == constants[i] && init[j] == constants[j];
      FormMapAt(init, stringForm, k);
      assert init[k] == constants[k];
    }
  }

  /** The string-to-constant table, immutable once built. */
  datatype StringEnumMap<T> = StringEnumMap(entries: map<string, T>) {

    /** getEnum: a null or empty string, or one that is no string form, is an IllegalArgumentException. */
    function GetEnum(s: Option<string>): (r: Result<T>)
      ensures s.None? || s.value == [] ==> r == Failure(IllegalArgument)
      ensures r.Success? <==> s.Some? && s.value != [] && s.value in entries
      ensures r.Failure? ==> r.error == IllegalArgument
      ensures r.Success? ==> r.value == entries[s.value]
    {
      if s.None? || s.value == [] then Failure(IllegalArgument)
      else if s.value !in entries then Failure(IllegalArgument)
      else Success(entries[s.value])
    }

    /** getEnum applied to every element, in order; the first exception escapes. */
    function GetEach(strs: seq<string>): (r: Result<seq<T>>)
      ensures r.Success? <==> forall i | 0 <= i < |strs| :: GetEnum(Some(strs[i])).Success?
      ensures r.Failure? ==> r.error == IllegalArgument
      ensures r.Success? ==> |r.value| == |strs|
      ensures r.Success? ==> forall i | 0 <= i < |strs| :: GetEnum(Some(strs[i])) == Success(r.value[i])
    {
      if strs == [] then Success([])
      else
        match GetEnum(Some(strs[0]))
        case Failure(e) => Failure(e)
        case Success(head) =>
          match GetEach(strs[1..])
          case Failure(e) => Failure(e)
          case Success(tail) => Success([head] + tail)
    }

    /** getEnums: a null or empty collection gives an empty result; otherwise each element is looked up. */
    function GetEnums(strs: Option<seq<string>>): (r: Result<seq<T>>)
      ensures strs.None? || strs.value == [] ==> r == Success([])
      ensures strs.Some? ==> r == GetEach(strs.value)
    {
      if strs.None? || strs.value == [] then Success([]) else GetEach(strs.value)
    }

    /** enumExists. */
    predicate EnumExists(s: string) {
      s in entries
    }
  }

  /**
   * The constructor's loop: put every constant under its string form, in
   * declaration order; ImmutableMap.Builder.build refuses a repeated key with
   * an IllegalArgumentException.
   */
  method Build<T>(constants: seq<T>, stringForm: T -> string) returns (r: Result<StringEnumMap<T>>)
    ensures r.Success? <==> DistinctForms(constants, stringForm)
    ensures r.Failure? ==> r.error == IllegalArgument
    ensures r.Success? ==> r.value.entries == FormMap(constants, stringForm)
  {
    var builder: map<string, T> := map[];
    for i := 0 to |constants|
      invariant builder == FormMap(constants[..i], stringForm)
      invariant DistinctForms(constants[..i], stringForm)
    {
      var key := stringForm(constants[i]);
      FormMapKeys(constants[..i], stringForm, key);
      if key in builder {
        var j :| 0 <= j < i && stringForm(constants[..i][j]) == key;
        assert constants[..i][j] == constants[j];
        return Failure(IllegalArgument);
      }
      assert constants[..i + 1][..i] == constants[..i];
      assert forall j | 0 <= j < i :: constants[..i + 1][j] == constants[..i][j];
      builder := builder[key := constants[i]];
    }
    assert constants[..|constants|] == constants;
    return Success(StringEnumMap(builder));
  }

  /** Round trip: every constant with a non-empty, distinct form is found again from that form. */
  lemma RoundTrip<T>(m: StringEnumMap<T>, constants: seq<T>, stringForm: T -> string, k: nat)
    requires m.entries == FormMap(constants, stringForm)
    requires DistinctForms(constants, stringForm)
    requires k < |constants| && stringForm(constants[k]) != []
    ensures m.GetEnum(Some(stringForm(constants[k]))) == Success(constants[k])
  {
    FormMapAt(constants, stringForm, k);
  }

  /** enumExists holds exactly of the string forms of the constants. */
  lemma EnumExistsIff<T>(m: StringEnumMap<T>, constants: seq<T>, stringForm: T -> string, s: string)
    requires m.entries == FormMap(constants, stringForm)
    ensures m.EnumExists(s) <==> exists i :: 0 <= i < |constants| && stringForm(constants[i]) == s
  {
    FormMapKeys(constants, stringForm, s);
  }
}
