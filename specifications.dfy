/**
 * Suffix-form specifications: predicates over morpheme containers that
 * decide whether a rule applies. RootHasSyntacticCategory compares the
 * category of the container's root lexeme with a category fixed at
 * construction; conditions combine such predicates.
 */
module SuffixFormSpecifications {
  import opened Results
  import opened Model
  import opened Morphotactics

  /** The literal text describe() wraps around the category name. */
  const DescribePrefix: string := "root_has_syntactic_category("

  /** RootHasSyntacticCategory: one final field, so a value. */
  datatype RootHasSyntacticCategory = RootHasSyntacticCategory(syntacticCategory: SyntacticCategory) {

    /** describe(): "root_has_syntactic_category(<category>)". */
    function Describe(): (d: string)
      ensures |d| == |DescribePrefix| + |syntacticCategory.Name()| + 1
      ensures d[..|DescribePrefix|] == DescribePrefix
      ensures d[|DescribePrefix|..|d| - 1] == syntacticCategory.Name()
      ensures d[|d| - 1] == ')'
    {
      var d := DescribePrefix + syntacticCategory.Name() + ")";
      assert d[|DescribePrefix|..|d| - 1] == syntacticCategory.Name();
      d
    }

    /** isSatisfiedBy: a null container is rejected (Validate.notNull); otherwise the categories are compared. */
    function IsSatisfiedBy(morphemeContainer: Option<MorphemeContainer>): (r: Result<bool>)
      ensures morphemeContainer.None? ==> r == Failure(NullPointer)
      ensures morphemeContainer.Some? ==>
        r.Success? && (r.value <==> morphemeContainer.value.root.lexeme.syntacticCategory == syntacticCategory)
    {
      if morphemeContainer.None? then Failure(NullPointer)
      else Success(syntacticCategory == morphemeContainer.value.root.lexeme.syntacticCategory)
    }
  }

  /** No two categories share a name. */
  lemma NamesAreDistinct(a: SyntacticCategory, b: SyntacticCategory)
    ensures a.Name() == b.Name() ==> a == b
  {
  }

  /** describe() tells specifications apart: equal descriptions mean equal categories. */
  lemma DescribeIsInjective(a: RootHasSyntacticCategory, b: RootHasSyntacticCategory)
    ensures a.Describe() == b.Describe() ==> a == b
  {
    if a.Describe() == b.Describe() {
      assert a.syntacticCategory.Name() == b.syntacticCategory.Name();
      NamesAreDistinct(a.syntacticCategory, b.syntacticCategory);
    }
  }

  /** The conditions a required-transition rule can carry: the two root predicates and their conjunction (Specifications.and). */
  datatype Condition =
    | HasSyntacticCategory(spec: RootHasSyntacticCategory)
    /** rootHasProgressiveVowelDrop: the root's lexeme carries ProgressiveVowelDrop. */
    | HasProgressiveVowelDrop
    | And(left: Condition, right: Condition)

  /** Condition.isSatisfiedBy on a container that is present. */
  predicate Holds(c: Condition, mc: MorphemeContainer) {
    match c
    case HasSyntacticCategory(spec) => spec.IsSatisfiedBy(Some(mc)) == Success(true)
    case HasProgressiveVowelDrop => ProgressiveVowelDrop in mc.root.lexeme.attributes
    case And(l, r) => Holds(l, mc) && Holds(r, mc)
  }

  /** A condition reads only the root's lexeme: two containers with the same lexeme agree on every condition. */
  lemma {:induction false} HoldsDependsOnLexemeOnly(c: Condition, x: MorphemeContainer, y: MorphemeContainer)
    requires x.root.lexeme == y.root.lexeme
    ensures Holds(c, x) <==> Holds(c, y)
  {
    match c
    case HasSyntacticCategory(_) =>
    case HasProgressiveVowelDrop =>
    case And(l, r) =>
      HoldsDependsOnLexemeOnly(l, x, y);
      HoldsDependsOnLexemeOnly(r, x, y);
  }
}
