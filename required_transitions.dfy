/**
 * RequiredTransitionApplier: forced transitions the contextless parser
 * applies to candidate parses. A rule has a condition, a source state and a
 * non-empty list of steps; when the condition holds on a container and the
 * container sits in the source state, the steps are applied in order through
 * the suffix applier. A step whose form does not fit drops the candidate; a
 * step whose suffix is not allowed at all is an IllegalStateException.
 */
module RequiredTransitionApplier {
  import opened Results
  import opened Model
  import opened Morphotactics
  import opened SuffixFormSpecifications

  datatype RequiredTransitionRuleStep = RequiredTransitionRuleStep(suffixForm: SuffixForm, targetState: SuffixGraphState)

  datatype RequiredTransitionRule = RequiredTransitionRule(
    condition: Condition,
    sourceState: SuffixGraphState,
    steps: seq<RequiredTransitionRuleStep>)

  // ---------------------------------------------------------------------------
  // Building rules
  // ---------------------------------------------------------------------------

  /**
   * RequiredTransitionRuleBuilder.step's lookups: the suffix form and the
   * target state must both resolve, else Validate.notNull fails.
   */
  function ResolvedStep(suffixGraph: SuffixGraph, suffixName: string, suffixFormStr: string, targetStateName: string)
    : (r: Result<RequiredTransitionRuleStep>)
    ensures r.Success? <==>
      suffixGraph.getSuffixForm(suffixName, suffixFormStr).Some? && suffixGraph.getSuffixGraphState(targetStateName).Some?
    ensures r.Failure? ==> r.error == NullPointer
    ensures r.Success? ==>
      Some(r.value.suffixForm) == suffixGraph.getSuffixForm(suffixName, suffixFormStr)
      && Some(r.value.targetState) == suffixGraph.getSuffixGraphState(targetStateName)
  {
    var suffixForm := suffixGraph.getSuffixForm(suffixName, suffixFormStr);
    var targetState := suffixGraph.getSuffixGraphState(targetStateName);
    if suffixForm.None? || targetState.None? then Failure(NullPointer)
    else Success(RequiredTransitionRuleStep(suffixForm.value, targetState.value))
  }

  /**
   * RequiredTransitionRuleBuilder.build together with RequiredTransitionRule's
   * constructor: a source state, a condition and at least one step.
   */
  function BuiltRule(condition: Option<Condition>, sourceState: Option<SuffixGraphState>, steps: seq<RequiredTransitionRuleStep>)
    : (r: Result<RequiredTransitionRule>)
    ensures r.Success? <==> sourceState.Some? && condition.Some? && |steps| > 0
    ensures r.Failure? ==> (r.error == NullPointer <==> (sourceState.None? || condition.None?))
    ensures r.Failure? ==> (r.error == IllegalArgument <==> (sourceState.Some? && condition.Some?))
    ensures r.Success? ==>
      Some(r.value.condition) == condition && Some(r.value.sourceState) == sourceState && r.value.steps == steps
  {
    if sourceState.None? then Failure(NullPointer)
    else if condition.None? then Failure(NullPointer)
    else if |steps| == 0 then Failure(IllegalArgument)
    else Success(RequiredTransitionRule(condition.value, sourceState.value, steps))
  }

  /** The condition of the one rule createRules installs: a VERB root with ProgressiveVowelDrop. */
  const ProgressiveVowelDropCondition: Condition :=
    And(HasSyntacticCategory(RootHasSyntacticCategory(VERB)), HasProgressiveVowelDrop)

  /**
   * The rule createRules builds: from VERB_ROOT, Pos "" to
   * VERB_WITH_POLARITY and then Prog "Iyor" to VERB_WITH_TENSE. Every name
   * must resolve in the suffix graph.
   */
  function ProgressiveVowelDropRule(suffixGraph: SuffixGraph): (r: Result<RequiredTransitionRule>)
    ensures r.Success? <==>
      suffixGraph.getSuffixGraphState("VERB_ROOT").Some?
      && suffixGraph.getSuffixForm("Pos", "").Some? && suffixGraph.getSuffixGraphState("VERB_WITH_POLARITY").Some?
      && suffixGraph.getSuffixForm("Prog", "Iyor").Some? && suffixGraph.getSuffixGraphState("VERB_WITH_TENSE").Some?
    ensures r.Failure? ==> r.error == NullPointer
    ensures r.Success? ==>
      r.value.condition == ProgressiveVowelDropCondition
      && Some(r.value.sourceState) == suffixGraph.getSuffixGraphState("VERB_ROOT")
      && |r.value.steps| == 2
      && Some(r.value.steps[0].suffixForm) == suffixGraph.getSuffixForm("Pos", "")
      && Some(r.value.steps[0].targetState) == suffixGraph.getSuffixGraphState("VERB_WITH_POLARITY")
      && Some(r.value.steps[1].suffixForm) == suffixGraph.getSuffixForm("Prog", "Iyor")
      && Some(r.value.steps[1].targetState) == suffixGraph.getSuffixGraphState("VERB_WITH_TENSE")
  {
    var sourceState := suffixGraph.getSuffixGraphState("VERB_ROOT");
    if sourceState.None? then Failure(NullPointer)
    else
      var positive := ResolvedStep(suffixGraph, "Pos", "", "VERB_WITH_POLARITY");
      if positive.Failure? then Failure(positive.error)
      else
        var progressive := ResolvedStep(suffixGraph, "Prog", "Iyor", "VERB_WITH_TENSE");
        if progressive.Failure? then Failure(progressive.error)
        else BuiltRule(Some(ProgressiveVowelDropCondition), sourceState, [positive.value, progressive.value])
  }

  // ---------------------------------------------------------------------------
  // Applying rules
  // ---------------------------------------------------------------------------

  /** A rule fires on a container when its condition holds and the container is in the rule's source state. */
  predicate Fires(rule: RequiredTransitionRule, mc: MorphemeContainer) {
    Holds(rule.condition, mc) && rule.sourceState == mc.lastState
  }

  /** applyRequiredTransitionRuleStepToMorphemeContainer: a disallowed suffix is an error, a form that does not fit a veto (None). */
  function ApplyStep(applier: SuffixApplier, mc: MorphemeContainer, step: RequiredTransitionRuleStep, input: string)
    : (r: Result<Option<MorphemeContainer>>)
    ensures r.Failure? <==> !applier.transitionAllowedForSuffix(mc, step.suffixForm.suffix)
    ensures r.Failure? ==> r.error == IllegalState
    ensures r.Success? ==> r.value == applier.trySuffixForm(mc, step.suffixForm, step.targetState, input)
  {
    if !applier.transitionAllowedForSuffix(mc, step.suffixForm.suffix) then Failure(IllegalState)
    else Success(applier.trySuffixForm(mc, step.suffixForm, step.targetState, input))
  }

  /** A fired rule's steps, each on the previous step's result; the first veto stops the walk. */
  function ApplySteps(applier: SuffixApplier, mc: MorphemeContainer, steps: seq<RequiredTransitionRuleStep>, input: string)
    : (r: Result<Option<MorphemeContainer>>)
    ensures r.Failure? ==> r.error == IllegalState
    ensures steps == [] ==> r == Success(Some(mc))
    decreases |steps|
  {
    if steps == [] then Success(Some(mc))
    else
      var first := ApplyStep(applier, mc, steps[0], input);
      if first.Failure? then Failure(first.error)
      else if first.value.None? then Success(None)
      else ApplySteps(applier, first.value.value, steps[1..], input)
  }

  /**
   * The rule loop of applyRequiredTransitionsToMorphemeContainers for one
   * container: the rules are walked once, in order, each checked against the
   * container as the earlier rules left it; a veto ends the walk.
   */
  function ApplyRules(applier: SuffixApplier, rules: seq<RequiredTransitionRule>, mc: MorphemeContainer, input: string)
    : (r: Result<Option<MorphemeContainer>>)
    ensures r.Failure? ==> r.error == IllegalState
    ensures (forall j | 0 <= j < |rules| :: !Fires(rules[j], mc)) ==> r == Success(Some(mc))
    decreases |rules|
  {
    if rules == [] then Success(Some(mc))
    else if !Fires(rules[0], mc) then
      assert forall j | 0 <= j < |rules| - 1 :: rules[1..][j] == rules[j + 1];
      ApplyRules(applier, rules[1..], mc, input)
    else
      var fired := ApplySteps(applier, mc, rules[0].steps, input);
      if fired.Failure? then Failure(fired.error)
      else if fired.value.None? then Success(None)
      else ApplyRules(applier, rules[1..], fired.value.value, input)
  }

  /** The containers an optional result contributes to the output: none for a veto. */
  function Kept(o: Option<MorphemeContainer>): (r: seq<MorphemeContainer>)
    ensures |r| <= 1
    ensures o.None? <==> r == []
    ensures o.Some? ==> r[0] == o.value
  {
    if o.Some? then [o.value] else []
  }

  /** Two outcomes of the container loop run one after the other: the first exception wins, otherwise the outputs are concatenated. */
  function Join(a: Result<seq<MorphemeContainer>>, b: Result<seq<MorphemeContainer>>): (r: Result<seq<MorphemeContainer>>)
    ensures r.Success? <==> a.Success? && b.Success?
    ensures a.Failure? ==> r == a
    ensures a.Success? && b.Failure? ==> r == b
    ensures a == Success([]) ==> r == b
    ensures r.Success? ==> r.value == a.value + b.value
  {
    if a.Failure? then a
    else if b.Failure? then b
    else
      assert a.value == [] ==> a.value + b.value == b.value;
      Success(a.value + b.value)
  }

  /** Joining is associative: how the outcomes are grouped does not matter. */
  lemma JoinAssociates(a: Result<seq<MorphemeContainer>>, b: Result<seq<MorphemeContainer>>, c: Result<seq<MorphemeContainer>>)
    ensures Join(a, Join(b, c)) == Join(Join(a, b), c)
  {
    if a.Success? && b.Success? && c.Success? {
      assert a.value + (b.value + c.value) == (a.value + b.value) + c.value;
    }
  }

  /**
   * applyRequiredTransitionsToMorphemeContainers: every container through the
   * rule loop, in order; vetoed containers are left out.
   */
  function ApplyToAll(applier: SuffixApplier, rules: seq<RequiredTransitionRule>, mcs: seq<MorphemeContainer>, input: string)
    : (r: Result<seq<MorphemeContainer>>)
    ensures r.Success? <==> forall i | 0 <= i < |mcs| :: ApplyRules(applier, rules, mcs[i], input).Success?
    ensures r.Failure? ==> r.error == IllegalState
    ensures r.Success? ==> |r.value| <= |mcs|
    decreases |mcs|
  {
    if mcs == [] then Success([])
    else
      var head := ApplyRules(applier, rules, mcs[0], input);
      assert forall i | 1 <= i < |mcs| :: mcs[1..][i - 1] == mcs[i];
      if head.Failure? then Failure(head.error)
      else Join(Success(Kept(head.value)), ApplyToAll(applier, rules, mcs[1..], input))
  }

  // ---------------------------------------------------------------------------
  // Properties of the engine
  // ---------------------------------------------------------------------------

  /** Steps compose: running s1 + s2 is running s1 and then s2 on its result. */
  lemma {:induction false} ApplyStepsConcat(
    applier: SuffixApplier, mc: MorphemeContainer, s1: seq<RequiredTransitionRuleStep>, s2: seq<RequiredTransitionRuleStep>, input: string)
    ensures ApplySteps(applier, mc, s1 + s2, input) ==
      (var a := ApplySteps(applier, mc, s1, input);
       if a.Failure? || a.value.None? then a else ApplySteps(applier, a.value.value, s2, input))
    decreases |s1|
  {
    if s1 == [] {
      assert s1 + s2 == s2;
    } else {
      assert (s1 + s2)[0] == s1[0];
      assert (s1 + s2)[1..] == s1[1..] + s2;
      var first := ApplyStep(applier, mc, s1[0], input);
      if first.Success? && first.value.Some? {
        ApplyStepsConcat(applier, first.value.value, s1[1..], s2, input);
      }
    }
  }

  /** A veto is final: once a step drops the container, no later step is applied. */
  lemma VetoDropsContainer(
    applier: SuffixApplier, mc: MorphemeContainer, steps: seq<RequiredTransitionRuleStep>, more: seq<RequiredTransitionRuleStep>, input: string)
    requires ApplySteps(applier, mc, steps, input) == Success(None)
    ensures ApplySteps(applier, mc, steps + more, input) == Success(None)
  {
    ApplyStepsConcat(applier, mc, steps, more, input);
  }

  /**
   * The rule list is walked once: running r1 + r2 is running r1 and then r2
   * on the container r1 produced; a container dropped by r1 meets no rule of r2.
   */
  lemma {:induction false} ApplyRulesConcat(
    applier: SuffixApplier, r1: seq<RequiredTransitionRule>, r2: seq<RequiredTransitionRule>, mc: MorphemeContainer, input: string)
    ensures ApplyRules(applier, r1 + r2, mc, input) ==
      (var a := ApplyRules(applier, r1, mc, input);
       if a.Failure? || a.value.None? then a else ApplyRules(applier, r2, a.value.value, input))
    decreases |r1|
  {
    if r1 == [] {
      assert r1 + r2 == r2;
    } else {
      assert (r1 + r2)[0] == r1[0];
      assert (r1 + r2)[1..] == r1[1..] + r2;
      if !Fires(r1[0], mc) {
        ApplyRulesConcat(applier, r1[1..], r2, mc, input);
      } else {
        var fired := ApplySteps(applier, mc, r1[0].steps, input);
        if fired.Success? && fired.value.Some? {
          ApplyRulesConcat(applier, r1[1..], r2, fired.value.value, input);
        }
      }
    }
  }

  /** With no rule firing on any container, the output is the input, unchanged and in order. */
  lemma {:induction false} NoRuleFiresKeepsAll(
    applier: SuffixApplier, rules: seq<RequiredTransitionRule>, mcs: seq<MorphemeContainer>, input: string)
    requires forall i, j | 0 <= i < |mcs| && 0 <= j < |rules| :: !Fires(rules[j], mcs[i])
    ensures ApplyToAll(applier, rules, mcs, input) == Success(mcs)
    decreases |mcs|
  {
    if mcs != [] {
      assert forall j | 0 <= j < |rules| :: !Fires(rules[j], mcs[0]);
      assert forall i | 1 <= i < |mcs| :: mcs[1..][i - 1] == mcs[i];
      NoRuleFiresKeepsAll(applier, rules, mcs[1..], input);
      assert [mcs[0]] + mcs[1..] == mcs;
    }
  }

  /**
   * The container loop is a homomorphism over concatenation: the output for
   * xs + ys is the output for xs followed by the output for ys, which is
   * what keeping the input order means.
   */
  lemma {:induction false} ApplyToAllConcat(
    applier: SuffixApplier, rules: seq<RequiredTransitionRule>, xs: seq<MorphemeContainer>, ys: seq<MorphemeContainer>, input: string)
    ensures ApplyToAll(applier, rules, xs + ys, input) ==
      Join(ApplyToAll(applier, rules, xs, input), ApplyToAll(applier, rules, ys, input))
    decreases |xs|
  {
    if xs == [] {
      assert xs + ys == ys;
    } else {
      assert (xs + ys)[0] == xs[0];
      assert (xs + ys)[1..] == xs[1..] + ys;
      ApplyToAllConcat(applier, rules, xs[1..], ys, input);
      var head := ApplyRules(applier, rules, xs[0], input);
      if head.Success? {
        var k := Kept(head.value);
        var a := ApplyToAll(applier, rules, xs[1..], input);
        var b := ApplyToAll(applier, rules, ys, input);
        assert ApplyToAll(applier, rules, xs + ys, input) == Join(Success(k), Join(a, b));
        assert ApplyToAll(applier, rules, xs, input) == Join(Success(k), a);
        JoinAssociates(Success(k), a, b);
      }
    }
  }

  /** One container: its rule-loop result, or nothing when it was vetoed. */
  lemma ApplyToAllSingleton(applier: SuffixApplier, rules: seq<RequiredTransitionRule>, mc: MorphemeContainer, input: string)
    ensures ApplyRules(applier, rules, mc, input).Success? ==>
      ApplyToAll(applier, rules, [mc], input) == Success(Kept(ApplyRules(applier, rules, mc, input).value))
  {
    assert [mc][1..] == [];
    var head := ApplyRules(applier, rules, mc, input);
    if head.Success? {
      assert Kept(head.value) + [] == Kept(head.value);
    }
  }

  /** Every container in the output is the rule-loop result of some input container. */
  lemma {:induction false} OutputComesFromInput(
    applier: SuffixApplier, rules: seq<RequiredTransitionRule>, mcs: seq<MorphemeContainer>, input: string, k: nat)
    requires ApplyToAll(applier, rules, mcs, input).Success?
    requires k < |ApplyToAll(applier, rules, mcs, input).value|
    ensures exists i | 0 <= i < |mcs| ::
      ApplyRules(applier, rules, mcs[i], input) == Success(Some(ApplyToAll(applier, rules, mcs, input).value[k]))
    decreases |mcs|
  {
    var out := ApplyToAll(applier, rules, mcs, input).value;
    var head := ApplyRules(applier, rules, mcs[0], input);
    var tail := ApplyToAll(applier, rules, mcs[1..], input);
    assert out == Kept(head.value) + tail.value;
    if k < |Kept(head.value)| {
      assert out[k] == head.value.value;
    } else {
      var k' := k - |Kept(head.value)|;
      assert out[k] == tail.value[k'];
      OutputComesFromInput(applier, rules, mcs[1..], input, k');
      var i' :| 0 <= i' < |mcs[1..]| && ApplyRules(applier, rules, mcs[1..][i'], input) == Success(Some(tail.value[k']));
      assert mcs[1..][i'] == mcs[i' + 1];
    }
  }

  /** The installed rule fires exactly on VERB roots with ProgressiveVowelDrop that sit in VERB_ROOT. */
  lemma InstalledRuleFiresOnProgressiveVowelDropVerbs(suffixGraph: SuffixGraph, mc: MorphemeContainer)
    requires ProgressiveVowelDropRule(suffixGraph).Success?
    ensures Fires(ProgressiveVowelDropRule(suffixGraph).value, mc) <==>
      mc.root.lexeme.syntacticCategory == VERB
      && ProgressiveVowelDrop in mc.root.lexeme.attributes
      && Some(mc.lastState) == suffixGraph.getSuffixGraphState("VERB_ROOT")
  {
    var rule := ProgressiveVowelDropRule(suffixGraph).value;
    assert Holds(rule.condition, mc) <==>
      Holds(HasSyntacticCategory(RootHasSyntacticCategory(VERB)), mc) && Holds(HasProgressiveVowelDrop, mc);
  }

  /**
   * On a container it fires on, the installed rule applies Pos and then Prog;
   * the result is trySuffixForm's, each step on the one before.
   */
  lemma {:induction false} InstalledRuleAppliesPositiveThenProgressive(
    suffixGraph: SuffixGraph, applier: SuffixApplier, mc: MorphemeContainer, input: string)
    requires ProgressiveVowelDropRule(suffixGraph).Success?
    ensures var rule := ProgressiveVowelDropRule(suffixGraph).value;
      var positive := ApplyStep(applier, mc, rule.steps[0], input);
      ApplySteps(applier, mc, rule.steps, input) ==
        if positive.Failure? || positive.value.None? then positive
        else ApplyStep(applier, positive.value.value, rule.steps[1], input)
  {
    var rule := ProgressiveVowelDropRule(suffixGraph).value;
    var positive := ApplyStep(applier, mc, rule.steps[0], input);
    assert rule.steps[1..] == [rule.steps[1]];
    if positive.Success? && positive.value.Some? {
      var next := ApplyStep(applier, positive.value.value, rule.steps[1], input);
      assert [rule.steps[1]][1..] == [];
      if next.Success? && next.value.Some? {
        assert ApplySteps(applier, next.value.value, [], input) == Success(Some(next.value.value));
      }
    }
  }

  // ---------------------------------------------------------------------------
  // The builder and the applier
  // ---------------------------------------------------------------------------

  /** RequiredTransitionRuleBuilder: the fields the fluent setters fill in before build(). */
  class RequiredTransitionRuleBuilder {
    const suffixGraph: SuffixGraph
    var condition: Option<Condition>
    var sourceState: Option<SuffixGraphState>
    var steps: seq<RequiredTransitionRuleStep>

    constructor(suffixGraph: SuffixGraph)
      ensures this.suffixGraph == suffixGraph
      ensures condition == None && sourceState == None && steps == []
    {
      this.suffixGraph := suffixGraph;
      condition := None;
      sourceState := None;
      steps := [];
    }

    /** condition(...). */
    method SetCondition(c: Condition)
      modifies this
      ensures condition == Some(c)
      ensures sourceState == old(sourceState) && steps == old(steps)
    {
      condition := Some(c);
    }

    /** sourceState(name): the field takes the lookup's answer, and an unknown name is a NullPointerException. */
    method SetSourceState(sourceStateName: string) returns (o: Outcome)
      modifies this
      ensures sourceState == suffixGraph.getSuffixGraphState(sourceStateName)
      ensures o == (if sourceState.None? then Fail(NullPointer) else Pass)
      ensures condition == old(condition) && steps == old(steps)
    {
      sourceState := suffixGraph.getSuffixGraphState(sourceStateName);
      if sourceState.None? {
        return Fail(NullPointer);
      }
      return Pass;
    }

    /** step(suffixName, suffixFormStr, targetStateName): appends a resolved step, or fails and appends nothing. */
    method AddStep(suffixName: string, suffixFormStr: string, targetStateName: string) returns (o: Outcome)
      modifies this
      ensures var s := ResolvedStep(suffixGraph, suffixName, suffixFormStr, targetStateName);
        o == (if s.Success? then Pass else Fail(s.error))
        && steps == (if s.Success? then old(steps) + [s.value] else old(steps))
      ensures condition == old(condition) && sourceState == old(sourceState)
    {
      var suffixForm := suffixGraph.getSuffixForm(suffixName, suffixFormStr);
      var targetState := suffixGraph.getSuffixGraphState(targetStateName);
      if suffixForm.None? || targetState.None? {
        return Fail(NullPointer);
      }
      steps := steps + [RequiredTransitionRuleStep(suffixForm.value, targetState.value)];
      return Pass;
    }

    /** build(). */
    method Build() returns (r: Result<RequiredTransitionRule>)
      ensures r == BuiltRule(condition, sourceState, steps)
    {
      if sourceState.None? {
        return Failure(NullPointer);
      }
      if condition.None? {
        return Failure(NullPointer);
      }
      if |steps| == 0 {
        return Failure(IllegalArgument);
      }
      return Success(RequiredTransitionRule(condition.value, sourceState.value, steps));
    }
  }

  class RequiredTransitionApplier {
    const suffixGraph: SuffixGraph
    const suffixApplier: SuffixApplier
    var requiredTransitionRules: seq<RequiredTransitionRule>

    /** The fields, before createRules has run. */
    constructor(suffixGraph: SuffixGraph, suffixApplier: SuffixApplier)
      ensures this.suffixGraph == suffixGraph && this.suffixApplier == suffixApplier
      ensures requiredTransitionRules == []
    {
      this.suffixGraph := suffixGraph;
      this.suffixApplier := suffixApplier;
      requiredTransitionRules := [];
    }

    /** The Java constructor: the fields and then createRules, whose exception escapes. */
    static method Create(suffixGraph: SuffixGraph, suffixApplier: SuffixApplier) returns (r: Result<RequiredTransitionApplier>)
      ensures r.Success? <==> ProgressiveVowelDropRule(suffixGraph).Success?
      ensures r.Failure? ==> r.error == NullPointer
      ensures r.Success? ==>
        fresh(r.value) && r.value.suffixGraph == suffixGraph && r.value.suffixApplier == suffixApplier
        && r.value.requiredTransitionRules == [ProgressiveVowelDropRule(suffixGraph).value]
    {
      var applier := new RequiredTransitionApplier(suffixGraph, suffixApplier);
      var o := applier.CreateRules();
      if o.Fail? {
        return Failure(o.error);
      }
      return Success(applier);
    }

    /** createRules: builds the ProgressiveVowelDrop rule and appends it; an exception leaves the list as it was. */
    method CreateRules() returns (o: Outcome)
      modifies this
      ensures var rule := ProgressiveVowelDropRule(suffixGraph);
        o == (if rule.Success? then Pass else Fail(rule.error))
        && requiredTransitionRules == (if rule.Success? then old(requiredTransitionRules) + [rule.value] else old(requiredTransitionRules))
    {
      var builder := new RequiredTransitionRuleBuilder(suffixGraph);
      builder.SetCondition(ProgressiveVowelDropCondition);
      o := builder.SetSourceState("VERB_ROOT");
      if o.Fail? {
        return;
      }
      o := builder.AddStep("Pos", "", "VERB_WITH_POLARITY");
      if o.Fail? {
        return;
      }
      o := builder.AddStep("Prog", "Iyor", "VERB_WITH_TENSE");
      if o.Fail? {
        return;
      }
      var rule := builder.Build();
      ghost var positive := ResolvedStep(suffixGraph, "Pos", "", "VERB_WITH_POLARITY");
      ghost var progressive := ResolvedStep(suffixGraph, "Prog", "Iyor", "VERB_WITH_TENSE");
      assert builder.steps == [positive.value, progressive.value];
      assert rule.Success?;
      requiredTransitionRules := requiredTransitionRules + [rule.value];
    }

    /** applyRequiredTransitionRuleStepToMorphemeContainer. */
    method ApplyRequiredTransitionRuleStep(mc: MorphemeContainer, step: RequiredTransitionRuleStep, input: string)
      returns (r: Result<Option<MorphemeContainer>>)
      ensures r == ApplyStep(suffixApplier, mc, step, input)
    {
      var suffixForm := step.suffixForm;
      var suffix := suffixForm.suffix;
      if !suffixApplier.transitionAllowedForSuffix(mc, suffix) {
        return Failure(IllegalState);
      }
      var next := suffixApplier.trySuffixForm(mc, suffixForm, step.targetState, input);
      if next.None? {
        return Success(None);
      }
      return Success(next);
    }

    /** The step loop of one fired rule: each step on the previous result, breaking at the first veto. */
    method ApplyRequiredTransitionRuleSteps(mc: MorphemeContainer, steps: seq<RequiredTransitionRuleStep>, input: string)
      returns (r: Result<Option<MorphemeContainer>>)
      ensures r == ApplySteps(suffixApplier, mc, steps, input)
    {
      var current := mc;
      var k := 0;
      while k < |steps|
        invariant 0 <= k <= |steps|
        invariant ApplySteps(suffixApplier, mc, steps, input) == ApplySteps(suffixApplier, current, steps[k..], input)
      {
        assert steps[k..][0] == steps[k] && steps[k..][1..] == steps[k + 1..];
        var next := ApplyRequiredTransitionRuleStep(current, steps[k], input);
        if next.Failure? {
          return Failure(next.error);
        }
        if next.value.None? {
          return Success(None);
        }
        current := next.value.value;
        k := k + 1;
      }
      return Success(Some(current));
    }

    /** The rule loop for one container: rules that do not fire are skipped; a veto breaks out. */
    method ApplyRequiredTransitionRules(mc: MorphemeContainer, input: string) returns (r: Result<Option<MorphemeContainer>>)
      ensures r == ApplyRules(suffixApplier, requiredTransitionRules, mc, input)
    {
      var current := mc;
      var j := 0;
      while j < |requiredTransitionRules|
        invariant 0 <= j <= |requiredTransitionRules|
        invariant ApplyRules(suffixApplier, requiredTransitionRules, mc, input)
          == ApplyRules(suffixApplier, requiredTransitionRules[j..], current, input)
      {
        var rules := requiredTransitionRules[j..];
        assert rules[0] == requiredTransitionRules[j] && rules[1..] == requiredTransitionRules[j + 1..];
        var rule := requiredTransitionRules[j];
        if !Holds(rule.condition, current) || rule.sourceState != current.lastState {
          j := j + 1;
          continue;
        }
        var fired := ApplyRequiredTransitionRuleSteps(current, rule.steps, input);
        if fired.Failure? {
          return Failure(fired.error);
        }
        if fired.value.None? {
          return Success(None);
        }
        current := fired.value.value;
        j := j + 1;
      }
      return Success(Some(current));
    }

    /** applyRequiredTransitionsToMorphemeContainers: the surviving containers, in input order. */
    method ApplyRequiredTransitionsToMorphemeContainers(morphemeContainers: seq<MorphemeContainer>, input: string)
      returns (r: Result<seq<MorphemeContainer>>)
      ensures r == ApplyToAll(suffixApplier, requiredTransitionRules, morphemeContainers, input)
    {
      var newMorphemeContainers: seq<MorphemeContainer> := [];
      var i := 0;
      while i < |morphemeContainers|
        invariant 0 <= i <= |morphemeContainers|
        invariant ApplyToAll(suffixApplier, requiredTransitionRules, morphemeContainers, input)
          == Join(Success(newMorphemeContainers), ApplyToAll(suffixApplier, requiredTransitionRules, morphemeContainers[i..], input))
      {
        var rest := morphemeContainers[i..];
        assert rest[0] == morphemeContainers[i] && rest[1..] == morphemeContainers[i + 1..];
        var newMorphemeContainer := ApplyRequiredTransitionRules(morphemeContainers[i], input);
        if newMorphemeContainer.Failure? {
          return Failure(newMorphemeContainer.error);
        }
        ghost var tail := ApplyToAll(suffixApplier, requiredTransitionRules, morphemeContainers[i + 1..], input);
        ghost var kept := Kept(newMorphemeContainer.value);
        assert ApplyToAll(suffixApplier, requiredTransitionRules, rest, input) == Join(Success(kept), tail);
        JoinAssociates(Success(newMorphemeContainers), Success(kept), tail);
        assert newMorphemeContainer.value.None? ==> newMorphemeContainers + kept == newMorphemeContainers;
        if newMorphemeContainer.value.Some? {
          newMorphemeContainers := newMorphemeContainers + [newMorphemeContainer.value.value];
        }
        i := i + 1;
      }
      assert morphemeContainers[i..] == [];
      assert newMorphemeContainers + [] == newMorphemeContainers;
      return Success(newMorphemeContainers);
    }
  }
}
