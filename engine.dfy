/** RuleSetValidator: the rule engine. It keeps a mutable set of active rule
    sets and fixed sets of matcher and validator plugins. Validating a
    document visits every active rule set; a rule set whose matcher
    definitions all match the document has its rule definitions applied in
    list order, and the first failure, tagged with its rule set, ends the
    whole validation. */
module Engine {
  import opened Wrappers
  import opened Text
  import opened Json
  import opened Definitions
  import opened Plugins
  import opened RuleSets

  // ---------------------------------------------------------------------------
  // Match phase (ruleSetMatches)
  // ---------------------------------------------------------------------------

  /** Every registered matcher whose target type is exactly the definition's
      class answers true (allMatch: true when there is none). */
  predicate DefinitionMatches(ms: set<Matcher>, read: PathReader, o: Instance, doc: JsonValue)
  {
    forall m | m in ms && ShapeClass(m.TargetType()) == ClassOf(o) :: MatchesObject(m, read, o, doc) == Success(true)
  }

  /** ruleSetMatches: the matcher definitions in list order, returning false
      at the first one that does not match. */
  function RuleSetMatches(ms: set<Matcher>, read: PathReader, defs: seq<Instance>, doc: JsonValue): bool
  {
    if |defs| == 0 then true
    else if !DefinitionMatches(ms, read, defs[0], doc) then false
    else RuleSetMatches(ms, read, defs[1..], doc)
  }

  /** A definition matches unless the matcher of its own shape is registered
      and that shape's check is false; a definition no matcher serves, a plain
      Object or a subclass instance among them, is satisfied. */
  lemma DefinitionMatchesByShape(ms: set<Matcher>, read: PathReader, o: Instance, doc: JsonValue)
    ensures DefinitionMatches(ms, read, o, doc) <==>
      !(o.Exact? && GetMatcher(NativeFor(ShapeOf(o.def))) in ms) ||
      Matches(NativeFor(ShapeOf(o.def)), read, o.def, doc)
  {
    if o.Exact? {
      var c := NativeFor(ShapeOf(o.def));
      ExactDispatchSucceeds(c, read, o, doc);
      forall m | m in ms && ShapeClass(m.TargetType()) == ClassOf(o)
        ensures m == GetMatcher(c)
      {
        NativeForIsInverse(m.delegate);
      }
    }
  }

  /** A rule set matches exactly when every one of its matcher definitions
      does (AND semantics, in any order). */
  lemma {:induction false} RuleSetMatchesAll(ms: set<Matcher>, read: PathReader, defs: seq<Instance>, doc: JsonValue)
    ensures RuleSetMatches(ms, read, defs, doc) <==>
      forall i | 0 <= i < |defs| :: DefinitionMatches(ms, read, defs[i], doc)
  {
    if |defs| > 0 {
      RuleSetMatchesAll(ms, read, defs[1..], doc);
      assert forall i | 0 < i < |defs| :: defs[1..][i - 1] == defs[i];
    }
  }

  /** Concatenating matcher lists conjoins their verdicts. */
  lemma RuleSetMatchesAppend(ms: set<Matcher>, read: PathReader, a: seq<Instance>, b: seq<Instance>, doc: JsonValue)
    ensures RuleSetMatches(ms, read, a + b, doc) <==> RuleSetMatches(ms, read, a, doc) && RuleSetMatches(ms, read, b, doc)
  {
    RuleSetMatchesAll(ms, read, a + b, doc);
    RuleSetMatchesAll(ms, read, a, doc);
    RuleSetMatchesAll(ms, read, b, doc);
    assert forall i | 0 <= i < |a| :: (a + b)[i] == a[i];
    assert forall i | 0 <= i < |b| :: (a + b)[|a| + i] == b[i];
  }

  /** A rule set none of whose matcher definitions is served by a registered
      matcher, in particular one with no matcher definitions, applies to
      every document. */
  lemma UnservedMatchersMatchEverything(ms: set<Matcher>, read: PathReader, defs: seq<Instance>, doc: JsonValue)
    requires forall i, m | 0 <= i < |defs| && m in ms :: ShapeClass(m.TargetType()) != ClassOf(defs[i])
    ensures RuleSetMatches(ms, read, defs, doc)
  {
    RuleSetMatchesAll(ms, read, defs, doc);
  }

  // ---------------------------------------------------------------------------
  // Validate phase (applyRuleSet)
  // ---------------------------------------------------------------------------

  /** The validators registered for exactly the class of `o`. */
  function ValidatorsFor(vs: set<Validator>, o: Instance): set<Validator>
  {
    set v | v in vs && ShapeClass(v.DefinitionType()) == ClassOf(o)
  }

  /** The outcome of running one rule definition through the validators of
      its class. Those are at most the validator of the definition's own
      shape (ValidatorsForClass), which applyObject lets through. */
  function ApplyInstance(vs: set<Validator>, read: PathReader, o: Instance, doc: JsonValue): Outcome
  {
    if o.Exact? && GetValidator(NativeFor(ShapeOf(o.def))) in vs then
      ExactDispatchSucceeds(NativeFor(ShapeOf(o.def)), read, o, doc);
      ApplyObject(GetValidator(NativeFor(ShapeOf(o.def))), read, o, doc).value
    else
      Pass
  }

  /** A rule definition fails exactly when the validator of its shape is
      registered and the shape's check is false, with that check's message;
      a definition without a validator is skipped. */
  lemma ApplyInstanceByShape(vs: set<Validator>, read: PathReader, o: Instance, doc: JsonValue)
    ensures ApplyInstance(vs, read, o, doc).Fail? <==>
      o.Exact? && GetValidator(NativeFor(ShapeOf(o.def))) in vs && !Matches(NativeFor(ShapeOf(o.def)), read, o.def, doc)
    ensures ApplyInstance(vs, read, o, doc).Fail? ==>
      ApplyInstance(vs, read, o, doc).message == FailureMessage(NativeFor(ShapeOf(o.def)), read, o.def, doc)
    ensures ValidatorsFor(vs, o) == {} ==> ApplyInstance(vs, read, o, doc) == Pass
  {
    if o.Exact? && GetValidator(NativeFor(ShapeOf(o.def))) in vs {
      assert GetValidator(NativeFor(ShapeOf(o.def))) in ValidatorsFor(vs, o);
    }
  }

  /** The rule definitions in list order; the first failure is the result. */
  function RulesOutcome(vs: set<Validator>, read: PathReader, rules: seq<Instance>, doc: JsonValue): Outcome
  {
    if |rules| == 0 then Pass
    else if ApplyInstance(vs, read, rules[0], doc).Fail? then ApplyInstance(vs, read, rules[0], doc)
    else RulesOutcome(vs, read, rules[1..], doc)
  }

  /** The rules pass exactly when every rule definition passes; a failure is
      the outcome of some definition all of whose predecessors passed. */
  lemma {:induction false} RulesOutcomeFirstFailure(vs: set<Validator>, read: PathReader, rules: seq<Instance>, doc: JsonValue)
    ensures RulesOutcome(vs, read, rules, doc) == Pass <==>
      forall i | 0 <= i < |rules| :: ApplyInstance(vs, read, rules[i], doc) == Pass
    ensures RulesOutcome(vs, read, rules, doc).Fail? ==>
      exists i | 0 <= i < |rules| :: RulesOutcome(vs, read, rules, doc) == ApplyInstance(vs, read, rules[i], doc) &&
        forall j | 0 <= j < i :: ApplyInstance(vs, read, rules[j], doc) == Pass
  {
    if |rules| > 0 {
      RulesOutcomeFirstFailure(vs, read, rules[1..], doc);
      assert forall i | 0 < i < |rules| :: rules[1..][i - 1] == rules[i];
      if ApplyInstance(vs, read, rules[0], doc).Pass? && RulesOutcome(vs, read, rules, doc).Fail? {
        var k :| 0 <= k < |rules[1..]| && RulesOutcome(vs, read, rules[1..], doc) == ApplyInstance(vs, read, rules[1..][k], doc) &&
          forall j | 0 <= j < k :: ApplyInstance(vs, read, rules[1..][j], doc) == Pass;
        assert forall j | 0 <= j < k + 1 :: ApplyInstance(vs, read, rules[j], doc) == Pass by {
          forall j | 0 <= j < k + 1 ensures ApplyInstance(vs, read, rules[j], doc) == Pass {
            if j > 0 {
              assert rules[j] == rules[1..][j - 1];
            }
          }
        }
        assert RulesOutcome(vs, read, rules, doc) == ApplyInstance(vs, read, rules[k + 1], doc);
      }
    }
  }

  /** Running one list after another is running their concatenation. */
  lemma {:induction false} RulesOutcomeAppend(vs: set<Validator>, read: PathReader, a: seq<Instance>, b: seq<Instance>, doc: JsonValue)
    ensures RulesOutcome(vs, read, a + b, doc) ==
      if RulesOutcome(vs, read, a, doc).Fail? then RulesOutcome(vs, read, a, doc) else RulesOutcome(vs, read, b, doc)
  {
    if |a| > 0 {
      assert (a + b)[1..] == a[1..] + b;
      RulesOutcomeAppend(vs, read, a[1..], b, doc);
    } else {
      assert a + b == b;
    }
  }

  // ---------------------------------------------------------------------------
  // Whole validation (validate)
  // ---------------------------------------------------------------------------

  /** The result of validate: normal return, or a RuleValidationException
      carrying its message and the rule set it was raised for. */
  datatype Verdict = Ok | Violation(message: string, ruleSet: RuleSet)

  /** The result of applying a rule set's rules, tagged with the rule set. */
  function Tagged(out: Outcome, rs: RuleSet): Verdict
  {
    if out.Pass? then Ok else Violation(out.message, rs)
  }

  /** A rule set does not object to the document: it does not match, or all
      its rules pass. */
  predicate RuleSetPasses(ms: set<Matcher>, vs: set<Validator>, read: PathReader, rs: RuleSet, doc: JsonValue)
    reads rs
  {
    !RuleSetMatches(ms, read, rs.matchers, doc) || RulesOutcome(vs, read, rs.rules, doc) == Pass
  }

  /** validate over the rule sets visited in the given order. */
  function EvaluateInOrder(ms: set<Matcher>, vs: set<Validator>, read: PathReader, order: seq<RuleSet>, doc: JsonValue): Verdict
    reads set r | r in order
  {
    if |order| == 0 then Ok
    else if RuleSetMatches(ms, read, order[0].matchers, doc) && RulesOutcome(vs, read, order[0].rules, doc).Fail? then
      Tagged(RulesOutcome(vs, read, order[0].rules, doc), order[0])
    else EvaluateInOrder(ms, vs, read, order[1..], doc)
  }

  /** Visiting more rule sets after a clean run is visiting them alone; a
      violation ends the run. */
  lemma {:induction false} EvaluateAppend(ms: set<Matcher>, vs: set<Validator>, read: PathReader, a: seq<RuleSet>, b: seq<RuleSet>, doc: JsonValue)
    ensures EvaluateInOrder(ms, vs, read, a + b, doc) ==
      if EvaluateInOrder(ms, vs, read, a, doc).Ok? then EvaluateInOrder(ms, vs, read, b, doc) else EvaluateInOrder(ms, vs, read, a, doc)
  {
    if |a| > 0 {
      assert (a + b)[1..] == a[1..] + b;
      EvaluateAppend(ms, vs, read, a[1..], b, doc);
    } else {
      assert a + b == b;
    }
  }

  /** Visiting a single rule set gives its own verdict. */
  lemma EvaluateSingle(ms: set<Matcher>, vs: set<Validator>, read: PathReader, rs: RuleSet, doc: JsonValue)
    ensures EvaluateInOrder(ms, vs, read, [rs], doc) ==
      if RuleSetMatches(ms, read, rs.matchers, doc) then Tagged(RulesOutcome(vs, read, rs.rules, doc), rs) else Ok
  {
    assert [rs][1..] == [];
  }

  /** The validation succeeds exactly when every visited rule set passes;
      which order they are visited in does not matter. */
  lemma {:induction false} EvaluateOkIff(ms: set<Matcher>, vs: set<Validator>, read: PathReader, order: seq<RuleSet>, doc: JsonValue)
    ensures EvaluateInOrder(ms, vs, read, order, doc) == Ok <==>
      forall r | r in order :: RuleSetPasses(ms, vs, read, r, doc)
  {
    if |order| > 0 {
      EvaluateOkIff(ms, vs, read, order[1..], doc);
      assert order == [order[0]] + order[1..];
      assert (forall r | r in order :: RuleSetPasses(ms, vs, read, r, doc)) <==>
        RuleSetPasses(ms, vs, read, order[0], doc) && forall r | r in order[1..] :: RuleSetPasses(ms, vs, read, r, doc);
    }
  }

  /** A violation names a visited rule set that matches the document and
      whose rules fail with exactly that message. */
  lemma {:induction false} EvaluateViolation(ms: set<Matcher>, vs: set<Validator>, read: PathReader, order: seq<RuleSet>, doc: JsonValue)
    requires EvaluateInOrder(ms, vs, read, order, doc).Violation?
    ensures EvaluateInOrder(ms, vs, read, order, doc).ruleSet in order
    ensures RuleSetMatches(ms, read, EvaluateInOrder(ms, vs, read, order, doc).ruleSet.matchers, doc)
    ensures RulesOutcome(vs, read, EvaluateInOrder(ms, vs, read, order, doc).ruleSet.rules, doc)
      == Fail(EvaluateInOrder(ms, vs, read, order, doc).message)
  {
    if !(RuleSetMatches(ms, read, order[0].matchers, doc) && RulesOutcome(vs, read, order[0].rules, doc).Fail?) {
      EvaluateViolation(ms, vs, read, order[1..], doc);
    }
  }

  // ---------------------------------------------------------------------------
  // The engine object
  // ---------------------------------------------------------------------------

  class RuleSetValidator {
    /** The active rule sets, by identity (RuleSet has no equals). */
    var ruleSets: set<RuleSet>
    const matchers: set<Matcher>
    const validators: set<Validator>

    /** Takes its own copies of the plugin sets; no rule set is active. */
    constructor (ms: set<Matcher>, vs: set<Validator>)
      ensures matchers == ms && validators == vs && ruleSets == {}
    {
      matchers := ms;
      validators := vs;
      ruleSets := {};
    }

    /** addRuleSet: activates the instance; adding an active one again changes
        nothing. */
    method AddRuleSet(rs: RuleSet)
      modifies this
      ensures ruleSets == old(ruleSets) + {rs}
    {
      ruleSets := ruleSets + {rs};
    }

    /** removeRuleSet: deactivates exactly that instance; removing an inactive
        one changes nothing. */
    method RemoveRuleSet(rs: RuleSet)
      modifies this
      ensures ruleSets == old(ruleSets) - {rs}
    {
      ruleSets := ruleSets - {rs};
    }

    /** The inner loop of applyRuleSet: the definition goes through each
        validator of exactly its class. */
    method ApplyDefinition(read: PathReader, params: Instance, doc: JsonValue) returns (out: Outcome)
      ensures out == ApplyInstance(validators, read, params, doc)
    {
      var candidates := ValidatorsFor(validators, params);
      ValidatorsForClass(validators, params);
      ghost var all := candidates;
      out := Pass;
      while candidates != {}
        decreases |candidates|
        invariant candidates <= all == ValidatorsFor(validators, params)
        invariant forall v | v in all && v !in candidates :: ApplyInstance(validators, read, params, doc) == Pass && v in validators
      {
        var v :| v in candidates;
        ExactDispatchSucceeds(v.delegate, read, params, doc);
        NativeForIsInverse(v.delegate);
        var applied := ApplyObject(v, read, params, doc).value;
        if applied.Fail? {
          return applied;
        }
        candidates := candidates - {v};
      }
      if params.Exact? && GetValidator(NativeFor(ShapeOf(params.def))) in validators {
        assert GetValidator(NativeFor(ShapeOf(params.def))) in all;
      }
    }

    /** applyRuleSet: the rule definitions in list order; the first failure is
        returned with the rule set attached, and no later definition runs. */
    method ApplyRuleSet(read: PathReader, rs: RuleSet, doc: JsonValue) returns (verdict: Verdict)
      ensures verdict == Tagged(RulesOutcome(validators, read, rs.rules, doc), rs)
    {
      var rules := rs.GetRules();
      var i := 0;
      while i < |rules|
        invariant 0 <= i <= |rules|
        invariant RulesOutcome(validators, read, rules, doc) == RulesOutcome(validators, read, rules[i..], doc)
      {
        var out := ApplyDefinition(read, rules[i], doc);
        if out.Fail? {
          return Violation(out.message, rs);
        }
        assert rules[i..][1..] == rules[i + 1..];
        i := i + 1;
      }
      verdict := Ok;
    }

    /** validate: visits the active rule sets in some order (a HashSet's);
        `order` records the ones visited. The verdict does not depend on the
        order: it is Ok exactly when every active rule set passes, and a
        violation is raised by an active, matching rule set whose rules fail
        with that message. */
    method Validate(read: PathReader, doc: JsonValue) returns (verdict: Verdict, ghost order: seq<RuleSet>)
      ensures verdict == Ok <==> forall r | r in ruleSets :: RuleSetPasses(matchers, validators, read, r, doc)
      ensures verdict.Violation? ==>
        verdict.ruleSet in ruleSets &&
        RuleSetMatches(matchers, read, verdict.ruleSet.matchers, doc) &&
        RulesOutcome(validators, read, verdict.ruleSet.rules, doc) == Fail(verdict.message)
      ensures verdict == EvaluateInOrder(matchers, validators, read, order, doc)
      ensures Distinct(order) && forall r | r in order :: r in ruleSets
      ensures verdict.Ok? ==> forall r | r in ruleSets :: r in order
      ensures verdict.Violation? ==> order[|order| - 1] == verdict.ruleSet
    {
      var remaining := ruleSets;
      order := [];
      while remaining != {}
        decreases |remaining|
        invariant remaining <= ruleSets
        invariant forall r | r in order :: r in ruleSets && r !in remaining
        invariant forall r | r in ruleSets :: r in order || r in remaining
        invariant Distinct(order)
        invariant EvaluateInOrder(matchers, validators, read, order, doc) == Ok
      {
        var rs :| rs in remaining;
        EvaluateAppend(matchers, validators, read, order, [rs], doc);
        EvaluateSingle(matchers, validators, read, rs, doc);
        DistinctSnoc(order, rs);
        if RuleSetMatches(matchers, read, rs.matchers, doc) {
          var v := ApplyRuleSet(read, rs, doc);
          if v.Violation? {
            order := order + [rs];
            EvaluateViolation(matchers, validators, read, order, doc);
            return v, order;
          }
        }
        order := order + [rs];
        remaining := remaining - {rs};
      }
      verdict := Ok;
      EvaluateOkIff(matchers, validators, read, order, doc);
    }
  }

  // ---------------------------------------------------------------------------
  // Registered plugins
  // ---------------------------------------------------------------------------

  /** With the components Spring registers, a FieldNotEquals definition is
      never checked: as a matcher definition it always matches, as a rule
      definition it never fails. */
  lemma RegisteredPluginsSkipFieldNotEquals(read: PathReader, path: Option<string>, v: JsonValue, doc: JsonValue)
    ensures DefinitionMatches(MatchersOf(RegisteredComponents), read, Exact(FieldNotEquals(path, v)), doc)
    ensures ApplyInstance(ValidatorsOf(RegisteredComponents), read, Exact(FieldNotEquals(path, v)), doc) == Pass
  {
    DefinitionMatchesByShape(MatchersOf(RegisteredComponents), read, Exact(FieldNotEquals(path, v)), doc);
  }

  /** A document holding the forbidden value: the registered plugins let a
      field-not-equals rule through, all three components reject it. */
  lemma FieldNotEqualsSkippedExample(read: PathReader, path: Option<string>, v: JsonValue, doc: JsonValue)
    requires read(path, doc) == Some(v) && v != JNull && DeepWellFormed(v)
    ensures ApplyInstance(ValidatorsOf(RegisteredComponents), read, Exact(FieldNotEquals(path, v)), doc) == Pass
    ensures ApplyInstance(ValidatorsOf(AllComponents), read, Exact(FieldNotEquals(path, v)), doc)
      == Fail("Value of " + StringOrNull(path) + " must not be `" + Render(v) + "`")
  {
    PresentValueScenario(read, path, v, doc);
  }

  /** With every built-in component registered, each definition is checked by
      its own shape's component in both phases. */
  lemma AllPluginsCheckEveryDefinition(read: PathReader, d: Definition, doc: JsonValue)
    ensures DefinitionMatches(MatchersOf(AllComponents), read, Exact(d), doc) <==> Matches(NativeFor(ShapeOf(d)), read, d, doc)
    ensures ApplyInstance(ValidatorsOf(AllComponents), read, Exact(d), doc) == Apply(NativeFor(ShapeOf(d)), read, d, doc)
  {
    var c := NativeFor(ShapeOf(d));
    assert c in AllComponents;
    DefinitionMatchesByShape(MatchersOf(AllComponents), read, Exact(d), doc);
    ExactDispatchSucceeds(c, read, Exact(d), doc);
  }

  lemma CheckedByRegisteredPlugins(read: PathReader, m: Instance, r: Instance, doc: JsonValue)
    requires m == Exact(FieldEquals(Some("$.kind"), JString("order")))
    requires r == Exact(FieldNotEmpty(Some("$.id")))
    requires read(Some("$.kind"), doc) == Some(JString("order"))
    requires read(Some("$.id"), doc).None?
    ensures DefinitionMatches(MatchersOf(RegisteredComponents), read, m, doc)
    ensures ApplyInstance(ValidatorsOf(RegisteredComponents), read, r, doc) == Fail("Field must not be empty: $.id")
  {
    KindMatcherMatches(read, m, doc);
    IdRuleFails(read, r, doc);
  }

  lemma KindMatcherMatches(read: PathReader, m: Instance, doc: JsonValue)
    requires m == Exact(FieldEquals(Some("$.kind"), JString("order")))
    requires read(Some("$.kind"), doc) == Some(JString("order"))
    ensures DefinitionMatches(MatchersOf(RegisteredComponents), read, m, doc)
  {
    assert NativeFor(FieldEqualsShape) == FieldEqualsComponent;
    assert ReadJsonPath(read, Some("$.kind"), doc) == Some(JString("order"));
    assert JsonEquals(JString("order"), JString("order"));
    assert Matches(FieldEqualsComponent, read, m.def, doc);
    DefinitionMatchesByShape(MatchersOf(RegisteredComponents), read, m, doc);
  }

  lemma IdRuleFails(read: PathReader, r: Instance, doc: JsonValue)
    requires r == Exact(FieldNotEmpty(Some("$.id")))
    requires read(Some("$.id"), doc).None?
    ensures ApplyInstance(ValidatorsOf(RegisteredComponents), read, r, doc) == Fail("Field must not be empty: $.id")
  {
    assert NativeFor(FieldNotEmptyShape) == FieldNotEmptyComponent;
    assert GetValidator(FieldNotEmptyComponent) in ValidatorsOf(RegisteredComponents);
    assert !Matches(FieldNotEmptyComponent, read, r.def, doc);
    assert FailureMessage(FieldNotEmptyComponent, read, r.def, doc) == "Field must not be empty: $.id";
    ExactDispatchSucceeds(FieldNotEmptyComponent, read, r, doc);
  }

  /** End to end: an active rule set that applies to documents whose "kind"
      is "order" and requires an "id" rejects such a document without an id,
      and the violation carries the rule set. */
  method RejectsOrderWithoutId(read: PathReader, doc: JsonValue) returns (verdict: Verdict, rs: RuleSet)
    requires read(Some("$.kind"), doc) == Some(JString("order"))
    requires read(Some("$.id"), doc).None?
    ensures verdict == Violation("Field must not be empty: $.id", rs)
  {
    var engine := new RuleSetValidator(MatchersOf(RegisteredComponents), ValidatorsOf(RegisteredComponents));
    rs := new RuleSet();
    rs.SetMatchers([Exact(FieldEquals(Some("$.kind"), JString("order")))]);
    rs.SetRules([Exact(FieldNotEmpty(Some("$.id")))]);
    engine.AddRuleSet(rs);
    assert engine.ruleSets == {rs};
    CheckedByRegisteredPlugins(read, rs.matchers[0], rs.rules[0], doc);
    assert RuleSetMatches(engine.matchers, read, rs.matchers, doc);
    assert RulesOutcome(engine.validators, read, rs.rules, doc) == Fail("Field must not be empty: $.id");
    assert !RuleSetPasses(engine.matchers, engine.validators, read, rs, doc);
    ghost var order;
    verdict, order := engine.Validate(read, doc);
  }
}
