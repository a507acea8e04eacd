/** RuleSetBuilder: collects matcher and rule definitions in call order and
    writes them into the one RuleSet instance it owns; and the
    DefinitionsSupplier helpers that make the built-in definitions. */
module Builder {
  import opened Wrappers
  import opened Json
  import opened Definitions
  import opened RuleSets

  class RuleSetBuilder {
    /** The instance every build() returns. */
    const ruleSet: RuleSet
    var matcherDefinitions: seq<Instance>
    var ruleDefinitions: seq<Instance>

    /** Names and describes the rule set; both lists start empty. */
    constructor (name: Option<string>, description: Option<string>)
      ensures fresh(ruleSet)
      ensures ruleSet.Value() == RuleSetData(name, description, [], [])
      ensures matcherDefinitions == [] && ruleDefinitions == []
    {
      var rs := new RuleSet();
      rs.SetName(name);
      rs.SetDescription(description);
      ruleSet := rs;
      matcherDefinitions := [];
      ruleDefinitions := [];
    }

    /** matches: appends a matcher definition and returns this builder. */
    method Matches(d: Instance) returns (b: RuleSetBuilder)
      modifies this
      ensures b == this
      ensures matcherDefinitions == old(matcherDefinitions) + [d]
      ensures ruleDefinitions == old(ruleDefinitions)
    {
      matcherDefinitions := matcherDefinitions + [d];
      b := this;
    }

    /** validates: appends a rule definition and returns this builder. */
    method Validates(d: Instance) returns (b: RuleSetBuilder)
      modifies this
      ensures b == this
      ensures ruleDefinitions == old(ruleDefinitions) + [d]
      ensures matcherDefinitions == old(matcherDefinitions)
    {
      ruleDefinitions := ruleDefinitions + [d];
      b := this;
    }

    /** and, when, then: no effect, the same builder back. */
    method And() returns (b: RuleSetBuilder)
      ensures b == this
    {
      b := this;
    }

    method When() returns (b: RuleSetBuilder)
      ensures b == this
    {
      b := this;
    }

    method Then() returns (b: RuleSetBuilder)
      ensures b == this
    {
      b := this;
    }

    /** build: copies the collected lists into the owned rule set and returns
        that same instance, so every build updates every earlier result. */
    method Build() returns (rs: RuleSet)
      modifies ruleSet
      ensures rs == ruleSet
      ensures rs.Value() == old(ruleSet.Value()).(matchers := matcherDefinitions, rules := ruleDefinitions)
    {
      ruleSet.SetMatchers(matcherDefinitions);
      ruleSet.SetRules(ruleDefinitions);
      rs := ruleSet;
    }
  }

  /** The usual chain: a builder fed matchers and rules through the sugar
      builds a rule set whose lists are the definitions in call order; a
      second build after more calls changes the instance the first build
      returned. */
  method BuildTwice(m1: Instance, r1: Instance, r2: Instance)
    returns (first: RuleSet, second: RuleSet)
    ensures first == second
    ensures first.Value() == RuleSetData(Some("checks"), Some("example"), [m1], [r1, r2])
  {
    var b := new RuleSetBuilder(Some("checks"), Some("example"));
    var b1 := b.When();
    b1 := b1.Matches(m1);
    b1 := b1.Then();
    b1 := b1.Validates(r1);
    first := b1.Build();
    b1 := b1.And();
    b1 := b1.Validates(r2);
    second := b1.Build();
  }

  // ---------------------------------------------------------------------------
  // DefinitionsSupplier
  // ---------------------------------------------------------------------------

  /** fieldEquals(jsonPath, value): a FieldEquals holding exactly the path
      and value. */
  function FieldEqualsOf(jsonPath: Option<string>, value: JsonValue): (d: Definition)
    ensures ShapeOf(d) == FieldEqualsShape && d.jsonPath == jsonPath && d.value == value
  {
    FieldEquals(jsonPath, value)
  }

  function FieldNotEqualsOf(jsonPath: Option<string>, value: JsonValue): (d: Definition)
    ensures ShapeOf(d) == FieldNotEqualsShape && d.jsonPath == jsonPath && d.value == value
  {
    FieldNotEquals(jsonPath, value)
  }

  function FieldNotEmptyOf(jsonPath: Option<string>): (d: Definition)
    ensures ShapeOf(d) == FieldNotEmptyShape && d.jsonPath == jsonPath
  {
    FieldNotEmpty(jsonPath)
  }
}
