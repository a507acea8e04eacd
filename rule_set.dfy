/** RuleSet: a named and described bundle of matcher definitions and rule
    definitions. Its lists are owned by the rule set: the getters hand out
    copies and the setters copy their argument in, so no caller shares them. */
module RuleSets {
  import opened Wrappers
  import opened Definitions

  /** A snapshot of a rule set's state. */
  datatype RuleSetData = RuleSetData(
    name: Option<string>,
    description: Option<string>,
    matchers: seq<Instance>,
    rules: seq<Instance>)

  class RuleSet {
    var name: Option<string>
    var description: Option<string>
    var matchers: seq<Instance>
    var rules: seq<Instance>

    function Value(): RuleSetData
      reads this
    {
      RuleSetData(name, description, matchers, rules)
    }

    /** A fresh rule set: no name, no description, empty lists. */
    constructor ()
      ensures Value() == RuleSetData(None, None, [], [])
    {
      name := None;
      description := None;
      matchers := [];
      rules := [];
    }

    /** getRules: a copy of the rule list, in order. */
    method GetRules() returns (r: seq<Instance>)
      ensures r == rules
    {
      r := rules;
    }

    /** setRules: the rule list becomes the given list, in order; nothing
        else changes. */
    method SetRules(rs: seq<Instance>)
      modifies this
      ensures Value() == old(Value()).(rules := rs)
    {
      rules := rs;
    }

    /** getMatchers: a copy of the matcher list, in order. */
    method GetMatchers() returns (r: seq<Instance>)
      ensures r == matchers
    {
      r := matchers;
    }

    /** setMatchers: the matcher list becomes the given list, in order;
        nothing else changes. */
    method SetMatchers(ms: seq<Instance>)
      modifies this
      ensures Value() == old(Value()).(matchers := ms)
    {
      matchers := ms;
    }

    method GetName() returns (r: Option<string>)
      ensures r == name
    {
      r := name;
    }

    method SetName(n: Option<string>)
      modifies this
      ensures Value() == old(Value()).(name := n)
    {
      name := n;
    }

    method GetDescription() returns (r: Option<string>)
      ensures r == description
    {
      r := description;
    }

    method SetDescription(d: Option<string>)
      modifies this
      ensures Value() == old(Value()).(description := d)
    {
      description := d;
    }
  }

  /** The setters and getters round-trip and leave the other parts alone:
      setting the rules and then the matchers of a rule set gives back both
      lists as set, under the old name and description. */
  method SettersRoundTrip(rs: RuleSet, ms: seq<Instance>, rules: seq<Instance>, n: Option<string>)
    returns (gotMatchers: seq<Instance>, gotRules: seq<Instance>, gotName: Option<string>)
    modifies rs
    ensures gotMatchers == ms && gotRules == rules && gotName == n
    ensures rs.description == old(rs.description)
  {
    rs.SetRules(rules);
    rs.SetMatchers(ms);
    rs.SetName(n);
    gotMatchers := rs.GetMatchers();
    gotRules := rs.GetRules();
    gotName := rs.GetName();
  }
}
