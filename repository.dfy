/** InMemoryRuleSetRepository: rule sets kept in memory under their names;
    the last rule set persisted under a name wins. */
module Repository {
  import opened Wrappers
  import opened Text
  import opened RuleSets

  /** The NullPointerException of Objects.requireNonNull, naming the field. */
  datatype NullPointer = NullPointer(field: string)

  /** The stored rule sets, one per name (a rule set stored under two names
      counts twice, as ArrayList(map.values()) does). */
  ghost predicate Enumerates(store: map<string, RuleSet>, names: seq<string>, all: seq<RuleSet>)
  {
    Distinct(names) && |names| == |all| == |store| && (set k | k in names) == store.Keys &&
    forall i | 0 <= i < |names| :: names[i] in store && all[i] == store[names[i]]
  }

  class InMemoryRuleSetRepository {
    var ruleSets: map<string, RuleSet>

    constructor ()
      ensures ruleSets == map[]
    {
      ruleSets := map[];
    }

    /** persist: a rule set without a name or without a description is
        refused (name checked first) and nothing is stored; otherwise it is
        stored under its name, replacing whatever was there, and returned. */
    method Persist(rs: RuleSet) returns (r: Result<RuleSet, NullPointer>)
      modifies this
      ensures rs.name.None? ==> r == Failure(NullPointer("name"))
      ensures rs.name.Some? && rs.description.None? ==> r == Failure(NullPointer("description"))
      ensures r.Failure? ==> ruleSets == old(ruleSets)
      ensures r.Success? <==> rs.name.Some? && rs.description.Some?
      ensures r.Success? ==> r.value == rs && ruleSets == old(ruleSets)[rs.name.value := rs]
    {
      var name := rs.GetName();
      if name.None? {
        return Failure(NullPointer("name"));
      }
      var description := rs.GetDescription();
      if description.None? {
        return Failure(NullPointer("description"));
      }
      ruleSets := ruleSets[name.value := rs];
      r := Success(rs);
    }

    /** getAll: a new list with the rule set of every stored name, each name
        once; `names` is the order the map hands them out in. */
    method GetAll() returns (all: seq<RuleSet>, ghost names: seq<string>)
      ensures Enumerates(ruleSets, names, all)
    {
      var left := ruleSets.Keys;
      all := [];
      names := [];
      while left != {}
        invariant left <= ruleSets.Keys
        invariant Distinct(names) && |names| == |all| && |names| + |left| == |ruleSets|
        invariant forall x :: x in names <==> x in ruleSets && x !in left
        invariant forall i | 0 <= i < |names| :: names[i] in ruleSets && all[i] == ruleSets[names[i]]
        decreases left
      {
        var k :| k in left;
        DistinctSnoc(names, k);
        assert |left - {k}| == |left| - 1;
        all := all + [ruleSets[k]];
        names := names + [k];
        left := left - {k};
      }
      assert (set x | x in names) == ruleSets.Keys;
    }

    /** getByName: the rule set stored under the name, if any; a null name
        finds nothing. */
    method GetByName(name: Option<string>) returns (r: Option<RuleSet>)
      ensures r.Some? <==> name.Some? && name.value in ruleSets
      ensures r.Some? ==> r.value == ruleSets[name.value]
    {
      if name.Some? && name.value in ruleSets {
        r := Some(ruleSets[name.value]);
      } else {
        r := None;
      }
    }

    /** deleteByName: forgets that name only; an absent or null name changes
        nothing. */
    method DeleteByName(name: Option<string>)
      modifies this
      ensures name.Some? ==> ruleSets == old(ruleSets) - {name.value}
      ensures name.None? ==> ruleSets == old(ruleSets)
    {
      if name.Some? {
        ruleSets := ruleSets - {name.value};
      }
    }

    /** delete: deletes by the rule set's current name, whichever instance is
        stored under it. */
    method Delete(rs: RuleSet)
      modifies this
      ensures rs.name.Some? ==> ruleSets == old(ruleSets) - {rs.name.value}
      ensures rs.name.None? ==> ruleSets == old(ruleSets)
    {
      var name := rs.GetName();
      DeleteByName(name);
    }
  }

  /** An enumeration of the store holds exactly its rule sets. */
  lemma EnumerationHoldsStored(store: map<string, RuleSet>, names: seq<string>, all: seq<RuleSet>)
    requires Enumerates(store, names, all)
    ensures (set rs | rs in all) == store.Values
  {
    forall rs | rs in store.Values
      ensures rs in all
    {
      var k :| k in store && store[k] == rs;
      assert k in (set k | k in names);
      var i :| 0 <= i < |names| && names[i] == k;
      assert all[i] == rs;
    }
  }

  /** Last write wins: after two rule sets are persisted under one name,
      looking the name up gives the second, and the store holds one entry. */
  method LastWriteWins(first: RuleSet, second: RuleSet)
    returns (found: Option<RuleSet>, all: seq<RuleSet>)
    requires first.name == second.name == Some("orders")
    requires first.description.Some? && second.description.Some?
    ensures found == Some(second)
    ensures all == [second]
  {
    var repo := new InMemoryRuleSetRepository();
    var r1 := repo.Persist(first);
    var r2 := repo.Persist(second);
    found := repo.GetByName(Some("orders"));
    ghost var names;
    all, names := repo.GetAll();
    assert names[0] in (set k | k in names);
  }

  /** delete removes whatever is stored under the given rule set's name, even
      another instance; a rule set that was renamed after it was stored is
      not deleted by delete. */
  method DeleteGoesByName(stored: RuleSet, other: RuleSet)
    returns (afterOther: Option<RuleSet>, afterRename: Option<RuleSet>)
    requires stored != other
    requires stored.name == other.name == Some("orders") && stored.description.Some?
    modifies stored
    ensures afterOther == None
    ensures afterRename == Some(stored)
  {
    var repo := new InMemoryRuleSetRepository();
    var r := repo.Persist(stored);
    repo.Delete(other);
    afterOther := repo.GetByName(Some("orders"));
    r := repo.Persist(stored);
    stored.SetName(Some("renamed"));
    repo.Delete(stored);
    afterRename := repo.GetByName(Some("orders"));
  }
}
