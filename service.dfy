/** RuleSetService: creating a rule set stores it in the repository and
    activates it in the engine; removing one by name deletes it from the
    repository and deactivates it. */
module Service {
  import opened Wrappers
  import opened RuleSets
  import opened Repository
  import opened Engine

  /** The NoSuchElementException of Optional.get. */
  datatype NoSuchElement = NoSuchElement

  class RuleSetService {
    const repository: InMemoryRuleSetRepository
    const validator: RuleSetValidator

    constructor (repo: InMemoryRuleSetRepository, v: RuleSetValidator)
      ensures repository == repo && validator == v
    {
      repository := repo;
      validator := v;
    }

    /** create: persists, then activates; a rule set the repository refuses
        is not activated. Returns the same instance. */
    method Create(rs: RuleSet) returns (r: Result<RuleSet, NullPointer>)
      modifies repository, validator
      ensures r.Success? <==> rs.name.Some? && rs.description.Some?
      ensures r.Success? ==> (r.value == rs &&
        repository.ruleSets == old(repository.ruleSets)[rs.name.value := rs] &&
        validator.ruleSets == old(validator.ruleSets) + {rs})
      ensures r.Failure? ==> repository.ruleSets == old(repository.ruleSets) && validator.ruleSets == old(validator.ruleSets)
    {
      r := repository.Persist(rs);
      if r.Failure? {
        return;
      }
      validator.AddRuleSet(rs);
    }

    /** getAll: exactly the repository's rule sets. */
    method GetAll() returns (all: seq<RuleSet>, ghost names: seq<string>)
      ensures Enumerates(repository.ruleSets, names, all)
    {
      all, names := repository.GetAll();
    }

    /** remove: an unknown name fails and changes nothing; otherwise the
        stored rule set is deleted by its current name and deactivated. */
    method Remove(name: string) returns (r: Result<(), NoSuchElement>)
      modifies repository, validator
      ensures r.Failure? <==> name !in old(repository.ruleSets)
      ensures r.Failure? ==> repository.ruleSets == old(repository.ruleSets) && validator.ruleSets == old(validator.ruleSets)
      ensures r.Success? ==>
        var rs := old(repository.ruleSets)[name];
        validator.ruleSets == old(validator.ruleSets) - {rs} &&
        repository.ruleSets == if rs.name.Some? then old(repository.ruleSets) - {rs.name.value} else old(repository.ruleSets)
    {
      var found := repository.GetByName(Some(name));
      if found.None? {
        return Failure(NoSuchElement);
      }
      var rs := found.value;
      repository.Delete(rs);
      validator.RemoveRuleSet(rs);
      r := Success(());
    }
  }

  /** Two creates under one name, then a remove of that name: the repository
      is empty, yet the first rule set is still active, and no name reaches
      it any more. */
  method DuplicateCreateLeavesStaleRuleSet(first: RuleSet, second: RuleSet)
    returns (service: RuleSetService)
    requires first != second
    requires first.name == second.name == Some("orders")
    requires first.description.Some? && second.description.Some?
    ensures service.repository.ruleSets == map[]
    ensures service.validator.ruleSets == {first}
  {
    var repo := new InMemoryRuleSetRepository();
    var engine := new RuleSetValidator({}, {});
    service := new RuleSetService(repo, engine);
    var r1 := service.Create(first);
    var r2 := service.Create(second);
    var r3 := service.Remove("orders");
  }

  /** Adding a new key adds its value to the map's values. */
  lemma ValuesOfFreshKey(m: map<string, RuleSet>, k: string, v: RuleSet)
    requires k !in m
    ensures m[k := v].Values == m.Values + {v}
  {
    forall x | x in m.Values
      ensures x in m[k := v].Values
    {
      var j :| j in m && m[j] == x;
      assert m[k := v][j] == x;
    }
    assert m[k := v][k] == v;
  }

  /** The service as evidently intended: the active rule sets are always
      exactly the stored ones. */
  class SyncedRuleSetService {
    const repository: InMemoryRuleSetRepository
    const validator: RuleSetValidator

    ghost predicate Synced()
      reads this, repository, validator
    {
      validator.ruleSets == repository.ruleSets.Values
    }

    constructor (repo: InMemoryRuleSetRepository, v: RuleSetValidator)
      requires v.ruleSets == repo.ruleSets.Values
      ensures repository == repo && validator == v && Synced()
    {
      repository := repo;
      validator := v;
    }

    /** create: persists, deactivates the rule set it displaced if no other
        name still holds it, and activates the new one. */
    method Create(rs: RuleSet) returns (r: Result<RuleSet, NullPointer>)
      requires Synced()
      modifies repository, validator
      ensures Synced()
      ensures r.Success? <==> rs.name.Some? && rs.description.Some?
      ensures r.Success? ==> r.value == rs && repository.ruleSets == old(repository.ruleSets)[rs.name.value := rs]
      ensures r.Failure? ==> repository.ruleSets == old(repository.ruleSets)
    {
      var previous := repository.GetByName(rs.name);
      r := repository.Persist(rs);
      if r.Failure? {
        return;
      }
      if previous.Some? && previous.value !in repository.ruleSets.Values {
        validator.RemoveRuleSet(previous.value);
      }
      validator.AddRuleSet(rs);
      ghost var before := old(repository.ruleSets);
      ghost var k := rs.name.value;
      assert repository.ruleSets == (before - {k})[k := rs];
      ValuesOfFreshKey(before - {k}, k, rs);
      if k in before {
        assert before == (before - {k})[k := before[k]];
        ValuesOfFreshKey(before - {k}, k, before[k]);
      } else {
        assert before == before - {k};
      }
    }

    /** remove: an unknown name fails and changes nothing; otherwise that
        name is deleted and its rule set deactivated unless another name
        still holds it. */
    method Remove(name: string) returns (r: Result<(), NoSuchElement>)
      requires Synced()
      modifies repository, validator
      ensures Synced()
      ensures r.Failure? <==> name !in old(repository.ruleSets)
      ensures r.Failure? ==> repository.ruleSets == old(repository.ruleSets)
      ensures r.Success? ==> repository.ruleSets == old(repository.ruleSets) - {name}
    {
      var found := repository.GetByName(Some(name));
      if found.None? {
        return Failure(NoSuchElement);
      }
      var rs := found.value;
      repository.DeleteByName(Some(name));
      if rs !in repository.ruleSets.Values {
        validator.RemoveRuleSet(rs);
      }
      ghost var before := old(repository.ruleSets);
      assert before == repository.ruleSets[name := rs];
      ValuesOfFreshKey(repository.ruleSets, name, rs);
      r := Success(());
    }
  }

  /** The same calls on the synchronised service leave nothing active. */
  method DuplicateCreateStaysSynced(first: RuleSet, second: RuleSet)
    returns (service: SyncedRuleSetService)
    requires first != second
    requires first.name == second.name == Some("orders")
    requires first.description.Some? && second.description.Some?
    ensures service.repository.ruleSets == map[]
    ensures service.validator.ruleSets == {}
  {
    var repo := new InMemoryRuleSetRepository();
    var engine := new RuleSetValidator({}, {});
    assert repo.ruleSets.Values == {};
    service := new SyncedRuleSetService(repo, engine);
    var r1 := service.Create(first);
    var r2 := service.Create(second);
    var r3 := service.Remove("orders");
  }
}
