/** The wire form of a rule set (RuleSetSerializer, RuleSetDeserializer).

    On the wire a rule set is an object with "name", "description",
    "matchers" and "rules"; each entry of the two lists is the definition's
    fields plus an "id" naming its shape in the list's role. Decoding pops
    the "id", looks it up in the registry of the list's role only, and lets
    Jackson convert the remaining fields into the definition class. */
module Codec {
  import opened Wrappers
  import opened Text
  import opened Json
  import opened Definitions
  import opened RuleSets

  /** The id-to-class maps the auto-configuration collects from the
      @JsonMatcher and @JsonRule annotations; the codec holds its own copy. */
  datatype Registry = Registry(matcherKinds: map<string, Shape>, ruleKinds: map<string, Shape>)
  {
    function Kinds(role: Role): map<string, Shape>
    {
      if role == MatcherRole then matcherKinds else ruleKinds
    }
  }

  /** The registry built from the three built-in shapes. */
  const BuiltinRegistry := Registry(
    map[Id(MatcherRole, FieldEqualsShape) := FieldEqualsShape,
        Id(MatcherRole, FieldNotEqualsShape) := FieldNotEqualsShape,
        Id(MatcherRole, FieldNotEmptyShape) := FieldNotEmptyShape],
    map[Id(RuleRole, FieldEqualsShape) := FieldEqualsShape,
        Id(RuleRole, FieldNotEqualsShape) := FieldNotEqualsShape,
        Id(RuleRole, FieldNotEmptyShape) := FieldNotEmptyShape])

  /** The registry maps every shape's id in each role back to that shape. */
  predicate Agrees(reg: Registry)
  {
    (forall s :: Id(MatcherRole, s) in reg.matcherKinds && reg.matcherKinds[Id(MatcherRole, s)] == s) &&
    (forall s :: Id(RuleRole, s) in reg.ruleKinds && reg.ruleKinds[Id(RuleRole, s)] == s)
  }

  lemma BuiltinRegistryAgrees()
    ensures Agrees(BuiltinRegistry)
  {
  }

  // ---------------------------------------------------------------------------
  // Field conversion (ObjectMapper.convertValue between a definition and a map)
  // ---------------------------------------------------------------------------

  function NullableString(s: Option<string>): JsonValue
  {
    if s.None? then JNull else JString(s.value)
  }

  /** A definition as a map: its public fields in declaration order, a null
      field included as null. */
  function Flatten(d: Definition): (m: LinkedMap<JsonValue>)
    ensures Keys(m) == FieldNames(ShapeOf(d))
    ensures Get(m, "jsonPath") == Some(NullableString(d.jsonPath))
    ensures !d.FieldNotEmpty? ==> Get(m, "value") == Some(d.value)
  {
    match d
    case FieldEquals(p, v) => [Entry("jsonPath", NullableString(p)), Entry("value", v)]
    case FieldNotEquals(p, v) => [Entry("jsonPath", NullableString(p)), Entry("value", v)]
    case FieldNotEmpty(p) => [Entry("jsonPath", NullableString(p))]
  }

  datatype DecodeError =
    | NotAnObject(what: string)
    | ClassCast(what: string)
    | NullEntry(what: string)
    | NullList(key: string)
    | NoSuchDefinition(id: Option<string>)
    | UnrecognizedField(field: string)
    | InvalidFieldValue(field: string)
  {
    /** The exception message, where the code sets one. */
    function Message(): string
    {
      match this
      case NoSuchDefinition(id) => "No rule set definition matches: " + StringOrNull(id)
      case _ => ""
    }
  }

  /** Jackson's String deserialisation of a field: text as is, other scalars
      as their text, null as null; arrays and objects are refused. */
  function StringField(field: string, v: Option<JsonValue>): Result<Option<string>, DecodeError>
  {
    match v
    case None => Success(None)
    case Some(JNull) => Success(None)
    case Some(JString(s)) => Success(Some(s))
    case Some(JNumber(n)) => Success(Some(IntToString(n)))
    case Some(JBool(b)) => Success(Some(if b then "true" else "false"))
    case Some(_) => Failure(InvalidFieldValue(field))
  }

  /** The first field, in map order, that the shape has no property for. */
  function UnknownField(shape: Shape, fields: LinkedMap<JsonValue>): (r: Option<string>)
    ensures r.None? <==> forall i | 0 <= i < |fields| :: fields[i].key in FieldNames(shape)
    ensures r.Some? ==> HasKey(fields, r.value) && r.value !in FieldNames(shape)
  {
    if |fields| == 0 then None
    else if fields[0].key !in FieldNames(shape) then Some(fields[0].key)
    else
      var rest := UnknownField(shape, fields[1..]);
      assert forall i | 0 < i < |fields| :: fields[1..][i - 1] == fields[i];
      if rest.Some? then
        assert exists i | 0 <= i < |fields[1..]| :: fields[1..][i].key == rest.value;
        var i :| 0 <= i < |fields[1..]| && fields[1..][i].key == rest.value;
        assert fields[i + 1].key == rest.value;
        rest
      else rest
  }

  /** convertValue(map, shape class): an unknown property fails, a missing
      one keeps Java's default null. */
  function Convert(shape: Shape, fields: LinkedMap<JsonValue>): Result<Definition, DecodeError>
  {
    var unknown := UnknownField(shape, fields);
    if unknown.Some? then Failure(UnrecognizedField(unknown.value))
    else
      var path :- StringField("jsonPath", Get(fields, "jsonPath"));
      var value := Get(fields, "value");
      var v := if value.None? then JNull else value.value;
      match shape
      case FieldEqualsShape => Success(FieldEquals(path, v))
      case FieldNotEqualsShape => Success(FieldNotEquals(path, v))
      case FieldNotEmptyShape => Success(FieldNotEmpty(path))
  }

  /** Converting a definition's own map gives the definition back. */
  lemma ConvertFlatten(d: Definition)
    ensures Convert(ShapeOf(d), Flatten(d)) == Success(d)
  {
    var m := Flatten(d);
    assert forall i | 0 <= i < |m| :: m[i].key == Keys(m)[i];
  }

  // ---------------------------------------------------------------------------
  // Decoding
  // ---------------------------------------------------------------------------

  /** convertComponent: pops "id" (a String, or null), resolves it in the
      role's map and converts the remaining fields. A null list element
      throws NullPointerException at the remove; any other element that is
      not a map fails the cast into Map. */
  function DecodeEntry(kinds: map<string, Shape>, e: JsonValue): Result<Instance, DecodeError>
  {
    if e.JNull? then Failure(NullEntry("definition"))
    else if !e.JObject? then Failure(ClassCast("definition"))
    else
      var id := Get(e.members, "id");
      var fields := Remove(e.members, "id");
      if id.Some? && !id.value.JString? && !id.value.JNull? then Failure(ClassCast("id"))
      else
        var key := if id.Some? && id.value.JString? then Some(id.value.s) else None;
        if key.None? || key.value !in kinds then Failure(NoSuchDefinition(key))
        else
          var d :- Convert(kinds[key.value], fields);
          Success(Exact(d))
  }

  /** A decoded entry came from a map whose "id" is a registered String, and
      is a built-in definition of exactly the shape registered for that id. */
  lemma DecodedEntryIsExact(kinds: map<string, Shape>, e: JsonValue)
    requires DecodeEntry(kinds, e).Success?
    ensures e.JObject? && Get(e.members, "id").Some? && Get(e.members, "id").value.JString?
    ensures Get(e.members, "id").value.s in kinds
    ensures DecodeEntry(kinds, e).value.Exact?
    ensures ShapeOf(DecodeEntry(kinds, e).value.def) == kinds[Get(e.members, "id").value.s]
  {
  }

  /** Prefixes `acc` to a successful list. */
  function Prepend<T, E>(acc: seq<T>, r: Result<seq<T>, E>): Result<seq<T>, E>
  {
    if r.Success? then Success(acc + r.value) else r
  }

  lemma PrependNothing<T, E>(r: Result<seq<T>, E>)
    ensures Prepend([], r) == r
  {
    if r.Success? {
      assert [] + r.value == r.value;
    }
  }

  lemma PrependStep<T, E>(acc: seq<T>, x: T, r: Result<seq<T>, E>)
    ensures Prepend(acc, Prepend([x], r)) == Prepend(acc + [x], r)
  {
    if r.Success? {
      assert acc + ([x] + r.value) == (acc + [x]) + r.value;
    }
  }

  /** The entries in list order; the first failure aborts. */
  function DecodeEntries(kinds: map<string, Shape>, es: seq<JsonValue>): Result<seq<Instance>, DecodeError>
  {
    if |es| == 0 then Success([])
    else
      var first := DecodeEntry(kinds, es[0]);
      if first.Failure? then Failure(first.error)
      else Prepend([first.value], DecodeEntries(kinds, es[1..]))
  }

  lemma DecodeEntriesAt(kinds: map<string, Shape>, es: seq<JsonValue>, i: nat)
    requires i < |es|
    ensures DecodeEntries(kinds, es[i..]) ==
      if DecodeEntry(kinds, es[i]).Failure? then Failure(DecodeEntry(kinds, es[i]).error)
      else Prepend([DecodeEntry(kinds, es[i]).value], DecodeEntries(kinds, es[i + 1..]))
  {
    assert es[i..][0] == es[i];
    assert es[i..][1..] == es[i + 1..];
  }

  /** The cast of a top-level value to List: null or absent is a null list. */
  function ListField(key: string, v: Option<JsonValue>): Result<Option<seq<JsonValue>>, DecodeError>
  {
    match v
    case None => Success(None)
    case Some(JNull) => Success(None)
    case Some(JArray(xs)) => Success(Some(xs))
    case Some(_) => Failure(ClassCast(key))
  }

  /** The cast of a top-level value to String. */
  function TextField(key: string, v: Option<JsonValue>): Result<Option<string>, DecodeError>
  {
    match v
    case None => Success(None)
    case Some(JNull) => Success(None)
    case Some(JString(s)) => Success(Some(s))
    case Some(_) => Failure(ClassCast(key))
  }

  /** deserialize, step by step as the code runs: the two list casts, name,
      description, then every matcher and then every rule. */
  function Decode(reg: Registry, node: JsonValue): Result<RuleSetData, DecodeError>
  {
    if !node.JObject? then Failure(NotAnObject("rule set"))
    else
      var m := node.members;
      var nodeMatchers :- ListField("matchers", Get(m, "matchers"));
      var nodeRules :- ListField("rules", Get(m, "rules"));
      var name :- TextField("name", Get(m, "name"));
      var description :- TextField("description", Get(m, "description"));
      if nodeMatchers.None? then Failure(NullList("matchers"))
      else
        var matchers :- DecodeEntries(reg.matcherKinds, nodeMatchers.value);
        if nodeRules.None? then Failure(NullList("rules"))
        else
          var rules :- DecodeEntries(reg.ruleKinds, nodeRules.value);
          Success(RuleSetData(name, description, matchers, rules))
  }

  /** The entries decode to one definition each, in order, each from an
      object whose "id" is registered in the role's map. */
  lemma {:induction false} DecodeEntriesPointwise(kinds: map<string, Shape>, es: seq<JsonValue>)
    requires DecodeEntries(kinds, es).Success?
    ensures |DecodeEntries(kinds, es).value| == |es|
    ensures forall i | 0 <= i < |es| :: DecodeEntry(kinds, es[i]) == Success(DecodeEntries(kinds, es).value[i])
    ensures forall i | 0 <= i < |es| :: (es[i].JObject? && Get(es[i].members, "id").Some? &&
      Get(es[i].members, "id").value.JString? && Get(es[i].members, "id").value.s in kinds)
  {
    if |es| > 0 {
      DecodeEntriesPointwise(kinds, es[1..]);
      assert forall i | 0 < i < |es| :: es[1..][i - 1] == es[i];
    }
  }

  /** Decoding fails, naming the id, at an entry whose id is not registered
      in its role (the other role's ids included); no rule set results. */
  lemma {:induction false} UnknownIdFails(kinds: map<string, Shape>, es: seq<JsonValue>, k: nat)
    requires k < |es| && es[k].JObject?
    requires Get(es[k].members, "id").Some? && Get(es[k].members, "id").value.JString?
    requires Get(es[k].members, "id").value.s !in kinds
    ensures DecodeEntries(kinds, es).Failure?
  {
    if DecodeEntries(kinds, es).Success? {
      DecodeEntriesPointwise(kinds, es);
    }
  }

  /** A null element in a definition list ends decoding with the
      NullPointerException, once the elements before it have decoded. */
  lemma {:induction false} NullEntryFails(kinds: map<string, Shape>, es: seq<JsonValue>, k: nat)
    requires k < |es| && es[k] == JNull
    requires forall j | 0 <= j < k :: DecodeEntry(kinds, es[j]).Success?
    ensures DecodeEntries(kinds, es) == Failure(NullEntry("definition"))
    decreases k
  {
    if k > 0 {
      assert forall j | 0 <= j < k - 1 :: es[1..][j] == es[j + 1];
      NullEntryFails(kinds, es[1..], k - 1);
    }
  }

  /** A decoded rule set resolved every matcher entry in the matcher registry
      and every rule entry in the rule registry, and keeps the entries'
      order. */
  lemma DecodeResolvesPerRole(reg: Registry, node: JsonValue)
    requires Decode(reg, node).Success?
    ensures node.JObject? && Get(node.members, "matchers").Some? && Get(node.members, "rules").Some?
    ensures var ms := Get(node.members, "matchers").value.items;
      |Decode(reg, node).value.matchers| == |ms| &&
      forall i | 0 <= i < |ms| :: DecodeEntry(reg.matcherKinds, ms[i]) == Success(Decode(reg, node).value.matchers[i])
    ensures var rs := Get(node.members, "rules").value.items;
      |Decode(reg, node).value.rules| == |rs| &&
      forall i | 0 <= i < |rs| :: DecodeEntry(reg.ruleKinds, rs[i]) == Success(Decode(reg, node).value.rules[i])
  {
    var m := node.members;
    DecodeEntriesPointwise(reg.matcherKinds, Get(m, "matchers").value.items);
    DecodeEntriesPointwise(reg.ruleKinds, Get(m, "rules").value.items);
  }

  /** A rule id in the matcher list is unknown there. */
  lemma RuleIdIsNoMatcher()
    ensures DecodeEntry(BuiltinRegistry.matcherKinds,
      JObject([Entry("id", JString("field-equals-rule")), Entry("jsonPath", JString("$.a"))]))
      == Failure(NoSuchDefinition(Some("field-equals-rule")))
  {
  }

  // ---------------------------------------------------------------------------
  // Encoding
  // ---------------------------------------------------------------------------

  datatype EncodeError =
    | NoSerializer          // convertValue of a bare java.lang.Object
    | NoAnnotation(role: Role)  // getAnnotation is null on a subclass

  /** One list entry: the definition's map with "id" put last. */
  function EncodeEntry(role: Role, o: Instance): Result<JsonValue, EncodeError>
  {
    match o
    case PlainObject => Failure(NoSerializer)
    case Subclassed(_) => Failure(NoAnnotation(role))
    case Exact(d) => Success(JObject(Put(Flatten(d), "id", JString(Id(role, ShapeOf(d))))))
  }

  function EncodeEntries(role: Role, os: seq<Instance>): Result<seq<JsonValue>, EncodeError>
  {
    if |os| == 0 then Success([])
    else
      var first := EncodeEntry(role, os[0]);
      if first.Failure? then Failure(first.error)
      else Prepend([first.value], EncodeEntries(role, os[1..]))
  }

  lemma EncodeEntriesAt(role: Role, os: seq<Instance>, i: nat)
    requires i < |os|
    ensures EncodeEntries(role, os[i..]) ==
      if EncodeEntry(role, os[i]).Failure? then Failure(EncodeEntry(role, os[i]).error)
      else Prepend([EncodeEntry(role, os[i]).value], EncodeEntries(role, os[i + 1..]))
  {
    assert os[i..][0] == os[i];
    assert os[i..][1..] == os[i + 1..];
  }

  /** Whether a list holds a bare java.lang.Object, which Jackson cannot
      serialise. */
  predicate HoldsPlainObject(os: seq<Instance>)
  {
    exists i | 0 <= i < |os| :: os[i].PlainObject?
  }

  /** A definition object as Jackson serialises it inside the rule set; a
      subclass instance shows the fields it inherits. */
  function BeanEntry(o: Instance): JsonValue
    requires !o.PlainObject?
  {
    if o.Exact? then JObject(Flatten(o.def)) else JObject(Flatten(o.base))
  }

  /** convertValue(ruleSet, ObjectNode): the rule set's properties in
      declaration order, the lists as Jackson sees them. */
  function BeanNode(data: RuleSetData): LinkedMap<JsonValue>
    requires !HoldsPlainObject(data.matchers) && !HoldsPlainObject(data.rules)
  {
    [Entry("name", NullableString(data.name)),
     Entry("description", NullableString(data.description)),
     Entry("matchers", JArray(seq(|data.matchers|, i requires 0 <= i < |data.matchers| => BeanEntry(data.matchers[i])))),
     Entry("rules", JArray(seq(|data.rules|, i requires 0 <= i < |data.rules| => BeanEntry(data.rules[i]))))]
  }

  /** serialize: the rule set converted to a node (which fails on a bare
      Object), every matcher and then every rule encoded with its id, and
      the two encoded lists put over the node's own. */
  function Encode(data: RuleSetData): Result<JsonValue, EncodeError>
  {
    if HoldsPlainObject(data.matchers) || HoldsPlainObject(data.rules) then Failure(NoSerializer)
    else
      var matchers :- EncodeEntries(MatcherRole, data.matchers);
      var rules :- EncodeEntries(RuleRole, data.rules);
      Success(JObject(Put(Put(BeanNode(data), "matchers", JArray(matchers)), "rules", JArray(rules))))
  }

  /** An encoded entry holds the definition's fields, in order, then its id
      for the role; removing the id gives the definition's map back. */
  lemma EncodedEntryLayout(role: Role, d: Definition)
    ensures EncodeEntry(role, Exact(d)).Success?
    ensures var m := EncodeEntry(role, Exact(d)).value.members;
      Keys(m) == FieldNames(ShapeOf(d)) + ["id"] &&
      Get(m, "id") == Some(JString(Id(role, ShapeOf(d)))) &&
      Remove(m, "id") == Flatten(d)
  {
    var idv := JString(Id(role, ShapeOf(d)));
    var f := Flatten(d);
    assert !HasKey(f, "id") by {
      assert forall i | 0 <= i < |f| :: f[i].key == Keys(f)[i];
    }
    var m := Put(f, "id", idv);
    assert EncodeEntry(role, Exact(d)) == Success(JObject(m));
    PutFreshKey(f, "id", idv);
    RemoveAfterPut(f, "id", idv);
  }

  /** Encoding fails exactly when a list holds something that is not a
      built-in definition. */
  lemma {:induction false} EncodeEntriesSucceeds(role: Role, os: seq<Instance>)
    ensures EncodeEntries(role, os).Success? <==> forall i | 0 <= i < |os| :: os[i].Exact?
    ensures EncodeEntries(role, os).Success? ==> |EncodeEntries(role, os).value| == |os|
  {
    if |os| > 0 {
      EncodeEntriesSucceeds(role, os[1..]);
      EncodeEntriesStep(role, os);
      AllExactCons(os);
    }
  }

  lemma AllExactCons(os: seq<Instance>)
    requires |os| > 0
    ensures (forall i | 0 <= i < |os| :: os[i].Exact?) <==>
      os[0].Exact? && forall i | 0 <= i < |os[1..]| :: os[1..][i].Exact?
  {
    assert forall i | 0 < i < |os| :: os[1..][i - 1] == os[i];
  }

  /** The list encodes when its head and its tail do, one value longer. */
  lemma EncodeEntriesStep(role: Role, os: seq<Instance>)
    requires |os| > 0
    ensures EncodeEntries(role, os).Success? <==> os[0].Exact? && EncodeEntries(role, os[1..]).Success?
    ensures EncodeEntries(role, os).Success? ==> |EncodeEntries(role, os).value| == 1 + |EncodeEntries(role, os[1..]).value|
  {
  }

  /** One encoded definition decodes to itself in the same role. */
  lemma EntryRoundTrip(reg: Registry, role: Role, d: Definition)
    requires Agrees(reg)
    ensures DecodeEntry(reg.Kinds(role), EncodeEntry(role, Exact(d)).value) == Success(Exact(d))
  {
    EncodedEntryLayout(role, d);
    ConvertFlatten(d);
    var kinds := reg.Kinds(role);
    var id := Id(role, ShapeOf(d));
    assert id in kinds && kinds[id] == ShapeOf(d);
    DecodeRegisteredEntry(kinds, EncodeEntry(role, Exact(d)).value, id, d);
  }

  lemma DecodeRegisteredEntry(kinds: map<string, Shape>, e: JsonValue, id: string, d: Definition)
    requires e.JObject? && Get(e.members, "id") == Some(JString(id)) && id in kinds
    requires Convert(kinds[id], Remove(e.members, "id")) == Success(d)
    ensures DecodeEntry(kinds, e) == Success(Exact(d))
  {
  }

  /** Decoding the encoded entries with a registry that agrees with the ids
      gives back the same definitions in the same order. */
  lemma {:induction false} EntriesRoundTrip(reg: Registry, role: Role, os: seq<Instance>)
    requires Agrees(reg)
    requires EncodeEntries(role, os).Success?
    ensures DecodeEntries(reg.Kinds(role), EncodeEntries(role, os).value) == Success(os)
  {
    if |os| > 0 {
      EncodeEntriesCons(role, os);
      EntriesRoundTrip(reg, role, os[1..]);
      EntryRoundTrip(reg, role, os[0].def);
      var es := EncodeEntries(role, os).value;
      DecodeEntriesCons(reg.Kinds(role), es, os);
    }
  }

  lemma EncodeEntriesCons(role: Role, os: seq<Instance>)
    requires |os| > 0 && EncodeEntries(role, os).Success?
    ensures os[0].Exact? && EncodeEntries(role, os[1..]).Success?
    ensures |EncodeEntries(role, os).value| > 0
    ensures EncodeEntries(role, os).value[0] == EncodeEntry(role, os[0]).value
    ensures EncodeEntries(role, os).value[1..] == EncodeEntries(role, os[1..]).value
  {
  }

  lemma DecodeEntriesCons(kinds: map<string, Shape>, es: seq<JsonValue>, xs: seq<Instance>)
    requires |es| > 0 && |xs| > 0 && DecodeEntry(kinds, es[0]) == Success(xs[0])
    requires DecodeEntries(kinds, es[1..]) == Success(xs[1..])
    ensures DecodeEntries(kinds, es) == Success(xs)
  {
    assert [xs[0]] + xs[1..] == xs;
  }

  /** The top-level keys of a serialised rule set. */
  const TopLevelKeys: seq<string> := ["name", "description", "matchers", "rules"]

  lemma BeanLayout(data: RuleSetData)
    requires !HoldsPlainObject(data.matchers) && !HoldsPlainObject(data.rules)
    ensures Keys(BeanNode(data)) == TopLevelKeys
    ensures Get(BeanNode(data), "name") == Some(NullableString(data.name))
    ensures Get(BeanNode(data), "description") == Some(NullableString(data.description))
  {
  }

  /** Replacing the value of a present key keeps the keys and their order. */
  lemma PutKeepsKeys(m: LinkedMap<JsonValue>, k: string, v: JsonValue)
    requires k in Keys(m)
    ensures Keys(Put(m, k, v)) == Keys(m)
  {
    var i :| 0 <= i < |m| && Keys(m)[i] == k;
    assert HasKey(m, k);
    PutKeepsPositions(m, k, v);
  }

  /** Putting the two lists over a node with the top-level keys keeps the
      keys in place and the name and description as they are. */
  lemma PutListsLayout(node: LinkedMap<JsonValue>, ms: JsonValue, rs: JsonValue)
    requires Keys(node) == TopLevelKeys
    ensures var m := Put(Put(node, "matchers", ms), "rules", rs);
      Keys(m) == TopLevelKeys &&
      Get(m, "name") == Get(node, "name") &&
      Get(m, "description") == Get(node, "description") &&
      Get(m, "matchers") == Some(ms) &&
      Get(m, "rules") == Some(rs)
  {
    assert Keys(node)[2] == "matchers";
    PutKeepsKeys(node, "matchers", ms);
    var m1 := Put(node, "matchers", ms);
    assert Keys(m1)[3] == "rules";
    PutKeepsKeys(m1, "rules", rs);
    PutOther(node, "matchers", ms, "name");
    PutOther(node, "matchers", ms, "description");
    PutOther(m1, "rules", rs, "name");
    PutOther(m1, "rules", rs, "description");
    PutOther(m1, "rules", rs, "matchers");
  }

  /** The encoded rule set is an object with the name, the description and
      the two encoded lists, in that order. */
  lemma EncodedLayout(data: RuleSetData)
    requires Encode(data).Success?
    ensures Encode(data).value.JObject?
    ensures var m := Encode(data).value.members;
      Keys(m) == TopLevelKeys &&
      Get(m, "name") == Some(NullableString(data.name)) &&
      Get(m, "description") == Some(NullableString(data.description)) &&
      Get(m, "matchers") == Some(JArray(EncodeEntries(MatcherRole, data.matchers).value)) &&
      Get(m, "rules") == Some(JArray(EncodeEntries(RuleRole, data.rules).value))
  {
    BeanLayout(data);
    PutListsLayout(BeanNode(data), JArray(EncodeEntries(MatcherRole, data.matchers).value),
      JArray(EncodeEntries(RuleRole, data.rules).value));
  }

  /** Decoding an object whose top-level values are a name, a description
      and two lists that decode. */
  lemma DecodeOfParts(reg: Registry, node: JsonValue, data: RuleSetData, ms: seq<JsonValue>, rs: seq<JsonValue>)
    requires node.JObject?
    requires Get(node.members, "name") == Some(NullableString(data.name))
    requires Get(node.members, "description") == Some(NullableString(data.description))
    requires Get(node.members, "matchers") == Some(JArray(ms))
    requires Get(node.members, "rules") == Some(JArray(rs))
    requires DecodeEntries(reg.matcherKinds, ms) == Success(data.matchers)
    requires DecodeEntries(reg.ruleKinds, rs) == Success(data.rules)
    ensures Decode(reg, node) == Success(data)
  {
    var m := node.members;
    ListFieldOfArray("matchers", Get(m, "matchers"), ms);
    ListFieldOfArray("rules", Get(m, "rules"), rs);
    TextFieldOfNullable("name", Get(m, "name"), data.name);
    TextFieldOfNullable("description", Get(m, "description"), data.description);
  }

  lemma ListFieldOfArray(key: string, v: Option<JsonValue>, xs: seq<JsonValue>)
    requires v == Some(JArray(xs))
    ensures ListField(key, v) == Success(Some(xs))
  {
  }

  lemma TextFieldOfNullable(key: string, v: Option<JsonValue>, s: Option<string>)
    requires v == Some(NullableString(s))
    ensures TextField(key, v) == Success(s)
  {
  }

  /** Round trip: a rule set that encodes decodes, under a registry that
      agrees with the ids, to the same name, description and definitions. */
  lemma RoundTrip(reg: Registry, data: RuleSetData)
    requires Agrees(reg)
    requires Encode(data).Success?
    ensures Decode(reg, Encode(data).value) == Success(data)
  {
    EncodedLayout(data);
    EntriesRoundTrip(reg, MatcherRole, data.matchers);
    EntriesRoundTrip(reg, RuleRole, data.rules);
    DecodeOfParts(reg, Encode(data).value, data,
      EncodeEntries(MatcherRole, data.matchers).value, EncodeEntries(RuleRole, data.rules).value);
  }

  // ---------------------------------------------------------------------------
  // The serializer and deserializer as the code runs them
  // ---------------------------------------------------------------------------

  /** The loop of serialize over one list: each entry's map given its id
      with put and appended in order. */
  method EncodeList(role: Role, os: seq<Instance>) returns (r: Result<seq<JsonValue>, EncodeError>)
    ensures r == EncodeEntries(role, os)
  {
    var acc := [];
    var i := 0;
    assert os[0..] == os;
    PrependNothing(EncodeEntries(role, os));
    while i < |os|
      invariant 0 <= i <= |os|
      invariant EncodeEntries(role, os) == Prepend(acc, EncodeEntries(role, os[i..]))
    {
      var e := EncodeEntry(role, os[i]);
      EncodeEntriesAt(role, os, i);
      if e.Failure? {
        return Failure(e.error);
      }
      PrependStep(acc, e.value, EncodeEntries(role, os[i + 1..]));
      acc := acc + [e.value];
      i := i + 1;
    }
    assert acc + [] == acc;
    r := Success(acc);
  }

  /** RuleSetSerializer.serialize: the rule set's properties, then the two
      encoded lists put over the rule set's own. */
  method Serialize(rs: RuleSet) returns (r: Result<JsonValue, EncodeError>)
    ensures r == Encode(rs.Value())
  {
    var data := rs.Value();
    if HoldsPlainObject(rs.matchers) || HoldsPlainObject(rs.rules) {
      return Failure(NoSerializer);
    }
    var node := BeanNode(data);
    var ms := rs.GetMatchers();
    var matchers := EncodeList(MatcherRole, ms);
    if matchers.Failure? {
      return Failure(matchers.error);
    }
    var rl := rs.GetRules();
    var rules := EncodeList(RuleRole, rl);
    if rules.Failure? {
      return Failure(rules.error);
    }
    node := Put(node, "matchers", JArray(matchers.value));
    node := Put(node, "rules", JArray(rules.value));
    r := Success(JObject(node));
  }

  /** The forEach of deserialize over one list. */
  method DecodeList(kinds: map<string, Shape>, es: seq<JsonValue>) returns (r: Result<seq<Instance>, DecodeError>)
    ensures r == DecodeEntries(kinds, es)
  {
    var acc := [];
    var i := 0;
    assert es[0..] == es;
    PrependNothing(DecodeEntries(kinds, es));
    while i < |es|
      invariant 0 <= i <= |es|
      invariant DecodeEntries(kinds, es) == Prepend(acc, DecodeEntries(kinds, es[i..]))
    {
      var d := DecodeEntry(kinds, es[i]);
      DecodeEntriesAt(kinds, es, i);
      if d.Failure? {
        return Failure(d.error);
      }
      PrependStep(acc, d.value, DecodeEntries(kinds, es[i + 1..]));
      acc := acc + [d.value];
      i := i + 1;
    }
    assert acc + [] == acc;
    r := Success(acc);
  }

  /** RuleSetDeserializer.deserialize: a new rule set filled from the node. */
  method Deserialize(reg: Registry, node: JsonValue) returns (r: Result<RuleSet, DecodeError>)
    ensures r.Failure? <==> Decode(reg, node).Failure?
    ensures r.Failure? ==> r.error == Decode(reg, node).error
    ensures r.Success? ==> fresh(r.value) && r.value.Value() == Decode(reg, node).value
  {
    if !node.JObject? {
      return Failure(NotAnObject("rule set"));
    }
    var m := node.members;
    var nodeMatchers := ListField("matchers", Get(m, "matchers"));
    if nodeMatchers.Failure? {
      return Failure(nodeMatchers.error);
    }
    var nodeRules := ListField("rules", Get(m, "rules"));
    if nodeRules.Failure? {
      return Failure(nodeRules.error);
    }
    var rs := new RuleSet();
    var name := TextField("name", Get(m, "name"));
    if name.Failure? {
      return Failure(name.error);
    }
    rs.SetName(name.value);
    var description := TextField("description", Get(m, "description"));
    if description.Failure? {
      return Failure(description.error);
    }
    rs.SetDescription(description.value);
    if nodeMatchers.value.None? {
      return Failure(NullList("matchers"));
    }
    var matchers := DecodeList(reg.matcherKinds, nodeMatchers.value.value);
    if matchers.Failure? {
      return Failure(matchers.error);
    }
    if nodeRules.value.None? {
      return Failure(NullList("rules"));
    }
    var rules := DecodeList(reg.ruleKinds, nodeRules.value.value);
    if rules.Failure? {
      return Failure(rules.error);
    }
    rs.SetMatchers(matchers.value);
    rs.SetRules(rules.value);
    r := Success(rs);
  }
}
