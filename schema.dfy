/** SchemaGenerator: the JSON Schema (draft-07) of the registered matcher or
    rule definitions, built from each definition's annotation description
    and the properties Jackson finds on its class, and the root schema with
    its URL placeholder filled in. */
module Schema {
  import opened Wrappers
  import opened Text
  import opened Json
  import opened Definitions

  const DraftSeven := "http://json-schema.org/draft-07/schema#"
  const UrlPlaceholder := "{{ URL }}"

  /** ComponentType: the name of the reference entry... */
  function Group(role: Role): string
  {
    if role == MatcherRole then "matcher" else "rules"
  }

  /** ...and the schema title. */
  function Title(role: Role): string
  {
    if role == MatcherRole then "JSON validation matchers schema" else "JSON validation rules schema"
  }

  // ---------------------------------------------------------------------------
  // Simple types
  // ---------------------------------------------------------------------------

  /** The exact classes with a JSON Schema simple type. */
  const SimpleTypeMappings: map<string, string> := map[
    "java.lang.String" := "string",
    "java.lang.Boolean" := "boolean",
    "java.lang.Integer" := "integer",
    "java.lang.Number" := "number",
    "java.util.List" := "array"]

  /** getSimpleType: a lookup by exact class name, none for any other class. */
  function SimpleType(rawType: string): (r: Option<string>)
    ensures r.Some? <==> rawType in SimpleTypeMappings
    ensures r.Some? ==> r.value in {"string", "boolean", "integer", "number", "array"}
  {
    if rawType in SimpleTypeMappings then Some(SimpleTypeMappings[rawType]) else None
  }

  /** The lookup is by exact class: a primitive, a subclass or an
      implementation class gets no type, nor does the Object-typed value
      field of the built-in definitions. */
  lemma {:induction false} SimpleTypeIsExact()
    ensures SimpleType("int") == None
    ensures SimpleType("java.lang.Long") == None
    ensures SimpleType("java.util.ArrayList") == None
    ensures SimpleType("java.lang.Object") == None
    ensures SimpleType("java.lang.String") == Some("string")
  {
  }

  // ---------------------------------------------------------------------------
  // Properties of one definition (appendProperties)
  // ---------------------------------------------------------------------------

  /** What Jackson's introspection reports of one property: its name, the
      class name of its raw type, whether it has an accessor, and the value of
      a @JsonPropertyDescription on that accessor. */
  datatype Property = Property(name: string, rawType: string, hasAccessor: bool, description: Option<string>)

  /** One registered definition class: the description of its @JsonMatcher
      or @JsonRule annotation and its introspected properties. */
  datatype ClassInfo = ClassInfo(description: string, properties: seq<Property>)

  /** The schema of one property: a description if annotated, a type if the
      raw type is a simple type, in that order. */
  function PropertySchema(p: Property): (m: LinkedMap<JsonValue>)
    ensures HasKey(m, "description") <==> p.description.Some?
    ensures p.description.Some? ==> Get(m, "description") == Some(JString(p.description.value))
    ensures HasKey(m, "type") <==> SimpleType(p.rawType).Some?
    ensures SimpleType(p.rawType).Some? ==> Get(m, "type") == Some(JString(SimpleType(p.rawType).value))
    ensures |m| <= 2
  {
    var d := if p.description.Some? then Put([], "description", JString(p.description.value)) else [];
    if SimpleType(p.rawType).Some? then Put(d, "type", JString(SimpleType(p.rawType).value)) else d
  }

  /** The schema of the "id" property: a string constant. */
  function IdSchema(id: string): LinkedMap<JsonValue>
  {
    [Entry("type", JString("string")), Entry("const", JString(id))]
  }

  /** The required list and the properties map while appendProperties runs. */
  datatype Appended = Appended(required: seq<JsonValue>, properties: LinkedMap<JsonValue>)

  function AppendId(a: Appended, id: string): Appended
  {
    Appended(a.required + [JString("id")], Put(a.properties, "id", JObject(IdSchema(id))))
  }

  /** One step of the loop: a property without an accessor is skipped. */
  function AppendProperty(a: Appended, p: Property): Appended
  {
    if !p.hasAccessor then a
    else Appended(a.required + [JString(p.name)], Put(a.properties, p.name, JObject(PropertySchema(p))))
  }

  function AppendAll(a: Appended, props: seq<Property>): Appended
  {
    if |props| == 0 then a
    else AppendProperty(AppendAll(a, props[..|props| - 1]), props[|props| - 1])
  }

  /** The names of the properties that have an accessor, in order. */
  function ListedNames(props: seq<Property>): seq<string>
  {
    if |props| == 0 then []
    else ListedNames(props[..|props| - 1]) + (if props[|props| - 1].hasAccessor then [props[|props| - 1].name] else [])
  }

  function Strings(ss: seq<string>): (r: seq<JsonValue>)
    ensures |r| == |ss| && forall i | 0 <= i < |ss| :: r[i] == JString(ss[i])
  {
    seq(|ss|, i requires 0 <= i < |ss| => JString(ss[i]))
  }

  /** The required list and properties map of a definition, read back. */
  function Lists(definition: LinkedMap<JsonValue>): Appended
    requires Get(definition, "required").Some? && Get(definition, "required").value.JArray?
    requires Get(definition, "properties").Some? && Get(definition, "properties").value.JObject?
  {
    Appended(Get(definition, "required").value.items, Get(definition, "properties").value.members)
  }

  function WithLists(definition: LinkedMap<JsonValue>, a: Appended): LinkedMap<JsonValue>
  {
    Put(Put(definition, "required", JArray(a.required)), "properties", JObject(a.properties))
  }

  /** appendProperties: "id" first, then every property with an accessor in
      input order, each added to the properties map and named in the
      required list. */
  method AppendProperties(props: seq<Property>, definition: LinkedMap<JsonValue>, id: string)
    returns (result: LinkedMap<JsonValue>)
    requires Get(definition, "required").Some? && Get(definition, "required").value.JArray?
    requires Get(definition, "properties").Some? && Get(definition, "properties").value.JObject?
    ensures result == WithLists(definition, AppendAll(AppendId(Lists(definition), id), props))
  {
    var required := Get(definition, "required").value.items;
    var definitions := Get(definition, "properties").value.members;
    definitions := Put(definitions, "id", JObject(IdSchema(id)));
    required := required + [JString("id")];
    var i := 0;
    while i < |props|
      invariant 0 <= i <= |props|
      invariant Appended(required, definitions) == AppendAll(AppendId(Lists(definition), id), props[..i])
    {
      assert props[..i + 1][..i] == props[..i];
      var property := props[i];
      if property.hasAccessor {
        definitions := Put(definitions, property.name, JObject(PropertySchema(property)));
        required := required + [JString(property.name)];
      }
      i := i + 1;
    }
    assert props[..|props|] == props;
    result := WithLists(definition, Appended(required, definitions));
  }

  lemma {:induction false} HasKeyIsKey(m: LinkedMap<JsonValue>, k: string)
    ensures HasKey(m, k) <==> k in Keys(m)
  {
    if HasKey(m, k) {
      var i :| 0 <= i < |m| && m[i].key == k;
      assert Keys(m)[i] == k;
    }
  }

  /** A sequence without repetition splits into two without repetition and
      without a common element. */
  lemma {:induction false} DistinctSplit<T>(s: seq<T>, t: seq<T>)
    requires Distinct(s + t)
    ensures Distinct(s) && Distinct(t) && forall x | x in t :: x !in s
  {
    forall i, j | 0 <= i < j < |s| ensures s[i] != s[j] {
      assert (s + t)[i] == s[i] && (s + t)[j] == s[j];
    }
    forall i, j | 0 <= i < j < |t| ensures t[i] != t[j] {
      assert (s + t)[|s| + i] == t[i] && (s + t)[|s| + j] == t[j];
    }
    forall i, j | 0 <= i < |s| && 0 <= j < |t| ensures s[i] != t[j] {
      assert (s + t)[i] == s[i] && (s + t)[|s| + j] == t[j];
    }
  }

  lemma {:induction false} ListedNamesStep(props: seq<Property>)
    requires |props| > 0
    ensures var last := props[|props| - 1];
      ListedNames(props) == ListedNames(props[..|props| - 1]) + (if last.hasAccessor then [last.name] else [])
  {
  }

  /** Every property with an accessor is among the listed names. */
  lemma {:induction false} ListedNamesCover(props: seq<Property>, i: nat)
    requires i < |props| && props[i].hasAccessor
    ensures props[i].name in ListedNames(props)
    decreases |props|
  {
    var n := |props| - 1;
    ListedNamesStep(props);
    if i < n {
      ListedNamesCover(props[..n], i);
      assert props[..n][i] == props[i];
    }
  }

  /** The required list grows by the listed names, in order. */
  lemma {:induction false} AppendAllRequired(a: Appended, props: seq<Property>)
    ensures AppendAll(a, props).required == a.required + Strings(ListedNames(props))
    decreases |props|
  {
    if |props| > 0 {
      var n := |props| - 1;
      AppendAllRequired(a, props[..n]);
      ListedNamesStep(props);
      var names := ListedNames(props[..n]);
      if props[n].hasAccessor {
        assert Strings(names + [props[n].name]) == Strings(names) + [JString(props[n].name)];
      } else {
        assert names + [] == names;
      }
    }
  }

  /** The properties map grows by the listed names, in order, when they are
      new to it and distinct. */
  lemma {:induction false} AppendAllKeys(a: Appended, props: seq<Property>)
    requires Distinct(Keys(a.properties) + ListedNames(props))
    ensures Keys(AppendAll(a, props).properties) == Keys(a.properties) + ListedNames(props)
    decreases |props|
  {
    if |props| > 0 {
      var n := |props| - 1;
      var last := props[n];
      var names := ListedNames(props[..n]);
      ListedNamesStep(props);
      if last.hasAccessor {
        assert Keys(a.properties) + ListedNames(props) == (Keys(a.properties) + names) + [last.name];
        DistinctSplit(Keys(a.properties) + names, [last.name]);
        AppendAllKeys(a, props[..n]);
        var b := AppendAll(a, props[..n]);
        HasKeyIsKey(b.properties, last.name);
        PutFreshKey(b.properties, last.name, JObject(PropertySchema(last)));
      } else {
        assert names + [] == names;
        AppendAllKeys(a, props[..n]);
      }
    }
  }

  /** A key no listed property has keeps its entry. */
  lemma {:induction false} AppendAllKeeps(a: Appended, props: seq<Property>, k: string)
    requires k !in ListedNames(props)
    ensures Get(AppendAll(a, props).properties, k) == Get(a.properties, k)
    decreases |props|
  {
    if |props| > 0 {
      var n := |props| - 1;
      ListedNamesStep(props);
      AppendAllKeeps(a, props[..n], k);
      var b := AppendAll(a, props[..n]);
      if props[n].hasAccessor {
        PutOther(b.properties, props[n].name, JObject(PropertySchema(props[n])), k);
      }
    }
  }

  /** With distinct listed names, every property with an accessor ends up
      with its own schema. */
  lemma {:induction false} AppendAllHolds(a: Appended, props: seq<Property>, i: nat)
    requires i < |props| && props[i].hasAccessor && Distinct(ListedNames(props))
    ensures Get(AppendAll(a, props).properties, props[i].name) == Some(JObject(PropertySchema(props[i])))
    decreases |props|
  {
    var n := |props| - 1;
    var last := props[n];
    if i < n {
      var names := ListedNames(props[..n]);
      ListedNamesStep(props);
      DistinctSplit(names, if last.hasAccessor then [last.name] else []);
      AppendAllHolds(a, props[..n], i);
      assert props[..n][i] == props[i];
      ListedNamesCover(props[..n], i);
      if last.hasAccessor {
        PutOther(AppendAll(a, props[..n]).properties, last.name, JObject(PropertySchema(last)), props[i].name);
      }
    }
  }

  /** With distinct listed names other than "id", the properties map holds
      "id" and then exactly the listed names in input order, each with its
      property schema, and the required list names the same keys in the same
      order. A property without an accessor appears in neither. */
  lemma {:induction false} AppendedLayout(id: string, props: seq<Property>)
    requires Distinct(ListedNames(props)) && "id" !in ListedNames(props)
    ensures Keys(AppendAll(AppendId(Appended([], []), id), props).properties) == ["id"] + ListedNames(props)
    ensures AppendAll(AppendId(Appended([], []), id), props).required == Strings(["id"] + ListedNames(props))
    ensures Get(AppendAll(AppendId(Appended([], []), id), props).properties, "id") == Some(JObject(IdSchema(id)))
    ensures forall i | 0 <= i < |props| && props[i].hasAccessor ::
      Get(AppendAll(AppendId(Appended([], []), id), props).properties, props[i].name) == Some(JObject(PropertySchema(props[i])))
  {
    var start := AppendId(Appended([], []), id);
    var names := ListedNames(props);
    StartLayout(id);
    DistinctCons("id", names);
    AppendAllKeys(start, props);
    AppendAllRequired(start, props);
    StringsCons("id", names);
    AppendAllKeeps(start, props, "id");
    forall i | 0 <= i < |props| && props[i].hasAccessor
      ensures Get(AppendAll(start, props).properties, props[i].name) == Some(JObject(PropertySchema(props[i])))
    {
      AppendAllHolds(start, props, i);
    }
  }

  /** The lists after the id alone. */
  lemma {:induction false} StartLayout(id: string)
    ensures Keys(AppendId(Appended([], []), id).properties) == ["id"]
    ensures Get(AppendId(Appended([], []), id).properties, "id") == Some(JObject(IdSchema(id)))
    ensures AppendId(Appended([], []), id).required == [JString("id")]
  {
    assert AppendId(Appended([], []), id).properties == [Entry("id", JObject(IdSchema(id)))];
  }

  lemma {:induction false} DistinctCons(x: string, s: seq<string>)
    requires Distinct(s) && x !in s
    ensures Distinct([x] + s)
  {
    forall i, j | 0 <= i < j < |[x] + s| ensures ([x] + s)[i] != ([x] + s)[j] {
      assert ([x] + s)[j] == s[j - 1];
      if i > 0 {
        assert ([x] + s)[i] == s[i - 1];
      }
    }
  }

  lemma {:induction false} StringsCons(x: string, s: seq<string>)
    ensures Strings([x] + s) == [JString(x)] + Strings(s)
  {
    assert forall i | 0 <= i < |s| + 1 :: Strings([x] + s)[i] == ([JString(x)] + Strings(s))[i];
  }

  /** Whatever the properties, the required list starts with "id" and then
      names every property with an accessor, in input order, duplicates
      included. */
  lemma {:induction false} RequiredListsEveryListedName(id: string, props: seq<Property>)
    ensures AppendedFor(id, props).required == Strings(["id"] + ListedNames(props))
    ensures AppendedFor(id, props).required[0] == JString("id")
  {
    StartLayout(id);
    AppendAllRequired(AppendId(Appended([], []), id), props);
    StringsCons("id", ListedNames(props));
  }

  /** A property named "id" replaces the id's constant schema in place, and
      "id" is then required twice. */
  lemma {:induction false} IdPropertyReplacesIdSchema(id: string)
    ensures var p := Property("id", "java.lang.String", true, None);
      var a := AppendedFor(id, [p]);
      Keys(a.properties) == ["id"] &&
      Get(a.properties, "id") == Some(JObject(PropertySchema(p))) &&
      a.required == [JString("id"), JString("id")]
  {
    var p := Property("id", "java.lang.String", true, None);
    var start := AppendId(Appended([], []), id);
    assert [p][..0] == [];
    assert AppendAll(start, [p][..0]) == start;
    assert AppendAll(start, [p]) == AppendProperty(start, p);
    assert |start.properties| == 1 && start.properties[0].key == "id";
    assert HasKey(start.properties, "id");
  }

  // ---------------------------------------------------------------------------
  // The schema of a registry (createSchema)
  // ---------------------------------------------------------------------------

  /** The description of a definition's annotation, if it has a non-empty
      one. */
  function DescriptionPart(info: ClassInfo): (m: LinkedMap<JsonValue>)
    ensures |m| <= 1 && forall i | 0 <= i < |m| :: m[i].key == "description"
  {
    if info.description != "" then [Entry("description", JString(info.description))] else []
  }

  /** A definition's chunk with the given lists. */
  function Chunk(info: ClassInfo, a: Appended): LinkedMap<JsonValue>
  {
    DescriptionPart(info) + [Entry("required", JArray(a.required)), Entry("properties", JObject(a.properties))]
  }

  /** The lists of a definition: "id", then the properties with an accessor. */
  function AppendedFor(id: string, props: seq<Property>): Appended
  {
    AppendAll(AppendId(Appended([], []), id), props)
  }

  /** The finished chunk of one definition. */
  function ComponentSchema(info: ClassInfo, id: string): LinkedMap<JsonValue>
  {
    Chunk(info, AppendedFor(id, info.properties))
  }

  /** Reading the lists of a chunk gives them back. */
  lemma {:induction false} ListsOfChunk(info: ClassInfo, a: Appended)
    ensures Get(Chunk(info, a), "required") == Some(JArray(a.required))
    ensures Get(Chunk(info, a), "properties") == Some(JObject(a.properties))
    ensures HasKey(Chunk(info, a), "description") <==> info.description != ""
  {
    var c := Chunk(info, a);
    if info.description != "" {
      assert c[0].key == "description";
      assert c[1..] == [Entry("required", JArray(a.required)), Entry("properties", JObject(a.properties))];
      assert c[1..][1..] == [Entry("properties", JObject(a.properties))];
      assert Get(c[1..][1..], "properties") == Some(JObject(a.properties));
      assert Get(c[1..], "properties") == Some(JObject(a.properties));
    } else {
      assert c == [Entry("required", JArray(a.required)), Entry("properties", JObject(a.properties))];
      assert forall i | 0 <= i < |c| :: c[i].key != "description";
    }
  }

  /** Writing the lists of a chunk back replaces them where they stand. */
  lemma {:induction false} WithListsOfChunk(info: ClassInfo, a: Appended, b: Appended)
    ensures WithLists(Chunk(info, a), b) == Chunk(info, b)
  {
    var pre := DescriptionPart(info);
    assert !HasKey(pre, "required") && !HasKey(pre, "properties");
    ListsPut(JArray(a.required), JObject(a.properties), JArray(b.required), JObject(b.properties));
    PutAfterPrefix(pre, [Entry("required", JArray(a.required)), Entry("properties", JObject(a.properties))],
      "required", JArray(b.required));
    PutAfterPrefix(pre, [Entry("required", JArray(b.required)), Entry("properties", JObject(a.properties))],
      "properties", JObject(b.properties));
  }

  /** The two list entries, replaced one after the other. */
  lemma ListsPut(x: JsonValue, y: JsonValue, x': JsonValue, y': JsonValue)
    ensures Put([Entry("required", x), Entry("properties", y)], "required", x')
      == [Entry("required", x'), Entry("properties", y)]
    ensures Put([Entry("required", x'), Entry("properties", y)], "properties", y')
      == [Entry("required", x'), Entry("properties", y')]
  {
    var m := [Entry("required", x'), Entry("properties", y)];
    PutStep(m, "properties", y');
    assert m[1..] == [Entry("properties", y)];
  }

  /** The chunk of a definition: its description as annotated, "id" and the
      listed properties both in the required list and in the properties map. */
  lemma {:induction false} ComponentSchemaLayout(info: ClassInfo, id: string)
    requires Distinct(ListedNames(info.properties)) && "id" !in ListedNames(info.properties)
    ensures HasKey(ComponentSchema(info, id), "description") <==> info.description != ""
    ensures Get(ComponentSchema(info, id), "required") == Some(JArray(Strings(["id"] + ListedNames(info.properties))))
    ensures Get(ComponentSchema(info, id), "properties") == Some(JObject(AppendedFor(id, info.properties).properties))
    ensures Keys(AppendedFor(id, info.properties).properties) == ["id"] + ListedNames(info.properties)
  {
    ListsOfChunk(info, AppendedFor(id, info.properties));
    AppendedLayout(id, info.properties);
  }

  /** The chunk of every registered definition, by id. */
  function Chunks(defs: map<string, ClassInfo>): (chunks: map<string, LinkedMap<JsonValue>>)
    ensures chunks.Keys == defs.Keys
  {
    map k | k in defs :: ComponentSchema(defs[k], k)
  }

  lemma {:induction false} ChunkOf(defs: map<string, ClassInfo>, k: string)
    requires k in defs
    ensures Chunks(defs)[k] == ComponentSchema(defs[k], k)
  {
  }

  /** The chunks put into a map in the order of `ids`. */
  function DefinitionsInOrder(chunks: map<string, LinkedMap<JsonValue>>, ids: seq<string>): LinkedMap<JsonValue>
    requires forall k | 0 <= k < |ids| :: ids[k] in chunks
  {
    if |ids| == 0 then []
    else
      var last := ids[|ids| - 1];
      Put(DefinitionsInOrder(chunks, ids[..|ids| - 1]), last, JObject(chunks[last]))
  }

  /** With distinct ids, the map holds exactly the ids, in that order. */
  lemma {:induction false} DefinitionsInOrderKeys(chunks: map<string, LinkedMap<JsonValue>>, ids: seq<string>)
    requires forall k | 0 <= k < |ids| :: ids[k] in chunks
    requires Distinct(ids)
    ensures Keys(DefinitionsInOrder(chunks, ids)) == ids
    decreases |ids|
  {
    if |ids| > 0 {
      var n := |ids| - 1;
      var prefix := ids[..n];
      assert ids == prefix + [ids[n]];
      DistinctSplit(prefix, [ids[n]]);
      DefinitionsInOrderKeys(chunks, prefix);
      var m := DefinitionsInOrder(chunks, prefix);
      HasKeyIsKey(m, ids[n]);
      PutFreshKey(m, ids[n], JObject(chunks[ids[n]]));
    }
  }

  /** With distinct ids, each id holds its own chunk. */
  lemma {:induction false} DefinitionsInOrderHolds(chunks: map<string, LinkedMap<JsonValue>>, ids: seq<string>, j: nat)
    requires forall k | 0 <= k < |ids| :: ids[k] in chunks
    requires Distinct(ids) && j < |ids|
    ensures Get(DefinitionsInOrder(chunks, ids), ids[j]) == Some(JObject(chunks[ids[j]]))
    decreases |ids|
  {
    var n := |ids| - 1;
    if j < n {
      var prefix := ids[..n];
      assert ids == prefix + [ids[n]];
      DistinctSplit(prefix, [ids[n]]);
      DefinitionsInOrderHolds(chunks, prefix, j);
      assert prefix[j] == ids[j] && ids[j] != ids[n];
      PutOther(DefinitionsInOrder(chunks, prefix), ids[n], JObject(chunks[ids[n]]), ids[j]);
    }
  }

  /** A finite set of strings can be listed without repetition. */
  lemma {:induction false} EnumerationExists(s: set<string>)
    ensures exists e :: Distinct(e) && forall y :: y in e <==> y in s
    decreases s
  {
    if s == {} {
      var e: seq<string> := [];
      assert Distinct(e) && forall y :: y in e <==> y in s;
    } else {
      var x :| x in s;
      EnumerationExists(s - {x});
      var e :| Distinct(e) && forall y :: y in e <==> y in s - {x};
      assert Distinct(e + [x]) && forall y :: y in e + [x] <==> y in s;
    }
  }

  /** The ids of a registry in ascending order. */
  ghost function SortedIds(s: set<string>): (r: seq<string>)
    ensures StrictlySorted(r) && forall y :: y in r <==> y in s
  {
    EnumerationExists(s);
    var e :| Distinct(e) && forall y :: y in e <==> y in s;
    Sort(e)
  }

  /** The oneOf list: one reference per id, in the order given. */
  function Refs(ids: seq<string>): (r: seq<JsonValue>)
    ensures |r| == |ids|
    ensures forall i | 0 <= i < |ids| :: r[i] == JObject([Entry("$ref", JString("#/definitions/" + ids[i]))])
  {
    seq(|ids|, i requires 0 <= i < |ids| => JObject([Entry("$ref", JString("#/definitions/" + ids[i]))]))
  }

  function RefType(ids: seq<string>): LinkedMap<JsonValue>
  {
    [Entry("type", JString("object")), Entry("oneOf", JArray(Refs(ids)))]
  }

  /** The "definitions" of a schema: the chunks sorted by id, then the group
      entry put last (over a chunk of the same name, if there is one). */
  ghost function SortedDefinitions(defs: map<string, ClassInfo>, role: Role): LinkedMap<JsonValue>
  {
    var ids := SortedIds(defs.Keys);
    Put(DefinitionsInOrder(Chunks(defs), ids), Group(role), JObject(RefType(ids)))
  }

  ghost function SchemaOf(defs: map<string, ClassInfo>, role: Role): LinkedMap<JsonValue>
  {
    [Entry("$schema", JString(DraftSeven)),
     Entry("title", JString(Title(role))),
     Entry("type", JString("object")),
     Entry("definitions", JObject(SortedDefinitions(defs, role)))]
  }

  /** The three puts of createSchema's loop give the empty chunk. */
  lemma {:induction false} BaseIsChunk(info: ClassInfo, base: LinkedMap<JsonValue>)
    requires base == Put(Put(if info.description != "" then Put([], "description", JString(info.description)) else [],
      "required", JArray([])), "properties", JObject([]))
    ensures base == Chunk(info, Appended([], []))
  {
    if info.description != "" {
      var d := Put([], "description", JString(info.description));
      assert d == [Entry("description", JString(info.description))];
      var d1 := Put(d, "required", JArray([]));
      assert d1 == [d[0]] + Put([], "required", JArray([]));
      assert Put(d1, "properties", JObject([])) == [d1[0]] + Put(d1[1..], "properties", JObject([]));
      assert Put(d1[1..], "properties", JObject([])) == [d1[1]] + Put([], "properties", JObject([]));
    } else {
      var d1 := Put([], "required", JArray([]));
      assert d1 == [Entry("required", JArray([]))];
      assert Put(d1, "properties", JObject([])) == [d1[0]] + Put([], "properties", JObject([]));
    }
  }

  /** The body of createSchema's loop for one definition: description,
      empty required list and properties map, then appendProperties. */
  method DefinitionChunk(info: ClassInfo, id: string) returns (jsonDefinition: LinkedMap<JsonValue>)
    ensures jsonDefinition == ComponentSchema(info, id)
  {
    jsonDefinition := [];
    if info.description != "" {
      jsonDefinition := Put(jsonDefinition, "description", JString(info.description));
    }
    jsonDefinition := Put(jsonDefinition, "required", JArray([]));
    jsonDefinition := Put(jsonDefinition, "properties", JObject([]));
    BaseIsChunk(info, jsonDefinition);
    ListsOfChunk(info, Appended([], []));
    jsonDefinition := AppendProperties(info.properties, jsonDefinition, id);
    WithListsOfChunk(info, Appended([], []), AppendedFor(id, info.properties));
  }

  /** The first half of createSchema: every registered definition's chunk,
      collected in whatever order the registry hands the ids out. */
  method CollectDefinitions(defs: map<string, ClassInfo>)
    returns (allIds: seq<string>, jsonDefinitions: map<string, LinkedMap<JsonValue>>)
    ensures Distinct(allIds) && forall y :: y in allIds <==> y in defs
    ensures jsonDefinitions.Keys == defs.Keys
    ensures forall k | k in jsonDefinitions :: jsonDefinitions[k] == Chunks(defs)[k]
  {
    allIds := [];
    jsonDefinitions := map[];
    var left := defs.Keys;
    while left != {}
      invariant left <= defs.Keys
      invariant Distinct(allIds)
      invariant forall y :: y in allIds <==> y in defs && y !in left
      invariant jsonDefinitions.Keys == defs.Keys - left
      invariant forall k | k in jsonDefinitions :: jsonDefinitions[k] == ComponentSchema(defs[k], k)
      decreases left
    {
      var id :| id in left;
      DistinctSnoc(allIds, id);
      allIds := allIds + [id];
      var jsonDefinition := DefinitionChunk(defs[id], id);
      jsonDefinitions := jsonDefinitions[id := jsonDefinition];
      left := left - {id};
    }
    ChunksAgree(defs, jsonDefinitions);
  }

  lemma ChunksAgree(defs: map<string, ClassInfo>, chunks: map<string, LinkedMap<JsonValue>>)
    requires chunks.Keys == defs.Keys
    requires forall k | k in chunks :: chunks[k] == ComponentSchema(defs[k], k)
    ensures forall k | k in chunks :: chunks[k] == Chunks(defs)[k]
  {
  }

  /** The chunks put into a new map in the order of `ids`. */
  method PutInOrder(chunks: map<string, LinkedMap<JsonValue>>, ids: seq<string>) returns (m: LinkedMap<JsonValue>)
    requires forall k | 0 <= k < |ids| :: ids[k] in chunks
    ensures m == DefinitionsInOrder(chunks, ids)
  {
    m := [];
    var i := 0;
    while i < |ids|
      invariant 0 <= i <= |ids|
      invariant m == DefinitionsInOrder(chunks, ids[..i])
    {
      DefinitionsInOrderStep(chunks, ids, i);
      m := Put(m, ids[i], JObject(chunks[ids[i]]));
      i := i + 1;
    }
    assert ids[..|ids|] == ids;
  }

  /** One more id in the prefix puts one more chunk. */
  lemma DefinitionsInOrderStep(chunks: map<string, LinkedMap<JsonValue>>, ids: seq<string>, i: nat)
    requires forall k | 0 <= k < |ids| :: ids[k] in chunks
    requires i < |ids|
    ensures DefinitionsInOrder(chunks, ids[..i + 1])
      == Put(DefinitionsInOrder(chunks, ids[..i]), ids[i], JObject(chunks[ids[i]]))
  {
    assert ids[..i + 1][..i] == ids[..i];
  }

  /** Two chunk maps that agree on the ids give the same definitions. */
  lemma {:induction false} DefinitionsInOrderAgree(c1: map<string, LinkedMap<JsonValue>>, c2: map<string, LinkedMap<JsonValue>>, ids: seq<string>)
    requires forall k | 0 <= k < |ids| :: ids[k] in c1 && ids[k] in c2 && c1[ids[k]] == c2[ids[k]]
    ensures DefinitionsInOrder(c1, ids) == DefinitionsInOrder(c2, ids)
    decreases |ids|
  {
    if |ids| > 0 {
      DefinitionsInOrderAgree(c1, c2, ids[..|ids| - 1]);
    }
  }

  /** createSchema: each registered definition's chunk collected in the
      registry's own order, then emitted sorted by id, followed by the
      group's reference entry. */
  method CreateSchema(defs: map<string, ClassInfo>, role: Role) returns (schema: LinkedMap<JsonValue>)
    ensures schema == SchemaOf(defs, role)
  {
    var allIds, jsonDefinitions := CollectDefinitions(defs);
    var sorted := Sort(allIds);
    SortedEnumerationUnique(sorted, SortedIds(defs.Keys));
    assert forall k | 0 <= k < |sorted| :: sorted[k] in jsonDefinitions && sorted[k] in Chunks(defs) by {
      forall k | 0 <= k < |sorted| ensures sorted[k] in defs {
        assert sorted[k] in sorted;
      }
    }
    var sortedDefinitions := PutInOrder(jsonDefinitions, sorted);
    DefinitionsInOrderAgree(jsonDefinitions, Chunks(defs), sorted);
    var refType := [Entry("type", JString("object")), Entry("oneOf", JArray(Refs(sorted)))];
    sortedDefinitions := Put(sortedDefinitions, Group(role), JObject(refType));
    schema := [
      Entry("$schema", JString(DraftSeven)),
      Entry("title", JString(Title(role))),
      Entry("type", JString("object")),
      Entry("definitions", JObject(sortedDefinitions))];
  }

  /** When no id is the group's name, the definitions are every registered
      id in ascending order and then the group entry, whose oneOf references
      each id once, in the same order. */
  lemma {:induction false} SortedDefinitionsLayout(defs: map<string, ClassInfo>, role: Role)
    requires Group(role) !in defs
    ensures Keys(SortedDefinitions(defs, role)) == SortedIds(defs.Keys) + [Group(role)]
    ensures Get(SortedDefinitions(defs, role), Group(role)) == Some(JObject(RefType(SortedIds(defs.Keys))))
  {
    var ids := SortedIds(defs.Keys);
    var chunks := Chunks(defs);
    StrictlySortedIsDistinct(ids);
    DefinitionsInOrderKeys(chunks, ids);
    var m := DefinitionsInOrder(chunks, ids);
    HasKeyIsKey(m, Group(role));
    PutFreshKey(m, Group(role), JObject(RefType(ids)));
  }

  /** Every registered id other than the group's name holds its chunk. */
  lemma {:induction false} SortedDefinitionsHold(defs: map<string, ClassInfo>, role: Role, k: string)
    requires k in defs && k != Group(role)
    ensures Get(SortedDefinitions(defs, role), k) == Some(JObject(ComponentSchema(defs[k], k)))
  {
    var ids := SortedIds(defs.Keys);
    var chunks := Chunks(defs);
    StrictlySortedIsDistinct(ids);
    assert k in ids;
    var j :| 0 <= j < |ids| && ids[j] == k;
    assert forall i | 0 <= i < |ids| :: ids[i] in chunks by {
      forall i | 0 <= i < |ids| ensures ids[i] in chunks {
        assert ids[i] in ids;
      }
    }
    DefinitionsInOrderHolds(chunks, ids, j);
    PutOther(DefinitionsInOrder(chunks, ids), Group(role), JObject(RefType(ids)), k);
  }

  lemma {:induction false} DefinitionsInOrderSingle(chunks: map<string, LinkedMap<JsonValue>>, id: string)
    requires id in chunks
    ensures DefinitionsInOrder(chunks, [id]) == Put([], id, JObject(chunks[id]))
  {
    assert [id][..0] == [];
  }

  /** An id equal to the group's name loses its chunk: the group entry takes
      its place and its oneOf references that entry itself. */
  lemma {:induction false} GroupShadowsSameNamedDefinition(info: ClassInfo)
    ensures Keys(SortedDefinitions(map["rules" := info], RuleRole)) == ["rules"]
    ensures Get(SortedDefinitions(map["rules" := info], RuleRole), "rules") == Some(JObject(RefType(["rules"])))
  {
    var defs := map["rules" := info];
    var ids := SortedIds(defs.Keys);
    SortedEnumerationUnique(ids, ["rules"]);
    var chunks := Chunks(defs);
    DefinitionsInOrderSingle(chunks, "rules");
    var m := DefinitionsInOrder(chunks, ids);
    assert m[0].key == "rules" && |m| == 1;
    var d := Put(m, "rules", JObject(RefType(ids)));
    assert HasKey(m, "rules");
    assert |d| == 1 && d[0].key == "rules";
    assert Keys(d) == ["rules"];
  }

  // ---------------------------------------------------------------------------
  // The root schema (getRootSchema)
  // ---------------------------------------------------------------------------

  /** getRootSchema: every placeholder in the template replaced by the url;
      reading the template resource is left to the caller. */
  function RootSchema(template: string, url: string): string
  {
    ReplaceAll(template, UrlPlaceholder, url)
  }

  /** Every placeholder is filled: a template made of placeholder-free pieces
      around the placeholders becomes the pieces around the url. The pieces
      may hold any JSON text, braces included. */
  lemma {:induction false} RootSchemaFillsPlaceholders(pieces: seq<string>, url: string)
    requires forall k, i: nat | 0 <= k < |pieces| :: !OccursAt(pieces[k], UrlPlaceholder, i)
    ensures RootSchema(Join(pieces, UrlPlaceholder), url) == Join(pieces, url)
  {
    PlaceholderUnbordered();
    ReplaceAllJoin(pieces, UrlPlaceholder, url);
  }

  /** No proper prefix of the placeholder is also a suffix of it, so two
      placeholders never overlap. */
  lemma PlaceholderUnbordered()
    ensures Unbordered(UrlPlaceholder)
  {
    var t := UrlPlaceholder;
    forall d | 0 < d < |t| ensures t[d..] != t[..|t| - d] {
      if d == 1 {
        assert t[d..][1] != t[..|t| - d][1];
      } else {
        assert t[d..][0] != t[..|t| - d][0];
      }
    }
  }

  /** A JSON template whose "$id" is the placeholder gets the url there. */
  lemma RootSchemaOfJsonTemplate(url: string)
    ensures RootSchema("{\"$id\": \"" + UrlPlaceholder + "\"}", url) == "{\"$id\": \"" + url + "\"}"
  {
    var a, b := "{\"$id\": \"", "\"}";
    forall i: nat ensures !OccursAt(a, UrlPlaceholder, i) {
      if i == 0 {
        assert a[..|UrlPlaceholder|][1] != UrlPlaceholder[1];
      }
    }
    forall i: nat ensures !OccursAt(b, UrlPlaceholder, i) {
    }
    var pieces := [a, b];
    assert pieces[1..] == [b];
    assert Join(pieces, UrlPlaceholder) == a + UrlPlaceholder + b;
    assert Join(pieces, url) == a + url + b;
    RootSchemaFillsPlaceholders(pieces, url);
  }
}
