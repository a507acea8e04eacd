# spring-json-validation-engine in Dafny

This project models the core of a small rule engine for JSON documents that
runs inside a Spring application.

**Rule sets.** A *rule set* has:
- a name and a description;
- a list of *matcher definitions*, which decide whether the rule set applies to a document;
- a list of *rule definitions*, which the document must then satisfy.

**Definition shapes.** There are three built-in shapes:
- `FieldEquals(jsonPath, value)`;
- `FieldNotEquals(jsonPath, value)`;
- `FieldNotEmpty(jsonPath)`.

Each shape has one id in the matcher role and another in the rule role, for
example `field-equals-matcher` and `field-equals-rule`.

**Components.** A *component* (`NativeRuleSetComponent`) gives a shape its
check and its failure message, and hands out:
- a `Matcher`, guarded by exact class equality;
- a `Validator`, guarded by reversed assignability followed by a cast.

**Validation.** The engine (`RuleSetValidator`) keeps a mutable set of active
rule sets. It validates a document as follows:
1. It visits every active rule set.
2. A rule set applies when every matcher definition is accepted by every
   registered matcher of exactly its class.
3. When a rule set applies, its rule definitions are run in list order through
   the validators of exactly their class.
4. The first failure, tagged with its rule set, ends the whole validation.

**Around the engine** the model covers:
- the `RuleSet` bean and the fluent `RuleSetBuilder`;
- the wire codec (`RuleSetDeserializer` and `RuleSetSerializer`), which injects and resolves role ids through two id-to-shape registries;
- the name-keyed `InMemoryRuleSetRepository`;
- the `RuleSetService`, which keeps the repository and the engine in step;
- the lazily caching `JsonWrapper`;
- the JSON-Schema (draft-07) generator `SchemaGenerator`.

**Modules**, one per source file or tight group of files:
- `Wrappers`: `Option` and `Result`.
- `Text`: string joining, ordering, sorting and replace-all.
- `Json`: JSON values and insertion-ordered maps (`LinkedMap`, standing for `LinkedHashMap`).
- `Definitions`: the three shapes, their ids, their Java classes.
- `Plugins`: the components, matchers and validators.
- `RuleSets`, `Builder`, `Engine`, `Codec`, `Wrapper` (JsonWrapper), `Repository`, `Service`, `Schema`.

**Form of the model.** Code that mutates state is modelled as classes with
`modifies` clauses, and loops as methods with invariants, proved against
specification functions. Pure code is modelled as functions and lemmas.

The JSON-path reader is not defined in any source file here. It is a
parameter: `PathReader = (Option<string>, JsonValue) -> Option<JsonValue>`.

## Model

| member | source | states |
|---|---|---|
| Definitions.IdsDistinct | src/main/java/com/github/jazzschmidt/spring/jsonvalidation/components/FieldNotEmpty.java:10-11 | the six role ids of the three shapes are equal only for the same role and shape, so each id names one shape in one role |
| Definitions.ExactClassIsDefinition | src/main/java/com/github/jazzschmidt/spring/jsonvalidation/components/FieldNotEquals.java:12 | a definition list entry has a definition class exactly when it is an exact instance of that shape; FieldEquals and FieldNotEquals are never confused, and plain objects and subclass instances have no definition class |
| Plugins.ReadJsonPath | src/main/java/com/github/jazzschmidt/spring/jsonvalidation/components/FieldEqualsComponent.java:21-22 | a read yields no JSON null: absent and explicit null are both None, and a present value is what the path reader gives |
| Plugins.NativeFor | src/main/java/com/github/jazzschmidt/spring/jsonvalidation/components/FieldEqualsComponent.java:15-17 | the component chosen for a shape is bound to that shape |
| Plugins.NativeForIsInverse | src/main/java/com/github/jazzschmidt/spring/jsonvalidation/components/FieldNotEmptyComponent.java:15-17 | each component is the one chosen for its own target shape (the binding is one to one) |
| Plugins.Matches | src/main/java/com/github/jazzschmidt/spring/jsonvalidation/components/FieldEqualsComponent.java:20-23 | the three components' matches: no component matches a path that is absent or holds null; the exact conditions are stated by the three Semantics lemmas |
| Plugins.FieldEqualsSemantics | src/main/java/com/github/jazzschmidt/spring/jsonvalidation/components/FieldEqualsComponent.java:20-23 | field-equals matches iff the value at the path is present and equal to the expected value; an absent path or a null expected value never matches |
| Plugins.FieldNotEqualsSemantics | src/main/java/com/github/jazzschmidt/spring/jsonvalidation/components/FieldNotEqualsComponent.java:15-18 | field-not-equals matches iff the value at the path is present and differs from the given value; an absent field does not match |
| Plugins.FieldNotEmptySemantics | src/main/java/com/github/jazzschmidt/spring/jsonvalidation/components/FieldNotEmptyComponent.java:20-22 | field-not-empty matches iff a value is present at the path (absent and null alike fail) |
| Plugins.EqualsAndNotEqualsPartitionNotEmpty | src/main/java/com/github/jazzschmidt/spring/jsonvalidation/components/FieldNotEqualsComponent.java:15-18 | for the same path and value, equals and not-equals never both match, and one of them matches exactly when not-empty does |
| Plugins.FailureMessage | src/main/java/com/github/jazzschmidt/spring/jsonvalidation/NativeRuleSetComponent.java:54-55 | every failure carries a non-empty message |
| Plugins.Apply | src/main/java/com/github/jazzschmidt/spring/jsonvalidation/NativeRuleSetComponent.java:65-69 | apply throws the component's validationException exactly when matches is false; `Plugins.PairedValidatorAgreesWithMatcher` states it through the validator |
| Plugins.PresentValueScenario | src/main/java/com/github/jazzschmidt/spring/jsonvalidation/components/FieldNotEqualsComponent.java:22-26 | with the value present at the path, a field-equals rule passes and a field-not-equals rule fails with "Value of <path> must not be `<value>`" |
| Plugins.FieldEqualsMessageShowsActual | src/main/java/com/github/jazzschmidt/spring/jsonvalidation/components/FieldEqualsComponent.java:27-32 | the field-equals message re-reads the document: two documents with different actual values give different messages |
| Plugins.GetMatcher | src/main/java/com/github/jazzschmidt/spring/jsonvalidation/NativeRuleSetComponent.java:15-27 | the component's matcher has the component's target type |
| Plugins.GetValidator | src/main/java/com/github/jazzschmidt/spring/jsonvalidation/NativeRuleSetComponent.java:15-18 | the component's validator has the same target type as its matcher |
| Plugins.MatchesObject | src/main/java/com/github/jazzschmidt/spring/jsonvalidation/Matcher.java:35-41 | matchesObject: the class-equality guard, then the delegate's matches; `Plugins.MatchesObjectGuard` states when it answers |
| Plugins.ApplyObject | src/main/java/com/github/jazzschmidt/spring/jsonvalidation/Validator.java:11-17 | applyObject: the reversed-assignability guard, the cast, then apply; `Plugins.ApplyObjectGuard` and `Plugins.ApplyObjectCastFailure` state its errors |
| Plugins.MatchesObjectGuard | src/main/java/com/github/jazzschmidt/spring/jsonvalidation/Matcher.java:35-41 | matchesObject answers iff the definition's class is exactly the target type, and otherwise fails with an error naming the target type, never with false |
| Plugins.MatchesObjectRejectsSubclass | src/main/java/com/github/jazzschmidt/spring/jsonvalidation/Matcher.java:36-38 | an instance of a subclass of the target type is refused |
| Plugins.ApplyObjectGuard | src/main/java/com/github/jazzschmidt/spring/jsonvalidation/Validator.java:11-14 | applyObject fails with "Cannot match unsupported definition type <class>" exactly when the entry is neither a plain Object nor exactly of the definition type, so a subclass instance is refused |
| Plugins.ApplyObjectCastFailure | src/main/java/com/github/jazzschmidt/spring/jsonvalidation/Validator.java:12-16 | a plain Object passes the reversed-assignability guard and then fails the cast |
| Plugins.ExactDispatchSucceeds | src/main/java/com/github/jazzschmidt/spring/jsonvalidation/NativeRuleSetComponent.java:83-85 | under exact-class dispatch the matcher returns the component's check and the validator returns its apply, so the cast failure is unreachable |
| Plugins.PairedValidatorAgreesWithMatcher | src/main/java/com/github/jazzschmidt/spring/jsonvalidation/NativeRuleSetComponent.java:65-69 | the paired validator passes on a definition and document iff the paired matcher returns true on them, and otherwise fails with the component's message |
| Plugins.MatchersOf | src/main/java/com/github/jazzschmidt/spring/jsonvalidation/JsonValidationAutoconfiguration.java:84-95 | a component's matcher is registered iff the component is |
| Plugins.ValidatorsOf | src/main/java/com/github/jazzschmidt/spring/jsonvalidation/JsonValidationAutoconfiguration.java:84-95 | a component's validator is registered iff the component is |
| Plugins.ValidatorsForClass | src/main/java/com/github/jazzschmidt/spring/jsonvalidation/RuleSetValidator.java:89-91 | the registered validators of exactly an entry's class are at most the validator of that entry's own shape |
| Engine.DefinitionMatchesByShape | src/main/java/com/github/jazzschmidt/spring/jsonvalidation/RuleSetValidator.java:114-119 | a matcher definition is satisfied iff its shape's matcher is not registered or that shape's check holds; a definition no matcher serves (allMatch over nothing) is satisfied |
| Engine.RuleSetMatchesAll | src/main/java/com/github/jazzschmidt/spring/jsonvalidation/RuleSetValidator.java:111-129 | a rule set matches iff every one of its matcher definitions is satisfied (AND semantics) |
| Engine.RuleSetMatchesAppend | src/main/java/com/github/jazzschmidt/spring/jsonvalidation/RuleSetValidator.java:112-125 | concatenated matcher lists match iff both lists match |
| Engine.UnservedMatchersMatchEverything | src/main/java/com/github/jazzschmidt/spring/jsonvalidation/RuleSetValidator.java:127-128 | a rule set none of whose matcher definitions is served by a registered matcher, in particular one with none, applies to every document |
| Engine.RuleSetMatches | src/main/java/com/github/jazzschmidt/spring/jsonvalidation/RuleSetValidator.java:111-129 | ruleSetMatches: the matcher definitions in list order, false at the first one not accepted; `Engine.RuleSetMatchesAll` states it as an AND |
| Engine.ApplyInstanceByShape | src/main/java/com/github/jazzschmidt/spring/jsonvalidation/RuleSetValidator.java:87-96 | a rule definition fails iff its shape's validator is registered and the check is false, with that check's message; a definition with no validator of its class is skipped |
| Engine.RulesOutcomeFirstFailure | src/main/java/com/github/jazzschmidt/spring/jsonvalidation/RuleSetValidator.java:85-102 | the rules pass iff every rule definition passes, and a failure is the outcome of a definition all of whose predecessors passed |
| Engine.RulesOutcomeAppend | src/main/java/com/github/jazzschmidt/spring/jsonvalidation/RuleSetValidator.java:87-97 | running two rule lists one after another is running their concatenation; a failure in the first stops the run |
| Engine.EvaluateAppend | src/main/java/com/github/jazzschmidt/spring/jsonvalidation/RuleSetValidator.java:70-76 | visiting more rule sets after a clean run is visiting them alone, and a violation ends the run |
| Engine.EvaluateOkIff | src/main/java/com/github/jazzschmidt/spring/jsonvalidation/RuleSetValidator.java:70-76 | validation succeeds iff every visited rule set either does not match or has all its rules pass, whatever the visiting order |
| Engine.EvaluateViolation | src/main/java/com/github/jazzschmidt/spring/jsonvalidation/RuleSetValidator.java:98-100 | a violation names a visited rule set that matches the document and whose rules fail with exactly that message |
| Engine.EvaluateInOrder | src/main/java/com/github/jazzschmidt/spring/jsonvalidation/RuleSetValidator.java:70-76 | validate's loop over the rule sets in a given visiting order, stopping at the first violation; `Engine.EvaluateOkIff` and `Engine.EvaluateViolation` state its outcome |
| Engine.RuleSetValidator.constructor | src/main/java/com/github/jazzschmidt/spring/jsonvalidation/RuleSetValidator.java:19-22 | the engine holds its own values of the given plugin sets, and no rule set is active |
| Engine.RuleSetValidator.AddRuleSet | src/main/java/com/github/jazzschmidt/spring/jsonvalidation/RuleSetValidator.java:29-31 | the active set gains that instance; adding an active instance again changes nothing (identity-set semantics) |
| Engine.RuleSetValidator.RemoveRuleSet | src/main/java/com/github/jazzschmidt/spring/jsonvalidation/RuleSetValidator.java:38-40 | the active set loses exactly that instance; removing an inactive one changes nothing |
| Engine.RuleSetValidator.ApplyDefinition | src/main/java/com/github/jazzschmidt/spring/jsonvalidation/RuleSetValidator.java:89-96 | the loop over the validators of exactly the entry's class yields the entry's specified outcome |
| Engine.RuleSetValidator.ApplyRuleSet | src/main/java/com/github/jazzschmidt/spring/jsonvalidation/RuleSetValidator.java:85-102 | the loop over the rules yields the first failure, tagged with the rule set, or Ok |
| Engine.RuleSetValidator.Validate | src/main/java/com/github/jazzschmidt/spring/jsonvalidation/RuleSetValidator.java:70-76 | the verdict is Ok iff every active rule set passes; a violation comes from an active, matching rule set whose rules fail with that message; the visiting order holds no rule set twice and ends at the violating one |
| Engine.RegisteredPluginsSkipFieldNotEquals | src/main/java/com/github/jazzschmidt/spring/jsonvalidation/components/FieldNotEqualsComponent.java:8 | with the components Spring registers, a FieldNotEquals matcher definition always matches and a FieldNotEquals rule never fails |
| Engine.FieldNotEqualsSkippedExample | src/main/java/com/github/jazzschmidt/spring/jsonvalidation/components/FieldNotEqualsComponent.java:8-18 | a document holding the forbidden value passes a field-not-equals rule under the registered plugins but fails it when all three components are registered |
| Engine.AllPluginsCheckEveryDefinition | src/main/java/com/github/jazzschmidt/spring/jsonvalidation/NativeRuleSetComponent.java:65-69 | with every component registered, each definition is checked by its own shape's component in both phases |
| Engine.CheckedByRegisteredPlugins | src/main/java/com/github/jazzschmidt/spring/jsonvalidation/components/FieldNotEmptyComponent.java:20-28 | the registered plugins check field-equals matchers and field-not-empty rules, with the message "Field must not be empty: <path>" |
| Engine.RejectsOrderWithoutId | src/main/java/com/github/jazzschmidt/spring/jsonvalidation/RuleSetValidator.java:70-102 | an active rule set matching kind "order" and requiring "$.id" rejects an order without an id, and the violation carries that rule set |
| RuleSets.RuleSet.constructor | src/main/java/com/github/jazzschmidt/spring/jsonvalidation/RuleSet.java:11-14 | a fresh rule set has no name, no description and empty lists |
| RuleSets.RuleSet.GetRules | src/main/java/com/github/jazzschmidt/spring/jsonvalidation/RuleSet.java:21-23 | returns the rule list, in order, as a value the caller cannot change |
| RuleSets.RuleSet.SetRules | src/main/java/com/github/jazzschmidt/spring/jsonvalidation/RuleSet.java:30-33 | the rule list becomes the given list; matchers, name and description are unchanged |
| RuleSets.RuleSet.GetMatchers | src/main/java/com/github/jazzschmidt/spring/jsonvalidation/RuleSet.java:40-42 | returns the matcher list, in order, as a value |
| RuleSets.RuleSet.SetMatchers | src/main/java/com/github/jazzschmidt/spring/jsonvalidation/RuleSet.java:49-52 | the matcher list becomes the given list; everything else is unchanged |
| RuleSets.RuleSet.GetName | src/main/java/com/github/jazzschmidt/spring/jsonvalidation/RuleSet.java:59-61 | returns the name |
| RuleSets.RuleSet.SetName | src/main/java/com/github/jazzschmidt/spring/jsonvalidation/RuleSet.java:68-70 | only the name changes |
| RuleSets.RuleSet.GetDescription | src/main/java/com/github/jazzschmidt/spring/jsonvalidation/RuleSet.java:77-79 | returns the description |
| RuleSets.RuleSet.SetDescription | src/main/java/com/github/jazzschmidt/spring/jsonvalidation/RuleSet.java:86-88 | only the description changes |
| RuleSets.SettersRoundTrip | src/main/java/com/github/jazzschmidt/spring/jsonvalidation/RuleSet.java:21-70 | what the setters store the getters give back, and each setter leaves the other parts alone |
| Builder.RuleSetBuilder.constructor | src/main/java/com/github/jazzschmidt/spring/jsonvalidation/RuleSetBuilder.java:15-22 | the builder owns a fresh rule set with the given name and description; both lists start empty |
| Builder.RuleSetBuilder.Matches | src/main/java/com/github/jazzschmidt/spring/jsonvalidation/RuleSetBuilder.java:30-33 | appends to the matcher list only and returns the same builder |
| Builder.RuleSetBuilder.Validates | src/main/java/com/github/jazzschmidt/spring/jsonvalidation/RuleSetBuilder.java:41-44 | appends to the rule list only and returns the same builder |
| Builder.RuleSetBuilder.And | src/main/java/com/github/jazzschmidt/spring/jsonvalidation/RuleSetBuilder.java:51-53 | returns the same builder and changes nothing |
| Builder.RuleSetBuilder.When | src/main/java/com/github/jazzschmidt/spring/jsonvalidation/RuleSetBuilder.java:60-62 | returns the same builder and changes nothing |
| Builder.RuleSetBuilder.Then | src/main/java/com/github/jazzschmidt/spring/jsonvalidation/RuleSetBuilder.java:69-71 | returns the same builder and changes nothing |
| Builder.RuleSetBuilder.Build | src/main/java/com/github/jazzschmidt/spring/jsonvalidation/RuleSetBuilder.java:78-82 | returns the owned rule set with the collected lists, name and description unchanged |
| Builder.BuildTwice | src/main/java/com/github/jazzschmidt/spring/jsonvalidation/RuleSetBuilder.java:15 | two builds return the same instance, so the second build also changes the first result |
| Builder.FieldEqualsOf | src/main/java/com/github/jazzschmidt/spring/jsonvalidation/RuleSetBuilder.java:95-101 | a FieldEquals holding exactly the given path and value |
| Builder.FieldNotEqualsOf | src/main/java/com/github/jazzschmidt/spring/jsonvalidation/RuleSetBuilder.java:110-116 | a FieldNotEquals holding exactly the given path and value |
| Builder.FieldNotEmptyOf | src/main/java/com/github/jazzschmidt/spring/jsonvalidation/RuleSetBuilder.java:124-129 | a FieldNotEmpty holding exactly the given path |
| Codec.BuiltinRegistryAgrees | src/main/java/com/github/jazzschmidt/spring/jsonvalidation/JsonValidationAutoconfiguration.java:104-127 | the registries built from the annotations map each role id back to its shape |
| Codec.Flatten | src/main/java/com/github/jazzschmidt/spring/jsonvalidation/RuleSetSerializer.java:32 | a definition converts to a map of exactly its public fields, in declaration order, holding its path and value |
| Codec.UnknownField | src/main/java/com/github/jazzschmidt/spring/jsonvalidation/RuleSetDeserializer.java:76 | reports a key that is no field of the shape iff there is one |
| Codec.ConvertFlatten | src/main/java/com/github/jazzschmidt/spring/jsonvalidation/RuleSetDeserializer.java:76 | converting a definition's own field map back into its shape gives the definition back |
| Codec.DecodeEntriesPointwise | src/main/java/com/github/jazzschmidt/spring/jsonvalidation/RuleSetDeserializer.java:54-60 | decoded entries are one definition per entry, in order, each from an object whose id is registered in the role |
| Codec.DecodeEntry | src/main/java/com/github/jazzschmidt/spring/jsonvalidation/RuleSetDeserializer.java:68-77 | convertComponent: null element, non-map element, non-String id, unknown or missing id and conversion failures each end in their own error; `Codec.DecodedEntryIsExact`, `Codec.NullEntryFails` and `Codec.UnknownIdFails` state them |
| Codec.DecodedEntryIsExact | src/main/java/com/github/jazzschmidt/spring/jsonvalidation/RuleSetDeserializer.java:68-77 | a decoded entry came from a map whose "id" is a registered String, and is a built-in definition of exactly the shape registered for that id |
| Codec.NullEntryFails | src/main/java/com/github/jazzschmidt/spring/jsonvalidation/RuleSetDeserializer.java:54-69 | a null element in a definition list ends decoding with the NullPointerException of component.remove, once the elements before it decode |
| Codec.Decode | src/main/java/com/github/jazzschmidt/spring/jsonvalidation/RuleSetDeserializer.java:40-66 | deserialize: the two list casts, name, description, then every matcher and every rule; `Codec.DecodeResolvesPerRole` and `Codec.RoundTrip` state its results |
| Codec.UnknownIdFails | src/main/java/com/github/jazzschmidt/spring/jsonvalidation/RuleSetDeserializer.java:68-74 | an entry whose id is not registered in its role makes decoding fail, so no rule set is produced |
| Codec.DecodeResolvesPerRole | src/main/java/com/github/jazzschmidt/spring/jsonvalidation/RuleSetDeserializer.java:41-66 | a decoded rule set comes from an object holding both lists; matcher entries resolve only in the matcher registry and rule entries only in the rule registry, in order |
| Codec.RuleIdIsNoMatcher | src/main/java/com/github/jazzschmidt/spring/jsonvalidation/RuleSetDeserializer.java:72-74 | a rule id in the matcher list fails with NoSuchDefinition for that id |
| Codec.EncodedEntryLayout | src/main/java/com/github/jazzschmidt/spring/jsonvalidation/RuleSetSerializer.java:38-48 | an encoded entry is the definition's fields followed by "id" set to its role id; removing the id gives the fields back |
| Codec.EncodeEntriesSucceeds | src/main/java/com/github/jazzschmidt/spring/jsonvalidation/RuleSetSerializer.java:38-48 | encoding a list succeeds iff every entry is a built-in definition, and then gives one entry per definition |
| Codec.EntryRoundTrip | src/main/java/com/github/jazzschmidt/spring/jsonvalidation/RuleSetSerializer.java:38-48 | with a registry that agrees with the ids, one entry decodes back to its definition |
| Codec.EntriesRoundTrip | src/main/java/com/github/jazzschmidt/spring/jsonvalidation/RuleSetSerializer.java:38-48 | with a registry that agrees with the ids, an encoded list decodes back to the same definitions in the same order |
| Codec.BeanLayout | src/main/java/com/github/jazzschmidt/spring/jsonvalidation/RuleSetSerializer.java:32 | the bean conversion holds name, description, matchers and rules in that order |
| Codec.EncodedLayout | src/main/java/com/github/jazzschmidt/spring/jsonvalidation/RuleSetSerializer.java:30-55 | the encoded object keeps the bean's key order, with the name and description and with both lists overwritten by their id-bearing encodings |
| Codec.Encode | src/main/java/com/github/jazzschmidt/spring/jsonvalidation/RuleSetSerializer.java:30-55 | serialize: the bean map with both lists replaced by the id-bearing entries; `Codec.EncodedLayout` and `Codec.RoundTrip` state its results |
| Codec.DecodeOfParts | src/main/java/com/github/jazzschmidt/spring/jsonvalidation/RuleSetDeserializer.java:41-66 | an object with the name, the description and two decodable lists decodes to exactly those parts |
| Codec.RoundTrip | src/main/java/com/github/jazzschmidt/spring/jsonvalidation/RuleSetSerializer.java:30-55 | decoding the encoding with an agreeing registry gives back the same name, description and definitions |
| Codec.EncodeList | src/main/java/com/github/jazzschmidt/spring/jsonvalidation/RuleSetSerializer.java:38-48 | the forEach over the definitions produces the list specification's entries |
| Codec.Serialize | src/main/java/com/github/jazzschmidt/spring/jsonvalidation/RuleSetSerializer.java:30-55 | serializing a rule set gives the encoding of its current state |
| Codec.DecodeList | src/main/java/com/github/jazzschmidt/spring/jsonvalidation/RuleSetDeserializer.java:54-60 | the forEach over the entries produces the list specification's definitions or its first error |
| Codec.Deserialize | src/main/java/com/github/jazzschmidt/spring/jsonvalidation/RuleSetDeserializer.java:41-66 | fails exactly when the specification fails, with the same error, and otherwise returns a fresh rule set holding the decoded parts |
| Wrapper.TreeView | src/main/java/com/github/jazzschmidt/spring/jsonvalidation/JsonWrapper.java:44-50 | a wrapper built from a tree shows that tree, and one built from a map shows a tree iff it has a map |
| Wrapper.MapView | src/main/java/com/github/jazzschmidt/spring/jsonvalidation/JsonWrapper.java:57-63 | a wrapper built from a map shows that map, and one built from a tree shows a map iff it has a tree |
| Wrapper.JsonWrapper.FromTree | src/main/java/com/github/jazzschmidt/spring/jsonvalidation/JsonWrapper.java:29-32 | holds the given tree and nothing else |
| Wrapper.JsonWrapper.FromMap | src/main/java/com/github/jazzschmidt/spring/jsonvalidation/JsonWrapper.java:34-37 | holds the given map and nothing else |
| Wrapper.JsonWrapper.GetJsonNode | src/main/java/com/github/jazzschmidt/spring/jsonvalidation/JsonWrapper.java:44-50 | returns the tree the origin determines, computed at most once and never replaced once present; the other forms are untouched |
| Wrapper.JsonWrapper.GetJsonMap | src/main/java/com/github/jazzschmidt/spring/jsonvalidation/JsonWrapper.java:57-63 | returns the map the origin determines, computed at most once and never replaced |
| Wrapper.JsonWrapper.GetJsonText | src/main/java/com/github/jazzschmidt/spring/jsonvalidation/JsonWrapper.java:71-78 | a cached text is returned as is; otherwise the text is written from the tree if present, else from the map, else "null", and cached on success |
| Wrapper.MapWrapperViews | src/main/java/com/github/jazzschmidt/spring/jsonvalidation/JsonWrapper.java:44-78 | built from a map: the map comes back as given, the tree is derived once, and the text is stable across calls |
| Wrapper.MapWrapperTextFirst | src/main/java/com/github/jazzschmidt/spring/jsonvalidation/JsonWrapper.java:71-77 | asked for its text first, a map wrapper writes the map itself |
| Wrapper.NullWrapper | src/main/java/com/github/jazzschmidt/spring/jsonvalidation/JsonWrapper.java:45-77 | with neither form present, the tree and the map are null and the text is "null" |
| Repository.InMemoryRuleSetRepository.constructor | src/main/java/com/github/jazzschmidt/spring/jsonvalidation/web/InMemoryRuleSetRepository.java:16 | the store starts empty |
| Repository.InMemoryRuleSetRepository.Persist | src/main/java/com/github/jazzschmidt/spring/jsonvalidation/web/InMemoryRuleSetRepository.java:19-25 | a null name and then a null description are refused without storing anything; otherwise the rule set replaces whatever its name held and is returned |
| Repository.InMemoryRuleSetRepository.GetAll | src/main/java/com/github/jazzschmidt/spring/jsonvalidation/web/InMemoryRuleSetRepository.java:28-30 | a new list with the rule set of every stored name, each name once |
| Repository.InMemoryRuleSetRepository.GetByName | src/main/java/com/github/jazzschmidt/spring/jsonvalidation/web/InMemoryRuleSetRepository.java:33-35 | the rule set stored under the name, or empty iff there is none |
| Repository.InMemoryRuleSetRepository.DeleteByName | src/main/java/com/github/jazzschmidt/spring/jsonvalidation/web/InMemoryRuleSetRepository.java:43-45 | forgets only that name; other names are unchanged, and an absent name changes nothing |
| Repository.InMemoryRuleSetRepository.Delete | src/main/java/com/github/jazzschmidt/spring/jsonvalidation/web/InMemoryRuleSetRepository.java:38-40 | deletes by the rule set's current name, whatever instance is stored there |
| Repository.EnumerationHoldsStored | src/main/java/com/github/jazzschmidt/spring/jsonvalidation/web/InMemoryRuleSetRepository.java:28-30 | an enumeration of the store holds exactly the stored rule sets |
| Repository.LastWriteWins | src/main/java/com/github/jazzschmidt/spring/jsonvalidation/web/InMemoryRuleSetRepository.java:23 | after two persists under one name, the name finds the second and the store holds only it |
| Repository.DeleteGoesByName | src/main/java/com/github/jazzschmidt/spring/jsonvalidation/web/InMemoryRuleSetRepository.java:38-40 | delete of another instance with the same name removes the stored one; a renamed rule set is not deleted |
| Service.RuleSetService.constructor | src/main/java/com/github/jazzschmidt/spring/jsonvalidation/web/RuleSetService.java:25-28 | the service uses the given repository and engine |
| Service.RuleSetService.Create | src/main/java/com/github/jazzschmidt/spring/jsonvalidation/web/RuleSetService.java:36-41 | persists and then activates the same instance; a refused rule set changes neither the store nor the engine |
| Service.RuleSetService.GetAll | src/main/java/com/github/jazzschmidt/spring/jsonvalidation/web/RuleSetService.java:48-50 | exactly the repository's rule sets |
| Service.RuleSetService.Remove | src/main/java/com/github/jazzschmidt/spring/jsonvalidation/web/RuleSetService.java:58-62 | an unknown name fails and changes nothing; otherwise the stored rule set is deleted by its current name and deactivated |
| Service.DuplicateCreateLeavesStaleRuleSet | src/main/java/com/github/jazzschmidt/spring/jsonvalidation/web/RuleSetService.java:37-38 | two creates under one name followed by a remove leave the store empty but the first rule set still active |
| Service.ValuesOfFreshKey | src/main/java/com/github/jazzschmidt/spring/jsonvalidation/web/InMemoryRuleSetRepository.java:23 | storing under a new name adds exactly that rule set to the stored values |
| Service.SyncedRuleSetService.constructor | src/main/java/com/github/jazzschmidt/spring/jsonvalidation/web/RuleSetService.java:25-28 | starts with the active set equal to the stored rule sets |
| Service.SyncedRuleSetService.Create | src/main/java/com/github/jazzschmidt/spring/jsonvalidation/web/RuleSetService.java:36-41 | the create above, keeping the active set equal to the stored rule sets |
| Service.SyncedRuleSetService.Remove | src/main/java/com/github/jazzschmidt/spring/jsonvalidation/web/RuleSetService.java:58-62 | the remove above, keeping the active set equal to the stored rule sets |
| Service.DuplicateCreateStaysSynced | src/main/java/com/github/jazzschmidt/spring/jsonvalidation/web/RuleSetService.java:37-61 | the same calls on the corrected service leave nothing active |
| Schema.SimpleType | src/main/java/com/github/jazzschmidt/spring/jsonvalidation/SchemaGenerator.java:203-205 | a type exists iff the class is one of the five mapped classes, and it is one of the five JSON simple types |
| Schema.SimpleTypeIsExact | src/main/java/com/github/jazzschmidt/spring/jsonvalidation/SchemaGenerator.java:30-36 | the lookup is by exact class: int, Long, ArrayList and Object get no type, and String gets "string" |
| Schema.PropertySchema | src/main/java/com/github/jazzschmidt/spring/jsonvalidation/SchemaGenerator.java:160-167 | a property's schema has a description iff annotated and a type iff its raw type is simple, with those values |
| Schema.AppendProperties | src/main/java/com/github/jazzschmidt/spring/jsonvalidation/SchemaGenerator.java:133-172 | the loop puts "id" and then each property with an accessor into the definition's properties and required lists |
| Schema.AppendedLayout | src/main/java/com/github/jazzschmidt/spring/jsonvalidation/SchemaGenerator.java:139-171 | with distinct property names other than "id", properties hold "id" then exactly the listed names in input order, each with its schema; required names the same in the same order; a property without an accessor is in neither |
| Schema.RequiredListsEveryListedName | src/main/java/com/github/jazzschmidt/spring/jsonvalidation/SchemaGenerator.java:145-170 | for any properties, required is "id" followed by every property with an accessor, in input order |
| Schema.IdPropertyReplacesIdSchema | src/main/java/com/github/jazzschmidt/spring/jsonvalidation/SchemaGenerator.java:144-170 | a property named "id" replaces the id's constant schema, and "id" is then required twice |
| Schema.DescriptionPart | src/main/java/com/github/jazzschmidt/spring/jsonvalidation/SchemaGenerator.java:239-241 | the component-level description part holds at most one entry, under "description" |
| Schema.ListsOfChunk | src/main/java/com/github/jazzschmidt/spring/jsonvalidation/SchemaGenerator.java:239-244 | a definition's chunk holds its required and properties lists, and a description iff the annotation's description is non-empty |
| Schema.WithListsOfChunk | src/main/java/com/github/jazzschmidt/spring/jsonvalidation/SchemaGenerator.java:243-247 | filling a chunk's lists in place leaves their position and the description unchanged |
| Schema.ComponentSchemaLayout | src/main/java/com/github/jazzschmidt/spring/jsonvalidation/SchemaGenerator.java:230-247 | a definition's chunk has a description iff non-empty, requires "id" and then the listed properties, and holds their schemas in that order |
| Schema.Chunks | src/main/java/com/github/jazzschmidt/spring/jsonvalidation/SchemaGenerator.java:220-250 | every registered id, and no other, gets a chunk |
| Schema.DefinitionsInOrderKeys | src/main/java/com/github/jazzschmidt/spring/jsonvalidation/SchemaGenerator.java:253-257 | putting chunks in the order of distinct ids gives a map with exactly those ids in that order |
| Schema.DefinitionsInOrderHolds | src/main/java/com/github/jazzschmidt/spring/jsonvalidation/SchemaGenerator.java:253-257 | each id in that map holds its own chunk |
| Schema.SortedIds | src/main/java/com/github/jazzschmidt/spring/jsonvalidation/SchemaGenerator.java:254-256 | the registered ids in strictly ascending order, each once |
| Schema.Refs | src/main/java/com/github/jazzschmidt/spring/jsonvalidation/SchemaGenerator.java:262-266 | oneOf holds one "#/definitions/<id>" reference per id, in the given order |
| Schema.DefinitionChunk | src/main/java/com/github/jazzschmidt/spring/jsonvalidation/SchemaGenerator.java:230-247 | the loop body builds the chunk of one definition |
| Schema.CollectDefinitions | src/main/java/com/github/jazzschmidt/spring/jsonvalidation/SchemaGenerator.java:220-250 | the loop collects each registered id once and the chunk of each, in whatever order the registry yields |
| Schema.PutInOrder | src/main/java/com/github/jazzschmidt/spring/jsonvalidation/SchemaGenerator.java:253-257 | the ordered forEach puts the chunks in the order given |
| Schema.DefinitionsInOrderAgree | src/main/java/com/github/jazzschmidt/spring/jsonvalidation/SchemaGenerator.java:253-257 | two chunk maps that agree on the ids give the same definitions map |
| Schema.CreateSchema | src/main/java/com/github/jazzschmidt/spring/jsonvalidation/SchemaGenerator.java:214-273 | the schema is the draft-07 header and title of the role, then the definitions sorted by id followed by the group entry; the registry's iteration order does not matter |
| Schema.SortedDefinitionsLayout | src/main/java/com/github/jazzschmidt/spring/jsonvalidation/SchemaGenerator.java:253-268 | unless an id equals the group name, definitions are every registered id ascending and then "matcher" or "rules", whose oneOf references each id once in the same order |
| Schema.SortedDefinitionsHold | src/main/java/com/github/jazzschmidt/spring/jsonvalidation/SchemaGenerator.java:249-257 | every registered id other than the group name holds its own chunk |
| Schema.GroupShadowsSameNamedDefinition | src/main/java/com/github/jazzschmidt/spring/jsonvalidation/SchemaGenerator.java:268 | a rule registered under the id "rules" loses its chunk to the group entry, whose oneOf then references itself |
| Text.ReplaceAll | src/main/java/com/github/jazzschmidt/spring/jsonvalidation/SchemaGenerator.java:69 | String.replace: a left-to-right scan replacing non-overlapping occurrences; `Text.ReplaceAllJoin` states what it does to a template |
| Text.ReplaceAllWithoutTarget | src/main/java/com/github/jazzschmidt/spring/jsonvalidation/SchemaGenerator.java:69 | a string with no occurrence of the target is left unchanged |
| Text.ReplaceAllJoin | src/main/java/com/github/jazzschmidt/spring/jsonvalidation/SchemaGenerator.java:69 | for a target that cannot overlap itself, replacing it in target-free pieces joined by it gives the pieces joined by the replacement |
| Schema.RootSchema | src/main/java/com/github/jazzschmidt/spring/jsonvalidation/SchemaGenerator.java:66-70 | getRootSchema on a given template text: the placeholder replaced everywhere by the url |
| Schema.RootSchemaFillsPlaceholders | src/main/java/com/github/jazzschmidt/spring/jsonvalidation/SchemaGenerator.java:66-70 | for any template made of pieces without a "{{ URL }}" between the placeholders (braces and other JSON text allowed), every placeholder is replaced by the url and nothing else changes |
| Schema.PlaceholderUnbordered | src/main/java/com/github/jazzschmidt/spring/jsonvalidation/SchemaGenerator.java:69 | no proper prefix of "{{ URL }}" is one of its suffixes, so two placeholders never overlap |
| Schema.RootSchemaOfJsonTemplate | src/main/java/com/github/jazzschmidt/spring/jsonvalidation/SchemaGenerator.java:66-70 | a JSON template whose "$id" is the placeholder gets the url there, braces and quotes untouched |

## Left out

- Concurrency: the engine's HashSets and the repository's HashMap are unsynchronised; the model is single-threaded.
- HashSet iteration order in validate: `Engine.RuleSetValidator.Validate` picks rule sets in an arbitrary order and proves only order-independent facts, plus the order it happened to use as a ghost output.
- The JSON-path reader (readJsonPath) is not part of this model: it is a parameter of every check, with None for both an absent and a null value.
- Jackson internals: convertValue, valueToTree and writeValueAsString are the given functions of `Wrapper.ObjectMapper`, or, in the codec, the field-by-field conversion of `Codec.Flatten` and `Codec.Convert`. Java `equals` on decoded numbers (Integer, Long, Double) is replaced by structural equality of a JSON value datatype.
- `Codec.Convert` refuses unknown fields, coerces a number or boolean jsonPath to its text as Jackson does, refuses an array or object jsonPath, and takes the value field as it is. Jackson's other coercions (for example of floating-point numbers) are not modelled.
- JsonWrapper's constructors that take a default ObjectMapper (JsonWrapper.java:21-27) are covered by the ones that take a mapper. convertToMap on a tree that is not an object is a total function here.
- The deserializer removes "id" from each input map in place. The model removes it from a value copy, so no aliasing with the caller's maps is modelled.
- appendProperties mutates the definition's lists through aliases. `Schema.AppendProperties` works on a value map and returns the updated map.
- The loop of createSchema is split across `Schema.DefinitionChunk`, `Schema.CollectDefinitions` and `Schema.PutInOrder`. Together they do what the single Java loop does.
- The top-level schema and the unsorted definitions are HashMaps in the source. Their key order is unspecified; the model fixes the insertion order.
- Java's String.compareTo is ordering by UTF-16 code units. `Text.LexLess` orders by characters, which agree on the ids used here.
- getMergedSchema is not modelled. It serialises the raw root schema text rather than the merged map (SchemaGenerator.java:96), so its result is not a built schema.
- getJsonProperties (bean introspection) is an input list of `Schema.Property` values. readSchemaFromResource (classpath I/O) is the template parameter of `Schema.RootSchema`. Pretty-printing is library output.
- Null entries in a rule set's definition lists: `Definitions.Instance` has no null. In the source such an entry throws NullPointerException at `params.getClass()` in the engine whenever a plugin is registered (RuleSetValidator.java:90, 115), at `getClass()` in matchesObject and applyObject, and in serialize (RuleSetSerializer.java:40, 46). Neither the engine nor the serializer models that exception. Decoding a JSON null element is modelled (`Codec.NullEntryFails`).
- Plugins are a closed world: the three built-in components and definition shapes only. User-defined components and definition classes are not modelled.
- Spring wiring (component scanning, bean registration, the registries' construction in JsonValidationAutoconfiguration) is not modelled beyond its result: the registered components and the two id-to-shape maps.
- The HTTP layer (controller, filter, request wrapper, interceptor, exception handler), the configuration and annotation types, and the factory wrapper are not part of this model.
- Exceptions (RuleValidationException, JsonValidationException, NoSuchDefinitionException, NullPointerException, NoSuchElementException, ClassCastException) are error values of result datatypes. The source's mismatch between the exception the validator throws and the one the engine catches is resolved to one failure type.
- Schema.AppendedLayout: stated for property lists with distinct names other than "id". `Schema.RequiredListsEveryListedName` and `Schema.IdPropertyReplacesIdSchema` cover the required list in general and the "id" clash.
- Schema.SortedDefinitionsLayout: stated for registries where no id equals the group name. `Schema.GroupShadowsSameNamedDefinition` shows what happens otherwise.

## Findings

| source | as written | input that shows it | evidently intended | confidence | as-written member | corrected member |
|---|---|---|---|---|---|---|
| src/main/java/com/github/jazzschmidt/spring/jsonvalidation/components/FieldNotEqualsComponent.java:8 | the class lacks the @Component annotation its siblings carry, so Spring never registers it, and FieldNotEquals definitions find no matcher or validator | a rule set with the rule FieldNotEquals("$.status", "closed") and a document whose status is "closed" passes validation | every built-in component registered, so a not-equals rule rejects the forbidden value | medium, not executed | Engine.FieldNotEqualsSkippedExample | Engine.AllPluginsCheckEveryDefinition |
| src/main/java/com/github/jazzschmidt/spring/jsonvalidation/web/RuleSetService.java:37-38 | create activates the new rule set without deactivating the one it displaced in the repository, and remove deactivates only the currently stored instance | create(A named "orders"), create(B named "orders"), remove("orders"): the repository is empty but A still validates every request | the engine's active rule sets stay equal to the repository's rule sets | high, not executed | Service.DuplicateCreateLeavesStaleRuleSet | Service.SyncedRuleSetService.Create |
