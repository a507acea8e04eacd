/** The plugin layer: the three built-in components (NativeRuleSetComponent
    subclasses), the Matcher and Validator each component hands out, and the
    class guards of Matcher.matchesObject and Validator.applyObject. */
module Plugins {
  import opened Wrappers
  import opened Text
  import opened Json
  import opened Definitions

  /** The JSON-path reader the components call (readJsonPath). It is not part
      of this model: it is a parameter, and `None` is Java's null. */
  type PathReader = (Option<string>, JsonValue) -> Option<JsonValue>

  /** The value at `path`, with an explicit JSON null read as null: the
      components cannot tell an absent field from a null one. */
  function ReadJsonPath(read: PathReader, path: Option<string>, doc: JsonValue): (r: Option<JsonValue>)
    ensures r.Some? ==> r.value != JNull
    ensures r.Some? ==> read(path, doc) == r
    ensures r.None? <==> read(path, doc).None? || read(path, doc) == Some(JNull)
  {
    var v := read(path, doc);
    if v == Some(JNull) then None else v
  }

  datatype Component = FieldEqualsComponent | FieldNotEqualsComponent | FieldNotEmptyComponent

  /** The definition class a component is constructed with. */
  function TargetOf(c: Component): Shape
  {
    match c
    case FieldEqualsComponent => FieldEqualsShape
    case FieldNotEqualsComponent => FieldNotEqualsShape
    case FieldNotEmptyComponent => FieldNotEmptyShape
  }

  /** The built-in component bound to a shape. */
  function NativeFor(shape: Shape): (c: Component)
    ensures TargetOf(c) == shape
  {
    match shape
    case FieldEqualsShape => FieldEqualsComponent
    case FieldNotEqualsShape => FieldNotEqualsComponent
    case FieldNotEmptyShape => FieldNotEmptyComponent
  }

  /** Each shape has exactly one built-in component. */
  lemma NativeForIsInverse(c: Component)
    ensures NativeFor(TargetOf(c)) == c
  {
  }

  /** NativeRuleSetComponent.matches of each component. No component matches
      a path that is absent or holds null. */
  predicate Matches(c: Component, read: PathReader, d: Definition, doc: JsonValue)
    requires ShapeOf(d) == TargetOf(c)
    ensures Matches(c, read, d, doc) ==> read(d.jsonPath, doc).Some? && read(d.jsonPath, doc) != Some(JNull)
  {
    var actual := ReadJsonPath(read, d.jsonPath, doc);
    match c
    case FieldEqualsComponent => actual.Some? && JsonEquals(actual.value, d.value)
    case FieldNotEqualsComponent => actual.Some? && !JsonEquals(actual.value, d.value)
    case FieldNotEmptyComponent => actual.Some?
  }

  /** The message of the RuleValidationException that validationException
      builds. String.format prints a null as "null". */
  function FailureMessage(c: Component, read: PathReader, d: Definition, doc: JsonValue): (msg: string)
    requires ShapeOf(d) == TargetOf(c)
    ensures |msg| > 0
  {
    match c
    case FieldEqualsComponent =>
      "Value of " + StringOrNull(d.jsonPath) + " must be `" + Render(d.value)
        + "`, but is `" + RenderNullable(ReadJsonPath(read, d.jsonPath, doc)) + "`"
    case FieldNotEqualsComponent =>
      "Value of " + StringOrNull(d.jsonPath) + " must not be `" + Render(d.value) + "`"
    case FieldNotEmptyComponent =>
      "Field must not be empty: " + StringOrNull(d.jsonPath)
  }

  /** The outcome of a validation: it returns normally, or throws a
      RuleValidationException with a message and, as yet, no rule set. */
  datatype Outcome = Pass | Fail(message: string)

  /** NativeRuleSetComponent.apply: throw validationException(def, json) when
      matches(def, json) is false. */
  function Apply(c: Component, read: PathReader, d: Definition, doc: JsonValue): Outcome
    requires ShapeOf(d) == TargetOf(c)
  {
    if Matches(c, read, d, doc) then Pass else Fail(FailureMessage(c, read, d, doc))
  }

  // ---------------------------------------------------------------------------
  // The three checks
  // ---------------------------------------------------------------------------

  /** field-equals holds exactly when a non-null value equal to the expected
      one is present; an absent field or a null expectation never matches. */
  lemma FieldEqualsSemantics(read: PathReader, path: Option<string>, expected: JsonValue, doc: JsonValue)
    ensures Matches(FieldEqualsComponent, read, FieldEquals(path, expected), doc) <==>
      read(path, doc).Some? && read(path, doc).value != JNull && JsonEquals(read(path, doc).value, expected)
    ensures ReadJsonPath(read, path, doc).None? ==> !Matches(FieldEqualsComponent, read, FieldEquals(path, expected), doc)
    ensures expected == JNull ==> !Matches(FieldEqualsComponent, read, FieldEquals(path, expected), doc)
  {
  }

  /** field-not-equals holds exactly when a non-null value different from the
      given one is present, so it fails on a missing field. */
  lemma FieldNotEqualsSemantics(read: PathReader, path: Option<string>, other: JsonValue, doc: JsonValue)
    ensures Matches(FieldNotEqualsComponent, read, FieldNotEquals(path, other), doc) <==>
      read(path, doc).Some? && read(path, doc).value != JNull && !JsonEquals(read(path, doc).value, other)
    ensures ReadJsonPath(read, path, doc).None? ==> !Matches(FieldNotEqualsComponent, read, FieldNotEquals(path, other), doc)
  {
  }

  /** field-not-empty holds exactly when the path holds a value other than
      null; absent and null are the same to it. */
  lemma FieldNotEmptySemantics(read: PathReader, path: Option<string>, doc: JsonValue)
    ensures Matches(FieldNotEmptyComponent, read, FieldNotEmpty(path), doc) <==>
      read(path, doc).Some? && read(path, doc).value != JNull
  {
  }

  /** On the same path and value, field-equals and field-not-equals never hold
      together, and one of them holds exactly when field-not-empty does. */
  lemma EqualsAndNotEqualsPartitionNotEmpty(read: PathReader, path: Option<string>, v: JsonValue, doc: JsonValue)
    ensures !(Matches(FieldEqualsComponent, read, FieldEquals(path, v), doc) &&
              Matches(FieldNotEqualsComponent, read, FieldNotEquals(path, v), doc))
    ensures Matches(FieldEqualsComponent, read, FieldEquals(path, v), doc) ||
            Matches(FieldNotEqualsComponent, read, FieldNotEquals(path, v), doc)
        <==> Matches(FieldNotEmptyComponent, read, FieldNotEmpty(path), doc)
  {
  }

  /** A document that holds exactly the expected value at the path passes
      field-equals and fails field-not-equals with its message. */
  lemma PresentValueScenario(read: PathReader, path: Option<string>, v: JsonValue, doc: JsonValue)
    requires read(path, doc) == Some(v) && v != JNull && DeepWellFormed(v)
    ensures Apply(FieldEqualsComponent, read, FieldEquals(path, v), doc) == Pass
    ensures Apply(FieldNotEqualsComponent, read, FieldNotEquals(path, v), doc)
      == Fail("Value of " + StringOrNull(path) + " must not be `" + Render(v) + "`")
  {
    JsonEqualsReflexive(v);
  }

  /** The field-equals failure message shows the value read from the document
      at the time of the failure: documents that read differently at the path
      get different messages. */
  lemma FieldEqualsMessageShowsActual(read: PathReader, d: Definition, doc1: JsonValue, doc2: JsonValue)
    requires d.FieldEquals?
    requires RenderNullable(ReadJsonPath(read, d.jsonPath, doc1)) != RenderNullable(ReadJsonPath(read, d.jsonPath, doc2))
    ensures FailureMessage(FieldEqualsComponent, read, d, doc1) != FailureMessage(FieldEqualsComponent, read, d, doc2)
  {
    var prefix := "Value of " + StringOrNull(d.jsonPath) + " must be `" + Render(d.value) + "`, but is `";
    SurroundedDiffer(prefix, RenderNullable(ReadJsonPath(read, d.jsonPath, doc1)),
      RenderNullable(ReadJsonPath(read, d.jsonPath, doc2)), "`");
  }

  // ---------------------------------------------------------------------------
  // Matcher and Validator dispatch
  // ---------------------------------------------------------------------------

  /** NativeRuleSetComponent.ComponentMatcher: delegates to its component. */
  datatype Matcher = ComponentMatcher(delegate: Component)
  {
    /** The target type fixed at construction. */
    function TargetType(): Shape
    {
      TargetOf(delegate)
    }
  }

  /** NativeRuleSetComponent.ComponentValidator: delegates to its component. */
  datatype Validator = ComponentValidator(delegate: Component)
  {
    /** The definition type fixed at construction. */
    function DefinitionType(): Shape
    {
      TargetOf(delegate)
    }
  }

  /** getMatcher and getValidator: the pair built in the component's
      constructor, both bound to the component's target type. */
  function GetMatcher(c: Component): (m: Matcher)
    ensures m.TargetType() == TargetOf(c)
  {
    ComponentMatcher(c)
  }

  function GetValidator(c: Component): (v: Validator)
    ensures v.DefinitionType() == TargetOf(c)
  {
    ComponentValidator(c)
  }

  /** The two ways dispatch can throw before a component is reached. */
  datatype DispatchError =
    | UnsupportedType(message: string)
    | ClassCast(message: string)

  /** Matcher.matchesObject: anything but an instance of exactly the target
      class is refused with an error, not answered with false. */
  function MatchesObject(m: Matcher, read: PathReader, o: Instance, doc: JsonValue): Result<bool, DispatchError>
  {
    if ClassOf(o) != ShapeClass(m.TargetType()) then
      Failure(UnsupportedType("Cannot match unsupported target type " + ClassName(m.TargetType())))
    else
      ExactClassIsDefinition(o, m.TargetType());
      Success(Matches(m.delegate, read, o.def, doc))
  }

  /** Validator.applyObject: the guard asks whether the object's class is
      assignable FROM the definition type (the reverse of an instanceof
      test), and the cast that follows can still fail. */
  function ApplyObject(v: Validator, read: PathReader, o: Instance, doc: JsonValue): Result<Outcome, DispatchError>
  {
    var target := ShapeClass(v.DefinitionType());
    if !IsAssignableFrom(ClassOf(o), target) then
      Failure(UnsupportedType("Cannot match unsupported definition type " + ClassName(v.DefinitionType())))
    else if !o.Exact? then
      Failure(ClassCast("Cannot cast java.lang.Object to " + ClassName(v.DefinitionType())))
    else
      Success(Apply(v.delegate, read, o.def, doc))
  }

  /** matchesObject answers exactly for instances of the target class, and
      then with the component's verdict on that definition. */
  lemma MatchesObjectGuard(m: Matcher, read: PathReader, o: Instance, doc: JsonValue)
    ensures MatchesObject(m, read, o, doc).Success? <==> o.Exact? && ShapeOf(o.def) == m.TargetType()
    ensures MatchesObject(m, read, o, doc).Failure? ==>
      MatchesObject(m, read, o, doc).error == UnsupportedType("Cannot match unsupported target type " + ClassName(m.TargetType()))
  {
    ExactClassIsDefinition(o, m.TargetType());
  }

  /** A subclass instance is refused by matchesObject even though it is a
      definition of the target type. */
  lemma MatchesObjectRejectsSubclass(m: Matcher, read: PathReader, d: Definition, doc: JsonValue)
    requires ShapeOf(d) == m.TargetType()
    ensures MatchesObject(m, read, Subclassed(d), doc).Failure?
  {
  }

  /** applyObject's guard passes for the definition type itself and for
      Object, and refuses a subclass of the definition type. */
  lemma ApplyObjectGuard(v: Validator, read: PathReader, o: Instance, doc: JsonValue)
    ensures ApplyObject(v, read, o, doc) == Failure(UnsupportedType("Cannot match unsupported definition type " + ClassName(v.DefinitionType())))
      <==> !(o.PlainObject? || (o.Exact? && ShapeOf(o.def) == v.DefinitionType()))
  {
  }

  /** A plain Object passes applyObject's guard and then fails the cast: the
      raw ClassCastException is reachable. */
  lemma ApplyObjectCastFailure(v: Validator, read: PathReader, doc: JsonValue)
    ensures ApplyObject(v, read, PlainObject, doc) == Failure(ClassCast("Cannot cast java.lang.Object to " + ClassName(v.DefinitionType())))
  {
  }

  /** Under exact-class dispatch (the engine's filter) neither guard throws:
      matchesObject returns the component's matches, and applyObject returns
      the component's apply on the same definition and document. */
  lemma ExactDispatchSucceeds(c: Component, read: PathReader, o: Instance, doc: JsonValue)
    requires ClassOf(o) == ShapeClass(TargetOf(c))
    ensures o.Exact? && ShapeOf(o.def) == TargetOf(c)
    ensures MatchesObject(GetMatcher(c), read, o, doc) == Success(Matches(c, read, o.def, doc))
    ensures ApplyObject(GetValidator(c), read, o, doc) == Success(Apply(c, read, o.def, doc))
  {
    ExactClassIsDefinition(o, TargetOf(c));
  }

  /** The validator of a component fails on a definition exactly when the
      matcher of the same component answers false, and then with the
      component's failure message. */
  lemma PairedValidatorAgreesWithMatcher(c: Component, read: PathReader, d: Definition, doc: JsonValue)
    requires ShapeOf(d) == TargetOf(c)
    ensures ApplyObject(GetValidator(c), read, Exact(d), doc) == Success(Pass)
      <==> MatchesObject(GetMatcher(c), read, Exact(d), doc) == Success(true)
    ensures ApplyObject(GetValidator(c), read, Exact(d), doc) == Success(Pass)
      || ApplyObject(GetValidator(c), read, Exact(d), doc) == Success(Fail(FailureMessage(c, read, d, doc)))
  {
  }

  // ---------------------------------------------------------------------------
  // Registered plugins
  // ---------------------------------------------------------------------------

  /** The components Spring instantiates: the ones annotated @Component.
      FieldNotEqualsComponent carries no such annotation. */
  const RegisteredComponents: set<Component> := {FieldEqualsComponent, FieldNotEmptyComponent}

  /** Every built-in component, the set the library evidently means to
      register. */
  const AllComponents: set<Component> := {FieldEqualsComponent, FieldNotEqualsComponent, FieldNotEmptyComponent}

  /** The matcher and validator beans registered for a set of components. */
  function MatchersOf(cs: set<Component>): (ms: set<Matcher>)
    ensures forall c :: GetMatcher(c) in ms <==> c in cs
  {
    set c | c in cs :: GetMatcher(c)
  }

  function ValidatorsOf(cs: set<Component>): (vs: set<Validator>)
    ensures forall c :: GetValidator(c) in vs <==> c in cs
  {
    set c | c in cs :: GetValidator(c)
  }

  /** Among any validators, the ones whose definition type is exactly the
      class of `o` are at most the validator of the shape's own component. */
  lemma ValidatorsForClass(vs: set<Validator>, o: Instance)
    ensures forall v | v in vs :: (ShapeClass(v.DefinitionType()) == ClassOf(o)
      <==> o.Exact? && v == GetValidator(NativeFor(ShapeOf(o.def))))
  {
    forall v | v in vs
      ensures ShapeClass(v.DefinitionType()) == ClassOf(o)
        <==> o.Exact? && v == GetValidator(NativeFor(ShapeOf(o.def)))
    {
      ExactClassIsDefinition(o, v.DefinitionType());
      NativeForIsInverse(v.delegate);
    }
  }
}
