/** The three built-in definition shapes (FieldEquals, FieldNotEquals,
    FieldNotEmpty): plain data records, each announced under one id in the
    matcher namespace and one id in the rule namespace, and the Java objects a
    rule set may hold in its definition lists. */
module Definitions {
  import opened Wrappers
  import opened Json

  /** The class of a built-in definition. */
  datatype Shape = FieldEqualsShape | FieldNotEqualsShape | FieldNotEmptyShape

  /** A definition object. `jsonPath` is a nullable String and `value` an
      Object whose null is `JNull`. */
  datatype Definition =
    | FieldEquals(jsonPath: Option<string>, value: JsonValue)
    | FieldNotEquals(jsonPath: Option<string>, value: JsonValue)
    | FieldNotEmpty(jsonPath: Option<string>)

  function ShapeOf(d: Definition): Shape
  {
    match d
    case FieldEquals(_, _) => FieldEqualsShape
    case FieldNotEquals(_, _) => FieldNotEqualsShape
    case FieldNotEmpty(_) => FieldNotEmptyShape
  }

  /** The two id namespaces: @JsonMatcher and @JsonRule. */
  datatype Role = MatcherRole | RuleRole

  /** The value of the shape's @JsonMatcher or @JsonRule annotation. */
  function Id(role: Role, shape: Shape): string
  {
    match (role, shape)
    case (MatcherRole, FieldEqualsShape) => "field-equals-matcher"
    case (RuleRole, FieldEqualsShape) => "field-equals-rule"
    case (MatcherRole, FieldNotEqualsShape) => "field-not-equals-matcher"
    case (RuleRole, FieldNotEqualsShape) => "field-not-equals-rule"
    case (MatcherRole, FieldNotEmptyShape) => "field-not-empty-matcher"
    case (RuleRole, FieldNotEmptyShape) => "field-not-empty-rule"
  }

  /** The description of the shape's @JsonMatcher or @JsonRule annotation. */
  function Description(role: Role, shape: Shape): string
  {
    match (role, shape)
    case (MatcherRole, FieldEqualsShape) => "Matches if a JSON path has a specific value"
    case (RuleRole, FieldEqualsShape) => "Validates that a specific value is present at a JSON path"
    case (MatcherRole, FieldNotEqualsShape) => "Matches if a specific value is not present at a JSON path"
    case (RuleRole, FieldNotEqualsShape) => "Validates that a specific value is not present at a JSON path"
    case (MatcherRole, FieldNotEmptyShape) => "Matches if a JSON path is non-empty"
    case (RuleRole, FieldNotEmptyShape) => "Validates that a JSON path is non-empty"
  }

  /** Class.getName of the shape. */
  function ClassName(shape: Shape): string
  {
    match shape
    case FieldEqualsShape => "com.github.jazzschmidt.spring.jsonvalidation.components.FieldEquals"
    case FieldNotEqualsShape => "com.github.jazzschmidt.spring.jsonvalidation.components.FieldNotEquals"
    case FieldNotEmptyShape => "com.github.jazzschmidt.spring.jsonvalidation.components.FieldNotEmpty"
  }

  /** The public fields of the shape, in declaration order: the wire fields
      Jackson reads and writes. */
  function FieldNames(shape: Shape): seq<string>
  {
    if shape == FieldNotEmptyShape then ["jsonPath"] else ["jsonPath", "value"]
  }

  /** All six built-in ids are pairwise distinct: an id names one shape in one
      role. */
  lemma IdsDistinct(r1: Role, s1: Shape, r2: Role, s2: Shape)
    ensures Id(r1, s1) == Id(r2, s2) <==> r1 == r2 && s1 == s2
  {
  }

  /** The Java class of an object held in a rule set's definition list. The
      lists hold java.lang.Object, so besides the built-in definitions they
      can hold a plain Object or an instance of a subclass of a definition
      class. */
  datatype JavaClass = ObjectClass | ShapeClass(shape: Shape) | SubclassOf(parent: Shape)

  datatype Instance =
    | PlainObject
    | Exact(def: Definition)
    | Subclassed(base: Definition)

  function ClassOf(o: Instance): JavaClass
  {
    match o
    case PlainObject => ObjectClass
    case Exact(d) => ShapeClass(ShapeOf(d))
    case Subclassed(d) => SubclassOf(ShapeOf(d))
  }

  /** Class.isAssignableFrom: `a` is `b`, a superclass of `b`, or Object. */
  predicate IsAssignableFrom(a: JavaClass, b: JavaClass)
  {
    a == b || a == ObjectClass || (a.ShapeClass? && b == SubclassOf(a.shape))
  }

  /** Exact class equality singles out the built-in definitions of one
      shape: no plain object and no subclass instance has a definition class. */
  lemma ExactClassIsDefinition(o: Instance, shape: Shape)
    ensures ClassOf(o) == ShapeClass(shape) <==> o.Exact? && ShapeOf(o.def) == shape
  {
  }
}
