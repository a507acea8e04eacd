/** JsonWrapper: one JSON document held in up to three forms (tree, map and
    text), each derived from the form given at construction the first time
    it is asked for and kept from then on. The conversions belong to the
    object mapper and are taken as given functions. */
module Wrapper {
  import opened Wrappers
  import opened Json

  datatype ProcessingError = ProcessingError

  /** The conversions of the wrapper's ObjectMapper: valueToTree,
      convertValue into a map, and writeValueAsString of a tree or a map. */
  datatype ObjectMapper = ObjectMapper(
    valueToTree: LinkedMap<JsonValue> -> JsonValue,
    convertToMap: JsonValue -> LinkedMap<JsonValue>,
    writeTree: JsonValue -> Result<string, ProcessingError>,
    writeMap: LinkedMap<JsonValue> -> Result<string, ProcessingError>)

  /** The form the wrapper was built from; either may be null. */
  datatype Origin =
    | TreeOrigin(tree: Option<JsonValue>)
    | MapOrigin(members: Option<LinkedMap<JsonValue>>)

  /** The tree every getJsonNode call returns for a wrapper of this origin. */
  function TreeView(mapper: ObjectMapper, origin: Origin): (r: Option<JsonValue>)
    ensures origin.TreeOrigin? ==> r == origin.tree
    ensures origin.MapOrigin? ==> (r.Some? <==> origin.members.Some?)
  {
    match origin
    case TreeOrigin(t) => t
    case MapOrigin(m) => if m.None? then None else Some(mapper.valueToTree(m.value))
  }

  /** The map every getJsonMap call returns for a wrapper of this origin. */
  function MapView(mapper: ObjectMapper, origin: Origin): (r: Option<LinkedMap<JsonValue>>)
    ensures origin.MapOrigin? ==> r == origin.members
    ensures origin.TreeOrigin? ==> (r.Some? <==> origin.tree.Some?)
  {
    match origin
    case MapOrigin(m) => m
    case TreeOrigin(t) => if t.None? then None else Some(mapper.convertToMap(t.value))
  }

  /** The texts getJsonText may produce: written from the tree when the
      wrapper holds one at that moment, else from the map, else the text of
      null. A wrapper built from a map writes the map, or the tree derived
      from it if getJsonNode ran first. */
  ghost predicate IsText(mapper: ObjectMapper, origin: Origin, t: string)
  {
    (TreeView(mapper, origin).Some? && mapper.writeTree(TreeView(mapper, origin).value) == Success(t)) ||
    (origin.MapOrigin? && origin.members.Some? && mapper.writeMap(origin.members.value) == Success(t)) ||
    (TreeView(mapper, origin).None? && MapView(mapper, origin).None? && t == "null")
  }

  class JsonWrapper {
    const mapper: ObjectMapper
    ghost const origin: Origin
    var jsonNode: Option<JsonValue>
    var jsonMap: Option<LinkedMap<JsonValue>>
    var jsonText: Option<string>

    /** The given form is held as given; a derived form, once present, is the
        one its origin determines; a cached text is one the origin allows. */
    ghost predicate Valid()
      reads this
    {
      (origin.TreeOrigin? ==> jsonNode == origin.tree) &&
      (origin.MapOrigin? ==> jsonMap == origin.members) &&
      (jsonNode.Some? ==> jsonNode == TreeView(mapper, origin)) &&
      (jsonMap.Some? ==> jsonMap == MapView(mapper, origin)) &&
      (jsonText.Some? ==> IsText(mapper, origin, jsonText.value))
    }

    /** JsonWrapper(objectMapper, jsonNode). */
    constructor FromTree(m: ObjectMapper, tree: Option<JsonValue>)
      ensures Valid() && mapper == m && origin == TreeOrigin(tree)
      ensures jsonNode == tree && jsonMap == None && jsonText == None
    {
      mapper := m;
      origin := TreeOrigin(tree);
      jsonNode := tree;
      jsonMap := None;
      jsonText := None;
    }

    /** JsonWrapper(objectMapper, jsonMap). */
    constructor FromMap(m: ObjectMapper, given: Option<LinkedMap<JsonValue>>)
      ensures Valid() && mapper == m && origin == MapOrigin(given)
      ensures jsonNode == None && jsonMap == given && jsonText == None
    {
      mapper := m;
      origin := MapOrigin(given);
      jsonNode := None;
      jsonMap := given;
      jsonText := None;
    }

    /** getJsonNode: the tree, converted from the map on the first call that
        finds none; every call returns the same tree, and no other form is
        touched. */
    method GetJsonNode() returns (r: Option<JsonValue>)
      requires Valid()
      modifies this
      ensures Valid()
      ensures r == TreeView(mapper, origin)
      ensures old(jsonNode).Some? ==> r == old(jsonNode)
      ensures jsonNode == r && jsonMap == old(jsonMap) && jsonText == old(jsonText)
    {
      if jsonNode.None? && jsonMap.Some? {
        jsonNode := Some(mapper.valueToTree(jsonMap.value));
      }
      r := jsonNode;
    }

    /** getJsonMap: the map, converted from the tree on the first call that
        finds none; every call returns the same map. */
    method GetJsonMap() returns (r: Option<LinkedMap<JsonValue>>)
      requires Valid()
      modifies this
      ensures Valid()
      ensures r == MapView(mapper, origin)
      ensures old(jsonMap).Some? ==> r == old(jsonMap)
      ensures jsonMap == r && jsonNode == old(jsonNode) && jsonText == old(jsonText)
    {
      if jsonMap.None? && jsonNode.Some? {
        jsonMap := Some(mapper.convertToMap(jsonNode.value));
      }
      r := jsonMap;
    }

    /** getJsonText: written once, from the tree if the wrapper holds one and
        otherwise from the map, then cached; a write that fails caches
        nothing. */
    method GetJsonText() returns (r: Result<string, ProcessingError>)
      requires Valid()
      modifies this
      ensures Valid()
      ensures old(jsonText).Some? ==> r == Success(old(jsonText).value) && jsonText == old(jsonText)
      ensures old(jsonText).None? ==> (r ==
        if old(jsonNode).Some? then mapper.writeTree(old(jsonNode).value)
        else if old(jsonMap).Some? then mapper.writeMap(old(jsonMap).value)
        else Success("null"))
      ensures r.Success? ==> jsonText == Some(r.value) && IsText(mapper, origin, r.value)
      ensures r.Failure? ==> jsonText == None
      ensures jsonNode == old(jsonNode) && jsonMap == old(jsonMap)
    {
      if jsonText.None? {
        var written: Result<string, ProcessingError>;
        if jsonNode.Some? {
          written := mapper.writeTree(jsonNode.value);
        } else if jsonMap.Some? {
          written := mapper.writeMap(jsonMap.value);
        } else {
          written := Success("null");
        }
        if written.Failure? {
          return written;
        }
        jsonText := Some(written.value);
      }
      r := Success(jsonText.value);
    }
  }

  /** A wrapper built from a map: the map comes back as given, the tree is
      derived from it, repeated calls return the cached forms, and the text,
      written once, is the same on every later call. */
  method MapWrapperViews(m: ObjectMapper, doc: LinkedMap<JsonValue>)
    returns (map1: Option<LinkedMap<JsonValue>>, tree1: Option<JsonValue>, tree2: Option<JsonValue>,
             text1: Result<string, ProcessingError>, text2: Result<string, ProcessingError>)
    ensures map1 == Some(doc)
    ensures tree1 == tree2 == Some(m.valueToTree(doc))
    ensures text1 == m.writeTree(m.valueToTree(doc))
    ensures text1.Success? ==> text2 == text1
  {
    var w := new JsonWrapper.FromMap(m, Some(doc));
    map1 := w.GetJsonMap();
    tree1 := w.GetJsonNode();
    tree2 := w.GetJsonNode();
    text1 := w.GetJsonText();
    text2 := w.GetJsonText();
  }

  /** The same wrapper asked for its text first writes the map itself: which
      form the text is written from depends on the calls made before. */
  method MapWrapperTextFirst(m: ObjectMapper, doc: LinkedMap<JsonValue>)
    returns (text: Result<string, ProcessingError>, tree: Option<JsonValue>)
    ensures text == m.writeMap(doc)
    ensures tree == Some(m.valueToTree(doc))
  {
    var w := new JsonWrapper.FromMap(m, Some(doc));
    text := w.GetJsonText();
    tree := w.GetJsonNode();
  }

  /** A wrapper built from a null tree has no form at all, and its text is
      the text of null. */
  method NullWrapper(m: ObjectMapper)
    returns (tree: Option<JsonValue>, members: Option<LinkedMap<JsonValue>>, text: Result<string, ProcessingError>)
    ensures tree == None && members == None && text == Success("null")
  {
    var w := new JsonWrapper.FromTree(m, None);
    tree := w.GetJsonNode();
    members := w.GetJsonMap();
    text := w.GetJsonText();
  }
}
