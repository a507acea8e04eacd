/** JSON values as the Java code holds them after Jackson has decoded a
    document into plain objects: String, Integer, Boolean, null, ArrayList and
    LinkedHashMap. Objects keep their members in insertion order, as a
    LinkedHashMap does, and the map operations below behave like its
    get/remove/put. */
module Json {
  import opened Wrappers
  import opened Text

  datatype Entry<V> = Entry(key: string, value: V)

  /** An insertion-ordered map (java.util.LinkedHashMap). */
  type LinkedMap<V> = seq<Entry<V>>

  function Keys<V>(m: LinkedMap<V>): (ks: seq<string>)
    ensures |ks| == |m| && forall i | 0 <= i < |m| :: ks[i] == m[i].key
  {
    seq(|m|, i requires 0 <= i < |m| => m[i].key)
  }

  predicate HasKey<V>(m: LinkedMap<V>, k: string)
  {
    exists i | 0 <= i < |m| :: m[i].key == k
  }

  /** A LinkedHashMap never holds one key twice. */
  predicate WellFormed<V>(m: LinkedMap<V>)
  {
    Distinct(Keys(m))
  }

  /** Map.get: the value stored under `k`, or None (Java's null). */
  function Get<V>(m: LinkedMap<V>, k: string): (r: Option<V>)
    ensures r.None? <==> !HasKey(m, k)
    ensures r.Some? ==> Entry(k, r.value) in m
  {
    if |m| == 0 then None
    else if m[0].key == k then Some(m[0].value)
    else Get(m[1..], k)
  }

  /** Map.remove: drops the entry for `k` and keeps the others in order. */
  function Remove<V>(m: LinkedMap<V>, k: string): (r: LinkedMap<V>)
    ensures !HasKey(r, k)
  {
    if |m| == 0 then []
    else if m[0].key == k then Remove(m[1..], k)
    else [m[0]] + Remove(m[1..], k)
  }

  /** Map.put: replaces the value of an existing key where it stands, or
      appends a new entry at the end. */
  function Put<V>(m: LinkedMap<V>, k: string, v: V): (r: LinkedMap<V>)
    ensures Get(r, k) == Some(v)
    ensures |r| == if HasKey(m, k) then |m| else |m| + 1
    ensures !HasKey(m, k) ==> r[|m|] == Entry(k, v)
  {
    if |m| == 0 then [Entry(k, v)]
    else if m[0].key == k then [Entry(k, v)] + m[1..]
    else
      assert HasKey(m, k) <==> HasKey(m[1..], k) by {
        if HasKey(m, k) {
          var i :| 0 <= i < |m| && m[i].key == k;
          assert m[1..][i - 1] == m[i];
        }
      }
      [m[0]] + Put(m[1..], k, v)
  }

  /** Put leaves every other key's value alone. */
  lemma {:induction false} PutOther<V>(m: LinkedMap<V>, k: string, v: V, k': string)
    requires k' != k
    ensures Get(Put(m, k, v), k') == Get(m, k')
  {
    if |m| > 0 && m[0].key != k {
      PutOther(m[1..], k, v, k');
      assert Put(m, k, v)[1..] == Put(m[1..], k, v);
    } else if |m| > 0 {
      assert Put(m, k, v)[1..] == m[1..];
    }
  }

  /** Put keeps the keys of the existing entries where they stand. */
  lemma {:induction false} PutKeepsPositions<V>(m: LinkedMap<V>, k: string, v: V)
    ensures forall i | 0 <= i < |m| :: Put(m, k, v)[i].key == m[i].key
  {
    if |m| > 0 && m[0].key != k {
      PutKeepsPositions(m[1..], k, v);
      var r := Put(m, k, v);
      assert r[1..] == Put(m[1..], k, v);
      forall i | 1 <= i < |m| ensures r[i].key == m[i].key {
        assert r[i] == r[1..][i - 1] && m[i] == m[1..][i - 1];
      }
    }
  }

  /** Adding a key that is not there yet appends its entry. */
  lemma {:induction false} PutAbsent<V>(m: LinkedMap<V>, k: string, v: V)
    requires !HasKey(m, k)
    ensures Put(m, k, v) == m + [Entry(k, v)]
  {
    if |m| > 0 {
      var t := m[1..];
      NoKeyInTail(m, k);
      PutAbsent(t, k, v);
      SnocCons(m, Entry(k, v));
    }
  }

  lemma SnocCons<V>(m: LinkedMap<V>, e: Entry<V>)
    requires |m| > 0
    ensures m + [e] == [m[0]] + (m[1..] + [e])
  {
  }

  /** Adding a key that is not there yet puts it last. */
  lemma PutFreshKey<V>(m: LinkedMap<V>, k: string, v: V)
    requires !HasKey(m, k)
    ensures Keys(Put(m, k, v)) == Keys(m) + [k]
  {
    PutAbsent(m, k, v);
    KeysSnoc(m, Entry(k, v));
  }

  lemma KeysSnoc<V>(m: LinkedMap<V>, e: Entry<V>)
    ensures Keys(m + [e]) == Keys(m) + [e.key]
  {
    assert forall i | 0 <= i < |m| + 1 :: Keys(m + [e])[i] == (Keys(m) + [e.key])[i];
  }

  /** Putting a fresh key and removing it again gives back the original map. */
  lemma {:induction false} RemoveAfterPut<V>(m: LinkedMap<V>, k: string, v: V)
    requires !HasKey(m, k)
    ensures Remove(Put(m, k, v), k) == m
  {
    PutAbsent(m, k, v);
    RemoveAppended(m, Entry(k, v));
  }

  lemma {:induction false} RemoveAppended<V>(m: LinkedMap<V>, e: Entry<V>)
    requires !HasKey(m, e.key)
    ensures Remove(m + [e], e.key) == m
  {
    if |m| == 0 {
      assert m + [e] == [e];
    } else {
      NoKeyInTail(m, e.key);
      RemoveAppended(m[1..], e);
      SnocCons(m, e);
      RemoveCons(m[0], m[1..] + [e], e.key);
      assert m == [m[0]] + m[1..];
    }
  }

  lemma NoKeyInTail<V>(m: LinkedMap<V>, k: string)
    requires |m| > 0 && !HasKey(m, k)
    ensures m[0].key != k && !HasKey(m[1..], k)
  {
    forall i | 0 <= i < |m[1..]| ensures m[1..][i].key != k {
      assert m[1..][i] == m[i + 1];
    }
  }

  /** Put goes past a prefix that does not hold the key. */
  lemma {:induction false} PutAfterPrefix<V>(pre: LinkedMap<V>, tail: LinkedMap<V>, k: string, v: V)
    requires !HasKey(pre, k)
    ensures Put(pre + tail, k, v) == pre + Put(tail, k, v)
  {
    if |pre| == 0 {
      assert pre + tail == tail;
    } else {
      NoKeyInTail(pre, k);
      PutAfterPrefix(pre[1..], tail, k, v);
      ConcatTail(pre, tail);
      PutStep(pre + tail, k, v);
      ConsConcat(pre, Put(tail, k, v));
    }
  }

  /** Put past a first entry with another key. */
  lemma PutStep<V>(m: LinkedMap<V>, k: string, v: V)
    requires |m| > 0 && m[0].key != k
    ensures Put(m, k, v) == [m[0]] + Put(m[1..], k, v)
  {
  }

  lemma RemoveCons<V>(e: Entry<V>, p: LinkedMap<V>, k: string)
    requires e.key != k
    ensures Remove([e] + p, k) == [e] + Remove(p, k)
  {
    assert ([e] + p)[1..] == p;
  }

  datatype JsonValue =
    | JNull
    | JBool(b: bool)
    | JNumber(n: int)
    | JString(s: string)
    | JArray(items: seq<JsonValue>)
    | JObject(members: LinkedMap<JsonValue>)

  /** Object.equals on decoded values: lists compare element by element,
      maps as AbstractMap.equals does (same size, and every entry's key maps
      to an equal value in the other map, whatever the order), scalars by
      value. */
  predicate JsonEquals(a: JsonValue, b: JsonValue)
    decreases a
  {
    match a
    case JArray(xs) =>
      b.JArray? && |xs| == |b.items| &&
      forall i | 0 <= i < |xs| :: JsonEquals(xs[i], b.items[i])
    case JObject(ms) =>
      b.JObject? && |ms| == |b.members| &&
      forall i | 0 <= i < |ms| ::
        Get(b.members, ms[i].key).Some? && JsonEquals(ms[i].value, Get(b.members, ms[i].key).value)
    case _ => a == b
  }

  /** Every map inside the value holds each key once, as a decoded value does. */
  predicate DeepWellFormed(a: JsonValue)
    decreases a
  {
    match a
    case JArray(xs) => forall i | 0 <= i < |xs| :: DeepWellFormed(xs[i])
    case JObject(ms) => WellFormed(ms) && forall i | 0 <= i < |ms| :: DeepWellFormed(ms[i].value)
    case _ => true
  }

  lemma {:induction false} GetOfMember<V>(m: LinkedMap<V>, i: nat)
    requires WellFormed(m) && i < |m|
    ensures Get(m, m[i].key) == Some(m[i].value)
  {
    if i > 0 {
      assert m[0].key != m[i].key by { assert Keys(m)[0] != Keys(m)[i]; }
      assert WellFormed(m[1..]) by {
        forall x, y | 0 <= x < y < |m[1..]| ensures Keys(m[1..])[x] != Keys(m[1..])[y] {
          assert Keys(m)[x + 1] != Keys(m)[y + 1];
        }
      }
      GetOfMember(m[1..], i - 1);
    }
  }

  /** equals is reflexive on decoded values. */
  lemma {:induction false} JsonEqualsReflexive(a: JsonValue)
    requires DeepWellFormed(a)
    ensures JsonEquals(a, a)
    decreases a
  {
    match a
    case JArray(xs) =>
      forall i | 0 <= i < |xs| ensures JsonEquals(xs[i], xs[i]) {
        JsonEqualsReflexive(xs[i]);
      }
    case JObject(ms) =>
      forall i | 0 <= i < |ms|
        ensures Get(ms, ms[i].key) == Some(ms[i].value) && JsonEquals(ms[i].value, ms[i].value)
      {
        GetOfMember(ms, i);
        JsonEqualsReflexive(ms[i].value);
      }
    case _ =>
  }

  /** toString of a decoded value, the text String.format("%s", v) prints:
      strings unquoted, lists as "[a, b]", maps as "{k=v, ...}". */
  function Render(v: JsonValue): string
    decreases v
  {
    match v
    case JNull => "null"
    case JBool(b) => if b then "true" else "false"
    case JNumber(n) => IntToString(n)
    case JString(s) => s
    case JArray(xs) =>
      "[" + Join(seq(|xs|, i requires 0 <= i < |xs| => Render(xs[i])), ", ") + "]"
    case JObject(ms) =>
      "{" + Join(seq(|ms|, i requires 0 <= i < |ms| => ms[i].key + "=" + Render(ms[i].value)), ", ") + "}"
  }

  /** String.format("%s", x) of a nullable value. */
  function RenderNullable(v: Option<JsonValue>): string
  {
    if v.None? then "null" else Render(v.value)
  }

  /** String.format("%s", s) of a nullable string. */
  function StringOrNull(s: Option<string>): string
  {
    if s.None? then "null" else s.value
  }
}
