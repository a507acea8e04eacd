/** String helpers the Java code takes from the standard library:
    Integer.toString, String.join, String.compareTo, sorting a list of
    distinct strings, and String.replace. */
module Text {

  /** Joins `parts` with `sep` between consecutive parts, like String.join. */
  function Join(parts: seq<string>, sep: string): string
  {
    if |parts| == 0 then ""
    else if |parts| == 1 then parts[0]
    else parts[0] + sep + Join(parts[1..], sep)
  }

  function DigitChar(d: nat): char
    requires d < 10
  {
    "0123456789"[d]
  }

  function NatToString(n: nat): (s: string)
    ensures |s| > 0
  {
    if n < 10 then [DigitChar(n)] else NatToString(n / 10) + [DigitChar(n % 10)]
  }

  /** Decimal text of an integer, as Integer.toString prints it. */
  function IntToString(i: int): string
  {
    if i < 0 then "-" + NatToString(-i) else NatToString(i)
  }

  /** Texts that differ stay different inside the same surroundings. */
  lemma SurroundedDiffer(p: string, a: string, b: string, q: string)
    requires a != b
    ensures p + a + q != p + b + q
  {
    if |a| == |b| {
      var i :| 0 <= i < |a| && a[i] != b[i];
      assert (p + a + q)[|p| + i] == a[i];
      assert (p + b + q)[|p| + i] == b[i];
    } else {
      assert |p + a + q| != |p + b + q|;
    }
  }

  // ---------------------------------------------------------------------------
  // Lexicographic order (String.compareTo(a, b) < 0)
  // ---------------------------------------------------------------------------

  predicate LexLess(a: string, b: string)
    decreases |a|
  {
    if |a| == 0 then |b| > 0
    else if |b| == 0 then false
    else if a[0] == b[0] then LexLess(a[1..], b[1..])
    else a[0] < b[0]
  }

  lemma {:induction false} LexLessIrreflexive(a: string)
    ensures !LexLess(a, a)
    decreases |a|
  {
    if |a| > 0 {
      LexLessIrreflexive(a[1..]);
    }
  }

  lemma {:induction false} LexLessTransitive(a: string, b: string, c: string)
    requires LexLess(a, b) && LexLess(b, c)
    ensures LexLess(a, c)
    decreases |a|
  {
    if |a| > 0 && a[0] == b[0] && b[0] == c[0] {
      LexLessTransitive(a[1..], b[1..], c[1..]);
    }
  }

  lemma {:induction false} LexLessTotal(a: string, b: string)
    requires a != b
    ensures LexLess(a, b) || LexLess(b, a)
    decreases |a|
  {
    if |a| > 0 && |b| > 0 && a[0] == b[0] {
      assert a == [a[0]] + a[1..] && b == [b[0]] + b[1..];
      LexLessTotal(a[1..], b[1..]);
    }
  }

  lemma {:induction false} LexLessAsymmetric(a: string, b: string)
    requires LexLess(a, b)
    ensures !LexLess(b, a)
  {
    if LexLess(b, a) {
      LexLessTransitive(a, b, a);
      LexLessIrreflexive(a);
    }
  }

  // ---------------------------------------------------------------------------
  // Sorting distinct strings (Stream.sorted on the ids of a registry)
  // ---------------------------------------------------------------------------

  predicate Distinct<T(==)>(s: seq<T>)
  {
    forall i, j | 0 <= i < j < |s| :: s[i] != s[j]
  }

  /** Appending a fresh element keeps a sequence duplicate-free. */
  lemma DistinctSnoc<T>(s: seq<T>, x: T)
    requires Distinct(s) && x !in s
    ensures Distinct(s + [x])
  {
    forall i, j | 0 <= i < j < |s| + 1 ensures (s + [x])[i] != (s + [x])[j] {
      assert (s + [x])[i] == s[i];
    }
  }

  predicate StrictlySorted(s: seq<string>)
  {
    forall i, j | 0 <= i < j < |s| :: LexLess(s[i], s[j])
  }

  lemma StrictlySortedIsDistinct(s: seq<string>)
    requires StrictlySorted(s)
    ensures Distinct(s)
  {
    forall i, j | 0 <= i < j < |s| ensures s[i] != s[j] {
      LexLessIrreflexive(s[i]);
    }
  }

  /** Inserts `x` into its place in a strictly sorted sequence. */
  function Insert(x: string, s: seq<string>): (r: seq<string>)
    requires StrictlySorted(s) && x !in s
    ensures StrictlySorted(r) && |r| == |s| + 1
    ensures forall y :: y in r <==> y in s || y == x
  {
    if |s| == 0 then [x]
    else if LexLess(x, s[0]) then
      assert forall j | 0 < j < |s| :: LexLess(x, s[j]) by {
        forall j | 0 < j < |s| ensures LexLess(x, s[j]) {
          LexLessTransitive(x, s[0], s[j]);
        }
      }
      [x] + s
    else
      LexLessTotal(x, s[0]);
      var rest := Insert(x, s[1..]);
      assert forall y | y in rest :: LexLess(s[0], y) by {
        forall y | y in rest ensures LexLess(s[0], y) {
          if y != x {
            var j :| 0 <= j < |s[1..]| && s[1..][j] == y;
            assert s[j + 1] == y;
          }
        }
      }
      [s[0]] + rest
  }

  /** Sorts distinct strings into ascending order. */
  function Sort(s: seq<string>): (r: seq<string>)
    requires Distinct(s)
    ensures StrictlySorted(r) && |r| == |s|
    ensures forall y :: y in r <==> y in s
  {
    if |s| == 0 then []
    else
      assert s[0] !in s[1..] by {
        forall j | 0 <= j < |s[1..]| ensures s[1..][j] != s[0] {
          assert s[1..][j] == s[j + 1];
        }
      }
      Insert(s[0], Sort(s[1..]))
  }

  lemma FirstIsMember<T>(s: seq<T>)
    ensures |s| > 0 ==> s[0] in s
  {
  }

  /** A finite set of strings has exactly one strictly sorted enumeration,
      so the sorted output does not depend on the order the input came in. */
  lemma {:induction false} SortedEnumerationUnique(a: seq<string>, b: seq<string>)
    requires StrictlySorted(a) && StrictlySorted(b)
    requires forall y :: y in a <==> y in b
    ensures a == b
    decreases |a|
  {
    if |a| == 0 {
      FirstIsMember(b);
    } else {
      assert a[0] in b && b[0] in a;
      if a[0] != b[0] {
        var k :| 0 <= k < |b| && b[k] == a[0];
        var m :| 0 <= m < |a| && a[m] == b[0];
        assert LexLess(b[0], a[0]) && LexLess(a[0], b[0]);
        LexLessAsymmetric(a[0], b[0]);
      }
      StrictlySortedIsDistinct(a);
      StrictlySortedIsDistinct(b);
      forall y ensures y in a[1..] <==> y in b[1..] {
        if y in a[1..] {
          var i :| 0 <= i < |a[1..]| && a[1..][i] == y;
          assert a[i + 1] == y && y != a[0];
          assert y in b;
          var j :| 0 <= j < |b| && b[j] == y;
          assert j != 0;
          assert b[1..][j - 1] == y;
        }
        if y in b[1..] {
          var i :| 0 <= i < |b[1..]| && b[1..][i] == y;
          assert b[i + 1] == y && y != b[0];
          assert y in a;
          var j :| 0 <= j < |a| && a[j] == y;
          assert j != 0;
          assert a[1..][j - 1] == y;
        }
      }
      SortedEnumerationUnique(a[1..], b[1..]);
      assert a == [a[0]] + a[1..] && b == [b[0]] + b[1..];
    }
  }

  // ---------------------------------------------------------------------------
  // String.replace(target, replacement)
  // ---------------------------------------------------------------------------

  predicate OccursAt(s: string, target: string, i: nat)
  {
    i + |target| <= |s| && s[i..i + |target|] == target
  }

  /** Replaces every occurrence of `target`, scanning left to right and never
      overlapping two replaced occurrences, as String.replace does. */
  function ReplaceAll(s: string, target: string, replacement: string): string
    requires |target| > 0
    decreases |s|
  {
    if |s| < |target| then s
    else if s[..|target|] == target then replacement + ReplaceAll(s[|target|..], target, replacement)
    else [s[0]] + ReplaceAll(s[1..], target, replacement)
  }

  lemma {:induction false} ReplaceAllWithoutTarget(s: string, target: string, replacement: string)
    requires |target| > 0
    requires forall i: nat :: !OccursAt(s, target, i)
    ensures ReplaceAll(s, target, replacement) == s
    decreases |s|
  {
    if |s| >= |target| {
      assert !OccursAt(s, target, 0);
      forall i: nat ensures !OccursAt(s[1..], target, i) {
        assert !OccursAt(s, target, i + 1);
        if i + |target| <= |s[1..]| {
          assert s[1..][i..i + |target|] == s[i + 1..i + 1 + |target|];
        }
      }
      ReplaceAllWithoutTarget(s[1..], target, replacement);
      assert s == [s[0]] + s[1..];
    }
  }

  lemma {:induction false} ReplaceAllBySelf(s: string, target: string)
    requires |target| > 0
    ensures ReplaceAll(s, target, target) == s
    decreases |s|
  {
    if |s| >= |target| {
      if s[..|target|] == target {
        ReplaceAllBySelf(s[|target|..], target);
        assert s == s[..|target|] + s[|target|..];
      } else {
        ReplaceAllBySelf(s[1..], target);
        assert s == [s[0]] + s[1..];
      }
    }
  }

  /** A target none of whose proper prefixes is also one of its suffixes:
      two of its occurrences can never overlap. */
  predicate Unbordered(t: string)
  {
    forall d | 0 < d < |t| :: t[d..] != t[..|t| - d]
  }

  /** Dropping the first character keeps a string free of the target. */
  lemma NoOccurrenceInTail(p: string, target: string)
    requires |p| > 0 && forall i: nat :: !OccursAt(p, target, i)
    ensures forall i: nat :: !OccursAt(p[1..], target, i)
  {
    forall i: nat ensures !OccursAt(p[1..], target, i) {
      assert !OccursAt(p, target, i + 1);
      if i + |target| <= |p[1..]| {
        assert p[1..][i..i + |target|] == p[i + 1..i + 1 + |target|];
      }
    }
  }

  /** In a target-free text followed by the target, no occurrence starts at
      the front: it would lie inside the text or straddle into the target,
      and an unbordered target cannot straddle. */
  lemma NoOccurrenceAtFront(p: string, rest: string, target: string)
    requires |p| > 0 && |target| > 0 && Unbordered(target)
    requires forall i: nat :: !OccursAt(p, target, i)
    ensures (p + (target + rest))[..|target|] != target
  {
    var s := p + (target + rest);
    if |p| >= |target| {
      assert !OccursAt(p, target, 0);
      assert s[..|target|] == p[..|target|];
    } else {
      var d := |p|;
      var j :| 0 <= j < |target| - d && target[d..][j] != target[..|target| - d][j];
      assert s[d + j] == target[j];
      assert s[..|target|][d + j] != target[d + j];
    }
  }

  /** A target-free text before an occurrence of an unbordered target is
      copied, and the occurrence is replaced. */
  lemma {:induction false} ReplaceAllBeforeTarget(p: string, rest: string, target: string, replacement: string)
    requires |target| > 0 && Unbordered(target)
    requires forall i: nat :: !OccursAt(p, target, i)
    ensures ReplaceAll(p + (target + rest), target, replacement)
      == p + (replacement + ReplaceAll(rest, target, replacement))
    decreases |p|
  {
    if |p| == 0 {
      assert p + (target + rest) == target + rest;
      ReplaceAllAtFront(rest, target, replacement);
    } else {
      var s := p + (target + rest);
      NoOccurrenceAtFront(p, rest, target);
      ConcatTail(p, target + rest);
      NoOccurrenceInTail(p, target);
      ReplaceAllBeforeTarget(p[1..], rest, target, replacement);
      ConsConcat(p, replacement + ReplaceAll(rest, target, replacement));
    }
  }

  lemma ConcatTail<V>(a: seq<V>, b: seq<V>)
    requires |a| > 0
    ensures (a + b)[0] == a[0] && (a + b)[1..] == a[1..] + b
  {
  }

  lemma ConsConcat<V>(a: seq<V>, b: seq<V>)
    requires |a| > 0
    ensures [a[0]] + (a[1..] + b) == a + b
  {
  }

  /** An occurrence at the front is replaced. */
  lemma ReplaceAllAtFront(rest: string, target: string, replacement: string)
    requires |target| > 0
    ensures ReplaceAll(target + rest, target, replacement) == replacement + ReplaceAll(rest, target, replacement)
  {
    var s := target + rest;
    assert s[..|target|] == target && s[|target|..] == rest;
  }

  /** Every occurrence of an unbordered target between target-free pieces is
      replaced: replacing in the pieces joined by the target gives the pieces
      joined by the replacement. */
  lemma {:induction false} ReplaceAllJoin(pieces: seq<string>, target: string, replacement: string)
    requires |target| > 0 && Unbordered(target)
    requires forall k, i: nat | 0 <= k < |pieces| :: !OccursAt(pieces[k], target, i)
    ensures ReplaceAll(Join(pieces, target), target, replacement) == Join(pieces, replacement)
    decreases |pieces|
  {
    if |pieces| == 1 {
      ReplaceAllWithoutTarget(pieces[0], target, replacement);
    } else if |pieces| > 1 {
      var tail := Join(pieces[1..], target);
      assert Join(pieces, target) == pieces[0] + (target + tail);
      ReplaceAllBeforeTarget(pieces[0], tail, target, replacement);
      ReplaceAllJoin(pieces[1..], target, replacement);
      assert Join(pieces, replacement) == pieces[0] + (replacement + Join(pieces[1..], replacement));
    }
  }
}
