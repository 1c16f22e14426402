/**
  Python's ordering of `str` values (code point by code point, a proper
  prefix first) and `sorted(set(...))` on strings: the sorted, duplicate-free
  list of a collection's distinct values.
*/
module StringOrder {

  /** `a < b` on Python strings. */
  predicate Less(a: string, b: string) {
    if |a| == 0 then |b| > 0
    else if |b| == 0 then false
    else if a[0] != b[0] then a[0] < b[0]
    else Less(a[1..], b[1..])
  }

  lemma {:induction false} LessIrreflexive(a: string)
    ensures !Less(a, a)
  {
    if |a| > 0 {
      LessIrreflexive(a[1..]);
    }
  }

  lemma {:induction false} LessTransitive(a: string, b: string, c: string)
    requires Less(a, b) && Less(b, c)
    ensures Less(a, c)
  {
    if |a| > 0 && a[0] == b[0] && b[0] == c[0] {
      LessTransitive(a[1..], b[1..], c[1..]);
    }
  }

  /** Any two different strings are ordered one way or the other. */
  lemma {:induction false} LessTotal(a: string, b: string)
    requires a != b
    ensures Less(a, b) || Less(b, a)
  {
    if |a| > 0 && |b| > 0 && a[0] == b[0] {
      assert a == [a[0]] + a[1..] && b == [b[0]] + b[1..];
      LessTotal(a[1..], b[1..]);
    }
  }

  lemma {:induction false} LessAsymmetric(a: string, b: string)
    ensures !(Less(a, b) && Less(b, a))
  {
    if |a| > 0 && |b| > 0 && a[0] == b[0] {
      LessAsymmetric(a[1..], b[1..]);
    }
  }

  predicate StrictlySorted(s: seq<string>) {
    forall i, j :: 0 <= i < j < |s| ==> Less(s[i], s[j])
  }

  /** The first element of a strictly sorted sequence is below all others. */
  lemma SortedHead(s: seq<string>, x: string)
    requires StrictlySorted(s) && |s| > 0
    requires x in s[1..]
    ensures Less(s[0], x)
  {
    var k :| 0 <= k < |s[1..]| && s[1..][k] == x;
    assert s[k + 1] == x;
  }

  /** Every value of a strictly sorted sequence is its first element or
      above it. */
  lemma SortedMinimum(s: seq<string>, x: string)
    requires StrictlySorted(s)
    requires x in s
    ensures x == s[0] || Less(s[0], x)
  {
    var k :| 0 <= k < |s| && s[k] == x;
  }

  /** Insert `x` into a strictly sorted sequence, unless it is already there. */
  function Insert(s: seq<string>, x: string): (r: seq<string>)
    requires StrictlySorted(s)
    ensures StrictlySorted(r)
    ensures forall y :: y in r <==> y in s || y == x
  {
    if |s| == 0 then [x]
    else if x == s[0] then s
    else if Less(x, s[0]) then
      assert forall j :: 0 <= j < |s| ==> Less(x, s[j]) by {
        forall j | 0 <= j < |s| ensures Less(x, s[j]) {
          if j > 0 { LessTransitive(x, s[0], s[j]); }
        }
      }
      [x] + s
    else
      LessTotal(x, s[0]);
      var rest := Insert(s[1..], x);
      assert forall y :: y in rest ==> Less(s[0], y) by {
        forall y | y in rest ensures Less(s[0], y) {
          if y != x { SortedHead(s, y); }
        }
      }
      [s[0]] + rest
  }

  /** `sorted(set(xs))`: the distinct values of `xs` in ascending order. */
  function SortedDistinct(xs: seq<string>): (r: seq<string>)
    ensures StrictlySorted(r)
    ensures forall y :: y in r <==> y in xs
  {
    if |xs| == 0 then []
    else
      var r := Insert(SortedDistinct(xs[1..]), xs[0]);
      assert forall y :: y in xs <==> y == xs[0] || y in xs[1..] by {
        assert xs == [xs[0]] + xs[1..];
      }
      r
  }

  /** A strictly sorted sequence is determined by its elements: the order
      does not depend on how the values were collected. */
  lemma {:induction false} SortedUnique(a: seq<string>, b: seq<string>)
    requires StrictlySorted(a) && StrictlySorted(b)
    requires forall y :: y in a <==> y in b
    ensures a == b
    decreases |a|
  {
    if |a| > 0 {
      assert a[0] in b;
    }
    if |b| > 0 {
      assert b[0] in a;
    }
    if |a| > 0 && |b| > 0 {
      SortedMinimum(b, a[0]);
      SortedMinimum(a, b[0]);
      LessAsymmetric(a[0], b[0]);
      forall y
        ensures y in a[1..] <==> y in b[1..]
      {
        if y in a[1..] {
          SortedHead(a, y);
          LessIrreflexive(y);
          assert y in b;
          assert y != b[0];
        }
        if y in b[1..] {
          SortedHead(b, y);
          LessIrreflexive(y);
          assert y in a;
          assert y != a[0];
        }
      }
      SortedUnique(a[1..], b[1..]);
    }
  }

  /** A strictly sorted sequence lists each of its values exactly once, so
      its length is the number of distinct values. */
  lemma {:induction false} SortedCardinality(s: seq<string>)
    requires StrictlySorted(s)
    ensures |set y | y in s| == |s|
    decreases |s|
  {
    if |s| > 0 {
      SortedCardinality(s[1..]);
      var tail := set y | y in s[1..];
      assert (set y | y in s) == {s[0]} + tail by {
        assert s == [s[0]] + s[1..];
      }
      assert s[0] !in tail by {
        if s[0] in s[1..] {
          SortedHead(s, s[0]);
          LessIrreflexive(s[0]);
        }
      }
    }
  }
}
