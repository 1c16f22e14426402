/**
  The Python string primitives the core relies on, as pure functions over
  `seq<char>`: `str.strip()`, `str.startswith`, `str.split(',')`,
  `s.split(delim)[0]` and `str.lower()` (ASCII part).
*/
module Text {

  /** The characters Python's `str.strip()` (no argument) removes: exactly
      those for which `str.isspace()` holds. */
  predicate IsSpace(c: char) {
    || ('\t' <= c <= '\r')
    || ('\U{1C}' <= c <= '\U{1F}')
    || c == ' '
    || c == '\U{85}'
    || c == '\U{A0}'
    || c == '\U{1680}'
    || ('\U{2000}' <= c <= '\U{200A}')
    || c == '\U{2028}'
    || c == '\U{2029}'
    || c == '\U{202F}'
    || c == '\U{205F}'
    || c == '\U{3000}'
  }

  predicate AllSpace(s: string) {
    forall k :: 0 <= k < |s| ==> IsSpace(s[k])
  }

  /** Every character of `s` at an index in `[lo, hi)` is a space. */
  predicate SpacesBetween(s: string, lo: int, hi: int) {
    forall k :: lo <= k < hi && 0 <= k < |s| ==> IsSpace(s[k])
  }

  /** `s[a..b]` is what `str.strip()` leaves: only spaces outside it, and it
      neither starts nor ends with a space. */
  predicate IsStripSpan(s: string, a: nat, b: nat) {
    && a <= b <= |s|
    && SpacesBetween(s, 0, a)
    && SpacesBetween(s, b, |s|)
    && (a < b ==> !IsSpace(s[a]) && !IsSpace(s[b - 1]))
  }

  /** The first index at or after `i` that holds a non-space, or `|s|`. */
  function SkipSpaces(s: string, i: nat): (a: nat)
    requires i <= |s|
    ensures i <= a <= |s|
    ensures SpacesBetween(s, i, a)
    ensures a == |s| || !IsSpace(s[a])
    decreases |s| - i
  {
    if i < |s| && IsSpace(s[i]) then SkipSpaces(s, i + 1) else i
  }

  /** The least `b` in `[a, j]` such that `s[b..j]` is all spaces. */
  function SkipSpacesBack(s: string, a: nat, j: nat): (b: nat)
    requires a <= j <= |s|
    ensures a <= b <= j
    ensures SpacesBetween(s, b, j)
    ensures b == a || !IsSpace(s[b - 1])
    decreases j
  {
    if a < j && IsSpace(s[j - 1]) then SkipSpacesBack(s, a, j - 1) else j
  }

  /** The bounds of `Strip(s)` inside `s`. */
  function StripBounds(s: string): (ab: (nat, nat))
    ensures IsStripSpan(s, ab.0, ab.1)
  {
    var a := SkipSpaces(s, 0);
    var b := SkipSpacesBack(s, a, |s|);
    (a, b)
  }

  /** `str.strip()`: `s` without its leading and trailing spaces. */
  function Strip(s: string): (r: string)
    ensures |r| <= |s|
    ensures r == [] <==> AllSpace(s)
    ensures r == [] || (!IsSpace(r[0]) && !IsSpace(r[|r| - 1]))
  {
    var (a, b) := StripBounds(s);
    assert a < b ==> s[a..b][0] == s[a] && s[a..b][b - a - 1] == s[b - 1];
    s[a..b]
  }

  /** Only one span has the property `IsStripSpan` (up to the empty text). */
  lemma StripSpanUnique(s: string, a: nat, b: nat, a': nat, b': nat)
    requires IsStripSpan(s, a, b) && IsStripSpan(s, a', b')
    ensures s[a..b] == s[a'..b']
  {
    if a < b || a' < b' {
      assert a == a' && b == b';
    }
  }

  /** Reference characterisation: any span with the strip property is
      what `Strip` returns. */
  lemma StripUnique(s: string, a: nat, b: nat)
    requires IsStripSpan(s, a, b)
    ensures Strip(s) == s[a..b]
  {
    var ab := StripBounds(s);
    StripSpanUnique(s, a, b, ab.0, ab.1);
  }

  /** `Strip(s)` is a slice of `s`, so it holds only characters of `s`. */
  lemma StripChars(s: string, c: char)
    requires c in Strip(s)
    ensures c in s
  {
    var ab := StripBounds(s);
    var k :| 0 <= k < |s[ab.0..ab.1]| && s[ab.0..ab.1][k] == c;
    assert s[ab.0 + k] == c;
  }

  /** A text is its leading spaces, its stripped part and its trailing
      spaces. */
  lemma StripSpanPieces(s: string, a: nat, b: nat)
    requires IsStripSpan(s, a, b)
    ensures AllSpace(s[..a]) && AllSpace(s[b..])
    ensures s == s[..a] + (s[a..b] + s[b..])
  {
    forall k | 0 <= k < |s[b..]|
      ensures IsSpace(s[b..][k])
    {
      assert s[b..][k] == s[b + k];
    }
  }

  /** `Strip` is idempotent. */
  lemma StripIdempotent(s: string)
    ensures Strip(Strip(s)) == Strip(s)
  {
    var r := Strip(s);
    assert IsStripSpan(r, 0, |r|);
    StripUnique(r, 0, |r|);
  }

  /** A stripped text `w` is what `Strip(s)` returns exactly when `s` is
      `w` with only spaces around it. */
  lemma StripEquals(s: string, w: string)
    requires Strip(w) == w
    ensures Strip(s) == w <==> exists p, q :: AllSpace(p) && AllSpace(q) && s == p + w + q
  {
    if Strip(s) == w {
      var ab := StripBounds(s);
      StripUnique(s, ab.0, ab.1);
      StripSpanPieces(s, ab.0, ab.1);
      var p, q := s[..ab.0], s[ab.1..];
      assert s == p + w + q;
    }
    forall p, q | AllSpace(p) && AllSpace(q) && s == p + w + q
      ensures Strip(s) == w
    {
      StripPadded(p, w, q);
    }
  }

  /** Leading and trailing spaces do not change the stripped text. */
  lemma StripPadded(p: string, t: string, q: string)
    requires AllSpace(p) && AllSpace(q)
    ensures Strip(p + t + q) == Strip(t)
  {
    var ab := StripBounds(t);
    var a, b := ab.0, ab.1;
    var s := p + t + q;
    var n := |p|;
    var m := t[a..b];
    assert Strip(t) == m by {
      StripUnique(t, a, b);
    }
    assert Strip(s) == m by {
      PaddedSpan(p, t, q, a, b);
      StripUnique(s, n + a, n + b);
      MiddleSlice(p, t, q, a, b);
    }
  }

  /** A slice of the middle part of `p + t + q`. */
  lemma MiddleSlice(p: string, t: string, q: string, a: nat, b: nat)
    requires a <= b <= |t|
    ensures (p + t + q)[|p| + a..|p| + b] == t[a..b]
  {
    var s := p + t + q;
    forall k | 0 <= k < b - a
      ensures s[|p| + a..|p| + b][k] == t[a..b][k]
    {
      assert s[|p| + a + k] == t[a + k];
    }
  }

  lemma PaddedSpan(p: string, t: string, q: string, a: nat, b: nat)
    requires AllSpace(p) && AllSpace(q)
    requires IsStripSpan(t, a, b)
    ensures IsStripSpan(p + t + q, |p| + a, |p| + b)
  {
    var s := p + t + q;
    var n := |p|;
    forall k | 0 <= k < n + a
      ensures IsSpace(s[k])
    {
      if k < n { assert s[k] == p[k]; } else { assert s[k] == t[k - n]; }
    }
    forall k | n + b <= k < |s|
      ensures IsSpace(s[k])
    {
      if k < n + |t| { assert s[k] == t[k - n]; } else { assert s[k] == q[k - n - |t|]; }
    }
    if a < b {
      assert s[n + a] == t[a] && s[n + b - 1] == t[b - 1];
    }
  }

  predicate StartsWith(s: string, prefix: string) {
    |prefix| <= |s| && s[..|prefix|] == prefix
  }

  /** `d` occurs in `s` starting at index `i`. */
  predicate OccursAt(s: string, d: string, i: nat) {
    i + |d| <= |s| && s[i..i + |d|] == d
  }

  /** The first index at or after `i` where `d` occurs in `s`, or `|s|`. */
  function FindFrom(s: string, d: string, i: nat): (k: nat)
    requires |d| > 0 && i <= |s|
    ensures i <= k <= |s|
    ensures forall j :: i <= j < k ==> !OccursAt(s, d, j)
    ensures k == |s| || OccursAt(s, d, k)
    decreases |s| - i
  {
    if i + |d| > |s| then |s|
    else if s[i..i + |d|] == d then i
    else FindFrom(s, d, i + 1)
  }

  /** `s.split(d)[0]`: the text of `s` before the first occurrence of `d`,
      or all of `s` when `d` does not occur. Python refuses an empty
      separator. */
  function BeforeFirst(s: string, d: string): (r: string)
    requires |d| > 0
    ensures |r| <= |s| && r == s[..|r|]
    ensures forall j :: 0 <= j < |r| ==> !OccursAt(s, d, j)
    ensures |r| == |s| || OccursAt(s, d, |r|)
  {
    s[..FindFrom(s, d, 0)]
  }

  /** The text kept by `BeforeFirst` never contains the delimiter. */
  lemma BeforeFirstExcludes(s: string, d: string, j: nat)
    requires |d| > 0
    ensures !OccursAt(BeforeFirst(s, d), d, j)
  {
    var r := BeforeFirst(s, d);
    if j + |d| <= |r| {
      assert r[j..j + |d|] == s[j..j + |d|];
      assert !OccursAt(s, d, j);
    }
  }

  /** A prefix of `s` starts with `p` only if `s` does. */
  lemma PrefixStartsWith(s: string, r: string, p: string)
    requires |r| <= |s| && r == s[..|r|]
    requires StartsWith(r, p)
    ensures StartsWith(s, p)
  {
    assert s[..|p|] == r[..|p|];
  }

  /** The index of the first `sep` in `s`, or `|s|`. */
  function IndexOf<T(==)>(s: seq<T>, sep: T): (k: nat)
    ensures k <= |s|
    ensures forall j :: 0 <= j < k ==> s[j] != sep
    ensures k == |s| || s[k] == sep
    decreases |s|
  {
    if |s| == 0 then 0
    else if s[0] == sep then 0
    else IndexOf(s[1..], sep) + 1
  }

  /** Only the first separator satisfies `IndexOf`'s contract. */
  lemma IndexOfUnique<T>(s: seq<T>, sep: T, m: nat)
    requires m <= |s|
    requires forall j :: 0 <= j < m ==> s[j] != sep
    requires m == |s| || s[m] == sep
    ensures IndexOf(s, sep) == m
  {
  }

  /** `sep.join(fields)`. */
  function Join(fields: seq<string>, sep: char): string {
    if |fields| == 0 then []
    else if |fields| == 1 then fields[0]
    else fields[0] + [sep] + Join(fields[1..], sep)
  }

  /** `s.split(sep)` for a one-character separator: the fields between the
      separators, always at least one. */
  function Split(s: string, sep: char): (r: seq<string>)
    ensures |r| >= 1
    ensures forall i :: 0 <= i < |r| ==> sep !in r[i]
    ensures Join(r, sep) == s
    decreases |s|
  {
    var k := IndexOf(s, sep);
    if k == |s| then
      assert sep !in s by {
        forall j | 0 <= j < |s| ensures s[j] != sep { }
      }
      [s]
    else
      var rest := Split(s[k + 1..], sep);
      assert s == s[..k] + [sep] + s[k + 1..];
      [s[..k]] + rest
  }

  /** The other half of the round trip: splitting a join gives the fields
      back when no field contains the separator. */
  lemma {:induction false} SplitJoin(fields: seq<string>, sep: char)
    requires |fields| >= 1
    requires forall i :: 0 <= i < |fields| ==> sep !in fields[i]
    ensures Split(Join(fields, sep), sep) == fields
    decreases |fields|
  {
    var s := Join(fields, sep);
    var f := fields[0];
    if |fields| == 1 {
      IndexOfUnique(s, sep, |s|);
    } else {
      var rest := Join(fields[1..], sep);
      assert s == f + [sep] + rest;
      IndexOfUnique(s, sep, |f|);
      assert s[..|f|] == f;
      assert s[|f| + 1..] == rest;
      SplitJoin(fields[1..], sep);
    }
  }

  /** Joining two non-empty lists of fields puts one separator between
      their joins. */
  lemma {:induction false} JoinAppend(x: seq<string>, y: seq<string>, sep: char)
    requires |x| >= 1 && |y| >= 1
    ensures Join(x + y, sep) == Join(x, sep) + [sep] + Join(y, sep)
    decreases |x|
  {
    var xy := x + y;
    assert xy[0] == x[0];
    if |x| == 1 {
      assert xy[1..] == y;
    } else {
      assert xy[1..] == x[1..] + y;
      JoinAppend(x[1..], y, sep);
    }
  }

  /** Every character of a field of `Split(s, sep)` is a character of `s`. */
  lemma {:induction false} SplitFieldChars(s: string, sep: char, i: nat, c: char)
    requires i < |Split(s, sep)|
    requires c in Split(s, sep)[i]
    ensures c in s
    decreases |s|
  {
    var k := IndexOf(s, sep);
    if k < |s| {
      if i == 0 {
        assert c in s[..k];
      } else {
        SplitFieldChars(s[k + 1..], sep, i - 1, c);
        assert c in s[k + 1..];
      }
    }
  }

  /** A field-free prefix is glued onto the first field. */
  lemma SplitPrepend(p: string, t: string, sep: char)
    requires sep !in p
    ensures Split(p + t, sep) == [p + Split(t, sep)[0]] + Split(t, sep)[1..]
  {
    var f := Split(t, sep);
    var g := [p + f[0]] + f[1..];
    JoinExtendFirst(f, p, sep);
    FieldsExtendFirst(f, p, sep);
    SplitJoin(g, sep);
  }

  /** A field-free suffix is glued onto the last field. */
  lemma SplitAppend(t: string, q: string, sep: char)
    requires sep !in q
    ensures var f := Split(t, sep);
            Split(t + q, sep) == f[..|f| - 1] + [f[|f| - 1] + q]
  {
    var f := Split(t, sep);
    var g := f[..|f| - 1] + [f[|f| - 1] + q];
    JoinExtendLast(f, q, sep);
    FieldsExtendLast(f, q, sep);
    SplitJoin(g, sep);
  }

  /** Gluing text onto the first field glues it onto the join. */
  lemma JoinExtendFirst(f: seq<string>, p: string, sep: char)
    requires |f| >= 1
    ensures Join([p + f[0]] + f[1..], sep) == p + Join(f, sep)
  {
    var g := [p + f[0]] + f[1..];
    assert g[1..] == f[1..];
  }

  /** Gluing text onto the last field glues it onto the join. */
  lemma {:induction false} JoinExtendLast(f: seq<string>, q: string, sep: char)
    requires |f| >= 1
    ensures Join(f[..|f| - 1] + [f[|f| - 1] + q], sep) == Join(f, sep) + q
    decreases |f|
  {
    var g := f[..|f| - 1] + [f[|f| - 1] + q];
    if |f| > 1 {
      var h := f[1..];
      JoinExtendLast(h, q, sep);
      assert g[0] == f[0];
      assert g[1..] == h[..|h| - 1] + [h[|h| - 1] + q];
    }
  }

  lemma FieldsExtendFirst(f: seq<string>, p: string, sep: char)
    requires |f| >= 1 && sep !in p
    requires forall i :: 0 <= i < |f| ==> sep !in f[i]
    ensures var g := [p + f[0]] + f[1..];
      forall i :: 0 <= i < |g| ==> sep !in g[i]
  {
    var g := [p + f[0]] + f[1..];
    forall i | 0 <= i < |g|
      ensures sep !in g[i]
    {
      if i > 0 { assert g[i] == f[i]; }
    }
  }

  lemma FieldsExtendLast(f: seq<string>, q: string, sep: char)
    requires |f| >= 1 && sep !in q
    requires forall i :: 0 <= i < |f| ==> sep !in f[i]
    ensures var g := f[..|f| - 1] + [f[|f| - 1] + q];
      forall i :: 0 <= i < |g| ==> sep !in g[i]
  {
    var g := f[..|f| - 1] + [f[|f| - 1] + q];
    forall i | 0 <= i < |g|
      ensures sep !in g[i]
    {
      if i < |f| - 1 { assert g[i] == f[i]; }
    }
  }

  /** ASCII part of `str.lower()`. */
  function LowerChar(c: char): char {
    if 'A' <= c <= 'Z' then (c as int + 32) as char else c
  }

  function AsciiLower(s: string): (r: string)
    ensures |r| == |s|
    ensures forall k :: 0 <= k < |s| ==> r[k] == LowerChar(s[k])
  {
    if |s| == 0 then [] else [LowerChar(s[0])] + AsciiLower(s[1..])
  }

  /** Lower-casing neither creates nor removes spaces. */
  lemma LowerKeepsSpaces(c: char)
    ensures IsSpace(LowerChar(c)) <==> IsSpace(c)
  {
  }

  /** Two texts of equal length with spaces at the same places have the
      same strip span. */
  lemma SameSpacesSameSpan(s: string, l: string, a: nat, b: nat)
    requires |s| == |l|
    requires forall k :: 0 <= k < |s| ==> (IsSpace(l[k]) <==> IsSpace(s[k]))
    requires IsStripSpan(s, a, b)
    ensures IsStripSpan(l, a, b)
  {
  }

  /** Lower-casing commutes with slicing. */
  lemma LowerSlice(s: string, a: nat, b: nat)
    requires a <= b <= |s|
    ensures AsciiLower(s)[a..b] == AsciiLower(s[a..b])
  {
    var l := AsciiLower(s);
    assert forall k :: 0 <= k < b - a ==> l[a..b][k] == AsciiLower(s[a..b])[k];
  }

  /** Lower-casing neither creates nor removes spaces, so it commutes with
      stripping: `s.lower().strip() == s.strip().lower()`. */
  lemma StripLowerCommute(s: string)
    ensures Strip(AsciiLower(s)) == AsciiLower(Strip(s))
  {
    var l := AsciiLower(s);
    var (a, b) := StripBounds(s);
    forall k | 0 <= k < |s|
      ensures IsSpace(l[k]) <==> IsSpace(s[k])
    {
      LowerKeepsSpaces(s[k]);
    }
    SameSpacesSameSpan(s, l, a, b);
    StripUnique(l, a, b);
    LowerSlice(s, a, b);
  }
}
