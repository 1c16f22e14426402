/**
  Turning the text typed at the prompt (or the command-line arguments joined
  by spaces) into the list of NuGet package ids to fetch.

  Two copies exist: `show_whale_prompt` in utilities.py checks for `exit`
  and returns `None` for a list without packages; `yee` in Whale.py strips
  the text, splits it the same way and cancels on an empty list.
*/
module PackageList {
  import opened Wrappers
  import opened Text

  const EXIT_WORD: string := "exit"

  /** `package_list_str.lower().strip() == 'exit'`: the word `exit` in
      any letter case, with nothing but whitespace around it. */
  predicate IsExitCommand(input: string)
    ensures IsExitCommand(input) <==>
      exists p, q :: AllSpace(p) && AllSpace(q) && AsciiLower(input) == p + EXIT_WORD + q
  {
    ExitWordStripped();
    StripEquals(AsciiLower(input), EXIT_WORD);
    Strip(AsciiLower(input)) == EXIT_WORD
  }

  lemma ExitWordStripped()
    ensures Strip(EXIT_WORD) == EXIT_WORD
  {
    assert IsStripSpan(EXIT_WORD, 0, |EXIT_WORD|);
    StripUnique(EXIT_WORD, 0, |EXIT_WORD|);
  }

  /** What a returned package id looks like: stripped, non-empty, and free
      of the list separator. */
  predicate IsPackageId(p: string) {
    p != [] && Strip(p) == p && ',' !in p
  }

  /** `[f.strip() for f in fields if f.strip()]`. */
  function CleanFields(fields: seq<string>): (r: seq<string>)
    ensures |r| <= |fields|
    ensures forall x :: x in r ==> x != [] && Strip(x) == x
    ensures forall x :: x in r ==> exists f :: f in fields && Strip(f) == x
  {
    if |fields| == 0 then []
    else
      var t := Strip(fields[0]);
      StripIdempotent(fields[0]);
      (if t == [] then [] else [t]) + CleanFields(fields[1..])
  }

  /** The package ids of a comma-separated list:
      `[p.strip() for p in s.split(',') if p.strip()]`. */
  function Packages(s: string): (r: seq<string>)
    ensures forall p :: p in r ==> IsPackageId(p)
  {
    var fields := Split(s, ',');
    var r := CleanFields(fields);
    assert forall p :: p in r ==> ',' !in p by {
      forall p | p in r
        ensures ',' !in p
      {
        var f :| f in fields && Strip(f) == p;
        if ',' in p {
          StripChars(f, ',');
        }
      }
    }
    r
  }

  /** `show_whale_prompt` after reading the text: `None` (cancel) for `exit`
      in any letter case or for a list that names no package, otherwise the
      clean ids. */
  function ParsePackageList(input: string): (r: Option<seq<string>>)
    ensures IsExitCommand(input) ==> r == None
    ensures r.Some? ==> |r.value| > 0 && forall p :: p in r.value ==> IsPackageId(p)
    ensures r.Some? ==> r.value == Packages(input)
    ensures r == None ==> IsExitCommand(input) || Packages(input) == []
  {
    if IsExitCommand(input) then None
    else
      var packages := Packages(input);
      if packages == [] then None else Some(packages)
  }

  /** `yee` reading the prompt: `show_whale_prompt` returns the stripped
      text, which is split as above; an empty list cancels. There is no
      `exit` command in this copy. */
  function WhalePackages(raw: string): (r: Option<seq<string>>)
    ensures r.Some? ==> |r.value| > 0 && forall p :: p in r.value ==> IsPackageId(p)
  {
    var packages := Packages(Strip(raw));
    if packages == [] then None else Some(packages)
  }

  // ---------------------------------------------------------------------
  // Properties of CleanFields
  // ---------------------------------------------------------------------

  /** Cleaning a concatenation cleans the parts in order: no id moves. */
  lemma {:induction false} CleanFieldsAppend(a: seq<string>, b: seq<string>)
    ensures CleanFields(a + b) == CleanFields(a) + CleanFields(b)
    decreases |a|
  {
    if |a| > 0 {
      var t := Strip(a[0]);
      var head: seq<string> := if t == [] then [] else [t];
      assert (a + b)[0] == a[0];
      assert (a + b)[1..] == a[1..] + b;
      CleanFieldsAppend(a[1..], b);
      calc {
        CleanFields(a + b);
        head + CleanFields(a[1..] + b);
        head + (CleanFields(a[1..]) + CleanFields(b));
        (head + CleanFields(a[1..])) + CleanFields(b);
        CleanFields(a) + CleanFields(b);
      }
    } else {
      assert a + b == b;
    }
  }

  /** Only the stripped text of each field matters. */
  lemma {:induction false} CleanFieldsPointwise(a: seq<string>, b: seq<string>)
    requires |a| == |b|
    requires forall i :: 0 <= i < |a| ==> Strip(a[i]) == Strip(b[i])
    ensures CleanFields(a) == CleanFields(b)
    decreases |a|
  {
    if |a| > 0 {
      CleanFieldsPointwise(a[1..], b[1..]);
    }
  }

  /** Fields that are all spaces contribute nothing. */
  lemma {:induction false} CleanFieldsBlank(fields: seq<string>)
    requires forall i :: 0 <= i < |fields| ==> AllSpace(fields[i])
    ensures CleanFields(fields) == []
    decreases |fields|
  {
    if |fields| > 0 {
      CleanFieldsBlank(fields[1..]);
    }
  }

  /** A field with a non-space character contributes an id. */
  lemma {:induction false} CleanFieldsNonBlank(fields: seq<string>, i: nat)
    requires i < |fields| && !AllSpace(fields[i])
    ensures CleanFields(fields) != []
    decreases i
  {
    if i > 0 && Strip(fields[0]) == [] {
      CleanFieldsNonBlank(fields[1..], i - 1);
    }
  }

  /** Already clean ids come through unchanged. */
  lemma {:induction false} CleanFieldsOfIds(ids: seq<string>)
    requires forall i :: 0 <= i < |ids| ==> ids[i] != [] && Strip(ids[i]) == ids[i]
    ensures CleanFields(ids) == ids
    decreases |ids|
  {
    if |ids| > 0 {
      CleanFieldsOfIds(ids[1..]);
    }
  }

  // ---------------------------------------------------------------------
  // Properties of the parsed list
  // ---------------------------------------------------------------------

  /** Splitting text glued with a comma splits the two parts. */
  lemma SplitConcat(a: string, b: string)
    ensures Split(a + [','] + b, ',') == Split(a, ',') + Split(b, ',')
  {
    var fa, fb := Split(a, ','), Split(b, ',');
    JoinAppend(fa, fb, ',');
    FieldsAppend(fa, fb, ',');
    SplitJoin(fa + fb, ',');
  }

  lemma FieldsAppend(x: seq<string>, y: seq<string>, sep: char)
    requires forall i :: 0 <= i < |x| ==> sep !in x[i]
    requires forall i :: 0 <= i < |y| ==> sep !in y[i]
    ensures forall i :: 0 <= i < |x + y| ==> sep !in (x + y)[i]
  {
    forall i | 0 <= i < |x + y|
      ensures sep !in (x + y)[i]
    {
      if i < |x| { assert (x + y)[i] == x[i]; } else { assert (x + y)[i] == y[i - |x|]; }
    }
  }

  /** Ids keep their left-to-right order: the ids of `a,b` are the ids of
      `a` followed by the ids of `b`. */
  lemma PackagesConcat(a: string, b: string)
    ensures Packages(a + [','] + b) == Packages(a) + Packages(b)
  {
    SplitConcat(a, b);
    CleanFieldsAppend(Split(a, ','), Split(b, ','));
  }

  /** The text between two commas, once stripped, is the id listed. */
  lemma PackagesOfOneField(s: string)
    requires ',' !in s
    ensures Packages(s) == if Strip(s) == [] then [] else [Strip(s)]
  {
    SplitJoin([s], ',');
  }

  /** A text names no package exactly when it consists of commas and
      spaces only. */
  lemma PackagesEmptyIff(s: string)
    ensures Packages(s) == [] <==> forall k :: 0 <= k < |s| ==> s[k] == ',' || IsSpace(s[k])
  {
    var fields := Split(s, ',');
    if forall k :: 0 <= k < |s| ==> s[k] == ',' || IsSpace(s[k]) {
      forall i | 0 <= i < |fields|
        ensures AllSpace(fields[i])
      {
        forall j | 0 <= j < |fields[i]|
          ensures IsSpace(fields[i][j])
        {
          SplitFieldChars(s, ',', i, fields[i][j]);
        }
      }
      CleanFieldsBlank(fields);
    } else {
      var k :| 0 <= k < |s| && s[k] != ',' && !IsSpace(s[k]);
      var i := SplitCovers(s, ',', k);
      CleanFieldsNonBlank(fields, i);
    }
  }

  /** Every non-separator character of `s` lies in some field. */
  lemma {:induction false} SplitCovers(s: string, sep: char, k: nat) returns (i: nat)
    requires k < |s| && s[k] != sep
    ensures i < |Split(s, sep)|
    ensures s[k] in Split(s, sep)[i]
    decreases |s|
  {
    var m := IndexOf(s, sep);
    if k < m {
      i := 0;
      assert s[..m][k] == s[k];
    } else {
      var j := SplitCovers(s[m + 1..], sep, k - m - 1);
      i := j + 1;
    }
  }

  /** Input made of commas and spaces only cancels in both copies. */
  lemma OnlySeparatorsCancel(input: string)
    requires forall k :: 0 <= k < |input| ==> input[k] == ',' || IsSpace(input[k])
    ensures ParsePackageList(input) == None
    ensures WhalePackages(input) == None
  {
    PackagesEmptyIff(input);
    StripBeforeSplit(input);
  }

  /** `", ".join(ids)`: the list format the prompt asks for. */
  function ListText(ids: seq<string>): string
    requires |ids| >= 1
  {
    if |ids| == 1 then ids[0] else ids[0] + [','] + [' '] + ListText(ids[1..])
  }

  /** Round trip: writing clean ids as `A, B, C` and reading the text back
      gives the same ids, unless the text is the single word `exit`. */
  lemma {:induction false} ListTextRoundTrip(ids: seq<string>)
    requires |ids| >= 1
    requires forall i :: 0 <= i < |ids| ==> IsPackageId(ids[i])
    requires |ids| > 1 || !IsExitCommand(ids[0])
    ensures ParsePackageList(ListText(ids)) == Some(ids)
  {
    ListTextPackages(ids);
    if |ids| > 1 {
      var s := ListText(ids);
      assert ',' in s by {
        assert s == ids[0] + [','] + [' '] + ListText(ids[1..]);
        assert s[|ids[0]|] == ',';
      }
      ExitCommandHasNoComma(s);
    }
  }

  lemma {:induction false} ListTextPackages(ids: seq<string>)
    requires |ids| >= 1
    requires forall i :: 0 <= i < |ids| ==> IsPackageId(ids[i])
    ensures Packages(ListText(ids)) == ids
    decreases |ids|
  {
    if |ids| == 1 {
      PackagesOfOneField(ids[0]);
    } else {
      var tail := ids[1..];
      assert ListText(ids) == ids[0] + [','] + [' '] + ListText(tail);
      assert Packages(ListText(tail)) == tail by {
        ListTextPackages(tail);
      }
      ListTextStep(ids[0], ListText(tail), tail);
      assert ids == [ids[0]] + tail;
    }
  }

  /** One step of `ListText`: `first, rest` lists `first` and then the ids
      of `rest`. */
  lemma ListTextStep(first: string, rest: string, tail: seq<string>)
    requires IsPackageId(first)
    requires Packages(rest) == tail
    ensures Packages(first + [','] + [' '] + rest) == [first] + tail
  {
    PackagesOfOneField(first);
    PackagesIgnoreLeadingSpaces([' '], rest);
    assert first + [','] + [' '] + rest == first + [','] + ([' '] + rest);
    PackagesConcat(first, [' '] + rest);
  }

  /** Spaces before the first id are ignored. */
  lemma PackagesIgnoreLeadingSpaces(p: string, t: string)
    requires AllSpace(p)
    ensures Packages(p + t) == Packages(t)
  {
    SpacesHaveNoComma(p);
    var f := Split(t, ',');
    SplitPrepend(p, t, ',');
    FirstFieldPadded(f, p);
    CleanFieldsPointwise(Split(p + t, ','), f);
  }

  /** Spaces after the last id are ignored. */
  lemma PackagesIgnoreTrailingSpaces(t: string, q: string)
    requires AllSpace(q)
    ensures Packages(t + q) == Packages(t)
  {
    SpacesHaveNoComma(q);
    var f := Split(t, ',');
    SplitAppend(t, q, ',');
    LastFieldPadded(f, q);
    CleanFieldsPointwise(Split(t + q, ','), f);
  }

  lemma SpacesHaveNoComma(s: string)
    requires AllSpace(s)
    ensures ',' !in s
  {
    forall k | 0 <= k < |s| ensures s[k] != ',' { assert IsSpace(s[k]); }
  }

  /** Padding the first field with spaces strips to the same fields. */
  lemma FirstFieldPadded(f: seq<string>, p: string)
    requires |f| >= 1 && AllSpace(p)
    ensures var g := [p + f[0]] + f[1..];
      |g| == |f| && forall i :: 0 <= i < |g| ==> Strip(g[i]) == Strip(f[i])
  {
    var g := [p + f[0]] + f[1..];
    StripPadded(p, f[0], []);
    assert p + f[0] + [] == g[0];
    forall i | 0 < i < |g|
      ensures g[i] == f[i]
    {
    }
  }

  /** Padding the last field with spaces strips to the same fields. */
  lemma LastFieldPadded(f: seq<string>, q: string)
    requires |f| >= 1 && AllSpace(q)
    ensures var g := f[..|f| - 1] + [f[|f| - 1] + q];
      |g| == |f| && forall i :: 0 <= i < |g| ==> Strip(g[i]) == Strip(f[i])
  {
    var n := |f|;
    var g := f[..n - 1] + [f[n - 1] + q];
    StripPadded([], f[n - 1], q);
    assert [] + f[n - 1] + q == g[n - 1];
    forall i | 0 <= i < n - 1
      ensures g[i] == f[i]
    {
    }
  }

  /** `exit` (after lower-casing and stripping) contains no comma. */
  lemma ExitCommandHasNoComma(s: string)
    ensures IsExitCommand(s) ==> ',' !in s
  {
    if IsExitCommand(s) {
      var p, q :| AllSpace(p) && AllSpace(q) && AsciiLower(s) == p + EXIT_WORD + q;
      PaddedExitHasNoComma(p, q);
      LowerKeepsComma(s);
    }
  }

  lemma PaddedExitHasNoComma(p: string, q: string)
    requires AllSpace(p) && AllSpace(q)
    ensures ',' !in p + EXIT_WORD + q
  {
    SpacesHaveNoComma(p);
    SpacesHaveNoComma(q);
  }

  /** Lower-casing keeps every comma. */
  lemma LowerKeepsComma(s: string)
    ensures ',' in s ==> ',' in AsciiLower(s)
  {
    if ',' in s {
      var k :| 0 <= k < |s| && s[k] == ',';
      assert AsciiLower(s)[k] == LowerChar(s[k]);
    }
  }

  // ---------------------------------------------------------------------
  // The command line
  // ---------------------------------------------------------------------

  /** `" ".join(sys.argv[1:])`: the text taken from the command line.
      Splitting it at spaces gives back the arguments, as long as none of
      them holds a space itself. */
  function CommandLineText(args: seq<string>): (r: string)
    ensures |args| > 0 && (forall i :: 0 <= i < |args| ==> ' ' !in args[i]) ==> Split(r, ' ') == args
  {
    var r := Join(args, ' ');
    assert |args| > 0 && (forall i :: 0 <= i < |args| ==> ' ' !in args[i]) ==> Split(r, ' ') == args by {
      if |args| > 0 && (forall i :: 0 <= i < |args| ==> ' ' !in args[i]) {
        SplitJoin(args, ' ');
      }
    }
    r
  }

  /** A character missing from every field and different from the
      separator is missing from the join. */
  lemma {:induction false} JoinExcludes(fields: seq<string>, sep: char, c: char)
    requires c != sep
    requires forall i :: 0 <= i < |fields| ==> c !in fields[i]
    ensures c !in Join(fields, sep)
    decreases |fields|
  {
    if |fields| > 1 {
      JoinExcludes(fields[1..], sep, c);
    }
  }

  /** Arguments without commas are joined by spaces into a single id:
      `whale A B` asks for the one package `A B`. */
  lemma ArgumentsWithoutCommasMerge(args: seq<string>)
    requires forall i :: 0 <= i < |args| ==> ',' !in args[i]
    ensures var s := CommandLineText(args);
      Packages(s) == if Strip(s) == [] then [] else [Strip(s)]
  {
    JoinExcludes(args, ' ', ',');
    PackagesOfOneField(CommandLineText(args));
  }

  /** The words the shell passes for `whale A, B, C`: every id but the last
      carries its comma. */
  function CommaArgs(ids: seq<string>): (r: seq<string>)
    requires |ids| >= 1
    ensures |r| == |ids|
  {
    if |ids| == 1 then [ids[0]] else [ids[0] + [',']] + CommaArgs(ids[1..])
  }

  /** Joining those words with spaces gives back the `A, B, C` text. */
  lemma {:induction false} CommaArgsText(ids: seq<string>)
    requires |ids| >= 1
    ensures CommandLineText(CommaArgs(ids)) == ListText(ids)
    decreases |ids|
  {
    if |ids| > 1 {
      CommaArgsText(ids[1..]);
      var args := CommaArgs(ids);
      assert args[1..] == CommaArgs(ids[1..]);
      assert Join(args, ' ') == args[0] + [' '] + Join(args[1..], ' ');
    }
  }

  /** Clean ids passed on the command line as `A, B, C` come back as the
      requested list. */
  lemma CommandLineRoundTrip(ids: seq<string>)
    requires |ids| >= 1
    requires forall i :: 0 <= i < |ids| ==> IsPackageId(ids[i])
    requires |ids| > 1 || !IsExitCommand(ids[0])
    ensures ParsePackageList(CommandLineText(CommaArgs(ids))) == Some(ids)
  {
    CommaArgsText(ids);
    ListTextRoundTrip(ids);
  }

  // ---------------------------------------------------------------------
  // The two copies compared
  // ---------------------------------------------------------------------

  /** Stripping the whole text before splitting (Whale.py) changes nothing:
      the first and last fields are stripped anyway. */
  lemma StripBeforeSplit(s: string)
    ensures Packages(Strip(s)) == Packages(s)
  {
    var ab := StripBounds(s);
    var a, b := ab.0, ab.1;
    var p, m, q := s[..a], s[a..b], s[b..];
    StripSpanPieces(s, a, b);
    assert Packages(s) == Packages(m + q) by {
      PackagesIgnoreLeadingSpaces(p, m + q);
    }
    assert Packages(m + q) == Packages(m) by {
      PackagesIgnoreTrailingSpaces(m, q);
    }
    assert Strip(s) == m by {
      StripUnique(s, a, b);
    }
  }

  /** Apart from `exit`, both copies accept and cancel the same inputs and
      return the same ids. */
  lemma WhaleAgreesWithUtilities(raw: string)
    requires !IsExitCommand(raw)
    ensures WhalePackages(raw) == ParsePackageList(raw)
  {
    StripBeforeSplit(raw);
  }

  /** The Whale.py copy has no `exit` command: `exit` becomes a package id. */
  lemma WhaleTakesExitAsPackage(raw: string)
    requires IsExitCommand(raw)
    ensures WhalePackages(raw) == Some([Strip(raw)])
  {
    var t := Strip(raw);
    StripLowerCommute(raw);
    assert |AsciiLower(t)| == 4;
    ExitCommandHasNoComma(raw);
    if ',' in t {
      StripChars(raw, ',');
    }
    PackagesOfOneField(t);
    StripIdempotent(raw);
  }
}
