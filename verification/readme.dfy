/**
  `create_readme_file`: the lines written to `readme_puup_file.txt` for a
  map from package name to the dependency lines read from its manifest.

  The file has a per-package section (every package's name, then its
  dependency lines, a "no dependencies" line, or the error sentinel) and a
  summary: the dependency ids referenced anywhere, each once, sorted.
  Each element of the result is the text of one `f.write` call, or one line
  of a multi-line call, without its trailing newline.
*/
module Readme {
  import opened Wrappers
  import opened Text
  import opened Decimal
  import opened StringOrder

  /** One entry of `package_dependencies`, in the dict's insertion order. */
  datatype Package = Package(name: string, deps: seq<string>)

  const DASHES: string := "---"
  const TITLE: string := DASHES + " Downloaded NuGet Packages and Dependencies " + DASHES
  const SUBHEADING: string := "## "
  const REQUESTED_PREFIX: string := SUBHEADING + "\U{1F4E6} Requested Packages and Their Dependencies ("
  const UNIQUE_PREFIX: string := SUBHEADING + "\U{2699}\U{FE0F} All Unique Dependencies Referenced ("
  const ITEMS_SUFFIX: string := " items):"
  const HEADING_OPEN: string := "* **"
  const HEADING_CLOSE: string := "**"
  const ENTRY_PREFIX: string := "  - "
  /** What is written under a package whose list is empty. */
  const NO_DEPS_TEXT: string := "No direct dependencies listed in metadata."
  const NO_DEPS_LINE: string := ENTRY_PREFIX + NO_DEPS_TEXT
  const BULLET: string := "* "
  /** `"=" * 50`. */
  const RULE: string := Repeat('=', 50)

  /** `c * n` on a one-character string. */
  function Repeat(c: char, n: nat): (r: string)
    ensures |r| == n
    ensures forall k :: 0 <= k < n ==> r[k] == c
  {
    if n == 0 then [] else [c] + Repeat(c, n - 1)
  }

  /** A manifest that could not be read is reported by a first entry
      starting with this word. */
  const ERROR_MARK: string := "Error"
  /** Group header lines of a grouped dependency list. */
  const GROUP_MARK: string := "--- Group:"
  /** What separates a dependency id from its version text. */
  const VERSION_MARK: string := " (Version:"

  /** The first branch of the loop: a non-empty list whose first entry is
      not the error sentinel. */
  predicate ListsDependencies(p: Package) {
    |p.deps| > 0 && !StartsWith(p.deps[0], ERROR_MARK)
  }

  predicate IsGroupLine(dep: string) {
    StartsWith(dep, GROUP_MARK)
  }

  /** `dep.split(' (Version:')[0]`: the text before the first
      ` (Version:`, or the whole line when the mark does not occur. */
  function DependencyId(dep: string): (id: string)
    ensures |id| <= |dep| && id == dep[..|id|]
    ensures forall j :: !OccursAt(id, VERSION_MARK, j)
    ensures id == dep || OccursAt(dep, VERSION_MARK, |id|)
  {
    var id := BeforeFirst(dep, VERSION_MARK);
    assert forall j :: !OccursAt(id, VERSION_MARK, j) by {
      forall j: nat
        ensures !OccursAt(id, VERSION_MARK, j)
      {
        BeforeFirstExcludes(dep, VERSION_MARK, j);
      }
    }
    id
  }

  function CountLine(prefix: string, n: nat): string {
    prefix + NatToDecimal(n) + ITEMS_SUFFIX
  }

  function HeadingLine(name: string): string {
    HEADING_OPEN + name + HEADING_CLOSE
  }

  function EntryLines(deps: seq<string>): (r: seq<string>)
    ensures |r| == |deps|
    ensures forall i :: 0 <= i < |deps| ==> r[i] == ENTRY_PREFIX + deps[i]
  {
    if |deps| == 0 then [] else [ENTRY_PREFIX + deps[0]] + EntryLines(deps[1..])
  }

  /** The lines written for one package: its name, then every dependency
      line (group headers included) when it lists dependencies, exactly one
      "No direct dependencies" line for an empty list, and only the first
      entry when that entry is an error sentinel. */
  function PackageBlock(p: Package): (lines: seq<string>)
    ensures |lines| >= 2 && lines[0] == HeadingLine(p.name)
    ensures p.deps == [] ==> lines == [HeadingLine(p.name), NO_DEPS_LINE]
    ensures p.deps != [] && !ListsDependencies(p) ==> lines == [HeadingLine(p.name), ENTRY_PREFIX + p.deps[0]]
    ensures ListsDependencies(p) ==> lines == [HeadingLine(p.name)] + EntryLines(p.deps)
  {
    [HeadingLine(p.name)] +
      if ListsDependencies(p) then EntryLines(p.deps)
      else if p.deps == [] then [NO_DEPS_LINE]
      else [ENTRY_PREFIX + p.deps[0]]
  }

  /** The lines written for all packages, in the dict's order. Reading them
      back gives, for each package in turn, its name and what is listed
      under it. */
  function PackageSection(pkgs: seq<Package>): (r: seq<string>)
    ensures |pkgs| > 0 ==> |r| > 0 && IsHeadingLine(r[0])
    ensures ReadBlocks(r) == Some(Listings(pkgs))
  {
    if |pkgs| == 0 then []
    else
      var rest := PackageSection(pkgs[1..]);
      BlockRead(pkgs[0], rest);
      PackageBlock(pkgs[0]) + rest
  }

  /** The ids of one list, in order: `dep.split(' (Version:')[0]` for each
      line that is not a group header. */
  function DepIds(deps: seq<string>): seq<string> {
    if |deps| == 0 then []
    else (if IsGroupLine(deps[0]) then [] else [DependencyId(deps[0])]) + DepIds(deps[1..])
  }

  /** Every value `all_dependencies.add` receives, in the order of the
      loops: exactly the members of the reference set. */
  function CollectIds(pkgs: seq<Package>): (r: seq<string>)
    ensures forall x :: x in r <==> x in ReferencedIds(pkgs)
  {
    if |pkgs| == 0 then []
    else
      var rest := CollectIds(pkgs[1..]);
      CollectStep(pkgs, rest);
      (if ListsDependencies(pkgs[0]) then DepIds(pkgs[0].deps) else []) + rest
  }

  /** Reference definition of `all_dependencies`: the id of every
      non-group line of every package that lists its dependencies. */
  ghost function ReferencedIds(pkgs: seq<Package>): set<string> {
    set p, d | p in pkgs && ListsDependencies(p) && d in p.deps && !IsGroupLine(d) :: DependencyId(d)
  }

  /** `sorted(list(all_dependencies))`. */
  function UniqueIds(pkgs: seq<Package>): (ids: seq<string>)
    ensures StrictlySorted(ids)
    ensures forall x :: x in ids <==> x in ReferencedIds(pkgs)
    ensures |ids| == |ReferencedIds(pkgs)|
  {
    var ids := SortedDistinct(CollectIds(pkgs));
    SortedCardinality(ids);
    assert (set x | x in ids) == ReferencedIds(pkgs);
    ids
  }

  function Bullets(ids: seq<string>): (r: seq<string>)
    ensures |r| == |ids|
  {
    if |ids| == 0 then [] else [BULLET + ids[0]] + Bullets(ids[1..])
  }

  /** The lines up to the rule: the title, the package count, one block
      per package, and a blank line. */
  function IntroLines(pkgs: seq<Package>): (r: seq<string>)
    ensures |r| == |PackageSection(pkgs)| + 4
    ensures r[..3] == [TITLE, "", CountLine(REQUESTED_PREFIX, |pkgs|)]
    ensures r[3..] == PackageSection(pkgs) + [""]
  {
    [TITLE, "", CountLine(REQUESTED_PREFIX, |pkgs|)] + PackageSection(pkgs) + [""]
  }

  /** The lines after the rule: a blank line, the id count, one bullet per
      id. */
  function SummaryLines(pkgs: seq<Package>): seq<string> {
    var ids := UniqueIds(pkgs);
    ["", CountLine(UNIQUE_PREFIX, |ids|)] + Bullets(ids)
  }

  /** Everything `create_readme_file` writes, line by line. The summary
      count is `len(all_dependencies)`, which `UniqueIds` shows equal to
      the number of ids listed. */
  function ReadmeLines(pkgs: seq<Package>): (lines: seq<string>)
    ensures |lines| == 7 + |PackageSection(pkgs)| + |ReferencedIds(pkgs)|
    ensures lines[..3] == [TITLE, "", CountLine(REQUESTED_PREFIX, |pkgs|)]
  {
    IntroLines(pkgs) + [RULE] + SummaryLines(pkgs)
  }

  // ---------------------------------------------------------------------
  // The collected ids against the reference definition
  // ---------------------------------------------------------------------

  lemma {:induction false} DepIdsMatch(deps: seq<string>, x: string)
    ensures x in DepIds(deps) <==> exists d :: d in deps && !IsGroupLine(d) && DependencyId(d) == x
    decreases |deps|
  {
    if |deps| > 0 {
      DepIdsMatch(deps[1..], x);
      assert deps == [deps[0]] + deps[1..];
    }
  }

  /** One step of `CollectIds`: the first package's ids followed by the
      ids of the others hold exactly the reference set. */
  lemma CollectStep(pkgs: seq<Package>, rest: seq<string>)
    requires |pkgs| > 0
    requires forall x :: x in rest <==> x in ReferencedIds(pkgs[1..])
    ensures forall x ::
      x in (if ListsDependencies(pkgs[0]) then DepIds(pkgs[0].deps) else []) + rest
      <==> x in ReferencedIds(pkgs)
  {
    var p := pkgs[0];
    var head := if ListsDependencies(p) then DepIds(p.deps) else [];
    forall x
      ensures x in head + rest <==> x in ReferencedIds(pkgs)
    {
      DepIdsMatch(p.deps, x);
      assert pkgs == [p] + pkgs[1..];
      if x in ReferencedIds(pkgs) {
        var q, d :| q in pkgs && ListsDependencies(q) && d in q.deps && !IsGroupLine(d) && DependencyId(d) == x;
        if q != p {
          assert q in pkgs[1..];
          assert x in ReferencedIds(pkgs[1..]);
        }
      }
      if x in ReferencedIds(pkgs[1..]) {
        var q, d :| q in pkgs[1..] && ListsDependencies(q) && d in q.deps && !IsGroupLine(d) && DependencyId(d) == x;
        assert q in pkgs;
      }
    }
  }

  // ---------------------------------------------------------------------
  // Properties of the summary
  // ---------------------------------------------------------------------

  /** A dependency id never is a group header: `--- Group:` lines are
      printed but not added, and cutting a line at ` (Version:` cannot
      produce one. */
  lemma GroupLinesNeverIds(pkgs: seq<Package>, x: string)
    requires x in ReferencedIds(pkgs)
    ensures !IsGroupLine(x)
  {
    var p, d :| p in pkgs && ListsDependencies(p) && d in p.deps && !IsGroupLine(d) && DependencyId(d) == x;
    GroupMarkSurvivesCut(d);
  }

  /** If the text before ` (Version:` starts with `--- Group:`, the whole
      line does. */
  lemma GroupMarkSurvivesCut(d: string)
    ensures IsGroupLine(DependencyId(d)) ==> IsGroupLine(d)
  {
    if IsGroupLine(DependencyId(d)) {
      PrefixStartsWith(d, DependencyId(d), GROUP_MARK);
    }
  }

  /** Every id is version-free: ` (Version:` never occurs in it, and a line
      without ` (Version:` is kept whole. */
  lemma IdsAreVersionFree(pkgs: seq<Package>, x: string, j: nat)
    requires x in ReferencedIds(pkgs)
    ensures !OccursAt(x, VERSION_MARK, j)
  {
    var p, d :| p in pkgs && ListsDependencies(p) && d in p.deps && !IsGroupLine(d) && DependencyId(d) == x;
    BeforeFirstExcludes(d, VERSION_MARK, j);
  }

  /** A line without ` (Version:` is its own id. */
  lemma UnversionedLineIsId(d: string)
    requires forall j :: 0 <= j < |d| ==> !OccursAt(d, VERSION_MARK, j)
    ensures DependencyId(d) == d
  {
  }

  /** A package with an empty list or an error sentinel adds nothing to the
      summary: removing it leaves the unique ids unchanged. */
  lemma SilentPackageAddsNothing(a: seq<Package>, p: Package, b: seq<Package>)
    requires !ListsDependencies(p)
    ensures ReferencedIds(a + [p] + b) == ReferencedIds(a + b)
    ensures UniqueIds(a + [p] + b) == UniqueIds(a + b)
  {
    var s1, s2 := a + [p] + b, a + b;
    forall q | q in s1 && ListsDependencies(q)
      ensures q in s2
    {
      assert q != p;
    }
    forall q | q in s2
      ensures q in s1
    {
    }
    assert ReferencedIds(s1) == ReferencedIds(s2);
    SortedUnique(UniqueIds(s1), UniqueIds(s2));
  }

  /** The summary does not depend on the order of the packages. */
  lemma SummaryIgnoresOrder(a: seq<Package>, b: seq<Package>)
    requires forall p :: p in a <==> p in b
    ensures UniqueIds(a) == UniqueIds(b)
  {
    assert ReferencedIds(a) == ReferencedIds(b);
    SortedUnique(UniqueIds(a), UniqueIds(b));
  }

  /** A dependency shared by several packages is listed once. */
  lemma SummaryListsOnce(pkgs: seq<Package>, i: nat, j: nat)
    requires i < j < |UniqueIds(pkgs)|
    ensures UniqueIds(pkgs)[i] != UniqueIds(pkgs)[j]
  {
    LessIrreflexive(UniqueIds(pkgs)[i]);
  }

  // ---------------------------------------------------------------------
  // Reading the file back
  // ---------------------------------------------------------------------

  /** The number announced by a `<prefix><n> items):` line. */
  function ReadCount(line: string, prefix: string): Option<nat> {
    if |line| >= |prefix| + |ITEMS_SUFFIX| && line[..|prefix|] == prefix
       && line[|line| - |ITEMS_SUFFIX|..] == ITEMS_SUFFIX
    then
      var digits := line[|prefix|..|line| - |ITEMS_SUFFIX|];
      if IsCanonical(digits) then Some(Value(digits)) else None
    else None
  }

  lemma CountLineRoundTrip(prefix: string, n: nat)
    ensures ReadCount(CountLine(prefix, n), prefix) == Some(n)
  {
    var line := CountLine(prefix, n);
    var digits := NatToDecimal(n);
    assert line[..|prefix|] == prefix;
    assert line[|line| - |ITEMS_SUFFIX|..] == ITEMS_SUFFIX;
    assert line[|prefix|..|line| - |ITEMS_SUFFIX|] == digits;
    DecimalRoundTrip(n);
  }

  /** A `* **name**` line. */
  predicate IsHeadingLine(l: string) {
    |l| >= |HEADING_OPEN| + |HEADING_CLOSE| && l[..|HEADING_OPEN|] == HEADING_OPEN
  }

  /** The name of a heading line. */
  function HeadingName(l: string): string
    requires IsHeadingLine(l)
  {
    l[|HEADING_OPEN|..|l| - |HEADING_CLOSE|]
  }

  /** The names of the `* **name**` heading lines, in order. */
  function Headings(lines: seq<string>): seq<string> {
    if |lines| == 0 then []
    else (if IsHeadingLine(lines[0]) then [HeadingName(lines[0])] else []) + Headings(lines[1..])
  }

  lemma {:induction false} HeadingsAppend(a: seq<string>, b: seq<string>)
    ensures Headings(a + b) == Headings(a) + Headings(b)
    decreases |a|
  {
    if |a| > 0 {
      assert (a + b)[0] == a[0];
      assert (a + b)[1..] == a[1..] + b;
      HeadingsAppend(a[1..], b);
    } else {
      assert a + b == b;
    }
  }

  /** Dependency lines are indented, so they are never read as headings. */
  lemma {:induction false} EntryLinesNoHeadings(deps: seq<string>)
    ensures Headings(EntryLines(deps)) == []
    decreases |deps|
  {
    if |deps| > 0 {
      var e := EntryLines(deps);
      assert e[0][0] == ' ';
      assert e[1..] == EntryLines(deps[1..]);
      EntryLinesNoHeadings(deps[1..]);
    }
  }

  lemma BlockHeadings(p: Package)
    ensures Headings(PackageBlock(p)) == [p.name]
  {
    var h := HeadingLine(p.name);
    var rest := PackageBlock(p)[1..];
    assert PackageBlock(p) == [h] + rest;
    HeadingsAppend([h], rest);
    assert h[..|HEADING_OPEN|] == HEADING_OPEN;
    assert h[|HEADING_OPEN|..|h| - |HEADING_CLOSE|] == p.name;
    if ListsDependencies(p) {
      EntryLinesNoHeadings(p.deps);
    } else {
      BlockLinesIndented(p);
      assert rest == [PackageBlock(p)[1]];
    }
  }

  /** Every line of a block after the heading is indented. */
  lemma BlockLinesIndented(p: Package)
    ensures forall j :: 1 <= j < |PackageBlock(p)| ==> |PackageBlock(p)[j]| > 0 && PackageBlock(p)[j][0] == ' '
  {
    var b := PackageBlock(p);
    HeadChar(ENTRY_PREFIX, NO_DEPS_TEXT);
    assert ENTRY_PREFIX[0] == ' ' && NO_DEPS_LINE[0] == ' ';
    forall j | 1 <= j < |b|
      ensures |b[j]| > 0 && b[j][0] == ' '
    {
      if ListsDependencies(p) {
        HeadChar(ENTRY_PREFIX, p.deps[j - 1]);
        assert b[j] == ENTRY_PREFIX + p.deps[j - 1];
      } else if p.deps == [] {
        assert b[j] == NO_DEPS_LINE;
      } else {
        HeadChar(ENTRY_PREFIX, p.deps[0]);
        assert b[j] == ENTRY_PREFIX + p.deps[0];
      }
    }
  }

  /** The first characters that tell the rule apart from every other line
      written before it. */
  lemma LeadingChars()
    ensures |TITLE| > 0 && TITLE[0] == '-'
    ensures |RULE| > 0 && RULE[0] == '='
    ensures |HEADING_OPEN| > 0 && HEADING_OPEN[0] == '*'
    ensures |REQUESTED_PREFIX| > 0 && REQUESTED_PREFIX[0] == '#'
  {
    HeadChar(SUBHEADING, REQUESTED_PREFIX[|SUBHEADING|..]);
    assert SUBHEADING + REQUESTED_PREFIX[|SUBHEADING|..] == REQUESTED_PREFIX;
    HeadChar(DASHES, TITLE[|DASHES|..]);
    assert DASHES + TITLE[|DASHES|..] == TITLE;
  }

  lemma HeadChar(p: string, x: string)
    requires |p| > 0
    ensures |p + x| > 0 && (p + x)[0] == p[0]
  {
  }

  function Names(pkgs: seq<Package>): (r: seq<string>)
    ensures |r| == |pkgs|
  {
    if |pkgs| == 0 then [] else [pkgs[0].name] + Names(pkgs[1..])
  }

  /** The per-package section names every package once, in the dict's
      order, so it holds as many headings as the first count announces. */
  lemma {:induction false} SectionHeadings(pkgs: seq<Package>)
    ensures Headings(PackageSection(pkgs)) == Names(pkgs)
    decreases |pkgs|
  {
    if |pkgs| > 0 {
      HeadingsAppend(PackageBlock(pkgs[0]), PackageSection(pkgs[1..]));
      BlockHeadings(pkgs[0]);
      SectionHeadings(pkgs[1..]);
    }
  }

  // ---------------------------------------------------------------------
  // Reading the per-package section back
  // ---------------------------------------------------------------------

  /** A `  - text` line. */
  predicate IsEntryLine(l: string) {
    StartsWith(l, ENTRY_PREFIX)
  }

  function EntryText(l: string): string
    requires IsEntryLine(l)
  {
    l[|ENTRY_PREFIX|..]
  }

  /** The texts of the entry lines at the start of `lines`, and the lines
      after them. */
  function ReadEntries(lines: seq<string>): (r: (seq<string>, seq<string>))
    ensures |r.1| <= |lines|
  {
    if |lines| == 0 || !IsEntryLine(lines[0]) then ([], lines)
    else
      var t := ReadEntries(lines[1..]);
      ([EntryText(lines[0])] + t.0, t.1)
  }

  /** The packages a section of lines describes: each heading with the
      entries below it. Blank lines are skipped; any other line makes the
      text unreadable. */
  function ReadBlocks(lines: seq<string>): Option<seq<Package>>
    decreases |lines|
  {
    if |lines| == 0 then Some([])
    else if lines[0] == "" then ReadBlocks(lines[1..])
    else if IsHeadingLine(lines[0]) then
      var t := ReadEntries(lines[1..]);
      match ReadBlocks(t.1)
      case Some(more) => Some([Package(HeadingName(lines[0]), t.0)] + more)
      case None => None
    else None
  }

  /** What the file shows for one package: the name and the texts of the
      lines below it. */
  function Listing(p: Package): Package {
    if ListsDependencies(p) then p
    else if p.deps == [] then Package(p.name, [NO_DEPS_TEXT])
    else Package(p.name, [p.deps[0]])
  }

  function Listings(pkgs: seq<Package>): (r: seq<Package>)
    ensures |r| == |pkgs|
  {
    if |pkgs| == 0 then [] else [Listing(pkgs[0])] + Listings(pkgs[1..])
  }

  lemma HeadingLineRead(name: string)
    ensures IsHeadingLine(HeadingLine(name)) && HeadingName(HeadingLine(name)) == name
    ensures !IsEntryLine(HeadingLine(name)) && HeadingLine(name) != ""
  {
    var h := HeadingLine(name);
    assert h[..|HEADING_OPEN|] == HEADING_OPEN;
    assert h[|HEADING_OPEN|..|h| - |HEADING_CLOSE|] == name;
    assert h[0] == '*';
  }

  /** A block is its heading followed by the entry lines of its listing. */
  lemma BlockShape(p: Package)
    ensures PackageBlock(p) == [HeadingLine(p.name)] + EntryLines(Listing(p).deps)
  {
    if !ListsDependencies(p) {
      var e := EntryLines(Listing(p).deps);
      assert e == [ENTRY_PREFIX + Listing(p).deps[0]];
    }
  }

  lemma {:induction false} EntriesRead(xs: seq<string>, rest: seq<string>)
    requires rest == [] || !IsEntryLine(rest[0])
    ensures ReadEntries(EntryLines(xs) + rest) == (xs, rest)
    decreases |xs|
  {
    var lines := EntryLines(xs) + rest;
    if |xs| == 0 {
      assert lines == rest;
    } else {
      var l := ENTRY_PREFIX + xs[0];
      assert lines[0] == l;
      assert l[..|ENTRY_PREFIX|] == ENTRY_PREFIX && l[|ENTRY_PREFIX|..] == xs[0];
      assert lines[1..] == EntryLines(xs[1..]) + rest by {
        assert EntryLines(xs) == [l] + EntryLines(xs[1..]);
      }
      EntriesRead(xs[1..], rest);
      assert xs == [xs[0]] + xs[1..];
    }
  }

  /** Reading a heading, its entry lines and more lines gives the heading's
      package, then what the rest gives. */
  lemma HeadedRead(name: string, xs: seq<string>, rest: seq<string>)
    requires rest == [] || !IsEntryLine(rest[0])
    ensures ReadBlocks(rest).Some? ==>
      ReadBlocks([HeadingLine(name)] + (EntryLines(xs) + rest)) == Some([Package(name, xs)] + ReadBlocks(rest).value)
  {
    var lines := [HeadingLine(name)] + (EntryLines(xs) + rest);
    HeadingLineRead(name);
    assert lines[0] == HeadingLine(name);
    assert lines[1..] == EntryLines(xs) + rest;
    EntriesRead(xs, rest);
  }

  /** Reading a block followed by more lines gives its listing, then what
      the rest gives. */
  lemma BlockRead(p: Package, rest: seq<string>)
    requires rest == [] || !IsEntryLine(rest[0])
    ensures ReadBlocks(rest).Some? ==> ReadBlocks(PackageBlock(p) + rest) == Some([Listing(p)] + ReadBlocks(rest).value)
  {
    var q := Listing(p);
    BlockShape(p);
    assert PackageBlock(p) + rest == [HeadingLine(p.name)] + (EntryLines(q.deps) + rest);
    HeadedRead(p.name, q.deps, rest);
    assert Package(p.name, q.deps) == q;
  }

  /** The three cases of `create_readme_file`'s loop, read back from the
      lines written for one package. */
  lemma BlockRoundTrip(p: Package)
    ensures ListsDependencies(p) ==> ReadBlocks(PackageBlock(p)) == Some([p])
    ensures p.deps == [] ==> ReadBlocks(PackageBlock(p)) == Some([Package(p.name, [NO_DEPS_TEXT])])
    ensures p.deps != [] && StartsWith(p.deps[0], ERROR_MARK) ==> ReadBlocks(PackageBlock(p)) == Some([Package(p.name, [p.deps[0]])])
  {
    BlockRead(p, []);
    assert PackageBlock(p) + [] == PackageBlock(p);
    assert ReadBlocks([]) == Some([]);
    assert [Listing(p)] + [] == [Listing(p)];
  }

  /** When every manifest lists its dependencies, the section reads back as
      the dict itself. */
  lemma {:induction false} ListingsOfListed(pkgs: seq<Package>)
    requires forall i :: 0 <= i < |pkgs| ==> ListsDependencies(pkgs[i])
    ensures Listings(pkgs) == pkgs
    decreases |pkgs|
  {
    if |pkgs| > 0 {
      ListingsOfListed(pkgs[1..]);
      assert pkgs == [pkgs[0]] + pkgs[1..];
    }
  }

  lemma {:induction false} EntriesTrailingBlank(lines: seq<string>)
    ensures ReadEntries(lines + [""]) == (ReadEntries(lines).0, ReadEntries(lines).1 + [""])
    decreases |lines|
  {
    var l := lines + [""];
    if |lines| > 0 {
      assert l[0] == lines[0] && l[1..] == lines[1..] + [""];
      if IsEntryLine(lines[0]) {
        EntriesTrailingBlank(lines[1..]);
      }
    }
  }

  /** A blank line at the end changes nothing a reader finds. */
  lemma {:induction false} BlocksTrailingBlank(lines: seq<string>)
    ensures ReadBlocks(lines + [""]) == ReadBlocks(lines)
    decreases |lines|
  {
    var l := lines + [""];
    if |lines| == 0 {
      assert l[1..] == [];
    } else {
      assert l[0] == lines[0] && l[1..] == lines[1..] + [""];
      if lines[0] == "" {
        BlocksTrailingBlank(lines[1..]);
      } else if IsHeadingLine(lines[0]) {
        var t := ReadEntries(lines[1..]);
        EntriesTrailingBlank(lines[1..]);
        BlocksTrailingBlank(t.1);
      }
    }
  }

  /** The ids of `* id` lines; `None` if some line is not one. */
  function ReadBullets(lines: seq<string>): Option<seq<string>> {
    if |lines| == 0 then Some([])
    else if |lines[0]| >= |BULLET| && lines[0][..|BULLET|] == BULLET then
      match ReadBullets(lines[1..])
      case Some(rest) => Some([lines[0][|BULLET|..]] + rest)
      case None => None
    else None
  }

  lemma {:induction false} BulletsRoundTrip(ids: seq<string>)
    ensures ReadBullets(Bullets(ids)) == Some(ids)
    decreases |ids|
  {
    if |ids| > 0 {
      var b := Bullets(ids);
      assert b[0][..|BULLET|] == BULLET && b[0][|BULLET|..] == ids[0];
      assert b[1..] == Bullets(ids[1..]);
      BulletsRoundTrip(ids[1..]);
      assert ids == [ids[0]] + ids[1..];
    }
  }

  /** What a reader finds below the `=====` rule: the announced count and
      the listed ids. */
  function ReadSummary(lines: seq<string>): Option<(nat, seq<string>)> {
    var k := IndexOf(lines, RULE);
    if k + 3 > |lines| || lines[k + 1] != "" then None
    else
      match (ReadCount(lines[k + 2], UNIQUE_PREFIX), ReadBullets(lines[k + 3..]))
      case (Some(n), Some(ids)) => Some((n, ids))
      case _ => None
  }

  /** No line of the per-package section is the rule. */
  lemma {:induction false} SectionHasNoRule(pkgs: seq<Package>)
    ensures forall j :: 0 <= j < |PackageSection(pkgs)| ==> PackageSection(pkgs)[j] != RULE
    decreases |pkgs|
  {
    if |pkgs| > 0 {
      SectionHasNoRule(pkgs[1..]);
      BlockHasNoRule(pkgs[0]);
      NoneIsRule(PackageBlock(pkgs[0]), PackageSection(pkgs[1..]));
    }
  }

  /** No line of a block is the rule. */
  lemma BlockHasNoRule(p: Package)
    ensures forall j :: 0 <= j < |PackageBlock(p)| ==> PackageBlock(p)[j] != RULE
  {
    var b := PackageBlock(p);
    BlockLinesIndented(p);
    LeadingChars();
    HeadChar(HEADING_OPEN, p.name + HEADING_CLOSE);
    assert b[0] == HEADING_OPEN + (p.name + HEADING_CLOSE);
  }

  lemma NoneIsRule(a: seq<string>, b: seq<string>)
    requires forall j :: 0 <= j < |a| ==> a[j] != RULE
    requires forall j :: 0 <= j < |b| ==> b[j] != RULE
    ensures forall j :: 0 <= j < |a + b| ==> (a + b)[j] != RULE
  {
  }

  /** The lines between the first count and the rule. */
  function ReadSection(lines: seq<string>): seq<string> {
    var k := IndexOf(lines, RULE);
    if 3 <= k then lines[3..k] else []
  }

  /** Reading the readme back: the first heading announces the number of
      packages; the section names each package once, in order, with what
      is listed under it; and the summary announces exactly as many ids as
      it lists, which are the sorted, duplicate-free referenced ids. */
  lemma ReadmeRoundTrip(pkgs: seq<Package>)
    ensures ReadCount(ReadmeLines(pkgs)[2], REQUESTED_PREFIX) == Some(|pkgs|)
    ensures Headings(ReadSection(ReadmeLines(pkgs))) == Names(pkgs)
    ensures ReadBlocks(ReadSection(ReadmeLines(pkgs))) == Some(Listings(pkgs))
    ensures ReadSummary(ReadmeLines(pkgs)) == Some((|ReferencedIds(pkgs)|, UniqueIds(pkgs)))
  {
    var pre := IntroLines(pkgs);
    var post := SummaryLines(pkgs);
    assert ReadmeLines(pkgs) == pre + [RULE] + post;
    CountRead(pkgs, pre, post);
    RuleLocated(pkgs, pre, post);
    SectionRead(pkgs, pre, post);
    SummaryRead(pkgs, pre, post);
  }

  /** The third line of the file carries the number of requested packages. */
  lemma CountRead(pkgs: seq<Package>, pre: seq<string>, post: seq<string>)
    requires pre == IntroLines(pkgs)
    ensures ReadCount((pre + [RULE] + post)[2], REQUESTED_PREFIX) == Some(|pkgs|)
  {
    assert (pre + [RULE] + post)[2] == pre[..3][2];
    CountLineRoundTrip(REQUESTED_PREFIX, |pkgs|);
  }

  lemma SectionRead(pkgs: seq<Package>, pre: seq<string>, post: seq<string>)
    requires pre == IntroLines(pkgs)
    requires IndexOf(pre + [RULE] + post, RULE) == |pre|
    ensures Headings(ReadSection(pre + [RULE] + post)) == Names(pkgs)
    ensures ReadBlocks(ReadSection(pre + [RULE] + post)) == Some(Listings(pkgs))
  {
    var section := PackageSection(pkgs);
    var lines := pre + [RULE] + post;
    assert lines[3..|pre|] == section + [""] by {
      assert lines[3..|pre|] == pre[3..];
    }
    HeadingsAppend(section, [""]);
    SectionHeadings(pkgs);
    BlocksTrailingBlank(section);
  }

  lemma SummaryRead(pkgs: seq<Package>, pre: seq<string>, post: seq<string>)
    requires post == SummaryLines(pkgs)
    requires IndexOf(pre + [RULE] + post, RULE) == |pre|
    ensures ReadSummary(pre + [RULE] + post) == Some((|ReferencedIds(pkgs)|, UniqueIds(pkgs)))
  {
    var ids := UniqueIds(pkgs);
    var lines := pre + [RULE] + post;
    var k := |pre|;
    assert lines[k + 1..] == post;
    assert post[0] == "" && post[1] == CountLine(UNIQUE_PREFIX, |ids|) && post[2..] == Bullets(ids);
    CountLineRoundTrip(UNIQUE_PREFIX, |ids|);
    BulletsRoundTrip(ids);
  }

  /** `IndexOf` stops at the first line equal to the target. */
  lemma IndexOfAfter(a: seq<string>, target: string, c: seq<string>)
    requires forall j :: 0 <= j < |a| ==> a[j] != target
    ensures IndexOf(a + [target] + c, target) == |a|
  {
    var lines := a + [target] + c;
    forall j | 0 <= j < |a|
      ensures lines[j] != target
    {
      assert lines[j] == a[j];
    }
    IndexOfUnique(lines, target, |a|);
  }

  /** The rule is the line right after the per-package section and its
      blank line. */
  lemma RuleLocated(pkgs: seq<Package>, pre: seq<string>, post: seq<string>)
    requires pre == IntroLines(pkgs)
    ensures IndexOf(pre + [RULE] + post, RULE) == |pre|
  {
    var head := [TITLE, "", CountLine(REQUESTED_PREFIX, |pkgs|)];
    var section := PackageSection(pkgs);
    SectionHasNoRule(pkgs);
    LeadingChars();
    HeadChar(REQUESTED_PREFIX, NatToDecimal(|pkgs|) + ITEMS_SUFFIX);
    assert head[2] == REQUESTED_PREFIX + (NatToDecimal(|pkgs|) + ITEMS_SUFFIX);
    forall j | 0 <= j < |pre|
      ensures pre[j] != RULE
    {
      if j < |head| {
        assert pre[j] == head[j];
      } else if j < |head| + |section| {
        assert pre[j] == section[j - |head|];
      }
    }
    IndexOfAfter(pre, RULE, post);
  }
}
