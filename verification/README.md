# WHALE-PUUP core, modelled in Dafny

WHALE-PUUP downloads NuGet packages with their dependencies, writes a readme
listing them, and packs everything into a timestamped folder. This project
models the three pieces of its logic that do not touch the outside
world, as pure functions over strings:

- **Package-list parsing.** `show_whale_prompt` in `utilities.py` gets a
  comma-separated list from the prompt, or from the command-line arguments
  joined by spaces.
  - `exit`, in any letter case and with surrounding spaces, cancels.
  - Otherwise the list is split on `,`, every field is stripped, and empty
    fields are dropped.
  - A list that names no package cancels as well (`None`).
  - `yee` in `Whale.py` has its own copy: it strips the text, splits it the
    same way and cancels on an empty list, but it has no `exit` command.
- **The readme.** `create_readme_file` writes `readme_puup_file.txt`. The file
  holds:
  - a title;
  - the number of requested packages;
  - one block per package: the `* **name**` heading, then the dependency
    lines, a "No direct dependencies" line, or only the error entry;
  - a rule of 50 `=`;
  - the number of distinct dependency ids;
  - the ids, sorted.

  The identical copy in `Whale.py` is covered by the same model.
- **The output names.** `create_final_archive` names the output folder
  `whale_puup_<count>_krills_at_<YYYYMMDDHHMMSS>` and the archive inside it
  `<folder>.txt`. The moment is a parameter (`DateTime`) instead of a clock
  reading.

Modules:

| file | module | contents |
|---|---|---|
| `wrappers.dfy` | `Wrappers` | `Option`, standing for Python's `None`-or-value results |
| `text.dfy` | `Text` | `str.strip()` with Python's exact whitespace set, `startswith`, `split(',')` with its round trip against `join`, `split(d)[0]`, ASCII `lower()` |
| `string_order.dfy` | `StringOrder` | Python's `<` on `str` (code-point order), and `sorted(set(...))` |
| `decimal.dfy` | `Decimal` | `str(n)` and zero-padded `%02d`/`%04d` fields, with their readers |
| `package_list.dfy` | `PackageList` | both copies of the package-list parsing, and the command-line text |
| `readme.dfy` | `Readme` | the lines of the readme, the set of referenced ids, and a reader for the file |
| `archive_names.dfy` | `ArchiveNames` | the timestamp, the folder name and the archive name, with their parsers |

Where a property relates an operation to a partner, the partner is one of
these:

- an inverse: `Join` for `Split`, a reader for each output name, and
  readers for the readme's package count, package blocks (each heading with
  the entries below it), summary count and summary bullets;
- a reference definition: `IsStripSpan` for `Strip`, and the set
  `ReferencedIds` for the summary;
- the other copy of the same code.

## Model

| member | source | states |
|---|---|---|
| `PackageList.ParsePackageList` | utilities.py:44-58 | `exit` in any case cancels. A returned list is non-empty, holds only stripped, comma-free, non-empty ids, and is exactly the ids of the text. A cancel means `exit` or a list without ids. |
| `PackageList.Packages` | utilities.py:50 | every id of the comprehension is non-empty, stripped and free of commas |
| `PackageList.CleanFields` | utilities.py:50 | the filter keeps at most one id per field; each kept id is the stripped text of some field and is non-empty |
| `PackageList.PackagesConcat` | utilities.py:50 | ids keep their order: the ids of `a,b` are the ids of `a` followed by those of `b` |
| `PackageList.SplitConcat` | utilities.py:50 | the fields of `a,b` are the fields of `a` followed by those of `b` |
| `PackageList.PackagesIgnoreLeadingSpaces` | Whale.py:46 | whitespace in front of the text changes no id |
| `PackageList.PackagesIgnoreTrailingSpaces` | Whale.py:46 | whitespace after the text changes no id |
| `PackageList.PackagesOfOneField` | utilities.py:50 | a text without a comma names exactly its stripped self, or nothing when it is blank |
| `PackageList.PackagesEmptyIff` | utilities.py:50-55 | a text names no package if and only if it consists of commas and whitespace only |
| `PackageList.OnlySeparatorsCancel` | utilities.py:52-55 | input of commas and whitespace only cancels, in both copies |
| `PackageList.ListTextRoundTrip` | utilities.py:49-58 | writing clean ids as `A, B, C` and parsing the text gives the same ids back, unless the text is the single word `exit` |
| `PackageList.IsExitCommand` | utilities.py:45 | the input is taken for `exit` exactly when, after lower-casing, it is `exit` with nothing but whitespace before and after it |
| `PackageList.ExitCommandHasNoComma` | utilities.py:45 | a text taken for `exit` contains no comma |
| `PackageList.CommandLineText` | utilities.py:38 | the arguments are joined with single spaces: splitting the text at spaces gives them back when none of them holds a space |
| `PackageList.ArgumentsWithoutCommasMerge` | utilities.py:36-38 | command-line arguments without commas are joined by spaces into a single id |
| `PackageList.CommaArgsText` | utilities.py:36-38 | the words the shell passes for `whale A, B, C`, joined by spaces, are the text `A, B, C` |
| `PackageList.CommandLineRoundTrip` | utilities.py:36-58 | clean ids given on the command line as `A, B, C` come back as the same list |
| `PackageList.WhalePackages` | Whale.py:296-299 | a list `yee` accepts is non-empty and holds only clean ids |
| `PackageList.StripBeforeSplit` | Whale.py:46 | stripping the whole text before splitting changes no id |
| `PackageList.WhaleAgreesWithUtilities` | Whale.py:328-332 | apart from `exit`, the two copies accept, cancel and return exactly the same |
| `PackageList.WhaleTakesExitAsPackage` | Whale.py:39-46 | the `Whale.py` copy takes an `exit` input, in any case, as the single id it strips to |
| `Text.Strip` | utilities.py:50 | `strip()` is never longer than its input, is empty exactly for all-whitespace text, and neither starts nor ends with whitespace |
| `Text.StripUnique` | utilities.py:50 | any slice with only whitespace outside it and no whitespace at its ends is what `strip()` returns |
| `Text.StripIdempotent` | utilities.py:50 | stripping twice is stripping once |
| `Text.StripPadded` | Whale.py:46 | whitespace added around a text does not change its stripped form |
| `Text.StripLowerCommute` | utilities.py:45 | `s.lower().strip() == s.strip().lower()` |
| `Text.Split` | utilities.py:50 | `split(',')` gives at least one field, no field holds a comma, and joining the fields with `,` gives the input back |
| `Text.SplitJoin` | utilities.py:50 | splitting a join of comma-free fields gives the fields back |
| `Text.JoinAppend` | utilities.py:50 | joining two non-empty field lists together is joining each and putting one separator between them |
| `Text.SplitPrepend` | utilities.py:50 | text without a separator put in front of the input lands in the first field, and the other fields stay as they were |
| `Text.SplitAppend` | utilities.py:50 | text without a separator put after the input lands in the last field, and the other fields stay as they were |
| `Text.BeforeFirst` | utilities.py:77 | `split(d)[0]` is a prefix of the line that does not contain `d` and ends where `d` first occurs, or at the end of the line |
| `Text.AsciiLower` | utilities.py:45 | `lower()` keeps the length and lowers each ASCII letter in place |
| `StringOrder.LessTransitive` | utilities.py:86 | the order `sorted` uses on strings is transitive |
| `StringOrder.LessTotal` | utilities.py:86 | any two different strings are ordered one way or the other |
| `StringOrder.SortedDistinct` | utilities.py:86 | `sorted(set(xs))` is strictly ascending and holds exactly the values of `xs` |
| `StringOrder.SortedUnique` | utilities.py:86 | two strictly ascending lists with the same values are equal |
| `StringOrder.SortedCardinality` | utilities.py:85-86 | a strictly ascending list has as many entries as distinct values |
| `Decimal.NatToDecimal` | utilities.py:69 | `str(n)` is digits only, with a leading zero only for zero itself |
| `Decimal.DecimalRoundTrip` | utilities.py:69 | reading `str(n)` back gives `n` |
| `Decimal.CanonicalRoundTrip` | utilities.py:85 | every digit string without a leading zero is `str` of the number it denotes |
| `Decimal.PadDecimal` | Whale.py:85 | a `%0wd` field has exactly `w` digits |
| `Decimal.PadRoundTrip` | Whale.py:85 | reading a padded field back gives the number |
| `Decimal.PadCanonical` | Whale.py:85 | every string of `w` digits is the padded text of its value |
| `Readme.PackageBlock` | utilities.py:72-81 | a block has at least two lines and opens with the `* **name**` heading; what it says is read back by `Readme.BlockRoundTrip` |
| `Readme.BlockRoundTrip` | utilities.py:72-81 | reading one package's lines back gives its name with every dependency line when the list is non-empty and its first entry does not start with `Error`; the name with only the error entry when it does; the name with "No direct dependencies listed in metadata." when the list is empty |
| `Readme.PackageSection` | utilities.py:71-81 | reading the section back gives, for every package in the dict's order, its name and what is listed under it |
| `Readme.ListingsOfListed` | utilities.py:71-76 | when every manifest lists its dependencies, the section reads back as the dict itself |
| `Readme.BlocksTrailingBlank` | utilities.py:83 | the blank line after the section does not change what a reader finds |
| `Readme.DependencyId` | utilities.py:77 | the id is the text before the first ` (Version:`, or the whole line when the mark does not occur |
| `Readme.EntryLines` | utilities.py:74-75 | one `  - ` line per dependency, in order, group headers included |
| `Readme.UniqueIds` | utilities.py:65-87 | the summary is strictly sorted, holds exactly the referenced ids, and lists as many as `len(all_dependencies)` counts |
| `Readme.ReadmeLines` | utilities.py:67-87 | the file has three opening lines, the package section, four summary lines and one bullet per distinct id; it opens with the title, a blank line and the package count |
| `Readme.CollectIds` | utilities.py:71-77 | the values added to `all_dependencies` are exactly the ids of the non-group lines of the packages that list dependencies |
| `Readme.GroupLinesNeverIds` | utilities.py:76-77 | no id in the summary starts with `--- Group:` |
| `Readme.GroupMarkSurvivesCut` | utilities.py:76-77 | if the text before ` (Version:` starts with `--- Group:`, so does the whole line |
| `Readme.IdsAreVersionFree` | utilities.py:77 | ` (Version:` occurs in no id of the summary |
| `Readme.UnversionedLineIsId` | utilities.py:77 | a line without ` (Version:` is its own id |
| `Readme.SilentPackageAddsNothing` | utilities.py:73-81 | a package with an empty list or an `Error` entry adds nothing to the summary |
| `Readme.SummaryIgnoresOrder` | utilities.py:71-86 | the summary does not depend on the order of the packages |
| `Readme.SummaryListsOnce` | utilities.py:85-87 | a dependency shared by several packages is listed once |
| `Readme.CountLineRoundTrip` | utilities.py:69 | the number in an `(<n> items):` heading reads back as `n` |
| `Readme.BlockHeadings` | utilities.py:72-81 | the only heading in a package block is the package's own name |
| `Readme.SectionHeadings` | utilities.py:71-81 | the headings of the package section are the package names, in order, each once |
| `Readme.SectionHasNoRule` | utilities.py:71-83 | no line of the package section is the `=` rule |
| `Readme.BulletsRoundTrip` | utilities.py:86-87 | the `* ` lines read back as the listed ids |
| `Readme.ReadmeRoundTrip` | utilities.py:67-87 | reading the file back gives the package count, the package names in order, every package's listed entries, and the summary count equal to the number of ids it lists, with the sorted distinct ids |
| `ArchiveNames.DaysInMonth` | Whale.py:83-85 | a month has 28 to 31 days, and February has 29 exactly in leap years |
| `ArchiveNames.Timestamp` | Whale.py:83-85 | `strftime("%Y%m%d%H%M%S")` is exactly fourteen digits |
| `ArchiveNames.TimestampRoundTrip` | Whale.py:83-85 | the timestamp reads back as the moment it was made from |
| `ArchiveNames.TimestampParseSound` | Whale.py:83-85 | every text the timestamp reader accepts is the timestamp of what it returns |
| `ArchiveNames.TimestampInjective` | Whale.py:83-85 | two moments share a timestamp if and only if they are the same moment |
| `ArchiveNames.FolderName` | Whale.py:86 | the folder name reads back as the package count and the moment |
| `ArchiveNames.FolderNameParseSound` | Whale.py:86 | every name the folder reader accepts is the folder name of what it returns |
| `ArchiveNames.FolderNameInjective` | Whale.py:83-86 | two folder names are equal if and only if count and moment are |
| `ArchiveNames.ArchiveName` | Whale.py:104 | the archive `<folder>.txt` reads back as the count and the moment of its folder |
| `ArchiveNames.ArchiveNameParseSound` | Whale.py:104 | every name the archive reader accepts is the archive name of what it returns |

## Left out

- Downloading and unpacking:
  - running `nuget.exe`;
  - the HTTP queries;
  - reading `.nuspec` manifests (the dependency lines arrive as input);
  - `shutil.make_archive` and the `.zip` it produces before the rename;
  - base64 encoding;
  - `extract_nupkg_files`.

  All of these are I/O or foreign code.
- The orchestrators `yee` and `main`, with their retry loop and exception
  handling. Only the parsing step they perform is modelled.
- Printing, the random whale picture, `sys.exit`, file and folder creation,
  and `os.path.join`. The readme is modelled as the list of lines it holds,
  each without its `\n`; the output path is left out.
- The readme file's character encoding and newline translation.
  `open(output_path, 'w')` uses the platform's defaults. Under a legacy code
  page the emoji in the headings cannot be encoded and the write fails. The
  model treats the lines as text only.
- `Text.AsciiLower`: models only the ASCII part of `str.lower()`. It is used
  only in the `== 'exit'` test. No non-ASCII character lowercases to one of
  `e`, `x`, `i`, `t`, or to whitespace, so the outcome of that test is the
  same as Python's.
- The readme's title line and its blank lines are not read back; the
  readers cover the counts, the package blocks and the summary bullets.
- A dependency entry or package name containing a newline would break a
  written line in two. The model keeps it as one line.
- `Readme.ReadmeLines`: `package_dependencies` is a dict, so its names are
  distinct. The model takes any sequence of packages in insertion order, so
  the name list may repeat.
- `ArchiveNames.Timestamp`: only years 1000 to 9999 are modelled, where `%Y`
  prints four digits. Below 1000 the padding of `%Y` depends on the
  platform.
- The `package_count` passed to `create_final_archive` is taken to be a
  natural number. Its only caller passes the result of
  `download_nuget_packages` (Whale.py:336), a function that is not part of
  the source, so nothing fixes its value.
- Where the two copies differ, the model follows the code. `Whale.py`'s
  `show_whale_prompt` has no `exit` command, and
  `PackageList.WhaleTakesExitAsPackage` states what happens instead.
