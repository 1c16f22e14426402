/**
  The names `create_final_archive` gives its output: the folder
  `whale_puup_<count>_krills_at_<YYYYMMDDHHMMSS>` and the archive inside it,
  `<folder>.txt`. The moment is a parameter instead of a clock reading.
*/
module ArchiveNames {
  import opened Wrappers
  import opened Text
  import opened Decimal

  const FOLDER_PREFIX: string := "whale_puup_"
  const COUNT_SEP: string := "_krills_at_"
  const ARCHIVE_EXT: string := ".txt"

  /** The fields of `datetime.datetime.now()` that `%Y%m%d%H%M%S` prints. */
  datatype DateTime = DateTime(year: nat, month: nat, day: nat, hour: nat, minute: nat, second: nat)
  {
    /** A moment `datetime` accepts, with a four-digit year. */
    predicate Valid() {
      1000 <= year <= 9999 && 1 <= month <= 12 && 1 <= day <= DaysInMonth(year, month)
      && hour < 24 && minute < 60 && second < 60
    }
  }

  predicate IsLeapYear(y: nat) {
    y % 4 == 0 && (y % 100 != 0 || y % 400 == 0)
  }

  function DaysInMonth(y: nat, m: nat): (d: nat)
    requires 1 <= m <= 12
    ensures 28 <= d <= 31
    ensures m == 2 ==> (d == 29 <==> IsLeapYear(y))
  {
    if m == 2 then (if IsLeapYear(y) then 29 else 28)
    else if m == 4 || m == 6 || m == 9 || m == 11 then 30
    else 31
  }

  lemma Pow10Values()
    ensures Pow10(2) == 100 && Pow10(4) == 10000
  {
    assert Pow10(1) == 10;
    assert Pow10(3) == 1000;
  }

  // ---------------------------------------------------------------------
  // The timestamp
  // ---------------------------------------------------------------------

  /** `now.strftime("%Y%m%d%H%M%S")`: fourteen digits, every field
      zero-padded to its width. */
  function Timestamp(t: DateTime): (r: string)
    requires t.Valid()
    ensures |r| == 14 && AllDigits(r)
  {
    Pow10Values();
    PadDecimal(t.year, 4) + PadDecimal(t.month, 2) + PadDecimal(t.day, 2)
      + PadDecimal(t.hour, 2) + PadDecimal(t.minute, 2) + PadDecimal(t.second, 2)
  }

  /** The number written in `s[i..i + w]`. */
  function Field(s: string, i: nat, w: nat): nat
    requires AllDigits(s) && i + w <= |s|
  {
    assert AllDigits(s[i..i + w]);
    Value(s[i..i + w])
  }

  /** Reads a timestamp back; `None` when the text is not fourteen digits
      or names no valid moment. */
  function ParseTimestamp(s: string): (r: Option<DateTime>)
    ensures r.Some? ==> |s| == 14 && AllDigits(s) && r.value.Valid()
  {
    if |s| != 14 || !AllDigits(s) then None
    else
      var t := DateTime(Field(s, 0, 4), Field(s, 4, 2), Field(s, 6, 2),
                        Field(s, 8, 2), Field(s, 10, 2), Field(s, 12, 2));
      if t.Valid() then Some(t) else None
  }

  /** The timestamp names the moment it was made from. */
  lemma TimestampRoundTrip(t: DateTime)
    requires t.Valid()
    ensures ParseTimestamp(Timestamp(t)) == Some(t)
  {
    Pow10Values();
    SixSlices(PadDecimal(t.year, 4), PadDecimal(t.month, 2), PadDecimal(t.day, 2),
              PadDecimal(t.hour, 2), PadDecimal(t.minute, 2), PadDecimal(t.second, 2));
    PadRoundTrip(t.year, 4);
    PadRoundTrip(t.month, 2);
    PadRoundTrip(t.day, 2);
    PadRoundTrip(t.hour, 2);
    PadRoundTrip(t.minute, 2);
    PadRoundTrip(t.second, 2);
  }

  /** Every text the parser accepts is the timestamp of what it returns. */
  lemma TimestampParseSound(s: string)
    ensures ParseTimestamp(s).Some? ==> Timestamp(ParseTimestamp(s).value) == s
  {
    if ParseTimestamp(s).Some? {
      var t := ParseTimestamp(s).value;
      assert t == DateTime(Field(s, 0, 4), Field(s, 4, 2), Field(s, 6, 2),
                           Field(s, 8, 2), Field(s, 10, 2), Field(s, 12, 2));
      FieldPadded(s, 0, 4);
      FieldPadded(s, 4, 2);
      FieldPadded(s, 6, 2);
      FieldPadded(s, 8, 2);
      FieldPadded(s, 10, 2);
      FieldPadded(s, 12, 2);
      TimestampOfFields(t, s);
    }
  }

  lemma TimestampOfFields(t: DateTime, s: string)
    requires t.Valid() && |s| == 14
    requires Pow10(2) == 100 && Pow10(4) == 10000
    requires PadDecimal(t.year, 4) == s[0..4] && PadDecimal(t.month, 2) == s[4..6]
    requires PadDecimal(t.day, 2) == s[6..8] && PadDecimal(t.hour, 2) == s[8..10]
    requires PadDecimal(t.minute, 2) == s[10..12] && PadDecimal(t.second, 2) == s[12..14]
    ensures Timestamp(t) == s
  {
    TimestampSlices(s);
  }

  /** The six fields of a timestamp sit at fixed offsets. */
  lemma SixSlices(a: string, b: string, c: string, d: string, e: string, f: string)
    requires |a| == 4 && |b| == 2 && |c| == 2 && |d| == 2 && |e| == 2 && |f| == 2
    ensures var s := a + b + c + d + e + f;
      && s[0..4] == a && s[4..6] == b && s[6..8] == c
      && s[8..10] == d && s[10..12] == e && s[12..14] == f
  {
    var s := a + b + c + d + e + f;
    assert s == a + (b + (c + (d + (e + f))));
    assert s[0..4] == a;
    var s1 := s[4..];
    assert s1 == b + (c + (d + (e + f)));
    assert s[4..6] == s1[0..2] == b;
    var s2 := s1[2..];
    assert s2 == c + (d + (e + f));
    assert s[6..8] == s2[0..2] == c;
    var s3 := s2[2..];
    assert s3 == d + (e + f);
    assert s[8..10] == s3[0..2] == d;
    var s4 := s3[2..];
    assert s4 == e + f;
    assert s[10..12] == s4[0..2] == e;
    assert s[12..14] == s4[2..4] == f;
  }

  /** A fourteen-character text is the concatenation of its six fields. */
  lemma TimestampSlices(s: string)
    requires |s| == 14
    ensures s == s[0..4] + s[4..6] + s[6..8] + s[8..10] + s[10..12] + s[12..14]
  {
    assert s[0..4] + s[4..6] == s[0..6];
    assert s[0..6] + s[6..8] == s[0..8];
    assert s[0..8] + s[8..10] == s[0..10];
    assert s[0..10] + s[10..12] == s[0..12];
    assert s[0..12] + s[12..14] == s;
  }

  lemma FieldPadded(s: string, i: nat, w: nat)
    requires AllDigits(s) && i + w <= |s|
    ensures Field(s, i, w) < Pow10(w)
    ensures PadDecimal(Field(s, i, w), w) == s[i..i + w]
  {
    PadCanonical(s[i..i + w]);
  }

  /** Two moments share a timestamp only if they are the same moment. */
  lemma TimestampInjective(t: DateTime, u: DateTime)
    requires t.Valid() && u.Valid()
    ensures Timestamp(t) == Timestamp(u) <==> t == u
  {
    TimestampRoundTrip(t);
    TimestampRoundTrip(u);
  }

  // ---------------------------------------------------------------------
  // The folder and the archive
  // ---------------------------------------------------------------------

  /** `f"whale_puup_{package_count}_krills_at_{timestamp_str}"`; it reads
      back as the package count and the moment. */
  function FolderName(count: nat, t: DateTime): (name: string)
    requires t.Valid()
    ensures ParseFolderName(name) == Some((count, t))
  {
    var digits := NatToDecimal(count);
    var stamp := Timestamp(t);
    var after := COUNT_SEP + stamp;
    assert CountAndStamp(count, t) == digits + after;
    DropPrefix(FOLDER_PREFIX, digits + after);
    CountSepStart();
    assert after[0] == COUNT_SEP[0];
    DigitsThenOther(digits, after);
    DropPrefix(COUNT_SEP, stamp);
    DecimalRoundTrip(count);
    TimestampRoundTrip(t);
    CountAndStampRoundTrip(digits, after, stamp, count, t);
    FOLDER_PREFIX + CountAndStamp(count, t)
  }

  /** The part of the folder name after `whale_puup_`. */
  function CountAndStamp(count: nat, t: DateTime): string
    requires t.Valid()
  {
    NatToDecimal(count) + COUNT_SEP + Timestamp(t)
  }

  /** `f"{folder_name}.txt"`; it reads back as the count and the moment of
      its folder. */
  function ArchiveName(count: nat, t: DateTime): (file: string)
    requires t.Valid()
    ensures ParseArchiveName(file) == Some((count, t))
  {
    var folder := FolderName(count, t);
    var file := folder + ARCHIVE_EXT;
    assert file[|file| - |ARCHIVE_EXT|..] == ARCHIVE_EXT;
    assert file[..|file| - |ARCHIVE_EXT|] == folder;
    file
  }

  /** The length of the run of digits `s` starts with. */
  function DigitRun(s: string): (n: nat)
    ensures n <= |s|
    ensures forall k :: 0 <= k < n ==> IsDigit(s[k])
    ensures n == |s| || !IsDigit(s[n])
  {
    if |s| == 0 || !IsDigit(s[0]) then 0 else 1 + DigitRun(s[1..])
  }

  /** Only the whole digit run satisfies `DigitRun`'s contract. */
  lemma {:induction false} DigitRunUnique(s: string, n: nat)
    requires n <= |s|
    requires forall k :: 0 <= k < n ==> IsDigit(s[k])
    requires n == |s| || !IsDigit(s[n])
    ensures DigitRun(s) == n
  {
    if n > 0 {
      DigitRunUnique(s[1..], n - 1);
    }
  }

  /** Reads a folder name back into the package count and the moment; `None`
      for any other text. */
  function ParseFolderName(name: string): (r: Option<(nat, DateTime)>)
    ensures r.Some? ==> r.value.1.Valid()
  {
    if !StartsWith(name, FOLDER_PREFIX) then None
    else ParseCountAndStamp(name[|FOLDER_PREFIX|..])
  }

  /** Reads `<count>_krills_at_<timestamp>`: a canonical decimal count, the
      separator, and a valid timestamp. */
  function ParseCountAndStamp(rest: string): (r: Option<(nat, DateTime)>)
    ensures r.Some? ==> r.value.1.Valid()
  {
    var n := DigitRun(rest);
    var digits := rest[..n];
    var after := rest[n..];
    if !IsCanonical(digits) || !StartsWith(after, COUNT_SEP) then None
    else
      match ParseTimestamp(after[|COUNT_SEP|..])
      case Some(t) => Some((Value(digits), t))
      case None => None
  }

  /** Splitting off a known prefix. */
  lemma DropPrefix(p: string, x: string)
    ensures StartsWith(p + x, p) && (p + x)[|p|..] == x
  {
    assert (p + x)[..|p|] == p;
  }

  /** A digit run followed by a non-digit ends where the digits end. */
  lemma DigitsThenOther(digits: string, after: string)
    requires AllDigits(digits)
    requires |after| > 0 && !IsDigit(after[0])
    ensures DigitRun(digits + after) == |digits|
    ensures (digits + after)[..|digits|] == digits && (digits + after)[|digits|..] == after
  {
    var rest := digits + after;
    assert rest[|digits|] == after[0];
    assert forall k :: 0 <= k < |digits| ==> rest[k] == digits[k];
    DigitRunUnique(rest, |digits|);
  }

  lemma CountSepStart()
    ensures |COUNT_SEP| > 0 && !IsDigit(COUNT_SEP[0])
  {
    assert COUNT_SEP[0] == '_';
  }

  lemma CountAndStampRoundTrip(digits: string, after: string, stamp: string, count: nat, t: DateTime)
    requires IsCanonical(digits) && Value(digits) == count
    requires DigitRun(digits + after) == |digits|
    requires (digits + after)[..|digits|] == digits && (digits + after)[|digits|..] == after
    requires StartsWith(after, COUNT_SEP) && after[|COUNT_SEP|..] == stamp
    requires ParseTimestamp(stamp) == Some(t)
    ensures ParseCountAndStamp(digits + after) == Some((count, t))
  {
  }

  /** Every name the parser accepts is the folder name of what it returns:
      the parser accepts exactly the names `create_final_archive` makes. */
  lemma FolderNameParseSound(name: string)
    ensures ParseFolderName(name).Some? ==>
      FolderName(ParseFolderName(name).value.0, ParseFolderName(name).value.1) == name
  {
    if ParseFolderName(name).Some? {
      var rest := name[|FOLDER_PREFIX|..];
      assert ParseFolderName(name) == ParseCountAndStamp(rest);
      CountAndStampSound(rest);
      SplitAfterPrefix(name, FOLDER_PREFIX);
    }
  }

  lemma CountAndStampSound(rest: string)
    requires ParseCountAndStamp(rest).Some?
    ensures var (c, t) := ParseCountAndStamp(rest).value;
      CountAndStamp(c, t) == rest
  {
    var n := DigitRun(rest);
    var digits := rest[..n];
    var stamp := rest[n..][|COUNT_SEP|..];
    assert ParseCountAndStamp(rest).value == (Value(digits), ParseTimestamp(stamp).value);
    CanonicalRoundTrip(digits);
    TimestampParseSound(stamp);
    Reassemble(rest, n, COUNT_SEP);
  }

  /** Cutting `s` at `n`, where a copy of `p` starts, and gluing the pieces
      back gives `s`. */
  lemma Reassemble(s: string, n: nat, p: string)
    requires n <= |s| && StartsWith(s[n..], p)
    ensures s[..n] + p + s[n..][|p|..] == s
  {
    var q := s[n..];
    SplitAfterPrefix(q, p);
    assert s[..n] + p + q[|p|..] == s[..n] + (p + q[|p|..]);
    assert s[..n] + q == s;
  }

  lemma SplitAfterPrefix(s: string, p: string)
    requires StartsWith(s, p)
    ensures s == p + s[|p|..]
  {
    assert s[..|p|] == p;
  }

  /** Different counts or different moments give different folders. */
  lemma FolderNameInjective(c: nat, t: DateTime, d: nat, u: DateTime)
    requires t.Valid() && u.Valid()
    ensures FolderName(c, t) == FolderName(d, u) <==> c == d && t == u
  {
  }

  /** Reads an archive name back; `None` unless it ends in `.txt` and the
      rest is a folder name. */
  function ParseArchiveName(file: string): (r: Option<(nat, DateTime)>)
    ensures r.Some? ==> r.value.1.Valid()
  {
    if |file| < |ARCHIVE_EXT| || file[|file| - |ARCHIVE_EXT|..] != ARCHIVE_EXT then None
    else ParseFolderName(file[..|file| - |ARCHIVE_EXT|])
  }

  /** Every archive name the parser accepts is the name of an archive made
      for what it returns. */
  lemma ArchiveNameParseSound(file: string)
    ensures ParseArchiveName(file).Some? ==>
      ArchiveName(ParseArchiveName(file).value.0, ParseArchiveName(file).value.1) == file
  {
    if ParseArchiveName(file).Some? {
      var folder := file[..|file| - |ARCHIVE_EXT|];
      FolderNameParseSound(folder);
      assert file == folder + file[|file| - |ARCHIVE_EXT|..];
    }
  }
}
