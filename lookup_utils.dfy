/** The engine's reader of the lookup table the packer writes: one
    `LookUpEntry` per line of `lookup.csv`, from the five comma-separated
    fields name, pack, index, hash and size. */
module LookUpUtils {
  import opened Bytes
  import opened Wrappers
  import opened Numerals
  import opened ConvertUtils
  import opened FileUtils
  import opened Core
  import opened Manifest
  import opened Packer

  datatype LookUpEntry = LookUpEntry(
    originalName: string,
    packName: string,
    index: u32,
    hash: u32,
    size: u32)

  /** `s.c_str()` as `strcmp` sees it: the characters before the first NUL. */
  function CString(s: string): (r: string)
    ensures |r| <= |s| && r == s[..|r|]
    ensures '\0' !in r
    ensures |r| < |s| ==> s[|r|] == '\0'
  {
    if s == [] || s[0] == '\0' then "" else [s[0]] + CString(s[1..])
  }

  /** `std::stoi`, assigned to a `uint32_t` field. */
  function FieldValue(field: string): u32 {
    ToU32(StringToInt(field))
  }

  /** The entry the loop builds from five or more fields; every number,
      the hash included, is read as decimal. */
  function EntryOfFields(fields: seq<string>): (e: LookUpEntry)
    requires |fields| >= 5
    ensures e.originalName == fields[0] && e.packName == fields[1]
    ensures e.index == FieldValue(fields[2]) && e.hash == FieldValue(fields[3]) && e.size == FieldValue(fields[4])
  {
    LookUpEntry(fields[0], fields[1], FieldValue(fields[2]), FieldValue(fields[3]), FieldValue(fields[4]))
  }

  /** `n` copies of `x`. */
  function Copies(x: LookUpEntry, n: nat): (r: seq<LookUpEntry>)
    ensures |r| == n && forall i :: 0 <= i < n ==> r[i] == x
  {
    if n == 0 then [] else Copies(x, n - 1) + [x]
  }

  /** What `LoadLookupTable` returns for the text `fileData`: the fields
      are those of the whole text, so every line yields the same entry, or
      none when the whole text has fewer than five fields. */
  function AsWritten(fileData: string): (r: seq<LookUpEntry>)
    ensures |r| <= |Split(fileData, '\n')|
  {
    var lines, fields := Split(fileData, '\n'), Split(fileData, ',');
    if |fields| < 5 then [] else Copies(EntryOfFields(fields), |lines|)
  }

  /** The loop's result after the lines `lines`, skips included. */
  ghost function Loaded(lines: seq<string>, fields: seq<string>): seq<LookUpEntry> {
    if lines == [] then []
    else
      var init, line := lines[..|lines| - 1], lines[|lines| - 1];
      Loaded(init, fields) + (if CString(line) == "\n" || |fields| < 5 then [] else [EntryOfFields(fields)])
  }

  /** The skip test never fires: a line `getline` returns holds no line
      break, so its C string is not "\n". */
  lemma {:induction false} LoadedIsAsWritten(lines: seq<string>, fields: seq<string>)
    requires forall i :: 0 <= i < |lines| ==> '\n' !in lines[i]
    ensures Loaded(lines, fields) == if |fields| < 5 then [] else Copies(EntryOfFields(fields), |lines|)
  {
    if lines != [] {
      var init, line := lines[..|lines| - 1], lines[|lines| - 1];
      LoadedIsAsWritten(init, fields);
      BreakFreeNotSkipped(line);
    }
  }

  lemma BreakFreeNotSkipped(line: string)
    requires '\n' !in line
    ensures CString(line) != "\n"
  {
  }

  lemma PrefixStep(lines: seq<string>, i: nat)
    requires i < |lines|
    ensures lines[..i + 1] == lines[..i] + [lines[i]]
  {
  }

  /** `LoadLookupTable`, given the text of `lookup.csv`. */
  method LoadLookupTable(fileData: string) returns (result: seq<LookUpEntry>)
    ensures result == AsWritten(fileData)
  {
    var lines := SplitStringByChar(fileData, '\n');
    ghost var fields := Split(fileData, ',');
    result := [];
    for i := 0 to |lines|
      invariant result == Loaded(lines[..i], fields)
    {
      var line := lines[i];
      PrefixStep(lines, i);
      if CString(line) == "\n" {
        continue;
      }
      var details := SplitStringByChar(fileData, ',');
      if |details| < 5 {
        continue;
      }
      var entry := LookUpEntry(details[0], details[1], FieldValue(details[2]), FieldValue(details[3]), FieldValue(details[4]));
      result := result + [entry];
    }
    assert lines[..|lines|] == lines;
    SplitPiecesAvoidDelimiter(fileData, '\n');
    LoadedIsAsWritten(lines, fields);
  }

  // ---------------------------------------------------------------------
  // What the packer's rows read back as

  /** The text the packer writes starts with its first row. */
  lemma {:induction false} LookupTextFront(es: seq<Entry>)
    requires es != []
    ensures LookupText(es) == Row(es[0]) + LookupText(es[1..])
  {
    if |es| > 1 {
      var init, tail, last := es[..|es| - 1], es[1..], es[|es| - 1];
      LookupTextFront(init);
      assert tail[..|tail| - 1] == init[1..] && tail[|tail| - 1] == last;
      ConcatAssoc(Row(es[0]), LookupText(init[1..]), Row(last));
    } else {
      assert es[1..] == [];
    }
  }

  lemma ConcatAssoc(a: string, b: string, c: string)
    ensures (a + b) + c == a + (b + c)
  {
  }

  /** A row followed by anything splits at its first four commas. */
  lemma RowThenFields(e: Entry, rest: string)
    requires ',' !in e.originalName && ',' !in e.packName && ',' !in e.hash
    ensures Split(RowLine(e) + rest, ',')
      == [e.originalName, e.packName, Decimal(e.index), e.hash] + Split(Decimal(e.originalSize) + rest, ',')
  {
    var d1, d2 := Decimal(e.index), Decimal(e.originalSize);
    DigitsHoldNoComma(d1);
    var tail := d2 + rest;
    assert RowLine(e) + rest == e.originalName + [','] + (e.packName + [','] + (d1 + [','] + (e.hash + [','] + tail)));
    SplitPieceThen(e.originalName, ',', e.packName + [','] + (d1 + [','] + (e.hash + [','] + tail)));
    SplitPieceThen(e.packName, ',', d1 + [','] + (e.hash + [','] + tail));
    SplitPieceThen(d1, ',', e.hash + [','] + tail);
    SplitPieceThen(e.hash, ',', tail);
  }

  /** The first five comma fields of a lookup text are those of its first
      row, the last of them running on into the next rows. */
  lemma WholeTextFields(es: seq<Entry>)
    requires es != []
    requires ',' !in es[0].originalName && ',' !in es[0].packName && ',' !in es[0].hash
    ensures var fields := Split(LookupText(es), ',');
      && |fields| >= 5
      && fields[0] == es[0].originalName && fields[1] == es[0].packName
      && fields[2] == Decimal(es[0].index) && fields[3] == es[0].hash
  {
    var e, rest := es[0], "\n" + LookupText(es[1..]);
    TextAfterFirstRow(es);
    RowThenFields(e, rest);
    var last := Split(Decimal(e.originalSize) + rest, ',');
    SplitEmpty(Decimal(e.originalSize) + rest, ',');
    assert Split(LookupText(es), ',') == [e.originalName, e.packName, Decimal(e.index), e.hash] + last;
  }

  lemma TextAfterFirstRow(es: seq<Entry>)
    requires es != []
    ensures LookupText(es) == RowLine(es[0]) + ("\n" + LookupText(es[1..]))
  {
    LookupTextFront(es);
  }

  /** Loading what the packer wrote for `es` gives one entry per row, but
      each of them names the first row's file and pack: the other rows are
      lost. */
  lemma AsWrittenRepeatsFirstRow(es: seq<Entry>)
    requires es != [] && NoLineBreaks(es)
    requires ',' !in es[0].originalName && ',' !in es[0].packName && ',' !in es[0].hash
    ensures |AsWritten(LookupText(es))| == |es|
    ensures forall k :: 0 <= k < |es| ==>
      AsWritten(LookupText(es))[k].originalName == es[0].originalName
      && AsWritten(LookupText(es))[k].packName == es[0].packName
  {
    LookupLines(es);
    WholeTextFields(es);
  }

  /** Two files `a` and `b` packed together: `b` is nowhere in the loaded
      table. */
  lemma SecondRowLost()
    ensures var es := [Entry("a", "p", "1f", 0, 10), Entry("b", "p", "2e", 1, 20)];
      && |AsWritten(LookupText(es))| == 2
      && forall k :: 0 <= k < 2 ==> AsWritten(LookupText(es))[k].originalName == "a"
  {
    var es := [Entry("a", "p", "1f", 0, 10), Entry("b", "p", "2e", 1, 20)];
    forall k | 0 <= k < |es| ensures '\n' !in RowLine(es[k]) {
      DigitsHoldNoLineBreak(Decimal(es[k].index));
      DigitsHoldNoLineBreak(Decimal(es[k].originalSize));
    }
    AsWrittenRepeatsFirstRow(es);
  }

  lemma DigitsHoldNoLineBreak(d: string)
    requires AllDigits(d, 16)
    ensures '\n' !in d
  {
  }

  /** The packer writes the hash in hexadecimal and the loader reads it as
      decimal: the hash 0x1f is written as "1f" and read back as 1. */
  lemma HashReadAsDecimal()
    ensures Hex(31) == "1f"
    ensures EntryOfFields(["a", "p", "0", Hex(31), "10"]).hash == 1
  {
    assert Format(1, 16) == "1";
    assert Format(31, 16) == Format(1, 16) + [DigitChar(15)];
    var u := "1f";
    assert SkipSpace(u) == u;
    assert DigitRun(u[1..]) == 0;
    assert DigitRun(u) == 1;
    assert u[..1] == "1" && Value("1", 10) == 1 by {
      assert "1"[..0] == "";
    }
  }

  /** A text starting with a digit has no white space or sign in front:
      `std::stoi` reads its leading decimal digits, or fails on none. */
  lemma StringToIntOfDigitStart(s: string)
    requires s != [] && IsDigit(s[0], 16)
    ensures var k := DigitRun(s);
      StringToInt(s) == if k == 0 || Value(s[..k], 10) > INT_MAX then 0 else Value(s[..k], 10)
  {
    assert SkipSpace(s) == s;
  }

  /** The leading decimal digits of a hash's hexadecimal text are worth
      less than the hash once it is 10 or more. */
  lemma HexDecimalPrefixBelow(h: u32)
    requires h >= 10 && DigitRun(Hex(h)) > 0
    ensures Value(Hex(h)[..DigitRun(Hex(h))], 10) < h
  {
    var s := Hex(h);
    var k := DigitRun(s);
    ValueOfFormat(h, 16);
    assert DigitValue(s[0]) >= 1;
    DecimalAtMostHex(s[..k]);
    if k < |s| {
      PrefixBelowWhole(s, k);
    } else {
      assert s[..k] == s;
      if |s| >= 2 {
        DecimalBelowHex(s);
      }
    }
  }

  /** Cutting off trailing base-16 digits after a non-zero first digit
      makes the number strictly smaller. */
  lemma PrefixBelowWhole(s: string, k: nat)
    requires 0 < k < |s| && DigitValue(s[0]) >= 1
    ensures Value(s[..k], 16) < Value(s, 16)
  {
    var init := s[..|s| - 1];
    assert init[..k] == s[..k];
    ValuePrefixAtMost(init, k, 16);
    ValuePrefixAtMost(s[..k], 1, 16);
    assert s[..k][..1] == s[..1];
    ValueOfFirst(s, 16);
    assert Value(init, 16) >= 1;
  }

  /** In general: the loader gets a hash back exactly when it is below 10,
      the hashes whose hexadecimal and decimal texts coincide. From 10 up
      the text is either a letter, read as no number, or starts with fewer
      decimal digits than it has, or is all decimal digits but worth more
      in base 16 than in base 10. */
  lemma HashReadBackIff(h: u32)
    ensures FieldValue(Hex(h)) == h <==> h < 10
  {
    var s := Hex(h);
    if h < 10 {
      assert s == Decimal(h);
      StringToIntOfDecimal(h);
    } else {
      StringToIntOfDigitStart(s);
      if DigitRun(s) > 0 {
        HexDecimalPrefixBelow(h);
      }
    }
  }

  // ---------------------------------------------------------------------
  // The loader as evidently intended

  /** Length of the longest prefix of hexadecimal digits. */
  function HexRun(s: string): (k: nat)
    ensures k <= |s| && AllDigits(s[..k], 16)
    ensures k < |s| ==> !IsDigit(s[k], 16)
  {
    if s != [] && IsDigit(s[0], 16) then 1 + HexRun(s[1..]) else 0
  }

  /** The value of the leading hexadecimal digits, as a `uint32_t`. */
  function ParseHex(s: string): u32 {
    ToU32(Value(s[..HexRun(s)], 16))
  }

  lemma {:induction false} HexRunOfDigits(d: string)
    requires AllDigits(d, 16)
    ensures HexRun(d) == |d|
  {
    if d != [] {
      HexRunOfDigits(d[1..]);
    }
  }

  /** A hash written in hexadecimal reads back as itself. */
  lemma ParseHexOfHex(h: u32)
    ensures ParseHex(Hex(h)) == h
  {
    HexRunOfDigits(Hex(h));
    assert Hex(h)[..|Hex(h)|] == Hex(h);
    ValueOfFormat(h, 16);
  }

  /** One line's entry: the line's own fields, the hash in hexadecimal;
      none for a line with fewer than five fields. */
  function ParseRow(line: string): (r: Option<LookUpEntry>)
    ensures r.Some? <==> |Split(line, ',')| >= 5
  {
    var fields := Split(line, ',');
    if |fields| < 5 then None
    else Some(LookUpEntry(fields[0], fields[1], FieldValue(fields[2]), ParseHex(fields[3]), FieldValue(fields[4])))
  }

  /** The entries the corrected loop builds from `lines`. */
  function Rows(lines: seq<string>): (r: seq<LookUpEntry>)
    ensures |r| <= |lines|
  {
    if lines == [] then []
    else
      var init, line := lines[..|lines| - 1], lines[|lines| - 1];
      Rows(init) + (if CString(line) == "\n" then [] else match ParseRow(line) case None => [] case Some(e) => [e])
  }

  /** `LoadLookupTable` with the fields split from each line and the hash
      read in hexadecimal. */
  method LoadLookupTableFixed(fileData: string) returns (result: seq<LookUpEntry>)
    ensures result == Rows(Split(fileData, '\n'))
  {
    var lines := SplitStringByChar(fileData, '\n');
    result := [];
    for i := 0 to |lines|
      invariant result == Rows(lines[..i])
    {
      var line := lines[i];
      PrefixStep(lines, i);
      if CString(line) == "\n" {
        continue;
      }
      var details := SplitStringByChar(line, ',');
      if |details| < 5 {
        continue;
      }
      var entry := LookUpEntry(details[0], details[1], FieldValue(details[2]), ParseHex(details[3]), FieldValue(details[4]));
      result := result + [entry];
    }
    assert lines[..|lines|] == lines;
  }

  /** A row the loader can read back: no comma or line break in name, pack
      or hash, and index and size small enough for `std::stoi`. */
  predicate Readable(e: Entry) {
    && ',' !in e.originalName && ',' !in e.packName && ',' !in e.hash
    && '\n' !in e.originalName && '\n' !in e.packName && '\n' !in e.hash
    && e.index <= INT_MAX && e.originalSize <= INT_MAX
  }

  /** The entry a readable row stands for. */
  function ReadBackOf(e: Entry): LookUpEntry {
    LookUpEntry(e.originalName, e.packName, e.index, ParseHex(e.hash), e.originalSize)
  }

  lemma ReadableRow(e: Entry)
    requires Readable(e)
    ensures '\n' !in RowLine(e)
    ensures ParseRow(RowLine(e)) == Some(ReadBackOf(e))
  {
    DigitsHoldNoLineBreak(Decimal(e.index));
    DigitsHoldNoLineBreak(Decimal(e.originalSize));
    RowFields(e);
    StringToIntOfDecimal(e.index);
    StringToIntOfDecimal(e.originalSize);
  }

  /** The entries readable rows stand for, one per row in order. */
  function ReadBacks(es: seq<Entry>): (r: seq<LookUpEntry>)
    ensures |r| == |es|
    ensures forall k :: 0 <= k < |es| ==> r[k] == ReadBackOf(es[k])
  {
    if es == [] then [] else ReadBacks(es[..|es| - 1]) + [ReadBackOf(es[|es| - 1])]
  }

  lemma {:induction false} RowsOfRowLines(es: seq<Entry>)
    requires forall k :: 0 <= k < |es| ==> Readable(es[k])
    ensures Rows(RowLines(es)) == ReadBacks(es)
  {
    if es != [] {
      var init, last := es[..|es| - 1], es[|es| - 1];
      RowsOfRowLines(init);
      ReadableRow(last);
      BreakFreeNotSkipped(RowLine(last));
      var lines := RowLines(es);
      assert lines[..|lines| - 1] == RowLines(init) && lines[|lines| - 1] == RowLine(last);
    }
  }

  /** Round trip: the corrected loader reads back, in order, one entry per
      row the packer wrote, with the hash the packer computed. */
  lemma ReadBack(es: seq<Entry>)
    requires forall k :: 0 <= k < |es| ==> Readable(es[k])
    ensures Rows(Split(LookupText(es), '\n')) == ReadBacks(es)
  {
    forall k | 0 <= k < |es|
      ensures '\n' !in RowLine(es[k])
    {
      ReadableRow(es[k]);
    }
    LookupLines(es);
    RowsOfRowLines(es);
  }

  /** For the rows `PackData` returns for a manifest, the corrected loader
      gives back each file's name, pack, index, checksum and size. */
  lemma PackedRowsReadBack(fs: Store, path: Path, crc32c: seq<byte> -> u32)
    requires forall k :: 0 <= k < |ManifestEntries(fs, path, crc32c)| ==> Readable(ManifestEntries(fs, path, crc32c)[k])
    ensures var es := ManifestEntries(fs, path, crc32c);
      var rows := Rows(Split(LookupText(es), '\n'));
      && |rows| == |es|
      && forall k :: 0 <= k < |es| ==>
        rows[k] == LookUpEntry(es[k].originalName, es[k].packName, es[k].index,
                               Checksum(fs, es[k].originalName, crc32c), es[k].originalSize)
  {
    var es := ManifestEntries(fs, path, crc32c);
    ReadBack(es);
    EntriesRecordFiles(ManifestLines(fs, path), fs, crc32c);
    forall k | 0 <= k < |es|
      ensures ParseHex(es[k].hash) == Checksum(fs, es[k].originalName, crc32c)
    {
      ParseHexOfHex(Checksum(fs, es[k].originalName, crc32c));
    }
  }
}
