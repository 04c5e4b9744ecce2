/** The asset packer: `PackData` turns one pack definition file into one
    archive per pack and returns its rows of the lookup table; `main` packs
    the texture and material definitions and writes the lookup table. */
module Packer {
  import opened Bytes
  import opened Numerals
  import opened ConvertUtils
  import opened FileUtils
  import opened Core
  import opened Manifest
  import opened ArchiveFormat

  // ---------------------------------------------------------------------
  // The lookup table text

  /** One row, `name,pack,index,hash,size` and a line break, the numbers in
      decimal. */
  function Row(e: Entry): string {
    RowLine(e) + "\n"
  }

  function RowLine(e: Entry): string {
    e.originalName + "," + e.packName + "," + Decimal(e.index) + "," + e.hash + "," + Decimal(e.originalSize)
  }

  function LookupText(es: seq<Entry>): string {
    if es == [] then "" else LookupText(es[..|es| - 1]) + Row(es[|es| - 1])
  }

  /** No entry has a line break in its name, pack or hash. */
  predicate NoLineBreaks(es: seq<Entry>) {
    forall k :: 0 <= k < |es| ==> '\n' !in RowLine(es[k])
  }

  /** The rows without their line breaks, one per entry in order. */
  function RowLines(es: seq<Entry>): (lines: seq<string>)
    ensures |lines| == |es|
    ensures forall k :: 0 <= k < |es| ==> lines[k] == RowLine(es[k])
  {
    if es == [] then [] else RowLines(es[..|es| - 1]) + [RowLine(es[|es| - 1])]
  }

  /** Reading the text back line by line gives one line per entry, in
      order. */
  lemma {:induction false} LookupLines(es: seq<Entry>)
    requires NoLineBreaks(es)
    ensures Split(LookupText(es), '\n') == RowLines(es)
  {
    if es != [] {
      var init, last := es[..|es| - 1], es[|es| - 1];
      assert NoLineBreaks(init) by {
        assert forall k :: 0 <= k < |init| ==> init[k] == es[k];
      }
      LookupLines(init);
      SplitAppendLine(LookupText(init), RowLine(last), '\n');
      assert LookupText(es) == LookupText(init) + RowLine(last) + "\n";
    }
  }

  /** The fields of a row, when name, pack and hash hold no comma. */
  lemma RowFields(e: Entry)
    requires ',' !in e.originalName && ',' !in e.packName && ',' !in e.hash
    ensures Split(RowLine(e), ',') == [e.originalName, e.packName, Decimal(e.index), e.hash, Decimal(e.originalSize)]
  {
    var d1, d2 := Decimal(e.index), Decimal(e.originalSize);
    assert ',' !in d1 && ',' !in d2 by {
      DigitsHoldNoComma(d1);
      DigitsHoldNoComma(d2);
    }
    var line := RowLine(e);
    assert line == e.originalName + [','] + (e.packName + [','] + (d1 + [','] + (e.hash + [','] + d2)));
    SplitPieceThen(e.originalName, ',', e.packName + [','] + (d1 + [','] + (e.hash + [','] + d2)));
    SplitPieceThen(e.packName, ',', d1 + [','] + (e.hash + [','] + d2));
    SplitPieceThen(d1, ',', e.hash + [','] + d2);
    SplitPieceThen(e.hash, ',', d2);
    SplitLastPiece(d2, ',');
  }

  lemma DigitsHoldNoComma(d: string)
    requires AllDigits(d, 16)
    ensures ',' !in d
  {
  }

  method LookupTable(es: seq<Entry>) returns (text: string)
    ensures text == LookupText(es)
  {
    text := "";
    for k := 0 to |es|
      invariant text == LookupText(es[..k])
    {
      var entry := es[k];
      var row := entry.originalName + "," + entry.packName + "," + Decimal(entry.index) + ","
                 + entry.hash + "," + Decimal(entry.originalSize) + "\n";
      assert row == Row(entry);
      assert es[..k + 1][..k] == es[..k];
      text := text + row;
    }
    assert es[..|es|] == es;
  }

  // ---------------------------------------------------------------------
  // The loops of PackData

  /** The `while (std::getline(file, line))` loop; `std::getline` yields
      the pieces `SplitStringByChar(text, '\n')` yields. */
  method ParseManifest(fsys: FileSystem, path: Path, crc32c: seq<byte> -> u32) returns (entries: seq<Entry>)
    ensures entries == ManifestEntries(fsys.files, path, crc32c)
  {
    entries := [];
    var currentPackName := "";
    var currentIndex: u32 := 0;
    var isOpen := fsys.FileExists(path);
    if isOpen {
      var data := fsys.ReadBinaryData(path);
      var lines := SplitStringByChar(BytesText(data), '\n');
      for i := 0 to |lines|
        invariant Parsed(entries, Cursor(currentPackName, currentIndex), lines[..i], fsys.files, crc32c)
      {
        var line := lines[i];
        assert lines[..i + 1] == lines[..i] + [line];
        ParseStep(entries, Cursor(currentPackName, currentIndex), lines[..i], line, fsys.files, crc32c);
        // an empty line has `line[0] == '\0'` and is read as a file name
        if |line| > 0 && line[0] == '$' {
          currentPackName := line[1..];
          currentIndex := 0;
          continue;
        }
        var hash := fsys.HashFile(line, crc32c);
        var size := fsys.FileSize(line);
        var entry := Entry(line, currentPackName, Hex(hash), currentIndex, ToU32(size));
        entries := entries + [entry];
        currentIndex := Inc32(currentIndex);
      }
      assert lines[..|lines|] == lines;
    }
  }

  /** `v_Entries`, `currentPackName` and `currentIndex` after `lines`. */
  ghost predicate Parsed(entries: seq<Entry>, c: Cursor, lines: seq<string>, fs: Store, crc32c: seq<byte> -> u32) {
    entries == Entries(lines, fs, crc32c) && c == CursorAfter(lines)
  }

  lemma ParseStep(entries: seq<Entry>, c: Cursor, lines: seq<string>, line: string, fs: Store,
                  crc32c: seq<byte> -> u32)
    requires Parsed(entries, c, lines, fs, crc32c)
    ensures IsMarker(line) ==> Parsed(entries, Cursor(line[1..], 0), lines + [line], fs, crc32c)
    ensures !IsMarker(line) ==>
      Parsed(entries + [MakeEntry(line, c, fs, crc32c)], Cursor(c.pack, Inc32(c.index)), lines + [line], fs, crc32c)
  {
    EntriesAppend(lines, line, fs, crc32c);
  }

  /** `archivesMap`: the entries of each pack, in manifest order. */
  method GroupByPack(es: seq<Entry>) returns (archives: map<string, seq<Entry>>)
    ensures archives.Keys == PackNames(es)
    ensures forall p :: p in archives ==> archives[p] == Group(es, p)
  {
    archives := map[];
    for k := 0 to |es|
      invariant GroupsOf(archives, es[..k])
    {
      var entry := es[k];
      GroupsStepAt(archives, es, k);
      // `archivesMap[name]` inserts an empty group the first time
      var group := if entry.packName in archives then archives[entry.packName] else [];
      archives := archives[entry.packName := group + [entry]];
    }
    assert es[..|es|] == es;
  }

  ghost predicate GroupsOf(archives: map<string, seq<Entry>>, es: seq<Entry>) {
    archives.Keys == PackNames(es) && forall p :: p in archives ==> archives[p] == Group(es, p)
  }

  lemma GroupsStepAt(archives: map<string, seq<Entry>>, es: seq<Entry>, k: nat)
    requires k < |es| && GroupsOf(archives, es[..k])
    ensures var group := if es[k].packName in archives then archives[es[k].packName] else [];
      GroupsOf(archives[es[k].packName := group + [es[k]]], es[..k + 1])
  {
    assert es[..k + 1] == es[..k] + [es[k]];
    GroupsStep(archives, es[..k], es[k]);
  }

  lemma GroupsStep(archives: map<string, seq<Entry>>, es: seq<Entry>, e: Entry)
    requires GroupsOf(archives, es)
    ensures var group := if e.packName in archives then archives[e.packName] else [];
      GroupsOf(archives[e.packName := group + [e]], es + [e])
  {
    var name := e.packName;
    GroupAppend(es, e, name);
    if name !in archives {
      GroupNonEmpty(es, name);
    }
    var archives' := archives[name := (if name in archives then archives[name] else []) + [e]];
    forall p | p in archives' && p != name
      ensures archives'[p] == Group(es + [e], p)
    {
      GroupAppend(es, e, p);
    }
  }

  /** `numFilesMap`: the number of entries of each pack, as a `uint32_t`. */
  method CountByPack(es: seq<Entry>) returns (counts: map<string, u32>)
    ensures counts.Keys == PackNames(es)
    ensures forall p :: p in counts ==> counts[p] == |Group(es, p)| % U32_LIMIT
  {
    counts := map[];
    for k := 0 to |es|
      invariant CountsOf(counts, es[..k])
    {
      var entry := es[k];
      assert es[..k + 1] == es[..k] + [entry];
      CountStep(counts, es[..k], entry);
      if entry.packName !in counts {
        counts := counts[entry.packName := 1];
      } else {
        counts := counts[entry.packName := Inc32(counts[entry.packName])];
      }
    }
    assert es[..|es|] == es;
  }

  ghost predicate CountsOf(counts: map<string, u32>, es: seq<Entry>) {
    counts.Keys == PackNames(es) && forall p :: p in counts ==> counts[p] == |Group(es, p)| % U32_LIMIT
  }

  lemma CountStep(counts: map<string, u32>, es: seq<Entry>, e: Entry)
    requires CountsOf(counts, es)
    ensures e.packName !in counts ==> CountsOf(counts[e.packName := 1], es + [e])
    ensures e.packName in counts ==> CountsOf(counts[e.packName := Inc32(counts[e.packName])], es + [e])
  {
    var name := e.packName;
    GroupAppend(es, e, name);
    if name !in counts {
      GroupNonEmpty(es, name);
      CountsUpdate(counts, es, e, 1);
    } else {
      Inc32OfWrapped(|Group(es, name)|);
      CountsUpdate(counts, es, e, Inc32(counts[name]));
    }
  }

  /** Setting the new entry's pack to its new count keeps every other
      pack's count. */
  lemma CountsUpdate(counts: map<string, u32>, es: seq<Entry>, e: Entry, n: u32)
    requires CountsOf(counts, es)
    requires n == |Group(es + [e], e.packName)| % U32_LIMIT
    ensures CountsOf(counts[e.packName := n], es + [e])
  {
    var counts' := counts[e.packName := n];
    GroupAppend(es, e, e.packName);
    forall p | p in counts' && p != e.packName
      ensures counts'[p] == |Group(es + [e], p)| % U32_LIMIT
    {
      GroupAppend(es, e, p);
    }
  }

  /** Each pack's file is truncated to its 4-byte entry count, packs taken
      in `std::map` order. */
  method WriteCounts(fsys: FileSystem, counts: map<string, u32>)
    modifies fsys
    ensures forall q :: q in counts ==> q in fsys.files && fsys.files[q] == LE32(counts[q])
    ensures forall q :: q !in counts ==> SameFile(fsys.files, old(fsys.files), q)
  {
    var remaining := counts.Keys;
    while remaining != {}
      invariant remaining <= counts.Keys
      invariant forall q :: q in counts && q !in remaining ==> q in fsys.files && fsys.files[q] == LE32(counts[q])
      invariant forall q :: q !in counts || q in remaining ==> SameFile(fsys.files, old(fsys.files), q)
      decreases |remaining|
    {
      ghost var first := FirstKey(remaining);
      var p :| p in remaining && IsFirstKey(p, remaining);
      fsys.MakeFileWithContent(p, LE32(counts[p]));
      remaining := remaining - {p};
    }
  }

  /** `std::sort` of a pack's entries with `Entry::operator<`. */
  method SortByIndex(a: array<Entry>)
    modifies a
    ensures SortedByIndex(a[..])
    ensures multiset(a[..]) == multiset(old(a[..]))
  {
    var i := 0;
    while i < a.Length
      invariant 0 <= i <= a.Length
      invariant SortedByIndex(a[..i])
      invariant multiset(a[..]) == multiset(old(a[..]))
    {
      InsertionStart(a[..], i);
      var j := i;
      while j > 0 && Less(a[j], a[j - 1])
        invariant 0 <= j <= i
        invariant multiset(a[..]) == multiset(old(a[..]))
        invariant Inserting(a[..], j, i)
      {
        InsertionSwap(a[..], j, i);
        Swap(a, j - 1, j);
        j := j - 1;
      }
      InsertionDone(a[..], j, i);
      i := i + 1;
    }
    assert a[..a.Length] == a[..];
  }

  method Swap(a: array<Entry>, i: nat, j: nat)
    requires i < a.Length && j < a.Length
    modifies a
    ensures a[..] == old(a[..])[i := old(a[j])][j := old(a[i])]
    ensures multiset(a[..]) == multiset(old(a[..]))
  {
    a[i], a[j] := a[j], a[i];
  }

  /** Halfway through inserting `s[j]` into the sorted `s[..i]`: the part
      before j and the part from j to i are sorted, and the first part
      comes before the second part beyond j. */
  ghost predicate Inserting(s: seq<Entry>, j: nat, i: nat) {
    && j <= i < |s|
    && SortedByIndex(s[..j])
    && SortedByIndex(s[j..i + 1])
    && forall k, l :: 0 <= k < j < l <= i ==> s[k].index <= s[l].index
  }

  lemma InsertionStart(s: seq<Entry>, i: nat)
    requires i < |s| && SortedByIndex(s[..i])
    ensures Inserting(s, i, i)
  {
  }

  lemma InsertionSwap(s: seq<Entry>, j: nat, i: nat)
    requires Inserting(s, j, i) && 0 < j && Less(s[j], s[j - 1])
    ensures Inserting(s[j - 1 := s[j]][j := s[j - 1]], j - 1, i)
  {
    var t := s[j - 1 := s[j]][j := s[j - 1]];
    assert t[..j - 1] == s[..j - 1];
    forall k, l | j - 1 <= k < l <= i
      ensures t[k].index <= t[l].index
    {
      if k == j - 1 && l > j {
        assert s[j..i + 1][0].index <= s[j..i + 1][l - j].index;
      } else if k >= j {
        assert s[k].index <= s[j - 1].index || true;
        if k > j {
          assert s[j..i + 1][k - j].index <= s[j..i + 1][l - j].index;
        } else {
          assert t[k] == s[j - 1];
        }
      }
    }
    assert SortedByIndex(t[j - 1..i + 1]);
  }

  lemma InsertionDone(s: seq<Entry>, j: nat, i: nat)
    requires Inserting(s, j, i) && (j == 0 || !Less(s[j], s[j - 1]))
    ensures SortedByIndex(s[..i + 1])
  {
    forall k, l | 0 <= k < l <= i
      ensures s[k].index <= s[l].index
    {
      if l < j {
        assert s[..j][k].index <= s[..j][l].index;
      } else if k >= j {
        assert s[j..i + 1][k - j].index <= s[j..i + 1][l - j].index;
      } else if l > j {
      } else {
        if k < j - 1 {
          assert s[..j][k].index <= s[..j][j - 1].index;
        }
      }
    }
  }

  /** One turn of the archive loop: sort the pack's entries, append their
      directory records, then their files' contents. */
  method WriteArchive(fsys: FileSystem, p: string, group: seq<Entry>) returns (sorted: seq<Entry>)
    requires forall e :: e in group ==> e.packName == p
    requires p in fsys.files
    modifies fsys
    ensures SortedByIndex(sorted) && multiset(sorted) == multiset(group)
    ensures forall q :: q != p ==> SameFile(fsys.files, old(fsys.files), q)
    ensures p in fsys.files
    ensures var before := old(fsys.files)[p] + Directory(sorted, |sorted|);
      |before| <= |fsys.files[p]| && fsys.files[p][..|before|] == before
    ensures fsys.files[p][..|old(fsys.files)[p]|] == old(fsys.files)[p]
    ensures (forall e :: e in group ==> e.originalName != p) ==>
      fsys.files[p] == old(fsys.files)[p] + Directory(sorted, |sorted|) + Payloads(sorted, |sorted|, old(fsys.files))
  {
    var a := new Entry[|group|](i requires 0 <= i < |group| => group[i]);
    assert a[..] == group;
    SortByIndex(a);
    sorted := a[..];
    forall e | e in sorted
      ensures e in group
    {
      assert e in multiset(sorted);
    }
    AppendDirectory(fsys, p, sorted);
    ghost var headed := fsys.files;
    AppendPayloads(fsys, p, sorted);
    PrefixOfPrefix(old(fsys.files)[p], Directory(sorted, |sorted|), headed[p], fsys.files[p]);
    forall q | q != p
      ensures SameFile(fsys.files, old(fsys.files), q)
    {
      assert SameFile(fsys.files, headed, q);
    }
    if forall e :: e in group ==> e.originalName != p {
      forall j | 0 <= j < |sorted|
        ensures SameFile(headed, old(fsys.files), sorted[j].originalName)
      {
        assert sorted[j] in sorted;
      }
      PayloadsOnAgreeingStores(sorted, |sorted|, headed, old(fsys.files));
    }
  }

  lemma PrefixOfPrefix(a: seq<byte>, b: seq<byte>, c: seq<byte>, d: seq<byte>)
    requires c == a + b
    requires |c| <= |d| && d[..|c|] == c
    ensures |a| <= |d| && d[..|a|] == a
  {
    assert d[..|a|] == d[..|c|][..|a|];
  }

  /** The header loop: one record per entry, `startPos` and `prevFileSize`
      carried from each entry to the next. */
  method AppendDirectory(fsys: FileSystem, p: string, sorted: seq<Entry>)
    requires forall e :: e in sorted ==> e.packName == p
    requires p in fsys.files
    modifies fsys
    ensures fsys.files == old(fsys.files)[p := old(fsys.files)[p] + Directory(sorted, |sorted|)]
  {
    var n := |sorted|;
    var startPos: u64 := 0;
    var prevFileSize: u32 := 0;
    assert old(fsys.files)[p] + Directory(sorted, 0) == fsys.files[p];
    assert HeaderWritten(fsys.files, old(fsys.files), p, sorted, 0);
    for k := 0 to n
      invariant HeaderWritten(fsys.files, old(fsys.files), p, sorted, k)
      invariant k == 0 ==> startPos == 0 && prevFileSize == 0
      invariant k > 0 ==> startPos == StartPos(sorted, k - 1) && prevFileSize == sorted[k - 1].originalSize
    {
      var entry := sorted[k];
      assert entry in sorted;
      StartPosStep(sorted, k, startPos, prevFileSize);
      if entry.index == 0 {
        startPos := (4 + 12 * n + 1) % U64_LIMIT;
      } else {
        startPos := (startPos + prevFileSize) % U64_LIMIT;
      }
      prevFileSize := entry.originalSize;
      var entryData := LE64(startPos) + LE32(entry.originalSize);
      ghost var before := fsys.files;
      fsys.AppendDataToFile(entry.packName, entryData);
      HeaderStep(fsys.files, before, old(fsys.files), p, sorted, k);
    }
  }

  /** The value the header loop gives `startPos` for entry k is the one
      the layout records. */
  lemma StartPosStep(g: seq<Entry>, k: nat, startPos: u64, prevFileSize: u32)
    requires k < |g|
    requires k == 0 ==> startPos == 0 && prevFileSize == 0
    requires k > 0 ==> startPos == StartPos(g, k - 1) && prevFileSize == g[k - 1].originalSize
    ensures g[k].index == 0 ==> (4 + 12 * |g| + 1) % U64_LIMIT == StartPos(g, k)
    ensures g[k].index != 0 ==> (startPos + prevFileSize) % U64_LIMIT == StartPos(g, k)
  {
  }

  /** The pack holds what it held before the header loop plus the first
      k records; every other file is as it was. */
  ghost predicate HeaderWritten(fs: Store, fs0: Store, p: string, g: seq<Entry>, k: nat)
    requires p in fs0 && k <= |g|
  {
    fs == fs0[p := fs0[p] + Directory(g, k)]
  }

  lemma HeaderStep(fs: Store, before: Store, fs0: Store, p: string, g: seq<Entry>, k: nat)
    requires p in fs0 && k < |g|
    requires HeaderWritten(before, fs0, p, g, k)
    requires fs == before[p := Content(before, p) + (LE64(StartPos(g, k)) + LE32(g[k].originalSize))]
    ensures HeaderWritten(fs, fs0, p, g, k + 1)
  {
    var record := LE64(StartPos(g, k)) + LE32(g[k].originalSize);
    AppendAfterUpdate(fs, before, fs0, p, fs0[p] + Directory(g, k), record);
    DirectoryStep(fs0[p], g, k);
  }

  /** Appending to a file just written leaves one update of the original. */
  lemma AppendAfterUpdate(fs: Store, before: Store, fs0: Store, p: string, written: seq<byte>, data: seq<byte>)
    requires before == fs0[p := written]
    requires fs == before[p := Content(before, p) + data]
    ensures fs == fs0[p := written + data]
  {
  }

  lemma DirectoryStep(start: seq<byte>, g: seq<Entry>, k: nat)
    requires k < |g|
    ensures start + Directory(g, k) + (LE64(StartPos(g, k)) + LE32(g[k].originalSize)) == start + Directory(g, k + 1)
  {
  }

  /** The data loop: each entry's file, read from the store as it stands,
      appended to the pack. */
  method AppendPayloads(fsys: FileSystem, p: string, sorted: seq<Entry>)
    requires forall e :: e in sorted ==> e.packName == p
    requires p in fsys.files
    modifies fsys
    ensures forall q :: q != p ==> SameFile(fsys.files, old(fsys.files), q)
    ensures p in fsys.files
    ensures |old(fsys.files)[p]| <= |fsys.files[p]| && fsys.files[p][..|old(fsys.files)[p]|] == old(fsys.files)[p]
    ensures (forall e :: e in sorted ==> e.originalName != p) ==>
      fsys.files[p] == old(fsys.files)[p] + Payloads(sorted, |sorted|, old(fsys.files))
  {
    ghost var noAlias := forall e :: e in sorted ==> e.originalName != p;
    for k := 0 to |sorted|
      invariant DataWritten(fsys.files, old(fsys.files), p, sorted, k, noAlias)
    {
      var entry := sorted[k];
      assert entry in sorted;
      var fileData := fsys.ReadBinaryData(entry.originalName);
      ghost var before := fsys.files;
      fsys.AppendDataToFile(entry.packName, fileData);
      DataStep(fsys.files, before, old(fsys.files), p, sorted, k, noAlias, fileData);
    }
  }

  /** Only the pack changed, it still begins with what it held, and while
      no entry reads the pack it holds that plus the first k files. */
  ghost predicate DataWritten(fs: Store, fs0: Store, p: string, g: seq<Entry>, k: nat, noAlias: bool)
    requires k <= |g|
  {
    && (forall q :: q != p ==> SameFile(fs, fs0, q))
    && p in fs && p in fs0
    && |fs0[p]| <= |fs[p]| && fs[p][..|fs0[p]|] == fs0[p]
    && (noAlias ==> fs[p] == fs0[p] + Payloads(g, k, fs0))
  }

  lemma DataStep(fs: Store, before: Store, fs0: Store, p: string, g: seq<Entry>, k: nat, noAlias: bool,
                 data: seq<byte>)
    requires k < |g| && g[k].packName == p
    requires noAlias ==> g[k].originalName != p
    requires DataWritten(before, fs0, p, g, k, noAlias)
    requires data == Content(before, g[k].originalName)
    requires fs == before[p := Content(before, p) + data]
    ensures DataWritten(fs, fs0, p, g, k + 1, noAlias)
  {
    OthersKept(fs, before, fs0, p, before[p] + data);
    PrefixKept(before[p], data, fs0[p]);
    if noAlias {
      assert SameFile(before, fs0, g[k].originalName);
      PayloadsStep(fs0[p], g, k, fs0, before[p], data);
    }
  }

  /** Updating one file keeps every other file equal to the original. */
  lemma OthersKept(fs: Store, before: Store, fs0: Store, p: string, content: seq<byte>)
    requires forall q :: q != p ==> SameFile(before, fs0, q)
    requires fs == before[p := content]
    ensures forall q :: q != p ==> SameFile(fs, fs0, q)
  {
    forall q | q != p
      ensures SameFile(fs, fs0, q)
    {
      assert SameFile(before, fs0, q);
    }
  }

  lemma PayloadsStep(start: seq<byte>, g: seq<Entry>, k: nat, fs0: Store, written: seq<byte>, data: seq<byte>)
    requires k < |g|
    requires written == start + Payloads(g, k, fs0)
    requires data == Content(fs0, g[k].originalName)
    ensures written + data == start + Payloads(g, k + 1, fs0)
  {
    assert Payloads(g, k + 1, fs0) == Payloads(g, k, fs0) + data;
  }

  lemma PrefixKept(s: seq<byte>, data: seq<byte>, prefix: seq<byte>)
    requires |prefix| <= |s| && s[..|prefix|] == prefix
    ensures |prefix| <= |s + data| && (s + data)[..|prefix|] == prefix
  {
    assert (s + data)[..|prefix|] == s[..|prefix|];
  }


  // ---------------------------------------------------------------------
  // PackData and main

  /** No file listed in the manifest is itself one of the packs written. */
  predicate NoAlias(es: seq<Entry>) {
    forall k, j :: 0 <= k < |es| && 0 <= j < |es| ==> es[k].originalName != es[j].packName
  }

  /** `PackData(path)`: returns the lookup rows of the manifest's entries;
      every pack's file starts with its entry count and nothing but the
      packs' files changes; for a well-formed manifest none of whose files
      is a pack, every pack's file is exactly its archive image. */
  method PackData(fsys: FileSystem, path: Path, crc32c: seq<byte> -> u32) returns (result: string)
    modifies fsys
    ensures result == LookupText(ManifestEntries(old(fsys.files), path, crc32c))
    ensures var es := ManifestEntries(old(fsys.files), path, crc32c);
      forall q :: q !in PackNames(es) ==> SameFile(fsys.files, old(fsys.files), q)
    ensures var es := ManifestEntries(old(fsys.files), path, crc32c);
      forall q :: q in PackNames(es) ==>
        q in fsys.files && 4 <= |fsys.files[q]| && fsys.files[q][..4] == LE32(|Group(es, q)| % U32_LIMIT)
    ensures var es := ManifestEntries(old(fsys.files), path, crc32c);
      WellFormed(ManifestLines(old(fsys.files), path)) && NoAlias(es) ==>
        forall q :: q in PackNames(es) ==> fsys.files[q] == ArchiveImage(Group(es, q), old(fsys.files))
  {
    var entries := ParseManifest(fsys, path, crc32c);
    if WellFormed(ManifestLines(fsys.files, path)) {
      GroupsAreConsecutive(ManifestLines(fsys.files, path), fsys.files, crc32c);
    }
    WritePacks(fsys, entries);
    result := LookupTable(entries);
  }

  /** A manifest that cannot be opened yields no rows and names no pack, so
      `PackData` changes no file. */
  lemma MissingManifest(fs: Store, path: Path, crc32c: seq<byte> -> u32)
    requires path !in fs
    ensures LookupText(ManifestEntries(fs, path, crc32c)) == ""
    ensures PackNames(ManifestEntries(fs, path, crc32c)) == {}
  {
  }

  /** The middle of `PackData`: group the entries by pack, write each
      pack's count, then each pack's directory and payloads. */
  method WritePacks(fsys: FileSystem, entries: seq<Entry>)
    modifies fsys
    ensures forall q :: q !in PackNames(entries) ==> SameFile(fsys.files, old(fsys.files), q)
    ensures forall q :: q in PackNames(entries) ==>
      q in fsys.files && 4 <= |fsys.files[q]| && fsys.files[q][..4] == LE32(|Group(entries, q)| % U32_LIMIT)
    ensures (forall q :: ConsecutiveIndices(Group(entries, q))) && NoAlias(entries) ==>
      forall q :: q in PackNames(entries) ==> fsys.files[q] == ArchiveImage(Group(entries, q), old(fsys.files))
  {
    var archivesMap := GroupByPack(entries);
    var numFilesMap := CountByPack(entries);
    WriteCounts(fsys, numFilesMap);
    ghost var counted := fsys.files;
    WriteArchives(fsys, archivesMap);
    if (forall q :: ConsecutiveIndices(Group(entries, q))) && NoAlias(entries) {
      NoAliasGroups(entries);
      ArchiveImages(entries, archivesMap, old(fsys.files), counted, fsys.files);
    }
  }

  /** After the count loop and the archive loop, the pack of each group
      with consecutive indices and files that are no packs is the group's
      archive image, its files read from the store before either loop. */
  lemma ArchiveImages(es: seq<Entry>, archives: map<string, seq<Entry>>, before: Store, counted: Store, fs: Store)
    requires archives.Keys == PackNames(es) && forall q :: q in archives ==> archives[q] == Group(es, q)
    requires forall q :: q in PackNames(es) ==> q in counted && counted[q] == LE32(|Group(es, q)| % U32_LIMIT)
    requires forall q :: q !in PackNames(es) ==> SameFile(counted, before, q)
    requires forall q :: ConsecutiveIndices(Group(es, q))
    requires forall q, e :: e in Group(es, q) ==> e.originalName !in PackNames(es)
    requires forall q :: q in archives ==>
      q in fs && fs[q] == counted[q] + Directory(archives[q], |archives[q]|) + Payloads(archives[q], |archives[q]|, counted)
    ensures forall q :: q in PackNames(es) ==> q in fs && fs[q] == ArchiveImage(Group(es, q), before)
  {
    forall q | q in PackNames(es)
      ensures q in fs && fs[q] == ArchiveImage(Group(es, q), before)
    {
      var g := Group(es, q);
      forall j | 0 <= j < |g|
        ensures SameFile(counted, before, g[j].originalName)
      {
        assert g[j] in g;
      }
      PayloadsOnAgreeingStores(g, |g|, counted, before);
    }
  }

  /** The archive loop: in ascending order of pack name, each pack's group
      is sorted and written after the count already in its file. For groups
      with consecutive indices none of whose files is a pack, each pack
      ends up holding its directory and payloads read from the store as it
      was before the loop. */
  method WriteArchives(fsys: FileSystem, archives: map<string, seq<Entry>>)
    requires forall q :: q in archives ==> q in fsys.files && |fsys.files[q]| == 4
    requires forall q, e :: q in archives && e in archives[q] ==> e.packName == q
    modifies fsys
    ensures forall q :: q !in archives ==> SameFile(fsys.files, old(fsys.files), q)
    ensures forall q :: q in archives ==>
      q in fsys.files && 4 <= |fsys.files[q]| && fsys.files[q][..4] == old(fsys.files)[q]
    ensures (forall q :: q in archives ==> ConsecutiveIndices(archives[q])) && Unaliased(archives) ==>
      forall q :: q in archives ==>
        fsys.files[q] == old(fsys.files)[q] + Directory(archives[q], |archives[q]|)
                          + Payloads(archives[q], |archives[q]|, old(fsys.files))
  {
    ghost var good := (forall q :: q in archives ==> ConsecutiveIndices(archives[q])) && Unaliased(archives);
    var remaining := archives.Keys;
    while remaining != {}
      invariant ArchivesState(fsys.files, old(fsys.files), archives, remaining, good)
      decreases |remaining|
    {
      ghost var first := FirstKey(remaining);
      var p :| p in remaining && IsFirstKey(p, remaining);
      ghost var current := fsys.files;
      var sorted := WriteArchive(fsys, p, archives[p]);
      ArchivesStep(fsys.files, current, old(fsys.files), archives, remaining, p, good, sorted);
      RemoveOne(remaining, p);
      remaining := remaining - {p};
    }
    ArchivesDone(fsys.files, old(fsys.files), archives, good);
  }

  lemma ArchivesDone(fs: Store, fs0: Store, archives: map<string, seq<Entry>>, good: bool)
    requires ArchivesState(fs, fs0, archives, {}, good)
    ensures forall q :: q !in archives ==> SameFile(fs, fs0, q)
    ensures forall q :: q in archives ==> q in fs && 4 <= |fs[q]| && fs[q][..4] == fs0[q]
    ensures good ==> forall q :: q in archives ==>
      fs[q] == fs0[q] + Directory(archives[q], |archives[q]|) + Payloads(archives[q], |archives[q]|, fs0)
  {
  }

  /** The archive loop's invariant: packs still to write and all other
      files are as before the loop, every pack keeps its count, and when
      the groups are well behaved every pack written holds its archive. */
  ghost predicate ArchivesState(fs: Store, fs0: Store, archives: map<string, seq<Entry>>,
                                remaining: set<string>, good: bool) {
    && remaining <= archives.Keys
    && (forall q :: q in archives ==> q in fs0 && |fs0[q]| == 4)
    && (forall q :: q !in archives || q in remaining ==> SameFile(fs, fs0, q))
    && (forall q :: q in archives ==> q in fs && 4 <= |fs[q]| && fs[q][..4] == fs0[q])
    && (good ==> forall q :: q in archives && q !in remaining ==> q in fs && fs[q] == Written(fs0, archives, q))
  }

  lemma ArchivesStep(fs: Store, current: Store, fs0: Store, archives: map<string, seq<Entry>>,
                     remaining: set<string>, p: string, good: bool, sorted: seq<Entry>)
    requires ArchivesState(current, fs0, archives, remaining, good) && p in remaining
    requires good ==> (forall q :: q in archives ==> ConsecutiveIndices(archives[q])) && Unaliased(archives)
    requires SortedByIndex(sorted) && multiset(sorted) == multiset(archives[p])
    requires forall q :: q != p ==> SameFile(fs, current, q)
    requires p in fs && |current[p]| <= |fs[p]| && fs[p][..|current[p]|] == current[p]
    requires (forall e :: e in archives[p] ==> e.originalName != p) ==>
      fs[p] == current[p] + Directory(sorted, |sorted|) + Payloads(sorted, |sorted|, current)
    ensures ArchivesState(fs, fs0, archives, remaining - {p}, good)
  {
    assert SameFile(current, fs0, p);
    UntouchedStep(fs0, current, fs, archives, remaining, p);
    HeadersStep(fs0, current, fs, archives, remaining, p);
    if good {
      SortedPermutationOfConsecutive(sorted, archives[p]);
      forall j | 0 <= j < |sorted|
        ensures SameFile(current, fs0, sorted[j].originalName)
      {
        assert sorted[j] in archives[p];
      }
      PayloadsOnAgreeingStores(sorted, |sorted|, current, fs0);
      WrittenStep(fs0, current, fs, archives, remaining, p);
    }
  }

  lemma RemoveOne(s: set<string>, p: string)
    requires p in s
    ensures |s - {p}| < |s|
  {
  }

  lemma UntouchedStep(fs0: Store, current: Store, fs: Store, archives: map<string, seq<Entry>>,
                      remaining: set<string>, p: string)
    requires p in archives
    requires forall q :: q !in archives || q in remaining ==> SameFile(current, fs0, q)
    requires forall q :: q != p ==> SameFile(fs, current, q)
    ensures forall q :: q !in archives || q in remaining - {p} ==> SameFile(fs, fs0, q)
  {
    forall q | q !in archives || q in remaining - {p}
      ensures SameFile(fs, fs0, q)
    {
      assert SameFile(current, fs0, q) && SameFile(fs, current, q);
    }
  }

  lemma HeadersStep(fs0: Store, current: Store, fs: Store, archives: map<string, seq<Entry>>,
                    remaining: set<string>, p: string)
    requires forall q :: q in archives ==> q in fs0 && |fs0[q]| == 4
    requires forall q :: q in archives ==> q in current && 4 <= |current[q]| && current[q][..4] == fs0[q]
    requires forall q :: q != p ==> SameFile(fs, current, q)
    requires p in archives && p in remaining && SameFile(current, fs0, p)
    requires p in fs && |current[p]| <= |fs[p]| && fs[p][..|current[p]|] == current[p]
    ensures forall q :: q in archives ==> q in fs && 4 <= |fs[q]| && fs[q][..4] == fs0[q]
  {
    forall q | q in archives
      ensures q in fs && 4 <= |fs[q]| && fs[q][..4] == fs0[q]
    {
      if q != p {
        assert SameFile(fs, current, q);
      }
    }
  }

  lemma WrittenStep(fs0: Store, current: Store, fs: Store, archives: map<string, seq<Entry>>,
                    remaining: set<string>, p: string)
    requires forall q :: q in archives ==> q in fs0
    requires p in archives && p in remaining && p in current && p in fs
    requires SameFile(current, fs0, p)
    requires forall q :: q in archives && q !in remaining ==> q in current && current[q] == Written(fs0, archives, q)
    requires forall q :: q != p ==> SameFile(fs, current, q)
    requires fs[p] == current[p] + Directory(archives[p], |archives[p]|) + Payloads(archives[p], |archives[p]|, fs0)
    ensures forall q :: q in archives && q !in remaining - {p} ==> q in fs && fs[q] == Written(fs0, archives, q)
  {
    forall q | q in archives && q !in remaining - {p}
      ensures q in fs && fs[q] == Written(fs0, archives, q)
    {
      if q != p {
        assert SameFile(fs, current, q);
      }
    }
  }

  /** What the archive loop leaves in pack `q`: its count, then its group's
      directory and payloads. */
  function Written(fs0: Store, archives: map<string, seq<Entry>>, q: string): seq<byte>
    requires q in archives && q in fs0
  {
    fs0[q] + Directory(archives[q], |archives[q]|) + Payloads(archives[q], |archives[q]|, fs0)
  }

  /** No file of any group is itself one of the packs. */
  ghost predicate Unaliased(archives: map<string, seq<Entry>>) {
    forall q, e :: q in archives && e in archives[q] ==> e.originalName !in archives
  }

  /** A manifest none of whose files is a pack has groups that read none
      of the packs. */
  lemma NoAliasGroups(es: seq<Entry>)
    requires NoAlias(es)
    ensures forall q, e :: e in Group(es, q) ==> e.originalName !in PackNames(es)
  {
    forall q, e | e in Group(es, q)
      ensures e.originalName !in PackNames(es)
    {
      GroupMember(es, q, e);
      if e.originalName in PackNames(es) {
        var j := PackNameWitness(es, e.originalName);
        assert false;
      }
    }
  }

  /** Every pack name is the pack of some entry. */
  lemma PackNameWitness(es: seq<Entry>, q: string) returns (j: nat)
    requires q in PackNames(es)
    ensures j < |es| && es[j].packName == q
  {
    GroupNonEmpty(es, q);
    var g := Group(es, q);
    GroupMember(es, q, g[0]);
    var k :| 0 <= k < |es| && es[k] == g[0];
    j := k;
  }

  /** Every file the manifest at `path` lists is shorter than 2^32 bytes,
      so its size is recorded without wrap-around. */
  predicate SmallFiles(fs: Store, path: Path) {
    forall i :: 0 <= i < |ManifestLines(fs, path)| ==> |Content(fs, ManifestLines(fs, path)[i])| < U32_LIMIT
  }

  /** The image `PackData` writes for a pack of a well-formed manifest has
      the archive layout: a count, one record per entry with its offset and
      size, and each file's bytes where its record points. */
  lemma PackedArchiveLayout(fs: Store, path: Path, crc32c: seq<byte> -> u32, q: string)
    requires WellFormed(ManifestLines(fs, path)) && SmallFiles(fs, path)
    requires Fits(Group(ManifestEntries(fs, path, crc32c), q))
    ensures var g := Group(ManifestEntries(fs, path, crc32c), q);
      var img, n := ArchiveImage(g, fs), |g|;
      && |img| == 4 + 12 * n + SumSizes(g, n)
      && FromLittleEndian(img[..4]) == n
      && forall k :: 0 <= k < n ==> EntryLaidOut(img, g, fs, k)
  {
    GroupsAreConsecutive(ManifestLines(fs, path), fs, crc32c);
    PackedSizesMatch(fs, path, crc32c, q);
    ArchiveLayout(Group(ManifestEntries(fs, path, crc32c), q), fs);
  }

  /** With every listed file below 2^32 bytes, each packed entry records
      its file's exact size. */
  lemma PackedSizesMatch(fs: Store, path: Path, crc32c: seq<byte> -> u32, q: string)
    requires SmallFiles(fs, path)
    ensures PayloadsMatchSizes(Group(ManifestEntries(fs, path, crc32c), q), fs)
  {
    var es := ManifestEntries(fs, path, crc32c);
    var lines := ManifestLines(fs, path);
    EntriesRecordFiles(lines, fs, crc32c);
    EntriesNamedByLines(lines, fs, crc32c);
    forall k | 0 <= k < |es|
      ensures |Content(fs, es[k].originalName)| == es[k].originalSize
    {
      var i :| 0 <= i < |lines| && lines[i] == es[k].originalName;
    }
    GroupMatchesSizes(es, q, fs);
  }

  /** A group of entries that record their sizes records its sizes. */
  lemma GroupMatchesSizes(es: seq<Entry>, q: string, fs: Store)
    requires PayloadsMatchSizes(es, fs)
    ensures PayloadsMatchSizes(Group(es, q), fs)
  {
    var g := Group(es, q);
    forall k | 0 <= k < |g|
      ensures |Content(fs, g[k].originalName)| == g[k].originalSize
    {
      GroupMember(es, q, g[k]);
    }
  }

  // ---------------------------------------------------------------------
  // main

  const TEXTURES_MANIFEST := "textures.pcdef"
  const MATERIALS_MANIFEST := "materials.pcdef"
  const LOOKUP_TABLE := "lookup.csv"

  /** The lookup rows one `PackData` pass over `path` yields, none when the
      manifest is missing. */
  function PassRows(fs: Store, path: Path, crc32c: seq<byte> -> u32): string {
    if path in fs then LookupText(ManifestEntries(fs, path, crc32c)) else ""
  }

  /** The packs of the texture pass. */
  function TexturePacks(fs: Store, crc32c: seq<byte> -> u32): set<string> {
    if TEXTURES_MANIFEST in fs then PackNames(ManifestEntries(fs, TEXTURES_MANIFEST, crc32c)) else {}
  }

  /** The texture pass writes no file the material pass reads: neither the
      material manifest nor any file it lists is a texture pack. */
  predicate PassesApart(fs: Store, crc32c: seq<byte> -> u32) {
    var packs := TexturePacks(fs, crc32c);
    && MATERIALS_MANIFEST !in packs
    && forall i :: 0 <= i < |ManifestLines(fs, MATERIALS_MANIFEST)| ==> ManifestLines(fs, MATERIALS_MANIFEST)[i] !in packs
  }

  /** `main`: pack the textures, then the materials, then write every row
      to the lookup table, the texture rows first. */
  method PackAssets(fsys: FileSystem, crc32c: seq<byte> -> u32)
    modifies fsys
    ensures LOOKUP_TABLE in fsys.files
    ensures var rows := TextBytes(PassRows(old(fsys.files), TEXTURES_MANIFEST, crc32c));
      |rows| <= |fsys.files[LOOKUP_TABLE]| && fsys.files[LOOKUP_TABLE][..|rows|] == rows
    ensures PassesApart(old(fsys.files), crc32c) ==>
      fsys.files[LOOKUP_TABLE] == TextBytes(PassRows(old(fsys.files), TEXTURES_MANIFEST, crc32c)
                                            + PassRows(old(fsys.files), MATERIALS_MANIFEST, crc32c))
  {
    var lookupData := "";
    var texturesFound := fsys.FileExists(TEXTURES_MANIFEST);
    if texturesFound {
      var rows := PackData(fsys, TEXTURES_MANIFEST, crc32c);
      lookupData := lookupData + rows;
    }
    ghost var textured := fsys.files;
    assert lookupData == PassRows(old(fsys.files), TEXTURES_MANIFEST, crc32c);
    if PassesApart(old(fsys.files), crc32c) {
      MaterialsUntouched(old(fsys.files), textured, crc32c);
    }
    ghost var textRows := lookupData;
    var materialsFound := fsys.FileExists(MATERIALS_MANIFEST);
    if materialsFound {
      var rows := PackData(fsys, MATERIALS_MANIFEST, crc32c);
      lookupData := lookupData + rows;
    }
    assert lookupData == textRows + PassRows(textured, MATERIALS_MANIFEST, crc32c);
    fsys.MakeTextFileWithContent(LOOKUP_TABLE, lookupData);
    TextBytesConcat(textRows, PassRows(textured, MATERIALS_MANIFEST, crc32c));
  }

  /** When the passes are apart, the material pass sees the material
      manifest and its files as they were before the texture pass. */
  lemma MaterialsUntouched(fs: Store, textured: Store, crc32c: seq<byte> -> u32)
    requires PassesApart(fs, crc32c)
    requires forall q :: q !in TexturePacks(fs, crc32c) ==> SameFile(textured, fs, q)
    ensures PassRows(textured, MATERIALS_MANIFEST, crc32c) == PassRows(fs, MATERIALS_MANIFEST, crc32c)
  {
    assert SameFile(textured, fs, MATERIALS_MANIFEST);
    var lines := ManifestLines(fs, MATERIALS_MANIFEST);
    assert ManifestLines(textured, MATERIALS_MANIFEST) == lines;
    forall i | 0 <= i < |lines|
      ensures SameFile(fs, textured, lines[i])
    {
      assert SameFile(textured, fs, lines[i]);
    }
    EntriesOnAgreeingStores(lines, fs, textured, crc32c);
  }

  /** A member of a pack's group is one of the entries. */
  lemma GroupMember(es: seq<Entry>, p: string, e: Entry)
    requires e in Group(es, p)
    ensures exists k :: 0 <= k < |es| && es[k] == e
  {
    GroupMultiset(es, p);
    assert multiset(Group(es, p))[e] > 0;
  }

  /** Files that are the same in two stores give the same payloads. */
  lemma {:induction false} PayloadsOnAgreeingStores(g: seq<Entry>, k: nat, fs: Store, fs': Store)
    requires k <= |g|
    requires forall j :: 0 <= j < k ==> SameFile(fs, fs', g[j].originalName)
    ensures Payloads(g, k, fs) == Payloads(g, k, fs')
  {
    if k > 0 {
      PayloadsOnAgreeingStores(g, k - 1, fs, fs');
    }
  }
}
