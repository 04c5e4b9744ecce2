/** What the parse loop of `PackData` makes of a pack definition file: a
    `$name` line opens pack `name` and restarts the index at 0; every other
    line, an empty one included, names a file and becomes one `Entry`. */
module Manifest {
  import opened Bytes
  import opened Numerals
  import opened ConvertUtils
  import opened FileUtils
  import opened Core

  /** `line[0] == '$'`; an empty line has '\0' there and is no marker. */
  predicate IsMarker(line: string) {
    |line| > 0 && line[0] == '$'
  }

  /** `currentPackName` and `currentIndex` between two lines. */
  datatype Cursor = Cursor(pack: string, index: u32)

  /** One turn of the loop on the cursor; `currentIndex++` wraps at 2^32. */
  function Step(c: Cursor, line: string): Cursor {
    if IsMarker(line) then Cursor(line[1..], 0) else Cursor(c.pack, (c.index + 1) % U32_LIMIT)
  }

  function CursorAfter(lines: seq<string>): Cursor {
    if lines == [] then Cursor("", 0) else Step(CursorAfter(lines[..|lines| - 1]), lines[|lines| - 1])
  }

  /** The entry for file line `line` read at cursor `c`. */
  function MakeEntry(line: string, c: Cursor, fs: Store, crc32c: seq<byte> -> u32): Entry {
    Entry(line, c.pack, Hex(Checksum(fs, line, crc32c)), c.index, ToU32(|Content(fs, line)|))
  }

  /** `v_Entries` after the loop has read `lines`. */
  function Entries(lines: seq<string>, fs: Store, crc32c: seq<byte> -> u32): seq<Entry> {
    if lines == [] then []
    else
      var init, line := lines[..|lines| - 1], lines[|lines| - 1];
      Entries(init, fs, crc32c) + (if IsMarker(line) then [] else [MakeEntry(line, CursorAfter(init), fs, crc32c)])
  }

  /** The lines `std::getline` yields for the file at `path`; none when it
      cannot be opened. */
  function ManifestLines(fs: Store, path: Path): seq<string> {
    if path in fs then Split(BytesText(fs[path]), '\n') else []
  }

  function ManifestEntries(fs: Store, path: Path, crc32c: seq<byte> -> u32): seq<Entry> {
    Entries(ManifestLines(fs, path), fs, crc32c)
  }

  function CountMarkers(lines: seq<string>): (n: nat)
    ensures n <= |lines|
  {
    if lines == [] then 0
    else CountMarkers(lines[..|lines| - 1]) + (if IsMarker(lines[|lines| - 1]) then 1 else 0)
  }

  /** The pack names the marker lines open. */
  function MarkerNames(lines: seq<string>): set<string> {
    if lines == [] then {}
    else
      var line := lines[|lines| - 1];
      MarkerNames(lines[..|lines| - 1]) + (if IsMarker(line) then {line[1..]} else {})
  }

  /** The shape the packer relies on: no index wraps, no file line before
      the first marker, no marker without a name (the pack file would have
      the empty path, which opens no file), and no pack opened twice. */
  predicate WellFormed(lines: seq<string>) {
    && |lines| < U32_LIMIT
    && (lines != [] ==> IsMarker(lines[0]))
    && (forall i :: 0 <= i < |lines| && IsMarker(lines[i]) ==> |lines[i]| > 1)
    && (forall i, j :: 0 <= i < j < |lines| && IsMarker(lines[i]) && IsMarker(lines[j]) ==> lines[i][1..] != lines[j][1..])
  }

  // ---------------------------------------------------------------------
  // One entry per file line, in manifest order

  lemma EntriesAppend(lines: seq<string>, line: string, fs: Store, crc32c: seq<byte> -> u32)
    ensures Entries(lines + [line], fs, crc32c)
         == Entries(lines, fs, crc32c) + (if IsMarker(line) then [] else [MakeEntry(line, CursorAfter(lines), fs, crc32c)])
    ensures CursorAfter(lines + [line]) == Step(CursorAfter(lines), line)
    ensures CountMarkers(lines + [line]) == CountMarkers(lines) + (if IsMarker(line) then 1 else 0)
    ensures MarkerNames(lines + [line]) == MarkerNames(lines) + (if IsMarker(line) then {line[1..]} else {})
  {
    assert (lines + [line])[..|lines|] == lines;
  }

  /** A marker emits nothing and any other line exactly one entry. */
  lemma {:induction false} EntriesLength(lines: seq<string>, fs: Store, crc32c: seq<byte> -> u32)
    ensures |Entries(lines, fs, crc32c)| == |lines| - CountMarkers(lines)
  {
    if lines != [] {
      EntriesLength(lines[..|lines| - 1], fs, crc32c);
    }
  }

  /** The entries of a prefix of the lines begin the entries of all lines. */
  lemma {:induction false} EntriesPrefix(lines: seq<string>, i: nat, fs: Store, crc32c: seq<byte> -> u32)
    requires i <= |lines|
    ensures var pre := Entries(lines[..i], fs, crc32c);
      |pre| <= |Entries(lines, fs, crc32c)| && Entries(lines, fs, crc32c)[..|pre|] == pre
    decreases |lines|
  {
    if i < |lines| {
      var init := lines[..|lines| - 1];
      assert init[..i] == lines[..i];
      EntriesPrefix(init, i, fs, crc32c);
    } else {
      assert lines[..i] == lines;
    }
  }

  /** The file line at position `j` gives the entry at position `j` less the
      markers before it: named after the line, in the current pack at the
      current index, with the hexadecimal checksum and the size (modulo
      2^32) of that file. */
  lemma EntryOfLine(lines: seq<string>, j: nat, fs: Store, crc32c: seq<byte> -> u32)
    requires j < |lines| && !IsMarker(lines[j])
    ensures var es, k, c := Entries(lines, fs, crc32c), j - CountMarkers(lines[..j]), CursorAfter(lines[..j]);
      && 0 <= k < |es|
      && es[k].originalName == lines[j]
      && es[k].packName == c.pack
      && es[k].index == c.index
      && es[k].hash == Hex(Checksum(fs, lines[j], crc32c))
      && es[k].originalSize == |Content(fs, lines[j])| % U32_LIMIT
  {
    var pre := lines[..j];
    assert lines[..j + 1] == pre + [lines[j]];
    EntriesAppend(pre, lines[j], fs, crc32c);
    EntriesLength(pre, fs, crc32c);
    EntriesPrefix(lines, j + 1, fs, crc32c);
    var es := Entries(lines, fs, crc32c);
    var k := j - CountMarkers(pre);
    assert Entries(lines[..j + 1], fs, crc32c)[k] == es[k];
  }

  // ---------------------------------------------------------------------
  // The cursor: the pack of the latest marker, the lines read since

  /** With no marker read yet the pack is "" and the index counts the lines
      read, modulo 2^32. */
  lemma {:induction false} CursorWithoutMarker(lines: seq<string>)
    requires forall i :: 0 <= i < |lines| ==> !IsMarker(lines[i])
    ensures CursorAfter(lines) == Cursor("", |lines| % U32_LIMIT)
  {
    if lines != [] {
      var init := lines[..|lines| - 1];
      assert forall i :: 0 <= i < |init| ==> init[i] == lines[i];
      CursorWithoutMarker(init);
      WrapSucc(|init|);
    }
  }

  /** After the latest marker, at position `m`, the pack is that marker's
      name and the index counts the lines after it, modulo 2^32. */
  lemma {:induction false} CursorAfterMarker(lines: seq<string>, m: nat)
    requires m < |lines| && IsMarker(lines[m]) && NoMarkerAfter(lines, m)
    ensures CursorAfter(lines) == Cursor(lines[m][1..], (|lines| - 1 - m) % U32_LIMIT)
  {
    var init := lines[..|lines| - 1];
    if m < |init| {
      assert init[m] == lines[m];
      assert NoMarkerAfter(init, m);
      CursorAfterMarker(init, m);
      WrapSucc(|init| - 1 - m);
    }
  }

  predicate NoMarkerAfter(lines: seq<string>, m: nat) {
    forall i :: m < i < |lines| ==> !IsMarker(lines[i])
  }

  lemma WrapSucc(x: nat)
    ensures ((x % U32_LIMIT) + 1) % U32_LIMIT == (x + 1) % U32_LIMIT
  {
  }

  // ---------------------------------------------------------------------
  // Packs of a well-formed manifest hold indices 0, 1, 2, …

  lemma {:induction false} MarkerNamesOf(lines: seq<string>, q: string)
    ensures q in MarkerNames(lines) <==> exists i :: 0 <= i < |lines| && IsMarker(lines[i]) && lines[i][1..] == q
  {
    if lines != [] {
      var init, last := lines[..|lines| - 1], lines[|lines| - 1];
      MarkerNamesOf(init, q);
      if q in MarkerNames(lines) {
        if q in MarkerNames(init) {
          var i :| 0 <= i < |init| && IsMarker(init[i]) && init[i][1..] == q;
          assert lines[i] == init[i];
        } else {
          assert IsMarker(lines[|lines| - 1]) && lines[|lines| - 1][1..] == q;
        }
      }
      if exists i :: 0 <= i < |lines| && IsMarker(lines[i]) && lines[i][1..] == q {
        var i :| 0 <= i < |lines| && IsMarker(lines[i]) && lines[i][1..] == q;
        if i < |init| {
          assert init[i] == lines[i];
        }
      }
    }
  }

  /** What holds after every line of a well-formed manifest: each group so
      far has consecutive indices, the current pack's group has as many
      entries as the current index says, and only opened packs have
      entries. */
  ghost predicate RunState(lines: seq<string>, es: seq<Entry>, c: Cursor) {
    && (forall p :: ConsecutiveIndices(Group(es, p)))
    && (lines != [] ==> c.pack in MarkerNames(lines) && |Group(es, c.pack)| == c.index)
    && (forall p :: p !in MarkerNames(lines) ==> Group(es, p) == [])
    && |es| <= |lines|
  }

  lemma {:induction false} RunInvariant(lines: seq<string>, fs: Store, crc32c: seq<byte> -> u32)
    requires WellFormed(lines)
    ensures RunState(lines, Entries(lines, fs, crc32c), CursorAfter(lines))
  {
    if lines != [] {
      var n := |lines|;
      var init, line := lines[..n - 1], lines[n - 1];
      assert lines == init + [line];
      WellFormedPrefix(init, line);
      RunInvariant(init, fs, crc32c);
      EntriesAppend(init, line, fs, crc32c);
      if IsMarker(line) {
        assert Entries(lines, fs, crc32c) == Entries(init, fs, crc32c);
        MarkerStep(init, line, Entries(init, fs, crc32c), CursorAfter(init));
      } else {
        FileStep(init, line, Entries(init, fs, crc32c), CursorAfter(init), MakeEntry(line, CursorAfter(init), fs, crc32c));
      }
    }
  }

  lemma WellFormedPrefix(init: seq<string>, line: string)
    requires WellFormed(init + [line])
    ensures WellFormed(init)
  {
    assert forall i :: 0 <= i < |init| ==> (init + [line])[i] == init[i];
  }

  lemma MarkerStep(init: seq<string>, line: string, es: seq<Entry>, c: Cursor)
    requires WellFormed(init + [line]) && IsMarker(line)
    requires RunState(init, es, c)
    ensures RunState(init + [line], es, Step(c, line))
  {
    var lines := init + [line];
    assert (lines)[..|init|] == init;
    assert forall i :: 0 <= i < |init| ==> lines[i] == init[i];
    forall i | 0 <= i < |init| && IsMarker(init[i])
      ensures init[i][1..] != line[1..]
    {
      assert lines[i] == init[i] && lines[|init|] == line;
    }
    MarkerNamesOf(init, line[1..]);
  }

  lemma FileStep(init: seq<string>, line: string, es: seq<Entry>, c: Cursor, e: Entry)
    requires WellFormed(init + [line]) && !IsMarker(line)
    requires RunState(init, es, c)
    requires e.packName == c.pack && e.index == c.index
    ensures RunState(init + [line], es + [e], Step(c, line))
  {
    var lines := init + [line];
    assert (lines)[..|init|] == init;
    assert init != [];
    var es' := es + [e];
    forall p
      ensures Group(es', p) == Group(es, p) + (if p == c.pack then [e] else [])
    {
      GroupAppend(es, e, p);
    }
  }

  /** In a well-formed manifest the entries of every pack carry the indices
      0, 1, 2, … in manifest order, so sorting them by index puts entry k at
      position k. */
  lemma GroupsAreConsecutive(lines: seq<string>, fs: Store, crc32c: seq<byte> -> u32)
    requires WellFormed(lines)
    ensures forall p :: ConsecutiveIndices(Group(Entries(lines, fs, crc32c), p))
  {
    RunInvariant(lines, fs, crc32c);
  }

  // ---------------------------------------------------------------------
  // What the entries depend on

  /** Only the listed files matter: stores that agree on every line's file
      give the same entries. */
  lemma {:induction false} EntriesOnAgreeingStores(lines: seq<string>, fs: Store, fs': Store, crc32c: seq<byte> -> u32)
    requires forall i :: 0 <= i < |lines| ==> SameFile(fs, fs', lines[i])
    ensures Entries(lines, fs, crc32c) == Entries(lines, fs', crc32c)
  {
    if lines != [] {
      var init := lines[..|lines| - 1];
      assert forall i :: 0 <= i < |init| ==> init[i] == lines[i];
      EntriesOnAgreeingStores(init, fs, fs', crc32c);
    }
  }

  /** An empty line names no file (`std::filesystem::exists("")` is
      false), so it becomes an entry named "" with hash "0" and size 0. */
  lemma EmptyLineEntry(lines: seq<string>, j: nat, fs: Store, crc32c: seq<byte> -> u32)
    requires j < |lines| && lines[j] == "" && "" !in fs
    ensures var es, k := Entries(lines, fs, crc32c), j - CountMarkers(lines[..j]);
      && 0 <= k < |es|
      && es[k] == Entry("", CursorAfter(lines[..j]).pack, "0", CursorAfter(lines[..j]).index, 0)
  {
    EntryOfLine(lines, j, fs, crc32c);
  }

  /** Each entry records its file's checksum in hexadecimal and its size
      modulo 2^32. */
  lemma {:induction false} EntriesRecordFiles(lines: seq<string>, fs: Store, crc32c: seq<byte> -> u32)
    ensures forall k :: 0 <= k < |Entries(lines, fs, crc32c)| ==>
      && Entries(lines, fs, crc32c)[k].hash == Hex(Checksum(fs, Entries(lines, fs, crc32c)[k].originalName, crc32c))
      && Entries(lines, fs, crc32c)[k].originalSize == |Content(fs, Entries(lines, fs, crc32c)[k].originalName)| % U32_LIMIT
  {
    if lines != [] {
      var init := lines[..|lines| - 1];
      EntriesRecordFiles(init, fs, crc32c);
      EntriesAppend(init, lines[|lines| - 1], fs, crc32c);
      assert init + [lines[|lines| - 1]] == lines;
    }
  }

  /** Every entry is named by one of the lines. */
  lemma {:induction false} EntriesNamedByLines(lines: seq<string>, fs: Store, crc32c: seq<byte> -> u32)
    ensures forall k :: 0 <= k < |Entries(lines, fs, crc32c)| ==> Entries(lines, fs, crc32c)[k].originalName in lines
  {
    if lines != [] {
      var init := lines[..|lines| - 1];
      EntriesNamedByLines(init, fs, crc32c);
      assert forall x :: x in init ==> x in lines;
    }
  }

  /** A character no line holds is in no file name and no pack name. */
  lemma {:induction false} EntriesAvoid(lines: seq<string>, ch: char, fs: Store, crc32c: seq<byte> -> u32)
    requires forall i :: 0 <= i < |lines| ==> ch !in lines[i]
    ensures ch !in CursorAfter(lines).pack
    ensures forall k :: 0 <= k < |Entries(lines, fs, crc32c)| ==>
      ch !in Entries(lines, fs, crc32c)[k].originalName && ch !in Entries(lines, fs, crc32c)[k].packName
  {
    if lines != [] {
      var init, line := lines[..|lines| - 1], lines[|lines| - 1];
      assert forall i :: 0 <= i < |init| ==> init[i] == lines[i];
      EntriesAvoid(init, ch, fs, crc32c);
      if IsMarker(line) {
        assert forall k :: 1 <= k < |line| ==> line[1..][k - 1] == line[k];
      }
    }
  }

  /** Lines never hold the line break, so neither do names and packs. */
  lemma ManifestNamesAvoidNewline(fs: Store, path: Path, crc32c: seq<byte> -> u32)
    ensures forall k :: 0 <= k < |ManifestEntries(fs, path, crc32c)| ==>
      '\n' !in ManifestEntries(fs, path, crc32c)[k].originalName && '\n' !in ManifestEntries(fs, path, crc32c)[k].packName
  {
    if path in fs {
      SplitPiecesAvoidDelimiter(BytesText(fs[path]), '\n');
    }
    EntriesAvoid(ManifestLines(fs, path), '\n', fs, crc32c);
  }
}
