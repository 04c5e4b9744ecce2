/** The bytes `PackData` writes for one pack: the entry count, one directory
    record (offset, size) per entry, then the files' contents, all integers
    little-endian. */
module ArchiveFormat {
  import opened Bytes
  import opened FileUtils
  import opened Core

  // The entry count takes 4 bytes (`sizeof(uint32_t)`), a directory record
  // 12 (`sizeof(uint64_t) + sizeof(uint32_t)`).

  /** The offset stored for the entry with index 0: count, n records and
      one more byte, computed in 64-bit `size_t`. */
  function FirstOffset(n: nat): u64 {
    (4 + 12 * n + 1) % U64_LIMIT
  }

  /** `startPos` when the directory loop writes the record of `g[k]`: the
      first offset for index 0, otherwise the previous offset plus the
      previous size; both accumulators start at 0. */
  function StartPos(g: seq<Entry>, k: nat): u64
    requires k < |g|
  {
    if g[k].index == 0 then FirstOffset(|g|)
    else if k == 0 then 0
    else (StartPos(g, k - 1) + g[k - 1].originalSize) % U64_LIMIT
  }

  function Record(g: seq<Entry>, k: nat): (r: seq<byte>)
    requires k < |g|
    ensures |r| == 12
  {
    LE64(StartPos(g, k)) + LE32(g[k].originalSize)
  }

  /** The records of the first `k` entries. */
  function Directory(g: seq<Entry>, k: nat): (d: seq<byte>)
    requires k <= |g|
    ensures |d| == 12 * k
  {
    if k == 0 then [] else Directory(g, k - 1) + Record(g, k - 1)
  }

  /** The contents of the first `k` entries' files, in order. */
  function Payloads(g: seq<Entry>, k: nat, fs: Store): seq<byte>
    requires k <= |g|
  {
    if k == 0 then [] else Payloads(g, k - 1, fs) + Content(fs, g[k - 1].originalName)
  }

  /** The archive of a sorted group whose files are read from `fs`. */
  function ArchiveImage(g: seq<Entry>, fs: Store): seq<byte> {
    LE32(|g| % U32_LIMIT) + Directory(g, |g|) + Payloads(g, |g|, fs)
  }

  /** The recorded sizes of the first `k` entries. */
  function SumSizes(g: seq<Entry>, k: nat): nat
    requires k <= |g|
  {
    if k == 0 then 0 else SumSizes(g, k - 1) + g[k - 1].originalSize
  }

  /** Every file still has the size recorded in its entry. */
  predicate PayloadsMatchSizes(g: seq<Entry>, fs: Store) {
    forall k :: 0 <= k < |g| ==> |Content(fs, g[k].originalName)| == g[k].originalSize
  }

  /** No offset and no count wraps. */
  predicate Fits(g: seq<Entry>) {
    |g| < U32_LIMIT && 4 + 12 * |g| + 1 + SumSizes(g, |g|) < U64_LIMIT
  }

  // ---------------------------------------------------------------------

  lemma {:induction false} SumSizesMonotone(g: seq<Entry>, j: nat, k: nat)
    requires j <= k <= |g|
    ensures SumSizes(g, j) <= SumSizes(g, k)
    decreases k
  {
    if j < k {
      SumSizesMonotone(g, j, k - 1);
    }
  }

  /** With indices 0..n-1 and nothing wrapping, entry k's recorded offset is
      the header size, plus one, plus the sizes before it. */
  lemma {:induction false} StartPosClosedForm(g: seq<Entry>, k: nat)
    requires ConsecutiveIndices(g) && Fits(g) && k < |g|
    ensures StartPos(g, k) == 4 + 12 * |g| + 1 + SumSizes(g, k)
  {
    if k > 0 {
      StartPosClosedForm(g, k - 1);
      SumSizesMonotone(g, k, |g|);
    }
  }

  /** Record j sits at bytes 12j..12j+12 of the directory. */
  lemma {:induction false} DirectoryRecord(g: seq<Entry>, k: nat, j: nat)
    requires j < k <= |g|
    ensures Directory(g, k)[12 * j .. 12 * j + 12] == Record(g, j)
  {
    if j < k - 1 {
      DirectoryRecord(g, k - 1, j);
      assert Directory(g, k)[..12 * (k - 1)] == Directory(g, k - 1);
    }
  }

  /** When every file has its recorded size, the payloads take exactly the
      recorded sizes and file j starts after the sizes before it. */
  lemma PayloadSlice(g: seq<Entry>, k: nat, j: nat, fs: Store)
    requires PayloadsMatchSizes(g, fs) && j < k <= |g|
    ensures |Payloads(g, k, fs)| == SumSizes(g, k)
    ensures SumSizes(g, j + 1) <= SumSizes(g, k)
    ensures Payloads(g, k, fs)[SumSizes(g, j) .. SumSizes(g, j + 1)] == Content(fs, g[j].originalName)
  {
    PayloadsLength(g, k, fs);
    PayloadsLength(g, j, fs);
    PayloadsLength(g, j + 1, fs);
    SumSizesMonotone(g, j + 1, k);
    PayloadsPrefix(g, j + 1, k, fs);
    var front, file := Payloads(g, j, fs), Content(fs, g[j].originalName);
    assert Payloads(g, j + 1, fs) == front + file;
    SliceOfPrefix(Payloads(g, k, fs), front + file, |front|, |front| + |file|);
    SliceOfConcat(front, file, |front|, |front| + |file|);
  }

  /** The payloads of the first j entries begin the payloads of the first k. */
  lemma {:induction false} PayloadsPrefix(g: seq<Entry>, j: nat, k: nat, fs: Store)
    requires j <= k <= |g|
    ensures |Payloads(g, j, fs)| <= |Payloads(g, k, fs)|
    ensures Payloads(g, k, fs)[..|Payloads(g, j, fs)|] == Payloads(g, j, fs)
    decreases k
  {
    if j < k {
      PayloadsPrefix(g, j, k - 1, fs);
      var front, file := Payloads(g, k - 1, fs), Content(fs, g[k - 1].originalName);
      assert Payloads(g, k, fs) == front + file;
      assert (front + file)[..|Payloads(g, j, fs)|] == front[..|Payloads(g, j, fs)|];
    }
  }

  /** A slice that lies inside a prefix is a slice of the prefix. */
  lemma SliceOfPrefix(s: seq<byte>, prefix: seq<byte>, a: nat, b: nat)
    requires |prefix| <= |s| && s[..|prefix|] == prefix && a <= b <= |prefix|
    ensures s[a..b] == prefix[a..b]
  {
    forall i | 0 <= i < b - a
      ensures s[a..b][i] == prefix[a..b][i]
    {
      assert s[a + i] == s[..|prefix|][a + i];
    }
  }

  /** A slice of a concatenation that lies inside one of the two parts. */
  lemma SliceOfConcat(x: seq<byte>, y: seq<byte>, a: nat, b: nat)
    requires a <= b <= |x| + |y|
    ensures b <= |x| ==> (x + y)[a..b] == x[a..b]
    ensures |x| <= a ==> (x + y)[a..b] == y[a - |x| .. b - |x|]
  {
  }

  lemma {:induction false} PayloadsLength(g: seq<Entry>, k: nat, fs: Store)
    requires PayloadsMatchSizes(g, fs) && k <= |g|
    ensures |Payloads(g, k, fs)| == SumSizes(g, k)
  {
    if k > 0 {
      PayloadsLength(g, k - 1, fs);
    }
  }

  /** Record k of archive `img` reads the offset header + 1 + the sizes
      before k and the size of entry k; the file of entry k ends inside the
      archive and lies at the offset one less than the recorded one. */
  predicate EntryLaidOut(img: seq<byte>, g: seq<Entry>, fs: Store, k: nat)
    requires k < |g| && 4 + 12 * |g| <= |img|
  {
    var n := |g|;
    && RecordedOffset(img, n, k) == 4 + 12 * n + 1 + SumSizes(g, k)
    && RecordedSize(img, n, k) == g[k].originalSize
    && 4 + 12 * n + SumSizes(g, k) + g[k].originalSize <= |img|
    && img[RecordedOffset(img, n, k) - 1 .. RecordedOffset(img, n, k) - 1 + g[k].originalSize]
       == Content(fs, g[k].originalName)
  }

  /** The archive of a group with indices 0..n-1: its length is the header
      plus the sizes, its first four bytes read n, and every entry is laid
      out as its record says, one byte before the recorded offset. */
  lemma ArchiveLayout(g: seq<Entry>, fs: Store)
    requires ConsecutiveIndices(g) && Fits(g) && PayloadsMatchSizes(g, fs)
    ensures var img, n := ArchiveImage(g, fs), |g|;
      && |img| == 4 + 12 * n + SumSizes(g, n)
      && FromLittleEndian(img[..4]) == n
      && forall k :: 0 <= k < n ==> EntryLaidOut(img, g, fs, k)
  {
    var img, n := ArchiveImage(g, fs), |g|;
    PayloadsLength(g, n, fs);
    CountOf(g, fs);
    forall k | 0 <= k < n
      ensures EntryLaidOut(img, g, fs, k)
    {
      EntryLaidOutOf(g, fs, k);
    }
  }

  lemma CountOf(g: seq<Entry>, fs: Store)
    requires |g| < U32_LIMIT
    ensures |ArchiveImage(g, fs)| >= 4 && FromLittleEndian(ArchiveImage(g, fs)[..4]) == |g|
  {
    assert |g| % U32_LIMIT == |g|;
    HeadOfConcat(LE32(|g|), Directory(g, |g|), Payloads(g, |g|, fs));
  }

  lemma HeadOfConcat(a: seq<byte>, b: seq<byte>, c: seq<byte>)
    ensures |a + b + c| >= |a| && (a + b + c)[..|a|] == a
  {
  }

  lemma EntryLaidOutOf(g: seq<Entry>, fs: Store, k: nat)
    requires ConsecutiveIndices(g) && Fits(g) && PayloadsMatchSizes(g, fs) && k < |g|
    ensures 4 + 12 * |g| <= |ArchiveImage(g, fs)| && EntryLaidOut(ArchiveImage(g, fs), g, fs, k)
  {
    RecordOf(g, fs, k);
    PayloadOf(g, fs, k);
  }

  lemma RecordOf(g: seq<Entry>, fs: Store, k: nat)
    requires ConsecutiveIndices(g) && Fits(g) && PayloadsMatchSizes(g, fs) && k < |g|
    ensures var img, n := ArchiveImage(g, fs), |g|;
      && 4 + 12 * n <= |img|
      && RecordedOffset(img, n, k) == 4 + 12 * n + 1 + SumSizes(g, k)
      && RecordedSize(img, n, k) == g[k].originalSize
  {
    var img, n := ArchiveImage(g, fs), |g|;
    DirectoryRecord(g, n, k);
    StartPosClosedForm(g, k);
    RecordInImage(LE32(n % U32_LIMIT), Directory(g, n), Payloads(g, n, fs), k, StartPos(g, k), g[k].originalSize);
    DecodeRecord(img, n, k, StartPos(g, k), g[k].originalSize);
  }

  /** Bytes 12k..12k+12 of the directory are bytes 4+12k..4+12k+12 of the
      archive. */
  lemma RecordInImage(count: seq<byte>, dir: seq<byte>, pay: seq<byte>, k: nat, off: u64, size: u32)
    requires |count| == 4 && 12 * k + 12 <= |dir|
    requires dir[12 * k .. 12 * k + 12] == LE64(off) + LE32(size)
    ensures var img, at := count + dir + pay, 4 + 12 * k;
      img[at .. at + 8] == LE64(off) && img[at + 8 .. at + 12] == LE32(size)
  {
    var img, at := count + dir + pay, 4 + 12 * k;
    assert img[at .. at + 12] == dir[12 * k .. 12 * k + 12];
    assert img[at .. at + 8] == img[at .. at + 12][..8];
    assert img[at + 8 .. at + 12] == img[at .. at + 12][8..];
  }

  lemma DecodeRecord(img: seq<byte>, n: nat, k: nat, off: u64, size: u32)
    requires k < n && 4 + 12 * n <= |img|
    requires img[4 + 12 * k .. 4 + 12 * k + 8] == LE64(off)
    requires img[4 + 12 * k + 8 .. 4 + 12 * k + 12] == LE32(size)
    ensures RecordedOffset(img, n, k) == off && RecordedSize(img, n, k) == size
  {
  }

  lemma PayloadOf(g: seq<Entry>, fs: Store, k: nat)
    requires PayloadsMatchSizes(g, fs) && k < |g|
    ensures var img, header := ArchiveImage(g, fs), 4 + 12 * |g|;
      && |img| == header + SumSizes(g, |g|)
      && SumSizes(g, k + 1) <= SumSizes(g, |g|)
      && img[header + SumSizes(g, k) .. header + SumSizes(g, k + 1)] == Content(fs, g[k].originalName)
  {
    var img, header := ArchiveImage(g, fs), 4 + 12 * |g|;
    PayloadSlice(g, |g|, k, fs);
    assert img[header..] == Payloads(g, |g|, fs);
  }

  /** The offset a reader decodes from record k of an archive of n entries. */
  function RecordedOffset(img: seq<byte>, n: nat, k: nat): nat
    requires k < n && 4 + 12 * n <= |img|
  {
    FromLittleEndian(img[4 + 12 * k .. 4 + 12 * k + 8])
  }

  /** The size a reader decodes from record k of an archive of n entries. */
  function RecordedSize(img: seq<byte>, n: nat, k: nat): nat
    requires k < n && 4 + 12 * n <= |img|
  {
    FromLittleEndian(img[4 + 12 * k + 8 .. 4 + 12 * k + 12])
  }

  /** Two files of 10 and 20 bytes make a 58-byte archive whose records
      give the offsets 29 and 39, one past where each file's bytes start
      (28 and 38). */
  lemma TwoFileArchive(a: Entry, b: Entry, fs: Store)
    requires a.index == 0 && a.originalSize == 10 && |Content(fs, a.originalName)| == 10
    requires b.index == 1 && b.originalSize == 20 && |Content(fs, b.originalName)| == 20
    ensures var img := ArchiveImage([a, b], fs);
      && |img| == 58 && FromLittleEndian(img[..4]) == 2
      && RecordedOffset(img, 2, 0) == 29 && RecordedSize(img, 2, 0) == 10
      && RecordedOffset(img, 2, 1) == 39 && RecordedSize(img, 2, 1) == 20
      && img[28..38] == Content(fs, a.originalName) && img[38..58] == Content(fs, b.originalName)
  {
    var g := [a, b];
    assert SumSizes(g, 1) == 10 && SumSizes(g, 2) == 30;
    ArchiveLayout(g, fs);
    assert EntryLaidOut(ArchiveImage(g, fs), g, fs, 0);
    assert EntryLaidOut(ArchiveImage(g, fs), g, fs, 1);
  }
}
