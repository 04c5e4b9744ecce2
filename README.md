# MesaEngine asset packer, modelled in Dafny

This project models the MesaEngine asset packer and the small engine libraries it uses.

**What the packer does.** `PackData` reads a pack definition file line by line.
- A `$name` line opens a pack.
- Every other line names a file. It becomes an `Entry` with a per-pack index, the file's CRC-32C in hexadecimal and the file's size.
- The entries are grouped by pack. Each group is sorted by index.
- Each pack is written as a binary archive:
  - a `u32` entry count;
  - one 12-byte record per entry, holding a `u64` offset and a `u32` size;
  - the files' bytes, one after another.
- `PackData` returns one CSV row per entry.

`main` runs `PackData` on `textures.pcdef` and then on `materials.pcdef`, and writes all the rows to `lookup.csv`.

**The libraries modelled:**
- `FileUtils`: path joining and the file primitives, over an in-memory file store.
- `ConvertUtils`: string splitting, case folding, character removal and replacement, `std::stoi`, and widening.
- `LookUpUtils::LoadLookupTable`: the engine's reader of `lookup.csv`.
- `EventHandler`: the engine's event buffer, keyed by event type.

**Modules:**

| module | contents |
|---|---|
| `Bytes` | bytes, `u32`/`u64`, little-endian encoding (`memcpy` on x86), `uint32_t` wrap-around |
| `Numerals` | what `os << n` and `os << std::hex << n` print, and the value of a digit string |
| `Wrappers` | `Option` |
| `Core` | `Entry`, `Archive`, the comparators, grouping by pack, and `std::map` key order on strings |
| `FileUtils` | the file store as a class `FileSystem` with one `files: map<string, seq<byte>>` field, and `CombinePaths` |
| `ConvertUtils` | the string helpers |
| `Manifest` | what the parse loop makes of a pack definition file |
| `ArchiveFormat` | the bytes of one archive and its layout theorems |
| `Packer` | `PackData`, one method per source loop, and `main` (as `PackAssets`) |
| `LookUpUtils` | `LoadLookupTable` as written, and a corrected reader with its round trip |
| `Events` | `EventHandler` as a class with the buffer map and a ghost log of deleted pointers |

**Points of the code that are easy to misread:**

- **The `+ 1` in the first offset.** This is at `main.cpp:108`. It shifts only the recorded offsets and adds no byte. Every record points one past its file's first byte, and two files of 10 and 20 bytes make an archive of 4 + 12·2 + 30 = 58 bytes (`ArchiveFormat.TwoFileArchive`).
- **Empty manifest line.** `line[0]` of the empty string is `'\0'`, so an empty line is no marker. It becomes an entry named `""`.
- **Index counter.** `currentIndex++` is a `uint32_t` increment and wraps at 2^32.

## Model

| member | source | states |
|---|---|---|
| `Bytes.ToU32` | AssetPackerWin32/main.cpp:40 | the value kept when a `size_t` is stored in a `uint32_t`: n itself below 2^32, and congruent to n modulo 2^32 |
| `Bytes.Inc32` | AssetPackerWin32/main.cpp:46 | `++` on `uint32_t` is addition of 1 modulo 2^32 |
| `Bytes.Inc32OfWrapped` | AssetPackerWin32/main.cpp:46 | one `++` on a counter already reduced modulo 2^32 gives the successor modulo 2^32, so a counter that holds n modulo 2^32 holds n + 1 modulo 2^32 after the step |
| `Bytes.DecodeEncode` | AssetPackerWin32/main.cpp:85 | reading back the little-endian bytes of a value below 256^w gives the value |
| `Bytes.EncodeDecode` | AssetPackerWin32/main.cpp:85 | every byte string is the little-endian encoding of the number it stands for |
| `Bytes.LE32` | AssetPackerWin32/main.cpp:84-85 | `memcpy` of a `uint32_t` gives 4 bytes that decode to the value |
| `Bytes.LE64` | AssetPackerWin32/main.cpp:109-110 | `memcpy` of a `uint64_t` gives 8 bytes that decode to the value |
| `Numerals.Decimal` | AssetPackerWin32/main.cpp:168 | `os << n` for the index and size: a non-empty string of decimal digits, which `Numerals.ValueOfFormat` reads back as n |
| `Numerals.Hex` | AssetPackerWin32/main.cpp:32 | `os << std::hex << n` for the checksum: a non-empty string of hexadecimal digits, which `Numerals.ValueOfFormat` reads back as n |
| `Numerals.Format` | AssetPackerWin32/main.cpp:31-32 | a number printed in a base has digits of that base only, and a leading `0` only for the number 0 |
| `Numerals.ValueOfFormat` | AssetPackerWin32/main.cpp:31-32 | reading the printed digits back in the same base gives the number |
| `Core.Less` | AssetPackerWin32/Core.h:17-20 | `Entry::operator<`: the comparison of `m_Index` alone; its properties are stated by `Core.ComparatorsByIndex` and `Core.LessIsStrictWeakOrder` |
| `Core.Greater` | AssetPackerWin32/Core.h:21-24 | `Entry::operator>`: the reverse comparison of `m_Index`; related to `<` by `Core.ComparatorsByIndex` |
| `Core.ComparatorsByIndex` | AssetPackerWin32/Core.h:17-24 | `a < b` iff a.index < b.index, `a > b` iff a.index > b.index, `a < b` iff `b > a`, and two entries are equivalent iff their indices are equal; name, pack, hash and size play no part |
| `Core.LessIsStrictWeakOrder` | AssetPackerWin32/Core.h:17-20 | `<` is irreflexive and transitive, and equivalence is transitive: the strict weak order `std::sort` needs |
| `Core.SortedPermutationOfConsecutive` | AssetPackerWin32/Core.h:17-20 | any sorted permutation of a group with indices 0..n-1 is the group itself, so position i holds the entry with index i |
| `Core.GroupNonEmpty` | AssetPackerWin32/main.cpp:51-64 | a pack has a non-empty group exactly when some entry names it |
| `Core.GroupMultiset` | AssetPackerWin32/main.cpp:51-64 | grouping loses and invents no entry: each entry of pack p is in p's group as often as in the manifest, and no other entry is |
| `Core.StrLessIsStrictTotalOrder` | AssetPackerWin32/main.cpp:82 | `<` on `std::string` keys is irreflexive, total and transitive |
| `Core.FirstKey` | AssetPackerWin32/main.cpp:82 | every non-empty set of pack names has the first key a `std::map` visits |
| `FileUtils.CombinePaths` | MesaCoreWin32/source/FileUtils.cpp:16-37 | an empty first path gives the second; a first path ending in `/` or `\` is followed directly by the second; any other first path is followed by `/` and then the second; so the result starts with the first path, ends with the second, has exactly one separator between them, and is one longer only when a `/` was inserted |
| `FileUtils.TextBytesOfBytesText` | MesaCoreWin32/source/FileUtils.cpp:118-124 | reading a file as text and writing that text back gives the same bytes |
| `FileUtils.TextBytesConcat` | MesaCoreWin32/source/FileUtils.cpp:118-124 | the bytes of concatenated text are the concatenated bytes |
| `FileUtils.FileSystem.FileExists` | MesaCoreWin32/source/FileUtils.cpp:8-11 | true exactly when the path is in the store |
| `FileUtils.FileSystem.FileSize` | MesaCoreWin32/source/FileUtils.cpp:43-60 | the file's length, or 0 for a missing file |
| `FileUtils.FileSystem.FileSizeSafe` | MesaCoreWin32/source/FileUtils.cpp:66-83 | a value exactly when the file exists, and then its length |
| `FileUtils.FileSystem.MakeFile` | MesaCoreWin32/source/FileUtils.cpp:88-98 | an existing file is left untouched; otherwise an empty file is added; no other file changes |
| `FileUtils.FileSystem.MakeFileWithContent` | MesaCoreWin32/source/FileUtils.cpp:105-116 | the file holds exactly the data, whatever it held before, and no other file changes |
| `FileUtils.FileSystem.MakeTextFileWithContent` | MesaCoreWin32/source/FileUtils.cpp:118-124 | the file holds exactly the text's bytes, and no other file changes |
| `FileUtils.FileSystem.HashFile` | MesaCoreWin32/source/FileUtils.cpp:126-139 | 0 for a missing file, else the CRC-32C of its content |
| `FileUtils.FileSystem.ReadBinaryData` | MesaCoreWin32/source/FileUtils.cpp:147-156 | the whole content, or nothing for a missing file |
| `FileUtils.FileSystem.AppendDataToFile` | MesaCoreWin32/source/FileUtils.cpp:158-170 | the file holds its old content (nothing when missing) followed by the data; no other file changes |
| `ConvertUtils.SplitStringByChar` | MesaCoreWin32/source/ConvertUtils.cpp:17-29 | the `getline` loop returns exactly the pieces of `Split` |
| `ConvertUtils.SplitEmpty` | MesaCoreWin32/source/ConvertUtils.cpp:20-28 | the pieces are none exactly when the string is empty |
| `ConvertUtils.SplitPieceThen` | MesaCoreWin32/source/ConvertUtils.cpp:25-26 | a piece free of the delimiter, then the delimiter, is split off as one piece; interior empty pieces are kept |
| `ConvertUtils.SplitAppendLine` | MesaCoreWin32/source/ConvertUtils.cpp:25-26 | text that is empty or ends in `c`, followed by a piece free of `c` and then `c`, splits into the text's pieces and that one piece more |
| `ConvertUtils.SplitPiecesAvoidDelimiter` | MesaCoreWin32/source/ConvertUtils.cpp:25-26 | no piece contains the delimiter |
| `ConvertUtils.JoinSplit` | MesaCoreWin32/source/ConvertUtils.cpp:17-29 | joining the pieces with the delimiter gives back the string, less one trailing delimiter when it ends in one |
| `ConvertUtils.SplitCount` | MesaCoreWin32/source/ConvertUtils.cpp:17-29 | one piece per delimiter, plus one for text after the last delimiter: interior empty pieces are kept, and a trailing delimiter adds no empty piece |
| `ConvertUtils.ToLowerCase` | MesaCoreWin32/source/ConvertUtils.cpp:52-59 | the length is kept; a character changes exactly when it is `A`..`Z`; no upper-case letter is left |
| `ConvertUtils.LowerCharIdempotent` | MesaCoreWin32/source/ConvertUtils.cpp:57 | lower-casing twice is lower-casing once |
| `ConvertUtils.RemoveCharFromString` | MesaCoreWin32/source/ConvertUtils.cpp:133-138 | the erase-remove gives `Removed(s, c)`: the string with every `c` left out |
| `ConvertUtils.RemovedMultiset` | MesaCoreWin32/source/ConvertUtils.cpp:136 | only the occurrences of `c` are lost: the multiset of characters is the original one with `c` taken out |
| `ConvertUtils.RemovedLength` | MesaCoreWin32/source/ConvertUtils.cpp:136 | the length drops by the number of `c`s, and no `c` is left |
| `ConvertUtils.RemovedOfFree` | MesaCoreWin32/source/ConvertUtils.cpp:136 | a string without `c` is unchanged |
| `ConvertUtils.RemovedIdempotent` | MesaCoreWin32/source/ConvertUtils.cpp:133-138 | removing twice is removing once |
| `ConvertUtils.ReplaceCharInString` | MesaCoreWin32/source/ConvertUtils.cpp:140-145 | the length is kept; position i becomes the replacement if it held the original and is otherwise unchanged; no original is left when the two differ |
| `ConvertUtils.StringToInt` | MesaCoreWin32/source/ConvertUtils.cpp:65-77 | `std::stoi` with both exceptions caught: the result is always inside the `int` range; its value is stated by the lemmas below |
| `ConvertUtils.DecimalPrefixValue` | MesaCoreWin32/source/ConvertUtils.cpp:70 | a number's decimal digits followed by text that starts with no digit read as the number when it fits an `int`, and as 0 when `std::out_of_range` is thrown |
| `ConvertUtils.StringToIntOfDecimal` | MesaCoreWin32/source/ConvertUtils.cpp:65-77 | `std::stoi` of a number's decimal text is the number when it fits an `int`, and the fallback 0 otherwise |
| `ConvertUtils.StringToIntOfNegative` | MesaCoreWin32/source/ConvertUtils.cpp:65-77 | a minus sign before the decimal digits of n gives -n down to the `int` minimum, and 0 below it (`std::out_of_range` caught) |
| `ConvertUtils.StringToIntOfPlus` | MesaCoreWin32/source/ConvertUtils.cpp:65-77 | a plus sign before the decimal digits of n gives n when it fits an `int`, else 0 |
| `ConvertUtils.StringToIntNoDigits` | MesaCoreWin32/source/ConvertUtils.cpp:67-76 | a string holding no decimal digit gives 0 (`std::invalid_argument` caught) |
| `ConvertUtils.StringToIntFallbacks` | MesaCoreWin32/source/ConvertUtils.cpp:67-76 | `""`, `"abc"`, `"-"`, `" +"` and `"deadbeef"` all give 0 |
| `ConvertUtils.SkipSpaceSuffix` | MesaCoreWin32/source/ConvertUtils.cpp:70 | skipping leading white space drops a prefix and keeps the rest of the string as it is |
| `ConvertUtils.StringToIntSkipsSpace` | MesaCoreWin32/source/ConvertUtils.cpp:70 | leading white space does not change the value |
| `ConvertUtils.DigitRunOfDigits` | MesaCoreWin32/source/ConvertUtils.cpp:70 | the digit prefix `std::stoi` reads from a string of digits is the whole string |
| `ConvertUtils.Widen` | MesaCoreWin32/source/ConvertUtils.cpp:11 | one `char` converted to `wchar_t`, sign-extended because `char` is signed; `ConvertUtils.WidenKeepsByte` states what it keeps |
| `ConvertUtils.StringToWideString` | MesaCoreWin32/source/ConvertUtils.cpp:9-12 | the length is kept and each character is widened on its own |
| `ConvertUtils.WidenKeepsByte` | MesaCoreWin32/source/ConvertUtils.cpp:11 | widening keeps each character's low byte, and an ASCII character is unchanged |
| `Manifest.Step` | AssetPackerWin32/main.cpp:21-46 | one loop turn on `currentPackName` and `currentIndex`: a marker sets the pack and resets the index, any other line does `currentIndex++` |
| `Manifest.MakeEntry` | AssetPackerWin32/main.cpp:31-43 | the entry built for a file line: the line as name, the current pack and index, the hexadecimal `HashFile` and the `FileSize` stored in a `uint32_t` |
| `Manifest.Entries` | AssetPackerWin32/main.cpp:18-47 | `v_Entries` after a run of lines: markers emit nothing, other lines one entry each; its properties are stated by the `Manifest` lemmas below |
| `Manifest.EntriesAppend` | AssetPackerWin32/main.cpp:18-47 | one more line: a marker emits nothing, sets the pack to the rest of the line and the index to 0; any other line emits one entry at the current pack and index, and the index goes up by one |
| `Manifest.EntriesLength` | AssetPackerWin32/main.cpp:18-47 | there are as many entries as lines that are not markers |
| `Manifest.EntriesPrefix` | AssetPackerWin32/main.cpp:43 | entries stay in manifest order: those of a prefix of the lines begin those of all the lines |
| `Manifest.EntryOfLine` | AssetPackerWin32/main.cpp:35-43 | the file line at position j gives the entry at position j less the markers before it, with that line as its name and the pack and index current at that line |
| `Manifest.CursorWithoutMarker` | AssetPackerWin32/main.cpp:7-8 | before any marker the pack is `""` and the index counts the lines |
| `Manifest.CursorAfterMarker` | AssetPackerWin32/main.cpp:21-28 | after the latest marker the pack is its name and the index counts the lines since it |
| `Manifest.MarkerNamesOf` | AssetPackerWin32/main.cpp:24 | a pack name is opened exactly when some marker line names it |
| `Manifest.RunInvariant` | AssetPackerWin32/main.cpp:18-47 | for a well-formed manifest, every group read so far carries the indices 0, 1, 2, … in line order |
| `Manifest.GroupsAreConsecutive` | AssetPackerWin32/main.cpp:35-46 | in a well-formed manifest the entries of every pack have indices 0..n-1 in manifest order |
| `Manifest.EntriesOnAgreeingStores` | AssetPackerWin32/main.cpp:31-40 | only the listed files matter: two stores that agree on every line's file give the same entries |
| `Manifest.EmptyLineEntry` | AssetPackerWin32/main.cpp:21-46 | an empty line is an entry named `""` with hash text `"0"` and size 0, at the current pack and index |
| `Manifest.EntriesRecordFiles` | AssetPackerWin32/main.cpp:31-40 | every entry's hash text is the lower-case hexadecimal of its file's checksum (0 when missing), and its size is the file's length modulo 2^32 |
| `Manifest.EntriesNamedByLines` | AssetPackerWin32/main.cpp:37 | every entry's name is one of the manifest's lines |
| `Manifest.EntriesAvoid` | AssetPackerWin32/main.cpp:24-38 | a character no line holds is in no name and no pack |
| `Manifest.ManifestNamesAvoidNewline` | AssetPackerWin32/main.cpp:18 | no name or pack holds a line break |
| `ArchiveFormat.FirstOffset` | AssetPackerWin32/main.cpp:108 | the offset stored for index 0: 4 count bytes, n records of 12 bytes, plus one, as a `uint64_t` |
| `ArchiveFormat.StartPos` | AssetPackerWin32/main.cpp:104-130 | `startPos` for the k-th record: the first offset when the index is 0, else the previous offset plus the previous size, wrapping at 2^64; its closed form is `ArchiveFormat.StartPosClosedForm` |
| `ArchiveFormat.ArchiveImage` | AssetPackerWin32/main.cpp:82-162 | the bytes of one pack: count, directory, then payloads; its layout is stated by `ArchiveFormat.ArchiveLayout` |
| `ArchiveFormat.SumSizesMonotone` | AssetPackerWin32/main.cpp:130 | the running sum of recorded sizes never decreases |
| `ArchiveFormat.StartPosClosedForm` | AssetPackerWin32/main.cpp:104-130 | when nothing wraps, entry k's recorded offset is 4 + 12n + 1 plus the sizes of the entries before it |
| `ArchiveFormat.DirectoryRecord` | AssetPackerWin32/main.cpp:118-146 | record j is bytes 12j..12j+12 of the directory |
| `ArchiveFormat.PayloadSlice` | AssetPackerWin32/main.cpp:156-162 | when every file has its recorded size, file j occupies the bytes from the sum of the sizes before it to that sum plus its own size |
| `ArchiveFormat.PayloadsPrefix` | AssetPackerWin32/main.cpp:156-162 | the payloads of the first j entries begin those of the first k |
| `ArchiveFormat.PayloadsLength` | AssetPackerWin32/main.cpp:156-162 | the payloads are as long as the sum of the recorded sizes |
| `ArchiveFormat.ArchiveLayout` | AssetPackerWin32/main.cpp:82-162 | for indices 0..n-1 and matching sizes: the archive has length 4 + 12n + the sizes, its first 4 bytes decode to n, each record decodes to one past its file's true start and to its size, and each file's bytes lie exactly there |
| `ArchiveFormat.CountOf` | AssetPackerWin32/main.cpp:84-89 | the first 4 bytes of an archive decode to its entry count |
| `ArchiveFormat.RecordOf` | AssetPackerWin32/main.cpp:102-147 | record k inside the archive holds the 8-byte little-endian offset 4 + 12n + 1 + the sizes before it, then the 4-byte size |
| `ArchiveFormat.DecodeRecord` | AssetPackerWin32/main.cpp:118-121 | a record of 8 offset bytes and 4 size bytes decodes back to that offset and size |
| `ArchiveFormat.PayloadOf` | AssetPackerWin32/main.cpp:156-162 | file k's bytes sit after the header at the sum of the sizes before it |
| `ArchiveFormat.EntryLaidOutOf` | AssetPackerWin32/main.cpp:102-162 | each entry is laid out: its record points one past its file's bytes |
| `ArchiveFormat.TwoFileArchive` | AssetPackerWin32/main.cpp:82-162 | for files of 10 and 20 bytes the code writes 4 + 12·2 + 30 = 58 bytes, the `+ 1` at main.cpp:108 shifting only the recorded offsets: a 58-byte archive whose records read offsets 29 and 39 and sizes 10 and 20, with the files at bytes 28..38 and 38..58 |
| `Packer.RowLine` | AssetPackerWin32/main.cpp:168 | one row without its line break: name, pack, decimal index, hash text and decimal size, separated by commas; its fields are stated by `Packer.RowFields` |
| `Packer.LookupText` | AssetPackerWin32/main.cpp:166-171 | the text `oss` holds after the rows of the given entries, in order; read back by `Packer.LookupLines` |
| `Packer.RowLines` | AssetPackerWin32/main.cpp:166-169 | one row line per entry, in order |
| `Packer.LookupLines` | AssetPackerWin32/main.cpp:166-171 | splitting the returned text at line breaks gives back one row per entry in manifest order |
| `Packer.RowFields` | AssetPackerWin32/main.cpp:168 | a row's comma fields are name, pack, decimal index, hash text and decimal size |
| `Packer.DigitsHoldNoComma` | AssetPackerWin32/main.cpp:168 | printed numbers hold no comma |
| `Packer.LookupTable` | AssetPackerWin32/main.cpp:166-174 | the `oss <<` loop produces `LookupText` of the entries |
| `Packer.ParseManifest` | AssetPackerWin32/main.cpp:14-47 | the `getline` loop's entries are `ManifestEntries` of the store |
| `Packer.ParseStep` | AssetPackerWin32/main.cpp:21-46 | one loop turn keeps the loop state: a marker resets the cursor, and any other line appends its entry and increments the index |
| `Packer.GroupByPack` | AssetPackerWin32/main.cpp:51-64 | `archivesMap` has a key for exactly the packs named, each holding that pack's entries in manifest order |
| `Packer.CountByPack` | AssetPackerWin32/main.cpp:67-79 | `numFilesMap` has a key for exactly the packs named, each holding the size of the pack's group modulo 2^32 |
| `Packer.CountStep` | AssetPackerWin32/main.cpp:71-78 | setting 1 for a new pack and `++` for a known one keeps every count equal to its group's size modulo 2^32 |
| `Packer.CountsUpdate` | AssetPackerWin32/main.cpp:71-78 | setting one pack's new count keeps every other pack's count |
| `Packer.WriteCounts` | AssetPackerWin32/main.cpp:82-90 | each pack's file is truncated to exactly the 4 little-endian bytes of its count; no other file changes |
| `Packer.SortByIndex` | AssetPackerWin32/main.cpp:97 | the entries end up sorted by index and are a permutation of the group |
| `Packer.Swap` | AssetPackerWin32/main.cpp:97 | two positions are exchanged and the multiset of entries is kept |
| `Packer.InsertionSwap` | AssetPackerWin32/main.cpp:97 | one exchange keeps the insertion run's sortedness |
| `Packer.InsertionDone` | AssetPackerWin32/main.cpp:97 | the insertion stops with one more entry sorted |
| `Packer.WriteArchive` | AssetPackerWin32/main.cpp:92-163 | one turn of the archive loop: the sorted entries are a permutation of the group; the pack keeps what it held and gains the directory; only the pack changes; when no entry reads the pack, it gains exactly directory and payloads |
| `Packer.AppendDirectory` | AssetPackerWin32/main.cpp:102-147 | the header loop appends exactly n records, with `startPos` and `prevFileSize` carried between entries; no other file changes |
| `Packer.StartPosStep` | AssetPackerWin32/main.cpp:104-130 | the accumulator gives entry k the offset the layout records, in both branches |
| `Packer.AppendPayloads` | AssetPackerWin32/main.cpp:156-162 | the data loop appends each entry's file content in order and only the pack changes; when no entry reads the pack, exactly the payloads are appended |
| `Packer.PackData` | AssetPackerWin32/main.cpp:3-175 | returns the manifest's lookup rows; only packs change; every pack starts with its 4-byte count; for a well-formed manifest none of whose files is a pack, every pack is exactly its archive image |
| `Packer.MissingManifest` | AssetPackerWin32/main.cpp:14 | a manifest that cannot be opened gives no rows and no pack |
| `Packer.WritePacks` | AssetPackerWin32/main.cpp:50-163 | after grouping, counting and the archive loop, only packs change, each starts with its count, and with consecutive indices and no aliasing each is the image of its group |
| `Packer.ArchiveImages` | AssetPackerWin32/main.cpp:82-163 | the count loop followed by the archive loop leaves each pack holding its group's archive image, read from the store before both loops |
| `Packer.WriteArchives` | AssetPackerWin32/main.cpp:92-163 | the archive loop visits packs in `std::map` order; packs keep their counts; other files are unchanged; in the good case each pack gains its directory and payloads |
| `Packer.NoAliasGroups` | AssetPackerWin32/main.cpp:159 | when no listed file is a pack, no group's file is a pack |
| `Packer.PackedArchiveLayout` | AssetPackerWin32/main.cpp:3-175 | for a well-formed manifest over files below 2^32 bytes whose offsets do not wrap, each pack's image has the archive layout: length, count, and each record one past its file |
| `Packer.PackedSizesMatch` | AssetPackerWin32/main.cpp:40 | with every file below 2^32 bytes, each packed entry records its file's exact size |
| `Packer.PayloadsOnAgreeingStores` | AssetPackerWin32/main.cpp:159 | payloads depend only on the files listed |
| `Packer.PackAssets` | AssetPackerWin32/main.cpp:177-203 | `lookup.csv` always begins with the texture rows (none without a texture manifest); when the texture pass writes nothing the material pass reads, it is exactly the texture rows followed by the material rows |
| `Packer.MaterialsUntouched` | AssetPackerWin32/main.cpp:186-194 | the material pass sees its manifest and files as they were when the texture packs are none of them |
| `LookUpUtils.CString` | MesaCoreWin32/source/LookUpUtils.cpp:17 | `c_str()` as `strcmp` sees it: a prefix of the string free of NUL, stopping at the first one |
| `LookUpUtils.EntryOfFields` | MesaCoreWin32/source/LookUpUtils.cpp:27-32 | name and pack are fields 0 and 1 verbatim; index, hash and size are `StringToInt` of fields 2, 3 and 4, stored in `uint32_t` |
| `LookUpUtils.AsWritten` | MesaCoreWin32/source/LookUpUtils.cpp:15-34 | at most one entry per line |
| `LookUpUtils.LoadedIsAsWritten` | MesaCoreWin32/source/LookUpUtils.cpp:15-35 | the skip test never fires, and every line yields the entry of the whole file's fields, or nothing when there are fewer than 5 |
| `LookUpUtils.LoadLookupTable` | MesaCoreWin32/source/LookUpUtils.cpp:7-38 | the loop returns `AsWritten` of the text: empty, or one copy per line of the entry of the whole file's first five fields |
| `LookUpUtils.LookupTextFront` | AssetPackerWin32/main.cpp:166-169 | the packer's text starts with its first row |
| `LookUpUtils.WholeTextFields` | MesaCoreWin32/source/LookUpUtils.cpp:19 | the first five comma fields of the whole text are those of its first row |
| `LookUpUtils.AsWrittenRepeatsFirstRow` | MesaCoreWin32/source/LookUpUtils.cpp:19-34 | loading what the packer wrote for n entries gives n entries, each with the first row's name and pack |
| `LookUpUtils.SecondRowLost` | MesaCoreWin32/source/LookUpUtils.cpp:19 | for the lookup text of files `a` and `b`, both loaded entries are named `a` |
| `LookUpUtils.HashReadAsDecimal` | MesaCoreWin32/source/LookUpUtils.cpp:31 | worked example: the hash 31 is written `1f` and read back as 1 |
| `LookUpUtils.HashReadBackIff` | MesaCoreWin32/source/LookUpUtils.cpp:31 | for every `uint32_t` hash, the decimal read-back of its hexadecimal text gives the hash exactly when it is below 10: from 10 up every hash comes back wrong, those whose hexadecimal text has no letter (such as 0x10, read as 10) included |
| `LookUpUtils.StringToIntOfDigitStart` | MesaCoreWin32/source/ConvertUtils.cpp:65-77 | a text starting with a digit is read by `StringToInt` as the value of its leading decimal digits, or 0 when there are none or they exceed the `int` range |
| `LookUpUtils.HexRun` | MesaCoreWin32/source/LookUpUtils.cpp:31 | the longest prefix of hexadecimal digits |
| `LookUpUtils.ParseHex` | MesaCoreWin32/source/LookUpUtils.cpp:31 | the corrected reading of the hash field: the value of its leading hexadecimal digits, as a `uint32_t`; `LookUpUtils.ParseHexOfHex` states the round trip |
| `LookUpUtils.ParseHexOfHex` | MesaCoreWin32/source/LookUpUtils.cpp:31 | a hash written in hexadecimal reads back as itself |
| `LookUpUtils.ParseRow` | MesaCoreWin32/source/LookUpUtils.cpp:19-32 | a line gives an entry exactly when it has at least five fields |
| `LookUpUtils.Rows` | MesaCoreWin32/source/LookUpUtils.cpp:15-35 | at most one entry per line |
| `LookUpUtils.LoadLookupTableFixed` | MesaCoreWin32/source/LookUpUtils.cpp:7-38 | the corrected loop, with fields split from each line and the hash read in hexadecimal, returns `Rows` of the lines |
| `LookUpUtils.ReadableRow` | MesaCoreWin32/source/LookUpUtils.cpp:19-32 | a row free of commas and line breaks parses back to its entry |
| `LookUpUtils.ReadBacks` | MesaCoreWin32/include/Mesa/LookUpUtils.h:6-13 | one read-back entry per packer entry, in order |
| `LookUpUtils.RowsOfRowLines` | MesaCoreWin32/source/LookUpUtils.cpp:15-35 | the corrected loop reads each row line back to its entry |
| `LookUpUtils.ReadBack` | MesaCoreWin32/source/LookUpUtils.cpp:7-38 | round trip: the corrected reader gives back, in order, one entry per row the packer wrote |
| `LookUpUtils.PackedRowsReadBack` | MesaCoreWin32/source/LookUpUtils.cpp:7-38 | for a manifest's rows, the corrected reader returns each entry's name, pack, index, the file's checksum and size |
| `Events.Freed` | MesaCoreWin32/source/Event.cpp:44 | `delete` releases one object, or none for a null pointer |
| `Events.LeastExists` | MesaCoreWin32/source/Event.cpp:42 | every non-empty set of types has a least element |
| `Events.TypeOrder` | MesaCoreWin32/source/Event.cpp:42 | a range-for over the buffer visits each stored type once, in strictly ascending order |
| `Events.ReleasedStep` | MesaCoreWin32/source/Event.cpp:42-45 | one more visited type releases that type's pointer |
| `Events.ReleasedWereStored` | MesaCoreWin32/source/Event.cpp:42-45 | only stored pointers are released |
| `Events.ReleasedCount` | MesaCoreWin32/source/Event.cpp:42-45 | visiting each type once releases a pointer stored under a visited type exactly once, and one under an unvisited type not at all |
| `Events.ClearReleasesOnce` | MesaCoreWin32/source/Event.cpp:40-47 | clearing releases only stored pointers, and each stored non-null pointer exactly once when no pointer is stored under two types |
| `Events.Emplace` | MesaCoreWin32/source/Event.cpp:34 | `emplace` adds the type; every stored type keeps its pointer; a new type gets the given pointer |
| `Events.FirstAddWins` | MesaCoreWin32/source/Event.cpp:34 | after a run of additions a type is present iff it was stored or added; a stored type keeps its pointer; otherwise the type holds the pointer of its first addition |
| `Events.EventHandler.constructor` | MesaCoreWin32/source/Event.cpp:10-11 | the buffer starts empty and nothing is deleted |
| `Events.EventHandler.AddEventToBuffer` | MesaCoreWin32/source/Event.cpp:29-35 | the type, also type 0, is afterwards present; a present type keeps its pointer and the buffer is unchanged; otherwise only that type is added, with the given pointer; nothing is deleted |
| `Events.EventHandler.ClearEventBuffer` | MesaCoreWin32/source/Event.cpp:40-47 | the buffer is empty, and the pointers deleted are the stored ones in ascending type order |
| `Events.EventHandler.DeleteInOrder` | MesaCoreWin32/source/Event.cpp:42-45 | the delete loop releases the pointers of the visited types in order and leaves the buffer as it is |
| `Events.EventHandler.GetEventBuffer` | MesaCoreWin32/source/Event.cpp:52-55 | the buffer itself |
| `Events.EventHandler.Destroy` | MesaCoreWin32/source/Event.cpp:17-24 | the destructor deletes the stored pointers in ascending type order and leaves the buffer empty |

## Left out

- CRC-32C: the checksum function (section 12.1 of RFC 3720) is a parameter `crc32c`. Its internals and `HashData` are not modelled.
- File system: the source's `FileUtils` is a stateless static class over the operating system's files. The model stands in for that with one in-memory store, the class `FileUtils.FileSystem`, whose constructor models no source lines. File I/O is modelled on that map. Failure modes are not modelled: a file that exists but cannot be opened, a failed write, a full disk. Nor is the difference between a directory and a file.
- Path identity: a file is named by the exact text of its path. Windows folds case and normalises paths (`Tex.pak` and `tex.pak`, or `a` and `./a`, are one file); the model does neither, so `NoAlias` and every "no other file changes" clause tell paths apart as strings.
- The empty path: opening `""` fails in the source, so a pack opened by a bare `$` line gets no bytes. The model stores a file under `""` like any other. The exact-image clauses exclude the case through `WellFormed`; the clauses that hold for every manifest (only packs change, each starts with its count) still count the pack `""` among the written files.
- Text mode: `MakeFileWithContent` for a `std::string`, and reading a manifest as text, are modelled as byte-for-byte. Windows CRLF translation is not modelled.
- Logging: the `LOG_F` calls have no effect on the model. That includes the warning for event type 0 and the message for a short lookup row.
- `ReadTextData` is only declared. `LookUpUtils.LoadLookupTable` therefore takes the text of `lookup.csv` as its parameter.
- `FindFilePack`, `FindFileIndex` and `LoadSpecificPackInfo` are only declared. They are not modelled.
- `SortByIndex`: `std::sort` leaves the order of equal indices unspecified. The model sorts by insertion. Only order on the index and the permutation are stated. `Core.SortedPermutationOfConsecutive` shows the outcome is unique when the indices are 0..n-1.
- `Packer.PackData`, `Packer.WritePacks`, `Packer.PackedArchiveLayout`: the manifest's shape is not a precondition. It is the condition of an implication:
  - at most one marker per pack name, no file line before the first marker, no marker line that is a bare `$`, and fewer than 2^32 manifest lines, so `currentIndex` never wraps (`WellFormed`);
  - no listed file is a pack (`NoAlias`);
  - every listed file below 2^32 bytes (`SmallFiles`);
  - offsets below 2^64 (`Fits`).

  Outside those conditions the model still states what is always true: only packs change, and each starts with its count.
- `Packer.PackAssets`: the exact content of `lookup.csv` is stated only when the texture pass writes no file the material pass reads. Otherwise only its texture prefix is stated.
- `Packer.WriteArchive`, `Packer.AppendDirectory`, `Packer.AppendPayloads` require the pack file to exist. `Packer.WriteCounts` always creates it first.
- Event payloads: the fields of the derived event structs are not modelled, because the buffer never reads them.
- `Events.EventHandler.Destroy` stands for the destructor. Object lifetime and the static singleton are not modelled.
- `Events.EventHandler.GetEventBuffer` returns a copy of the map. Changes callers make through the returned reference are not modelled.
- Pointers stored under two types would be deleted twice. The model states exact-once release under the condition that no pointer is repeated (`DistinctPointers`).
- The float and matrix helpers of `ConvertUtils` (`StringToFloat` and the DirectX/glm conversions) are not modelled: they use floating point.
- Graphics, windowing, the material editor, compression and configuration code are not modelled: they are outside the packer.
- `ConvertUtils.StringToInt`: the C locale is assumed. Only ASCII white space and digits are recognised.

## Findings

| source | as written | input that shows it | evidently intended | confidence | as-written member | corrected member |
|---|---|---|---|---|---|---|
| MesaCoreWin32/source/LookUpUtils.cpp:19 | the fields are split from the whole `fileData` instead of from `line`, so every line yields the first row's entry | the lookup text the packer writes for files `a` and `b` in one pack: both loaded entries are named `a` | fields taken from each line, one entry per row | not executed | `LookUpUtils.SecondRowLost` | `LookUpUtils.ReadBack` |
| MesaCoreWin32/source/LookUpUtils.cpp:31 | the hash is read with `StringToInt`, in decimal, but the packer writes it in hexadecimal (AssetPackerWin32/main.cpp:32) | every checksum of 10 or more; for instance 31, written as `1f` and read back as 1 | the hash read in hexadecimal, giving the checksum back | not executed | `LookUpUtils.HashReadBackIff` | `LookUpUtils.ParseHexOfHex` |
