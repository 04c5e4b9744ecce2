/** The engine's file utilities over an abstract file store: a map from path
    to the bytes the file holds. A path that is not in the map names no file. */
module FileUtils {
  import opened Bytes
  import opened Wrappers

  // ---------------------------------------------------------------------
  // CombinePaths

  predicate IsSeparator(ch: char) {
    ch == '/' || ch == '\\'
  }

  /** Joins two paths so that exactly the one separator `path1` may already
      end with, or else one '/', stands between them; an empty `path1`
      gives `path2` unchanged (no leading separator). */
  function CombinePaths(path1: string, path2: string): (r: string)
    ensures path1 == "" ==> r == path2
    ensures |r| == |path1| + |path2| + (if path1 != "" && !IsSeparator(path1[|path1| - 1]) then 1 else 0)
    ensures r[..|path1|] == path1
    ensures r[|r| - |path2|..] == path2
    ensures path1 != "" ==> IsSeparator(r[|r| - |path2| - 1])
    ensures path1 != "" && IsSeparator(path1[|path1| - 1]) ==> r == path1 + path2
    ensures path1 != "" && !IsSeparator(path1[|path1| - 1]) ==> r == path1 + "/" + path2
  {
    if path1 == "" then path2
    else if IsSeparator(path1[|path1| - 1]) then path1 + path2
    else path1 + "/" + path2
  }

  // ---------------------------------------------------------------------
  // The file store

  type Path = string
  type Store = map<Path, seq<byte>>

  /** What reading the whole file gives: its bytes, or nothing when absent. */
  function Content(fs: Store, path: Path): seq<byte> {
    if path in fs then fs[path] else []
  }

  /** `HashFile`: the CRC of the content, or 0 for a missing file. */
  function Checksum(fs: Store, path: Path, crc32c: seq<byte> -> u32): u32 {
    if path in fs then crc32c(fs[path]) else 0
  }

  /** Two stores that agree on `path`: same presence, same bytes. */
  predicate SameFile(fs: Store, fs': Store, path: Path) {
    (path in fs <==> path in fs') && (path in fs ==> fs[path] == fs'[path])
  }

  /** The bytes of text as written to a file: each character stands for the
      byte with its code. */
  function TextBytes(text: string): (bs: seq<byte>)
    ensures |bs| == |text|
  {
    seq(|text|, i requires 0 <= i < |text| => (text[i] as int % 256) as byte)
  }

  /** The text a file's bytes are read as. */
  function BytesText(bs: seq<byte>): (text: string)
    ensures |text| == |bs|
  {
    seq(|bs|, i requires 0 <= i < |bs| => bs[i] as char)
  }

  lemma TextBytesOfBytesText(bs: seq<byte>)
    ensures TextBytes(BytesText(bs)) == bs
  {
  }

  lemma TextBytesConcat(a: string, b: string)
    ensures TextBytes(a + b) == TextBytes(a) + TextBytes(b)
  {
  }

  /** The file system the static `FileUtils` members act on. */
  class FileSystem {
    var files: Store

    constructor (initial: Store)
      ensures files == initial
    {
      files := initial;
    }

    /** `FileExists` */
    method FileExists(path: Path) returns (found: bool)
      ensures found == (path in files)
    {
      found := path in files;
    }

    /** `FileSize`: the size in bytes, or 0 when the file cannot be measured. */
    method FileSize(path: Path) returns (size: nat)
      ensures path in files ==> size == |files[path]|
      ensures path !in files ==> size == 0
    {
      if path in files {
        size := |files[path]|;
      } else {
        size := 0;
      }
    }

    /** `FileSizeSafe`: the size in bytes, or no value when the file cannot be
        measured. */
    method FileSizeSafe(path: Path) returns (size: Option<nat>)
      ensures size.Some? <==> path in files
      ensures size.Some? ==> size.value == |files[path]|
    {
      if path in files {
        size := Some(|files[path]|);
      } else {
        size := None;
      }
    }

    /** `MakeFile`: creates an empty file, leaving an existing one untouched. */
    method MakeFile(path: Path)
      modifies this
      ensures path in old(files) ==> files == old(files)
      ensures path !in old(files) ==> files == old(files)[path := []]
    {
      if path !in files {
        files := files[path := []];
      }
    }

    /** `MakeFileWithContent` (binary overload): the file holds exactly `data`
        afterwards, whatever it held before. */
    method MakeFileWithContent(path: Path, data: seq<byte>)
      modifies this
      ensures files == old(files)[path := data]
    {
      files := files[path := data];
    }

    /** `MakeFileWithContent` (text overload). */
    method MakeTextFileWithContent(path: Path, text: string)
      modifies this
      ensures files == old(files)[path := TextBytes(text)]
    {
      files := files[path := TextBytes(text)];
    }

    /** `HashFile`: 0 for a missing file, else the CRC-32C of its content. */
    method HashFile(path: Path, crc32c: seq<byte> -> u32) returns (hash: u32)
      ensures path !in files ==> hash == 0
      ensures path in files ==> hash == crc32c(files[path])
    {
      if path !in files {
        return 0;
      }
      var buffer := files[path];
      hash := crc32c(buffer);
    }

    /** `ReadBinaryData`: the whole content, or nothing for a missing file. */
    method ReadBinaryData(path: Path) returns (data: seq<byte>)
      ensures path in files ==> data == files[path]
      ensures path !in files ==> data == []
    {
      if path !in files {
        return [];
      }
      data := files[path];
    }

    /** `AppendDataToFile`: opened in append mode, created when missing. */
    method AppendDataToFile(path: Path, data: seq<byte>)
      modifies this
      ensures files == old(files)[path := Content(old(files), path) + data]
    {
      files := files[path := Content(files, path) + data];
    }
  }
}
