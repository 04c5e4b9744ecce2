/** String helpers of the engine's conversion utilities. A `std::string` is a
    sequence of bytes; the model keeps it as a `string` whose characters stand
    for those bytes. */
module ConvertUtils {
  import opened Numerals

  // ---------------------------------------------------------------------
  // SplitStringByChar: repeated std::getline(stream, piece, c)

  /** The pieces `std::getline(iss, piece, c)` extracts from `s` until it
      fails: each call takes the characters up to the next `c` and discards
      that `c`; a call that finds the stream already at its end fails. */
  function Split(s: string, c: char): seq<string>
  {
    if s == [] then []
    else if s[0] == c then [""] + Split(s[1..], c)
    else
      var rest := Split(s[1..], c);
      if rest == [] then [s[..1]] else [s[..1] + rest[0]] + rest[1..]
  }

  /** The pieces put back together with `c` between neighbours. */
  function Join(pieces: seq<string>, c: char): string
  {
    if pieces == [] then ""
    else if |pieces| == 1 then pieces[0]
    else pieces[0] + [c] + Join(pieces[1..], c)
  }

  predicate EndsWith(s: string, c: char) {
    |s| > 0 && s[|s| - 1] == c
  }

  lemma SplitEmpty(s: string, c: char)
    ensures (Split(s, c) == []) == (s == [])
  {
  }

  /** A piece free of `c`, then `c`: getline returns the piece and goes on
      after the delimiter. */
  lemma {:induction false} SplitPieceThen(piece: string, c: char, rest: string)
    requires c !in piece
    ensures Split(piece + [c] + rest, c) == [piece] + Split(rest, c)
  {
    var s := piece + [c] + rest;
    if piece == [] {
      assert s[0] == c && s[1..] == rest;
    } else {
      assert s[1..] == piece[1..] + [c] + rest;
      SplitPieceThen(piece[1..], c, rest);
      assert s[..1] + piece[1..] == piece;
    }
  }

  /** Appending a line that holds no break, and the break, adds one piece. */
  lemma {:induction false} SplitAppendLine(text: string, line: string, c: char)
    requires text == [] || EndsWith(text, c)
    requires c !in line
    ensures Split(text + line + [c], c) == Split(text, c) + [line]
    decreases |text|
  {
    if text == [] {
      assert text + line + [c] == line + [c] + [];
      SplitPieceThen(line, c, []);
    } else {
      var t := text[1..];
      var whole := text + line + [c];
      assert whole[1..] == t + line + [c];
      assert t != [] ==> EndsWith(t, c);
      SplitAppendLine(t, line, c);
      var pieces := Split(t, c);
      if text[0] == c {
        assert [""] + (pieces + [line]) == [""] + pieces + [line];
      } else {
        SplitEmpty(t, c);
        assert pieces != [];
        var rest := pieces + [line];
        assert whole[..1] == text[..1];
        assert rest[0] == pieces[0] && rest[1..] == pieces[1..] + [line];
        assert [text[..1] + pieces[0]] + (pieces[1..] + [line]) == [text[..1] + pieces[0]] + pieces[1..] + [line];
      }
    }
  }

  /** A final piece free of `c` and not empty: getline returns it and then
      fails at the end of the stream. */
  lemma {:induction false} SplitLastPiece(piece: string, c: char)
    requires c !in piece && piece != []
    ensures Split(piece, c) == [piece]
  {
    if |piece| > 1 {
      SplitLastPiece(piece[1..], c);
      assert piece[..1] + piece[1..] == piece;
    } else {
      assert piece[1..] == [] && piece[..1] == piece;
    }
  }

  lemma {:induction false} SplitPiecesAvoidDelimiter(s: string, c: char)
    ensures forall i :: 0 <= i < |Split(s, c)| ==> c !in Split(s, c)[i]
  {
    if s != [] {
      SplitPiecesAvoidDelimiter(s[1..], c);
    }
  }

  /** Text put in front of the first piece comes out in front of the join. */
  lemma JoinPrefixFirst(x: string, pieces: seq<string>, c: char)
    requires pieces != []
    ensures Join([x + pieces[0]] + pieces[1..], c) == x + Join(pieces, c)
  {
    var ps := [x + pieces[0]] + pieces[1..];
    assert ps[1..] == pieces[1..];
  }

  /** An empty first piece contributes only its delimiter. */
  lemma JoinEmptyFirst(pieces: seq<string>, c: char)
    requires pieces != []
    ensures Join([""] + pieces, c) == [c] + Join(pieces, c)
  {
    assert ([""] + pieces)[1..] == pieces;
  }

  /** Joining the pieces gives back the text, minus one trailing delimiter. */
  lemma {:induction false} JoinSplit(s: string, c: char)
    ensures Join(Split(s, c), c) == if EndsWith(s, c) then s[..|s| - 1] else s
  {
    if s != [] {
      var t := s[1..];
      if t == [] {
        assert s == s[..1];
      } else {
        var rest := Split(t, c);
        JoinSplit(t, c);
        SplitEmpty(t, c);
        var jt := if EndsWith(t, c) then t[..|t| - 1] else t;
        if s[0] == c {
          JoinEmptyFirst(rest, c);
          assert s[..1] == [c];
        } else {
          JoinPrefixFirst(s[..1], rest, c);
        }
        assert Join(Split(s, c), c) == s[..1] + jt;
        assert EndsWith(s, c) == EndsWith(t, c);
        if EndsWith(s, c) {
          assert t[..|t| - 1] == s[1..|s| - 1];
          assert s[..|s| - 1] == s[..1] + s[1..|s| - 1];
        } else {
          assert s == s[..1] + t;
        }
      }
    }
  }

  /** One piece per delimiter, plus one for text after the last delimiter:
      interior empty fields are kept, a trailing delimiter adds no empty piece. */
  lemma {:induction false} SplitCount(s: string, c: char)
    ensures |Split(s, c)| == multiset(s)[c] + (if s == [] || EndsWith(s, c) then 0 else 1)
  {
    if s != [] {
      var t := s[1..];
      SplitCount(t, c);
      SplitEmpty(t, c);
      assert s == [s[0]] + t;
      assert multiset(s)[c] == (if s[0] == c then 1 else 0) + multiset(t)[c];
      assert t != [] ==> EndsWith(s, c) == EndsWith(t, c);
    }
  }

  /** The piece of `s` from `start` up to the next delimiter at `pos`, or up to
      the end, is the first piece of the split of what follows `start`; the
      rest is the split of what follows that delimiter. */
  lemma SplitFrom(s: string, c: char, start: nat, pos: nat)
    requires start < |s| && start <= pos <= |s|
    requires forall k :: start <= k < pos ==> s[k] != c
    requires pos < |s| ==> s[pos] == c
    ensures Split(s[start..], c) == [s[start..pos]] + Split(s[if pos < |s| then pos + 1 else pos..], c)
  {
    var piece := s[start..pos];
    assert c !in piece by {
      forall k | 0 <= k < |piece| ensures piece[k] != c {
        assert piece[k] == s[start + k];
      }
    }
    if pos < |s| {
      assert s[start..] == piece + [c] + s[pos + 1..];
      SplitPieceThen(piece, c, s[pos + 1..]);
    } else {
      assert s[start..] == piece;
      SplitLastPiece(piece, c);
      assert s[pos..] == [];
    }
  }

  /** One round of the loop below: the piece found from `start` extends the
      pieces so far, and the split of what remains completes them. */
  lemma SplitStep(s: string, c: char, pieces: seq<string>, start: nat, pos: nat)
    requires start < |s| && start <= pos <= |s|
    requires forall k :: start <= k < pos ==> s[k] != c
    requires pos < |s| ==> s[pos] == c
    requires pieces + Split(s[start..], c) == Split(s, c)
    ensures (pieces + [s[start..pos]]) + Split(s[if pos < |s| then pos + 1 else pos..], c) == Split(s, c)
  {
    SplitFrom(s, c, start, pos);
    var rest := Split(s[if pos < |s| then pos + 1 else pos..], c);
    assert pieces + ([s[start..pos]] + rest) == (pieces + [s[start..pos]]) + rest;
  }

  method SplitStringByChar(s: string, c: char) returns (pieces: seq<string>)
    ensures pieces == Split(s, c)
  {
    pieces := [];
    var pos := 0;
    assert s[pos..] == s;
    while pos < |s|
      invariant 0 <= pos <= |s|
      invariant pieces + Split(s[pos..], c) == Split(s, c)
      decreases |s| - pos
    {
      var start := pos;
      var split := "";
      while pos < |s| && s[pos] != c
        invariant start <= pos <= |s|
        invariant split == s[start..pos]
        invariant forall k :: start <= k < pos ==> s[k] != c
      {
        split := split + [s[pos]];
        pos := pos + 1;
      }
      SplitStep(s, c, pieces, start, pos);
      pieces := pieces + [split];
      pos := if pos < |s| then pos + 1 else pos;
    }
    assert Split(s[pos..], c) == [];
  }

  // ---------------------------------------------------------------------
  // ToLowerCase: std::transform with std::tolower in the "C" locale

  function LowerChar(ch: char): char {
    if 'A' <= ch <= 'Z' then (ch as int + 32) as char else ch
  }

  predicate IsUpper(ch: char) {
    'A' <= ch <= 'Z'
  }

  method ToLowerCase(s: string) returns (result: string)
    ensures |result| == |s|
    ensures forall i :: 0 <= i < |s| ==> result[i] == LowerChar(s[i])
    ensures forall i :: 0 <= i < |s| ==> (result[i] != s[i] <==> IsUpper(s[i]))
    ensures forall i :: 0 <= i < |s| ==> !IsUpper(result[i])
  {
    var a := new char[|s|](i requires 0 <= i < |s| => s[i]);
    for i := 0 to a.Length
      invariant forall j :: 0 <= j < i ==> a[j] == LowerChar(s[j])
      invariant forall j :: i <= j < a.Length ==> a[j] == s[j]
    {
      a[i] := LowerChar(a[i]);
    }
    result := a[..];
  }

  /** Lower-casing twice is lower-casing once. */
  lemma LowerCharIdempotent(ch: char)
    ensures LowerChar(LowerChar(ch)) == LowerChar(ch)
  {
  }

  // ---------------------------------------------------------------------
  // RemoveCharFromString: the erase-remove idiom

  /** `s` with every `c` left out and the other characters kept in order. */
  function Removed(s: string, c: char): string
  {
    if s == [] then []
    else Removed(s[..|s| - 1], c) + (if s[|s| - 1] == c then [] else [s[|s| - 1]])
  }

  method RemoveCharFromString(s: string, c: char) returns (result: string)
    ensures result == Removed(s, c)
  {
    var a := new char[|s|](i requires 0 <= i < |s| => s[i]);
    // std::remove: compact the kept characters to the front
    var w := 0;
    var i := 0;
    while i < a.Length
      invariant 0 <= w <= i <= a.Length
      invariant a[..w] == Removed(s[..i], c)
      invariant forall k :: i <= k < a.Length ==> a[k] == s[k]
    {
      assert s[..i + 1][..i] == s[..i];
      ghost var kept := a[..w];
      if a[i] != c {
        a[w] := a[i];
        w := w + 1;
        assert a[..w] == kept + [s[i]];
      }
      i := i + 1;
    }
    assert s[..i] == s;
    // erase: drop what lies past the new end
    result := a[..w];
  }

  /** Only the occurrences of `c` are lost. */
  lemma {:induction false} RemovedMultiset(s: string, c: char)
    ensures multiset(Removed(s, c)) == multiset(s)[c := 0]
  {
    if s != [] {
      var init := s[..|s| - 1];
      RemovedMultiset(init, c);
      assert s == init + [s[|s| - 1]];
    }
  }

  lemma RemovedLength(s: string, c: char)
    ensures |Removed(s, c)| == |s| - multiset(s)[c]
    ensures c !in Removed(s, c)
  {
    RemovedMultiset(s, c);
    assert c in Removed(s, c) ==> multiset(Removed(s, c))[c] > 0;
  }

  lemma {:induction false} RemovedOfFree(s: string, c: char)
    requires c !in s
    ensures Removed(s, c) == s
  {
    if s != [] {
      RemovedOfFree(s[..|s| - 1], c);
    }
  }

  /** Removing twice is removing once. */
  lemma RemovedIdempotent(s: string, c: char)
    ensures Removed(Removed(s, c), c) == Removed(s, c)
  {
    RemovedLength(s, c);
    RemovedOfFree(Removed(s, c), c);
  }

  // ---------------------------------------------------------------------
  // ReplaceCharInString: std::replace

  method ReplaceCharInString(s: string, original: char, replacement: char) returns (result: string)
    ensures |result| == |s|
    ensures forall i :: 0 <= i < |s| ==> result[i] == if s[i] == original then replacement else s[i]
    ensures original != replacement ==> original !in result
  {
    var a := new char[|s|](i requires 0 <= i < |s| => s[i]);
    for i := 0 to a.Length
      invariant forall j :: 0 <= j < i ==> a[j] == if s[j] == original then replacement else s[j]
      invariant forall j :: i <= j < a.Length ==> a[j] == s[j]
    {
      if a[i] == original {
        a[i] := replacement;
      }
    }
    result := a[..];
  }

  // ---------------------------------------------------------------------
  // StringToInt: std::stoi, with 0 for either exception it throws

  const INT_MIN: int := -0x8000_0000
  const INT_MAX: int := 0x7FFF_FFFF

  /** `isspace` in the "C" locale. */
  predicate IsSpace(ch: char) {
    ch == ' ' || ch == '\t' || ch == '\n' || ch == '\r' || ch as int == 11 || ch as int == 12
  }

  function SkipSpace(s: string): (t: string)
    ensures t == [] || !IsSpace(t[0])
  {
    if s != [] && IsSpace(s[0]) then SkipSpace(s[1..]) else s
  }

  /** Length of the longest prefix of decimal digits. */
  function DigitRun(s: string): (k: nat)
    ensures k <= |s| && AllDigits(s[..k], 10)
    ensures k < |s| ==> !IsDigit(s[k], 10)
  {
    if s != [] && IsDigit(s[0], 10) then 1 + DigitRun(s[1..]) else 0
  }

  /** `std::stoi(s)`: optional leading white space, an optional sign, then
      the longest run of decimal digits. No digits throws
      `std::invalid_argument` and a value outside `int` throws
      `std::out_of_range`; both are caught and give 0. */
  function StringToInt(s: string): (r: int)
    ensures INT_MIN <= r <= INT_MAX
  {
    var t := SkipSpace(s);
    var signed := |t| > 0 && (t[0] == '-' || t[0] == '+');
    var u := if signed then t[1..] else t;
    var k := DigitRun(u);
    if k == 0 then 0
    else
      var v: int := if signed && t[0] == '-' then 0 - Value(u[..k], 10) else Value(u[..k], 10);
      if INT_MIN <= v <= INT_MAX then v else 0
  }

  lemma {:induction false} DigitRunOfDigits(d: string, rest: string)
    requires AllDigits(d, 10)
    requires rest == [] || !IsDigit(rest[0], 10)
    ensures DigitRun(d + rest) == |d|
  {
    if d != [] {
      assert (d + rest)[1..] == d[1..] + rest;
      DigitRunOfDigits(d[1..], rest);
    }
  }

  /** The digits printed for `n`, followed by anything that does not start
      with a digit, read back as `n` when it fits in an `int` and as 0 when
      it does not. */
  lemma DecimalPrefixValue(n: nat, rest: string)
    requires rest == [] || !IsDigit(rest[0], 10)
    ensures StringToInt(Decimal(n) + rest) == if n <= INT_MAX then n else 0
  {
    var d := Decimal(n);
    assert IsDigit(d[0], 10);
    assert (d + rest)[0] == d[0];
    DigitRunOfDigits(d, rest);
    assert (d + rest)[..|d|] == d;
    ValueOfFormat(n, 10);
  }

  lemma StringToIntOfDecimal(n: nat)
    ensures StringToInt(Decimal(n)) == if n <= INT_MAX then n else 0
  {
    DecimalPrefixValue(n, "");
    assert Decimal(n) + "" == Decimal(n);
  }

  /** A minus sign in front negates, down to the `int` minimum; below it
      `std::out_of_range` gives 0. */
  lemma StringToIntOfNegative(n: nat)
    ensures StringToInt("-" + Decimal(n)) == if n <= -INT_MIN then -(n as int) else 0
  {
    var d := Decimal(n);
    assert ("-" + d)[1..] == d;
    DigitRunOfDigits(d, "");
    assert d + "" == d;
    ValueOfFormat(n, 10);
  }

  /** A plus sign in front changes nothing. */
  lemma StringToIntOfPlus(n: nat)
    ensures StringToInt("+" + Decimal(n)) == if n <= INT_MAX then n else 0
  {
    var d := Decimal(n);
    assert ("+" + d)[1..] == d;
    DigitRunOfDigits(d, "");
    assert d + "" == d;
    ValueOfFormat(n, 10);
  }

  /** Skipping white space drops a prefix. */
  lemma {:induction false} SkipSpaceSuffix(s: string)
    ensures |SkipSpace(s)| <= |s| && SkipSpace(s) == s[|s| - |SkipSpace(s)|..]
  {
    if s != [] && IsSpace(s[0]) {
      SkipSpaceSuffix(s[1..]);
    }
  }

  /** `std::invalid_argument`: a string holding no decimal digit at all
      gives 0. */
  lemma StringToIntNoDigits(s: string)
    requires forall i :: 0 <= i < |s| ==> !IsDigit(s[i], 10)
    ensures StringToInt(s) == 0
  {
    SkipSpaceSuffix(s);
  }

  /** Inputs with nothing `std::stoi` can read: empty, letters only, a
      lone sign, hexadecimal letters. */
  lemma StringToIntFallbacks()
    ensures StringToInt("") == 0 && StringToInt("abc") == 0
    ensures StringToInt("-") == 0 && StringToInt(" +") == 0 && StringToInt("deadbeef") == 0
  {
    StringToIntNoDigits("abc");
    StringToIntNoDigits("-");
    StringToIntNoDigits(" +");
    StringToIntNoDigits("deadbeef");
  }

  lemma SameAfterSpace(a: string, b: string)
    requires SkipSpace(a) == SkipSpace(b)
    ensures StringToInt(a) == StringToInt(b)
  {
  }

  /** Leading white space is skipped. */
  lemma {:induction false} StringToIntSkipsSpace(w: string, s: string)
    requires forall i :: 0 <= i < |w| ==> IsSpace(w[i])
    ensures StringToInt(w + s) == StringToInt(s)
  {
    if w == [] {
      assert w + s == s;
    } else {
      assert (w + s)[1..] == w[1..] + s;
      StringToIntSkipsSpace(w[1..], s);
      assert (w + s)[0] == w[0];
      assert SkipSpace(w + s) == SkipSpace(w[1..] + s);
      SameAfterSpace(w + s, w[1..] + s);
    }
  }

  // ---------------------------------------------------------------------
  // StringToWideString: std::wstring(s.begin(), s.end())

  /** `wchar_t` on Windows. */
  type wchar = x: int | 0 <= x < 0x1_0000

  /** `char` is signed on this platform: a byte from 0x80 up is a negative
      `char` and converts to `wchar_t` sign-extended. */
  function Widen(ch: char): wchar {
    var b := ch as int % 256;
    if b < 128 then b else b + 0xFF00
  }

  function StringToWideString(s: string): (w: seq<wchar>)
    ensures |w| == |s|
    ensures forall i :: 0 <= i < |s| ==> w[i] == Widen(s[i])
  {
    seq(|s|, i requires 0 <= i < |s| => Widen(s[i]))
  }

  /** Widening keeps the byte: its low eight bits give it back, and an ASCII
      character is unchanged. */
  lemma WidenKeepsByte(s: string)
    ensures forall i :: 0 <= i < |s| ==> StringToWideString(s)[i] % 256 == s[i] as int % 256
    ensures forall i :: 0 <= i < |s| && s[i] as int < 128 ==> StringToWideString(s)[i] == s[i] as int
  {
  }
}
