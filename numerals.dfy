/** Unsigned numbers as text: what `std::ostream <<` prints for an unsigned
    integer (decimal by default, lower-case hexadecimal after `std::hex`,
    never with leading zeros), and the value of a string of digits, which
    `std::stoi` and `std::stoul` compute. */
module Numerals {

  /** The digit character for `d`: '0'..'9', then lower-case 'a'..'f'. */
  function DigitChar(d: nat): (ch: char)
    requires d < 16
    ensures DigitValue(ch) == d
  {
    if d < 10 then ('0' as int + d) as char else ('a' as int + (d - 10)) as char
  }

  /** The value of a digit in any base up to 16 (either case for letters);
      16 for a character that is no digit at all. */
  function DigitValue(ch: char): (d: nat)
    ensures d <= 16
  {
    if '0' <= ch <= '9' then ch as int - '0' as int
    else if 'a' <= ch <= 'f' then ch as int - 'a' as int + 10
    else if 'A' <= ch <= 'F' then ch as int - 'A' as int + 10
    else 16
  }

  predicate IsDigit(ch: char, base: nat) {
    DigitValue(ch) < base
  }

  predicate AllDigits(s: string, base: nat) {
    forall i :: 0 <= i < |s| ==> IsDigit(s[i], base)
  }

  /** `n` written in `base`, most significant digit first. */
  function Format(n: nat, base: nat): (s: string)
    requires 2 <= base <= 16
    ensures |s| > 0 && AllDigits(s, base)
    ensures (s[0] == '0') == (n == 0)
    ensures n == 0 ==> s == "0"
    decreases n
  {
    if n < base then [DigitChar(n)]
    else
      DivMod(n, base);
      Format(n / base, base) + [DigitChar(n % base)]
  }

  lemma DivMod(n: nat, base: nat)
    requires 2 <= base <= 16 && n >= base
    ensures 1 <= n / base < n && n % base < base
    ensures n == (n / base) * base + n % base
  {
  }

  /** The number a string of digits in `base` stands for. */
  function Value(s: string, base: nat): nat
  {
    if s == [] then 0 else Value(s[..|s| - 1], base) * base + DigitValue(s[|s| - 1])
  }

  /** `os << n` for an unsigned integer `n`. */
  function Decimal(n: nat): (s: string)
    ensures |s| > 0 && AllDigits(s, 10)
  {
    Format(n, 10)
  }

  /** `os << std::hex << n` for an unsigned integer `n`. */
  function Hex(n: nat): (s: string)
    ensures |s| > 0 && AllDigits(s, 16)
  {
    Format(n, 16)
  }

  /** Reading back what was written gives the number back. */
  lemma {:induction false} ValueOfFormat(n: nat, base: nat)
    requires 2 <= base <= 16
    ensures Value(Format(n, base), base) == n
    decreases n
  {
    if n >= base {
      var q, r := n / base, n % base;
      DivMod(n, base);
      ValueOfFormat(q, base);
      var s := Format(n, base);
      assert s == Format(q, base) + [DigitChar(r)];
      assert s[..|s| - 1] == Format(q, base);
      assert DigitValue(s[|s| - 1]) == r;
      assert Value(s, base) == Value(Format(q, base), base) * base + r;
    }
  }

  /** A first digit alone stands for its own value. */
  lemma ValueOfFirst(s: string, base: nat)
    requires s != []
    ensures Value(s[..1], base) == DigitValue(s[0])
  {
    assert s[..1][..0] == [];
  }

  lemma AtLeastOnce(x: nat, base: nat)
    requires base >= 1
    ensures x * base >= x
  {
  }

  /** Dropping trailing digits never makes the number larger. */
  lemma {:induction false} ValuePrefixAtMost(s: string, j: nat, base: nat)
    requires j <= |s| && base >= 1
    ensures Value(s[..j], base) <= Value(s, base)
    decreases |s|
  {
    if j < |s| {
      var init := s[..|s| - 1];
      assert init[..j] == s[..j];
      ValuePrefixAtMost(init, j, base);
      AtLeastOnce(Value(init, base), base);
    } else {
      assert s[..j] == s;
    }
  }

  /** Decimal digits read in base 16 give at least their decimal value. */
  lemma {:induction false} DecimalAtMostHex(p: string)
    requires AllDigits(p, 10)
    ensures Value(p, 10) <= Value(p, 16)
  {
    if p != [] {
      var init := p[..|p| - 1];
      assert AllDigits(init, 10) by {
        forall i | 0 <= i < |init| ensures IsDigit(init[i], 10) {
          assert init[i] == p[i];
        }
      }
      DecimalAtMostHex(init);
      assert Value(init, 10) * 10 <= Value(init, 16) * 10 <= Value(init, 16) * 16;
    }
  }

  /** Two or more decimal digits, the first not '0', read in base 16 give
      strictly more than their decimal value. */
  lemma DecimalBelowHex(p: string)
    requires AllDigits(p, 10) && |p| >= 2 && DigitValue(p[0]) >= 1
    ensures Value(p, 10) < Value(p, 16)
  {
    var init := p[..|p| - 1];
    assert AllDigits(init, 10) by {
      forall i | 0 <= i < |init| ensures IsDigit(init[i], 10) {
        assert init[i] == p[i];
      }
    }
    DecimalAtMostHex(init);
    ValuePrefixAtMost(init, 1, 16);
    ValueOfFirst(init, 16);
    assert Value(init, 16) >= 1;
    assert Value(init, 10) * 10 <= Value(init, 16) * 10 < Value(init, 16) * 16;
  }
}
