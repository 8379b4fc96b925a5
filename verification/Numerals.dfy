/** Bytes, and the decimal numerals that strconv reads and writes. */
module Numerals {
  import opened Sequences

  newtype uint8 = x: int | 0 <= x < 256

  type Bytes = seq<uint8>

  const MIN_INT64 := -0x8000_0000_0000_0000
  const MAX_INT64 := 0x7fff_ffff_ffff_ffff

  predicate IsInt64(n: int) {
    MIN_INT64 <= n <= MAX_INT64
  }

  /** Two's complement wrap-around of a 64-bit sum. */
  function Wrap64(n: int): (w: int)
    ensures IsInt64(w) && (w - n) % 0x1_0000_0000_0000_0000 == 0
    ensures IsInt64(n) ==> w == n
  {
    (n - MIN_INT64) % 0x1_0000_0000_0000_0000 + MIN_INT64
  }

  const MINUS: uint8 := 45
  const PLUS: uint8 := 43

  function Digit(d: int): uint8
    requires 0 <= d < 10
  {
    (48 + d) as uint8
  }

  predicate IsDigit(b: uint8) {
    48 <= b <= 57
  }

  function Digits(n: nat): (s: Bytes)
    ensures |s| > 0 && forall i :: 0 <= i < |s| ==> IsDigit(s[i])
  {
    if n < 10 then [Digit(n)] else Digits(n / 10) + [Digit(n % 10)]
  }

  /** strconv.FormatInt(n, 10), strconv.Itoa(n). */
  function FormatInt(n: int): (s: Bytes) {
    if n < 0 then [MINUS] + Digits(-n) else Digits(n)
  }

  function Value(s: Bytes): (r: Option<nat>) {
    if s == [] then Some(0)
    else
      var k := |s| - 1;
      if !IsDigit(s[k]) then None
      else match Value(s[..k])
        case None => None
        case Some(v) => Some(10 * v + (s[k] as int - 48))
  }

  /** strconv.ParseInt(s, 10, 64), strconv.Atoi(s): an optional sign, digits, and a result in range. */
  function ParseInt(s: Bytes): (r: Option<int>) {
    if s == [] then None
    else
      var signed := s[0] == MINUS || s[0] == PLUS;
      var digits := if signed then s[1..] else s;
      if digits == [] then None
      else match Value(digits)
        case None => None
        case Some(v) =>
          var n := if s[0] == MINUS then 0 - v as int else v as int;
          if IsInt64(n) then Some(n) else None
  }

  lemma {:induction false} ValueOfDigits(n: nat)
    ensures Value(Digits(n)) == Some(n)
  {
    if n < 10 {
      assert Digits(n)[..0] == [];
    } else {
      ValueOfDigits(n / 10);
      assert Digits(n)[..|Digits(n)| - 1] == Digits(n / 10);
    }
  }

  /** Reading back what was written. */
  lemma ParseFormat(n: int)
    requires IsInt64(n)
    ensures ParseInt(FormatInt(n)) == Some(n)
  {
    if n < 0 {
      ValueOfDigits(-n);
      assert FormatInt(n)[1..] == Digits(-n);
    } else {
      ValueOfDigits(n);
    }
  }

  /** The bytes of a numeral: 48 to 57 for the digits, the highest first and no leading 0, after a 45 for a minus sign. */
  lemma NumeralBytes(n: nat, d: nat)
    requires d < 10
    ensures FormatInt(d) == [48 + d as uint8]
    ensures n > 0 ==> FormatInt(10 * n + d) == FormatInt(n) + [48 + d as uint8]
    ensures n > 0 ==> FormatInt(0 - n) == [45] + FormatInt(n)
  {
    assert n > 0 ==> (10 * n + d) / 10 == n && (10 * n + d) % 10 == d;
  }

  /** Some bytes, read as decimal digits; None if one is none. */
  function Decimal(s: Bytes): Option<nat> {
    if s == [] then Some(0)
    else
      var k, b := |s| - 1, s[|s| - 1] as int;
      if b < 48 || b > 57 || Decimal(s[..k]).None? then None else Some(10 * Decimal(s[..k]).value + b - 48)
  }

  lemma {:induction false} ValueIsDecimal(s: Bytes)
    ensures Value(s) == Decimal(s)
  {
    if s != [] {
      ValueIsDecimal(s[..|s| - 1]);
    }
  }

  /** The number, if it is one of 64 bits. */
  function Bounded(n: int): Option<int> {
    if -0x8000_0000_0000_0000 <= n <= 0x7fff_ffff_ffff_ffff then Some(n) else None
  }

  /** What is read as a number: digits, after a 45 that makes it negative or a 43 that does not, and a result of 64 bits. */
  lemma NumeralRead(s: Bytes)
    ensures s == [] || Decimal(s).None? ==> ParseInt([45] + s) == ParseInt([43] + s) == None
    ensures s != [] && Decimal(s).Some? ==> ParseInt([45] + s) == Bounded(0 - Decimal(s).value) && ParseInt([43] + s) == Bounded(Decimal(s).value)
  {
    ValueIsDecimal(s);
    assert ([45] + s)[0] == 45 && ([45] + s)[1..] == s;
    assert ([43] + s)[0] == 43 && ([43] + s)[1..] == s;
  }

  lemma UnsignedRead(s: Bytes)
    requires s == [] || (s[0] != 45 && s[0] != 43)
    ensures ParseInt(s) == if s == [] || Decimal(s).None? then None else Bounded(Decimal(s).value)
  {
    ValueIsDecimal(s);
  }
}
