/** Decimal numerals as the server reads and writes them: `strconv.Atoi`
    turns the width and height of a grid request into integers, and an error
    message names a row by its index. */
module Numerals {
  import opened Common

  predicate IsDigit(c: char)
  {
    '0' <= c <= '9'
  }

  predicate AllDigits(s: string)
  {
    forall i :: 0 <= i < |s| ==> IsDigit(s[i])
  }

  function DigitValue(c: char): (d: nat)
    requires IsDigit(c)
    ensures d < 10
  {
    (c as int) - ('0' as int)
  }

  function DigitChar(d: nat): (c: char)
    requires d < 10
    ensures IsDigit(c) && DigitValue(c) == d
  {
    (('0' as int) + d) as char
  }

  /** The value of a string of decimal digits, most significant first. */
  function DigitsValue(s: string): nat
    requires AllDigits(s)
  {
    if s == [] then 0 else DigitsValue(s[..|s| - 1]) * 10 + DigitValue(s[|s| - 1])
  }

  /** The range of Go's `int` on a 64-bit platform. */
  const MinInt: int := -0x8000_0000_0000_0000
  const MaxInt: int := 0x7FFF_FFFF_FFFF_FFFF

  /** `strconv.Atoi`: an optional sign followed by at least one decimal digit,
      with a value that fits a 64-bit `int`; anything else is an error. */
  function Atoi(s: string): (r: Option<int>)
    ensures r.Some? ==> MinInt <= r.value <= MaxInt
    ensures r.Some? ==> |s| > 0 && IsDigit(s[|s| - 1])
  {
    var negative := |s| > 0 && s[0] == '-';
    var body := if |s| > 0 && (s[0] == '-' || s[0] == '+') then s[1..] else s;
    if body == [] || !AllDigits(body) then None
    else
      var v: int := if negative then 0 - DigitsValue(body) else DigitsValue(body);
      if MinInt <= v <= MaxInt then Some(v) else None
  }

  /** What `Atoi` accepts: exactly an optional `+` or `-` followed by one or
      more decimal digits (leading zeros allowed), whose signed value fits a
      64-bit `int`; the value read is that signed value. */
  lemma AtoiAcceptsSignedDigits(s: string, v: int)
    ensures Atoi(s) == Some(v) <==>
      && MinInt <= v <= MaxInt
      && (|| (|s| > 0 && AllDigits(s) && v == DigitsValue(s))
          || (|s| > 1 && s[0] == '+' && AllDigits(s[1..]) && v == DigitsValue(s[1..]))
          || (|s| > 1 && s[0] == '-' && AllDigits(s[1..]) && v == 0 - DigitsValue(s[1..])))
  {
    if |s| == 0 {
    } else if s[0] == '+' || s[0] == '-' {
      assert !AllDigits(s) by { assert !IsDigit(s[0]); }
    } else {
      assert s[0] != '+' && s[0] != '-';
    }
  }

  /** The decimal numeral of `n` without leading zeros, as `strconv.Itoa`
      writes it. */
  function Decimal(n: nat): (s: string)
    ensures |s| > 0 && AllDigits(s)
    ensures DigitsValue(s) == n
    ensures |s| > 1 ==> s[0] != '0'
  {
    if n < 10 then [DigitChar(n)]
    else
      var init := Decimal(n / 10);
      var s := init + [DigitChar(n % 10)];
      assert s[..|s| - 1] == init;
      s
  }

  /** Reading back what `Decimal` writes gives the number again. */
  lemma AtoiReadsDecimal(n: nat)
    requires n <= MaxInt
    ensures Atoi(Decimal(n)) == Some(n)
  {
    var s := Decimal(n);
    assert IsDigit(s[0]);
  }

  /** Go's conversion of an `int` to `rune` (an `int32`): the value modulo
      2^32, read as a signed 32-bit number. */
  function Int32(i: int): (r: int)
    ensures -0x8000_0000 <= r < 0x8000_0000
    ensures (r - i) % 0x1_0000_0000 == 0
    ensures -0x8000_0000 <= i < 0x8000_0000 ==> r == i
  {
    (i + 0x8000_0000) % 0x1_0000_0000 - 0x8000_0000
  }

  /** A code point that is a Unicode scalar value. */
  predicate IsScalar(r: int)
  {
    0 <= r < 0xD800 || 0xE000 <= r < 0x11_0000
  }

  /** Go's `string(rune(i))`: the one character whose code point is the
      rune, or U+FFFD when the rune is not a Unicode scalar value. */
  function RuneString(i: int): (s: string)
    ensures |s| == 1
    ensures IsScalar(Int32(i)) ==> s[0] as int == Int32(i)
    ensures !IsScalar(Int32(i)) ==> s[0] == '\U{FFFD}'
  {
    var r := Int32(i);
    if IsScalar(r) then [r as char] else ['\U{FFFD}']
  }

  /** The character `string(rune(i))` gives is never the decimal numeral of
      `i`: for a single-digit index it is a control character, for a longer
      one it is a single character where the numeral has several. */
  lemma {:induction false} RuneStringIsNotDecimal(i: nat)
    ensures RuneString(i) != Decimal(i)
  {
    if i < 10 {
      assert Int32(i) == i;
      assert RuneString(i)[0] == i as char;
      assert Decimal(i)[0] == DigitChar(i);
    } else {
      assert |Decimal(i)| > 1 by {
        assert Decimal(i) == Decimal(i / 10) + [DigitChar(i % 10)];
      }
    }
  }
}
