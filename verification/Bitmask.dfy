/**
 invert_bitmask: from the text of the death mask to the text of its complement, and what
 the complement means on the bit sets of module Quota.
 */
module Bitmask {
  import opened Words
  import opened Quota

  const ALL_ONES: nat := 0xFFFF_FFFF

  /** The value of a hexadecimal digit, or 16. */
  function Digit(c: char): nat {
    if '0' <= c <= '9' then (c - '0') as nat
    else if 'a' <= c <= 'f' then (c - 'a') as nat + 10
    else if 'A' <= c <= 'F' then (c - 'A') as nat + 10
    else 16
  }

  predicate IsHex(s: string) {
    forall i :: 0 <= i < |s| ==> Digit(s[i]) < 16
  }

  function Pow16(n: nat): (r: nat)
    ensures r > 0
  {
    if n == 0 then 1 else 16 * Pow16(n - 1)
  }

  /** What a string of hexadecimal digits stands for. */
  function HexValue(s: string): (v: nat)
    requires IsHex(s)
    ensures v < Pow16(|s|)
  {
    if s == [] then 0 else HexValue(s[..|s| - 1]) * 16 + Digit(s[|s| - 1])
  }

  function HexChar(d: nat): (c: char)
    requires d < 16
    ensures Digit(c) == d
  {
    if d < 10 then '0' + d as char else 'A' + (d - 10) as char
  }

  /** v in n hexadecimal digits, upper case, with leading zeros. */
  function HexString(v: nat, n: nat): (s: string)
    requires v < Pow16(n)
    ensures |s| == n && IsHex(s)
  {
    if n == 0 then [] else HexString(v / 16, n - 1) + [HexChar(v % 16)]
  }

  lemma {:induction false} HexRoundTrip(v: nat, n: nat)
    requires v < Pow16(n)
    ensures HexValue(HexString(v, n)) == v
  {
    if n > 0 {
      HexRoundTrip(v / 16, n - 1);
      var front := HexString(v / 16, n - 1);
      var s := front + [HexChar(v % 16)];
      assert s[..|s| - 1] == front && s[|s| - 1] == HexChar(v % 16);
      assert HexValue(s) == HexValue(front) * 16 + v % 16;
    }
  }

  const DIGITS := "0123456789ABCDEF"

  lemma DigitValues(i: nat)
    requires i < 16
    ensures HexChar(i) == DIGITS[i] && Digit(DIGITS[i]) == i && Digit("0123456789abcdef"[i]) == i
  {
    assert i == 0 || i == 1 || i == 2 || i == 3 || i == 4 || i == 5 || i == 6 || i == 7 || i == 8 || i == 9
        || i == 10 || i == 11 || i == 12 || i == 13 || i == 14 || i == 15;
  }

  /** The most significant digit comes first: the kth of n digits counts 16 to the n - 1 - k. */
  lemma {:induction false} PrintedDigit(v: nat, n: nat, k: nat)
    requires v < Pow16(n) && k < n
    ensures HexString(v, n)[k] == DIGITS[v / Pow16(n - 1 - k) % 16]
  {
    var front := HexString(v / 16, n - 1);
    assert HexString(v, n) == front + [HexChar(v % 16)];
    if k == n - 1 {
      DigitValues(v % 16);
      assert Pow16(0) == 1;
    } else {
      assert HexString(v, n)[k] == front[k];
      PrintedDigit(v / 16, n - 1, k);
      Shifted(v, n - 2 - k);
    }
  }

  lemma Shifted(v: nat, m: nat)
    ensures v / 16 / Pow16(m) == v / Pow16(m + 1)
  {
    DivideTwice(v, Pow16(m));
  }

  lemma DivideTwice(v: nat, p: nat)
    requires p > 0
    ensures v / 16 / p == v / (16 * p)
  {
    var q, r := v / 16 / p, v / 16 % p;
    assert v / 16 == p * q + r;
    var rest := 16 * r + v % 16;
    assert v == 16 * (v / 16) + v % 16;
    assert v == (16 * p) * q + rest;
    QuotientIs(v, 16 * p, q, rest);
  }

  lemma QuotientIs(x: nat, d: nat, q: nat, r: nat)
    requires d > 0 && r < d && x == d * q + r
    ensures x / d == q
  {
    assert (x / d - q) * d == r - x % d;
    NoMultiple(x / d - q, d);
  }

  /** And so it is read. */
  lemma {:induction false} FirstDigitCounts(s: string)
    requires IsHex(s) && s != ""
    ensures HexValue(s) == Digit(s[0]) * Pow16(|s| - 1) + HexValue(s[1..])
    decreases |s|
  {
    var n := |s| - 1;
    if n == 0 {
      assert s[1..] == "" && s[..n] == "";
    } else {
      FirstDigitCounts(s[..n]);
      assert s[..n][1..] == s[1..][..n - 1] && s[1..][n - 1] == s[n];
      assert HexValue(s[1..]) == HexValue(s[1..][..n - 1]) * 16 + Digit(s[n]);
      OneMoreDigit(Digit(s[0]), Pow16(n - 1), HexValue(s[1..][..n - 1]), Digit(s[n]));
    }
  }

  lemma OneMoreDigit(d: nat, p: nat, h: nat, e: nat)
    ensures (d * p + h) * 16 + e == d * (16 * p) + (h * 16 + e)
  {}

  /** The mask that a text stands for, in hexadecimal or else as strtoul reads it (None: not to its end). */
  function Denoted(input: string, decimal: Option<nat>): Option<nat> {
    if input == "" then None
    else if "0x" <= input || "0X" <= input then
      if |input| <= 10 && IsHex(input[2..]) then Some(HexValue(input[2..])) else None
    else if decimal.Some? && decimal.value <= ALL_ONES then decimal
    else None
  }

  /** invert_bitmask(input, 1), the way it is called; none where the source returns a null pointer. */
  method InvertBitmask(input: string, decimal: Option<nat>) returns (result: Option<string>)
    ensures result.Some? <==> Denoted(input, decimal).Some?
    ensures result.Some? ==>
      && |result.value| == 10 && result.value[..2] == "0x" && IsHex(result.value[2..])
      && HexValue(result.value[2..]) == ALL_ONES - Denoted(input, decimal).value
  {
    if input == "" {
      return None;
    }
    var value: nat;
    if "0x" <= input || "0X" <= input {
      var hex := input[2..];
      if |hex| > 8 {
        return None;
      }
      var parsed := ParseHex(hex);
      if parsed.None? {
        return None;
      }
      AtMostEight(|hex|);
      value := parsed.value;
    } else {
      if decimal.None? || decimal.value > ALL_ONES {
        return None;
      }
      value := decimal.value;
    }
    result := Some(Inverted(value));
  }

  /** The complement printed in eight digits. */
  function Inverted(value: nat): (r: string)
    requires value <= ALL_ONES
    ensures |r| == 10 && r[..2] == "0x" && IsHex(r[2..]) && HexValue(r[2..]) == ALL_ONES - value
  {
    AtMostEight(8);
    var digits := HexString(ALL_ONES - value, 8);
    HexRoundTrip(ALL_ONES - value, 8);
    AfterPrefix(digits);
    "0x" + digits
  }

  lemma AfterPrefix(digits: string)
    ensures ("0x" + digits)[..2] == "0x" && ("0x" + digits)[2..] == digits
  {}

  method ParseHex(hex: string) returns (value: Option<nat>)
    ensures value.Some? <==> IsHex(hex)
    ensures value.Some? ==> value.value == HexValue(hex)
  {
    var v := 0;
    var i := 0;
    while i < |hex|
      invariant 0 <= i <= |hex| && IsHex(hex[..i]) && v == HexValue(hex[..i])
    {
      var d := Digit(hex[i]);
      if d == 16 {
        return None;
      }
      v := v * 16 + d;
      i := i + 1;
      assert hex[..i][..i - 1] == hex[..i - 1];
    }
    assert hex[..i] == hex;
    return Some(v);
  }

  lemma AtMostEight(n: nat)
    requires n <= 8
    ensures Pow16(n) <= 0x1_0000_0000 && Pow16(8) == 0x1_0000_0000
  {
    assert Pow16(0) == 1 && Pow16(1) == 0x10 && Pow16(2) == 0x100 && Pow16(3) == 0x1000;
    assert Pow16(4) == 0x1_0000 && Pow16(5) == 0x10_0000 && Pow16(6) == 0x100_0000 && Pow16(7) == 0x1000_0000;
  }

  // ----- On bit sets -----

  function Pow2(n: nat): (r: nat)
    ensures r > 0
  {
    if n == 0 then 1 else 2 * Pow2(n - 1)
  }

  /** The numbers of the one bits among the n bits of v, counting from k. */
  function BitsOf(v: nat, n: nat, k: nat): Mark {
    if n == 0 then {} else (if v % 2 == 1 then {k} else {}) + BitsOf(v / 2, n - 1, k + 1)
  }

  lemma {:induction false} BitsFrom(v: nat, n: nat, k: nat)
    ensures forall b :: b in BitsOf(v, n, k) ==> k <= b < k + n
  {
    if n > 0 { BitsFrom(v / 2, n - 1, k + 1); }
  }

  /** The complement of a number has exactly the bits that the number has not. */
  lemma {:induction false} Complement(v: nat, n: nat, k: nat)
    requires v < Pow2(n)
    ensures forall b :: k <= b < k + n ==> (b in BitsOf(Pow2(n) - 1 - v, n, k) <==> b !in BitsOf(v, n, k))
  {
    if n > 0 {
      var w := Pow2(n) - 1 - v;
      assert w / 2 == Pow2(n - 1) - 1 - v / 2;
      Complement(v / 2, n - 1, k + 1);
      BitsFrom(v / 2, n - 1, k + 1);
      BitsFrom(w / 2, n - 1, k + 1);
    }
  }

  /** Masking with the inverted mask takes exactly the bits of the mask away. */
  lemma InvertedMaskClears(ct: Mark, mask: nat)
    requires mask <= ALL_ONES && forall b :: b in ct ==> b < 32
    ensures ct * BitsOf(ALL_ONES - mask, 32, 0) == ct - BitsOf(mask, 32, 0)
  {
    ThirtyTwo();
    Complement(mask, 32, 0);
  }

  lemma ThirtyTwo()
    ensures Pow2(32) == ALL_ONES + 1
  {
    assert Pow2(8) == 0x100 by { assert Pow2(4) == 16; }
    assert Pow2(16) == 0x1_0000 by { assert Pow2(12) == 0x1000; }
    assert Pow2(24) == 0x100_0000 by { assert Pow2(20) == 0x10_0000; }
    assert Pow2(28) == 0x1000_0000;
  }
}
