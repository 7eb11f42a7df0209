/**
 Machine words as the C sources use them: `int` values in range, with every
 wrap-around written out, and the four-byte big-endian arrays in which uIP keeps
 TCP sequence numbers.
 */
module Words {
  const TWO8 := 0x100
  const TWO16 := 0x1_0000
  const TWO32 := 0x1_0000_0000

  type U8 = x: int | 0 <= x < 0x100
  type U16 = x: int | 0 <= x < 0x1_0000
  type Bytes = seq<U8>
  type Bytes4 = b: seq<U8> | |b| == 4 witness [0, 0, 0, 0]

  datatype Option<+T> = None | Some(value: T)

  lemma Assoc<T>(a: seq<T>, b: seq<T>, c: seq<T>)
    ensures (a + b) + c == a + (b + c)
  {}

  lemma SplitLast<T>(s: seq<T>)
    requires s != []
    ensures s == s[..|s| - 1] + [s[|s| - 1]]
  {}

  lemma ConcatLast<T>(a: seq<T>, b: seq<T>)
    requires b != []
    ensures (a + b)[..|a + b| - 1] == a + b[..|b| - 1]
    ensures (a + b)[|a + b| - 1] == b[|b| - 1]
  {}

  /** A list of pieces as one. */
  function Concat<T>(pieces: seq<seq<T>>): seq<T> {
    if pieces == [] then [] else Concat(pieces[..|pieces| - 1]) + pieces[|pieces| - 1]
  }

  /** Bitwise and. */
  function And(x: nat, y: nat): nat {
    if x == 0 then 0 else 2 * And(x / 2, y / 2) + (if x % 2 == 1 && y % 2 == 1 then 1 else 0)
  }

  /** Bit i of a number, counted from the least significant one. */
  predicate HasBit(x: nat, i: nat) {
    if i == 0 then x % 2 == 1 else HasBit(x / 2, i - 1)
  }

  lemma {:induction false} AndBits(x: nat, y: nat, i: nat)
    ensures HasBit(And(x, y), i) <==> HasBit(x, i) && HasBit(y, i)
  {
    if i > 0 {
      AndBits(x / 2, y / 2, i - 1);
    }
    if x == 0 {
      NoBits(i);
    }
  }

  lemma {:induction false} NoBits(i: nat)
    ensures !HasBit(0, i)
  {
    if i > 0 {
      NoBits(i - 1);
    }
  }

  /** Numbers with the same bits are the same. */
  lemma {:induction false} SameBits(x: nat, y: nat)
    requires forall i: nat :: HasBit(x, i) <==> HasBit(y, i)
    ensures x == y
    decreases x + y
  {
    assert HasBit(x, 0) <==> HasBit(y, 0);
    if x + y > 0 {
      forall i: nat ensures HasBit(x / 2, i) <==> HasBit(y / 2, i) {
        assert HasBit(x, i + 1) <==> HasBit(y, i + 1);
      }
      SameBits(x / 2, y / 2);
    }
  }

  /** x and y agree in every bit in which the mask has a one. */
  ghost predicate AgreeUnder(x: nat, y: nat, mask: nat) {
    forall i: nat :: HasBit(mask, i) ==> (HasBit(x, i) <==> HasBit(y, i))
  }

  /** Masked numbers are the same exactly if the numbers agree under the mask. */
  lemma AndAgrees(x: nat, y: nat, mask: nat)
    ensures And(x, mask) == And(y, mask) <==> AgreeUnder(x, y, mask)
  {
    if And(x, mask) == And(y, mask) {
      forall i: nat | HasBit(mask, i) ensures HasBit(x, i) <==> HasBit(y, i) {
        AndBits(x, mask, i);
        AndBits(y, mask, i);
      }
    }
    if AgreeUnder(x, y, mask) {
      forall i: nat ensures HasBit(And(x, mask), i) <==> HasBit(And(y, mask), i) {
        AndBits(x, mask, i);
        AndBits(y, mask, i);
      }
      SameBits(And(x, mask), And(y, mask));
    }
  }

  function Min(a: int, b: int): int {
    if a < b then a else b
  }

  /** A multiple that is too small to be one. */
  lemma NoMultiple(e: int, d: int)
    requires -d < e * d < d
    ensures e == 0
  {}

  /** The number a big-endian byte quadruple stands for. */
  function Value(b: Bytes4): (v: nat)
    ensures v < TWO32
  {
    var b0: int, b1: int, b2: int, b3: int := b[0], b[1], b[2], b[3];
    ((b0 * 0x100 + b1) * 0x100 + b2) * 0x100 + b3
  }

  function Digits(v: nat): Bytes4
    requires v < TWO32
  {
    [v / 0x100_0000, v / 0x1_0000 % 0x100, v / 0x100 % 0x100, v % 0x100]
  }

  /** Sequence-number addition, modulo 2^32 as section 3.3 of RFC 793 demands. */
  function Plus(b: Bytes4, n: nat): Bytes4 {
    Digits((Value(b) + n) % TWO32)
  }

  lemma ValueOfDigits(v: nat)
    requires v < TWO32
    ensures Value(Digits(v)) == v
  {
    var a, b, c := v / 0x100_0000, v / 0x1_0000, v / 0x100;
    assert v == c * 0x100 + v % 0x100;
    assert c == b * 0x100 + c % 0x100;
    assert b == a * 0x100 + b % 0x100;
  }

  lemma DigitUnique(p: int, d: U8, q: int, e: U8)
    requires p * 0x100 + d == q * 0x100 + e
    ensures p == q && d == e
  {}

  lemma ValueInjective(a: Bytes4, b: Bytes4)
    ensures Value(a) == Value(b) <==> a == b
  {
    if Value(a) == Value(b) {
      var a0: int, a1: int, a2: int, a3: int := a[0], a[1], a[2], a[3];
      var b0: int, b1: int, b2: int, b3: int := b[0], b[1], b[2], b[3];
      DigitUnique((a0 * 0x100 + a1) * 0x100 + a2, a3, (b0 * 0x100 + b1) * 0x100 + b2, b3);
      DigitUnique(a0 * 0x100 + a1, a2, b0 * 0x100 + b1, b2);
      DigitUnique(a0, a1, b0, b1);
      assert a == [a0, a1, a2, a3] && b == [b0, b1, b2, b3];
    }
  }

  lemma ValueOfPlus(b: Bytes4, n: nat)
    ensures Value(Plus(b, n)) == (Value(b) + n) % TWO32
  {
    ValueOfDigits((Value(b) + n) % TWO32);
  }

  lemma PlusPlus(b: Bytes4, m: nat, n: nat)
    ensures Plus(Plus(b, m), n) == Plus(b, m + n)
  {
    ValueOfPlus(b, m);
    assert ((Value(b) + m) % TWO32 + n) % TWO32 == (Value(b) + (m + n)) % TWO32;
  }

  /** Distinct distances below 2^32 from one base give distinct sequence numbers. */
  lemma PlusInjective(b: Bytes4, m: nat, n: nat)
    requires m < TWO32 && n < TWO32
    ensures Plus(b, m) == Plus(b, n) <==> m == n
  {
    ValueOfPlus(b, m);
    ValueOfPlus(b, n);
    OnceRound(Value(b) + m);
    OnceRound(Value(b) + n);
  }

  lemma OnceRound(x: nat)
    requires x < 2 * TWO32
    ensures x % TWO32 == if x < TWO32 then x else x - TWO32
  {}

  lemma PlusZero(b: Bytes4)
    ensures Plus(b, 0) == b
  {
    PlusIs(b, b, 0);
  }

  /** A byte quadruple equals b plus n exactly when its value is right. */
  lemma PlusIs(a: Bytes4, b: Bytes4, n: nat)
    requires Value(a) == (Value(b) + n) % TWO32
    ensures a == Plus(b, n)
  {
    ValueOfPlus(b, n);
    ValueInjective(a, Plus(b, n));
  }

  /** Sequence numbers are kept in network order: counting starts at the last byte and carries into the one before. */
  lemma NetworkOrder(a: U8, b: U8, c: U8, d: U8)
    ensures d < 0xFF ==> Plus([a, b, c, d], 1) == [a, b, c, d + 1]
    ensures d == 0xFF && c < 0xFF ==> Plus([a, b, c, d], 1) == [a, b, c + 1, 0]
  {
    if d < 0xFF {
      PlusIs([a, b, c, d + 1], [a, b, c, d], 1);
    } else if c < 0xFF {
      PlusIs([a, b, c + 1, 0], [a, b, c, d], 1);
    }
  }

  /** What the byte at index k counts for. */
  function Weight(k: nat): nat
    requires k < 4
  {
    if k == 0 then 0x100_0000 else if k == 1 then 0x1_0000 else if k == 2 then 0x100 else 1
  }

  lemma ValueOfUpdate(b: Bytes4, k: nat, x: U8)
    requires k < 4
    ensures Value(b[k := x]) == Value(b) + (x as int - b[k]) * Weight(k)
  {}

  /** The UIP_HTONS macro on a little-endian host: swap the two bytes. */
  function Htons(v: U16): (r: U16)
    ensures v == r % 0x100 * 0x100 + r / 0x100
  {
    var lo, hi := v % 0x100, v / 0x100;
    assert (lo * 0x100 + hi) / 0x100 == lo;
    lo * 0x100 + hi
  }
}
