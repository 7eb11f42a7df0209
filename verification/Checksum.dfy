/**
 The Internet checksum of RFC 1071 as uip.cpp computes, stores and checks it.
 */
module Checksum {
  import opened Words

  /** The sum of the 16-bit words of a message, most significant byte first, padded with a zero byte. */
  function WordSum(s: Bytes): nat {
    if s == [] then 0
    else var hi: int := s[0];
         if |s| == 1 then hi * 0x100
         else var lo: int := s[1]; hi * 0x100 + lo + WordSum(s[2..])
  }

  /** One's complement of sixteen bits: zero stands for itself, everything else for a value in 1..65535. */
  function Fold(n: nat): U16 {
    if n == 0 then 0 else (n - 1) % 0xFFFF + 1
  }

  lemma FoldMod(n: nat)
    ensures Fold(n) as int % 0xFFFF == n % 0xFFFF
    ensures Fold(n) == 0 <==> n == 0
  {}

  lemma FoldFold(m: nat, n: nat)
    ensures Fold(Fold(m) as int + n) == Fold(m + n)
  {
    if m > 0 {
      var k := (m - 1) / 0xFFFF;
      assert m - 1 == k * 0xFFFF + (m - 1) % 0xFFFF;
      assert m + n - 1 == k * 0xFFFF + ((m - 1) % 0xFFFF + n);
    }
  }

  lemma FoldSmall(n: nat)
    requires n <= 2 * 0xFFFF
    ensures Fold(n) == if n <= 0xFFFF then n else n - 0xFFFF
  {}

  lemma {:induction false} WordSumSplit(a: Bytes, b: Bytes)
    requires |a| % 2 == 0
    ensures WordSum(a + b) == WordSum(a) + WordSum(b)
  {
    if a == [] {
      assert a + b == b;
    } else {
      assert (a + b)[2..] == a[2..] + b;
      WordSumSplit(a[2..], b);
    }
  }

  lemma {:induction false} WordSumZero(s: Bytes)
    ensures WordSum(s) == 0 <==> forall i :: 0 <= i < |s| ==> s[i] == 0
  {
    if |s| > 1 {
      WordSumZero(s[2..]);
      if WordSum(s) == 0 {
        forall i | 0 <= i < |s| ensures s[i] == 0 {
          assert i >= 2 ==> s[i] == s[2..][i - 2];
        }
      }
    }
  }

  function Word(hi: U8, lo: U8): U16 {
    var h: int, l: int := hi, lo;
    h * 0x100 + l
  }

  /** A word in the middle of a message counts once. */
  lemma WordSumAround(pre: Bytes, hi: U8, lo: U8, post: Bytes)
    requires |pre| % 2 == 0
    ensures WordSum(pre + [hi, lo] + post) == WordSum(pre) + Word(hi, lo) + WordSum(post)
  {
    WordSumSplit(pre + [hi, lo], post);
    WordSumSplit(pre, [hi, lo]);
    assert [hi, lo][2..] == [];
  }

  /** Addition with the carry brought round to the other end. */
  method AddWord(sum: U16, t: U16) returns (r: U16)
    ensures r == Fold(sum as int + t)
  {
    FoldSmall(sum as int + t);
    r := (sum as int + t) % TWO16;
    if r < t {
      r := r + 1;
    }
  }

  /** One more word into the folded sum of `total`. */
  method AddTo(ghost total: nat, sum: U16, t: U16) returns (r: U16)
    requires sum == Fold(total)
    ensures r == Fold(total + t)
  {
    r := AddWord(sum, t);
    FoldFold(total, t);
  }

  /** chksum: the folded sum of a start value and of the words of `len` bytes of a buffer. */
  method Chksum(start: U16, buf: array<U8>, at: nat, len: nat) returns (sum: U16)
    requires at + len <= buf.Length
    ensures sum == Fold(start as int + WordSum(buf[at..at + len]))
  {
    sum := start;
    var p, last := at, at + len - 1;
    ghost var words, total: nat := 0, start;
    assert buf[at..at] == [];
    FoldSmall(start);
    while p < last
      invariant at <= p == at + 2 * words <= at + len
      invariant sum == Fold(total) && total == start as int + WordSum(buf[at..p])
    {
      OneWordSum(buf[..], at, p);
      sum := AddTo(total, sum, Word(buf[p], buf[p + 1]));
      total := total + Word(buf[p], buf[p + 1]);
      p, words := p + 2, words + 1;
    }
    if p == last {
      OneByteSum(buf[..], at, p);
      sum := AddTo(total, sum, Word(buf[p], 0));
    }
  }

  lemma OneByteSum(s: Bytes, at: nat, p: nat)
    requires at <= p < |s| && (p - at) % 2 == 0
    ensures WordSum(s[at..p + 1]) == WordSum(s[at..p]) + Word(s[p], 0)
  {
    assert s[at..p + 1] == s[at..p] + [s[p]];
    WordSumSplit(s[at..p], [s[p]]);
  }

  lemma OneWordSum(s: Bytes, at: nat, p: nat)
    requires at <= p && p + 1 < |s| && (p - at) % 2 == 0
    ensures WordSum(s[at..p + 2]) == WordSum(s[at..p]) + Word(s[p], s[p + 1])
  {
    assert s[at..p + 2] == s[at..p] + [s[p], s[p + 1]] + [];
    WordSumAround(s[at..p], s[p], s[p + 1], []);
  }

  /** Composition over a cut at an even place, which upper_layer_chksum relies on. */
  lemma ChksumComposes(start: U16, a: Bytes, b: Bytes)
    requires |a| % 2 == 0
    ensures Fold(Fold(start as int + WordSum(a)) as int + WordSum(b)) == Fold(start as int + WordSum(a + b))
  {
    WordSumSplit(a, b);
    FoldFold(start as int + WordSum(a), WordSum(b));
  }

  /** What the receive check asks of the sum of all words. */
  predicate Checks(n: nat) { n % 0xFFFF == 0 }

  /** What the checksum functions give back for a sum: in network order, and all ones for none. */
  function Returned(sum: U16): (r: U16)
    ensures r == 0xFFFF <==> sum == 0 || sum == 0xFFFF
  {
    if sum == 0 then 0xFFFF else assert sum == 0xFFFF <==> Htons(sum) == 0xFFFF; Htons(sum)
  }

  lemma ReturnedChecks(n: nat)
    ensures Returned(Fold(n)) == 0xFFFF <==> Checks(n)
  {
    FoldMod(n);
  }

  /** The bytes of a 16-bit field that a little-endian host stores. */
  function Low(v: U16): U8 { v % 0x100 }
  function High(v: U16): U8 { v / 0x100 }

  function Not(v: U16): U16 { 0xFFFF - v as int }

  /** Storing the complement of what the sum with a zero field returned makes the sum check. */
  lemma ComplementChecks(n: nat)
    ensures var v := Not(Returned(Fold(n)));
            && Checks(n + Word(Low(v), High(v)))
            && (v == 0 <==> Checks(n))
  {
    FoldMod(n);
    var sum := Fold(n);
    var r := Returned(sum);
    var v := Not(r);
    if sum != 0 {
      assert Word(Low(v), High(v)) == 0xFFFF - sum as int by {
        StoredComplement(sum);
      }
    }
  }

  lemma StoredComplement(sum: U16)
    ensures var v := Not(Htons(sum)); Word(Low(v), High(v)) == 0xFFFF - sum as int
  {
    var hi, lo := sum / 0x100, sum % 0x100;
    assert Htons(sum) == lo * 0x100 + hi;
    var v := Not(Htons(sum));
    assert v == (0xFF - lo) * 0x100 + (0xFF - hi);
    assert v / 0x100 == 0xFF - lo && v % 0x100 == 0xFF - hi;
  }
}
