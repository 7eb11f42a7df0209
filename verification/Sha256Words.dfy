/**
 The six functions of SHA-256 on words, and what each does bit by bit.
 */
module Sha256Words {
  /** uint32_t, whose sums are modulo 2^32. */
  type Word = bv32

  // ----- Section 4.1.2 of FIPS 180-4: functions (CH, MAJ, SUM0, SUM1, RHO0 and RHO1 in sha256.c) -----

  function Ch(x: Word, y: Word, z: Word): Word { (x & y) ^ (!x & z) }
  function Maj(x: Word, y: Word, z: Word): Word { (x & y) ^ (x & z) ^ (y & z) }

  // A rotation to the right by n is a right shift by n or a left shift by 32 - n.

  function BigSigma0(x: Word): Word { ((x >> 2) | (x << 30)) ^ ((x >> 13) | (x << 19)) ^ ((x >> 22) | (x << 10)) }
  function BigSigma1(x: Word): Word { ((x >> 6) | (x << 26)) ^ ((x >> 11) | (x << 21)) ^ ((x >> 25) | (x << 7)) }
  function SmallSigma0(x: Word): Word { ((x >> 7) | (x << 25)) ^ ((x >> 18) | (x << 14)) ^ (x >> 3) }
  function SmallSigma1(x: Word): Word { ((x >> 17) | (x << 15)) ^ ((x >> 19) | (x << 13)) ^ (x >> 10) }

  // ----- The functions, bit by bit -----

  /** Bit i of a word, counted from the least significant one. */
  predicate Has(x: Word, i: Word)
    requires i < 32
  {
    (x >> i) & 1 == 1
  }

  lemma AndHas(x: Word, y: Word, i: Word)
    requires i < 32
    ensures Has(x & y, i) <==> Has(x, i) && Has(y, i)
  {}

  lemma OrHas(x: Word, y: Word, i: Word)
    requires i < 32
    ensures Has(x | y, i) <==> Has(x, i) || Has(y, i)
  {}

  lemma XorHas(x: Word, y: Word, i: Word)
    requires i < 32
    ensures Has(x ^ y, i) <==> Has(x, i) != Has(y, i)
  {}

  lemma NotHas(x: Word, i: Word)
    requires i < 32
    ensures Has(!x, i) <==> !Has(x, i)
  {}

  lemma RightHas(x: Word, n: Word, i: Word)
    requires i < 32 && n < 32
    ensures Has(x >> n, i) <==> i + n < 32 && Has(x, i + n)
  {}

  lemma LeftHas(x: Word, n: Word, i: Word)
    requires i < 32 && n < 32
    ensures Has(x << n, i) <==> n <= i && Has(x, i - n)
  {}

  /** Ch chooses between y and z by x. */
  lemma ChChooses(x: Word, y: Word, z: Word, i: Word)
    requires i < 32
    ensures Has(Ch(x, y, z), i) <==> if Has(x, i) then Has(y, i) else Has(z, i)
  {
    XorHas(x & y, !x & z, i);
    AndHas(x, y, i);
    AndHas(!x, z, i);
    NotHas(x, i);
  }

  /** Maj goes with at least two of the three: where x and y differ, z decides. */
  lemma MajIsMajority(x: Word, y: Word, z: Word, i: Word)
    requires i < 32
    ensures Has(Maj(x, y, z), i) <==> if Has(x, i) != Has(y, i) then Has(z, i) else Has(x, i)
  {
    MajIsCh(x, y, z);
    ChChooses(x ^ y, z, x, i);
    XorHas(x, y, i);
  }

  lemma MajIsCh(x: Word, y: Word, z: Word)
    ensures Maj(x, y, z) == Ch(x ^ y, z, x)
  {
    MajBits(x, y, z);
  }

  lemma MajBits(x: Word, y: Word, z: Word)
    ensures (x & y) ^ (x & z) ^ (y & z) == ((x ^ y) & z) ^ (!(x ^ y) & x)
  {}

  /** The sigmas by the amounts of their rotations. */
  lemma SigmasRotate(x: Word)
    ensures BigSigma0(x) == x.RotateRight(2) ^ x.RotateRight(13) ^ x.RotateRight(22)
    ensures BigSigma1(x) == x.RotateRight(6) ^ x.RotateRight(11) ^ x.RotateRight(25)
    ensures SmallSigma0(x) == x.RotateRight(7) ^ x.RotateRight(18) ^ (x >> 3)
    ensures SmallSigma1(x) == x.RotateRight(17) ^ x.RotateRight(19) ^ (x >> 10)
  {
    Rotations(x);
  }

  lemma Rotations(x: Word)
    ensures ((x >> 2) | (x << 30)) ^ ((x >> 13) | (x << 19)) ^ ((x >> 22) | (x << 10))
         == x.RotateRight(2) ^ x.RotateRight(13) ^ x.RotateRight(22)
    ensures ((x >> 6) | (x << 26)) ^ ((x >> 11) | (x << 21)) ^ ((x >> 25) | (x << 7))
         == x.RotateRight(6) ^ x.RotateRight(11) ^ x.RotateRight(25)
    ensures ((x >> 7) | (x << 25)) ^ ((x >> 18) | (x << 14)) ^ (x >> 3)
         == x.RotateRight(7) ^ x.RotateRight(18) ^ (x >> 3)
    ensures ((x >> 17) | (x << 15)) ^ ((x >> 19) | (x << 13)) ^ (x >> 10)
         == x.RotateRight(17) ^ x.RotateRight(19) ^ (x >> 10)
  {}

  /** And a rotation moves bit i + n to place i, going round. */
  lemma RotatedBits(x: Word, n: Word, i: Word)
    requires i < 32 && 0 < n < 32
    ensures (((x >> n) | (x << (32 - n))) >> i) & 1 == if i + n < 32 then (x >> (i + n)) & 1 else (x >> (i + n - 32)) & 1
  {}
}
