/**
 Where the constants of SHA-256 come from: the beginnings of the fractional parts of the square and cube
 roots of the first prime numbers (sections 4.2.2 and 5.3.3 of FIPS 180-4).
 */
module Sha256Constants {
  import opened Sha256Words
  import opened Sha256
  import opened Sha256Example
  import Words

  const TWO32: nat := 0x1_0000_0000
  const TWO64: nat := TWO32 * TWO32
  const TWO96: nat := TWO64 * TWO32

  // ----- The first primes -----

  const P0: seq<nat> := [2, 3, 5, 7, 11, 13, 17, 19]
  const P1: seq<nat> := [23, 29, 31, 37, 41, 43, 47, 53]
  const P2: seq<nat> := [59, 61, 67, 71, 73, 79, 83, 89]
  const P3: seq<nat> := [97, 101, 103, 107, 109, 113, 127, 131]
  const P4: seq<nat> := [137, 139, 149, 151, 157, 163, 167, 173]
  const P5: seq<nat> := [179, 181, 191, 193, 197, 199, 211, 223]
  const P6: seq<nat> := [227, 229, 233, 239, 241, 251, 257, 263]
  const P7: seq<nat> := [269, 271, 277, 281, 283, 293, 307, 311]
  const PRIMES: seq<nat> := P0 + P1 + P2 + P3 + P4 + P5 + P6 + P7

  ghost predicate IsPrime(p: nat) {
    p >= 2 && forall d :: 2 <= d < p ==> p % d != 0
  }

  /** A number below 19 * 19 that none of the primes up to 17 divides, except itself. */
  predicate Sifted(n: nat) {
    && 2 <= n < 361
    && (n == 2 || n % 2 != 0) && (n == 3 || n % 3 != 0) && (n == 5 || n % 5 != 0) && (n == 7 || n % 7 != 0)
    && (n == 11 || n % 11 != 0) && (n == 13 || n % 13 != 0) && (n == 17 || n % 17 != 0)
  }

  lemma Sift0(n: nat)
    requires 2 <= n <= 19
    ensures Sifted(n) <==> n in {2, 3, 5, 7, 11, 13, 17, 19}
  {
    if n <= 10 {
      assert n == 2 || n == 3 || n == 4 || n == 5 || n == 6 || n == 7 || n == 8 || n == 9 || n == 10;
    } else {
      assert n == 11 || n == 12 || n == 13 || n == 14 || n == 15 || n == 16 || n == 17 || n == 18 || n == 19;
    }
  }

  lemma Sift1(n: nat)
    requires 20 <= n <= 53
    ensures Sifted(n) <==> n in {23, 29, 31, 37, 41, 43, 47, 53}
  {
    if n <= 36 {
      assert n == 20 || n == 21 || n == 22 || n == 23 || n == 24 || n == 25 || n == 26 || n == 27 || n == 28 || n == 29 || n == 30 ||
           n == 31 || n == 32 || n == 33 || n == 34 || n == 35 || n == 36;
    } else {
      assert n == 37 || n == 38 || n == 39 || n == 40 || n == 41 || n == 42 || n == 43 || n == 44 || n == 45 || n == 46 || n == 47 ||
           n == 48 || n == 49 || n == 50 || n == 51 || n == 52 || n == 53;
    }
  }

  lemma Sift2(n: nat)
    requires 54 <= n <= 89
    ensures Sifted(n) <==> n in {59, 61, 67, 71, 73, 79, 83, 89}
  {
    if n <= 71 {
      assert n == 54 || n == 55 || n == 56 || n == 57 || n == 58 || n == 59 || n == 60 || n == 61 || n == 62 || n == 63 || n == 64 ||
           n == 65 || n == 66 || n == 67 || n == 68 || n == 69 || n == 70 || n == 71;
    } else {
      assert n == 72 || n == 73 || n == 74 || n == 75 || n == 76 || n == 77 || n == 78 || n == 79 || n == 80 || n == 81 || n == 82 ||
           n == 83 || n == 84 || n == 85 || n == 86 || n == 87 || n == 88 || n == 89;
    }
  }

  lemma Sift3(n: nat)
    requires 90 <= n <= 131
    ensures Sifted(n) <==> n in {97, 101, 103, 107, 109, 113, 127, 131}
  {
    if n <= 110 {
      assert n == 90 || n == 91 || n == 92 || n == 93 || n == 94 || n == 95 || n == 96 || n == 97 || n == 98 || n == 99 || n == 100 ||
           n == 101 || n == 102 || n == 103 || n == 104 || n == 105 || n == 106 || n == 107 || n == 108 || n == 109 || n == 110;
    } else {
      assert n == 111 || n == 112 || n == 113 || n == 114 || n == 115 || n == 116 || n == 117 || n == 118 || n == 119 || n == 120 ||
           n == 121 || n == 122 || n == 123 || n == 124 || n == 125 || n == 126 || n == 127 || n == 128 || n == 129 || n == 130 ||
           n == 131;
    }
  }

  lemma Sift4(n: nat)
    requires 132 <= n <= 173
    ensures Sifted(n) <==> n in {137, 139, 149, 151, 157, 163, 167, 173}
  {
    if n <= 152 {
      assert n == 132 || n == 133 || n == 134 || n == 135 || n == 136 || n == 137 || n == 138 || n == 139 || n == 140 || n == 141 ||
           n == 142 || n == 143 || n == 144 || n == 145 || n == 146 || n == 147 || n == 148 || n == 149 || n == 150 || n == 151 ||
           n == 152;
    } else {
      assert n == 153 || n == 154 || n == 155 || n == 156 || n == 157 || n == 158 || n == 159 || n == 160 || n == 161 || n == 162 ||
           n == 163 || n == 164 || n == 165 || n == 166 || n == 167 || n == 168 || n == 169 || n == 170 || n == 171 || n == 172 ||
           n == 173;
    }
  }

  lemma Sift5(n: nat)
    requires 174 <= n <= 223
    ensures Sifted(n) <==> n in {179, 181, 191, 193, 197, 199, 211, 223}
  {
    if n <= 198 {
      assert n == 174 || n == 175 || n == 176 || n == 177 || n == 178 || n == 179 || n == 180 || n == 181 || n == 182 || n == 183 ||
           n == 184 || n == 185 || n == 186 || n == 187 || n == 188 || n == 189 || n == 190 || n == 191 || n == 192 || n == 193 ||
           n == 194 || n == 195 || n == 196 || n == 197 || n == 198;
    } else {
      assert n == 199 || n == 200 || n == 201 || n == 202 || n == 203 || n == 204 || n == 205 || n == 206 || n == 207 || n == 208 ||
           n == 209 || n == 210 || n == 211 || n == 212 || n == 213 || n == 214 || n == 215 || n == 216 || n == 217 || n == 218 ||
           n == 219 || n == 220 || n == 221 || n == 222 || n == 223;
    }
  }

  lemma Sift6(n: nat)
    requires 224 <= n <= 263
    ensures Sifted(n) <==> n in {227, 229, 233, 239, 241, 251, 257, 263}
  {
    if n <= 243 {
      assert n == 224 || n == 225 || n == 226 || n == 227 || n == 228 || n == 229 || n == 230 || n == 231 || n == 232 || n == 233 ||
           n == 234 || n == 235 || n == 236 || n == 237 || n == 238 || n == 239 || n == 240 || n == 241 || n == 242 || n == 243;
    } else {
      assert n == 244 || n == 245 || n == 246 || n == 247 || n == 248 || n == 249 || n == 250 || n == 251 || n == 252 || n == 253 ||
           n == 254 || n == 255 || n == 256 || n == 257 || n == 258 || n == 259 || n == 260 || n == 261 || n == 262 || n == 263;
    }
  }

  lemma Sift7(n: nat)
    requires 264 <= n <= 311
    ensures Sifted(n) <==> n in {269, 271, 277, 281, 283, 293, 307, 311}
  {
    if n <= 287 {
      assert n == 264 || n == 265 || n == 266 || n == 267 || n == 268 || n == 269 || n == 270 || n == 271 || n == 272 || n == 273 ||
           n == 274 || n == 275 || n == 276 || n == 277 || n == 278 || n == 279 || n == 280 || n == 281 || n == 282 || n == 283 ||
           n == 284 || n == 285 || n == 286 || n == 287;
    } else {
      assert n == 288 || n == 289 || n == 290 || n == 291 || n == 292 || n == 293 || n == 294 || n == 295 || n == 296 || n == 297 ||
           n == 298 || n == 299 || n == 300 || n == 301 || n == 302 || n == 303 || n == 304 || n == 305 || n == 306 || n == 307 ||
           n == 308 || n == 309 || n == 310 || n == 311;
    }
  }

  lemma SiftAll(n: nat)
    requires 2 <= n < 312
    ensures Sifted(n) <==> n in PRIMES
  {
    InRows(n);
    if n <= 19 {
      Sift0(n);
    } else if n <= 53 {
      Sift1(n);
    } else if n <= 89 {
      Sift2(n);
    } else if n <= 131 {
      Sift3(n);
    } else if n <= 173 {
      Sift4(n);
    } else if n <= 223 {
      Sift5(n);
    } else if n <= 263 {
      Sift6(n);
    } else if n <= 311 {
      Sift7(n);
    }
  }

  lemma InRows(n: nat)
    ensures n in PRIMES <==>
              n in {2, 3, 5, 7, 11, 13, 17, 19} ||
              n in {23, 29, 31, 37, 41, 43, 47, 53} ||
              n in {59, 61, 67, 71, 73, 79, 83, 89} ||
              n in {97, 101, 103, 107, 109, 113, 127, 131} ||
              n in {137, 139, 149, 151, 157, 163, 167, 173} ||
              n in {179, 181, 191, 193, 197, 199, 211, 223} ||
              n in {227, 229, 233, 239, 241, 251, 257, 263} ||
              n in {269, 271, 277, 281, 283, 293, 307, 311}
  {
    assert n in PRIMES <==> n in P0 || n in P1 || n in P2 || n in P3 || n in P4 || n in P5 || n in P6 || n in P7;
  }

  /** Every number from 2 to 18 has a prime factor up to 17. */
  lemma SmallFactor(m: nat, e: nat)
    requires 2 <= m <= 18
    ensures var n := m * e; n % 2 == 0 || n % 3 == 0 || n % 5 == 0 || n % 7 == 0 || n % 11 == 0 || n % 13 == 0 || n % 17 == 0
  {
    if m % 2 == 0 {
      Twice(m / 2, e);
    } else if m % 3 == 0 {
      Thrice(m / 3, e);
    } else {
      Itself(m, e);
    }
  }

  lemma Twice(f: nat, e: nat)
    ensures 2 * f * e % 2 == 0
  {
    var k := f * e;
    assert 2 * f * e == 2 * k;
  }

  lemma Thrice(f: nat, e: nat)
    ensures 3 * f * e % 3 == 0
  {
    var k := f * e;
    assert 3 * f * e == 3 * k;
  }

  lemma Itself(m: nat, e: nat)
    requires 2 <= m <= 18 && m % 2 != 0 && m % 3 != 0
    ensures var n := m * e; n % 5 == 0 || n % 7 == 0 || n % 11 == 0 || n % 13 == 0 || n % 17 == 0
  {
    SelfMultiple(m, e);
    assert m == 5 || m == 7 || m == 11 || m == 13 || m == 17;
  }

  lemma SelfMultiple(m: nat, e: nat)
    requires m > 0
    ensures m * e % m == 0
  {
    var x := m * e;
    assert (e - x / m) * m == x % m;
    Words.NoMultiple(e - x / m, m);
  }

  lemma SiftedIsPrime(n: nat)
    requires n < 361
    ensures Sifted(n) <==> IsPrime(n)
  {
    if IsPrime(n) {
      PrimeIsSifted(n);
    } else if 17 < n && Sifted(n) {
      forall d | 2 <= d < n ensures n % d != 0 {
        NoFactor(n, d);
      }
    } else if Sifted(n) {
      SmallSifted(n);
    }
  }

  lemma PrimeIsSifted(n: nat)
    requires n < 361 && IsPrime(n)
    ensures Sifted(n)
  {
    assert (n > 2 ==> n % 2 != 0) && (n > 3 ==> n % 3 != 0) && (n > 5 ==> n % 5 != 0) && (n > 7 ==> n % 7 != 0);
    assert (n > 11 ==> n % 11 != 0) && (n > 13 ==> n % 13 != 0) && (n > 17 ==> n % 17 != 0);
  }

  lemma SmallSifted(n: nat)
    requires n <= 17 && Sifted(n)
    ensures IsPrime(n)
  {
    assert n == 2 || n == 3 || n == 5 || n == 7 || n == 11 || n == 13 || n == 17;
    forall d | 2 <= d < n ensures n % d != 0 {
      assert d <= 16;
    }
  }

  lemma NoFactor(n: nat, d: nat)
    requires 17 < n && Sifted(n) && 2 <= d < n
    ensures n % d != 0
  {
    if n % d == 0 {
      var e := n / d;
      assert n == d * e;
      SmallerFactor(n, d, e);
      SmallFactor(if d <= 18 then d else e, if d <= 18 then e else d);
    }
  }

  /** Of two factors of a number below 19 * 19 one is below 19. */
  lemma SmallerFactor(n: nat, d: nat, e: nat)
    requires n == d * e < 361 && 2 <= d < n
    ensures 2 <= e && (d <= 18 || e <= 18)
  {
    if d > 18 {
      ProductGrows(19, e, d);
    }
  }

  lemma ProductGrows(a: nat, b: nat, c: nat)
    requires a <= c
    ensures a * b <= c * b
  {}

  /** PRIMES has the primes below 312, all of them and nothing else. */
  lemma FirstPrimes()
    ensures forall n :: 0 <= n < 312 ==> (IsPrime(n) <==> n in PRIMES)
  {
    forall n | 0 <= n < 312 ensures IsPrime(n) <==> n in PRIMES {
      SiftedIsPrime(n);
      if n < 2 {
        InRows(n);
      } else {
        SiftAll(n);
      }
    }
  }

  lemma Primes0()
    ensures |PRIMES| == 64
    ensures PRIMES[0] == 2 && PRIMES[1] == 3 && PRIMES[2] == 5 && PRIMES[3] == 7 && PRIMES[4] == 11
    ensures PRIMES[5] == 13 && PRIMES[6] == 17 && PRIMES[7] == 19 && PRIMES[8] == 23
  {}

  lemma Primes1()
    ensures |PRIMES| == 64
    ensures PRIMES[8] == 23 && PRIMES[9] == 29 && PRIMES[10] == 31 && PRIMES[11] == 37 && PRIMES[12] == 41
    ensures PRIMES[13] == 43 && PRIMES[14] == 47 && PRIMES[15] == 53 && PRIMES[16] == 59
  {}

  lemma Primes2()
    ensures |PRIMES| == 64
    ensures PRIMES[16] == 59 && PRIMES[17] == 61 && PRIMES[18] == 67 && PRIMES[19] == 71 && PRIMES[20] == 73
    ensures PRIMES[21] == 79 && PRIMES[22] == 83 && PRIMES[23] == 89 && PRIMES[24] == 97
  {}

  lemma Primes3()
    ensures |PRIMES| == 64
    ensures PRIMES[24] == 97 && PRIMES[25] == 101 && PRIMES[26] == 103 && PRIMES[27] == 107 && PRIMES[28] == 109
    ensures PRIMES[29] == 113 && PRIMES[30] == 127 && PRIMES[31] == 131 && PRIMES[32] == 137
  {}

  lemma Primes4()
    ensures |PRIMES| == 64
    ensures PRIMES[32] == 137 && PRIMES[33] == 139 && PRIMES[34] == 149 && PRIMES[35] == 151 && PRIMES[36] == 157
    ensures PRIMES[37] == 163 && PRIMES[38] == 167 && PRIMES[39] == 173 && PRIMES[40] == 179
  {}

  lemma Primes5()
    ensures |PRIMES| == 64
    ensures PRIMES[40] == 179 && PRIMES[41] == 181 && PRIMES[42] == 191 && PRIMES[43] == 193 && PRIMES[44] == 197
    ensures PRIMES[45] == 199 && PRIMES[46] == 211 && PRIMES[47] == 223 && PRIMES[48] == 227
  {}

  lemma Primes6()
    ensures |PRIMES| == 64
    ensures PRIMES[48] == 227 && PRIMES[49] == 229 && PRIMES[50] == 233 && PRIMES[51] == 239 && PRIMES[52] == 241
    ensures PRIMES[53] == 251 && PRIMES[54] == 257 && PRIMES[55] == 263 && PRIMES[56] == 269
  {}

  lemma Primes7()
    ensures |PRIMES| == 64
    ensures PRIMES[56] == 269 && PRIMES[57] == 271 && PRIMES[58] == 277 && PRIMES[59] == 281 && PRIMES[60] == 283
    ensures PRIMES[61] == 293 && PRIMES[62] == 307 && PRIMES[63] == 311
  {}

  // ----- The roots -----

  /** The whole part of the cube root of p is c, and k is the first 32 bits of the fractional part. */
  predicate CubeRoot(k: Word, p: nat, c: nat) {
    var n := c * TWO32 + k as nat;
    n * n * n <= p * TWO96 < (n + 1) * (n + 1) * (n + 1)
  }

  predicate SquareRoot(k: Word, p: nat, c: nat) {
    var n := c * TWO32 + k as nat;
    n * n <= p * TWO64 < (n + 1) * (n + 1)
  }

  ghost predicate FromCubeRoot(t: nat)
    requires t < 64
  {
    |K| == |PRIMES| == 64 && exists c :: CubeRoot(K[t], PRIMES[t], c)
  }

  lemma Roots0(t: nat)
    requires 0 <= t < 4
    ensures FromCubeRoot(t)
  {
    Constants0();
    Primes0();
    assert CubeRoot(0x428a2f98, 2, 1);
    assert CubeRoot(0x71374491, 3, 1);
    assert CubeRoot(0xb5c0fbcf, 5, 1);
    assert CubeRoot(0xe9b5dba5, 7, 1);
  }

  lemma Roots1(t: nat)
    requires 4 <= t < 8
    ensures FromCubeRoot(t)
  {
    Constants0();
    Primes0();
    assert CubeRoot(0x3956c25b, 11, 2);
    assert CubeRoot(0x59f111f1, 13, 2);
    assert CubeRoot(0x923f82a4, 17, 2);
    assert CubeRoot(0xab1c5ed5, 19, 2);
  }

  lemma Roots2(t: nat)
    requires 8 <= t < 12
    ensures FromCubeRoot(t)
  {
    Constants1();
    Primes1();
    assert CubeRoot(0xd807aa98, 23, 2);
    assert CubeRoot(0x12835b01, 29, 3);
    assert CubeRoot(0x243185be, 31, 3);
    assert CubeRoot(0x550c7dc3, 37, 3);
  }

  lemma Roots3(t: nat)
    requires 12 <= t < 16
    ensures FromCubeRoot(t)
  {
    Constants1();
    Primes1();
    assert CubeRoot(0x72be5d74, 41, 3);
    assert CubeRoot(0x80deb1fe, 43, 3);
    assert CubeRoot(0x9bdc06a7, 47, 3);
    assert CubeRoot(0xc19bf174, 53, 3);
  }

  lemma Roots4(t: nat)
    requires 16 <= t < 20
    ensures FromCubeRoot(t)
  {
    Constants2();
    Primes2();
    assert CubeRoot(0xe49b69c1, 59, 3);
    assert CubeRoot(0xefbe4786, 61, 3);
    assert CubeRoot(0x0fc19dc6, 67, 4);
    assert CubeRoot(0x240ca1cc, 71, 4);
  }

  lemma Roots5(t: nat)
    requires 20 <= t < 24
    ensures FromCubeRoot(t)
  {
    Constants2();
    Primes2();
    assert CubeRoot(0x2de92c6f, 73, 4);
    assert CubeRoot(0x4a7484aa, 79, 4);
    assert CubeRoot(0x5cb0a9dc, 83, 4);
    assert CubeRoot(0x76f988da, 89, 4);
  }

  lemma Roots6(t: nat)
    requires 24 <= t < 28
    ensures FromCubeRoot(t)
  {
    Constants3();
    Primes3();
    assert CubeRoot(0x983e5152, 97, 4);
    assert CubeRoot(0xa831c66d, 101, 4);
    assert CubeRoot(0xb00327c8, 103, 4);
    assert CubeRoot(0xbf597fc7, 107, 4);
  }

  lemma Roots7(t: nat)
    requires 28 <= t < 32
    ensures FromCubeRoot(t)
  {
    Constants3();
    Primes3();
    assert CubeRoot(0xc6e00bf3, 109, 4);
    assert CubeRoot(0xd5a79147, 113, 4);
    assert CubeRoot(0x06ca6351, 127, 5);
    assert CubeRoot(0x14292967, 131, 5);
  }

  lemma Roots8(t: nat)
    requires 32 <= t < 36
    ensures FromCubeRoot(t)
  {
    Constants4();
    Primes4();
    assert CubeRoot(0x27b70a85, 137, 5);
    assert CubeRoot(0x2e1b2138, 139, 5);
    assert CubeRoot(0x4d2c6dfc, 149, 5);
    assert CubeRoot(0x53380d13, 151, 5);
  }

  lemma Roots9(t: nat)
    requires 36 <= t < 40
    ensures FromCubeRoot(t)
  {
    Constants4();
    Primes4();
    assert CubeRoot(0x650a7354, 157, 5);
    assert CubeRoot(0x766a0abb, 163, 5);
    assert CubeRoot(0x81c2c92e, 167, 5);
    assert CubeRoot(0x92722c85, 173, 5);
  }

  lemma Roots10(t: nat)
    requires 40 <= t < 44
    ensures FromCubeRoot(t)
  {
    Constants5();
    Primes5();
    assert CubeRoot(0xa2bfe8a1, 179, 5);
    assert CubeRoot(0xa81a664b, 181, 5);
    assert CubeRoot(0xc24b8b70, 191, 5);
    assert CubeRoot(0xc76c51a3, 193, 5);
  }

  lemma Roots11(t: nat)
    requires 44 <= t < 48
    ensures FromCubeRoot(t)
  {
    Constants5();
    Primes5();
    assert CubeRoot(0xd192e819, 197, 5);
    assert CubeRoot(0xd6990624, 199, 5);
    assert CubeRoot(0xf40e3585, 211, 5);
    assert CubeRoot(0x106aa070, 223, 6);
  }

  lemma Roots12(t: nat)
    requires 48 <= t < 52
    ensures FromCubeRoot(t)
  {
    Constants6();
    Primes6();
    assert CubeRoot(0x19a4c116, 227, 6);
    assert CubeRoot(0x1e376c08, 229, 6);
    assert CubeRoot(0x2748774c, 233, 6);
    assert CubeRoot(0x34b0bcb5, 239, 6);
  }

  lemma Roots13(t: nat)
    requires 52 <= t < 56
    ensures FromCubeRoot(t)
  {
    Constants6();
    Primes6();
    assert CubeRoot(0x391c0cb3, 241, 6);
    assert CubeRoot(0x4ed8aa4a, 251, 6);
    assert CubeRoot(0x5b9cca4f, 257, 6);
    assert CubeRoot(0x682e6ff3, 263, 6);
  }

  lemma Roots14(t: nat)
    requires 56 <= t < 60
    ensures FromCubeRoot(t)
  {
    Constants7();
    Primes7();
    assert CubeRoot(0x748f82ee, 269, 6);
    assert CubeRoot(0x78a5636f, 271, 6);
    assert CubeRoot(0x84c87814, 277, 6);
    assert CubeRoot(0x8cc70208, 281, 6);
  }

  lemma Roots15(t: nat)
    requires 60 <= t < 64
    ensures FromCubeRoot(t)
  {
    Constants7();
    Primes7();
    assert CubeRoot(0x90befffa, 283, 6);
    assert CubeRoot(0xa4506ceb, 293, 6);
    assert CubeRoot(0xbef9a3f7, 307, 6);
    assert CubeRoot(0xc67178f2, 311, 6);
  }

  /** Each of the 64 constants begins the fractional part of the cube root of a prime, in the order of the primes. */
  lemma RoundConstants(t: nat)
    requires t < 64
    ensures FromCubeRoot(t)
  {
    if t < 4 {
      Roots0(t);
    } else if t < 8 {
      Roots1(t);
    } else if t < 12 {
      Roots2(t);
    } else if t < 16 {
      Roots3(t);
    } else if t < 20 {
      Roots4(t);
    } else if t < 24 {
      Roots5(t);
    } else if t < 28 {
      Roots6(t);
    } else if t < 32 {
      Roots7(t);
    } else if t < 36 {
      Roots8(t);
    } else if t < 40 {
      Roots9(t);
    } else if t < 44 {
      Roots10(t);
    } else if t < 48 {
      Roots11(t);
    } else if t < 52 {
      Roots12(t);
    } else if t < 56 {
      Roots13(t);
    } else if t < 60 {
      Roots14(t);
    } else if t < 64 {
      Roots15(t);
    }
  }

  /** The words of the initial hash value begin the fractional parts of the square roots of the first eight. */
  lemma InitialHash()
    ensures SquareRoot(H0.a, P0[0], 1)
    ensures SquareRoot(H0.b, P0[1], 1)
    ensures SquareRoot(H0.c, P0[2], 2)
    ensures SquareRoot(H0.d, P0[3], 2)
    ensures SquareRoot(H0.e, P0[4], 3)
    ensures SquareRoot(H0.f, P0[5], 3)
    ensures SquareRoot(H0.g, P0[6], 4)
    ensures SquareRoot(H0.h, P0[7], 4)
  {
    assert P0 == [2, 3, 5, 7, 11, 13, 17, 19];
    assert SquareRoot(0x6a09e667, 2, 1);
    assert SquareRoot(0xbb67ae85, 3, 1);
    assert SquareRoot(0x3c6ef372, 5, 2);
    assert SquareRoot(0xa54ff53a, 7, 2);
    assert SquareRoot(0x510e527f, 11, 3);
    assert SquareRoot(0x9b05688c, 13, 3);
    assert SquareRoot(0x1f83d9ab, 17, 4);
    assert SquareRoot(0x5be0cd19, 19, 4);
  }
}
