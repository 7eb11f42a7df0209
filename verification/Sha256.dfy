/**
 SHA-256: the hash function of FIPS 180-4 as functions, and the streaming context of
 sha256.c in place, proved to compute it however the message is cut into pieces.
 */
module Sha256 {
  import opened Words
  import opened Sha256Words

  /** unsigned char */
  type Byte = bv8
  type Bytes = seq<Byte>

  /** The eight working variables, or the eight words of a hash value. */
  datatype Hash = Hash(a: Word, b: Word, c: Word, d: Word, e: Word, f: Word, g: Word, h: Word)

  /** Section 4.2.2: the 64 constant words, in rows of eight. */
  const K0: seq<Word> := [0x428a2f98, 0x71374491, 0xb5c0fbcf, 0xe9b5dba5, 0x3956c25b, 0x59f111f1, 0x923f82a4, 0xab1c5ed5]
  const K1: seq<Word> := [0xd807aa98, 0x12835b01, 0x243185be, 0x550c7dc3, 0x72be5d74, 0x80deb1fe, 0x9bdc06a7, 0xc19bf174]
  const K2: seq<Word> := [0xe49b69c1, 0xefbe4786, 0x0fc19dc6, 0x240ca1cc, 0x2de92c6f, 0x4a7484aa, 0x5cb0a9dc, 0x76f988da]
  const K3: seq<Word> := [0x983e5152, 0xa831c66d, 0xb00327c8, 0xbf597fc7, 0xc6e00bf3, 0xd5a79147, 0x06ca6351, 0x14292967]
  const K4: seq<Word> := [0x27b70a85, 0x2e1b2138, 0x4d2c6dfc, 0x53380d13, 0x650a7354, 0x766a0abb, 0x81c2c92e, 0x92722c85]
  const K5: seq<Word> := [0xa2bfe8a1, 0xa81a664b, 0xc24b8b70, 0xc76c51a3, 0xd192e819, 0xd6990624, 0xf40e3585, 0x106aa070]
  const K6: seq<Word> := [0x19a4c116, 0x1e376c08, 0x2748774c, 0x34b0bcb5, 0x391c0cb3, 0x4ed8aa4a, 0x5b9cca4f, 0x682e6ff3]
  const K7: seq<Word> := [0x748f82ee, 0x78a5636f, 0x84c87814, 0x8cc70208, 0x90befffa, 0xa4506ceb, 0xbef9a3f7, 0xc67178f2]
  const K: seq<Word> := K0 + K1 + K2 + K3 + K4 + K5 + K6 + K7

  /** Section 5.3.3: the initial hash value. */
  const H0 := Hash(0x6a09e667, 0xbb67ae85, 0x3c6ef372, 0xa54ff53a, 0x510e527f, 0x9b05688c, 0x1f83d9ab, 0x5be0cd19)

  // ----- Section 5: preprocessing -----

  function Zeros(n: nat): (z: Bytes)
    ensures |z| == n
  {
    seq(n, _ => 0)
  }

  /** A word as four bytes, most significant first. */
  function WordBytes(w: Word): (b: Bytes)
    ensures |b| == 4
  {
    [(w >> 24) as Byte, ((w >> 16) & 0xFF) as Byte, ((w >> 8) & 0xFF) as Byte, (w & 0xFF) as Byte]
  }

  /** The byte of n that counts `unit`. */
  function ByteAt(n: nat, unit: nat): Byte
    requires unit > 0
  {
    Digit(n, unit) as Byte
  }

  function Digit(n: nat, unit: nat): (d: nat)
    requires unit > 0
    ensures d < 0x100
  {
    n / unit % 0x100
  }

  /** A number below 2^32 as a word. */
  function ToWord(n: nat): Word {
    (ByteAt(n, 0x100_0000) as Word << 24) | (ByteAt(n, 0x1_0000) as Word << 16)
    | (ByteAt(n, 0x100) as Word << 8) | (ByteAt(n, 1) as Word)
  }

  /** The length of the message in bits, as a 64-bit block. */
  function LengthBlock(bits: nat): (b: Bytes)
    ensures |b| == 8
  {
    [ByteAt(bits, 0x100_0000_0000_0000), ByteAt(bits, 0x1_0000_0000_0000), ByteAt(bits, 0x100_0000_0000),
     ByteAt(bits, 0x1_0000_0000), ByteAt(bits, 0x100_0000), ByteAt(bits, 0x1_0000), ByteAt(bits, 0x100), ByteAt(bits, 1)]
  }

  /**
   Section 5.1.1: a one bit, zeros up to 448 modulo 512 bits, the length. The standard is for messages of
   fewer than 2^61 bytes; of a greater length the last 64 bits are kept.
   */
  function Pad(msg: Bytes): (p: Bytes)
    ensures |p| % 64 == 0
  {
    PadLength(|msg|);
    msg + [0x80] + Zeros((55 - |msg|) % 64) + LengthBlock(8 * |msg|)
  }

  lemma PadLength(n: nat)
    ensures (n + 1 + (55 - n) % 64 + 8) % 64 == 0
  {}

  // ----- Section 6.2.2: hash computation -----

  predicate IsBlock(block: Bytes) {
    |block| == 64
  }

  function BigEndian(block: Bytes, i: nat): Word
    requires i + 4 <= |block|
  {
    (block[i] as Word << 24) | (block[i + 1] as Word << 16) | (block[i + 2] as Word << 8) | (block[i + 3] as Word)
  }

  function Next(w2: Word, w7: Word, w15: Word, w16: Word): Word {
    SmallSigma1(w2) + w7 + SmallSigma0(w15) + w16
  }

  /** The message schedule. */
  function W(block: Bytes, t: nat): Word
    requires IsBlock(block)
  {
    if t < 16 then BigEndian(block, 4 * t)
    else Next(W(block, t - 2), W(block, t - 7), W(block, t - 15), W(block, t - 16))
  }

  function Add(x: Word, y: Word): Word { x + y }

  function T1(e: Word, f: Word, g: Word, h: Word, k: Word, w: Word): Word {
    h + BigSigma1(e) + Ch(e, f, g) + k + w
  }

  function T2(a: Word, b: Word, c: Word): Word {
    BigSigma0(a) + Maj(a, b, c)
  }

  function Round(s: Hash, k: Word, w: Word): Hash {
    var t1, t2 := T1(s.e, s.f, s.g, s.h, k, w), T2(s.a, s.b, s.c);
    Hash(Add(t1, t2), s.a, s.b, s.c, Add(s.d, t1), s.e, s.f, s.g)
  }

  /** The first t rounds, with the round constants k. */
  function Rounds(s: Hash, k: seq<Word>, block: Bytes, t: nat): Hash
    requires IsBlock(block) && t <= |k|
  {
    if t == 0 then s else Round(Rounds(s, k, block, t - 1), k[t - 1], W(block, t - 1))
  }

  function Sum(s: Hash, t: Hash): Hash {
    Hash(Add(s.a, t.a), Add(s.b, t.b), Add(s.c, t.c), Add(s.d, t.d),
         Add(s.e, t.e), Add(s.f, t.f), Add(s.g, t.g), Add(s.h, t.h))
  }

  function Compress(s: Hash, block: Bytes): Hash
    requires IsBlock(block)
  {
    Sum(s, Rounds(s, K, block, |K|))
  }

  /** All blocks of a padded message, one after the other. */
  function Digest(s: Hash, data: Bytes): Hash
    requires |data| % 64 == 0
  {
    if data == [] then s
    else var n := |data| - 64; Compress(Digest(s, data[..n]), data[n..])
  }

  function HashBytes(s: Hash): (b: Bytes)
    ensures |b| == 32
  {
    WordBytes(s.a) + WordBytes(s.b) + WordBytes(s.c) + WordBytes(s.d)
    + WordBytes(s.e) + WordBytes(s.f) + WordBytes(s.g) + WordBytes(s.h)
  }

  function Sha256(msg: Bytes): Bytes {
    HashBytes(Digest(H0, Pad(msg)))
  }

  // ----- Blocks and padding, piece by piece -----

  /**
   The proof about the context is about cutting up the message, not about what happens to a
   block, so it treats the compression function as any function that agrees with Compress.
   */
  type Compressor = (Hash, Bytes) -> Hash

  ghost predicate Compresses(f: Compressor) {
    forall s, b {:trigger Compress(s, b)} :: IsBlock(b) ==> f(s, b) == Compress(s, b)
  }

  function Fold(f: Compressor, s: Hash, data: Bytes): Hash
    requires |data| % 64 == 0
  {
    if data == [] then s
    else var n := |data| - 64; f(Fold(f, s, data[..n]), data[n..])
  }

  lemma {:induction false} FoldIsDigest(f: Compressor, s: Hash, data: Bytes)
    requires |data| % 64 == 0 && Compresses(f)
    ensures Fold(f, s, data) == Digest(s, data)
    decreases |data|
  {
    if data != [] {
      FoldIsDigest(f, s, data[..|data| - 64]);
    }
  }

  /** The part of a message that makes up whole blocks, and what is left. */
  function Full(msg: Bytes): (f: Bytes)
    ensures |f| % 64 == 0
  {
    msg[..|msg| - |msg| % 64]
  }

  function Rest(msg: Bytes): Bytes {
    msg[|msg| - |msg| % 64..]
  }

  lemma FullAndRest(full: Bytes, rest: Bytes)
    requires |full| % 64 == 0 && |rest| < 64
    ensures Full(full + rest) == full && Rest(full + rest) == rest && |full + rest| % 64 == |rest|
  {}

  lemma Whole(msg: Bytes)
    requires |msg| % 64 == 0
    ensures Full(msg) == msg && Rest(msg) == []
  {}

  lemma WholeToo(msg: Bytes, block: Bytes)
    requires |msg| % 64 == 0 && IsBlock(block)
    ensures Full(msg + block) == msg + block && Rest(msg + block) == [] && |msg + block| % 64 == 0
  {
    assert |msg + block| % 64 == 0;
    Whole(msg + block);
  }

  lemma Split(msg: Bytes)
    ensures Full(msg) + Rest(msg) == msg
  {}

  lemma FoldBlock(f: Compressor, s: Hash, data: Bytes, block: Bytes)
    requires |data| % 64 == 0 && IsBlock(block)
    ensures Fold(f, s, data + block) == f(Fold(f, s, data), block)
  {
    var all := data + block;
    assert all[..|all| - 64] == data && all[|all| - 64..] == block;
  }

  lemma ZerosConcat(m: nat, n: nat)
    ensures Zeros(m) + Zeros(n) == Zeros(m + n)
  {}

  /** The last block, or the last two, of a padded message whose full blocks are `full`. */
  lemma PadOneBlock(full: Bytes, rest: Bytes)
    requires |full| % 64 == 0 && |rest| < 56
    ensures Pad(full + rest)
         == full + (rest + [0x80] + Zeros(55 - |rest|) + LengthBlock(8 * |full + rest|))
  {
    assert (55 - |full + rest|) % 64 == 55 - |rest|;
  }

  lemma PadTwoBlocks(full: Bytes, rest: Bytes)
    requires |full| % 64 == 0 && 56 <= |rest| < 64
    ensures Pad(full + rest)
         == full + (rest + [0x80] + Zeros(63 - |rest|)) + (Zeros(56) + LengthBlock(8 * |full + rest|))
  {
    assert (55 - |full + rest|) % 64 == 119 - |rest|;
    ZerosConcat(63 - |rest|, 56);
  }

  /** A last block that begins with `start` and ends with the length. */
  function Tail(start: Bytes, length: Bytes): (t: Bytes)
    requires |start| <= 56 && |length| == 8
    ensures |t| == 64
  {
    start + Zeros(56 - |start|) + length
  }

  /** The block before it, when there is no room for the length. */
  function Extra(rest: Bytes): (e: Bytes)
    requires |rest| < 64
    ensures |e| == 64
  {
    rest + [0x80] + Zeros(63 - |rest|)
  }

  /** Nor does it matter to the padding how a length is written, only that it takes eight bytes. */
  type Lengths = nat -> Bytes

  ghost predicate Encodes(g: Lengths) {
    forall n {:trigger LengthBlock(n)} :: g(n) == LengthBlock(n)
  }

  /** What Pad comes to, block by block. */
  ghost predicate IsPadding(g: Lengths, msg: Bytes, padded: Bytes) {
    && |padded| % 64 == 0 && |g(8 * |msg|)| == 8
    && (|msg| % 64 < 56 ==> padded == Full(msg) + Tail(Rest(msg) + [0x80], g(8 * |msg|)))
    && (|msg| % 64 >= 56 ==> padded == (Full(msg) + Extra(Rest(msg))) + Tail([], g(8 * |msg|)))
  }

  lemma PadIsPadding(g: Lengths, msg: Bytes)
    requires Encodes(g)
    ensures IsPadding(g, msg, Pad(msg))
  {
    assert g(8 * |msg|) == LengthBlock(8 * |msg|);
    if |msg| % 64 < 56 {
      EndsInOneBlock(msg);
    } else {
      EndsInTwoBlocks(msg);
    }
  }

  lemma EndsInOneBlock(msg: Bytes)
    requires |msg| % 64 < 56
    ensures |Pad(msg)| % 64 == 0 && Pad(msg) == Full(msg) + Tail(Rest(msg) + [0x80], LengthBlock(8 * |msg|))
  {
    Split(msg);
    PadOneBlock(Full(msg), Rest(msg));
  }

  lemma EndsInTwoBlocks(msg: Bytes)
    requires |msg| % 64 >= 56
    ensures |Pad(msg)| % 64 == 0
    ensures Pad(msg) == (Full(msg) + Extra(Rest(msg))) + Tail([], LengthBlock(8 * |msg|))
  {
    Split(msg);
    PadTwoBlocks(Full(msg), Rest(msg));
    assert [] + Zeros(56) == Zeros(56);
  }

  // ----- The context in place -----

  const TWO64: nat := 0x1_0000_0000_0000_0000

  class Context {
    const input: array<Byte>
    var inputLen: nat
    var A: Word
    var B: Word
    var C: Word
    var D: Word
    var E: Word
    var F: Word
    var G: Word
    var H: Word
    var totalLen: nat
    ghost var message: Bytes         // everything passed to Data so far
    ghost const compress: Compressor
    ghost const encode: Lengths

    ghost function State(): Hash
      reads this`A, this`B, this`C, this`D, this`E, this`F, this`G, this`H
    {
      Hash(A, B, C, D, E, F, G, H)
    }

    /** The hash words stand for the full blocks of msg, the buffer holds the rest. */
    ghost predicate Holds(msg: Bytes)
      reads this`inputLen, this`A, this`B, this`C, this`D, this`E, this`F, this`G, this`H, input
    {
      && input.Length == 64 && inputLen < 64
      && inputLen == |msg| % 64
      && input[..inputLen] == Rest(msg)
      && State() == Fold(compress, H0, Full(msg))
    }

    /** The total length is n, in 64 bits. */
    ghost predicate Counted(n: nat)
      reads this`totalLen
    {
      totalLen == n % TWO64
    }

    ghost predicate Valid()
      reads this, input
    {
      Compresses(compress) && Encodes(encode) && Holds(message) && Counted(|message|)
    }

    /** SHA256Init */
    constructor ()
      ensures Valid() && message == [] && fresh(input)
    {
      input := new Byte[64](_ => 0);
      inputLen := 0;
      A := 0x6a09e667;
      B := 0xbb67ae85;
      C := 0x3c6ef372;
      D := 0xa54ff53a;
      E := 0x510e527f;
      F := 0x9b05688c;
      G := 0x1f83d9ab;
      H := 0x5be0cd19;
      totalLen := 0;
      message := [];
      compress := (s, b) => if IsBlock(b) then Compress(s, b) else s;
      encode := (n: nat) => LengthBlock(n);
    }

    /** The first two loops of ProcessBlock: the block as 64 words. */
    method Unpack(block: Bytes) returns (w: array<Word>)
      requires IsBlock(block)
      ensures fresh(w) && w.Length == 64 && forall t :: 0 <= t < 64 ==> w[t] == W(block, t)
    {
      w := new Word[64];
      Load(block, w);
      for t := 16 to 64
        invariant forall i :: 0 <= i < t ==> w[i] == W(block, i)
      {
        ghost var before := w[..];
        w[t] := Next(w[t - 2], w[t - 7], w[t - 15], w[t - 16]);
        ScheduleStep(block, t, before);
      }
    }

    method Load(block: Bytes, w: array<Word>)
      requires IsBlock(block) && w.Length == 64
      modifies w
      ensures forall i :: 0 <= i < 16 ==> w[i] == W(block, i)
    {
      for t := 0 to 16
        invariant forall i :: 0 <= i < t ==> w[i] == W(block, i)
      {
        w[t] := BigEndian(block, 4 * t);
      }
    }

    /** ProcessBlock */
    method ProcessBlock(block: Bytes)
      requires IsBlock(block) && Compresses(compress)
      modifies this`A, this`B, this`C, this`D, this`E, this`F, this`G, this`H
      ensures State() == compress(old(State()), block)
    {
      var w := Unpack(block);
      var s := AllRounds(Hash(A, B, C, D, E, F, G, H), K, w, block);
      AddTo(s);
      assert State() == Compress(old(State()), block);
    }

    /** Combine the previous state with the new one. */
    method AddTo(s: Hash)
      modifies this`A, this`B, this`C, this`D, this`E, this`F, this`G, this`H
      ensures State() == Sum(old(State()), s)
    {
      A := Add(A, s.a);
      B := Add(B, s.b);
      C := Add(C, s.c);
      D := Add(D, s.d);
      E := Add(E, s.e);
      F := Add(F, s.f);
      G := Add(G, s.g);
      H := Add(H, s.h);
    }

    /** A piece goes behind what the buffer holds. */
    method CopyIn(piece: Bytes)
      requires input.Length == 64 && inputLen + |piece| <= 64
      modifies input
      ensures input[..inputLen + |piece|] == old(input[..inputLen]) + piece
    {
      var k := 0;
      while k < |piece|
        invariant 0 <= k <= |piece|
        invariant input[..inputLen] == old(input[..inputLen])
        invariant forall j :: 0 <= j < k ==> input[inputLen + j] == piece[j]
      {
        input[inputLen + k] := piece[k];
        k := k + 1;
      }
    }

    /** The whole blocks `full` are processed, the buffer holds `rest`. */
    ghost predicate Buffers(full: Bytes, rest: Bytes)
      reads this, input
    {
      && Compresses(compress) && input.Length == 64 && inputLen == |rest| <= 64 && input[..inputLen] == rest
      && |full| % 64 == 0 && State() == Fold(compress, H0, full)
    }

    ghost predicate LengthFits()
      reads this
    {
      Encodes(encode) && |encode(8 * totalLen)| == 8
    }

    /** The full buffer is processed and empty again. */
    method Flush(ghost full: Bytes, ghost block: Bytes)
      requires Buffers(full, block) && IsBlock(block)
      modifies this`inputLen, this`A, this`B, this`C, this`D, this`E, this`F, this`G, this`H
      ensures Buffers(full + block, [])
    {
      assert input[..] == input[..64];
      FoldBlock(compress, H0, full, block);
      ProcessBlock(input[..]);
      inputLen := 0;
    }

    /** Short cut: a whole block straight from the caller's buffer. */
    method TakeBlock(ghost msg: Bytes, block: Bytes)
      requires Compresses(compress) && Holds(msg) && inputLen == 0 && IsBlock(block)
      modifies this`A, this`B, this`C, this`D, this`E, this`F, this`G, this`H
      ensures Holds(msg + block)
    {
      Whole(msg);
      FoldBlock(compress, H0, msg, block);
      ProcessBlock(block);
      WholeToo(msg, block);
    }

    /** Otherwise as much as fits goes into the buffer, which is processed when it is full. */
    method TakePiece(ghost msg: Bytes, piece: Bytes)
      requires Compresses(compress) && Holds(msg) && 0 < |piece| <= 64 - inputLen
      modifies this`inputLen, this`A, this`B, this`C, this`D, this`E, this`F, this`G, this`H, input
      ensures Holds(msg + piece)
    {
      ghost var full, rest := Full(msg), Rest(msg);
      CopyIn(piece);
      inputLen := inputLen + |piece|;
      Split(msg);
      Assoc(full, rest, piece);
      assert Buffers(full, rest + piece);
      if inputLen >= 64 {
        Flush(full, rest + piece);
        Whole(msg + piece);
      } else {
        FullAndRest(full, rest + piece);
      }
    }

    /** One turn of the loop of SHA256Data. */
    method Take(ghost msg: Bytes, buffer: Bytes) returns (templen: nat)
      requires Compresses(compress) && Holds(msg) && |buffer| > 0
      modifies this`inputLen, this`A, this`B, this`C, this`D, this`E, this`F, this`G, this`H, input
      ensures 0 < templen <= |buffer| && Holds(msg + buffer[..templen])
    {
      if inputLen == 0 && |buffer| >= 64 {
        templen := 64;
        TakeBlock(msg, buffer[..64]);
      } else {
        templen := |buffer|;
        if templen > 64 - inputLen {
          templen := 64 - inputLen;
        }
        TakePiece(msg, buffer[..templen]);
      }
    }

    /** SHA256Data */
    method Data(buffer: Bytes)
      requires Valid()
      modifies this, input
      ensures Valid() && message == old(message) + buffer
    {
      CountBytes(|buffer|);
      AbsorbCounted(buffer);
    }

    /** The context stands for the message, but n bytes are counted already. */
    ghost predicate Ahead(n: nat)
      reads this, input
    {
      Compresses(compress) && Encodes(encode) && Holds(message) && Counted(n)
    }

    /** The length of the message grows by n, modulo 2 to the 64. */
    method CountBytes(n: nat)
      requires Ahead(|message|)
      modifies this`totalLen
      ensures Ahead(|message| + n)
    {
      SumMod(|message|, n);
      totalLen := (totalLen + n) % TWO64;
    }

    method AbsorbCounted(buffer: Bytes)
      requires Ahead(|message| + |buffer|)
      modifies this, input
      ensures Valid() && message == old(message) + buffer
    {
      ghost var whole := message + buffer;
      Absorb(message, buffer);
      message := whole;
    }

    /** Its loop: copy the blocks into the input buffer and process them. */
    method Absorb(ghost msg: Bytes, buffer: Bytes)
      requires Compresses(compress) && Holds(msg)
      modifies this`inputLen, this`A, this`B, this`C, this`D, this`E, this`F, this`G, this`H, input
      ensures Holds(msg + buffer)
    {
      var pos, len := 0, |buffer|;
      assert msg + buffer[..0] == msg;
      while len > 0
        invariant 0 <= pos && 0 <= len && pos + len == |buffer|
        invariant Holds(msg + buffer[..pos])
      {
        var templen := Take(msg + buffer[..pos], buffer[pos..]);
        NextPiece(msg, buffer, pos, templen);
        pos := pos + templen;
        len := len - templen;
      }
      assert buffer[..pos] == buffer;
    }

    /** Zeros up to place `limit` of the buffer. */
    method PadTo(limit: nat)
      requires input.Length == 64 && inputLen <= limit <= 64
      modifies this`inputLen, input
      ensures inputLen == limit && input[..limit] == old(input[..inputLen]) + Zeros(limit - old(inputLen))
    {
      while inputLen < limit
        invariant old(inputLen) <= inputLen <= limit
        invariant input[..old(inputLen)] == old(input[..inputLen])
        invariant forall j :: old(inputLen) <= j < inputLen ==> input[j] == 0
      {
        input[inputLen] := 0;
        inputLen := inputLen + 1;
      }
    }

    /** The padding of SHA256Finalize, with all blocks processed. */
    method PadAndProcess(ghost padded: Bytes)
      requires Valid() && IsPadding(encode, message, padded)
      modifies this`inputLen, this`A, this`B, this`C, this`D, this`E, this`F, this`G, this`H, input
      ensures State() == Fold(compress, H0, padded)
    {
      ghost var full, rest := Full(message), Rest(message);
      SameLength(encode, |message|);
      assert Buffers(full, rest) && LengthFits();
      if inputLen >= 56 {
        LongPad(padded, full, rest);
      } else {
        ShortPad(padded, full, rest);
      }
    }

    /** The padding takes a second block. */
    method LongPad(ghost padded: Bytes, ghost full: Bytes, ghost rest: Bytes)
      requires Buffers(full, rest) && LengthFits() && 56 <= |rest| < 64
      requires |padded| % 64 == 0 && padded == (full + Extra(rest)) + Tail([], encode(8 * totalLen))
      modifies this`inputLen, this`A, this`B, this`C, this`D, this`E, this`F, this`G, this`H, input
      ensures State() == Fold(compress, H0, padded)
    {
      ExtraBlock(full, rest);
      LastBlock(padded, full + Extra(rest), []);
    }

    /** One block of padding is enough. */
    method ShortPad(ghost padded: Bytes, ghost full: Bytes, ghost rest: Bytes)
      requires Buffers(full, rest) && LengthFits() && |rest| < 56
      requires |padded| % 64 == 0 && padded == full + Tail(rest + [0x80], encode(8 * totalLen))
      modifies this`inputLen, this`A, this`B, this`C, this`D, this`E, this`F, this`G, this`H, input
      ensures State() == Fold(compress, H0, padded)
    {
      AppendOne();
      LastBlock(padded, full, rest + [0x80]);
    }

    /** When the length no longer fits: the rest of the message, the one bit and zeros. */
    method ExtraBlock(ghost full: Bytes, ghost rest: Bytes)
      requires Buffers(full, rest) && 56 <= |rest| < 64
      modifies this`inputLen, this`A, this`B, this`C, this`D, this`E, this`F, this`G, this`H, input
      ensures Buffers(full + Extra(rest), [])
    {
      AppendOne();
      PadTo(64);
      Flush(full, Extra(rest));
    }

    /** The one bit that follows the message. */
    method AppendOne()
      requires input.Length == 64 && inputLen < 64
      modifies this`inputLen, input
      ensures inputLen == old(inputLen) + 1 && input[..inputLen] == old(input[..inputLen]) + [0x80]
    {
      input[inputLen] := 0x80;
      inputLen := inputLen + 1;
    }

    /** Zeros and the length fill up the last block. */
    method LastBlock(ghost padded: Bytes, ghost done: Bytes, ghost start: Bytes)
      requires Buffers(done, start) && LengthFits() && |start| <= 56
      requires |padded| % 64 == 0 && padded == done + Tail(start, encode(8 * totalLen))
      modifies this`inputLen, this`A, this`B, this`C, this`D, this`E, this`F, this`G, this`H, input
      ensures State() == Fold(compress, H0, padded)
    {
      PadTo(56);
      WriteLength();
      FoldBlock(compress, H0, done, input[..]);
      ProcessBlock(input[..]);
    }

    /** The length in bits into the last eight bytes of the buffer. */
    method WriteLength()
      requires input.Length == 64 && Encodes(encode)
      modifies input
      ensures input[..] == old(input[..56]) + encode(8 * totalLen)
    {
      var totalBits := totalLen * 8 % TWO64;
      var hi, lo := ToWord(totalBits / TWO32), ToWord(totalBits % TWO32);
      WriteTwo(input, 56, hi, lo);
      LengthWritten(encode, totalLen);
      assert input[..] == input[..64];
    }

    method WriteHash(hash: array<Byte>)
      requires hash.Length == 32
      modifies hash
      ensures hash[..] == HashBytes(State())
    {
      WriteFour(hash, 0, A, B, C, D);
      WriteFour(hash, 16, E, F, G, H);
      assert hash[..0] == [] && hash[..32] == hash[..];
      Assoc8(WordBytes(A), WordBytes(B), WordBytes(C), WordBytes(D), WordBytes(E), WordBytes(F), WordBytes(G), WordBytes(H));
    }

    /** SHA256Finalize; without somewhere to put the hash the context is only blanked out. */
    method Finalize(hash: array?<Byte>)
      requires Valid()
      requires hash != null ==> hash.Length == 32 && hash != input
      modifies this, input, hash
      ensures hash != null ==> hash[..] == Sha256(old(message))
      ensures Blank()
    {
      if hash != null {
        PadIsPadding(encode, message);
        PadAndProcess(Pad(message));
        FoldIsDigest(compress, H0, Pad(message));
        WriteHash(hash);
      }
      BlankOut();
    }

    /** Nothing of the message is left in the context. */
    ghost predicate Blank()
      reads this, input
    {
      && State() == Hash(0, 0, 0, 0, 0, 0, 0, 0) && inputLen == 0 && totalLen == 0
      && forall i :: 0 <= i < input.Length ==> input[i] == 0
    }

    method BlankOut()
      modifies this`inputLen, this`totalLen, this`A, this`B, this`C, this`D, this`E, this`F, this`G, this`H, input
      ensures Blank()
    {
      forall i | 0 <= i < input.Length { input[i] := 0; }
      inputLen, totalLen := 0, 0;
      A, B, C, D, E, F, G, H := 0, 0, 0, 0, 0, 0, 0, 0;
    }
  }

  lemma ScheduleStep(block: Bytes, t: nat, w: seq<Word>)
    requires IsBlock(block) && 16 <= t < |w| && forall i :: 0 <= i < t ==> w[i] == W(block, i)
    ensures Next(w[t - 2], w[t - 7], w[t - 15], w[t - 16]) == W(block, t)
  {}

  lemma SumMod(m: nat, n: nat)
    ensures (m % TWO64 + n) % TWO64 == (m + n) % TWO64
  {}

  lemma NextPiece(msg: Bytes, buffer: Bytes, pos: nat, n: nat)
    requires pos + n <= |buffer|
    ensures (msg + buffer[..pos]) + buffer[pos..][..n] == msg + buffer[..pos + n]
  {
    assert buffer[..pos + n] == buffer[..pos] + buffer[pos..][..n];
    Assoc(msg, buffer[..pos], buffer[pos..][..n]);
  }

  /** WriteLong: a word into four bytes of a buffer. */
  method WriteLong(buf: array<Byte>, at: nat, value: Word)
    requires at + 4 <= buf.Length
    modifies buf
    ensures buf[..at + 4] == old(buf[..at]) + WordBytes(value) && buf[at + 4..] == old(buf[at + 4..])
  {
    buf[at] := (value >> 24) as Byte;
    buf[at + 1] := ((value >> 16) & 0xFF) as Byte;
    buf[at + 2] := ((value >> 8) & 0xFF) as Byte;
    buf[at + 3] := (value & 0xFF) as Byte;
  }

  method WriteTwo(buf: array<Byte>, at: nat, x: Word, y: Word)
    requires at + 8 <= buf.Length
    modifies buf
    ensures buf[..at + 8] == old(buf[..at]) + (WordBytes(x) + WordBytes(y))
  {
    ghost var start := buf[..at];
    WriteLong(buf, at, x);
    WriteLong(buf, at + 4, y);
    Assoc(start, WordBytes(x), WordBytes(y));
  }

  method WriteFour(buf: array<Byte>, at: nat, w: Word, x: Word, y: Word, z: Word)
    requires at + 16 <= buf.Length
    modifies buf
    ensures buf[..at + 16] == old(buf[..at]) + (WordBytes(w) + WordBytes(x) + WordBytes(y) + WordBytes(z))
  {
    ghost var start := buf[..at];
    WriteLong(buf, at, w);
    WriteLong(buf, at + 4, x);
    WriteLong(buf, at + 8, y);
    WriteLong(buf, at + 12, z);
    Assoc4(start, WordBytes(w), WordBytes(x), WordBytes(y), WordBytes(z));
  }

  lemma Assoc4(s: Bytes, a: Bytes, b: Bytes, c: Bytes, d: Bytes)
    ensures s + a + b + c + d == s + (a + b + c + d)
  {}

  lemma Assoc8(a: Bytes, b: Bytes, c: Bytes, d: Bytes, e: Bytes, f: Bytes, g: Bytes, h: Bytes)
    ensures (a + b + c + d) + (e + f + g + h) == a + b + c + d + e + f + g + h
  {}

  lemma LengthWritten(g: Lengths, n: nat)
    requires Encodes(g)
    ensures var bits := n * 8 % TWO64; g(8 * n) == WordBytes(ToWord(bits / TWO32)) + WordBytes(ToWord(bits % TWO32))
  {
    SameBlock(8 * n);
    LengthInWords(8 * n % TWO64);
    assert g(8 * n) == LengthBlock(8 * n);
  }

  lemma LengthInWords(bits: nat)
    ensures LengthBlock(bits) == WordBytes(ToWord(bits / TWO32)) + WordBytes(ToWord(bits % TWO32))
  {
    BlockInHalves(bits);
    BytesOfWord(bits / TWO32);
    BytesOfWord(bits % TWO32);
  }

  function FourBytes(n: nat): Bytes {
    [ByteAt(n, 0x100_0000), ByteAt(n, 0x1_0000), ByteAt(n, 0x100), ByteAt(n, 1)]
  }

  lemma BlockInHalves(bits: nat)
    ensures LengthBlock(bits) == FourBytes(bits / TWO32) + FourBytes(bits % TWO32)
  {
    DigitsInWords(bits);
  }

  /** The digits of a number are those of its two halves. */
  lemma DigitsInWords(n: nat)
    ensures var hi, lo := n / TWO32, n % TWO32;
            && Digit(n, 0x100_0000_0000_0000) == Digit(hi, 0x100_0000) && Digit(n, 0x1_0000_0000_0000) == Digit(hi, 0x1_0000)
            && Digit(n, 0x100_0000_0000) == Digit(hi, 0x100) && Digit(n, 0x1_0000_0000) == Digit(hi, 1)
            && Digit(n, 0x100_0000) == Digit(lo, 0x100_0000) && Digit(n, 0x1_0000) == Digit(lo, 0x1_0000)
            && Digit(n, 0x100) == Digit(lo, 0x100) && Digit(n, 1) == Digit(lo, 1)
  {
    HighBytes(n);
    LowBytes(n / TWO32, n % TWO32);
    assert n == n / TWO32 * TWO32 + n % TWO32;
  }

  lemma BytesOfWord(n: nat)
    ensures WordBytes(ToWord(n)) == FourBytes(n)
  {
    Unpacked(ByteAt(n, 0x100_0000), ByteAt(n, 0x1_0000), ByteAt(n, 0x100), ByteAt(n, 1));
  }

  /** A word packed from four bytes, most significant first, has these bytes. */
  lemma Unpacked(b0: Byte, b1: Byte, b2: Byte, b3: Byte)
    ensures WordBytes((b0 as Word << 24) | (b1 as Word << 16) | (b2 as Word << 8) | (b3 as Word)) == [b0, b1, b2, b3]
  {}

  lemma HighBytes(x: nat)
    ensures x / TWO32 / 0x100_0000 == x / 0x100_0000_0000_0000
    ensures x / TWO32 / 0x1_0000 == x / 0x1_0000_0000_0000
    ensures x / TWO32 / 0x100 == x / 0x100_0000_0000
  {}

  lemma LowBytes(q: nat, r: nat)
    requires r < TWO32
    ensures var x := q * TWO32 + r;
            && r / 0x100_0000 % 0x100 == x / 0x100_0000 % 0x100 && r / 0x1_0000 % 0x100 == x / 0x1_0000 % 0x100
            && r / 0x100 % 0x100 == x / 0x100 % 0x100 && r % 0x100 == x % 0x100
  {
    LowByte(q, r, 0x100_0000, 0x1);
    LowByte(q, r, 0x1_0000, 0x100);
    LowByte(q, r, 0x100, 0x1_0000);
    LowByte(q, r, 1, 0x100_0000);
  }

  lemma LowByte(q: nat, r: nat, d: nat, e: nat)
    requires d > 0 && d * 0x100 * e == TWO32
    ensures r / d % 0x100 == (q * TWO32 + r) / d % 0x100
  {
    ByteOf(q, r, d, e, TWO32);
  }

  /** A byte at the place d below m does not depend on multiples of m. */
  lemma ByteOf(q: nat, r: nat, d: nat, e: nat, m: nat)
    requires d > 0 && d * 0x100 * e == m
    ensures r / d % 0x100 == (q * m + r) / d % 0x100
  {
    assert q * m == q * e * 0x100 * d;
    DivShift(q * e * 0x100, d, r);
    SameLowByte(q * e, r / d);
  }

  lemma SameDigit(q: nat, r: nat, d: nat, e: nat)
    requires d > 0 && d * 0x100 * e == TWO64
    ensures Digit(q * TWO64 + r, d) == Digit(r, d)
  {
    ByteOf(q, r, d, e, TWO64);
  }

  /** The length block of a number is that of its last 64 bits. */
  lemma BlockOf(q: nat, r: nat)
    ensures LengthBlock(q * TWO64 + r) == LengthBlock(r)
  {
    SameDigit(q, r, 0x100_0000_0000_0000, 1);
    SameDigit(q, r, 0x1_0000_0000_0000, 0x100);
    SameDigit(q, r, 0x100_0000_0000, 0x1_0000);
    SameDigit(q, r, 0x1_0000_0000, 0x100_0000);
    SameDigit(q, r, 0x100_0000, 0x1_0000_0000);
    SameDigit(q, r, 0x1_0000, 0x100_0000_0000);
    SameDigit(q, r, 0x100, 0x1_0000_0000_0000);
    SameDigit(q, r, 1, 0x100_0000_0000_0000);
  }

  lemma SameBlock(x: nat)
    ensures LengthBlock(x % TWO64) == LengthBlock(x)
  {
    assert x == x / TWO64 * TWO64 + x % TWO64;
    BlockOf(x / TWO64, x % TWO64);
  }

  /** Counting bytes modulo 2^64 is enough. */
  lemma SameLength(g: Lengths, n: nat)
    requires Encodes(g)
    ensures g(8 * (n % TWO64)) == g(8 * n)
  {
    var q, r := n / TWO64, n % TWO64;
    assert 8 * n == 8 * q * TWO64 + 8 * r;
    BlockOf(8 * q, 8 * r);
    assert g(8 * n) == LengthBlock(8 * n) && g(8 * r) == LengthBlock(8 * r);
  }

  lemma SameLowByte(p: nat, x: nat)
    ensures (p * 0x100 + x) % 0x100 == x % 0x100
  {}

  lemma DivShift(p: nat, d: nat, r: nat)
    requires d > 0
    ensures (p * d + r) / d == p + r / d
  {
    var t := r / d;
    assert p * d + r == (p + t) * d + r % d;
    QuotientIs(p * d + r, d, p + t, r % d);
  }

  lemma QuotientIs(x: nat, d: nat, q: nat, r: nat)
    requires d > 0 && r < d && x == q * d + r
    ensures x / d == q
  {
    var e: int := x / d - q;
    assert x == x / d * d + x % d;
    assert e * d == r - x % d;
    NoMultiple(e, d);
  }

  /** The round loop of ProcessBlock. */
  method AllRounds(s: Hash, k: seq<Word>, w: array<Word>, ghost block: Bytes) returns (r: Hash)
    requires IsBlock(block) && |k| == w.Length && forall t :: 0 <= t < w.Length ==> w[t] == W(block, t)
    ensures r == Rounds(s, k, block, |k|)
  {
    r := s;
    for t := 0 to w.Length
      invariant r == Rounds(s, k, block, t)
    {
      r := OneRound(r, k[t], w[t]);
    }
  }

  /** One of the 64 rounds of ProcessBlock. */
  method OneRound(s: Hash, k: Word, w: Word) returns (r: Hash)
    ensures r == Round(s, k, w)
  {
    var a, b, c, d, e, f, g, h := s.a, s.b, s.c, s.d, s.e, s.f, s.g, s.h;
    var temp := T1(e, f, g, h, k, w);
    var temp2 := T2(a, b, c);
    h := g;
    g := f;
    f := e;
    e := Add(d, temp);
    d := c;
    c := b;
    b := a;
    a := Add(temp, temp2);
    r := Hash(a, b, c, d, e, f, g, h);
  }

  /**
   However a message is cut into pieces for SHA256Data, the hash is that of the whole message.
   With one piece this is get_sha256_hash.
   */
  method HashPieces(pieces: seq<Bytes>) returns (hash: array<Byte>)
    ensures hash[..] == Sha256(Concat(pieces))
  {
    var sha := new Context();
    var i := 0;
    while i < |pieces|
      invariant 0 <= i <= |pieces| && sha.Valid() && fresh(sha) && fresh(sha.input)
      invariant sha.message == Concat(pieces[..i])
    {
      assert pieces[..i + 1][..i] == pieces[..i];
      sha.Data(pieces[i]);
      i := i + 1;
    }
    assert pieces[..i] == pieces;
    hash := new Byte[32];
    sha.Finalize(hash);
  }
}
