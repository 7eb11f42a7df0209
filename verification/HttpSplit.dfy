/**
 The header/body split of get_http_response in libewget.c: a reply that arrives in arbitrary
 reads is cut after the blank line that ends its header.
 */
module HttpSplit {
  import opened Words

  const LF: U8 := 10
  const CR: U8 := 13

  /** reply->header, reply->data, reading_header and last_two_bytes_of_old_read_buffer. */
  datatype Split = Split(header: Bytes, body: Bytes, reading: bool, last0: U8, last1: U8)

  const START := Split([], [], true, 0, 0)

  // ----- Where a header can end -----

  predicate LfEnd(s: Bytes, e: nat) {
    2 <= e <= |s| && s[e - 2] == LF && s[e - 1] == LF
  }

  predicate CrEnd(s: Bytes, e: nat) {
    3 <= e <= |s| && s[e - 3] == LF && s[e - 2] == CR && s[e - 1] == LF
  }

  /** A blank line ends at e: "\n\n" or "\n\r\n". */
  predicate Ends(s: Bytes, e: nat) {
    LfEnd(s, e) || CrEnd(s, e)
  }

  predicate NoNul(s: Bytes) {
    forall i :: 0 <= i < |s| ==> s[i] != 0
  }

  /** strstr from i on, returning the end of the first match, for one of the two marks. */
  function Strstr(s: Bytes, cr: bool, i: nat): (r: Option<nat>)
    requires i <= |s|
    ensures r.Some? ==> i < r.value && (if cr then CrEnd(s, r.value) else LfEnd(s, r.value))
    ensures forall e: nat :: (if cr then i + 3 <= e && CrEnd(s, e) else i + 2 <= e && LfEnd(s, e)) && NoNul(s[i..e]) ==>
              r.Some? && r.value <= e
    decreases |s| - i
  {
    if i == |s| || s[i] == 0 then
      assert forall e: nat :: i < e <= |s| ==> s[i..e][0] == s[i];
      None
    else if cr && CrEnd(s, i + 3) then Some(i + 3)
    else if !cr && LfEnd(s, i + 2) then Some(i + 2)
    else
      assert forall e: nat :: i < e <= |s| && NoNul(s[i..e]) ==> NoNul(s[i + 1..e]) by {
        forall e: nat | i < e <= |s| && NoNul(s[i..e]) ensures NoNul(s[i + 1..e]) {
          assert s[i + 1..e] == s[i..e][1..];
        }
      }
      Strstr(s, cr, i + 1)
  }

  // ----- One read -----

  /** Where in the buffer the body starts, if it does. */
  function BodyStart(last0: U8, last1: U8, buffer: Bytes): (r: Option<nat>)
    requires buffer != []
    ensures r.Some? ==> r.value <= |buffer|
  {
    if last0 == LF && last1 == CR && buffer[0] == LF then Some(1)
    else if last1 == LF && |buffer| > 1 && buffer[0] == CR && buffer[1] == LF then Some(2)
    else if last1 == LF && buffer[0] == LF then Some(1)
    else
      var cr, lf := Strstr(buffer, true, 0), Strstr(buffer, false, 0);
      if cr.Some? && lf.Some? then (if cr.value < lf.value then cr else lf)
      else if cr.Some? then cr else lf
  }

  function Read(st: Split, buffer: Bytes): Split
    requires buffer != []
  {
    var n := |buffer|;
    var last0: U8 := if n == 1 then 0 else buffer[n - 2];
    if st.reading then
      match BodyStart(st.last0, st.last1, buffer)
      case None => Split(st.header + buffer, st.body, true, last0, buffer[n - 1])
      case Some(k) => Split(st.header + buffer[..k], st.body + buffer[k..], false, last0, buffer[n - 1])
    else
      Split(st.header, st.body + buffer, false, last0, buffer[n - 1])
  }

  type Chunks = seq<Bytes>

  predicate NonEmpty(chunks: Chunks) {
    forall i :: 0 <= i < |chunks| ==> chunks[i] != []
  }

  function ReadAll(chunks: Chunks): Split
    requires NonEmpty(chunks)
  {
    if chunks == [] then START
    else var n := |chunks| - 1; Read(ReadAll(chunks[..n]), chunks[n])
  }

  // ----- What was read -----

  /** The bytes read, the places of those that were a read of their own, and the size of the last read. */
  datatype History = History(stream: Bytes, alone: set<int>, last: nat)

  function Extend(h: History, b: Bytes): History {
    History(h.stream + b, if |b| == 1 then h.alone + {|h.stream|} else h.alone, |b|)
  }

  function Past(chunks: Chunks): History {
    if chunks == [] then History([], {}, 0)
    else var n := |chunks| - 1; Extend(Past(chunks[..n]), chunks[n])
  }

  ghost predicate Sound(h: History) {
    && (forall p :: p in h.alone ==> 0 <= p < |h.stream|)
    && h.last <= |h.stream| && (h.last == 0 <==> h.stream == [])
    && (|h.stream| - 1 in h.alone <==> h.last == 1)
  }

  lemma ExtendSound(h: History, b: Bytes)
    requires Sound(h) && b != []
    ensures Sound(Extend(h, b))
  {}

  lemma {:induction false} PastSound(chunks: Chunks)
    requires NonEmpty(chunks)
    ensures Sound(Past(chunks)) && Past(chunks).stream == Concat(chunks)
  {
    if chunks != [] {
      var n := |chunks| - 1;
      PastSound(chunks[..n]);
      ExtendSound(Past(chunks[..n]), chunks[n]);
    }
  }

  // ----- What is found -----

  predicate SeenIn(s: Bytes, alone: bool, e: nat) {
    LfEnd(s, e) || (CrEnd(s, e) && !alone)
  }

  /** An end that the reading loop can see: not a "\n\r\n" whose carriage return was read alone. */
  predicate Seen(h: History, e: nat) {
    SeenIn(h.stream, e - 2 in h.alone, e)
  }

  /** Header and body are the stream, cut at the first end that can be seen. */
  ghost predicate SplitAtFirst(st: Split, h: History) {
    && st.header + st.body == h.stream
    && (if st.reading then st.body == [] else Seen(h, |st.header|))
    && (forall e: nat :: Seen(h, e) ==> !st.reading && |st.header| <= e)
  }

  /** What the last two bytes are about. */
  ghost predicate Remembers(st: Split, h: History) {
    var s := h.stream;
    && st.last1 == (if s == [] then 0 else s[|s| - 1])
    && st.last0 == (if h.last < 2 || |s| < 2 then 0 else s[|s| - 2])
  }

  /** An end k bytes into the buffer, from the buffer and the two bytes remembered. */
  ghost predicate SeenHere(last0: U8, last1: U8, b: Bytes, k: nat) {
    && 1 <= k <= |b|
    && (|| Ends(b, k)
        || (k == 1 && b[0] == LF && (last1 == LF || (last0 == LF && last1 == CR)))
        || (k == 2 && b[0] == CR && b[1] == LF && last1 == LF))
  }

  /** The three tests find the first of them. */
  lemma BodyStartIsFirst(last0: U8, last1: U8, b: Bytes)
    requires b != []
    ensures var r := BodyStart(last0, last1, b);
            && (r.Some? ==> SeenHere(last0, last1, b, r.value))
            && (forall k: nat :: SeenHere(last0, last1, b, k) && NoNul(b[..k]) ==> r.Some? && r.value <= k)
  {
    forall k: nat | SeenHere(last0, last1, b, k) && NoNul(b[..k])
      ensures BodyStart(last0, last1, b).Some? && BodyStart(last0, last1, b).value <= k
    {
      assert b[0..k] == b[..k];
    }
  }

  /** Ends in the stream before a read, and ends in that read. */
  lemma SeenBefore(h: History, b: Bytes, e: nat)
    requires e <= |h.stream|
    ensures Seen(Extend(h, b), e) <==> Seen(h, e)
  {}

  lemma SeenNow(st: Split, h: History, b: Bytes, k: nat)
    requires b != [] && Sound(h) && Remembers(st, h) && 1 <= k
    ensures Seen(Extend(h, b), |h.stream| + k) <==> SeenHere(st.last0, st.last1, b, k)
  {
    var s := h.stream;
    if k == 1 {
      SeenAtOne(s, b, |s| - 1 in h.alone, st.last0, st.last1);
    } else if k == 2 {
      SeenAtTwo(s, b, |b| == 1, st.last0, st.last1);
    } else {
      SeenInside(s, b, st.last0, st.last1, k);
    }
  }

  lemma SeenInside(s: Bytes, b: Bytes, last0: U8, last1: U8, k: nat)
    requires 3 <= k
    ensures SeenIn(s + b, false, |s| + k) <==> SeenHere(last0, last1, b, k)
  {
    if k <= |b| {
      var t, e := s + b, |s| + k;
      assert t[e - 1] == b[k - 1] && t[e - 2] == b[k - 2] && t[e - 3] == b[k - 3];
    }
  }

  /** The mark ends with the first byte of the buffer. */
  lemma SeenAtOne(s: Bytes, b: Bytes, alone: bool, last0: U8, last1: U8)
    requires b != [] && (if s == [] then last1 == 0 else last1 == s[|s| - 1])
    requires |s| < 2 || alone ==> last0 == 0
    requires |s| >= 2 && !alone ==> last0 == s[|s| - 2]
    ensures SeenIn(s + b, alone, |s| + 1) <==> SeenHere(last0, last1, b, 1)
  {
    assert (s + b)[|s|] == b[0];
  }

  /** The mark ends with its second byte. */
  lemma SeenAtTwo(s: Bytes, b: Bytes, alone: bool, last0: U8, last1: U8)
    requires b != [] && (alone <==> |b| == 1) && (if s == [] then last1 == 0 else last1 == s[|s| - 1])
    ensures SeenIn(s + b, alone, |s| + 2) <==> SeenHere(last0, last1, b, 2)
  {
    if |b| >= 2 {
      assert (s + b)[|s|] == b[0] && (s + b)[|s| + 1] == b[1];
    }
  }

  // ----- The split is right -----

  lemma ReadInBody(st: Split, h: History, b: Bytes)
    requires b != [] && !st.reading && SplitAtFirst(st, h)
    ensures SplitAtFirst(Read(st, b), Extend(h, b))
  {
    Assoc(st.header, st.body, b);
    SeenBefore(h, b, |st.header|);
    forall e: nat | Seen(Extend(h, b), e) ensures |st.header| <= e {
      if e <= |h.stream| {
        SeenBefore(h, b, e);
      }
    }
  }

  /** One read inside the header keeps the split right, as long as there is no NUL in the header. */
  lemma ReadInHeader(st: Split, h: History, b: Bytes)
    requires b != [] && Sound(h) && Remembers(st, h) && SplitAtFirst(st, h) && st.reading
    requires NoNul(Read(st, b).header)
    ensures SplitAtFirst(Read(st, b), Extend(h, b))
  {
    var r, after := BodyStart(st.last0, st.last1, b), Read(st, b);
    assert st.header == h.stream;
    if r.Some? {
      BodyStartIsFirst(st.last0, st.last1, b);
      SeenNow(st, h, b, r.value);
      assert b == b[..r.value] + b[r.value..];
    }
    forall e: nat | Seen(Extend(h, b), e) ensures !after.reading && |after.header| <= e {
      NoneEarlier(st, h, b, e);
    }
  }

  lemma NoneEarlier(st: Split, h: History, b: Bytes, e: nat)
    requires b != [] && Sound(h) && Remembers(st, h) && SplitAtFirst(st, h) && st.reading
    requires NoNul(Read(st, b).header) && Seen(Extend(h, b), e)
    ensures !Read(st, b).reading && |Read(st, b).header| <= e
  {
    var p := |h.stream|;
    if e <= p {
      SeenBefore(h, b, e);
    } else {
      SeenNow(st, h, b, e - p);
      assert st.header == h.stream;
      FirstInBuffer(st, b, e - p);
    }
  }

  lemma FirstInBuffer(st: Split, b: Bytes, k: nat)
    requires b != [] && st.reading && NoNul(Read(st, b).header) && SeenHere(st.last0, st.last1, b, k)
    ensures !Read(st, b).reading && |Read(st, b).header| <= |st.header| + k
  {
    BodyStartIsFirst(st.last0, st.last1, b);
    var p, after := |st.header|, Read(st, b);
    if p + k <= |after.header| {
      assert b[..k] == after.header[p..p + k];
    }
  }

  lemma NothingLost(st: Split, b: Bytes)
    requires b != [] && (st.reading ==> st.body == [])
    ensures Read(st, b).header + Read(st, b).body == st.header + st.body + b
    ensures Read(st, b).reading ==> Read(st, b).body == []
    ensures st.header <= Read(st, b).header
  {
    if st.reading && BodyStart(st.last0, st.last1, b).Some? {
      var k := BodyStart(st.last0, st.last1, b).value;
      assert b == b[..k] + b[k..];
    }
  }

  lemma OneMoreRead(st: Split, h: History, b: Bytes)
    requires b != [] && Sound(h) && Remembers(st, h) && (st.reading ==> st.body == [])
    requires st.header + st.body == h.stream && (NoNul(st.header) ==> SplitAtFirst(st, h))
    ensures var after := Read(st, b);
            && Remembers(after, Extend(h, b)) && (after.reading ==> after.body == [])
            && after.header + after.body == Extend(h, b).stream
            && (NoNul(after.header) ==> SplitAtFirst(after, Extend(h, b)))
  {
    NothingLost(st, b);
    if NoNul(Read(st, b).header) {
      if st.reading {
        ReadInHeader(st, h, b);
      } else {
        ReadInBody(st, h, b);
      }
    }
  }

  /**
   However a reply is read, header and body together are the stream; and if there is no NUL in
   the header, it ends at the first blank line that can be seen, or nowhere if there is none.
   */
  lemma {:induction false} SplitIsRight(chunks: Chunks)
    requires NonEmpty(chunks)
    ensures ReadAll(chunks).header + ReadAll(chunks).body == Past(chunks).stream
    ensures NoNul(ReadAll(chunks).header) ==> SplitAtFirst(ReadAll(chunks), Past(chunks))
    ensures Remembers(ReadAll(chunks), Past(chunks))
    ensures ReadAll(chunks).reading ==> ReadAll(chunks).body == []
  {
    if chunks != [] {
      var n := |chunks| - 1;
      SplitIsRight(chunks[..n]);
      PastSound(chunks[..n]);
      OneMoreRead(ReadAll(chunks[..n]), Past(chunks[..n]), chunks[n]);
    }
  }

  predicate SplitAt(st: Split, s: Bytes, e: nat) {
    !st.reading && e <= |s| && st.header == s[..e] && st.body == s[e..]
  }

  /** No read inside the header is a single byte, but for the one that ends it. */
  predicate WholeReads(chunks: Chunks, e: nat) {
    forall p :: p in Past(chunks).alone ==> p + 1 >= e
  }

  /**
   The header ends at the first blank line of the whole stream, exactly if the carriage return
   of that line, should it have one, was not read alone.
   */
  lemma SplitsAtFirstBlankLine(chunks: Chunks, e: nat)
    requires NonEmpty(chunks) && NoNul(ReadAll(chunks).header)
    requires Ends(Concat(chunks), e) && forall f: nat :: f < e ==> !Ends(Concat(chunks), f)
    ensures SplitAt(ReadAll(chunks), Concat(chunks), e) <==> LfEnd(Concat(chunks), e) || e - 2 !in Past(chunks).alone
    ensures WholeReads(chunks, e) ==> SplitAt(ReadAll(chunks), Concat(chunks), e)
  {
    SplitIsRight(chunks);
    PastSound(chunks);
    FirstSeen(ReadAll(chunks), Past(chunks), e);
  }

  lemma FirstSeen(st: Split, h: History, e: nat)
    requires SplitAtFirst(st, h)
    requires Ends(h.stream, e) && forall f: nat :: f < e ==> !Ends(h.stream, f)
    ensures SplitAt(st, h.stream, e) <==> LfEnd(h.stream, e) || e - 2 !in h.alone
  {
    var s := h.stream;
    assert st.header == s[..|st.header|] && st.body == s[|st.header|..];
    if Seen(h, e) {
      assert Ends(s, |st.header|);
    }
  }

  // ----- The loop in place -----

  /** get_http_response, with the reads that read_connection will return before it returns nothing. */
  method GetResponse(chunks: Chunks) returns (header: Bytes, data: Bytes)
    requires NonEmpty(chunks)
    ensures header == ReadAll(chunks).header && data == ReadAll(chunks).body
    ensures header + data == Concat(chunks)
  {
    header, data := [], [];
    var readingHeader, last0, last1 := true, 0, 0;
    var i := 0;
    while i < |chunks|
      invariant 0 <= i <= |chunks|
      invariant Split(header, data, readingHeader, last0, last1) == ReadAll(chunks[..i])
    {
      var buffer := chunks[i];
      assert chunks[..i + 1][..i] == chunks[..i];
      var headerLength, bodyStart := 0, Some(0);
      if readingHeader {
        bodyStart := FindBody(last0, last1, buffer);
        headerLength := if bodyStart.Some? then bodyStart.value else |buffer|;
        header := header + buffer[..headerLength];
        if bodyStart.Some? {
          readingHeader := false;
        }
      }
      if !readingHeader {
        data := data + buffer[headerLength..];
      }
      last0 := if |buffer| == 1 then 0 else buffer[|buffer| - 2];
      last1 := buffer[|buffer| - 1];
      i := i + 1;
    }
    assert chunks[..i] == chunks;
    SplitIsRight(chunks);
    PastSound(chunks);
  }

  /** cr_end and lf_end, and the earlier of them. */
  method FindBody(last0: U8, last1: U8, buffer: Bytes) returns (bodyStart: Option<nat>)
    requires buffer != []
    ensures bodyStart == BodyStart(last0, last1, buffer)
  {
    var crEnd, lfEnd: Option<nat> := None, None;
    if last0 == LF && last1 == CR {
      crEnd := if buffer[0] == LF then Some(1) else crEnd;
    }
    if crEnd.None? && lfEnd.None? && last1 == LF {
      crEnd := if |buffer| > 1 && buffer[0] == CR && buffer[1] == LF then Some(2) else crEnd;
      lfEnd := if buffer[0] == LF then Some(1) else lfEnd;
    }
    if crEnd.None? && lfEnd.None? {
      crEnd := Strstr(buffer, true, 0);
      lfEnd := Strstr(buffer, false, 0);
    }
    if crEnd.Some? && lfEnd.Some? {
      bodyStart := if crEnd.value < lfEnd.value then crEnd else lfEnd;
    } else {
      bodyStart := if crEnd.Some? then crEnd else lfEnd;
    }
  }
}
