/**
 The loop of uip_process that looks for the MSS option in a SYN or SYN-ACK. Its counter is of
 eight bits, so that a step from one option to the next can lead back.
 */
module Options {
  import opened Words
  import opened Checksum
  import opened Tcp
  import opened Packets

  const OPT_END: U8 := 0
  const OPT_NOOP: U8 := 1
  const OPT_MSS: U8 := 2
  const MSS_LEN: U8 := 4

  /** Where the loop is: at a place in the options, or over, with what it found. */
  datatype Place = At(c: nat) | Over(mss: Option<U16>)

  /** The bytes of options in a header of 4 * offset bytes. */
  function Limit(offset: U8): nat
    requires 5 <= offset < 16
  {
    4 * (offset - 5)
  }

  function Enter(c: nat, limit: nat): Place {
    if c < limit then At(c) else Over(None)
  }

  /** One turn of the loop; `area` is uip_buf from the end of a 20-byte TCP header on. */
  function Turn(area: Area, limit: nat, c: nat): Place
    requires c < limit <= 40
  {
    if area[c] == OPT_END then Over(None)
    else if area[c] == OPT_NOOP then Enter((c + 1) % 0x100, limit)
    else if area[c] == OPT_MSS && area[c + 1] == MSS_LEN then Over(Some(Word(area[c + 2], area[c + 3])))
    else if area[c + 1] == 0 then Over(None)
    else Enter((c + area[c + 1]) % 0x100, limit)
  }

  /** Where the loop is after n turns. */
  function Walk(area: Area, limit: nat, n: nat): (p: Place)
    requires limit <= 40
    ensures p.At? ==> p.c < limit
  {
    if n == 0 then Enter(0, limit)
    else
      var p := Walk(area, limit, n - 1);
      if p.At? then Turn(area, limit, p.c) else p
  }

  /** The loop comes twice to one place. */
  ghost predicate Recurs(area: Area, limit: nat)
    requires limit <= 40
  {
    exists i, j :: 0 <= i < j <= limit && Walk(area, limit, i).At? && Walk(area, limit, i) == Walk(area, limit, j)
  }

  // ----- When the loop ends -----

  lemma {:induction false} OverStays(area: Area, limit: nat, n: nat, m: nat)
    requires limit <= 40 && n <= m && Walk(area, limit, n).Over?
    ensures Walk(area, limit, m) == Walk(area, limit, n)
    decreases m
  {
    if n < m {
      OverStays(area, limit, n, m - 1);
    }
  }

  lemma {:induction false} Shift(area: Area, limit: nat, i: nat, j: nat, k: nat)
    requires limit <= 40 && Walk(area, limit, i) == Walk(area, limit, j)
    ensures Walk(area, limit, i + k) == Walk(area, limit, j + k)
  {
    if k > 0 {
      Shift(area, limit, i, j, k - 1);
    }
  }

  /** Back at a place it has been to, the loop goes round for ever. */
  lemma {:induction false} RoundForEver(area: Area, limit: nat, i: nat, j: nat, n: nat)
    requires limit <= 40 && i < j && Walk(area, limit, i).At? && Walk(area, limit, i) == Walk(area, limit, j)
    ensures Walk(area, limit, n).At?
    decreases n
  {
    if n <= j {
      if Walk(area, limit, n).Over? {
        OverStays(area, limit, n, j);
      }
    } else {
      RoundForEver(area, limit, i, j, n - (j - i));
      Shift(area, limit, i, j, n - j);
    }
  }

  function Below(n: nat): (s: set<nat>)
    ensures forall x: nat :: x in s <==> x < n
  {
    if n == 0 then {} else Below(n - 1) + {n - 1}
  }

  lemma {:induction false} BelowSize(n: nat)
    ensures |Below(n)| == n
  {
    if n > 0 {
      BelowSize(n - 1);
    }
  }

  predicate Distinct(s: seq<nat>) {
    forall i, j :: 0 <= i < j < |s| ==> s[i] != s[j]
  }

  function Elements(s: seq<nat>): set<nat> {
    if s == [] then {} else Elements(s[..|s| - 1]) + {s[|s| - 1]}
  }

  lemma {:induction false} ElementsOf(s: seq<nat>)
    ensures forall x :: x in Elements(s) <==> x in s
    ensures Distinct(s) ==> |Elements(s)| == |s|
    decreases |s|
  {
    if s != [] {
      var n := |s| - 1;
      ElementsOf(s[..n]);
      assert s == s[..n] + [s[n]];
    }
  }

  lemma {:induction false} SubsetSize(a: set<nat>, b: set<nat>)
    requires a <= b
    ensures |a| <= |b|
    decreases |a|
  {
    if a != {} {
      var x :| x in a;
      SubsetSize(a - {x}, b - {x});
    }
  }

  lemma Pigeonhole(s: seq<nat>, n: nat)
    requires |s| > n && forall i :: 0 <= i < |s| ==> s[i] < n
    ensures exists i, j :: 0 <= i < j < |s| && s[i] == s[j]
  {
    if Distinct(s) {
      ElementsOf(s);
      BelowSize(n);
      SubsetSize(Elements(s), Below(n));
      assert false;
    }
  }

  /** In as many turns as there are bytes the loop is over, or has been to some place twice. */
  lemma OverOrRecurs(area: Area, limit: nat)
    requires limit <= 40
    ensures Walk(area, limit, limit).Over? || Recurs(area, limit)
  {
    if Walk(area, limit, limit).At? {
      forall n | 0 <= n <= limit ensures Walk(area, limit, n).At? {
        if Walk(area, limit, n).Over? {
          OverStays(area, limit, n, limit);
        }
      }
      var s := seq(limit + 1, n requires 0 <= n <= limit => Walk(area, limit, n).c);
      Pigeonhole(s, limit);
      var i, j :| 0 <= i < j < |s| && s[i] == s[j];
      assert Walk(area, limit, i) == Walk(area, limit, j);
    }
  }

  /**
   The loop ends if and only if it does not come twice to one place, and then within as many turns as
   there are bytes of options.
   */
  lemma LoopEndsIff(area: Area, limit: nat)
    requires limit <= 40
    ensures (exists n :: Walk(area, limit, n).Over?) <==> !Recurs(area, limit)
    ensures !Recurs(area, limit) <==> Walk(area, limit, limit).Over?
  {
    if Recurs(area, limit) {
      var i, j :| 0 <= i < j <= limit && Walk(area, limit, i).At? && Walk(area, limit, i) == Walk(area, limit, j);
      forall n ensures Walk(area, limit, n).At? {
        RoundForEver(area, limit, i, j, n);
      }
    }
    OverOrRecurs(area, limit);
  }

  /** The length field of an option at place c. */
  function Length(area: Area, c: nat): U8
    requires c < 40
  {
    area[c + 1]
  }

  /** No option claims a length with which the counter would wrap around. */
  predicate NoWrap(area: Area, limit: nat)
    requires limit <= 40
  {
    forall c :: 0 <= c < limit ==> c + Length(area, c) < 0x100
  }

  lemma TurnForward(area: Area, limit: nat, c: nat)
    requires c < limit <= 40 && c + Length(area, c) < 0x100
    ensures Turn(area, limit, c).At? ==> Turn(area, limit, c).c > c
  {}

  lemma {:induction false} GoesForward(area: Area, limit: nat, i: nat, j: nat)
    requires limit <= 40 && NoWrap(area, limit) && i < j && Walk(area, limit, j).At?
    ensures Walk(area, limit, i).At? && Walk(area, limit, i).c < Walk(area, limit, j).c
    decreases j
  {
    var p := Walk(area, limit, j - 1);
    TurnForward(area, limit, p.c);
    if i < j - 1 {
      GoesForward(area, limit, i, j - 1);
    }
  }

  /** It ends on all options whose lengths stay within the counter, as those of RFC 793 do. */
  lemma EndsWithoutWrap(area: Area, limit: nat)
    requires limit <= 40 && NoWrap(area, limit)
    ensures !Recurs(area, limit)
  {
    forall i, j | 0 <= i < j <= limit && Walk(area, limit, j).At?
      ensures Walk(area, limit, i) != Walk(area, limit, j)
    {
      GoesForward(area, limit, i, j);
    }
  }

  /** An option that is skipped. */
  lemma TurnSkips(area: Area, limit: nat, c: nat)
    requires c < limit <= 40 && area[c] > OPT_MSS && Length(area, c) > 0
    ensures Turn(area, limit, c) == Enter((c + Length(area, c)) % 0x100, limit)
  {}

  /** It does fail to end where the lengths of two options add up to 256. */
  lemma LengthsAddUp(area: Area, limit: nat, k: nat, c: nat, d: nat)
    requires limit <= 40 && Walk(area, limit, k) == At(c) && c < d < limit
    requires area[c] > OPT_MSS && d == c + Length(area, c) && area[d] > OPT_MSS && d + Length(area, d) == c + 0x100
    ensures forall n :: Walk(area, limit, n).At?
  {
    TurnSkips(area, limit, c);
    assert Walk(area, limit, k + 1) == At(d);
    TurnSkips(area, limit, d);
    assert Walk(area, limit, k + 2) == At(c);
    forall n ensures Walk(area, limit, n).At? {
      RoundForEver(area, limit, k, k + 2, n);
    }
  }

  // ----- The loop in place -----

  /** What the loop finds, if it ends. */
  function Parsed(area: Area, limit: nat): Option<U16>
    requires limit <= 40
  {
    var p := Walk(area, limit, limit);
    if p.Over? then p.mss else None
  }

  method ParseOptions(area: Area, offset: U8) returns (mss: Option<U16>)
    requires 5 <= offset < 16 && !Recurs(area, Limit(offset))
    ensures mss == Parsed(area, Limit(offset))
  {
    var limit := Limit(offset);
    var c: U8 := 0;
    ghost var n := 0;
    OverOrRecurs(area, limit);
    while c < limit
      invariant 0 <= n <= limit && Walk(area, limit, n) == Enter(c, limit)
      decreases limit - n
    {
      var over, found, next := LookAt(area, limit, c);
      assert Walk(area, limit, n + 1) == Turn(area, limit, c);
      if over {
        OverStays(area, limit, n + 1, limit);
        return found;
      }
      c, n := next, n + 1;
    }
    OverStays(area, limit, n, limit);
    return None;
  }

  /** The body of the loop: whether it is left, with what, and where to go on. */
  method LookAt(area: Area, limit: nat, c: U8) returns (over: bool, found: Option<U16>, next: U8)
    requires c < limit <= 40
    ensures Turn(area, limit, c) == if over then Over(found) else Enter(next, limit)
  {
    over, found, next := false, None, c;
    var opt := area[c];
    if opt == OPT_END {
      over := true;
    } else if opt == OPT_NOOP {
      next := (c as int + 1) % 0x100;
    } else if opt == OPT_MSS && area[c + 1] == MSS_LEN {
      over, found := true, Some(Word(area[c + 2], area[c + 3]));
    } else if area[c + 1] == 0 {
      over := true;
    } else {
      next := (c as int + area[c + 1]) % 0x100;
    }
  }

  /** The option that the stack itself sends is read as its mss, and no option as none. */
  lemma OwnOptionIsRead(f: Frame, area: Area)
    requires area[..|Options(f)|] == Options(f)
    ensures !Recurs(area, |Options(f)|)
    ensures Parsed(area, |Options(f)|) == if f.mssOption then Some(TCP_MSS) else None
  {
    var n := |Options(f)|;
    if f.mssOption {
      assert area[..4] == MSS_OPTION;
      assert area[0] == area[..4][0] && area[1] == area[..4][1] && area[2] == area[..4][2] && area[3] == area[..4][3];
      assert Walk(area, 4, 1) == Over(Some(TCP_MSS));
      OverStays(area, 4, 1, 4);
    }
    LoopEndsIff(area, n);
  }

  /** From frame to segment: a SYN of one stack tells the other its mss. */
  lemma SynCarriesMss(p: Bytes, host: IpAddr, f: Frame, area: Area)
    requires IsFrame(p, host, f) && area[..|Options(f)|] == Options(f)
    ensures Readable(p, LenOf(f))
    ensures var g := Decode(p, LenOf(f), f.dest, Parsed(area, |Options(f)|));
            g.Some? && g.value.Mss() == if f.mssOption then Some(TCP_MSS) else None
  {
    SentIsReceived(p, host, f, LenOf(f), Parsed(area, |Options(f)|));
    OwnOptionIsRead(f, area);
  }
}
