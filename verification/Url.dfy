/**
 Credentials on their way into a URL and out of it again: http_req_escape and
 do_line_substitution of ddns_updater.c, parse_url and http_unescape of libewget.c, all on top
 of dynamic_replace.
 */
module Url {
  import opened Words

  // ----- dynamic_replace -----

  /** Every occurrence of `pat`, from left to right, replaced. */
  function Replace(s: string, pat: string, text: string): string
    requires pat != ""
  {
    if s == "" then ""
    else if pat <= s then text + Replace(s[|pat|..], pat, text)
    else [s[0]] + Replace(s[1..], pat, text)
  }

  /** How many occurrences there are. */
  function Count(s: string, pat: string): nat
    requires pat != ""
  {
    if s == "" then 0
    else if pat <= s then 1 + Count(s[|pat|..], pat)
    else Count(s[1..], pat)
  }

  lemma {:induction false} ReplaceLength(s: string, pat: string, text: string)
    requires pat != ""
    ensures |Replace(s, pat, text)| == |s| + Count(s, pat) * (|text| - |pat|)
  {
    if s != "" {
      if pat <= s {
        ReplaceLength(s[|pat|..], pat, text);
        Distribute(Count(s[|pat|..], pat), |text| - |pat|);
      } else {
        ReplaceLength(s[1..], pat, text);
      }
    }
  }

  lemma Distribute(c: int, d: int)
    ensures (1 + c) * d == d + c * d
  {}

  /** The first loop of dynamic_replace sizes the buffer, the second fills it exactly. */
  method DynamicReplace(s: string, pat: string, text: string) returns (r: string, size: nat)
    requires pat != ""
    ensures r == Replace(s, pat, text) && size == |r| + 1
  {
    var i, count := 0, 0;
    assert s[0..] == s;
    while i < |s|
      invariant 0 <= i <= |s| && count + Count(s[i..], pat) == Count(s, pat)
    {
      if pat <= s[i..] {
        assert s[i..][|pat|..] == s[i + |pat|..];
        count := count + 1;
        i := i + |pat|;
      } else {
        assert s[i..][1..] == s[i + 1..];
        i := i + 1;
      }
    }
    assert s[i..] == "";
    ReplaceLength(s, pat, text);
    size := |s| + 1 + count * (|text| - |pat|);
    r := "";
    i := 0;
    while i < |s|
      invariant 0 <= i <= |s| && r + Replace(s[i..], pat, text) == Replace(s, pat, text)
    {
      if pat <= s[i..] {
        assert s[i..][|pat|..] == s[i + |pat|..];
        Assoc(r, text, Replace(s[i + |pat|..], pat, text));
        r := r + text;
        i := i + |pat|;
      } else {
        assert s[i..][1..] == s[i + 1..];
        Assoc(r, [s[i]], Replace(s[i + 1..], pat, text));
        r := r + [s[i]];
        i := i + 1;
      }
    }
    assert s[i..] == "";
  }

  // ----- Texts made of tokens -----

  function Flat(ts: seq<string>): string {
    if ts == [] then "" else ts[0] + Flat(ts[1..])
  }

  lemma {:induction false} FlatConcat(ts: seq<string>, us: seq<string>)
    ensures Flat(ts + us) == Flat(ts) + Flat(us)
  {
    if ts == [] {
      assert ts + us == us;
    } else {
      assert (ts + us)[1..] == ts[1..] + us;
      FlatConcat(ts[1..], us);
      Assoc(ts[0], Flat(ts[1..]), Flat(us));
    }
  }

  /** No match of `pat` can start anywhere in t, whatever follows it. */
  ghost predicate Clear(pat: string, t: string) {
    forall j :: 0 <= j < |t| ==> Differs(pat, t, j)
  }

  ghost predicate Differs(pat: string, t: string, j: nat) {
    exists k :: 0 <= k < |pat| && j + k < |t| && pat[k] != t[j + k]
  }

  function Swap(ts: seq<string>, pat: string, text: string): seq<string> {
    seq(|ts|, i requires 0 <= i < |ts| => if ts[i] == pat then text else ts[i])
  }

  lemma {:induction false} SkipClear(pat: string, text: string, t: string, rest: string, j: nat)
    requires pat != "" && j <= |t| && Clear(pat, t)
    ensures Replace(t[j..] + rest, pat, text) == t[j..] + Replace(rest, pat, text)
    decreases |t| - j
  {
    if j == |t| {
      assert t[j..] + rest == rest;
    } else {
      var s := t[j..] + rest;
      assert Differs(pat, t, j);
      var k :| 0 <= k < |pat| && j + k < |t| && pat[k] != t[j + k];
      assert s[k] == t[j + k];
      assert !(pat <= s);
      assert s[1..] == t[j + 1..] + rest;
      SkipClear(pat, text, t, rest, j + 1);
      assert t[j..] == [t[j]] + t[j + 1..];
    }
  }

  /** On a text of tokens that are the pattern or clear of it, dynamic_replace works token by token. */
  lemma {:induction false} ReplaceTokens(ts: seq<string>, pat: string, text: string)
    requires pat != "" && forall i :: 0 <= i < |ts| ==> ts[i] == pat || Clear(pat, ts[i])
    ensures Replace(Flat(ts), pat, text) == Flat(Swap(ts, pat, text))
  {
    if ts != [] {
      ReplaceTokens(ts[1..], pat, text);
      assert Swap(ts, pat, text)[1..] == Swap(ts[1..], pat, text);
      var rest := Flat(ts[1..]);
      if ts[0] == pat {
        assert pat <= Flat(ts);
        assert Flat(ts)[|pat|..] == rest;
      } else {
        SkipClear(pat, text, ts[0], rest, 0);
        assert ts[0][0..] == ts[0];
      }
    }
  }

  // ----- http_req_escape -----

  const ESCAPES: string := "%#\t <>{}|\\^~[]`;/?:@=&$"

  function HexDigit(n: nat): char
    requires n < 16
  {
    if n < 10 then '0' + n as char else 'a' + (n - 10) as char
  }

  function HexValue(c: char): nat {
    if '0' <= c <= '9' then c as int - '0' as int
    else if 'a' <= c <= 'f' then c as int - 'a' as int + 10
    else if 'A' <= c <= 'F' then c as int - 'A' as int + 10
    else 0
  }

  lemma HexRound(n: nat)
    requires n < 16
    ensures HexValue(HexDigit(n)) == n && HexDigit(n) != '%'
    ensures '0' <= HexDigit(n) <= '9' || 'a' <= HexDigit(n) <= 'f'
  {}

  /** A percent sign and the code of c in two lower-case digits. */
  function Percent(c: char): (p: string)
    requires c < 128 as char
    ensures |p| == 3 && p[0] == '%'
  {
    ['%', HexDigit(c as int / 16), HexDigit(c as int % 16)]
  }

  predicate IsHex(c: char) {
    '0' <= c <= '9' || 'a' <= c <= 'f' || 'A' <= c <= 'F'
  }

  /** What makes a list of characters to escape work: each once, no hexadecimal digit, the percent sign first. */
  ghost predicate Escapable(es: string) {
    && (es != "" ==> es[0] == '%')
    && (forall i :: 0 <= i < |es| ==> 0 as char < es[i] < 128 as char && !IsHex(es[i]))
    && (forall i, j :: 0 <= i < j < |es| ==> es[i] != es[j])
  }

  lemma EscapesEscapable()
    ensures Escapable(ESCAPES)
  {
    EscapesDistinct();
  }

  lemma EscapesDistinct()
    ensures forall i, j :: 0 <= i < j < |ESCAPES| ==> ESCAPES[i] != ESCAPES[j]
  {}

  /** One character, escaped if it is to be. */
  function Token(es: string, c: char): (t: string)
    ensures t != ""
  {
    if c in es && c < 128 as char then Percent(c) else [c]
  }

  function Tokens(es: string, s: string): seq<string> {
    seq(|s|, i requires 0 <= i < |s| => Token(es, s[i]))
  }

  /** http_req_escape as it goes: one character of the list after the other. */
  function EscapeInTurn(es: string, s: string): string
    requires Escapable(es)
  {
    if es == "" then s
    else
      var n := |es| - 1;
      Replace(EscapeInTurn(es[..n], s), [es[n]], Percent(es[n]))
  }

  /** What it comes to: every character by itself. */
  function Escape(es: string, s: string): string {
    Flat(Tokens(es, s))
  }

  /** http_req_escape */
  method ReqEscape(es: string, s: string) returns (escaped: string)
    requires Escapable(es)
    ensures escaped == EscapeInTurn(es, s)
  {
    escaped := s;
    var i := 0;
    while i < |es|
      invariant 0 <= i <= |es| && escaped == EscapeInTurn(es[..i], s)
    {
      assert es[..i + 1][..i] == es[..i];
      var size;
      escaped, size := DynamicReplace(escaped, [es[i]], Percent(es[i]));
      i := i + 1;
    }
    assert es[..i] == es;
  }

  lemma {:induction false} EscapeNothing(s: string)
    ensures Escape("", s) == s
  {
    if s != "" {
      EscapeNothing(s[1..]);
      assert Tokens("", s)[1..] == Tokens("", s[1..]);
      assert s == [s[0]] + s[1..];
    }
  }

  lemma {:induction false} EscapeAtOnce(es: string, s: string)
    requires Escapable(es)
    ensures EscapeInTurn(es, s) == Escape(es, s)
    decreases |es|
  {
    if es == "" {
      EscapeNothing(s);
    } else {
      var n := |es| - 1;
      var some, c := es[..n], es[n];
      EscapeAtOnce(some, s);
      OneMoreSwap(es, s);
      ReplaceTokens(Tokens(some, s), [c], Percent(c));
    }
  }

  /** Escaping one more character is to swap its tokens. */
  lemma OneMoreSwap(es: string, s: string)
    requires Escapable(es) && es != ""
    ensures var n := |es| - 1; var t, c := Tokens(es[..n], s), es[n];
            && (forall i :: 0 <= i < |t| ==> t[i] == [c] || Clear([c], t[i]))
            && Swap(t, [c], Percent(c)) == Tokens(es, s)
  {
    var n := |es| - 1;
    var t, c := Tokens(es[..n], s), es[n];
    forall i | 0 <= i < |s|
      ensures t[i] == [c] || Clear([c], t[i])
      ensures Token(es, s[i]) == if t[i] == [c] then Percent(c) else t[i]
    {
      OneMoreEscape(es, s[i]);
    }
  }

  lemma OneMoreEscape(es: string, d: char)
    requires Escapable(es) && es != ""
    ensures var n := |es| - 1; var t := Token(es[..n], d);
            && (t == [es[n]] || Clear([es[n]], t))
            && Token(es, d) == if t == [es[n]] then Percent(es[n]) else t
  {
    var n := |es| - 1;
    var c, t := es[n], Token(es[..n], d);
    assert d in es <==> d in es[..n] || d == c;
    if d in es[..n] {
      var i :| 0 <= i < n && es[i] == d;
      HexRound(d as int / 16);
      HexRound(d as int % 16);
      forall j | 0 <= j < |t| ensures Differs([c], t, j) {
        assert [c][0] != t[j + 0];
      }
    } else if d != c {
      assert [c][0] != t[0 + 0];
      assert Differs([c], t, 0);
    }
  }

  /** No character of the list but the percent sign is left. */
  lemma {:induction false} EscapedIsClean(es: string, s: string, c: char)
    requires Escapable(es) && c in es && c != '%'
    ensures c !in Escape(es, s)
  {
    if s != "" {
      EscapedIsClean(es, s[1..], c);
      assert Tokens(es, s)[1..] == Tokens(es, s[1..]);
      var i :| 0 <= i < |es| && es[i] == c;
      if s[0] in es {
        HexRound(s[0] as int / 16);
        HexRound(s[0] as int % 16);
      }
    }
  }

  // ----- http_unescape -----

  /**
   At pos there is a percent sign with two characters after it, the first of them a hexadecimal digit;
   0x, of which sscanf may make anything, is none.
   */
  predicate IsCode(e: string, pos: nat) {
    && pos + 3 <= |e| && e[pos] == '%' && IsHex(e[pos + 1])
    && !(e[pos + 1] == '0' && (e[pos + 2] == 'x' || e[pos + 2] == 'X'))
  }

  /** From pos on, every percent sign that the scan meets starts such a code. */
  predicate WellFormed(e: string, pos: nat)
    requires pos <= |e|
    decreases |e| - pos
  {
    if pos == |e| then true
    else if e[pos] == '%' then IsCode(e, pos) && WellFormed(e, pos + 3)
    else WellFormed(e, pos + 1)
  }

  /** The character whose code stands behind the percent sign, in two digits or in one. */
  function Scanned(e: string, pos: nat): char
    requires pos + 3 <= |e| && IsHex(e[pos + 1])
  {
    if IsHex(e[pos + 2]) then (HexValue(e[pos + 1]) * 16 + HexValue(e[pos + 2])) as char
    else HexValue(e[pos + 1]) as char
  }

  /** A character as a string of its own, the NUL character being the end of one. */
  function Glyph(c: char): string {
    if c == 0 as char then "" else [c]
  }

  /** The scan of the escaped text from pos on, each code it meets replaced throughout cur; the percent sign last. */
  function UnescapeFrom(e: string, pos: nat, cur: string): string
    requires pos <= |e| && WellFormed(e, pos)
    decreases |e| - pos
  {
    if pos == |e| then Replace(cur, "%25", "%")
    else if e[pos] == '%' then
      UnescapeFrom(e, pos + 3, if Scanned(e, pos) != '%' then Replace(cur, e[pos..pos + 3], Glyph(Scanned(e, pos))) else cur)
    else UnescapeFrom(e, pos + 1, cur)
  }

  method HttpUnescape(escaped: string) returns (unescaped: string)
    requires WellFormed(escaped, 0)
    ensures unescaped == UnescapeFrom(escaped, 0, escaped)
  {
    unescaped := escaped;
    var i := 0;
    while i < |escaped|
      invariant 0 <= i <= |escaped| && WellFormed(escaped, i)
      invariant UnescapeFrom(escaped, i, unescaped) == UnescapeFrom(escaped, 0, escaped)
    {
      if escaped[i] == '%' {
        var code, c := escaped[i..i + 3], Scanned(escaped, i);
        if '%' != c {
          var size;
          unescaped, size := DynamicReplace(unescaped, code, Glyph(c));
        }
        i := i + 3;
      } else {
        i := i + 1;
      }
    }
    var size;
    unescaped, size := DynamicReplace(unescaped, "%25", "%");
  }

  lemma EscapeSplit(es: string, s: string, i: nat)
    requires i < |s|
    ensures Escape(es, s) == Escape(es, s[..i]) + Token(es, s[i]) + Escape(es, s[i + 1..])
    ensures Escape(es, s[..i + 1]) == Escape(es, s[..i]) + Token(es, s[i])
  {
    var a, b, c := Tokens(es, s[..i]), [Token(es, s[i])], Tokens(es, s[i + 1..]);
    assert Tokens(es, s) == a + b + c;
    assert Tokens(es, s[..i + 1]) == a + b;
    FlatConcat(a + b, c);
    FlatConcat(a, b);
    assert Flat(b) == b[0] + Flat([]);
    assert b[0] + "" == b[0];
  }

  lemma PercentScans(c: char)
    requires c < 128 as char
    ensures var p := Percent(c); IsHex(p[1]) && IsHex(p[2]) && Scanned(p, 0) == c
  {
    HexRound(c as int / 16);
    HexRound(c as int % 16);
  }

  lemma PercentInjective(c: char, d: char)
    requires c < 128 as char && d < 128 as char && c != d
    ensures Percent(c) != Percent(d)
  {
    PercentScans(c);
    PercentScans(d);
  }

  /** The token of a character when the codes of the characters in `done` have been replaced. */
  function PartToken(es: string, done: set<char>, c: char): string {
    if c in done then [c] else Token(es, c)
  }

  function PartTokens(es: string, done: set<char>, s: string): seq<string> {
    seq(|s|, i requires 0 <= i < |s| => PartToken(es, done, s[i]))
  }

  /** Replacing the code of c, once c is known not to be the percent sign. */
  lemma CodeReplaced(es: string, done: set<char>, c: char, d: char)
    requires Escapable(es) && c in es && '%' in es && '%' !in done
    ensures c < 128 as char
    ensures var t := PartToken(es, done, d);
            && (t == Percent(c) || Clear(Percent(c), t))
            && (t == Percent(c) <==> d == c && c !in done)
  {
    assert c < 128 as char by { var i :| 0 <= i < |es| && es[i] == c; }
    var p, t := Percent(c), PartToken(es, done, d);
    if d in es && d !in done {
      assert d < 128 as char by { var i :| 0 <= i < |es| && es[i] == d; }
      HexRound(d as int / 16);
      HexRound(d as int % 16);
      if d != c {
        PercentInjective(c, d);
        ClearOfCode(p, t);
      }
    } else {
      assert t == [d] && d != '%';
      assert p[0] != t[0 + 0];
      assert Differs(p, t, 0);
    }
  }

  lemma ClearOfCode(p: string, t: string)
    requires |p| == 3 && |t| == 3 && p != t && p[0] == '%' && t[1] != '%' && t[2] != '%'
    ensures Clear(p, t)
  {
    assert p[0] != t[1 + 0] && p[0] != t[2 + 0];
    assert Differs(p, t, 1) && Differs(p, t, 2);
    if p[0] != t[0] {
      assert p[0] != t[0 + 0];
    } else if p[1] != t[1] {
      assert p[1] != t[0 + 1];
    } else {
      assert p[2] != t[0 + 2];
    }
    assert Differs(p, t, 0);
  }

  lemma DecodeAll(es: string, done: set<char>, s: string, c: char)
    requires Escapable(es) && c in es && '%' in es && '%' !in done && c < 128 as char
    ensures Replace(Flat(PartTokens(es, done, s)), Percent(c), [c]) == Flat(PartTokens(es, done + {c}, s))
  {
    var ts := PartTokens(es, done, s);
    forall i | 0 <= i < |s|
      ensures ts[i] == Percent(c) || Clear(Percent(c), ts[i])
      ensures PartToken(es, done + {c}, s[i]) == if ts[i] == Percent(c) then [c] else ts[i]
    {
      CodeReplaced(es, done, c, s[i]);
    }
    ReplaceTokens(ts, Percent(c), [c]);
    assert Swap(ts, Percent(c), [c]) == PartTokens(es, done + {c}, s);
  }

  /** The text around a token of an escaped string. */
  lemma AtToken(es: string, s: string, i: nat)
    requires i < |s|
    ensures var e, pos, t := Escape(es, s), |Escape(es, s[..i])|, Token(es, s[i]);
            && pos + |t| <= |e| && e[pos..pos + |t|] == t && |Escape(es, s[..i + 1])| == pos + |t|
  {
    EscapeSplit(es, s, i);
  }

  lemma EscapeStart(es: string, s: string, i: nat)
    requires i <= |s|
    ensures |Escape(es, s[..i])| <= |Escape(es, s)|
    ensures |Escape(es, s[..i])| == |Escape(es, s)| <==> i == |s|
  {
    if i < |s| {
      EscapeSplit(es, s, i);
    } else {
      assert s[..i] == s;
    }
  }

  /** What an escaped text is made of can be scanned. */
  lemma {:induction false} EscapedWellFormed(es: string, s: string, i: nat)
    requires Escapable(es) && '%' in es && i <= |s|
    ensures |Escape(es, s[..i])| <= |Escape(es, s)| && WellFormed(Escape(es, s), |Escape(es, s[..i])|)
    decreases |s| - i
  {
    EscapeStart(es, s, i);
    if i < |s| {
      EscapedWellFormed(es, s, i + 1);
      AtToken(es, s, i);
      TokenScans(es, s, i);
    }
  }

  /** A token at the scan's position is a code with its digits, or one plain character. */
  lemma TokenScans(es: string, s: string, i: nat)
    requires Escapable(es) && '%' in es && i < |s|
    ensures var e, pos, c := Escape(es, s), |Escape(es, s[..i])|, s[i];
            if c in es then c < 128 as char && pos + 3 <= |e| && e[pos..pos + 3] == Percent(c)
                            && IsCode(e, pos) && Scanned(e, pos) == c
            else pos < |e| && e[pos] == c && c != '%'
  {
    AtToken(es, s, i);
    var e, pos, c := Escape(es, s), |Escape(es, s[..i])|, s[i];
    if c in es {
      var j :| 0 <= j < |es| && es[j] == c;
      PercentScans(c);
      var t := e[pos..pos + 3];
      assert e[pos] == t[0] && e[pos + 1] == t[1] && e[pos + 2] == t[2];
    } else {
      assert e[pos..pos + 1][0] == e[pos];
    }
  }

  /** The characters of s whose codes the scan has replaced. */
  ghost predicate Done(es: string, s: string, done: set<char>) {
    && '%' !in done
    && (forall c :: c in done ==> c in es)
    && (forall c :: c in s && c in es && c != '%' ==> c in done)
  }

  lemma {:induction false} ScanUndoes(es: string, s: string, i: nat, done: set<char>)
    requires Escapable(es) && '%' in es && i <= |s| && Done(es, s[..i], done)
    ensures |Escape(es, s[..i])| <= |Escape(es, s)| && WellFormed(Escape(es, s), |Escape(es, s[..i])|)
    ensures UnescapeFrom(Escape(es, s), |Escape(es, s[..i])|, Flat(PartTokens(es, done, s))) == s
    decreases |s| - i
  {
    EscapedWellFormed(es, s, i);
    if i == |s| {
      assert s[..i] == s;
      PercentLast(es, s, done);
    } else {
      var c := s[i];
      ScanStep(es, s, i, Flat(PartTokens(es, done, s)));
      assert s[..i + 1] == s[..i] + [c];
      if c in es && c != '%' {
        EscapableIsPlain(es, c);
        DecodeAll(es, done, s, c);
        ScanUndoes(es, s, i + 1, done + {c});
      } else {
        ScanUndoes(es, s, i + 1, done);
      }
    }
  }

  lemma EscapableIsPlain(es: string, c: char)
    requires Escapable(es) && c in es
    ensures c < 128 as char
  {}

  /** The scan moves on by one token. */
  lemma ScanStep(es: string, s: string, i: nat, cur: string)
    requires Escapable(es) && '%' in es && i < |s|
    ensures var e, pos, next, c := Escape(es, s), |Escape(es, s[..i])|, |Escape(es, s[..i + 1])|, s[i];
            && pos <= next <= |e| && WellFormed(e, pos) && WellFormed(e, next)
            && UnescapeFrom(e, pos, cur)
            == UnescapeFrom(e, next, if c in es && c != '%' then Replace(cur, Percent(c), [c]) else cur)
  {
    EscapedWellFormed(es, s, i);
    EscapedWellFormed(es, s, i + 1);
    AtToken(es, s, i);
    TokenScans(es, s, i);
  }

  /** When only the percent sign is still coded. */
  lemma PercentLast(es: string, s: string, done: set<char>)
    requires Escapable(es) && '%' in es && Done(es, s, done)
    ensures Replace(Flat(PartTokens(es, done, s)), "%25", "%") == s
  {
    assert Percent('%') == "%25";
    DecodeAll(es, done, s, '%');
    forall i | 0 <= i < |s| ensures PartToken(es, done + {'%'}, s[i]) == [s[i]] {
      assert s[i] in s;
    }
    assert PartTokens(es, done + {'%'}, s) == Tokens("", s);
    EscapeNothing(s);
  }

  /** Unescaping undoes escaping. */
  lemma UnescapeEscape(s: string)
    ensures var e := HttpReqEscape(s); WellFormed(e, 0) && UnescapeFrom(e, 0, e) == s
  {
    EscapesEscapable();
    EscapeAtOnce(ESCAPES, s);
    ScanFromStart(ESCAPES, s);
  }

  function HttpReqEscape(s: string): string {
    EscapesEscapable();
    EscapeInTurn(ESCAPES, s)
  }

  lemma ScanFromStart(es: string, s: string)
    requires Escapable(es) && '%' in es
    ensures WellFormed(Escape(es, s), 0) && UnescapeFrom(Escape(es, s), 0, Escape(es, s)) == s
  {
    assert s[..0] == "";
    assert Tokens(es, "") == [];
    ScanUndoes(es, s, 0, {});
    assert PartTokens(es, {}, s) == Tokens(es, s);
  }

  // ----- What is left of reserved characters -----

  // The reserved characters of section 2.2 of RFC 3986 are :/?#[]@ and !$&'()*+,;=

  lemma DelimitersEscaped(c: char)
    requires c in ":/?#[]@$&;="
    ensures c in ESCAPES && c != '%'
  {
    var i :| 0 <= i < |":/?#[]@$&;="| && c == ":/?#[]@$&;="[i];
    assert ESCAPES[18] == ':' && ESCAPES[16] == '/' && ESCAPES[17] == '?' && ESCAPES[1] == '#';
    assert ESCAPES[12] == '[' && ESCAPES[13] == ']' && ESCAPES[19] == '@' && ESCAPES[22] == '$';
    assert ESCAPES[21] == '&' && ESCAPES[15] == ';' && ESCAPES[20] == '=';
  }

  lemma OthersNotEscaped(c: char)
    requires c in "!'()*+,"
    ensures c !in ESCAPES
  {}

  /** Nothing that structures a URL or a query is left in an escaped text. */
  lemma NoDelimiterLeft(s: string, c: char)
    requires c in ":/?#[]@$&;="
    ensures c !in HttpReqEscape(s)
  {
    EscapesEscapable();
    EscapeAtOnce(ESCAPES, s);
    DelimitersEscaped(c);
    EscapedIsClean(ESCAPES, s, c);
  }

  /** The other reserved characters are left as they are, the plus sign among them. */
  lemma SomeReservedLeft(c: char)
    requires c in "!'()*+,"
    ensures HttpReqEscape([c]) == [c]
  {
    EscapesEscapable();
    EscapeAtOnce(ESCAPES, [c]);
    OthersNotEscaped(c);
    assert Tokens(ESCAPES, [c]) == [[c]];
    assert Flat([[c]]) == [c] + Flat([]);
  }

  /** A code is a percent sign and the two digits of the character's number, the higher one first (section 2.1 of RFC 3986). */
  lemma PercentIsHex(c: char)
    requires c < 128 as char
    ensures var digits := "0123456789abcdef";
            Percent(c) == ['%', digits[c as int / 16], digits[c as int % 16]]
  {
    HexDigitIs(c as int / 16);
    HexDigitIs(c as int % 16);
  }

  lemma HexDigitIs(n: nat)
    requires n < 16
    ensures HexDigit(n) == "0123456789abcdef"[n]
  {
    assert n == 0 || n == 1 || n == 2 || n == 3 || n == 4 || n == 5 || n == 6 || n == 7 || n == 8 || n == 9
        || n == 10 || n == 11 || n == 12 || n == 13 || n == 14 || n == 15;
  }
}
