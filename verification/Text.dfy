/** The whitespace and line conventions of Rust's string type. */
module Text {
  /** Unicode White_Space. */
  predicate IsWs(c: char) {
    var n := c as int;
    || 0x09 <= n <= 0x0D || n == 0x20 || n == 0x85 || n == 0xA0 || n == 0x1680 || 0x2000 <= n <= 0x200A
    || n == 0x2028 || n == 0x2029 || n == 0x202F || n == 0x205F || n == 0x3000
  }

  predicate AllWs(s: string) { forall c <- s :: IsWs(c) }
  predicate NoWs(s: string) { forall c <- s :: !IsWs(c) }

  function TrimStart(s: string): (r: string)
    ensures |r| <= |s| && r == s[|s| - |r|..] && AllWs(s[..|s| - |r|])
    ensures r != "" ==> !IsWs(r[0])
  {
    if s != "" && IsWs(s[0]) then
      var r := TrimStart(s[1..]);
      assert s[..|s| - |r|] == [s[0]] + s[1..][..|s[1..]| - |r|];
      r
    else s
  }

  function TrimEnd(s: string): (r: string)
    ensures r <= s && AllWs(s[|r|..])
    ensures r != "" ==> !IsWs(r[|r| - 1])
  {
    if s != "" && IsWs(s[|s| - 1]) then
      var r := TrimEnd(s[..|s| - 1]);
      assert s[|r|..] == s[..|s| - 1][|r|..] + [s[|s| - 1]];
      r
    else s
  }

  function Trim(s: string): string { TrimEnd(TrimStart(s)) }

  /** The longest prefix without whitespace. */
  function Word(s: string): (w: string)
    ensures w <= s && NoWs(w) && (|w| < |s| ==> IsWs(s[|w|]))
  {
    if s == "" || IsWs(s[0]) then "" else
    var w := Word(s[1..]);
    assert s == [s[0]] + s[1..];
    [s[0]] + w
  }

  /** The first whitespace-separated token, empty if there is none. */
  function FirstToken(s: string): string { Word(TrimStart(s)) }

  // ---- lines ----

  function Break(s: string): (n: nat)
    ensures n <= |s| && '\n' !in s[..n] && (n < |s| ==> s[n] == '\n')
  {
    if s == "" || s[0] == '\n' then 0 else
    var n := Break(s[1..]);
    assert s[..n + 1] == [s[0]] + s[1..][..n];
    1 + n
  }

  function StripCr(s: string): string { if s != "" && s[|s| - 1] == '\r' then s[..|s| - 1] else s }

  /** Lines end at `\n` or `\r\n`; an empty last line is not a line. */
  function Lines(s: string): seq<string> {
    if s == "" then [] else
    var n := Break(s);
    if n == |s| then [s] else [StripCr(s[..n])] + Lines(s[n + 1..])
  }

  // ---- how tokens sit in text ----

  lemma {:induction false} TokenAfterWs(a: string, b: string)
    requires AllWs(a)
    ensures TrimStart(a + b) == TrimStart(b)
  {
    if a == "" {
      assert a + b == b;
    } else {
      assert (a + b)[1..] == a[1..] + b;
      TokenAfterWs(a[1..], b);
    }
  }

  lemma {:induction false} WordUnique(s: string, w: string)
    requires w <= s && NoWs(w) && (|w| < |s| ==> IsWs(s[|w|]))
    ensures Word(s) == w
  {
    if w != "" {
      assert w[0] in w && w[0] == s[0];
      assert w[1..] <= s[1..] && forall c <- w[1..] :: c in w;
      WordUnique(s[1..], w[1..]);
      assert w == [w[0]] + w[1..];
    }
  }

  /** A non-empty token ends at the end of the text or at whitespace, so what comes after whitespace does not matter. */
  lemma TokenBeforeWs(a: string, b: string)
    requires FirstToken(a) != "" && (b == "" || IsWs(b[0]))
    ensures FirstToken(a + b) == FirstToken(a)
  {
    hide IsWs;
    hide TrimStart;
    hide Word;
    var t := TrimStart(a);
    var lead := a[..|a| - |t|];
    assert a + b == lead + (t + b);
    TokenAfterWs(lead, t + b);
    NothingToTrim(t + b);
    WordBeforeWs(t, b);
  }

  lemma WordBeforeWs(t: string, b: string)
    requires b == "" || IsWs(b[0])
    ensures Word(t + b) == Word(t)
  {
    hide IsWs;
    hide Word;
    var w := Word(t);
    assert w <= t + b;
    assert |w| < |t + b| ==> IsWs((t + b)[|w|]);
    WordUnique(t + b, w);
  }

  lemma NothingToTrim(s: string)
    requires s == "" || !IsWs(s[0])
    ensures TrimStart(s) == s
  {
  }

  lemma {:induction false} TrimStartAllWs(s: string)
    requires AllWs(s)
    ensures TrimStart(s) == ""
  {
    if s != "" {
      TrimStartAllWs(s[1..]);
    }
  }

  lemma {:induction false} TrimEndAfterWs(a: string, b: string)
    requires AllWs(b)
    ensures TrimEnd(a + b) == TrimEnd(a)
  {
    if b == "" {
      assert a + b == a;
    } else {
      var n := |b| - 1;
      assert (a + b)[..|a| + n] == a + b[..n];
      TrimEndAfterWs(a, b[..n]);
    }
  }

  /** Trimming takes away the whitespace around a text that neither starts nor ends with any. */
  lemma TrimAround(before: string, s: string, after: string)
    requires AllWs(before) && AllWs(after) && s != "" && !IsWs(s[0]) && !IsWs(s[|s| - 1])
    ensures Trim(before + s + after) == s
  {
    hide IsWs;
    hide TrimStart;
    hide TrimEnd;
    assert before + s + after == before + (s + after);
    TokenAfterWs(before, s + after);
    assert (s + after)[0] == s[0];
    NothingToTrim(s + after);
    TrimEndAfterWs(s, after);
    CleanEnd(s);
  }

  lemma CleanEnd(s: string)
    requires s == "" || !IsWs(s[|s| - 1])
    ensures TrimEnd(s) == s
  {
  }

  /** Trimming takes away nothing else. */
  lemma TrimParts(s: string) returns (before: string, after: string)
    ensures AllWs(before) && AllWs(after) && s == before + Trim(s) + after
  {
    hide IsWs;
    hide TrimStart;
    hide TrimEnd;
    var t := TrimStart(s);
    var u := TrimEnd(t);
    before, after := s[..|s| - |t|], t[|u|..];
    assert s == before + t && t == u + after;
    assert before + (u + after) == before + u + after;
  }

  /** Trimming a line keeps its first token; the trimmed line is empty exactly when there is none. */
  lemma TrimKeepsToken(s: string)
    ensures FirstToken(Trim(s)) == FirstToken(s)
    ensures Trim(s) == "" <==> FirstToken(s) == ""
    ensures FirstToken(s) != "" ==> Trim(s)[0] == FirstToken(s)[0]
  {
    hide IsWs;
    hide TrimStart;
    hide TrimEnd;
    hide Word;
    var t := TrimStart(s);
    var u := TrimEnd(t);
    var tail := t[|u|..];
    assert t == u + tail;
    if u == "" {
      assert tail == t && AllWs(t);
    } else {
      assert u[0] == t[0];
      NothingToTrim(u);
      NothingToTrim(t);
      WordStarts(u);
      TokenBeforeWs(u, tail);
      WordStarts(t);
    }
  }

  lemma WordStarts(s: string)
    requires s != "" && !IsWs(s[0])
    ensures Word(s) != "" && Word(s)[0] == s[0]
  {
  }
}
