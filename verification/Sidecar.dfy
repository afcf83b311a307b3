/** Checksum sidecars: reading the expected digest and judging bytes against it. */
module Sidecar {
  import opened Bytes
  import opened Hex
  import opened Text

  type Digest1 = d: Bytes | |d| == 20 witness seq(20, i => 0)
  const Sha1: Bytes -> Digest1

  datatype Algorithm = SHA1 | SHA256
  function HexLength(a: Algorithm): nat { if a.SHA1? then 40 else 64 }

  datatype Expected = Expected(algorithm: Algorithm, hex: string)
  datatype ChecksumError = Format | Mismatch(expected: Expected, computed: string)
  datatype Checked<+T> = Good(value: T) | Bad(error: ChecksumError)
  datatype Verification = Sha256Verified(hex: string) | Sha1Verified(hex: string) | Unverified

  predicate Ignored(line: string) { var t := Trim(line); t == "" || t[0] == '#' }

  /** The token the parser judges: the first one on a line that is neither blank nor a comment. */
  function Candidate(lines: seq<string>): Option<string> {
    if lines == [] then None
    else if Ignored(lines[0]) then Candidate(lines[1..])
    else Some(FirstToken(lines[0]))
  }

  predicate WellFormed(a: Algorithm, token: string) { |token| == HexLength(a) && AllHex(token) }

  method Parse(a: Algorithm, raw: string) returns (r: Checked<Expected>)
    ensures match Candidate(Lines(raw))
            case None => r == Bad(Format)
            case Some(t) => r == if WellFormed(a, t) then Good(Expected(a, LowerAll(t))) else Bad(Format)
  {
    var lines := Lines(raw);
    var i := 0;
    while i < |lines|
      invariant i <= |lines| && Candidate(lines) == Candidate(lines[i..])
    {
      var line := Trim(lines[i]);
      if !(line == "" || line[0] == '#') {
        var hex := FirstToken(line);
        TrimKeepsToken(lines[i]);
        if |hex| != HexLength(a) {
          return Bad(Format);
        }
        if !AllHex(hex) {
          return Bad(Format);
        }
        return Good(Expected(a, LowerAll(hex)));
      }
      assert lines[i..][1..] == lines[i + 1..];
      i := i + 1;
    }
    r := Bad(Format);
  }

  /** A sidecar names the digest it should. */
  predicate Names(a: Algorithm, sidecar: string, hex: string) {
    var t := Candidate(Lines(sidecar)); t.Some? && WellFormed(a, t.value) && LowerAll(t.value) == hex
  }

  /** What one sidecar says: nothing if it is absent, a format error if it names no digest, a mismatch if it names
      another one. */
  function Judged(a: Algorithm, sidecar: Option<string>, computed: string): Checked<bool> {
    if sidecar.None? then Good(false) else
    match Candidate(Lines(sidecar.value))
    case None => Bad(Format)
    case Some(t) =>
      if !WellFormed(a, t) then Bad(Format)
      else if LowerAll(t) != computed then Bad(Mismatch(Expected(a, LowerAll(t)), computed))
      else Good(true)
  }

  /** Whether one sidecar, present or not, lets the bytes pass. */
  method CheckOne(a: Algorithm, sidecar: Option<string>, computed: string) returns (r: Checked<bool>)
    ensures r == Judged(a, sidecar, computed)
  {
    if sidecar.None? {
      return Good(false);
    }
    var expected := Parse(a, sidecar.value);
    if expected.Bad? {
      return Bad(expected.error);
    }
    if expected.value.hex != computed {
      return Bad(Mismatch(expected.value, computed));
    }
    r := Good(true);
  }

  /** Bytes pass if and only if every sidecar that is there names their digest; SHA-256 gives the verdict's name. */
  method Verify(bytes: Bytes, sha256: Option<string>, sha1: Option<string>) returns (r: Checked<Verification>)
    ensures r.Good? <==>
      && (sha256.Some? ==> Names(SHA256, sha256.value, HexOf(Sha256(bytes))))
      && (sha1.Some? ==> Names(SHA1, sha1.value, HexOf(Sha1(bytes))))
    ensures r.Good? && sha256.Some? ==> r.value == Sha256Verified(HexOf(Sha256(bytes)))
    ensures r.Good? && sha256.None? && sha1.Some? ==> r.value == Sha1Verified(HexOf(Sha1(bytes)))
    ensures r.Good? && sha256.None? && sha1.None? ==> r.value == Unverified
    ensures r.Bad? ==>
      var j256, j1 := Judged(SHA256, sha256, HexOf(Sha256(bytes))), Judged(SHA1, sha1, HexOf(Sha1(bytes)));
      (j256.Bad? && r.error == j256.error) || (j256.Good? && j1.Bad? && r.error == j1.error)
  {
    var hex256 := ToHex(Sha256(bytes));
    var hex1 := ToHex(Sha1(bytes));
    var ok256 := CheckOne(SHA256, sha256, hex256);
    if ok256.Bad? {
      return Bad(ok256.error);
    }
    var ok1 := CheckOne(SHA1, sha1, hex1);
    if ok1.Bad? {
      return Bad(ok1.error);
    }
    r := Good(if ok256.value then Sha256Verified(hex256) else if ok1.value then Sha1Verified(hex1) else Unverified);
  }

  // ---- lines that do not count ----

  lemma LinesCons(line: string, rest: string)
    requires '\n' !in line
    ensures Lines(line + "\n" + rest) == [StripCr(line)] + Lines(rest)
  {
    var s := line + "\n" + rest;
    assert s[|line|] == '\n' && s[..|line|] == line && s[|line| + 1..] == rest;
    BreakAt(s, |line|);
  }

  lemma BreakAt(s: string, n: nat)
    requires n < |s| && s[n] == '\n' && '\n' !in s[..n]
    ensures Break(s) == n
  {
    var m := Break(s);
    assert forall i | 0 <= i < n :: s[i] in s[..n];
    assert forall i | 0 <= i < m :: s[i] in s[..m];
  }

  /** A comment, indented or not, or a blank line in front of a sidecar changes nothing that is read from it. */
  lemma CommentIgnored(a: Algorithm, indent: string, comment: string, rest: string, computed: string)
    requires AllWs(indent) && (comment == "" || comment[0] == '#') && '\n' !in indent + comment
    ensures Candidate(Lines(indent + comment + "\n" + rest)) == Candidate(Lines(rest))
    ensures Names(a, indent + comment + "\n" + rest, computed) <==> Names(a, rest, computed)
    ensures Judged(a, Some(indent + comment + "\n" + rest), computed) == Judged(a, Some(rest), computed)
  {
    var line := indent + comment;
    LinesCons(line, rest);
    CommentLine(indent, comment);
    assert ([StripCr(line)] + Lines(rest))[1..] == Lines(rest);
    hide Lines;
    hide Ignored;
  }

  lemma CommentLine(indent: string, comment: string)
    requires AllWs(indent) && (comment == "" || comment[0] == '#')
    ensures Ignored(StripCr(indent + comment))
  {
    hide TrimEnd;
    var line := indent + comment;
    var t := StripCr(line);
    assert IsWs('\r') && !IsWs('#');
    hide IsWs;
    if comment == "" || t == indent {
      assert AllWs(t);
      TrimStartAllWs(t);
    } else {
      var c := t[|indent|..];
      assert t == indent + c && (c == "" || c[0] == comment[0]);
      TokenAfterWs(indent, c);
      TrimStartsAt(c);
    }
  }

  lemma TrimStartsAt(c: string)
    requires c == "" || !IsWs(c[0])
    ensures TrimStart(c) == c
    ensures Trim(c) == "" || Trim(c)[0] == c[0]
  {
    NothingToTrim(c);
  }

  // ---- the first token of the whole text ----

  lemma LineToken(s: string)
    requires s != ""
    ensures var n := Break(s); var line := if n == |s| then s else StripCr(s[..n]);
      FirstToken(s) == if FirstToken(line) != "" || n == |s| then FirstToken(line) else FirstToken(s[n + 1..])
  {
    hide IsWs;
    hide FirstToken;
    hide Break;
    var n := Break(s);
    if n < |s| {
      var line, ending, rest := StripCr(s[..n]), s[|StripCr(s[..n])|..n + 1], s[n + 1..];
      EndingIsWs(s[..n]);
      assert s[..n] + ['\n'] == s[..n + 1];
      assert line + ending == s[..n + 1] && s == s[..n + 1] + rest;
      LineThenRest(line, ending, rest);
    }
  }

  lemma EndingIsWs(raw: string)
    ensures var line := StripCr(raw); var ending := raw[|line|..] + ['\n'];
      line + ending == raw + ['\n'] && AllWs(ending)
  {
    assert IsWs('\r') && IsWs('\n');
  }

  lemma LineThenRest(line: string, ending: string, rest: string)
    requires ending != "" && AllWs(ending)
    ensures FirstToken(line + ending + rest) == if FirstToken(line) != "" then FirstToken(line) else FirstToken(rest)
  {
    hide IsWs;
    hide TrimStart;
    hide Word;
    if FirstToken(line) != "" {
      assert line + ending + rest == line + (ending + rest) && (ending + rest)[0] == ending[0];
      TokenBeforeWs(line, ending + rest);
    } else {
      BlankIsWs(line);
      TokenAfterWs(line + ending, rest);
    }
  }

  lemma BlankIsWs(s: string)
    requires FirstToken(s) == ""
    ensures AllWs(s)
  {
    var t := TrimStart(s);
    if t != "" {
      WordStarts(t);
    } else {
      assert s[..|s|] == s;
    }
  }

  /** If the first token of the whole text is a well-formed digest, it is also the token the parser judges. */
  lemma {:induction false} FirstTokenIsCandidate(a: Algorithm, s: string)
    requires WellFormed(a, FirstToken(s))
    ensures Candidate(Lines(s)) == Some(FirstToken(s))
    decreases |s|
  {
    hide IsWs;
    hide TrimStart;
    hide TrimEnd;
    hide Word;
    hide Break;
    if s != "" {
      LineToken(s);
      var n := Break(s);
      var line := if n == |s| then s else StripCr(s[..n]);
      TrimKeepsToken(line);
      if FirstToken(line) != "" {
        assert FirstToken(line)[0] in FirstToken(s) && !IsHex('#');
        assert !Ignored(line);
        assert Lines(s)[0] == line;
      } else {
        FirstTokenIsCandidate(a, s[n + 1..]);
        assert Ignored(line);
        assert Lines(s)[1..] == Lines(s[n + 1..]);
      }
    }
  }

  // ---- a sidecar that names its file's digest ----

  lemma SpellsHex(t: string, d: Bytes)
    requires LowerAll(t) == HexOf(d)
    ensures |t| == 2 * |d| && AllHex(t)
  {
    HexIsHex(d);
    forall i | 0 <= i < |t| ensures IsHex(t[i]) {
      assert LowerAll(t)[i] in HexOf(d);
    }
  }

  lemma {:induction false} HexIsHex(d: Bytes)
    ensures forall c <- HexOf(d) :: IsHex(c) && Lower(c) == c
  {
    if d != [] {
      HexIsHex(d[..|d| - 1]);
      DigitNibble(d[|d| - 1] / 16);
      DigitNibble(d[|d| - 1] % 16);
    }
  }

  /** A sidecar that starts with the digest, in either letter case, with whatever behind it after a space, names it. */
  lemma DigestIsNamed(a: Algorithm, before: string, t: string, after: string, d: Bytes)
    requires AllWs(before) && 2 * |d| == (if a.SHA1? then 40 else 64) && LowerAll(t) == HexOf(d)
    requires after == "" || IsWs(after[0])
    ensures Names(a, before + t + after, HexOf(d))
  {
    hide Lines;
    hide FirstToken;
    hide LowerAll;
    hide HexOf;
    SpellsHex(t, d);
    HexNoWs(t);
    TokenIs(before, t, after);
    FirstTokenIsCandidate(a, before + t + after);
  }

  lemma TokenIs(before: string, t: string, after: string)
    requires AllWs(before) && t != "" && NoWs(t) && (after == "" || IsWs(after[0]))
    ensures FirstToken(before + t + after) == t
  {
    hide TrimStart;
    hide Word;
    assert t[0] in t;
    hide IsWs;
    assert before + t + after == before + (t + after);
    TokenAfterWs(before, t + after);
    assert (t + after)[0] == t[0];
    NothingToTrim(t + after);
    assert |t| < |t + after| ==> (t + after)[|t|] == after[0];
    WordUnique(t + after, t);
  }

  lemma HexNoWs(t: string)
    requires AllHex(t)
    ensures NoWs(t)
  {
  }
}
