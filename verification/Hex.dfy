/** Digests as text. */
module Hex {
  import opened Bytes

  const DIGITS: string := "0123456789abcdef"

  function Nibble(c: char): Option<nat> {
    if '0' <= c <= '9' then Some(c as int - '0' as int)
    else if 'a' <= c <= 'f' then Some(c as int - 'a' as int + 10)
    else if 'A' <= c <= 'F' then Some(c as int - 'A' as int + 10)
    else None
  }

  predicate IsHex(c: char) { Nibble(c).Some? }
  predicate AllHex(s: string) { forall c <- s :: IsHex(c) }

  function Lower(c: char): char { if 'A' <= c <= 'Z' then (c as int + 32) as char else c }
  function LowerAll(s: string): (r: string)
    ensures |r| == |s|
  {
    seq(|s|, i requires 0 <= i < |s| => Lower(s[i]))
  }

  /** Two lowercase digits a byte. */
  function HexOf(d: Bytes): (s: string)
    ensures |s| == 2 * |d|
  {
    if d == [] then ""
    else HexOf(d[..|d| - 1]) + [DIGITS[d[|d| - 1] / 16], DIGITS[d[|d| - 1] % 16]]
  }

  lemma DigitNibble(n: nat)
    requires n < 16
    ensures Nibble(DIGITS[n]) == Some(n) && Lower(DIGITS[n]) == DIGITS[n]
  {
  }

  lemma NibbleDigit(c: char)
    requires IsHex(c)
    ensures Nibble(c).value < 16 && DIGITS[Nibble(c).value] == Lower(c)
  {
    var n := Nibble(c).value;
    if n < 10 {
      assert DIGITS[n] == ('0' as int + n) as char;
    } else {
      assert DIGITS[n] == ('a' as int + n - 10) as char;
    }
  }

  method ToHex(d: Bytes) returns (s: string)
    ensures s == HexOf(d)
  {
    s := "";
    for i := 0 to |d|
      invariant s == HexOf(d[..i])
    {
      assert d[..i + 1][..i] == d[..i];
      s := s + [DIGITS[d[i] / 16]];
      s := s + [DIGITS[d[i] % 16]];
    }
    assert d[..|d|] == d;
  }

  lemma HexByte(out: Bytes, p: string, c: char, d: char)
    requires HexOf(out) == LowerAll(p) && IsHex(c) && IsHex(d)
    ensures var b := 16 * Nibble(c).value + Nibble(d).value;
      b < 256 && HexOf(out + [b]) == LowerAll(p + [c, d])
  {
    var b := 16 * Nibble(c).value + Nibble(d).value;
    NibbleDigit(c);
    NibbleDigit(d);
    hide Nibble;
    hide LowerAll;
    assert b / 16 == Nibble(c).value && b % 16 == Nibble(d).value;
    HexOneMore(out, b);
    hide HexOf;
    LowerConcat(p, [c, d]);
    LowerPair(c, d);
  }

  lemma HexOneMore(out: Bytes, b: Byte)
    ensures HexOf(out + [b]) == HexOf(out) + [DIGITS[b / 16], DIGITS[b % 16]]
  {
    assert (out + [b])[..|out|] == out;
  }

  lemma LowerPair(c: char, d: char)
    ensures LowerAll([c, d]) == [Lower(c), Lower(d)]
  {
  }

  lemma LowerConcat(a: string, b: string)
    ensures LowerAll(a + b) == LowerAll(a) + LowerAll(b)
  {
  }

  /** Accepts exactly 64 hex digits of either case; the digest's canonical form is then the input in lower case. */
  method FromHex(s: string) returns (r: Option<Digest>)
    ensures r.Some? <==> |s| == 64 && AllHex(s)
    ensures r.Some? ==> HexOf(r.value) == LowerAll(s)
  {
    hide HexOf;
    hide LowerAll;
    if |s| != 64 {
      return None;
    }
    var out: Bytes := [];
    for i := 0 to 32
      invariant |out| == i && AllHex(s[..2 * i]) && HexOf(out) == LowerAll(s[..2 * i])
    {
      var hi, lo := Nibble(s[2 * i]), Nibble(s[2 * i + 1]);
      if hi.None? {
        assert s[2 * i] in s;
        return None;
      }
      if lo.None? {
        assert s[2 * i + 1] in s;
        return None;
      }
      HexByte(out, s[..2 * i], s[2 * i], s[2 * i + 1]);
      assert s[..2 * (i + 1)] == s[..2 * i] + [s[2 * i], s[2 * i + 1]];
      out := out + [16 * hi.value + lo.value];
    }
    assert s[..64] == s;
    r := Some(out);
  }

  /** Distinct digests have distinct text, so the text determines the digest. */
  lemma {:induction false} HexInjective(a: Bytes, b: Bytes)
    requires HexOf(a) == HexOf(b)
    ensures a == b
  {
    if a != [] {
      var n := |a| - 1;
      var x, y := HexOf(a), HexOf(b);
      assert x[2 * n] == y[2 * n] && x[2 * n + 1] == y[2 * n + 1];
      DigitNibble(a[n] / 16);
      DigitNibble(b[n] / 16);
      DigitNibble(a[n] % 16);
      DigitNibble(b[n] % 16);
      assert HexOf(a[..n]) == x[..2 * n] == y[..2 * n] == HexOf(b[..n]);
      HexInjective(a[..n], b[..n]);
    }
  }

  lemma {:induction false} HexOfIsHex(d: Bytes)
    ensures AllHex(HexOf(d)) && LowerAll(HexOf(d)) == HexOf(d)
  {
    if d != [] {
      var n := |d| - 1;
      HexOfIsHex(d[..n]);
      DigitNibble(d[n] / 16);
      DigitNibble(d[n] % 16);
    }
  }

  /** Writing a digest and reading it back gives the digest. */
  method HexRoundTrip(d: Digest) returns (r: Option<Digest>)
    ensures r == Some(d)
  {
    var s := ToHex(d);
    HexOfIsHex(d);
    r := FromHex(s);
    HexInjective(r.value, d);
  }
}
