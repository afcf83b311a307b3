/** Decimal numbers as Rust prints and reads them. */
module Decimals {
  import opened Bytes

  function Digit(n: nat): char
    requires n < 10
  {
    (n + '0' as int) as char
  }

  function Decimal(n: nat): (s: string)
    ensures s != ""
  {
    if n < 10 then [Digit(n)] else Decimal(n / 10) + [Digit(n % 10)]
  }

  /** Zero-padded to at least `w` characters. */
  function Padded(n: nat, w: nat): string {
    var s := Decimal(n);
    if |s| >= w then s else seq(w - |s|, i => '0') + s
  }

  function Pow10(w: nat): (p: nat)
    ensures p > 0
  {
    if w == 0 then 1 else 10 * Pow10(w - 1)
  }

  /** The last `w` digits. */
  function Fixed(n: nat, w: nat): (s: string)
    ensures |s| == w
  {
    if w == 0 then "" else Fixed(n / 10, w - 1) + [Digit(n % 10)]
  }

  lemma {:induction false} DecimalIsFixed(n: nat, w: nat)
    requires w > 0 && n < Pow10(w)
    ensures |Decimal(n)| <= w && Fixed(n, w) == seq(w - |Decimal(n)|, i => '0') + Decimal(n)
  {
    if n < 10 {
      ZeroFixed(w - 1);
    } else {
      DecimalIsFixed(n / 10, w - 1);
    }
  }

  lemma {:induction false} ZeroFixed(w: nat)
    ensures Fixed(0, w) == seq(w, i => '0')
  {
    if w > 0 {
      ZeroFixed(w - 1);
    }
  }

  lemma PaddedIsFixed(n: nat, w: nat)
    requires w > 0 && n < Pow10(w)
    ensures Padded(n, w) == Fixed(n, w)
  {
    DecimalIsFixed(n, w);
    if |Decimal(n)| == w {
      assert seq(0, i => '0') + Decimal(n) == Decimal(n);
    }
  }

  function DigitValue(c: char): Option<nat> { if '0' <= c <= '9' then Some(c as int - '0' as int) else None }

  function Number(s: string): Option<nat> {
    if s == "" then Some(0) else
    match (Number(s[..|s| - 1]), DigitValue(s[|s| - 1]))
    case (Some(n), Some(d)) => Some(10 * n + d)
    case _ => None
  }

  lemma {:induction false} FixedReadsBack(n: nat, w: nat)
    requires n < Pow10(w)
    ensures Number(Fixed(n, w)) == Some(n)
  {
    if w > 0 {
      FixedReadsBack(n / 10, w - 1);
      assert Fixed(n, w)[..w - 1] == Fixed(n / 10, w - 1);
    }
  }

  /** Reading an unsigned integer: an optional plus sign, at least one digit, no more than `max`. */
  function ParseUnsigned(s: string, max: nat): (r: Option<nat>)
    ensures r.Some? ==> r.value <= max
  {
    var digits := if s != "" && s[0] == '+' then s[1..] else s;
    if digits == "" then None else
    match Number(digits)
    case Some(n) => if n <= max then Some(n) else None
    case None => None
  }

  lemma {:induction false} DecimalReadsBack(n: nat)
    ensures Number(Decimal(n)) == Some(n)
  {
    var s := Decimal(n);
    if n < 10 {
      assert s[..0] == "";
    } else {
      DecimalReadsBack(n / 10);
      assert s[..|s| - 1] == Decimal(n / 10);
    }
  }

  lemma {:induction false} ZerosInFront(z: string, s: string)
    requires forall c <- z :: c == '0'
    ensures Number(z + s) == Number(s)
    decreases |z| + |s|
  {
    if s != "" {
      ZerosInFront(z, s[..|s| - 1]);
      assert (z + s)[..|z + s| - 1] == z + s[..|s| - 1];
    } else if z != "" {
      var z' := z[..|z| - 1];
      assert z[|z| - 1] in z && forall c <- z' :: c in z;
      ZerosInFront(z', "");
      assert z + s == z && z' + "" == z';
    }
  }

  lemma {:induction false} NumbersAreDigits(s: string)
    requires Number(s).Some?
    ensures forall c <- s :: '0' <= c <= '9'
  {
    if s != "" {
      NumbersAreDigits(s[..|s| - 1]);
      assert forall c <- s :: c == s[|s| - 1] || c in s[..|s| - 1];
    }
  }

  lemma PaddedReadsBack(n: nat, w: nat)
    ensures var s := Padded(n, w);
      s != "" && Number(s) == Some(n) && forall c <- s :: '0' <= c <= '9'
  {
    DecimalReadsBack(n);
    var s := Decimal(n);
    if |s| < w {
      ZerosInFront(seq(w - |s|, i => '0'), s);
    }
    NumbersAreDigits(Padded(n, w));
  }
}
