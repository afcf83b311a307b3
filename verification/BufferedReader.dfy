/** The iterator reads each length prefix with a single buffered read, which may return fewer than four bytes at the
    end of the buffer as well as at the end of the file. This module follows the buffer and says exactly when that
    matters. `cap` is the buffer's capacity. */
module BufferedReader {
  import opened Bytes
  import opened Records
  import opened Codec
  import opened Framing

  /** The capacity of a buffered reader made without a size. */
  const BUFFER := 8_192

  function Min(a: nat, b: nat): nat { if a < b then a else b }

  /** Bytes in the buffer once a read has found it holding `b`, with `left` bytes of file not yet consumed. */
  function Refilled(b: nat, left: nat, cap: nat): nat { if b == 0 then Min(cap, left) else b }

  /** Bytes in the buffer after consuming exactly `want`. A read at least as large as the buffer goes around it. */
  function Consumed(b: nat, want: nat, left: nat, cap: nat): nat
    requires b <= left && want <= left
  {
    if want <= b then b - want
    else if want - b >= cap then 0
    else Min(cap, left - b) - (want - b)
  }

  /** The buffer after a whole record of `n` bytes: length prefix, payload, checksum. */
  function AfterRecord(b1: nat, n: nat, left: nat, cap: nat): (b: nat)
    requires 8 <= n <= left && 4 <= b1 <= left
    ensures b <= left - n
  {
    var b2 := Consumed(b1 - 4, n - 8, left - 4, cap);
    Consumed(b2, 4, left - (n - 4), cap)
  }

  /** One step of the iterator with a buffered reader. */
  function BufferedReadOne(s: Bytes, b: nat, pos: nat, cap: nat): Read {
    if s == [] then AtEnd
    else if Refilled(b, |s|, cap) < 4 then Fault(Truncated)
    else ReadOne(s, pos)
  }

  /** The replay with a buffered reader that currently holds `b` of the unread bytes. */
  function BufferedScan(s: Bytes, b: nat, pos: nat, cap: nat): (r: Scanned)
    requires b <= |s|
    ensures pos <= r.good <= pos + |s|
    decreases |s|
  {
    if s == [] then Scanned([], pos, None) else
    var b1 := Refilled(b, |s|, cap);
    if b1 < 4 then Scanned([], pos, Some(Truncated)) else
    match ReadOne(s, pos)
    case AtEnd => Scanned([], pos, None)
    case Fault(e) => Scanned([], pos, Some(e))
    case Garbled(e, n) => Scanned([], pos + n, Some(e))
    case Record(m, n) => Prepend([m], BufferedScan(s[n..], AfterRecord(b1, n, |s|, cap), pos + n, cap))
  }

  // ---- the buffer level at a record start ----

  /** With records shorter than the buffer, refills fall on multiples of `cap` after the header. */
  function Level(o: nat, left: nat, cap: nat): (b: nat)
    requires cap > 0
    ensures b <= left
  {
    if o % cap == 0 then 0 else Min(cap - o % cap, left)
  }

  lemma ModStep(o: nat, d: nat, cap: nat)
    requires 0 < cap && d <= cap
    ensures (o + d) % cap == if o % cap + d < cap then o % cap + d else o % cap + d - cap
  {
    var q, r := o / cap, o % cap;
    assert o == q * cap + r;
    if r + d < cap {
      assert o + d == q * cap + (r + d);
      ModUnique(o + d, q, r + d, cap);
    } else {
      assert o + d == (q + 1) * cap + (r + d - cap);
      ModUnique(o + d, q + 1, r + d - cap, cap);
    }
  }

  lemma MultipleBounds(d: int, cap: nat)
    ensures d >= 1 ==> d * cap >= cap
    ensures d <= -1 ==> d * cap + cap <= 0
  {
  }

  lemma ModUnique(x: nat, q: nat, r: nat, cap: nat)
    requires 0 < cap && r < cap && x == q * cap + r
    ensures x % cap == r
  {
    var d := x / cap - q;
    MultipleBounds(d, cap);
    assert d * cap == (x / cap) * cap - q * cap;
  }

  lemma LevelConsumed(o: nat, want: nat, left: nat, cap: nat)
    requires cap > 4 && want < cap && want <= left
    ensures Consumed(Level(o, left, cap), want, left, cap) == Level(o + want, left - want, cap)
  {
    ModStep(o, want, cap);
  }

  lemma LevelAtStart(o: nat, left: nat, cap: nat)
    requires cap > 4 && 8 <= left
    ensures var b := Level(o, left, cap); var b1 := Refilled(b, left, cap);
      && b1 <= left && (b1 < 4 <==> o % cap > cap - 4)
      && (4 <= b1 ==> b1 - 4 == Consumed(b, 4, left, cap))
  {
  }

  lemma LevelAfterRecord(o: nat, n: nat, left: nat, cap: nat)
    requires cap > 4 && 8 <= n <= left && n - 8 < cap && o % cap <= cap - 4
    ensures var b1 := Refilled(Level(o, left, cap), left, cap);
      4 <= b1 <= left && AfterRecord(b1, n, left, cap) == Level(o + n, left - n, cap)
  {
    hide Level;
    hide Refilled;
    hide Consumed;
    LevelAtStart(o, left, cap);
    LevelConsumed(o, 4, left, cap);
    LevelConsumed(o + 4, n - 8, left - 4, cap);
    assert o + 4 + (n - 8) == o + (n - 4);
    LevelConsumed(o + (n - 4), 4, left - (n - 4), cap);
    assert o + (n - 4) + 4 == o + n;
  }

  // ---- exactly when the buffer does not matter ----

  predicate AllShorter(ms: seq<Mutation>, cap: nat) { forall m <- ms :: |codec.encode(m)| < cap }

  /** A length prefix `o` bytes after the header would run over the end of a buffer. */
  predicate Straddles(o: nat, cap: nat)
    requires cap > 4
  {
    o % cap > cap - 4
  }

  /** The first record whose length prefix straddles the end of the buffer; `|ms|` if there is none. */
  function FirstStraddling(ms: seq<Mutation>, o: nat, cap: nat): (k: nat)
    requires cap > 4
    ensures k <= |ms|
  {
    if ms == [] || Straddles(o, cap) then 0 else 1 + FirstStraddling(ms[1..], o + |Frame(ms[0])|, cap)
  }

  lemma {:induction false} FirstStraddlingIsFirst(ms: seq<Mutation>, o: nat, cap: nat)
    requires cap > 4
    ensures var k := FirstStraddling(ms, o, cap);
      && (forall j | 0 <= j < k :: !Straddles(o + |Image(ms[..j])|, cap))
      && (k < |ms| ==> Straddles(o + |Image(ms[..k])|, cap))
  {
    hide Straddles;
    if ms != [] && !Straddles(o, cap) {
      var n := |Frame(ms[0])|;
      FirstStraddlingIsFirst(ms[1..], o + n, cap);
      var k := FirstStraddling(ms, o, cap);
      forall j | 0 <= j <= k && j <= |ms|
        ensures o + |Image(ms[..j])| == if j == 0 then o else o + n + |Image(ms[1..][..j - 1])|
      {
        if j > 0 { assert ms[..j][1..] == ms[1..][..j - 1]; }
      }
    }
  }

  /** The records before the first straddling one, and a truncation report if there is one. */
  function BeforeStraddle(ms: seq<Mutation>, o: nat, pos: nat, cap: nat): Scanned
    requires cap > 4
  {
    var k := FirstStraddling(ms, o, cap);
    Scanned(ms[..k], pos + |Image(ms[..k])|, if k == |ms| then None else Some(Truncated))
  }

  lemma BeforeStraddleStep(ms: seq<Mutation>, o: nat, pos: nat, cap: nat)
    requires cap > 4 && ms != [] && !Straddles(o, cap)
    ensures var n := |Frame(ms[0])|;
      BeforeStraddle(ms, o, pos, cap) == Prepend([ms[0]], BeforeStraddle(ms[1..], o + n, pos + n, cap))
  {
    hide Straddles;
    var k := FirstStraddling(ms, o, cap);
    assert ms[..k][1..] == ms[1..][..k - 1];
    assert ms[..k] == [ms[0]] + ms[1..][..k - 1];
    assert Image(ms[..k]) == Frame(ms[0]) + Image(ms[1..][..k - 1]);
  }

  lemma {:induction false} BufferedScanExact(ms: seq<Mutation>, o: nat, pos: nat, cap: nat)
    requires cap > 4 && AllLoggable(ms) && AllShorter(ms, cap)
    ensures BufferedScan(Image(ms), Level(o, |Image(ms)|, cap), pos, cap) == BeforeStraddle(ms, o, pos, cap)
  {
    hide Straddles;
    hide Level;
    hide BeforeStraddle;
    hide BufferedScan;
    if ms == [] {
      BufferedEmpty(o, pos, cap);
    } else {
      var m, rest, n := ms[0], ms[1..], |Frame(ms[0])|;
      assert Loggable(m) && m in ms;
      if Straddles(o, cap) {
        BufferedStraddle(Image(ms), o, pos, cap);
        BeforeStraddleStop(ms, o, pos, cap);
      } else {
        BeforeStraddleStep(ms, o, pos, cap);
        BufferedFrame(m, Image(rest), o, pos, cap);
        BufferedScanExact(rest, o + n, pos + n, cap);
      }
    }
  }

  lemma BufferedEmpty(o: nat, pos: nat, cap: nat)
    requires cap > 4
    ensures BufferedScan(Image([]), Level(o, |Image([])|, cap), pos, cap) == BeforeStraddle([], o, pos, cap)
  {
  }

  lemma BeforeStraddleStop(ms: seq<Mutation>, o: nat, pos: nat, cap: nat)
    requires cap > 4 && ms != [] && Straddles(o, cap)
    ensures BeforeStraddle(ms, o, pos, cap) == Scanned([], pos, Some(Truncated))
  {
    assert ms[..0] == [] && Image([]) == [];
  }

  lemma BufferedStraddle(s: Bytes, o: nat, pos: nat, cap: nat)
    requires cap > 4 && 8 <= |s| && Straddles(o, cap)
    ensures BufferedScan(s, Level(o, |s|, cap), pos, cap) == Scanned([], pos, Some(Truncated))
  {
    LevelAtStart(o, |s|, cap);
  }

  lemma BufferedFrame(m: Mutation, rest: Bytes, o: nat, pos: nat, cap: nat)
    requires cap > 4 && Loggable(m) && |codec.encode(m)| < cap && !Straddles(o, cap)
    ensures var s, n := Frame(m) + rest, |Frame(m)|;
      BufferedScan(s, Level(o, |s|, cap), pos, cap) ==
        Prepend([m], BufferedScan(rest, Level(o + n, |rest|, cap), pos + n, cap))
  {
    hide ReadOne;
    hide Level;
    hide Refilled;
    hide AfterRecord;
    var s, n := Frame(m) + rest, |Frame(m)|;
    LevelAtStart(o, |s|, cap);
    LevelAfterRecord(o, n, |s|, cap);
    ReadFrame(m, rest, pos);
    assert s[n..] == rest;
  }

  /** For records shorter than the buffer, the buffered replay of a journal equals the byte-exact one if and only if no
      record starts within the last three bytes of a buffer, counted from the end of the header. */
  lemma BufferedAgreesIff(ms: seq<Mutation>, cap: nat)
    requires cap > 4 && AllLoggable(ms) && AllShorter(ms, cap)
    ensures BufferedScan(Image(ms), 0, HEADER_LEN, cap) == Scan(Image(ms), HEADER_LEN)
      <==> forall j | 0 <= j < |ms| :: !Straddles(|Image(ms[..j])|, cap)
  {
    hide BufferedScan;
    hide Scan;
    hide Image;
    BufferedScanExact(ms, 0, HEADER_LEN, cap);
    FirstStraddlingIsFirst(ms, 0, cap);
    ScanExactly(ms, HEADER_LEN);
    var k := FirstStraddling(ms, 0, cap);
    assert forall j | 0 <= j < |ms| :: 0 + |Image(ms[..j])| == |Image(ms[..j])|;
    if k == |ms| {
      assert ms[..k] == ms;
    }
  }

  // ---- records of any size ----

  /** The first record whose length prefix is met with fewer than four bytes buffered, `|ms|` if there is none. It
      depends on the sizes of the records alone. */
  function FirstShort(ms: seq<Mutation>, b: nat, cap: nat): (k: nat)
    requires b <= |Image(ms)|
    ensures k <= |ms|
    decreases |ms|
  {
    if ms == [] then 0 else
    var left := |Image(ms)|;
    var b1 := Refilled(b, left, cap);
    if b1 < 4 then 0 else 1 + FirstShort(ms[1..], AfterRecord(b1, |Frame(ms[0])|, left, cap), cap)
  }

  /** For every log and every buffer: the buffered replay yields exactly the records before that one. */
  lemma {:induction false} BufferedScanKeeps(ms: seq<Mutation>, b: nat, pos: nat, cap: nat)
    requires AllLoggable(ms) && b <= |Image(ms)|
    ensures var k := FirstShort(ms, b, cap);
      BufferedScan(Image(ms), b, pos, cap)
      == Scanned(ms[..k], pos + |Image(ms[..k])|, if k == |ms| then None else Some(Truncated))
    decreases |ms|
  {
    hide BufferedScan;
    hide Refilled;
    hide AfterRecord;
    hide Frame;
    if ms == [] {
      BufferedNothing(b, pos, cap);
    } else {
      var m, rest, left := ms[0], Image(ms[1..]), |Image(ms)|;
      var b1, n := Refilled(b, left, cap), |Frame(ms[0])|;
      assert Loggable(m) && m in ms;
      BufferedStep(m, rest, b, pos, cap);
      if b1 >= 4 {
        var b' := AfterRecord(b1, n, left, cap);
        BufferedScanKeeps(ms[1..], b', pos + n, cap);
        KeptOneMore(ms, FirstShort(ms[1..], b', cap));
      } else {
        assert ms[..0] == [];
      }
    }
  }

  lemma KeptOneMore(ms: seq<Mutation>, k: nat)
    requires ms != [] && k < |ms|
    ensures ms[..k + 1] == [ms[0]] + ms[1..][..k] && Image(ms[..k + 1]) == Frame(ms[0]) + Image(ms[1..][..k])
  {
    assert ms[..k + 1][1..] == ms[1..][..k];
  }

  lemma BufferedNothing(b: nat, pos: nat, cap: nat)
    requires b <= |Image([])|
    ensures BufferedScan(Image([]), b, pos, cap) == Scanned([], pos, None)
  {
  }

  lemma BufferedStep(m: Mutation, rest: Bytes, b: nat, pos: nat, cap: nat)
    requires Loggable(m) && b <= |Frame(m) + rest|
    ensures var s, n := Frame(m) + rest, |Frame(m)|; var b1 := Refilled(b, |s|, cap);
      && 8 <= n && b1 <= |s|
      && (b1 < 4 ==> BufferedScan(s, b, pos, cap) == Scanned([], pos, Some(Truncated)))
      && (4 <= b1 ==> BufferedScan(s, b, pos, cap)
                      == Prepend([m], BufferedScan(rest, AfterRecord(b1, n, |s|, cap), pos + n, cap)))
  {
    hide ReadOne;
    hide AfterRecord;
    ReadFrame(m, rest, pos);
    assert (Frame(m) + rest)[|Frame(m)|..] == rest;
  }

  /** For every log and every buffer: the buffered replay equals the byte-exact one if and only if no length prefix is
      met with fewer than four bytes buffered. */
  lemma BufferedAgreesExactly(ms: seq<Mutation>, b: nat, pos: nat, cap: nat)
    requires AllLoggable(ms) && b <= |Image(ms)|
    ensures BufferedScan(Image(ms), b, pos, cap) == Scan(Image(ms), pos) <==> FirstShort(ms, b, cap) == |ms|
  {
    hide BufferedScan;
    hide Scan;
    BufferedScanKeeps(ms, b, pos, cap);
    ScanExactly(ms, pos);
    assert ms[..|ms|] == ms;
  }

  // ---- arbitrary bytes ----

  /** Wherever fewer than four bytes are buffered in front of a length prefix, the file is damaged there anyway. */
  predicate Steady(s: Bytes, b: nat, pos: nat, cap: nat)
    requires b <= |s|
    decreases |s|
  {
    if s == [] then true else
    var b1 := Refilled(b, |s|, cap);
    if b1 < 4 then ReadOne(s, pos).Fault?
    else
      match ReadOne(s, pos)
      case Record(m, n) => Steady(s[n..], AfterRecord(b1, n, |s|, cap), pos + n, cap)
      case _ => true
  }

  /** Same mutations, same last good offset, and faults that a recovering open treats alike. */
  predicate Alike(a: Scanned, b: Scanned) {
    a.mutations == b.mutations && a.good == b.good && a.fault.Some? == b.fault.Some?
    && (a.fault == b.fault || (!a.fault.value.Undecodable? && !b.fault.value.Undecodable?))
  }

  lemma {:induction false} SteadyIffAlike(s: Bytes, b: nat, pos: nat, cap: nat)
    requires b <= |s|
    ensures var x, y := BufferedScan(s, b, pos, cap), Scan(s, pos);
      if Steady(s, b, pos, cap) then Alike(x, y)
      else x.fault == Some(Truncated) && (x.good < y.good || (y.fault.Some? && y.fault.value.Undecodable?))
    decreases |s|
  {
    hide ReadOne;
    hide Refilled;
    hide AfterRecord;
    FaultsOf(s, pos);
    if s != [] {
      var b1 := RefilledFits(b, |s|, cap);
      if b1 >= 4 && ReadOne(s, pos).Record? {
        var n := ReadOne(s, pos).size;
        SteadyIffAlike(s[n..], AfterRecord(b1, n, |s|, cap), pos + n, cap);
      }
    }
  }

  lemma RefilledFits(b: nat, left: nat, cap: nat) returns (b1: nat)
    requires b <= left
    ensures b1 == Refilled(b, left, cap) <= left && (left > 0 && cap > 0 ==> b1 > 0)
  {
    b1 := Refilled(b, left, cap);
  }

  lemma FaultsOf(s: Bytes, pos: nat)
    ensures ReadOne(s, pos).Fault? ==> ReadOne(s, pos).error.Truncated? || ReadOne(s, pos).error.BadChecksum?
  {
  }
}
