/** The journal file format: a 10-byte header, then records of length, payload and checksum. */
module Framing {
  import opened Bytes
  import opened Records
  import opened Codec

  const MAGIC: Bytes := [66, 67, 65, 83]
  const VERSION: U32 := 1
  const HEADER_LEN := 10

  datatype Error =
    | ShortHeader | BadMagic | UnsupportedVersion(version: nat)
    | Truncated | BadChecksum(offset: nat) | Undecodable(offset: nat)
    | TooLong | LockTimeout | SnapshotMalformed

  datatype Result<+T> = Ok(value: T) | Err(error: Error)

  function Header(): (h: Bytes)
    ensures |h| == HEADER_LEN
  {
    MAGIC + Le(VERSION, 4) + [0, 0]
  }

  function HeaderFault(file: Bytes): Option<Error> {
    if |file| < HEADER_LEN then Some(ShortHeader)
    else if file[..4] != MAGIC then Some(BadMagic)
    else if UnLe(file[4..8]) != VERSION then Some(UnsupportedVersion(UnLe(file[4..8])))
    else None
  }

  lemma HeaderAccepted(rest: Bytes)
    ensures HeaderFault(Header() + rest) == None
  {
    var f := Header() + rest;
    assert f[..4] == MAGIC;
    assert f[4..8] == Le(VERSION, 4);
    Pow256Values();
    LeRoundTrip(VERSION, 4);
  }

  /** The first eight bytes of a file this program can read: "BCAS" and version 1. */
  predicate StartsRight(file: Bytes) { HEADER_LEN <= |file| && file[..8] == [66, 67, 65, 83, 1, 0, 0, 0] }

  /** Which files pass validation, and what is wrong with the others: too short, another magic, or another version,
      which is reported. */
  lemma HeaderFaultMeans(file: Bytes, v: nat)
    ensures HeaderFault(file).None? <==> StartsRight(file)
    ensures HeaderFault(file) == Some(ShortHeader) <==> |file| < HEADER_LEN
    ensures HeaderFault(file) == Some(BadMagic) <==> |file| >= HEADER_LEN && file[..4] != [66, 67, 65, 83]
    ensures HeaderFault(file) == Some(UnsupportedVersion(v)) <==>
      |file| >= HEADER_LEN && file[..4] == [66, 67, 65, 83] && v != 1 && v == UnLe(file[4..8])
  {
    if |file| >= HEADER_LEN {
      var version := file[4..8];
      assert file[..8] == file[..4] + version;
      VersionOne();
      LeOfUnLe(version);
      assert file[..8] == [66, 67, 65, 83, 1, 0, 0, 0] ==> version == file[..8][4..] == [1, 0, 0, 0];
      assert file[..8] == [66, 67, 65, 83, 1, 0, 0, 0] ==> file[..4] == file[..8][..4] == [66, 67, 65, 83];
    }
  }

  lemma VersionOne()
    ensures Le(1, 4) == [1, 0, 0, 0] && UnLe([1, 0, 0, 0]) == 1
  {
    assert Le(0, 3) == [0, 0, 0];
    Pow256Values();
    LeRoundTrip(1, 4);
  }

  predicate Fits(m: Mutation) { |codec.encode(m)| < 0x1_0000_0000 }

  /** A mutation that the journal can hold and hand back. */
  predicate Loggable(m: Mutation) { Fits(m) && Storable(m.key.coords) }
  predicate AllLoggable(ms: seq<Mutation>) { forall m <- ms :: Loggable(m) }

  function Frame(m: Mutation): (f: Bytes)
    ensures |f| == |codec.encode(m)| + 8
  {
    Le(|codec.encode(m)|, 4) + codec.encode(m) + Le(Crc32(codec.encode(m)), 4)
  }

  function Image(ms: seq<Mutation>): Bytes {
    if ms == [] then [] else Frame(ms[0]) + Image(ms[1..])
  }

  /** One step of the record iterator on the bytes not yet read, which start at file offset `pos`. */
  datatype Read = AtEnd | Fault(error: Error) | Garbled(error: Error, size: nat) | Record(mutation: Mutation, size: nat)

  function ReadOne(s: Bytes, pos: nat): (r: Read)
    ensures r.AtEnd? <==> s == []
    ensures r.Garbled? ==> r.error.Undecodable?
    ensures (r.Record? || r.Garbled?) ==> 8 <= r.size <= |s|
  {
    if s == [] then AtEnd
    else if |s| < 4 then Fault(Truncated)
    else
      var n := UnLe(s[..4]);
      if |s| < 8 + n then Fault(Truncated)
      else
        var payload := s[4..4 + n];
        if UnLe(s[4 + n..8 + n]) != Crc32(payload) then Fault(BadChecksum(pos))
        else
          match codec.decode(payload)
          case None => Garbled(Undecodable(pos + 4), 8 + n)
          case Some(m) => Record(m, 8 + n)
  }

  /** What replaying a journal sees: the mutations, the offset just past the last accepted record, and the fault that
      stopped it, if any. */
  datatype Scanned = Scanned(mutations: seq<Mutation>, good: nat, fault: Option<Error>)

  function Scan(s: Bytes, pos: nat): (r: Scanned)
    ensures pos <= r.good <= pos + |s|
    decreases |s|
  {
    match ReadOne(s, pos)
    case AtEnd => Scanned([], pos, None)
    case Fault(e) => Scanned([], pos, Some(e))
    case Garbled(e, n) => Scanned([], pos + n, Some(e))
    case Record(m, n) =>
      var r := Scan(s[n..], pos + n);
      Scanned([m] + r.mutations, r.good, r.fault)
  }

  lemma FrameParts(m: Mutation, rest: Bytes)
    requires Fits(m)
    ensures var s := Frame(m) + rest; var n := |codec.encode(m)|;
      && UnLe(s[..4]) == n && s[4..4 + n] == codec.encode(m)
      && UnLe(s[4 + n..8 + n]) == Crc32(codec.encode(m)) && s[8 + n..] == rest
  {
    var s, n := Frame(m) + rest, |codec.encode(m)|;
    Pow256Values();
    LeRoundTrip(n, 4);
    LeRoundTrip(Crc32(codec.encode(m)), 4);
    assert s[..4] == Le(n, 4);
    assert s[4..4 + n] == codec.encode(m);
    assert s[4 + n..8 + n] == Le(Crc32(codec.encode(m)), 4);
    assert s[8 + n..] == rest;
  }

  /** A whole record is always read back as itself, or as undecodable when its coordinates are not storable. */
  lemma ReadFrame(m: Mutation, rest: Bytes, pos: nat)
    requires Fits(m)
    ensures ReadOne(Frame(m) + rest, pos) ==
      if Storable(m.key.coords) then Record(m, |Frame(m)|) else Garbled(Undecodable(pos + 4), |Frame(m)|)
  {
    FrameParts(m, rest);
  }

  /** A proper, non-empty prefix of a record is never mistaken for a record or for a checksum failure. */
  lemma ReadTorn(m: Mutation, k: nat, pos: nat)
    requires Fits(m) && 0 < k < |Frame(m)|
    ensures ReadOne(Frame(m)[..k], pos) == Fault(Truncated)
  {
    FrameParts(m, []);
    assert Frame(m) + [] == Frame(m);
    if k >= 4 {
      assert Frame(m)[..k][..4] == Frame(m)[..4];
    }
  }

  function Prepend(ms: seq<Mutation>, r: Scanned): Scanned {
    Scanned(ms + r.mutations, r.good, r.fault)
  }

  lemma PrependTwice(a: seq<Mutation>, b: seq<Mutation>, r: Scanned)
    ensures Prepend(a, Prepend(b, r)) == Prepend(a + b, r)
  {
    assert a + (b + r.mutations) == (a + b) + r.mutations;
  }

  lemma ScanFrame(m: Mutation, rest: Bytes, pos: nat)
    requires Loggable(m)
    ensures Scan(Frame(m) + rest, pos) == Prepend([m], Scan(rest, pos + |Frame(m)|))
  {
    ReadFrame(m, rest, pos);
    assert (Frame(m) + rest)[|Frame(m)|..] == rest;
  }

  lemma {:induction false} ScanImage(ms: seq<Mutation>, rest: Bytes, pos: nat)
    requires AllLoggable(ms)
    ensures Scan(Image(ms) + rest, pos) == Prepend(ms, Scan(rest, pos + |Image(ms)|))
  {
    hide ReadOne;
    hide Frame;
    if ms == [] {
      assert Image(ms) + rest == rest;
      assert [] + Scan(rest, pos).mutations == Scan(rest, pos).mutations;
    } else {
      var m, tail := ms[0], ms[1..];
      assert Loggable(m) && ms == [m] + tail;
      calc {
        Scan(Image(ms) + rest, pos);
        { Associative(Frame(m), Image(tail), rest); }
        Scan(Frame(m) + (Image(tail) + rest), pos);
        { ScanFrame(m, Image(tail) + rest, pos); }
        Prepend([m], Scan(Image(tail) + rest, pos + |Frame(m)|));
        { ScanImage(tail, rest, pos + |Frame(m)|); }
        Prepend([m], Prepend(tail, Scan(rest, pos + |Image(ms)|)));
        { PrependTwice([m], tail, Scan(rest, pos + |Image(ms)|)); }
        Prepend(ms, Scan(rest, pos + |Image(ms)|));
      }
    }
  }

  lemma Associative(a: Bytes, b: Bytes, c: Bytes)
    ensures a + (b + c) == (a + b) + c
  {
  }

  lemma {:induction false} ImageAppend(a: seq<Mutation>, b: seq<Mutation>)
    ensures Image(a + b) == Image(a) + Image(b)
  {
    if a == [] {
      assert a + b == b;
    } else {
      ImageAppend(a[1..], b);
      assert (a + b)[0] == a[0] && (a + b)[1..] == a[1..] + b;
      Associative(Frame(a[0]), Image(a[1..]), Image(b));
    }
  }

  /** How many whole records lie in the first `n` bytes after the header. */
  function Whole(ms: seq<Mutation>, n: nat): (k: nat)
    ensures k <= |ms|
  {
    if ms == [] || n < |Frame(ms[0])| then 0 else 1 + Whole(ms[1..], n - |Frame(ms[0])|)
  }

  lemma {:induction false} WholeIsLargest(ms: seq<Mutation>, n: nat)
    ensures var k := Whole(ms, n);
      |Image(ms[..k])| <= n && (k < |ms| ==> n < |Image(ms[..k + 1])|)
  {
    if ms != [] && n >= |Frame(ms[0])| {
      var k := Whole(ms, n);
      WholeIsLargest(ms[1..], n - |Frame(ms[0])|);
      assert ms[..k][1..] == ms[1..][..k - 1];
      if k < |ms| {
        assert ms[..k + 1][1..] == ms[1..][..k];
      }
    } else if ms != [] {
      assert ms[..1][1..] == [];
    }
  }

  /** A cut at `n` keeps `Whole` records and a strict, possibly empty, prefix of the next one. */
  lemma CutSplits(ms: seq<Mutation>, n: nat)
    requires n <= |Image(ms)|
    ensures var k := Whole(ms, n); var left := n - |Image(ms[..k])|;
      && left >= 0
      && (left == 0 ==> Image(ms)[..n] == Image(ms[..k]))
      && (left > 0 ==> k < |ms| && left < |Frame(ms[k])| && Image(ms)[..n] == Image(ms[..k]) + Frame(ms[k])[..left])
  {
    hide Frame;
    hide Image;
    hide Whole;
    var k := Whole(ms, n);
    WholeIsLargest(ms, n);
    if k < |ms| {
      ImageAround(ms, k);
      CutParts(Image(ms[..k]), Frame(ms[k]), Image(ms[k + 1..]), n);
      assert Image(ms[..k + 1]) == Image(ms[..k]) + Frame(ms[k]);
    } else {
      assert ms[..k] == ms;
    }
  }

  lemma ImageAround(ms: seq<Mutation>, k: nat)
    requires k < |ms|
    ensures Image(ms) == Image(ms[..k]) + (Frame(ms[k]) + Image(ms[k + 1..]))
    ensures Image(ms[..k + 1]) == Image(ms[..k]) + Frame(ms[k])
  {
    hide Image;
    hide Frame;
    var a, b := ms[..k], ms[k..];
    LogParts(ms, k);
    ImageAppend(a, b);
    ImageFirst(b);
    ImageAppend(a, [b[0]]);
    ImageOne(b[0]);
  }

  lemma LogParts(ms: seq<Mutation>, k: nat)
    requires k < |ms|
    ensures ms == ms[..k] + ms[k..] && ms[k..][0] == ms[k] && ms[k..][1..] == ms[k + 1..]
    ensures ms[..k + 1] == ms[..k] + [ms[k]]
  {
  }

  lemma ImageFirst(ms: seq<Mutation>)
    requires ms != []
    ensures Image(ms) == Frame(ms[0]) + Image(ms[1..])
  {
  }

  lemma ImageOne(m: Mutation)
    ensures Image([m]) == Frame(m)
  {
    assert Image([m]) == Frame(m) + [];
  }

  lemma CutParts(a: Bytes, b: Bytes, c: Bytes, n: nat)
    requires |a| <= n <= |a + b|
    ensures (a + (b + c))[..n] == a + b[..n - |a|]
  {
  }

  /** Cutting the record area anywhere leaves exactly the records wholly before the cut; the scan ends cleanly on a
      boundary and reports truncation everywhere else. */
  lemma ScanCut(ms: seq<Mutation>, n: nat, pos: nat)
    requires AllLoggable(ms) && n <= |Image(ms)|
    ensures var kept := ms[..Whole(ms, n)];
      Scan(Image(ms)[..n], pos) ==
        Scanned(kept, pos + |Image(kept)|, if n == |Image(kept)| then None else Some(Truncated))
  {
    hide Scan;
    hide Image;
    hide Whole;
    hide Frame;
    var k := Whole(ms, n);
    var kept, left := ms[..k], n - |Image(ms[..k])|;
    CutSplits(ms, n);
    if left > 0 {
      assert Loggable(ms[k]);
      ScanThenTorn(kept, ms[k], left, pos);
    } else {
      ScanExactly(kept, pos);
    }
  }

  lemma ScanExactly(ms: seq<Mutation>, pos: nat)
    requires AllLoggable(ms)
    ensures Scan(Image(ms), pos) == Scanned(ms, pos + |Image(ms)|, None)
  {
    ScanImage(ms, [], pos);
    assert Image(ms) + [] == Image(ms) && ms + [] == ms;
  }

  lemma ScanThenTorn(kept: seq<Mutation>, m: Mutation, left: nat, pos: nat)
    requires AllLoggable(kept) && Fits(m) && 0 < left < |Frame(m)|
    ensures Scan(Image(kept) + Frame(m)[..left], pos) == Scanned(kept, pos + |Image(kept)|, Some(Truncated))
  {
    hide Image;
    ReadTorn(m, left, pos + |Image(kept)|);
    ScanImage(kept, Frame(m)[..left], pos);
    assert kept + [] == kept;
  }
}
