/** Opening the index as the program does it, with a buffered reader, against opening it byte by byte. */
module BufferedOpen {
  import opened Bytes
  import opened Records
  import opened Codec
  import opened Framing
  import opened Mutations
  import opened IndexFiles
  import opened BufferedReader

  function OpenBuffered(f: Files, recover: bool, cap: nat): (Files, Result<Opened>) {
    match BaseRows(f)
    case Err(e) => (f, Err(e))
    case Ok(base) =>
      var j := JournalAfterOpen(f);
      if HeaderFault(j).Some? then (WithJournal(f, j), Err(HeaderFault(j).value))
      else Finish(f, j, base, BufferedScan(j[HEADER_LEN..], 0, HEADER_LEN, cap), recover)
  }

  predicate Opens(f: Files) { BaseRows(f).Ok? && HeaderFault(JournalAfterOpen(f)).None? }

  /** For arbitrary files: a recovering open with a buffer does what one without a buffer does if and only if every
      short read happens where the file is damaged anyway. */
  lemma RecoveringOpenIff(f: Files, cap: nat)
    ensures OpenBuffered(f, true, cap) == Open(f, true) <==>
      (Opens(f) ==>
         var j := JournalAfterOpen(f); HEADER_LEN <= |j| && Steady(j[HEADER_LEN..], 0, HEADER_LEN, cap))
  {
    hide Scan;
    hide BufferedScan;
    hide Replay;
    hide HeaderFault;
    hide LoadSnapshot;
    hide Steady;
    if Opens(f) {
      var j := JournalAfterOpen(f);
      NoFaultLongEnough(j);
      SteadyIffAlike(j[HEADER_LEN..], 0, HEADER_LEN, cap);
      ScanFaults(j[HEADER_LEN..], HEADER_LEN);
      BufferedFaults(j[HEADER_LEN..], 0, HEADER_LEN, cap);
    }
  }

  /** The same through a buffer: only files of this format and version are opened. */
  lemma BufferedOpenOnlyFormat(f: Files, recover: bool, cap: nat)
    requires OpenBuffered(f, recover, cap).1.Ok?
    ensures FilesStartRight(f)
  {
    hide BufferedScan;
    hide Replay;
    OpensFormat(f);
  }

  lemma {:induction false} ScanFaults(s: Bytes, pos: nat)
    ensures var e := Scan(s, pos).fault; e.Some? ==> (Recoverable(e.value) <==> !e.value.Undecodable?)
    decreases |s|
  {
    hide ReadOne;
    FaultsOf(s, pos);
    if ReadOne(s, pos).Record? {
      var n := ReadOne(s, pos).size;
      ScanFaults(s[n..], pos + n);
    }
  }

  lemma {:induction false} BufferedFaults(s: Bytes, b: nat, pos: nat, cap: nat)
    requires b <= |s|
    ensures var e := BufferedScan(s, b, pos, cap).fault; e.Some? ==> (Recoverable(e.value) <==> !e.value.Undecodable?)
    decreases |s|
  {
    hide ReadOne;
    hide AfterRecord;
    hide Refilled;
    FaultsOf(s, pos);
    if s != [] {
      var b1 := RefilledFits(b, |s|, cap);
      if b1 >= 4 && ReadOne(s, pos).Record? {
        var n := ReadOne(s, pos).size;
        BufferedFaults(s[n..], AfterRecord(b1, n, |s|, cap), pos + n, cap);
      }
    }
  }

  /** An intact journal, opened with a buffer: a recovering open keeps exactly the records before the first short read
      and cuts off the rest; a strict one refuses if there is one. */
  lemma IntactOpenKeeps(f: Files, base: Rows, ms: seq<Mutation>, cap: nat)
    requires BaseRows(f) == Ok(base) && AllLoggable(ms) && f.journal == Some(Header() + Image(ms))
    ensures var k := FirstShort(ms, 0, cap);
      var kept := ms[..k];
      var cut := WithJournal(f, Header() + Image(kept));
      var end := HEADER_LEN + |Image(kept)|;
      && OpenBuffered(f, true, cap) == (cut, Ok(Opened(Replay(base, kept), k, if k == |ms| then None else Some(end))))
      && OpenBuffered(f, false, cap)
         == if k == |ms| then (f, Ok(Opened(Replay(base, ms), k, None))) else (f, Err(Truncated))
  {
    hide BufferedScan;
    hide Replay;
    hide Image;
    hide HeaderFault;
    hide FirstShort;
    hide BaseRows;
    hide AllLoggable;
    var k := FirstShort(ms, 0, cap);
    HeaderAccepted(Image(ms));
    BufferedScanKeeps(ms, 0, HEADER_LEN, cap);
    BehindHeader(ms);
    CutAfter(ms, k);
    assert k == |ms| ==> ms[..k] == ms;
  }

  lemma BehindHeader(ms: seq<Mutation>)
    ensures (Header() + Image(ms))[HEADER_LEN..] == Image(ms)
  {
    hide Image;
  }

  lemma CutAfter(ms: seq<Mutation>, k: nat)
    requires k <= |ms|
    ensures |Image(ms[..k])| <= |Image(ms)|
    ensures (Header() + Image(ms))[..HEADER_LEN + |Image(ms[..k])|] == Header() + Image(ms[..k])
  {
    hide Image;
    assert ms == ms[..k] + ms[k..];
    ImageAppend(ms[..k], ms[k..]);
  }

  lemma IntactOpenExact(f: Files, base: Rows, ms: seq<Mutation>, recover: bool)
    requires BaseRows(f) == Ok(base) && AllLoggable(ms) && f.journal == Some(Header() + Image(ms))
    ensures Open(f, recover) == (f, Ok(Opened(Replay(base, ms), |ms|, None)))
  {
    hide Scan;
    hide Replay;
    hide Image;
    hide HeaderFault;
    HeaderAccepted(Image(ms));
    BehindHeader(ms);
    ScanExactly(ms, HEADER_LEN);
  }

  /** On an intact journal the buffer goes unnoticed, strict or recovering, if and only if no read is short. */
  lemma IntactOpenIff(f: Files, base: Rows, ms: seq<Mutation>, recover: bool, cap: nat)
    requires BaseRows(f) == Ok(base) && AllLoggable(ms) && f.journal == Some(Header() + Image(ms))
    ensures OpenBuffered(f, recover, cap) == Open(f, recover) <==> FirstShort(ms, 0, cap) == |ms|
  {
    hide OpenBuffered;
    hide Open;
    hide Replay;
    hide Image;
    hide FirstShort;
    IntactOpenKeeps(f, base, ms, cap);
    IntactOpenExact(f, base, ms, recover);
    assert ms[..|ms|] == ms;
  }

  // ---- an acknowledged record that is cut off ----

  /** With the reader's own buffer of 8192 bytes: behind a first record with a payload of 8183 bytes, a recovering open
      of an intact journal cuts off the second record, and a strict one refuses. */
  lemma SecondRecordCut(f: Files, base: Rows, a: Mutation, b: Mutation)
    requires BaseRows(f) == Ok(base) && Loggable(a) && Loggable(b) && |codec.encode(a)| == 8_183
    requires f.journal == Some(Header() + Image([a, b]))
    ensures OpenBuffered(f, true, BUFFER)
         == (WithJournal(f, Header() + Image([a])), Ok(Opened(Apply(base, a), 1, Some(8_201))))
    ensures OpenBuffered(f, false, BUFFER) == (f, Err(Truncated))
    ensures Open(f, true) == Open(f, false) == (f, Ok(Opened(Apply(Apply(base, a), b), 2, None)))
  {
    hide OpenBuffered;
    hide Open;
    hide Apply;
    var ms := [a, b];
    ShortBehind(a, b);
    IntactOpenKeeps(f, base, ms, BUFFER);
    IntactOpenExact(f, base, ms, true);
    IntactOpenExact(f, base, ms, false);
    assert ms[..1] == [a] && ms[1..] == [b];
    ReplayOneMore(base, [], a);
    ReplayOneMore(base, [a], b);
    assert [] + [a] == [a] && [a] + [b] == ms;
  }

  lemma ShortBehind(a: Mutation, b: Mutation)
    requires |codec.encode(a)| == 8_183
    ensures FirstShort([a, b], 0, BUFFER) == 1 && |Image([a])| == 8_191
  {
    hide Frame;
    var ms := [a, b];
    assert ms[1..] == [b] && [b][1..] == [];
    assert Image(ms) == Frame(a) + Image([b]) && Image([b]) == Frame(b) + Image([]);
    assert Image([a]) == Frame(a) + Image([]);
    var left := |Image(ms)|;
    assert Refilled(0, left, BUFFER) == 8_192;
    assert AfterRecord(8_192, 8_191, left, BUFFER) == 1;
    assert FirstShort([b], 1, BUFFER) == 0;
  }

  /** Removing version `v` of `g:a`, where `v` is 8173 bytes long. */
  const LONG := Remove(Key(Coords([103], [97]), seq(8_173, i => 49), [], None))

  lemma LongPayload()
    ensures |Encode(LONG)| == 8_183 && Storable(LONG.key.coords)
  {
    var vs := KeyValues(LONG.key);
    assert vs[1..][1..] == vs[2..] && vs[2..][1..] == vs[3..] && vs[3..][1..] == [];
    assert PutValues(vs[3..], []) == PutValue(vs[3], []);
    assert PutValues(vs[2..], []) == PutValue(vs[2], PutValues(vs[3..], []));
    assert PutValues(vs[1..], []) == PutValue(vs[1], PutValues(vs[2..], []));
    assert PutValues(vs, []) == PutValue(vs[0], PutValues(vs[1..], []));
    hide PutValues;
    hide PutValue;
    PayloadSize(vs[3], []);
    PayloadSize(vs[2], PutValues(vs[3..], []));
    PayloadSize(vs[1], PutValues(vs[2..], []));
    PayloadSize(vs[0], PutValues(vs[1..], []));
  }

  lemma PayloadSize(v: Value, tail: Bytes)
    requires Valid(v) && (v.Text? || v == Maybe(None))
    ensures v.Text? && |v.s| < 251 ==> |PutValue(v, tail)| == 1 + |v.s| + |tail|
    ensures v.Text? && 251 <= |v.s| < 65_536 ==> |PutValue(v, tail)| == 3 + |v.s| + |tail|
    ensures v.Maybe? ==> |PutValue(v, tail)| == 1 + |tail|
  {
  }

  /** With the concrete codec and the reader's own buffer: after `LONG` and then any mutation `b` have been appended, a
      recovering open of the intact journal cuts off `b`. */
  lemma StandardCodecLosesRecord(f: Files, base: Rows, b: Mutation)
    requires BaseRows(f) == Ok(base) && Loggable(b) && f.journal == Some(Header() + Image([LONG, b]))
    ensures codec.encode == Encode ==>
      && OpenBuffered(f, true, BUFFER).0 == WithJournal(f, Header() + Image([LONG]))
      && OpenBuffered(f, true, BUFFER).1 == Ok(Opened(Apply(base, LONG), 1, Some(8_201)))
      && Open(f, true) == (f, Ok(Opened(Apply(Apply(base, LONG), b), 2, None)))
  {
    hide OpenBuffered;
    hide Open;
    hide Apply;
    hide Encode;
    hide Image;
    if codec.encode == Encode {
      LongPayload();
      SecondRecordCut(f, base, LONG, b);
    }
  }
}
