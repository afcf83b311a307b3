/** What a later open finds after a crash in the middle of a write. */
module CrashSafety {
  import opened Bytes
  import opened Records
  import opened Codec
  import opened KeyOrder
  import opened Framing
  import opened Mutations
  import opened IndexFiles

  lemma SnapshotRoundTrip(rows: Rows)
    ensures LoadSnapshot(SnapshotImage(rows)) == if StorableKeys(rows) then Ok(rows) else Err(SnapshotMalformed)
  {
    var rs := SortedRows(rows);
    HeaderAccepted(codec.encodeRows(rs));
    assert SnapshotImage(rows)[HEADER_LEN..] == codec.encodeRows(rs);
    FromSortedRows(rows);
    SortedRowsList(rows);
    if StorableKeys(rows) {
      assert StorableRows(rs);
    } else {
      var k :| k in rows && !Storable(k.coords);
      assert Row(k, rows[k]) in rs && !StorableRow(Row(k, rows[k]));
    }
  }

  // ---- a torn tail ----

  lemma CutJournal(ms: seq<Mutation>, n: nat)
    requires AllLoggable(ms) && n <= |Image(ms)|
    ensures var kept := ms[..Whole(ms, n)];
      var j := (Header() + Image(ms))[..HEADER_LEN + n];
      var end := HEADER_LEN + |Image(kept)|;
      && HeaderFault(j) == None && end <= |j| && j[..end] == Header() + Image(kept)
      && Scan(j[HEADER_LEN..], HEADER_LEN) == Scanned(kept, end, if |j| == end then None else Some(Truncated))
  {
    hide Scan;
    hide Image;
    hide Frame;
    hide HeaderFault;
    hide Whole;
    var j := (Header() + Image(ms))[..HEADER_LEN + n];
    assert j == Header() + Image(ms)[..n];
    assert j[HEADER_LEN..] == Image(ms)[..n];
    HeaderAccepted(Image(ms)[..n]);
    ScanCut(ms, n, HEADER_LEN);
    CutSplits(ms, n);
    var kept := ms[..Whole(ms, n)];
    assert j[..HEADER_LEN + |Image(kept)|] == Header() + Image(kept);
  }

  /** Cut a journal of loggable mutations at any byte at or past its header. A recovering open keeps exactly the
      mutations wholly before the cut, ends the file there, and reports truncation iff the cut missed a boundary. A
      strict open then agrees; a strict open before refuses iff the cut missed a boundary. */
  lemma TornTailIsExact(f: Files, base: Rows, ms: seq<Mutation>, cut: nat)
    requires BaseRows(f) == Ok(base) && AllLoggable(ms)
    requires HEADER_LEN <= cut <= HEADER_LEN + |Image(ms)|
    requires f.journal == Some((Header() + Image(ms))[..cut])
    ensures var kept := ms[..Whole(ms, cut - HEADER_LEN)];
      var clean := f.(journal := Some(Header() + Image(kept)));
      var end := HEADER_LEN + |Image(kept)|;
      var rows := Replay(base, kept);
      && Open(f, true) == (clean, Ok(Opened(rows, |kept|, if cut == end then None else Some(end))))
      && Agree(clean, rows, |kept|)
      && Open(f, false) == if cut == end then (clean, Ok(Opened(rows, |kept|, None))) else (f, Err(Truncated))
  {
    hide Scan;
    hide Image;
    hide Whole;
    var j := f.journal.value;
    CutJournal(ms, cut - HEADER_LEN);
    var r := Scan(j[HEADER_LEN..], HEADER_LEN);
    assert JournalAfterOpen(f) == j;
    if r.good == cut {
      assert j[..cut] == j;
    }
    RecoverThenStrict(f);
  }

  // ---- a record that went bad ----

  /** A record as it stands in the file, whatever its payload and checksum. */
  function RawRecord(payload: Bytes, crc: Bytes): Bytes { Le(|payload|, 4) + payload + crc }

  lemma ReadRaw(payload: Bytes, crc: Bytes, rest: Bytes, pos: nat)
    requires |payload| < 0x1_0000_0000 && |crc| == 4
    ensures ReadOne(RawRecord(payload, crc) + rest, pos)
         == if UnLe(crc) != Crc32(payload) then Fault(BadChecksum(pos))
            else match codec.decode(payload)
                 case None => Garbled(Undecodable(pos + 4), 8 + |payload|)
                 case Some(m) => Record(m, 8 + |payload|)
  {
    var s, n := RawRecord(payload, crc) + rest, |payload|;
    Pow256Values();
    LeRoundTrip(n, 4);
    assert s[..4] == Le(n, 4) && s[4..4 + n] == payload && s[4 + n..8 + n] == crc;
  }

  /**
    * A log followed by a record whose payload or checksum was damaged, and by anything else. If the checksum no longer
    * fits, a recovering open keeps exactly the log and cuts the file there, and a strict one names the offset. If it
    * fits a payload that does not decode, no open succeeds.
    */
  lemma DamagedRecord(f: Files, base: Rows, ms: seq<Mutation>, payload: Bytes, crc: Bytes, rest: Bytes)
    requires BaseRows(f) == Ok(base) && AllLoggable(ms) && |payload| < 0x1_0000_0000 && |crc| == 4
    requires f.journal == Some(Header() + (Image(ms) + (RawRecord(payload, crc) + rest)))
    ensures var end := HEADER_LEN + |Image(ms)|;
      && (UnLe(crc) != Crc32(payload) ==>
            && Open(f, true) == (f.(journal := Some(Header() + Image(ms))),
                                 Ok(Opened(Replay(base, ms), |ms|, Some(end))))
            && Open(f, false) == (f, Err(BadChecksum(end))))
      && (UnLe(crc) == Crc32(payload) && codec.decode(payload).None? ==>
            forall recover :: Open(f, recover) == (f, Err(Undecodable(end + 4))))
  {
    hide Replay;
    hide Image;
    hide ReadOne;
    hide Scan;
    hide RawRecord;
    hide Open;
    hide Header;
    var bad, end := RawRecord(payload, crc) + rest, HEADER_LEN + |Image(ms)|;
    OpenWithTail(f, base, ms, bad, true);
    OpenWithTail(f, base, ms, bad, false);
    ReadRaw(payload, crc, rest, end);
    ScanStops(bad, end);
    assert ms + [] == ms;
  }

  /** Opening a log and what follows it: the log's rows, and what the rest scans to. */
  lemma OpenWithTail(f: Files, base: Rows, ms: seq<Mutation>, tail: Bytes, recover: bool)
    requires BaseRows(f) == Ok(base) && AllLoggable(ms)
    requires f.journal == Some(Header() + (Image(ms) + tail))
    ensures var end := HEADER_LEN + |Image(ms)|;
      var r := Scan(tail, end);
      && (r.fault.Some? && r.mutations == [] && Recoverable(r.fault.value) && recover && r.good == end ==>
            Open(f, recover) == (f.(journal := Some(Header() + Image(ms))),
                                 Ok(Opened(Replay(base, ms), |ms|, Some(end)))))
      && (r.fault.Some? && !(Recoverable(r.fault.value) && recover) ==> Open(f, recover) == (f, Err(r.fault.value)))
  {
    hide Replay;
    hide Image;
    hide Scan;
    hide BaseRows;
    hide HeaderFault;
    var j, end := Header() + (Image(ms) + tail), HEADER_LEN + |Image(ms)|;
    HeaderAccepted(Image(ms) + tail);
    TailParts(Image(ms), tail);
    hide Header;
    ScanImage(ms, tail, HEADER_LEN);
    assert ms + [] == ms;
  }

  lemma TailParts(image: Bytes, tail: Bytes)
    ensures var j, end := Header() + (image + tail), HEADER_LEN + |image|;
      j[HEADER_LEN..] == image + tail && j[..end] == Header() + image && j != []
  {
    hide Header;
  }

  lemma ScanStops(s: Bytes, pos: nat)
    ensures ReadOne(s, pos).Fault? ==> Scan(s, pos) == Scanned([], pos, Some(ReadOne(s, pos).error))
    ensures ReadOne(s, pos).Garbled? ==>
      Scan(s, pos) == Scanned([], pos + ReadOne(s, pos).size, Some(ReadOne(s, pos).error))
  {
  }

  // ---- a crash while appending ----

  /** The journal has grown by some prefix of `bytes`. */
  predicate TornAppend(f: Files, bytes: Bytes, s: Files) {
    && f.journal.Some? && s.journal.Some? && s == f.(journal := s.journal)
    && f.journal.value <= s.journal.value <= f.journal.value + bytes
  }

  lemma ScanTornFrame(m: Mutation, k: nat, pos: nat)
    requires Fits(m) && 0 < k < |Frame(m)|
    ensures Scan(Frame(m)[..k], pos) == Scanned([], pos, Some(Truncated))
  {
    ReadTorn(m, k, pos);
  }

  lemma ScanLastFrame(m: Mutation, pos: nat)
    requires Fits(m)
    ensures Scan(Frame(m), pos) ==
      if Storable(m.key.coords) then Scanned([m], pos + |Frame(m)|, None)
      else Scanned([], pos + |Frame(m)|, Some(Undecodable(pos + 4)))
  {
    ReadFrame(m, [], pos);
    assert Frame(m) + [] == Frame(m);
  }

  lemma HeaderKept(j: Bytes, x: Bytes)
    requires HeaderFault(j) == None
    ensures HeaderFault(j + x) == None && (j + x)[HEADER_LEN..] == j[HEADER_LEN..] + x
  {
    assert (j + x)[..4] == j[..4] && (j + x)[4..8] == j[4..8];
  }

  /** How an open sees the journal after some more bytes have been appended to agreeing files. */
  lemma OpenAfterAppend(f: Files, rows: Rows, count: nat, x: Bytes)
    requires Agree(f, rows, count)
    ensures f.journal.Some?
    ensures var j := f.journal.value; var g := f.(journal := Some(j + x));
      && BaseRows(g) == BaseRows(f) && BaseRows(f).Ok?
      && HeaderFault(j) == None && HeaderFault(j + x) == None
      && Scan((j + x)[HEADER_LEN..], HEADER_LEN) ==
           Prepend(Scan(j[HEADER_LEN..], HEADER_LEN).mutations, Scan(x, |j|))
      && rows == Replay(BaseRows(f).value, Scan(j[HEADER_LEN..], HEADER_LEN).mutations)
      && count == |Scan(j[HEADER_LEN..], HEADER_LEN).mutations|
  {
    hide Scan;
    hide Replay;
    hide HeaderFault;
    hide LoadSnapshot;
    var j := f.journal.value;
    NoFaultLongEnough(j);
    HeaderKept(j, x);
    ScanExtends(j[HEADER_LEN..], x, HEADER_LEN);
  }

  lemma CompletedAppend(f: Files, rows: Rows, count: nat, m: Mutation)
    requires Agree(f, rows, count) && Loggable(m)
    ensures f.journal.Some?
    ensures Agree(f.(journal := Some(f.journal.value + Frame(m))), Apply(rows, m), count + 1)
  {
    hide Scan;
    hide Frame;
    var j := f.journal.value;
    OpenAfterAppend(f, rows, count, Frame(m));
    ScanLastFrame(m, |j|);
    ReplayOneMore(BaseRows(f).value, Scan(j[HEADER_LEN..], HEADER_LEN).mutations, m);
  }

  lemma InterruptedAppend(f: Files, rows: Rows, count: nat, m: Mutation, k: nat)
    requires Agree(f, rows, count) && Fits(m) && 0 < k < |Frame(m)|
    ensures f.journal.Some?
    ensures var s := f.(journal := Some(f.journal.value + Frame(m)[..k]));
      && Open(s, true) == (f, Ok(Opened(rows, count, Some(|f.journal.value|))))
      && Open(s, false) == (s, Err(Truncated))
  {
    var j := f.journal.value;
    var x := Frame(m)[..k];
    OpenAfterAppend(f, rows, count, x);
    ScanTornFrame(m, k, |j|);
    var seen := Scan(j[HEADER_LEN..], HEADER_LEN).mutations;
    assert seen + [] == seen;
    assert (j + x)[..|j|] == j;
  }

  /** A crash at any byte of an append: a recovering open finds the old rows in the old files, or, only once the whole
      record is there, the new rows. */
  lemma AppendCrashSafe(f: Files, rows: Rows, count: nat, m: Mutation, s: Files)
    requires Agree(f, rows, count) && Loggable(m) && TornAppend(f, Frame(m), s)
    ensures if s.journal.value == f.journal.value + Frame(m) then Agree(s, Apply(rows, m), count + 1)
            else Open(s, true).0 == f && Open(s, true).1.Ok? && Open(s, true).1.value.rows == rows
  {
    var j := f.journal.value;
    var k := |s.journal.value| - |j|;
    assert s.journal.value == j + Frame(m)[..k];
    if k == |Frame(m)| {
      CompletedAppend(f, rows, count, m);
    } else if k > 0 {
      InterruptedAppend(f, rows, count, m, k);
    } else {
      assert s.journal.value == j;
      StrictOpenAgrees(f);
    }
  }

  /** A mutation with unstorable coordinates is accepted by the journal and from then on no open succeeds. */
  lemma UnstorableBlocksOpen(f: Files, rows: Rows, count: nat, m: Mutation, recover: bool)
    requires Agree(f, rows, count) && Fits(m) && !Storable(m.key.coords)
    ensures f.journal.Some?
    ensures var s := f.(journal := Some(f.journal.value + Frame(m)));
      Open(s, recover) == (s, Err(Undecodable(|f.journal.value| + 4)))
  {
    OpenAfterAppend(f, rows, count, Frame(m));
    ScanLastFrame(m, |f.journal.value|);
  }

  // ---- a crash while compacting ----

  /** Every state the disk goes through while compacting `rows` from files `f`. */
  predicate CompactCrash(f: Files, rows: Rows, s: Files) {
    var image := SnapshotImage(rows);
    || s == f
    || (s.tmp.Some? && s == f.(tmp := s.tmp) && s.tmp.value <= image)
    || s == f.(snapshot := Some(image), tmp := None)
    || (s.journal.Some? && s.journal.value <= Header()
        && s == f.(snapshot := Some(image), tmp := None, journal := s.journal))
  }

  function Compacted(f: Files, rows: Rows): Files {
    f.(snapshot := Some(SnapshotImage(rows)), tmp := None, journal := Some(Header()))
  }

  lemma CompactedAgrees(f: Files, rows: Rows)
    requires StorableKeys(rows)
    ensures Agree(Compacted(f, rows), rows, 0)
  {
    SnapshotRoundTrip(rows);
    assert Header() + [] == Header();
    HeaderAccepted([]);
  }

  /** The new snapshot with the old journal still beside it. */
  lemma NewSnapshotOldJournal(f: Files, rows: Rows, count: nat)
    requires Agree(f, rows, count)
    ensures Agree(f.(snapshot := Some(SnapshotImage(rows)), tmp := None), rows, count)
  {
    OpenedRowsStorable(f, false);
    SnapshotRoundTrip(rows);
    ReplayIdempotent(BaseRows(f).value, Scan(f.journal.value[HEADER_LEN..], HEADER_LEN).mutations);
  }

  /** For every prior snapshot and journal: a crash anywhere in a compaction leaves files from which an open, strict or
      recovering, rebuilds exactly the rows from before, or refuses because 1 to 9 bytes of a header are there. */
  lemma CompactCrashSafe(f: Files, rows: Rows, count: nat, s: Files, recover: bool)
    requires Agree(f, rows, count) && CompactCrash(f, rows, s)
    ensures var (_, r) := Open(s, recover);
      if s.journal.Some? && 0 < |s.journal.value| < HEADER_LEN then r == Err(ShortHeader)
      else r.Ok? && r.value.rows == rows
  {
    var f1 := f.(snapshot := Some(SnapshotImage(rows)), tmp := None);
    if s == f || s == f.(tmp := s.tmp) {
      OldFilesOpen(f, rows, count, s, recover);
    } else if s == f1 {
      NewSnapshotOldJournal(f, rows, count);
      OldFilesOpen(f1, rows, count, s, recover);
    } else {
      OpenedRowsStorable(f, false);
      NewHeaderOpens(f, rows, s, recover);
    }
  }

  /** A temporary snapshot beside agreeing files does not matter. */
  lemma OldFilesOpen(f: Files, rows: Rows, count: nat, s: Files, recover: bool)
    requires Agree(f, rows, count) && s == f.(tmp := s.tmp)
    ensures Open(s, recover).1.Ok? && Open(s, recover).1.value.rows == rows
    ensures s.journal.Some? && |s.journal.value| >= HEADER_LEN
  {
    hide Scan;
    hide Replay;
    hide LoadSnapshot;
    StrictOpenAgrees(f);
    NoFaultLongEnough(f.journal.value);
  }

  /** The new snapshot beside part of a new header. */
  lemma NewHeaderOpens(f: Files, rows: Rows, s: Files, recover: bool)
    requires StorableKeys(rows) && s.journal.Some? && s.journal.value <= Header()
    requires s == f.(snapshot := Some(SnapshotImage(rows)), tmp := None, journal := s.journal)
    ensures var (_, r) := Open(s, recover);
      if 0 < |s.journal.value| < HEADER_LEN then r == Err(ShortHeader) else r.Ok? && r.value.rows == rows
  {
    hide Scan;
    hide Replay;
    hide LoadSnapshot;
    hide SnapshotImage;
    SnapshotRoundTrip(rows);
    CompactedAgrees(f, rows);
    StrictOpenAgrees(Compacted(f, rows));
    if |s.journal.value| >= HEADER_LEN {
      assert s.journal.value == Header();
    }
  }

  // ---- a crash while opening ----

  /** Every state the disk goes through while a recovering open writes a missing header or cuts off a torn tail. */
  predicate OpenCrash(f: Files, s: Files) {
    || s == f
    || (f.journal in {None, Some([])} && s.journal.Some? && s.journal.value <= Header()
        && s == f.(journal := s.journal))
    || s == Open(f, true).0
  }

  /** For arbitrary bytes on disk: an open that would succeed can be stopped anywhere, and the next one still rebuilds
      the same rows, or refuses because 1 to 9 bytes of a header are there. */
  lemma OpenCrashSafe(f: Files, s: Files)
    requires Open(f, true).1.Ok? && OpenCrash(f, s)
    ensures var (_, r) := Open(s, true);
      if s.journal.Some? && 0 < |s.journal.value| < HEADER_LEN then r == Err(ShortHeader)
      else r.Ok? && r.value.rows == Open(f, true).1.value.rows && r.value.count == Open(f, true).1.value.count
  {
    hide Scan;
    hide Replay;
    hide LoadSnapshot;
    RecoverThenStrict(f);
    StrictOpenAgrees(Open(f, true).0);
    if s.journal.Some? && s.journal.value <= Header() && |s.journal.value| >= HEADER_LEN {
      assert s.journal.value == Header();
    }
  }
}
