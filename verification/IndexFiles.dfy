/** The files behind the index, and what opening them rebuilds. */
module IndexFiles {
  import opened Bytes
  import opened Records
  import opened Codec
  import opened KeyOrder
  import opened Framing
  import opened Mutations

  datatype Files = Files(snapshot: Option<Bytes>, tmp: Option<Bytes>, journal: Option<Bytes>)

  datatype Opened = Opened(rows: Rows, count: nat, truncatedAt: Option<nat>)

  function SnapshotImage(rows: Rows): Bytes { Header() + codec.encodeRows(SortedRows(rows)) }

  function LoadSnapshot(file: Bytes): Result<Rows> {
    if HeaderFault(file).Some? then Err(HeaderFault(file).value) else
    match codec.decodeRows(file[HEADER_LEN..])
    case None => Err(SnapshotMalformed)
    case Some(rs) => Ok(FromRows(rs))
  }

  function BaseRows(f: Files): Result<Rows> {
    if f.snapshot.None? then Ok(map[]) else LoadSnapshot(f.snapshot.value)
  }

  predicate Recoverable(e: Error) { e.Truncated? || e.BadChecksum? }

  /** Opening the journal writes a header into a missing or empty file and leaves any other file alone. */
  function JournalAfterOpen(f: Files): Bytes {
    if f.journal.None? || f.journal.value == [] then Header() else f.journal.value
  }

  function WithJournal(f: Files, bytes: Bytes): Files { f.(journal := Some(bytes)) }

  /** The journal's bytes, none if the file is missing. */
  function JournalBytes(f: Files): Bytes { if f.journal.Some? then f.journal.value else [] }

  /** What becomes of a journal `j` once its records have been scanned. */
  function Finish(f: Files, j: Bytes, base: Rows, r: Scanned, recover: bool): (Files, Result<Opened>)
    requires r.good <= |j|
  {
    var rows := Replay(base, r.mutations);
    match r.fault
    case None => (WithJournal(f, j), Ok(Opened(rows, |r.mutations|, None)))
    case Some(e) =>
      if recover && Recoverable(e)
      then (WithJournal(f, j[..r.good]), Ok(Opened(rows, |r.mutations|, Some(r.good))))
      else (WithJournal(f, j), Err(e))
  }

  /** Opening the index: the files afterwards, and the rebuilt index or the reason for refusing. */
  function Open(f: Files, recover: bool): (Files, Result<Opened>) {
    match BaseRows(f)
    case Err(e) => (f, Err(e))
    case Ok(base) =>
      var j := JournalAfterOpen(f);
      if HeaderFault(j).Some? then (WithJournal(f, j), Err(HeaderFault(j).value))
      else Finish(f, j, base, Scan(j[HEADER_LEN..], HEADER_LEN), recover)
  }

  /** Memory and disk agree: a strict open would change nothing and rebuild exactly these rows and this count. */
  predicate Agree(f: Files, rows: Rows, count: nat) {
    Open(f, false) == (f, Ok(Opened(rows, count, None)))
  }

  /** The files an open can get past: the snapshot, if there is one, starts right, and the journal is missing, empty or
      starts right. */
  predicate FilesStartRight(f: Files) {
    && (f.snapshot.Some? ==> StartsRight(f.snapshot.value))
    && (f.journal.None? || f.journal.value == [] || StartsRight(f.journal.value))
  }

  lemma OpensFormat(f: Files)
    requires BaseRows(f).Ok? && HeaderFault(JournalAfterOpen(f)).None?
    ensures FilesStartRight(f)
  {
    if f.snapshot.Some? {
      HeaderFaultMeans(f.snapshot.value, 0);
    }
    HeaderFaultMeans(JournalAfterOpen(f), 0);
    hide StartsRight;
    hide HeaderFault;
  }

  /** For arbitrary files, strict or recovering: an open succeeds only on files of this format and version. */
  lemma OpenOnlyFormat(f: Files, recover: bool)
    requires Open(f, recover).1.Ok?
    ensures FilesStartRight(f)
  {
    hide Scan;
    hide Replay;
    OpensFormat(f);
  }

  // ---- scanning a longer or a shorter file ----

  lemma ReadOneExtends(s: Bytes, t: Bytes, pos: nat)
    requires ReadOne(s, pos).Record? || ReadOne(s, pos).Garbled?
    ensures ReadOne(s + t, pos) == ReadOne(s, pos)
  {
    var n := UnLe(s[..4]);
    assert (s + t)[..4] == s[..4];
    assert (s + t)[4..4 + n] == s[4..4 + n];
    assert (s + t)[4 + n..8 + n] == s[4 + n..8 + n];
  }

  lemma ScanStep(s: Bytes, pos: nat, m: Mutation, n: nat)
    requires ReadOne(s, pos) == Record(m, n)
    ensures Scan(s, pos) == Prepend([m], Scan(s[n..], pos + n))
  {
  }

  lemma {:induction false} ScanReachesEnd(s: Bytes, pos: nat)
    requires Scan(s, pos).fault == None
    ensures Scan(s, pos).good == pos + |s|
    decreases |s|
  {
    if s != [] {
      var r := ReadOne(s, pos);
      ScanReachesEnd(s[r.size..], pos + r.size);
    }
  }

  lemma {:induction false} ScanExtends(s: Bytes, t: Bytes, pos: nat)
    requires Scan(s, pos).fault == None
    ensures Scan(s + t, pos) == Prepend(Scan(s, pos).mutations, Scan(t, pos + |s|))
    decreases |s|
  {
    hide ReadOne;
    var last := Scan(t, pos + |s|);
    if s == [] {
      assert s + t == t && [] + last.mutations == last.mutations;
    } else {
      var Record(m, n) := ReadOne(s, pos);
      var rest := s[n..];
      assert Scan(s + t, pos) == Prepend([m], Scan(rest + t, pos + n)) by {
        ReadOneExtends(s, t, pos);
        ScanStep(s + t, pos, m, n);
        assert (s + t)[n..] == rest + t;
      }
      ScanStep(s, pos, m, n);
      ScanExtends(rest, t, pos + n);
      PrependTwice([m], Scan(rest, pos + n).mutations, last);
    }
  }

  lemma ReadOneShrinks(s: Bytes, n: nat, pos: nat)
    requires ReadOne(s, pos).Record? && ReadOne(s, pos).size <= n <= |s|
    ensures ReadOne(s[..n], pos) == ReadOne(s, pos)
  {
    var t, k := s[..n], UnLe(s[..4]);
    assert t[..4] == s[..4];
    assert t[4..4 + k] == s[4..4 + k];
    assert t[4 + k..8 + k] == s[4 + k..8 + k];
  }

  /** Whatever the bytes are, cutting at the last good offset leaves the same mutations and no fault. */
  lemma {:induction false} ScanGoodPart(s: Bytes, pos: nat)
    requires var e := Scan(s, pos).fault; e.None? || Recoverable(e.value)
    ensures var r := Scan(s, pos); Scan(s[..r.good - pos], pos) == Scanned(r.mutations, r.good, None)
    decreases |s|
  {
    hide ReadOne;
    if ReadOne(s, pos).Record? {
      var Record(m, n) := ReadOne(s, pos);
      ScanStep(s, pos, m, n);
      ScanGoodPart(s[n..], pos + n);
      var r := Scan(s[n..], pos + n);
      GoodPartStep(s, pos, m, n, r.good - (pos + n), Scanned(r.mutations, r.good, None));
    } else {
      assert s[..0] == [];
    }
  }

  lemma GoodPartStep(s: Bytes, pos: nat, m: Mutation, n: nat, k: nat, r: Scanned)
    requires ReadOne(s, pos) == Record(m, n) && n + k <= |s|
    requires Scan(s[n..][..k], pos + n) == r
    ensures Scan(s[..n + k], pos) == Prepend([m], r)
  {
    hide Scan;
    hide ReadOne;
    ReadOneShrinks(s, n + k, pos);
    ScanStep(s[..n + k], pos, m, n);
    SliceSlice(s, n, k);
  }

  lemma SliceSlice(s: Bytes, n: nat, k: nat)
    requires n + k <= |s|
    ensures s[..n + k][n..] == s[n..][..k]
  {
  }

  lemma {:induction false} ScannedStorable(s: Bytes, pos: nat)
    ensures forall m <- Scan(s, pos).mutations :: Storable(m.key.coords)
    decreases |s|
  {
    var r := ReadOne(s, pos);
    if r.Record? {
      ScannedStorable(s[r.size..], pos + r.size);
    }
  }

  // ---- opening twice ----

  /** For arbitrary bytes on disk: whatever a recovering open accepts, a strict open accepts afterwards, with the same
      rows and count and without touching the files again. */
  lemma RecoverThenStrict(f: Files)
    ensures var (g, r) := Open(f, true);
      r.Ok? ==> Agree(g, r.value.rows, r.value.count)
  {
    hide Scan;
    hide Replay;
    hide HeaderFault;
    hide LoadSnapshot;
    var (g, r) := Open(f, true);
    if r.Ok? {
      NoFaultLongEnough(JournalAfterOpen(f));
      CutJournalScans(JournalAfterOpen(f));
    }
  }

  lemma NoFaultLongEnough(j: Bytes)
    requires HeaderFault(j).None?
    ensures HEADER_LEN <= |j|
  {
  }

  lemma CutJournalScans(j: Bytes)
    requires HEADER_LEN <= |j| && HeaderFault(j).None?
    requires var e := Scan(j[HEADER_LEN..], HEADER_LEN).fault; e.None? || Recoverable(e.value)
    ensures var r := Scan(j[HEADER_LEN..], HEADER_LEN);
      && HEADER_LEN <= r.good <= |j| && HeaderFault(j[..r.good]).None?
      && Scan(j[..r.good][HEADER_LEN..], HEADER_LEN) == Scanned(r.mutations, r.good, None)
      && (r.fault == None ==> j[..r.good] == j)
  {
    hide Scan;
    hide HeaderFault;
    var body := j[HEADER_LEN..];
    ScanGoodPart(body, HEADER_LEN);
    if Scan(body, HEADER_LEN).fault == None {
      ScanReachesEnd(body, HEADER_LEN);
    }
    var good := Scan(body, HEADER_LEN).good;
    SliceSlice(j, HEADER_LEN, good - HEADER_LEN);
    HeaderStays(j, good);
  }

  lemma HeaderStays(j: Bytes, n: nat)
    requires HEADER_LEN <= n <= |j|
    ensures HeaderFault(j[..n]) == HeaderFault(j)
  {
    assert j[..n][..4] == j[..4] && j[..n][4..8] == j[4..8];
  }

  /** A strict open that succeeds agrees with what it found, and a recovering open would have done the same. */
  lemma StrictOpenAgrees(f: Files)
    ensures var (g, r) := Open(f, false);
      r.Ok? ==> Open(f, true) == (g, r) && r.value.truncatedAt == None && Agree(g, r.value.rows, r.value.count)
  {
  }

  lemma OpenedRowsStorable(f: Files, recover: bool)
    ensures var r := Open(f, recover).1; r.Ok? ==> StorableKeys(r.value.rows)
  {
    var base := BaseRows(f);
    if base.Ok? {
      if f.snapshot.Some? {
        FromRowsKeys(codec.decodeRows(f.snapshot.value[HEADER_LEN..]).value);
      }
      assert StorableKeys(base.value);
      var j := JournalAfterOpen(f);
      if |j| >= HEADER_LEN {
        ScannedStorable(j[HEADER_LEN..], HEADER_LEN);
        ReplayStorable(base.value, Scan(j[HEADER_LEN..], HEADER_LEN).mutations);
      }
    }
  }
}
