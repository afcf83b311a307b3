/** Every state the index files pass through, byte by byte, in the order in which they pass through it. */
module DiskStates {
  import opened Bytes
  import opened Records
  import opened Framing
  import opened Mutations
  import opened IndexFiles
  import opened CrashSafety

  /** The journal grows by `bytes`, one at a time. */
  function Growing(f: Files, bytes: Bytes): (states: seq<Files>)
    ensures |states| == |bytes| + 1
  {
    seq(|bytes| + 1, k requires 0 <= k <= |bytes| => WithJournal(f, JournalBytes(f) + bytes[..k]))
  }

  /** The header is written in its three parts. */
  function HeaderStates(f: Files): seq<Files> {
    var a, b := MAGIC, MAGIC + Le(VERSION, 4);
    Growing(f, a) + Growing(WithJournal(f, a), Le(VERSION, 4)) + Growing(WithJournal(f, b), [0, 0])
  }

  function TmpStates(f: Files, bytes: Bytes): (states: seq<Files>)
    ensures |states| == |bytes| + 1
  {
    seq(|bytes| + 1, k requires 0 <= k <= |bytes| => f.(tmp := Some(bytes[..k])))
  }

  function SnapshotStates(f: Files, rows: Rows): seq<Files> {
    TmpStates(f, SnapshotImage(rows)) + [f.(snapshot := Some(SnapshotImage(rows)), tmp := None)]
  }

  function TruncateStates(f: Files): seq<Files> { [WithJournal(f, [])] + HeaderStates(WithJournal(f, [])) }

  /** A snapshot is written and renamed; then, if the lock is granted, the journal is emptied and gets a new header. */
  function CompactStates(f: Files, rows: Rows, lock: bool): seq<Files> {
    SnapshotStates(f, rows) +
    if lock then TruncateStates(f.(snapshot := Some(SnapshotImage(rows)), tmp := None)) else []
  }

  /** A file cut, or extended with zeros, to `n` bytes. */
  function Resized(s: Bytes, n: nat): Bytes { if n <= |s| then s[..n] else s + seq(n - |s|, i => 0) }

  /** The journal is created if missing and gets a header if empty. */
  function JournalOpenStates(f: Files, lock: bool): seq<Files> {
    [WithJournal(f, JournalBytes(f))]
    + if lock && JournalBytes(f) == [] then HeaderStates(WithJournal(f, [])) else []
  }

  /** Opening the index: nothing is touched if the snapshot is bad; the journal is cut at `cut` if there is a cut. */
  function OpenStates(f: Files, lock: bool, cut: Option<nat>): seq<Files> {
    if BaseRows(f).Err? then [] else
    JournalOpenStates(f, lock)
    + if cut.Some? then [WithJournal(f, Resized(JournalAfterOpen(f), cut.value))] else []
  }

  // ---- the lists and the predicates agree ----

  lemma GrowingIsTornAppend(f: Files, bytes: Bytes, s: Files)
    requires f.journal.Some?
    ensures s in Growing(f, bytes) <==> TornAppend(f, bytes, s)
  {
    var j := f.journal.value;
    if TornAppend(f, bytes, s) {
      var k := |s.journal.value| - |j|;
      assert s.journal.value == (j + bytes)[..|j| + k] == j + bytes[..k];
      assert Growing(f, bytes)[k] == s;
    }
    if s in Growing(f, bytes) {
      var k :| 0 <= k <= |bytes| && s == Growing(f, bytes)[k];
      assert j + bytes[..k] <= j + bytes;
    }
  }

  lemma PartsOfAppend(f: Files, a: Bytes, b: Bytes, s: Files)
    requires f.journal.Some?
    ensures TornAppend(f, a + b, s) <==>
      TornAppend(f, a, s) || TornAppend(WithJournal(f, f.journal.value + a), b, s)
  {
    var j := f.journal.value;
    assert j + (a + b) == (j + a) + b;
    if TornAppend(f, a + b, s) {
      if |s.journal.value| <= |j + a| {
        assert s.journal.value <= j + a;
      } else {
        assert j + a <= s.journal.value;
      }
    }
  }

  lemma HeaderStatesAreTorn(f: Files, s: Files)
    requires f.journal == Some([])
    ensures s in HeaderStates(f) <==> TornAppend(f, Header(), s)
  {
    hide Growing;
    hide TornAppend;
    var a, v, z := MAGIC, Le(VERSION, 4), [0, 0];
    assert [] + a == a && [] + (a + v) == a + v;
    PartsOfAppend(f, a, v, s);
    PartsOfAppend(f, a + v, z, s);
    GrowingIsTornAppend(f, a, s);
    GrowingIsTornAppend(WithJournal(f, a), v, s);
    GrowingIsTornAppend(WithJournal(f, a + v), z, s);
  }

  lemma TmpStatesAre(f: Files, bytes: Bytes, s: Files)
    ensures s in TmpStates(f, bytes) <==> s.tmp.Some? && s == f.(tmp := s.tmp) && s.tmp.value <= bytes
  {
    if s.tmp.Some? && s == f.(tmp := s.tmp) && s.tmp.value <= bytes {
      assert bytes[..|s.tmp.value|] == s.tmp.value;
      assert TmpStates(f, bytes)[|s.tmp.value|] == s;
    }
  }

  /** The states of a compaction are exactly those that the crash theorem covers. */
  lemma CompactStatesAreCrashes(f: Files, rows: Rows, s: Files)
    requires f.journal.Some?
    ensures CompactCrash(f, rows, s) <==> s == f || s in CompactStates(f, rows, true)
    ensures s in CompactStates(f, rows, false) ==> CompactCrash(f, rows, s)
  {
    hide SnapshotImage;
    hide HeaderStates;
    hide TmpStates;
    var f1 := f.(snapshot := Some(SnapshotImage(rows)), tmp := None);
    TmpStatesAre(f, SnapshotImage(rows), s);
    HeaderStatesAreTorn(WithJournal(f1, []), s);
    assert [] + Header() == Header();
    assert s in TruncateStates(f1) <==>
      s.journal.Some? && s.journal.value <= Header() && s == f1.(journal := s.journal);
  }

  /** The states of a recovering open that succeeds are exactly those that the crash theorem covers. */
  lemma OpenStatesAreCrashes(f: Files, s: Files)
    requires Open(f, true).1.Ok?
    ensures OpenCrash(f, s) <==> s == f || s in OpenStates(f, true, Open(f, true).1.value.truncatedAt)
  {
    hide Scan;
    hide Replay;
    hide HeaderStates;
    hide LoadSnapshot;
    hide HeaderFault;
    HeaderStatesAreTorn(WithJournal(f, []), s);
    assert [] + Header() == Header();
    OpenedStatesEnd(f);
  }

  lemma OpenedStatesEnd(f: Files)
    requires Open(f, true).1.Ok?
    ensures var (g, r) := Open(f, true);
      g == WithJournal(f, match r.value.truncatedAt case None => JournalAfterOpen(f)
                                                    case Some(n) => Resized(JournalAfterOpen(f), n))
  {
  }

  /** An open that is refused, strict or recovering, passes through no state but the one it found. */
  lemma RefusedOpenStates(f: Files, recover: bool)
    requires Open(f, recover).1.Err?
    ensures Open(f, recover).0 == f && forall s <- OpenStates(f, true, None) :: s == f
  {
    HeaderAccepted([]);
    assert Header() + [] == Header();
  }
}
