/** The journal as a file that is appended and truncated in place, and its record iterator. */
module JournalFile {
  import opened Bytes
  import opened Records
  import opened Codec
  import opened Framing
  import opened IndexFiles
  import opened DiskStates
  import opened BufferedReader
  import opened BlobStore
  import opened Disks

  class Journal {
    const disk: Disk

    constructor (disk: Disk)
      ensures this.disk == disk
    {
      this.disk := disk;
    }

    method WriteHeader()
      requires disk.Valid() && disk.files.journal == Some([])
      modifies disk`files, disk`trace
      ensures disk.Valid() && disk.files == WithJournal(old(disk.files), Header())
      ensures disk.trace == old(disk.trace) + Along(disk.fs, HeaderStates(old(disk.files)))
    {
      hide Growing;
      hide Along;
      ghost var f := disk.files;
      disk.AppendJournal(MAGIC);
      assert [] + MAGIC == MAGIC;
      disk.AppendJournal(Le(VERSION, 4));
      disk.AppendJournal([0, 0]);
      ThreeParts(disk.fs, Growing(f, MAGIC), Growing(WithJournal(f, MAGIC), Le(VERSION, 4)),
                 Growing(WithJournal(f, MAGIC + Le(VERSION, 4)), [0, 0]), old(disk.trace));
    }

    /** Writes the header into a fresh or empty file, and checks it in any other. */
    method Open(lock: bool) returns (fault: Option<Error>)
      requires disk.Valid()
      modifies disk`files, disk`trace
      ensures disk.Valid() && disk.files.journal.Some?
      ensures fault == if lock then HeaderFault(JournalAfterOpen(old(disk.files))) else Some(LockTimeout)
      ensures lock ==> (fault.None? <==> StartsRight(disk.files.journal.value))
      ensures var f := old(disk.files);
        disk.files == WithJournal(f, if lock then JournalAfterOpen(f) else JournalBytes(f))
      ensures disk.trace == old(disk.trace) + Along(disk.fs, JournalOpenStates(old(disk.files), lock))
    {
      hide HeaderStates;
      hide Along;
      hide HeaderFault;
      ghost var f := disk.files;
      HeaderFaultMeans(JournalAfterOpen(f), 0);
      hide StartsRight;
      disk.CreateJournal();
      ghost var created := [WithJournal(f, JournalBytes(f))];
      assert created + [] == created;
      if !lock {
        return Some(LockTimeout);
      }
      if disk.files.journal.value == [] {
        WriteHeader();
        HeaderAccepted([]);
        assert Header() + [] == Header();
        fault := None;
        TwoParts(disk.fs, created, HeaderStates(WithJournal(f, [])), old(disk.trace));
      } else {
        fault := HeaderFault(disk.files.journal.value);
      }
    }

    /** Appends one record under the lock and returns the offset of its length prefix. */
    method Append(m: Mutation, lock: bool) returns (r: Result<nat>)
      requires disk.Valid() && disk.files.journal.Some?
      modifies disk`files, disk`trace
      ensures disk.Valid()
      ensures r == if !Fits(m) then Err(TooLong) else if !lock then Err(LockTimeout)
                   else Ok(|JournalBytes(old(disk.files))|)
      ensures r.Err? ==> disk.files == old(disk.files) && disk.trace == old(disk.trace)
      ensures r.Ok? ==> disk.files == WithJournal(old(disk.files), JournalBytes(old(disk.files)) + Frame(m))
      ensures r.Ok? ==> disk.trace == old(disk.trace) + Along(disk.fs, Growing(old(disk.files), Frame(m)))
    {
      var payload := codec.encode(m);
      if |payload| >= 0x1_0000_0000 {
        return Err(TooLong);
      }
      if !lock {
        return Err(LockTimeout);
      }
      var offset := |disk.files.journal.value|;
      disk.AppendJournal(Le(|payload|, 4) + payload + Le(Crc32(payload), 4));
      r := Ok(offset);
    }

    /** Sets the length, but never to less than the header. */
    method TruncateTo(offset: nat, lock: bool) returns (fault: Option<Error>)
      requires disk.Valid() && disk.files.journal.Some?
      modifies disk`files, disk`trace
      ensures disk.Valid()
      ensures fault == if lock then None else Some(LockTimeout)
      ensures !lock ==> disk.files == old(disk.files) && disk.trace == old(disk.trace)
      ensures lock ==> disk.trace == old(disk.trace) + Along(disk.fs, [disk.files])
      ensures var target := if offset < HEADER_LEN then HEADER_LEN else offset;
        lock ==> disk.files == WithJournal(old(disk.files), Resized(JournalBytes(old(disk.files)), target))
    {
      var target := if offset < HEADER_LEN then HEADER_LEN else offset;
      if !lock {
        return Some(LockTimeout);
      }
      disk.SetJournalLength(target);
      fault := None;
    }

    /** Back to a bare header: the file is emptied and the header written again. */
    method Truncate(lock: bool) returns (fault: Option<Error>)
      requires disk.Valid() && disk.files.journal.Some?
      modifies disk`files, disk`trace
      ensures disk.Valid()
      ensures fault == if lock then None else Some(LockTimeout)
      ensures !lock ==> disk.files == old(disk.files) && disk.trace == old(disk.trace)
      ensures lock ==> disk.files == WithJournal(old(disk.files), Header())
      ensures lock ==> disk.trace == old(disk.trace) + Along(disk.fs, TruncateStates(old(disk.files)))
    {
      hide HeaderStates;
      hide Along;
      if !lock {
        return Some(LockTimeout);
      }
      ghost var f := disk.files;
      disk.SetJournalLength(0);
      assert f.journal.value[..0] == [];
      WriteHeader();
      TwoParts(disk.fs, [WithJournal(f, [])], HeaderStates(WithJournal(f, [])), old(disk.trace));
      fault := None;
    }
  }

  lemma TwoParts(fs: Fs, a: seq<Files>, b: seq<Files>, trace: seq<Moment>)
    ensures trace + Along(fs, a) + Along(fs, b) == trace + Along(fs, a + b)
  {
    AlongConcat(fs, a, b);
  }

  lemma ThreeParts(fs: Fs, a: seq<Files>, b: seq<Files>, c: seq<Files>, trace: seq<Moment>)
    ensures trace + Along(fs, a) + Along(fs, b) + Along(fs, c) == trace + Along(fs, a + b + c)
  {
    hide Along;
    TwoParts(fs, a, b, trace);
    TwoParts(fs, a + b, c, trace);
  }

  /** Reads records one at a time from the bytes after the header, through a buffer: `unread` is what the caller has not
      consumed yet, and its first `buffered` bytes are in the buffer. */
  class JournalIter {
    var unread: Bytes
    var buffered: nat
    var position: nat
    var done: bool

    ghost predicate Valid()
      reads this
    { buffered <= |unread| }

    constructor (file: Bytes)
      requires HEADER_LEN <= |file|
      ensures Valid() && unread == file[HEADER_LEN..] && buffered == 0 && position == HEADER_LEN && !done
    {
      unread, buffered, position, done := file[HEADER_LEN..], 0, HEADER_LEN, false;
    }

    /** One buffered read of up to `n` bytes: whatever is in the buffer, refilled only when it is empty. */
    method Read(n: nat) returns (got: Bytes)
      requires Valid()
      modifies this`unread, this`buffered
      ensures Valid()
      ensures var b := Refilled(old(buffered), |old(unread)|, BUFFER);
        && |got| == Min(n, b) <= |old(unread)| && got == old(unread)[..|got|] && unread == old(unread)[|got|..]
        && buffered == b - |got|
    {
      buffered := Refilled(buffered, |unread|, BUFFER);
      got := unread[..Min(n, buffered)];
      unread, buffered := unread[|got|..], buffered - |got|;
    }

    /** Reads exactly `n` bytes, or nothing if there are not as many left. */
    method ReadExact(n: nat) returns (got: Option<Bytes>)
      requires Valid()
      modifies this`unread, this`buffered
      ensures Valid()
      ensures got.Some? <==> n <= |old(unread)|
      ensures got.Some? ==> got.value == old(unread)[..n] && unread == old(unread)[n..]
      ensures got.Some? ==> buffered == Consumed(old(buffered), n, |old(unread)|, BUFFER)
    {
      if n > |unread| {
        return None;
      }
      got := Some(unread[..n]);
      buffered := Consumed(buffered, n, |unread|, BUFFER);
      unread := unread[n..];
    }

    /** The payload and the checksum of a record whose length prefix said `n`. */
    method ReadRecord(n: nat) returns (got: Option<(Bytes, Bytes)>)
      requires Valid()
      modifies this`unread, this`buffered
      ensures Valid()
      ensures got.Some? <==> n + 4 <= |old(unread)|
      ensures got.Some? ==>
        var s, left := old(unread), |old(unread)|;
        && got.value == (s[..n], s[n..n + 4]) && unread == s[n + 4..]
        && buffered == Consumed(Consumed(old(buffered), n, left, BUFFER), 4, left - n, BUFFER)
    {
      hide Consumed;
      var payload := ReadExact(n);
      if payload.None? {
        return None;
      }
      var crc := ReadExact(4);
      if crc.None? {
        return None;
      }
      got := Some((payload.value, crc.value));
      SliceParts(old(unread), n, 4);
    }

    /** The rest of record `s`, once its length prefix has been read. */
    method NextRecord(n: nat, ghost s: Bytes) returns (r: Result<Mutation>)
      requires Valid() && !done && |s| >= 4 && unread == s[4..] && n == UnLe(s[..4])
      modifies this
      ensures Valid()
      ensures match ReadOne(s, old(position))
              case AtEnd => false
              case Fault(e) => r == Err(e) && done && position == old(position)
              case Garbled(e, k) => r == Err(e) && !done && position == old(position) + k && unread == s[k..]
              case Record(m, k) =>
                && r == Ok(m) && !done && position == old(position) + k && unread == s[k..]
                && buffered == Consumed(Consumed(old(buffered), k - 8, |s| - 4, BUFFER), 4, |s| - (k - 4), BUFFER)
    {
      hide Consumed;
      hide ReadOne;
      RecordCases(s, position);
      var got := ReadRecord(n);
      if got.None? {
        done := true;
        return Err(Truncated);
      }
      var (payload, crc) := got.value;
      if UnLe(crc) != Crc32(payload) {
        done := true;
        return Err(BadChecksum(position));
      }
      var recordStart := position;
      position := position + 4 + n + 4;
      match codec.decode(payload)
      case None => return Err(Undecodable(recordStart + 4));
      case Some(m) => return Ok(m);
    }

    method Next() returns (item: Option<Result<Mutation>>)
      requires Valid()
      modifies this
      ensures Valid()
      ensures old(done) ==> item == None && done && position == old(position) && unread == old(unread)
      ensures !old(done) ==>
        match BufferedReadOne(old(unread), old(buffered), old(position), BUFFER)
        case AtEnd => item == None && done && position == old(position)
        case Fault(e) => item == Some(Err(e)) && done && position == old(position)
        case Garbled(e, n) =>
          item == Some(Err(e)) && !done && position == old(position) + n && unread == old(unread)[n..]
        case Record(m, n) =>
          var s := old(unread);
          && item == Some(Ok(m)) && !done && position == old(position) + n && unread == s[n..]
          && buffered == AfterRecord(Refilled(old(buffered), |s|, BUFFER), n, |s|, BUFFER)
    {
      if done {
        return None;
      }
      hide Refilled;
      hide Consumed;
      hide ReadOne;
      ghost var s := unread;
      ghost var b1 := RefilledFits(buffered, |unread|, BUFFER);
      var lenBuf := Read(4);
      if |lenBuf| == 0 {
        done := true;
        return None;
      }
      if |lenBuf| < 4 {
        done := true;
        return Some(Err(Truncated));
      }
      var r := NextRecord(UnLe(lenBuf), s);
      item := Some(r);
    }
  }

  lemma SliceParts(s: Bytes, n: nat, k: nat)
    requires n + k <= |s|
    ensures s[n..][..k] == s[n..n + k] && s[n..][k..] == s[n + k..]
  {
  }

  /** What a record is, seen from behind its length prefix. */
  lemma RecordCases(s: Bytes, pos: nat)
    requires |s| >= 4
    ensures var n, t := UnLe(s[..4]), s[4..];
      if |t| < n + 4 then ReadOne(s, pos) == Fault(Truncated)
      else if UnLe(t[n..n + 4]) != Crc32(t[..n]) then ReadOne(s, pos) == Fault(BadChecksum(pos))
      else
        && s[8 + n..] == t[n + 4..]
        && ReadOne(s, pos) == match codec.decode(t[..n]) { case None => Garbled(Undecodable(pos + 4), 8 + n)
                                                           case Some(m) => Record(m, 8 + n) }
  {
    var n, t := UnLe(s[..4]), s[4..];
    if |t| >= n + 4 {
      assert t[..n] == s[4..4 + n] && t[n..n + 4] == s[4 + n..8 + n];
    }
  }
}
