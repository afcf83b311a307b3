/** One machine's disk: blobs and index files, and a record of every state it passes through. */
module Disks {
  import opened Bytes
  import opened IndexFiles
  import opened DiskStates
  import opened BlobStore

  datatype Moment = Moment(fs: Fs, files: Files)

  /** The index files pass through `states` while the blobs stay as they are. */
  function Along(fs: Fs, states: seq<Files>): (moments: seq<Moment>)
    ensures |moments| == |states|
  {
    seq(|states|, i requires 0 <= i < |states| => Moment(fs, states[i]))
  }

  lemma AlongConcat(fs: Fs, a: seq<Files>, b: seq<Files>)
    ensures Along(fs, a + b) == Along(fs, a) + Along(fs, b)
  {
  }

  /** Every operation that changes the disk is one of these methods, and each records all states on its way. */
  class Disk {
    var fs: Fs
    var files: Files
    ghost var trace: seq<Moment>

    /** The record is up to date. */
    ghost predicate Valid()
      reads this
    {
      trace != [] && trace[|trace| - 1] == Moment(fs, files)
    }

    constructor (fs: Fs, files: Files)
      ensures Valid() && this.fs == fs && this.files == files && trace == [Moment(fs, files)]
    {
      this.fs, this.files, trace := fs, files, [Moment(fs, files)];
    }

    method CreateJournal()
      requires Valid()
      modifies this`files, this`trace
      ensures Valid() && files == WithJournal(old(files), JournalBytes(old(files)))
      ensures trace == old(trace) + Along(fs, [files])
    {
      if files.journal.None? {
        files := files.(journal := Some([]));
      }
      trace := trace + Along(fs, [files]);
    }

    method AppendJournal(bytes: Bytes)
      requires Valid() && files.journal.Some?
      modifies this`files, this`trace
      ensures Valid() && files == WithJournal(old(files), JournalBytes(old(files)) + bytes)
      ensures trace == old(trace) + Along(fs, Growing(old(files), bytes))
    {
      trace := trace + Along(fs, Growing(files, bytes));
      files := files.(journal := Some(files.journal.value + bytes));
      assert bytes[..|bytes|] == bytes;
    }

    method SetJournalLength(n: nat)
      requires Valid() && files.journal.Some?
      modifies this`files, this`trace
      ensures Valid() && files == WithJournal(old(files), Resized(JournalBytes(old(files)), n))
      ensures trace == old(trace) + Along(fs, [files])
    {
      files := files.(journal := Some(Resized(files.journal.value, n)));
      trace := trace + Along(fs, [files]);
    }

    method WriteTmp(bytes: Bytes)
      requires Valid()
      modifies this`files, this`trace
      ensures Valid() && files == old(files).(tmp := Some(bytes))
      ensures trace == old(trace) + Along(fs, TmpStates(old(files), bytes))
    {
      trace := trace + Along(fs, TmpStates(files, bytes));
      files := files.(tmp := Some(bytes));
      assert bytes[..|bytes|] == bytes;
    }

    method RenameTmpToSnapshot()
      requires Valid() && files.tmp.Some?
      modifies this`files, this`trace
      ensures Valid() && files == old(files).(snapshot := old(files).tmp, tmp := None)
      ensures trace == old(trace) + Along(fs, [files])
    {
      files := files.(snapshot := files.tmp, tmp := None);
      trace := trace + Along(fs, [files]);
    }

    /** Removes a name; reports whether it was there. */
    method Remove(n: Name) returns (found: bool)
      requires Valid()
      modifies this`fs, this`trace
      ensures Valid() && fs == Unlink(old(fs), n) && found == (n in old(fs).names)
      ensures trace == old(trace) + [Moment(fs, files)]
    {
      found := n in fs.names;
      fs := Unlink(fs, n);
      trace := trace + [Moment(fs, files)];
    }

    /** Gives an existing inode one more name. */
    method Link(n: Name, inode: nat)
      requires Valid()
      modifies this`fs, this`trace
      ensures Valid() && fs == old(fs).(names := old(fs).names[n := inode])
      ensures trace == old(trace) + [Moment(fs, files)]
    {
      fs := fs.(names := fs.names[n := inode]);
      trace := trace + [Moment(fs, files)];
    }

    /** Puts a finished file under a new inode in place. */
    method Place(n: Name, inode: nat, bytes: Bytes)
      requires Valid()
      modifies this`fs, this`trace
      ensures Valid() && fs == Fs(old(fs).names[n := inode], old(fs).data[inode := bytes])
      ensures trace == old(trace) + [Moment(fs, files)]
    {
      fs := Fs(fs.names[n := inode], fs.data[inode := bytes]);
      trace := trace + [Moment(fs, files)];
    }
  }
}
