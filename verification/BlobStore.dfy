/** The part of the file system that holds blobs: names of objects and mirrored artifacts, and the inodes they share. */
module BlobStore {
  import opened Bytes
  import opened Records

  datatype Name = Obj(hash: Digest) | Mirror(path: string)

  /** `names` gives each name its inode, `data` each inode its bytes. */
  datatype Fs = Fs(names: map<Name, nat>, data: map<nat, Bytes>)

  /** Every object is in place and hashes to its own name. */
  ghost predicate CasOk(fs: Fs) {
    && (forall n <- fs.names :: fs.names[n] in fs.data)
    && (forall n <- fs.names :: n.Obj? ==> Sha256(fs.data[fs.names[n]]) == n.hash)
  }

  function LinkNames(fs: Fs, inode: nat): set<Name> { set n | n in fs.names && fs.names[n] == inode }

  function Links(fs: Fs, inode: nat): nat { |LinkNames(fs, inode)| }

  /** An object some other name also points at. */
  predicate Pinned(fs: Fs, h: Digest) { Obj(h) in fs.names && Links(fs, fs.names[Obj(h)]) >= 2 }

  function Unlink(fs: Fs, n: Name): Fs { fs.(names := fs.names - {n}) }

  lemma TwoLinks(fs: Fs, a: Name, b: Name)
    requires a != b && a in fs.names && b in fs.names && fs.names[a] == fs.names[b]
    ensures Links(fs, fs.names[a]) >= 2
  {
    var s := LinkNames(fs, fs.names[a]);
    assert {a, b} <= s;
    SubsetSize({a, b}, s);
  }

  lemma {:induction false} SubsetSize<T>(a: set<T>, b: set<T>)
    requires a <= b
    ensures |a| <= |b|
  {
    if a != {} {
      var x :| x in a;
      SubsetSize(a - {x}, b - {x});
    }
  }

  /** An object whose inode has a second name. */
  predicate Shared(fs: Fs, h: Digest) {
    Obj(h) in fs.names && exists n <- fs.names :: n != Obj(h) && fs.names[n] == fs.names[Obj(h)]
  }

  /** A link count of two or more says that there is a second name, and nothing else. */
  lemma PinnedIffShared(fs: Fs, h: Digest)
    ensures Pinned(fs, h) <==> Shared(fs, h)
  {
    if Shared(fs, h) {
      var n :| n in fs.names && n != Obj(h) && fs.names[n] == fs.names[Obj(h)];
      TwoLinks(fs, Obj(h), n);
    } else if Obj(h) in fs.names {
      assert LinkNames(fs, fs.names[Obj(h)]) == {Obj(h)};
    }
  }

  /** Objects that no row refers to. */
  ghost function Orphans(fs: Fs, rows: Rows): iset<Digest> {
    iset h | Obj(h) in fs.names && forall k <- rows :: rows[k].hash != h
  }

  predicate Backed(fs: Fs, e: Entry) { Obj(e.hash) in fs.names }
}
