/** Serving an artifact from a remote cache that is addressed by digest and trusted with nothing. */
module RemoteCache {
  import opened Bytes
  import opened Records
  import opened Hex
  import opened Text
  import opened Sidecar
  import opened BlobStore
  import opened Disks

  /** Lower-casing of single characters: letters A to Z as usual; no character outside ASCII becomes text that starts
      with a lowercase hex digit, which is all that matters here about the Unicode tables. */
  ghost predicate LowersLikeUnicode(f: char -> string) {
    forall c :: if c < 128 as char then f(c) == [Lower(c)] else f(c) != "" && !IsLowerHex(f(c)[0])
  }

  predicate IsLowerHex(c: char) { '0' <= c <= '9' || 'a' <= c <= 'f' }

  type CaseTable = f: char -> string | LowersLikeUnicode(f) witness (c: char) => [Lower(c)]
  const lowerChar: CaseTable

  function ToLower(s: string): string { if s == "" then "" else lowerChar(s[0]) + ToLower(s[1..]) }

  predicate CanonicalDigest(s: string) { |s| == 64 && forall c <- s :: IsLowerHex(c) }

  lemma {:induction false} LoweredToHex(s: string)
    requires forall c <- ToLower(s) :: IsLowerHex(c)
    ensures AllHex(s) && ToLower(s) == LowerAll(s)
  {
    if s != "" {
      var head, rest := lowerChar(s[0]), ToLower(s[1..]);
      assert ToLower(s) == head + rest;
      assert head != "" && head[0] in ToLower(s);
      assert head == [Lower(s[0])];
      assert forall c <- rest :: c in ToLower(s);
      LoweredToHex(s[1..]);
      assert s == [s[0]] + s[1..];
      assert IsHex(s[0]);
    }
  }

  /** The remote cache's own digest parser: lowercase only. */
  method ParseDigest(s: string) returns (r: Option<Digest>)
    ensures r.Some? <==> CanonicalDigest(s)
    ensures r.Some? ==> HexOf(r.value) == s
  {
    if |s| != 64 || !(forall c <- s :: IsLowerHex(c)) {
      return None;
    }
    assert forall i | 0 <= i < |s| :: s[i] in s && IsLowerHex(s[i]);
    r := FromHex(s);
  }

  type Body = b: Bytes | |b| < 0x1_0000_0000_0000_0000

  /** Whatever the remote may answer to a request for a digest. */
  datatype Answer = NotFound | AuthFailure | DigestRejected | Offline | OtherError
                  | Sent(body: Body, statedSize: nat, drained: bool)

  datatype Why = AuthFailed | DigestMismatch | Unreachable | StoredUnderOtherDigest
  datatype Served = Hit(bytes: Bytes, entry: Entry) | Miss | FellThrough(why: Why)

  /** Storing bytes: a no-op if an object of that digest is there, a new inode otherwise. */
  function StoredFs(fs: Fs, bytes: Bytes, inode: nat): Fs {
    var name := Obj(Sha256(bytes));
    if name in fs.names then fs else Fs(fs.names[name := inode], fs.data[inode := bytes])
  }

  /** There is an object under this digest, and its bytes have it. */
  predicate Has(fs: Fs, d: Digest) {
    Obj(d) in fs.names && fs.names[Obj(d)] in fs.data && Sha256(fs.data[fs.names[Obj(d)]]) == d
  }

  lemma StoredOk(fs: Fs, bytes: Bytes, inode: nat)
    requires CasOk(fs) && inode !in fs.data
    ensures CasOk(StoredFs(fs, bytes, inode)) && Has(StoredFs(fs, bytes, inode), Sha256(bytes))
  {
  }

  /** The digest a SHA-256 sidecar asks for: its first token, lower-cased, if that is canonical. */
  predicate Asks(sha256: Option<string>, d: Digest) {
    sha256.Some? && FirstToken(sha256.value) != "" && ToLower(FirstToken(sha256.value)) == HexOf(d)
  }

  /** A sidecar that asks for some digest. */
  predicate AsksAny(sha256: Option<string>) {
    sha256.Some? && FirstToken(sha256.value) != "" && CanonicalDigest(ToLower(FirstToken(sha256.value)))
  }

  /** For arbitrary answers: a hit returns and stores exactly bytes of the asked-for digest, with a row of that hash and
      size; anything else stores nothing under a foreign name; and the last check, that the stored bytes have the
      asked-for digest, never fails. */
  method TryRemote(disk: Disk, sha256: Option<string>, sha1: Option<string>, answer: Answer, stored: bool,
                   inode: nat, url: Str, now: U64)
    returns (r: Served)
    requires disk.Valid() && CasOk(disk.fs) && inode !in disk.fs.data
    modifies disk`fs, disk`trace
    ensures disk.Valid() && CasOk(disk.fs)
    ensures r.Hit? <==>
      && answer.Sent? && answer.drained && |answer.body| == answer.statedSize
      && Asks(sha256, Sha256(answer.body)) && (sha1.Some? ==> Names(SHA1, sha1.value, HexOf(Sha1(answer.body))))
      && stored
    ensures !AsksAny(sha256) || answer.NotFound? ==> r == Miss
    ensures AsksAny(sha256) && answer.AuthFailure? ==> r == FellThrough(AuthFailed)
    ensures AsksAny(sha256) && answer.DigestRejected? ==> r == FellThrough(DigestMismatch)
    ensures AsksAny(sha256) && (answer.Offline? || answer.OtherError?) ==> r == FellThrough(Unreachable)
    ensures r.Hit? ==>
      && answer.Sent? && r.bytes == answer.body
      && r.entry.hash == Sha256(r.bytes) && r.entry.size == |r.bytes| && r.entry.origin.tier == Roastery
      && Has(disk.fs, r.entry.hash)
    ensures r != FellThrough(StoredUnderOtherDigest)
    ensures !r.Hit? ==> disk.fs == old(disk.fs)
  {
    hide Names;
    hide HexOf;
    hide ToLower;
    hide FirstToken;
    hide CanonicalDigest;
    hide CasOk;
    if sha256.None? || FirstToken(sha256.value) == "" {
      return Miss;
    }
    var token := FirstToken(sha256.value);
    var asked := ParseDigest(ToLower(token));
    if asked.None? {
      NotCanonical(token);
      return Miss;
    }
    match answer
    case NotFound => return Miss;
    case AuthFailure => return FellThrough(AuthFailed);
    case DigestRejected => return FellThrough(DigestMismatch);
    case Offline => return FellThrough(Unreachable);
    case OtherError => return FellThrough(Unreachable);
    case Sent(body, statedSize, drained) =>
      if !drained || |body| != statedSize {
        return FellThrough(Unreachable);
      }
      NamesIffAsked(sha256, asked.value, body);
      var verification := Verify(body, sha256, sha1);
      if verification.Bad? {
        return FellThrough(DigestMismatch);
      }
      if !stored {
        return FellThrough(Unreachable);
      }
      var hash := Sha256(body);
      StoredOk(disk.fs, body, inode);
      if Obj(hash) !in disk.fs.names {
        disk.Place(Obj(hash), inode, body);
      }
      if hash != asked.value {
        return FellThrough(StoredUnderOtherDigest);
      }
      r := Hit(body, Entry(hash, |body|, None, Origin(url, None, None, None, Roastery), now, now));
  }

  /** The digest asked for and the digest the sidecar check insists on are the same one. */
  lemma NamesIffAsked(sha256: Option<string>, asked: Digest, body: Bytes)
    requires Asks(sha256, asked)
    ensures Names(SHA256, sha256.value, HexOf(Sha256(body))) <==> Sha256(body) == asked
    ensures Asks(sha256, Sha256(body)) <==> Sha256(body) == asked
  {
    var token := FirstToken(sha256.value);
    CanonicalHex(asked);
    LoweredToHex(token);
    assert WellFormed(SHA256, token);
    FirstTokenIsCandidate(SHA256, sha256.value);
    if HexOf(Sha256(body)) == HexOf(asked) {
      HexInjective(Sha256(body), asked);
    }
  }

  lemma NotCanonical(token: string)
    requires !CanonicalDigest(ToLower(token))
    ensures forall d: Digest :: ToLower(token) != HexOf(d)
  {
    forall d: Digest ensures ToLower(token) != HexOf(d) {
      CanonicalHex(d);
    }
  }

  lemma {:induction false} LowerHexOf(d: Bytes)
    ensures forall c <- HexOf(d) :: IsLowerHex(c)
  {
    if d != [] {
      LowerHexOf(d[..|d| - 1]);
    }
  }

  lemma CanonicalHex(d: Digest)
    ensures CanonicalDigest(HexOf(d))
  {
    LowerHexOf(d);
  }
}
