/** Index rows and journal mutations, and the string form of the coordinates in their keys. */
module Records {
  import opened Bytes

  datatype Coords = Coords(group: Str, artifact: Str)
  datatype Key = Key(coords: Coords, version: Str, kind: Str, classifier: Option<Str>)
  datatype Tier = Upstream | Roastery
  datatype Origin = Origin(url: Str, etag: Option<Str>, lastModified: Option<Str>,
                           upstreamUpdated: Option<Str>, tier: Tier)
  datatype Entry = Entry(hash: Digest, size: U64, sha1: Option<Str>, origin: Origin, atime: U64, created: U64)
  type Rows = map<Key, Entry>

  datatype Mutation = Put(key: Key, entry: Entry) | Remove(key: Key) | Touch(key: Key, atime: U64)

  datatype Row = Row(key: Key, entry: Entry)

  const COLON: Byte := 58

  predicate FitsStr(s: Bytes) { |s| < 0x4000_0000_0000_0000 }

  // ---- coordinates travel as the single string `group:artifact` ----

  /** Splitting at every colon. */
  function Split(s: Bytes): (parts: seq<Bytes>)
    ensures |parts| >= 1
  {
    if s == [] then [[]]
    else if s[0] == COLON then [[]] + Split(s[1..])
    else var parts := Split(s[1..]); [[s[0]] + parts[0]] + parts[1..]
  }

  function Joined(c: Coords): (s: Bytes)
    ensures |s| < 0x1_0000_0000_0000_0000
  {
    c.group + [COLON] + c.artifact
  }

  function ParseCoords(s: Bytes): Option<Coords> {
    var parts := Split(s);
    if |parts| == 2 && parts[0] != [] && parts[1] != [] && FitsStr(parts[0]) && FitsStr(parts[1])
    then Some(Coords(parts[0], parts[1]))
    else None
  }

  /** Coordinates that survive being written out and read back. */
  predicate Storable(c: Coords) {
    c.group != [] && c.artifact != [] && COLON !in c.group && COLON !in c.artifact
  }

  lemma {:induction false} SplitClean(s: Bytes)
    requires COLON !in s
    ensures Split(s) == [s]
  {
    if s != [] {
      SplitClean(s[1..]);
      assert [s[0]] + s[1..] == s;
    }
  }

  lemma {:induction false} SplitAt(a: Bytes, b: Bytes)
    requires COLON !in a
    ensures Split(a + [COLON] + b) == [a] + Split(b)
  {
    var s := a + [COLON] + b;
    if a == [] {
      assert s[1..] == b;
    } else {
      SplitAt(a[1..], b);
      assert s[1..] == a[1..] + [COLON] + b;
      assert [a[0]] + a[1..] == a;
    }
  }

  lemma {:induction false} SplitCount(a: Bytes, b: Bytes)
    ensures |Split(a + [COLON] + b)| == |Split(a)| + |Split(b)|
  {
    var s := a + [COLON] + b;
    if a == [] {
      assert s[1..] == b;
    } else {
      SplitCount(a[1..], b);
      assert s[1..] == a[1..] + [COLON] + b;
    }
  }

  lemma {:induction false} SplitSingle(s: Bytes)
    requires |Split(s)| == 1
    ensures COLON !in s
  {
    if s != [] {
      SplitSingle(s[1..]);
    }
  }

  /** Coordinates come back from their string form exactly when they are storable, and otherwise not at all. */
  lemma CoordsRoundTrip(c: Coords)
    ensures ParseCoords(Joined(c)) == if Storable(c) then Some(c) else None
  {
    SplitCount(c.group, c.artifact);
    if COLON !in c.group && COLON !in c.artifact {
      SplitAt(c.group, c.artifact);
      SplitClean(c.artifact);
    } else if |Split(Joined(c))| == 2 {
      SplitSingle(c.group);
      SplitSingle(c.artifact);
    }
  }

  lemma {:induction false} SplitPartsClean(s: Bytes)
    ensures forall p <- Split(s) :: COLON !in p
  {
    if s != [] {
      SplitPartsClean(s[1..]);
    }
  }

  /** Reading coordinates never yields ones that could not be written back. */
  lemma ParsedStorable(s: Bytes)
    ensures ParseCoords(s).Some? ==> Storable(ParseCoords(s).value)
  {
    SplitPartsClean(s);
  }

  predicate StorableRow(r: Row) { Storable(r.key.coords) }
  predicate StorableRows(rows: seq<Row>) { forall r <- rows :: StorableRow(r) }
}
