/** The names that blobs and temporary files have on disk, and the walk that lists the blobs. */
module CasWalk {
  import opened Bytes
  import opened Hex
  import opened CasProtocol

  // ---- names on disk ----

  type Path = seq<string>

  /** `n` in exactly `w` lowercase hex digits. */
  function FixedHex(n: nat, w: nat): (s: string)
    ensures |s| == w
  {
    if w == 0 then "" else FixedHex(n / 16, w - 1) + [DIGITS[n % 16]]
  }

  function TmpName(id: TmpId): (s: string)
    ensures |s| == 48
  {
    FixedHex(id.nanos, 16) + FixedHex(id.counter, 16) + FixedHex(id.thread, 16)
  }

  function PathOf(n: Name): Path {
    match n
    case Obj(h) => ["objects", HexOf(h)[..2], HexOf(h)]
    case Tmp(id) => ["tmp", TmpName(id)]
  }

  function Pow16(w: nat): (p: nat)
    ensures p > 0
  {
    if w == 0 then 1 else 16 * Pow16(w - 1)
  }

  lemma {:induction false} FixedHexInjective(n: nat, m: nat, w: nat)
    requires n < Pow16(w) && m < Pow16(w) && FixedHex(n, w) == FixedHex(m, w)
    ensures n == m
  {
    if w > 0 {
      var a, b := FixedHex(n, w), FixedHex(m, w);
      assert a[..w - 1] == FixedHex(n / 16, w - 1) && b[..w - 1] == FixedHex(m / 16, w - 1);
      assert a[w - 1] == b[w - 1];
      DigitNibble(n % 16);
      DigitNibble(m % 16);
      FixedHexInjective(n / 16, m / 16, w - 1);
    }
  }

  lemma Pow16Is()
    ensures Pow16(16) == 0x1_0000_0000_0000_0000
  {
    assert Pow16(4) == 0x1_0000;
    assert Pow16(8) == 0x1_0000_0000;
    assert Pow16(12) == 0x1_0000_0000_0000;
  }

  lemma TmpNameInjective(a: TmpId, b: TmpId)
    requires TmpName(a) == TmpName(b)
    ensures a == b
  {
    hide FixedHex;
    Pow16Is();
    hide Pow16;
    var s, t := TmpName(a), TmpName(b);
    assert s[..16] == FixedHex(a.nanos, 16) && t[..16] == FixedHex(b.nanos, 16);
    assert s[16..32] == FixedHex(a.counter, 16) && t[16..32] == FixedHex(b.counter, 16);
    assert s[32..] == FixedHex(a.thread, 16) && t[32..] == FixedHex(b.thread, 16);
    FixedHexInjective(a.nanos, b.nanos, 16);
    FixedHexInjective(a.counter, b.counter, 16);
    FixedHexInjective(a.thread, b.thread, 16);
  }

  /** Different files have different paths. */
  lemma PathInjective(a: Name, b: Name)
    requires PathOf(a) == PathOf(b)
    ensures a == b
  {
    hide HexOf;
    hide TmpName;
    var p := PathOf(a);
    match a
    case Obj(h) =>
      assert b.Obj?;
      assert p[2] == HexOf(h) && PathOf(b)[2] == HexOf(b.hash);
      HexInjective(h, b.hash);
    case Tmp(id) =>
      assert b.Tmp?;
      assert p[1] == TmpName(id) && PathOf(b)[1] == TmpName(b.id);
      TmpNameInjective(id, b.id);
  }

  // ---- the walk ----

  /** An entry of `objects/`: a directory with the names in it, or something else. */
  datatype Item = Shard(name: string, leaves: seq<string>) | Plain(name: string)

  predicate IsDigest(name: string) { |name| == 64 && AllHex(name) }

  datatype Listed = Listed(hash: Digest, path: Path)

  /** The digest a name stands for. */
  function DigestOf(name: string): (d: Digest)
    requires IsDigest(name)
    ensures HexOf(d) == LowerAll(name)
  {
    HexUnHex(name);
    UnHex(name)
  }

  function UnHex(s: string): (d: Bytes)
    requires AllHex(s) && |s| % 2 == 0
    ensures |d| == |s| / 2
  {
    if s == "" then [] else
    var n := |s| - 2;
    assert s[n] in s && s[n + 1] in s && forall c <- s[..n] :: c in s;
    UnHex(s[..n]) + [16 * Nibble(s[n]).value + Nibble(s[n + 1]).value]
  }

  lemma {:induction false} HexUnHex(s: string)
    requires AllHex(s) && |s| % 2 == 0
    ensures HexOf(UnHex(s)) == LowerAll(s)
  {
    hide HexOf;
    hide LowerAll;
    hide Nibble;
    if s == "" {
      NoHex();
    } else {
      var n := |s| - 2;
      assert s[n] in s && s[n + 1] in s && forall c <- s[..n] :: c in s;
      HexUnHex(s[..n]);
      HexByte(UnHex(s[..n]), s[..n], s[n], s[n + 1]);
      TwoMore(s);
    }
  }

  lemma TwoMore(s: string)
    requires |s| >= 2
    ensures s == s[..|s| - 2] + [s[|s| - 2], s[|s| - 1]]
  {
  }

  lemma NoHex()
    ensures HexOf([]) == LowerAll("")
  {
  }

  function InShard(shard: string, leaves: seq<string>): seq<Listed> {
    if leaves == [] then [] else
    (if IsDigest(leaves[0]) then [Listed(DigestOf(leaves[0]), ["objects", shard, leaves[0]])] else [])
    + InShard(shard, leaves[1..])
  }

  function Entries(items: seq<Item>): seq<Listed> {
    if items == [] then []
    else (if items[0].Shard? then InShard(items[0].name, items[0].leaves) else []) + Entries(items[1..])
  }

  /** The iterator: the rest of `objects/`, and the rest of the shard it is in. */
  class CasEntries {
    var outer: seq<Item>
    var inner: Option<(string, seq<string>)>

    constructor (items: seq<Item>)
      ensures Rest() == Entries(items)
    {
      outer, inner := items, None;
    }

    ghost function Rest(): seq<Listed>
      reads this
    {
      (if inner.Some? then InShard(inner.value.0, inner.value.1) else []) + Entries(outer)
    }

    /** What is still to come, one at a time, and then nothing. */
    method Next() returns (r: Option<Listed>)
      modifies this
      ensures if old(Rest()) == [] then r == None && Rest() == []
              else r == Some(old(Rest())[0]) && Rest() == old(Rest())[1..]
    {
      while true
        invariant Rest() == old(Rest())
        decreases |outer|, if inner.Some? then 1 + |inner.value.1| else 0
      {
        if inner.Some? {
          var (shard, leaves) := inner.value;
          if leaves != [] {
            inner := Some((shard, leaves[1..]));
            var hash := FromHex(leaves[0]);
            if hash.Some? {
              ShardFirst(shard, leaves, hash.value, outer);
              return Some(Listed(hash.value, ["objects", shard, leaves[0]]));
            }
            ShardSkips(shard, leaves);
          } else {
            inner := None;
            assert InShard(shard, []) + Entries(outer) == [] + Entries(outer);
          }
        } else {
          assert Rest() == Entries(outer);
          if outer == [] {
            return None;
          }
          var item := outer[0];
          outer := outer[1..];
          if item.Shard? {
            inner := Some((item.name, item.leaves));
          } else {
            assert [] + Entries(outer) == Entries(outer);
          }
        }
      }
    }
  }

  lemma ShardFirst(shard: string, leaves: seq<string>, hash: Digest, outer: seq<Item>)
    requires leaves != [] && IsDigest(leaves[0]) && HexOf(hash) == LowerAll(leaves[0])
    ensures InShard(shard, leaves) + Entries(outer)
         == [Listed(hash, ["objects", shard, leaves[0]])] + (InShard(shard, leaves[1..]) + Entries(outer))
  {
    HexInjective(hash, DigestOf(leaves[0]));
  }

  lemma ShardSkips(shard: string, leaves: seq<string>)
    requires leaves != [] && !IsDigest(leaves[0])
    ensures InShard(shard, leaves) == InShard(shard, leaves[1..])
  {
  }

  // ---- what the walk lists ----

  predicate Distinct<T(==)>(xs: seq<T>) { forall i, j | 0 <= i < j < |xs| :: xs[i] != xs[j] }

  /** The entries are the leaves of shards that are 64 hex digits; everything else is passed over. */
  lemma {:induction false} ShardLists(shard: string, leaves: seq<string>, e: Listed)
    ensures e in InShard(shard, leaves) <==>
      exists l <- leaves :: IsDigest(l) && e == Listed(DigestOf(l), ["objects", shard, l])
  {
    hide IsDigest;
    hide DigestOf;
    if leaves != [] {
      ShardLists(shard, leaves[1..], e);
      assert forall l <- leaves :: l == leaves[0] || l in leaves[1..];
    }
  }

  predicate HasLeaf(items: seq<Item>, shard: string, leaf: string) {
    exists item <- items :: item.Shard? && item.name == shard && leaf in item.leaves
  }

  lemma {:induction false} WalkLists(items: seq<Item>, e: Listed)
    ensures e in Entries(items) <==>
      |e.path| == 3 && e.path[0] == "objects" && HasLeaf(items, e.path[1], e.path[2])
      && IsDigest(e.path[2]) && e.hash == DigestOf(e.path[2])
  {
    hide IsDigest;
    hide DigestOf;
    hide InShard;
    if items != [] {
      WalkLists(items[1..], e);
      if items[0].Shard? {
        ShardLists(items[0].name, items[0].leaves, e);
      }
      assert forall item <- items :: item == items[0] || item in items[1..];
    }
  }

  /** A directory listing: no name twice, in whatever order. */
  predicate Listing(items: seq<Item>) {
    && (forall i, j | 0 <= i < j < |items| :: items[i].name != items[j].name)
    && (forall item <- items :: item.Shard? ==> Distinct(item.leaves))
  }

  lemma {:induction false} ShardDistinct(shard: string, leaves: seq<string>)
    requires Distinct(leaves)
    ensures Distinct(InShard(shard, leaves))
  {
    hide IsDigest;
    hide DigestOf;
    if leaves != [] {
      ShardDistinct(shard, leaves[1..]);
      assert forall l <- leaves[1..] :: l != leaves[0];
      if IsDigest(leaves[0]) {
        var e := Listed(DigestOf(leaves[0]), ["objects", shard, leaves[0]]);
        ShardLists(shard, leaves[1..], e);
        assert e.path[2] == leaves[0];
        assert forall l: string :: ["objects", shard, l][2] == l;
        assert e !in InShard(shard, leaves[1..]);
      }
    }
  }

  lemma DistinctConcat(a: seq<Listed>, b: seq<Listed>)
    requires Distinct(a) && Distinct(b) && forall x <- a :: x !in b
    ensures Distinct(a + b)
  {
    forall i, j | 0 <= i < j < |a + b| ensures (a + b)[i] != (a + b)[j] {
      assert i < |a| <= j ==> a[i] in a && b[j - |a|] in b;
    }
  }

  lemma {:induction false} WalkDistinct(items: seq<Item>)
    requires Listing(items)
    ensures Distinct(Entries(items))
  {
    hide Distinct;
    hide InShard;
    if items == [] {
      NoneTwice();
    } else {
      var rest := items[1..];
      assert forall item <- rest :: item in items;
      WalkDistinct(rest);
      if items[0].Shard? {
        var a := InShard(items[0].name, items[0].leaves);
        ShardDistinct(items[0].name, items[0].leaves);
        forall e <- a ensures e !in Entries(rest) {
          ShardLists(items[0].name, items[0].leaves, e);
          assert e.path[1] == items[0].name;
          WalkLists(rest, e);
        }
        DistinctConcat(a, Entries(rest));
      } else {
        assert [] + Entries(rest) == Entries(rest);
      }
    }
  }

  lemma NoneTwice()
    ensures Distinct(Entries([]))
  {
  }

  // ---- the walk over a store ----

  /** `items` lists the directory `objects/` of a store in state `s`: its files are those whose path is below it. A
      shard directory may be empty. */
  ghost predicate ListsStore(items: seq<Item>, s: State) {
    && Listing(items)
    && (forall d, l :: HasLeaf(items, d, l) <==> exists n <- s.names :: PathOf(n) == ["objects", d, l])
    && (forall item <- items :: item.Plain? ==> exists n <- s.names :: PathOf(n) == ["objects", item.name])
  }

  lemma LeafIsObject(n: Name, d: string, l: string)
    requires PathOf(n) == ["objects", d, l]
    ensures n.Obj? && l == HexOf(n.hash) && d == HexOf(n.hash)[..2]
  {
    hide HexOf;
    hide TmpName;
    assert |PathOf(n)| == 3;
    assert PathOf(n)[1] == d && PathOf(n)[2] == l;
  }

  lemma ObjectLeaf(h: Digest)
    ensures IsDigest(HexOf(h)) && DigestOf(HexOf(h)) == h
  {
    HexOfIsHex(h);
    HexInjective(DigestOf(HexOf(h)), h);
  }

  /** In every interleaving, with processes stopping anywhere, and in whatever order the directories are read: the walk
      lists each digest that has an object exactly once, with the object's path, and never a temporary file, live or
      left behind. */
  lemma WalkListsObjects(steps: seq<(nat, Event)>, items: seq<Item>)
    requires ListsStore(items, Run(Empty, steps))
    ensures var s, es := Run(Empty, steps), Entries(items);
      && Distinct(es)
      && (forall h: Digest, p :: Listed(h, p) in es <==> Obj(h) in s.names && p == ["objects", HexOf(h)[..2], HexOf(h)])
      && (forall id, e | Tmp(id) in s.names && e in es :: e.path != ["tmp", TmpName(id)])
  {
    hide HexOf;
    hide TmpName;
    hide IsDigest;
    hide Entries;
    hide Run;
    hide HasLeaf;
    hide Distinct;
    var s, es := Run(Empty, steps), Entries(items);
    WalkDistinct(items);
    forall h: Digest, p
      ensures Listed(h, p) in es <==> Obj(h) in s.names && p == ["objects", HexOf(h)[..2], HexOf(h)]
    {
      ListedIffObject(items, s, h, p);
    }
    forall id, e | Tmp(id) in s.names && e in es ensures e.path != ["tmp", TmpName(id)] {
      assert Listed(e.hash, e.path) in es;
      TmpIsNoObject(id, e.hash);
    }
  }

  lemma TmpIsNoObject(id: TmpId, h: Digest)
    ensures PathOf(Tmp(id)) != PathOf(Obj(h)) && !IsDigest(TmpName(id))
  {
    assert |PathOf(Tmp(id))| == 2 && |PathOf(Obj(h))| == 3;
  }

  lemma ListedIffObject(items: seq<Item>, s: State, h: Digest, p: Path)
    requires ListsStore(items, s)
    ensures Listed(h, p) in Entries(items) <==> Obj(h) in s.names && p == PathOf(Obj(h))
  {
    hide Entries;
    hide HasLeaf;
    hide IsDigest;
    hide HexOf;
    WalkLists(items, Listed(h, p));
    if Listed(h, p) in Entries(items) {
      assert p == ["objects", p[1], p[2]];
      var n :| n in s.names && PathOf(n) == ["objects", p[1], p[2]];
      LeafIsObject(n, p[1], p[2]);
      ObjectLeaf(n.hash);
      assert n == Obj(h);
    }
    if Obj(h) in s.names && p == PathOf(Obj(h)) {
      ObjectLeaf(h);
      assert PathOf(Obj(h)) == ["objects", HexOf(h)[..2], HexOf(h)];
      assert HasLeaf(items, p[1], p[2]);
    }
  }
}
