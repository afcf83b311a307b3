/** Per-coordinate locks kept in sixteen shards. */
module CoordLocks {
  import opened Bytes
  import opened Records

  datatype LockKey = LockKey(coords: Coords, version: Str)

  const SHARDS := 16

  /** The low four bits of the artifact's first byte, or of the group's if the artifact is empty. */
  function ShardIndex(k: LockKey): (i: nat)
    ensures i < SHARDS
  {
    var text := if k.coords.artifact != [] then k.coords.artifact else k.coords.group;
    if text == [] then 0 else text[0] % SHARDS
  }

  class CoordLockMap {
    var shards: seq<map<LockKey, int>>
    var next: int   // the identity of the next mutex

    /** Each key sits in its own shard, and every mutex in use has an identity handed out before. */
    ghost predicate Valid()
      reads this
    {
      && |shards| == SHARDS
      && (forall i | 0 <= i < SHARDS :: forall k <- shards[i] :: ShardIndex(k) == i && shards[i][k] < next)
      && (forall a, b | Has(a) && Has(b) && Mutex(a) == Mutex(b) :: a == b)
    }

    /** The sharded map read as one flat map. */
    ghost predicate Has(k: LockKey)
      reads this
    {
      ShardIndex(k) < |shards| && k in shards[ShardIndex(k)]
    }

    ghost function Mutex(k: LockKey): int
      reads this
      requires Has(k)
    {
      shards[ShardIndex(k)][k]
    }

    constructor ()
      ensures Valid() && forall k :: !Has(k)
    {
      shards, next := seq(SHARDS, i => map[]), 0;
    }

    /** Looks a key up, creating its mutex on first use. No key's mutex is ever replaced, and a new one is shared with
        no other key. */
    method GetOrCreate(k: LockKey) returns (m: int)
      requires Valid()
      modifies this
      ensures Valid() && Has(k) && Mutex(k) == m
      ensures forall x :: Has(x) <==> old(Has(x)) || x == k
      ensures forall x :: old(Has(x)) ==> Mutex(x) == old(Mutex(x))
      ensures !old(Has(k)) ==> forall x :: old(Has(x)) ==> old(Mutex(x)) != m
    {
      var i := ShardIndex(k);
      assert forall x :: Has(x) ==> Mutex(x) < next;
      if k !in shards[i] {
        shards := shards[i := shards[i][k := next]];
        next := next + 1;
        assert forall x :: x != k && Has(x) ==> old(Has(x)) && Mutex(x) == old(Mutex(x));
      }
      m := shards[i][k];
    }

    /** The keys of the flat map. */
    ghost function Keys(): (keys: set<LockKey>)
      requires Valid()
      reads this
      ensures forall k :: k in keys <==> Has(k)
    {
      AllKeysAre(shards);
      AllKeys(shards)
    }

    /** How many keys the flat map has. */
    method Len() returns (n: nat)
      requires Valid()
      ensures n == |Keys()|
    {
      hide AllKeys;
      n := 0;
      NoShards(shards);
      for i := 0 to |shards|
        invariant n == |AllKeys(shards[..i])|
      {
        OneMoreShard(shards, i);
        n := n + |shards[i]|;
      }
      assert shards[..|shards|] == shards;
    }
  }

  lemma NoShards(shards: seq<map<LockKey, int>>)
    ensures |AllKeys(shards[..0])| == 0
  {
  }

  lemma OneMoreShard(shards: seq<map<LockKey, int>>, i: nat)
    requires i < |shards| && forall j | 0 <= j < |shards| :: forall k <- shards[j] :: ShardIndex(k) == j
    ensures |AllKeys(shards[..i + 1])| == |AllKeys(shards[..i])| + |shards[i]|
  {
    hide ShardIndex;
    var fewer := shards[..i];
    assert shards[..i + 1][..i] == fewer;
    AllKeysAre(fewer);
    forall k | k in AllKeys(fewer) ensures k !in shards[i] {
      var j :| 0 <= j < i && k in fewer[j];
      assert k in shards[j];
    }
    assert AllKeys(fewer) !! shards[i].Keys;
  }

  ghost function AllKeys(shards: seq<map<LockKey, int>>): set<LockKey> {
    if shards == [] then {} else AllKeys(shards[..|shards| - 1]) + shards[|shards| - 1].Keys
  }

  lemma {:induction false} AllKeysAre(shards: seq<map<LockKey, int>>)
    ensures forall k :: k in AllKeys(shards) <==> exists i | 0 <= i < |shards| :: k in shards[i]
  {
    if shards != [] {
      var n := |shards| - 1;
      AllKeysAre(shards[..n]);
      forall k | exists i | 0 <= i < |shards| :: k in shards[i] ensures k in AllKeys(shards) {
        var i :| 0 <= i < |shards| && k in shards[i];
        assert i < n ==> shards[..n][i] == shards[i];
      }
    }
  }
}
