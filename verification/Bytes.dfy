/** Byte strings, little-endian words, and the hash functions the cache relies on. */
module Bytes {
  datatype Option<+T> = None | Some(value: T)

  type Byte = b: int | 0 <= b < 256
  type Bytes = seq<Byte>
  type U32 = w: int | 0 <= w < 0x1_0000_0000
  type U64 = w: int | 0 <= w < 0x1_0000_0000_0000_0000

  /** The length of a Rust string fits in an `isize`; half of that leaves room for `group:artifact`. */
  type Str = s: Bytes | |s| < 0x4000_0000_0000_0000

  /** The sum of the sizes. */
  function Added(sizes: seq<nat>): nat { if sizes == [] then 0 else sizes[|sizes| - 1] + Added(sizes[..|sizes| - 1]) }

  const DIGEST_LEN := 32
  type Digest = d: Bytes | |d| == DIGEST_LEN witness seq(32, i => 0)

  // Library hashes. Nothing is assumed about them beyond being functions of the bytes.
  const Crc32: Bytes -> U32
  const Sha256: Bytes -> Digest

  function Pow256(w: nat): (p: nat)
    ensures p > 0
  {
    if w == 0 then 1 else 256 * Pow256(w - 1)
  }

  /** `w` bytes of `n`, least significant first. */
  function Le(n: nat, w: nat): (s: Bytes)
    ensures |s| == w
  {
    if w == 0 then [] else [n % 256] + Le(n / 256, w - 1)
  }

  function UnLe(s: Bytes): (n: nat) {
    if s == [] then 0 else s[0] + 256 * UnLe(s[1..])
  }

  lemma {:induction false} LeRoundTrip(n: nat, w: nat)
    requires n < Pow256(w)
    ensures UnLe(Le(n, w)) == n
  {
    if w > 0 {
      LeRoundTrip(n / 256, w - 1);
      assert Le(n, w)[1..] == Le(n / 256, w - 1);
    }
  }

  lemma {:induction false} LeOfUnLe(s: Bytes)
    ensures Le(UnLe(s), |s|) == s
  {
    if s != [] {
      LeOfUnLe(s[1..]);
      assert s == [s[0]] + s[1..];
    }
  }

  lemma {:induction false} UnLeBound(s: Bytes)
    ensures UnLe(s) < Pow256(|s|)
  {
    if s != [] {
      UnLeBound(s[1..]);
    }
  }

  lemma Pow256Values()
    ensures Pow256(2) == 0x1_0000
    ensures Pow256(4) == 0x1_0000_0000
    ensures Pow256(8) == 0x1_0000_0000_0000_0000
  {
    assert Pow256(4) == 256 * (256 * Pow256(2));
    assert Pow256(6) == 256 * (256 * Pow256(4));
    assert Pow256(8) == 256 * (256 * Pow256(6));
  }
}
