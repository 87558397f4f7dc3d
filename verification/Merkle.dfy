/**
 The Merkle tree of the accounts hash.

 A `Hasher` is modelled by the list of hashes fed to it since `Hasher::default()`; its result is
 `hasher(list)` for an arbitrary function `hasher`. `Level` is one plain level of the tree and
 `Root` the plain tree, which a simple loop computes.
 */
module Merkle {
  import opened Basics

  const MERKLE_FANOUT: nat := 16

  type Hasher = seq<Hash> -> Hash

  /** One level: hash every `fanout` consecutive hashes, the last group possibly shorter. */
  function Level(hasher: Hasher, fanout: nat, s: seq<Hash>): (r: seq<Hash>)
    requires fanout >= 1
    ensures |r| <= |s| && (s != [] ==> r != [])
    ensures |s| >= 2 && fanout >= 2 ==> |r| < |s|
  {
    if s == [] then []
    else if |s| <= fanout then [hasher(s)]
    else [hasher(s[..fanout])] + Level(hasher, fanout, s[fanout..])
  }

  /** The plain tree: repeat `Level` until one hash is left. */
  function Root(hasher: Hasher, fanout: nat, s: seq<Hash>): Hash
    requires fanout >= 2
    decreases |s|
  {
    if s == [] then hasher([])
    else if |s| <= fanout then hasher(s)
    else Root(hasher, fanout, Level(hasher, fanout, s))
  }

  /** `k` plain levels. */
  function Levels(hasher: Hasher, fanout: nat, s: seq<Hash>, k: nat): seq<Hash>
    requires fanout >= 1
    decreases k
  {
    if k == 0 then s else Levels(hasher, fanout, Level(hasher, fanout, s), k - 1)
  }

  function DivCeil(x: nat, y: nat): (r: nat)
    requires y > 0
    ensures (r - 1) * y < x <= r * y || (x == 0 && r == 0)
  {
    if x % y != 0 then x / y + 1 else x / y
  }

  // ----- how a level splits at a multiple of the group size -----

  lemma LevelCons(hasher: Hasher, fanout: nat, first: seq<Hash>, rest: seq<Hash>)
    requires |first| == fanout >= 1
    ensures Level(hasher, fanout, first + rest) == [hasher(first)] + Level(hasher, fanout, rest)
  {
    if rest == [] {
      assert first + rest == first;
    } else {
      assert (first + rest)[..fanout] == first && (first + rest)[fanout..] == rest;
    }
  }

  /** If a level splits after `rest`, it splits after one more full group. */
  lemma JoinStep(hasher: Hasher, fanout: nat, first: seq<Hash>, rest: seq<Hash>, suf: seq<Hash>)
    requires |first| == fanout >= 1
    requires Level(hasher, fanout, rest + suf) == Level(hasher, fanout, rest) + Level(hasher, fanout, suf)
    ensures |Level(hasher, fanout, first + rest)| == 1 + |Level(hasher, fanout, rest)|
    ensures Level(hasher, fanout, first + rest + suf) ==
              Level(hasher, fanout, first + rest) + Level(hasher, fanout, suf)
  {
    assert first + rest + suf == first + (rest + suf);
    LevelCons(hasher, fanout, first, rest);
    LevelCons(hasher, fanout, first, rest + suf);
    ConcatAssociative([hasher(first)], Level(hasher, fanout, rest), Level(hasher, fanout, suf));
  }

  lemma {:induction false} LevelJoin(hasher: Hasher, fanout: nat, pre: seq<Hash>, suf: seq<Hash>, a: nat)
    requires fanout >= 1 && |pre| == a * fanout
    ensures |Level(hasher, fanout, pre)| == a
    ensures Level(hasher, fanout, pre + suf) == Level(hasher, fanout, pre) + Level(hasher, fanout, suf)
    decreases a
  {
    if a == 0 {
      assert pre + suf == suf;
    } else {
      PreviousMultiple(a, fanout);
      var first, rest := pre[..fanout], pre[fanout..];
      LevelJoin(hasher, fanout, rest, suf, a - 1);
      JoinStep(hasher, fanout, first, rest, suf);
      assert pre == first + rest;
    }
  }

  lemma PreviousMultiple(a: nat, f: nat)
    requires a >= 1
    ensures a * f == (a - 1) * f + f
  {
  }

  /** One more, possibly short, group adds one hash to the level. */
  lemma LevelGrows(hasher: Hasher, fanout: nat, all: seq<Hash>, start: nat, was: nat, i: nat, a: nat)
    requires fanout >= 1 && start <= was < i <= |all|
    requires was == start + a * fanout && i <= was + fanout
    ensures Level(hasher, fanout, all[start..i]) == Level(hasher, fanout, all[start..was]) + [hasher(all[was..i])]
  {
    var pre, suf := all[start..was], all[was..i];
    assert all[start..i] == pre + suf;
    LevelJoin(hasher, fanout, pre, suf, a);
  }

  // ----- `compute_merkle_root_loop` -----

  /** The hashes that `extract` finds in `items`. */
  function Extracted<T>(items: seq<T>, extract: T -> Hash): (r: seq<Hash>)
    ensures |r| == |items| && forall i :: 0 <= i < |r| ==> r[i] == extract(items[i])
  {
    seq(|items|, i requires 0 <= i < |items| => extract(items[i]))
  }

  /** How many of `n` hashes the first `i` chunks hold. */
  ghost function InChunks(i: nat, size: nat, n: nat): (r: nat)
    ensures r <= n && (i == 0 ==> r == 0)
  {
    assert i == 0 ==> i * size == 0;
    Min(i * size, n)
  }

  /** Where chunk `i` of `chunks` lies in a list of `n` hashes. */
  lemma ChunkBounds(n: nat, size: nat, chunks: nat, i: nat)
    requires size > 0 && i < chunks && (chunks - 1) * size < n <= chunks * size
    ensures i * size == InChunks(i, size, n) < n
    ensures InChunks(i + 1, size, n) == Min(i * size + size, n)
    ensures i + 1 == chunks ==> InChunks(i + 1, size, n) == n
  {
    MulMonotone(i, chunks - 1, size);
    assert (i + 1) * size == i * size + size;
  }

  /** The inner loop: feed one hasher with the items of one chunk. */
  method HashItems<T>(hasher: Hasher, items: seq<T>, extract: T -> Hash, start: nat, end: nat) returns (h: Hash)
    requires start <= end <= |items|
    ensures h == hasher(Extracted(items, extract)[start..end])
  {
    ghost var all := Extracted(items, extract);
    var fed := [];
    for j := start to end
      invariant fed == all[start..j]
    {
      fed := fed + [extract(items[j])];
    }
    h := hasher(fed);
  }

  method ComputeMerkleRootLoop<T>(hasher: Hasher, fanout: nat, items: seq<T>, extract: T -> Hash) returns (root: Hash)
    requires fanout >= 2
    ensures root == Root(hasher, fanout, Extracted(items, extract))
    decreases |items|
  {
    if |items| == 0 {
      return hasher([]);
    }
    ghost var all := Extracted(items, extract);
    var chunks := DivCeil(|items|, fanout);
    var result := [];
    ghost var done := 0;
    for i := 0 to chunks
      invariant done == InChunks(i, fanout, |items|) && (i == chunks ==> done == |items|)
      invariant result == Level(hasher, fanout, all[0..done])
    {
      ChunkBounds(|items|, fanout, chunks, i);
      var startIndex := i * fanout;
      var endIndex := Min(startIndex + fanout, |items|);
      var h := HashItems(hasher, items, extract, startIndex, endIndex);
      LevelGrows(hasher, fanout, all, 0, startIndex, endIndex, i);
      result := result + [h];
      done := endIndex;
    }
    assert all[0..|items|] == all;
    RootStep(hasher, fanout, all);
    if |result| == 1 {
      return result[0];
    }
    root := ComputeMerkleRootLoop(hasher, fanout, result, h => h);
    assert Extracted(result, h => h) == result;
  }

  lemma RootStep(hasher: Hasher, fanout: nat, s: seq<Hash>)
    requires fanout >= 2 && s != []
    ensures var l := Level(hasher, fanout, s);
            && (|l| == 1 <==> |s| <= fanout)
            && Root(hasher, fanout, s) == (if |l| == 1 then l[0] else Root(hasher, fanout, l))
  {
    if |s| > fanout {
      assert Level(hasher, fanout, s[fanout..]) != [];
    }
  }
}
