/**
 The fast form of the Merkle tree: hashes that are scattered over slices, one or three levels per pass. It is
 proved to compute the plain tree of `Merkle`.
 */
module MerkleSlices {
  import opened Basics
  import opened Merkle

  // ----- three levels at once -----

  lemma {:induction false} LevelBound(hasher: Hasher, fanout: nat, s: seq<Hash>, m: nat)
    requires fanout >= 1 && |s| <= m * fanout
    ensures |Level(hasher, fanout, s)| <= m
    decreases m
  {
    if m > 0 && |s| > fanout {
      assert m * fanout == (m - 1) * fanout + fanout;
      LevelBound(hasher, fanout, s[fanout..], m - 1);
    }
  }

  lemma Levels3(hasher: Hasher, fanout: nat, s: seq<Hash>)
    requires fanout >= 1
    ensures Levels(hasher, fanout, s, 3) == Level(hasher, fanout, Level(hasher, fanout, Level(hasher, fanout, s)))
  {
    var l1 := Level(hasher, fanout, s);
    var l2 := Level(hasher, fanout, l1);
    calc {
      Levels(hasher, fanout, s, 3);
      Levels(hasher, fanout, l1, 2);
      Levels(hasher, fanout, l2, 1);
      Levels(hasher, fanout, Level(hasher, fanout, l2), 0);
    }
  }

  /** The hash that three levels make of a single chunk. */
  function ThreeLevelHash(hasher: Hasher, fanout: nat, chunk: seq<Hash>): Hash
    requires fanout >= 1
  {
    hasher(Level(hasher, fanout, Level(hasher, fanout, chunk)))
  }

  /** Three levels of a list are the three-level hashes of its chunks of `fanout^3`; here the last one. */
  lemma ThreeLevelsJoin(hasher: Hasher, fanout: nat, pre: seq<Hash>, suf: seq<Hash>, a: nat, b: nat, k: nat,
                        square: nat)
    requires fanout >= 1 && suf != []
    requires |pre| == a * fanout && a == b * fanout && b == k * fanout
    requires |suf| <= square * fanout && square == fanout * fanout
    ensures Levels(hasher, fanout, pre + suf, 3) ==
              Levels(hasher, fanout, pre, 3) + [ThreeLevelHash(hasher, fanout, suf)]
  {
    var pre1, suf1 := Level(hasher, fanout, pre), Level(hasher, fanout, suf);
    var pre2, suf2 := Level(hasher, fanout, pre1), Level(hasher, fanout, suf1);
    LevelJoin(hasher, fanout, pre, suf, a);
    LevelJoin(hasher, fanout, pre1, suf1, b);
    LevelJoin(hasher, fanout, pre2, suf2, k);
    LevelBound(hasher, fanout, suf, square);
    LevelBound(hasher, fanout, suf1, fanout);
    Levels3(hasher, fanout, pre + suf);
    Levels3(hasher, fanout, pre);
  }

  // ----- hashes scattered over slices -----

  /** `get(i)` is some non-empty run of `all` starting at `i`. */
  ghost predicate SlicesOf(get: nat --> seq<Hash>, all: seq<Hash>) {
    forall i: nat :: i < |all| ==> get.requires(i) && get(i) != [] && get(i) <= all[i..]
  }

  /** What is left of the current slice `data` from `dataIndex` continues `all` at `i`. */
  ghost predicate Cursor(data: seq<Hash>, dataIndex: nat, all: seq<Hash>, i: nat) {
    i <= |all| && (dataIndex < |data| ==> data[dataIndex..] <= all[i..])
  }

  /** Take hash `i`, asking for a new slice when the current one is exhausted. */
  method TakeHash(get: nat --> seq<Hash>, ghost all: seq<Hash>, data: seq<Hash>, dataIndex: nat, i: nat)
    returns (h: Hash, data': seq<Hash>, dataIndex': nat)
    requires SlicesOf(get, all) && i < |all| && Cursor(data, dataIndex, all, i)
    ensures h == all[i] && Cursor(data', dataIndex', all, i + 1)
  {
    data', dataIndex' := data, dataIndex;
    if dataIndex' >= |data'| {
      data' := get(i);
      dataIndex' := 0;
    }
    assert data'[dataIndex'..] <= all[i..];
    h := data'[dataIndex'];
    assert h == data'[dataIndex'..][0] == all[i..][0];
    dataIndex' := dataIndex' + 1;
    if dataIndex' < |data'| {
      assert data'[dataIndex'..] == data'[dataIndex' - 1..][1..];
      assert all[i + 1..] == all[i..][1..];
    }
  }

  /** The `!three_level` body of one chunk. */
  method HashOneLevelChunk(hasher: Hasher, get: nat --> seq<Hash>, ghost all: seq<Hash>, data0: seq<Hash>, start: nat,
                           end: nat)
    returns (h: Hash)
    requires SlicesOf(get, all) && start <= end <= |all| && data0 <= all
    ensures h == hasher(all[start..end])
  {
    var data, dataIndex := data0, start;
    var fed := [];
    for i := start to end
      invariant fed == all[start..i]
      invariant Cursor(data, dataIndex, all, i)
    {
      var x;
      x, data, dataIndex := TakeHash(get, all, data, dataIndex, i);
      fed := fed + [x];
    }
    h := hasher(fed);
  }

  // ----- the unrolled three-level body: `hasher_k` inside `hasher_j` inside `hasher` -----

  /** `hasher_k`: hash up to `fanout` raw hashes from `i0`. */
  method HashGroupK(hasher: Hasher, fanout: nat, get: nat --> seq<Hash>, ghost all: seq<Hash>,
                    data0: seq<Hash>, dataIndex0: nat, i0: nat, end: nat)
    returns (h: Hash, data: seq<Hash>, dataIndex: nat, i: nat)
    requires SlicesOf(get, all) && i0 <= end <= |all| && Cursor(data0, dataIndex0, all, i0)
    ensures i == Min(i0 + fanout, end) && h == hasher(all[i0..i])
    ensures Cursor(data, dataIndex, all, i)
  {
    data, dataIndex, i := data0, dataIndex0, i0;
    var fed := [];
    var count := Min(end - i, fanout);
    for k := 0 to count
      invariant i == i0 + k && fed == all[i0..i]
      invariant Cursor(data, dataIndex, all, i)
    {
      var x;
      x, data, dataIndex := TakeHash(get, all, data, dataIndex, i);
      fed := fed + [x];
      i := i + 1;
    }
    h := hasher(fed);
  }

  /** `hasher_j`: hash up to `fanout` results of `hasher_k`, stopping when the chunk is exhausted. */
  method HashGroupJ(hasher: Hasher, fanout: nat, get: nat --> seq<Hash>, ghost all: seq<Hash>,
                    data0: seq<Hash>, dataIndex0: nat, i0: nat, end: nat)
    returns (h: Hash, data: seq<Hash>, dataIndex: nat, i: nat)
    requires fanout >= 1
    requires SlicesOf(get, all) && i0 < end <= |all| && Cursor(data0, dataIndex0, all, i0)
    ensures i0 < i == Min(i0 + fanout * fanout, end) && h == hasher(Level(hasher, fanout, all[i0..i]))
    ensures Cursor(data, dataIndex, all, i)
  {
    MulMonotone(1, fanout, fanout);
    data, dataIndex, i := data0, dataIndex0, i0;
    var fed := [];
    ghost var full := 0;
    var j := 0;
    while j < fanout && i < end
      invariant 0 <= j <= fanout && full == j * fanout <= fanout * fanout && i0 <= i == Min(i0 + full, end)
      invariant fed == Level(hasher, fanout, all[i0..i])
      invariant Cursor(data, dataIndex, all, i)
    {
      var x;
      ghost var was := i;
      x, data, dataIndex, i := HashGroupK(hasher, fanout, get, all, data, dataIndex, i, end);
      fed := fed + [x];
      LevelGrows(hasher, fanout, all, i0, was, i, j);
      NextMultiple(j, fanout);
      j, full := j + 1, full + fanout;
    }
    h := hasher(fed);
  }

  lemma NextMultiple(j: nat, f: nat)
    requires j < f
    ensures (j + 1) * f == j * f + f <= f * f
  {
    MulMonotone(j + 1, f, f);
  }

  lemma TwoLevelsJoin(hasher: Hasher, fanout: nat, pre: seq<Hash>, suf: seq<Hash>, a: nat, k: nat)
    requires fanout >= 1 && suf != []
    requires |pre| == a * fanout && a == k * fanout
    requires |suf| <= fanout * fanout
    ensures Level(hasher, fanout, Level(hasher, fanout, pre + suf))
         == Level(hasher, fanout, Level(hasher, fanout, pre)) + [hasher(Level(hasher, fanout, suf))]
  {
    LevelJoin(hasher, fanout, pre, suf, a);
    LevelJoin(hasher, fanout, Level(hasher, fanout, pre), Level(hasher, fanout, suf), k);
    LevelBound(hasher, fanout, suf, fanout);
  }

  /** `TwoLevelsJoin` on consecutive slices. */
  lemma TwoLevelsGrow(hasher: Hasher, fanout: nat, all: seq<Hash>, start: nat, was: nat, i: nat, a: nat, k: nat)
    requires fanout >= 1 && start <= was < i <= |all|
    requires was == start + a * fanout && a == k * fanout && i <= was + fanout * fanout
    ensures Level(hasher, fanout, Level(hasher, fanout, all[start..i]))
         == Level(hasher, fanout, Level(hasher, fanout, all[start..was])) + [hasher(Level(hasher, fanout, all[was..i]))]
  {
    var pre, suf := all[start..was], all[was..i];
    assert all[start..i] == pre + suf;
    TwoLevelsJoin(hasher, fanout, pre, suf, a, k);
  }

  lemma NextSquare(c: nat, a: nat, full: nat, f: nat)
    requires full == a * f && a == c * f
    ensures full + f * f == (a + f) * f && a + f == (c + 1) * f
  {
  }

  /** The `three_level` body of one chunk. */
  method HashThreeLevelChunk(hasher: Hasher, fanout: nat, get: nat --> seq<Hash>, ghost all: seq<Hash>,
                             data0: seq<Hash>, start: nat, end: nat)
    returns (h: Hash)
    requires fanout >= 1
    requires SlicesOf(get, all) && start <= end <= |all| && data0 <= all
    ensures h == ThreeLevelHash(hasher, fanout, all[start..end])
  {
    var data, dataIndex, i := data0, start, start;
    var fed := [];
    ghost var c, a, full := 0, 0, 0;
    while i < end
      invariant start <= i <= end
      invariant full == a * fanout && a == c * fanout && i == Min(start + full, end)
      invariant fed == Level(hasher, fanout, Level(hasher, fanout, all[start..i]))
      invariant Cursor(data, dataIndex, all, i)
    {
      var x;
      ghost var was := i;
      x, data, dataIndex, i := HashGroupJ(hasher, fanout, get, all, data, dataIndex, i, end);
      fed := fed + [x];
      TwoLevelsGrow(hasher, fanout, all, start, was, i, a, c);
      NextSquare(c, a, full, fanout);
      c, a, full := c + 1, a + fanout, full + fanout * fanout;
    }
    h := hasher(fed);
  }

  // ----- `compute_merkle_root_from_slices` -----

  /** From how many hashes on three levels at once leave at least `fanout` of them. */
  function ThreeLevelThreshold(fanout: nat): nat {
    fanout * fanout * fanout * fanout
  }

  /** (hashes per chunk, levels per pass, three levels at once?) */
  function CalculateThreeLevelChunks(total: nat, fanout: nat, maxLevelsPerPass: Option<nat>,
                                     specificLevelCount: Option<nat>)
    : (r: (nat, nat, bool))
    ensures r.2 <==>
              total >= ThreeLevelThreshold(fanout) && maxLevelsPerPass.GetOr(3) >= 3 && specificLevelCount.GetOr(3) >= 3
    ensures r.2 ==> r == (fanout * fanout * fanout, 3, true)
    ensures !r.2 ==> r == (fanout, 1, false)
    ensures specificLevelCount.Some? && specificLevelCount.value >= 1 ==> r.1 <= specificLevelCount.value
  {
    var target := fanout * fanout * fanout;
    var threeLevel := (maxLevelsPerPass.None? || maxLevelsPerPass.value >= 3) && total >= ThreeLevelThreshold(fanout)
                      && (specificLevelCount.None? || specificLevelCount.value >= 3);
    if threeLevel then (target, 3, true) else (fanout, 1, false)
  }

  /** The body of the parallel loop: chunk `i` adds one hash to the output of the pass. */
  method HashChunk(hasher: Hasher, fanout: nat, get: nat --> seq<Hash>, ghost all: seq<Hash>, data: seq<Hash>,
                   ghost i: nat, ghost perChunk: nat, levels: nat, start: nat, end: nat)
    returns (h: Hash)
    requires fanout >= 1 && SlicesOf(get, all) && data <= all
    requires (perChunk == fanout && levels == 1) || (perChunk == fanout * fanout * fanout && levels == 3)
    requires start == i * perChunk && start < end <= |all| && end <= start + perChunk
    ensures Levels(hasher, fanout, all[..end], levels) == Levels(hasher, fanout, all[..start], levels) + [h]
  {
    if levels == 1 {
      h := HashOneLevelChunk(hasher, get, all, data, start, end);
    } else {
      h := HashThreeLevelChunk(hasher, fanout, get, all, data, start, end);
    }
    PassGrows(hasher, fanout, all, i, perChunk, levels, end);
  }

  /** One pass over all chunks: one or three plain levels. */
  method HashPass(hasher: Hasher, total: nat, fanout: nat, maxLevelsPerPass: Option<nat>, get: nat --> seq<Hash>,
                  ghost all: seq<Hash>, specificLevelCount: Option<nat>)
    returns (result: seq<Hash>, levelsHashed: nat)
    requires fanout >= 1 && total == |all| > 0 && SlicesOf(get, all)
    ensures levelsHashed == 1 || (levelsHashed == 3 && total >= ThreeLevelThreshold(fanout))
    ensures specificLevelCount.Some? && specificLevelCount.value >= 1 ==> levelsHashed <= specificLevelCount.value
    ensures result == Levels(hasher, fanout, all, levelsHashed)
  {
    var (perChunk, levels, threeLevel) := CalculateThreeLevelChunks(total, fanout, maxLevelsPerPass, specificLevelCount);
    levelsHashed := levels;
    CubePositive(fanout);
    var chunks := DivCeil(total, perChunk);
    var data := get(0);
    assert all[0..] == all;
    result := [];
    ghost var done := 0;
    for i := 0 to chunks
      invariant done == InChunks(i, perChunk, total) && (i == chunks ==> done == total)
      invariant result == Levels(hasher, fanout, all[..done], levels)
    {
      ChunkBounds(total, perChunk, chunks, i);
      var startIndex := i * perChunk;
      var endIndex := Min(startIndex + perChunk, total);
      var h := HashChunk(hasher, fanout, get, all, data, i, perChunk, levels, startIndex, endIndex);
      result := result + [h];
      done := endIndex;
    }
    assert all[..total] == all;
  }

  lemma CubePositive(f: nat)
    requires f >= 1
    ensures f * f * f >= 1
  {
    assert f * f >= 1;
    MulMonotone(1, f * f, f);
  }

  /** Hashing chunk `i` extends the output of a pass by that chunk's hash. */
  lemma PassGrows(hasher: Hasher, fanout: nat, all: seq<Hash>, i: nat, perChunk: nat, levels: nat, end: nat)
    requires fanout >= 1
    requires (perChunk == fanout && levels == 1) || (perChunk == fanout * fanout * fanout && levels == 3)
    requires i * perChunk < end <= |all| && end <= i * perChunk + perChunk
    ensures Levels(hasher, fanout, all[..end], levels) == Levels(hasher, fanout, all[..i * perChunk], levels)
              + [if levels == 1 then hasher(all[i * perChunk..end]) else ThreeLevelHash(hasher, fanout, all[i * perChunk..end])]
  {
    var cut := i * perChunk;
    if levels == 1 {
      LevelGrows(hasher, fanout, all, 0, cut, end, i);
      assert all[0..cut] == all[..cut] && all[0..end] == all[..end];
    } else {
      assert all[..cut] + all[cut..end] == all[..end];
      CubeFactors(i, fanout);
      ThreeLevelsJoin(hasher, fanout, all[..cut], all[cut..end], i * fanout * fanout, i * fanout, i, fanout * fanout);
    }
  }

  lemma CubeFactors(k: nat, f: nat)
    ensures k * (f * f * f) == (k * f * f) * f
    ensures k * f * f == (k * f) * f
  {
  }

  lemma {:induction false} LevelsCompose(hasher: Hasher, fanout: nat, s: seq<Hash>, j: nat, k: nat)
    requires fanout >= 1
    ensures Levels(hasher, fanout, Levels(hasher, fanout, s, j), k) == Levels(hasher, fanout, s, j + k)
    decreases j
  {
    if j > 0 {
      LevelsCompose(hasher, fanout, Level(hasher, fanout, s), j - 1, k);
    }
  }

  lemma {:induction false} LevelsNonEmpty(hasher: Hasher, fanout: nat, s: seq<Hash>, k: nat)
    requires fanout >= 1 && s != []
    ensures Levels(hasher, fanout, s, k) != []
    decreases k
  {
    if k > 0 {
      LevelsNonEmpty(hasher, fanout, Level(hasher, fanout, s), k - 1);
    }
  }

  /** Plain levels above the top do not change the root. */
  lemma RootOfPass(hasher: Hasher, fanout: nat, s: seq<Hash>, levels: nat)
    requires fanout >= 2 && s != []
    requires levels == 1 || (levels == 3 && |s| >= ThreeLevelThreshold(fanout))
    ensures var l := Levels(hasher, fanout, s, levels);
            && l != []
            && Root(hasher, fanout, s) == (if |l| == 1 then l[0] else Root(hasher, fanout, l))
  {
    RootStep(hasher, fanout, s);
    if levels == 1 {
      assert Levels(hasher, fanout, s, 1) == Level(hasher, fanout, s);
    } else {
      var l1 := Level(hasher, fanout, s);
      var l2 := Level(hasher, fanout, l1);
      Levels3(hasher, fanout, s);
      CubePositive(fanout);
      LevelAtLeast(hasher, fanout, s, fanout * fanout * fanout);
      LevelAtLeast(hasher, fanout, l1, fanout * fanout);
      RootStep(hasher, fanout, l1);
      RootStep(hasher, fanout, l2);
      MulMonotone(2, fanout, fanout);
      MulMonotone(2, fanout * fanout, fanout);
    }
  }

  lemma LevelAtLeast(hasher: Hasher, fanout: nat, s: seq<Hash>, m: nat)
    requires fanout >= 1 && m * fanout <= |s|
    ensures |Level(hasher, fanout, s)| >= m
  {
    var cut := m * fanout;
    assert s == s[..cut] + s[cut..];
    LevelJoin(hasher, fanout, s[..cut], s[cut..], m);
  }

  /**
   The fast form. Without a level count it returns the plain root; with `Some(k)` it returns exactly
   `k` plain levels, whatever the limit per pass and however the hashes are cut into slices.
   */
  method ComputeMerkleRootFromSlices(hasher: Hasher, total: nat, fanout: nat, maxLevelsPerPass: Option<nat>,
                                     get: nat --> seq<Hash>, ghost all: seq<Hash>, specificLevelCount: Option<nat>)
    returns (root: Hash, levels: seq<Hash>)
    requires fanout >= 2 && total == |all| && SlicesOf(get, all)
    requires specificLevelCount.Some? ==> specificLevelCount.value >= 1
    ensures specificLevelCount.None? ==> root == Root(hasher, fanout, all) && levels == []
    ensures specificLevelCount.Some? && all != [] ==> levels == Levels(hasher, fanout, all, specificLevelCount.value)
    ensures all == [] ==> root == hasher([]) && levels == []
    decreases specificLevelCount.GetOr(0), 1
  {
    if total == 0 {
      return hasher([]), [];
    }
    var result, levelsHashed := HashPass(hasher, total, fanout, maxLevelsPerPass, get, all, specificLevelCount);
    match specificLevelCount {
      case Some(k) =>
        var left := k - levelsHashed;
        if left == 0 {
          return 0, result;
        }
        LevelsNonEmpty(hasher, fanout, all, levelsHashed);
        LevelsCompose(hasher, fanout, all, levelsHashed, left);
        root, levels := ComputeMerkleRootFromSlicesRecurse(hasher, result, fanout, maxLevelsPerPass, left);
      case None =>
        RootOfPass(hasher, fanout, all, levelsHashed);
        if |result| == 1 {
          return result[0], [];
        }
        root := ComputeMerkleRootLoop(hasher, fanout, result, h => h);
        assert Extracted(result, h => h) == result;
        levels := [];
    }
  }

  method ComputeMerkleRootFromSlicesRecurse(hasher: Hasher, hashes: seq<Hash>, fanout: nat,
                                            maxLevelsPerPass: Option<nat>, count: nat)
    returns (root: Hash, levels: seq<Hash>)
    requires fanout >= 2 && hashes != [] && count >= 1
    ensures levels == Levels(hasher, fanout, hashes, count)
    decreases count + 1, 0
  {
    root, levels := ComputeMerkleRootFromSlices(
      hasher, |hashes|, fanout, maxLevelsPerPass,
      start requires 0 <= start <= |hashes| => hashes[start..], hashes, Some(count));
  }
}
