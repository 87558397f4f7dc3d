/**
 Virtual flattening: reading a list of hash vectors, some of them empty, as one long list without
 copying. `CumulativeOffsets` records where each non-empty vector starts in the long list.
 */
module Flattening {
  import opened Basics
  import Merkle
  import MerkleSlices

  datatype Offset = Offset(index: nat, startOffset: nat)

  datatype CumulativeOffsets = CumulativeOffsets(offsets: seq<Offset>, totalCount: nat)

  /** Where the vector described by entry `i` ends in the flattened data. */
  function EndOf(co: CumulativeOffsets, i: nat): nat
    requires i < |co.offsets|
  {
    if i + 1 < |co.offsets| then co.offsets[i + 1].startOffset else co.totalCount
  }

  /** Entry `i` describes one non-empty vector of `raw` and the place it has in the flattened data. */
  ghost predicate DescribesAt<T>(co: CumulativeOffsets, raw: seq<seq<T>>, i: nat)
    requires i < |co.offsets|
  {
    var o := co.offsets[i];
    && o.index < |raw| && raw[o.index] != []
    && o.startOffset == |Flatten(raw[..o.index])|
    && EndOf(co, i) == o.startOffset + |raw[o.index]|
  }

  ghost predicate Describes<T>(co: CumulativeOffsets, raw: seq<seq<T>>) {
    && co.totalCount == |Flatten(raw)|
    && (co.offsets == [] ==> co.totalCount == 0)
    && (co.offsets != [] ==> co.offsets[0].startOffset == 0)
    && forall i: nat :: i < |co.offsets| ==> DescribesAt(co, raw, i)
  }

  /** What one more vector does to the offsets. */
  function WithVector(co: CumulativeOffsets, index: nat, length: nat): CumulativeOffsets {
    if length > 0 then CumulativeOffsets(co.offsets + [Offset(index, co.totalCount)], co.totalCount + length) else co
  }

  lemma DescribesOneMore<T>(co: CumulativeOffsets, raw: seq<seq<T>>, more: seq<T>, k: nat)
    requires Describes(co, raw) && k < |WithVector(co, |raw|, |more|).offsets|
    ensures DescribesAt(WithVector(co, |raw|, |more|), raw + [more], k)
  {
    var upto := raw + [more];
    if k < |co.offsets| {
      assert DescribesAt(co, raw, k);
      var index := co.offsets[k].index;
      assert raw[..index] == upto[..index];
    } else {
      assert upto[..|raw|] == raw;
    }
  }

  lemma DescribesSnoc<T>(co: CumulativeOffsets, raw: seq<seq<T>>, more: seq<T>)
    requires Describes(co, raw)
    ensures Describes(WithVector(co, |raw|, |more|), raw + [more])
  {
    var co' := WithVector(co, |raw|, |more|);
    forall k: nat | k < |co'.offsets|
      ensures DescribesAt(co', raw + [more], k)
    {
      DescribesOneMore(co, raw, more, k);
    }
    FlattenSnoc(raw, more);
  }

  /** `CumulativeOffsets::new` over the lengths of `raw`. */
  method FromRaw<T>(raw: seq<seq<T>>) returns (co: CumulativeOffsets)
    ensures Describes(co, raw)
  {
    co := CumulativeOffsets([], 0);
    for i := 0 to |raw|
      invariant Describes(co, raw[..i])
    {
      assert raw[..i + 1] == raw[..i] + [raw[i]];
      DescribesSnoc(co, raw[..i], raw[i]);
      if |raw[i]| > 0 {
        co := CumulativeOffsets(co.offsets + [Offset(i, co.totalCount)], co.totalCount + |raw[i]|);
      }
    }
    assert raw[..|raw|] == raw;
  }

  /** The last entry that starts at or before `start`. */
  function IndexOf(offsets: seq<Offset>, start: nat): (i: nat)
    requires offsets != [] && offsets[0].startOffset <= start
    ensures i < |offsets| && offsets[i].startOffset <= start
    ensures i + 1 < |offsets| ==> start < offsets[i + 1].startOffset
  {
    var last := |offsets| - 1;
    if offsets[last].startOffset <= start then last else IndexOf(offsets[..last], start)
  }

  lemma {:induction false} StartsAscend<T>(co: CumulativeOffsets, raw: seq<seq<T>>, i: nat, j: nat)
    requires Describes(co, raw) && i < j < |co.offsets|
    ensures co.offsets[i].startOffset < co.offsets[j].startOffset
    decreases j
  {
    assert DescribesAt(co, raw, j - 1);
    if i < j - 1 {
      StartsAscend(co, raw, i, j - 1);
    }
  }

  /** `find_index`: a binary search on the start offsets. */
  method FindIndex<T>(co: CumulativeOffsets, ghost raw: seq<seq<T>>, start: nat) returns (index: nat)
    requires Describes(co, raw) && start < co.totalCount
    ensures index < |co.offsets| && index == IndexOf(co.offsets, start)
  {
    forall i, j | 0 <= i < j < |co.offsets|
      ensures co.offsets[i].startOffset < co.offsets[j].startOffset
    {
      StartsAscend(co, raw, i, j);
    }
    var search := BinarySearchBy(co.offsets, (o: Offset) => Cmp(o.startOffset, start));
    match search {
      case Found(i) => index := i;
      case Missing(i) => index := i - 1; // the place to insert is one past the entry that holds `start`
    }
  }

  /** The rest of the vector that holds position `start`. */
  function SliceAt<T>(co: CumulativeOffsets, raw: seq<seq<T>>, start: nat): (r: seq<T>)
    requires Describes(co, raw) && start < co.totalCount
  {
    var i := IndexOf(co.offsets, start);
    assert DescribesAt(co, raw, i);
    raw[co.offsets[i].index][start - co.offsets[i].startOffset..]
  }

  method GetSlice<T>(co: CumulativeOffsets, raw: seq<seq<T>>, start: nat) returns (r: seq<T>)
    requires Describes(co, raw) && start < co.totalCount
    ensures r != [] && r <= Flatten(raw)[start..]
    ensures r == SliceAt(co, raw, start)
  {
    var index := FindIndex(co, raw, start);
    assert DescribesAt(co, raw, index);
    var offset := co.offsets[index];
    r := raw[offset.index][start - offset.startOffset..];
    SliceContinues(co, raw, start);
  }

  /** A slice is non-empty and is what the flattened data holds from `start` on. */
  lemma SliceContinues<T>(co: CumulativeOffsets, raw: seq<seq<T>>, start: nat)
    requires Describes(co, raw) && start < co.totalCount
    ensures SliceAt(co, raw, start) != []
    ensures SliceAt(co, raw, start) <= Flatten(raw)[start..]
  {
    var i := IndexOf(co.offsets, start);
    assert DescribesAt(co, raw, i);
    var o := co.offsets[i];
    FlattenAround(raw, o.index);
    var before, mid := Flatten(raw[..o.index]), raw[o.index];
    assert Flatten(raw)[start..] == mid[start - o.startOffset..] + Flatten(raw[o.index + 1..]);
  }

  lemma FlattenAround<T>(raw: seq<seq<T>>, i: nat)
    requires i < |raw|
    ensures Flatten(raw) == Flatten(raw[..i]) + raw[i] + Flatten(raw[i + 1..])
  {
    assert raw == raw[..i] + raw[i..];
    FlattenAppend(raw[..i], raw[i..]);
    assert raw[i..][1..] == raw[i + 1..];
  }

  /** The tree over the flattened data, read through `SliceAt`. */
  method RootOfVectors(hasher: Merkle.Hasher, co: CumulativeOffsets, raw: seq<seq<Hash>>) returns (root: Hash)
    requires Describes(co, raw)
    ensures root == Merkle.Root(hasher, Merkle.MERKLE_FANOUT, Flatten(raw))
  {
    forall start: nat | start < co.totalCount
      ensures SliceAt(co, raw, start) != [] && SliceAt(co, raw, start) <= Flatten(raw)[start..]
    {
      SliceContinues(co, raw, start);
    }
    var levels;
    root, levels := MerkleSlices.ComputeMerkleRootFromSlices(
      hasher, co.totalCount, Merkle.MERKLE_FANOUT, None,
      (start: nat) requires start < co.totalCount => SliceAt(co, raw, start), Flatten(raw), None);
  }

  /** `calculate_hash`: the root of the concatenation of the vectors, and how many hashes there are. */
  method CalculateHash(hasher: Merkle.Hasher, hashes: seq<seq<Hash>>) returns (root: Hash, hashTotal: nat)
    ensures root == Merkle.Root(hasher, Merkle.MERKLE_FANOUT, Flatten(hashes))
    ensures hashTotal == |Flatten(hashes)|
  {
    var co := FromRaw(hashes);
    hashTotal := co.totalCount;
    root := RootOfVectors(hasher, co, hashes);
  }

  // ----- the file-backed variant -----

  /** One file of hashes; it is only created by the first write. `capacity` counts hashes. */
  datatype HashesFile = HashesFile(writer: Option<seq<Hash>>, capacity: nat) {
    function Contents(): seq<Hash> {
      writer.GetOr([])
    }

    /** A file that exists holds at least one hash, and never more than was allocated. */
    predicate Valid() {
      && (writer.Some? ==> writer.value != [])
      && |Contents()| <= capacity
    }

    /** Append one hash; the memory map has room for `capacity` of them and no more. */
    function Write(h: Hash): (f: HashesFile)
      requires Valid() && |Contents()| < capacity
      ensures f.Valid() && f.Contents() == Contents() + [h] && f.capacity == capacity
    {
      HashesFile(Some(Contents() + [h]), capacity)
    }
  }

  function AllContents(files: seq<HashesFile>): seq<seq<Hash>> {
    seq(|files|, i requires 0 <= i < |files| => files[i].Contents())
  }

  /** `CumulativeHashesFromFiles::from_files`: the files that hold nothing have no reader. */
  method FromFiles(files: seq<HashesFile>) returns (readers: seq<seq<Hash>>, co: CumulativeOffsets)
    ensures Describes(co, readers) && Flatten(readers) == Flatten(AllContents(files))
  {
    readers := [];
    for i := 0 to |files|
      invariant Flatten(readers) == Flatten(AllContents(files[..i]))
    {
      assert AllContents(files[..i + 1]) == AllContents(files[..i]) + [files[i].Contents()];
      FlattenSnoc(AllContents(files[..i]), files[i].Contents());
      if files[i].writer.Some? {
        FlattenSnoc(readers, files[i].writer.value);
        readers := readers + [files[i].writer.value];
      }
    }
    assert files[..|files|] == files;
    co := FromRaw(readers);
  }
}
