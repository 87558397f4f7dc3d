/**
 Rent partitions: the key space is cut into `n` ranges by the first eight bytes of the key, and the
 slots of a cycle collect the ranges one after the other.
 */
module RentPartitions {
  import opened Basics

  const PREFIX_MAX: nat := U64_MAX
  /** How many keys share one eight-byte prefix. */
  const SUFFIXES: nat := 0x1_0000000000000000_0000000000000000_0000000000000000

  /** (start index, end index, partition count) */
  datatype Partition = Partition(start: nat, end: nat, count: nat)

  datatype KeyRange = KeyRange(first: Pubkey, last: Pubkey) {
    predicate Holds(k: Pubkey) {
      first <= k <= last
    }
  }

  function PrefixFromPubkey(k: Pubkey): (p: nat)
    ensures p <= PREFIX_MAX && p * SUFFIXES <= k < (p + 1) * SUFFIXES
  {
    k / SUFFIXES
  }

  /** Unsigned division. */
  function Quotient(x: nat, d: nat): (q: nat)
    requires d >= 1
    ensures q * d <= x < q * d + d
  {
    QuotientBounds(x, d);
    x / d
  }

  /** `(2^64 - n) / n + 1`, which cannot overflow. */
  function PartitionWidth(n: nat): (w: nat)
    requires 1 <= n <= PREFIX_MAX
    ensures w >= 1 && n * w <= PREFIX_MAX + 1 < n * w + n
  {
    var q := Quotient(PREFIX_MAX - n + 1, n);
    assert n * (q + 1) == q * n + n;
    q + 1
  }

  lemma MulStep(i: nat, w: nat)
    ensures (i + 1) * w == i * w + w
  {
  }

  /** No product of an index below `n` and the width overflows 64 bits. */
  lemma ProductFits(n: nat, i: nat)
    requires 1 <= n <= PREFIX_MAX && i < n
    ensures i * PartitionWidth(n) + PartitionWidth(n) <= PREFIX_MAX + 1
  {
    var w := PartitionWidth(n);
    MulStep(i, w);
    MulMonotone(i + 1, n, w);
  }

  /** What the source asserts of a partition. */
  predicate ValidPartition(p: Partition) {
    p.start <= p.end < p.count <= PREFIX_MAX
  }

  /** The key with the given first eight bytes, the others all zero or all ones. */
  function KeyWithPrefix(prefix: nat, ones: bool): Pubkey
    requires prefix <= PREFIX_MAX
  {
    prefix * SUFFIXES + if ones then SUFFIXES - 1 else 0
  }

  function StartPrefix(p: Partition): (r: nat)
    requires ValidPartition(p)
    ensures r <= PREFIX_MAX
  {
    if p.start == 0 && p.end == 0 then 0
    else if p.start + 1 == p.count then PREFIX_MAX
    else
      ProductFits(p.count, p.start + 1);
      (p.start + 1) * PartitionWidth(p.count)
  }

  function EndPrefix(p: Partition): (r: nat)
    requires ValidPartition(p)
    ensures r <= PREFIX_MAX
  {
    if p.end + 1 == p.count then PREFIX_MAX
    else
      ProductFits(p.count, p.end + 1);
      MulStep(p.end, PartitionWidth(p.count));
      (p.end + 1) * PartitionWidth(p.count) - 1
  }

  /** `pubkey_range_from_partition`. */
  function PubkeyRangeFromPartition(p: Partition): (r: KeyRange)
    requires ValidPartition(p)
  {
    var start, end := StartPrefix(p), EndPrefix(p);
    if p.count == 1 then KeyRange(KeyWithPrefix(0, false), KeyWithPrefix(PREFIX_MAX, true))
    else if p.start != 0 && p.start == p.end then
      // a no-op partition: a single key
      if end == PREFIX_MAX then KeyRange(KeyWithPrefix(end, true), KeyWithPrefix(end, true))
      else KeyRange(KeyWithPrefix(start, false), KeyWithPrefix(start, false))
    else KeyRange(KeyWithPrefix(start, false), KeyWithPrefix(end, true))
  }

  /** The range that the end index `i` stands for: of (0, 0) for 0, of (i-1, i) otherwise. */
  function UnitPartition(n: nat, i: nat): Partition {
    if i == 0 then Partition(0, 0, n) else Partition(i - 1, i, n)
  }

  function UnitRange(n: nat, i: nat): KeyRange
    requires i < n <= PREFIX_MAX
  {
    PubkeyRangeFromPartition(UnitPartition(n, i))
  }

  /** The prefixes at which a unit range begins and ends. */
  lemma UnitBounds(n: nat, i: nat)
    requires 2 <= n <= PREFIX_MAX && i < n
    ensures UnitRange(n, i).first == i * PartitionWidth(n) * SUFFIXES
    ensures UnitRange(n, i).last == (if i + 1 == n then KEY_SPACE - 1 else (i + 1) * PartitionWidth(n) * SUFFIXES - 1)
  {
    var w := PartitionWidth(n);
    MulStep(i, w);
    ProductFits(n, i);
  }

  /** The unit ranges follow each other without gap or overlap and fill the key space. */
  lemma UnitsTile(n: nat)
    requires 2 <= n <= PREFIX_MAX
    ensures UnitRange(n, 0).first == 0 && UnitRange(n, n - 1).last == KEY_SPACE - 1
    ensures forall i :: 0 <= i < n ==> UnitRange(n, i).first <= UnitRange(n, i).last
    ensures forall i :: 0 <= i < n - 1 ==> UnitRange(n, i).last + 1 == UnitRange(n, i + 1).first
  {
    var w := PartitionWidth(n);
    UnitBounds(n, 0);
    UnitBounds(n, n - 1);
    forall i | 0 <= i < n
      ensures UnitRange(n, i).first <= UnitRange(n, i).last
    {
      UnitBounds(n, i);
      ProductFits(n, i);
      MulStep(i, w);
    }
    forall i | 0 <= i < n - 1
      ensures UnitRange(n, i).last + 1 == UnitRange(n, i + 1).first
    {
      UnitBounds(n, i);
      UnitBounds(n, i + 1);
    }
  }

  /** A partition (a, b) with a < b is the union of its unit ranges: it begins and ends where they do. */
  lemma PartitionIsUnion(n: nat, a: nat, b: nat)
    requires 2 <= n <= PREFIX_MAX && a < b < n
    ensures PubkeyRangeFromPartition(Partition(a, b, n)) == KeyRange(UnitRange(n, a + 1).first, UnitRange(n, b).last)
  {
    UnitBounds(n, a + 1);
    UnitBounds(n, b);
  }

  /** `partition_from_pubkey`. */
  function PartitionFromPubkey(k: Pubkey, n: nat): (r: nat)
    requires 1 <= n <= PREFIX_MAX
  {
    if n == 1 then 0
    else
      var w := PartitionWidth(n);
      var prefix := PrefixFromPubkey(k);
      if prefix == 0 then 0
      else if prefix == PREFIX_MAX then n - 1
      else
        var result := Quotient(prefix + 1, w);
        if prefix + 1 == result * w then (if result == 0 then 0 else result - 1) else result
  }

  /** Below the maximal prefix, the result is the number of whole widths below the prefix. */
  lemma PartitionByWidth(k: Pubkey, n: nat)
    requires 2 <= n <= PREFIX_MAX && PrefixFromPubkey(k) < PREFIX_MAX
    ensures var w, r := PartitionWidth(n), PartitionFromPubkey(k, n);
            r * w <= PrefixFromPubkey(k) < r * w + w
  {
    var w, r := PartitionWidth(n), PartitionFromPubkey(k, n);
    var prefix := PrefixFromPubkey(k);
    if 0 < prefix {
      var q := Quotient(prefix + 1, w);
      if q > 0 {
        MulStep(q - 1, w);
      }
    }
  }

  /**
   `partition_from_pubkey` names a partition whose range holds the key exactly for the prefixes below
   `n` widths and for the maximal prefix. In between it names an index that is not a partition at all.
   */
  lemma InverseExactly(k: Pubkey, n: nat)
    requires 2 <= n <= PREFIX_MAX
    ensures var r, prefix := PartitionFromPubkey(k, n), PrefixFromPubkey(k);
            (r < n && UnitRange(n, r).Holds(k)) <==> (prefix < n * PartitionWidth(n) || prefix == PREFIX_MAX)
    ensures PartitionFromPubkey(k, n) >= n <==> n * PartitionWidth(n) <= PrefixFromPubkey(k) < PREFIX_MAX
  {
    var w, r, prefix := PartitionWidth(n), PartitionFromPubkey(k, n), PrefixFromPubkey(k);
    if prefix < PREFIX_MAX {
      PartitionByWidth(k, n);
      MulStep(r, w);
      if r < n {
        UnitBounds(n, r);
        MulMonotone(r + 1, n, w);
      } else {
        MulMonotone(n, r, w);
      }
    } else {
      UnitBounds(n, n - 1);
      ProductFits(n, n - 1);
    }
  }

  /** Ten partitions: a key close to the end of the key space for which there is no partition. */
  lemma NoPartition()
    ensures PartitionFromPubkey(KeyWithPrefix(PREFIX_MAX - 3, false), 10) == 10
  {
    var k := KeyWithPrefix(PREFIX_MAX - 3, false);
    assert PartitionWidth(10) == 1844674407370955161;
    assert PrefixFromPubkey(k) == PREFIX_MAX - 3;
    PartitionByWidth(k, 10);
  }

  /** A key lies in one unit range only. */
  lemma UnitUnique(n: nat, i: nat, j: nat, k: Pubkey)
    requires 2 <= n <= PREFIX_MAX && i < n && j < n
    requires UnitRange(n, i).Holds(k) && UnitRange(n, j).Holds(k)
    ensures i == j
  {
    var w := PartitionWidth(n);
    UnitBounds(n, i);
    UnitBounds(n, j);
    if i < j {
      MulMonotone(i + 1, j, w);
    } else if j < i {
      MulMonotone(j + 1, i, w);
    }
  }

  /**
   No key gets an index above `n`, for which there still is a list, if and only if `n + 1` widths reach the last
   prefixes.
   */
  lemma IndexInBoundsExactly(n: nat)
    requires 2 <= n <= PREFIX_MAX
    ensures (forall k: Pubkey :: PartitionFromPubkey(k, n) <= n) <==> PREFIX_MAX - 1 < (n + 1) * PartitionWidth(n)
  {
    var w := PartitionWidth(n);
    if PREFIX_MAX - 1 < (n + 1) * w {
      forall k: Pubkey
        ensures PartitionFromPubkey(k, n) <= n
      {
        WithinWidths(k, n);
      }
    } else {
      var k := KeyWithPrefix(PREFIX_MAX - 1, false);
      assert PrefixFromPubkey(k) == PREFIX_MAX - 1;
      WithinWidths(k, n);
      assert PartitionFromPubkey(k, n) > n;
    }
  }

  lemma WithinWidths(k: Pubkey, n: nat)
    requires 2 <= n <= PREFIX_MAX
    ensures PartitionFromPubkey(k, n) <= n <==>
              PrefixFromPubkey(k) < (n + 1) * PartitionWidth(n) || PrefixFromPubkey(k) == PREFIX_MAX
  {
    var w, r, prefix := PartitionWidth(n), PartitionFromPubkey(k, n), PrefixFromPubkey(k);
    if prefix < PREFIX_MAX {
      PartitionByWidth(k, n);
      MulStep(r, w);
      if r <= n {
        MulMonotone(r + 1, n + 1, w);
      } else {
        MulMonotone(n + 1, r, w);
      }
    }
  }

  /** So it is with at most 2^32 partitions. */
  lemma IndexInBounds(k: Pubkey, n: nat)
    requires 1 <= n <= 0x1_0000_0000
    ensures PartitionFromPubkey(k, n) <= n
  {
    if n > 1 {
      var w := PartitionWidth(n);
      WideEnough(n, w);
      MulStep(n, w);
      WithinWidths(k, n);
    }
  }

  lemma WideEnough(n: nat, w: nat)
    requires 1 <= n <= 0x1_0000_0000 && PREFIX_MAX + 1 < n * w + n
    ensures w >= n
  {
    if w < n {
      MulMonotone(w + 1, n, n);
      MulMonotone(n, 0x1_0000_0000, n);
    }
  }

  // ----- the accounts that may pay rent, by partition -----

  /** With more partitions there can be keys whose index is above `n`. */
  lemma IndexOutOfBounds()
    ensures PartitionFromPubkey(KeyWithPrefix(PREFIX_MAX - 1, false), 0x8000_0000_0000_0001) > 0x8000_0000_0000_0001
  {
    var n := 0x8000_0000_0000_0001;
    var k := KeyWithPrefix(PREFIX_MAX - 1, false);
    assert PartitionWidth(n) == 1;
    assert PrefixFromPubkey(k) == PREFIX_MAX - 1;
    PartitionByWidth(k, n);
  }

  class RentPayingAccountsByPartition {
    var accounts: seq<set<Pubkey>>
    const partitionCount: nat

    predicate Valid()
      reads this
    {
      1 <= partitionCount <= PREFIX_MAX && |accounts| == partitionCount + 1
    }

    constructor (slotsPerEpoch: nat)
      requires 1 <= slotsPerEpoch <= PREFIX_MAX
      ensures Valid() && partitionCount == slotsPerEpoch && forall i :: 0 <= i < |accounts| ==> accounts[i] == {}
    {
      partitionCount := slotsPerEpoch;
      accounts := seq(slotsPerEpoch + 1, _ => {});
    }

    /** `get_pubkeys_in_partition_index`; an index that is out of range has no keys. */
    function InPartition(i: nat): set<Pubkey>
      reads this
    {
      if i < |accounts| then accounts[i] else {}
    }

    /**
     `add_account`; false is the panic for an index that is out of range, which `IndexInBoundsExactly` tells
     apart.
     */
    method AddAccount(k: Pubkey) returns (ok: bool)
      requires Valid()
      modifies this
      ensures Valid() && (ok <==> PartitionFromPubkey(k, partitionCount) <= partitionCount)
      ensures !ok ==> accounts == old(accounts)
      ensures ok ==> forall i: nat ::
                InPartition(i) == old(InPartition(i)) + if i == PartitionFromPubkey(k, partitionCount) then {k} else {}
    {
      var i := PartitionFromPubkey(k, partitionCount);
      if i >= |accounts| {
        return false;
      }
      accounts := accounts[i := accounts[i] + {k}];
      ok := true;
    }
  }

  /**
   The key will be found under the index of the range that holds it exactly when its prefix is not in the odd
   rest.
   */
  lemma RecordedWhereCollected(k: Pubkey, n: nat, i: nat)
    requires 2 <= n <= PREFIX_MAX && i < n && UnitRange(n, i).Holds(k)
    ensures PartitionFromPubkey(k, n) == i <==> !(n * PartitionWidth(n) <= PrefixFromPubkey(k) < PREFIX_MAX)
  {
    InverseExactly(k, n);
    var r := PartitionFromPubkey(k, n);
    if r < n && UnitRange(n, r).Holds(k) {
      UnitUnique(n, i, r, k);
    }
  }

  // ----- which partitions a slot collects -----

  /** `get_partition_end_indexes`: start+1, ..., end; and 0 for the special partition (0, 0). */
  function GetPartitionEndIndexes(p: Partition): seq<nat> {
    if p.start == p.end == 0 then [0]
    else if p.start <= p.end then seq(p.end - p.start, i => p.start + i + 1)
    else []
  }

  /** `get_partitions` between a slot and its parent, in a cycle of `n` slots. */
  function GetPartitions(slot: nat, parent: nat, n: nat): seq<Partition>
    requires n >= 1
  {
    var parentCycle, currentCycle := Quotient(parent, n), Quotient(slot, n);
    var parentIndex, currentIndex := parent - parentCycle * n, slot - currentCycle * n;
    if parentCycle < currentCycle then
      (if currentIndex > 0 then [Partition(parentIndex, n - 1, n), Partition(0, 0, n)] else [])
      + [Partition(0, currentIndex, n)]
    else [Partition(parentIndex, currentIndex, n)]
  }

  function EndIndexes(ps: seq<Partition>): seq<nat> {
    if ps == [] then [] else GetPartitionEndIndexes(ps[0]) + EndIndexes(ps[1..])
  }

  /** The end indexes collected by a slot. */
  function Collected(slot: nat, parent: nat, n: nat): seq<nat>
    requires n >= 1
  {
    EndIndexes(GetPartitions(slot, parent, n))
  }

  function CycleIndex(slot: nat, n: nat): (i: nat)
    requires n >= 1
    ensures i < n
  {
    slot - Quotient(slot, n) * n
  }

  /** Every slot after the parent, up to the slot itself, should have its cycle index collected. */
  function Due(slot: nat, parent: nat, n: nat): (r: seq<nat>)
    requires n >= 1 && parent <= slot
    ensures |r| == slot - parent
  {
    seq<nat>(slot - parent, (i: nat) requires i < slot - parent => CycleIndex(parent + 1 + i, n))
  }

  lemma CycleIndexOf(slot: nat, n: nat, c: nat, i: nat)
    requires n >= 1 && slot == c * n + i && i < n
    ensures Quotient(slot, n) == c && CycleIndex(slot, n) == i
  {
    var q := Quotient(slot, n);
    if q < c {
      MulMonotone(q + 1, c, n);
      MulStep(q, n);
    } else if c < q {
      MulMonotone(c + 1, q, n);
      MulStep(c, n);
    }
  }

  /** A step that stays in its cycle, or goes to the next one without skipping the rest of this one unpaid. */
  predicate CoveredStep(slot: nat, parent: nat, n: nat)
    requires n >= 1
  {
    var parentCycle, currentCycle := Quotient(parent, n), Quotient(slot, n);
    || parentCycle == currentCycle
    || (currentCycle == parentCycle + 1 && (CycleIndex(slot, n) > 0 || CycleIndex(parent, n) == n - 1))
  }

  lemma CollectedSameCycle(slot: nat, parent: nat, n: nat)
    requires n >= 1 && parent < slot && Quotient(parent, n) == Quotient(slot, n)
    ensures Collected(slot, parent, n) == Due(slot, parent, n)
  {
    var c, p := Quotient(parent, n), CycleIndex(parent, n);
    var ps := GetPartitions(slot, parent, n);
    assert ps == [Partition(p, CycleIndex(slot, n), n)] && ps[1..] == [];
    forall i | 0 <= i < slot - parent
      ensures Due(slot, parent, n)[i] == p + i + 1
    {
      CycleIndexOf(parent + 1 + i, n, c, p + i + 1);
    }
    assert EndIndexes(ps) == GetPartitionEndIndexes(ps[0]) + [];
  }

  lemma DueNextCycle(slot: nat, parent: nat, n: nat)
    requires n >= 1 && parent < slot && Quotient(slot, n) == Quotient(parent, n) + 1
    ensures var p, s := CycleIndex(parent, n), CycleIndex(slot, n);
            && slot - parent == (n - 1 - p) + 1 + s
            && forall i :: 0 <= i < slot - parent ==>
                 Due(slot, parent, n)[i] == if p + 1 + i < n then p + 1 + i else p + 1 + i - n
  {
    var c, p, s := Quotient(parent, n), CycleIndex(parent, n), CycleIndex(slot, n);
    MulStep(c, n);
    forall i | 0 <= i < slot - parent
      ensures Due(slot, parent, n)[i] == if p + 1 + i < n then p + 1 + i else p + 1 + i - n
    {
      if p + 1 + i < n {
        CycleIndexOf(parent + 1 + i, n, c, p + 1 + i);
      } else {
        CycleIndexOf(parent + 1 + i, n, c + 1, p + 1 + i - n);
      }
    }
  }

  /** What is collected when the slot is in a later cycle than its parent. */
  lemma CollectedLaterCycle(slot: nat, parent: nat, n: nat)
    requires n >= 1 && Quotient(parent, n) < Quotient(slot, n)
    ensures var p, s := CycleIndex(parent, n), CycleIndex(slot, n);
            Collected(slot, parent, n) == if s == 0 then [0]
              else GetPartitionEndIndexes(Partition(p, n - 1, n)) + [0] + seq(s, i => i + 1)
  {
    var p, s := CycleIndex(parent, n), CycleIndex(slot, n);
    var ps := GetPartitions(slot, parent, n);
    if s == 0 {
      assert ps == [Partition(0, 0, n)] && ps[1..] == [];
      assert EndIndexes(ps) == GetPartitionEndIndexes(ps[0]) + [];
    } else {
      assert ps == [Partition(p, n - 1, n), Partition(0, 0, n), Partition(0, s, n)];
      EndIndexesOfThree(ps[0], ps[1], ps[2]);
      assert GetPartitionEndIndexes(Partition(0, s, n)) == seq(s, i => i + 1);
    }
  }

  lemma EndIndexesOfThree(a: Partition, b: Partition, c: Partition)
    ensures EndIndexes([a, b, c]) == GetPartitionEndIndexes(a) + GetPartitionEndIndexes(b) + GetPartitionEndIndexes(c)
  {
    var three, two, one := [a, b, c], [b, c], [c];
    assert three[1..] == two && two[1..] == one && one[1..] == [];
    assert EndIndexes(one) == GetPartitionEndIndexes(c);
    assert EndIndexes(two) == GetPartitionEndIndexes(b) + GetPartitionEndIndexes(c);
  }

  /** A step collects exactly what is due if and only if it is a covered step. */
  lemma CollectedExactly(slot: nat, parent: nat, n: nat)
    requires n >= 1 && parent < slot
    ensures Collected(slot, parent, n) == Due(slot, parent, n) <==> CoveredStep(slot, parent, n)
  {
    var pc, sc := Quotient(parent, n), Quotient(slot, n);
    if sc < pc {
      MulMonotone(sc + 1, pc, n);
      MulStep(sc, n);
    }
    if pc == sc {
      CollectedSameCycle(slot, parent, n);
    } else {
      CollectedLaterCycle(slot, parent, n);
      if sc == pc + 1 {
        DueNextCycle(slot, parent, n);
        assert CoveredStep(slot, parent, n) ==> Collected(slot, parent, n) == Due(slot, parent, n);
      } else {
        MulMonotone(pc + 2, sc, n);
        MulStep(pc + 1, n);
        MulStep(pc, n);
        assert |Collected(slot, parent, n)| < |Due(slot, parent, n)|;
      }
    }
  }

  /**
   A step that skips the last slots of a cycle and lands on the first one of the next: two partitions stay
   uncollected.
   */
  lemma RentSkipped()
    ensures Due(20, 17, 10) == [8, 9, 0] && Collected(20, 17, 10) == [0]
  {
    CycleIndexOf(17, 10, 1, 7);
    CycleIndexOf(20, 10, 2, 0);
    CollectedLaterCycle(20, 17, 10);
    DueNextCycle(20, 17, 10);
  }

  /** A chain of slots, each the parent of the next, all steps covered. */
  predicate CoveredChain(slots: seq<nat>, n: nat)
    requires n >= 1
  {
    && slots != []
    && forall i :: 0 <= i < |slots| - 1 ==> slots[i] < slots[i + 1] && CoveredStep(slots[i + 1], slots[i], n)
  }

  function CollectedAlong(slots: seq<nat>, n: nat): seq<nat>
    requires n >= 1
  {
    if |slots| <= 1 then []
    else CollectedAlong(slots[..|slots| - 1], n) + Collected(slots[|slots| - 1], slots[|slots| - 2], n)
  }

  lemma DueJoins(a: nat, b: nat, c: nat, n: nat)
    requires n >= 1 && a <= b <= c
    ensures Due(b, a, n) + Due(c, b, n) == Due(c, a, n)
  {
  }

  /** Along a chain, what is collected is what is due between its ends: nothing twice, nothing left out. */
  lemma {:induction false} ChainCollectsDue(slots: seq<nat>, n: nat)
    requires n >= 1 && CoveredChain(slots, n)
    ensures slots[0] <= slots[|slots| - 1]
    ensures CollectedAlong(slots, n) == Due(slots[|slots| - 1], slots[0], n)
  {
    if |slots| > 1 {
      var last := |slots| - 1;
      assert slots[(last - 1) + 1] == slots[last];
      ChainCollectsDue(slots[..last], n);
      CollectedExactly(slots[last], slots[last - 1], n);
      DueJoins(slots[0], slots[last - 1], slots[last], n);
    }
  }

  /** Hence along a chain that spans one cycle length, every partition is collected exactly once. */
  lemma OncePerCycle(slots: seq<nat>, n: nat, i: nat)
    requires n >= 1 && CoveredChain(slots, n) && slots[|slots| - 1] == slots[0] + n && i < n
    ensures multiset(CollectedAlong(slots, n))[i] == 1
  {
    ChainCollectsDue(slots, n);
    OnceInDue(CollectedAlong(slots, n), slots[0], slots[|slots| - 1], n, i);
  }

  lemma OnceInDue(collected: seq<nat>, parent: nat, slot: nat, n: nat, i: nat)
    requires n >= 1 && i < n && slot == parent + n && collected == Due(slot, parent, n)
    ensures multiset(collected)[i] == 1
  {
    DueOnce(parent, n, i);
  }

  lemma DueOnce(parent: nat, n: nat, i: nat)
    requires n >= 1 && i < n
    ensures multiset(Due(parent + n, parent, n))[i] == 1
  {
    var p := CycleIndex(parent, n);
    var at := if i > p then i - p - 1 else i + n - p - 1;
    var due := Due(parent + n, parent, n);
    forall j | 0 <= j < n
      ensures due[j] == i <==> j == at
    {
      DueAt(parent, n, j);
    }
    OccursOnce(due, i, at);
  }

  lemma DueAt(parent: nat, n: nat, j: nat)
    requires n >= 1 && j < n
    ensures var p := CycleIndex(parent, n);
            Due(parent + n, parent, n)[j] == if p + 1 + j < n then p + 1 + j else p + 1 + j - n
  {
    var p, c := CycleIndex(parent, n), Quotient(parent, n);
    MulStep(c, n);
    if p + 1 + j < n {
      CycleIndexOf(parent + 1 + j, n, c, p + 1 + j);
    } else {
      CycleIndexOf(parent + 1 + j, n, c + 1, p + 1 + j - n);
    }
  }

  lemma OccursOnce(s: seq<nat>, x: nat, at: nat)
    requires at < |s| && forall j :: 0 <= j < |s| ==> (s[j] == x <==> j == at)
    ensures multiset(s)[x] == 1
  {
    assert s == s[..at] + [s[at]] + s[at + 1..];
  }
}
