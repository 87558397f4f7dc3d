/**
 `remove_older_duplicate_pubkeys`: sort a vector stably by pubkey, then walk it from the end and move the
 last entry of every pubkey to the back, in place; the front is cut off at the end.
 */
module StartupDedup {
  import opened Basics

  datatype Item = Item(pubkey: Pubkey, slot: Slot, info: nat)

  predicate Sorted(s: seq<Item>) {
    forall i, j :: 0 <= i < j < |s| ==> s[i].pubkey <= s[j].pubkey
  }

  predicate StrictlyAscending(s: seq<Item>) {
    forall i, j :: 0 <= i < j < |s| ==> s[i].pubkey < s[j].pubkey
  }

  /** The entries of one pubkey, in order. */
  function Of(s: seq<Item>, k: Pubkey): seq<Item> {
    if s == [] then [] else Of(s[..|s| - 1], k) + if s[|s| - 1].pubkey == k then [s[|s| - 1]] else []
  }

  lemma {:induction false} OfAppend(a: seq<Item>, b: seq<Item>, k: Pubkey)
    ensures Of(a + b, k) == Of(a, k) + Of(b, k)
    decreases |b|
  {
    if b == [] {
      assert a + b == a;
    } else {
      assert (a + b)[..|a + b| - 1] == a + b[..|b| - 1];
      OfAppend(a, b[..|b| - 1], k);
    }
  }

  // ----- the stable sort of the standard library -----

  /** Put `x` behind everything that is not greater. */
  function Place(s: seq<Item>, x: Item): seq<Item> {
    if s == [] || s[|s| - 1].pubkey <= x.pubkey then s + [x]
    else Place(s[..|s| - 1], x) + [s[|s| - 1]]
  }

  /** `sort_by` on the pubkey. */
  function StableSort(s: seq<Item>): seq<Item> {
    if s == [] then [] else Place(StableSort(s[..|s| - 1]), s[|s| - 1])
  }

  lemma {:induction false} PlaceElements(s: seq<Item>, x: Item)
    ensures multiset(Place(s, x)) == multiset(s) + multiset{x}
  {
    if !(s == [] || s[|s| - 1].pubkey <= x.pubkey) {
      var n := |s| - 1;
      PlaceElements(s[..n], x);
      assert s == s[..n] + [s[n]];
    }
  }

  lemma PlacedFrom(s: seq<Item>, x: Item, y: Item)
    requires y in Place(s, x)
    ensures y in s || y == x
  {
    PlaceElements(s, x);
    assert y in multiset(Place(s, x));
  }

  lemma SortedSnoc(s: seq<Item>, x: Item)
    requires Sorted(s) && forall y :: y in s ==> y.pubkey <= x.pubkey
    ensures Sorted(s + [x])
  {
    assert forall i :: 0 <= i < |s| ==> s[i] in s;
  }

  lemma SortedInit(s: seq<Item>, y: Item)
    requires Sorted(s) && s != [] && y in s[..|s| - 1]
    ensures y.pubkey <= s[|s| - 1].pubkey
  {
    var i :| 0 <= i < |s| - 1 && s[..|s| - 1][i] == y;
    assert s[i] == y;
  }

  lemma {:induction false} PlaceSorted(s: seq<Item>, x: Item)
    requires Sorted(s)
    ensures Sorted(Place(s, x))
  {
    if s == [] {
    } else {
      var init, last := s[..|s| - 1], s[|s| - 1];
      assert s == init + [last];
      forall y | y in init
        ensures y.pubkey <= last.pubkey
      {
        SortedInit(s, y);
      }
      if last.pubkey <= x.pubkey {
        SortedSnoc(s, x);
      } else {
        PlaceSorted(init, x);
        forall y | y in Place(init, x)
          ensures y.pubkey <= last.pubkey
        {
          PlacedFrom(init, x, y);
        }
        SortedSnoc(Place(init, x), last);
      }
    }
  }

  lemma {:induction false} PlaceStable(s: seq<Item>, x: Item, k: Pubkey)
    ensures Of(Place(s, x), k) == Of(s, k) + Of([x], k)
  {
    if s == [] || s[|s| - 1].pubkey <= x.pubkey {
      assert Place(s, x) == s + [x];
      OfAppend(s, [x], k);
    } else {
      var init, last := s[..|s| - 1], s[|s| - 1];
      var placed := Place(init, x);
      PlaceStable(init, x, k);
      StableSwap(init, placed, x, last, k);
      assert s == init + [last] && Place(s, x) == placed + [last];
    }
  }

  /** Items of different keys do not meet in `Of`, so their order does not matter. */
  lemma StableSwap(init: seq<Item>, placed: seq<Item>, x: Item, last: Item, k: Pubkey)
    requires x.pubkey != last.pubkey && Of(placed, k) == Of(init, k) + Of([x], k)
    ensures Of(placed + [last], k) == Of(init + [last], k) + Of([x], k)
  {
    OfAppend(placed, [last], k);
    OfAppend(init, [last], k);
    OfOne(last, k);
    OfOne(x, k);
    var a, b, c := Of(init, k), Of([x], k), Of([last], k);
    assert b == [] || c == [];
    assert a + b + c == a + c + b;
  }

  lemma OfOne(x: Item, k: Pubkey)
    ensures Of([x], k) == if x.pubkey == k then [x] else []
  {
    assert [x][..0] == [];
  }

  lemma {:induction false} StableSortIsSort(s: seq<Item>)
    ensures Sorted(StableSort(s)) && multiset(StableSort(s)) == multiset(s)
  {
    if s != [] {
      var n := |s| - 1;
      var front := StableSort(s[..n]);
      StableSortIsSort(s[..n]);
      PlaceSorted(front, s[n]);
      PlaceElements(front, s[n]);
      assert StableSort(s) == Place(front, s[n]);
      assert s == s[..n] + [s[n]];
      assert multiset(s) == multiset(s[..n]) + multiset{s[n]};
    }
  }

  lemma {:induction false} StableSortIsStable(s: seq<Item>, k: Pubkey)
    ensures Of(StableSort(s), k) == Of(s, k)
  {
    if s != [] {
      var n := |s| - 1;
      StableSortIsStable(s[..n], k);
      PlaceStable(StableSort(s[..n]), s[n], k);
      OfAppend(s[..n], [s[n]], k);
      assert s == s[..n] + [s[n]];
    }
  }

  // ----- the walk -----

  predicate SameAsNext(s: seq<Item>, i: nat) {
    i + 1 < |s| && s[i].pubkey == s[i + 1].pubkey
  }

  /** From `i` on: the last entry of each run of equal pubkeys, and the other entries as the walk meets them. */
  function LastOfRuns(s: seq<Item>, i: nat): seq<Item>
    requires i <= |s|
    decreases |s| - i
  {
    if i == |s| then []
    else if SameAsNext(s, i) then LastOfRuns(s, i + 1)
    else [s[i]] + LastOfRuns(s, i + 1)
  }

  function Older(s: seq<Item>, i: nat): seq<Item>
    requires i <= |s|
    decreases |s| - i
  {
    if i == |s| then []
    else if SameAsNext(s, i) then Older(s, i + 1) + [s[i]]
    else Older(s, i + 1)
  }

  /** The vector is still as it was below `curr`, and holds `kept` from `write` on. */
  ghost predicate Walked(items: seq<Item>, sorted: seq<Item>, curr: nat, write: nat, kept: seq<Item>) {
    && curr <= write < |items| == |sorted|
    && (forall i :: 0 <= i < curr ==> items[i] == sorted[i])
    && items[write..] == kept
  }

  /** Keep `x`, found at `curr`: it goes in front of `kept`, unless it is there already. */
  method WriteBefore(items: seq<Item>, curr: nat, write: nat, x: Item, ghost sorted: seq<Item>, ghost kept: seq<Item>)
    returns (items': seq<Item>)
    requires Walked(items, sorted, curr + 1, write, kept) && x == sorted[curr]
    ensures Walked(items', sorted, curr, write - 1, [x] + kept)
  {
    items' := if curr + 1 < write then items[write - 1 := x] else items;
    assert items'[write - 1..] == [x] + items[write..];
  }

  /**
   The in-place walk over sorted items: `items[write..]` is the result for what has been walked over, and
   the rest of the vector is still as it was.
   */
  method KeepLastOfRuns(sorted: seq<Item>) returns (items: seq<Item>, duplicates: seq<Item>)
    requires |sorted| >= 1
    ensures items == LastOfRuns(sorted, 0) && duplicates == Older(sorted, 0)
  {
    items, duplicates := sorted, [];
    var write: nat := |items| - 1;
    var lastKey := items[write].pubkey;
    var curr: nat := write;
    while curr > 0
      invariant Walked(items, sorted, curr, write, LastOfRuns(sorted, curr)) && lastKey == sorted[curr].pubkey
      invariant duplicates == Older(sorted, curr)
    {
      var currItem := items[curr - 1];
      if currItem.pubkey == lastKey {
        duplicates := duplicates + [currItem];
      } else {
        items := WriteBefore(items, curr - 1, write, currItem, sorted, LastOfRuns(sorted, curr));
        write := write - 1;
        lastKey := currItem.pubkey;
      }
      curr := curr - 1;
    }
    items := items[write - curr..];
  }

  lemma {:induction false} RunsConserve(s: seq<Item>, i: nat)
    requires i <= |s|
    ensures multiset(LastOfRuns(s, i)) + multiset(Older(s, i)) == multiset(s[i..])
    decreases |s| - i
  {
    if i < |s| {
      RunsConserve(s, i + 1);
      MultisetCons(s[i], s[i + 1..]);
      assert s[i..] == [s[i]] + s[i + 1..];
      if SameAsNext(s, i) {
        MultisetSnoc(Older(s, i + 1), s[i]);
      } else {
        MultisetCons(s[i], LastOfRuns(s, i + 1));
      }
    }
  }

  lemma {:induction false} RunsAreItems(s: seq<Item>, i: nat, x: Item)
    requires i <= |s| && x in LastOfRuns(s, i)
    ensures exists j :: i <= j < |s| && s[j] == x
    decreases |s| - i
  {
    if i < |s| && x in LastOfRuns(s, i + 1) {
      RunsAreItems(s, i + 1, x);
    }
  }

  lemma {:induction false} RunsAscend(s: seq<Item>, i: nat)
    requires Sorted(s) && i <= |s|
    ensures StrictlyAscending(LastOfRuns(s, i))
    decreases |s| - i
  {
    if i < |s| {
      RunsAscend(s, i + 1);
      if !SameAsNext(s, i) {
        forall x | x in LastOfRuns(s, i + 1)
          ensures s[i].pubkey < x.pubkey
        {
          RunsAreItems(s, i + 1, x);
        }
        AscendCons(s[i], LastOfRuns(s, i + 1));
      }
    }
  }

  lemma AscendCons(x: Item, s: seq<Item>)
    requires StrictlyAscending(s) && forall y :: y in s ==> x.pubkey < y.pubkey
    ensures StrictlyAscending([x] + s)
  {
    assert forall i :: 0 <= i < |s| ==> s[i] in s;
  }

  /** The last item only, if there is one. */
  function LastOnly(s: seq<Item>): seq<Item> {
    if s == [] then [] else [s[|s| - 1]]
  }

  lemma OfCons(x: Item, s: seq<Item>, k: Pubkey)
    ensures Of([x] + s, k) == if x.pubkey == k then [x] + Of(s, k) else Of(s, k)
  {
    OfAppend([x], s, k);
    OfOne(x, k);
  }

  lemma LastOnlyCons(x: Item, s: seq<Item>)
    ensures LastOnly([x] + s) == if s == [] then [x] else LastOnly(s)
  {
  }

  /** In a sorted vector the last entry of a run is the last entry of its pubkey. */
  lemma {:induction false} RunsKeepLast(s: seq<Item>, i: nat, k: Pubkey)
    requires Sorted(s) && i <= |s|
    ensures Of(LastOfRuns(s, i), k) == LastOnly(Of(s[i..], k))
    decreases |s| - i
  {
    if i < |s| {
      RunsKeepLast(s, i + 1, k);
      assert s[i..] == [s[i]] + s[i + 1..];
      OfCons(s[i], s[i + 1..], k);
      OfCons(s[i], LastOfRuns(s, i + 1), k);
      LastOnlyCons(s[i], Of(s[i + 1..], k));
      if SameAsNext(s, i) {
        HeadFound(s[i + 1..]);
      } else if k == s[i].pubkey {
        NotFound(s[i + 1..], k);
      }
    }
  }

  lemma HeadFound(s: seq<Item>)
    requires s != []
    ensures Of(s, s[0].pubkey) != []
  {
    assert s == [s[0]] + s[1..];
    OfAppend([s[0]], s[1..], s[0].pubkey);
    OfOne(s[0], s[0].pubkey);
  }

  lemma {:induction false} NotFound(s: seq<Item>, k: Pubkey)
    requires forall x :: x in s ==> x.pubkey != k
    ensures Of(s, k) == []
  {
    if s != [] {
      NotFound(s[..|s| - 1], k);
    }
  }

  /** What the caller can rely on. */
  ghost predicate KeptNewest(items: seq<Item>, kept: seq<Item>, duplicates: seq<Item>) {
    && StrictlyAscending(kept)
    && multiset(kept) + multiset(duplicates) == multiset(items)
    && (forall k :: Of(kept, k) == LastOnly(Of(items, k)))
  }

  /**
   `remove_older_duplicate_pubkeys`: what is left is strictly ascending and has, of every pubkey, its last
   entry in the original order; together with the returned duplicates it is the original vector.
   */
  method RemoveOlderDuplicatePubkeys(items: seq<Item>) returns (kept: seq<Item>, duplicates: Option<seq<Item>>)
    ensures KeptNewest(items, kept, duplicates.GetOr([]))
    ensures duplicates.None? <==> |kept| == |items|
  {
    if |items| < 2 {
      FewItems(items);
      return items, None;
    }
    var sorted := StableSort(items);
    StableSortIsSort(items);
    SameSize(sorted, items);
    var older;
    kept, older := KeepLastOfRuns(sorted);
    duplicates := if older == [] then None else Some(older);
    SortedThenWalked(items);
    SizeOfParts(kept, older, items);
  }

  lemma FewItems(items: seq<Item>)
    requires |items| < 2
    ensures KeptNewest(items, items, [])
  {
    forall k
      ensures Of(items, k) == LastOnly(Of(items, k))
    {
      if |items| == 1 {
        OfOne(items[0], k);
        assert items == [items[0]];
      }
    }
  }

  lemma SortedThenWalked(items: seq<Item>)
    ensures KeptNewest(items, LastOfRuns(StableSort(items), 0), Older(StableSort(items), 0))
  {
    var sorted := StableSort(items);
    StableSortIsSort(items);
    assert sorted[0..] == sorted;
    RunsConserve(sorted, 0);
    RunsAscend(sorted, 0);
    forall k
      ensures Of(LastOfRuns(sorted, 0), k) == LastOnly(Of(items, k))
    {
      StableSortIsStable(items, k);
      RunsKeepLast(sorted, 0, k);
    }
  }

  lemma SameSize(a: seq<Item>, b: seq<Item>)
    requires multiset(a) == multiset(b)
    ensures |a| == |b|
  {
    assert |multiset(a)| == |a| && |multiset(b)| == |b|;
  }

  lemma SizeOfParts(a: seq<Item>, b: seq<Item>, c: seq<Item>)
    requires multiset(a) + multiset(b) == multiset(c)
    ensures |a| + |b| == |c|
  {
    assert multiset(a + b) == multiset(c);
    SameSize(a + b, c);
  }
}
