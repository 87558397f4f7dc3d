/**
 The slot list of one pubkey in the accounts index: fork-aware lookup (`latest_slot`), purging of
 entries that a newer root outdates (`purge_older_root_entries`) and replacement of an entry
 (`update_slot_list`).
 */
module SlotLists {
  import opened Basics
  import opened RollingBits

  /** Where an account version is stored; `content` is the version itself, which moving it does not change. */
  datatype Info = Info(content: nat, cached: bool)

  datatype Item = Item(slot: Slot, info: Info)

  /** Which fork is asked about: its ancestors, and the newest root that may be seen. */
  datatype Query = Query(ancestors: set<Slot>, maxRoot: Option<Slot>)

  predicate Eligible(q: Query, roots: set<Slot>, s: Slot) {
    s in q.ancestors || (s in roots && (q.maxRoot.Some? ==> s <= q.maxRoot.value))
  }

  /** The eligible entry with the highest slot; of several, the last one. */
  function LatestIndex(list: seq<Item>, q: Query, roots: set<Slot>): (r: Option<nat>)
    ensures r.Some? ==> r.value < |list| && Eligible(q, roots, list[r.value].slot)
  {
    if list == [] then None
    else
      var n := |list| - 1;
      var r := LatestIndex(list[..n], q, roots);
      if Eligible(q, roots, list[n].slot) && (r.None? || list[r.value].slot <= list[n].slot) then Some(n) else r
  }

  ghost predicate IsLatest(list: seq<Item>, q: Query, roots: set<Slot>, r: Option<nat>) {
    match r
    case None => forall j :: 0 <= j < |list| ==> !Eligible(q, roots, list[j].slot)
    case Some(i) =>
      && i < |list| && Eligible(q, roots, list[i].slot)
      && (forall j :: 0 <= j < |list| && Eligible(q, roots, list[j].slot) ==> list[j].slot <= list[i].slot)
      && (forall j :: i < j < |list| ==> list[j].slot != list[i].slot)
  }

  lemma {:induction false} LatestIndexIsLatest(list: seq<Item>, q: Query, roots: set<Slot>)
    ensures IsLatest(list, q, roots, LatestIndex(list, q, roots))
  {
    if list != [] {
      var n := |list| - 1;
      LatestIndexIsLatest(list[..n], q, roots);
      assert forall j :: 0 <= j < n ==> list[..n][j] == list[j];
    }
  }

  lemma LatestUnique(list: seq<Item>, q: Query, roots: set<Slot>, r: Option<nat>)
    requires IsLatest(list, q, roots, r)
    ensures r == LatestIndex(list, q, roots)
  {
    LatestIndexIsLatest(list, q, roots);
  }

  method IsAliveRoot(aliveRoots: RollingBitField, slot: Slot) returns (alive: bool)
    requires aliveRoots.Valid()
    ensures alive <==> slot in aliveRoots.Contents()
  {
    aliveRoots.ContainsIsMembership(slot);
    alive := aliveRoots.Contains(slot);
  }

  /** `latest_slot`: two passes from the end, first over the ancestors, then over the roots. */
  method LatestSlot(ancestors: Option<set<Slot>>, list: seq<Item>, maxRootInclusive: Option<Slot>,
                    aliveRoots: RollingBitField)
    returns (r: Option<nat>)
    requires aliveRoots.Valid()
    ensures r == LatestIndex(list, Query(ancestors.GetOr({}), maxRootInclusive), aliveRoots.Contents())
  {
    var currentMax: Slot, rv: Option<nat> := 0, None;
    var n := |list|;
    if ancestors.Some? && ancestors.value != {} {
      rv, currentMax := AncestorPass(ancestors.value, list, maxRootInclusive);
    }
    rv := RootPass(ancestors.GetOr({}), list, maxRootInclusive, aliveRoots, rv, currentMax);
    match rv {
      case None => r := None;
      case Some(i) => r := Some(n - 1 - i);
    }
    LatestUnique(list, Query(ancestors.GetOr({}), maxRootInclusive), aliveRoots.Contents(), r);
  }

  method AncestorPass(ancestors: set<Slot>, list: seq<Item>, ghost maxRoot: Option<Slot>)
    returns (rv: Option<nat>, currentMax: Slot)
    ensures FirstPass(list, Query(ancestors, maxRoot), 0, rv, currentMax)
  {
    rv, currentMax := None, 0;
    var n := |list|;
    for i := 0 to n
      invariant FirstPass(list, Query(ancestors, maxRoot), n - i, rv, currentMax)
    {
      var slot := list[n - 1 - i].slot;
      if (rv.None? || slot > currentMax) && slot in ancestors {
        rv, currentMax := Some(i), slot;
      }
    }
  }

  method RootPass(ghost ancestors: set<Slot>, list: seq<Item>, maxRoot: Option<Slot>, aliveRoots: RollingBitField,
                  rv0: Option<nat>, currentMax0: Slot)
    returns (rv: Option<nat>)
    requires aliveRoots.Valid() && FirstPass(list, Query(ancestors, maxRoot), 0, rv0, currentMax0)
    ensures match rv
            case None => IsLatest(list, Query(ancestors, maxRoot), aliveRoots.Contents(), None)
            case Some(i) =>
              i < |list| && IsLatest(list, Query(ancestors, maxRoot), aliveRoots.Contents(), Some(|list| - 1 - i))
  {
    ghost var roots := aliveRoots.Contents();
    var currentMax: Slot := currentMax0;
    rv := rv0;
    var n := |list|;
    for i := 0 to n
      invariant SecondPass(list, Query(ancestors, maxRoot), roots, n - i, rv, currentMax)
    {
      var slot := list[n - 1 - i].slot;
      if (rv.None? || slot > currentMax) && (maxRoot.None? || slot <= maxRoot.value) {
        var alive := IsAliveRoot(aliveRoots, slot);
        if alive {
          rv, currentMax := Some(i), slot;
        }
      }
    }
  }

  /** `rv`, counted from the end, is the latest ancestor among the entries from `from` on. */
  ghost predicate FirstPass(list: seq<Item>, q: Query, from: int, rv: Option<nat>, currentMax: Slot) {
    var n := |list|;
    && 0 <= from <= n
    && (match rv
        case None => forall j :: from <= j < n ==> list[j].slot !in q.ancestors
        case Some(i) =>
          && from <= n - 1 - i && list[n - 1 - i].slot == currentMax && currentMax in q.ancestors
          && (forall j :: from <= j < n && list[j].slot in q.ancestors ==> list[j].slot <= currentMax)
          && (forall j :: n - 1 - i < j < n ==> list[j].slot != currentMax))
  }

  /** All ancestors and the entries from `from` on have been considered. */
  ghost predicate SecondPass(list: seq<Item>, q: Query, roots: set<Slot>, from: int, rv: Option<nat>,
                             currentMax: Slot) {
    var n := |list|;
    && 0 <= from <= n
    && (match rv
        case None => forall j :: 0 <= j < n ==>
          list[j].slot !in q.ancestors && (j >= from ==> !Eligible(q, roots, list[j].slot))
        case Some(i) =>
          && 0 <= n - 1 - i && list[n - 1 - i].slot == currentMax && Eligible(q, roots, currentMax)
          && (forall j :: 0 <= j < n && (list[j].slot in q.ancestors || (j >= from && Eligible(q, roots, list[j].slot))) ==>
                list[j].slot <= currentMax)
          && (forall j :: n - 1 - i < j < n ==> list[j].slot != currentMax))
  }

  /** The entry a query sees. */
  function Answer(list: seq<Item>, q: Query, roots: set<Slot>): Option<Item> {
    match LatestIndex(list, q, roots)
    case None => None
    case Some(i) => Some(list[i])
  }

  // ----- purging -----

  /** The newest root of the list that is not above the bound; 0 when there is none. */
  function NewestRoot(list: seq<Item>, roots: set<Slot>, bound: Option<Slot>): Slot {
    if list == [] then 0
    else
      var n := |list| - 1;
      var r := NewestRoot(list[..n], roots, bound);
      var s := list[n].slot;
      if (bound.Some? ==> s <= bound.value) && s in roots && s > r then s else r
  }

  method GetNewestRootInSlotList(list: seq<Item>, aliveRoots: RollingBitField, bound: Option<Slot>) returns (r: Slot)
    requires aliveRoots.Valid()
    ensures r == NewestRoot(list, aliveRoots.Contents(), bound)
  {
    ghost var roots := aliveRoots.Contents();
    r := 0;
    for i := 0 to |list|
      invariant r == NewestRoot(list[..i], roots, bound)
    {
      assert list[..i + 1][..i] == list[..i];
      var slot := list[i].slot;
      if bound.Some? && slot > bound.value {
        continue;
      }
      if slot > r {
        var alive := IsAliveRoot(aliveRoots, slot);
        if alive {
          r := slot;
        }
      }
    }
    assert list[..|list|] == list;
  }

  lemma {:induction false} NewestRootIsMax(list: seq<Item>, roots: set<Slot>, bound: Option<Slot>)
    ensures var r := NewestRoot(list, roots, bound);
            && (r != 0 ==>
                 r in roots && (bound.Some? ==> r <= bound.value) && exists j :: 0 <= j < |list| && list[j].slot == r)
            && (forall j :: 0 <= j < |list| && list[j].slot in roots && (bound.Some? ==> list[j].slot <= bound.value) ==>
                  list[j].slot <= r)
  {
    if list != [] {
      var n := |list| - 1;
      NewestRootIsMax(list[..n], roots, bound);
      assert forall j :: 0 <= j < n ==> list[..n][j] == list[j];
    }
  }

  function CanPurgeOlderEntries(maxCleanRootExclusive: Slot, newestRoot: Slot, slot: Slot): bool {
    slot < maxCleanRootExclusive && slot != newestRoot
  }

  predicate Outdated(clean: Slot, newest: Slot, x: Item) {
    CanPurgeOlderEntries(clean, newest, x.slot) && !x.info.cached
  }

  function Kept(list: seq<Item>, clean: Slot, newest: Slot): seq<Item> {
    if list == [] then []
    else
      var n := |list| - 1;
      Kept(list[..n], clean, newest) + if Outdated(clean, newest, list[n]) then [] else [list[n]]
  }

  function Reclaimed(list: seq<Item>, clean: Slot, newest: Slot): seq<Item> {
    if list == [] then []
    else
      var n := |list| - 1;
      Reclaimed(list[..n], clean, newest) + if Outdated(clean, newest, list[n]) then [list[n]] else []
  }

  /** The list after a purge with the given bound; without one, the newest root ever added bounds it. */
  function Purged(list: seq<Item>, roots: set<Slot>, maxInclusive: Slot, bound: Option<Slot>): seq<Item> {
    Kept(list, bound.GetOr(maxInclusive), NewestRoot(list, roots, bound))
  }

  /** `purge_older_root_entries`: retain in place, push what is purged onto `reclaims`. */
  method PurgeOlderRootEntries(list: seq<Item>, reclaims: seq<Item>, aliveRoots: RollingBitField, bound: Option<Slot>)
    returns (list': seq<Item>, reclaims': seq<Item>)
    requires aliveRoots.Valid()
    ensures list' == Purged(list, aliveRoots.Contents(), aliveRoots.MaxInclusive(), bound)
    ensures reclaims' == reclaims
                         + Reclaimed(list, bound.GetOr(aliveRoots.MaxInclusive()), NewestRoot(list, aliveRoots.Contents(), bound))
  {
    var newest := GetNewestRootInSlotList(list, aliveRoots, bound);
    var clean := bound.GetOr(aliveRoots.MaxInclusive());
    list', reclaims' := [], reclaims;
    for i := 0 to |list|
      invariant list' == Kept(list[..i], clean, newest)
      invariant reclaims' == reclaims + Reclaimed(list[..i], clean, newest)
    {
      assert list[..i + 1][..i] == list[..i];
      var x := list[i];
      var shouldPurge := CanPurgeOlderEntries(clean, newest, x.slot) && !x.info.cached;
      if shouldPurge {
        reclaims' := reclaims' + [x];
      } else {
        list' := list' + [x];
      }
    }
    assert list[..|list|] == list;
  }

  /** Nothing is lost or invented: what is kept and what is reclaimed make up the list. */
  lemma {:induction false} PurgeConserves(list: seq<Item>, clean: Slot, newest: Slot)
    ensures multiset(Kept(list, clean, newest)) + multiset(Reclaimed(list, clean, newest)) == multiset(list)
    ensures forall x :: x in Kept(list, clean, newest) <==> x in list && !Outdated(clean, newest, x)
    ensures forall x :: x in Reclaimed(list, clean, newest) <==> x in list && Outdated(clean, newest, x)
  {
    KeptElements(list, clean, newest);
    ReclaimedElements(list, clean, newest);
    PurgeCounts(list, clean, newest);
  }

  lemma {:induction false} KeptElements(list: seq<Item>, clean: Slot, newest: Slot)
    ensures forall x :: x in Kept(list, clean, newest) <==> x in list && !Outdated(clean, newest, x)
  {
    if list != [] {
      var n := |list| - 1;
      KeptElements(list[..n], clean, newest);
      assert list == list[..n] + [list[n]];
    }
  }

  lemma {:induction false} ReclaimedElements(list: seq<Item>, clean: Slot, newest: Slot)
    ensures forall x :: x in Reclaimed(list, clean, newest) <==> x in list && Outdated(clean, newest, x)
  {
    if list != [] {
      var n := |list| - 1;
      ReclaimedElements(list[..n], clean, newest);
      assert list == list[..n] + [list[n]];
    }
  }

  lemma PurgeStep(list: seq<Item>, clean: Slot, newest: Slot)
    requires list != []
    ensures var n := |list| - 1;
            var kept, gone := Kept(list[..n], clean, newest), Reclaimed(list[..n], clean, newest);
            && list == list[..n] + [list[n]]
            && Kept(list, clean, newest) == (if Outdated(clean, newest, list[n]) then kept else kept + [list[n]])
            && Reclaimed(list, clean, newest) == (if Outdated(clean, newest, list[n]) then gone + [list[n]] else gone)
  {
  }

  lemma {:induction false} PurgeCounts(list: seq<Item>, clean: Slot, newest: Slot)
    ensures multiset(Kept(list, clean, newest)) + multiset(Reclaimed(list, clean, newest)) == multiset(list)
  {
    if list != [] {
      var n := |list| - 1;
      PurgeCounts(list[..n], clean, newest);
      PurgeStep(list, clean, newest);
      MultisetSnoc(list[..n], list[n]);
      MultisetSnoc(Kept(list[..n], clean, newest), list[n]);
      MultisetSnoc(Reclaimed(list[..n], clean, newest), list[n]);
    }
  }

  lemma {:induction false} KeptAll(list: seq<Item>, clean: Slot, newest: Slot)
    requires forall x :: x in list ==> !Outdated(clean, newest, x)
    ensures Kept(list, clean, newest) == list
  {
    if list != [] {
      var n := |list| - 1;
      assert list == list[..n] + [list[n]];
      KeptAll(list[..n], clean, newest);
    }
  }

  /** A second purge with the same bound removes nothing. */
  lemma PurgeIdempotent(list: seq<Item>, roots: set<Slot>, maxInclusive: Slot, bound: Option<Slot>)
    ensures Purged(Purged(list, roots, maxInclusive, bound), roots, maxInclusive, bound) ==
              Purged(list, roots, maxInclusive, bound)
  {
    var clean := bound.GetOr(maxInclusive);
    var newest := NewestRoot(list, roots, bound);
    var kept := Purged(list, roots, maxInclusive, bound);
    PurgeConserves(list, clean, newest);
    NewestRootIsMax(list, roots, bound);
    NewestRootIsMax(kept, roots, bound);
    var newest' := NewestRoot(kept, roots, bound);
    if newest != 0 {
      var j :| 0 <= j < |list| && list[j].slot == newest;
      assert list[j] in kept;
    }
    assert newest' == newest by {
      if newest' != 0 {
        var j :| 0 <= j < |kept| && kept[j].slot == newest';
        assert kept[j] in list;
      }
    }
    KeptAll(kept, clean, newest);
  }

  /** How the answer over the kept entries follows the answer over all of them. */
  lemma {:induction false} AnswerOverKept(list: seq<Item>, q: Query, roots: set<Slot>, clean: Slot, newest: Slot)
    ensures var a, k := Answer(list, q, roots), Answer(Kept(list, clean, newest), q, roots);
            match a
            case None => k.None?
            case Some(x) => if Outdated(clean, newest, x) then k.None? || k.value.slot <= x.slot else k == a
  {
    if list != [] {
      var n := |list| - 1;
      AnswerOverKept(list[..n], q, roots, clean, newest);
      var kept := Kept(list[..n], clean, newest);
      PurgeStep(list, clean, newest);
      AnswerSnoc(list[..n], list[n], q, roots);
      AnswerSnoc(kept, list[n], q, roots);
    }
  }

  lemma AnswerSnoc(list: seq<Item>, x: Item, q: Query, roots: set<Slot>)
    ensures var a := Answer(list, q, roots);
            Answer(list + [x], q, roots)
              == if Eligible(q, roots, x.slot) && (a.None? || a.value.slot <= x.slot) then Some(x) else a
  {
    assert (list + [x])[..|list|] == list;
  }

  lemma AnswerIsMax(list: seq<Item>, q: Query, roots: set<Slot>)
    ensures match Answer(list, q, roots)
            case None => forall y :: y in list ==> !Eligible(q, roots, y.slot)
            case Some(x) =>
              && x in list && Eligible(q, roots, x.slot)
              && forall y :: y in list && Eligible(q, roots, y.slot) ==> y.slot <= x.slot
  {
    LatestIndexIsLatest(list, q, roots);
  }

  /** A root that a purge up to `clean` looks at and the query does not. */
  predicate Hidden(q: Query, roots: set<Slot>, clean: Slot, s: Slot) {
    s in roots && s <= clean && !Eligible(q, roots, s)
  }

  /**
   What spares the answer to a query from a purge of the list: its ancestors below the bound are roots, and no
   root up to the bound that the query cannot see lies above an entry that it can see.
   */
  ghost predicate Spares(list: seq<Item>, roots: set<Slot>, clean: Slot, q: Query) {
    && (forall x :: x in list && x.slot in q.ancestors && 0 < x.slot < clean ==> x.slot in roots)
    && (forall x, y :: x in list && y in list && Eligible(q, roots, x.slot) && Hidden(q, roots, clean, y.slot) ==>
         y.slot <= x.slot)
  }

  /** Cleaning preserves meaning for every query that is spared. */
  lemma PurgeSpares(list: seq<Item>, roots: set<Slot>, maxInclusive: Slot, bound: Option<Slot>, q: Query)
    requires bound.None? ==> forall s :: s in roots ==> s <= maxInclusive
    requires Spares(list, roots, bound.GetOr(maxInclusive), q)
    ensures Answer(Purged(list, roots, maxInclusive, bound), q, roots) == Answer(list, q, roots)
  {
    var newest := NewestRoot(list, roots, bound);
    AnswerOverKept(list, q, roots, bound.GetOr(maxInclusive), newest);
    AnswerIsMax(list, q, roots);
    NewestRootIsMax(list, roots, bound);
    if newest != 0 {
      var j :| 0 <= j < |list| && list[j].slot == newest;
      assert list[j] in list;
    }
    var a := Answer(list, q, roots);
    if a.Some? {
      AnswerNotOutdated(list, roots, maxInclusive, bound, q, a.value);
    }
  }

  lemma AnswerNotOutdated(list: seq<Item>, roots: set<Slot>, maxInclusive: Slot, bound: Option<Slot>, q: Query, x: Item)
    requires bound.None? ==> forall s :: s in roots ==> s <= maxInclusive
    requires Spares(list, roots, bound.GetOr(maxInclusive), q)
    requires x in list && Eligible(q, roots, x.slot)
    requires forall y :: y in list && Eligible(q, roots, y.slot) ==> y.slot <= x.slot
    ensures !Outdated(bound.GetOr(maxInclusive), NewestRoot(list, roots, bound), x)
  {
    var clean, newest := bound.GetOr(maxInclusive), NewestRoot(list, roots, bound);
    NewestRootIsMax(list, roots, bound);
    var i :| 0 <= i < |list| && list[i] == x;
    if newest != 0 {
      var j :| 0 <= j < |list| && list[j].slot == newest;
      assert list[j] in list;
    }
  }

  /**
   In particular every query at or above the bound, whose ancestors below the bound that occur in the list are
   roots, sees the same entry before and after the purge.
   */
  lemma PurgePreservesAnswer(list: seq<Item>, roots: set<Slot>, maxInclusive: Slot, bound: Option<Slot>, q: Query)
    requires forall s :: s in roots ==> s <= maxInclusive
    requires q.maxRoot.Some? ==> bound.GetOr(maxInclusive) <= q.maxRoot.value
    requires forall x :: x in list && x.slot in q.ancestors && x.slot < bound.GetOr(maxInclusive) ==> x.slot in roots
    ensures Answer(Purged(list, roots, maxInclusive, bound), q, roots) == Answer(list, q, roots)
  {
    PurgeSpares(list, roots, maxInclusive, bound, q);
  }

  // ----- replacing an entry -----

  /** The entries of the list at one of the given slots, and the entries at none of them. */
  function At(list: seq<Item>, slots: set<Slot>): seq<Item> {
    if list == [] then []
    else (if list[0].slot in slots then [list[0]] else []) + At(list[1..], slots)
  }

  function Elsewhere(list: seq<Item>, slots: set<Slot>): seq<Item> {
    if list == [] then []
    else (if list[0].slot in slots then [] else [list[0]]) + Elsewhere(list[1..], slots)
  }

  lemma {:induction false} AtSnoc(a: seq<Item>, x: Item, slots: set<Slot>)
    requires x.slot in slots
    ensures At(a + [x], slots) == At(a, slots) + [x]
  {
    var b := a + [x];
    if a == [] {
      assert b[1..] == [];
    } else {
      assert b[0] == a[0] && b[1..] == a[1..] + [x];
      AtSnoc(a[1..], x, slots);
      ConcatAssociative(if a[0].slot in slots then [a[0]] else [], At(a[1..], slots), [x]);
    }
  }

  lemma {:induction false} ElsewhereSnoc(a: seq<Item>, x: Item, slots: set<Slot>)
    ensures Elsewhere(a + [x], slots) == Elsewhere(a, slots) + if x.slot in slots then [] else [x]
  {
    var b := a + [x];
    if a == [] {
      assert b[1..] == [];
    } else {
      assert b[0] == a[0] && b[1..] == a[1..] + [x];
      ElsewhereSnoc(a[1..], x, slots);
      var head, tail := if a[0].slot in slots then [] else [a[0]], if x.slot in slots then [] else [x];
      ConcatAssociative(head, Elsewhere(a[1..], slots), tail);
    }
  }

  lemma {:induction false} AtElements(list: seq<Item>, slots: set<Slot>)
    ensures forall x :: x in At(list, slots) <==> x in list && x.slot in slots
    ensures forall x :: x in Elsewhere(list, slots) <==> x in list && x.slot !in slots
  {
    if list != [] {
      AtElements(list[1..], slots);
      assert list == [list[0]] + list[1..];
    }
  }

  ghost predicate DistinctSlots(list: seq<Item>) {
    forall i, j :: 0 <= i < j < |list| ==> list[i].slot != list[j].slot
  }

  /** None of the given slots occurs more than once, which the source asserts. */
  ghost predicate OnceAt(list: seq<Item>, slots: set<Slot>) {
    forall i, j :: 0 <= i < j < |list| && list[i].slot == list[j].slot ==> list[i].slot !in slots
  }

  function SlotsToReplace(slot: Slot, otherSlot: Option<Slot>): set<Slot> {
    if otherSlot.Some? then {slot, otherSlot.value} else {slot}
  }

  /** From the end: the first entry at one of the slots becomes `x`, further ones go, the rest stays. */
  function Replace(list: seq<Item>, slots: set<Slot>, x: Item): seq<Item> {
    if list == [] then []
    else
      var rest := Replace(list[1..], slots, x);
      if list[0].slot !in slots then [list[0]] + rest
      else if At(list[1..], slots) == [] then [x] + rest
      else rest
  }

  /** One entry remains at the given slots, if there was any; all other entries keep their order. */
  lemma {:induction false} ReplaceKeepsOthers(list: seq<Item>, slots: set<Slot>, x: Item)
    requires x.slot in slots
    ensures At(Replace(list, slots, x), slots) == if At(list, slots) == [] then [] else [x]
    ensures Elsewhere(Replace(list, slots, x), slots) == Elsewhere(list, slots)
  {
    if list != [] {
      ReplaceKeepsOthers(list[1..], slots, x);
      var rest := Replace(list[1..], slots, x);
      assert ([list[0]] + rest)[1..] == rest && ([x] + rest)[1..] == rest;
    }
  }

  /** The entries at the given slots, in the order in which they are found from the end. */
  function Overwritten(list: seq<Item>, slots: set<Slot>): seq<Item> {
    if list == [] then []
    else Overwritten(list[1..], slots) + if list[0].slot in slots then [list[0]] else []
  }

  lemma {:induction false} OverwrittenIsAt(list: seq<Item>, slots: set<Slot>)
    ensures multiset(Overwritten(list, slots)) == multiset(At(list, slots))
  {
    if list != [] {
      OverwrittenIsAt(list[1..], slots);
    }
  }

  /** The list after an update: an entry in place of those at the slots, or a new one at the end. */
  function Updated(list: seq<Item>, slots: set<Slot>, x: Item): seq<Item> {
    if At(list, slots) == [] then list + [x] else Replace(list, slots, x)
  }

  lemma UpdatedOnce(list: seq<Item>, slots: set<Slot>, x: Item)
    requires x.slot in slots
    ensures At(Updated(list, slots, x), slots) == [x]
    ensures Elsewhere(Updated(list, slots, x), slots) == Elsewhere(list, slots)
    ensures DistinctSlots(list) ==> DistinctSlots(Updated(list, slots, x))
  {
    if At(list, slots) == [] {
      AtSnoc(list, x, slots);
      ElsewhereSnoc(list, x, slots);
    } else {
      ReplaceKeepsOthers(list, slots, x);
    }
    if DistinctSlots(list) {
      ReplaceElements(list, slots, x);
      ReplaceDistinct(list, slots, x);
    }
  }

  datatype UpsertReclaim = PopulateReclaims | PreviousSlotEntryWasCached | IgnoreReclaims

  lemma WalkStep(list: seq<Item>, i: nat, slots: set<Slot>, x: Item)
    requires i < |list|
    ensures var now, later := list[i..], list[i + 1..];
            var hit := if list[i].slot in slots then [list[i]] else [];
            && Replace(now, slots, x) == (if list[i].slot !in slots then [list[i]] + Replace(later, slots, x)
                                          else if At(later, slots) == [] then [x] + Replace(later, slots, x)
                                          else Replace(later, slots, x))
            && Overwritten(now, slots) == Overwritten(later, slots) + hit
            && At(now, slots) == hit + At(later, slots)
  {
    assert list[i..][0] == list[i] && list[i..][1..] == list[i + 1..];
  }

  /** What the steps of the walk do to a list of which the part behind `i` has been replaced by `later`. */
  lemma Splice(list: seq<Item>, i: nat, later: seq<Item>, x: Item)
    requires i < |list|
    ensures var walked := list[..i + 1] + later;
            && walked[i] == list[i] && walked == list[..i] + ([list[i]] + later)
            && walked[i := x] == list[..i] + ([x] + later)
            && walked[..i] + walked[i + 1..] == list[..i] + later
  {
  }

  /** The state of the walk at `i`: everything behind has been replaced, and `any` tells whether there was a match. */
  ghost predicate WalkedTo(list: seq<Item>, i: nat, slots: set<Slot>, x: Item, list': seq<Item>, overwritten: seq<Item>,
                           any: bool) {
    && i <= |list| && list' == list[..i] + Replace(list[i..], slots, x)
    && overwritten == Overwritten(list[i..], slots) && (any <==> At(list[i..], slots) != [])
  }

  /** One entry of the walk: the first match is overwritten, a further one removed. */
  method WalkEntry(list: seq<Item>, i: nat, ghost slots: set<Slot>, x: Item, list0: seq<Item>, overwritten0: seq<Item>,
                   any: bool, matched: bool)
    returns (list': seq<Item>, overwritten: seq<Item>)
    requires i < |list| && WalkedTo(list, i + 1, slots, x, list0, overwritten0, any)
    requires matched <==> list[i].slot in slots
    ensures WalkedTo(list, i, slots, x, list', overwritten, any || matched)
  {
    ghost var later := Replace(list[i + 1..], slots, x);
    WalkStep(list, i, slots, x);
    Splice(list, i, later, x);
    list', overwritten := list0, overwritten0;
    if matched {
      list' := if any then list0[..i] + list0[i + 1..] else list0[i := x];
      overwritten := overwritten0 + [list0[i]];
    }
  }

  /** The walk from the end of the list that overwrites one matching entry and removes the other. */
  method OverwriteFromEnd(list: seq<Item>, entry: Item, otherSlot: Option<Slot>, ghost slots: set<Slot>)
    returns (list': seq<Item>, overwritten: seq<Item>, found: bool)
    requires OnceAt(list, slots) && otherSlot != Some(entry.slot) && slots == SlotsToReplace(entry.slot, otherSlot)
    ensures list' == Replace(list, slots, entry) && overwritten == Overwritten(list, slots)
    ensures found <==> At(list, slots) != []
  {
    var foundSlot, foundOtherSlot := false, false;
    list', overwritten := list, [];
    assert list[|list|..] == [];
    for i := |list| downto 0
      invariant foundSlot ==> forall j :: 0 <= j < i ==> list[j].slot != entry.slot
      invariant foundOtherSlot ==> forall j :: 0 <= j < i ==> Some(list[j].slot) != otherSlot
      invariant WalkedTo(list, i, slots, entry, list', overwritten, foundSlot || foundOtherSlot)
    {
      var current := list[i];
      var matchedSlot := current.slot == entry.slot;
      var matched := matchedSlot || Some(current.slot) == otherSlot;
      assert matched ==> !((foundSlot && matchedSlot) || (!matchedSlot && foundOtherSlot));
      list', overwritten := WalkEntry(list, i, slots, entry, list', overwritten, foundSlot || foundOtherSlot, matched);
      if matched {
        if matchedSlot {
          foundSlot := true;
        } else {
          foundOtherSlot := true;
        }
      }
    }
    assert list[0..] == list;
    found := foundSlot || foundOtherSlot;
  }

  /**
   `update_slot_list`: of the entries at `slot` and `otherSlot` one is overwritten in place and the other
   removed, so that one entry at `slot` remains and all other entries keep their order.
   */
  method UpdateSlotList(list: seq<Item>, slot: Slot, info: Info, otherSlot: Option<Slot>, reclaims: seq<Item>,
                        reclaim: UpsertReclaim)
    returns (list': seq<Item>, reclaims': seq<Item>, addref: bool)
    requires OnceAt(list, SlotsToReplace(slot, otherSlot))
    requires reclaim.PreviousSlotEntryWasCached? ==>
               forall x :: x in list && x.slot in SlotsToReplace(slot, otherSlot) ==> x.info.cached
    ensures var slots := SlotsToReplace(slot, otherSlot);
            && list' == Updated(list, slots, Item(slot, info))
            && At(list', slots) == [Item(slot, info)]
            && Elsewhere(list', slots) == Elsewhere(list, slots)
            && multiset(reclaims') ==
               multiset(reclaims) + (if reclaim.PopulateReclaims? then multiset(At(list, slots)) else multiset{})
            && (addref <==> !info.cached && forall x :: x in At(list, slots) ==> x.info.cached)
    ensures DistinctSlots(list) ==> DistinctSlots(list')
  {
    ghost var slots := SlotsToReplace(slot, otherSlot);
    var entry := Item(slot, info);
    var overwritten, found;
    list', overwritten, found := OverwriteFromEnd(list, entry, if otherSlot == Some(slot) then None else otherSlot, slots);
    UpdatedOnce(list, slots, entry);
    OverwrittenIsAt(list, slots);
    assert forall x :: x in overwritten <==> x in multiset(At(list, slots));
    reclaims' := if reclaim.PopulateReclaims? then reclaims + overwritten else reclaims;
    addref := !info.cached && forall x :: x in overwritten ==> x.info.cached;
    if !found {
      ReplaceElements(list, slots, entry);
      list' := list' + [entry];
    }
  }

  lemma {:induction false} ReplaceElements(list: seq<Item>, slots: set<Slot>, x: Item)
    ensures forall y :: y in Replace(list, slots, x) ==> y == x || (y in list && y.slot !in slots)
    ensures At(list, slots) == [] ==> Replace(list, slots, x) == list && forall y :: y in list ==> y.slot !in slots
  {
    if list != [] {
      ReplaceElements(list[1..], slots, x);
      assert list == [list[0]] + list[1..];
    }
  }

  lemma {:induction false} NoneAt(list: seq<Item>, slots: set<Slot>, x: Item)
    requires forall y :: y in list ==> y.slot !in slots
    ensures At(list, slots) == [] && Replace(list, slots, x) == list
  {
    if list != [] {
      NoneAt(list[1..], slots, x);
      assert list == [list[0]] + list[1..];
    }
  }

  /** With one entry at the slot, replacement is an update in place. */
  lemma {:induction false} ReplaceIsUpdate(list: seq<Item>, x: Item, position: nat)
    requires DistinctSlots(list) && position < |list| && list[position].slot == x.slot
    ensures At(list, {x.slot}) != [] && Replace(list, {x.slot}, x) == list[position := x]
  {
    var rest := list[1..];
    if position == 0 {
      NoneAt(rest, {x.slot}, x);
      assert list[0 := x] == [x] + rest;
    } else {
      assert rest[position - 1] == list[position];
      ReplaceIsUpdate(rest, x, position - 1);
      assert list[position := x] == [list[0]] + rest[position - 1 := x];
    }
  }

  lemma DistinctCons(x: Item, rest: seq<Item>)
    requires DistinctSlots(rest) && forall y :: y in rest ==> y.slot != x.slot
    ensures DistinctSlots([x] + rest) && DistinctSlots(rest + [x])
  {
    assert forall i :: 0 <= i < |rest| ==> rest[i] in rest;
  }

  lemma {:induction false} ReplaceDistinct(list: seq<Item>, slots: set<Slot>, x: Item)
    requires DistinctSlots(list) && x.slot in slots
    ensures DistinctSlots(Replace(list, slots, x))
    ensures At(list, slots) == [] ==> DistinctSlots(Replace(list, slots, x) + [x])
  {
    ReplaceElements(list, slots, x);
    if At(list, slots) == [] {
      DistinctCons(x, list);
    } else {
      var rest := Replace(list[1..], slots, x);
      ReplaceDistinct(list[1..], slots, x);
      ReplaceElements(list[1..], slots, x);
      if list[0].slot !in slots {
        DistinctCons(list[0], rest);
      } else if At(list[1..], slots) == [] {
        DistinctCons(x, rest);
      }
    }
  }

  lemma {:induction false} KeptDistinct(list: seq<Item>, clean: Slot, newest: Slot)
    requires DistinctSlots(list)
    ensures DistinctSlots(Kept(list, clean, newest))
  {
    if list != [] {
      var n := |list| - 1;
      KeptDistinct(list[..n], clean, newest);
      PurgeConserves(list[..n], clean, newest);
      var kept := Kept(list[..n], clean, newest);
      forall i | 0 <= i < |kept|
        ensures kept[i].slot != list[n].slot
      {
        assert kept[i] in list[..n];
      }
    }
  }
}
