/**
 The accounts index as an object: its roots, its slot lists and its ongoing scans, changed in place.
 Every method is one step of the scan protocol, so what the protocol keeps over every run holds here.
 */
module AccountsIndexObject {
  import opened Basics
  import opened RollingBits
  import opened SlotLists
  import opened ScanProtocol

  class AccountsIndex {
    const aliveRoots: RollingBitField
    var accountMaps: Index
    var ongoingScanRoots: map<Slot, nat>
    /** The scans and cleans under way, which the source keeps on the stacks of their threads. */
    ghost var scans: map<nat, Scan>
    ghost var cleans: map<nat, Clean>

    ghost function View(): State
      reads this, aliveRoots
    {
      State(aliveRoots.Contents(), aliveRoots.MaxInclusive(), accountMaps, ongoingScanRoots, scans, cleans)
    }

    ghost predicate Valid()
      reads this, aliveRoots, aliveRoots.bits
    {
      && aliveRoots.Valid()
      && (forall pk :: pk in accountMaps ==> DistinctSlots(accountMaps[pk]))
    }

    constructor (maxWidth: nat)
      requires maxWidth > 0
      ensures Valid() && View() == State({}, 0, map[], map[], map[], map[])
      ensures fresh(aliveRoots) && fresh(aliveRoots.bits)
    {
      aliveRoots := new RollingBitField(maxWidth);
      accountMaps, ongoingScanRoots, scans, cleans := map[], map[], map[], map[];
    }

    /** The start of `do_checked_scan_accounts`: record the newest root; returns what the scan looks at. */
    method BeginScan(ancestors: set<Slot>, ghost id: nat) returns (maxRoot: Slot, scanned: set<Slot>)
      requires Valid() && Enabled(View(), Action.BeginScan(id, ancestors))
      modifies this
      ensures Valid() && View() == Step(old(View()), Action.BeginScan(id, ancestors))
      ensures Scan(maxRoot, scanned) == View().scans[id]
    {
      maxRoot := aliveRoots.MaxInclusive();
      var count := if maxRoot in ongoingScanRoots then ongoingScanRoots[maxRoot] else 0;
      ongoingScanRoots := ongoingScanRoots[maxRoot := count + 1];
      scanned := if maxRoot in ancestors then ancestors else {};
      scans := scans[id := Scan(maxRoot, scanned)];
    }

    /** The end of `do_checked_scan_accounts`; `EndScanEnabled` shows that the count is there to be lowered. */
    method EndScan(maxRoot: Slot, ghost id: nat)
      requires Valid() && Enabled(View(), Action.EndScan(id)) && scans[id].maxRoot == maxRoot
      modifies this
      ensures Valid() && View() == Step(old(View()), Action.EndScan(id))
    {
      var count := ongoingScanRoots[maxRoot] - 1;
      if count == 0 {
        ongoingScanRoots := ongoingScanRoots - {maxRoot};
      } else {
        ongoingScanRoots := ongoingScanRoots[maxRoot := count];
      }
      scans := scans - {id};
    }

    method MinOngoingScanRoot() returns (r: Option<Slot>)
      ensures LeastRoot(ongoingScanRoots, r)
    {
      if ongoingScanRoots.Keys == {} {
        return None;
      }
      return Some(LeastOf(ongoingScanRoots.Keys));
    }

    /** `add_root`; roots are added in order. */
    method AddRoot(slot: Slot)
      requires Valid() && slot >= aliveRoots.MaxInclusive() && slot < U64_MAX
      modifies aliveRoots, aliveRoots.bits
      ensures Valid() && View() == Step(old(View()), Action.AddRoot(slot))
    {
      aliveRoots.Insert(slot);
    }

    /** `clean_dead_slot`: the storage of an unreferenced slot is gone; was it a root? */
    method CleanDeadSlot(slot: Slot) returns (wasRoot: bool)
      requires Valid() && !Referenced(accountMaps, slot)
      modifies aliveRoots, aliveRoots.bits
      ensures Valid() && View() == Step(old(View()), Action.CleanDeadSlot(slot))
      ensures wasRoot <==> slot in old(View()).roots
    {
      ghost var before := View();
      wasRoot := aliveRoots.Remove(slot);
      assert View() == before.(roots := before.roots - {slot});
    }

    /** The start of a clean: `max_clean_root` of the proposed root, under the lock of the ongoing scans. */
    method StartClean(proposed: Option<Slot>, ghost id: nat) returns (bound: Option<Slot>, ghost least: Option<Slot>)
      requires Valid() && id !in cleans
      modifies this`cleans
      ensures Valid() && Enabled(old(View()), Action.StartClean(id, proposed, least))
      ensures View() == Step(old(View()), Action.StartClean(id, proposed, least)) && bound == View().cleans[id].bound
    {
      var minScanRoot := MinOngoingScanRoot();
      least := minScanRoot;
      match (minScanRoot, proposed) {
        case (None, None) => bound := None;
        case (Some(m), None) => bound := Some(m);
        case (None, Some(p)) => bound := Some(p);
        case (Some(m), Some(p)) => bound := Some(Min(m, p));
      }
      cleans := cleans[id := StartedClean(aliveRoots.MaxInclusive(), minScanRoot, proposed)];
    }

    method PurgeList(list: seq<Item>, reclaims: seq<Item>, bound: Option<Slot>)
      returns (kept: seq<Item>, reclaims': seq<Item>)
      requires aliveRoots.Valid() && DistinctSlots(list)
      ensures kept == Purged(list, aliveRoots.Contents(), aliveRoots.MaxInclusive(), bound) && DistinctSlots(kept)
      ensures multiset(reclaims') + multiset(kept) == multiset(reclaims) + multiset(list)
    {
      ghost var newest := NewestRoot(list, aliveRoots.Contents(), bound);
      ghost var clean := bound.GetOr(aliveRoots.MaxInclusive());
      PurgeConserves(list, clean, newest);
      KeptDistinct(list, clean, newest);
      kept, reclaims' := PurgeOlderRootEntries(list, reclaims, aliveRoots, bound);
    }

    /** `clean_rooted_entries`: purge one key's list; true when the key is not in the index afterwards. */
    method CleanRootedEntries(pk: Pubkey, reclaims: seq<Item>, bound: Option<Slot>, ghost id: nat)
      returns (gone: bool, reclaims': seq<Item>)
      requires Valid() && id in cleans && cleans[id].bound == bound
      modifies this`accountMaps
      ensures Valid()
      ensures accountMaps == CleanedIndex(old(accountMaps), aliveRoots.Contents(), aliveRoots.MaxInclusive(), bound, pk)
      ensures Enabled(old(View()), Action.CleanKey(id, pk)) ==> View() == Step(old(View()), Action.CleanKey(id, pk))
      ensures gone <==> pk !in accountMaps
      ensures multiset(reclaims') + multiset(ListOf(accountMaps, pk)) ==
                multiset(reclaims) + multiset(old(ListOf(accountMaps, pk)))
    {
      if pk !in accountMaps {
        return true, reclaims;
      }
      var kept;
      kept, reclaims' := PurgeList(accountMaps[pk], reclaims, bound);
      if kept == [] {
        accountMaps := accountMaps - {pk};
        gone := true;
      } else {
        accountMaps := accountMaps[pk := kept];
        gone := false;
      }
    }

    /** `upsert`: one entry at `slot` takes the place of those at `slot` and `otherSlot`, or is added. */
    method Upsert(pk: Pubkey, slot: Slot, info: Info, otherSlot: Option<Slot>, reclaims: seq<Item>,
                  reclaim: UpsertReclaim)
      returns (reclaims': seq<Item>, addref: bool)
      requires Valid()
      requires reclaim.PreviousSlotEntryWasCached? ==>
                 forall x :: x in ListOf(accountMaps, pk) && x.slot in SlotsToReplace(slot, otherSlot) ==> x.info.cached
      modifies this`accountMaps
      ensures Valid() && View() == Upserted(old(View()), pk, Item(slot, info), SlotsToReplace(slot, otherSlot))
      ensures var there := At(old(ListOf(accountMaps, pk)), SlotsToReplace(slot, otherSlot));
              && multiset(reclaims') ==
                 multiset(reclaims) + (if reclaim.PopulateReclaims? then multiset(there) else multiset{})
              && (addref <==> !info.cached && forall x :: x in there ==> x.info.cached)
    {
      var list: seq<Item> := if pk in accountMaps then accountMaps[pk] else [];
      var updated;
      updated, reclaims', addref := UpdateSlotList(list, slot, info, otherSlot, reclaims, reclaim);
      accountMaps := accountMaps[pk := updated];
    }

    /** What a scan does for one key. */
    method ScanKey(pk: Pubkey, maxRoot: Slot, ancestors: set<Slot>) returns (r: Option<(Slot, nat)>)
      requires Valid()
      ensures r == Seen(View(), Scan(maxRoot, ancestors), pk)
    {
      if pk !in accountMaps {
        return None;
      }
      var list := accountMaps[pk];
      var found := LatestSlot(Some(ancestors), list, Some(maxRoot), aliveRoots);
      match found {
        case None => r := None;
        case Some(i) => r := Some((list[i].slot, list[i].info.content));
      }
    }
  }

  ghost function Upserted(st: State, pk: Pubkey, x: Item, slots: set<Slot>): State {
    st.(index := st.index[pk := Updated(ListOf(st.index, pk), slots, x)])
  }

  /** In a slot above the newest root that no scan looks at, an upsert is the protocol's step. */
  lemma UpsertIsStep(st: State, pk: Pubkey, x: Item)
    requires x.slot > st.maxInclusive && forall id :: id in st.scans ==> x.slot !in st.scans[id].ancestors
    ensures var a := Action.Upsert(pk, x.slot, x.info, Updated(ListOf(st.index, pk), {x.slot}, x));
            Enabled(st, a) && Step(st, a) == Upserted(st, pk, x, {x.slot})
  {
    UpdatedOnce(ListOf(st.index, pk), {x.slot}, x);
  }

  /** Over an entry of the same slot and content, an upsert is the protocol's relocation, whatever the slot. */
  lemma UpsertIsRelocation(st: State, pk: Pubkey, x: Item, i: nat)
    requires pk in st.index && DistinctSlots(st.index[pk]) && i < |st.index[pk]|
    requires st.index[pk][i].slot == x.slot && st.index[pk][i].info.content == x.info.content
    ensures var a := Action.Relocate(pk, i, x.info.cached);
            Enabled(st, a) && Step(st, a) == Upserted(st, pk, x, {x.slot})
  {
    ReplaceIsUpdate(st.index[pk], x, i);
  }
}
