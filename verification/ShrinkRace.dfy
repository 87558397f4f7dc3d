/**
 Looking up a store while shrinking replaces it. A shrink puts the new store of a slot first into
 `shrink_in_progress_map`, then, when it is dropped, into `map` in place of the old one, then removes it
 from `shrink_in_progress_map`. A lookup reads `map`, `shrink_in_progress_map` and `map` again. All these
 accesses are single steps that interleave freely.
 */
module ShrinkRace {
  import opened Basics

  type StoreId = nat

  /** A storage; `version` tells apart storages that stand in for each other under one id. */
  datatype Store = Store(id: StoreId, version: nat)

  /** How far a thread has come with shrinking a slot. */
  datatype Stage = Fetched | Begun | Swapped

  datatype Shrink = Shrink(slot: Slot, oldId: StoreId, newStore: Store, stage: Stage)

  /** `AccountStorageReference`: the id under which a store is looked up, and the store. */
  datatype Reference = Reference(id: StoreId, storage: Store)

  datatype State = State(stores: map<Slot, Reference>, inProgress: map<Slot, Store>, shrinks: map<nat, Shrink>)

  datatype Action =
    | Insert(slot: Slot, store: Store)
    | Remove(slot: Slot)
    | ReplaceWithEquivalent(slot: Slot, storage: Store)
    | FetchOld(thread: nat, slot: Slot, newStore: Store)
    | BeginShrink(thread: nat)
    | SwapStore(thread: nat)
    | FinishShrink(thread: nat)

  /** The control flow of the threads, without the assertions of the source. */
  predicate Possible(st: State, a: Action) {
    match a
    case Insert(slot, _) => true
    case Remove(slot) => true
    case ReplaceWithEquivalent(slot, _) => true
    case FetchOld(thread, slot, _) => thread !in st.shrinks && slot in st.stores
    case BeginShrink(thread) => thread in st.shrinks && st.shrinks[thread].stage == Fetched
    case SwapStore(thread) => thread in st.shrinks && st.shrinks[thread].stage == Begun
    case FinishShrink(thread) => thread in st.shrinks && st.shrinks[thread].stage == Swapped
  }

  /** The assertions of the source at a step. */
  predicate AssertionsHold(st: State, a: Action)
    requires Possible(st, a)
  {
    match a
    case Insert(slot, _) => st.inProgress == map[] && slot !in st.stores
    case BeginShrink(thread) => st.shrinks[thread].slot !in st.inProgress
    case SwapStore(thread) =>
      var s := st.shrinks[thread];
      s.slot in st.stores && st.stores[s.slot].id == s.oldId
    case FinishShrink(thread) => st.shrinks[thread].slot in st.inProgress
    case _ => true
  }

  /** A step in which no assertion fails. */
  predicate Allowed(st: State, a: Action) {
    Possible(st, a) && AssertionsHold(st, a)
  }

  function Step(st: State, a: Action): State
    requires Possible(st, a)
  {
    match a
    case Insert(slot, store) => st.(stores := st.stores[slot := Reference(store.id, store)])
    case Remove(slot) => st.(stores := st.stores - {slot})
    case ReplaceWithEquivalent(slot, storage) =>
      if slot in st.stores then st.(stores := st.stores[slot := st.stores[slot].(storage := storage)]) else st
    case FetchOld(thread, slot, newStore) =>
      st.(shrinks := st.shrinks[thread := Shrink(slot, st.stores[slot].storage.id, newStore, Fetched)])
    case BeginShrink(thread) =>
      var s := st.shrinks[thread];
      st.(inProgress := st.inProgress[s.slot := s.newStore], shrinks := st.shrinks[thread := s.(stage := Begun)])
    case SwapStore(thread) =>
      var s := st.shrinks[thread];
      st.(stores := st.stores[s.slot := Reference(s.newStore.id, s.newStore)],
          shrinks := st.shrinks[thread := s.(stage := Swapped)])
    case FinishShrink(thread) =>
      st.(inProgress := st.inProgress - {st.shrinks[thread].slot}, shrinks := st.shrinks - {thread})
  }

  // ----- what every run keeps -----

  /** The slot is taken by a shrink from its begin to the end of its drop. */
  predicate Active(s: Shrink) {
    s.stage != Fetched
  }

  ghost predicate ShrinkInv(st: State, s: Shrink) {
    && (Active(s) ==> s.slot in st.inProgress && st.inProgress[s.slot] == s.newStore)
    && (s.stage == Swapped && s.slot in st.stores ==> st.stores[s.slot].id == s.newStore.id)
  }

  /** One active shrink per slot, which is the one that `shrink_in_progress_map` shows. */
  ghost predicate Exclusive(st: State) {
    forall t, u :: t in st.shrinks && u in st.shrinks && t != u && Active(st.shrinks[t]) && Active(st.shrinks[u]) ==>
      st.shrinks[t].slot != st.shrinks[u].slot
  }

  ghost predicate ActiveOn(st: State, slot: Slot) {
    exists t :: t in st.shrinks && Active(st.shrinks[t]) && st.shrinks[t].slot == slot
  }

  ghost predicate Inv(st: State) {
    && (forall t :: t in st.shrinks ==> ShrinkInv(st, st.shrinks[t]))
    && Exclusive(st)
    && (forall slot :: slot in st.inProgress ==> ActiveOn(st, slot))
  }

  /** A storage without shrinks, such as a new one. */
  lemma InitialInv(stores: map<Slot, Reference>)
    ensures Inv(State(stores, map[], map[]))
  {
  }

  lemma StepKeepsShrinks(st: State, a: Action, t: nat)
    requires Inv(st) && Allowed(st, a) && t in Step(st, a).shrinks
    ensures ShrinkInv(Step(st, a), Step(st, a).shrinks[t])
  {
    if t in st.shrinks {
      assert ShrinkInv(st, st.shrinks[t]);
    }
    if a.BeginShrink? || a.SwapStore? || a.FinishShrink? {
      assert ShrinkInv(st, st.shrinks[a.thread]);
    }
  }

  lemma StepKeepsExclusive(st: State, a: Action)
    requires Inv(st) && Allowed(st, a)
    ensures Exclusive(Step(st, a))
  {
    match a {
      case BeginShrink(t) =>
        forall u | u in st.shrinks && u != t && Active(st.shrinks[u])
          ensures st.shrinks[u].slot != st.shrinks[t].slot
        {
          assert ShrinkInv(st, st.shrinks[u]);
        }
      case _ =>
    }
  }

  lemma StepKeepsProgress(st: State, a: Action, slot: Slot)
    requires Inv(st) && Allowed(st, a) && slot in Step(st, a).inProgress
    ensures ActiveOn(Step(st, a), slot)
  {
    var st' := Step(st, a);
    if slot in st.inProgress {
      var t :| t in st.shrinks && Active(st.shrinks[t]) && st.shrinks[t].slot == slot;
      assert t in st'.shrinks && Active(st'.shrinks[t]) && st'.shrinks[t].slot == slot;
    } else {
      assert a.BeginShrink? && Active(st'.shrinks[a.thread]) && st'.shrinks[a.thread].slot == slot;
    }
  }

  /** Every step of a run in which no assertion has failed keeps the invariant. */
  lemma StepKeepsInv(st: State, a: Action)
    requires Inv(st) && Allowed(st, a)
    ensures Inv(Step(st, a))
  {
    var st' := Step(st, a);
    forall t | t in st'.shrinks
      ensures ShrinkInv(st', st'.shrinks[t])
    {
      StepKeepsShrinks(st, a, t);
    }
    StepKeepsExclusive(st, a);
    forall slot | slot in st'.inProgress
      ensures ActiveOn(st', slot)
    {
      StepKeepsProgress(st, a, slot);
    }
  }

  /** Any interleaving of any threads, as long as no assertion fails. */
  ghost predicate Taken(states: seq<State>, actions: seq<Action>, i: nat)
    requires i < |actions| && |states| == |actions| + 1
  {
    && Allowed(states[i], actions[i])
    && states[i + 1] == Step(states[i], actions[i])
  }

  ghost predicate Run(states: seq<State>, actions: seq<Action>) {
    && |states| == |actions| + 1
    && Inv(states[0])
    && forall i :: 0 <= i < |actions| ==> Taken(states, actions, i)
  }

  lemma {:induction false} RunKeepsInv(states: seq<State>, actions: seq<Action>, k: nat)
    requires Run(states, actions) && k <= |actions|
    ensures Inv(states[k])
  {
    if k > 0 {
      RunKeepsInv(states, actions, k - 1);
      assert Taken(states, actions, k - 1);
      StepKeepsInv(states[k - 1], actions[k - 1]);
    }
  }

  // ----- when the assertions hold -----

  /** What an action does to the reference of a slot: nothing, or it removes it, or installs one with an id. */
  datatype Effect = Leaves | Removes | Installs(id: StoreId)

  function EffectOf(st: State, a: Action, slot: Slot): Effect
    requires Possible(st, a)
  {
    match a
    case Insert(s, store) => if s == slot then Installs(store.id) else Leaves
    case Remove(s) => if s == slot then Removes else Leaves
    case SwapStore(t) => if st.shrinks[t].slot == slot then Installs(st.shrinks[t].newStore.id) else Leaves
    case _ => Leaves
  }

  ghost function EffectAt(states: seq<State>, actions: seq<Action>, i: nat, slot: Slot): Effect
    requires Run(states, actions) && i < |actions|
  {
    assert Taken(states, actions, i);
    EffectOf(states[i], actions[i], slot)
  }

  /** The last action from `f` up to `k` that changes the reference of the slot. */
  ghost function LastChange(states: seq<State>, actions: seq<Action>, slot: Slot, f: nat, k: nat): (r: Option<nat>)
    requires Run(states, actions) && f <= k <= |actions|
    ensures r.Some? ==> f <= r.value < k && EffectAt(states, actions, r.value, slot) != Leaves
    ensures forall i :: f <= i < k && (r.Some? ==> r.value < i) ==> EffectAt(states, actions, i, slot) == Leaves
    decreases k
  {
    if f == k then None
    else if EffectAt(states, actions, k - 1, slot) != Leaves then Some(k - 1)
    else LastChange(states, actions, slot, f, k - 1)
  }

  predicate ReferenceIs(st: State, slot: Slot, e: Effect) {
    match e
    case Leaves => false
    case Removes => slot !in st.stores
    case Installs(id) => slot in st.stores && st.stores[slot].id == id
  }

  lemma StepEffect(st: State, a: Action, slot: Slot)
    requires Possible(st, a)
    ensures EffectOf(st, a, slot) != Leaves ==> ReferenceIs(Step(st, a), slot, EffectOf(st, a, slot))
    ensures EffectOf(st, a, slot) == Leaves ==>
              && (slot in Step(st, a).stores <==> slot in st.stores)
              && (slot in st.stores ==> Step(st, a).stores[slot].id == st.stores[slot].id)
  {
  }

  /** The reference of a slot is what the last change since `f` made it, or else what it was at `f`. */
  lemma {:induction false} ReferenceSince(states: seq<State>, actions: seq<Action>, slot: Slot, f: nat, k: nat)
    requires Run(states, actions) && f <= k <= |actions|
    ensures match LastChange(states, actions, slot, f, k)
            case Some(i) => ReferenceIs(states[k], slot, EffectAt(states, actions, i, slot))
            case None =>
              && (slot in states[k].stores <==> slot in states[f].stores)
              && (slot in states[f].stores ==> states[k].stores[slot].id == states[f].stores[slot].id)
    decreases k
  {
    if f < k {
      ReferenceSince(states, actions, slot, f, k - 1);
      assert Taken(states, actions, k - 1);
      StepEffect(states[k - 1], actions[k - 1], slot);
    }
  }

  /** Thread `t` fetches the old store at step `f` and does not fetch again before `k`. */
  ghost predicate FetchedAt(states: seq<State>, actions: seq<Action>, t: nat, f: nat, k: nat)
    requires Run(states, actions) && k <= |actions|
  {
    && f < k && actions[f].FetchOld? && actions[f].thread == t
    && forall i :: f < i < k && actions[i].FetchOld? ==> actions[i].thread != t
  }

  /** The record that a fetch makes stays with the thread until it has finished. */
  lemma {:induction false} RecordKept(states: seq<State>, actions: seq<Action>, t: nat, f: nat, k: nat)
    requires Run(states, actions) && k <= |actions| && FetchedAt(states, actions, t, f, k) && t in states[k].shrinks
    ensures var slot := actions[f].slot;
            && slot in states[f].stores
            && states[k].shrinks[t].slot == slot
            && states[k].shrinks[t].oldId == states[f].stores[slot].storage.id
    decreases k
  {
    assert Taken(states, actions, k - 1);
    if f + 1 < k {
      assert FetchedAt(states, actions, t, f, k - 1);
      assert t in states[k - 1].shrinks;
      RecordKept(states, actions, t, f, k - 1);
    }
  }

  /** Every shrink of a run that starts without any has been fetched in it. */
  lemma {:induction false} FetchExists(states: seq<State>, actions: seq<Action>, t: nat, k: nat) returns (f: nat)
    requires Run(states, actions) && k <= |actions| && states[0].shrinks == map[] && t in states[k].shrinks
    ensures FetchedAt(states, actions, t, f, k)
    decreases k
  {
    assert Taken(states, actions, k - 1);
    if actions[k - 1].FetchOld? && actions[k - 1].thread == t {
      f := k - 1;
    } else {
      f := FetchExists(states, actions, t, k - 1);
    }
  }

  /**
   The first assertion of `drop`, over all runs: the swap finds the store that was fetched if and only if the
   last change of the slot's reference since the fetch installed a store of that id, or there was no change
   and the reference agreed with its store when it was fetched.
   */
  lemma SwapAssertedExactly(states: seq<State>, actions: seq<Action>, t: nat, f: nat, k: nat)
    requires Run(states, actions) && k <= |actions|
    requires FetchedAt(states, actions, t, f, k) && Possible(states[k], SwapStore(t))
    ensures var slot := actions[f].slot;
            && slot in states[f].stores
            && var fetched := states[f].stores[slot];
               AssertionsHold(states[k], SwapStore(t)) <==>
                 match LastChange(states, actions, slot, f, k)
                 case Some(i) => EffectAt(states, actions, i, slot) == Installs(fetched.storage.id)
                 case None => fetched.id == fetched.storage.id
  {
    RecordKept(states, actions, t, f, k);
    ReferenceSince(states, actions, actions[f].slot, f, k);
  }

  /** In a run that starts without shrinks this tells of every swap, with the fetch that it goes back to. */
  lemma SwapAssertedInRun(states: seq<State>, actions: seq<Action>, t: nat, k: nat) returns (f: nat)
    requires Run(states, actions) && k <= |actions| && states[0].shrinks == map[] && Possible(states[k], SwapStore(t))
    ensures FetchedAt(states, actions, t, f, k) && actions[f].slot in states[f].stores
    ensures var fetched := states[f].stores[actions[f].slot];
            AssertionsHold(states[k], SwapStore(t)) <==>
              match LastChange(states, actions, actions[f].slot, f, k)
              case Some(i) => EffectAt(states, actions, i, actions[f].slot) == Installs(fetched.storage.id)
              case None => fetched.id == fetched.storage.id
  {
    f := FetchExists(states, actions, t, k);
    SwapAssertedExactly(states, actions, t, f, k);
  }

  /** The assertion of `shrinking_in_progress`: exactly when no other shrink of the slot is between begin and end. */
  lemma BeginAssertedExactly(states: seq<State>, actions: seq<Action>, t: nat, k: nat)
    requires Run(states, actions) && k <= |actions| && Possible(states[k], BeginShrink(t))
    ensures AssertionsHold(states[k], BeginShrink(t)) <==> !ActiveOn(states[k], states[k].shrinks[t].slot)
  {
    RunKeepsInv(states, actions, k);
    var st := states[k];
    if u :| u in st.shrinks && Active(st.shrinks[u]) && st.shrinks[u].slot == st.shrinks[t].slot {
      assert ShrinkInv(st, st.shrinks[u]);
    }
  }

  /** The second assertion of `drop` holds in every run. */
  lemma FinishAsserted(states: seq<State>, actions: seq<Action>, t: nat, k: nat)
    requires Run(states, actions) && k <= |actions| && Possible(states[k], FinishShrink(t))
    ensures AssertionsHold(states[k], FinishShrink(t))
  {
    RunKeepsInv(states, actions, k);
    assert ShrinkInv(states[k], states[k].shrinks[t]);
  }

  /** What callers can keep to: nobody else changes the slot, and equivalent stores have the same id. */
  lemma UndisturbedShrink(states: seq<State>, actions: seq<Action>, t: nat, f: nat, k: nat)
    requires Run(states, actions) && k <= |actions|
    requires FetchedAt(states, actions, t, f, k) && Possible(states[k], SwapStore(t))
    requires forall i :: f <= i < k ==> EffectAt(states, actions, i, actions[f].slot) == Leaves
    requires Agrees(states[f], actions[f].slot)
    ensures AssertionsHold(states[k], SwapStore(t))
  {
    SwapAssertedExactly(states, actions, t, f, k);
  }

  // ----- the lookup -----

  /** The id under which a slot is looked up is the id of its store. */
  predicate Agrees(st: State, slot: Slot) {
    slot in st.stores ==> st.stores[slot].storage.id == st.stores[slot].id
  }

  predicate InStores(st: State, slot: Slot, id: StoreId) {
    slot in st.stores && st.stores[slot].id == id
  }

  predicate InProgress(st: State, slot: Slot, id: StoreId) {
    slot in st.inProgress && st.inProgress[slot].id == id
  }

  function ReadStores(st: State, slot: Slot, id: StoreId): Option<Store> {
    if InStores(st, slot, id) then Some(st.stores[slot].storage) else None
  }

  function ReadInProgress(st: State, slot: Slot, id: StoreId): Option<Store> {
    if InProgress(st, slot, id) then Some(st.inProgress[slot]) else None
  }

  /** `get_account_storage_entry`, with the states in which its three reads take place. */
  function Lookup(first: State, second: State, third: State, slot: Slot, id: StoreId): Option<Store> {
    var r1 := ReadStores(first, slot, id);
    var r2 := ReadInProgress(second, slot, id);
    if r1.Some? then r1 else if r2.Some? then r2 else ReadStores(third, slot, id)
  }

  /** The step takes store `id` out of the map: it is swapped for another one, or its slot is removed. */
  predicate TakesOut(st: State, a: Action, slot: Slot, id: StoreId)
    requires Possible(st, a)
  {
    match a
    case SwapStore(t) => st.shrinks[t].slot == slot && st.shrinks[t].oldId == id && st.shrinks[t].newStore.id != id
    case Remove(s) => s == slot
    case _ => false
  }

  lemma StepKeepsVisible(st: State, a: Action, slot: Slot, id: StoreId)
    requires Inv(st) && Allowed(st, a) && !TakesOut(st, a, slot, id)
    requires InStores(st, slot, id) || (slot in st.stores && InProgress(st, slot, id))
    ensures InStores(st, slot, id) ==> InStores(Step(st, a), slot, id)
    ensures slot in Step(st, a).stores
    ensures InStores(Step(st, a), slot, id) || InProgress(Step(st, a), slot, id)
  {
    if a.BeginShrink? || a.SwapStore? || a.FinishShrink? {
      assert ShrinkInv(st, st.shrinks[a.thread]);
    }
    if a.SwapStore? && slot in st.inProgress {
      var u :| u in st.shrinks && Active(st.shrinks[u]) && st.shrinks[u].slot == slot;
    }
  }

  ghost predicate Spares(states: seq<State>, actions: seq<Action>, k: nat, slot: Slot, id: StoreId)
    requires |states| == |actions| + 1 && k < |actions|
  {
    Taken(states, actions, k) && !TakesOut(states[k], actions[k], slot, id)
  }

  ghost predicate NotTakenOut(states: seq<State>, actions: seq<Action>, i: nat, j: nat, slot: Slot, id: StoreId)
    requires Run(states, actions) && i <= j <= |actions|
  {
    forall k :: i <= k < j ==> Spares(states, actions, k, slot, id)
  }

  /** The store is in one of the maps, and its slot in use. */
  predicate Visible(st: State, slot: Slot, id: StoreId) {
    slot in st.stores && (InStores(st, slot, id) || InProgress(st, slot, id))
  }

  lemma VisibleNext(states: seq<State>, actions: seq<Action>, m: nat, slot: Slot, id: StoreId)
    requires Run(states, actions) && m < |actions| && Spares(states, actions, m, slot, id)
    requires Visible(states[m], slot, id)
    ensures InStores(states[m], slot, id) ==> InStores(states[m + 1], slot, id)
    ensures Visible(states[m + 1], slot, id)
  {
    RunKeepsInv(states, actions, m);
    StepKeepsVisible(states[m], actions[m], slot, id);
  }

  lemma {:induction false} StaysVisible(states: seq<State>, actions: seq<Action>, i: nat, j: nat, slot: Slot,
                                        id: StoreId)
    requires Run(states, actions) && i <= j <= |actions| && NotTakenOut(states, actions, i, j, slot, id)
    requires Visible(states[i], slot, id)
    ensures InStores(states[i], slot, id) ==> InStores(states[j], slot, id)
    ensures Visible(states[j], slot, id)
    decreases j
  {
    if i < j {
      StaysVisible(states, actions, i, j - 1, slot, id);
      VisibleNext(states, actions, j - 1, slot, id);
    }
  }

  /** In every interleaving, a store that is in one of the maps all the time, and not taken out of `map`, is found. */
  lemma LookupFindsPresent(states: seq<State>, actions: seq<Action>, i: nat, j: nat, k: nat, slot: Slot, id: StoreId)
    requires Run(states, actions) && i <= j <= k <= |actions| && NotTakenOut(states, actions, i, k, slot, id)
    requires forall m :: i <= m <= k ==> InStores(states[m], slot, id) || InProgress(states[m], slot, id)
    ensures var r := Lookup(states[i], states[j], states[k], slot, id);
            r.Some? && (Agrees(states[i], slot) && Agrees(states[k], slot) ==> r.value.id == id)
  {
    if InStores(states[j], slot, id) {
      StaysVisible(states, actions, j, k, slot, id);
    }
  }

  /**
   In every interleaving, a store that is in one of the maps when the lookup starts, and is not taken out
   of `map` before the lookup ends, stays in one of them and is found.
   */
  lemma LookupFinds(states: seq<State>, actions: seq<Action>, i: nat, j: nat, k: nat, slot: Slot, id: StoreId)
    requires Run(states, actions) && i <= j <= k <= |actions|
    requires Visible(states[i], slot, id) && NotTakenOut(states, actions, i, k, slot, id)
    ensures var r := Lookup(states[i], states[j], states[k], slot, id);
            r.Some? && (Agrees(states[i], slot) && Agrees(states[k], slot) ==> r.value.id == id)
  {
    forall m | i <= m <= k
      ensures InStores(states[m], slot, id) || InProgress(states[m], slot, id)
    {
      StaysVisible(states, actions, i, m, slot, id);
    }
    LookupFindsPresent(states, actions, i, j, k, slot, id);
  }

  // ----- why each part is needed -----

  function RunAll(st: State, actions: seq<Action>): State
    requires AssertedRun(st, actions)
    decreases |actions|
  {
    if actions == [] then st else RunAll(Step(st, actions[0]), actions[1..])
  }

  /** A run in which every assertion of the source holds. */
  predicate AssertedRun(st: State, actions: seq<Action>)
    decreases |actions|
  {
    actions == [] || (Allowed(st, actions[0]) && AssertedRun(Step(st, actions[0]), actions[1..]))
  }

  /** Two reads are not enough: between them the store can move from one map to the other. */
  lemma TwoReadsCanMiss()
    ensures exists st, slot, id, t ::
              && Inv(st) && InProgress(st, slot, id)
              && Allowed(st, SwapStore(t)) && Allowed(Step(st, SwapStore(t)), FinishShrink(t))
              && ReadStores(st, slot, id).None?
              && ReadInProgress(Step(Step(st, SwapStore(t)), FinishShrink(t)), slot, id).None?
  {
    var s := Shrink(7, 1, Store(2, 0), Begun);
    var st := State(map[7 := Reference(1, Store(1, 0))], map[7 := Store(2, 0)], map[0 := s]);
    assert st.shrinks[0] == s;
    assert Inv(st) && InProgress(st, 7, 2) && Allowed(st, SwapStore(0));
    var st1 := Step(st, SwapStore(0));
    assert Allowed(st1, FinishShrink(0)) && ReadStores(st, 7, 2).None?;
  }

  /**
   Two shrinks of one slot whose first reads overlap: the second is begun after the first has finished, and
   all assertions hold up to there. The assertion of its swap holds if and only if the first shrink did not
   change the id of the store.
   */
  lemma OverlappingShrinks(st: State, slot: Slot, a: nat, b: nat, x: Store, y: Store)
    requires Inv(st) && slot in st.stores && slot !in st.inProgress && a != b && a !in st.shrinks && b !in st.shrinks
    requires Agrees(st, slot)
    ensures var actions :=
              [FetchOld(a, slot, x), FetchOld(b, slot, y), BeginShrink(a), SwapStore(a), FinishShrink(a), BeginShrink(b)];
            && AssertedRun(st, actions)
            && var last := RunAll(st, actions);
               Possible(last, SwapStore(b)) && (AssertionsHold(last, SwapStore(b)) <==> x.id == st.stores[slot].id)
  {
    var s1 := Step(st, FetchOld(a, slot, x));
    var s2 := Step(s1, FetchOld(b, slot, y));
    ShrinkThenBegin(s2, a, Shrink(slot, st.stores[slot].id, x, Fetched), b);
    var rest := [BeginShrink(a), SwapStore(a), FinishShrink(a), BeginShrink(b)];
    RunAllStep(s1, FetchOld(b, slot, y), rest);
    RunAllStep(st, FetchOld(a, slot, x), [FetchOld(b, slot, y)] + rest);
  }

  /** A shrink from its first insertion to its end, then the beginning of another one. */
  lemma ShrinkThenBegin(st: State, a: nat, s: Shrink, b: nat)
    requires a in st.shrinks && st.shrinks[a] == s && s.stage == Fetched
    requires s.slot in st.stores && st.stores[s.slot].id == s.oldId && s.slot !in st.inProgress
    requires b in st.shrinks && st.shrinks[b].stage == Fetched && a != b && st.shrinks[b].slot == s.slot
    ensures var actions := [BeginShrink(a), SwapStore(a), FinishShrink(a), BeginShrink(b)];
            && AssertedRun(st, actions)
            && var last := RunAll(st, actions);
               && last.stores == st.stores[s.slot := Reference(s.newStore.id, s.newStore)]
               && b in last.shrinks && last.shrinks[b] == st.shrinks[b].(stage := Begun)
  {
    var s1 := Step(st, BeginShrink(a));
    var s2 := Step(s1, SwapStore(a));
    var s3 := Step(s2, FinishShrink(a));
    RunAllStep(s3, BeginShrink(b), []);
    RunAllStep(s2, FinishShrink(a), [BeginShrink(b)]);
    RunAllStep(s1, SwapStore(a), [FinishShrink(a), BeginShrink(b)]);
    RunAllStep(st, BeginShrink(a), [SwapStore(a), FinishShrink(a), BeginShrink(b)]);
  }

  /** A shrink after the store was replaced by an equivalent one: its swap is as asserted exactly when the ids agree. */
  lemma EquivalentKeepsId(st: State, slot: Slot, t: nat, storage: Store, x: Store)
    requires Inv(st) && slot in st.stores && slot !in st.inProgress && t !in st.shrinks
    ensures var actions := [ReplaceWithEquivalent(slot, storage), FetchOld(t, slot, x), BeginShrink(t)];
            && AssertedRun(st, actions)
            && var last := RunAll(st, actions);
               && Possible(last, SwapStore(t))
               && (AssertionsHold(last, SwapStore(t)) <==> storage.id == st.stores[slot].id)
  {
    var s1 := Step(st, ReplaceWithEquivalent(slot, storage));
    var s2 := Step(s1, FetchOld(t, slot, x));
    RunAllStep(s2, BeginShrink(t), []);
    RunAllStep(s1, FetchOld(t, slot, x), [BeginShrink(t)]);
    RunAllStep(st, ReplaceWithEquivalent(slot, storage), [FetchOld(t, slot, x), BeginShrink(t)]);
  }

  lemma RunAllStep(st: State, a: Action, rest: seq<Action>)
    requires Allowed(st, a) && AssertedRun(Step(st, a), rest)
    ensures AssertedRun(st, [a] + rest) && RunAll(st, [a] + rest) == RunAll(Step(st, a), rest)
  {
    assert ([a] + rest)[1..] == rest;
  }
}
