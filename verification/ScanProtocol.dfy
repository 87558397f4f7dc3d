/**
 The protocol that protects ongoing scans of the accounts index from concurrent cleaning, as a state
 machine whose steps are the critical sections of the source. A scan records the newest root at its
 start in `ongoing_scan_roots`; a clean never goes beyond the least recorded root. Over every run, what
 a scan would see for any pubkey is the same from its first step to its last.
 */
module ScanProtocol {
  import opened Basics
  import opened SlotLists

  type Index = map<Pubkey, seq<Item>>

  /** A running scan: the root it recorded, and the ancestors it looks at, which may be none. */
  datatype Scan = Scan(maxRoot: Slot, ancestors: set<Slot>)

  datatype State = State(
    roots: set<Slot>,
    maxInclusive: Slot,
    index: Index,
    ongoing: map<Slot, nat>,
    scans: map<nat, Scan>,
    cleans: map<nat, Clean>)

  function ListOf(index: Index, pk: Pubkey): seq<Item> {
    if pk in index then index[pk] else []
  }

  ghost predicate Referenced(index: Index, s: Slot) {
    exists pk, x :: pk in index && x in index[pk] && x.slot == s
  }

  function ScanQuery(scan: Scan): Query {
    Query(scan.ancestors, Some(scan.maxRoot))
  }

  /** What a query observes: the slot and the content it finds. */
  function Observed(list: seq<Item>, q: Query, roots: set<Slot>): Option<(Slot, nat)> {
    match Answer(list, q, roots)
    case None => None
    case Some(x) => Some((x.slot, x.info.content))
  }

  function Seen(st: State, scan: Scan, pk: Pubkey): Option<(Slot, nat)> {
    Observed(ListOf(st.index, pk), ScanQuery(scan), st.roots)
  }

  // ----- the count of ongoing scans per root -----

  function Increment(ongoing: map<Slot, nat>, m: Slot): map<Slot, nat> {
    ongoing[m := (if m in ongoing then ongoing[m] else 0) + 1]
  }

  function Decrement(ongoing: map<Slot, nat>, m: Slot): map<Slot, nat>
    requires m in ongoing && ongoing[m] >= 1
  {
    if ongoing[m] == 1 then ongoing - {m} else ongoing[m := ongoing[m] - 1]
  }

  ghost function ScansAt(scans: map<nat, Scan>, m: Slot): set<nat> {
    set id | id in scans && scans[id].maxRoot == m
  }

  /** `ongoing` is the multiset of the running scans' roots; no count is zero. */
  ghost predicate CountsScans(ongoing: map<Slot, nat>, scans: map<nat, Scan>) {
    && (forall m :: m in ongoing ==> ongoing[m] == |ScansAt(scans, m)| && ongoing[m] >= 1)
    && (forall id :: id in scans ==> scans[id].maxRoot in ongoing)
  }

  lemma ScansAtBegun(scans: map<nat, Scan>, id: nat, scan: Scan, n: Slot)
    requires id !in scans
    ensures |ScansAt(scans[id := scan], n)| == |ScansAt(scans, n)| + if n == scan.maxRoot then 1 else 0
  {
    if n == scan.maxRoot {
      assert ScansAt(scans[id := scan], n) == ScansAt(scans, n) + {id};
    } else {
      assert ScansAt(scans[id := scan], n) == ScansAt(scans, n);
    }
  }

  lemma NoScansAt(ongoing: map<Slot, nat>, scans: map<nat, Scan>, m: Slot)
    requires CountsScans(ongoing, scans) && m !in ongoing
    ensures |ScansAt(scans, m)| == 0
  {
    assert ScansAt(scans, m) == {};
  }

  lemma CountScanBegun(ongoing: map<Slot, nat>, scans: map<nat, Scan>, id: nat, scan: Scan)
    requires CountsScans(ongoing, scans) && id !in scans
    ensures CountsScans(Increment(ongoing, scan.maxRoot), scans[id := scan])
  {
    var m := scan.maxRoot;
    if m !in ongoing {
      NoScansAt(ongoing, scans, m);
    }
    forall n | n in Increment(ongoing, m)
      ensures |ScansAt(scans[id := scan], n)| == Increment(ongoing, m)[n]
    {
      ScansAtBegun(scans, id, scan, n);
    }
  }

  lemma CountScanEnded(ongoing: map<Slot, nat>, scans: map<nat, Scan>, id: nat)
    requires CountsScans(ongoing, scans) && id in scans
    ensures CountsScans(Decrement(ongoing, scans[id].maxRoot), scans - {id})
  {
    var m := scans[id].maxRoot;
    var fewer := scans - {id};
    assert id in ScansAt(scans, m);
    assert ScansAt(fewer, m) == ScansAt(scans, m) - {id};
    forall n | n in ongoing && n != m
      ensures ScansAt(fewer, n) == ScansAt(scans, n)
    {
    }
    forall i | i in fewer
      ensures fewer[i].maxRoot in Decrement(ongoing, m)
    {
      if fewer[i].maxRoot == m {
        assert i in ScansAt(fewer, m) && |ScansAt(fewer, m)| >= 1;
      }
    }
  }

  ghost predicate LeastRoot(ongoing: map<Slot, nat>, r: Option<Slot>) {
    match r
    case None => ongoing == map[]
    case Some(m) => m in ongoing && forall n :: n in ongoing ==> m <= n
  }

  /** `max_clean_root`: the least of the proposed root and of the ongoing scans' roots, or no bound. */
  function MaxCleanRoot(minScanRoot: Option<Slot>, proposed: Option<Slot>): Option<Slot> {
    match (minScanRoot, proposed)
    case (None, None) => None
    case (Some(m), None) => Some(m)
    case (None, Some(p)) => Some(p)
    case (Some(m), Some(p)) => Some(Min(m, p))
  }

  /** A clean under way; `bounded` when its bound was at most the newest root as it started. */
  datatype Clean = Clean(bound: Option<Slot>, bounded: bool) {
    function Upto(maxInclusive: Slot): Slot {
      bound.GetOr(maxInclusive)
    }
  }

  function StartedClean(maxInclusive: Slot, minScanRoot: Option<Slot>, proposed: Option<Slot>): Clean {
    var bound := MaxCleanRoot(minScanRoot, proposed);
    Clean(bound, bound.Some? && bound.value <= maxInclusive)
  }

  // ----- steps -----

  /**
   What the fork structure guarantees when a scan starts: its recorded root is alive, or looked at as an
   ancestor, or no account refers to it; and its ancestors up to that root are roots.
   */
  ghost predicate Settled(index: Index, roots: set<Slot>, scan: Scan) {
    && (scan.maxRoot in roots || scan.maxRoot in scan.ancestors || !Referenced(index, scan.maxRoot))
    && (forall a :: a in scan.ancestors && a <= scan.maxRoot && Referenced(index, a) ==> a in roots)
  }

  datatype Action =
    | BeginScan(id: nat, ancestors: set<Slot>)
    | EndScan(id: nat)
    | AddRoot(slot: Slot)
    | Upsert(pk: Pubkey, slot: Slot, info: Info, list: seq<Item>)
    | Relocate(pk: Pubkey, position: nat, cached: bool)
    | RemoveUnrooted(pk: Pubkey, slot: Slot)
    | CleanDeadSlot(slot: Slot)
    | StartClean(id: nat, proposed: Option<Slot>, minScanRoot: Option<Slot>)
    | CleanKey(id: nat, pk: Pubkey)
    | EndClean(id: nat)

  /** A scan on a fork that does not contain the newest root looks at roots only. */
  function StartedScan(maxInclusive: Slot, ancestors: set<Slot>): Scan {
    Scan(maxInclusive, if maxInclusive in ancestors then ancestors else {})
  }

  /** `clean_rooted_entries` on the index: purge the list of `pk`, drop the key when nothing is left. */
  function CleanedIndex(index: Index, roots: set<Slot>, maxInclusive: Slot, bound: Option<Slot>, pk: Pubkey): Index {
    if pk !in index then index
    else
      var list := Purged(index[pk], roots, maxInclusive, bound);
      if list == [] then index - {pk} else index[pk := list]
  }

  /** The clean can do no harm to what the scan sees of the key. */
  ghost predicate KeySpared(st: State, clean: Clean, scan: Scan, pk: Pubkey) {
    Spares(ListOf(st.index, pk), st.roots, clean.Upto(st.maxInclusive), ScanQuery(scan))
  }

  /** When a step may happen. A clean that is not bounded may only reach keys that it spares. */
  ghost predicate Enabled(st: State, a: Action) {
    match a
    case BeginScan(id, ancestors) =>
      id !in st.scans && Settled(st.index, st.roots, StartedScan(st.maxInclusive, ancestors))
    case EndScan(id) => id in st.scans && st.scans[id].maxRoot in st.ongoing && st.ongoing[st.scans[id].maxRoot] >= 1
    case AddRoot(slot) => slot >= st.maxInclusive
    case Upsert(pk, slot, info, list) =>
      && slot > st.maxInclusive
      && (forall id :: id in st.scans ==> slot !in st.scans[id].ancestors)
      && At(list, {slot}) == [Item(slot, info)]
      && Elsewhere(list, {slot}) == Elsewhere(ListOf(st.index, pk), {slot})
    case Relocate(pk, position, _) => pk in st.index && position < |st.index[pk]|
    case RemoveUnrooted(pk, slot) =>
      && pk in st.index && slot !in st.roots
      && (forall id :: id in st.scans ==> slot !in st.scans[id].ancestors)
    case CleanDeadSlot(slot) => !Referenced(st.index, slot)
    case StartClean(id, proposed, minScanRoot) =>
      id !in st.cleans && LeastRoot(st.ongoing, minScanRoot)
    case CleanKey(id, pk) =>
      && id in st.cleans
      && (!st.cleans[id].bounded ==> forall s :: s in st.scans ==> KeySpared(st, st.cleans[id], st.scans[s], pk))
    case EndClean(id) => id in st.cleans
  }

  ghost function Step(st: State, a: Action): State
    requires Enabled(st, a)
  {
    match a
    case BeginScan(id, ancestors) =>
      var scan := StartedScan(st.maxInclusive, ancestors);
      st.(ongoing := Increment(st.ongoing, scan.maxRoot), scans := st.scans[id := scan])
    case EndScan(id) =>
      st.(ongoing := Decrement(st.ongoing, st.scans[id].maxRoot), scans := st.scans - {id})
    case AddRoot(slot) => st.(roots := st.roots + {slot}, maxInclusive := slot)
    case Upsert(pk, _, _, list) => st.(index := st.index[pk := list])
    case Relocate(pk, position, cached) =>
      st.(index := st.index[pk := Moved(st.index[pk], position, cached)])
    case RemoveUnrooted(pk, slot) => st.(index := st.index[pk := Elsewhere(st.index[pk], {slot})])
    case CleanDeadSlot(slot) => st.(roots := st.roots - {slot})
    case StartClean(id, proposed, minScanRoot) => 
      st.(cleans := st.cleans[id := StartedClean(st.maxInclusive, minScanRoot, proposed)])
    case CleanKey(id, pk) => st.(index := CleanedIndex(st.index, st.roots, st.maxInclusive, st.cleans[id].bound, pk))
    case EndClean(id) => st.(cleans := st.cleans - {id})
  }

  /** Entry `position` gets a new place of storage; its slot and content stay. */
  function Moved(list: seq<Item>, position: nat, cached: bool): seq<Item>
    requires position < |list|
  {
    list[position := Item(list[position].slot, Info(list[position].info.content, cached))]
  }

  /** Roots, scans and bounded cleans lie below the newest root, and no bounded clean goes beyond a running scan. */
  ghost predicate Bounded(roots: set<Slot>, newest: Slot, scans: map<nat, Scan>, cleans: map<nat, Clean>) {
    && (forall s :: s in roots ==> s <= newest)
    && (forall id :: id in scans ==> scans[id].maxRoot <= newest)
    && (forall c :: c in cleans && cleans[c].bounded ==> cleans[c].bound.Some? && cleans[c].bound.value <= newest)
    && (forall c, id :: c in cleans && id in scans && cleans[c].bounded ==> cleans[c].bound.value <= scans[id].maxRoot)
  }

  ghost predicate AllSettled(st: State) {
    forall id :: id in st.scans ==> Settled(st.index, st.roots, st.scans[id])
  }

  ghost predicate Inv(st: State) {
    Bounded(st.roots, st.maxInclusive, st.scans, st.cleans) && CountsScans(st.ongoing, st.scans) && AllSettled(st)
  }

  // ----- every step keeps the invariant -----

  /** Settled scans stay settled: no old slot becomes referenced, and no referenced root dies. */
  lemma SettledKept(index: Index, roots: set<Slot>, index': Index, roots': set<Slot>, scan: Scan)
    requires Settled(index, roots, scan)
    requires forall s: Slot :: s <= scan.maxRoot && Referenced(index', s) ==> Referenced(index, s)
    requires forall s :: s in roots && s !in roots' ==> !Referenced(index', s)
    ensures Settled(index', roots', scan)
  {
  }

  /** Which slots a step can newly refer to. */
  lemma StepReferences(st: State, a: Action, s: Slot)
    requires Enabled(st, a) && s <= st.maxInclusive && Referenced(Step(st, a).index, s)
    ensures Referenced(st.index, s)
  {
    var index' := Step(st, a).index;
    var pk: Pubkey, x: Item :| pk in index' && x in index'[pk] && x.slot == s;
    match a {
      case Upsert(pk0, slot, info, list) =>
        if pk == pk0 {
          AtElements(list, {slot});
          AtElements(ListOf(st.index, pk), {slot});
          assert x in ListOf(st.index, pk);
        }
      case Relocate(pk0, position, cached) =>
        if pk == pk0 && x !in st.index[pk] {
          assert st.index[pk][position] in st.index[pk];
        }
      case RemoveUnrooted(pk0, slot) =>
        if pk == pk0 {
          AtElements(st.index[pk], {slot});
        }
      case CleanKey(id, pk0) =>
        if pk == pk0 {
          var clean := st.cleans[id];
          PurgeConserves(st.index[pk], clean.Upto(st.maxInclusive), NewestRoot(st.index[pk], st.roots, clean.bound));
        }
      case _ =>
    }
  }

  lemma StepKeepsSettled(st: State, a: Action, scan: Scan)
    requires Inv(st) && Enabled(st, a) && Settled(st.index, st.roots, scan) && scan.maxRoot <= st.maxInclusive
    ensures Settled(Step(st, a).index, Step(st, a).roots, scan)
  {
    var st' := Step(st, a);
    forall s: Slot | s <= scan.maxRoot && Referenced(st'.index, s)
      ensures Referenced(st.index, s)
    {
      StepReferences(st, a, s);
    }
    SettledKept(st.index, st.roots, st'.index, st'.roots, scan);
  }

  lemma StepKeepsCounts(st: State, a: Action)
    requires Inv(st) && Enabled(st, a)
    ensures CountsScans(Step(st, a).ongoing, Step(st, a).scans)
  {
    match a {
      case BeginScan(id, ancestors) =>
        CountScanBegun(st.ongoing, st.scans, id, StartedScan(st.maxInclusive, ancestors));
      case EndScan(id) => CountScanEnded(st.ongoing, st.scans, id);
      case _ =>
    }
  }

  /** A scan that ends finds its root counted, and the count does not go below zero. */
  lemma EndScanEnabled(st: State, id: nat)
    requires Inv(st) && id in st.scans
    ensures Enabled(st, EndScan(id))
  {
    assert st.scans[id].maxRoot in st.ongoing;
  }

  /** A clean that starts is bounded by every running scan. */
  lemma CleanBounded(st: State, proposed: Option<Slot>, minScanRoot: Option<Slot>, id: nat)
    requires CountsScans(st.ongoing, st.scans) && LeastRoot(st.ongoing, minScanRoot) && id in st.scans
    ensures var bound := MaxCleanRoot(minScanRoot, proposed);
            bound.Some? && bound.value <= st.scans[id].maxRoot
  {
    assert st.scans[id].maxRoot in st.ongoing;
  }

  lemma CleansStartBounded(st: State, c: nat, proposed: Option<Slot>, minScanRoot: Option<Slot>)
    requires Inv(st) && LeastRoot(st.ongoing, minScanRoot)
    ensures var cleans := st.cleans[c := StartedClean(st.maxInclusive, minScanRoot, proposed)];
            Bounded(st.roots, st.maxInclusive, st.scans, cleans)
  {
    var bound := MaxCleanRoot(minScanRoot, proposed);
    forall id | id in st.scans
      ensures bound.Some? && bound.value <= st.scans[id].maxRoot
    {
      CleanBounded(st, proposed, minScanRoot, id);
    }
  }

  lemma StepKeepsBounds(st: State, a: Action)
    requires Inv(st) && Enabled(st, a)
    ensures var st' := Step(st, a); Bounded(st'.roots, st'.maxInclusive, st'.scans, st'.cleans)
  {
    match a {
      case StartClean(c, proposed, minScanRoot) => CleansStartBounded(st, c, proposed, minScanRoot);
      case _ =>
    }
  }

  lemma StepKeepsAllSettled(st: State, a: Action)
    requires Inv(st) && Enabled(st, a)
    ensures AllSettled(Step(st, a))
  {
    var st' := Step(st, a);
    forall id | id in st'.scans
      ensures Settled(st'.index, st'.roots, st'.scans[id])
    {
      if id in st.scans {
        StepKeepsSettled(st, a, st.scans[id]);
      }
    }
  }

  lemma StepKeepsInv(st: State, a: Action)
    requires Inv(st) && Enabled(st, a)
    ensures Inv(Step(st, a))
  {
    StepKeepsBounds(st, a);
    StepKeepsCounts(st, a);
    StepKeepsAllSettled(st, a);
  }

  // ----- no step changes what a running scan sees -----

  lemma {:induction false} SameEligibility(list: seq<Item>, q: Query, roots: set<Slot>, q': Query, roots': set<Slot>)
    requires forall x :: x in list ==> (Eligible(q, roots, x.slot) <==> Eligible(q', roots', x.slot))
    ensures Answer(list, q, roots) == Answer(list, q', roots')
  {
    if list != [] {
      var n := |list| - 1;
      assert list == list[..n] + [list[n]];
      SameEligibility(list[..n], q, roots, q', roots');
      AnswerSnoc(list[..n], list[n], q, roots);
      AnswerSnoc(list[..n], list[n], q', roots');
    }
  }

  /** Entries at a slot the query cannot see do not matter. */
  lemma {:induction false} AnswerElsewhere(list: seq<Item>, q: Query, roots: set<Slot>, slot: Slot)
    requires !Eligible(q, roots, slot)
    ensures Answer(list, q, roots) == Answer(Elsewhere(list, {slot}), q, roots)
  {
    if list != [] {
      var n := |list| - 1;
      var before, x := list[..n], list[n];
      assert list == before + [x];
      AnswerElsewhere(before, q, roots, slot);
      AnswerSnoc(before, x, q, roots);
      ElsewhereSnoc(before, x, {slot});
      assert x.slot == slot ==> Elsewhere(list, {slot}) == Elsewhere(before, {slot});
      if x.slot != slot {
        AnswerSnoc(Elsewhere(before, {slot}), x, q, roots);
      }
    }
  }

  /** Moving an entry does not change which one is the latest. */
  lemma {:induction false} SameSlots(list: seq<Item>, list': seq<Item>, q: Query, roots: set<Slot>)
    requires |list| == |list'| && forall i :: 0 <= i < |list| ==> list[i].slot == list'[i].slot
    ensures LatestIndex(list, q, roots) == LatestIndex(list', q, roots)
  {
    if list != [] {
      SameSlots(list[..|list| - 1], list'[..|list| - 1], q, roots);
    }
  }

  lemma AddRootUnseen(st: State, slot: Slot, scan: Scan, pk: Pubkey)
    requires Inv(st) && slot >= st.maxInclusive && scan.maxRoot <= st.maxInclusive && Settled(st.index, st.roots, scan)
    ensures Observed(ListOf(st.index, pk), ScanQuery(scan), st.roots + {slot}) == Seen(st, scan, pk)
  {
    var list := ListOf(st.index, pk);
    forall x | x in list
      ensures Eligible(ScanQuery(scan), st.roots, x.slot) <==> Eligible(ScanQuery(scan), st.roots + {slot}, x.slot)
    {
      assert Referenced(st.index, x.slot);
    }
    SameEligibility(list, ScanQuery(scan), st.roots, ScanQuery(scan), st.roots + {slot});
  }

  lemma DeadSlotUnseen(st: State, slot: Slot, scan: Scan, pk: Pubkey)
    requires !Referenced(st.index, slot)
    ensures Observed(ListOf(st.index, pk), ScanQuery(scan), st.roots - {slot}) == Seen(st, scan, pk)
  {
    var list := ListOf(st.index, pk);
    forall x | x in list
      ensures x.slot != slot
    {
      assert Referenced(st.index, x.slot);
    }
    SameEligibility(list, ScanQuery(scan), st.roots, ScanQuery(scan), st.roots - {slot});
  }

  /** A clean does not change what a scan sees of a key that it spares. */
  lemma CleanUnseen(st: State, clean: Clean, pk0: Pubkey, scan: Scan, pk: Pubkey)
    requires Inv(st) && KeySpared(st, clean, scan, pk0)
    ensures var index := CleanedIndex(st.index, st.roots, st.maxInclusive, clean.bound, pk0);
            Observed(ListOf(index, pk), ScanQuery(scan), st.roots) == Seen(st, scan, pk)
  {
    if pk == pk0 && pk in st.index {
      PurgeSpares(st.index[pk], st.roots, st.maxInclusive, clean.bound, ScanQuery(scan));
    }
  }

  /** A clean up to the root of a scan or below spares every key. */
  lemma BoundedCleanSpares(st: State, clean: Clean, scan: Scan, pk: Pubkey)
    requires Settled(st.index, st.roots, scan) && clean.Upto(st.maxInclusive) <= scan.maxRoot
    ensures KeySpared(st, clean, scan, pk)
  {
    forall x | x in ListOf(st.index, pk)
      ensures Referenced(st.index, x.slot)
    {
    }
  }

  /** So does any clean up to the newest root at most, as long as no root was added since the scan began. */
  lemma SparedUntilNewRoot(st: State, clean: Clean, id: nat, pk: Pubkey)
    requires Inv(st) && id in st.scans && st.scans[id].maxRoot == st.maxInclusive
    requires clean.Upto(st.maxInclusive) <= st.maxInclusive
    ensures KeySpared(st, clean, st.scans[id], pk)
  {
    BoundedCleanSpares(st, clean, st.scans[id], pk);
  }

  lemma WriteUnseen(st: State, a: Action, id: nat, pk: Pubkey)
    requires Inv(st) && Enabled(st, a) && id in st.scans && (a.Upsert? || a.RemoveUnrooted? || a.Relocate?)
    ensures Seen(Step(st, a), st.scans[id], pk) == Seen(st, st.scans[id], pk)
  {
    if pk == a.pk {
      var q := ScanQuery(st.scans[id]);
      match a {
        case Upsert(_, slot, _, list) => ElsewhereUnseen(ListOf(st.index, pk), list, q, st.roots, slot);
        case RemoveUnrooted(_, slot) => AnswerElsewhere(st.index[pk], q, st.roots, slot);
        case Relocate(_, position, cached) => MovedUnseen(st.index[pk], position, cached, q, st.roots);
      }
    }
  }

  /** One step of anyone, while the scan goes on, leaves what the scan sees as it was. */
  lemma StepIsolatesScan(st: State, a: Action, id: nat, pk: Pubkey)
    requires Inv(st) && Enabled(st, a) && id in st.scans && id in Step(st, a).scans
    ensures Step(st, a).scans[id] == st.scans[id]
    ensures Seen(Step(st, a), st.scans[id], pk) == Seen(st, st.scans[id], pk)
  {
    var scan := st.scans[id];
    match a {
      case AddRoot(slot) => AddRootUnseen(st, slot, scan, pk);
      case CleanDeadSlot(slot) => DeadSlotUnseen(st, slot, scan, pk);
      case CleanKey(c, pk0) =>
        if st.cleans[c].bounded {
          BoundedCleanSpares(st, st.cleans[c], scan, pk0);
        }
        CleanUnseen(st, st.cleans[c], pk0, scan, pk);
      case Upsert(_, _, _, _) => WriteUnseen(st, a, id, pk);
      case RemoveUnrooted(_, _) => WriteUnseen(st, a, id, pk);
      case Relocate(_, _, _) => WriteUnseen(st, a, id, pk);
      case _ =>
    }
  }

  /** Lists that differ only in a slot the query cannot see. */
  lemma ElsewhereUnseen(list: seq<Item>, list': seq<Item>, q: Query, roots: set<Slot>, slot: Slot)
    requires !Eligible(q, roots, slot) && Elsewhere(list, {slot}) == Elsewhere(list', {slot})
    ensures Observed(list', q, roots) == Observed(list, q, roots)
  {
    AnswerElsewhere(list, q, roots, slot);
    AnswerElsewhere(list', q, roots, slot);
  }

  lemma MovedUnseen(list: seq<Item>, position: nat, cached: bool, q: Query, roots: set<Slot>)
    requires position < |list|
    ensures Observed(Moved(list, position, cached), q, roots) == Observed(list, q, roots)
  {
    SameSlots(list, Moved(list, position, cached), q, roots);
  }

  // ----- runs -----

  /** A new index. */
  lemma InitialInv()
    ensures Inv(State({}, 0, map[], map[], map[], map[]))
  {
  }

  ghost predicate Taken(states: seq<State>, actions: seq<Action>, i: nat)
    requires i < |actions| && |states| == |actions| + 1
  {
    Enabled(states[i], actions[i]) && states[i + 1] == Step(states[i], actions[i])
  }

  ghost predicate Run(states: seq<State>, actions: seq<Action>) {
    && |states| == |actions| + 1
    && Inv(states[0])
    && forall i :: 0 <= i < |actions| ==> Taken(states, actions, i)
  }

  lemma {:induction false} RunKeepsInv(states: seq<State>, actions: seq<Action>, i: nat)
    requires Run(states, actions) && i < |states|
    ensures Inv(states[i])
  {
    if i > 0 {
      RunKeepsInv(states, actions, i - 1);
      assert Taken(states, actions, i - 1);
      StepKeepsInv(states[i - 1], actions[i - 1]);
    }
  }

  ghost predicate SameView(st: State, st': State, id: nat, pk: Pubkey)
    requires id in st.scans && id in st'.scans
  {
    st'.scans[id] == st.scans[id] && Seen(st', st.scans[id], pk) == Seen(st, st.scans[id], pk)
  }

  lemma RunIsolatesScan(states: seq<State>, actions: seq<Action>, j: nat, id: nat, pk: Pubkey)
    requires Run(states, actions) && 0 < j < |states| && id in states[j - 1].scans && id in states[j].scans
    ensures SameView(states[j - 1], states[j], id, pk)
  {
    RunKeepsInv(states, actions, j - 1);
    assert Taken(states, actions, j - 1);
    StepIsolatesScan(states[j - 1], actions[j - 1], id, pk);
  }

  /** Scan isolation: from state `i` to state `j` of any run, while the scan is running, it sees the same. */
  lemma {:induction false} ScanIsolation(states: seq<State>, actions: seq<Action>, i: nat, j: nat, id: nat, pk: Pubkey)
    requires Run(states, actions) && i <= j < |states|
    requires forall k :: i <= k <= j ==> id in states[k].scans
    ensures SameView(states[i], states[j], id, pk)
    decreases j
  {
    if i < j {
      ScanIsolation(states, actions, i, j - 1, id, pk);
      RunIsolatesScan(states, actions, j, id, pk);
    }
  }

  // ----- when a purge is harmless -----

  /**
   What makes a purge up to `clean` harmless for a query, whatever the slot list: its ancestors below the bound
   are roots, and no root up to the bound that it cannot see lies above a slot that it can see.
   */
  ghost predicate Harmless(roots: set<Slot>, clean: Slot, q: Query) {
    && (forall a :: a in q.ancestors && 0 < a < clean ==> a in roots)
    && (forall r, x :: Hidden(q, roots, clean, r) && Eligible(q, roots, x) ==> r <= x)
  }

  /** A purge, with or without a bound, is harmless for a query on every slot list if and only if it is `Harmless`. */
  lemma PurgeHarmlessExactly(roots: set<Slot>, maxInclusive: Slot, bound: Option<Slot>, q: Query)
    requires bound.None? ==> forall s :: s in roots ==> s <= maxInclusive
    ensures (forall list: seq<Item> ::
               Observed(Purged(list, roots, maxInclusive, bound), q, roots) == Observed(list, q, roots))
       <==> Harmless(roots, bound.GetOr(maxInclusive), q)
  {
    var clean := bound.GetOr(maxInclusive);
    if Harmless(roots, clean, q) {
      forall list: seq<Item>
        ensures Observed(Purged(list, roots, maxInclusive, bound), q, roots) == Observed(list, q, roots)
      {
        PurgeSpares(list, roots, maxInclusive, bound, q);
      }
    } else if a :| a in q.ancestors && 0 < a < clean && a !in roots {
      var list := AncestorPurged(roots, maxInclusive, bound, q, a);
    } else {
      var r, x :| Hidden(q, roots, clean, r) && Eligible(q, roots, x) && x < r;
      var list := RootPurged(roots, maxInclusive, bound, q, r, x);
    }
  }

  /** An entry at an ancestor that is not a root is purged. */
  lemma AncestorPurged(roots: set<Slot>, maxInclusive: Slot, bound: Option<Slot>, q: Query, a: Slot)
    returns (list: seq<Item>)
    requires a in q.ancestors && 0 < a < bound.GetOr(maxInclusive) && a !in roots
    ensures Observed(Purged(list, roots, maxInclusive, bound), q, roots) != Observed(list, q, roots)
  {
    var x, clean := Item(a, Info(0, false)), bound.GetOr(maxInclusive);
    list := [x];
    assert [] + [x] == [x] && list[..0] == [];
    AnswerSnoc([], x, q, roots);
    NewestRootIsMax(list, roots, bound);
    assert NewestRoot(list, roots, bound) == 0 && Outdated(clean, 0, x);
    assert Kept(list, clean, 0) == [];
  }

  /** An entry that the query sees is purged because of a root that it does not see. */
  lemma RootPurged(roots: set<Slot>, maxInclusive: Slot, bound: Option<Slot>, q: Query, r: Slot, x: Slot)
    returns (list: seq<Item>)
    requires bound.None? ==> forall s :: s in roots ==> s <= maxInclusive
    requires Hidden(q, roots, bound.GetOr(maxInclusive), r) && Eligible(q, roots, x) && x < r
    ensures Observed(Purged(list, roots, maxInclusive, bound), q, roots) != Observed(list, q, roots)
  {
    var seen, hidden := Item(x, Info(0, false)), Item(r, Info(1, false));
    list := [seen, hidden];
    PurgesOlder(roots, maxInclusive, bound, seen, hidden);
    AnswerSnoc([], seen, q, roots);
    AnswerSnoc([seen], hidden, q, roots);
    AnswerSnoc([], hidden, q, roots);
    assert [] + [seen] == [seen] && [seen] + [hidden] == list && [] + [hidden] == [hidden];
  }

  /**
   For a scan of roots at `m`, a purge without a bound is harmless, for every slot list, if and only if no alive
   root lies above `m` or none lies at or below it.
   */
  lemma UnboundedClean(roots: set<Slot>, maxInclusive: Slot, m: Slot)
    requires forall s :: s in roots ==> s <= maxInclusive
    ensures var q := Query({}, Some(m));
            (forall list: seq<Item> ::
               Observed(Purged(list, roots, maxInclusive, None), q, roots) == Observed(list, q, roots))
            <==> (forall s :: s in roots ==> s <= m) || (forall s :: s in roots ==> m < s)
  {
    var q := Query({}, Some(m));
    PurgeHarmlessExactly(roots, maxInclusive, None, q);
    if r, s :| r in roots && s in roots && r <= m < s {
      assert Hidden(q, roots, maxInclusive, s) && Eligible(q, roots, r);
    }
  }

  lemma PurgesOlder(roots: set<Slot>, maxInclusive: Slot, bound: Option<Slot>, x: Item, y: Item)
    requires y.slot in roots && x.slot < y.slot <= bound.GetOr(maxInclusive) && !x.info.cached
    ensures Purged([x, y], roots, maxInclusive, bound) == [y]
  {
    var list, clean := [x, y], bound.GetOr(maxInclusive);
    assert list[..1] == [x] && [x][..0] == [];
    NewestRootIsMax(list, roots, bound);
    assert list[0] == x && list[1] == y;
    assert NewestRoot(list, roots, bound) == y.slot;
    assert Kept([x], clean, y.slot) == [];
  }
}
