/**
 A whole scan of the accounts index: keys are collected page by page, bin by bin, and looked up one by one,
 while other threads change the index. Whatever the interleaving, the scan finds exactly what was visible
 to it when it began.
 */
module ScanAccounts {
  import opened Basics
  import opened ScanProtocol
  import opened IndexIteration

  type Found = (Slot, nat)

  /** What is visible to a scan in a range of keys. */
  ghost function Visible(st: State, scan: Scan, start: Bound, end: Bound): map<Pubkey, Found> {
    map k | k in st.index && Seen(st, scan, k).Some? && AfterStart(start, k) && BeforeEnd(end, k) ::
      Seen(st, scan, k).value
  }

  /** `found` lists the view: every key once, with what is visible of it, and in ascending order if sorted. */
  ghost predicate ListsView(found: seq<(Pubkey, Found)>, view: map<Pubkey, Found>, sorted: bool) {
    && InOrder(found, sorted)
    && (forall e :: e in found ==> e.0 in view && view[e.0] == e.1)
    && (forall k :: k in view ==> (k, view[k]) in found)
  }

  // ----- one page -----

  /** The keys of a page that are in the view, with what is visible of them. */
  ghost function Hits(page: seq<Pubkey>, view: map<Pubkey, Found>): seq<(Pubkey, Found)> {
    if page == [] then []
    else
      var k := page[|page| - 1];
      Hits(page[..|page| - 1], view) + if k in view then [(k, view[k])] else []
  }

  lemma {:induction false} HitsElements(page: seq<Pubkey>, view: map<Pubkey, Found>)
    ensures forall e :: e in Hits(page, view) <==> e.0 in page && e.0 in view && view[e.0] == e.1
  {
    if page != [] {
      var n := |page| - 1;
      HitsElements(page[..n], view);
      assert page == page[..n] + [page[n]];
    }
  }

  lemma {:induction false} HitsDistinct(page: seq<Pubkey>, view: map<Pubkey, Found>)
    requires Distinct(page)
    ensures InOrder(Hits(page, view), false)
  {
    if page != [] {
      var n := |page| - 1;
      HitsDistinct(page[..n], view);
      HitsElements(page[..n], view);
      var hits := Hits(page[..n], view);
      forall i | 0 <= i < |hits|
        ensures hits[i].0 != page[n]
      {
        assert hits[i] in hits;
      }
      assert Hits(page, view) == hits + if page[n] in view then [(page[n], view[page[n]])] else [];
    }
  }

  lemma {:induction false} HitsAscend(page: seq<Pubkey>, view: map<Pubkey, Found>)
    requires Ascending(page)
    ensures InOrder(Hits(page, view), true)
  {
    if page != [] {
      var n := |page| - 1;
      HitsAscend(page[..n], view);
      HitsElements(page[..n], view);
      var hits := Hits(page[..n], view);
      forall i | 0 <= i < |hits|
        ensures hits[i].0 < page[n]
      {
        assert hits[i] in hits;
      }
      assert Hits(page, view) == hits + if page[n] in view then [(page[n], view[page[n]])] else [];
    }
  }

  /** The inner loop: look up every key of a page. */
  method LookUpPage(page: seq<Pubkey>, look: Pubkey -> Option<Found>, ghost view: map<Pubkey, Found>)
    returns (hits: seq<(Pubkey, Found)>)
    requires forall k :: k in page ==> look(k) == if k in view then Some(view[k]) else None
    ensures hits == Hits(page, view)
  {
    hits := [];
    for i := 0 to |page|
      invariant hits == Hits(page[..i], view)
    {
      assert page[..i + 1][..i] == page[..i] && page[i] in page;
      var r := look(page[i]);
      if r.Some? {
        hits := hits + [(page[i], r.value)];
      }
    }
    assert page[..|page|] == page;
  }

  // ----- all pages -----

  /** Every key once, and in ascending order if sorted. */
  ghost predicate InOrder(found: seq<(Pubkey, Found)>, sorted: bool) {
    forall i, j :: 0 <= i < j < |found| ==> if sorted then found[i].0 < found[j].0 else found[i].0 != found[j].0
  }

  /** What has been found is visible, and not still ahead. */
  ghost predicate OnlyVisible(found: seq<(Pubkey, Found)>, view: map<Pubkey, Found>, ahead: Bound, finished: bool) {
    forall e :: e in found ==> e.0 in view && view[e.0] == e.1 && (finished || !AfterStart(ahead, e.0))
  }

  /** What is visible has been found or is still ahead. */
  ghost predicate NothingMissed(found: seq<(Pubkey, Found)>, view: map<Pubkey, Found>, ahead: Bound, finished: bool) {
    forall k :: k in view ==> (k, view[k]) in found || (!finished && AfterStart(ahead, k))
  }

  ghost predicate Progressed(found: seq<(Pubkey, Found)>, view: map<Pubkey, Found>, ahead: Bound, finished: bool,
                             sorted: bool) {
    InOrder(found, sorted) && OnlyVisible(found, view, ahead, finished) && NothingMissed(found, view, ahead, finished)
  }

  /** Every bin holds at least the keys of the view that belong to it. */
  ghost predicate Covers(maps: seq<set<Pubkey>>, bin: Binner, view: map<Pubkey, Found>) {
    ValidBins(maps, bin) && forall k :: k in view ==> k in maps[bin(k)]
  }

  /** A key of the view that is still ahead is among the requested keys. */
  lemma AheadIsRequested(maps: seq<set<Pubkey>>, bin: Binner, view: map<Pubkey, Found>, ahead: Bound, end: Bound,
                         k: Pubkey)
    requires Covers(maps, bin, view) && k in view && BeforeEnd(end, k)
    ensures AfterStart(ahead, k) ==> k in Requested(maps, ahead, end)
  {
    InBinsMembers(maps, bin, ahead, end, 0, |maps|, k);
  }

  lemma PageIsAhead(maps: seq<set<Pubkey>>, bin: Binner, ahead: Bound, end: Bound, page: seq<Pubkey>, rest: seq<Pubkey>,
                    k: Pubkey)
    requires ValidBins(maps, bin) && SortedKeys(Requested(maps, ahead, end)) == page + rest && k in page
    ensures AfterStart(ahead, k)
  {
    assert k in page + rest && k in Elements(page + rest);
    InBinsMembers(maps, bin, ahead, end, 0, |maps|, k);
  }

  /** A key of the view between the old and the new bound is on the page. */
  lemma OnPage(maps: seq<set<Pubkey>>, bin: Binner, view: map<Pubkey, Found>, ahead: Bound, end: Bound,
               page: seq<Pubkey>, k: Pubkey)
    requires Covers(maps, bin, view) && page != [] && k in view
    requires BeforeEnd(end, k) && AfterStart(ahead, k) && k <= page[|page| - 1]
    requires SortedKeys(Requested(maps, ahead, end)) ==
               page + SortedKeys(Requested(maps, Excluded(page[|page| - 1]), end))
    ensures k in page
  {
    AheadIsRequested(maps, bin, view, ahead, end, k);
    var rest := SortedKeys(Requested(maps, Excluded(page[|page| - 1]), end));
    assert k in Elements(page + rest);
    if k in rest {
      assert k in Elements(rest);
      InBinsMembers(maps, bin, Excluded(page[|page| - 1]), end, 0, |maps|, k);
    }
  }

  lemma PageAscends(all: seq<Pubkey>, page: seq<Pubkey>, rest: seq<Pubkey>)
    requires Ascending(all) && all == page + rest
    ensures Ascending(page) && forall k :: k in page ==> k <= page[|page| - 1]
  {
    forall i, j | 0 <= i < j < |page|
      ensures page[i] < page[j]
    {
      assert all[i] == page[i] && all[j] == page[j];
    }
  }

  /**
   One more page in order: its keys lie between the old and the new bound, and none of the view in between is
   missing.
   */
  lemma SortedPage(found: seq<(Pubkey, Found)>, maps: seq<set<Pubkey>>, bin: Binner, view: map<Pubkey, Found>,
                   ahead: Bound, end: Bound, page: seq<Pubkey>)
    requires Covers(maps, bin, view) && page != [] && forall k :: k in view ==> BeforeEnd(end, k)
    requires SortedKeys(Requested(maps, ahead, end)) ==
               page + SortedKeys(Requested(maps, Excluded(page[|page| - 1]), end))
    requires Progressed(found, view, ahead, false, true)
    ensures Progressed(found + Hits(page, view), view, Excluded(page[|page| - 1]), false, true)
  {
    var last := page[|page| - 1];
    var rest := SortedKeys(Requested(maps, Excluded(last), end));
    PageAscends(SortedKeys(Requested(maps, ahead, end)), page, rest);
    forall k | k in page
      ensures AfterStart(ahead, k)
    {
      PageIsAhead(maps, bin, ahead, end, page, rest, k);
    }
    forall k | k in view && AfterStart(ahead, k) && k <= last
      ensures k in page
    {
      OnPage(maps, bin, view, ahead, end, page, k);
    }
    PageProgress(found, view, ahead, page);
  }

  lemma PageProgress(found: seq<(Pubkey, Found)>, view: map<Pubkey, Found>, ahead: Bound, page: seq<Pubkey>)
    requires page != [] && Ascending(page) && Progressed(found, view, ahead, false, true)
    requires forall k :: k in page ==> AfterStart(ahead, k) && k <= page[|page| - 1]
    requires forall k :: k in view && AfterStart(ahead, k) && k <= page[|page| - 1] ==> k in page
    ensures Progressed(found + Hits(page, view), view, Excluded(page[|page| - 1]), false, true)
  {
    var hits, last := Hits(page, view), page[|page| - 1];
    HitsElements(page, view);
    HitsAscend(page, view);
    Joined(found, hits, ahead);
    BehindStays(found, ahead, page);
    forall k | k in view && !AfterStart(Excluded(last), k)
      ensures (k, view[k]) in found + hits
    {
      if AfterStart(ahead, k) {
        assert (k, view[k]) in hits;
      }
    }
  }

  /** What was behind the old bound is behind the new one. */
  lemma BehindStays(found: seq<(Pubkey, Found)>, ahead: Bound, page: seq<Pubkey>)
    requires page != [] && AfterStart(ahead, page[|page| - 1])
    requires forall e :: e in found ==> !AfterStart(ahead, e.0)
    ensures forall e :: e in found ==> !AfterStart(Excluded(page[|page| - 1]), e.0)
  {
  }

  /** Two ascending lists on either side of a bound. */
  lemma Joined(found: seq<(Pubkey, Found)>, hits: seq<(Pubkey, Found)>, ahead: Bound)
    requires InOrder(found, true) && InOrder(hits, true)
    requires (forall e :: e in found ==> !AfterStart(ahead, e.0)) && (forall e :: e in hits ==> AfterStart(ahead, e.0))
    ensures InOrder(found + hits, true)
  {
    assert forall i :: 0 <= i < |found| ==> found[i] in found;
    assert forall i :: 0 <= i < |hits| ==> hits[i] in hits;
  }

  /** All keys at once. */
  lemma UnsortedPage(maps: seq<set<Pubkey>>, bin: Binner, view: map<Pubkey, Found>, start: Bound, end: Bound,
                     page: seq<Pubkey>)
    requires Covers(maps, bin, view) && (forall k :: k in view ==> AfterStart(start, k) && BeforeEnd(end, k))
    requires Distinct(page) && Elements(page) == Requested(maps, start, end)
    ensures Progressed(Hits(page, view), view, start, true, false)
  {
    HitsElements(page, view);
    HitsDistinct(page, view);
    forall k | k in view
      ensures (k, view[k]) in Hits(page, view)
    {
      AheadIsRequested(maps, bin, view, start, end, k);
      assert k in Elements(page);
    }
  }

  /** How far a scan has come in the key space. */
  function Reached(b: Bound): nat {
    match b
    case Unbounded => 0
    case Included(k) => k
    case Excluded(k) => k + 1
  }

  // ----- a scan among other threads -----

  /** The keys that a bin holds in a state. */
  ghost function BinOf(index: Index, bin: Binner, b: nat): set<Pubkey> {
    set k | k in index && bin(k) == b
  }

  /**
   The scan of a run from state `i` to state `j`, by moments: `binAt(n, b)` is the state in which bin `b` is
   visited by call `n` of the iterator, `keyAt(n, k)` the one in which key `k` of that page is looked up.
   */
  datatype Schedule = Schedule(states: seq<State>, actions: seq<Action>, i: nat, j: nat, id: nat,
                               binAt: (nat, nat) -> nat, keyAt: (nat, Pubkey) -> nat) {
    ghost predicate Valid() {
      && Run(states, actions) && i <= j < |states|
      && (forall m :: i <= m <= j ==> id in states[m].scans)
      && (forall n, b :: i <= binAt(n, b) <= j) && (forall n, k :: i <= keyAt(n, k) <= j)
    }

    ghost function TheScan(): Scan
      requires Valid()
    {
      states[i].scans[id]
    }

    /** The entry that a page carries for the key is still the one in the index when the key is looked up. */
    ghost predicate StaysIndexed(n: nat, k: Pubkey, bin: Binner)
      requires Valid()
    {
      forall m :: binAt(n, bin(k)) <= m <= keyAt(n, k) ==> k in states[m].index
    }

    /**
     What the calls of the iterator and the lookups read, in the states in which they take place. A lookup reads
     the entry that came with the page: only an empty one is ever removed from the index, and it stays empty.
     */
    ghost predicate Reads(bins: nat, bin: Binner, world: nat -> seq<set<Pubkey>>, look: (nat, Pubkey) -> Option<Found>)
      requires Valid()
    {
      && Monotone(bin) && (forall k :: bin(k) < bins)
      && (forall n :: |world(n)| == bins)
      && (forall n, b :: 0 <= b < bins ==> world(n)[b] == BinOf(states[binAt(n, b)].index, bin, b))
      && (forall n, k :: binAt(n, bin(k)) <= keyAt(n, k))
      && (forall n, k :: look(n, k) == if StaysIndexed(n, k, bin) then Seen(states[keyAt(n, k)], TheScan(), k) else None)
    }

    lemma SeenAtAnyTime(m: nat, k: Pubkey)
      requires Valid() && i <= m <= j
      ensures Seen(states[m], TheScan(), k) == Seen(states[i], TheScan(), k)
    {
      ScanIsolation(states, actions, i, m, id, k);
    }

    /** What is visible at the beginning is in the index all the time. */
    lemma VisibleIsIndexed(m: nat, k: Pubkey)
      requires Valid() && i <= m <= j && Seen(states[i], TheScan(), k).Some?
      ensures k in states[m].index
    {
      SeenAtAnyTime(m, k);
    }

    lemma WorldCovers(bins: nat, bin: Binner, world: nat -> seq<set<Pubkey>>, look: (nat, Pubkey) -> Option<Found>,
                      n: nat,
                      start: Bound, end: Bound)
      requires Valid() && Reads(bins, bin, world, look)
      ensures Covers(world(n), bin, Visible(states[i], TheScan(), start, end))
    {
      var view := Visible(states[i], TheScan(), start, end);
      forall k | k in view
        ensures k in world(n)[bin(k)]
      {
        VisibleIsIndexed(binAt(n, bin(k)), k);
      }
    }

    lemma LookSeesView(bins: nat, bin: Binner, world: nat -> seq<set<Pubkey>>, look: (nat, Pubkey) -> Option<Found>,
                       n: nat,
                       start: Bound, end: Bound, k: Pubkey)
      requires Valid() && Reads(bins, bin, world, look) && AfterStart(start, k) && BeforeEnd(end, k)
      ensures var view := Visible(states[i], TheScan(), start, end);
              look(n, k) == if k in view then Some(view[k]) else None
    {
      SeenAtAnyTime(keyAt(n, k), k);
      if Seen(states[i], TheScan(), k).Some? {
        forall m | i <= m <= j
          ensures k in states[m].index
        {
          VisibleIsIndexed(m, k);
        }
        assert StaysIndexed(n, k, bin);
      }
    }

    lemma ReadsView(bins: nat, bin: Binner, world: nat -> seq<set<Pubkey>>, look: (nat, Pubkey) -> Option<Found>,
                    n: nat,
                    start: Bound, end: Bound)
      requires Valid() && Reads(bins, bin, world, look)
      ensures var view := Visible(states[i], TheScan(), start, end);
              && Covers(world(n), bin, view)
              && (forall k :: k in view ==> AfterStart(start, k) && BeforeEnd(end, k))
              && forall k :: AfterStart(start, k) && BeforeEnd(end, k) ==>
                   look(n, k) == if k in view then Some(view[k]) else None
    {
      WorldCovers(bins, bin, world, look, n, start, end);
      forall k | AfterStart(start, k) && BeforeEnd(end, k)
        ensures var view := Visible(states[i], TheScan(), start, end);
                look(n, k) == if k in view then Some(view[k]) else None
      {
        LookSeesView(bins, bin, world, look, n, start, end, k);
      }
    }
  }

  /** One turn of the outer loop: the next page and its lookups. */
  method ScanPage(it: AccountsIndexIterator, maps: seq<set<Pubkey>>, look: Pubkey -> Option<Found>,
                  ghost found: seq<(Pubkey, Found)>, ghost view: map<Pubkey, Found>, ghost start: Bound)
    returns (hits: seq<(Pubkey, Found)>, more: bool)
    requires Covers(maps, it.bin, view) && Reached(start) <= Reached(it.startBound)
    requires forall k :: k in view ==> AfterStart(start, k) && BeforeEnd(it.endBound, k)
    requires forall k :: AfterStart(start, k) && BeforeEnd(it.endBound, k) ==>
               look(k) == if k in view then Some(view[k]) else None
    requires Progressed(found, view, it.startBound, it.isFinished, !it.collectAllUnsorted)
    requires it.collectAllUnsorted && !it.isFinished ==> found == [] && it.startBound == start
    modifies it
    ensures Progressed(found + hits, view, it.startBound, it.isFinished, !it.collectAllUnsorted)
    ensures if more then it.isFinished <==> it.collectAllUnsorted else it.isFinished
    ensures more ==> !old(it.isFinished) && Reached(old(it.startBound)) < Reached(it.startBound)
    ensures !more ==> it.startBound == old(it.startBound)
  {
    ghost var ahead, finished, end := it.startBound, it.isFinished, it.endBound;
    var r := it.Next(maps);
    if r.None? {
      NothingAhead(maps, it.bin, view, ahead, end, finished);
      assert found + [] == found;
      return [], false;
    }
    var page := r.value;
    ghost var requested := Requested(maps, ahead, end);
    ghost var rest := if it.collectAllUnsorted then [] else SortedKeys(it.Remaining(maps));
    PageRequested(requested, page, rest, it.collectAllUnsorted);
    forall k | k in page
      ensures AfterStart(start, k) && BeforeEnd(end, k) && Reached(ahead) <= k
    {
      RequestedInRange(maps, it.bin, start, ahead, end, k);
    }
    hits := LookUpPage(page, look, view);
    more := true;
    if it.collectAllUnsorted {
      UnsortedPage(maps, it.bin, view, start, end, page);
      UnsortedEnd(hits, view, start, it.startBound);
      assert found + hits == hits;
    } else {
      SortedPage(found, maps, it.bin, view, ahead, end, page);
    }
    assert page[|page| - 1] in page;
  }

  lemma PageRequested(requested: set<Pubkey>, page: seq<Pubkey>, rest: seq<Pubkey>, unsorted: bool)
    requires if unsorted then Elements(page) == requested else SortedKeys(requested) == page + rest
    ensures forall k :: k in page ==> k in requested
  {
    forall k | k in page
      ensures k in requested
    {
      assert k in Elements(page) && k in Elements(page + rest);
    }
  }

  /** Once finished, the bound does not matter. */
  lemma UnsortedEnd(found: seq<(Pubkey, Found)>, view: map<Pubkey, Found>, a: Bound, b: Bound)
    requires Progressed(found, view, a, true, false)
    ensures Progressed(found, view, b, true, false)
  {
  }

  /**
   `do_scan_accounts` in the midst of any run of the protocol: whatever other threads do between and during
   its reads, it finds exactly what was visible to the scan in its first state, and it terminates.
   */
  method ScanAccounts(bins: nat, bin: Binner, world: nat -> seq<set<Pubkey>>, look: (nat, Pubkey) -> Option<Found>,
                      start: Bound, end: Bound, collectAllUnsorted: bool, ghost sched: Schedule)
    returns (found: seq<(Pubkey, Found)>)
    requires sched.Valid() && sched.Reads(bins, bin, world, look)
    ensures ListsView(found, Visible(sched.states[sched.i], sched.TheScan(), start, end), !collectAllUnsorted)
  {
    ghost var view := Visible(sched.states[sched.i], sched.TheScan(), start, end);
    var it := new AccountsIndexIterator(bin, start, end, collectAllUnsorted);
    found := [];
    var n: nat, more := 0, true;
    while more
      invariant it.bin == bin && it.endBound == end && it.collectAllUnsorted == collectAllUnsorted
      invariant Progressed(found, view, it.startBound, it.isFinished, !collectAllUnsorted)
      invariant collectAllUnsorted && !it.isFinished ==> found == [] && it.startBound == start
      invariant Reached(start) <= Reached(it.startBound) && (!more ==> it.isFinished)
      decreases more, KEY_SPACE + 1 - Reached(it.startBound)
    {
      sched.ReadsView(bins, bin, world, look, n, start, end);
      var hits;
      hits, more := ScanPage(it, world(n), k => look(n, k), found, view, start);
      found := found + hits;
      n := n + 1;
    }
  }

  /** When nothing is requested any more, nothing of the view is ahead. */
  lemma NothingAhead(maps: seq<set<Pubkey>>, bin: Binner, view: map<Pubkey, Found>, ahead: Bound, end: Bound,
                     finished: bool)
    requires Covers(maps, bin, view) && (finished || Requested(maps, ahead, end) == {})
    ensures forall k :: k in view && BeforeEnd(end, k) ==> finished || !AfterStart(ahead, k)
  {
    forall k | k in view && BeforeEnd(end, k) && !finished
      ensures !AfterStart(ahead, k)
    {
      AheadIsRequested(maps, bin, view, ahead, end, k);
    }
  }

  lemma RequestedInRange(maps: seq<set<Pubkey>>, bin: Binner, start: Bound, ahead: Bound, end: Bound, k: Pubkey)
    requires ValidBins(maps, bin) && Reached(start) <= Reached(ahead) && k in Requested(maps, ahead, end)
    ensures AfterStart(start, k) && BeforeEnd(end, k) && Reached(ahead) <= k
  {
    InBinsMembers(maps, bin, ahead, end, 0, |maps|, k);
  }
}
