/**
 Paged iteration over the accounts index. The keys are spread over bins in key order; each call of `next`
 returns up to 1000 keys of the requested range and remembers the last one.
 */
module IndexIteration {
  import opened Basics

  const ITER_BATCH_SIZE: nat := 1000

  datatype Bound = Unbounded | Included(key: Pubkey) | Excluded(key: Pubkey)

  predicate AfterStart(start: Bound, k: Pubkey) {
    match start
    case Unbounded => true
    case Included(b) => b <= k
    case Excluded(b) => b < k
  }

  predicate BeforeEnd(end: Bound, k: Pubkey) {
    match end
    case Unbounded => true
    case Included(b) => k <= b
    case Excluded(b) => k < b
  }

  // ----- ascending lists of keys -----

  predicate Ascending(s: seq<Pubkey>) {
    forall i, j :: 0 <= i < j < |s| ==> s[i] < s[j]
  }

  function Elements(s: seq<Pubkey>): set<Pubkey> {
    set k | k in s
  }

  /** Two ascending lists of the same keys are equal. */
  lemma {:induction false} AscendingUnique(a: seq<Pubkey>, b: seq<Pubkey>)
    requires Ascending(a) && Ascending(b) && Elements(a) == Elements(b)
    ensures a == b
    decreases |a|
  {
    EmptyElements(a);
    EmptyElements(b);
    if a != [] {
      assert a[0] in Elements(a) && a[0] in b;
      assert b[0] in Elements(b) && b[0] in a;
      assert a[0] == b[0];
      TailElements(a);
      TailElements(b);
      AscendingUnique(a[1..], b[1..]);
    }
  }

  lemma EmptyElements(a: seq<Pubkey>)
    ensures a == [] <==> Elements(a) == {}
  {
    if a != [] {
      assert a[0] in Elements(a);
    }
  }

  /** A key between the parts of an ascending list. */
  lemma Inserted(a: seq<Pubkey>, x: Pubkey, b: seq<Pubkey>)
    requires Ascending(a) && Ascending(b)
    requires (forall k :: k in Elements(a) ==> k < x) && (forall k :: k in Elements(b) ==> x < k)
    ensures Ascending(a + [x] + b) && Elements(a + [x] + b) == Elements(a) + {x} + Elements(b)
  {
    assert forall i :: 0 <= i < |a| ==> a[i] in Elements(a);
    assert forall i :: 0 <= i < |b| ==> b[i] in Elements(b);
  }

  lemma Prepended(x: Pubkey, b: seq<Pubkey>)
    requires Ascending(b) && forall k :: k in Elements(b) ==> x < k
    ensures Ascending([x] + b) && Elements([x] + b) == {x} + Elements(b)
  {
    Inserted([], x, b);
    assert [] + [x] + b == [x] + b;
    EmptyElements([]);
  }

  lemma TailElements(a: seq<Pubkey>)
    requires Ascending(a) && a != []
    ensures Elements(a[1..]) == Elements(a) - {a[0]}
  {
    assert a == [a[0]] + a[1..];
    assert forall k :: k in a[1..] ==> a[0] < k;
  }

  lemma {:induction false} SortedExists(s: set<Pubkey>) returns (r: seq<Pubkey>)
    ensures Ascending(r) && Elements(r) == s
    decreases |s|
  {
    if s == {} {
      r := [];
    } else {
      var k := MinKey(s);
      var rest := SortedExists(s - {k});
      Prepended(k, rest);
      r := [k] + rest;
    }
  }

  /** The ascending list of the keys of `s`; by `AscendingUnique` there is only one. */
  ghost function SortedKeys(s: set<Pubkey>): (r: seq<Pubkey>)
    ensures Ascending(r) && Elements(r) == s
  {
    assert exists r :: Ascending(r) && Elements(r) == s by {
      var r := SortedExists(s);
    }
    var r :| Ascending(r) && Elements(r) == s;
    r
  }

  /** `sort_unstable` of distinct keys, by insertion. */
  method SortKeys(items: seq<Pubkey>) returns (r: seq<Pubkey>)
    requires forall i, j :: 0 <= i < j < |items| ==> items[i] != items[j]
    ensures r == SortedKeys(Elements(items))
  {
    r := [];
    for i := 0 to |items|
      invariant Ascending(r) && Elements(r) == Elements(items[..i])
    {
      var x := items[i];
      assert Elements(items[..i + 1]) == Elements(items[..i]) + {x};
      assert x !in Elements(r);
      r := InsertKey(r, x);
    }
    assert items[..|items|] == items;
    AscendingUnique(r, SortedKeys(Elements(items)));
  }

  method InsertKey(s: seq<Pubkey>, x: Pubkey) returns (r: seq<Pubkey>)
    requires Ascending(s) && x !in Elements(s)
    ensures Ascending(r) && Elements(r) == Elements(s) + {x}
  {
    var i := 0;
    while i < |s| && s[i] < x
      invariant 0 <= i <= |s| && forall j :: 0 <= j < i ==> s[j] < x
    {
      i := i + 1;
    }
    assert i < |s| ==> s[i] in Elements(s);
    Inserted(s[..i], x, s[i..]);
    r := s[..i] + [x] + s[i..];
    assert s == s[..i] + s[i..];
  }

  /** Lists of lower and of higher keys concatenate. */
  lemma SortedUnion(a: set<Pubkey>, b: set<Pubkey>)
    requires forall x, y :: x in a && y in b ==> x < y
    ensures SortedKeys(a + b) == SortedKeys(a) + SortedKeys(b)
  {
    Concatenated(SortedKeys(a), SortedKeys(b));
    AscendingUnique(SortedKeys(a + b), SortedKeys(a) + SortedKeys(b));
  }

  lemma Concatenated(a: seq<Pubkey>, b: seq<Pubkey>)
    requires Ascending(a) && Ascending(b) && forall x, y :: x in Elements(a) && y in Elements(b) ==> x < y
    ensures Ascending(a + b) && Elements(a + b) == Elements(a) + Elements(b)
  {
    assert forall i :: 0 <= i < |a| ==> a[i] in Elements(a);
    assert forall i :: 0 <= i < |b| ==> b[i] in Elements(b);
  }

  // ----- the index -----

  /** The bins: every key is in its own bin, and bins are in key order. */
  ghost predicate ValidBins(maps: seq<set<Pubkey>>, bin: Binner) {
    && Monotone(bin)
    && (forall k :: bin(k) < |maps|)
    && (forall b, k :: 0 <= b < |maps| && k in maps[b] ==> bin(k) == b)
  }

  function InBounds(keys: set<Pubkey>, start: Bound, end: Bound): set<Pubkey> {
    set k | k in keys && AfterStart(start, k) && BeforeEnd(end, k)
  }

  /** The requested keys of the bins from `lo` up to `hi`. */
  ghost function InBins(maps: seq<set<Pubkey>>, start: Bound, end: Bound, lo: nat, hi: nat): set<Pubkey>
    requires lo <= hi <= |maps|
    decreases hi
  {
    if lo == hi then {} else InBins(maps, start, end, lo, hi - 1) + InBounds(maps[hi - 1], start, end)
  }

  /** All requested keys of the index. */
  ghost function Requested(maps: seq<set<Pubkey>>, start: Bound, end: Bound): set<Pubkey> {
    InBins(maps, start, end, 0, |maps|)
  }

  lemma {:induction false} InBinsMembers(maps: seq<set<Pubkey>>, bin: Binner, start: Bound, end: Bound, lo: nat,
                                         hi: nat, k: Pubkey)
    requires ValidBins(maps, bin) && lo <= hi <= |maps|
    ensures k in InBins(maps, start, end, lo, hi)
       <==> lo <= bin(k) < hi && k in maps[bin(k)] && AfterStart(start, k) && BeforeEnd(end, k)
    decreases hi
  {
    if lo < hi {
      InBinsMembers(maps, bin, start, end, lo, hi - 1, k);
    }
  }

  /** `start_bin` and the bin after the last one to look at. */
  function FirstBin(bin: Binner, start: Bound): nat {
    if start.Unbounded? then 0 else bin(start.key)
  }

  function EndBin(bin: Binner, start: Bound, end: Bound, bins: nat): (r: nat)
    ensures r <= bins || r <= FirstBin(bin, start)
  {
    var first := FirstBin(bin, start);
    if end.Unbounded? then (if first <= bins then bins else first)
    else if first > bin(end.key) then first
    else if bin(end.key) + 1 <= bins then bin(end.key) + 1
    else if first <= bins then bins else first
  }

  /** No requested key lies in a bin outside that range. */
  lemma OnlyTheseBins(maps: seq<set<Pubkey>>, bin: Binner, start: Bound, end: Bound)
    requires ValidBins(maps, bin)
    ensures FirstBin(bin, start) <= EndBin(bin, start, end, |maps|) <= |maps|
    ensures InBins(maps, start, end, FirstBin(bin, start), EndBin(bin, start, end, |maps|)) ==
              Requested(maps, start, end)
  {
    var lo, hi := FirstBin(bin, start), EndBin(bin, start, end, |maps|);
    assert |maps| > 0 && bin(0) < |maps|;
    forall k
      ensures k in InBins(maps, start, end, lo, hi) <==> k in Requested(maps, start, end)
    {
      InBinsMembers(maps, bin, start, end, lo, hi, k);
      InBinsMembers(maps, bin, start, end, 0, |maps|, k);
    }
  }

  /** The requested keys of neighbouring ranges of bins, in order. */
  lemma BinsConcat(maps: seq<set<Pubkey>>, bin: Binner, start: Bound, end: Bound, lo: nat, mid: nat, hi: nat)
    requires ValidBins(maps, bin) && lo <= mid <= hi <= |maps|
    ensures SortedKeys(InBins(maps, start, end, lo, hi))
         == SortedKeys(InBins(maps, start, end, lo, mid)) + SortedKeys(InBins(maps, start, end, mid, hi))
  {
    var a, b := InBins(maps, start, end, lo, mid), InBins(maps, start, end, mid, hi);
    var c := InBins(maps, start, end, lo, hi);
    forall k
      ensures k in c <==> k in a + b
      ensures k in a ==> bin(k) < mid
      ensures k in b ==> mid <= bin(k)
    {
      InBinsMembers(maps, bin, start, end, lo, mid, k);
      InBinsMembers(maps, bin, start, end, mid, hi, k);
      InBinsMembers(maps, bin, start, end, lo, hi, k);
    }
    assert c == a + b;
    SortedUnion(a, b);
  }

  lemma OneBin(maps: seq<set<Pubkey>>, start: Bound, end: Bound, b: nat)
    requires b < |maps|
    ensures InBins(maps, start, end, b, b + 1) == InBounds(maps[b], start, end)
  {
    assert InBins(maps, start, end, b, b) == {};
  }

  ghost predicate Distinct(s: seq<Pubkey>) {
    forall i, j :: 0 <= i < j < |s| ==> s[i] != s[j]
  }

  /** The entries of one bin that lie in the range, in the arbitrary order of a hash map. */
  method Items(keys: set<Pubkey>, start: Bound, end: Bound) returns (items: seq<Pubkey>)
    ensures Distinct(items) && Elements(items) == InBounds(keys, start, end)
  {
    items := [];
    var left := InBounds(keys, start, end);
    while left != {}
      invariant Distinct(items) && Elements(items) !! left && Elements(items) + left == InBounds(keys, start, end)
      decreases left
    {
      var k :| k in left;
      assert forall i :: 0 <= i < |items| ==> items[i] in Elements(items);
      assert Elements(items + [k]) == Elements(items) + {k};
      items := items + [k];
      left := left - {k};
    }
  }

  /** The inner loop: take items until the chunk is full; true when some did not fit. */
  method Take(chunk: seq<Pubkey>, items: seq<Pubkey>) returns (chunk': seq<Pubkey>, full: bool)
    requires |chunk| <= ITER_BATCH_SIZE
    ensures full <==> |chunk| + |items| > ITER_BATCH_SIZE
    ensures chunk' == if full then (chunk + items)[..ITER_BATCH_SIZE] else chunk + items
  {
    chunk' := chunk;
    for i := 0 to |items|
      invariant chunk' == chunk + items[..i] && |chunk'| <= ITER_BATCH_SIZE
    {
      if |chunk'| >= ITER_BATCH_SIZE {
        assert (chunk + items)[..ITER_BATCH_SIZE] == chunk + items[..i];
        return chunk', true;
      }
      chunk' := chunk' + [items[i]];
    }
    assert items[..|items|] == items;
    full := false;
  }

  /** The first page of the requested keys. */
  ghost function Page(keys: seq<Pubkey>): (r: seq<Pubkey>)
    ensures |r| <= ITER_BATCH_SIZE
  {
    if |keys| <= ITER_BATCH_SIZE then keys else keys[..ITER_BATCH_SIZE]
  }

  lemma PageOfPrefix(a: seq<Pubkey>, b: seq<Pubkey>)
    requires |a| > ITER_BATCH_SIZE
    ensures Page(a + b) == a[..ITER_BATCH_SIZE]
  {
  }

  /** When the bins up to `mid` fill a page, the other bins do not matter for it. */
  lemma PageOfBins(maps: seq<set<Pubkey>>, bin: Binner, start: Bound, end: Bound, lo: nat, mid: nat, hi: nat)
    requires ValidBins(maps, bin) && lo <= mid <= hi <= |maps|
    requires |SortedKeys(InBins(maps, start, end, lo, mid))| > ITER_BATCH_SIZE
    ensures Page(SortedKeys(InBins(maps, start, end, lo, hi))) ==
              SortedKeys(InBins(maps, start, end, lo, mid))[..ITER_BATCH_SIZE]
  {
    BinsConcat(maps, bin, start, end, lo, mid, hi);
    PageOfPrefix(SortedKeys(InBins(maps, start, end, lo, mid)), SortedKeys(InBins(maps, start, end, mid, hi)));
  }

  class AccountsIndexIterator {
    const bin: Binner
    var startBound: Bound
    const endBound: Bound
    var isFinished: bool
    const collectAllUnsorted: bool

    /** The keys that are still to be returned, of those that the bins hold. */
    ghost function Remaining(maps: seq<set<Pubkey>>): set<Pubkey>
      reads this
    {
      if isFinished then {} else Requested(maps, startBound, endBound)
    }

    constructor (bin: Binner, start: Bound, end: Bound, collectAllUnsorted: bool)
      ensures this.bin == bin && startBound == start && endBound == end
      ensures this.collectAllUnsorted == collectAllUnsorted && !isFinished
    {
      this.bin, startBound, endBound := bin, start, end;
      this.collectAllUnsorted, isFinished := collectAllUnsorted, false;
    }

    /** The entries of one bin that lie in the range, in order. */
    method SortedItems(maps: seq<set<Pubkey>>, b: nat) returns (items: seq<Pubkey>)
      requires b < |maps|
      ensures items == SortedKeys(InBins(maps, startBound, endBound, b, b + 1))
    {
      items := Items(maps[b], startBound, endBound);
      items := SortKeys(items);
      OneBin(maps, startBound, endBound, b);
    }

    /** Add the entries of bin `b` to the chunk, which holds those of the bins before it. */
    method AddBin(maps: seq<set<Pubkey>>, chunk: seq<Pubkey>, ghost first: nat, b: nat)
      returns (chunk': seq<Pubkey>, full: bool)
      requires ValidBins(maps, bin) && first <= b < |maps| && |chunk| <= ITER_BATCH_SIZE
      requires chunk == SortedKeys(InBins(maps, startBound, endBound, first, b))
      ensures var keys := SortedKeys(InBins(maps, startBound, endBound, first, b + 1));
              (full <==> |keys| > ITER_BATCH_SIZE) && chunk' == if full then keys[..ITER_BATCH_SIZE] else keys
    {
      var items := SortedItems(maps, b);
      BinsConcat(maps, bin, startBound, endBound, first, b, b + 1);
      chunk', full := Take(chunk, items);
    }

    /** One page of keys in order. */
    method SortedChunk(maps: seq<set<Pubkey>>) returns (chunk: seq<Pubkey>)
      requires ValidBins(maps, bin)
      ensures chunk == Page(SortedKeys(Requested(maps, startBound, endBound)))
    {
      OnlyTheseBins(maps, bin, startBound, endBound);
      var first, end := FirstBin(bin, startBound), EndBin(bin, startBound, endBound, |maps|);
      chunk := [];
      EmptyElements(SortedKeys(InBins(maps, startBound, endBound, first, first)));
      for b := first to end
        invariant chunk == SortedKeys(InBins(maps, startBound, endBound, first, b)) && |chunk| <= ITER_BATCH_SIZE
      {
        var full;
        chunk, full := AddBin(maps, chunk, first, b);
        if full {
          PageOfBins(maps, bin, startBound, endBound, first, b + 1, end);
          return;
        }
      }
    }

    /** All keys at once, in no particular order. */
    method UnsortedChunk(maps: seq<set<Pubkey>>) returns (chunk: seq<Pubkey>)
      requires ValidBins(maps, bin)
      ensures Distinct(chunk) && Elements(chunk) == Requested(maps, startBound, endBound)
    {
      OnlyTheseBins(maps, bin, startBound, endBound);
      var first, end := FirstBin(bin, startBound), EndBin(bin, startBound, endBound, |maps|);
      chunk := [];
      for b := first to end
        invariant Distinct(chunk) && Elements(chunk) == InBins(maps, startBound, endBound, first, b)
      {
        var items := Items(maps[b], startBound, endBound);
        forall k
          ensures !(k in chunk && k in items)
        {
          InBinsMembers(maps, bin, startBound, endBound, first, b, k);
          assert k in chunk ==> k in Elements(chunk);
          assert k in items ==> k in Elements(items);
        }
        assert Elements(chunk + items) == Elements(chunk) + Elements(items);
        JoinDistinct(chunk, items);
        chunk := chunk + items;
      }
    }

    method NextChunk(maps: seq<set<Pubkey>>) returns (chunk: seq<Pubkey>)
      requires ValidBins(maps, bin)
      ensures chunk == [] <==> Requested(maps, startBound, endBound) == {}
      ensures collectAllUnsorted ==> Distinct(chunk) && Elements(chunk) == Requested(maps, startBound, endBound)
      ensures !collectAllUnsorted ==> chunk == Page(SortedKeys(Requested(maps, startBound, endBound)))
    {
      if collectAllUnsorted {
        chunk := UnsortedChunk(maps);
        EmptyElements(chunk);
      } else {
        chunk := SortedChunk(maps);
        EmptyElements(SortedKeys(Requested(maps, startBound, endBound)));
      }
    }

    /**
     `next`, where `maps` is what each bin holds at the time it is visited. In sorted mode it returns the next
     page of the remaining keys in ascending order, and these no longer remain; in unsorted mode it returns all
     of them once.
     */
    method Next(maps: seq<set<Pubkey>>) returns (r: Option<seq<Pubkey>>)
      requires ValidBins(maps, bin)
      modifies this
      ensures r.None? <==> old(Remaining(maps)) == {}
      ensures r.None? ==> isFinished && startBound == old(startBound)
      ensures r.Some? ==> r.value != [] && startBound == Excluded(r.value[|r.value| - 1])
      ensures r.Some? && !collectAllUnsorted ==>
                && r.value == Page(SortedKeys(old(Remaining(maps)))) && 0 < |r.value| <= ITER_BATCH_SIZE
                && SortedKeys(old(Remaining(maps))) == r.value + SortedKeys(Remaining(maps))
                && !isFinished
      ensures r.Some? && collectAllUnsorted ==>
                Distinct(r.value) && Elements(r.value) == old(Remaining(maps)) && isFinished
    {
      if isFinished {
        return None;
      }
      var chunk := NextChunk(maps);
      if chunk == [] {
        isFinished := true;
        return None;
      }
      if collectAllUnsorted {
        isFinished := true;
      } else {
        AfterPage(maps, bin, startBound, endBound);
      }
      startBound := Excluded(chunk[|chunk| - 1]);
      return Some(chunk);
    }
  }

  lemma JoinDistinct(a: seq<Pubkey>, b: seq<Pubkey>)
    requires Distinct(a) && Distinct(b) && forall k :: !(k in a && k in b)
    ensures Distinct(a + b)
  {
    assert forall i :: 0 <= i < |a| ==> a[i] in a;
    assert forall i :: 0 <= i < |b| ==> b[i] in b;
  }

  lemma KeysAfter(maps: seq<set<Pubkey>>, bin: Binner, start: Bound, end: Bound, last: Pubkey, k: Pubkey)
    requires ValidBins(maps, bin) && last in Requested(maps, start, end)
    ensures k in Requested(maps, Excluded(last), end) <==> k in Requested(maps, start, end) && last < k
  {
    InBinsMembers(maps, bin, start, end, 0, |maps|, k);
    InBinsMembers(maps, bin, Excluded(last), end, 0, |maps|, k);
    InBinsMembers(maps, bin, start, end, 0, |maps|, last);
  }

  /** Starting again after the last key of a page leaves exactly the keys behind the page. */
  lemma AfterPage(maps: seq<set<Pubkey>>, bin: Binner, start: Bound, end: Bound)
    requires ValidBins(maps, bin) && Requested(maps, start, end) != {}
    ensures var keys := SortedKeys(Requested(maps, start, end));
            && Page(keys) != []
            && keys == Page(keys) + SortedKeys(Requested(maps, Excluded(Page(keys)[|Page(keys)| - 1]), end))
  {
    var all := Requested(maps, start, end);
    var keys := SortedKeys(all);
    EmptyElements(keys);
    var page := Page(keys);
    var last := page[|page| - 1];
    var rest := keys[|page|..];
    assert keys == page + rest;
    var after := Requested(maps, Excluded(last), end);
    assert last in keys && last in Elements(keys);
    forall k
      ensures k in Elements(rest) <==> k in after
    {
      KeysAfter(maps, bin, start, end, last, k);
      SplitAt(keys, |page|, k);
    }
    assert Elements(rest) == after;
    AscendingUnique(rest, SortedKeys(after));
  }

  lemma SplitAt(keys: seq<Pubkey>, n: nat, k: Pubkey)
    requires Ascending(keys) && 0 < n <= |keys|
    ensures k in keys[n..] <==> k in keys && keys[n - 1] < k
  {
    if k in keys && keys[n - 1] < k {
      var i :| 0 <= i < |keys| && keys[i] == k;
      assert i >= n && keys[n..][i - n] == k;
    }
  }

  lemma OnePageMore(pages: seq<seq<Pubkey>>, page: seq<Pubkey>, left: seq<Pubkey>)
    ensures Flatten(pages + [page]) + left == Flatten(pages) + (page + left)
  {
    FlattenSnoc(pages, page);
  }

  /** Calling `next` until it has nothing more returns all requested keys once, in ascending order. */
  method CollectPages(maps: seq<set<Pubkey>>, bin: Binner, start: Bound, end: Bound) returns (pages: seq<seq<Pubkey>>)
    requires ValidBins(maps, bin)
    ensures Flatten(pages) == SortedKeys(Requested(maps, start, end))
    ensures forall page :: page in pages ==> 0 < |page| <= ITER_BATCH_SIZE
  {
    var it := new AccountsIndexIterator(bin, start, end, false);
    pages := [];
    ghost var all := SortedKeys(it.Remaining(maps));
    ghost var left := all;
    var more := true;
    while more
      invariant it.bin == bin && !it.collectAllUnsorted
      invariant left == SortedKeys(it.Remaining(maps)) && all == Flatten(pages) + left
      invariant !more ==> left == []
      invariant forall page :: page in pages ==> 0 < |page| <= ITER_BATCH_SIZE
      decreases |left|, more
    {
      var r := it.Next(maps);
      left := SortedKeys(it.Remaining(maps));
      match r {
        case None =>
          EmptyElements(left);
          more := false;
        case Some(page) =>
          OnePageMore(pages, page, left);
          assert 0 < |page| <= ITER_BATCH_SIZE;
          pages := pages + [page];
      }
    }
  }
}
