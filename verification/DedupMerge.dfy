/**
 The k-way merge behind the accounts hash. Slot groups are ordered from old to new, each sorted by
 pubkey with newer entries of one pubkey later. For one pubkey bin a working set holds at most one
 pointer per group, in strictly descending key order; popping its last pointer yields the smallest
 key that has not been emitted, in the newest group that holds it.
 */
module DedupMerge {
  import opened Basics
  import opened NewestEntries
  import opened Flattening

  type Groups = seq<seq<Entry>>

  ghost predicate SortedGroup(g: seq<Entry>) {
    forall i, j :: 0 <= i < j < |g| ==> g[i].pubkey <= g[j].pubkey
  }

  ghost predicate SortedGroups(gs: Groups) {
    forall i :: 0 <= i < |gs| ==> SortedGroup(gs[i])
  }

  // ----- finding the first entry of a bin -----

  /** All that the searches need: the entries are in the order of their bins. */
  ghost predicate SortedByBin(data: seq<Entry>, bin: Binner) {
    forall i, j :: 0 <= i < j < |data| ==> bin(data[i].pubkey) <= bin(data[j].pubkey)
  }

  /** A binary search that compares odd numbers with an even one, so it never finds a match. */
  method BinarySearchForFirstPubkeyInBin(data: seq<Entry>, b: nat, bin: Binner) returns (r: Option<nat>)
    requires SortedByBin(data, bin)
    ensures r.Some? ==> r.value < |data| && bin(data[r.value].pubkey) == b
                        && forall i :: 0 <= i < r.value ==> bin(data[i].pubkey) < b
    ensures r.None? ==> forall i :: 0 <= i < |data| ==> bin(data[i].pubkey) != b
  {
    var potential := 0;
    if b != 0 {
      var order := (e: Entry) => Cmp(1 + 2 * bin(e.pubkey), b * 2);
      var search := BinarySearchBy(data, order);
      forall e: Entry
        ensures order(e) != 0
      {
        assert 1 + 2 * bin(e.pubkey) != b * 2;
      }
      assert search.Missing?;
      potential := search.insertAt;
    }
    if potential < |data| && bin(data[potential].pubkey) == b {
      return Some(potential);
    }
    return None;
  }

  lemma ProductBelow(n: nat, b: nat, bins: nat)
    requires n > 0 && b < bins
    ensures n * b < n * bins
  {
    MulMonotone(b + 1, bins, n);
    assert n * (b + 1) == n * b + n;
  }

  /** Where bin `b` of `bins` would start if keys were spread evenly over `n` entries. */
  method Guess(n: nat, b: nat, bins: nat) returns (i: nat)
    requires n > 0 && b < bins
    ensures i < n
  {
    i := n * b / bins;
    QuotientBounds(n * b, bins);
    ProductBelow(n, b, bins);
    FactorBelow(i, n, bins);
  }

  /** Guess by proportion, then search the half that the guess leaves. */
  method FindFirstPubkeyInBin(data: seq<Entry>, b: nat, bins: nat, bin: Binner) returns (r: Option<nat>)
    requires SortedByBin(data, bin) && b < bins
    ensures r.Some? ==> r.value < |data| && bin(data[r.value].pubkey) == b
                        && forall i :: 0 <= i < r.value ==> bin(data[i].pubkey) < b
    ensures r.None? ==> forall i :: 0 <= i < |data| ==> bin(data[i].pubkey) != b
  {
    if |data| == 0 {
      return None;
    }
    var i := Guess(|data|, b, bins);
    var lo, hi;
    if bin(data[i].pubkey) >= b {
      lo, hi := 0, i + 1;
    } else {
      lo, hi := i + 1, |data|;
    }
    assert forall k :: 0 <= k < lo ==> bin(data[k].pubkey) < b;
    var part := data[lo..hi];
    PartSorted(data, lo, hi, bin);
    var found := BinarySearchForFirstPubkeyInBin(part, b, bin);
    FirstInPart(data, lo, hi, b, bin, found);
    match found {
      case None => return None;
      case Some(k) => return Some(lo + k);
    }
  }

  lemma PartSorted(data: seq<Entry>, lo: nat, hi: nat, bin: Binner)
    requires lo <= hi <= |data| && SortedByBin(data, bin)
    ensures SortedByBin(data[lo..hi], bin)
  {
  }

  /** The first entry of the bin in the searched part is the first one overall. */
  lemma FirstInPart(data: seq<Entry>, lo: nat, hi: nat, b: nat, bin: Binner, found: Option<nat>)
    requires lo <= hi <= |data| && SortedByBin(data, bin)
    requires forall k :: 0 <= k < lo ==> bin(data[k].pubkey) < b
    requires hi < |data| ==> hi > 0 && bin(data[hi - 1].pubkey) >= b
    requires found.Some? ==> found.value < hi - lo && bin(data[lo..hi][found.value].pubkey) == b
                             && forall i :: 0 <= i < found.value ==> bin(data[lo..hi][i].pubkey) < b
    requires found.None? ==> forall i :: 0 <= i < hi - lo ==> bin(data[lo..hi][i].pubkey) != b
    ensures found.Some? ==> forall i :: 0 <= i < lo + found.value ==> bin(data[i].pubkey) < b
    ensures found.None? ==> forall i :: 0 <= i < |data| ==> bin(data[i].pubkey) != b
  {
    var part := data[lo..hi];
    assert forall k :: lo <= k < hi ==> data[k] == part[k - lo];
  }

  // ----- pointers -----

  /** `SlotGroupPointer`. */
  datatype Pointer = Pointer(group: nat, offset: nat)

  predicate Valid(gs: Groups, p: Pointer) {
    p.group < |gs| && p.offset < |gs[p.group]|
  }

  function KeyAt(gs: Groups, p: Pointer): Pubkey
    requires Valid(gs, p)
  {
    gs[p.group][p.offset].pubkey
  }

  /** `q` is where the next larger key of the same group and bin starts, if there is one. */
  ghost predicate Successor(gs: Groups, b: nat, bin: Binner, p: Pointer, q: Option<Pointer>)
    requires Valid(gs, p)
  {
    match q
    case Some(n) =>
      && Valid(gs, n) && n.group == p.group && bin(KeyAt(gs, n)) == b
      && KeyAt(gs, p) < KeyAt(gs, n)
      && forall j :: 0 <= j < |gs[p.group]| && KeyAt(gs, p) < gs[p.group][j].pubkey ==>
           KeyAt(gs, n) <= gs[p.group][j].pubkey
    case None =>
      forall j :: 0 <= j < |gs[p.group]| && KeyAt(gs, p) < gs[p.group][j].pubkey ==> bin(gs[p.group][j].pubkey) != b
  }

  /** The newest entry of the pointed-to key in its group, and the pointer to the next key of the bin. */
  method GetItem(gs: Groups, b: nat, bin: Binner, p: Pointer)
    returns (item: Entry, next: Option<Pointer>, ghost last: nat)
    requires SortedGroups(gs) && Monotone(bin) && Valid(gs, p) && bin(KeyAt(gs, p)) == b
    ensures last < |gs[p.group]| && item == gs[p.group][last] && item.pubkey == KeyAt(gs, p)
    ensures forall j :: last < j < |gs[p.group]| ==> gs[p.group][j].pubkey != item.pubkey
    ensures Successor(gs, b, bin, p, next)
  {
    var data := gs[p.group];
    var index := p.offset + 1;
    next := None;
    while index < |data|
      invariant p.offset < index <= |data| && next.None?
      invariant forall j :: p.offset <= j < index ==> data[j].pubkey == KeyAt(gs, p)
    {
      var nextKey := data[index].pubkey;
      if nextKey == KeyAt(gs, p) {
        index := index + 1;
        continue;
      }
      if bin(nextKey) > b {
        break;
      }
      next := Some(Pointer(p.group, index));
      break;
    }
    item := data[index - 1];
    last := index - 1;
  }

  // ----- the working set -----

  /** Valid pointers into the bin, strictly descending by key, at most one per group. */
  ghost predicate WorkingSet(gs: Groups, b: nat, bin: Binner, ws: seq<Pointer>) {
    && (forall p :: p in ws ==> Valid(gs, p) && bin(KeyAt(gs, p)) == b)
    && (forall i, j :: 0 <= i < j < |ws| ==> KeyAt(gs, ws[i]) > KeyAt(gs, ws[j]))
    && (forall i, j :: 0 <= i < j < |ws| ==> ws[i].group != ws[j].group)
  }

  /** The pointer still to be placed belongs to the bin and its group has no pointer in the set. */
  ghost predicate Pending(gs: Groups, b: nat, bin: Binner, ws: seq<Pointer>, next: Option<Pointer>) {
    next.Some? ==>
      && Valid(gs, next.value) && bin(KeyAt(gs, next.value)) == b
      && forall p :: p in ws ==> p.group != next.value.group
  }

  /** Group `g` has a pointer at or before key `k`. */
  ghost predicate HasOwn(gs: Groups, ws: seq<Pointer>, next: Option<Pointer>, g: nat, k: Pubkey)
    requires forall p :: p in ws ==> Valid(gs, p)
    requires next.Some? ==> Valid(gs, next.value)
  {
    || (exists p :: p in ws && p.group == g && KeyAt(gs, p) <= k)
    || (next.Some? && next.value.group == g && KeyAt(gs, next.value) <= k)
  }

  /** A group newer than `g` has a pointer exactly at `k`. */
  ghost predicate HasNewer(gs: Groups, ws: seq<Pointer>, g: nat, k: Pubkey)
    requires forall p :: p in ws ==> Valid(gs, p)
  {
    exists p :: p in ws && p.group > g && KeyAt(gs, p) == k
  }

  /**
   No key of the bin above `lo` can be missed or taken from an old group: every group from `from` on
   that holds such a key points at or before it, or a newer group's pointer is exactly at it.
   */
  ghost predicate Coverage(gs: Groups, b: nat, bin: Binner, ws: seq<Pointer>, next: Option<Pointer>, from: nat, lo: int)
    requires forall p :: p in ws ==> Valid(gs, p)
    requires next.Some? ==> Valid(gs, next.value)
  {
    forall g, j :: from <= g < |gs| && 0 <= j < |gs[g]| && bin(gs[g][j].pubkey) == b && lo < gs[g][j].pubkey ==>
      HasOwn(gs, ws, next, g, gs[g][j].pubkey) || HasNewer(gs, ws, g, gs[g][j].pubkey)
  }

  /** Everything the merge keeps true while a pointer may be waiting to be placed. */
  ghost predicate Merging(gs: Groups, b: nat, bin: Binner, ws: seq<Pointer>, next: Option<Pointer>, from: nat,
                          lo: int) {
    && WorkingSet(gs, b, bin, ws)
    && Pending(gs, b, bin, ws, next)
    && (forall p :: p in ws ==> lo < KeyAt(gs, p) && from <= p.group)
    && (next.Some? ==> lo < KeyAt(gs, next.value) && from <= next.value.group)
    && Coverage(gs, b, bin, ws, next, from, lo)
  }

  lemma PlacePointer(gs: Groups, b: nat, bin: Binner, ws: seq<Pointer>, p: Pointer, index: nat, from: nat, lo: int)
    requires Merging(gs, b, bin, ws, Some(p), from, lo) && index <= |ws|
    requires forall i :: 0 <= i < index ==> KeyAt(gs, ws[i]) > KeyAt(gs, p)
    requires forall i :: index <= i < |ws| ==> KeyAt(gs, ws[i]) < KeyAt(gs, p)
    ensures Merging(gs, b, bin, ws[..index] + [p] + ws[index..], None, from, lo)
  {
    var ws' := ws[..index] + [p] + ws[index..];
    InsertedElements(ws, p, index);
    PlacedInOrder(gs, b, bin, ws, p, index);
    CoverageKept(gs, b, bin, ws, Some(p), ws', None, from, lo);
  }

  lemma InsertedElements(ws: seq<Pointer>, p: Pointer, index: nat)
    requires index <= |ws|
    ensures forall q :: q in ws[..index] + [p] + ws[index..] <==> q in ws || q == p
  {
    assert ws == ws[..index] + ws[index..];
  }

  lemma PlacedInOrder(gs: Groups, b: nat, bin: Binner, ws: seq<Pointer>, p: Pointer, index: nat)
    requires WorkingSet(gs, b, bin, ws) && Pending(gs, b, bin, ws, Some(p)) && index <= |ws|
    requires forall i :: 0 <= i < index ==> KeyAt(gs, ws[i]) > KeyAt(gs, p)
    requires forall i :: index <= i < |ws| ==> KeyAt(gs, ws[i]) < KeyAt(gs, p)
    ensures WorkingSet(gs, b, bin, ws[..index] + [p] + ws[index..])
  {
    var ws' := ws[..index] + [p] + ws[index..];
    InsertedElements(ws, p, index);
    forall i, j | 0 <= i < j < |ws'|
      ensures KeyAt(gs, ws'[i]) > KeyAt(gs, ws'[j]) && ws'[i].group != ws'[j].group
    {
      InsertedAt(ws, p, index, i);
      InsertedAt(ws, p, index, j);
    }
  }

  lemma InsertedAt(ws: seq<Pointer>, p: Pointer, index: nat, i: nat)
    requires index <= |ws| && i <= |ws|
    ensures var x := (ws[..index] + [p] + ws[index..])[i];
            if i == index then x == p
            else if i < index then x == ws[i] && x in ws
            else x == ws[i - 1] && x in ws
  {
  }

  /** Coverage is kept when every way of covering a key still has a counterpart. */
  lemma CoverageKept(gs: Groups, b: nat, bin: Binner, ws: seq<Pointer>, next: Option<Pointer>,
                     ws': seq<Pointer>, next': Option<Pointer>, from: nat, lo: int)
    requires forall p :: p in ws || p in ws' ==> Valid(gs, p)
    requires next.Some? ==> Valid(gs, next.value)
    requires next'.Some? ==> Valid(gs, next'.value)
    requires Coverage(gs, b, bin, ws, next, from, lo)
    requires forall g, j :: 0 <= g < |gs| && 0 <= j < |gs[g]| && bin(gs[g][j].pubkey) == b ==>
      HasOwn(gs, ws, next, g, gs[g][j].pubkey) || HasNewer(gs, ws, g, gs[g][j].pubkey) ==>
        HasOwn(gs, ws', next', g, gs[g][j].pubkey) || HasNewer(gs, ws', g, gs[g][j].pubkey)
    ensures Coverage(gs, b, bin, ws', next', from, lo)
  {
  }

  /** A newer group already points at the key of `p`: `p` moves on. */
  lemma SkipPointer(gs: Groups, b: nat, bin: Binner, ws: seq<Pointer>, p: Pointer, next: Option<Pointer>, index: nat,
                    from: nat, lo: int)
    requires Merging(gs, b, bin, ws, Some(p), from, lo) && index < |ws|
    requires KeyAt(gs, ws[index]) == KeyAt(gs, p) && ws[index].group > p.group
    requires Successor(gs, b, bin, p, next)
    ensures Merging(gs, b, bin, ws, next, from, lo)
  {
    forall g, j | from <= g < |gs| && 0 <= j < |gs[g]| && bin(gs[g][j].pubkey) == b && lo < gs[g][j].pubkey
      ensures HasOwn(gs, ws, next, g, gs[g][j].pubkey) || HasNewer(gs, ws, g, gs[g][j].pubkey)
    {
      assert HasOwn(gs, ws, Some(p), g, gs[g][j].pubkey) || HasNewer(gs, ws, g, gs[g][j].pubkey);
      if g == p.group && gs[g][j].pubkey == KeyAt(gs, p) {
        assert ws[index] in ws;
      }
    }
  }

  /** An older group points at the key of `p`: `p` takes its place and the older pointer moves on. */
  lemma ReplacePointer(gs: Groups, b: nat, bin: Binner, ws: seq<Pointer>, p: Pointer, next: Option<Pointer>, index: nat,
                       from: nat, lo: int)
    requires Merging(gs, b, bin, ws, Some(p), from, lo) && index < |ws|
    requires KeyAt(gs, ws[index]) == KeyAt(gs, p) && ws[index].group < p.group
    requires Successor(gs, b, bin, ws[index], next)
    ensures Merging(gs, b, bin, ws[index := p], next, from, lo)
  {
    ReplacedElements(ws, p, index);
    ReplacedInOrder(gs, b, bin, ws, p, index);
    ReplacedMerging(gs, b, bin, ws, p, ws[index := p], next, ws[index], from, lo);
  }

  lemma ReplacedMerging(gs: Groups, b: nat, bin: Binner, ws: seq<Pointer>, p: Pointer, ws': seq<Pointer>,
                        next: Option<Pointer>, stale: Pointer, from: nat, lo: int)
    requires Merging(gs, b, bin, ws, Some(p), from, lo) && WorkingSet(gs, b, bin, ws') && stale in ws
    requires KeyAt(gs, stale) == KeyAt(gs, p) && stale.group < p.group && Successor(gs, b, bin, stale, next)
    requires forall q :: q in ws' <==> (q in ws && q.group != stale.group) || q == p
    requires forall q :: q in ws && q.group == stale.group ==> q == stale
    ensures Merging(gs, b, bin, ws', next, from, lo)
  {
    ReplacedCoverage(gs, b, bin, ws, p, ws', next, stale, from, lo);
  }

  lemma ReplacedCoverage(gs: Groups, b: nat, bin: Binner, ws: seq<Pointer>, p: Pointer, ws': seq<Pointer>,
                         next: Option<Pointer>, stale: Pointer, from: nat, lo: int)
    requires Valid(gs, p) && Valid(gs, stale)
    requires KeyAt(gs, stale) == KeyAt(gs, p) && stale.group < p.group && stale in ws
    requires (forall q :: q in ws || q in ws' ==> Valid(gs, q)) && (next.Some? ==> Valid(gs, next.value))
    requires forall q :: q in ws' <==> (q in ws && q.group != stale.group) || q == p
    requires forall q :: q in ws && q.group == stale.group ==> q == stale
    requires Successor(gs, b, bin, stale, next) && Coverage(gs, b, bin, ws, Some(p), from, lo)
    ensures Coverage(gs, b, bin, ws', next, from, lo)
  {
    forall g, j | 0 <= g < |gs| && 0 <= j < |gs[g]| && bin(gs[g][j].pubkey) == b
      && (HasOwn(gs, ws, Some(p), g, gs[g][j].pubkey) || HasNewer(gs, ws, g, gs[g][j].pubkey))
      ensures HasOwn(gs, ws', next, g, gs[g][j].pubkey) || HasNewer(gs, ws', g, gs[g][j].pubkey)
    {
      ReplaceCovers(gs, b, bin, ws, p, ws', next, stale, g, j);
    }
    CoverageKept(gs, b, bin, ws, Some(p), ws', next, from, lo);
  }

  /** A key that was covered is covered after `p` has taken the place of `stale`, which moves on. */
  lemma ReplaceCovers(gs: Groups, b: nat, bin: Binner, ws: seq<Pointer>, p: Pointer, ws': seq<Pointer>,
                      next: Option<Pointer>, stale: Pointer, g: nat, j: nat)
    requires Valid(gs, p) && Valid(gs, stale)
    requires KeyAt(gs, stale) == KeyAt(gs, p) && stale.group < p.group && stale in ws
    requires (forall q :: q in ws || q in ws' ==> Valid(gs, q)) && (next.Some? ==> Valid(gs, next.value))
    requires forall q :: q in ws' <==> (q in ws && q.group != stale.group) || q == p
    requires forall q :: q in ws && q.group == stale.group ==> q == stale
    requires Successor(gs, b, bin, stale, next)
    requires g < |gs| && j < |gs[g]| && bin(gs[g][j].pubkey) == b
    requires HasOwn(gs, ws, Some(p), g, gs[g][j].pubkey) || HasNewer(gs, ws, g, gs[g][j].pubkey)
    ensures HasOwn(gs, ws', next, g, gs[g][j].pubkey) || HasNewer(gs, ws', g, gs[g][j].pubkey)
  {
    var k := gs[g][j].pubkey;
    assert p in ws';
    if HasNewer(gs, ws, g, k) {
      var q :| q in ws && q.group > g && KeyAt(gs, q) == k;
      assert q != stale ==> q in ws';
    } else if q :| q in ws && q.group == g && KeyAt(gs, q) <= k {
      assert q != stale ==> q in ws';
    }
  }

  lemma ReplacedInOrder(gs: Groups, b: nat, bin: Binner, ws: seq<Pointer>, p: Pointer, index: nat)
    requires WorkingSet(gs, b, bin, ws) && Pending(gs, b, bin, ws, Some(p)) && index < |ws|
    requires KeyAt(gs, ws[index]) == KeyAt(gs, p)
    ensures WorkingSet(gs, b, bin, ws[index := p])
  {
    assert forall i :: 0 <= i < |ws| ==> ws[i] in ws;
  }

  lemma ReplacedElements(ws: seq<Pointer>, p: Pointer, index: nat)
    requires index < |ws|
    requires forall i, j :: 0 <= i < j < |ws| ==> ws[i].group != ws[j].group
    requires forall q :: q in ws ==> q.group != p.group
    ensures forall q :: q in ws[index := p] <==> (q in ws && q.group != ws[index].group) || q == p
    ensures ws[index] in ws && forall q :: q in ws && q.group == ws[index].group ==> q == ws[index]
  {
    var ws' := ws[index := p];
    assert ws'[index] == p;
    forall q | q in ws && q.group != ws[index].group
      ensures q in ws'
    {
      var i :| 0 <= i < |ws| && ws[i] == q;
      assert ws'[i] == q;
    }
  }

  /** The key of `p` is in the working set already: the older group's pointer moves on. */
  method MovePast(gs: Groups, b: nat, bin: Binner, ws0: seq<Pointer>, p: Pointer, index: nat, ghost from: nat,
                  ghost lo: int)
    returns (ws: seq<Pointer>, next: Option<Pointer>)
    requires SortedGroups(gs) && Monotone(bin)
    requires Merging(gs, b, bin, ws0, Some(p), from, lo) && index < |ws0| && ws0[index] in ws0
    requires KeyAt(gs, ws0[index]) == KeyAt(gs, p)
    ensures Merging(gs, b, bin, ws, next, from, lo)
    ensures next.Some? ==> KeyAt(gs, p) < KeyAt(gs, next.value)
  {
    var item; ghost var last;
    if ws0[index].group > p.group {
      item, next, last := GetItem(gs, b, bin, p);
      SkipPointer(gs, b, bin, ws0, p, next, index, from, lo);
      ws := ws0;
    } else {
      item, next, last := GetItem(gs, b, bin, ws0[index]);
      ReplacePointer(gs, b, bin, ws0, p, next, index, from, lo);
      ws := ws0[index := p];
    }
  }

  lemma AppendPointer(gs: Groups, b: nat, bin: Binner, ws: seq<Pointer>, p: Pointer, from: nat, lo: int)
    requires Merging(gs, b, bin, ws, Some(p), from, lo) && |ws| > 0 && Valid(gs, ws[|ws| - 1])
    requires KeyAt(gs, p) < KeyAt(gs, ws[|ws| - 1])
    ensures Merging(gs, b, bin, ws + [p], None, from, lo)
  {
    AllAbove(gs, b, bin, ws, KeyAt(gs, p));
    PlacePointer(gs, b, bin, ws, p, |ws|, from, lo);
    InsertedLast(ws, p);
  }

  lemma AllAbove(gs: Groups, b: nat, bin: Binner, ws: seq<Pointer>, key: Pubkey)
    requires WorkingSet(gs, b, bin, ws) && |ws| > 0 && Valid(gs, ws[|ws| - 1]) && key < KeyAt(gs, ws[|ws| - 1])
    ensures forall i :: 0 <= i < |ws| ==> KeyAt(gs, ws[i]) > key
  {
  }

  lemma InsertedLast(ws: seq<Pointer>, p: Pointer)
    ensures ws[..|ws|] + [p] + ws[|ws|..] == ws + [p]
  {
  }

  /** `add_next_item`: place a pointer, moving pointers past keys that a newer group already holds. */
  method AddNextItem(gs: Groups, b: nat, bin: Binner, next0: Option<Pointer>, ws0: seq<Pointer>, ghost from: nat,
                     ghost lo: int)
    returns (ws: seq<Pointer>)
    requires SortedGroups(gs) && Monotone(bin)
    requires Merging(gs, b, bin, ws0, next0, from, lo)
    ensures Merging(gs, b, bin, ws, None, from, lo)
  {
    var next := next0;
    ws := ws0;
    while next.Some?
      invariant Merging(gs, b, bin, ws, next, from, lo)
      decreases if next.Some? then KEY_SPACE + 1 - KeyAt(gs, next.value) else 0
    {
      var p := next.value;
      if |ws| > 0 && KeyAt(gs, p) < KeyAt(gs, ws[|ws| - 1]) {
        AppendPointer(gs, b, bin, ws, p, from, lo);
        ws := ws + [p];
        return;
      }
      var found := SearchWorkingSet(gs, ws, KeyAt(gs, p));
      match found {
        case Missing(index) =>
          PlacePointer(gs, b, bin, ws, p, index, from, lo);
          ws := ws[..index] + [p] + ws[index..];
          return;
        case Found(index) =>
          assert ws[index] in ws;
          ws, next := MovePast(gs, b, bin, ws, p, index, from, lo);
      }
    }
  }

  /** The search in the working set, which is sorted the other way round. */
  method SearchWorkingSet(gs: Groups, ws: seq<Pointer>, key: Pubkey) returns (r: Search)
    requires forall p :: p in ws ==> Valid(gs, p)
    requires forall i, j :: 0 <= i < j < |ws| ==> KeyAt(gs, ws[i]) > KeyAt(gs, ws[j])
    ensures r.Found? ==> r.index < |ws| && KeyAt(gs, ws[r.index]) == key
    ensures r.Missing? ==>
              && r.insertAt <= |ws|
              && (forall i :: 0 <= i < r.insertAt ==> KeyAt(gs, ws[i]) > key)
              && (forall i :: r.insertAt <= i < |ws| ==> KeyAt(gs, ws[i]) < key)
  {
    r := BinarySearchBy(ws, (p: Pointer) => if Valid(gs, p) then Cmp(key, KeyAt(gs, p)) else 0);
  }

  // ----- how many keys a bin can hold -----

  /** How many entries of a group are in the bin. */
  function BinCount(g: seq<Entry>, b: nat, bin: Binner): nat {
    if g == [] then 0
    else BinCount(g[..|g| - 1], b, bin) + if bin(g[|g| - 1].pubkey) == b then 1 else 0
  }

  function TotalBinCount(gs: Groups, b: nat, bin: Binner): nat {
    if gs == [] then 0 else BinCount(gs[0], b, bin) + TotalBinCount(gs[1..], b, bin)
  }

  /** In a sorted group the entries of a bin form one run. */
  lemma {:induction false} CountOfRun(g: seq<Entry>, b: nat, bin: Binner, first: nat, end: nat, k: nat)
    requires first <= end <= |g| && k <= |g|
    requires forall i :: 0 <= i < |g| ==> (bin(g[i].pubkey) == b <==> first <= i < end)
    ensures BinCount(g[..k], b, bin) == if k <= first then 0 else if k <= end then k - first else end - first
    decreases k
  {
    if k > 0 {
      CountOfRun(g, b, bin, first, end, k - 1);
      assert g[..k][..k - 1] == g[..k - 1] && g[..k][k - 1] == g[k - 1];
    }
  }

  ghost function BinKeys(g: seq<Entry>, b: nat, bin: Binner): set<Pubkey> {
    set j | 0 <= j < |g| && bin(g[j].pubkey) == b :: g[j].pubkey
  }

  lemma {:induction false} BinKeysBound(g: seq<Entry>, b: nat, bin: Binner)
    ensures |BinKeys(g, b, bin)| <= BinCount(g, b, bin)
  {
    if g != [] {
      var n := |g| - 1;
      BinKeysBound(g[..n], b, bin);
      var fewer := BinKeys(g[..n], b, bin);
      assert BinKeys(g, b, bin) == fewer + (if bin(g[n].pubkey) == b then {g[n].pubkey} else {}) by {
        assert forall j :: 0 <= j < n ==> g[..n][j] == g[j];
      }
    }
  }

  ghost function AllBinKeys(gs: Groups, b: nat, bin: Binner): (s: set<Pubkey>)
    ensures forall g, j :: 0 <= g < |gs| && 0 <= j < |gs[g]| && bin(gs[g][j].pubkey) == b ==> gs[g][j].pubkey in s
  {
    if gs == [] then {}
    else
      var rest := AllBinKeys(gs[1..], b, bin);
      assert forall g, j :: 1 <= g < |gs| && 0 <= j < |gs[g]| ==> gs[g][j] == gs[1..][g - 1][j];
      BinKeys(gs[0], b, bin) + rest
  }

  lemma {:induction false} AllBinKeysBound(gs: Groups, b: nat, bin: Binner)
    ensures |AllBinKeys(gs, b, bin)| <= TotalBinCount(gs, b, bin)
  {
    if gs != [] {
      AllBinKeysBound(gs[1..], b, bin);
      BinKeysBound(gs[0], b, bin);
      UnionBound(BinKeys(gs[0], b, bin), AllBinKeys(gs[1..], b, bin));
    }
  }

  lemma UnionBound(a: set<Pubkey>, b: set<Pubkey>)
    ensures |a + b| <= |a| + |b|
  {
    assert |a + b| == |a| + |b| - |a * b|;
  }

  ghost function KeySet(out: seq<Entry>): set<Pubkey> {
    set i | 0 <= i < |out| :: out[i].pubkey
  }

  lemma {:induction false} AscendingCount(out: seq<Entry>)
    requires Ascending(out)
    ensures |KeySet(out)| == |out|
  {
    if out != [] {
      var n := |out| - 1;
      AscendingCount(out[..n]);
      assert forall i :: 0 <= i < n ==> out[..n][i] == out[i];
      assert KeySet(out) == KeySet(out[..n]) + {out[n].pubkey};
    }
  }

  lemma SubsetBound(a: set<Pubkey>, b: set<Pubkey>)
    requires a <= b
    ensures |a| <= |b|
  {
    assert b == a + (b - a);
  }

  // ----- one bin -----

  /** `out` lists, newest version of each, exactly the keys of the bin up to `lo`. */
  ghost predicate Emitted(gs: Groups, b: nat, bin: Binner, out: seq<Entry>, lo: int) {
    var m := Latest(Flatten(gs));
    && Ascending(out)
    && (forall e :: e in out ==> e.pubkey in m && m[e.pubkey] == e && bin(e.pubkey) == b && e.pubkey <= lo)
    && (forall k :: k in m && bin(k) == b && k <= lo ==> m[k] in out)
  }

  lemma EmittedFits(gs: Groups, b: nat, bin: Binner, out: seq<Entry>, lo: int)
    requires Emitted(gs, b, bin, out, lo)
    ensures |out| <= TotalBinCount(gs, b, bin)
  {
    forall k | k in KeySet(out)
      ensures k in AllBinKeys(gs, b, bin)
    {
      var i :| 0 <= i < |out| && out[i].pubkey == k;
      assert out[i] in out;
      LatestKeysOfGroups(gs, k);
    }
    AscendingCount(out);
    SubsetBound(KeySet(out), AllBinKeys(gs, b, bin));
    AllBinKeysBound(gs, b, bin);
  }

  /** Walk to the end of the bin's run, which starts at `f`. */
  method CountFrom(data: seq<Entry>, b: nat, bin: Binner, f: nat) returns (count: nat)
    requires SortedGroup(data) && Monotone(bin) && f < |data| && bin(data[f].pubkey) == b
    requires forall j :: 0 <= j < f ==> bin(data[j].pubkey) < b
    ensures count == BinCount(data, b, bin)
  {
    var end := f + 1;
    while end < |data| && bin(data[end].pubkey) == b
      invariant f < end <= |data|
      invariant forall j :: f <= j < end ==> bin(data[j].pubkey) == b
    {
      end := end + 1;
    }
    CountOfRun(data, b, bin, f, end, |data|);
    assert data[..|data|] == data;
    count := end - f;
  }

  /** The working set for the start of a bin, and the number of entries the bin has. */
  method InitializeDedupWorkingSet(gs: Groups, b: nat, bins: nat, bin: Binner)
    returns (ws: seq<Pointer>, maxInclusiveNumPubkeys: nat)
    requires SortedGroups(gs) && Monotone(bin) && b < bins
    ensures Merging(gs, b, bin, ws, None, 0, -1)
    ensures maxInclusiveNumPubkeys == TotalBinCount(gs, b, bin)
  {
    ws, maxInclusiveNumPubkeys := [], 0;
    for i := |gs| downto 0
      invariant Merging(gs, b, bin, ws, None, i, -1)
      invariant maxInclusiveNumPubkeys == TotalBinCount(gs[i..], b, bin)
    {
      var data := gs[i];
      assert gs[i..][0] == data && gs[i..][1..] == gs[i + 1..];
      var first := FindFirstPubkeyInBin(data, b, bins, bin);
      match first {
        case Some(f) =>
          StartGroup(gs, b, bin, ws, i, f);
          ws := AddNextItem(gs, b, bin, Some(Pointer(i, f)), ws, i, -1);
          var count := CountFrom(data, b, bin, f);
          maxInclusiveNumPubkeys := maxInclusiveNumPubkeys + count;
        case None =>
          SkipGroup(gs, b, bin, ws, i);
          CountOfRun(data, b, bin, 0, 0, |data|);
          assert data[..|data|] == data;
      }
    }
    assert gs[0..] == gs;
  }

  lemma StartGroup(gs: Groups, b: nat, bin: Binner, ws: seq<Pointer>, i: nat, f: nat)
    requires SortedGroups(gs) && i < |gs| && f < |gs[i]| && bin(gs[i][f].pubkey) == b
    requires forall j :: 0 <= j < f ==> bin(gs[i][j].pubkey) < b
    requires Merging(gs, b, bin, ws, None, i + 1, -1)
    ensures Merging(gs, b, bin, ws, Some(Pointer(i, f)), i, -1)
  {
    var next := Some(Pointer(i, f));
    forall g, j | i <= g < |gs| && 0 <= j < |gs[g]| && bin(gs[g][j].pubkey) == b
      ensures HasOwn(gs, ws, next, g, gs[g][j].pubkey) || HasNewer(gs, ws, g, gs[g][j].pubkey)
    {
      if g == i {
        assert f <= j;
      } else {
        assert HasOwn(gs, ws, None, g, gs[g][j].pubkey) || HasNewer(gs, ws, g, gs[g][j].pubkey);
      }
    }
  }

  lemma SkipGroup(gs: Groups, b: nat, bin: Binner, ws: seq<Pointer>, i: nat)
    requires i < |gs|
    requires forall j :: 0 <= j < |gs[i]| ==> bin(gs[i][j].pubkey) != b
    requires Merging(gs, b, bin, ws, None, i + 1, -1)
    ensures Merging(gs, b, bin, ws, None, i, -1)
  {
  }

  /** All other pointers have a larger key and belong to other groups. */
  lemma LastIsUnique(gs: Groups, b: nat, bin: Binner, ws: seq<Pointer>)
    requires WorkingSet(gs, b, bin, ws) && ws != []
    ensures var p, others := ws[|ws| - 1], ws[..|ws| - 1];
            && Valid(gs, p) && bin(KeyAt(gs, p)) == b
            && forall q :: q in ws ==>
                 Valid(gs, q) && (q == p || (q in others && KeyAt(gs, p) < KeyAt(gs, q) && q.group != p.group))
  {
    var p, others := ws[|ws| - 1], ws[..|ws| - 1];
    assert p in ws;
    forall q | q in ws && q != p
      ensures q in others && KeyAt(gs, p) < KeyAt(gs, q) && q.group != p.group
    {
      var i :| 0 <= i < |ws| && ws[i] == q;
      assert others[i] == q;
    }
  }

  /** The last pointer has the least key not yet emitted, and no newer group holds that key. */
  lemma LastIsLeast(gs: Groups, b: nat, bin: Binner, ws: seq<Pointer>, lo: int, g: nat, j: nat)
    requires Merging(gs, b, bin, ws, None, 0, lo) && ws != []
    requires g < |gs| && j < |gs[g]| && bin(gs[g][j].pubkey) == b && lo < gs[g][j].pubkey
    ensures var p := ws[|ws| - 1];
            && Valid(gs, p) && KeyAt(gs, p) <= gs[g][j].pubkey
            && (p.group < g ==> gs[g][j].pubkey != KeyAt(gs, p))
  {
    var p, key := ws[|ws| - 1], gs[g][j].pubkey;
    LastIsUnique(gs, b, bin, ws);
    assert HasOwn(gs, ws, None, g, key) || HasNewer(gs, ws, g, key);
    if HasNewer(gs, ws, g, key) {
      var q :| q in ws && q.group > g && KeyAt(gs, q) == key;
    } else {
      var q :| q in ws && q.group == g && KeyAt(gs, q) <= key;
    }
  }

  /** A key that was covered is still covered when the last pointer has moved on past its key. */
  lemma PopCovers(gs: Groups, b: nat, bin: Binner, ws: seq<Pointer>, next: Option<Pointer>, lo: int, g: nat, j: nat)
    requires Merging(gs, b, bin, ws, None, 0, lo) && ws != [] && Valid(gs, ws[|ws| - 1])
    requires Successor(gs, b, bin, ws[|ws| - 1], next)
    requires g < |gs| && j < |gs[g]| && bin(gs[g][j].pubkey) == b
    requires lo < KeyAt(gs, ws[|ws| - 1]) < gs[g][j].pubkey
    ensures forall q :: q in ws[..|ws| - 1] ==> Valid(gs, q)
    ensures HasOwn(gs, ws[..|ws| - 1], next, g, gs[g][j].pubkey) || HasNewer(gs, ws[..|ws| - 1], g, gs[g][j].pubkey)
  {
    var p, others, key := ws[|ws| - 1], ws[..|ws| - 1], gs[g][j].pubkey;
    assert ws == others + [p];
    LastIsUnique(gs, b, bin, ws);
    assert HasOwn(gs, ws, None, g, key) || HasNewer(gs, ws, g, key);
    if HasNewer(gs, ws, g, key) {
      var q :| q in ws && q.group > g && KeyAt(gs, q) == key;
      assert q in others;
    } else {
      var q :| q in ws && q.group == g && KeyAt(gs, q) <= key;
      if q != p {
        assert q in others;
      }
    }
  }

  lemma PopOrder(gs: Groups, b: nat, bin: Binner, ws: seq<Pointer>)
    requires WorkingSet(gs, b, bin, ws) && ws != []
    ensures var p, others := ws[|ws| - 1], ws[..|ws| - 1];
            && Valid(gs, p) && WorkingSet(gs, b, bin, others)
            && forall q :: q in others ==> KeyAt(gs, p) < KeyAt(gs, q) && q.group != p.group
  {
    var p, others := ws[|ws| - 1], ws[..|ws| - 1];
    assert p in ws;
    forall q | q in others
      ensures q in ws && KeyAt(gs, p) < KeyAt(gs, q) && q.group != p.group
    {
      var i :| 0 <= i < |others| && others[i] == q;
      assert ws[i] == q;
    }
  }

  lemma PopCoverage(gs: Groups, b: nat, bin: Binner, ws: seq<Pointer>, next: Option<Pointer>, lo: int)
    requires Merging(gs, b, bin, ws, None, 0, lo) && ws != [] && Valid(gs, ws[|ws| - 1]) && lo < KeyAt(gs, ws[|ws| - 1])
    requires Successor(gs, b, bin, ws[|ws| - 1], next)
    requires forall q :: q in ws[..|ws| - 1] ==> Valid(gs, q)
    ensures Coverage(gs, b, bin, ws[..|ws| - 1], next, 0, KeyAt(gs, ws[|ws| - 1]))
  {
    forall g, j | && 0 <= g < |gs| && 0 <= j < |gs[g]|
                  && bin(gs[g][j].pubkey) == b && KeyAt(gs, ws[|ws| - 1]) < gs[g][j].pubkey
      ensures HasOwn(gs, ws[..|ws| - 1], next, g, gs[g][j].pubkey) || HasNewer(gs, ws[..|ws| - 1], g, gs[g][j].pubkey)
    {
      PopCovers(gs, b, bin, ws, next, lo, g, j);
    }
  }

  /** Popping the last pointer and emitting its item keeps the merge going from that key on. */
  lemma PopLast(gs: Groups, b: nat, bin: Binner, ws: seq<Pointer>, next: Option<Pointer>, lo: int)
    requires Merging(gs, b, bin, ws, None, 0, lo) && ws != [] && Valid(gs, ws[|ws| - 1])
    requires Successor(gs, b, bin, ws[|ws| - 1], next)
    ensures Merging(gs, b, bin, ws[..|ws| - 1], next, 0, KeyAt(gs, ws[|ws| - 1]))
  {
    PopOrder(gs, b, bin, ws);
    assert ws[|ws| - 1] in ws;
    PopCoverage(gs, b, bin, ws, next, lo);
  }

  lemma EmitItem(gs: Groups, b: nat, bin: Binner, ws: seq<Pointer>, out: seq<Entry>, lo: int, last: nat)
    requires Merging(gs, b, bin, ws, None, 0, lo) && ws != []
    requires Emitted(gs, b, bin, out, lo)
    requires var p := ws[|ws| - 1];
             && last < |gs[p.group]| && gs[p.group][last].pubkey == KeyAt(gs, p)
             && forall j :: last < j < |gs[p.group]| ==> gs[p.group][j].pubkey != KeyAt(gs, p)
    ensures var p := ws[|ws| - 1];
            Emitted(gs, b, bin, out + [gs[p.group][last]], KeyAt(gs, p))
  {
    var p := ws[|ws| - 1];
    assert p in ws;
    var k, item := KeyAt(gs, p), gs[p.group][last];
    var m := Latest(Flatten(gs));
    forall g, j | p.group < g < |gs| && 0 <= j < |gs[g]|
      ensures gs[g][j].pubkey != k
    {
      if gs[g][j].pubkey == k {
        LastIsLeast(gs, b, bin, ws, lo, g, j);
      }
    }
    NewestWins(gs, p.group, last);
    var out' := out + [item];
    forall x | x in m && bin(x) == b && x <= k
      ensures m[x] in out'
    {
      if x > lo {
        LatestKeysOfGroups(gs, x);
        var g, j :| 0 <= g < |gs| && 0 <= j < |gs[g]| && gs[g][j].pubkey == x;
        LastIsLeast(gs, b, bin, ws, lo, g, j);
        assert x == k;
      }
      assert out'[|out|] == item;
    }
    assert forall e :: e in out' ==> e in out || e == item;
  }

  /** Nothing is left when the working set is empty. */
  lemma NothingLeft(gs: Groups, b: nat, bin: Binner, out: seq<Entry>, lo: int)
    requires Merging(gs, b, bin, [], None, 0, lo) && Emitted(gs, b, bin, out, lo)
    ensures Lists(Restrict(Latest(Flatten(gs)), bin, b, b + 1), out)
  {
    var m := Latest(Flatten(gs));
    forall k | k in m && bin(k) == b
      ensures k <= lo
    {
      LatestKeysOfGroups(gs, k);
    }
  }

  /** The part of a map whose keys lie in the bins from `from` up to `to`. */
  function Restrict(m: map<Pubkey, Entry>, bin: Binner, from: nat, to: nat): map<Pubkey, Entry> {
    map k | k in m && from <= bin(k) < to :: m[k]
  }

  /** The newest entries of the keys in those bins, in key order. */
  ghost function BinsListing(gs: Groups, bin: Binner, from: nat, to: nat): seq<Entry> {
    SortedEntries(Restrict(Latest(Flatten(gs)), bin, from, to))
  }

  /** Pop the least pointer, take its item and put the pointer's successor back into the working set. */
  method TakeLeast(gs: Groups, b: nat, bin: Binner, ws: seq<Pointer>, ghost out: seq<Entry>, ghost lo: int)
    returns (item: Entry, ws': seq<Pointer>)
    requires SortedGroups(gs) && Monotone(bin)
    requires Merging(gs, b, bin, ws, None, 0, lo) && ws != []
    requires Emitted(gs, b, bin, out, lo)
    ensures lo < item.pubkey
    ensures Merging(gs, b, bin, ws', None, 0, item.pubkey)
    ensures Emitted(gs, b, bin, out + [item], item.pubkey)
  {
    var p := ws[|ws| - 1];
    assert p in ws;
    var next; ghost var last;
    item, next, last := GetItem(gs, b, bin, p);
    EmitItem(gs, b, bin, ws, out, lo, last);
    PopLast(gs, b, bin, ws, next, lo);
    ws' := AddNextItem(gs, b, bin, next, ws[..|ws| - 1], 0, KeyAt(gs, p));
  }

  /** Account for one item: add its lamports with a check for overflow and write its hash, if it has one. */
  method AddItem(hashes: HashesFile, sum: U64, item: Entry, mode: ZeroLamportAccounts, keyHash: Pubkey -> Hash)
    returns (r: Option<(HashesFile, U64)>)
    requires hashes.Valid() && |hashes.Contents()| < hashes.capacity
    ensures r.None? <==> sum + item.lamports > U64_MAX
    ensures r.Some? ==>
              && r.value.0.Valid() && r.value.0.capacity == hashes.capacity
              && r.value.0.Contents() == hashes.Contents() + EntryHash(mode, keyHash, item)
              && r.value.1 == sum + item.lamports
  {
    if item.lamports != 0 {
      if sum + item.lamports > U64_MAX {
        return None;
      }
      return Some((hashes.Write(item.hash), sum + item.lamports));
    } else if mode.Included? {
      return Some((hashes.Write(keyHash(item.pubkey)), sum));
    }
    return Some((hashes, sum));
  }

  /** The same, when what has been added so far is `out`. */
  method AddNewest(hashes: HashesFile, sum: U64, item: Entry, mode: ZeroLamportAccounts, keyHash: Pubkey -> Hash,
                   ghost out: seq<Entry>)
    returns (r: Option<(HashesFile, U64)>)
    requires hashes.Valid() && |out| < hashes.capacity
    requires hashes.Contents() == EntryHashes(mode, keyHash, out) && sum == Lamports(out)
    ensures r.None? <==> Lamports(out + [item]) > U64_MAX
    ensures r.Some? ==>
              && r.value.0.Valid() && r.value.0.capacity == hashes.capacity
              && r.value.0.Contents() == EntryHashes(mode, keyHash, out + [item])
              && r.value.1 == Lamports(out + [item])
  {
    assert (out + [item])[..|out|] == out;
    r := AddItem(hashes, sum, item, mode, keyHash);
  }

  /**
   `de_dup_accounts_in_parallel` for one bin: the hashes and the lamports of the newest entry of each
   key of the bin, in key order. `None` is the panic of the checked addition, raised exactly when the
   sum does not fit in 64 bits. The file never outgrows its allocation: `AddItem` demands that.
   */
  method DeDupAccountsInParallel(gs: Groups, b: nat, bins: nat, bin: Binner, mode: ZeroLamportAccounts,
                                 keyHash: Pubkey -> Hash)
    returns (r: Option<(HashesFile, U64)>)
    requires SortedGroups(gs) && Monotone(bin) && b < bins
    ensures r.None? <==> Lamports(BinsListing(gs, bin, b, b + 1)) > U64_MAX
    ensures r.Some? ==>
              && r.value.0.Valid()
              && r.value.0.Contents() == EntryHashes(mode, keyHash, BinsListing(gs, bin, b, b + 1))
              && r.value.1 == Lamports(BinsListing(gs, bin, b, b + 1))
  {
    var ws, maxInclusiveNumPubkeys := InitializeDedupWorkingSet(gs, b, bins, bin);
    var hashes := HashesFile(None, maxInclusiveNumPubkeys);
    var overallSum: U64 := 0;
    ghost var out: seq<Entry>, lo := [], -1;
    while |ws| > 0
      invariant Merging(gs, b, bin, ws, None, 0, lo) && -1 <= lo < KEY_SPACE
      invariant Emitted(gs, b, bin, out, lo)
      invariant hashes.Valid() && hashes.capacity == TotalBinCount(gs, b, bin)
      invariant hashes.Contents() == EntryHashes(mode, keyHash, out)
      invariant overallSum == Lamports(out)
      decreases KEY_SPACE - lo
    {
      var item;
      item, ws := TakeLeast(gs, b, bin, ws, out, lo);
      EmittedFits(gs, b, bin, out + [item], item.pubkey);
      var added := AddNewest(hashes, overallSum, item, mode, keyHash, out);
      lo, out := item.pubkey, out + [item];
      if added.None? {
        PartialSum(gs, b, bin, out, lo);
        return None;
      }
      hashes, overallSum := added.value.0, added.value.1;
    }
    assert ws == [];
    AllEmitted(gs, b, bin, out, lo);
    r := Some((hashes, overallSum));
  }

  lemma AllEmitted(gs: Groups, b: nat, bin: Binner, out: seq<Entry>, lo: int)
    requires Merging(gs, b, bin, [], None, 0, lo) && Emitted(gs, b, bin, out, lo)
    ensures out == BinsListing(gs, bin, b, b + 1)
  {
    NothingLeft(gs, b, bin, out, lo);
    RestrictKeyed(gs, bin, b, b + 1);
    ListsIsSorted(Restrict(Latest(Flatten(gs)), bin, b, b + 1), out);
  }

  lemma RestrictKeyed(gs: Groups, bin: Binner, from: nat, to: nat)
    ensures Keyed(Restrict(Latest(Flatten(gs)), bin, from, to))
  {
    LatestKeyed(Flatten(gs));
  }

  /** What has been emitted so far holds no more lamports than the whole bin. */
  lemma PartialSum(gs: Groups, b: nat, bin: Binner, out: seq<Entry>, lo: int)
    requires Emitted(gs, b, bin, out, lo)
    ensures Lamports(out) <= Lamports(BinsListing(gs, bin, b, b + 1))
  {
    var part := Restrict(Latest(Flatten(gs)), bin, b, b + 1);
    RestrictKeyed(gs, bin, b, b + 1);
    SortedEntriesLists(part);
    forall e | e in out
      ensures e in SortedEntries(part)
    {
      assert e.pubkey in part;
    }
    LamportsOfPart(out, SortedEntries(part));
  }
}
