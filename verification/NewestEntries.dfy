/**
 The simple thing the accounts hash must agree with: of all entries, in slot order, the last one of
 each pubkey counts; these are listed in ascending pubkey order.
 */
module NewestEntries {
  import opened Basics

  /** `CalculateHashIntermediate`. */
  datatype Entry = Entry(hash: Hash, lamports: U64, pubkey: Pubkey)

  /** Later entries overwrite earlier ones. */
  function Latest(entries: seq<Entry>): map<Pubkey, Entry> {
    if entries == [] then map[]
    else
      var last := entries[|entries| - 1];
      Latest(entries[..|entries| - 1])[last.pubkey := last]
  }

  lemma {:induction false} LatestAppend(a: seq<Entry>, b: seq<Entry>)
    ensures Latest(a + b) == Latest(a) + Latest(b)
    decreases |b|
  {
    if b == [] {
      assert a + b == a;
    } else {
      assert (a + b)[..|a + b| - 1] == a + b[..|b| - 1];
      LatestAppend(a, b[..|b| - 1]);
    }
  }

  lemma {:induction false} LatestKeys(entries: seq<Entry>, k: Pubkey)
    ensures k in Latest(entries) <==> exists j :: 0 <= j < |entries| && entries[j].pubkey == k
    ensures k in Latest(entries) ==> Latest(entries)[k].pubkey == k
  {
    if entries != [] {
      var n := |entries| - 1;
      LatestKeys(entries[..n], k);
      if k in Latest(entries) {
        if entries[n].pubkey != k {
          var j :| 0 <= j < |entries[..n]| && entries[..n][j].pubkey == k;
          assert entries[j].pubkey == k;
        }
      }
    }
  }

  lemma LatestIsLast(entries: seq<Entry>, j: nat)
    requires j < |entries|
    requires forall i :: j < i < |entries| ==> entries[i].pubkey != entries[j].pubkey
    ensures entries[j].pubkey in Latest(entries) && Latest(entries)[entries[j].pubkey] == entries[j]
  {
    var k := entries[j].pubkey;
    assert entries == entries[..j + 1] + entries[j + 1..];
    LatestAppend(entries[..j + 1], entries[j + 1..]);
    LatestKeys(entries[j + 1..], k);
    assert entries[..j + 1][|entries[..j + 1]| - 1] == entries[j];
  }

  lemma {:induction false} LatestKeysOfGroups(groups: seq<seq<Entry>>, k: Pubkey)
    ensures k in Latest(Flatten(groups))
       <==> exists g, j :: 0 <= g < |groups| && 0 <= j < |groups[g]| && groups[g][j].pubkey == k
  {
    if groups != [] {
      LatestAppend(groups[0], Flatten(groups[1..]));
      LatestKeys(groups[0], k);
      LatestKeysOfGroups(groups[1..], k);
      if g, j :| 0 <= g < |groups| && 0 <= j < |groups[g]| && groups[g][j].pubkey == k {
        if g > 0 {
          assert groups[1..][g - 1][j].pubkey == k;
        }
      }
      if g, j :| 0 <= g < |groups[1..]| && 0 <= j < |groups[1..][g]| && groups[1..][g][j].pubkey == k {
        assert groups[g + 1][j].pubkey == k;
      }
    }
  }

  /** The newest entry of a key is its last one in the highest-numbered group that holds the key. */
  lemma NewestWins(groups: seq<seq<Entry>>, g: nat, j: nat)
    requires g < |groups| && j < |groups[g]|
    requires forall i :: j < i < |groups[g]| ==> groups[g][i].pubkey != groups[g][j].pubkey
    requires forall h, i :: g < h < |groups| && 0 <= i < |groups[h]| ==> groups[h][i].pubkey != groups[g][j].pubkey
    ensures groups[g][j].pubkey in Latest(Flatten(groups))
    ensures Latest(Flatten(groups))[groups[g][j].pubkey] == groups[g][j]
  {
    var k := groups[g][j].pubkey;
    var newer := groups[g + 1..];
    assert groups == groups[..g] + [groups[g]] + newer;
    FlattenAppend(groups[..g] + [groups[g]], newer);
    FlattenSnoc(groups[..g], groups[g]);
    LatestAppend(Flatten(groups[..g]) + groups[g], Flatten(newer));
    LatestAppend(Flatten(groups[..g]), groups[g]);
    LatestIsLast(groups[g], j);
    LatestKeysOfGroups(newer, k);
  }

  // ----- listing a map in key order -----

  predicate Ascending(s: seq<Entry>) {
    forall i, j :: 0 <= i < j < |s| ==> s[i].pubkey < s[j].pubkey
  }

  ghost predicate Keyed(m: map<Pubkey, Entry>) {
    forall k :: k in m ==> m[k].pubkey == k
  }

  lemma LatestKeyed(entries: seq<Entry>)
    ensures Keyed(Latest(entries))
  {
    forall k | k in Latest(entries)
      ensures Latest(entries)[k].pubkey == k
    {
      LatestKeys(entries, k);
    }
  }

  /** `out` holds exactly the values of `m`, in ascending key order. */
  ghost predicate Lists(m: map<Pubkey, Entry>, out: seq<Entry>) {
    && Ascending(out)
    && (forall e :: e in out ==> e.pubkey in m && m[e.pubkey] == e)
    && (forall k :: k in m ==> m[k] in out)
  }

  ghost function SortedEntries(m: map<Pubkey, Entry>): seq<Entry>
    decreases |m|
  {
    if m == map[] then []
    else
      var k := MinKey(m.Keys);
      [m[k]] + SortedEntries(m - {k})
  }

  lemma {:induction false} SortedEntriesLists(m: map<Pubkey, Entry>)
    requires Keyed(m)
    ensures Lists(m, SortedEntries(m))
    decreases |m|
  {
    if m != map[] {
      var k := MinKey(m.Keys);
      SortedEntriesLists(m - {k});
      ListsCons(m, k, SortedEntries(m - {k}));
    }
  }

  lemma ListsCons(m: map<Pubkey, Entry>, k: Pubkey, out: seq<Entry>)
    requires Keyed(m) && k in m && (forall x :: x in m ==> k <= x)
    requires Lists(m - {k}, out)
    ensures Lists(m, [m[k]] + out)
  {
    var rest, whole := m - {k}, [m[k]] + out;
    forall e | e in whole
      ensures e.pubkey in m && m[e.pubkey] == e
    {
      if e in out {
        assert e.pubkey in rest;
      }
    }
    forall i | 0 <= i < |out|
      ensures k < out[i].pubkey
    {
      assert out[i] in out && out[i].pubkey in rest;
    }
    forall x | x in m
      ensures m[x] in whole
    {
      if x == k {
        assert whole[0] == m[x];
      } else {
        assert rest[x] in out;
      }
    }
  }

  /** There is only one ascending listing. */
  lemma {:induction false} ListingUnique(m: map<Pubkey, Entry>, a: seq<Entry>, b: seq<Entry>)
    requires Lists(m, a) && Lists(m, b) && Keyed(m)
    ensures a == b
    decreases |a|
  {
    ListsEmpty(m, a);
    ListsEmpty(m, b);
    if a != [] {
      assert a[0] in a && a[0] in b;
      assert b[0] in b && b[0] in a;
      assert a[0] == b[0];
      var k := a[0].pubkey;
      ListsTail(m, a);
      ListsTail(m, b);
      ListingUnique(m - {k}, a[1..], b[1..]);
    }
  }

  lemma ListsEmpty(m: map<Pubkey, Entry>, a: seq<Entry>)
    requires Lists(m, a)
    ensures a == [] <==> m == map[]
  {
    if a != [] {
      assert a[0] in a;
    }
  }

  lemma ListsTail(m: map<Pubkey, Entry>, a: seq<Entry>)
    requires Lists(m, a) && Keyed(m) && a != []
    ensures Lists(m - {a[0].pubkey}, a[1..])
  {
    var k := a[0].pubkey;
    forall e | e in a[1..]
      ensures e in a && k < e.pubkey
    {
    }
    forall x | x in m - {k}
      ensures m[x] in a[1..]
    {
      assert m[x] in a && a[0] in a;
      var i :| 0 < i < |a| && a[i] == m[x];
      assert a[i] == a[1..][i - 1];
    }
  }

  lemma ListsIsSorted(m: map<Pubkey, Entry>, out: seq<Entry>)
    requires Lists(m, out) && Keyed(m)
    ensures out == SortedEntries(m)
  {
    SortedEntriesLists(m);
    ListingUnique(m, out, SortedEntries(m));
  }

  // ----- what a listing contributes: lamports and hashes -----

  function Lamports(s: seq<Entry>): nat {
    if s == [] then 0 else Lamports(s[..|s| - 1]) + s[|s| - 1].lamports
  }

  lemma {:induction false} LamportsAppend(a: seq<Entry>, b: seq<Entry>)
    ensures Lamports(a + b) == Lamports(a) + Lamports(b)
    decreases |b|
  {
    if b == [] {
      assert a + b == a;
    } else {
      assert (a + b)[..|a + b| - 1] == a + b[..|b| - 1];
      LamportsAppend(a, b[..|b| - 1]);
    }
  }

  /** An ascending part of an ascending listing holds no more lamports than the whole. */
  lemma {:induction false} LamportsOfPart(part: seq<Entry>, whole: seq<Entry>)
    requires Ascending(part) && Ascending(whole) && forall e :: e in part ==> e in whole
    ensures Lamports(part) <= Lamports(whole)
    decreases |whole|
  {
    if part != [] {
      assert part[0] in part;
      assert whole == [whole[0]] + whole[1..];
      LamportsAppend([whole[0]], whole[1..]);
      if part[0] == whole[0] {
        assert part == [part[0]] + part[1..];
        LamportsAppend([part[0]], part[1..]);
        forall e | e in part[1..]
          ensures e in whole[1..]
        {
          assert e in part && e.pubkey > part[0].pubkey;
        }
        LamportsOfPart(part[1..], whole[1..]);
      } else {
        forall e | e in part
          ensures e in whole[1..]
        {
          var i :| 0 < i < |whole| && whole[i] == part[0];
          assert whole[0].pubkey < part[0].pubkey <= e.pubkey;
        }
        LamportsOfPart(part, whole[1..]);
      }
    }
  }

  datatype ZeroLamportAccounts = Excluded | Included

  /** What one entry adds to the hash list: a zero-lamport account counts for nothing, or as its key's hash. */
  function EntryHash(mode: ZeroLamportAccounts, keyHash: Pubkey -> Hash, e: Entry): seq<Hash> {
    if e.lamports != 0 then [e.hash]
    else if mode.Included? then [keyHash(e.pubkey)]
    else []
  }

  function EntryHashes(mode: ZeroLamportAccounts, keyHash: Pubkey -> Hash, s: seq<Entry>): (r: seq<Hash>)
    ensures |r| <= |s|
  {
    if s == [] then []
    else EntryHashes(mode, keyHash, s[..|s| - 1]) + EntryHash(mode, keyHash, s[|s| - 1])
  }

  lemma {:induction false} EntryHashesAppend(mode: ZeroLamportAccounts, keyHash: Pubkey -> Hash, a: seq<Entry>,
                                             b: seq<Entry>)
    ensures EntryHashes(mode, keyHash, a + b) == EntryHashes(mode, keyHash, a) + EntryHashes(mode, keyHash, b)
    decreases |b|
  {
    if b == [] {
      assert a + b == a;
    } else {
      var n := |b| - 1;
      assert (a + b)[..|a + b| - 1] == a + b[..n];
      EntryHashesAppend(mode, keyHash, a, b[..n]);
      ConcatAssociative(EntryHashes(mode, keyHash, a), EntryHashes(mode, keyHash, b[..n]), EntryHash(mode, keyHash, b[n]));
    }
  }
}
