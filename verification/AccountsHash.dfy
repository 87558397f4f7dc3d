/**
 The accounts hash end to end: de-duplicate every pubkey bin, combine the bins in whatever way the
 parallel fold and reduce split them, and hash the resulting files into one Merkle root.
 */
module AccountsHash {
  import opened Basics
  import opened NewestEntries
  import opened DedupMerge
  import opened Flattening
  import Merkle
  import PubkeyBins

  const PUBKEY_BINS_FOR_CALCULATING_HASHES: nat := 65536

  /** How a parallel fold and reduce cuts the range of bins: runs are folded in order, joined in order. */
  datatype SplitTree = Run(from: nat, to: nat) | Join(left: SplitTree, right: SplitTree) {
    function From(): nat {
      match this
      case Run(from, _) => from
      case Join(left, _) => left.From()
    }

    function To(): nat {
      match this
      case Run(_, to) => to
      case Join(_, right) => right.To()
    }

    predicate Valid() {
      match this
      case Run(from, to) => from <= to
      case Join(left, right) => left.Valid() && right.Valid() && left.To() == right.From()
    }
  }

  lemma {:induction false} SplitOrdered(t: SplitTree)
    requires t.Valid()
    ensures t.From() <= t.To()
  {
    if t.Join? {
      SplitOrdered(t.left);
      SplitOrdered(t.right);
    }
  }

  /** Listings of neighbouring ranges of bins concatenate, since bins are in key order. */
  lemma ListingConcat(gs: Groups, bin: Binner, from: nat, mid: nat, to: nat)
    requires Monotone(bin) && from <= mid <= to
    ensures BinsListing(gs, bin, from, to) == BinsListing(gs, bin, from, mid) + BinsListing(gs, bin, mid, to)
  {
    var m := Latest(Flatten(gs));
    var ma, mb, mc := Restrict(m, bin, from, mid), Restrict(m, bin, mid, to), Restrict(m, bin, from, to);
    var a, b := BinsListing(gs, bin, from, mid), BinsListing(gs, bin, mid, to);
    ListingLists(gs, bin, from, mid);
    ListingLists(gs, bin, mid, to);
    RestrictJoins(m, bin, from, mid, to);
    JoinedListing(ma, mb, mc, a, b);
    RestrictKeyed(gs, bin, from, to);
    ListsIsSorted(mc, a + b);
  }

  lemma ListingLists(gs: Groups, bin: Binner, from: nat, to: nat)
    ensures Lists(Restrict(Latest(Flatten(gs)), bin, from, to), BinsListing(gs, bin, from, to))
  {
    RestrictKeyed(gs, bin, from, to);
    SortedEntriesLists(Restrict(Latest(Flatten(gs)), bin, from, to));
  }

  lemma RestrictJoins(m: map<Pubkey, Entry>, bin: Binner, from: nat, mid: nat, to: nat)
    requires Monotone(bin) && from <= mid <= to
    ensures Restrict(m, bin, from, to) == Restrict(m, bin, from, mid) + Restrict(m, bin, mid, to)
    ensures forall x, y :: x in Restrict(m, bin, from, mid) && y in Restrict(m, bin, mid, to) ==> x < y
  {
  }

  lemma JoinedListing(ma: map<Pubkey, Entry>, mb: map<Pubkey, Entry>, mc: map<Pubkey, Entry>, a: seq<Entry>,
                      b: seq<Entry>)
    requires Lists(ma, a) && Lists(mb, b)
    requires forall x, y :: x in ma && y in mb ==> x < y
    requires mc == ma + mb
    ensures Lists(mc, a + b)
  {
    assert forall i :: 0 <= i < |a| ==> a[i] in a;
    assert forall i :: 0 <= i < |b| ==> b[i] in b;
  }

  lemma EmptyListing(gs: Groups, bin: Binner, at: nat)
    ensures BinsListing(gs, bin, at, at) == []
  {
    assert Restrict(Latest(Flatten(gs)), bin, at, at) == map[];
  }

  /** `DedupResult`, or the panic of a checked addition. */
  datatype Outcome = Overflow | Deduped(files: seq<HashesFile>, lamports: U64)

  /** `r` accounts for the entries of `listing`: their hashes in order and the sum of their lamports. */
  ghost predicate AccountsFor(listing: seq<Entry>, mode: ZeroLamportAccounts, keyHash: Pubkey -> Hash, r: Outcome) {
    match r
    case Overflow => Lamports(listing) > U64_MAX
    case Deduped(files, lamports) =>
      && Flatten(AllContents(files)) == EntryHashes(mode, keyHash, listing)
      && lamports == Lamports(listing)
  }

  /** `reduce`: checked addition of the sums, concatenation of the file lists. */
  method Combine(a: Outcome, b: Outcome, ghost la: seq<Entry>, ghost lb: seq<Entry>, ghost mode: ZeroLamportAccounts,
                 ghost keyHash: Pubkey -> Hash)
    returns (r: Outcome)
    requires AccountsFor(la, mode, keyHash, a) && AccountsFor(lb, mode, keyHash, b)
    ensures AccountsFor(la + lb, mode, keyHash, r)
  {
    LamportsAppend(la, lb);
    EntryHashesAppend(mode, keyHash, la, lb);
    if a.Overflow? || b.Overflow? {
      return Overflow;
    }
    if a.lamports + b.lamports > U64_MAX {
      return Overflow;
    }
    FilesAppend(a.files, b.files);
    r := Deduped(a.files + b.files, a.lamports + b.lamports);
  }

  lemma FilesAppend(a: seq<HashesFile>, b: seq<HashesFile>)
    ensures Flatten(AllContents(a + b)) == Flatten(AllContents(a)) + Flatten(AllContents(b))
  {
    assert AllContents(a + b) == AllContents(a) + AllContents(b);
    FlattenAppend(AllContents(a), AllContents(b));
  }

  /** The result of one bin, as a list of one file. */
  method DeDupBin(gs: Groups, b: nat, bins: nat, bin: Binner, mode: ZeroLamportAccounts, keyHash: Pubkey -> Hash)
    returns (r: Outcome)
    requires SortedGroups(gs) && Monotone(bin) && b < bins
    ensures AccountsFor(BinsListing(gs, bin, b, b + 1), mode, keyHash, r)
  {
    var one := DeDupAccountsInParallel(gs, b, bins, bin, mode, keyHash);
    match one {
      case None => r := Overflow;
      case Some(pair) =>
        var (file, sum) := pair;
        assert AllContents([file]) == [file.Contents()];
        assert Flatten([file.Contents()]) == file.Contents() + Flatten([]);
        r := Deduped([file], sum);
    }
  }

  /** `de_dup_accounts`: the result does not depend on how the bins are split. */
  method DeDupAccounts(gs: Groups, bins: nat, bin: Binner, mode: ZeroLamportAccounts, keyHash: Pubkey -> Hash,
                       t: SplitTree)
    returns (r: Outcome)
    requires SortedGroups(gs) && Monotone(bin) && t.Valid() && t.To() <= bins
    ensures AccountsFor(BinsListing(gs, bin, t.From(), t.To()), mode, keyHash, r)
    decreases t
  {
    match t {
      case Run(from, to) =>
        r := Deduped([], 0);
        EmptyListing(gs, bin, from);
        for b := from to to
          invariant AccountsFor(BinsListing(gs, bin, from, b), mode, keyHash, r)
        {
          var one := DeDupBin(gs, b, bins, bin, mode, keyHash);
          ListingConcat(gs, bin, from, b, b + 1);
          r := Combine(r, one, BinsListing(gs, bin, from, b), BinsListing(gs, bin, b, b + 1), mode, keyHash);
        }
      case Join(left, right) =>
        SplitOrdered(left);
        SplitOrdered(right);
        var a := DeDupAccounts(gs, bins, bin, mode, keyHash, left);
        var b := DeDupAccounts(gs, bins, bin, mode, keyHash, right);
        ListingConcat(gs, bin, left.From(), left.To(), right.To());
        r := Combine(a, b, BinsListing(gs, bin, left.From(), left.To()), BinsListing(gs, bin, left.To(), right.To()),
                     mode, keyHash);
    }
  }

  lemma BinsAreValid()
    ensures PubkeyBins.ValidBinCount(PUBKEY_BINS_FOR_CALCULATING_HASHES)
  {
    assert PubkeyBins.Pow2(4) == 16;
    PubkeyBins.Pow2Sum(4, 4);
    PubkeyBins.Pow2Sum(8, 8);
    PubkeyBins.ValidBins(PUBKEY_BINS_FOR_CALCULATING_HASHES, 16);
  }

  /** All bins together list every key. */
  lemma AllBins(gs: Groups, bins: nat, bin: Binner)
    requires forall k :: bin(k) < bins
    ensures BinsListing(gs, bin, 0, bins) == SortedEntries(Latest(Flatten(gs)))
  {
    assert Restrict(Latest(Flatten(gs)), bin, 0, bins) == Latest(Flatten(gs));
  }

  /**
   The accounts hash for any admissible number of bins and any split of them: the plain fanout-16
   root over the newest entry of every pubkey in ascending key order, and the exact sum of their
   lamports. `None`, the overflow panic, is raised exactly when that sum does not fit in 64 bits.
   */
  method HashCalculation(gs: Groups, bins: nat, mode: ZeroLamportAccounts, keyHash: Pubkey -> Hash,
                         hasher: Merkle.Hasher, t: SplitTree)
    returns (r: Option<(Hash, U64)>)
    requires SortedGroups(gs)
    requires PubkeyBins.ValidBinCount(bins) && t.Valid() && t.From() == 0 && t.To() == bins
    ensures r.None? <==> Lamports(SortedEntries(Latest(Flatten(gs)))) > U64_MAX
    ensures r.Some? ==>
              var newest := SortedEntries(Latest(Flatten(gs)));
              r.value == (Merkle.Root(hasher, Merkle.MERKLE_FANOUT, EntryHashes(mode, keyHash, newest)), Lamports(newest))
  {
    var bin := (k: Pubkey) => PubkeyBins.BinFromPubkey(bins, k);
    forall a: Pubkey, b: Pubkey | a <= b
      ensures bin(a) <= bin(b)
    {
      PubkeyBins.BinMonotone(bins, a, b);
    }
    forall k: Pubkey
      ensures bin(k) < bins
    {
      PubkeyBins.BinInRange(bins, k);
    }
    var deduped := DeDupAccounts(gs, bins, bin, mode, keyHash, t);
    AllBins(gs, bins, bin);
    match deduped {
      case Overflow => r := None;
      case Deduped(files, lamports) =>
        var readers, co := FromFiles(files);
        var root := RootOfVectors(hasher, co, readers);
        r := Some((root, lamports));
    }
  }

  /** `rest_of_hash_calculation`, which uses 65536 bins. */
  method RestOfHashCalculation(gs: Groups, mode: ZeroLamportAccounts, keyHash: Pubkey -> Hash, hasher: Merkle.Hasher,
                               t: SplitTree)
    returns (r: Option<(Hash, U64)>)
    requires SortedGroups(gs)
    requires t.Valid() && t.From() == 0 && t.To() == PUBKEY_BINS_FOR_CALCULATING_HASHES
    ensures r.None? <==> Lamports(SortedEntries(Latest(Flatten(gs)))) > U64_MAX
    ensures r.Some? ==>
              var newest := SortedEntries(Latest(Flatten(gs)));
              r.value == (Merkle.Root(hasher, Merkle.MERKLE_FANOUT, EntryHashes(mode, keyHash, newest)), Lamports(newest))
  {
    BinsAreValid();
    r := HashCalculation(gs, PUBKEY_BINS_FOR_CALCULATING_HASHES, mode, keyHash, hasher, t);
  }
}
