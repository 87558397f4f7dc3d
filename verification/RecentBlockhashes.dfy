/** The queue of recent blockhashes: it forgets old hashes, and still answers as the full history would. */
module RecentBlockhashes {
  import opened Basics

  datatype HashInfo = HashInfo(lamportsPerSignature: nat, hashIndex: nat)

  /** All calls that put a hash into the queue; registrations count from 1, a genesis hash is at 0. */
  datatype Event = Genesis(hash: Hash) | Register(hash: Hash)

  /** The number of registrations. */
  function Registered(history: seq<Event>): nat {
    if history == [] then 0
    else Registered(history[..|history| - 1]) + if history[|history| - 1].Register? then 1 else 0
  }

  /** The index that `h` was given last. */
  function LastIndex(history: seq<Event>, h: Hash): (r: Option<nat>)
    ensures r.Some? ==> r.value <= Registered(history)
  {
    if history == [] then None
    else
      var last := history[|history| - 1];
      if last.hash == h then Some(if last.Register? then Registered(history) else 0)
      else LastIndex(history[..|history| - 1], h)
  }

  /** The last registration of `h` in the full history is at most `age` behind the latest one. */
  predicate WithinAge(history: seq<Event>, h: Hash, age: nat) {
    var last := LastIndex(history, h);
    last.Some? && Registered(history) - last.value <= age
  }

  /** The genesis hashes other than one that comes first, which is how the genesis hash is used. */
  function LateGenesis(history: seq<Event>): nat {
    if |history| <= 1 then 0
    else LateGenesis(history[..|history| - 1]) + if history[|history| - 1].Genesis? then 1 else 0
  }

  lemma OneMoreEvent(history: seq<Event>, e: Event)
    ensures Registered(history + [e]) == Registered(history) + if e.Register? then 1 else 0
    ensures LateGenesis(history + [e]) == LateGenesis(history) + if e.Genesis? && history != [] then 1 else 0
  {
    assert (history + [e])[..|history|] == history;
  }

  ghost function GenesisHashes(history: seq<Event>): set<Hash> {
    set i | 0 <= i < |history| && history[i].Genesis? :: history[i].hash
  }

  lemma {:induction false} GenesisCount(history: seq<Event>)
    ensures |GenesisHashes(history)| <= LateGenesis(history) + 1
    ensures history == [] || history[0].Register? ==> |GenesisHashes(history)| <= LateGenesis(history)
  {
    if |history| <= 1 {
      assert GenesisHashes(history) == if history == [] || history[0].Register? then {} else {history[0].hash};
    } else {
      var n := |history| - 1;
      GenesisCount(history[..n]);
      GenesisMore(history[..n], history[n]);
      assert history == history[..n] + [history[n]];
    }
  }

  lemma GenesisMore(history: seq<Event>, e: Event)
    ensures GenesisHashes(history + [e]) == GenesisHashes(history) + if e.Genesis? then {e.hash} else {}
  {
    var more := history + [e];
    forall h | h in GenesisHashes(history)
      ensures h in GenesisHashes(more)
    {
      var i :| 0 <= i < |history| && history[i].Genesis? && history[i].hash == h;
      assert more[i] == history[i];
    }
    assert more[|history|] == e;
  }

  lemma {:induction false} IndexIsGenesis(history: seq<Event>, h: Hash)
    ensures LastIndex(history, h) == Some(0) ==> h in GenesisHashes(history)
    ensures forall g ::
              LastIndex(history, g) == LastIndex(history, h) && LastIndex(history, h).GetOr(0) > 0 ==> g == h
  {
    if history != [] {
      var n := |history| - 1;
      IndexIsGenesis(history[..n], h);
      GenesisMore(history[..n], history[n]);
      assert history == history[..n] + [history[n]];
    }
  }

  ghost predicate Injective(m: map<Hash, nat>) {
    forall a, b :: a in m && b in m && m[a] == m[b] ==> a == b
  }

  /** A map with distinct indexes from a range is no larger than the range. */
  lemma {:induction false} RangeBound(m: map<Hash, nat>, lo: nat, hi: nat)
    requires lo <= hi && Injective(m)
    requires forall h :: h in m ==> lo <= m[h] < hi
    ensures |m| <= hi - lo
    decreases hi
  {
    if lo == hi {
      assert m.Keys == {};
    } else if h :| h in m && m[h] == hi - 1 {
      var fewer := m - {h};
      assert fewer.Keys == m.Keys - {h};
      assert |fewer| == |m| - 1;
      RangeBound(fewer, lo, hi - 1);
    } else {
      RangeBound(m, lo, hi - 1);
    }
  }

  /** The map knows the last index of what it holds, and holds everything within the age. */
  ghost predicate Tracks(hashes: map<Hash, HashInfo>, history: seq<Event>, age: int) {
    && (forall h :: h in hashes ==> LastIndex(history, h) == Some(hashes[h].hashIndex))
    && (forall h :: age >= 0 && WithinAge(history, h, age) ==> h in hashes)
  }

  class BlockhashQueue {
    var lastHashIndex: nat
    var lastHash: Option<Hash>
    var hashes: map<Hash, HashInfo>
    const maxAge: nat
    /** All that was ever put in, in order. */
    ghost var history: seq<Event>

    ghost predicate Valid()
      reads this
    {
      && lastHashIndex == Registered(history)
      && lastHash == (if history == [] then None else Some(history[|history| - 1].hash))
      && Tracks(hashes, history, maxAge)
      && |hashes| <= maxAge + 1 + LateGenesis(history)
    }

    constructor (maxAge: nat)
      ensures Valid() && this.maxAge == maxAge && history == []
    {
      this.maxAge := maxAge;
      lastHashIndex, lastHash, hashes, history := 0, None, map[], [];
    }

    /** `genesis_hash`, which overwrites whatever index the hash had. */
    method GenesisHash(hash: Hash, lamportsPerSignature: nat)
      requires Valid()
      modifies this
      ensures Valid() && history == old(history) + [Genesis(hash)]
      ensures hashes == old(hashes)[hash := HashInfo(lamportsPerSignature, 0)]
    {
      TracksGenesis(hashes, history, hash, HashInfo(lamportsPerSignature, 0), maxAge);
      AtMostOneMore(hashes, hash, HashInfo(lamportsPerSignature, 0));
      NothingBefore(hashes, history);
      OneMoreEvent(history, Genesis(hash));
      hashes := hashes[hash := HashInfo(lamportsPerSignature, 0)];
      lastHash := Some(hash);
      history := history + [Genesis(hash)];
    }

    /** `is_hash_index_valid`: the subtraction does not underflow for an index that was ever given out. */
    static predicate IsHashIndexValid(lastHashIndex: nat, maxAge: nat, hashIndex: nat)
      requires hashIndex <= lastHashIndex
    {
      lastHashIndex - hashIndex <= maxAge
    }

    /** `register_hash`: at most `maxAge + 1` hashes are held afterwards, and one for every late genesis hash. */
    method RegisterHash(hash: Hash, lamportsPerSignature: nat)
      requires Valid()
      modifies this
      ensures Valid() && history == old(history) + [Register(hash)]
      ensures hash in hashes && hashes[hash] == HashInfo(lamportsPerSignature, Registered(history))
      ensures forall h :: h in hashes && h != hash ==> h in old(hashes) && hashes[h] == old(hashes)[h]
    {
      lastHashIndex := lastHashIndex + 1;
      RetainRecent();
      Record(hash, HashInfo(lamportsPerSignature, lastHashIndex));
    }

    method Record(hash: Hash, info: HashInfo)
      requires lastHashIndex == Registered(history) + 1 == info.hashIndex
      requires Tracks(hashes, history, maxAge - 1) && |hashes| <= maxAge + LateGenesis(history)
      modifies this
      ensures Valid() && history == old(history) + [Register(hash)]
      ensures hashes == old(hashes)[hash := info]
    {
      TracksRegistered(hashes, history, hash, info, maxAge);
      AtMostOneMore(hashes, hash, info);
      OneMoreEvent(history, Register(hash));
      hashes := hashes[hash := info];
      lastHash := Some(hash);
      history := history + [Register(hash)];
    }

    /** When the queue is full, forget what is older than the maximal age, counted from the new last index. */
    method RetainRecent()
      requires lastHashIndex == Registered(history) + 1 && Tracks(hashes, history, maxAge)
      modifies this`hashes
      ensures Tracks(hashes, history, maxAge - 1) && |hashes| <= maxAge + LateGenesis(history)
      ensures forall h :: h in hashes ==> h in old(hashes) && hashes[h] == old(hashes)[h]
    {
      if |hashes| >= maxAge {
        hashes := map h | h in hashes && IsHashIndexValid(lastHashIndex, maxAge, hashes[h].hashIndex) :: hashes[h];
        RetainedFew(hashes, history, maxAge);
      }
    }

    /** `is_hash_valid_for_age`: for every age up to the maximum, the answer of the full history. */
    method IsHashValidForAge(hash: Hash, age: nat) returns (r: bool)
      requires Valid()
      ensures age <= maxAge ==> (r <==> WithinAge(history, hash, age))
      ensures r <==> hash in hashes && WithinAge(history, hash, age)
    {
      if hash !in hashes {
        return false;
      }
      r := IsHashIndexValid(lastHashIndex, age, hashes[hash].hashIndex);
    }

    /** `get_hash_age` */
    method GetHashAge(hash: Hash) returns (r: Option<nat>)
      requires Valid()
      ensures r.Some? ==> LastIndex(history, hash) == Some(Registered(history) - r.value)
      ensures r.None? ==> !WithinAge(history, hash, maxAge)
    {
      if hash !in hashes {
        return None;
      }
      r := Some(lastHashIndex - hashes[hash].hashIndex);
    }
  }

  /** The positive indexes in a map that tracks a history. */
  ghost function Positive(m: map<Hash, HashInfo>): map<Hash, nat> {
    map h | h in m && m[h].hashIndex > 0 :: m[h].hashIndex
  }

  ghost function AtZero(m: map<Hash, HashInfo>): set<Hash> {
    set h | h in m && m[h].hashIndex == 0
  }

  lemma ZeroOrPositive(m: map<Hash, HashInfo>)
    ensures |m| == |Positive(m)| + |AtZero(m)|
  {
    assert m.Keys == Positive(m).Keys + AtZero(m);
  }

  lemma AtZeroFew(m: map<Hash, HashInfo>, history: seq<Event>)
    requires forall h :: h in m ==> LastIndex(history, h) == Some(m[h].hashIndex)
    ensures |AtZero(m)| <= LateGenesis(history) + 1
  {
    forall h | h in AtZero(m)
      ensures h in GenesisHashes(history)
    {
      IndexIsGenesis(history, h);
    }
    GenesisCount(history);
    assert GenesisHashes(history) == AtZero(m) + (GenesisHashes(history) - AtZero(m));
  }

  /** The hashes that stay have indexes among the last `maxAge`, distinct but for genesis hashes. */
  lemma RetainedFew(m: map<Hash, HashInfo>, history: seq<Event>, maxAge: nat)
    requires forall h :: h in m ==>
               LastIndex(history, h) == Some(m[h].hashIndex) && Registered(history) + 1 - m[h].hashIndex <= maxAge
    ensures |m| <= maxAge + LateGenesis(history)
  {
    var positive, hi := Positive(m), Registered(history) + 1;
    forall a, b | a in positive && b in positive && positive[a] == positive[b]
      ensures a == b
    {
      IndexIsGenesis(history, a);
    }
    ZeroOrPositive(m);
    if AtZero(m) == {} {
      RangeBound(positive, if maxAge <= hi then hi - maxAge else 0, hi);
    } else {
      var h :| h in AtZero(m);
      assert hi <= maxAge;
      RangeBound(positive, 1, hi);
      AtZeroFew(m, history);
    }
  }

  /** One more registration moves one hash to the front and ages the others by one. */
  lemma TracksRegistered(hashes: map<Hash, HashInfo>, history: seq<Event>, hash: Hash, info: HashInfo, maxAge: nat)
    requires Tracks(hashes, history, maxAge - 1) && info.hashIndex == Registered(history) + 1
    ensures Tracks(hashes[hash := info], history + [Register(hash)], maxAge)
  {
    var more := history + [Register(hash)];
    assert more[..|history|] == history;
    forall h | h != hash && WithinAge(more, h, maxAge)
      ensures h in hashes
    {
      assert LastIndex(more, h) == LastIndex(history, h);
      assert WithinAge(history, h, maxAge - 1);
    }
  }

  /** A genesis hash ages nothing and takes its hash back to index 0. */
  lemma TracksGenesis(hashes: map<Hash, HashInfo>, history: seq<Event>, hash: Hash, info: HashInfo, maxAge: nat)
    requires Tracks(hashes, history, maxAge) && info.hashIndex == 0
    ensures Tracks(hashes[hash := info], history + [Genesis(hash)], maxAge)
  {
    var more := history + [Genesis(hash)];
    assert more[..|history|] == history;
    forall h | h != hash && WithinAge(more, h, maxAge)
      ensures h in hashes
    {
      assert LastIndex(more, h) == LastIndex(history, h);
      assert WithinAge(history, h, maxAge);
    }
  }

  lemma NothingBefore(hashes: map<Hash, HashInfo>, history: seq<Event>)
    requires forall h :: h in hashes ==> LastIndex(history, h) == Some(hashes[h].hashIndex)
    ensures history == [] ==> |hashes| == 0
  {
    if history == [] {
      assert hashes.Keys == {};
    }
  }

  lemma AtMostOneMore(hashes: map<Hash, HashInfo>, hash: Hash, info: HashInfo)
    ensures |hashes[hash := info]| <= |hashes| + 1
  {
    assert hashes[hash := info].Keys == hashes.Keys + {hash};
  }
}
