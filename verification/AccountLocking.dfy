/**
 The reader-writer lock table for accounts. A transaction asks for read or write locks on its keys;
 the table holds one set of write-locked keys and one count of read locks per key.
 */
module AccountLocking {
  import opened Basics

  datatype Lock = Lock(key: Pubkey, writable: bool)

  /** The account locks of one transaction. */
  type Tx = seq<Lock>

  datatype TransactionError = AccountInUse | TooManyAccountLocks | AccountLoadedTwice | Other(code: nat)

  datatype Result<+T> = Ok(value: T) | Err(error: TransactionError)

  // ----- validation -----

  predicate DistinctKeys(tx: Tx) {
    forall i, j :: 0 <= i < j < |tx| ==> tx[i].key != tx[j].key
  }

  const USE_ACCOUNT_LOCK_SET_SIZE: nat := 32

  /** The set that is kept between calls to avoid allocation; it is empty whenever it is not in use. */
  class KeySet {
    var keys: set<Pubkey>

    constructor ()
      ensures keys == {}
    {
      keys := {};
    }

    method Insert(k: Pubkey) returns (isNew: bool)
      modifies this
      ensures keys == old(keys) + {k} && (isNew <==> k !in old(keys))
    {
      isNew := k !in keys;
      keys := keys + {k};
    }
  }

  /** The check for many keys: insert until a key is there already, then clear the set. */
  method AnyTwice(tx: Tx, scratch: KeySet) returns (r: bool)
    requires scratch.keys == {}
    modifies scratch
    ensures scratch.keys == {} && (r <==> !DistinctKeys(tx))
  {
    r := false;
    for i := 0 to |tx|
      invariant scratch.keys == (set j | 0 <= j < i :: tx[j].key) && !r
      invariant forall j, l :: 0 <= j < l < i ==> tx[j].key != tx[l].key
    {
      var isNew := scratch.Insert(tx[i].key);
      if !isNew {
        r := true;
        break;
      }
    }
    scratch.keys := {};
  }

  /** `has_duplicates`: a set for many keys, comparison of all pairs for few. */
  method HasDuplicates(tx: Tx, scratch: KeySet) returns (r: bool)
    requires scratch.keys == {}
    modifies scratch
    ensures scratch.keys == {} && (r <==> !DistinctKeys(tx))
  {
    if |tx| >= USE_ACCOUNT_LOCK_SET_SIZE {
      r := AnyTwice(tx, scratch);
      return;
    }
    for i := 0 to |tx|
      invariant forall j, l :: 0 <= j < i && j < l < |tx| ==> tx[j].key != tx[l].key
      invariant scratch.keys == {}
    {
      for j := i + 1 to |tx|
        invariant forall l :: i < l < j ==> tx[i].key != tx[l].key
        invariant scratch.keys == {}
      {
        if tx[i].key == tx[j].key {
          return true;
        }
      }
    }
    return false;
  }

  /** `validate_account_locks` */
  method ValidateAccountLocks(tx: Tx, limit: nat, scratch: KeySet) returns (r: Result<Tx>)
    requires scratch.keys == {}
    modifies scratch
    ensures scratch.keys == {} && r == Validated(tx, limit)
  {
    if |tx| > limit {
      return Err(TooManyAccountLocks);
    }
    var duplicates := HasDuplicates(tx, scratch);
    return if duplicates then Err(AccountLoadedTwice) else Ok(tx);
  }

  function Validated(tx: Tx, limit: nat): Result<Tx> {
    if |tx| > limit then Err(TooManyAccountLocks)
    else if !DistinctKeys(tx) then Err(AccountLoadedTwice)
    else Ok(tx)
  }

  // ----- the table -----

  datatype Table = Table(write: set<Pubkey>, read: map<Pubkey, nat>)

  function CanLockOne(t: Table, l: Lock, moreReads: set<Pubkey>, moreWrites: set<Pubkey>): bool {
    if l.writable then
      l.key !in t.write && !(l.key in t.read && t.read[l.key] > 0) && l.key !in moreReads && l.key !in moreWrites
    else l.key !in t.write && l.key !in moreWrites
  }

  predicate CanLock(t: Table, tx: Tx, moreReads: set<Pubkey>, moreWrites: set<Pubkey>) {
    forall i :: 0 <= i < |tx| ==> CanLockOne(t, tx[i], moreReads, moreWrites)
  }

  function LockOne(t: Table, l: Lock): Table {
    if l.writable then t.(write := t.write + {l.key})
    else t.(read := t.read[l.key := (if l.key in t.read then t.read[l.key] else 0) + 1])
  }

  function LockAll(t: Table, tx: Tx): Table {
    if tx == [] then t else LockOne(LockAll(t, tx[..|tx| - 1]), tx[|tx| - 1])
  }

  predicate Held(t: Table, l: Lock) {
    if l.writable then l.key in t.write else l.key in t.read && t.read[l.key] >= 1
  }

  function UnlockOne(t: Table, l: Lock): Table
    requires Held(t, l)
  {
    if l.writable then t.(write := t.write - {l.key})
    else if t.read[l.key] == 1 then t.(read := t.read - {l.key})
    else t.(read := t.read[l.key := t.read[l.key] - 1])
  }

  // ----- what outstanding transactions hold -----

  function One(b: bool): nat {
    if b then 1 else 0
  }

  function WritesOf(tx: Tx, k: Pubkey): nat {
    if tx == [] then 0 else WritesOf(tx[..|tx| - 1], k) + One(tx[|tx| - 1] == Lock(k, true))
  }

  function ReadsOf(tx: Tx, k: Pubkey): nat {
    if tx == [] then 0 else ReadsOf(tx[..|tx| - 1], k) + One(tx[|tx| - 1] == Lock(k, false))
  }

  function Writers(txs: seq<Tx>, k: Pubkey): nat {
    if txs == [] then 0 else Writers(txs[..|txs| - 1], k) + WritesOf(txs[|txs| - 1], k)
  }

  function Readers(txs: seq<Tx>, k: Pubkey): nat {
    if txs == [] then 0 else Readers(txs[..|txs| - 1], k) + ReadsOf(txs[|txs| - 1], k)
  }

  /** The table says of key `k` that it has `w` writers and `r` readers. */
  ghost predicate Says(t: Table, k: Pubkey, w: nat, r: nat) {
    && (k in t.write <==> w > 0)
    && (k in t.read <==> r > 0)
    && (k in t.read ==> t.read[k] == r)
  }

  /** The table holds exactly the locks of the outstanding transactions. */
  ghost predicate Represents(t: Table, txs: seq<Tx>) {
    forall k :: Says(t, k, Writers(txs, k), Readers(txs, k))
  }

  /** At most one writer per key, and no reader besides it. */
  ghost predicate Exclusive(txs: seq<Tx>) {
    forall k :: Writers(txs, k) <= 1 && (Writers(txs, k) == 1 ==> Readers(txs, k) == 0)
  }

  lemma {:induction false} KeyOnce(tx: Tx, k: Pubkey)
    requires DistinctKeys(tx)
    ensures WritesOf(tx, k) + ReadsOf(tx, k) <= 1
    ensures WritesOf(tx, k) + ReadsOf(tx, k) == 1 <==> exists i :: 0 <= i < |tx| && tx[i].key == k
  {
    if tx != [] {
      var n := |tx| - 1;
      KeyOnce(tx[..n], k);
      assert forall i :: 0 <= i < n ==> tx[..n][i] == tx[i];
      if tx[n].key == k {
        assert forall i :: 0 <= i < n ==> tx[..n][i].key != k;
      } else if i :| 0 <= i < |tx| && tx[i].key == k {
        assert tx[..n][i].key == k;
      }
    }
  }

  lemma {:induction false} WritesOrReads(tx: Tx, i: nat)
    requires i < |tx|
    ensures tx[i].writable ==> WritesOf(tx, tx[i].key) >= 1
    ensures !tx[i].writable ==> ReadsOf(tx, tx[i].key) >= 1
  {
    var n := |tx| - 1;
    if i < n {
      assert tx[..n][i] == tx[i];
      WritesOrReads(tx[..n], i);
    }
  }

  /** Locking a transaction adds its locks to what the table says. */
  lemma {:induction false} LockAllSays(t: Table, tx: Tx, k: Pubkey, w: nat, r: nat)
    requires Says(t, k, w, r)
    ensures Says(LockAll(t, tx), k, w + WritesOf(tx, k), r + ReadsOf(tx, k))
  {
    if tx != [] {
      LockAllSays(t, tx[..|tx| - 1], k, w, r);
    }
  }

  /** A transaction that may be locked keeps the table exact and the locks exclusive. */
  lemma LockKeepsExclusive(t: Table, txs: seq<Tx>, tx: Tx, moreReads: set<Pubkey>, moreWrites: set<Pubkey>)
    requires Represents(t, txs) && Exclusive(txs) && DistinctKeys(tx) && CanLock(t, tx, moreReads, moreWrites)
    ensures Represents(LockAll(t, tx), txs + [tx]) && Exclusive(txs + [tx])
  {
    assert (txs + [tx])[..|txs|] == txs;
    forall k
      ensures Says(LockAll(t, tx), k, Writers(txs + [tx], k), Readers(txs + [tx], k))
      ensures Writers(txs + [tx], k) <= 1 && (Writers(txs + [tx], k) == 1 ==> Readers(txs + [tx], k) == 0)
    {
      LockAllSays(t, tx, k, Writers(txs, k), Readers(txs, k));
      KeyOnce(tx, k);
      AskedOnly(tx, k);
    }
  }

  /** A transaction that writes or reads a key has the corresponding lock in its list. */
  lemma {:induction false} AskedOnly(tx: Tx, k: Pubkey)
    ensures WritesOf(tx, k) > 0 ==> exists i :: 0 <= i < |tx| && tx[i] == Lock(k, true)
    ensures ReadsOf(tx, k) > 0 ==> exists i :: 0 <= i < |tx| && tx[i] == Lock(k, false)
  {
    if tx != [] {
      var n := |tx| - 1;
      AskedOnly(tx[..n], k);
      if WritesOf(tx[..n], k) > 0 {
        var i :| 0 <= i < n && tx[..n][i] == Lock(k, true);
        assert tx[i] == Lock(k, true);
      }
      if ReadsOf(tx[..n], k) > 0 {
        var i :| 0 <= i < n && tx[..n][i] == Lock(k, false);
        assert tx[i] == Lock(k, false);
      }
    }
  }

  /** Exactness pins the table down. */
  lemma RepresentsUnique(t: Table, t': Table, txs: seq<Tx>)
    requires Represents(t, txs) && Represents(t', txs)
    ensures t == t'
  {
    forall k
      ensures (k in t.write <==> k in t'.write) && (k in t.read <==> k in t'.read)
      ensures k in t.read ==> t.read[k] == t'.read[k]
    {
      assert Says(t, k, Writers(txs, k), Readers(txs, k));
      assert Says(t', k, Writers(txs, k), Readers(txs, k));
    }
    assert t.read.Keys == t'.read.Keys;
    assert t.read == t'.read;
    assert t.write == t'.write;
  }

  predicate Conflict(a: Tx, b: Tx) {
    exists i, j :: 0 <= i < |a| && 0 <= j < |b| && a[i].key == b[j].key && (a[i].writable || b[j].writable)
  }

  function Removed<T>(s: seq<T>, i: nat): seq<T>
    requires i < |s|
  {
    s[..i] + s[i + 1..]
  }

  lemma {:induction false} CountRemoved(txs: seq<Tx>, i: nat, k: Pubkey)
    requires i < |txs|
    ensures Writers(txs, k) == Writers(Removed(txs, i), k) + WritesOf(txs[i], k)
    ensures Readers(txs, k) == Readers(Removed(txs, i), k) + ReadsOf(txs[i], k)
  {
    var n := |txs| - 1;
    if i < n {
      CountRemoved(txs[..n], i, k);
      assert Removed(txs, i)[..n - 1] == Removed(txs[..n], i);
    } else {
      assert Removed(txs, i) == txs[..n];
    }
  }

  /** No two outstanding transactions conflict. */
  lemma NoConflicts(txs: seq<Tx>, i: nat, j: nat)
    requires Exclusive(txs) && i < j < |txs|
    ensures !Conflict(txs[i], txs[j])
  {
    if Conflict(txs[i], txs[j]) {
      var a, b :| && 0 <= a < |txs[i]| && 0 <= b < |txs[j]| && txs[i][a].key == txs[j][b].key
                  && (txs[i][a].writable || txs[j][b].writable);
      var k := txs[i][a].key;
      CountRemoved(txs, j, k);
      CountRemoved(Removed(txs, j), i, k);
      WritesOrReads(txs[i], a);
      WritesOrReads(txs[j], b);
      assert false;
    }
  }

  // ----- the lock table as an object -----

  class AccountLocks {
    var writeLocks: set<Pubkey>
    var readonlyLocks: map<Pubkey, nat>
    /** The transactions that have been locked and not yet unlocked. */
    ghost var outstanding: seq<Tx>

    ghost function View(): Table
      reads this
    {
      Table(writeLocks, readonlyLocks)
    }

    ghost predicate Valid()
      reads this
    {
      Represents(View(), outstanding) && Exclusive(outstanding)
    }

    constructor ()
      ensures Valid() && outstanding == [] && View() == Table({}, map[])
    {
      writeLocks, readonlyLocks, outstanding := {}, map[], [];
    }

    predicate CanLockKey(l: Lock, moreReads: set<Pubkey>, moreWrites: set<Pubkey>)
      reads this
    {
      CanLockOne(Table(writeLocks, readonlyLocks), l, moreReads, moreWrites)
    }

    /**
     `try_lock_accounts`: first check all keys, then lock them all. A failure changes nothing. A validated
     transaction keeps the table exact and the locks exclusive.
     */
    method TryLockAccounts(tx: Tx, moreReads: set<Pubkey>, moreWrites: set<Pubkey>) returns (r: Result<()>)
      requires Valid()
      modifies this
      ensures r == if CanLock(old(View()), tx, moreReads, moreWrites) then Ok(()) else Err(AccountInUse)
      ensures r.Ok? ==> View() == LockAll(old(View()), tx) && outstanding == old(outstanding) + [tx]
      ensures r.Err? ==> View() == old(View()) && outstanding == old(outstanding)
      ensures r.Err? || DistinctKeys(tx) ==> Valid()
    {
      for i := 0 to |tx|
        invariant forall j :: 0 <= j < i ==> CanLockOne(View(), tx[j], moreReads, moreWrites)
        invariant View() == old(View()) && outstanding == old(outstanding)
      {
        if !CanLockKey(tx[i], moreReads, moreWrites) {
          return Err(AccountInUse);
        }
      }
      if DistinctKeys(tx) {
        LockKeepsExclusive(View(), outstanding, tx, moreReads, moreWrites);
      }
      for i := 0 to |tx|
        invariant View() == LockAll(old(View()), tx[..i]) && outstanding == old(outstanding)
      {
        assert tx[..i + 1][..i] == tx[..i];
        if tx[i].writable {
          writeLocks := writeLocks + {tx[i].key};
        } else {
          var count := if tx[i].key in readonlyLocks then readonlyLocks[tx[i].key] else 0;
          readonlyLocks := readonlyLocks[tx[i].key := count + 1];
        }
      }
      assert tx[..|tx|] == tx;
      outstanding := outstanding + [tx];
      return Ok(());
    }

    /** `unlock_accounts`: every lock is found, and no count goes below zero. */
    method UnlockAccounts(tx: Tx, ghost which: nat)
      requires Valid() && which < |outstanding| && outstanding[which] == tx
      modifies this
      ensures Valid() && outstanding == Removed(old(outstanding), which)
    {
      ghost var before := outstanding;
      for i := 0 to |tx|
        invariant outstanding == before
        invariant forall k ::
                    Says(View(), k,
                         Left(Writers(before, k), WritesOf(tx[..i], k)), Left(Readers(before, k), ReadsOf(tx[..i], k)))
      {
        assert tx[..i + 1][..i] == tx[..i];
        LockLeft(before, which, tx, i);
        UnlockSays(View(), before, tx, i);
        if tx[i].writable {
          writeLocks := writeLocks - {tx[i].key};
        } else if readonlyLocks[tx[i].key] == 1 {
          readonlyLocks := readonlyLocks - {tx[i].key};
        } else {
          readonlyLocks := readonlyLocks[tx[i].key := readonlyLocks[tx[i].key] - 1];
        }
      }
      assert tx[..|tx|] == tx;
      outstanding := Removed(before, which);
      forall k
        ensures Says(View(), k, Writers(outstanding, k), Readers(outstanding, k))
        ensures Writers(outstanding, k) <= 1 && (Writers(outstanding, k) == 1 ==> Readers(outstanding, k) == 0)
      {
        CountRemoved(before, which, k);
      }
    }
  }

  function Left(total: nat, part: nat): nat {
    if part <= total then total - part else 0
  }

  /** The lock to be released next is still held: the transaction is outstanding and the lock not yet released. */
  lemma LockLeft(txs: seq<Tx>, which: nat, tx: Tx, i: nat)
    requires which < |txs| && txs[which] == tx && i < |tx|
    ensures tx[i].writable ==> Writers(txs, tx[i].key) > WritesOf(tx[..i], tx[i].key)
    ensures !tx[i].writable ==> Readers(txs, tx[i].key) > ReadsOf(tx[..i], tx[i].key)
    ensures forall k :: WritesOf(tx[..i + 1], k) <= Writers(txs, k) && ReadsOf(tx[..i + 1], k) <= Readers(txs, k)
  {
    assert tx[..i + 1][..i] == tx[..i];
    forall k
      ensures WritesOf(tx[..i + 1], k) <= Writers(txs, k) && ReadsOf(tx[..i + 1], k) <= Readers(txs, k)
    {
      CountRemoved(txs, which, k);
      PrefixCounts(tx, i + 1, k);
    }
  }

  lemma {:induction false} PrefixCounts(tx: Tx, i: nat, k: Pubkey)
    requires i <= |tx|
    ensures WritesOf(tx[..i], k) <= WritesOf(tx, k) && ReadsOf(tx[..i], k) <= ReadsOf(tx, k)
  {
    var n := |tx| - 1;
    if i == |tx| {
      assert tx[..i] == tx;
    } else {
      assert tx[..n][..i] == tx[..i];
      PrefixCounts(tx[..n], i, k);
    }
  }

  /** Releasing one lock lowers what the table says by that lock. */
  lemma UnlockSays(t: Table, txs: seq<Tx>, tx: Tx, i: nat)
    requires i < |tx|
    requires forall k ::
               Says(t, k, Left(Writers(txs, k), WritesOf(tx[..i], k)), Left(Readers(txs, k), ReadsOf(tx[..i], k)))
    requires Exclusive(txs)
    requires tx[i].writable ==> Writers(txs, tx[i].key) > WritesOf(tx[..i], tx[i].key)
    requires !tx[i].writable ==> Readers(txs, tx[i].key) > ReadsOf(tx[..i], tx[i].key)
    requires forall k :: WritesOf(tx[..i + 1], k) <= Writers(txs, k) && ReadsOf(tx[..i + 1], k) <= Readers(txs, k)
    ensures Held(t, tx[i])
    ensures forall k ::
              Says(UnlockOne(t, tx[i]), k,
                   Left(Writers(txs, k), WritesOf(tx[..i + 1], k)), Left(Readers(txs, k), ReadsOf(tx[..i + 1], k)))
  {
    assert tx[..i + 1][..i] == tx[..i];
    var key := tx[i].key;
    assert Says(t, key, Left(Writers(txs, key), WritesOf(tx[..i], key)), Left(Readers(txs, key), ReadsOf(tx[..i], key)));
    forall k
      ensures Says(UnlockOne(t, tx[i]), k,
                   Left(Writers(txs, k), WritesOf(tx[..i + 1], k)), Left(Readers(txs, k), ReadsOf(tx[..i + 1], k)))
    {
      assert Says(t, k, Left(Writers(txs, k), WritesOf(tx[..i], k)), Left(Readers(txs, k), ReadsOf(tx[..i], k)));
    }
  }

  // ----- batches -----

  /** A transaction to lock, or the error with which it has already failed. */
  type Request = Result<Tx>

  function ResultOf(t: Table, req: Request, moreReads: set<Pubkey>, moreWrites: set<Pubkey>): Result<()> {
    match req
    case Err(e) => Err(e)
    case Ok(tx) => if CanLock(t, tx, moreReads, moreWrites) then Ok(()) else Err(AccountInUse)
  }

  function TableWith(t: Table, req: Request, moreReads: set<Pubkey>, moreWrites: set<Pubkey>): Table {
    if ResultOf(t, req, moreReads, moreWrites).Ok? then LockAll(t, req.value) else t
  }

  function TableAfter(t: Table, reqs: seq<Request>, moreReads: set<Pubkey>, moreWrites: set<Pubkey>): Table {
    if reqs == [] then t
    else TableWith(TableAfter(t, reqs[..|reqs| - 1], moreReads, moreWrites), reqs[|reqs| - 1], moreReads, moreWrites)
  }

  /** The transactions of the requests that were granted. */
  function Granted(reqs: seq<Request>, results: seq<Result<()>>): seq<Tx>
    requires |reqs| == |results|
  {
    if reqs == [] then []
    else
      var n := |reqs| - 1;
      Granted(reqs[..n], results[..n]) + if reqs[n].Ok? && results[n].Ok? then [reqs[n].value] else []
  }

  ghost predicate AllDistinct(reqs: seq<Request>) {
    forall i :: 0 <= i < |reqs| && reqs[i].Ok? ==> DistinctKeys(reqs[i].value)
  }

  lemma GrantedSnoc(reqs: seq<Request>, results: seq<Result<()>>, r: Result<()>)
    requires |results| < |reqs|
    ensures var n := |results|;
            Granted(reqs[..n + 1], results + [r]) ==
            Granted(reqs[..n], results) + if reqs[n].Ok? && r.Ok? then [reqs[n].value] else []
  {
    var n := |results|;
    assert reqs[..n + 1][..n] == reqs[..n] && (results + [r])[..n] == results;
  }

  /** Every result is what its request deserves after the requests before it. */
  ghost predicate Answered(t: Table, reqs: seq<Request>, results: seq<Result<()>>, moreReads: set<Pubkey>,
                           moreWrites: set<Pubkey>) {
    && |results| <= |reqs|
    && forall i :: 0 <= i < |results| ==>
         results[i] == ResultOf(TableAfter(t, reqs[..i], moreReads, moreWrites), reqs[i], moreReads, moreWrites)
  }

  lemma AnsweredSnoc(t: Table, reqs: seq<Request>, results: seq<Result<()>>, r: Result<()>, moreReads: set<Pubkey>,
                     moreWrites: set<Pubkey>)
    requires Answered(t, reqs, results, moreReads, moreWrites) && |results| < |reqs|
    requires r ==
               ResultOf(TableAfter(t, reqs[..|results|], moreReads, moreWrites), reqs[|results|], moreReads, moreWrites)
    ensures Answered(t, reqs, results + [r], moreReads, moreWrites)
    ensures TableAfter(t, reqs[..|results| + 1], moreReads, moreWrites)
         == TableWith(TableAfter(t, reqs[..|results|], moreReads, moreWrites), reqs[|results|], moreReads, moreWrites)
  {
    var n := |results|;
    assert reqs[..n + 1][..n] == reqs[..n];
  }

  /** One request of a batch. */
  method LockRequest(locks: AccountLocks, req: Request, moreReads: set<Pubkey>, moreWrites: set<Pubkey>)
    returns (r: Result<()>)
    requires locks.Valid() && (req.Ok? ==> DistinctKeys(req.value))
    modifies locks
    ensures locks.Valid() && r == ResultOf(old(locks.View()), req, moreReads, moreWrites)
    ensures locks.View() == TableWith(old(locks.View()), req, moreReads, moreWrites)
    ensures locks.outstanding == old(locks.outstanding) + if req.Ok? && r.Ok? then [req.value] else []
  {
    match req {
      case Ok(tx) => r := locks.TryLockAccounts(tx, moreReads, moreWrites);
      case Err(e) => r := Err(e);
    }
  }

  /** `lock_accounts_inner`: one request after the other, under one lock of the table. */
  method LockAccountsInner(locks: AccountLocks, reqs: seq<Request>, moreReads: set<Pubkey>, moreWrites: set<Pubkey>)
    returns (results: seq<Result<()>>)
    requires locks.Valid() && AllDistinct(reqs)
    modifies locks
    ensures locks.Valid() && |results| == |reqs|
    ensures locks.outstanding == old(locks.outstanding) + Granted(reqs, results)
    ensures Answered(old(locks.View()), reqs, results, moreReads, moreWrites)
    ensures locks.View() == TableAfter(old(locks.View()), reqs, moreReads, moreWrites)
  {
    results := [];
    ghost var t := locks.View();
    for i := 0 to |reqs|
      invariant locks.Valid() && |results| == i
      invariant locks.View() == TableAfter(t, reqs[..i], moreReads, moreWrites)
      invariant locks.outstanding == old(locks.outstanding) + Granted(reqs[..i], results)
      invariant Answered(t, reqs, results, moreReads, moreWrites)
    {
      var r := LockRequest(locks, reqs[i], moreReads, moreWrites);
      AnsweredSnoc(t, reqs, results, r, moreReads, moreWrites);
      GrantedSnoc(reqs, results, r);
      results := results + [r];
    }
    assert reqs[..|reqs|] == reqs;
  }

  /** `unlock_accounts` of a batch: release the granted transactions; whatever else is outstanding stays. */
  method UnlockBatch(locks: AccountLocks, reqs: seq<Request>, results: seq<Result<()>>, ghost earlier: seq<Tx>,
                     ghost later: seq<Tx>)
    requires locks.Valid() && |reqs| == |results|
    requires forall i :: 0 <= i < |reqs| ==> results[i].Ok? ==> reqs[i].Ok?
    requires locks.outstanding == earlier + Granted(reqs, results) + later
    modifies locks
    ensures locks.Valid() && locks.outstanding == earlier + later
  {
    var i := 0;
    assert reqs[0..] == reqs && results[0..] == results;
    while i < |reqs|
      invariant 0 <= i <= |reqs| && locks.Valid()
      invariant locks.outstanding == earlier + Granted(reqs[i..], results[i..]) + later
    {
      GrantedCons(reqs[i..], results[i..]);
      assert reqs[i..][1..] == reqs[i + 1..] && results[i..][1..] == results[i + 1..];
      if results[i].Ok? {
        RemovedBetween(earlier, reqs[i].value, Granted(reqs[i + 1..], results[i + 1..]), later);
        locks.UnlockAccounts(reqs[i].value, |earlier|);
      }
      i := i + 1;
    }
  }

  lemma RemovedBetween(earlier: seq<Tx>, tx: Tx, rest: seq<Tx>, later: seq<Tx>)
    ensures var all := earlier + ([tx] + rest) + later;
            all[|earlier|] == tx && Removed(all, |earlier|) == earlier + rest + later
  {
  }

  lemma {:induction false} GrantedCons(reqs: seq<Request>, results: seq<Result<()>>)
    requires |reqs| == |results| > 0
    ensures Granted(reqs, results)
         == (if reqs[0].Ok? && results[0].Ok? then [reqs[0].value] else []) + Granted(reqs[1..], results[1..])
  {
    var n := |reqs| - 1;
    if n > 0 {
      GrantedCons(reqs[..n], results[..n]);
      assert reqs[..n][1..] == reqs[1..][..n - 1] && results[..n][1..] == results[1..][..n - 1];
    } else {
      assert reqs[..0] == [] && results[..0] == [] && reqs[1..] == [] && results[1..] == [];
    }
  }

  /** Locking a batch and unlocking it again restores the table. */
  method LockThenUnlock(locks: AccountLocks, reqs: seq<Request>, moreReads: set<Pubkey>, moreWrites: set<Pubkey>)
    requires locks.Valid() && AllDistinct(reqs)
    modifies locks
    ensures locks.Valid() && locks.View() == old(locks.View()) && locks.outstanding == old(locks.outstanding)
  {
    ghost var earlier := locks.outstanding;
    var results := LockAccountsInner(locks, reqs, moreReads, moreWrites);
    assert earlier + Granted(reqs, results) + [] == earlier + Granted(reqs, results) && earlier + [] == earlier;
    UnlockBatch(locks, reqs, results, earlier, []);
    RepresentsUnique(old(locks.View()), locks.View(), earlier);
  }

  // ----- sequential batches -----

  /** The state of a sequential batch: the table, and whether a request has found an account in use. */
  datatype Progress = Progress(table: Table, accountInUseSet: bool)

  function SequentialResult(p: Progress, req: Request): Result<()> {
    if req.Ok? && p.accountInUseSet then Err(AccountInUse) else ResultOf(p.table, req, {}, {})
  }

  function NextProgress(p: Progress, req: Request): Progress {
    if SequentialResult(p, req).Ok? then Progress(LockAll(p.table, req.value), p.accountInUseSet)
    else Progress(p.table, p.accountInUseSet || req.Ok?)
  }

  function ProgressAfter(t: Table, reqs: seq<Request>): Progress {
    if reqs == [] then Progress(t, false)
    else NextProgress(ProgressAfter(t, reqs[..|reqs| - 1]), reqs[|reqs| - 1])
  }

  /** One request of a sequential batch. */
  method LockNext(locks: AccountLocks, req: Request, inUse: bool) returns (r: Result<()>, inUse': bool)
    requires locks.Valid() && (req.Ok? ==> DistinctKeys(req.value))
    modifies locks
    ensures locks.Valid() && r == SequentialResult(Progress(old(locks.View()), inUse), req)
    ensures Progress(locks.View(), inUse') == NextProgress(Progress(old(locks.View()), inUse), req)
    ensures locks.outstanding == old(locks.outstanding) + if req.Ok? && r.Ok? then [req.value] else []
  {
    inUse' := inUse;
    match req {
      case Err(e) => r := Err(e);
      case Ok(tx) =>
        if inUse {
          r := Err(AccountInUse);
        } else {
          r := locks.TryLockAccounts(tx, {}, {});
          if r == Err(AccountInUse) {
            inUse' := true;
          }
        }
    }
  }

  /** Every result is what its request deserves after the requests before it. */
  ghost predicate AnsweredSequentially(t: Table, reqs: seq<Request>, results: seq<Result<()>>) {
    && |results| <= |reqs|
    && forall i :: 0 <= i < |results| ==> results[i] == SequentialResult(ProgressAfter(t, reqs[..i]), reqs[i])
  }

  lemma AnsweredNext(t: Table, reqs: seq<Request>, results: seq<Result<()>>, r: Result<()>)
    requires AnsweredSequentially(t, reqs, results) && |results| < |reqs|
    requires r == SequentialResult(ProgressAfter(t, reqs[..|results|]), reqs[|results|])
    ensures AnsweredSequentially(t, reqs, results + [r])
    ensures ProgressAfter(t, reqs[..|results| + 1]) ==
              NextProgress(ProgressAfter(t, reqs[..|results|]), reqs[|results|])
  {
    var n := |results|;
    assert reqs[..n + 1][..n] == reqs[..n];
  }

  /** `lock_accounts_sequential` */
  method LockAccountsSequential(locks: AccountLocks, reqs: seq<Request>) returns (results: seq<Result<()>>)
    requires locks.Valid() && AllDistinct(reqs)
    modifies locks
    ensures locks.Valid() && |results| == |reqs|
    ensures locks.outstanding == old(locks.outstanding) + Granted(reqs, results)
    ensures AnsweredSequentially(old(locks.View()), reqs, results)
  {
    results := [];
    var accountInUseSet := false;
    ghost var t := locks.View();
    for i := 0 to |reqs|
      invariant locks.Valid() && |results| == i
      invariant ProgressAfter(t, reqs[..i]) == Progress(locks.View(), accountInUseSet)
      invariant locks.outstanding == old(locks.outstanding) + Granted(reqs[..i], results)
      invariant AnsweredSequentially(t, reqs, results)
    {
      var r;
      r, accountInUseSet := LockNext(locks, reqs[i], accountInUseSet);
      AnsweredNext(t, reqs, results, r);
      GrantedSnoc(reqs, results, r);
      results := results + [r];
    }
    assert reqs[..|reqs|] == reqs;
  }

  /**
   A sequential batch answers like an ordinary one up to and including the first request that finds an
   account in use, and locks nothing after it.
   */
  lemma {:induction false} SequentialIsPrefix(t: Table, reqs: seq<Request>, i: nat)
    requires i <= |reqs|
    ensures var p := ProgressAfter(t, reqs[..i]);
            && (p.accountInUseSet <==>
                exists j :: 0 <= j < i && reqs[j].Ok? && ResultOf(TableAfter(t, reqs[..j], {}, {}), reqs[j], {}, {}).Err?)
            && (!p.accountInUseSet ==> p.table == TableAfter(t, reqs[..i], {}, {}))
    ensures i < |reqs| && ProgressAfter(t, reqs[..i]).accountInUseSet ==>
              SequentialResult(ProgressAfter(t, reqs[..i]), reqs[i]).Err?
  {
    if i > 0 {
      assert reqs[..i][..i - 1] == reqs[..i - 1] && reqs[..i][i - 1] == reqs[i - 1];
      SequentialIsPrefix(t, reqs, i - 1);
    }
  }

  // ----- runs of batches -----

  /** A batch that was locked, with its answers, and has not been unlocked. */
  datatype Batch = Batch(reqs: seq<Request>, results: seq<Result<()>>) {
    predicate Valid() {
      |reqs| == |results| && forall i :: 0 <= i < |reqs| ==> results[i].Ok? ==> reqs[i].Ok?
    }
  }

  datatype BatchOp =
    | LockOp(reqs: seq<Request>, moreReads: set<Pubkey>, moreWrites: set<Pubkey>)
    | LockSequentiallyOp(reqs: seq<Request>)
    | UnlockOp(which: nat)

  ghost predicate ValidBatches(held: seq<Batch>) {
    forall i :: 0 <= i < |held| ==> held[i].Valid()
  }

  ghost function Grants(held: seq<Batch>): (r: seq<seq<Tx>>)
    requires ValidBatches(held)
    ensures |r| == |held| && forall i :: 0 <= i < |r| ==> r[i] == Granted(held[i].reqs, held[i].results)
  {
    seq(|held|, i requires 0 <= i < |held| => Granted(held[i].reqs, held[i].results))
  }

  /** The table that is built from scratch for the given transactions. */
  ghost function TableOf(txs: seq<Tx>): Table {
    if txs == [] then Table({}, map[]) else LockAll(TableOf(txs[..|txs| - 1]), txs[|txs| - 1])
  }

  lemma {:induction false} TableOfRepresents(txs: seq<Tx>)
    ensures Represents(TableOf(txs), txs)
  {
    if txs != [] {
      var n := |txs| - 1;
      TableOfRepresents(txs[..n]);
      forall k
        ensures Says(TableOf(txs), k, Writers(txs, k), Readers(txs, k))
      {
        LockAllSays(TableOf(txs[..n]), txs[n], k, Writers(txs[..n], k), Readers(txs[..n], k));
      }
    }
  }

  /** The answer to one request of a batch, given the table at its beginning. */
  function AnswerAt(t: Table, op: BatchOp, i: nat): (r: Result<()>)
    requires !op.UnlockOp? && i < |op.reqs|
    ensures r.Ok? ==> op.reqs[i].Ok?
  {
    match op
    case LockOp(reqs, moreReads, moreWrites) =>
      ResultOf(TableAfter(t, reqs[..i], moreReads, moreWrites), reqs[i], moreReads, moreWrites)
    case LockSequentiallyOp(reqs) => SequentialResult(ProgressAfter(t, reqs[..i]), reqs[i])
  }

  /** The answers to a batch, given the transactions that hold locks. */
  ghost function Answers(txs: seq<Tx>, op: BatchOp): (r: seq<Result<()>>)
    requires !op.UnlockOp?
    ensures |r| == |op.reqs| && forall i :: 0 <= i < |r| ==> r[i].Ok? ==> op.reqs[i].Ok?
  {
    seq(|op.reqs|, i requires 0 <= i < |op.reqs| => AnswerAt(TableOf(txs), op, i))
  }

  lemma AnswersUnique(txs: seq<Tx>, op: BatchOp, results: seq<Result<()>>)
    requires !op.UnlockOp? && |results| == |op.reqs|
    requires match op
             case LockOp(reqs, moreReads, moreWrites) => Answered(TableOf(txs), reqs, results, moreReads, moreWrites)
             case LockSequentiallyOp(reqs) => AnsweredSequentially(TableOf(txs), reqs, results)
    ensures results == Answers(txs, op)
  {
    forall i | 0 <= i < |results|
      ensures results[i] == AnswerAt(TableOf(txs), op, i)
    {
    }
  }

  /** What should be held after a run: each batch is answered from the transactions that hold locks at that time. */
  ghost function HeldAfter(ops: seq<BatchOp>): (held: seq<Batch>)
    ensures ValidBatches(held)
  {
    if ops == [] then []
    else
      var held := HeldAfter(ops[..|ops| - 1]);
      match ops[|ops| - 1]
      case UnlockOp(which) => if which < |held| then Removed(held, which) else held
      case op => held + [Batch(op.reqs, Answers(Flatten(Grants(held)), op))]
  }

  lemma GrantsSplit(held: seq<Batch>, i: nat)
    requires ValidBatches(held) && i < |held|
    ensures ValidBatches(Removed(held, i)) && ValidBatches(held[..i]) && ValidBatches(held[i + 1..])
    ensures Flatten(Grants(held)) ==
              Flatten(Grants(held[..i])) + Granted(held[i].reqs, held[i].results) + Flatten(Grants(held[i + 1..]))
    ensures Flatten(Grants(Removed(held, i))) == Flatten(Grants(held[..i])) + Flatten(Grants(held[i + 1..]))
  {
    var a, b := held[..i], held[i + 1..];
    assert held == (a + [held[i]]) + b;
    GrantsAppend(a + [held[i]], b);
    GrantsSnoc(a, held[i]);
    GrantsAppend(a, b);
  }

  lemma GrantsAppend(a: seq<Batch>, b: seq<Batch>)
    requires ValidBatches(a) && ValidBatches(b)
    ensures ValidBatches(a + b) && Flatten(Grants(a + b)) == Flatten(Grants(a)) + Flatten(Grants(b))
  {
    assert Grants(a + b) == Grants(a) + Grants(b);
    FlattenAppend(Grants(a), Grants(b));
  }

  lemma GrantsSnoc(held: seq<Batch>, b: Batch)
    requires ValidBatches(held) && b.Valid()
    ensures ValidBatches(held + [b])
    ensures Flatten(Grants(held + [b])) == Flatten(Grants(held)) + Granted(b.reqs, b.results)
  {
    assert Grants(held + [b]) == Grants(held) + [Granted(b.reqs, b.results)];
    FlattenSnoc(Grants(held), Granted(b.reqs, b.results));
  }

  /** A batch of either kind. */
  method LockBatch(locks: AccountLocks, op: BatchOp) returns (results: seq<Result<()>>)
    requires locks.Valid() && !op.UnlockOp? && AllDistinct(op.reqs)
    modifies locks
    ensures locks.Valid() && results == Answers(old(locks.outstanding), op)
    ensures locks.outstanding == old(locks.outstanding) + Granted(op.reqs, results)
  {
    TableOfRepresents(locks.outstanding);
    RepresentsUnique(locks.View(), TableOf(locks.outstanding), locks.outstanding);
    match op {
      case LockOp(reqs, moreReads, moreWrites) => results := LockAccountsInner(locks, reqs, moreReads, moreWrites);
      case LockSequentiallyOp(reqs) => results := LockAccountsSequential(locks, reqs);
    }
    AnswersUnique(old(locks.outstanding), op, results);
  }

  /** One operation of a run. */
  method PerformBatch(locks: AccountLocks, op: BatchOp, held: seq<Batch>) returns (held': seq<Batch>)
    requires locks.Valid() && ValidBatches(held) && locks.outstanding == Flatten(Grants(held))
    requires !op.UnlockOp? ==> AllDistinct(op.reqs)
    modifies locks
    ensures locks.Valid() && ValidBatches(held') && locks.outstanding == Flatten(Grants(held'))
    ensures held' == match op
                     case UnlockOp(which) => if which < |held| then Removed(held, which) else held
                     case _ => held + [Batch(op.reqs, Answers(Flatten(Grants(held)), op))]
  {
    match op {
      case UnlockOp(which) =>
        held' := held;
        if which < |held| {
          GrantsSplit(held, which);
          UnlockBatch(locks, held[which].reqs, held[which].results,
                      Flatten(Grants(held[..which])), Flatten(Grants(held[which + 1..])));
          held' := Removed(held, which);
        }
      case _ =>
        var results := LockBatch(locks, op);
        GrantsSnoc(held, Batch(op.reqs, results));
        held' := held + [Batch(op.reqs, results)];
    }
  }

  /**
   Any run of batches that are locked and unlocked in any order: every answer is the one that a table built
   from scratch for the transactions still holding locks would give, the table is always that table, and
   it is empty again when every batch has been unlocked.
   */
  method RunBatches(locks: AccountLocks, ops: seq<BatchOp>) returns (held: seq<Batch>)
    requires locks.Valid() && locks.outstanding == []
    requires forall op :: op in ops && !op.UnlockOp? ==> AllDistinct(op.reqs)
    modifies locks
    ensures held == HeldAfter(ops) && locks.Valid() && locks.outstanding == Flatten(Grants(held))
    ensures locks.View() == TableOf(Flatten(Grants(held)))
    ensures held == [] ==> locks.View() == Table({}, map[])
  {
    held := [];
    for i := 0 to |ops|
      invariant held == HeldAfter(ops[..i]) && locks.Valid() && locks.outstanding == Flatten(Grants(held))
    {
      assert ops[..i + 1][..i] == ops[..i] && ops[i] in ops;
      held := PerformBatch(locks, ops[i], held);
    }
    assert ops[..|ops|] == ops;
    TableOfRepresents(locks.outstanding);
    RepresentsUnique(locks.View(), TableOf(locks.outstanding), locks.outstanding);
  }

  /** Which keys a table holds after locking one more transaction. */
  lemma {:induction false} LockAllKeys(t: Table, tx: Tx, k: Pubkey)
    ensures k in LockAll(t, tx).write <==> k in t.write || exists i :: 0 <= i < |tx| && tx[i] == Lock(k, true)
    ensures ReadLocked(LockAll(t, tx), k) <==> ReadLocked(t, k) || exists i :: 0 <= i < |tx| && tx[i] == Lock(k, false)
  {
    if tx != [] {
      var n := |tx| - 1;
      LockAllKeys(t, tx[..n], k);
      assert forall i :: 0 <= i < n ==> tx[..n][i] == tx[i];
    }
  }

  predicate ReadLocked(t: Table, k: Pubkey) {
    k in t.read && t.read[k] > 0
  }

  /** After locking `a`, one can lock exactly what one could lock before and does not conflict with `a`. */
  lemma CanLockAfter(t: Table, a: Tx, b: Tx, moreReads: set<Pubkey>, moreWrites: set<Pubkey>)
    ensures CanLock(LockAll(t, a), b, moreReads, moreWrites) <==>
              CanLock(t, b, moreReads, moreWrites) && !Conflict(a, b)
  {
    forall j | 0 <= j < |b|
      ensures CanLockOne(LockAll(t, a), b[j], moreReads, moreWrites)
         <==> CanLockOne(t, b[j], moreReads, moreWrites)
              && !exists i :: 0 <= i < |a| && a[i].key == b[j].key && (a[i].writable || b[j].writable)
    {
      LockAllKeys(t, a, b[j].key);
      forall i | 0 <= i < |a| && a[i].key == b[j].key
        ensures a[i] == Lock(b[j].key, true) || a[i] == Lock(b[j].key, false)
      {
      }
    }
  }

  /**
   Which requests of a batch are granted: exactly those that neither conflict with the table as it was
   nor with an earlier granted request of the batch.
   */
  lemma {:induction false} GrantedExactly(t: Table, reqs: seq<Request>, n: nat, tx: Tx, moreReads: set<Pubkey>,
                                          moreWrites: set<Pubkey>)
    requires n <= |reqs|
    ensures CanLock(TableAfter(t, reqs[..n], moreReads, moreWrites), tx, moreReads, moreWrites)
       <==> CanLock(t, tx, moreReads, moreWrites)
            && forall j :: 0 <= j < n ==>
                 ResultOf(TableAfter(t, reqs[..j], moreReads, moreWrites), reqs[j], moreReads, moreWrites).Ok? ==>
                   !Conflict(reqs[j].value, tx)
  {
    if n > 0 {
      assert reqs[..n][..n - 1] == reqs[..n - 1] && reqs[..n][n - 1] == reqs[n - 1];
      GrantedExactly(t, reqs, n - 1, tx, moreReads, moreWrites);
      var before := TableAfter(t, reqs[..n - 1], moreReads, moreWrites);
      if ResultOf(before, reqs[n - 1], moreReads, moreWrites).Ok? {
        CanLockAfter(before, reqs[n - 1].value, tx, moreReads, moreWrites);
      }
    }
  }

  /** The requests that `lock_accounts_with_results` makes of transactions and their earlier results. */
  function Requests(txs: seq<Tx>, prior: seq<Result<()>>, limit: nat): (r: seq<Request>)
    requires |txs| == |prior|
    ensures |r| == |txs|
  {
    seq(|txs|, i requires 0 <= i < |txs| => if prior[i].Err? then Err(prior[i].error) else Validated(txs[i], limit))
  }

  method ValidateAll(txs: seq<Tx>, prior: seq<Result<()>>, limit: nat, scratch: KeySet) returns (reqs: seq<Request>)
    requires |txs| == |prior| && scratch.keys == {}
    modifies scratch
    ensures scratch.keys == {} && reqs == Requests(txs, prior, limit)
  {
    reqs := [];
    for i := 0 to |txs|
      invariant scratch.keys == {}
      invariant |reqs| == i && forall j :: 0 <= j < i ==> reqs[j] == Requests(txs, prior, limit)[j]
    {
      var req: Request;
      match prior[i] {
        case Err(e) => req := Err(e);
        case Ok(_) => req := ValidateAccountLocks(txs[i], limit, scratch);
      }
      reqs := reqs + [req];
    }
  }

  /** `lock_accounts_with_results`, and `lock_accounts` when all earlier results are Ok. */
  method LockAccountsWithResults(locks: AccountLocks, scratch: KeySet, txs: seq<Tx>, prior: seq<Result<()>>, limit: nat,
                                 moreReads: set<Pubkey>, moreWrites: set<Pubkey>)
    returns (results: seq<Result<()>>)
    requires locks.Valid() && |txs| == |prior| && scratch.keys == {}
    modifies locks, scratch
    ensures scratch.keys == {}
    ensures locks.Valid() && |results| == |txs|
    ensures locks.outstanding == old(locks.outstanding) + Granted(Requests(txs, prior, limit), results)
    ensures Answered(old(locks.View()), Requests(txs, prior, limit), results, moreReads, moreWrites)
  {
    var reqs := ValidateAll(txs, prior, limit, scratch);
    results := LockAccountsInner(locks, reqs, moreReads, moreWrites);
  }
}
