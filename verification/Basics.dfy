/** Types and one search routine shared by the models of the accounts database. */
module Basics {

  datatype Option<+T> = None | Some(value: T) {
    function GetOr(default: T): T {
      if Some? then value else default
    }
  }

  const U64_MAX: nat := 0xFFFF_FFFF_FFFF_FFFF

  type U64 = x: nat | x <= U64_MAX

  /** The number of 32-byte public keys. */
  const KEY_SPACE: nat := 0x1_0000000000000000_0000000000000000_0000000000000000_0000000000000000

  /** A 32-byte public key, read as a big-endian number: byte-wise order is numeric order. */
  type Pubkey = k: nat | k < KEY_SPACE

  /** Which bin a key belongs to. */
  type Binner = Pubkey -> nat

  /** Bins are in key order. */
  ghost predicate Monotone(bin: Binner) {
    forall a, b :: a <= b ==> bin(a) <= bin(b)
  }

  /** A hash value; nothing below depends on how it is represented. */
  type Hash = nat

  type Slot = nat

  /** The outcome of `slice::binary_search_by`. */
  datatype Search = Found(index: nat) | Missing(insertAt: nat)

  /** `ord` is negative, zero or positive for elements before, at or after the target. */
  ghost predicate OrderedBy<T>(s: seq<T>, ord: T -> int) {
    forall i, j :: 0 <= i < j < |s| ==> ord(s[i]) <= ord(s[j])
  }

  /** `slice::binary_search_by` of the Rust standard library. */
  method BinarySearchBy<T>(s: seq<T>, ord: T -> int) returns (r: Search)
    requires OrderedBy(s, ord)
    ensures r.Found? ==> r.index < |s| && ord(s[r.index]) == 0
    ensures r.Missing? ==>
              && r.insertAt <= |s|
              && (forall i :: 0 <= i < r.insertAt ==> ord(s[i]) < 0)
              && (forall i :: r.insertAt <= i < |s| ==> 0 < ord(s[i]))
  {
    var lo, hi := 0, |s|;
    while lo < hi
      invariant 0 <= lo <= hi <= |s|
      invariant forall i :: 0 <= i < lo ==> ord(s[i]) < 0
      invariant forall i :: hi <= i < |s| ==> 0 < ord(s[i])
    {
      var mid := (lo + hi) / 2;
      if ord(s[mid]) < 0 {
        lo := mid + 1;
      } else if 0 < ord(s[mid]) {
        hi := mid;
      } else {
        return Found(mid);
      }
    }
    return Missing(lo);
  }

  /** Multiples of `d` are ordered as their factors are. */
  lemma FactorBelow(a: nat, b: nat, d: nat)
    requires a * d < b * d
    ensures a < b
  {
  }

  function Min(a: nat, b: nat): nat {
    if a <= b then a else b
  }

  lemma MulMonotone(a: nat, b: nat, c: nat)
    requires a <= b
    ensures a * c <= b * c
  {
  }

  lemma ConcatAssociative<T>(a: seq<T>, b: seq<T>, c: seq<T>)
    ensures a + (b + c) == a + b + c
  {
  }

  lemma MultisetCons<T>(x: T, s: seq<T>)
    ensures multiset([x] + s) == multiset{x} + multiset(s)
  {
  }

  lemma MultisetSnoc<T>(s: seq<T>, x: T)
    ensures multiset(s + [x]) == multiset(s) + multiset{x}
  {
  }

  lemma QuotientBounds(x: nat, d: nat)
    requires d >= 1
    ensures 0 <= x / d && x / d * d <= x < x / d * d + d
  {
  }

  lemma {:induction false} HasLeast(s: set<nat>) returns (m: nat)
    requires s != {}
    ensures m in s && forall x :: x in s ==> m <= x
    decreases |s|
  {
    var x :| x in s;
    if s == {x} {
      m := x;
    } else {
      var y := HasLeast(s - {x});
      assert forall z :: z in s ==> z == x || z in s - {x};
      m := if x < y then x else y;
    }
  }

  /** The least element of a non-empty set. */
  function LeastOf(s: set<nat>): (m: nat)
    requires s != {}
    ensures m in s && forall x :: x in s ==> m <= x
  {
    assert exists m :: m in s && forall x :: x in s ==> m <= x by {
      var m := HasLeast(s);
    }
    var m :| m in s && forall x :: x in s ==> m <= x;
    m
  }

  ghost function MinKey(s: set<Pubkey>): (k: Pubkey)
    requires s != {}
    ensures k in s && forall x :: x in s ==> k <= x
  {
    LeastOf(s)
  }

  /** -1, 0 or 1, as `Ord::cmp`. */
  function Cmp(a: int, b: int): (r: int) {
    if a < b then -1 else if a == b then 0 else 1
  }

  /** All elements of a list of lists, in order. */
  function Flatten<T>(ss: seq<seq<T>>): seq<T> {
    if ss == [] then [] else ss[0] + Flatten(ss[1..])
  }

  lemma {:induction false} FlattenAppend<T>(a: seq<seq<T>>, b: seq<seq<T>>)
    ensures Flatten(a + b) == Flatten(a) + Flatten(b)
  {
    if a == [] {
      assert a + b == b;
    } else {
      assert (a + b)[1..] == a[1..] + b;
      FlattenAppend(a[1..], b);
    }
  }

  lemma FlattenSnoc<T>(a: seq<seq<T>>, x: seq<T>)
    ensures Flatten(a + [x]) == Flatten(a) + x
  {
    FlattenAppend(a, [x]);
    assert [x][1..] == [];
  }
}
