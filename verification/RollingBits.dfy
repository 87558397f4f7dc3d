/**
 `RollingBitField`: a set of slots kept as a window of bits that moves upward, with a hash set
 `excess` for the few items below the window. It is meant to behave as a plain set of slots.
 */
module RollingBits {
  import opened Basics

  /** Some item of `items` has address `a`. */
  ghost predicate Marked(items: set<nat>, width: nat, a: nat)
    requires width > 0
  {
    exists k :: k in items && k % width == a
  }

  /** All items lie in a window no wider than the bit field. */
  ghost predicate InWindow(items: set<nat>, lo: nat, hi: nat) {
    forall k :: k in items ==> lo <= k < hi
  }

  lemma ModDistinct(a: nat, b: nat, width: nat)
    requires a < b < a + width
    ensures a % width != b % width
  {
    var qa, qb := a / width, b / width;
    assert a == qa * width + a % width && b == qb * width + b % width;
    assert qb - qa >= 1 ==> (qb - qa) * width >= width;
    assert qb - qa <= 0 ==> (qb - qa) * width <= 0;
  }

  /** Inside the window an address stands for one key only. */
  lemma AddressIsKey(items: set<nat>, width: nat, lo: nat, hi: nat, key: nat)
    requires InWindow(items, lo, hi) && lo <= key < hi <= lo + width && width > 0
    ensures Marked(items, width, key % width) <==> key in items
  {
    if k :| k in items && k % width == key % width {
      if k < key { ModDistinct(k, key, width); }
      if key < k { ModDistinct(key, k, width); }
    }
  }

  lemma MarkAdded(items: set<nat>, width: nat, key: nat)
    requires width > 0
    ensures forall a: nat :: Marked(items + {key}, width, a) <==> Marked(items, width, a) || a == key % width
  {
    var more := items + {key};
    assert key in more;
    forall a: nat | Marked(items, width, a)
      ensures Marked(more, width, a)
    {
      var k :| k in items && k % width == a;
      assert k in more;
    }
  }

  lemma MarkRemoved(items: set<nat>, width: nat, lo: nat, hi: nat, key: nat)
    requires InWindow(items, lo, hi) && hi <= lo + width && width > 0 && key in items
    ensures forall a: nat :: Marked(items - {key}, width, a) <==> Marked(items, width, a) && a != key % width
  {
    var fewer := items - {key};
    AddressIsKey(fewer, width, lo, hi, key);
    forall a: nat | Marked(items, width, a) && a != key % width
      ensures Marked(fewer, width, a)
    {
      var k :| k in items && k % width == a;
      assert k in fewer;
    }
  }

  lemma AddToUnion(a: set<nat>, b: set<nat>, key: nat)
    ensures a + (b + {key}) == a + b + {key}
  {
  }

  class RollingBitField {
    const maxWidth: nat
    var min: nat
    var maxExclusive: nat
    const bits: array<bool>
    var count: nat
    var excess: set<nat>
    /** The keys held in the bits. */
    ghost var items: set<nat>

    /** The bits, the window and the count agree with `items`. */
    ghost predicate Shape()
      reads this, bits
    {
      && BitsMatch()
      && min <= maxExclusive <= min + maxWidth
      && InWindow(items, min, maxExclusive)
      && count == |excess| + |items|
    }

    ghost predicate BitsMatch()
      reads this, bits
    {
      && maxWidth > 0 && bits.Length == maxWidth
      && forall a: nat :: a < maxWidth ==> (bits[a] <==> Marked(items, maxWidth, a))
    }

    /** Moreover `min` is the least item of the window and everything in `excess` is below it. */
    ghost predicate Valid()
      reads this, bits
    {
      && Shape()
      && (if items == {} then min == maxExclusive else min in items)
      && (forall e :: e in excess ==> e < min && e + 1 < maxExclusive)
    }

    /** The set of slots it stands for. */
    ghost function Contents(): set<nat>
      reads this
    {
      excess + items
    }

    constructor (width: nat)
      requires width > 0
      ensures Valid() && Contents() == {} && maxExclusive == 0 && fresh(bits) && maxWidth == width
    {
      maxWidth := width;
      bits := new bool[width](_ => false);
      min, maxExclusive, count, excess, items := 0, 0, 0, {}, {};
    }

    function MaxInclusive(): nat
      reads this
    {
      if maxExclusive == 0 then 0 else maxExclusive - 1
    }

    predicate AllItemsInExcess()
      reads this
    {
      |excess| == count
    }

    predicate ContainsAssumeInRange(key: nat)
      requires maxWidth > 0 && bits.Length == maxWidth
      reads this, bits
    {
      bits[key % maxWidth]
    }

    predicate Contains(key: nat)
      requires maxWidth > 0 && bits.Length == maxWidth
      reads this, bits
    {
      if key < maxExclusive then
        if key >= min then ContainsAssumeInRange(key) else key in excess
      else false
    }

    lemma BitsAreItems(key: nat)
      requires Shape() && min <= key < maxExclusive
      ensures bits[key % maxWidth] <==> key in items
    {
      AddressIsKey(items, maxWidth, min, maxExclusive, key);
    }

    /** `contains` answers membership. */
    lemma ContainsIsMembership(key: nat)
      requires Valid()
      ensures Contains(key) <==> key in Contents()
    {
      if min <= key < maxExclusive {
        BitsAreItems(key);
      }
    }

    /** After `key` left the bits, find the new least item; an empty window collapses to its end. */
    method Purge(key: nat)
      requires Shape() && min < maxExclusive && (key == min <==> min !in items)
      modifies this`min
      ensures Shape() && (if items == {} then min == maxExclusive else min in items)
      ensures old(min) <= min && (old(min) !in items ==> old(min) < min)
    {
      if count > 0 && !AllItemsInExcess() {
        assert items != {};
        if key == min {
          for k := min + 1 to maxExclusive
            invariant min == old(min) && Shape()
            invariant forall j :: j in items ==> k <= j
          {
            BitsAreItems(k);
            if ContainsAssumeInRange(k) {
              min := k;
              return;
            }
          }
          assert false;
        }
      } else {
        assert items == {};
        min := maxExclusive;
      }
    }

    /** Move the least item of the window to `excess`. */
    method MoveLeast()
      requires Shape() && min in items && min !in excess
      modifies this, bits
      ensures Shape() && (if items == {} then min == maxExclusive else min in items)
      ensures items == old(items) - {old(min)}
      ensures excess == old(excess) + {old(min)} && maxExclusive == old(maxExclusive)
      ensures old(min) < min
    {
      var key := min;
      excess := excess + {min};
      MarkRemoved(items, maxWidth, min, maxExclusive, key);
      bits[key % maxWidth] := false;
      items := items - {key};
      Purge(key);
    }

    /** Move the least items to `excess` until `newMax` fits the window, or nothing is left in it. */
    method MakeRoom(newMax: nat) returns (bitsEmpty: bool)
      requires Valid() && items != {} && maxExclusive < newMax
      modifies this, bits
      ensures Shape() && Contents() == old(Contents()) && maxExclusive == old(maxExclusive)
      ensures bitsEmpty <==> items == {}
      ensures if items == {} then min == maxExclusive else min in items && newMax <= min + maxWidth
      ensures forall e :: e in excess ==> e < min && e + 1 < newMax
    {
      bitsEmpty := false;
      while newMax - min > maxWidth
        invariant Shape() && min in items && min < maxExclusive
        invariant Contents() == old(Contents()) && maxExclusive == old(maxExclusive)
        invariant forall e :: e in excess ==> e < min && e + 1 < newMax
        invariant !bitsEmpty
        decreases maxExclusive - min
      {
        MoveLeast();
        if AllItemsInExcess() {
          bitsEmpty := true;
          break;
        }
      }
    }

    method Mark(key: nat)
      requires BitsMatch()
      modifies this`items, bits
      ensures BitsMatch() && items == old(items) + {key}
    {
      MarkAdded(items, maxWidth, key);
      bits[key % maxWidth] := true;
      items := items + {key};
    }

    /** Set the bit of `key` and adjust the window. */
    method SetBit(key: nat, bitsEmpty: bool)
      requires Shape() && (bitsEmpty <==> items == {})
      requires if items == {} then min == maxExclusive else min in items && min <= key < min + maxWidth
      requires forall e :: e in excess ==> e + 1 < maxExclusive || e < key
      modifies this, bits
      ensures Shape() && min in items && items == old(items) + {key} && excess == old(excess)
      ensures min == (if old(items) == {} then key else old(min))
      ensures maxExclusive == (if old(items) == {} || key >= old(maxExclusive) then key + 1 else old(maxExclusive))
    {
      SetBitAddress(key, bitsEmpty);
      var value := bits[key % maxWidth];
      if !value {
        Mark(key);
        if bitsEmpty {
          min := key;
          maxExclusive := key + 1;
        } else if maxExclusive < key + 1 {
          maxExclusive := key + 1;
        }
        count := count + 1;
      } else {
        assert items + {key} == items;
      }
    }

    /** The bit of `key` is already set exactly when `key` is in the window's items. */
    lemma SetBitAddress(key: nat, bitsEmpty: bool)
      requires Shape() && (bitsEmpty <==> items == {})
      requires items != {} ==> min <= key < min + maxWidth
      ensures bits[key % maxWidth] <==> key in items
    {
      if !bitsEmpty {
        AddressIsKey(items, maxWidth, min, if key < maxExclusive then maxExclusive else key + 1, key);
      }
    }

    /** The insertions for which the structure stays a set. */
    ghost predicate CanInsert(key: nat)
      reads this
    {
      items == {} ==> forall e :: e in excess ==> e < key
    }

    /**
     `insert` adds one slot, exactly when the window holds something or `key` is above everything in
     `excess`. Otherwise the window restarts below or at an item of `excess`, which is then either no
     longer found or counted twice. Slots inserted in order, as roots are, always satisfy this, and the
     upper bound then never decreases.
     */
    method Insert(key: nat)
      requires Valid() && key < U64_MAX
      modifies this, bits
      ensures Shape() && (Valid() <==> old(CanInsert(key)))
      ensures old(CanInsert(key)) ==> Contents() == old(Contents()) + {key}
      ensures !old(CanInsert(key)) ==> maxExclusive == key + 1
      ensures !old(CanInsert(key)) ==>
                || (exists e :: e in old(Contents()) && !Contains(e))
                || count != |old(Contents()) + {key}|
      ensures key >= old(MaxInclusive()) ==>
                old(CanInsert(key)) && maxExclusive == (if key >= old(maxExclusive) then key + 1 else old(maxExclusive))
    {
      var bitsEmpty := count == 0 || AllItemsInExcess();
      assert bitsEmpty <==> items == {};
      if bitsEmpty {
        ghost var before := Contents();
        SetBit(key, true);
        assert Contents() == before + {key};
        RestartFails(key);
      } else if key < min {
        InsertIntoExcess(key);
      } else {
        InsertIntoWindow(key);
      }
    }

    /** Restarting the window at `key` is right exactly when `excess` lies below it. */
    lemma RestartFails(key: nat)
      requires Shape() && items == {key} && min == key && maxExclusive == key + 1
      ensures Valid() <==> forall e :: e in excess ==> e < key
      ensures !Valid() ==> (exists e :: e in excess && !Contains(e)) || count != |excess + {key}|
    {
      if e :| e in excess && key <= e {
        if e == key {
          assert excess + {key} == excess;
        } else {
          assert !Contains(e);
        }
      }
    }

    method InsertIntoExcess(key: nat)
      requires Valid() && items != {} && key < min
      modifies this
      ensures Valid() && Contents() == old(Contents()) + {key} && maxExclusive == old(maxExclusive)
    {
      if key !in excess {
        count := count + 1;
      } else {
        assert excess + {key} == excess;
      }
      excess := excess + {key};
    }

    method InsertIntoWindow(key: nat)
      requires Valid() && items != {} && min <= key
      modifies this, bits
      ensures Valid() && Contents() == old(Contents()) + {key}
      ensures maxExclusive == (if key >= old(maxExclusive) then key + 1 else old(maxExclusive))
    {
      var bitsEmpty := false;
      if key >= maxExclusive {
        bitsEmpty := MakeRoom(key + 1);
      }
      AddToUnion(excess, items, key);
      SetBit(key, bitsEmpty);
    }

    /** `remove`: take one slot out of the set; the upper bound stays. */
    method Remove(key: nat) returns (removed: bool)
      requires Valid()
      modifies this, bits
      ensures Valid() && Contents() == old(Contents()) - {key} && maxExclusive == old(maxExclusive)
      ensures removed <==> key in old(Contents())
    {
      if key >= min {
        if key < maxExclusive {
          BitsAreItems(key);
          removed := bits[key % maxWidth];
          if removed {
            RemoveFromWindow(key);
          }
        } else {
          removed := false;
        }
      } else {
        removed := RemoveFromExcess(key);
      }
    }

    method RemoveFromExcess(key: nat) returns (removed: bool)
      requires Valid() && key < min
      modifies this
      ensures Valid() && items == old(items) && excess == old(excess) - {key} && maxExclusive == old(maxExclusive)
      ensures removed <==> key in old(excess)
    {
      removed := key in excess;
      excess := excess - {key};
      if removed {
        count := count - 1;
      }
    }

    method RemoveFromWindow(key: nat)
      requires Valid() && key in items
      modifies this, bits
      ensures Valid() && items == old(items) - {key} && excess == old(excess) && maxExclusive == old(maxExclusive)
    {
      count := count - 1;
      MarkRemoved(items, maxWidth, min, maxExclusive, key);
      bits[key % maxWidth] := false;
      items := items - {key};
      Purge(key);
    }

    /** `min`: the least slot of the set. */
    method Min() returns (r: Option<nat>)
      requires Valid()
      ensures r.None? <==> Contents() == {}
      ensures r.Some? ==> r.value in Contents() && forall x :: x in Contents() ==> r.value <= x
    {
      if count == 0 {
        assert |excess| == 0 && |items| == 0;
        return None;
      }
      if excess == {} {
        assert items != {};
        return Some(min);
      }
      var excessMin := LeastOf(excess);
      if AllItemsInExcess() {
        assert items == {};
        return Some(excessMin);
      }
      assert items != {};
      return Some(if min < excessMin then min else excessMin);
    }

    /** The answer that `get_prior` is documented to give: the highest item below `bound`. */
    ghost predicate IsPrior(bound: nat, r: Option<nat>)
      reads this
    {
      match r
      case Some(s) => s in Contents() && s < bound && forall x :: x in Contents() && x < bound ==> x <= s
      case None => forall x :: x in Contents() ==> x >= bound
    }

    /**
     `get_prior` scans down from `bound - 1` and stops before it looks at slot 0. It gives the highest item
     below `bound` except that it misses slot 0 when 0 is the only item below a `bound` above 1, and
     reports slot 0 when asked for an item below 0.
     */
    method GetPrior(bound: nat) returns (r: Option<nat>)
      requires Valid()
      ensures IsPrior(bound, r) <==>
                !(0 in Contents() && (bound == 0 || (bound > 1 && forall x :: x in Contents() && x < bound ==> x == 0)))
      ensures !IsPrior(bound, r) ==> r == if bound == 0 then Some(0) else None
    {
      var slot := if bound == 0 then 0 else bound - 1;
      var least := Min();
      if least.None? {
        return None;
      }
      ghost var top := slot;
      while true
        invariant slot <= top
        invariant forall x :: x in Contents() && slot < x ==> top < x
        invariant slot == top || 0 < slot
        invariant slot == top || least.value <= slot
        decreases slot
      {
        ContainsIsMembership(slot);
        if Contains(slot) {
          return Some(slot);
        }
        var below := if slot == 0 then 0 else slot - 1;
        if below == 0 || below < least.value {
          return None;
        }
        slot := below;
      }
    }
  }

  /** A slot that was inserted and never removed, and is no longer found. */
  method SlotLost() returns (found: bool)
    ensures !found
  {
    var field := new RollingBitField(4);
    field.Insert(10);
    field.Insert(100);
    var removed := field.Remove(100);
    OnlyExcessLeft(field);
    field.Insert(5);
    found := field.Contains(10);
  }

  /** A field whose only item is slot 0: asked for the highest item below 2 it finds none, below 0 it finds slot 0. */
  method PriorMissed() returns (belowTwo: Option<nat>, belowZero: Option<nat>)
    ensures belowTwo == None && belowZero == Some(0)
  {
    var field := new RollingBitField(4);
    field.Insert(0);
    assert field.Contents() == {0};
    belowTwo := field.GetPrior(2);
    belowZero := field.GetPrior(0);
  }

  lemma OnlyExcessLeft(field: RollingBitField)
    requires field.Valid() && field.Contents() == {10} && field.maxExclusive == 101 && field.maxWidth == 4
    ensures !field.CanInsert(5)
  {
    assert 10 in field.Contents();
    assert field.items <= field.Contents();
  }
}
