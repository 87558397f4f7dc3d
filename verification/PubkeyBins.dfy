/** `PubkeyBinCalculator24`: the bin of a key is given by the leading bits of its first three bytes. */
module PubkeyBins {
  import opened Basics

  const MAX_BITS: nat := 24

  function Pow2(n: nat): (r: nat)
    ensures r >= 1
  {
    if n == 0 then 1 else 2 * Pow2(n - 1)
  }

  /** `log_2`: the position of the highest set bit. */
  function Log2(x: nat): (r: nat)
    requires x > 0
    ensures Pow2(r) <= x < 2 * Pow2(r)
  {
    if x == 1 then 0 else 1 + Log2(x / 2)
  }

  /** What the constructor asserts of its argument. */
  ghost predicate ValidBinCount(bins: nat) {
    exists b: nat :: b <= MAX_BITS && bins == Pow2(b)
  }

  /** `shift_bits`, computed by the constructor. */
  function ShiftBits(bins: nat): (r: nat)
    requires ValidBinCount(bins)
    ensures r <= MAX_BITS && bins * Pow2(r) == Pow2(MAX_BITS)
  {
    var b: nat :| b <= MAX_BITS && bins == Pow2(b);
    Log2Exact(bins, b);
    Pow2Sum(Log2(bins), MAX_BITS - Log2(bins));
    MAX_BITS - Log2(bins)
  }

  lemma {:induction false} Log2Exact(x: nat, b: nat)
    requires x == Pow2(b)
    ensures Log2(x) == b
    decreases b
  {
    if b > 0 {
      assert x / 2 == Pow2(b - 1);
      Log2Exact(x / 2, b - 1);
    }
  }

  lemma {:induction false} Pow2Sum(a: nat, b: nat)
    ensures Pow2(a) * Pow2(b) == Pow2(a + b)
    decreases a
  {
    if a > 0 {
      Pow2Sum(a - 1, b);
      assert Pow2(a) * Pow2(b) == 2 * (Pow2(a - 1) * Pow2(b));
    }
  }

  /** The first three bytes of a key, as a number. */
  function LeadingBytes(key: Pubkey): (r: nat)
    ensures r < 0x100_0000
  {
    key / 0x1_0000000000_000000000000_000000000000_000000000000_000000000000
  }

  lemma Doubled(r: nat, half: nat)
    ensures r * (2 * half) == 2 * (r * half)
  {
  }

  /** `x >> shift` on unsigned numbers. */
  function ShiftRight(x: nat, shift: nat): (r: nat)
    ensures r * Pow2(shift) <= x < (r + 1) * Pow2(shift)
  {
    if shift == 0 then x
    else
      var r := ShiftRight(x / 2, shift - 1);
      Doubled(r, Pow2(shift - 1));
      Doubled(r + 1, Pow2(shift - 1));
      r
  }

  function BinFromPubkey(bins: nat, key: Pubkey): (bin: nat)
    requires ValidBinCount(bins)
  {
    ShiftRight(LeadingBytes(key), ShiftBits(bins))
  }

  lemma MaxBits()
    ensures Pow2(MAX_BITS) == 0x100_0000
  {
    assert Pow2(4) == 16;
    Pow2Sum(4, 4);
    Pow2Sum(8, 8);
    Pow2Sum(16, 8);
  }

  /** Every key has a bin below `bins`. */
  lemma BinInRange(bins: nat, key: Pubkey)
    requires ValidBinCount(bins)
    ensures BinFromPubkey(bins, key) < bins
  {
    MaxBits();
    FactorBelow(BinFromPubkey(bins, key), bins, Pow2(ShiftBits(bins)));
  }

  /** Bins are in key order. */
  lemma BinMonotone(bins: nat, a: Pubkey, b: Pubkey)
    requires ValidBinCount(bins) && a <= b
    ensures BinFromPubkey(bins, a) <= BinFromPubkey(bins, b)
  {
    FactorBelow(BinFromPubkey(bins, a), BinFromPubkey(bins, b) + 1, Pow2(ShiftBits(bins)));
  }

  lemma ValidBins(bins: nat, b: nat)
    requires b <= MAX_BITS && bins == Pow2(b)
    ensures ValidBinCount(bins)
  {
  }
}
