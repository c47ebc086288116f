/** node_is_split: one bit per tree node, eight to a byte. */
module SplitBits {
  import opened BuddyTree

  /** 1 << k */
  function Mask(k: nat): bv8
    requires k < 8
  {
    match k
    case 0 => 1
    case 1 => 2
    case 2 => 4
    case 3 => 8
    case 4 => 16
    case 5 => 32
    case 6 => 64
    case _ => 128
  }

  predicate BitOf(byte: bv8, k: nat)
    requires k < 8
  {
    byte & Mask(k) != 0
  }

  /** Testing with a mask is the same as shifting the bit down and masking with 1. */
  lemma MaskIsShift(x: bv8)
    ensures BitOf(x, 0) == (x & 1 == 1)
    ensures BitOf(x, 1) == ((x >> 1) & 1 == 1)
    ensures BitOf(x, 2) == ((x >> 2) & 1 == 1)
    ensures BitOf(x, 3) == ((x >> 3) & 1 == 1)
    ensures BitOf(x, 4) == ((x >> 4) & 1 == 1)
    ensures BitOf(x, 5) == ((x >> 5) & 1 == 1)
    ensures BitOf(x, 6) == ((x >> 6) & 1 == 1)
    ensures BitOf(x, 7) == ((x >> 7) & 1 == 1)
  {
  }

  /** (byte >> k) & 1, as the source writes it. */
  function ShiftedBit(x: bv8, k: nat): bool
    requires k < 8
  {
    (if k == 0 then x else if k == 1 then x >> 1 else if k == 2 then x >> 2 else if k == 3 then x >> 3
     else if k == 4 then x >> 4 else if k == 5 then x >> 5 else if k == 6 then x >> 6 else x >> 7) & 1 == 1
  }

  lemma ShiftIsMask(x: bv8, k: nat)
    requires k < 8
    ensures ShiftedBit(x, k) == BitOf(x, k)
  {
    hide BitOf;
    MaskIsShift(x);
  }

  lemma FlipOne(x: bv8, k: nat, j: nat)
    requires k < 8 && j < 8
    ensures BitOf(x ^ Mask(k), j) == (BitOf(x, j) != (j == k))
  {
    if j == k { FlipSame(x, k); } else { FlipOther(x, k, j); }
  }

  lemma FlipSame(x: bv8, k: nat)
    requires k < 8
    ensures BitOf(x ^ Mask(k), k) == !BitOf(x, k)
  {
    OneBit(x, k);
    XorSame(x, Mask(k));
  }

  lemma FlipOther(x: bv8, k: nat, j: nat)
    requires k < 8 && j < 8 && k != j
    ensures BitOf(x ^ Mask(k), j) == BitOf(x, j)
  {
    MasksDisjoint(k, j);
    XorOther(x, Mask(k), Mask(j));
  }

  lemma XorSame(x: bv8, m: bv8)
    requires m != 0 && (x & m == 0 || x & m == m)
    ensures ((x ^ m) & m != 0) == (x & m == 0)
  {
  }

  lemma XorOther(x: bv8, p: bv8, q: bv8)
    requires p & q == 0
    ensures (x ^ p) & q == x & q
  {
  }

  lemma MasksDisjoint(k: nat, j: nat)
    requires k < 8 && j < 8 && k != j
    ensures Mask(k) & Mask(j) == 0
  {
  }

  lemma OneBit(x: bv8, k: nat)
    requires k < 8
    ensures x & Mask(k) == 0 || x & Mask(k) == Mask(k)
    ensures Mask(k) != 0
  {
  }

  class BitArray {
    const bytes: array<bv8>

    ghost predicate Bit(n: nat)
      reads bytes
    {
      n < 8 * bytes.Length && BitOf(bytes[n / 8], n % 8)
    }

    /** The nodes whose bit is set. */
    ghost function On(): (s: set<nat>)
      reads bytes
      ensures forall n: nat :: n in s <==> Bit(n)
    {
      set n: nat | n < 8 * bytes.Length && Bit(n)
    }

    constructor (length: nat)
      ensures fresh(bytes) && bytes.Length == length && On() == {}
    {
      bytes := new bv8[length](_ => 0);
      new;
      assert forall n: nat :: !Bit(n) by {
        forall n: nat ensures !Bit(n) {
          if n < 8 * bytes.Length { assert bytes[n / 8] == 0; NoBits(n % 8); }
        }
      }
    }

    /** parent_is_split */
    method ParentIsSplit(index: nat) returns (r: bool)
      requires index > 0 && Parent(index) < 8 * bytes.Length
      ensures r == (Parent(index) in On())
    {
      var i := (index - 1) / 2;
      r := ShiftedBit(bytes[i / 8], i % 8);
      ShiftIsMask(bytes[i / 8], i % 8);
    }

    /** flip_parent_is_split */
    method FlipParentIsSplit(index: nat)
      requires index > 0 && Parent(index) < 8 * bytes.Length
      modifies bytes
      ensures On() == if Parent(index) in old(On()) then old(On()) - {Parent(index)} else old(On()) + {Parent(index)}
    {
      var i := (index - 1) / 2;
      bytes[i / 8] := bytes[i / 8] ^ Mask(i % 8);
      forall n: nat ensures Bit(n) == (old(Bit(n)) != (n == i)) {
        if n < 8 * bytes.Length && n / 8 == i / 8 {
          FlipOne(old(bytes[i / 8]), i % 8, n % 8);
          assert n == 8 * (n / 8) + n % 8 && i == 8 * (i / 8) + i % 8;
        }
      }
    }
  }

  lemma NoBits(k: nat)
    requires k < 8
    ensures !BitOf(0, k)
  {
  }
}
