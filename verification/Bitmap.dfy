/** The packed bitmap of kernel/src/mm/bitmap.c: one bit per page, eight bits per byte. */
module Bitmaps {

  /** `1u << k` for a bit position inside a byte, as a table; MaskIsShift ties the two. */
  function Mask(k: nat): bv8
    requires k < 8
  {
    if k == 0 then 1 else if k == 1 then 2 else if k == 2 then 4 else if k == 3 then 8
    else if k == 4 then 16 else if k == 5 then 32 else if k == 6 then 64 else 128
  }

  lemma MaskIsShift(k: nat)
    requires k < 8
    ensures Mask(k) == (1 as bv8) << k
  {
    assert k == 0 || k == 1 || k == 2 || k == 3 || k == 4 || k == 5 || k == 6 || k == 7;
  }

  predicate BitOf(b: bv8, k: nat)
    requires k < 8
  {
    b & Mask(k) != 0
  }

  /** Setting bit `j` of a byte affects bit `k` exactly when `j == k`. */
  lemma SetSelects(b: bv8, j: nat, k: nat)
    requires j < 8 && k < 8
    ensures BitOf(b | Mask(j), k) <==> (j == k || BitOf(b, k))
  {
  }

  /** Clearing bit `j` of a byte affects bit `k` exactly when `j == k`. */
  lemma ClearSelects(b: bv8, j: nat, k: nat)
    requires j < 8 && k < 8
    ensures BitOf(b & !Mask(j), k) <==> (j != k && BitOf(b, k))
  {
  }

  /** Two bits share a byte and a position exactly when they are the same bit. */
  lemma SameCell(i: nat, k: nat)
    ensures i / 8 == k / 8 && i % 8 == k % 8 ==> i == k
  {
  }

  class Bitmap {
    const buffer: array<bv8>
    var bits: nat
    /** The bits below `bits` that are clear: what every client reasons with. */
    ghost var clear: set<nat>

    constructor (size: nat)
      ensures Valid() && fresh(buffer) && buffer.Length == size && bits == 0 && clear == {}
    {
      buffer := new bv8[size](_ => 0);
      bits := 0;
      clear := {};
    }

    predicate RawBit(k: nat)
      requires k < 8 * buffer.Length
      reads buffer
    {
      BitOf(buffer[k / 8], k % 8)
    }

    ghost predicate Valid()
      reads this, buffer
    {
      && bits <= 8 * buffer.Length
      && (forall k :: k in clear ==> k < bits)
      && (forall k: nat {:trigger RawBit(k)} :: k < bits ==> (k in clear <==> !RawBit(k)))
    }

    lemma ClearBelow()
      requires Valid()
      ensures forall k :: k in clear ==> k < bits
    {
    }

    /** `bitmap_test`: bits past the end read as set. */
    method Test(bit: nat) returns (set_: bool)
      requires Valid()
      ensures set_ <==> bit !in clear
    {
      if bit >= bits {
        return true;
      }
      return RawBit(bit);
    }

    /** `bitmap_init`: fills every byte that holds one of the first `n` bits. */
    method Init(n: nat)
      requires n <= 8 * buffer.Length
      modifies this, buffer
      ensures Valid() && bits == n && clear == {}
    {
      bits, clear := n, {};
      var bytes := (n + 7) / 8;
      for i := 0 to bytes
        invariant bits == n && clear == {}
        invariant forall k :: 0 <= k < i ==> buffer[k] == 0xFF
      {
        buffer[i] := 0xFF;
      }
      forall k: nat | k < bits ensures RawBit(k) {
        assert k / 8 < bytes;
        assert BitOf(0xFF, k % 8);
      }
    }

    /** `bitmap_set`: exactly this bit becomes set. */
    method Set(bit: nat)
      requires Valid()
      modifies this`clear, buffer
      ensures Valid() && clear == old(clear) - {bit}
    {
      hide BitOf, Mask;
      if bit >= bits { return; }
      buffer[bit / 8] := buffer[bit / 8] | Mask(bit % 8);
      clear := clear - {bit};
      forall k: nat | k < bits ensures RawBit(k) <==> (k == bit || old(RawBit(k))) {
        SameCell(bit, k);
        SetSelects(old(buffer[bit / 8]), bit % 8, k % 8);
      }
    }

    /** `bitmap_clear`: exactly this bit becomes clear, unless it is past the end. */
    method Clear(bit: nat)
      requires Valid()
      modifies this`clear, buffer
      ensures Valid() && clear == old(clear) + (if bit < bits then {bit} else {})
    {
      hide BitOf, Mask;
      if bit >= bits { return; }
      buffer[bit / 8] := buffer[bit / 8] & !Mask(bit % 8);
      clear := clear + {bit};
      forall k: nat | k < bits ensures RawBit(k) <==> (k != bit && old(RawBit(k))) {
        SameCell(bit, k);
        ClearSelects(old(buffer[bit / 8]), bit % 8, k % 8);
      }
    }
  }
}
