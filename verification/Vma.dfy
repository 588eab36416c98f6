/** The table of virtual memory areas of kernel/src/vmm/vma/vma.c. */
module Vmas {
  import opened Machine

  const MAX_COUNT: nat := 32
  const DEMAND_PAGED: bv64 := 8

  datatype Vma = Vma(start: u64, end: u64, flags: bv64)

  predicate Contains(v: Vma, address: u64) {
    v.start <= address < v.end
  }

  /** The overlap test of vma_create and vma_resize. */
  predicate Collides(v: Vma, w: Vma) {
    v.start < w.end && v.end > w.start
  }

  /** No address belongs to two areas. */
  ghost predicate Unambiguous(s: seq<Vma>) {
    forall i, j, a :: 0 <= i < |s| && 0 <= j < |s| && Contains(s[i], a) && Contains(s[j], a) ==> i == j
  }

  /** The test is exact on non-empty areas and never lets two areas share an address. */
  lemma CollidesIffShared(v: Vma, w: Vma)
    ensures v.start < v.end && w.start < w.end && Collides(v, w) ==>
              (Contains(v, v.start) && Contains(w, v.start)) || (Contains(v, w.start) && Contains(w, w.start))
    ensures forall a :: Contains(v, a) && Contains(w, a) ==> Collides(v, w)
  {
  }

  function New(start: u64, size: u64, flags: bv64): Vma {
    Vma(start, Wrap(start + size), flags)
  }

  /** An area covers no address that was not asked for, and all that were exactly when `start + size` does not
      wrap. The overlap test compares the wrapped end, so that a wrapping request can be accepted; it covers
      nothing at all. */
  lemma CoversIffNoWrap(start: u64, size: u64, flags: bv64)
    ensures var v := New(start, size, flags);
            && v.start == start && v.flags == flags
            && (forall a: u64 :: Contains(v, a) ==> start <= a < start + size)
            && ((forall a: u64 :: start <= a < start + size ==> Contains(v, a)) <==> start + size < U64_LIMIT)
  {
    if start + size >= U64_LIMIT {
      assert !Contains(New(start, size, flags), start);
    }
  }

  lemma AppendUnambiguous(s: seq<Vma>, v: Vma)
    requires Unambiguous(s) && forall i :: 0 <= i < |s| ==> !Collides(v, s[i])
    ensures Unambiguous(s + [v])
  {
    var r := s + [v];
    forall i, j, a | 0 <= i < |r| && 0 <= j < |r| && Contains(r[i], a) && Contains(r[j], a) ensures i == j {
      if i < |s| && j == |s| {
        CollidesIffShared(v, s[i]);
      } else if j < |s| && i == |s| {
        CollidesIffShared(v, s[j]);
      }
    }
  }

  function Without(s: seq<Vma>, k: nat): seq<Vma>
    requires k < |s|
  {
    s[..k] + s[k + 1..]
  }

  /** The areas before the one that went stay where they are, those after it move up by one. */
  lemma WithoutAt(s: seq<Vma>, k: nat, i: nat)
    requires k < |s| && i < |s| - 1
    ensures |Without(s, k)| == |s| - 1 && Without(s, k)[i] == s[if i < k then i else i + 1]
  {
  }

  /** A resize keeps the start, the flags and every other area; only the end moves. */
  lemma ResizedAt(s: seq<Vma>, k: nat, size: u64, i: nat)
    requires k < |s| && i < |s|
    ensures |Resized(s, k, size)| == |s| && Resized(s, k, size)[i].start == s[i].start
    ensures Resized(s, k, size)[i].flags == s[i].flags && (i != k ==> Resized(s, k, size)[i] == s[i])
    ensures forall a: u64 :: i == k && s[k].start + size < U64_LIMIT ==>
      (Contains(Resized(s, k, size)[k], a) <==> s[k].start <= a < s[k].start + size)
  {
    CoversIffNoWrap(s[k].start, size, s[k].flags);
  }

  /** Index `k` holds the first area with this start. */
  ghost predicate FirstAt(s: seq<Vma>, start: u64, k: nat) {
    k < |s| && s[k].start == start && forall j :: 0 <= j < k ==> s[j].start != start
  }

  function Resized(s: seq<Vma>, k: nat, size: u64): seq<Vma>
    requires k < |s|
  {
    s[k := New(s[k].start, size, s[k].flags)]
  }

  /** The resize is allowed: the area exists and its new extent collides with no other. */
  ghost predicate MayResize(s: seq<Vma>, start: u64, size: u64, k: nat) {
    FirstAt(s, start, k) && forall i :: 0 <= i < |s| && i != k ==> !Collides(New(start, size, s[k].flags), s[i])
  }

  lemma RemoveUnambiguous(s: seq<Vma>, k: nat)
    requires Unambiguous(s) && k < |s|
    ensures Unambiguous(Without(s, k))
  {
    var r := Without(s, k);
    forall i, j, a | 0 <= i < |r| && 0 <= j < |r| && Contains(r[i], a) && Contains(r[j], a) ensures i == j {
      var i', j' := if i < k then i else i + 1, if j < k then j else j + 1;
      assert r[i] == s[i'] && r[j] == s[j'];
    }
  }

  lemma ResizeUnambiguous(s: seq<Vma>, k: nat, v: Vma)
    requires Unambiguous(s) && k < |s|
    requires forall i :: 0 <= i < |s| && i != k ==> !Collides(v, s[i])
    ensures Unambiguous(s[k := v])
  {
    var r := s[k := v];
    forall i, j, a | 0 <= i < |r| && 0 <= j < |r| && Contains(r[i], a) && Contains(r[j], a) ensures i == j {
      if i != k && j == k {
        CollidesIffShared(v, s[i]);
      } else if i == k && j != k {
        CollidesIffShared(v, s[j]);
      }
    }
  }

  class VmaTable {
    const table: array<Vma>
    var count: nat

    ghost predicate Valid()
      reads this, table
    {
      table.Length == MAX_COUNT && count <= MAX_COUNT && Unambiguous(Areas())
    }

    ghost function Areas(): seq<Vma>
      requires count <= table.Length
      reads this, table
    {
      table[..count]
    }

    /** `vma_init` */
    constructor ()
      ensures Valid() && Areas() == [] && fresh(table)
    {
      table := new Vma[MAX_COUNT](_ => Vma(0, 0, 0));
      count := 0;
    }

    /** `vma_create`. The invariant holds for every argument, wrapping or empty. */
    method Create(start: u64, size: u64, flags: bv64) returns (ok: bool)
      requires Valid()
      modifies this, table
      ensures Valid()
      ensures ok <==> |old(Areas())| < MAX_COUNT
                      && forall v :: v in old(Areas()) ==> !Collides(New(start, size, flags), v)
      ensures Areas() == if ok then old(Areas()) + [New(start, size, flags)] else old(Areas())
    {
      if count >= MAX_COUNT {
        return false;
      }
      var v := New(start, size, flags);
      for i := 0 to count
        invariant forall k :: 0 <= k < i ==> !Collides(v, table[k])
      {
        if Collides(v, table[i]) {
          assert table[i] in Areas();
          return false;
        }
      }
      AppendUnambiguous(Areas(), v);
      table[count] := v;
      count := count + 1;
      assert Areas() == old(Areas()) + [v];
      return true;
    }

    /** `vma_find`: the one area that holds the address. */
    method Find(address: u64) returns (k: int)
      requires Valid()
      ensures -1 <= k < |Areas()|
      ensures k >= 0 ==> forall i :: 0 <= i < |Areas()| ==> (Contains(Areas()[i], address) <==> i == k)
      ensures k < 0 ==> forall v :: v in Areas() ==> !Contains(v, address)
    {
      for i := 0 to count
        invariant forall j :: 0 <= j < i ==> !Contains(table[j], address)
      {
        if Contains(table[i], address) {
          assert Areas()[i] == table[i];
          return i;
        }
      }
      return -1;
    }

    /** `vma_destroy`: the first area with this start goes, the others close up in order. */
    method Destroy(start: u64) returns (ok: bool)
      requires Valid()
      modifies this, table
      ensures Valid()
      ensures !ok ==> Areas() == old(Areas()) && forall v :: v in Areas() ==> v.start != start
      ensures ok ==> exists k: nat :: FirstAt(old(Areas()), start, k) && Areas() == Without(old(Areas()), k)
    {
      for i := 0 to count
        invariant forall j :: 0 <= j < i ==> table[j].start != start
        invariant unchanged(this) && unchanged(table)
      {
        if table[i].start == start {
          RemoveUnambiguous(Areas(), i);
          assert FirstAt(Areas(), start, i);
          Shift(i);
          return true;
        }
      }
      return false;
    }

    /** The shifting loop of vma_destroy. */
    method Shift(i: nat)
      requires table.Length == MAX_COUNT && i < count <= MAX_COUNT
      modifies this, table
      ensures count == old(count) - 1 && Areas() == Without(old(Areas()), i)
    {
      ghost var areas := Areas();
      assert forall k :: 0 <= k < count ==> areas[k] == table[k];
      var j := i;
      while j + 1 < count
        invariant i <= j < count == old(count)
        invariant forall k :: 0 <= k < count && k != j ==> table[k] == areas[if i <= k < j then k + 1 else k]
      {
        table[j] := table[j + 1];
        j := j + 1;
      }
      table[count - 1] := Vma(0, 0, 0);
      count := count - 1;
      assert Areas() == Without(areas, i);
    }

    /** `vma_resize` */
    method Resize(start: u64, size: u64) returns (ok: bool)
      requires Valid()
      modifies table
      ensures Valid()
      ensures ok <==> exists k: nat :: MayResize(old(Areas()), start, size, k)
      ensures !ok ==> Areas() == old(Areas())
      ensures forall k: nat :: MayResize(old(Areas()), start, size, k) ==> Areas() == Resized(old(Areas()), k, size)
    {
      var target := 0;
      while target < count && table[target].start != start
        invariant target <= count
        invariant forall j :: 0 <= j < target ==> table[j].start != start
      {
        target := target + 1;
      }
      ghost var areas := Areas();
      assert forall j :: 0 <= j < count ==> areas[j] == table[j];
      assert forall k: nat :: FirstAt(areas, start, k) ==> k == target;
      if target == count {
        return false;
      }
      var v := New(start, size, table[target].flags);
      for i := 0 to count
        invariant forall k :: 0 <= k < i && k != target ==> !Collides(v, table[k])
        invariant unchanged(table)
      {
        if i != target && Collides(v, table[i]) {
          assert Collides(v, areas[i]);
          return false;
        }
      }
      ResizeUnambiguous(areas, target, v);
      assert MayResize(areas, start, size, target);
      table[target] := v;
      assert Areas() == areas[target := v];
      return true;
    }
  }

  /** A request whose end wraps is accepted on an empty table, and vma_find does not find its start. */
  method WrappingAccepted(areas: VmaTable, start: u64, size: u64, flags: bv64) returns (ok: bool, k: int)
    requires areas.Valid() && areas.Areas() == [] && start + size >= U64_LIMIT
    modifies areas, areas.table
    ensures areas.Valid() && ok && areas.Areas() == [New(start, size, flags)] && k == -1
  {
    ok := areas.Create(start, size, flags);
    assert !Contains(areas.Areas()[0], start);
    k := areas.Find(start);
  }
}
