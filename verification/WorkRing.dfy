/**
  The work ring of an RDS connection (net/rds/ib_ring.c; net/rds/iw_ring.c is the same text).
  Slots are handed out and taken back in FIFO order.  The two counters run freely modulo 2^32;
  the two pointers are slot numbers.  All four are unsigned 32-bit.
 */
module WorkRing {
  import opened Common

  function Wrap(x: int): (r: nat)
    ensures r < TWO32
  {
    x % TWO32
  }

  /** The ring's fields as values. */
  datatype Fields = Fields(nr: nat, allocPtr: nat, allocCtr: nat, freePtr: nat, freeCtr: nat) {
    function Used(): nat { Wrap(allocCtr - freeCtr) }

    predicate InRange() {
      0 < nr < TWO32 && allocPtr < nr && freePtr < nr && allocCtr < TWO32 && freeCtr < TWO32
    }
  }

  /** The outstanding slot numbers, oldest first. */
  function SlotAt(start: int, i: int, nr: nat): nat
    requires 0 < nr
  {
    (start + i) % nr
  }

  function Slots(start: nat, count: nat, nr: nat): (s: seq<nat>)
    requires 0 < nr
    ensures |s| == count
    ensures forall i :: 0 <= i < count ==> s[i] == SlotAt(start, i, nr)
  {
    seq(count, i requires 0 <= i < count => SlotAt(start, i, nr))
  }

  /** What the ring means: a FIFO of at most nr slots, kept by two pointers and two counters. */
  predicate Consistent(f: Fields) {
    && f.InRange()
    && f.Used() <= f.nr
    && f.allocPtr == (f.freePtr + f.Used()) % f.nr
  }

  function Fifo(f: Fields): seq<nat>
    requires Consistent(f)
  {
    Slots(f.freePtr, f.Used(), f.nr)
  }

  predicate Divides(nr: nat)
    requires nr > 0
  {
    TWO32 % nr == 0
  }

  /** 32-bit pointer arithmetic comes out right: no wrap, or a wrap the ring size does not notice. */
  predicate AddExact(p: nat, val: nat, nr: nat)
    requires nr > 0
  {
    p + val < TWO32 || Divides(nr)
  }

  predicate SubExact(p: nat, val: nat, nr: nat)
    requires nr > 0
  {
    p >= val || Divides(nr)
  }

  // ------------------------------------------------------------------ modular facts

  lemma MulAtLeast(d: int, n: nat)
    ensures d > 0 ==> d * n >= n
    ensures d < 0 ==> d * n <= 0 - n
  {
  }

  lemma ModUnique(x: int, n: nat, q: int, r: int)
    requires n > 0 && x == q * n + r && 0 <= r < n
    ensures x % n == r
  {
    assert (x / n) * n + x % n == x;
    var d := x / n - q;
    assert d * n == r - x % n;
    MulAtLeast(d, n);
  }

  lemma ModAddMultiple(x: int, k: int, n: nat)
    requires n > 0
    ensures (x + k * n) % n == x % n
  {
    ModUnique(x + k * n, n, x / n + k, x % n);
  }

  /** (x mod n + y) mod n == (x + y) mod n */
  lemma ModAddLeft(x: int, y: int, n: nat)
    requires n > 0
    ensures (x % n + y) % n == (x + y) % n
  {
    var r, q := x % n, x / n;
    assert x == r + q * n;
    ModAddMultiple(r + y, q, n);
    assert r + y + q * n == x + y;
  }

  /** Adding a multiple of n to a residue changes it only if the amount is not a multiple of n. */
  lemma ModShift(x: int, t: nat, n: nat)
    requires n > 0
    ensures (x + t) % n == x % n <==> t % n == 0
  {
    if t % n == 0 {
      assert t == (t / n) * n;
      ModAddMultiple(x, t / n, n);
    }
    if (x + t) % n == x % n {
      var k := (x + t) / n - x / n;
      assert t == k * n + 0;
      ModUnique(t, n, k, 0);
    }
  }

  lemma SmallMod(x: int, n: nat)
    requires 0 <= x < n
    ensures x % n == x
  {
  }

  // ------------------------------------------------------------------ the operations as functions

  /** rds_ib_ring_alloc: how many of the val entries asked for are granted. */
  function Granted(f: Fields, val: nat): nat
    requires f.Used() <= f.nr
  {
    Min(val, f.nr - f.Used())
  }

  function Alloc(f: Fields, val: nat): Fields
    requires f.InRange() && f.Used() <= f.nr
  {
    var ret := Granted(f, val);
    if ret == 0 then f
    else f.(allocPtr := Wrap(f.allocPtr + ret) % f.nr, allocCtr := Wrap(f.allocCtr + ret))
  }

  function Free(f: Fields, val: nat): Fields
    requires f.InRange()
  {
    f.(freePtr := Wrap(f.freePtr + val) % f.nr, freeCtr := Wrap(f.freeCtr + val))
  }

  function Unalloc(f: Fields, val: nat): Fields
    requires f.InRange()
  {
    f.(allocPtr := Wrap(f.allocPtr - val) % f.nr, allocCtr := Wrap(f.allocCtr - val))
  }

  /** rds_ib_ring_completed: entries retired by a completion for slot wrId. */
  function Completed(nr: nat, wrId: nat, oldest: nat): (r: int) {
    if oldest <= wrId then wrId - oldest + 1 else nr - oldest + wrId + 1
  }

  // ------------------------------------------------------------------ counters and pointers

  /** The free-running counters measure the distance between them however often they wrap. */
  lemma UsedAfter(f: Fields, up: int, down: int)
    requires f.InRange() && 0 <= f.Used() + up - down < TWO32
    ensures Wrap(Wrap(f.allocCtr + up) - Wrap(f.freeCtr + down)) == f.Used() + up - down
  {
    var a, b := f.allocCtr + up, f.freeCtr + down;
    var qa, qb, q := a / TWO32, b / TWO32, (f.allocCtr - f.freeCtr) / TWO32;
    assert a == qa * TWO32 + a % TWO32 && b == qb * TWO32 + b % TWO32;
    assert f.allocCtr - f.freeCtr == q * TWO32 + f.Used();
    ModUnique(a % TWO32 - b % TWO32, TWO32, q - qa + qb, f.Used() + up - down);
  }

  /** A pointer advanced in 32-bit arithmetic lands on the right slot exactly when AddExact holds. */
  lemma AdvanceExact(p: nat, val: nat, nr: nat)
    requires 0 < nr < TWO32 && p < nr && val <= nr
    ensures Wrap(p + val) % nr == (p + val) % nr <==> AddExact(p, val, nr)
  {
    if p + val < TWO32 {
      SmallMod(p + val, TWO32);
    } else {
      ModUnique(p + val, TWO32, 1, p + val - TWO32);
      ModShift(p + val - TWO32, TWO32, nr);
    }
  }

  /** Likewise backwards. */
  lemma RetreatExact(p: nat, val: nat, nr: nat)
    requires 0 < nr < TWO32 && p < nr && val <= nr
    ensures Wrap(p - val) % nr == (p - val) % nr <==> SubExact(p, val, nr)
  {
    if p >= val {
      SmallMod(p - val, TWO32);
    } else {
      ModUnique(p - val, TWO32, -1, p - val + TWO32);
      ModShift(p - val, TWO32, nr);
    }
  }

  // ------------------------------------------------------------------ the ring is a FIFO

  /** Outstanding slots never repeat. */
  lemma SlotsDistinct(start: nat, count: nat, nr: nat, i: nat, j: nat)
    requires 0 < nr && count <= nr && i < j < count
    ensures Slots(start, count, nr)[i] != Slots(start, count, nr)[j]
  {
    ModShift(start + i, j - i, nr);
    SmallMod(j - i, nr);
  }

  /** No slot granted is outstanding. */
  lemma GrantedFresh(f: Fields, val: nat, i: nat, j: nat)
    requires Consistent(f) && i < Granted(f, val) && j < f.Used()
    ensures Slots(f.allocPtr, Granted(f, val), f.nr)[i] != Fifo(f)[j]
  {
    var ret, used := Granted(f, val), f.Used();
    SlotsDistinct(f.freePtr, used + ret, f.nr, j, used + i);
    SlotShift(f.freePtr, used, i, f.nr);
  }

  lemma CounterAdvances(a: nat, b: nat, n: nat)
    requires Wrap(a - b) + n < TWO32
    ensures Wrap(Wrap(a + n) - b) == Wrap(a - b) + n
  {
    ModAddLeft(a + n, 0 - b, TWO32);
    ModAddLeft(a - b, n, TWO32);
    SmallMod(Wrap(a - b) + n, TWO32);
  }

  lemma AllocUsed(f: Fields, val: nat)
    requires f.InRange() && f.Used() <= f.nr && Granted(f, val) > 0
    ensures Alloc(f, val).Used() == f.Used() + Granted(f, val)
  {
    AdvanceExact(f.allocPtr, Granted(f, val), f.nr);
    CounterAdvances(f.allocCtr, f.freeCtr, Granted(f, val));
  }

  /** Where an allocation leaves the pointer. */
  lemma AllocPointer(f: Fields, val: nat)
    requires Consistent(f) && Granted(f, val) > 0
    ensures Alloc(f, val).allocPtr == (f.freePtr + f.Used() + Granted(f, val)) % f.nr
            <==> AddExact(f.allocPtr, Granted(f, val), f.nr)
  {
    AdvanceExact(f.allocPtr, Granted(f, val), f.nr);
    ModAddLeft(f.freePtr + f.Used(), Granted(f, val), f.nr);
  }

  /**
    Allocation appends fresh slots to the FIFO, none of them outstanding, exactly when the 32-bit
    pointer sum does not wrap or the ring size divides 2^32.
   */
  lemma AllocRefinesFifo(f: Fields, val: nat)
    requires Consistent(f)
    ensures var ret := Granted(f, val);
            (Consistent(Alloc(f, val)) && Fifo(Alloc(f, val)) == Fifo(f) + Slots(f.allocPtr, ret, f.nr))
            <==> AddExact(f.allocPtr, ret, f.nr)
    ensures var got := Slots(f.allocPtr, Granted(f, val), f.nr);
            forall i, j :: 0 <= i < |got| && 0 <= j < |Fifo(f)| ==> got[i] != Fifo(f)[j]
  {
    var ret := Granted(f, val);
    forall i, j | 0 <= i < ret && 0 <= j < f.Used()
      ensures Slots(f.allocPtr, ret, f.nr)[i] != Fifo(f)[j]
    {
      GrantedFresh(f, val, i, j);
    }
    SlotsJoin(f.freePtr, f.Used(), ret, f.nr);
    if ret > 0 {
      AllocUsed(f, val);
      AllocPointer(f, val);
    }
  }

  lemma SlotShift(start: nat, a: nat, i: nat, nr: nat)
    requires 0 < nr
    ensures SlotAt(start, a + i, nr) == SlotAt((start + a) % nr, i, nr)
  {
    var p := start + a;
    ModAddLeft(p, i, nr);
    assert start + (a + i) == p + i;
  }

  lemma SlotsJoin(start: nat, a: nat, b: nat, nr: nat)
    requires 0 < nr
    ensures Slots(start, a + b, nr) == Slots(start, a, nr) + Slots((start + a) % nr, b, nr)
  {
    var whole, parts := Slots(start, a + b, nr), Slots(start, a, nr) + Slots((start + a) % nr, b, nr);
    forall k | 0 <= k < a + b ensures whole[k] == parts[k] {
      if k >= a { SlotShift(start, a, k - a, nr); }
    }
  }

  lemma FreeUsed(f: Fields, val: nat)
    requires f.InRange() && val <= f.Used()
    ensures Free(f, val).Used() == f.Used() - val
  {
    AdvanceFacts(f, val);
    UsedAfter(f, 0, val);
    SmallMod(f.allocCtr, TWO32);
  }

  /** The pointer after freeing is a slot number. */
  lemma AdvanceFacts(f: Fields, val: nat)
    requires f.InRange()
    ensures Free(f, val).freePtr < f.nr
  {
  }

  /** Where freeing leaves the pointer. */
  lemma FreePointer(f: Fields, val: nat)
    requires Consistent(f) && val <= f.Used()
    ensures Free(f, val).freePtr == (f.freePtr + val) % f.nr <==> AddExact(f.freePtr, val, f.nr)
    ensures ((f.freePtr + val) % f.nr + (f.Used() - val)) % f.nr == f.allocPtr
  {
    AdvanceExact(f.freePtr, val, f.nr);
    ModAddLeft(f.freePtr + val, f.Used() - val, f.nr);
  }

  /** Freeing val entries takes the val oldest slots off the FIFO, under the same condition. */
  lemma FreeRefinesFifo(f: Fields, val: nat)
    requires Consistent(f) && val <= f.Used()
    ensures (Consistent(Free(f, val)) && Fifo(Free(f, val)) == Fifo(f)[val..]) <==> AddExact(f.freePtr, val, f.nr)
  {
    var rest, f' := f.Used() - val, Free(f, val);
    FreeUsed(f, val);
    FreePointer(f, val);
    if f'.freePtr == (f.freePtr + val) % f.nr {
      SlotsJoin(f.freePtr, val, rest, f.nr);
      assert Fifo(f)[val..] == Slots(f'.freePtr, rest, f.nr);
    } else {
      FreePointerMatters(f.freePtr + val, f'.freePtr, rest, f.nr, f.allocPtr);
    }
  }

  /** Two different starting slots cannot both lead to allocPtr after the same number of entries. */
  lemma FreePointerMatters(p: nat, q: nat, count: nat, nr: nat, end: nat)
    requires 0 < nr && q < nr && q != p % nr && end == (p + count) % nr
    ensures (q + count) % nr != end
  {
    var r := p % nr;
    ModAddLeft(p, count, nr);
    if q < r {
      ModShift(q + count, r - q, nr);
      SmallMod(r - q, nr);
    } else {
      ModShift(r + count, q - r, nr);
      SmallMod(q - r, nr);
    }
  }

  /**
    rds_ib_ring_unalloc gives back the val newest slots exactly when the pointer does not
    drop below zero or the ring size divides 2^32.
   */
  lemma UnallocRefinesFifo(f: Fields, val: nat)
    requires Consistent(f) && val <= f.Used()
    ensures (Consistent(Unalloc(f, val)) && Fifo(Unalloc(f, val)) == Fifo(f)[..f.Used() - val])
            <==> SubExact(f.allocPtr, val, f.nr)
  {
    UnallocPointer(f, val);
    assert Fifo(f)[..f.Used() - val] == Slots(f.freePtr, f.Used() - val, f.nr);
  }

  lemma UnallocPointer(f: Fields, val: nat)
    requires Consistent(f) && val <= f.Used()
    ensures Unalloc(f, val).Used() == f.Used() - val
    ensures Unalloc(f, val).allocPtr == (f.freePtr + f.Used() - val) % f.nr <==> SubExact(f.allocPtr, val, f.nr)
  {
    UsedAfter(f, 0 - val, 0);
    SmallMod(f.freeCtr, TWO32);
    RetreatExact(f.allocPtr, val, f.nr);
    ModAddLeft(f.freePtr + f.Used(), 0 - val, f.nr);
  }

  /** A ring that gives entries back stays consistent under that condition alone. */
  lemma UnallocConsistent(f: Fields, val: nat)
    requires Consistent(f) && val <= f.Used()
    ensures Consistent(Unalloc(f, val)) <==> SubExact(f.allocPtr, val, f.nr)
  {
    UnallocPointer(f, val);
  }

  /** Giving back everything just granted restores the ring, pointer for pointer, under that condition. */
  lemma UnallocUndoesAlloc(f: Fields, val: nat)
    requires Consistent(f) && AddExact(f.allocPtr, Granted(f, val), f.nr)
    ensures Unalloc(Alloc(f, val), Granted(f, val)) == f
            <==> SubExact(Alloc(f, val).allocPtr, Granted(f, val), f.nr)
  {
    var ret := Granted(f, val);
    var g := Alloc(f, val);
    if ret == 0 {
      SmallMod(f.allocPtr, TWO32);
      SmallMod(f.allocPtr, f.nr);
      SmallMod(f.allocCtr, TWO32);
    } else {
      AdvanceExact(f.allocPtr, ret, f.nr);
      BackAndForth(f.allocPtr, ret, f.nr);
      RetreatExact(g.allocPtr, ret, f.nr);
      BackAndForth(f.allocCtr, ret, TWO32);
    }
  }

  lemma BackAndForth(p: nat, d: nat, n: nat)
    requires p < n
    ensures ((p + d) % n - d) % n == p
  {
    ModAddLeft(p + d, 0 - d, n);
    SmallMod(p, n);
  }

  /** A ring of five slots shows the failure: one entry taken back at the wrap is charged to slot 0, not 4. */
  lemma UnallocCanBreak()
    ensures var f := Fields(5, 0, 5, 4, 4);
            Consistent(f) && f.Used() == 1 && Unalloc(f, 1).allocPtr == 0 && !Consistent(Unalloc(f, 1))
  {
    var f := Fields(5, 0, 5, 4, 4);
    assert f.Used() == 1;
    assert Wrap(-1) == 4294967295;
    assert Wrap(4) == 4;
  }

  /** A completion for the k-th outstanding slot retires k + 1 entries. */
  lemma CompletedCounts(f: Fields, k: nat)
    requires Consistent(f) && k < f.Used()
    ensures Completed(f.nr, Fifo(f)[k], f.freePtr) == k + 1
  {
    if f.freePtr + k < f.nr {
      SmallMod(f.freePtr + k, f.nr);
    } else {
      ModUnique(f.freePtr + k, f.nr, 1, f.freePtr + k - f.nr);
    }
  }

  // ------------------------------------------------------------------ the ring in place

  /** struct rds_ib_work_ring */
  class Ring {
    var nr: nat
    var allocPtr: nat
    var allocCtr: nat
    var freePtr: nat
    var freeCtr: nat

    function View(): Fields
      reads this
    {
      Fields(nr, allocPtr, allocCtr, freePtr, freeCtr)
    }

    /** rds_ib_ring_init */
    constructor (size: nat)
      requires 0 < size < TWO32
      ensures View() == Fields(size, 0, 0, 0, 0)
      ensures Consistent(View()) && Fifo(View()) == []
    {
      nr, allocPtr, allocCtr, freePtr, freeCtr := size, 0, 0, 0, 0;
    }

    /** rds_ib_ring_resize: only on an empty ring; right as long as the pointers fit the new size. */
    method Resize(size: nat)
      requires Consistent(View()) && View().Used() == 0
      requires 0 < size < TWO32
      modifies this
      ensures View() == old(View()).(nr := size)
      ensures Consistent(View()) <==> old(allocPtr) < size
    {
      SmallMod(freePtr, nr);
      assert allocPtr == freePtr;
      nr := size;
      if freePtr < size { SmallMod(freePtr, size); }
    }

    method AllocEntries(val: nat) returns (ret: nat, pos: nat)
      requires Consistent(View())
      modifies this
      ensures View() == Alloc(old(View()), val) && ret == Granted(old(View()), val)
      ensures ret > 0 ==> pos == old(allocPtr)
      ensures ret == 0 <==> val == 0 || old(View()).Used() == nr
      ensures AddExact(old(allocPtr), ret, nr) ==>
                Consistent(View()) && Fifo(View()) == old(Fifo(View())) + Slots(old(allocPtr), ret, nr)
    {
      ret, pos := 0, 0;
      AllocRefinesFifo(View(), val);
      var avail := nr - View().Used();
      if val != 0 && avail != 0 {
        ret := if val < avail then val else avail;
        pos := allocPtr;
        allocPtr := Wrap(allocPtr + ret) % nr;
        allocCtr := Wrap(allocCtr + ret);
      }
    }

    method FreeEntries(val: nat) returns (empty: bool)
      requires Consistent(View()) && val <= View().Used()
      modifies this
      ensures View() == Free(old(View()), val)
      ensures AddExact(old(freePtr), val, nr) ==> Consistent(View()) && Fifo(View()) == old(Fifo(View()))[val..]
      ensures empty <==> View().Used() == 0
    {
      FreeRefinesFifo(View(), val);
      freePtr := Wrap(freePtr + val) % nr;
      freeCtr := Wrap(freeCtr + val);
      empty := View().Used() == 0;
    }

    method UnallocEntries(val: nat)
      requires Consistent(View()) && val <= View().Used()
      modifies this
      ensures View() == Unalloc(old(View()), val)
      ensures Consistent(View()) <==> SubExact(old(allocPtr), val, nr)
      ensures SubExact(old(allocPtr), val, nr) ==>
                Consistent(View()) && Fifo(View()) == old(Fifo(View()))[..old(View()).Used() - val]
    {
      UnallocRefinesFifo(View(), val);
      UnallocConsistent(View(), val);
      allocPtr := Wrap(allocPtr - val) % nr;
      allocCtr := Wrap(allocCtr - val);
    }

    /** rds_ib_ring_low: at most half of the entries are in use. */
    method IsLow() returns (low: bool)
      requires Consistent(View())
      ensures low <==> 2 * |Fifo(View())| <= nr
    {
      low := View().Used() <= nr / 2;
    }

    /** rds_ib_ring_oldest: the next entry to be freed. */
    method Oldest() returns (slot: nat)
      requires Consistent(View())
      ensures slot == freePtr
      ensures |Fifo(View())| > 0 ==> slot == Fifo(View())[0]
    {
      slot := freePtr;
      SmallMod(freePtr, nr);
    }
  }
}
