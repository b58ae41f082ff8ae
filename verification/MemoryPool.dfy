/** The fixed pool: slots of raw storage, a stack of the free ones and a bitmap of the live ones. */
module PoolAddresses {
  import opened Basics
  import opened Remainders

  /** Where the storage lies: a base address and a size for each of the slots. */
  datatype Storage = Storage(base: nat, stride: nat, slots: nat)

  predicate Sized(m: Storage) {
    m.stride > 0 && m.slots > 0
  }

  function PtrAt(m: Storage, slot: nat): nat {
    m.base + slot * m.stride
  }

  /** `index_of`; None stands for a null pointer. */
  function IndexOf(m: Storage, p: Option<nat>): Option<nat>
    requires Sized(m)
  {
    if p.None? then None
    else
      var addr, end := p.value, m.base + m.stride * m.slots;
      if addr < m.base || addr >= end then None
      else
        var offset := addr - m.base;
        if offset % m.stride != 0 then None
        else if offset / m.stride >= m.slots then None
        else Some(offset / m.stride)
  }

  lemma ProductMonotone(a: nat, b: nat, n: nat)
    requires a <= b
    ensures a * n <= b * n
  {
    assert b * n == a * n + (b - a) * n;
  }

  /** A pointer is resolved to a slot exactly when it is that slot's own address: anything outside the
      storage or between two slots is foreign. */
  lemma IndexOfIff(m: Storage, p: Option<nat>, slot: nat)
    requires Sized(m)
    ensures IndexOf(m, p) == Some(slot) <==> slot < m.slots && p == Some(PtrAt(m, slot))
  {
    if slot < m.slots && p == Some(PtrAt(m, slot)) {
      RemainderUnique(p.value - m.base, m.stride, slot, 0);
      ProductMonotone(slot + 1, m.slots, m.stride);
      assert (slot + 1) * m.stride == slot * m.stride + m.stride;
    }
    if IndexOf(m, p) == Some(slot) {
      var offset := p.value - m.base;
      assert offset == m.stride * (offset / m.stride) + offset % m.stride;
    }
  }

  /** Two slots never share a byte, and every slot lies inside the storage. */
  lemma SlotsDisjoint(m: Storage, a: nat, b: nat)
    requires Sized(m) && a < b < m.slots
    ensures m.base <= PtrAt(m, a) && PtrAt(m, a) + m.stride <= PtrAt(m, b)
    ensures PtrAt(m, b) + m.stride <= m.base + m.stride * m.slots
  {
    ProductMonotone(a + 1, b, m.stride);
    ProductMonotone(b + 1, m.slots, m.stride);
    assert (a + 1) * m.stride == a * m.stride + m.stride;
    assert (b + 1) * m.stride == b * m.stride + m.stride;
  }
}

/** The free stack and the bitmap, as values. */
module PoolSlots {
  import opened Lists

  /** The free list holds exactly the unoccupied slots, each once. */
  ghost predicate Partition(free: seq<nat>, occupied: seq<bool>) {
    && Distinct(free)
    && forall slot :: (slot in free) == Vacant(occupied, slot)
  }

  predicate Vacant(occupied: seq<bool>, slot: nat) {
    slot < |occupied| && !occupied[slot]
  }

  function CountLive(occupied: seq<bool>): nat {
    if occupied == [] then 0
    else CountLive(occupied[..|occupied|-1]) + if occupied[|occupied|-1] then 1 else 0
  }

  lemma {:induction false} CountAfter(occupied: seq<bool>, slot: nat, live: bool)
    requires slot < |occupied| && occupied[slot] != live
    ensures CountLive(occupied[slot := live]) == CountLive(occupied) + if live then 1 else -1
  {
    var n := |occupied| - 1;
    if slot == n {
      assert occupied[slot := live][..n] == occupied[..n];
    } else {
      CountAfter(occupied[..n], slot, live);
      assert occupied[slot := live][..n] == occupied[..n][slot := live];
    }
  }

  /** Taking the top of the stack. */
  lemma TakeTop(free: seq<nat>, occupied: seq<bool>)
    requires Partition(free, occupied) && free != []
    ensures var top := free[|free|-1];
            && Vacant(occupied, top) && Partition(free[..|free|-1], occupied[top := true])
            && CountLive(occupied[top := true]) == CountLive(occupied) + 1
  {
    var n := |free| - 1;
    var top, rest := free[n], free[..n];
    assert top in free;
    var after := occupied[top := true];
    DropDistinct(free, n);
    assert DropAt(free, n) == rest;
    forall slot: nat
      ensures (slot in rest) == Vacant(after, slot)
    {
      assert (slot in free) == (slot in rest || slot == top);
      assert (slot in free) == Vacant(occupied, slot);
    }
    CountAfter(occupied, top, true);
  }

  /** Giving a slot back. */
  lemma GiveBack(free: seq<nat>, occupied: seq<bool>, slot: nat)
    requires Partition(free, occupied) && slot < |occupied| && occupied[slot]
    ensures Partition(free + [slot], occupied[slot := false])
    ensures CountLive(occupied[slot := false]) == CountLive(occupied) - 1
  {
    var after := occupied[slot := false];
    assert (slot in free) == Vacant(occupied, slot);
    AppendDistinct(free, slot);
    forall s: nat
      ensures (s in free + [slot]) == Vacant(after, s)
    {
      assert (s in free) == Vacant(occupied, s);
    }
    CountAfter(occupied, slot, false);
  }

  /** Freeing what was just allocated restores the pool. */
  lemma TakeThenGive(free: seq<nat>, occupied: seq<bool>)
    requires Partition(free, occupied) && free != []
    ensures var top := free[|free|-1];
            free[..|free|-1] + [top] == free && top < |occupied| && occupied[top := true][top := false] == occupied
  {
    TakeTop(free, occupied);
  }

  /** Free and live slots make up the pool. */
  lemma {:induction false} FreeAndLive(free: seq<nat>, occupied: seq<bool>)
    requires Partition(free, occupied)
    ensures |free| + CountLive(occupied) == |occupied|
    decreases |free|
  {
    if free == [] {
      forall slot: nat | slot < |occupied|
        ensures occupied[slot]
      {
        assert (slot in free) == Vacant(occupied, slot);
      }
      AllLive(occupied);
    } else {
      TakeTop(free, occupied);
      FreeAndLive(free[..|free|-1], occupied[free[|free|-1] := true]);
    }
  }

  lemma {:induction false} AllLive(occupied: seq<bool>)
    requires forall slot :: 0 <= slot < |occupied| ==> occupied[slot]
    ensures CountLive(occupied) == |occupied|
  {
    if occupied != [] {
      AllLive(occupied[..|occupied|-1]);
    }
  }

  lemma {:induction false} NoneLive(occupied: seq<bool>)
    requires forall slot :: 0 <= slot < |occupied| ==> !occupied[slot]
    ensures CountLive(occupied) == 0
  {
    if occupied != [] {
      NoneLive(occupied[..|occupied|-1]);
    }
  }

  /** The list the constructor writes: the slots from the last to the first. */
  lemma AllFree(free: seq<nat>, occupied: seq<bool>)
    requires |free| == |occupied|
    requires forall i :: 0 <= i < |free| ==> free[i] == |free| - 1 - i && !occupied[i]
    ensures Partition(free, occupied)
  {
    forall i, j | 0 <= i < |free| && 0 <= j < |free| && i != j
      ensures Differ(free, i, j)
    {
    }
    forall slot: nat
      ensures (slot in free) == Vacant(occupied, slot)
    {
      if slot < |free| {
        assert free[|free| - 1 - slot] == slot;
      }
    }
  }
}

module MemoryPools {
  import opened Basics
  import opened PoolAddresses
  import opened PoolSlots

  class MemoryPool {
    const storage: Storage
    const freeList: array<nat>
    const occupied: array<bool>
    var freeTop: nat
    var liveCount: nat
    ghost var built: nat          // objects constructed
    ghost var destroyed: nat      // objects destroyed

    /** The bitmap starts as whatever its initialiser makes of the capacity, and is cleared in the loop. */
    constructor (storage: Storage, bits: nat -> bool)
      requires Sized(storage)
      ensures Valid() && this.storage == storage && Free() == seq(storage.slots, i => storage.slots - 1 - i)
      ensures built == destroyed == 0
    {
      this.storage := storage;
      freeTop, liveCount := storage.slots, 0;
      freeList := new nat[storage.slots];
      occupied := new bool[storage.slots](i requires i >= 0 => bits(i));
      built, destroyed := 0, 0;
      new;
      for i := 0 to storage.slots
        modifies freeList, occupied
        invariant forall k :: 0 <= k < i ==> freeList[k] == storage.slots - 1 - k && !occupied[k]
      {
        freeList[i] := storage.slots - 1 - i;
        occupied[i] := false;
      }
      hide Partition;
      AllFree(freeList[..], occupied[..]);
      NoneLive(occupied[..]);
      assert freeList[..] == freeList[..freeTop];
    }

    ghost predicate Valid()
      reads this, freeList, occupied
    {
      && Sized(storage) && freeList.Length == occupied.Length == storage.slots && freeTop <= freeList.Length
      && Partition(Free(), occupied[..])
      && liveCount == CountLive(occupied[..]) == built - destroyed
    }

    /** The free slots, the next one to be handed out last. */
    ghost function Free(): seq<nat>
      requires freeTop <= freeList.Length
      reads this, freeList
    {
      freeList[..freeTop]
    }

    method Allocate() returns (p: Option<nat>)
      requires Valid()
      modifies this`freeTop, this`liveCount, this`built, occupied
      ensures Valid() && destroyed == old(destroyed)
      ensures old(Free()) == [] ==> p == None && Free() == [] && occupied[..] == old(occupied[..]) && built == old(built)
      ensures old(Free()) != [] ==>
                var slot := old(Free())[old(freeTop) - 1];
                && slot < occupied.Length && !old(occupied[slot]) && p == Some(PtrAt(storage, slot))
                && Free() == old(Free())[..old(freeTop) - 1] && occupied[..] == old(occupied[..])[slot := true]
                && built == old(built) + 1
    {
      if freeTop == 0 {
        return None;
      }
      TakeTop(Free(), occupied[..]);
      hide Partition, CountLive;
      freeTop := freeTop - 1;
      var slot := freeList[freeTop];
      built := built + 1;
      occupied[slot] := true;
      liveCount := liveCount + 1;
      assert Free() == old(Free())[..freeTop] && occupied[..] == old(occupied[..])[slot := true];
      return Some(PtrAt(storage, slot));
    }

    /** Free an object. A pointer that is null, foreign, misaligned or not live changes nothing. */
    method Deallocate(p: Option<nat>) returns (ok: bool)
      requires Valid()
      modifies this`freeTop, this`liveCount, this`destroyed, freeList, occupied
      ensures Valid() && built == old(built)
      ensures ok == (IndexOf(storage, p).Some? && old(occupied[IndexOf(storage, p).value]))
      ensures !ok ==> Free() == old(Free()) && occupied[..] == old(occupied[..]) && destroyed == old(destroyed)
      ensures ok ==>
                var slot := IndexOf(storage, p).value;
                && Free() == old(Free()) + [slot] && occupied[..] == old(occupied[..])[slot := false]
                && destroyed == old(destroyed) + 1
    {
      var idx := IndexOf(storage, p);
      if idx.None? {
        return false;
      }
      var slot := idx.value;
      if !occupied[slot] {
        return false;
      }
      FreeAndLive(Free(), occupied[..]);
      GiveBack(Free(), occupied[..], slot);
      hide Partition, CountLive;
      destroyed := destroyed + 1;
      occupied[slot] := false;
      freeList[freeTop] := slot;
      freeTop := freeTop + 1;
      liveCount := liveCount - 1;
      assert Free() == old(Free()) + [slot] && occupied[..] == old(occupied[..])[slot := false];
      return true;
    }

    /** Free and live slots always make up the capacity. */
    lemma Accounts()
      requires Valid()
      ensures freeTop + liveCount == storage.slots && built - destroyed == liveCount
    {
      FreeAndLive(Free(), occupied[..]);
    }

    /** Live objects never overlap, and each is found again at its own address. */
    lemma LiveObjectsDisjoint(a: nat, b: nat)
      requires Valid() && a < b < occupied.Length && occupied[a] && occupied[b]
      ensures PtrAt(storage, a) + storage.stride <= PtrAt(storage, b)
      ensures IndexOf(storage, Some(PtrAt(storage, a))) == Some(a)
    {
      SlotsDisjoint(storage, a, b);
      IndexOfIff(storage, Some(PtrAt(storage, a)), a);
    }

    /** The destructor: every object still live is destroyed, once. */
    method Destroy()
      requires Valid()
      modifies this`destroyed, occupied
      ensures built == destroyed
      ensures forall slot :: 0 <= slot < occupied.Length ==> !occupied[slot]
    {
      for i := 0 to storage.slots
        invariant forall k :: 0 <= k < i ==> !occupied[k]
        invariant CountLive(occupied[..]) == built - destroyed
      {
        if occupied[i] {
          CountAfter(occupied[..], i, false);
          destroyed := destroyed + 1;
          occupied[i] := false;
        }
      }
      NoneLive(occupied[..]);
    }
  }
}
