/** The open-addressing order map, updated in place. */
module FlatOrderMaps {
  import opened Basics
  import opened BitTricks
  import opened SlotArithmetic
  import opened SlotTables

  /** The slot number of a key: any mixing function, masked to the power-of-two capacity. */
  function Masked(mix: Hash, capacity: nat): Hash
    requires capacity > 0
  {
    (key: Key) => And(mix(key), capacity - 1)
  }

  lemma MaskedHashes(mix: Hash, capacity: nat)
    requires capacity > 0
    ensures Hashes(Masked(mix, capacity), capacity)
  {
    forall key: Key
      ensures Masked(mix, capacity)(key) < capacity
    {
      AndAtMost(mix(key), capacity - 1);
    }
  }

  /** On a power-of-two capacity, that is the remainder of the mixed key. */
  lemma MaskedIsRemainder(mix: Hash, k: nat, key: Key)
    ensures Masked(mix, Pow2(k))(key) == mix(key) % Pow2(k)
  {
    MaskIsRemainder(mix(key), k);
  }

  lemma CapacityExponent(requested: U64) returns (k: nat)
    requires requested <= 0x8000_0000_0000_0000
    ensures NextPow2(requested) == Pow2(k)
  {
    hide Pow2, NextPow2;
    if requested == 0 {
      k := 0;
      ZeroRequested();
    } else {
      NextPow2IsLeast(requested);
      k :| NextPow2(requested) == Pow2(k);
    }
  }

  lemma ZeroRequested()
    ensures NextPow2(0) == Pow2(0)
  {
  }

  class FlatOrderMap<V> {
    const home: Hash
    const rule: ShiftRule
    const slots: array<Slot<V>>
    var size: nat

    /** A table of empty slots, the requested capacity rounded up to a power of two. */
    constructor (requested: U64, mix: Hash, rule: ShiftRule)
      requires requested <= 0x8000_0000_0000_0000
      ensures Valid() && fresh(slots) && Contents() == map[]
      ensures this.rule == rule && slots.Length == NextPow2(requested) >= 1 && slots.Length >= requested
      ensures home == Masked(mix, slots.Length) && forall key: Key :: home(key) == mix(key) % slots.Length
    {
      if requested > 0 {
        NextPow2IsLeast(requested);
      }
      ghost var k := CapacityExponent(requested);
      forall key: Key
        ensures Masked(mix, NextPow2(requested))(key) == mix(key) % NextPow2(requested)
      {
        MaskedIsRemainder(mix, k, key);
      }
      var capacity := NextPow2(requested);
      MaskedHashes(mix, capacity);
      home, this.rule := Masked(mix, capacity), rule;
      slots := new Slot<V>[capacity](_ => Empty);
      size := 0;
      new;
      EmptyTable(slots[..], home);
    }

    ghost predicate Valid()
      reads this, slots
    {
      && Sound(slots[..], home)
      && size == |SlotTables.Contents(slots[..])|
    }

    ghost function Contents(): map<Key, V>
      reads slots
    {
      SlotTables.Contents(slots[..])
    }

    /** The probe loop shared by find, insert and erase: the slot of the key, or the empty slot
        that ends its probe path. */
    method Locate(key: Key) returns (idx: nat)
      requires Sound(slots[..], home)
      requires HasEmpty(slots[..]) || HasKey(slots[..], key)
      ensures idx < slots.Length && Passed(slots[..], key, home(key), Dist(slots.Length, home(key), idx))
      ensures slots[idx].Full? ==> slots[idx].key == key
      ensures slots[idx].Full? <==> HasKey(slots[..], key)
      ensures Probe(slots[..], home, key) == if slots[idx].Full? then Some(idx) else None
    {
      var h := home(key);
      idx := h;
      ghost var steps := 0;
      while true
        invariant steps <= slots.Length && idx < slots.Length
        invariant Passed(slots[..], key, h, steps)
        invariant steps < slots.Length ==> Dist(slots.Length, h, idx) == steps
        invariant Probe(slots[..], home, key) == Walk(slots[..], key, idx, slots.Length - steps)
        decreases slots.Length - steps
      {
        ghost var t := slots[..];
        if steps == slots.Length {
          assert false;
        }
        assert t[idx] == slots[idx];
        if slots[idx].Empty? || slots[idx].key == key {
          break;
        }
        assert forall x :: 0 <= x < |t| && Dist(|t|, h, x) == steps ==> x == idx;
        idx := Next(slots.Length, idx);
        steps := steps + 1;
      }
      ProbeDecides(slots[..], home, key);
    }

    /** Where the probe finds the key. */
    ghost function SlotOf(key: Key): (r: Option<nat>)
      requires Sound(slots[..], home)
      reads slots
      ensures r.Some? <==> HasKey(slots[..], key)
      ensures r.Some? ==> r.value < slots.Length && slots[r.value].Full? && slots[r.value].key == key
    {
      ProbeDecides(slots[..], home, key);
      Probe(slots[..], home, key)
    }

    /** No other entry's probe path crosses the slot of the key. */
    ghost predicate CleanAt(key: Key)
      requires Sound(slots[..], home)
      reads slots
    {
      SlotOf(key).Some? ==> Clean(slots[..], home, SlotOf(key).value)
    }

    method Find(key: Key) returns (r: Option<V>)
      requires Valid()
      requires HasEmpty(slots[..]) || key in Contents()
      ensures r == if key in Contents() then Some(Contents()[key]) else None
    {
      ContentsHolds(slots[..]);
      var idx := Locate(key);
      if slots[idx].Empty? {
        return None;
      }
      return Some(slots[idx].value);
    }

    /** Insert or replace, and tell where the value is stored; no other slot changes. */
    method Insert(key: Key, value: V) returns (idx: nat)
      requires Valid()
      requires HasEmpty(slots[..]) || key in Contents()
      modifies this`size, slots
      ensures Valid()
      ensures Contents() == old(Contents())[key := value]
      ensures size == old(size) + if key in old(Contents()) then 0 else 1
      ensures idx < slots.Length && slots[idx] == Full(key, value)
      ensures forall i :: 0 <= i < slots.Length && old(slots[i]).Full? && old(slots[i]).key != key
                  ==> slots[i] == old(slots[i])
    {
      ContentsHolds(slots[..]);
      idx := Locate(key);
      Store(idx, key, value);
    }

    /** The write into the located slot. */
    method Store(idx: nat, key: Key, value: V)
      requires Valid() && idx < slots.Length
      requires Passed(slots[..], key, home(key), Dist(slots.Length, home(key), idx))
      requires slots[idx].Full? ==> slots[idx].key == key
      requires slots[idx].Full? <==> key in Contents()
      modifies this`size, slots
      ensures Valid()
      ensures Contents() == old(Contents())[key := value]
      ensures size == old(size) + if key in old(Contents()) then 0 else 1
      ensures slots[idx] == Full(key, value)
      ensures forall i :: 0 <= i < slots.Length && i != idx ==> slots[i] == old(slots[i])
    {
      ghost var t := slots[..];
      ContentsHolds(t);
      InsertKeepsSound(t, home, key, value, idx);
      if slots[idx].Empty? {
        size := size + 1;
      }
      slots[idx] := Full(key, value);
      assert slots[..] == t[idx := Full(key, value)];
    }

    /** The backward-shift loop, from the slot just vacated. */
    method PullBack(vacated: nat)
      requires Hashes(home, slots.Length) && vacated < slots.Length && slots[vacated].Empty?
      modifies slots
      ensures slots[..] == Shift(old(slots[..]), home, rule, vacated, Next(slots.Length, vacated))
    {
      var hole: nat, cur: nat := vacated, Next(slots.Length, vacated);
      ghost var goal := Shift(slots[..], home, rule, hole, cur);
      while true
        invariant hole < slots.Length && cur < slots.Length && slots[hole].Empty?
        invariant goal == Shift(slots[..], home, rule, hole, cur)
        decreases Displacement(slots[..], home, slots.Length), Dist(slots.Length, cur, hole)
      {
        ghost var t := slots[..];
        if slots[cur].Empty? {
          break;
        }
        if Pulls(slots[..], home, rule, hole, cur) {
          MoveShrinksDisplacement(t, home, rule, hole, cur);
          slots[hole] := slots[cur];
          slots[cur] := Empty;
          assert slots[..] == Moved(t, hole, cur);
          hole := cur;
        }
        cur := Next(slots.Length, cur);
      }
    }

    /** Erase by key. With the non-strict rule the table always stays sound; with the code's
        strict rule it does exactly when the erase strands no entry. */
    method Erase(key: Key) returns (found: bool)
      requires Valid()
      requires HasEmpty(slots[..]) || key in Contents()
      modifies this`size, slots
      ensures found == (key in old(Contents()))
      ensures UniqueKeys(slots[..]) && Contents() == old(Contents()) - {key}
      ensures size == old(size) - if found then 1 else 0
      ensures !found ==> slots[..] == old(slots[..])
      ensures found ==> old(SlotOf(key).Some?) && slots[..] == old(Erased(slots[..], home, rule, SlotOf(key).value))
      ensures rule == AtLeast ==> Valid()
      ensures found && rule == Strict ==> (Valid() <==> !old(Strands(slots[..], home, SlotOf(key).value)))
      ensures old(CleanAt(key)) ==> Valid()
    {
      ContentsHolds(slots[..]);
      var p := Locate(key);
      if slots[p].Empty? {
        assert Contents() - {key} == Contents();
        return false;
      }
      EraseAt(p);
      return true;
    }

    /** The rest of erase, once the entry has been found. */
    method EraseAt(p: nat)
      requires Valid() && p < slots.Length && slots[p].Full?
      modifies this`size, slots
      ensures slots[..] == Erased(old(slots[..]), home, rule, p)
      ensures UniqueKeys(slots[..]) && Contents() == old(Contents()) - {old(slots[p].key)}
      ensures size == old(size) - 1
      ensures Valid() <==> Sound(slots[..], home)
      ensures rule == AtLeast ==> Valid()
      ensures rule == Strict ==> (Valid() <==> !old(Strands(slots[..], home, p)))
      ensures old(Clean(slots[..], home, p)) ==> Valid()
    {
      ghost var t := slots[..];
      EraseFacts(t, p);
      slots[p] := Empty;
      size := size - 1;
      assert slots[..] == t[p := Empty];
      PullBack(p);
    }

    lemma EraseFacts(t: Table<V>, p: nat)
      requires Sound(t, home) && p < |t| && t[p].Full?
      ensures var u := Erased(t, home, rule, p);
              && UniqueKeys(u)
              && SlotTables.Contents(u) == SlotTables.Contents(t) - {t[p].key}
              && |SlotTables.Contents(u)| == |SlotTables.Contents(t)| - 1
              && (rule == AtLeast ==> Sound(u, home))
              && (rule == Strict ==> (Sound(u, home) <==> !Strands(t, home, p)))
              && (Clean(t, home, p) ==> Sound(u, home) && u == t[p := Empty])
    {
      ErasedRemoves(t, home, rule, p);
      ContentsHolds(t);
      var m := SlotTables.Contents(t);
      assert m.Keys == (m - {t[p].key}).Keys + {t[p].key};
      if rule == AtLeast {
        EraseAtLeastKeepsSound(t, home, p);
      }
      if rule == Strict {
        EraseStrictKeepsSoundIff(t, home, p);
      }
      if Clean(t, home, p) {
        CleanEraseOnlyVacates(t, home, rule, p);
      }
    }

    method Clear()
      requires Hashes(home, slots.Length)
      modifies this`size, slots
      ensures Valid() && Contents() == map[]
    {
      forall i | 0 <= i < slots.Length {
        slots[i] := Empty;
      }
      size := 0;
      EmptyTable(slots[..], home);
    }
  }
}
