/** Handle tables: slots that are taken and given back, the lowest free one first. */
module Handles {

  // A table grows by this many slots.
  const H_INCR: nat := 16

  datatype Slot<T> = Deleted | Live(value: T)

  /** The first free slot, or the place behind the last one. */
  function FreeSlot<T>(slots: seq<Slot<T>>): (r: nat)
    ensures r <= |slots| && (r < |slots| ==> slots[r].Deleted?) && forall i :: 0 <= i < r ==> slots[i].Live?
  {
    if slots == [] || slots[0].Deleted? then 0 else 1 + FreeSlot(slots[1..])
  }

  /** The slots with a new entry in the first free place. */
  function Placed<T>(slots: seq<Slot<T>>, slot: Slot<T>): (slots': seq<Slot<T>>)
    ensures var r := FreeSlot(slots); r < |slots'| && slots'[r] == slot
    ensures |slots'| == if FreeSlot(slots) < |slots| then |slots| else |slots| + 1
    ensures forall i :: 0 <= i < |slots| && i != FreeSlot(slots) ==> slots'[i] == slots[i]
  {
    var r := FreeSlot(slots);
    if r < |slots| then slots[r := slot] else slots + [slot]
  }

  /** Free slots at the end are forgotten. */
  function Topped<T>(slots: seq<Slot<T>>): (kept: seq<Slot<T>>)
    ensures kept <= slots && (kept != [] ==> kept[|kept| - 1].Live?)
    ensures forall i :: |kept| <= i < |slots| ==> slots[i].Deleted?
  {
    if slots != [] && slots[|slots| - 1].Deleted? then Topped(slots[..|slots| - 1]) else slots
  }

  /** How many slots are taken. */
  function Taken<T>(slots: seq<Slot<T>>): (n: nat)
    ensures n <= |slots|
  {
    if slots == [] then 0 else Taken(slots[..|slots| - 1]) + if slots[|slots| - 1].Live? then 1 else 0
  }

  lemma {:induction false} TakenUpdate<T>(slots: seq<Slot<T>>, i: nat, slot: Slot<T>)
    requires i < |slots|
    ensures Taken(slots[i := slot])
         == Taken(slots) - (if slots[i].Live? then 1 else 0) + (if slot.Live? then 1 else 0)
  {
    var last := |slots| - 1;
    if i < last {
      TakenUpdate(slots[..last], i, slot);
      assert slots[i := slot][..last] == slots[..last][i := slot];
    } else {
      assert slots[i := slot][..last] == slots[..last];
    }
  }

  /** A table is full exactly when no slot is free, and holds nothing exactly when all are. */
  lemma {:induction false} TakenAll<T>(slots: seq<Slot<T>>)
    ensures Taken(slots) == |slots| <==> forall i :: 0 <= i < |slots| ==> slots[i].Live?
    ensures Taken(slots) == 0 <==> forall i :: 0 <= i < |slots| ==> slots[i].Deleted?
  {
    if slots != [] {
      TakenAll(slots[..|slots| - 1]);
      assert forall i :: 0 <= i < |slots| - 1 ==> slots[i] == slots[..|slots| - 1][i];
    }
  }

  lemma {:induction false} TakenMore<T>(slots: seq<Slot<T>>, more: nat)
    ensures Taken(slots + seq(more, _ => Deleted)) == Taken(slots)
  {
    var all := slots + seq(more, _ => Deleted);
    if more == 0 {
      assert all == slots;
    } else {
      assert all[..|all| - 1] == slots + seq(more - 1, _ => Deleted);
      TakenMore(slots, more - 1);
    }
  }

  /** The first free slot does not depend on free slots at the end. */
  lemma FreeSlotIs<T>(slots: seq<Slot<T>>, r: nat)
    requires r <= |slots| && (r < |slots| ==> slots[r].Deleted?) && forall i :: 0 <= i < r ==> slots[i].Live?
    ensures FreeSlot(slots) == r
  {
    hide FreeSlot;
  }

  /** In a full table the highest slot in use is the last one. */
  lemma FullToTheTop<T>(slots: seq<Slot<T>>, max: nat)
    requires max <= |slots| == Taken(slots) && forall i :: max <= i < |slots| ==> slots[i].Deleted?
    ensures max == |slots|
  {
    hide Taken;
    if max < |slots| {
      FreeNotFull(slots, max);
    }
  }

  lemma FreeNotFull<T>(slots: seq<Slot<T>>, i: nat)
    requires i < |slots| && slots[i].Deleted?
    ensures Taken(slots) < |slots|
  {
    TakenAll(slots);
  }

  /** One more than the highest slot in use, found from the end. */
  method Highest<T>(slots: seq<Slot<T>>) returns (n: nat)
    ensures n <= |slots| && slots[..n] == Topped(slots)
  {
    n := |slots|;
    assert slots[..n] == slots;
    while n > 0 && slots[n - 1].Deleted?
      invariant n <= |slots| && Topped(slots) == Topped(slots[..n])
    {
      assert slots[..n][..n - 1] == slots[..n - 1];
      n := n - 1;
    }
  }

  // --- What a table holds, slot by slot ---

  /** The entry under a handle; beyond the last one there is none. */
  function At<T>(slots: seq<Slot<T>>, i: int): Slot<T> {
    if 0 <= i < |slots| then slots[i] else Deleted
  }

  predicate LastInUse<T>(slots: seq<Slot<T>>) {
    slots != [] ==> slots[|slots| - 1].Live?
  }

  /** A list that ends in an entry in use is determined by its entries. */
  lemma SameSlots<T>(a: seq<Slot<T>>, b: seq<Slot<T>>)
    requires LastInUse(a) && LastInUse(b) && forall i: nat :: At(a, i) == At(b, i)
    ensures a == b
  {
    assert At(a, |a| - 1) == At(b, |a| - 1) || a == [];
    assert At(a, |b| - 1) == At(b, |b| - 1) || b == [];
    forall i | 0 <= i < |a| ensures |a| == |b| && a[i] == b[i] {
      assert At(a, i) == At(b, i);
    }
  }

  class HandleTable<T(0)> {
    // The slots, how many are taken, and one more than the highest one in use.
    var slots: array<Slot<T>>
    var used: nat
    var max: nat

    ghost predicate Valid()
      reads this, slots
    {
      && slots.Length % H_INCR == 0 && used == Taken(slots[..]) && max <= slots.Length
      && (max > 0 ==> slots[max - 1].Live?) && forall i :: max <= i < slots.Length ==> slots[i].Deleted?
    }

    /** The slots up to the highest one in use. */
    ghost function Contents(): seq<Slot<T>>
      reads this, slots
      requires Valid()
    {
      slots[..max]
    }

    constructor ()
      ensures Valid() && Contents() == [] && fresh(slots)
    {
      slots := new Slot<T>[0];
      used, max := 0, 0;
    }

    /** Stores an entry in the lowest free slot, growing the table if there is none. */
    method AllocEntry(value: T) returns (handle: nat)
      requires Valid()
      modifies this, slots
      ensures Valid() && (slots == old(slots) || fresh(slots))
      ensures handle == FreeSlot(old(Contents())) && Contents() == Placed(old(Contents()), Live(value))
    {
      hide FreeSlot, Placed, Taken;
      handle := FindFree();
      if handle == slots.Length {
        Grow();
      }
      Store(handle, value);
    }

    method FindFree() returns (handle: nat)
      requires Valid()
      ensures handle == FreeSlot(Contents()) && handle <= max && (handle == slots.Length ==> used == slots.Length)
      ensures handle < slots.Length ==> slots[handle].Deleted?
    {
      hide FreeSlot, Taken;
      TakenAll(slots[..]);
      if used < slots.Length {
        handle := 0;
        while handle < slots.Length && slots[handle].Live?
          invariant handle <= max && forall i :: 0 <= i < handle ==> slots[i].Live?
        {
          handle := handle + 1;
        }
      } else {
        FullToTheTop(slots[..], max);
        handle := slots.Length;
      }
      FreeSlotIs(slots[..max], handle);
    }

    /** Gives a slot back; free slots at the end no longer count, and an empty table gives back its memory. */
    method Free(handle: nat)
      requires Valid() && handle < max && slots[handle].Live?
      modifies this, slots
      ensures Valid() && (slots == old(slots) || fresh(slots))
      ensures Contents() == Topped(old(Contents())[handle := Deleted])
    {
      hide Topped, Taken;
      TakenUpdate(slots[..], handle, Deleted);
      ghost var was := slots[..max];
      slots[handle] := Deleted;
      assert slots[..] == old(slots[..])[handle := Deleted];
      used := used - 1;
      assert slots[..max] == was[handle := Deleted];
      TakenAll(slots[..]);
      max := Highest(slots[..max]);
      if used == 0 {
        slots := new Slot<T>[0];
        TakenAll(slots[..]);
      }
    }

    method Grow()
      requires Valid() && used == slots.Length
      modifies this
      ensures Valid() && fresh(slots) && slots.Length == old(slots.Length) + H_INCR
      ensures slots[..old(slots.Length)] == old(slots[..]) && max == old(max)
      ensures slots[old(slots.Length)].Deleted?
    {
      hide Taken;
      ghost var was := slots[..];
      var bigger := new Slot<T>[slots.Length + H_INCR](_ => Deleted);
      for i := 0 to slots.Length
        invariant fresh(bigger) && slots == old(slots) && slots[..] == was && max == old(max) && used == old(used)
        invariant bigger[..] == was[..i] + seq(bigger.Length - i, _ => Deleted)
      {
        bigger[i] := slots[i];
      }
      assert was[..slots.Length] == was;
      TakenMore(was, H_INCR);
      slots := bigger;
    }

    method Store(handle: nat, value: T)
      requires Valid() && handle < slots.Length && slots[handle].Deleted?
      requires handle == FreeSlot(slots[..max])
      modifies this, slots
      ensures Valid() && slots == old(slots) && Contents() == Placed(old(Contents()), Live(value))
    {
      hide Taken, FreeSlot;
      TakenUpdate(slots[..], handle, Live(value));
      ghost var was := slots[..max];
      slots[handle] := Live(value);
      used := used + 1;
      if handle >= max {
        max := handle + 1;
      }
      assert slots[..max] == Placed(was, Live(value));
    }

    /** Gives an entry in use a new value, in place. */
    method Replace(handle: nat, value: T)
      requires Valid() && handle < max && slots[handle].Live?
      modifies slots
      ensures Valid() && Contents() == old(Contents())[handle := Live(value)]
    {
      hide Taken;
      TakenUpdate(slots[..], handle, Live(value));
      ghost var was := slots[..max];
      slots[handle] := Live(value);
      assert slots[..] == old(slots[..])[handle := Live(value)];
      assert slots[..max] == was[handle := Live(value)];
    }
  }
}
