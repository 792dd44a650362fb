/** The ring of the ten most recent commands (aesd-circular-buffer.c and .h). */
module CircularBuffer {
  import opened Sequences
  import opened Offsets
  import opened Kernel

  datatype Entry = Entry(buffptr: Ptr, size: nat)

  const EMPTY_SLOT := Entry(NULL, 0)

  function Sizes(entries: seq<Entry>): seq<nat> {
    seq(|entries|, i requires 0 <= i < |entries| => entries[i].size)
  }

  /** The slot of the entry added with number `t`. */
  function SlotOf(t: nat): (k: nat)
    ensures k < CAPACITY
  {
    t % CAPACITY
  }

  // Slot numbers are residues; these are the only facts about them the proofs need.

  lemma ResidueAdd(n: nat, j: nat)
    ensures (n % CAPACITY + j) % CAPACITY == (n + j) % CAPACITY
    ensures (n + CAPACITY) % CAPACITY == n % CAPACITY
  {
  }

  lemma ResidueInjective(a: nat, b: nat)
    requires a < b < a + CAPACITY
    ensures a % CAPACITY != b % CAPACITY
  {
  }

  /** The slot `k` places on from `start`, and how far on it is. */
  lemma ResidueDistance(start: nat, k: nat)
    requires start < CAPACITY && k < CAPACITY
    ensures 0 <= (k - start) % CAPACITY < CAPACITY
    ensures (start + (k - start) % CAPACITY) % CAPACITY == k
  {
  }

  /**
   The state of the ring after exactly the adds `added` since it was initialised, in
   closed form: each of the last ten is in the slot of its number modulo ten, and slots
   never reached are empty.
   */
  ghost predicate Layout(slots: seq<Entry>, inOffs: nat, outOffs: nat, full: bool, added: seq<Entry>) {
    && |slots| == CAPACITY
    && (forall e :: e in added ==> e.buffptr != NULL)
    && inOffs == |added| % CAPACITY
    && outOffs == (if |added| < CAPACITY then 0 else |added| % CAPACITY)
    && full == (CAPACITY <= |added|)
    && (forall t :: 0 <= t < |added| && |added| - CAPACITY <= t ==> slots[SlotOf(t)] == added[t])
    && (forall k :: |added| <= k < CAPACITY ==> slots[k] == EMPTY_SLOT)
  }

  lemma LayoutBounds(slots: seq<Entry>, inOffs: nat, outOffs: nat, full: bool, added: seq<Entry>)
    requires Layout(slots, inOffs, outOffs, full, added)
    ensures |slots| == CAPACITY && inOffs < CAPACITY && outOffs < CAPACITY
    ensures full == (CAPACITY <= |added|)
    ensures !full ==> outOffs == 0 && inOffs == |added| && LastTen(added) == added
    ensures outOffs == if |added| < CAPACITY then 0 else |added| % CAPACITY
  {
  }

  /** What the closed form says of one entry. */
  lemma EntryInSlot(slots: seq<Entry>, inOffs: nat, outOffs: nat, full: bool, added: seq<Entry>, t: nat)
    requires Layout(slots, inOffs, outOffs, full, added) && t < |added| && |added| - CAPACITY <= t
    ensures |slots| == CAPACITY && slots[SlotOf(t)] == added[t] && added[t].buffptr != NULL
  {
    hide SlotOf;
    assert added[t] in added;
  }

  /** Slots read from out_offs on are the ten most recent entries, then empty slots. */
  lemma ReadsInOrder(slots: seq<Entry>, inOffs: nat, outOffs: nat, full: bool, added: seq<Entry>, j: nat)
    requires Layout(slots, inOffs, outOffs, full, added) && j < CAPACITY
    ensures (outOffs + j) % CAPACITY < |slots|
    ensures j < |LastTen(added)| ==> slots[(outOffs + j) % CAPACITY] == LastTen(added)[j]
                                     && LastTen(added)[j].buffptr != NULL
    ensures |LastTen(added)| <= j ==> slots[(outOffs + j) % CAPACITY] == EMPTY_SLOT
  {
    hide Layout;
    LayoutBounds(slots, inOffs, outOffs, full, added);
    if j < |LastTen(added)| {
      ReadsRecent(slots, inOffs, outOffs, full, added, j);
    } else {
      ReadsEmpty(slots, inOffs, outOffs, full, added, j);
    }
  }

  lemma ReadsRecent(slots: seq<Entry>, inOffs: nat, outOffs: nat, full: bool, added: seq<Entry>, j: nat)
    requires Layout(slots, inOffs, outOffs, full, added) && j < |LastTen(added)|
    ensures (outOffs + j) % CAPACITY < |slots|
    ensures slots[(outOffs + j) % CAPACITY] == LastTen(added)[j] && LastTen(added)[j].buffptr != NULL
  {
    hide SlotOf, Layout;
    LayoutBounds(slots, inOffs, outOffs, full, added);
    var t := RecentNumber(|added|, j);
    EntryInSlot(slots, inOffs, outOffs, full, added, t);
  }

  lemma ReadsEmpty(slots: seq<Entry>, inOffs: nat, outOffs: nat, full: bool, added: seq<Entry>, j: nat)
    requires Layout(slots, inOffs, outOffs, full, added) && |LastTen(added)| <= j < CAPACITY
    ensures (outOffs + j) % CAPACITY < |slots|
    ensures slots[(outOffs + j) % CAPACITY] == EMPTY_SLOT
  {
    hide SlotOf;
    assert outOffs == 0 && |added| <= j;
  }

  /** The number of the j-th oldest of the last ten of `n` entries, and the slot it is in. */
  lemma RecentNumber(n: nat, j: nat) returns (t: nat)
    requires j < CAPACITY && j < n
    ensures t == (if n < CAPACITY then j else n - CAPACITY + j) && t < n && n - CAPACITY <= t
    ensures ((if n < CAPACITY then 0 else n % CAPACITY) + j) % CAPACITY == SlotOf(t)
  {
    t := if n < CAPACITY then j else n - CAPACITY + j;
    ResidueAdd(n, j);
    ResidueAdd(t, 0);
  }

  /** Slot `k` holds the most recent of the entries whose number is congruent to `k` modulo ten. */
  lemma SlotHoldsNewest(slots: seq<Entry>, inOffs: nat, outOffs: nat, full: bool, added: seq<Entry>, t: nat)
    requires Layout(slots, inOffs, outOffs, full, added) && t < |added|
    requires forall u :: t < u < |added| ==> SlotOf(u) != SlotOf(t)
    ensures slots[SlotOf(t)] == added[t]
  {
    ResidueAdd(t, 0);
    var next := t + CAPACITY;
    assert SlotOf(next) == SlotOf(t);
  }

  /**
   The window of occupied slots: it starts at out_offs, ends just before in_offs, and the
   offsets coincide exactly when the ring is empty or full.
   */
  lemma OccupiedWindow(slots: seq<Entry>, inOffs: nat, outOffs: nat, full: bool, added: seq<Entry>, k: nat)
    requires Layout(slots, inOffs, outOffs, full, added) && k < CAPACITY
    ensures outOffs < CAPACITY && |slots| == CAPACITY
    ensures slots[k].buffptr != NULL <==> (k - outOffs) % CAPACITY < |LastTen(added)|
    ensures full <==> |LastTen(added)| == CAPACITY
    ensures inOffs == (outOffs + |LastTen(added)|) % CAPACITY
    ensures inOffs == outOffs <==> added == [] || full
  {
    OffsetsOfWindow(|added|);
    var j := (k - outOffs) % CAPACITY;
    ResidueDistance(outOffs, k);
    ReadsInOrder(slots, inOffs, outOffs, full, added, j);
  }

  lemma OffsetsOfWindow(n: nat)
    ensures var outOffs, stored := if n < CAPACITY then 0 else n % CAPACITY, if n < CAPACITY then n else CAPACITY;
            n % CAPACITY == (outOffs + stored) % CAPACITY && (n % CAPACITY == outOffs <==> n == 0 || CAPACITY <= n)
  {
    ResidueAdd(n, CAPACITY);
  }

  /** Sizes of the occupied slots, in array order. */
  function PhysicalTotal(slots: seq<Entry>): nat {
    if slots == [] then 0
    else PhysicalTotal(slots[..|slots| - 1]) +
         (if slots[|slots| - 1].buffptr != NULL then slots[|slots| - 1].size else 0)
  }

  lemma {:induction false} PhysicalTotalIsSum(slots: seq<Entry>)
    requires forall s :: s in slots ==> s.buffptr != NULL || s.size == 0
    ensures PhysicalTotal(slots) == Sum(Sizes(slots))
  {
    if slots == [] {
    } else {
      var front := slots[..|slots| - 1];
      PhysicalTotalIsSum(front);
      assert slots[|slots| - 1] in slots;
      assert Sizes(slots) == Sizes(front) + [slots[|slots| - 1].size];
      SumAppend(Sizes(front), [slots[|slots| - 1].size]);
    }
  }

  lemma {:induction false} SumOfZeros(sizes: seq<nat>)
    requires forall i :: 0 <= i < |sizes| ==> sizes[i] == 0
    ensures Sum(sizes) == 0
  {
    if sizes != [] {
      SumOfZeros(sizes[1..]);
    }
  }

  lemma RotatedTotal(slots: seq<Entry>, start: nat, kept: seq<Entry>)
    requires |slots| == |kept| == CAPACITY && start < CAPACITY
    requires forall j :: 0 <= j < CAPACITY ==> kept[j] == slots[(start + j) % CAPACITY]
    ensures Sum(Sizes(slots)) == Sum(Sizes(kept))
  {
    var low, high := Sizes(slots)[..start], Sizes(slots)[start..];
    assert Sizes(slots) == low + high;
    assert Sizes(kept) == high + low;
    SumAppend(low, high);
    SumAppend(high, low);
  }

  lemma PaddedTotal(slots: seq<Entry>, kept: seq<Entry>)
    requires kept <= slots && forall j :: |kept| <= j < |slots| ==> slots[j] == EMPTY_SLOT
    ensures Sum(Sizes(slots)) == Sum(Sizes(kept))
  {
    var rest := Sizes(slots[|kept|..]);
    assert Sizes(slots) == Sizes(kept) + rest;
    SumAppend(Sizes(kept), rest);
    SumOfZeros(rest);
  }

  lemma FullOrder(slots: seq<Entry>, inOffs: nat, outOffs: nat, added: seq<Entry>)
    requires Layout(slots, inOffs, outOffs, true, added)
    ensures |LastTen(added)| == CAPACITY
    ensures forall j :: 0 <= j < CAPACITY ==> LastTen(added)[j] == slots[(outOffs + j) % CAPACITY]
  {
    forall j | 0 <= j < CAPACITY ensures LastTen(added)[j] == slots[(outOffs + j) % CAPACITY] {
      ReadsInOrder(slots, inOffs, outOffs, true, added, j);
    }
  }

  lemma PartialOrder(slots: seq<Entry>, inOffs: nat, added: seq<Entry>)
    requires Layout(slots, inOffs, 0, false, added)
    ensures added <= slots
    ensures forall j :: |added| <= j < |slots| ==> slots[j] == EMPTY_SLOT
  {
    forall j | 0 <= j < |added| ensures slots[j] == added[j] {
      ReadsInOrder(slots, inOffs, 0, false, added, j);
    }
  }

  /** For every rotation and fill level the array-order sum is the stored total. */
  lemma PhysicalTotalIsStoredTotal(slots: seq<Entry>, inOffs: nat, outOffs: nat, full: bool, added: seq<Entry>)
    requires Layout(slots, inOffs, outOffs, full, added)
    ensures PhysicalTotal(slots) == Sum(Sizes(LastTen(added)))
  {
    hide Layout, PhysicalTotal, Sizes;
    LayoutBounds(slots, inOffs, outOffs, full, added);
    forall s | s in slots ensures s.buffptr != NULL || s.size == 0 {
      var k :| 0 <= k < |slots| && slots[k] == s;
      ResidueDistance(outOffs, k);
      ReadsInOrder(slots, inOffs, outOffs, full, added, (k - outOffs) % CAPACITY);
    }
    PhysicalTotalIsSum(slots);
    if full {
      FullOrder(slots, inOffs, outOffs, added);
      RotatedTotal(slots, outOffs, LastTen(added));
    } else {
      PartialOrder(slots, inOffs, added);
      PaddedTotal(slots, added);
    }
  }

  lemma LayoutAfterAdd(slots: seq<Entry>, inOffs: nat, outOffs: nat, full: bool, added: seq<Entry>, e: Entry)
    requires Layout(slots, inOffs, outOffs, full, added) && e.buffptr != NULL
    ensures Layout(slots[inOffs := e], (inOffs + 1) % CAPACITY,
                   if full then (outOffs + 1) % CAPACITY else outOffs,
                   full || (inOffs + 1) % CAPACITY == outOffs, added + [e])
  {
    var n := |added|;
    ResidueAdd(n, 1);
    var slots', added' := slots[inOffs := e], added + [e];
    forall t | 0 <= t < n + 1 && n + 1 - CAPACITY <= t
      ensures slots'[SlotOf(t)] == added'[t]
    {
      if t < n {
        ResidueInjective(t, n);
        assert slots[SlotOf(t)] == added[t];
      }
    }
    assert forall x :: x in added' ==> x in added || x == e;
  }

  /** The slot tested by an add is free exactly below capacity; at capacity it holds the oldest. */
  lemma NextSlot(slots: seq<Entry>, inOffs: nat, outOffs: nat, full: bool, added: seq<Entry>)
    requires Layout(slots, inOffs, outOffs, full, added)
    ensures inOffs < CAPACITY && outOffs < CAPACITY
    ensures slots[inOffs].buffptr == NULL <==> !full
    ensures full ==> inOffs == outOffs && slots[outOffs] == LastTen(added)[0]
  {
    if full {
      var t := |added| - CAPACITY;
      ResidueAdd(t, 0);
      assert slots[SlotOf(t)] == added[t] && added[t] in added;
    }
  }

  class CircularBuffer {
    const entry: array<Entry>
    var inOffs: nat
    var outOffs: nat
    var full: bool
    ghost var added: seq<Entry> // every entry added since the ring was initialised

    ghost predicate Valid()
      reads this, entry
    {
      Layout(entry[..], inOffs, outOffs, full, added)
    }

    /** The stored entries, oldest first. */
    ghost function Contents(): seq<Entry>
      reads this
    {
      LastTen(added)
    }

    constructor ()
      ensures Valid() && added == [] && fresh(entry)
    {
      entry := new Entry[CAPACITY](_ => EMPTY_SLOT);
      inOffs, outOffs, full := 0, 0, false;
      added := [];
    }

    /** The j-th slot from out_offs on: the j-th oldest entry, or empty past the last. */
    lemma SlotFromOldest(j: nat)
      requires Valid() && j < CAPACITY
      ensures (outOffs + j) % CAPACITY < entry.Length
      ensures var e := entry[(outOffs + j) % CAPACITY];
              && (e.buffptr != NULL <==> j < |Contents()|)
              && (j < |Contents()| ==> e == Contents()[j] && e.size == Sizes(Contents())[j])
    {
      ReadsInOrder(entry[..], inOffs, outOffs, full, added, j);
    }

    /** The entry at out_offs + j, wrapped round the array; it is empty past the stored ones. */
    method EntryFromOldest(j: nat) returns (e: Entry)
      requires Valid() && j < CAPACITY
      ensures e.buffptr != NULL <==> j < |Contents()|
      ensures j < |Contents()| ==> e == Contents()[j] && e.size == Sizes(Contents())[j]
    {
      SlotFromOldest(j);
      e := entry[(outOffs + j) % CAPACITY];
    }

    /** The lookup writes the out-pointer only when it finds an entry; `prior` is its old value. */
    method FindEntryOffsetForFpos(charOffset: nat, prior: nat) returns (slot: Option<nat>, offset: nat)
      requires Valid()
      ensures match Locate(Sizes(Contents()), charOffset)
              case None => slot.None? && offset == prior
              case Some(r) => slot == Some((outOffs + r.0) % CAPACITY) && offset == r.1
      ensures slot.Some? ==> slot.value < CAPACITY
    {
      slot, offset := None, prior;
      ghost var sizes := Sizes(Contents());
      var charOffsetBytes := 0;
      var i := 0;
      while i < CAPACITY
        invariant 0 <= i <= CAPACITY
        invariant charOffsetBytes <= charOffset
        invariant slot.None? && offset == prior
        invariant Locate(sizes, charOffset) ==
                  LocateFrom(sizes, if i < |sizes| then i else |sizes|, charOffset - charOffsetBytes)
      {
        var index := (outOffs + i) % CAPACITY;
        SlotFromOldest(i);
        if entry[index].buffptr != NULL {
          if charOffset < charOffsetBytes + entry[index].size {
            offset := charOffset - charOffsetBytes;
            slot := Some(index);
            break;
          }
          charOffsetBytes := charOffsetBytes + entry[index].size;
        }
        i := i + 1;
      }
    }

    /** Appends, dropping the oldest entry when ten are stored; returns the dropped pointer or NULL. */
    method AddEntry(addEntry: Entry) returns (ret: Ptr)
      requires Valid() && addEntry.buffptr != NULL
      modifies this, entry
      ensures Valid() && added == old(added) + [addEntry]
      ensures Contents() == if |old(Contents())| < CAPACITY then old(Contents()) + [addEntry]
                            else old(Contents())[1..] + [addEntry]
      ensures ret == if |old(Contents())| < CAPACITY then NULL else old(Contents())[0].buffptr
    {
      ret := NULL;
      NextSlot(entry[..], inOffs, outOffs, full, added);
      LayoutAfterAdd(entry[..], inOffs, outOffs, full, added, addEntry);
      ghost var slots := entry[..][inOffs := addEntry];
      if entry[inOffs].buffptr == NULL {
        entry[inOffs] := addEntry;
        inOffs := (inOffs + 1) % CAPACITY;
        full := inOffs == outOffs;
      } else {
        ret := entry[outOffs].buffptr;
        entry[inOffs] := addEntry;
        outOffs := (outOffs + 1) % CAPACITY;
        inOffs := (inOffs + 1) % CAPACITY;
      }
      assert entry[..] == slots;
      added := added + [addEntry];
    }

    /** The summing loop of SEEK_END, over the slots in array order. */
    method TotalSize() returns (total: nat)
      requires Valid()
      ensures total == Sum(Sizes(Contents()))
    {
      total := 0;
      for index := 0 to CAPACITY
        invariant total == PhysicalTotal(entry[..index])
      {
        assert entry[..index + 1][..index] == entry[..index];
        if entry[index].buffptr != NULL {
          total := total + entry[index].size;
        }
      }
      assert entry[..CAPACITY] == entry[..];
      PhysicalTotalIsStoredTotal(entry[..], inOffs, outOffs, full, added);
    }
  }
}
