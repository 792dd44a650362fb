/** The driver itself (main.c): the operations change the device and the handle in place. */
module AesdDevice {
  import opened Sequences
  import opened Offsets
  import opened Kernel
  import opened CircularBuffer
  import opened DriverModel
  import opened FileOps

  /** An open handle; opening starts it at position 0. */
  class File {
    var fPos: int

    constructor ()
      ensures fPos == 0
    {
      fPos := 0;
    }
  }

  /** Occupied slots are stored entries, and slots with different numbers hold different blocks. */
  lemma SlotsAreStored(d: Dev, slots: seq<Entry>, inOffs: nat, outOffs: nat, full: bool, k: nat)
    requires Owned(d) && Layout(slots, inOffs, outOffs, full, d.added) && k < CAPACITY
    ensures slots[k].buffptr != NULL ==>
              (k - outOffs) % CAPACITY < |Stored(d)| && slots[k] == Stored(d)[(k - outOffs) % CAPACITY] &&
              slots[k].buffptr in d.heap.live && slots[k].buffptr != d.working
  {
    hide Layout, Conserved, NoDuplicates;
    LayoutBounds(slots, inOffs, outOffs, full, d.added);
    var j := (k - outOffs) % CAPACITY;
    ResidueDistance(outOffs, k);
    ReadsInOrder(slots, inOffs, outOffs, full, d.added, j);
    if j < |Stored(d)| {
      assert Ptrs(Stored(d))[j] in Ptrs(Stored(d));
    }
  }

  lemma SlotsDistinct(d: Dev, slots: seq<Entry>, inOffs: nat, outOffs: nat, full: bool, k: nat, l: nat)
    requires Owned(d) && Layout(slots, inOffs, outOffs, full, d.added) && k < l < CAPACITY
    requires slots[k].buffptr != NULL && slots[l].buffptr != NULL
    ensures slots[k].buffptr != slots[l].buffptr
  {
    SlotsAreStored(d, slots, inOffs, outOffs, full, k);
    SlotsAreStored(d, slots, inOffs, outOffs, full, l);
    var i, j := (k - outOffs) % CAPACITY, (l - outOffs) % CAPACITY;
    assert i != j by {
      ResidueDistance(outOffs, k);
      ResidueDistance(outOffs, l);
    }
    assert Ptrs(Stored(d))[i] != Ptrs(Stored(d))[j];
  }

  ghost predicate HeldBefore(slots: seq<Entry>, index: nat, p: Ptr)
    requires index <= |slots|
  {
    exists k :: 0 <= k < index && slots[k].buffptr == p
  }

  lemma SlotNotYetFreed(d: Dev, slots: seq<Entry>, inOffs: nat, outOffs: nat, full: bool, k: nat)
    requires Owned(d) && Layout(slots, inOffs, outOffs, full, d.added) && k < CAPACITY
    ensures NULL !in d.heap.live
    ensures slots[k].buffptr != NULL ==>
              slots[k].buffptr in d.heap.live && !HeldBefore(slots, k, slots[k].buffptr)
    ensures forall p :: HeldBefore(slots, k + 1, p) <==> HeldBefore(slots, k, p) || p == slots[k].buffptr
  {
    SlotsAreStored(d, slots, inOffs, outOffs, full, k);
    if slots[k].buffptr != NULL && HeldBefore(slots, k, slots[k].buffptr) {
      var l :| 0 <= l < k && slots[l].buffptr == slots[k].buffptr;
      SlotsDistinct(d, slots, inOffs, outOffs, full, l, k);
    }
    assert HeldBefore(slots, k + 1, slots[k].buffptr);
  }

  /** Outside the slots only the working entry is live. */
  lemma OnlyWorkingNotHeld(d: Dev, slots: seq<Entry>, inOffs: nat, outOffs: nat, full: bool)
    requires Owned(d) && Layout(slots, inOffs, outOffs, full, d.added)
    ensures forall p :: p in d.heap.live && !HeldBefore(slots, CAPACITY, p) ==> p == d.working
    ensures d.working != NULL ==> d.working in d.heap.live && !HeldBefore(slots, CAPACITY, d.working)
  {
    forall p | p in d.heap.live && p != d.working ensures HeldBefore(slots, CAPACITY, p) {
      var j :| 0 <= j < |Stored(d)| && Ptrs(Stored(d))[j] == p;
      ReadsInOrder(slots, inOffs, outOffs, full, d.added, j);
      assert slots[(outOffs + j) % CAPACITY].buffptr == p;
    }
    if d.working != NULL && HeldBefore(slots, CAPACITY, d.working) {
      var k :| 0 <= k < CAPACITY && slots[k].buffptr == d.working;
      SlotsAreStored(d, slots, inOffs, outOffs, full, k);
    }
  }

  class AesdDevice {
    const circularBuffer: CircularBuffer
    var workingEntry: Ptr
    var previousCount: nat
    var heap: Heap
    ghost var history: seq<string>

    ghost function View(): Dev
      reads this, circularBuffer
    {
      Dev(heap, circularBuffer.added, workingEntry, previousCount, history)
    }

    ghost predicate Valid()
      reads this, circularBuffer, circularBuffer.entry
    {
      circularBuffer.Valid() && Owned(View())
    }

    constructor ()
      ensures Valid() && View() == FreshDev
      ensures fresh(circularBuffer) && fresh(circularBuffer.entry)
    {
      circularBuffer := new CircularBuffer();
      workingEntry, previousCount, heap := NULL, 0, EmptyHeap;
      history := [];
    }

    method Read(filp: File, count: nat, env: Env) returns (retval: int, data: string)
      requires Valid()
      modifies filp
      ensures (retval, data, filp.fPos) == ReadNext(View(), old(filp.fPos), count, env)
    {
      hide Owned, Layout, ReadNext, Locate, ToSize;
      data := "";
      ReadNotFound(View(), filp.fPos, count, env);
      if !env.locked {
        return -ERESTARTSYS, "";
      }
      var slot, entryOffsetByte := circularBuffer.FindEntryOffsetForFpos(ToSize(filp.fPos), 0);
      if slot.Some? {
        ReadFound(View(), filp.fPos, count, env);
        circularBuffer.SlotFromOldest(Locate(Sizes(Stored(View())), ToSize(filp.fPos)).value.0);
        var entry := circularBuffer.entry[slot.value];
        var bytesToCopy := entry.size - entryOffsetByte;
        if bytesToCopy > count {
          bytesToCopy := count;
        }
        if !env.copied {
          return -EFAULT, "";
        }
        data := Peek(heap.live[entry.buffptr], entryOffsetByte, bytesToCopy, env.stray);
        filp.fPos := filp.fPos + bytesToCopy;
        retval := bytesToCopy;
      } else {
        retval := 0;
      }
    }

    method Write(buf: string, env: Env) returns (retval: int)
      requires Valid() && 0 < |buf| + previousCount
      modifies this, circularBuffer, circularBuffer.entry
      ensures Valid()
      ensures (View(), retval) == WriteNext(old(View()), buf, env)
    {
      hide Owned, Layout, Grow, Settle;
      ghost var d := View();
      if !env.locked {
        return -ERESTARTSYS;
      }
      GrowOwned(d, |buf|, env);
      var ready;
      if workingEntry == NULL {
        ready := AllocateWorkingEntry(|buf|, env);
      } else {
        ready := ExtendWorkingEntry(|buf|, env);
      }
      if !ready {
        return -ENOMEM;
      }
      if !env.copied {
        CleanupWorkingEntry();
        return -EFAULT;
      }
      CopiedOwned(d, buf, env);
      heap := Poke(heap, workingEntry, previousCount, buf);
      history := history + [buf];
      FinishWrite(|buf|, env);
      retval := |buf|;
    }

    /** The first bytes of a command: a new, cleared block. */
    method AllocateWorkingEntry(count: nat, env: Env) returns (ready: bool)
      requires Valid() && workingEntry == NULL
      modifies this
      ensures Valid() && ready == !env.alloc.NoMemory?
      ensures View() == (if ready then Grow(old(View()), count, env) else old(View()))
      ensures ready ==> workingEntry != NULL
    {
      GrowOwned(View(), count, env);
      if env.alloc.NoMemory? {
        return false;
      }
      workingEntry, heap := heap.next, Kmalloc(heap, count, env.stray);
      heap := Poke(heap, workingEntry, 0, seq(count, _ => '\0'));
      ready := true;
    }

    /** Further bytes of a command: the block is extended; on failure it is given up. */
    method ExtendWorkingEntry(count: nat, env: Env) returns (ready: bool)
      requires Valid() && workingEntry != NULL
      modifies this
      ensures Valid() && ready == !env.alloc.NoMemory?
      ensures View() == if ready then Grow(old(View()), count, env) else Abandon(old(View()))
      ensures ready ==> workingEntry != NULL
    {
      hide Owned, Layout;
      GrowOwned(View(), count, env);
      if env.alloc.NoMemory? {
        CleanupWorkingEntry();
        return false;
      }
      ghost var g := Grow(View(), count, env);
      var (h, temp) := Krealloc(heap, workingEntry, previousCount + count, env.alloc.InPlace?, env.stray);
      workingEntry := temp;
      heap := Poke(h, workingEntry, previousCount, seq(count, _ => '\0'));
      assert View() == g;
      ready := true;
    }

    /** The exit_cleanup_working_entry label: the count is left as it is. */
    method CleanupWorkingEntry()
      requires Valid() && workingEntry != NULL
      modifies this
      ensures Valid() && View() == Abandon(old(View()))
    {
      AbandonOwned(View());
      heap := Kfree(heap, workingEntry);
      workingEntry := NULL;
    }

    /** The last-byte test of a write and what follows it. */
    method FinishWrite(count: nat, env: Env)
      requires Valid() && workingEntry != NULL && 0 < count + previousCount
      modifies this, circularBuffer, circularBuffer.entry
      ensures Valid()
      ensures |old(View()).added| < CAPACITY || Stored(old(View()))[0].buffptr in old(View()).heap.live
      ensures View() == Settle(old(View()), count + old(previousCount), env)
    {
      hide Owned, Layout;
      ghost var c := View();
      CommitOwned(c, count + previousCount);
      SettleOwned(c, count + previousCount, env);
      if Peek(heap.live[workingEntry], count + previousCount - 1, 1, env.stray)[0] == '\n' {
        var displaced := circularBuffer.AddEntry(Entry(workingEntry, count + previousCount));
        if displaced != NULL {
          heap := Kfree(heap, displaced);
        }
        workingEntry := NULL;
        previousCount := 0;
      } else {
        previousCount := previousCount + count;
      }
    }

    method Llseek(filp: File, off: int, whence: int) returns (retval: int)
      requires Valid()
      modifies filp
      ensures (retval, filp.fPos) == LlseekNext(View(), old(filp.fPos), off, whence)
    {
      var newpos;
      if whence == SEEK_SET {
        newpos := ToLoff(off);
      } else if whence == SEEK_CUR {
        newpos := ToLoff(filp.fPos + off);
      } else if whence == SEEK_END {
        var charOffsetBytes := circularBuffer.TotalSize();
        newpos := ToLoff(charOffsetBytes + off);
      } else {
        return -EINVAL;
      }
      if newpos < 0 {
        return -EINVAL;
      }
      filp.fPos := newpos;
      retval := newpos;
    }

    /** The loop over the commands before the requested one; None when one of them is missing. */
    method SizeOfPreceding(writeCmd: nat) returns (total: Option<int>)
      requires circularBuffer.Valid() && writeCmd < CAPACITY
      ensures var sizes := Sizes(circularBuffer.Contents());
              total == if writeCmd <= |sizes| then Some(ToInt(Sum(sizes[..writeCmd]))) else None
    {
      ghost var sizes := Sizes(circularBuffer.Contents());
      var writeCmdSize := 0;
      for i := 0 to writeCmd
        invariant i <= |sizes| && writeCmdSize == ToInt(Sum(sizes[..i]))
      {
        var entry := circularBuffer.EntryFromOldest(i);
        if entry.buffptr == NULL {
          return None;
        }
        SumPrefix(sizes, i);
        ToIntAdd(Sum(sizes[..i]), sizes[i]);
        writeCmdSize := ToInt(writeCmdSize + entry.size);
      }
      total := Some(writeCmdSize);
    }

    method Ioctl(filp: File, cmd: int, arg: SeekTo, copied: bool) returns (retval: int)
      requires circularBuffer.Valid()
      modifies filp
      ensures (retval, filp.fPos) == IoctlNext(View(), old(filp.fPos), cmd, arg, copied)
      ensures var stored := circularBuffer.Contents();
              retval == 0 <==> cmd == 0xC008_1601 && copied && arg.writeCmd < |stored|
                               && arg.writeCmdOffset <= stored[arg.writeCmd].size
      ensures retval != 0 ==> filp.fPos == old(filp.fPos) && retval in {-25, -14, -22}
    {
      hide Layout, ToInt;
      IoctlExactly(View(), filp.fPos, cmd, arg, copied);
      if cmd != IOCSEEKTO {
        return -ENOTTY;
      }
      if !copied {
        return -EFAULT;
      }
      if arg.writeCmd >= CAPACITY {
        return -EINVAL;
      }
      ghost var sizes := Sizes(circularBuffer.Contents());
      var precedingSize := SizeOfPreceding(arg.writeCmd);
      if precedingSize.None? {
        return -EINVAL;
      }
      var writeCmdSize := precedingSize.value;
      var entry := circularBuffer.EntryFromOldest(arg.writeCmd);
      if entry.buffptr == NULL {
        return -EINVAL;
      }
      if arg.writeCmdOffset > entry.size {
        return -EINVAL;
      }
      ToIntAdd(Sum(sizes[..arg.writeCmd]), arg.writeCmdOffset);
      writeCmdSize := ToInt(writeCmdSize + arg.writeCmdOffset);
      filp.fPos := writeCmdSize;
      retval := 0;
    }

    /** Unloading the module: afterwards every block ever allocated has been freed exactly once. */
    method CleanupModule()
      requires Valid()
      modifies this`heap
      ensures heap.live == map[] && Conserved(heap)
      ensures heap.next == old(heap.next) && old(heap.freed) <= heap.freed
      ensures forall p :: 1 <= p < heap.next ==> p in heap.freed
    {
      ghost var d := View();
      ghost var slots := circularBuffer.entry[..];
      for index := 0 to CAPACITY
        invariant Conserved(heap) && heap.next == d.heap.next && d.heap.freed <= heap.freed
        invariant forall p :: p in heap.live <==> p in d.heap.live && !HeldBefore(slots, index, p)
      {
        SlotNotYetFreed(d, slots, circularBuffer.inOffs, circularBuffer.outOffs, circularBuffer.full, index);
        if circularBuffer.entry[index].buffptr != NULL {
          KfreeConserves(heap, circularBuffer.entry[index].buffptr);
          heap := Kfree(heap, circularBuffer.entry[index].buffptr);
        }
      }
      OnlyWorkingNotHeld(d, slots, circularBuffer.inOffs, circularBuffer.outOffs, circularBuffer.full);
      if workingEntry != NULL {
        KfreeConserves(heap, workingEntry);
        heap := Kfree(heap, workingEntry);
      }
      assert heap.live.Keys == {};
    }
  }
}
