/**
 The kernel services the driver calls: its allocator and its error codes.

 A block is named by the number of the allocation that made it, so a name is never
 reused and "freed exactly once" can be said of a whole run.
 */
module Kernel {

  type Ptr = nat
  const NULL: Ptr := 0

  const EFAULT := 14
  const ENOMEM := 12
  const EINVAL := 22
  const ENOTTY := 25
  const ERESTARTSYS := 512

  /** Live blocks with their bytes, blocks freed so far in order, and the next name. */
  datatype Heap = Heap(live: map<Ptr, string>, freed: seq<Ptr>, next: Ptr)

  const EmptyHeap := Heap(map[], [], 1)

  /** How an allocation request ends. `Moved` is a new block, `InPlace` a grown one. */
  datatype Alloc = NoMemory | InPlace | Moved

  /**
   What the kernel decides during one call: whether the lock wait was not interrupted,
   how the allocation ends, whether the user copy succeeds, and the value of any byte
   that nobody has written.
   */
  datatype Env = Env(locked: bool, alloc: Alloc, copied: bool, stray: nat -> char)

  ghost predicate Succeeds(env: Env) {
    env.locked && !env.alloc.NoMemory? && env.copied
  }

  function Kmalloc(h: Heap, n: nat, stray: nat -> char): Heap {
    h.(live := h.live[h.next := seq(n, stray)], next := h.next + 1)
  }

  /** Only a live block can be freed, which rules out a double free and a free of NULL. */
  function Kfree(h: Heap, p: Ptr): Heap
    requires p in h.live
  {
    h.(live := h.live - {p}, freed := h.freed + [p])
  }

  function Resize(block: string, n: nat, stray: nat -> char): string {
    seq(n, i requires 0 <= i < n => if i < |block| then block[i] else stray(i))
  }

  /** The block at its new size and its name: the old name, or a fresh one with the old freed. */
  function Krealloc(h: Heap, p: Ptr, n: nat, inPlace: bool, stray: nat -> char): (Heap, Ptr)
    requires p in h.live && h.next !in h.live
  {
    var block := Resize(h.live[p], n, stray);
    if inPlace then (h.(live := h.live[p := block]), p)
    else (Kfree(h.(live := h.live[h.next := block], next := h.next + 1), p), h.next)
  }

  /** Bytes stored into a block from index `at`; those that miss the block are lost. */
  function Overlay(block: string, at: nat, bytes: string): string {
    seq(|block|, i requires 0 <= i < |block| =>
      if at <= i < at + |bytes| then bytes[i - at] else block[i])
  }

  function Poke(h: Heap, p: Ptr, at: nat, bytes: string): Heap
    requires p in h.live
  {
    h.(live := h.live[p := Overlay(h.live[p], at, bytes)])
  }

  /** `n` bytes of a block from index `at`; past its end, whatever lies there. */
  function Peek(block: string, at: nat, n: nat, stray: nat -> char): string {
    seq(n, i requires 0 <= i < n => if at + i < |block| then block[at + i] else stray(at + i))
  }

  ghost predicate NoDuplicates(s: seq<Ptr>) {
    forall i, j :: 0 <= i < j < |s| ==> s[i] != s[j]
  }

  /** Every name handed out is either live or was freed exactly once. */
  ghost predicate Conserved(h: Heap) {
    && 1 <= h.next
    && (forall p :: p in h.live ==> 1 <= p < h.next && p !in h.freed)
    && (forall p :: p in h.freed ==> 1 <= p < h.next)
    && (forall p :: 1 <= p < h.next ==> p in h.live || p in h.freed)
    && NoDuplicates(h.freed)
  }

  lemma KfreeConserves(h: Heap, p: Ptr)
    requires Conserved(h) && p in h.live
    ensures Conserved(Kfree(h, p)) && Kfree(h, p).live.Keys == h.live.Keys - {p}
  {
  }
}
