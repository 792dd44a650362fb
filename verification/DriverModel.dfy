/**
 The driver's file operations (main.c) as state transitions: the device between two calls,
 and what each call makes of it for every decision of the kernel.
 */
module DriverModel {
  import opened Sequences
  import opened Kernel
  import opened CircularBuffer
  import opened History

  /**
   The device between two calls: the heap, every entry ever added to the ring, the working
   entry with its static `previous_count`, and the writes accepted so far.
   */
  datatype Dev = Dev(heap: Heap, added: seq<Entry>, working: Ptr, previous: nat, history: seq<string>)

  const FreshDev := Dev(EmptyHeap, [], NULL, 0, [])

  function Stored(d: Dev): seq<Entry> {
    LastTen(d.added)
  }

  function Ptrs(entries: seq<Entry>): seq<Ptr> {
    seq(|entries|, i requires 0 <= i < |entries| => entries[i].buffptr)
  }

  /** The live blocks are exactly the stored ones and the working one, all distinct. */
  ghost predicate Owned(d: Dev) {
    && Conserved(d.heap)
    && (forall e :: e in d.added ==> e.buffptr != NULL)
    && NoDuplicates(Ptrs(Stored(d)))
    && d.working !in Ptrs(Stored(d))
    && (forall p :: p in d.heap.live <==> p in Ptrs(Stored(d)) || (p == d.working && p != NULL))
  }

  // ------------------------------------------------------------------- write

  /** The working entry sized for `count` more bytes, which are cleared. */
  function Grow(d: Dev, count: nat, env: Env): Dev
    requires d.heap.next !in d.heap.live
    requires d.working != NULL ==> d.working in d.heap.live
  {
    if d.working == NULL then
      var h := Kmalloc(d.heap, count, env.stray);
      d.(heap := Poke(h, d.heap.next, 0, seq(count, _ => '\0')), working := d.heap.next)
    else
      var (h, p) := Krealloc(d.heap, d.working, d.previous + count, env.alloc.InPlace?, env.stray);
      d.(heap := Poke(h, p, d.previous, seq(count, _ => '\0')), working := p)
  }

  /** The error exit: the working entry is freed, its count stays. */
  function Abandon(d: Dev): Dev
    requires d.working != NULL ==> d.working in d.heap.live
  {
    if d.working == NULL then d else d.(heap := Kfree(d.heap, d.working), working := NULL)
  }

  /** The working entry becomes the newest command; the command it displaces is freed. */
  function Commit(d: Dev, size: nat): Dev
    requires CAPACITY <= |d.added| ==> Stored(d)[0].buffptr in d.heap.live
  {
    d.(heap := if |d.added| < CAPACITY then d.heap else Kfree(d.heap, Stored(d)[0].buffptr),
       added := d.added + [Entry(d.working, size)], working := NULL, previous := 0)
  }

  /** The byte that decides whether a write ends a command. */
  function LastByte(d: Dev, size: nat, env: Env): char
    requires d.working in d.heap.live && 0 < size
  {
    Peek(d.heap.live[d.working], size - 1, 1, env.stray)[0]
  }

  /** The device after allocation and copy, before the last byte is tested. */
  function Copied(d: Dev, buf: string, env: Env): Dev
    requires d.heap.next !in d.heap.live
    requires d.working != NULL ==> d.working in d.heap.live
  {
    var g := Grow(d, |buf|, env);
    g.(heap := Poke(g.heap, g.working, g.previous, buf), history := g.history + [buf])
  }

  /** The test of the last byte: the command is complete or goes on. */
  function Settle(c: Dev, size: nat, env: Env): Dev
    requires c.working in c.heap.live && 0 < size
    requires CAPACITY <= |c.added| ==> Stored(c)[0].buffptr in c.heap.live
  {
    if LastByte(c, size, env) == '\n' then Commit(c, size) else c.(previous := size)
  }

  lemma GrowOwned(d: Dev, count: nat, env: Env)
    requires Owned(d)
    ensures d.working != NULL ==> d.working in d.heap.live
    ensures d.heap.next !in d.heap.live
    ensures var g := Grow(d, count, env);
            Owned(g) && g.working != NULL &&
            g == d.(heap := g.heap, working := g.working) &&
            forall p :: p in Ptrs(Stored(d)) ==> p in g.heap.live && g.heap.live[p] == d.heap.live[p]
  {
  }

  lemma AbandonOwned(d: Dev)
    requires Owned(d)
    ensures Owned(Abandon(d))
  {
  }

  lemma StoredAfterAdd(added: seq<Entry>, e: Entry)
    ensures LastTen(added + [e]) == (if |added| < CAPACITY then added else LastTen(added)[1..]) + [e]
    ensures Ptrs(LastTen(added + [e])) ==
            (if |added| < CAPACITY then Ptrs(added) else Ptrs(LastTen(added))[1..]) + [e.buffptr]
  {
  }

  lemma CommitOwned(d: Dev, size: nat)
    requires Owned(d) && d.working != NULL
    ensures d.working in d.heap.live
    ensures |d.added| < CAPACITY || Stored(d)[0].buffptr in d.heap.live
    ensures Owned(Commit(d, size))
  {
    StoredAfterAdd(d.added, Entry(d.working, size));
    if CAPACITY <= |d.added| {
      assert Ptrs(Stored(d))[0] == Stored(d)[0].buffptr;
    }
  }

  lemma PokeOwned(g: Dev, at: nat, bytes: string)
    requires Owned(g) && g.working != NULL
    ensures forall h, n :: Owned(g.(heap := Poke(g.heap, g.working, at, bytes), history := h, previous := n))
  {
    assert Poke(g.heap, g.working, at, bytes).live.Keys == g.heap.live.Keys;
  }

  lemma CopiedOwned(d: Dev, buf: string, env: Env)
    requires Owned(d)
    ensures Owned(Copied(d, buf, env)) && Copied(d, buf, env).working != NULL
    ensures Copied(d, buf, env).previous == d.previous
  {
    GrowOwned(d, |buf|, env);
    PokeOwned(Grow(d, |buf|, env), d.previous, buf);
  }

  lemma SettleOwned(c: Dev, size: nat, env: Env)
    requires Owned(c) && c.working != NULL && 0 < size
    ensures |c.added| < CAPACITY || Stored(c)[0].buffptr in c.heap.live
    ensures Owned(Settle(c, size, env))
  {
    CommitOwned(c, size);
  }

  /** aesd_write: the device afterwards and the value returned. */
  ghost function WriteNext(d: Dev, buf: string, env: Env): (r: (Dev, int))
    requires Owned(d) && 0 < |buf| + d.previous
    ensures Owned(r.0)
  {
    if !env.locked then (d, -ERESTARTSYS)
    else if env.alloc.NoMemory? then AbandonOwned(d); (Abandon(d), -ENOMEM)
    else if !env.copied then
      GrowOwned(d, |buf|, env);
      AbandonOwned(Grow(d, |buf|, env));
      (Abandon(Grow(d, |buf|, env)), -EFAULT)
    else
      CopiedOwned(d, buf, env);
      SettleOwned(Copied(d, buf, env), |buf| + d.previous, env);
      (Settle(Copied(d, buf, env), |buf| + d.previous, env), |buf|)
  }

  // ------------------------------------------------- what the device stands for

  /** The bytes of the stored commands, oldest first. */
  ghost function Texts(d: Dev): seq<string>
    requires Owned(d)
  {
    seq(|Stored(d)|, i requires 0 <= i < |Stored(d)| =>
      assert Ptrs(Stored(d))[i] == Stored(d)[i].buffptr; d.heap.live[Stored(d)[i].buffptr])
  }

  ghost function PendingText(d: Dev): string
    requires Owned(d)
  {
    if d.working == NULL then "" else d.heap.live[d.working]
  }

  /** Every recorded size is the size of the allocated block. */
  ghost predicate Sized(d: Dev)
    requires Owned(d)
  {
    && (d.working == NULL <==> d.previous == 0)
    && d.previous == |PendingText(d)|
    && Sizes(Stored(d)) == Lengths(Texts(d))
  }

  /** The ring holds the ten last commands of the history, the working entry its remainder. */
  ghost predicate Refines(d: Dev)
    requires Owned(d)
  {
    && Sized(d)
    && Texts(d) == LastTen(Commands(d.history))
    && PendingText(d) == Pending(d.history)
  }

  /** A call that fails while bytes are pending: they are freed but still counted. */
  ghost predicate Drops(d: Dev, env: Env) {
    env.locked && 0 < d.previous && (env.alloc.NoMemory? || !env.copied)
  }

  /** The copy and the last-byte test stay inside the working block. */
  ghost predicate StaysInBounds(d: Dev, buf: string, env: Env)
    requires Owned(d)
  {
    env.locked && !env.alloc.NoMemory? ==>
      var g := Grow(d, |buf|, env);
      d.previous + |buf| <= |g.heap.live[g.working]|
  }

  /**
   The driver leaves the working block exactly when bytes are counted that no block holds,
   which is what a failed append leaves behind.
   */
  lemma BoundsExactly(d: Dev, buf: string, env: Env)
    requires Owned(d) && env.locked && !env.alloc.NoMemory?
    ensures StaysInBounds(d, buf, env) <==> !(d.working == NULL && 0 < d.previous)
    ensures Sized(d) ==> StaysInBounds(d, buf, env)
  {
  }

  /** A history of three calls that makes the driver write outside its block. */
  lemma FailedAppendLeadsOutOfBounds(stray: nat -> char)
    ensures var ok, bad := Env(true, Moved, true, stray), Env(true, Moved, false, stray);
            Owned(FreshDev) &&
            var d1 := WriteNext(FreshDev, "a", ok).0;
            0 < d1.previous &&
            var d2 := WriteNext(d1, "b", bad).0;
            Drops(d1, bad) && !StaysInBounds(d2, "c\n", ok)
  {
  }

  /** The working block after a successful copy. */
  lemma CopiedText(d: Dev, buf: string, env: Env)
    requires Owned(d) && Sized(d)
    ensures var g := Grow(d, |buf|, env);
            Overlay(g.heap.live[g.working], g.previous, buf) == PendingText(d) + buf
  {
  }

  lemma TextsUnchanged(d: Dev, d': Dev)
    requires Owned(d) && Owned(d') && d'.added == d.added
    requires forall p :: p in Ptrs(Stored(d)) ==> d'.heap.live[p] == d.heap.live[p]
    ensures Texts(d') == Texts(d)
  {
    forall i | 0 <= i < |Stored(d)| ensures Texts(d')[i] == Texts(d)[i] {
      assert Ptrs(Stored(d))[i] in Ptrs(Stored(d));
    }
  }

  /** What a commit makes of the device, and that the blocks it keeps are untouched. */
  lemma CommitKeepsBlocks(d: Dev, size: nat)
    requires Owned(d) && d.working != NULL
    ensures |d.added| < CAPACITY || Stored(d)[0].buffptr in d.heap.live
    ensures var c := Commit(d, size);
            && Owned(c) && c.working == NULL && c.previous == 0 && c.history == d.history
            && c.added == d.added + [Entry(d.working, size)]
            && forall i :: 0 <= i < |Stored(c)| ==>
                 Stored(c)[i].buffptr in c.heap.live && Stored(c)[i].buffptr in d.heap.live &&
                 c.heap.live[Stored(c)[i].buffptr] == d.heap.live[Stored(c)[i].buffptr]
  {
    CommitOwned(d, size);
    var c := Commit(d, size);
    forall i | 0 <= i < |Stored(c)|
      ensures Stored(c)[i].buffptr in c.heap.live && Stored(c)[i].buffptr in d.heap.live
    {
      assert Ptrs(Stored(c))[i] in Ptrs(Stored(c));
    }
  }

  lemma StoredBlocks(d: Dev)
    requires Owned(d)
    ensures |Texts(d)| == |Stored(d)|
    ensures forall i :: 0 <= i < |Stored(d)| ==>
              Stored(d)[i].buffptr in d.heap.live && Texts(d)[i] == d.heap.live[Stored(d)[i].buffptr]
  {
    assert forall i :: 0 <= i < |Stored(d)| ==> Ptrs(Stored(d))[i] == Stored(d)[i].buffptr;
  }

  lemma CommitRefines(d: Dev, size: nat)
    requires Owned(d) && d.working != NULL && d.working in d.heap.live && |d.heap.live[d.working]| == size
    requires Sizes(Stored(d)) == Lengths(Texts(d))
    ensures |d.added| < CAPACITY || Stored(d)[0].buffptr in d.heap.live
    ensures Owned(Commit(d, size)) && Sized(Commit(d, size))
    ensures Texts(Commit(d, size)) ==
            (if |d.added| < CAPACITY then Texts(d) else Texts(d)[1..]) + [d.heap.live[d.working]]
  {
    hide Owned, Commit, Texts;
    CommitKeepsBlocks(d, size);
    var c := Commit(d, size);
    StoredBlocks(d);
    StoredBlocks(c);
    StoredAfterAdd(d.added, Entry(d.working, size));
    var kept := (if |d.added| < CAPACITY then Texts(d) else Texts(d)[1..]) + [d.heap.live[d.working]];
    forall i | 0 <= i < |Stored(c)|
      ensures Texts(c)[i] == kept[i] && Sizes(Stored(c))[i] == |kept[i]|
    {
      if i < |Stored(c)| - 1 {
        var j := if |d.added| < CAPACITY then i else i + 1;
        assert Stored(c)[i] == Stored(d)[j];
        assert Sizes(Stored(d))[j] == Lengths(Texts(d))[j];
      }
    }
    assert Texts(c) == kept;
  }

  /**
   A write that fails leaves commands and history alone. Unless the lock wait was
   interrupted it also gives up the pending bytes, while their count stays.
   */
  lemma FailedWrite(d: Dev, buf: string, env: Env)
    requires Owned(d) && 0 < |buf| + d.previous && !Succeeds(env)
    ensures var (d', ret) := WriteNext(d, buf, env);
            && ret == (if !env.locked then -512 else if env.alloc.NoMemory? then -12 else -14)
            && d'.added == d.added && d'.history == d.history && d'.previous == d.previous
            && Texts(d') == Texts(d)
            && (if env.locked then d'.working == NULL && d.working !in d'.heap.live else d' == d)
  {
    var d' := WriteNext(d, buf, env).0;
    GrowOwned(d, |buf|, env);
    TextsUnchanged(d, d');
  }

  /**
   One write, for every decision of the kernel: the device goes on representing its history
   exactly when the call does not fail with bytes pending.
   */
  lemma WriteRefines(d: Dev, buf: string, env: Env)
    requires Owned(d) && Refines(d) && 0 < |buf| + d.previous
    ensures Refines(WriteNext(d, buf, env).0) <==> !Drops(d, env)
    ensures Succeeds(env) ==> WriteNext(d, buf, env).0.history == d.history + [buf]
                              && WriteNext(d, buf, env).1 == |buf|
  {
    var d' := WriteNext(d, buf, env).0;
    if Succeeds(env) {
      WriteSuccessRefines(d, buf, env);
    } else if env.locked && !Drops(d, env) {
      assert d'.working == NULL && d'.previous == 0;
      if !env.alloc.NoMemory? {
        GrowOwned(d, |buf|, env);
      }
      TextsUnchanged(d, d');
    }
  }

  lemma CopiedDevice(d: Dev, buf: string, env: Env)
    requires Owned(d) && Sized(d)
    ensures var c := Copied(d, buf, env);
            Owned(c) && c.working != NULL && c.added == d.added && c.previous == d.previous &&
            c.history == d.history + [buf] &&
            Texts(c) == Texts(d) && c.heap.live[c.working] == PendingText(d) + buf
  {
    var g := Grow(d, |buf|, env);
    GrowOwned(d, |buf|, env);
    CopiedText(d, buf, env);
    PokeOwned(g, g.previous, buf);
    TextsUnchanged(d, Copied(d, buf, env));
  }

  lemma SettleOutcome(c: Dev, text: string, env: Env)
    requires Owned(c) && c.working != NULL && c.heap.live[c.working] == text && text != ""
    ensures |c.added| < CAPACITY || Stored(c)[0].buffptr in c.heap.live
    ensures Settle(c, |text|, env) == if EndsLine(text) then Commit(c, |text|) else c.(previous := |text|)
  {
    SettleOwned(c, |text|, env);
    assert LastByte(c, |text|, env) == text[|text| - 1];
  }

  /** A successful write commits the accumulated bytes if they end a line, else keeps them. */
  lemma WriteOutcome(d: Dev, buf: string, env: Env)
    requires Owned(d) && Sized(d) && 0 < |buf| + d.previous && Succeeds(env)
    ensures var c, text := Copied(d, buf, env), PendingText(d) + buf;
            if EndsLine(text) then
              (|c.added| < CAPACITY || Stored(c)[0].buffptr in c.heap.live) &&
              WriteNext(d, buf, env) == (Commit(c, |text|), |buf|)
            else WriteNext(d, buf, env) == (c.(previous := |text|), |buf|)
  {
    CopiedDevice(d, buf, env);
    hide Owned, Grow, Commit, Settle, Texts;
    SettleOutcome(Copied(d, buf, env), PendingText(d) + buf, env);
  }

  /** A successful write adds an entry of the size of its command when it ends one, and no entry else. */
  lemma WriteAdds(d: Dev, buf: string, env: Env)
    requires Owned(d) && Sized(d) && 0 < |buf| + d.previous && Succeeds(env)
    ensures var text := PendingText(d) + buf;
            Sizes(WriteNext(d, buf, env).0.added) ==
            Sizes(d.added) + if EndsLine(text) then [|text|] else []
  {
    hide Owned, Grow, Settle, WriteNext, Copied, PendingText;
    CopiedDevice(d, buf, env);
    WriteOutcome(d, buf, env);
  }

  lemma LineRefines(d: Dev, c: Dev, text: string)
    requires Owned(d) && Refines(d) && Owned(c) && c.working != NULL && c.added == d.added
    requires Texts(c) == Texts(d) && c.heap.live[c.working] == text
    requires Commands(c.history) == Commands(d.history) + [text] && Pending(c.history) == ""
    ensures |c.added| < CAPACITY || Stored(c)[0].buffptr in c.heap.live
    ensures Owned(Commit(c, |text|)) && Refines(Commit(c, |text|))
  {
    CommitRefines(c, |text|);
    assert |d.added| < CAPACITY <==> |Commands(d.history)| < CAPACITY by {
      assert |Texts(d)| == |LastTen(Commands(d.history))|;
    }
    StoredTextsAfterAdd(Commands(d.history), text);
  }

  lemma WriteSuccessRefines(d: Dev, buf: string, env: Env)
    requires Owned(d) && Refines(d) && 0 < |buf| + d.previous && Succeeds(env)
    ensures Refines(WriteNext(d, buf, env).0)
  {
    CopiedDevice(d, buf, env);
    WriteOutcome(d, buf, env);
    AfterWrite(d.history, buf);
    var c, text := Copied(d, buf, env), PendingText(d) + buf;
    if EndsLine(text) {
      LineRefines(d, c, text);
    } else {
      TextsUnchanged(c, c.(previous := |text|));
    }
  }

  lemma StoredTextsAfterAdd(commands: seq<string>, text: string)
    ensures LastTen(commands + [text]) ==
            (if |commands| < CAPACITY then LastTen(commands) else LastTen(commands)[1..]) + [text]
  {
  }
}
