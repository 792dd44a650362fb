/**
 Runs of the driver: any number of open handles, each with its own position, and any
 interleaving of calls on them, each with any decision of the kernel.
 */
module DriverRuns {
  import opened Sequences
  import opened Offsets
  import opened Kernel
  import opened CircularBuffer
  import opened History
  import opened DriverModel
  import opened FileOps

  /** The device and the positions of the open handles. */
  datatype World = World(dev: Dev, pos: map<nat, int>)

  const Boot := World(FreshDev, map[])

  datatype Op =
    | Open(h: nat)
    | Release(h: nat)
    | Write(h: nat, buf: string, env: Env)
    | Read(h: nat, count: nat, env: Env)
    | Llseek(h: nat, off: int, whence: int)
    | Ioctl(h: nat, cmd: int, arg: SeekTo, copied: bool)

  /**
   A call needs an open handle; a write with no byte to look at is outside the driver's
   contract, because it tests the last one.
   */
  predicate Legal(w: World, op: Op) {
    match op
    case Open(h) => h !in w.pos
    case Write(h, buf, _) => h in w.pos && 0 < |buf| + w.dev.previous
    case _ => op.h in w.pos
  }

  /** One call; what is not legal does not happen. */
  ghost function Next(w: World, op: Op): (w': World)
    requires Owned(w.dev)
    ensures Owned(w'.dev)
  {
    if !Legal(w, op) then w
    else match op
      case Open(h) => w.(pos := w.pos[h := 0])
      case Release(h) => w.(pos := w.pos - {h})
      case Write(h, buf, env) => w.(dev := WriteNext(w.dev, buf, env).0)
      case Read(h, count, env) => w.(pos := w.pos[h := ReadNext(w.dev, w.pos[h], count, env).2])
      case Llseek(h, off, whence) => w.(pos := w.pos[h := LlseekNext(w.dev, w.pos[h], off, whence).1])
      case Ioctl(h, cmd, arg, copied) => w.(pos := w.pos[h := IoctlNext(w.dev, w.pos[h], cmd, arg, copied).1])
  }

  /**
   A call concerns its own handle only: opening puts it at 0, releasing forgets it, a write
   moves no handle, and only a write changes the device. Other calls do not happen.
   */
  lemma StepFrame(w: World, op: Op)
    requires Owned(w.dev)
    ensures Legal(w, op) <==> if op.Open? then op.h !in w.pos
                              else op.h in w.pos && (op.Write? ==> op.buf != "" || w.dev.previous != 0)
    ensures var w' := Next(w, op);
            if !Legal(w, op) then w' == w
            else
              && (forall h :: h != op.h ==> (h in w'.pos <==> h in w.pos) && (h in w.pos ==> w'.pos[h] == w.pos[h]))
              && (op.Open? ==> op.h in w'.pos && w'.pos[op.h] == 0)
              && (op.h in w'.pos <==> !op.Release?)
              && (op.Write? ==> w'.pos == w.pos)
              && (!op.Write? ==> w'.dev == w.dev)
  {
  }

  /** What a call of llseek makes of its own handle: its origin plus the offset, if that is a position. */
  lemma OwnHandleAfterLlseek(w: World, h: nat, off: int, whence: int)
    requires Owned(w.dev) && Sized(w.dev) && |StoredText(w.dev)| < 0x8000_0000_0000_0000
    requires h in w.pos && -0x8000_0000_0000_0000 <= w.pos[h] < 0x8000_0000_0000_0000
    requires -0x8000_0000_0000_0000 <= off < 0x8000_0000_0000_0000
    ensures var w' := Next(w, Llseek(h, off, whence));
            var target := off + if whence == 0 then 0 else if whence == 1 then w.pos[h] else |StoredText(w.dev)|;
            && w'.dev == w.dev && h in w'.pos
            && w'.pos[h] ==
               if 0 <= whence <= 2 && 0 <= target < 0x8000_0000_0000_0000 then target
               else if 0 <= whence <= 2 && target < -0x8000_0000_0000_0000 then target + 0x1_0000_0000_0000_0000
               else w.pos[h]
  {
    hide StoredText, Owned, Sized;
    LlseekLands(w.dev, w.pos[h], off, whence);
  }

  /**
   What a read makes of its own handle: it moves by the bytes delivered, none if the read
   fails, and those are the stored text between the two positions.
   */
  lemma OwnHandleAfterRead(w: World, h: nat, count: nat, env: Env)
    requires Owned(w.dev) && h in w.pos
    ensures var w', data := Next(w, Read(h, count, env)), ReadNext(w.dev, w.pos[h], count, env).1;
            && w'.dev == w.dev && h in w'.pos && w'.pos[h] == w.pos[h] + |data| && |data| <= count
            && (!env.locked || !env.copied ==> w'.pos[h] == w.pos[h])
            && (env.locked && env.copied && Sized(w.dev) && 0 <= w.pos[h] < 0x1_0000_0000_0000_0000 ==>
                  && data <= From(StoredText(w.dev), w.pos[h])
                  && (w'.pos[h] == w.pos[h] <==> count == 0 || |StoredText(w.dev)| <= w.pos[h]))
  {
    hide ReadNext, Owned, StoredText, Sized;
    FailedReadStays(w.dev, w.pos[h], count, env);
    if env.locked && env.copied && Sized(w.dev) && 0 <= w.pos[h] < 0x1_0000_0000_0000_0000 {
      ReadDeliversText(w.dev, w.pos[h], count, env);
    }
  }

  /** What an ioctl makes of its own handle: the place asked for if it is accepted, nothing if it is refused. */
  lemma OwnHandleAfterIoctl(w: World, h: nat, cmd: int, arg: SeekTo, copied: bool)
    requires Owned(w.dev) && h in w.pos
    ensures var w', stored := Next(w, Ioctl(h, cmd, arg, copied)), Stored(w.dev);
            && w'.dev == w.dev && h in w'.pos
            && if cmd == 0xC008_1601 && copied && arg.writeCmd < |stored|
                  && arg.writeCmdOffset <= stored[arg.writeCmd].size
               then
                 && -0x8000_0000 <= w'.pos[h] < 0x8000_0000
                 && (Sum(Sizes(stored[..arg.writeCmd])) + arg.writeCmdOffset - w'.pos[h]) % 0x1_0000_0000 == 0
               else w'.pos[h] == w.pos[h]
  {
    IoctlExactly(w.dev, w.pos[h], cmd, arg, copied);
  }

  /** The world after a run. On every run the live blocks are exactly those the device holds. */
  ghost function After(ops: seq<Op>): (w: World)
    ensures Owned(w.dev)
  {
    if ops == [] then Boot else Next(After(ops[..|ops| - 1]), ops[|ops| - 1])
  }

  lemma AfterStep(ops: seq<Op>, i: nat)
    requires i < |ops|
    ensures After(ops[..i + 1]) == Next(After(ops[..i]), ops[i])
  {
    assert ops[..i + 1][..i] == ops[..i];
  }

  // --------------------------------------------------------------- ownership

  /** What happens to blocks and history in one call: freed blocks stay freed, accepted writes stay. */
  lemma StepExtends(w: World, op: Op)
    requires Owned(w.dev)
    ensures w.dev.heap.freed <= Next(w, op).dev.heap.freed
    ensures w.dev.history <= Next(w, op).dev.history
    ensures w.dev.heap.next <= Next(w, op).dev.heap.next
  {
    hide WriteNext, Owned;
    if op.Write? && Legal(w, op) {
      WriteExtends(w.dev, op.buf, op.env);
    }
  }

  lemma WriteExtends(d: Dev, buf: string, env: Env)
    requires Owned(d) && 0 < |buf| + d.previous
    ensures var d' := WriteNext(d, buf, env).0;
            d.heap.freed <= d'.heap.freed && d.history <= d'.history && d.heap.next <= d'.heap.next
  {
    hide Conserved, Texts, LastByte, Resize, Overlay;
  }

  /**
   Over a whole run, on every success and failure path: a block is live exactly while the
   ring or the working entry holds it, and a block freed at any point was freed once and
   is never live or freed again.
   */
  lemma HeapOverRuns(ops: seq<Op>, i: nat)
    requires i <= |ops|
    ensures var early, late := After(ops[..i]).dev, After(ops).dev;
            && early.heap.freed <= late.heap.freed
            && early.history <= late.history
            && (forall p :: p in early.heap.freed ==> p !in late.heap.live)
            && (forall p :: 1 <= p < early.heap.next ==> p in late.heap.live || p in late.heap.freed)
            && (forall p :: p in late.heap.live <==>
                  p in Ptrs(Stored(late)) || (p == late.working && p != NULL))
            && NoDuplicates(late.heap.freed)
    decreases |ops|
  {
    FreedAndHistoryGrow(ops, i);
    var early, late := After(ops[..i]).dev, After(ops).dev;
    forall p | p in early.heap.freed ensures p !in late.heap.live {
      assert p in late.heap.freed;
    }
  }

  lemma {:induction false} FreedAndHistoryGrow(ops: seq<Op>, i: nat)
    requires i <= |ops|
    ensures After(ops[..i]).dev.heap.freed <= After(ops).dev.heap.freed
    ensures After(ops[..i]).dev.history <= After(ops).dev.history
    ensures After(ops[..i]).dev.heap.next <= After(ops).dev.heap.next
    decreases |ops|
  {
    if i == |ops| {
      assert ops[..i] == ops;
    } else {
      var front := ops[..|ops| - 1];
      assert front[..i] == ops[..i];
      FreedAndHistoryGrow(front, i);
      StepExtends(After(front), ops[|ops| - 1]);
    }
  }

  // ----------------------------------------------------------------- history

  /** The call frees bytes that stay counted. */
  ghost predicate DropsBytes(w: World, op: Op) {
    op.Write? && Legal(w, op) && Drops(w.dev, op.env)
  }

  ghost predicate NothingDropped(ops: seq<Op>) {
    forall i :: 0 <= i < |ops| ==> !DropsBytes(After(ops[..i]), ops[i])
  }

  lemma FreshRefines()
    ensures Owned(FreshDev) && Refines(FreshDev)
  {
  }

  lemma StepRefines(w: World, op: Op)
    requires Owned(w.dev) && Refines(w.dev)
    ensures Refines(Next(w, op).dev) <==> !DropsBytes(w, op)
  {
    if op.Write? && Legal(w, op) {
      WriteRefines(w.dev, op.buf, op.env);
    }
  }

  /**
   Every state of a run holds the ten last commands of its history and exactly the
   uncommitted remainder, if and only if no call of the run fails with bytes pending.
   */
  lemma RunRefines(ops: seq<Op>)
    ensures (forall i :: 0 <= i <= |ops| ==> Refines(After(ops[..i]).dev)) <==> NothingDropped(ops)
  {
    if forall i :: 0 <= i <= |ops| ==> Refines(After(ops[..i]).dev) {
      forall i | 0 <= i < |ops| ensures !DropsBytes(After(ops[..i]), ops[i]) {
        assert Refines(After(ops[..i]).dev) && Refines(After(ops[..i + 1]).dev);
        AfterStep(ops, i);
        StepRefines(After(ops[..i]), ops[i]);
      }
    }
    if NothingDropped(ops) {
      forall i | 0 <= i <= |ops| ensures Refines(After(ops[..i]).dev) {
        RefinesUpTo(ops, i);
      }
    }
  }

  lemma AtBoot(ops: seq<Op>)
    ensures After(ops[..0]) == Boot
  {
  }

  lemma {:induction false} RefinesUpTo(ops: seq<Op>, n: nat)
    requires n <= |ops| && NothingDropped(ops)
    ensures Refines(After(ops[..n]).dev)
  {
    hide Next, After, Refines, Owned, DropsBytes;
    if n == 0 {
      AtBoot(ops);
      FreshRefines();
    } else {
      RefinesUpTo(ops, n - 1);
      AfterStep(ops, n - 1);
      StepRefines(After(ops[..n - 1]), ops[n - 1]);
    }
  }

  /** On such runs no write touches a byte outside its block. */
  lemma RunStaysInBounds(ops: seq<Op>, i: nat)
    requires NothingDropped(ops) && i < |ops| && ops[i].Write? && Legal(After(ops[..i]), ops[i])
    ensures StaysInBounds(After(ops[..i]).dev, ops[i].buf, ops[i].env)
  {
    RunRefines(ops);
    assert Refines(After(ops[..i]).dev);
    if ops[i].env.locked && !ops[i].env.alloc.NoMemory? {
      BoundsExactly(After(ops[..i]).dev, ops[i].buf, ops[i].env);
    }
  }

  /**
   When every accepted write is a line, the device holds the last ten of them, and every one
   as long as there are no more than ten.
   */
  lemma LinesKept(ops: seq<Op>)
    requires NothingDropped(ops) && AllLines(After(ops).dev.history)
    ensures var lines, d := After(ops).dev.history, After(ops).dev;
            && Texts(d) == lines[if |lines| <= 10 then 0 else |lines| - 10..]
            && PendingText(d) == "" && d.working == NULL
  {
    hide Next, After, Texts, PendingText, Owned, DropsBytes;
    RefinesAfter(ops);
    LinesAreCommands(After(ops).dev.history);
  }

  /** What the device holds is a list of lines: one per command, and the start of one pending. */
  ghost predicate HoldsLines(d: Dev)
    requires Owned(d)
  {
    OneLineEach(Texts(d)) && NoNewline(PendingText(d))
  }

  /** An accepted write with no newline inside keeps the device a list of lines, any other does not. */
  lemma StepHoldsLines(d: Dev, d': Dev, buf: string)
    requires Owned(d) && Refines(d) && NoneInner(d.history)
    requires Owned(d') && Refines(d') && d'.history == d.history + [buf]
    ensures HoldsLines(d') <==> NoInnerNewline(buf)
    ensures NoneInner(d'.history) <==> NoInnerNewline(buf)
  {
    hide Owned, Sized, Texts, PendingText;
    assert d'.history[|d.history|] == buf;
    assert forall i :: 0 <= i < |d.history| ==> d'.history[i] == d.history[i];
    LinesExactly(d.history);
    LinesAfterWrite(d.history, buf);
    AfterWrite(d.history, buf);
    LastTenHoldsLines(Commands(d.history), Pending(d.history) + buf);
  }

  lemma LastTenHoldsLines(commands: seq<string>, text: string)
    requires OneLineEach(commands)
    ensures OneLineEach(LastTen(commands))
    ensures OneLineEach(LastTen(commands + [text])) <==> OneLineEach(commands + [text])
  {
    var more := commands + [text];
    SuffixHoldsLines(commands, if |commands| <= CAPACITY then 0 else |commands| - CAPACITY);
    assert LastTen(more)[|LastTen(more)| - 1] == text;
    if OneLineEach(LastTen(more)) {
      OneMoreLine(commands, text);
    }
    if OneLineEach(more) {
      SuffixHoldsLines(more, if |more| <= CAPACITY then 0 else |more| - CAPACITY);
    }
  }

  lemma SuffixHoldsLines(commands: seq<string>, k: nat)
    requires OneLineEach(commands) && k <= |commands|
    ensures OneLineEach(commands[k..]) && (k == 0 ==> commands[k..] == commands)
  {
    assert forall i :: 0 <= i < |commands| - k ==> commands[k..][i] == commands[k + i];
  }

  lemma OneMoreLine(commands: seq<string>, text: string)
    requires OneLineEach(commands) && EndsLine(text) && NoInnerNewline(text)
    ensures OneLineEach(commands + [text])
  {
    assert forall i :: 0 <= i < |commands| ==> (commands + [text])[i] == commands[i];
  }

  lemma LinesHeld(d: Dev)
    requires Owned(d) && Refines(d) && NoneInner(d.history)
    ensures HoldsLines(d)
  {
    LinesExactly(d.history);
    LastTenHoldsLines(Commands(d.history), "");
  }

  /** A call that writes and succeeds adds its bytes to the history, no other call changes it. */
  lemma StepAccepts(w: World, op: Op)
    requires Owned(w.dev)
    ensures Next(w, op).dev.history == w.dev.history +
              if op.Write? && Legal(w, op) && Succeeds(op.env) then [op.buf] else []
  {
  }

  /**
   On a run that drops nothing, every state is a list of lines if and only if no write that
   was accepted has a newline before its last byte.
   */
  lemma RunHoldsLines(ops: seq<Op>)
    requires NothingDropped(ops)
    ensures (forall i :: 0 <= i <= |ops| ==> HoldsLines(After(ops[..i]).dev)) <==> NoneInner(After(ops).dev.history)
  {
    RunRefines(ops);
    assert ops[..|ops|] == ops;
    if NoneInner(After(ops).dev.history) {
      forall i | 0 <= i <= |ops| ensures HoldsLines(After(ops[..i]).dev) {
        FreedAndHistoryGrow(ops, i);
        NoneInnerOfPrefix(After(ops[..i]).dev.history, After(ops).dev.history);
        LinesHeld(After(ops[..i]).dev);
      }
    }
    if forall i :: 0 <= i <= |ops| ==> HoldsLines(After(ops[..i]).dev) {
      HoldsLinesUpTo(ops, |ops|);
    }
  }

  lemma NoneInnerOfPrefix(early: seq<string>, late: seq<string>)
    requires early <= late && NoneInner(late)
    ensures NoneInner(early)
  {
    assert forall i :: 0 <= i < |early| ==> early[i] == late[i];
  }

  lemma {:induction false} HoldsLinesUpTo(ops: seq<Op>, n: nat)
    requires n <= |ops| && NothingDropped(ops)
    requires forall i :: 0 <= i <= |ops| ==> HoldsLines(After(ops[..i]).dev)
    ensures NoneInner(After(ops[..n]).dev.history)
  {
    hide Next, After, Owned, Refines, HoldsLines, NoneInner;
    if n == 0 {
      NothingAccepted(ops);
    } else {
      HoldsLinesUpTo(ops, n - 1);
      RefinesUpTo(ops, n - 1);
      RefinesUpTo(ops, n);
      AfterStep(ops, n - 1);
      assert HoldsLines(After(ops[..n]).dev);
      LinesHeldBefore(After(ops[..n - 1]), ops[n - 1]);
    }
  }

  lemma LinesHeldBefore(w: World, op: Op)
    requires Owned(w.dev) && Refines(w.dev) && NoneInner(w.dev.history)
    requires Refines(Next(w, op).dev) && HoldsLines(Next(w, op).dev)
    ensures NoneInner(Next(w, op).dev.history)
  {
    hide Next, Owned, Refines, HoldsLines, NoneInner;
    StepAccepts(w, op);
    if Next(w, op).dev.history != w.dev.history {
      StepHoldsLines(w.dev, Next(w, op).dev, op.buf);
    }
  }

  lemma NothingAccepted(ops: seq<Op>)
    ensures After(ops[..0]).dev.history == [] && NoneInner(After(ops[..0]).dev.history)
  {
  }

  // ------------------------------------------------------ absolute addressing

  /** All bytes committed so far. */
  ghost function Committed(d: Dev): string {
    Flatten(Commands(d.history))
  }

  /** The bytes of the entries the ring has displaced. */
  function Evicted(d: Dev): nat {
    Sum(Sizes(Older(d.added)))
  }

  /** Every entry ever added has the size of its command. */
  ghost predicate Measured(d: Dev) {
    Sizes(d.added) == Lengths(Commands(d.history))
  }

  lemma StepMeasured(w: World, op: Op)
    requires Owned(w.dev) && Refines(w.dev) && Measured(w.dev) && !DropsBytes(w, op)
    ensures Measured(Next(w, op).dev)
  {
    if op.Write? && Legal(w, op) {
      WriteMeasured(w.dev, op.buf, op.env);
    }
  }

  lemma WriteMeasured(d: Dev, buf: string, env: Env)
    requires Owned(d) && Refines(d) && Measured(d) && 0 < |buf| + d.previous && !Drops(d, env)
    ensures Measured(WriteNext(d, buf, env).0)
  {
    hide Owned, Sized, WriteNext, Commands, Pending, Texts, PendingText;
    if Succeeds(env) {
      WriteRefines(d, buf, env);
      WriteAdds(d, buf, env);
      AfterWrite(d.history, buf);
    } else {
      FailedWrite(d, buf, env);
    }
  }

  lemma {:induction false} MeasuredUpTo(ops: seq<Op>, n: nat)
    requires n <= |ops| && NothingDropped(ops)
    ensures Measured(After(ops[..n]).dev)
  {
    hide Next, After, Refines, Owned, DropsBytes;
    if n == 0 {
      AtBoot(ops);
      FreshMeasured();
    } else {
      MeasuredUpTo(ops, n - 1);
      RefinesUpTo(ops, n - 1);
      AfterStep(ops, n - 1);
      StepMeasured(After(ops[..n - 1]), ops[n - 1]);
    }
  }

  lemma FreshMeasured()
    ensures Measured(FreshDev)
  {
  }

  /** The displaced entries are all that was committed and is no longer stored. */
  lemma StoredIsSuffix(d: Dev)
    requires Owned(d) && Refines(d) && Measured(d)
    ensures Evicted(d) + |StoredText(d)| == |Committed(d)|
    ensures Committed(d)[Evicted(d)..] == StoredText(d)
    ensures Committed(d) <= Flatten(d.history)
  {
    hide Owned, Sized, Flatten, Commands, Pending, Texts, PendingText;
    var all := Commands(d.history);
    assert Older(all) + LastTen(all) == all;
    FlattenAppend(Older(all), LastTen(all));
    FlattenLength(Older(all));
    assert Sizes(Older(d.added)) == Older(Sizes(d.added));
    assert Lengths(Older(all)) == Older(Lengths(all));
    HistoryConserved(d.history);
  }

  lemma RefinesAfter(ops: seq<Op>)
    requires NothingDropped(ops)
    ensures Refines(After(ops).dev)
  {
    RunRefines(ops);
    assert ops[..|ops|] == ops;
  }

  lemma MeasuredAfter(ops: seq<Op>)
    requires NothingDropped(ops)
    ensures Measured(After(ops).dev)
  {
    MeasuredUpTo(ops, |ops|);
    assert ops[..|ops|] == ops;
  }

  /**
   After any interleaving of calls on any handles, a read at position p that delivers n
   bytes delivers bytes E + p to E + p + n of everything ever accepted, E being the bytes
   of the entries displaced so far; and E plus the stored bytes is all that was committed.
   Nothing is delivered exactly when nothing is asked for, at a negative position, or past the end.
   */
  lemma AbsoluteAddressing(ops: seq<Op>, h: nat, count: nat, env: Env)
    requires NothingDropped(ops) && h in After(ops).pos && env.locked && env.copied
    requires -0x8000_0000_0000_0000 <= After(ops).pos[h] < 0x8000_0000_0000_0000
    requires |StoredText(After(ops).dev)| < 0x8000_0000_0000_0000
    ensures AddressedAt(After(ops).dev, After(ops).pos[h], count, env)
  {
    hide *;
    RefinesAfter(ops);
    MeasuredAfter(ops);
    AddressedRead(After(ops).dev, After(ops).pos[h], count, env);
  }

  ghost predicate AddressedAt(d: Dev, pos: int, count: nat, env: Env)
    requires Owned(d)
  {
    var (ret, data, pos') := ReadNext(d, pos, count, env);
    var start := Evicted(d) + pos;
    && ret == |data| && pos' == pos + |data|
    && Evicted(d) + |StoredText(d)| == |Committed(d)|
    && (data == "" <==> count == 0 || pos < 0 || |Committed(d)| <= start)
    && (data != "" ==> 0 <= start && start + |data| <= |Flatten(d.history)|
                       && data == Flatten(d.history)[start..start + |data|])
  }

  lemma AddressedRead(d: Dev, pos: int, count: nat, env: Env)
    requires Owned(d) && Refines(d) && Measured(d) && env.locked && env.copied
    requires -0x8000_0000_0000_0000 <= pos < 0x8000_0000_0000_0000
    requires |StoredText(d)| < 0x8000_0000_0000_0000
    ensures AddressedAt(d, pos, count, env)
  {
    hide Owned, ReadNext, StoredText, Flatten, Commands, Measured, Sized;
    StoredIsSuffix(d);
    if pos < 0 {
      BelowZero(d, pos, count, env);
    } else {
      ReadDeliversText(d, pos, count, env);
      var data := ReadNext(d, pos, count, env).1;
      if data != "" {
        SliceOfSuffix(Committed(d), Evicted(d), pos, pos + |data|);
        assert Flatten(d.history)[..|Committed(d)|] == Committed(d);
      }
    }
  }

  lemma SliceOfSuffix(text: string, e: nat, from: nat, to: nat)
    requires e <= |text| && from <= to <= |text| - e
    ensures text[e..][from..to] == text[e + from..e + to]
  {
  }

  /** A negative position is past the end for the lookup, whose offset is unsigned. */
  lemma BelowZero(d: Dev, pos: int, count: nat, env: Env)
    requires Owned(d) && Sized(d) && env.locked
    requires -0x8000_0000_0000_0000 <= pos < 0 && |StoredText(d)| < 0x8000_0000_0000_0000
    ensures ReadNext(d, pos, count, env) == (0, "", pos)
  {
    hide Owned, ReadNext;
    FlattenLength(Texts(d));
    LookupDomain(Sizes(Stored(d)), ToSize(pos));
    ReadNotFound(d, pos, count, env);
  }

  lemma FlattenPrefix(a: seq<string>, b: seq<string>)
    requires a <= b
    ensures Flatten(a) <= Flatten(b)
  {
    assert b == a + b[|a|..];
    FlattenAppend(a, b[|a|..]);
  }

  /** An absolute address keeps its byte for the rest of the run. */
  lemma AddressesAreStable(ops: seq<Op>, i: nat)
    requires i <= |ops|
    ensures Flatten(After(ops[..i]).dev.history) <= Flatten(After(ops).dev.history)
  {
    FreedAndHistoryGrow(ops, i);
    FlattenPrefix(After(ops[..i]).dev.history, After(ops).dev.history);
  }

  // --------------------------------------------------------------- positions

  /** A seek whose `int` sum comes out negative. */
  ghost predicate SeeksBelowZero(w: World, op: Op) {
    && op.Ioctl? && Legal(w, op) && op.cmd == IOCSEEKTO && op.copied
    && SeekValid(Sizes(Stored(w.dev)), op.arg)
    && 0x8000_0000 <= Position(Sizes(Stored(w.dev)), op.arg.writeCmd, op.arg.writeCmdOffset) % 0x1_0000_0000
  }

  ghost predicate NoneBelowZero(w: World) {
    forall h :: h in w.pos ==> 0 <= w.pos[h]
  }

  lemma StepNonNegative(w: World, op: Op)
    requires Owned(w.dev) && NoneBelowZero(w)
    ensures NoneBelowZero(Next(w, op)) <==> !SeeksBelowZero(w, op)
  {
    if Legal(w, op) && op.Read? {
      var sizes := Sizes(Stored(w.dev));
      if Locate(sizes, ToSize(w.pos[op.h])).Some? {
        var r := Locate(sizes, ToSize(w.pos[op.h])).value;
        LookupInvertsSeek(sizes, ToSize(w.pos[op.h]), r.0, r.1);
      }
    } else if Legal(w, op) && op.Ioctl? {
      assert Next(w, op).pos[op.h] == IoctlNext(w.dev, w.pos[op.h], op.cmd, op.arg, op.copied).1;
    }
  }

  /** No handle ever has a negative position, if and only if no seek of the run wraps below zero. */
  lemma PositionsNonNegative(ops: seq<Op>)
    ensures (forall i :: 0 <= i <= |ops| ==> NoneBelowZero(After(ops[..i]))) <==>
            (forall i :: 0 <= i < |ops| ==> !SeeksBelowZero(After(ops[..i]), ops[i]))
  {
    if forall i :: 0 <= i <= |ops| ==> NoneBelowZero(After(ops[..i])) {
      forall i | 0 <= i < |ops| ensures !SeeksBelowZero(After(ops[..i]), ops[i]) {
        assert NoneBelowZero(After(ops[..i])) && NoneBelowZero(After(ops[..i + 1]));
        AfterStep(ops, i);
        StepNonNegative(After(ops[..i]), ops[i]);
      }
    }
    if forall i :: 0 <= i < |ops| ==> !SeeksBelowZero(After(ops[..i]), ops[i]) {
      forall i | 0 <= i <= |ops| ensures NoneBelowZero(After(ops[..i])) {
        NonNegativeUpTo(ops, i);
      }
    }
  }

  lemma {:induction false} NonNegativeUpTo(ops: seq<Op>, n: nat)
    requires n <= |ops| && forall i :: 0 <= i < |ops| ==> !SeeksBelowZero(After(ops[..i]), ops[i])
    ensures NoneBelowZero(After(ops[..n]))
  {
    if n > 0 {
      NonNegativeUpTo(ops, n - 1);
      AfterStep(ops, n - 1);
      StepNonNegative(After(ops[..n - 1]), ops[n - 1]);
    }
  }

  /** A line of 2^30 bytes. */
  function LongLine(): (line: string)
    ensures |line| == 0x4000_0000 && line[|line| - 1] == '\n'
  {
    seq(0x3fff_ffff, _ => 'a') + "\n"
  }

  /** One more such line on a device that holds few and nothing pending. */
  lemma LongLineStored(d: Dev, env: Env)
    requires Owned(d) && Refines(d) && d.previous == 0 && |d.added| < CAPACITY && Succeeds(env)
    ensures var d' := WriteNext(d, LongLine(), env).0;
            && Refines(d') && d'.previous == 0
            && Sizes(d'.added) == Sizes(d.added) + [0x4000_0000]
            && Stored(d') == d'.added
  {
    hide LongLine, Owned, Texts, WriteNext, Commands, Pending, Settle, Grow, Copied;
    WriteRefines(d, LongLine(), env);
    WriteAdds(d, LongLine(), env);
    WriteOutcome(d, LongLine(), env);
    assert PendingText(d) + LongLine() == LongLine();
    var d' := WriteNext(d, LongLine(), env).0;
    assert |Sizes(d'.added)| == |d'.added| && |Sizes(d.added)| == |d.added|;
  }

  /** The run that stores two lines of 2^30 bytes and seeks to the end of the second. */
  function LongSeek(env: Env): seq<Op> {
    [Open(0), Write(0, LongLine(), env), Write(0, LongLine(), env),
     Ioctl(0, IOCSEEKTO, SeekTo(1, 0x4000_0000), true)]
  }

  lemma LongLinesOnRun(env: Env)
    requires Succeeds(env)
    ensures var w := After(LongSeek(env)[..3]);
            NothingDropped(LongSeek(env)[..3]) && w.pos == map[0 := 0] &&
            Sizes(Stored(w.dev)) == [0x4000_0000, 0x4000_0000]
  {
    hide LongLine, Owned, After, WriteNext, Refines;
    var ops := LongSeek(env);
    FreshRefines();
    AtBoot(ops);
    AfterStep(ops, 0);
    AfterStep(ops, 1);
    AfterStep(ops, 2);
    LongLineStored(FreshDev, env);
    LongLineStored(After(ops[..2]).dev, env);
    assert ops[..3][..0] == ops[..0] && ops[..3][..1] == ops[..1] && ops[..3][..2] == ops[..2];
  }

  /**
   The wrap is real: on a run that writes two such lines, a seek to the end of the second is
   accepted and leaves the handle at a negative position.
   */
  lemma SeekOverflows(env: Env)
    requires Succeeds(env)
    ensures var ops := LongSeek(env);
            && NothingDropped(ops[..3]) && 0 in After(ops).pos
            && SeeksBelowZero(After(ops[..3]), ops[3])
            && After(ops).pos[0] == -0x8000_0000
  {
    hide LongLine, Owned, After, WriteNext, NothingDropped, Position;
    var ops := LongSeek(env);
    LongLinesOnRun(env);
    AfterStep(ops, 3);
    assert ops[..4] == ops;
    SumOfFirst(0x4000_0000, 0x4000_0000);
  }

  lemma SumOfFirst(first: nat, second: nat)
    ensures Position([first, second], 1, second) == first + second
  {
    SumPrefix([first, second], 0);
    assert [first, second][..0] == [] && Sum([]) == 0;
  }
}
