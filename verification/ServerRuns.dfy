/** What every schedule of the connection threads guarantees. */
module ServerRuns {
  import opened Sequences
  import opened Offsets
  import opened Kernel
  import opened CircularBuffer
  import opened History
  import opened DriverModel
  import opened FileOps
  import opened SeekCommand
  import opened Transfer
  import opened Server
  import Driver = DriverRuns

  /** The state after a schedule, from the start of the server. */
  ghost function Reached(steps: seq<Step>): (s: Srv)
    ensures Owned(s.world.dev)
  {
    if steps == [] then Start else Take(Reached(steps[..|steps| - 1]), steps[|steps| - 1])
  }

  lemma ReachedStep(steps: seq<Step>, i: nat)
    requires i < |steps|
    ensures Reached(steps[..i + 1]) == Take(Reached(steps[..i]), steps[i])
  {
    assert steps[..i + 1][..i] == steps[..i];
  }

  lemma StartOk()
    ensures Inv(Start)
  {
    Driver.FreshRefines();
    assert LastTen(Commands(FreshDev.history)) == [];
    assert StoredText(FreshDev) == "";
  }

  lemma {:induction false} RunKeepsInv(steps: seq<Step>)
    ensures Inv(Reached(steps))
  {
    if steps == [] {
      StartOk();
    } else {
      RunKeepsInv(steps[..|steps| - 1]);
      StepKeepsInv(Reached(steps[..|steps| - 1]), steps[|steps| - 1]);
    }
  }

  predicate EndsWith(text: string, last: string) {
    |last| <= |text| && text[|text| - |last|..] == last
  }

  lemma LastIsSuffix(history: seq<string>)
    requires history != []
    ensures EndsWith(Flatten(LastTen(history)), history[|history| - 1])
  {
    var kept := LastTen(history);
    var front, last := kept[..|kept| - 1], history[|history| - 1];
    assert kept == front + [last];
    FlattenAppend(front, [last]);
    assert Flatten([last]) == last;
  }

  /**
   Under every schedule of any number of threads and for every message, the client of a
   thread that did not seek and has finished received the commands stored just after that
   thread's own write. Its own message comes last in them exactly when it ends a line, and
   they read the same as the last ten messages exactly when `SameLastTen` says so.
   */
  lemma ReplyIsStoredCommands(steps: seq<Step>, t: nat)
    requires t in Reached(steps).threads && Reached(steps).threads[t].Done?
    requires !("AESDCHAR_IOCSEEKTO:" <= Reached(steps).threads[t].job.msg)
    ensures var history, job, reply := Reached(steps).world.dev.history,
                                       Reached(steps).threads[t].job, Reached(steps).threads[t].reply;
            && 0 < job.at <= |history| && history[job.at - 1] == job.msg
            && reply == Flatten(LastTen(Commands(history[..job.at])))
            && (job.msg != "" ==> (EndsWith(reply, job.msg) <==> EndsLine(job.msg)))
            && (reply == Flatten(LastTen(history[..job.at])) <==> SameLastTen(history[..job.at]))
  {
    hide Take, Inv, Reached, Commands, SameLastTen;
    RunKeepsInv(steps);
    DoneMessage(Reached(steps), t);
    var history, job := Reached(steps).world.dev.history, Reached(steps).threads[t].job;
    SameLastTenExactly(history[..job.at]);
    assert history[..job.at] == history[..job.at - 1] + [job.msg];
    if job.msg != "" {
      OwnWriteLast(history[..job.at - 1], job.msg);
    }
  }

  lemma DoneMessage(s: Srv, t: nat)
    requires Inv(s) && t in s.threads && s.threads[t].Done? && !IsSeek(s.threads[t].job.msg)
    ensures var history, job, reply := s.world.dev.history, s.threads[t].job, s.threads[t].reply;
            && 0 < job.at <= |history| && history[job.at - 1] == job.msg
            && reply == Flatten(LastTen(Commands(history[..job.at])))
  {
    hide DeviceOk, Owned;
    InvOwned(s);
    assert ThreadOk(s, t, s.threads[t]);
  }

  // ---------------------------------------------- messages without NUL bytes

  /** Nothing received has a NUL byte, so every thread handles the whole of what it received. */
  ghost predicate WholeMessages(steps: seq<Step>) {
    forall i :: 0 <= i < |steps| && steps[i].Arrive? ==> NulFree(steps[i].received)
  }

  /** Every message in hand and every message on the device is a line. */
  ghost predicate LinesOnly(s: Srv) {
    && AllLines(s.world.dev.history)
    && forall t :: t in s.threads && (s.threads[t].Waiting? || s.threads[t].Locked? || s.threads[t].Opened?) ==>
         EndsLine(s.threads[t].msg)
  }

  lemma LinesOnlyPrefix(s: Srv, n: nat)
    requires LinesOnly(s) && n <= |s.world.dev.history|
    ensures AllLines(s.world.dev.history[..n])
  {
  }

  lemma StepKeepsLines(s: Srv, step: Step)
    requires Inv(s) && LinesOnly(s)
    requires step.Arrive? ==> NulFree(step.received)
    ensures LinesOnly(Take(s, step))
  {
    hide DeviceOk, ThreadOk, SectionOk, Owned, EndsLine, WriteNext, ReadNext, CString, NulFree;
    InvOwned(s);
    StepHistory(s, step);
    if step.Arrive? {
      CStringWhole(step.received);
    }
  }

  lemma {:induction false} RunKeepsLines(steps: seq<Step>)
    requires WholeMessages(steps)
    ensures LinesOnly(Reached(steps))
  {
    hide Take, Inv, LinesOnly;
    if steps == [] {
      StartHasLines();
    } else {
      RunKeepsLines(steps[..|steps| - 1]);
      RunKeepsInv(steps[..|steps| - 1]);
      StepKeepsLines(Reached(steps[..|steps| - 1]), steps[|steps| - 1]);
    }
  }

  lemma StartHasLines()
    ensures LinesOnly(Start)
  {
  }

  /**
   When no client sends a NUL byte, the reply to an ordinary message is the concatenation of
   the last ten messages as of the thread's own write, its own message last.
   */
  lemma ReplyIsLastTenMessages(steps: seq<Step>, t: nat)
    requires WholeMessages(steps)
    requires t in Reached(steps).threads && Reached(steps).threads[t].Done?
    requires !("AESDCHAR_IOCSEEKTO:" <= Reached(steps).threads[t].job.msg)
    ensures var history, job, reply := Reached(steps).world.dev.history,
                                       Reached(steps).threads[t].job, Reached(steps).threads[t].reply;
            && 0 < job.at <= |history| && history[job.at - 1] == job.msg
            && reply == Flatten(LastTen(history[..job.at]))
            && EndsWith(reply, job.msg)
  {
    hide *;
    ReplyIsStoredCommands(steps, t);
    RunKeepsLines(steps);
    LinesOnlyPrefix(Reached(steps), Reached(steps).threads[t].job.at);
    LinesAreCommands(Reached(steps).world.dev.history[..Reached(steps).threads[t].job.at]);
    LastIsSuffix(Reached(steps).world.dev.history[..Reached(steps).threads[t].job.at]);
  }

  // --------------------------------------------------------------- seeking

  /**
   The client of a seek that was accepted receives the commands stored at its instant from
   the requested place on. The place is computed in an `int`: when that is negative the
   client receives nothing, and it is the place itself exactly below 2^31.
   */
  lemma ReplyToSeek(steps: seq<Step>, t: nat)
    requires t in Reached(steps).threads && Reached(steps).threads[t].Done?
    requires "AESDCHAR_IOCSEEKTO:" <= Reached(steps).threads[t].job.msg
    ensures var history, job, reply := Reached(steps).world.dev.history,
                                       Reached(steps).threads[t].job, Reached(steps).threads[t].reply;
            && job.at <= |history| && Parse(job.msg).Some?
            && IsSeekReply(StoredAt(history, job.at), Parse(job.msg).value, reply)
  {
    hide Take, Inv, Reached;
    RunKeepsInv(steps);
    DoneSeek(Reached(steps), t);
  }

  /** The reply to a valid request on the stored commands. */
  ghost predicate IsSeekReply(stored: seq<string>, arg: SeekTo, reply: string) {
    SeekValid(Lengths(stored), arg) &&
    var place := Position(Lengths(stored), arg.writeCmd, arg.writeCmdOffset);
    && place <= |Flatten(stored)|
    && reply == (if ToInt(place) < 0 then "" else From(Flatten(stored), ToInt(place)))
    && (place < 0x8000_0000 ==> reply == Flatten(stored)[place..])
  }

  lemma DoneSeek(s: Srv, t: nat)
    requires Inv(s) && t in s.threads && s.threads[t].Done? && IsSeek(s.threads[t].job.msg)
    ensures var history, job, reply := s.world.dev.history, s.threads[t].job, s.threads[t].reply;
            && job.at <= |history| && Parse(job.msg).Some?
            && IsSeekReply(StoredAt(history, job.at), Parse(job.msg).value, reply)
  {
    hide JobHonest, Owned, DeviceOk, Answer, IsSeekReply;
    InvOwned(s);
    assert ThreadOk(s, t, s.threads[t]);
    AnswerToSeek(s.world.dev.history, s.threads[t].job);
  }

  lemma AnswerToSeek(history: seq<string>, job: Job)
    requires JobHonest(history, job) && IsSeek(job.msg)
    ensures job.at <= |history| && Parse(job.msg).Some?
    ensures IsSeekReply(StoredAt(history, job.at), Parse(job.msg).value, Answer(history, job))
  {
    hide Position, Flatten, StoredAt, Parse;
    PlaceWithinText(StoredAt(history, job.at), Parse(job.msg).value);
  }

  lemma PlaceWithinText(stored: seq<string>, arg: SeekTo)
    requires SeekValid(Lengths(stored), arg)
    ensures Position(Lengths(stored), arg.writeCmd, arg.writeCmdOffset) <= |Flatten(stored)|
  {
    SumPrefix(Lengths(stored), arg.writeCmd);
    SumMonotone(Lengths(stored), arg.writeCmd + 1, |stored|);
    assert Lengths(stored)[..|stored|] == Lengths(stored);
    FlattenLength(stored);
  }

  /**
   The same for the text of a request, whatever it is: X and Y are the values of its two
   tokens as unsigned 32-bit numbers.
   */
  lemma ReplyToSeekText(steps: seq<Step>, t: nat, f: Form)
    requires t in Reached(steps).threads && Reached(steps).threads[t].Done?
    requires f.Valid() && Reached(steps).threads[t].job.msg == f.Text()
    ensures var history, job, reply := Reached(steps).world.dev.history,
                                       Reached(steps).threads[t].job, Reached(steps).threads[t].reply;
            && job.at <= |history|
            && var stored, x, y := StoredAt(history, job.at), f.x.Value() % 0x1_0000_0000, f.y.Value() % 0x1_0000_0000;
               && x < |stored| && y <= |stored[x]|
               && var place := |Flatten(stored[..x])| + y;
                  && place <= |Flatten(stored)|
                  && reply == (if ToInt(place) < 0 then "" else From(Flatten(stored), ToInt(place)))
                  && (place < 0x8000_0000 ==> reply == Flatten(stored)[place..])
  {
    hide Take, Reached, Parse, Form.Text, Form.Valid, Token.Value, StoredAt, ToInt, Flatten;
    ParseReads(f);
    ReplyToSeek(steps, t);
    var stored, x := StoredAt(Reached(steps).world.dev.history, Reached(steps).threads[t].job.at), f.WriteCmd();
    assert Lengths(stored)[..x] == Lengths(stored[..x]);
    FlattenLength(stored[..x]);
  }

  /** A client whose seek was refused had sent one that cannot be parsed or named nothing stored at its instant. */
  lemma RefusedOnlyIfInvalid(steps: seq<Step>, t: nat)
    requires t in Reached(steps).threads && Reached(steps).threads[t].Refused?
    ensures var history, job := Reached(steps).world.dev.history, Reached(steps).threads[t].job;
            && job.at <= |history| && "AESDCHAR_IOCSEEKTO:" <= job.msg
            && (Parse(job.msg).None? || !NamesStored(StoredAt(history, job.at), Parse(job.msg).value))
  {
    hide Take, Inv, Reached, Parse, StoredAt;
    RunKeepsInv(steps);
    RefusedJob(Reached(steps), t);
  }

  /** The request names one of the commands and an offset of at most its length. */
  predicate NamesStored(commands: seq<string>, arg: SeekTo) {
    arg.writeCmd < |commands| && arg.writeCmdOffset <= |commands[arg.writeCmd]|
  }

  lemma RefusedJob(s: Srv, t: nat)
    requires Inv(s) && t in s.threads && s.threads[t].Refused?
    ensures JobRefused(s.world.dev.history, s.threads[t].job)
  {
    hide DeviceOk, Owned, JobRefused;
    InvOwned(s);
    assert ThreadOk(s, t, s.threads[t]);
  }

  /**
   What is done with a message. One that starts with the 19 characters of the command leaves
   the device as it was, and its client is refused exactly if it cannot be parsed or names
   nothing stored. Every other one is written as it is and answered from the start.
   */
  lemma ActDispatches(s: Srv, t: nat, env: Env)
    requires Inv(s) && Enabled(s, Act(t, env))
    ensures t in Take(s, Act(t, env)).threads
    ensures var msg, dev, s' := s.threads[t].msg, s.world.dev, Take(s, Act(t, env));
            if 19 <= |msg| && msg[..19] == "AESDCHAR_IOCSEEKTO:" then
              && s'.world.dev == dev && IsSeek(msg)
              && if Parse(msg).Some? && NamesStored(Texts(dev), Parse(msg).value) then s'.threads[t].Draining?
                 else s'.threads[t] == Failing(Job(msg, |dev.history|, 0)) && s'.world == s.world
            else
              && s'.world.dev.history == dev.history + [msg]
              && s'.threads[t] == Draining(Job(msg, |dev.history| + 1, 0), "", "")
              && s'.world.pos == s.world.pos && t in s.world.pos && s.world.pos[t] == 0
  {
    hide WriteNext, Texts, StoredText, Parse, Take, ThreadOk;
    DeviceText(s.world.dev);
    var msg := s.threads[t].msg;
    assert IsSeek(msg) <==> 19 <= |msg| && msg[..19] == "AESDCHAR_IOCSEEKTO:";
    if IsSeek(msg) {
      ActSeekStep(s, t, env);
    } else {
      ActWriteStep(s, t, env);
      WriteKeepsDevice(s.world.dev, msg, env);
    }
  }

  /**
   A seek with a negative X in the range of `int` asks for command X + 2^32 and is refused, and
   so is one with a negative Y as long as no command is 2^31 bytes long.
   */
  lemma NegativeSeekRefused(s: Srv, t: nat, env: Env, f: Form)
    requires Inv(s) && Enabled(s, Act(t, env)) && f.Valid() && s.threads[t].msg == f.Text()
    requires -0x8000_0000 <= f.x.Value() < 0 ||
             (-0x8000_0000 <= f.y.Value() < 0 &&
              forall i :: 0 <= i < |Texts(s.world.dev)| ==> |Texts(s.world.dev)[i]| < 0x8000_0000)
    ensures Parse(f.Text()).Some?
    ensures f.x.Value() < 0 && -0x8000_0000 <= f.x.Value() ==>
              Parse(f.Text()).value.writeCmd == f.x.Value() + 0x1_0000_0000
    ensures f.y.Value() < 0 && -0x8000_0000 <= f.y.Value() ==>
              Parse(f.Text()).value.writeCmdOffset == f.y.Value() + 0x1_0000_0000
    ensures var s' := Take(s, Act(t, env));
            t in s'.threads && s'.threads[t].Failing? && s'.world == s.world
  {
    hide Take, Parse, Texts, Form.Text, Form.Valid, Token.Value, ThreadOk;
    ParseReads(f);
    ActDispatches(s, t, env);
    AtMostTen(s.world.dev);
  }

  lemma AtMostTen(d: Dev)
    requires Owned(d)
    ensures |Texts(d)| <= 10
  {
  }

  /** While a thread holds the mutex, no step of another changes device, handles, mutex or that thread. */
  lemma RepliesAreNotTorn(s: Srv, t: nat, step: Step)
    requires Inv(s) && s.owner == Some(t) && step.t != t
    ensures Take(s, step).world == s.world && Take(s, step).owner == s.owner
    ensures Take(s, step).threads[t] == s.threads[t]
  {
    assert step.t in s.threads ==> !InSection(s.threads[step.t]);
  }

  /** At most one thread is between lock and unlock. */
  lemma MutualExclusion(steps: seq<Step>, t: nat, u: nat)
    requires t in Reached(steps).threads && u in Reached(steps).threads
    requires InSection(Reached(steps).threads[t]) && InSection(Reached(steps).threads[u])
    ensures t == u
  {
    RunKeepsInv(steps);
  }

  // ------------------------------------------------ the instant of the write

  predicate HasJob(th: Thread) {
    !th.Waiting? && !th.Locked? && !th.Opened?
  }

  /** The step writes a message to the device. */
  ghost predicate Writes(s: Srv, step: Step)
    requires Owned(s.world.dev)
  {
    step.Act? && Enabled(s, step) && !IsSeek(s.threads[step.t].msg)
  }

  lemma JobFromAct(s: Srv, step: Step, t: nat)
    requires Inv(s) && t in Take(s, step).threads && HasJob(Take(s, step).threads[t])
    ensures var s' := Take(s, step);
            || (t in s.threads && HasJob(s.threads[t]) && s.threads[t].job == s'.threads[t].job)
            || (step.Act? && step.t == t && Enabled(s, step) && s.threads[t].msg == s'.threads[t].job.msg
                && s'.threads[t].job.at == |s'.world.dev.history|)
  {
    hide DeviceOk, ThreadOk, Position, ToInt, Owned, WriteNext, ReadNext;
    InvOwned(s);
    if Enabled(s, step) && step.t == t {
      match step
      case Act(_, env) =>
        if IsSeek(s.threads[t].msg) {
          ActSeekStep(s, t, env);
        } else {
          ActWriteStep(s, t, env);
        }
      case ReadSome(_, env) => ReadStep(s, t, env);
      case _ =>
    }
  }

  lemma JobNeedsStep(steps: seq<Step>, n: nat, t: nat)
    requires n <= |steps| && t in Reached(steps[..n]).threads
    ensures 0 < n
  {
    hide Take;
  }

  /** The step at which a thread did its write or seek: its job counts the messages of that instant. */
  lemma {:induction false} JobInstant(steps: seq<Step>, n: nat, t: nat) returns (i: nat)
    requires n <= |steps| && t in Reached(steps[..n]).threads && HasJob(Reached(steps[..n]).threads[t])
    ensures i < n && steps[i].Act? && steps[i].t == t && Enabled(Reached(steps[..i]), steps[i])
    ensures var job := Reached(steps[..n]).threads[t].job;
            && t in Reached(steps[..i]).threads && Reached(steps[..i]).threads[t].Opened?
            && job.msg == Reached(steps[..i]).threads[t].msg
            && job.at == |Reached(steps[..i + 1]).world.dev.history|
            && (!IsSeek(job.msg) ==> Writes(Reached(steps[..i]), steps[i]))
  {
    hide Take, Inv, Reached;
    JobNeedsStep(steps, n, t);
    RunKeepsInv(steps[..n - 1]);
    ReachedStep(steps, n - 1);
    var s := Reached(steps[..n - 1]);
    JobFromAct(s, steps[n - 1], t);
    if t in s.threads && HasJob(s.threads[t]) && s.threads[t].job == Reached(steps[..n]).threads[t].job {
      i := JobInstant(steps, n - 1, t);
    } else {
      i := n - 1;
    }
  }

  lemma StepHistory(s: Srv, step: Step)
    requires Inv(s)
    ensures Take(s, step).world.dev.history ==
            s.world.dev.history + if Writes(s, step) then [s.threads[step.t].msg] else []
    ensures Writes(s, step) ==> !("AESDCHAR_IOCSEEKTO:" <= s.threads[step.t].msg)
  {
    if Enabled(s, step) && step.Act? {
      var msg := s.threads[step.t].msg;
      if IsSeek(msg) {
        ActSeekStep(s, step.t, step.env);
      } else {
        ActWriteStep(s, step.t, step.env);
        WriteKeepsDevice(s.world.dev, msg, step.env);
      }
    }
  }

  /** Every message on the device was written by a step of its thread, at the instant of its number. */
  lemma {:induction false} HistoryIsWrites(steps: seq<Step>, n: nat, k: nat) returns (i: nat)
    requires n <= |steps| && k < |Reached(steps[..n]).world.dev.history|
    ensures i < n && Writes(Reached(steps[..i]), steps[i])
    ensures |Reached(steps[..i]).world.dev.history| == k
    ensures var msg := Reached(steps[..n]).world.dev.history[k];
            msg == Reached(steps[..i]).threads[steps[i].t].msg && !("AESDCHAR_IOCSEEKTO:" <= msg)
  {
    hide Take, Inv, Reached, Writes, Enabled;
    WriteNeedsStep(steps, n);
    RunKeepsInv(steps[..n - 1]);
    ReachedStep(steps, n - 1);
    StepHistory(Reached(steps[..n - 1]), steps[n - 1]);
    if k < |Reached(steps[..n - 1]).world.dev.history| {
      i := HistoryIsWrites(steps, n - 1, k);
    } else {
      i := n - 1;
    }
  }

  /** A thread handles what it received, up to the first NUL byte. */
  lemma {:induction false} MessageReceived(steps: seq<Step>, n: nat, t: nat) returns (i: nat)
    requires n <= |steps| && t in Reached(steps[..n]).threads
    ensures i < n && steps[i].Arrive? && steps[i].t == t && Enabled(Reached(steps[..i]), steps[i])
    ensures MessageOf(Reached(steps[..n]).threads[t]) == CString(steps[i].received)
  {
    hide Take, Inv, Reached, Enabled, CString;
    ThreadNeedsStep(steps, n, t);
    RunKeepsInv(steps[..n - 1]);
    ReachedStep(steps, n - 1);
    MessageKept(Reached(steps[..n - 1]), steps[n - 1], t);
    if t in Reached(steps[..n - 1]).threads {
      i := MessageReceived(steps, n - 1, t);
    } else {
      i := n - 1;
    }
  }

  lemma ThreadNeedsStep(steps: seq<Step>, n: nat, t: nat)
    requires n <= |steps| && t in Reached(steps[..n]).threads
    ensures 0 < n
  {
    hide Take;
  }

  lemma MessageKept(s: Srv, step: Step, t: nat)
    requires Inv(s) && t in Take(s, step).threads
    ensures if t in s.threads then MessageOf(Take(s, step).threads[t]) == MessageOf(s.threads[t])
            else step.Arrive? && step.t == t && Enabled(s, step)
                 && MessageOf(Take(s, step).threads[t]) == CString(step.received)
  {
    hide DeviceOk, ThreadOk, Position, ToInt, Owned, WriteNext, ReadNext, CString;
    InvOwned(s);
    if Enabled(s, step) && step.t == t {
      match step
      case Act(_, env) => ActDispatches(s, t, env); JobFromAct(s, step, t);
      case ReadSome(_, env) => ReadStep(s, t, env);
      case _ =>
    }
  }

  lemma WriteNeedsStep(steps: seq<Step>, n: nat)
    requires n <= |steps| && Reached(steps[..n]).world.dev.history != []
    ensures 0 < n
  {
    hide Take;
  }

  lemma {:induction false} HistoryGrows(steps: seq<Step>, i: nat, j: nat)
    requires i <= j <= |steps|
    ensures Reached(steps[..i]).world.dev.history <= Reached(steps[..j]).world.dev.history
    decreases j - i
  {
    hide Take, Inv, Reached;
    if i < j {
      HistoryGrows(steps, i, j - 1);
      ReachedStep(steps, j - 1);
      RunKeepsInv(steps[..j - 1]);
      StepHistory(Reached(steps[..j - 1]), steps[j - 1]);
    }
  }

  /** Two clients never share a write: different threads were answered at different instants. */
  lemma WritesAreDistinct(steps: seq<Step>, t: nat, u: nat)
    requires t in Reached(steps).threads && HasJob(Reached(steps).threads[t])
    requires u in Reached(steps).threads && HasJob(Reached(steps).threads[u])
    requires !IsSeek(Reached(steps).threads[t].job.msg) && !IsSeek(Reached(steps).threads[u].job.msg)
    requires t != u
    ensures Reached(steps).threads[t].job.at != Reached(steps).threads[u].job.at
  {
    hide *;
    assert steps[..|steps|] == steps;
    var i := JobInstant(steps, |steps|, t);
    var j := JobInstant(steps, |steps|, u);
    if i < j {
      LaterWriteCountsMore(steps, i, j);
    } else {
      LaterWriteCountsMore(steps, j, i);
    }
  }

  lemma LaterWriteCountsMore(steps: seq<Step>, i: nat, j: nat)
    requires i < j < |steps| && Writes(Reached(steps[..j]), steps[j])
    ensures |Reached(steps[..i + 1]).world.dev.history| < |Reached(steps[..j + 1]).world.dev.history|
  {
    hide *;
    HistoryGrows(steps, i + 1, j);
    RunKeepsInv(steps[..j]);
    ReachedStep(steps, j);
    StepHistory(Reached(steps[..j]), steps[j]);
  }

  // ----------------------------------------------------------------- progress

  ghost predicate AllCanAct(s: Srv) {
    forall t :: t in s.threads && s.threads[t].Opened? ==> CanAct(s.world.dev, s.threads[t].msg)
  }

  /**
   No deadlock, as long as writes can be done: while a thread has not finished, some thread
   can take a step.
   */
  lemma SomeStepEnabled(s: Srv, t: nat, env: Env) returns (step: Step)
    requires Inv(s) && AllCanAct(s) && Succeeds(env)
    requires t in s.threads && !Finished(s.threads[t])
    ensures !step.Arrive? && Enabled(s, step)
    ensures s.owner.Some? ==> step.t == s.owner.value
  {
    if s.owner.None? {
      step := Lock(t);
    } else {
      step := HolderStep(s, s.owner.value, env);
    }
  }

  predicate Finished(th: Thread) {
    th.Done? || th.Refused?
  }

  /** The thread is not about to write nothing, or more than memory holds. */
  predicate ThreadCanAct(s: Srv, t: nat)
    requires t in s.threads
  {
    var th := s.threads[t];
    th.Waiting? || th.Locked? || th.Opened? ==> CanAct(s.world.dev, th.msg)
  }

  /** The step the holder of the mutex takes next. */
  lemma HolderStep(s: Srv, t: nat, env: Env) returns (step: Step)
    requires Inv(s) && s.owner == Some(t) && t in s.threads && Succeeds(env)
    requires s.threads[t].Opened? ==> CanAct(s.world.dev, s.threads[t].msg)
    ensures step.t == t && !step.Arrive? && Enabled(s, step)
  {
    hide DeviceOk, ThreadOk, CanAct, Owned;
    InvOwned(s);
    var th := s.threads[t];
    step := if th.Locked? then OpenDevice(t)
            else if th.Opened? then Act(t, env)
            else if th.Draining? then if th.rest == "" then ReadSome(t, env) else Send(t, |th.rest|)
            else if th.Drained? then Close(t)
            else Unlock(t);
  }

  /** A write in hand is blocked exactly when it has no byte and nothing is pending. */
  lemma ActBlockedExactly(s: Srv, t: nat, env: Env)
    requires Inv(s) && t in s.threads && s.threads[t].Opened? && !IsSeek(s.threads[t].msg) && Succeeds(env)
    requires Sum(Sizes(Stored(s.world.dev))) + s.world.dev.previous + |s.threads[t].msg| < 0x8000_0000_0000_0000
    ensures Enabled(s, Act(t, env)) <==> !(s.threads[t].msg == "" && Pending(s.world.dev.history) == "")
  {
    hide ThreadOk;
    DeviceText(s.world.dev);
  }

  /** When only lines were received, every message in hand that fits in memory can be written. */
  lemma LinesCanAct(s: Srv, t: nat)
    requires Inv(s) && LinesOnly(s) && t in s.threads
    requires var th := s.threads[t];
             th.Waiting? || th.Locked? || th.Opened? ==>
               Sum(Sizes(Stored(s.world.dev))) + |th.msg| < 0x8000_0000_0000_0000
    ensures ThreadCanAct(s, t)
  {
    hide ThreadOk;
    DeviceText(s.world.dev);
    LinesAreCommands(s.world.dev.history);
  }

  /** When no client sends a NUL byte and memory lasts, no schedule deadlocks. */
  lemma NoDeadlock(steps: seq<Step>, t: nat, env: Env) returns (step: Step)
    requires WholeMessages(steps) && Succeeds(env)
    requires t in Reached(steps).threads && !Finished(Reached(steps).threads[t])
    requires forall u :: u in Reached(steps).threads && Reached(steps).threads[u].Opened? ==>
      Sum(Sizes(Stored(Reached(steps).world.dev))) + |Reached(steps).threads[u].msg| < 0x8000_0000_0000_0000
    ensures !step.Arrive? && Enabled(Reached(steps), step)
    ensures Reached(steps).owner.Some? ==> step.t == Reached(steps).owner.value
  {
    hide Take, Inv, Reached, Enabled, LinesOnly, WholeMessages, CanAct;
    RunKeepsInv(steps);
    RunKeepsLines(steps);
    var s := Reached(steps);
    forall u | u in s.threads && s.threads[u].Opened? ensures CanAct(s.world.dev, s.threads[u].msg) {
      LinesCanAct(s, u);
    }
    step := SomeStepEnabled(s, t, env);
  }

  /**
   A message whose first byte is NUL, sent first, leaves its thread with nothing to write
   and the mutex held: no thread has a step.
   */
  lemma EmptyMessageSticks(step: Step)
    requires !step.Arrive?
    ensures var s := Reached([Arrive(0, "\0\n"), Lock(0), OpenDevice(0)]);
            && s.owner == Some(0) && 0 in s.threads && s.threads[0] == Opened("")
            && s.world.dev.previous == 0 && !Enabled(s, step)
  {
    hide *;
    EmptyMessageOpened();
    NothingToDo(Reached([Arrive(0, "\0\n"), Lock(0), OpenDevice(0)]), step);
  }

  lemma EmptyMessageOpened()
    ensures Owned(FreshDev)
    ensures Reached([Arrive(0, "\0\n"), Lock(0), OpenDevice(0)]) ==
            Srv(Driver.World(FreshDev, map[0 := 0]), Some(0), map[0 := Opened("")])
  {
    hide ReadNext, WriteNext, Reached, IsSeek, CString, EndsLine, Owned;
    var steps := [Arrive(0, "\0\n"), Lock(0), OpenDevice(0)];
    EmptyIsNoSeek();
    ReachedStep(steps, 0);
    ReachedStep(steps, 1);
    ReachedStep(steps, 2);
    NothingReached(steps);
    assert steps[..3] == steps;
  }

  lemma NothingToDo(s: Srv, step: Step)
    requires Owned(FreshDev) && !step.Arrive?
    requires s == Srv(Driver.World(FreshDev, map[0 := 0]), Some(0), map[0 := Opened("")])
    ensures !Enabled(s, step)
    ensures s.owner == Some(0) && 0 in s.threads && s.threads[0] == Opened("") && s.world.dev.previous == 0
  {
    hide IsSeek, Owned;
    EmptyIsNoSeek();
  }

  lemma EmptyIsNoSeek()
    ensures !IsSeek("") && CString("\0\n") == "" && EndsLine("\0\n") && Owned(FreshDev)
  {
  }

  lemma NothingReached(steps: seq<Step>)
    ensures Reached(steps[..0]) == Start
  {
    hide Take;
  }

  ghost function Left(d: Dev, pos: int): nat
    requires Owned(d)
  {
    if 0 <= pos < |StoredText(d)| then |StoredText(d)| - pos else 0
  }

  /** A bound on the steps thread `t` can still take inside the section. */
  ghost function Work(s: Srv, t: nat): nat
    requires Owned(s.world.dev) && t in s.threads
  {
    match s.threads[t]
    case Locked(msg) => 2 * (|StoredText(s.world.dev)| + s.world.dev.previous + |msg|) + 6
    case Opened(msg) => 2 * (|StoredText(s.world.dev)| + s.world.dev.previous + |msg|) + 5
    case Draining(_, _, rest) =>
      (if t in s.world.pos then 2 * Left(s.world.dev, s.world.pos[t]) else 0) + |rest| + 3
    case Drained(_, _) => 2
    case Closed(_, _) => 1
    case Failing(_) => 1
    case _ => 0
  }

  lemma ReadReducesLeft(d: Dev, pos: int, env: Env)
    requires DeviceOk(d) && Succeeds(env) && -0x8000_0000 <= pos < 0x1_0000_0000_0000_0000
    ensures var (_, data, pos') := ReadNext(d, pos, READ_SIZE, env);
            data != "" ==> 2 * Left(d, pos') + |data| < 2 * Left(d, pos)
  {
    if 0 <= pos {
      ReadDeliversText(d, pos, READ_SIZE, env);
    } else {
      ReadBelowZero(d, pos, env);
    }
  }

  lemma WriteWork(s: Srv, t: nat, env: Env)
    requires Inv(s) && Enabled(s, Act(t, env)) && !IsSeek(s.threads[t].msg)
    ensures Work(Take(s, Act(t, env)), t) < Work(s, t)
  {
    hide Take, WriteNext, DeviceOk, StoredText, Owned, ThreadOk;
    InvOwned(s);
    ActWriteStep(s, t, env);
    var d, msg := s.world.dev, s.threads[t].msg;
    WriteKeepsDevice(d, msg, env);
    var d' := WriteNext(d, msg, env).0;
    assert Work(s, t) == 2 * (|StoredText(d)| + d.previous + |msg|) + 5;
    assert Work(Take(s, Act(t, env)), t) == 2 * Left(d', 0) + 3;
  }

  /** Every step of the thread that holds the mutex brings it nearer to the unlock. */
  lemma HolderFinishes(s: Srv, step: Step)
    requires Inv(s) && Enabled(s, step) && s.owner == Some(step.t)
    ensures Work(Take(s, step), step.t) < Work(s, step.t)
  {
    hide Take, Work, Inv, Owned;
    match step
    case Act(t, env) =>
      if IsSeek(s.threads[t].msg) {
        SeekWork(s, t, env);
      } else {
        WriteWork(s, t, env);
      }
    case ReadSome(t, env) => ReadWork(s, t, env);
    case _ => QuietWork(s, step);
  }

  lemma QuietWork(s: Srv, step: Step)
    requires Inv(s) && Enabled(s, step) && !step.Act? && !step.ReadSome? && s.owner == Some(step.t)
    ensures Work(Take(s, step), step.t) < Work(s, step.t)
  {
    hide Left, StoredText, DeviceOk, JobHonest, Answer, Owned;
  }

  lemma SeekWork(s: Srv, t: nat, env: Env)
    requires Inv(s) && Enabled(s, Act(t, env)) && IsSeek(s.threads[t].msg)
    ensures Work(Take(s, Act(t, env)), t) < Work(s, t)
  {
    hide Take, DeviceOk, StoredText, Owned, ThreadOk;
    InvOwned(s);
    ActSeekStep(s, t, env);
  }

  lemma ReadWork(s: Srv, t: nat, env: Env)
    requires Inv(s) && Enabled(s, ReadSome(t, env))
    ensures Work(Take(s, ReadSome(t, env)), t) < Work(s, t)
  {
    hide Take, ReadNext, DeviceOk, Left, Owned, ThreadOk;
    InvOwned(s);
    ReadStep(s, t, env);
    PositionInRange(s, t);
    ReadReducesLeft(s.world.dev, s.world.pos[t], env);
  }

  lemma PositionInRange(s: Srv, t: nat)
    requires Inv(s) && t in s.threads && s.threads[t].Draining? && s.threads[t].rest == ""
    ensures t in s.world.pos && -0x8000_0000 <= s.world.pos[t] < 0x1_0000_0000_0000_0000
  {
    hide DeviceOk, TextAt, StoredText, Owned, JobHonest;
    InvOwned(s);
    var th := s.threads[t];
    assert ThreadOk(s, t, th);
    DeviceText(s.world.dev);
    JobStartInRange(s.world.dev.history, th.job);
    assert th.reply + "" == th.reply;
  }

  /** The state after a schedule that starts in `s`. */
  ghost function Onward(s: Srv, steps: seq<Step>): (s': Srv)
    requires Owned(s.world.dev)
    ensures Owned(s'.world.dev)
    decreases |steps|
  {
    if steps == [] then s else Onward(Take(s, steps[0]), steps[1..])
  }

  /** How many steps of thread `t` a schedule from `s` takes. */
  ghost function OwnSteps(s: Srv, steps: seq<Step>, t: nat): nat
    requires Owned(s.world.dev)
    decreases |steps|
  {
    if steps == [] then 0
    else (if steps[0].t == t && Enabled(s, steps[0]) then 1 else 0) + OwnSteps(Take(s, steps[0]), steps[1..], t)
  }

  /** Once it holds the mutex a thread takes at most `Work` steps, in every schedule. */
  lemma {:induction false} OwnStepsBounded(s: Srv, steps: seq<Step>, t: nat)
    requires Inv(s) && t in s.threads && (s.owner == Some(t) || Finished(s.threads[t]))
    ensures OwnSteps(s, steps, t) <= Work(s, t)
    decreases |steps|
  {
    hide Take, Work, Inv, Enabled, Owned;
    InvOwned(s);
    if steps != [] {
      var step := steps[0];
      StepKeepsInv(s, step);
      if s.owner == Some(t) {
        OwnStepWorks(s, step, t);
        HolderStays(s, step, t);
      } else {
        FinishedStays(s, step, t);
      }
      OwnStepsBounded(Take(s, step), steps[1..], t);
    }
  }

  /** A step leaves the holder of the mutex in place, or it is its unlock and the thread has finished. */
  lemma HolderStays(s: Srv, step: Step, t: nat)
    requires Inv(s) && s.owner == Some(t) && t in s.threads
    ensures var s' := Take(s, step);
            t in s'.threads && (s'.owner == Some(t) || (s'.owner.None? && Finished(s'.threads[t])))
  {
    hide DeviceOk, ThreadOk, Owned, ReadNext, WriteNext, IsSeek, CanAct;
    InvOwned(s);
  }

  lemma FinishedStays(s: Srv, step: Step, t: nat)
    requires Inv(s) && t in s.threads && Finished(s.threads[t])
    ensures var s' := Take(s, step);
            && t in s'.threads && s'.threads[t] == s.threads[t]
            && !(step.t == t && Enabled(s, step))
            && Work(s, t) == 0 == Work(s', t)
  {
    hide DeviceOk, ThreadOk, Owned, ReadNext, WriteNext, IsSeek, CanAct;
    InvOwned(s);
  }

  /**
   The turns of thread `t` in a schedule from `s`: the steps it takes while it holds the
   mutex, and every time it is scheduled afterwards.
   */
  ghost function OwnTurns(s: Srv, steps: seq<Step>, t: nat): nat
    requires Owned(s.world.dev)
    decreases |steps|
  {
    if steps == [] then 0
    else (if steps[0].t == t && (Enabled(s, steps[0]) || s.owner != Some(t)) then 1 else 0) +
         OwnTurns(Take(s, steps[0]), steps[1..], t)
  }

  /**
   Every schedule that gives the holder of the mutex as many turns as `Work` says releases
   the mutex on the way.
   */
  lemma {:induction false} HolderReleases(s: Srv, steps: seq<Step>, t: nat) returns (n: nat)
    requires Inv(s) && s.owner == Some(t) && t in s.threads
    requires Work(s, t) <= OwnTurns(s, steps, t)
    ensures n <= |steps| && Onward(s, steps[..n]).owner != Some(t)
    decreases |steps|
  {
    hide Take, Work, Inv, Enabled, Owned;
    InvOwned(s);
    HolderHasWork(s, t);
    var step, s' := steps[0], Take(s, steps[0]);
    StepKeepsInv(s, step);
    OwnStepWorks(s, step, t);
    assert forall k :: 0 <= k < |steps| ==> steps[..k + 1][0] == step && steps[..k + 1][1..] == steps[1..][..k];
    if s'.owner == Some(t) {
      n := HolderReleases(s', steps[1..], t);
      n := n + 1;
    } else {
      n := 1;
      assert steps[1..][..0] == [];
    }
  }

  // ------------------------------------------------- bringing a thread to its end

  /** The message a thread is about to write. */
  function ToWrite(th: Thread): seq<string> {
    if (th.Waiting? || th.Locked? || th.Opened?) && !IsSeek(th.msg) then [th.msg] else []
  }

  function MessageOf(th: Thread): string {
    if HasJob(th) then th.job.msg else th.msg
  }

  /** What the history will be when the thread has finished, and how much of it its reply refers to. */
  ghost predicate SamePlan(s: Srv, s': Srv, t: nat) {
    && t in s.threads && t in s'.threads
    && MessageOf(s'.threads[t]) == MessageOf(s.threads[t])
    && s'.world.dev.history + ToWrite(s'.threads[t]) == s.world.dev.history + ToWrite(s.threads[t])
    && (HasJob(s'.threads[t]) ==>
          s'.threads[t].job.at == if HasJob(s.threads[t]) then s.threads[t].job.at
                                  else |s.world.dev.history + ToWrite(s.threads[t])|)
    && (forall u :: u != t && u in s.threads ==> u in s'.threads && s'.threads[u] == s.threads[u])
    && (forall u :: u != t && u in s'.threads ==> u in s.threads)
    && (forall u :: u != t ==> (u in s'.world.pos <==> u in s.world.pos))
  }

  lemma SamePlanTransitive(a: Srv, b: Srv, c: Srv, t: nat)
    requires SamePlan(a, b, t) && SamePlan(b, c, t)
    requires HasJob(a.threads[t]) ==> HasJob(b.threads[t])
    requires HasJob(b.threads[t]) ==> HasJob(c.threads[t])
    ensures SamePlan(a, c, t)
  {
    hide ToWrite, MessageOf;
    assert HasJob(b.threads[t]) ==> ToWrite(b.threads[t]) == [] by {
      JobWritesNothing(b.threads[t]);
    }
  }

  lemma JobWritesNothing(th: Thread)
    ensures HasJob(th) ==> ToWrite(th) == []
  {
  }

  lemma StepKeepsPlan(s: Srv, step: Step)
    requires Inv(s) && Enabled(s, step) && s.owner == Some(step.t)
    ensures SamePlan(s, Take(s, step), step.t)
    ensures HasJob(s.threads[step.t]) ==> HasJob(Take(s, step).threads[step.t])
    ensures ThreadCanAct(s, step.t) ==> ThreadCanAct(Take(s, step), step.t)
  {
    hide Inv, Take, SamePlan, ThreadCanAct, Enabled;
    match step
    case Act(t, env) => ActKeepsPlan(s, t, env);
    case ReadSome(t, env) => ReadKeepsPlan(s, t, env);
    case _ => QuietKeepsPlan(s, step);
  }

  lemma ActKeepsPlan(s: Srv, t: nat, env: Env)
    requires Inv(s) && Enabled(s, Act(t, env))
    ensures t in s.threads && SamePlan(s, Take(s, Act(t, env)), t) && HasJob(Take(s, Act(t, env)).threads[t])
    ensures ThreadCanAct(Take(s, Act(t, env)), t)
  {
    hide Take, DeviceOk, ThreadOk, Owned, WriteNext, IsSeek, Parse;
    InvOwned(s);
    if IsSeek(s.threads[t].msg) {
      ActSeekStep(s, t, env);
      assert s.world.dev.history + [] == s.world.dev.history;
    } else {
      ActWriteStep(s, t, env);
      WriteKeepsDevice(s.world.dev, s.threads[t].msg, env);
      assert s.world.dev.history + [s.threads[t].msg] + [] == s.world.dev.history + [s.threads[t].msg];
    }
  }

  lemma ReadKeepsPlan(s: Srv, t: nat, env: Env)
    requires Inv(s) && Enabled(s, ReadSome(t, env))
    ensures t in s.threads && SamePlan(s, Take(s, ReadSome(t, env)), t)
    ensures HasJob(Take(s, ReadSome(t, env)).threads[t]) && ThreadCanAct(Take(s, ReadSome(t, env)), t)
  {
    hide Take, DeviceOk, ThreadOk, Owned, ReadNext;
    InvOwned(s);
    ReadStep(s, t, env);
  }

  lemma QuietKeepsPlan(s: Srv, step: Step)
    requires Inv(s) && Enabled(s, step) && s.owner == Some(step.t) && !step.Act? && !step.ReadSome?
    ensures step.t in s.threads && SamePlan(s, Take(s, step), step.t)
    ensures HasJob(s.threads[step.t]) ==> HasJob(Take(s, step).threads[step.t])
    ensures ThreadCanAct(s, step.t) ==> ThreadCanAct(Take(s, step), step.t)
  {
    hide DeviceOk, ThreadOk, Owned, CanAct, IsSeek;
    InvOwned(s);
  }

  /**
   The holder of the mutex can be brought to its end by its own steps alone, as many as
   `Work` says at the most; then the mutex is free.
   */
  lemma {:induction false} ReleaseSchedule(s: Srv, t: nat, env: Env) returns (steps: seq<Step>)
    requires Inv(s) && s.owner == Some(t) && t in s.threads && ThreadCanAct(s, t) && Succeeds(env)
    ensures |steps| <= Work(s, t) && forall i :: 0 <= i < |steps| ==> steps[i].t == t && !steps[i].Arrive?
    ensures var s' := Onward(s, steps);
            Inv(s') && s'.owner.None? && SamePlan(s, s', t) && Finished(s'.threads[t])
    decreases Work(s, t)
  {
    hide Take, Work, Inv, Enabled, Owned, CanAct, SamePlan;
    InvOwned(s);
    var step := HolderStep(s, t, env);
    var s' := Take(s, step);
    StepKeepsInv(s, step);
    HolderFinishes(s, step);
    StepKeepsPlan(s, step);
    HolderStays(s, step, t);
    if s'.owner == Some(t) {
      var rest := ReleaseSchedule(s', t, env);
      steps := [step] + rest;
      assert steps[0] == step && steps[1..] == rest;
      SamePlanTransitive(s, s', Onward(s', rest), t);
    } else {
      steps := [step];
      assert steps[1..] == [] && Onward(s', []) == s';
      assert |steps| == 1;
    }
  }

  /** A waiting thread can be brought to its end when the mutex is free. */
  lemma ServeSchedule(s: Srv, t: nat, env: Env) returns (steps: seq<Step>)
    requires Inv(s) && s.owner.None? && t in s.threads && s.threads[t].Waiting? && Succeeds(env)
    requires CanAct(s.world.dev, s.threads[t].msg)
    ensures var s' := Onward(s, steps);
            Inv(s') && s'.owner.None? && SamePlan(s, s', t) && Finished(s'.threads[t])
    ensures forall i :: 0 <= i < |steps| ==> !steps[i].Arrive?
  {
    hide Inv, CanAct, Owned, IsSeek, SamePlan, Work;
    InvOwned(s);
    var s' := Take(s, Lock(t));
    StepKeepsInv(s, Lock(t));
    LockKeepsPlan(s, t);
    var rest := ReleaseSchedule(s', t, env);
    steps := [Lock(t)] + rest;
    assert steps[0] == Lock(t) && steps[1..] == rest;
    SamePlanTransitive(s, s', Onward(s', rest), t);
  }

  lemma LockKeepsPlan(s: Srv, t: nat)
    requires Inv(s) && s.owner.None? && t in s.threads && s.threads[t].Waiting?
    ensures SamePlan(s, Take(s, Lock(t)), t)
  {
  }

  lemma {:induction false} ReachedOnward(steps: seq<Step>, more: seq<Step>)
    ensures Reached(steps + more) == Onward(Reached(steps), more)
    decreases |more|
  {
    hide Take, Reached;
    if more == [] {
      assert steps + more == steps;
    } else {
      ReachedSnoc(steps, more[0]);
      ReachedOnward(steps + [more[0]], more[1..]);
      assert (steps + [more[0]]) + more[1..] == steps + more;
    }
  }

  lemma ReachedSnoc(steps: seq<Step>, step: Step)
    ensures Reached(steps + [step]) == Take(Reached(steps), step)
  {
    hide Take;
    assert (steps + [step])[..|steps|] == steps;
  }

  // -------------------------------------------------------- a message with a NUL byte

  /**
   A NUL byte changes replies. Of "a", NUL, "b", newline only "a" is written, which ends no
   command: its client is answered with nothing, and the client that sends "c", newline next
   is answered with both glued together.
   */
  lemma NulByteLosesMessage(env: Env) returns (steps: seq<Step>)
    requires Succeeds(env)
    ensures forall i :: 0 <= i < |steps| && steps[i].Arrive? ==> steps[i] in {Arrive(0, "a\0b\n"), Arrive(1, "c\n")}
    ensures var s := Reached(steps);
            && s.world.dev.history == ["a", "c\n"]
            && 0 in s.threads && s.threads[0] == Done(Job("a", 1, 0), "")
            && 1 in s.threads && s.threads[1] == Done(Job("c\n", 2, 0), "ac\n")
  {
    hide Take, Inv, Onward, Reached, SamePlan, CanAct, Owned, IsSeek, CString;
    var first := NulServed(env);
    ShortTexts();
    var s := Reached(first);
    RunKeepsInv(first);
    var arrival := Arrive(1, "c\n");
    ArrivalTaken(s, 1, "c\n");
    ReachedOnward(first, [arrival]);
    OneStepOnward(s, arrival);
    RunKeepsInv(first + [arrival]);
    LateCanAct(Reached(first + [arrival]));
    var second := ServeSchedule(Reached(first + [arrival]), 1, env);
    steps := first + [arrival] + second;
    ReachedOnward(first + [arrival], second);
    RunKeepsInv(steps);
    PlanOfMessage(Reached(first + [arrival]), Reached(steps), 1);
    PlanOfOthers(Reached(first + [arrival]), Reached(steps), 1, 0);
    BothAnswers(Reached(steps));
  }

  /** The first client alone: its message is served, and "a" is all that was written. */
  lemma NulServed(env: Env) returns (steps: seq<Step>)
    requires Succeeds(env)
    ensures forall i :: 0 <= i < |steps| && steps[i].Arrive? ==> steps[i] == Arrive(0, "a\0b\n")
    ensures var s := Reached(steps);
            && s.owner.None? && s.world.dev.history == ["a"] && s.threads.Keys == {0} && 1 !in s.world.pos
            && Finished(s.threads[0]) && s.threads[0].job.msg == "a" && s.threads[0].job.at == 1
  {
    hide Take, Inv, Onward, Reached, SamePlan, CanAct, Owned, IsSeek, CString;
    var arrival := Arrive(0, "a\0b\n");
    ShortTexts();
    NothingReached([arrival]);
    StartOk();
    ArrivalTaken(Start, 0, "a\0b\n");
    ReachedStep([arrival], 0);
    assert [arrival][..0] == [] && [arrival][..1] == [arrival];
    var s := Reached([arrival]);
    RunKeepsInv([arrival]);
    FirstCanAct(s);
    var rest := ServeSchedule(s, 0, env);
    steps := [arrival] + rest;
    ReachedOnward([arrival], rest);
    PlanOfMessage(s, Reached(steps), 0);
    OnlyThread(s, Reached(steps), 0);
    assert [] + ["a"] == ["a"];
  }

  lemma ShortTexts()
    ensures CString("a\0b\n") == "a" && CString("c\n") == "c\n" && !IsSeek("a") && !IsSeek("c\n")
    ensures EndsLine("a\0b\n") && EndsLine("c\n")
  {
    CStringOfBuffer("a\0b\n", 1);
    CStringWhole("a");
    CStringWhole("c\n");
    assert "a\0b\n"[..1] == "a";
  }

  lemma ArrivalTaken(s: Srv, t: nat, received: string)
    requires Inv(s) && t !in s.threads && t !in s.world.pos && EndsLine(received)
    ensures Take(s, Arrive(t, received)) == s.(threads := s.threads[t := Waiting(CString(received))])
  {
  }

  lemma OneStepOnward(s: Srv, step: Step)
    requires Owned(s.world.dev)
    ensures Onward(s, [step]) == Take(s, step)
  {
    hide Take;
    assert [step][1..] == [];
    assert Onward(Take(s, step), []) == Take(s, step);
  }

  /** What a plan says once the thread has finished with an ordinary message. */
  lemma PlanOfMessage(s: Srv, s': Srv, t: nat)
    requires SamePlan(s, s', t) && s.threads[t].Waiting? && !IsSeek(s.threads[t].msg) && Finished(s'.threads[t])
    ensures t in s'.threads && s'.world.dev.history == s.world.dev.history + [s.threads[t].msg]
    ensures s'.threads[t].job.msg == s.threads[t].msg && s'.threads[t].job.at == |s'.world.dev.history|
  {
    assert s'.world.dev.history + [] == s'.world.dev.history;
  }

  lemma PlanOfOthers(s: Srv, s': Srv, t: nat, u: nat)
    requires SamePlan(s, s', t) && u != t && u in s.threads
    ensures u in s'.threads && s'.threads[u] == s.threads[u]
  {
  }

  lemma OnlyThread(s: Srv, s': Srv, t: nat)
    requires SamePlan(s, s', t) && s.threads.Keys == {t}
    ensures s'.threads.Keys == {t}
    ensures forall u :: u != t ==> (u in s'.world.pos <==> u in s.world.pos)
  {
    assert forall u :: u in s'.threads.Keys <==> u == t;
  }

  lemma FirstCanAct(s: Srv)
    requires s.world == Driver.Boot
    ensures CanAct(s.world.dev, "a")
  {
    assert Stored(FreshDev) == [] && Sizes([]) == [] && Sum([]) == 0;
  }

  lemma LateCanAct(s: Srv)
    requires Inv(s) && s.world.dev.history == ["a"]
    ensures CanAct(s.world.dev, "c\n")
  {
    DeviceText(s.world.dev);
    NulHistory();
    assert ["a"][..1] == ["a"];
    assert Lengths([]) == [] && Sum([]) == 0;
  }

  lemma NulHistory()
    ensures Commands(["a"]) == [] && Pending(["a"]) == "a" && Commands(["a", "c\n"]) == ["ac\n"]
  {
    AfterWrite([], "a");
    AfterWrite(["a"], "c\n");
    assert [] + ["a"] == ["a"] && ["a"] + ["c\n"] == ["a", "c\n"];
    assert "" + "a" == "a" && "a" + "c\n" == "ac\n";
  }

  lemma BothAnswers(s: Srv)
    requires Inv(s) && s.world.dev.history == ["a", "c\n"] && 0 in s.threads && 1 in s.threads
    requires Finished(s.threads[0]) && s.threads[0].job.msg == "a" && s.threads[0].job.at == 1
    requires Finished(s.threads[1]) && s.threads[1].job.msg == "c\n" && s.threads[1].job.at == 2
    ensures s.threads[0] == Done(Job("a", 1, 0), "") && s.threads[1] == Done(Job("c\n", 2, 0), "ac\n")
  {
    hide Commands, LastTen, Flatten;
    ShortTexts();
    FinishedMessage(s, 0);
    FinishedMessage(s, 1);
    GluedTexts();
  }

  /** A finished thread that did not seek has its answer. */
  lemma FinishedMessage(s: Srv, t: nat)
    requires Inv(s) && t in s.threads && Finished(s.threads[t]) && !IsSeek(s.threads[t].job.msg)
    ensures var job, history := s.threads[t].job, s.world.dev.history;
            && job.at <= |history|
            && s.threads[t] == Done(Job(job.msg, job.at, 0), Flatten(LastTen(Commands(history[..job.at]))))
  {
    hide DeviceOk, Owned, IsSeek, Commands, Flatten, LastTen;
    InvOwned(s);
    assert ThreadOk(s, t, s.threads[t]);
  }

  lemma GluedTexts()
    ensures Flatten(LastTen(Commands(["a", "c\n"][..1]))) == ""
    ensures Flatten(LastTen(Commands(["a", "c\n"][..2]))) == "ac\n"
  {
    hide Commands;
    NulHistory();
    assert ["a", "c\n"][..1] == ["a"] && ["a", "c\n"][..2] == ["a", "c\n"];
    assert ["ac\n"][1..] == [] && "ac\n" + "" == "ac\n";
  }

  // ------------------------------------------------------------ steps and work

  lemma HolderHasWork(s: Srv, t: nat)
    requires Inv(s) && s.owner == Some(t) && t in s.threads
    ensures 0 < Work(s, t)
  {
    hide DeviceOk, ThreadOk, Owned, StoredText, Left;
    InvOwned(s);
  }

  /** One step of anybody: the holder's work falls by its own steps, and nobody else adds to it. */
  lemma OwnStepWorks(s: Srv, step: Step, t: nat)
    requires Inv(s) && s.owner == Some(t) && t in s.threads
    ensures t in Take(s, step).threads
    ensures Work(Take(s, step), t) + (if step.t == t && Enabled(s, step) then 1 else 0) <= Work(s, t)
  {
    hide Work, Inv, Owned, ReadNext, WriteNext;
    InvOwned(s);
    if step.t == t {
      if Enabled(s, step) {
        HolderFinishes(s, step);
      }
    } else {
      RepliesAreNotTorn(s, t, step);
      WorkOfSame(s, Take(s, step), t);
    }
  }

  lemma WorkOfSame(s: Srv, s': Srv, t: nat)
    requires Owned(s.world.dev) && Owned(s'.world.dev) && t in s.threads && t in s'.threads
    requires s'.world == s.world && s'.threads[t] == s.threads[t]
    ensures Work(s', t) == Work(s, t)
  {
    hide Owned, StoredText, Left;
  }

  // --------------------------------------------- the server as a driver client

  lemma StepIsDriverCall(s: Srv, step: Step) returns (ops: seq<Driver.Op>)
    requires Owned(s.world.dev)
    ensures |ops| <= 1
    ensures Take(s, step).world == if ops == [] then s.world else Driver.Next(s.world, ops[0])
    ensures ops != [] ==> !Driver.DropsBytes(s.world, ops[0])
  {
    ops := [];
    if Enabled(s, step) {
      match step
      case OpenDevice(t) => ops := [Driver.Open(t)];
      case Close(t) => ops := [Driver.Release(t)];
      case ReadSome(t, env) =>
        if t in s.world.pos {
          ops := [Driver.Read(t, READ_SIZE, env)];
        }
      case Act(t, env) =>
        var msg := s.threads[t].msg;
        if t in s.world.pos {
          if !IsSeek(msg) {
            ops := [Driver.Write(t, msg, env)];
          } else if Requested(s.world.dev, msg).Some? {
            ops := [Driver.Ioctl(t, IOCSEEKTO, Requested(s.world.dev, msg).value, true)];
          }
        }
      case _ =>
    }
  }

  /**
   Every schedule of the server is a run of the driver in which nothing is dropped, so all
   that holds of such runs holds here.
   */
  lemma {:induction false} ServerRunIsDriverRun(steps: seq<Step>) returns (ops: seq<Driver.Op>)
    ensures Reached(steps).world == Driver.After(ops)
    ensures Driver.NothingDropped(ops)
  {
    hide Take, Driver.Next, Driver.DropsBytes;
    if steps == [] {
      ops := [];
    } else {
      var n := |steps| - 1;
      var before := ServerRunIsDriverRun(steps[..n]);
      var more := StepIsDriverCall(Reached(steps[..n]), steps[n]);
      ops := before + more;
      if more == [] {
        assert ops == before;
      } else {
        assert ops[..|ops| - 1] == before && ops[|ops| - 1] == more[0];
        forall i | 0 <= i < |ops| ensures !Driver.DropsBytes(Driver.After(ops[..i]), ops[i]) {
          if i < |before| {
            assert ops[..i] == before[..i] && ops[i] == before[i];
          } else {
            assert ops[..i] == before;
          }
        }
      }
    }
  }
}
