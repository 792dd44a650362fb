/**
 The connection threads of the server (threadfunc in server/aesdsocket.c) as interleaved
 steps around `file_mutex`: any number of threads, any schedule, any split of reads and
 sends. A thread's device handle carries the thread's number. What a thread handles is the
 C string of what it received, up to the first NUL byte.
 */
module Server {
  import opened Sequences
  import opened Offsets
  import opened Kernel
  import opened CircularBuffer
  import opened History
  import opened DriverModel
  import opened FileOps
  import opened SeekCommand
  import opened Transfer
  import Driver = DriverRuns

  /** AESD_CHAR_DEVICE_READ_SIZE */
  const READ_SIZE: nat := 0x20000

  /**
   What a thread remembers after its write or seek: the message, how many messages had been
   written to the device by then, and the position from which it reads the reply. For a
   refused seek there is no reply.
   */
  datatype Job = Job(msg: string, at: nat, start: int)

  datatype Thread =
    | Waiting(msg: string)                        // received, before pthread_mutex_lock
    | Locked(msg: string)
    | Opened(msg: string)
    | Draining(job: Job, reply: string, rest: string) // bytes sent; bytes read and not yet sent
    | Drained(job: Job, reply: string)            // read returned 0
    | Closed(job: Job, reply: string)
    | Failing(job: Job)                           // the error exit, before the unlock
    | Done(job: Job, reply: string)
    | Refused(job: Job)

  datatype Srv = Srv(world: Driver.World, owner: Option<nat>, threads: map<nat, Thread>)

  const Start := Srv(Driver.Boot, None, map[])

  datatype Step =
    | Arrive(t: nat, received: string)
    | Lock(t: nat)
    | OpenDevice(t: nat)
    | Act(t: nat, env: Env)   // the write, or the parsed ioctl
    | ReadSome(t: nat, env: Env)
    | Send(t: nat, n: nat)
    | Close(t: nat)
    | Unlock(t: nat)

  /** The address space bounds the bytes a successful write can leave stored. */
  const ADDRESS_SPACE := 0x8000_0000_0000_0000

  /** A write has a byte to look at, and what it can leave stored fits; a seek is always possible. */
  predicate CanAct(d: Dev, msg: string) {
    !IsSeek(msg) ==> 0 < |msg| + d.previous && Sum(Sizes(Stored(d))) + d.previous + |msg| < ADDRESS_SPACE
  }

  ghost predicate Enabled(s: Srv, step: Step)
    requires Owned(s.world.dev)
  {
    if step.Arrive? then step.t !in s.threads && step.t !in s.world.pos && EndsLine(step.received)
    else step.t in s.threads && match step
      case Lock(t) => s.threads[t].Waiting? && s.owner.None?
      case OpenDevice(t) => s.threads[t].Locked?
      case Act(t, env) => s.threads[t].Opened? && Succeeds(env) && CanAct(s.world.dev, s.threads[t].msg)
      case ReadSome(t, env) => s.threads[t].Draining? && s.threads[t].rest == "" && Succeeds(env)
      case Send(t, n) => s.threads[t].Draining? && 1 <= n <= |s.threads[t].rest|
      case Close(t) => s.threads[t].Drained?
      case Unlock(t) => s.threads[t].Closed? || s.threads[t].Failing?
  }

  ghost function Become(s: Srv, t: nat, thread: Thread): Srv {
    s.(threads := s.threads[t := thread])
  }

  /** The request a seek message makes of the device, if it can be parsed and is accepted. */
  ghost function Requested(d: Dev, msg: string): Option<SeekTo>
    requires IsSeek(msg)
  {
    match Parse(msg)
    case None => None
    case Some(arg) => if IoctlNext(d, 0, IOCSEEKTO, arg, true).0 == 0 then Some(arg) else None
  }

  /** The write or the seek of thread `t`. */
  ghost function Perform(s: Srv, t: nat, msg: string, env: Env): (s': Srv)
    requires Owned(s.world.dev) && t in s.world.pos
    ensures Owned(s'.world.dev)
  {
    if !IsSeek(msg) then
      var world := Driver.Next(s.world, Driver.Write(t, msg, env));
      Become(s.(world := world), t, Draining(Job(msg, |world.dev.history|, world.pos[t]), "", ""))
    else if Requested(s.world.dev, msg).None? then
      Become(s, t, Failing(Job(msg, |s.world.dev.history|, 0)))
    else
      var world := Driver.Next(s.world, Driver.Ioctl(t, IOCSEEKTO, Requested(s.world.dev, msg).value, true));
      Become(s.(world := world), t, Draining(Job(msg, |world.dev.history|, world.pos[t]), "", ""))
  }

  /** One step; a step that is not enabled does not happen. */
  ghost function Take(s: Srv, step: Step): (s': Srv)
    requires Owned(s.world.dev)
    ensures Owned(s'.world.dev)
  {
    if !Enabled(s, step) then s
    else match step
      case Arrive(t, received) => Become(s, t, Waiting(CString(received)))
      case Lock(t) => Become(s, t, Locked(s.threads[t].msg)).(owner := Some(t))
      case OpenDevice(t) =>
        Become(s, t, Opened(s.threads[t].msg)).(world := Driver.Next(s.world, Driver.Open(t)))
      case Act(t, env) => if t in s.world.pos then Perform(s, t, s.threads[t].msg, env) else s
      case ReadSome(t, env) =>
        if t !in s.world.pos then s
        else
          var data := ReadNext(s.world.dev, s.world.pos[t], READ_SIZE, env).1;
          var th := s.threads[t];
          Become(s, t, if data == "" then Drained(th.job, th.reply) else Draining(th.job, th.reply, data))
          .(world := Driver.Next(s.world, Driver.Read(t, READ_SIZE, env)))
      case Send(t, n) =>
        var th := s.threads[t];
        Become(s, t, Draining(th.job, th.reply + th.rest[..n], th.rest[n..]))
      case Close(t) =>
        Become(s, t, Closed(s.threads[t].job, s.threads[t].reply)).(world := Driver.Next(s.world, Driver.Release(t)))
      case Unlock(t) =>
        var th := s.threads[t];
        Become(s, t, if th.Closed? then Done(th.job, th.reply) else Refused(th.job)).(owner := None)
  }

  // --------------------------------------------------------------- invariant

  /** The commands stored just after the first `at` messages were written. */
  function StoredAt(history: seq<string>, at: nat): seq<string>
    requires at <= |history|
  {
    LastTen(Commands(history[..at]))
  }

  function TextAt(history: seq<string>, at: nat): string
    requires at <= |history|
  {
    Flatten(StoredAt(history, at))
  }

  /** The job was done against the first `at` messages: its own is the last, or it is a valid seek among them. */
  ghost predicate JobHonest(history: seq<string>, job: Job) {
    && job.at <= |history|
    && if IsSeek(job.msg) then
         && Parse(job.msg).Some?
         && var sizes, arg := Lengths(StoredAt(history, job.at)), Parse(job.msg).value;
            SeekValid(sizes, arg) && job.start == ToInt(Position(sizes, arg.writeCmd, arg.writeCmdOffset))
       else 0 < job.at && history[job.at - 1] == job.msg && job.start == 0
  }

  /** The job is a seek that could not be parsed or named nothing stored at its instant. */
  ghost predicate JobRefused(history: seq<string>, job: Job) {
    && job.at <= |history| && IsSeek(job.msg)
    && (Parse(job.msg).None? || !SeekValid(Lengths(StoredAt(history, job.at)), Parse(job.msg).value))
  }

  /** What the client of a job has to receive; from a negative position there is nothing to read. */
  function Answer(history: seq<string>, job: Job): string
    requires job.at <= |history|
  {
    if job.start < 0 then "" else From(TextAt(history, job.at), job.start)
  }

  predicate InSection(th: Thread) {
    !th.Waiting? && !th.Done? && !th.Refused?
  }

  /** Between steps the device represents its history. */
  ghost predicate DeviceOk(d: Dev) {
    Owned(d) && Refines(d) && |StoredText(d)| < ADDRESS_SPACE
  }

  /** What is known of one thread. */
  ghost predicate ThreadOk(s: Srv, t: nat, th: Thread)
    requires Owned(s.world.dev)
  {
    var history := s.world.dev.history;
    match th
    case Waiting(msg) => t !in s.world.pos
    case Locked(msg) => t !in s.world.pos
    case Opened(msg) => t in s.world.pos && s.world.pos[t] == 0
    case Draining(job, reply, rest) =>
      && JobHonest(history, job) && job.at == |history|
      && t in s.world.pos && s.world.pos[t] == job.start + |reply + rest|
      && reply + rest <= Answer(history, job)
    case Drained(job, reply) =>
      && JobHonest(history, job) && job.at == |history|
      && t in s.world.pos
      && reply == Answer(history, job)
    case Closed(job, reply) =>
      && JobHonest(history, job) && job.at == |history|
      && t !in s.world.pos
      && reply == Answer(history, job)
    case Done(job, reply) =>
      && JobHonest(history, job)
      && t !in s.world.pos
      && reply == Answer(history, job)
    case Failing(job) => JobRefused(history, job) && job.at == |history|
    case Refused(job) => JobRefused(history, job)
  }

  ghost predicate SectionOk(s: Srv) {
    && (s.owner.Some? ==> s.owner.value in s.threads)
    && forall t :: t in s.threads ==> (InSection(s.threads[t]) <==> s.owner == Some(t))
  }

  ghost predicate Inv(s: Srv) {
    && DeviceOk(s.world.dev)
    && SectionOk(s)
    && forall t :: t in s.threads ==> ThreadOk(s, t, s.threads[t])
  }

  // ---------------------------------------------------- each step keeps it

  /** What the device stores, in terms of its history. */
  lemma DeviceText(d: Dev)
    requires DeviceOk(d)
    ensures Owned(d) && Sized(d)
    ensures Texts(d) == StoredAt(d.history, |d.history|)
    ensures Sizes(Stored(d)) == Lengths(StoredAt(d.history, |d.history|))
    ensures StoredText(d) == TextAt(d.history, |d.history|)
    ensures d.previous == |Pending(d.history)| && |StoredText(d)| < ADDRESS_SPACE
  {
    assert d.history[..|d.history|] == d.history;
  }

  lemma InvOwned(s: Srv)
    requires Inv(s)
    ensures Owned(s.world.dev)
  {
  }

  /** A thread outside the section keeps its facts when the history grows, any thread when it does not. */
  lemma ThreadKept(s: Srv, s': Srv, t: nat, th: Thread)
    requires Owned(s.world.dev) && Owned(s'.world.dev) && ThreadOk(s, t, th)
    requires s.world.dev.history <= s'.world.dev.history
    requires InSection(th) ==> s.world.dev.history == s'.world.dev.history
    requires t in s.world.pos <==> t in s'.world.pos
    requires t in s.world.pos ==> s.world.pos[t] == s'.world.pos[t]
    ensures ThreadOk(s', t, th)
  {
    if th.Done? || th.Refused? {
      assert s'.world.dev.history[..th.job.at] == s.world.dev.history[..th.job.at];
    }
  }

  /** Enough to show after a step of `t`: the device, the section and `t` itself. */
  lemma OthersKept(s: Srv, s': Srv, t: nat)
    requires Inv(s) && Owned(s'.world.dev) && t in s'.threads
    requires s'.threads == s.threads[t := s'.threads[t]]
    requires s.world.dev.history <= s'.world.dev.history
    requires s.world.dev.history == s'.world.dev.history || s.owner == Some(t)
    requires forall u :: u != t ==> (u in s.world.pos <==> u in s'.world.pos)
    requires forall u :: u != t && u in s.world.pos ==> s.world.pos[u] == s'.world.pos[u]
    requires DeviceOk(s'.world.dev) && SectionOk(s') && ThreadOk(s', t, s'.threads[t])
    ensures Inv(s')
  {
    forall u | u in s'.threads ensures ThreadOk(s', u, s'.threads[u]) {
      if u != t {
        ThreadKept(s, s', u, s.threads[u]);
      }
    }
  }

  lemma WriteKeepsDevice(d: Dev, msg: string, env: Env)
    requires DeviceOk(d) && Succeeds(env) && !IsSeek(msg) && CanAct(d, msg)
    ensures DeviceOk(WriteNext(d, msg, env).0)
    ensures WriteNext(d, msg, env).0.history == d.history + [msg]
    ensures |StoredText(WriteNext(d, msg, env).0)| <= |StoredText(d)| + d.previous + |msg|
  {
    hide Owned, WriteNext, Texts;
    WriteRefines(d, msg, env);
    StoredTextGrowth(d.history, msg);
    FlattenLength(Texts(d));
  }

  lemma StoredTextGrowth(history: seq<string>, msg: string)
    ensures |Flatten(LastTen(Commands(history + [msg])))| <=
            |Flatten(LastTen(Commands(history)))| + |Pending(history)| + |msg|
  {
    hide Flatten, Pending, Commands, EndsLine;
    AfterWrite(history, msg);
    LastTenGrowth(Commands(history), Pending(history) + msg);
  }

  lemma LastTenGrowth(commands: seq<string>, text: string)
    ensures |Flatten(LastTen(commands + [text]))| <= |Flatten(LastTen(commands))| + |text|
  {
    StoredTextsAfterAdd(commands, text);
    var kept := if |commands| < CAPACITY then LastTen(commands) else LastTen(commands)[1..];
    FlattenAppend(kept, [text]);
    assert Flatten([text]) == text;
    if CAPACITY <= |commands| {
      assert LastTen(commands) == [LastTen(commands)[0]] + kept;
      FlattenAppend([LastTen(commands)[0]], kept);
    }
  }

  /** The state after a write. */
  lemma ActWriteStep(s: Srv, t: nat, env: Env)
    requires Inv(s) && Enabled(s, Act(t, env)) && !IsSeek(s.threads[t].msg)
    ensures var msg := s.threads[t].msg;
            0 < |msg| + s.world.dev.previous && t in s.world.pos && s.world.pos[t] == 0 &&
            s.owner == Some(t) &&
            var d' := WriteNext(s.world.dev, msg, env).0;
            Take(s, Act(t, env)) ==
            Srv(Driver.World(d', s.world.pos), s.owner,
                s.threads[t := Draining(Job(msg, |d'.history|, 0), "", "")])
  {
    assert ThreadOk(s, t, s.threads[t]);
  }

  lemma ActWriteKeeps(s: Srv, t: nat, env: Env)
    requires Inv(s) && Enabled(s, Act(t, env)) && !IsSeek(s.threads[t].msg)
    ensures Inv(Take(s, Act(t, env)))
  {
    ActWriteStep(s, t, env);
    var msg := s.threads[t].msg;
    WriteKeepsDevice(s.world.dev, msg, env);
    var s' := Take(s, Act(t, env));
    FreshJobOk(s', t, Job(msg, |s'.world.dev.history|, 0));
    OthersKept(s, s', t);
  }

  lemma FreshJobOk(s: Srv, t: nat, job: Job)
    requires Owned(s.world.dev) && t in s.world.pos && s.world.pos[t] == job.start
    requires JobHonest(s.world.dev.history, job) && job.at == |s.world.dev.history|
    ensures ThreadOk(s, t, Draining(job, "", ""))
  {
    assert "" + "" == "";
  }

  /** The state after a seek: the handle stands at the requested place, or the request is refused. */
  lemma ActSeekStep(s: Srv, t: nat, env: Env)
    requires Inv(s) && Enabled(s, Act(t, env)) && IsSeek(s.threads[t].msg)
    ensures t in s.world.pos && s.owner == Some(t)
    ensures var msg := s.threads[t].msg;
            var sizes := Sizes(Stored(s.world.dev));
            Take(s, Act(t, env)) ==
            if Parse(msg).None? || !SeekValid(sizes, Parse(msg).value) then
              Srv(s.world, s.owner, s.threads[t := Failing(Job(msg, |s.world.dev.history|, 0))])
            else
              var arg := Parse(msg).value;
              var start := ToInt(Position(sizes, arg.writeCmd, arg.writeCmdOffset));
              Srv(Driver.World(s.world.dev, s.world.pos[t := start]), s.owner,
                  s.threads[t := Draining(Job(msg, |s.world.dev.history|, start), "", "")])
  {
    assert ThreadOk(s, t, s.threads[t]);
  }

  lemma ActSeekKeeps(s: Srv, t: nat, env: Env)
    requires Inv(s) && Enabled(s, Act(t, env)) && IsSeek(s.threads[t].msg)
    ensures Inv(Take(s, Act(t, env)))
  {
    hide StoredAt;
    ActSeekStep(s, t, env);
    DeviceText(s.world.dev);
    var s' := Take(s, Act(t, env));
    if s'.threads[t].Draining? {
      FreshJobOk(s', t, s'.threads[t].job);
    }
    OthersKept(s, s', t);
  }

  /** A read extends what was read of the answer, or shows that it is complete. */
  lemma ReadAdvances(d: Dev, job: Job, reply: string, env: Env)
    requires DeviceOk(d) && JobHonest(d.history, job) && job.at == |d.history| && 0 <= job.start
    requires reply <= Answer(d.history, job) && Succeeds(env)
    ensures var (ret, data, pos') := ReadNext(d, job.start + |reply|, READ_SIZE, env);
            && ret == |data| && pos' == job.start + |reply + data|
            && reply + data <= Answer(d.history, job)
            && (data == "" ==> reply == Answer(d.history, job))
  {
    hide ReadNext, DeviceOk, Owned, Sized, JobHonest, StoredText, TextAt, StoredAt;
    DeviceText(d);
    var text, pos := StoredText(d), job.start + |reply|;
    JobStartInRange(d.history, job);
    ReadDeliversText(d, pos, READ_SIZE, env);
    var (_, data, pos') := ReadNext(d, pos, READ_SIZE, env);
    if data != "" {
      assert Answer(d.history, job)[|reply|..|reply| + |data|] == text[pos..pos'];
    }
  }

  lemma JobStartInRange(history: seq<string>, job: Job)
    requires JobHonest(history, job)
    ensures -0x8000_0000 <= job.start < 0x8000_0000
  {
  }

  /** From a negative position nothing is read. */
  lemma ReadBelowZero(d: Dev, pos: int, env: Env)
    requires DeviceOk(d) && -0x8000_0000 <= pos < 0
    requires Succeeds(env)
    ensures ReadNext(d, pos, READ_SIZE, env) == (0, "", pos)
  {
    Driver.BelowZero(d, pos, READ_SIZE, env);
  }

  /** The state after a read. */
  lemma ReadStep(s: Srv, t: nat, env: Env)
    requires Inv(s) && Enabled(s, ReadSome(t, env))
    ensures t in s.world.pos && s.owner == Some(t)
    ensures var th := s.threads[t];
            var (_, data, pos') := ReadNext(s.world.dev, s.world.pos[t], READ_SIZE, env);
            Take(s, ReadSome(t, env)) ==
            Srv(Driver.World(s.world.dev, s.world.pos[t := pos']), s.owner,
                s.threads[t := if data == "" then Drained(th.job, th.reply)
                               else Draining(th.job, th.reply, data)])
  {
    assert ThreadOk(s, t, s.threads[t]);
  }

  lemma ReadKeeps(s: Srv, t: nat, env: Env)
    requires Inv(s) && Enabled(s, ReadSome(t, env))
    ensures Inv(Take(s, ReadSome(t, env)))
  {
    hide Take, ReadNext, DeviceOk, ThreadOk;
    ReadStep(s, t, env);
    var s' := Take(s, ReadSome(t, env));
    ReadKeepsThread(s, t, env);
    OthersKept(s, s', t);
  }

  /** Both cases of a read, from a place in the text or below zero. */
  lemma ReadJob(d: Dev, job: Job, reply: string, pos: int, env: Env)
    requires DeviceOk(d) && JobHonest(d.history, job) && job.at == |d.history| && Succeeds(env)
    requires pos == job.start + |reply| && reply <= Answer(d.history, job)
    ensures var (ret, data, pos') := ReadNext(d, pos, READ_SIZE, env);
            && ret == |data| && pos' == job.start + |reply + data|
            && reply + data <= Answer(d.history, job)
            && (data == "" ==> reply == Answer(d.history, job))
  {
    hide DeviceOk, JobHonest, ReadNext, TextAt, Owned;
    JobStartInRange(d.history, job);
    if 0 <= job.start {
      ReadAdvances(d, job, reply, env);
    } else {
      ReadBelowZero(d, pos, env);
    }
  }

  lemma ReadKeepsThread(s: Srv, t: nat, env: Env)
    requires Inv(s) && Enabled(s, ReadSome(t, env))
    ensures var s' := Take(s, ReadSome(t, env));
            t in s'.threads && ThreadOk(s', t, s'.threads[t])
  {
    hide Take, ReadNext, DeviceOk, JobHonest, Answer, Owned;
    InvOwned(s);
    ReadStep(s, t, env);
    var th := s.threads[t];
    assert ThreadOk(s, t, th);
    assert th.reply + th.rest == th.reply;
    ReadJob(s.world.dev, th.job, th.reply, s.world.pos[t], env);
    var data := ReadNext(s.world.dev, s.world.pos[t], READ_SIZE, env).1;
    assert th.reply + "" == th.reply;
  }

  /** A send hands over any part of what was read, at least one byte. */
  lemma SendStep(s: Srv, t: nat, n: nat)
    requires Inv(s) && t in s.threads && s.threads[t].Draining?
    ensures Enabled(s, Send(t, n)) <==> 1 <= n <= |s.threads[t].rest|
    ensures 1 <= n <= |s.threads[t].rest| ==>
              var th := s.threads[t];
              Take(s, Send(t, n)) ==
              Srv(s.world, s.owner, s.threads[t := Draining(th.job, th.reply + th.rest[..n], th.rest[n..])])
  {
  }

  lemma SendKeeps(s: Srv, t: nat, n: nat)
    requires Inv(s) && Enabled(s, Send(t, n))
    ensures Inv(Take(s, Send(t, n)))
  {
    hide Take, DeviceOk, JobHonest, Answer, Owned;
    InvOwned(s);
    SendStep(s, t, n);
    var th := s.threads[t];
    assert ThreadOk(s, t, th);
    assert (th.reply + th.rest[..n]) + th.rest[n..] == th.reply + th.rest;
    OthersKept(s, Take(s, Send(t, n)), t);
  }

  lemma OtherStepsKeep(s: Srv, step: Step)
    requires Inv(s) && Enabled(s, step)
    requires !step.Act? && !step.ReadSome? && !step.Send?
    ensures Inv(Take(s, step))
  {
    hide DeviceOk, JobHonest, JobRefused, Answer, Owned;
    InvOwned(s);
    if !step.Arrive? {
      assert ThreadOk(s, step.t, s.threads[step.t]);
    }
    OthersKept(s, Take(s, step), step.t);
  }

  lemma StepKeepsInv(s: Srv, step: Step)
    requires Inv(s)
    ensures Inv(Take(s, step))
  {
    if Enabled(s, step) {
      match step
      case Act(t, env) =>
        if IsSeek(s.threads[t].msg) {
          ActSeekKeeps(s, t, env);
        } else {
          ActWriteKeeps(s, t, env);
        }
      case ReadSome(t, env) => ReadKeeps(s, t, env);
      case Send(t, n) => SendKeeps(s, t, n);
      case _ => OtherStepsKeep(s, step);
    }
  }
}
