/** One connection from lock to unlock, as the thread executes it on the device (threadfunc). */
module Connection {
  import opened Sequences
  import opened Kernel
  import opened CircularBuffer
  import opened History
  import opened DriverModel
  import opened FileOps
  import opened SeekCommand
  import opened Transfer
  import opened Server
  import opened AesdDevice

  /** An ordinary message is always taken; a seek if it can be parsed and names stored bytes. */
  ghost predicate Accepts(d: Dev, msg: string) {
    !IsSeek(msg) || Requested(d, msg).Some?
  }

  /** The request part: the write, or the seek of the handle. */
  method Request(dev: AesdDevice, fp: File, msg: string, env: Env) returns (accepted: bool)
    requires dev.Valid() && DeviceOk(dev.View()) && CanAct(dev.View(), msg) && Succeeds(env) && fp.fPos == 0
    modifies dev, dev.circularBuffer, dev.circularBuffer.entry, fp
    ensures dev.Valid() && DeviceOk(dev.View())
    ensures IsSeek(msg) ==> dev.View() == old(dev.View())
    ensures !IsSeek(msg) ==> dev.View().history == old(dev.View().history) + [msg]
    ensures accepted == Accepts(old(dev.View()), msg)
    ensures accepted ==> JobHonest(dev.View().history, Job(msg, |dev.View().history|, fp.fPos))
  {
    hide Layout, WriteNext, Texts;
    ghost var d := dev.View();
    DeviceText(d);
    if IsSeek(msg) {
      var seekto := Parse(msg);
      if seekto.None? {
        return false;
      }
      var rc := dev.Ioctl(fp, IOCSEEKTO, seekto.value, true);
      accepted := rc == 0;
    } else {
      WriteKeepsDevice(d, msg, env);
      var written := dev.Write(msg, env);
      accepted := true;
    }
  }

  /**
   The critical section: if no send fails the client receives exactly the answer to its
   message, or nothing when its seek is refused; if one fails it receives a prefix.
   */
  method Serve(dev: AesdDevice, s: Socket, msg: string, env: Env) returns (complete: bool, ghost job: Job)
    requires dev.Valid() && DeviceOk(dev.View()) && CanAct(dev.View(), msg) && Succeeds(env) && !s.broken
    modifies dev, dev.circularBuffer, dev.circularBuffer.entry, s
    ensures dev.Valid() && DeviceOk(dev.View())
    ensures IsSeek(msg) ==> dev.View() == old(dev.View())
    ensures !IsSeek(msg) ==> dev.View().history == old(dev.View().history) + [msg]
    ensures complete <==> Accepts(old(dev.View()), msg) && !s.broken
    ensures Accepts(old(dev.View()), msg) ==>
              && job.msg == msg && job.at == |dev.View().history| && JobHonest(dev.View().history, job)
              && old(s.sent) <= s.sent <= old(s.sent) + Answer(dev.View().history, job)
              && (complete ==> s.sent == old(s.sent) + Answer(dev.View().history, job))
    ensures !Accepts(old(dev.View()), msg) ==> s.sent == old(s.sent) && !s.broken
  {
    hide DeviceOk, JobHonest, Answer, Accepts, ReadNext, Owned, Layout, CanAct;
    var fp := new File();
    var accepted := Request(dev, fp, msg, env);
    job := Job(msg, |dev.View().history|, fp.fPos);
    ghost var d, reply := dev.View(), "";
    if !accepted {
      return false, job;
    }
    ReadJob(d, job, reply, fp.fPos, env);
    var numBytes, line := dev.Read(fp, READ_SIZE, env);
    while numBytes != 0
      invariant dev.Valid() && dev.View() == d
      invariant s.sent == old(s.sent) + reply && !s.broken
      invariant numBytes == |line| && fp.fPos == job.start + |reply + line|
      invariant reply + line <= Answer(d.history, job)
      invariant line == "" ==> reply == Answer(d.history, job)
      decreases |Answer(d.history, job)| - |reply|
    {
      var rc, total := SendAll(s, line);
      if rc == -1 {
        assert s.sent == old(s.sent) + (reply + line[..total]);
        return false, job;
      }
      reply := reply + line;
      ReadJob(d, job, reply, fp.fPos, env);
      numBytes, line := dev.Read(fp, READ_SIZE, env);
    }
    complete := true;
  }

  /** The answer to an ordinary message: the commands stored once it is written. */
  lemma AnswerToMessage(history: seq<string>, job: Job)
    requires JobHonest(history, job) && !IsSeek(job.msg) && job.at == |history|
    ensures Answer(history, job) == Flatten(LastTen(Commands(history)))
    ensures AllLines(history) ==> Answer(history, job) == Flatten(LastTen(history))
  {
    assert history[..|history|] == history;
    CommandsAreWritesExactly(history);
  }

  /**
   A whole connection, from the chunks on the socket to the reply: what arrived is taken up
   to its first NUL byte, written or parsed as a seek, and answered. The answer to a message
   that is written is the stored commands with it, which are the last ten messages when all
   are lines.
   */
  method HandleMessage(dev: AesdDevice, s: Socket, events: seq<RecvEvent>, ghost received: string, env: Env)
    returns (complete: bool, ghost job: Job)
    requires dev.Valid() && DeviceOk(dev.View()) && Succeeds(env) && !s.broken
    requires ChunksFit(events) && OutcomeAt(events, StopAt(events)) == Message(received)
    requires !FillsFirstBuffer(events, StopAt(events)) && CanAct(dev.View(), CString(received))
    modifies dev, dev.circularBuffer, dev.circularBuffer.entry, s
    ensures dev.Valid() && DeviceOk(dev.View())
    ensures complete <==> Accepts(old(dev.View()), CString(received)) && !s.broken
    ensures !Accepts(old(dev.View()), CString(received)) ==> s.sent == old(s.sent)
    ensures Accepts(old(dev.View()), CString(received)) ==>
              && job.msg == CString(received) && JobHonest(dev.View().history, job)
              && old(s.sent) <= s.sent <= old(s.sent) + Answer(dev.View().history, job)
              && (complete ==> s.sent == old(s.sent) + Answer(dev.View().history, job))
    ensures "AESDCHAR_IOCSEEKTO:" <= CString(received) ==> dev.View() == old(dev.View())
    ensures !("AESDCHAR_IOCSEEKTO:" <= CString(received)) ==>
              var history := old(dev.View().history) + [CString(received)];
              && dev.View().history == history && (complete <==> !s.broken)
              && (complete ==> s.sent == old(s.sent) + Flatten(LastTen(Commands(history))))
              && (complete && AllLines(history) ==> s.sent == old(s.sent) + Flatten(LastTen(history)))
  {
    hide DeviceOk, Owned, Layout, LastTen, Flatten, Received, StopAt, EndsLine, IsSeek, JobHonest, Answer;
    hide Accepts, CanAct, CString;
    var outcome, p, overrun := RecvDynamic(events);
    CStringOfBuffer(p[..], |received|);
    assert p[..][..|received|] == received;
    var recvBuffer := CString(p[..]);
    complete, job := Serve(dev, s, recvBuffer, env);
    AcceptsExactly(old(dev.View()), recvBuffer);
    if !IsSeek(recvBuffer) {
      AnswerToMessage(dev.View().history, job);
    }
  }

  /** A message that does not start with the command is always taken, another exactly if it names stored bytes. */
  lemma AcceptsExactly(d: Dev, msg: string)
    ensures !("AESDCHAR_IOCSEEKTO:" <= msg) ==> Accepts(d, msg) && !IsSeek(msg)
    ensures "AESDCHAR_IOCSEEKTO:" <= msg ==>
              IsSeek(msg) &&
              (Accepts(d, msg) <==> Parse(msg).Some? && Parse(msg).value.writeCmd < |Stored(d)| &&
                                    Parse(msg).value.writeCmdOffset <= Stored(d)[Parse(msg).value.writeCmd].size)
  {
    hide Parse;
  }
}
