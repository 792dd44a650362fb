/** Receiving a message into a growing buffer and sending a buffer completely (server/aesdsocket.c). */
module Transfer {
  import opened History

  const MAX_BUF_SIZE: nat := 512

  /** What one turn of the receive loop sees. */
  datatype RecvEvent =
    | Shutdown              // the shutdown flag is set
    | Data(bytes: string)   // recv returns some bytes
    | WouldBlock
    | PeerClosed            // recv returns 0
    | Failed

  /** How receiving ends; `Unfinished` when the events run out first. */
  datatype Outcome = Message(text: string) | Aborted | Unfinished

  /** recv returns at most what it was asked for. */
  ghost predicate ChunksFit(events: seq<RecvEvent>) {
    forall i :: 0 <= i < |events| && events[i].Data? ==> 1 <= |events[i].bytes| <= MAX_BUF_SIZE
  }

  predicate Stops(e: RecvEvent) {
    e.Shutdown? || e.Failed? || (e.Data? && EndsLine(e.bytes))
  }

  /** The first event that ends the loop. */
  ghost function StopAt(events: seq<RecvEvent>): (k: nat)
    ensures k <= |events|
    ensures forall i :: 0 <= i < k ==> !Stops(events[i])
    ensures k < |events| ==> Stops(events[k])
  {
    if events == [] || Stops(events[0]) then 0 else 1 + StopAt(events[1..])
  }

  /** How receiving ends when event `k` ends it. */
  function OutcomeAt(events: seq<RecvEvent>, k: nat): Outcome
    requires k <= |events|
  {
    if k == |events| then Unfinished
    else if events[k].Data? then Message(Received(events[..k + 1]))
    else Aborted
  }

  /** Event `k` brings bytes that end in a newline. */
  ghost predicate LineAt(events: seq<RecvEvent>, k: nat) {
    k < |events| && events[k].Data? && EndsLine(events[k].bytes)
  }

  /** Event `k` is a shutdown or a failed recv. */
  ghost predicate BreakAt(events: seq<RecvEvent>, k: nat) {
    k < |events| && (events[k].Shutdown? || events[k].Failed?)
  }

  ghost predicate NoLineBefore(events: seq<RecvEvent>, k: nat) {
    forall i: nat :: i < k ==> !LineAt(events, i)
  }

  ghost predicate NoBreakBefore(events: seq<RecvEvent>, k: nat) {
    forall i: nat :: i < k ==> !BreakAt(events, i)
  }

  /**
   How receiving ends, whatever the events: with all bytes up to the first that end in a
   newline, if no shutdown or failure comes before those; with nothing, if one does; and not
   at all if there is neither. A would-block and a peer that has closed end nothing.
   */
  lemma OutcomeExactly(events: seq<RecvEvent>)
    ensures var o := OutcomeAt(events, StopAt(events));
            && (o.Message? <==> exists k: nat :: LineAt(events, k) && NoBreakBefore(events, k))
            && (o.Aborted? <==> exists k: nat :: BreakAt(events, k) && NoLineBefore(events, k))
            && (o.Unfinished? <==> NoLineBefore(events, |events|) && NoBreakBefore(events, |events|))
    ensures forall k: nat :: LineAt(events, k) && NoLineBefore(events, k) && NoBreakBefore(events, k) ==>
              OutcomeAt(events, StopAt(events)) == Message(Received(events[..k + 1]))
  {
    hide *;
    StopIsFirst(events);
    var stop := StopAt(events);
    forall k: nat | BreakAt(events, k) && NoLineBefore(events, k) ensures stop < |events| && BreakAt(events, stop) {
      NothingBeforeStop(events, stop, k);
    }
    forall k: nat | LineAt(events, k) && NoBreakBefore(events, k) ensures stop < |events| && LineAt(events, stop) {
      NothingBeforeStop(events, stop, k);
    }
    forall k: nat | LineAt(events, k) && NoLineBefore(events, k) && NoBreakBefore(events, k) ensures k == stop {
      NothingBeforeStop(events, stop, k);
    }
    NothingAtAll(events, stop);
  }

  /** A line or a break with none of the other kind before it: the stop is of its kind, or is it. */
  lemma NothingBeforeStop(events: seq<RecvEvent>, stop: nat, k: nat)
    requires stop <= k < |events| && (LineAt(events, stop) <==> !BreakAt(events, stop))
    ensures LineAt(events, k) && NoBreakBefore(events, k) ==> LineAt(events, stop)
    ensures BreakAt(events, k) && NoLineBefore(events, k) ==> BreakAt(events, stop)
    ensures NoLineBefore(events, k) && NoBreakBefore(events, k) ==> k == stop
  {
    hide LineAt, BreakAt;
    assert LineAt(events, k) ==> !BreakAt(events, k) by {
      NotBoth(events, k);
    }
  }

  lemma NotBoth(events: seq<RecvEvent>, k: nat)
    ensures !(LineAt(events, k) && BreakAt(events, k))
  {
  }

  lemma NothingAtAll(events: seq<RecvEvent>, stop: nat)
    requires stop <= |events| && NoLineBefore(events, stop) && NoBreakBefore(events, stop)
    requires stop < |events| ==> (LineAt(events, stop) <==> !BreakAt(events, stop))
    ensures stop == |events| <==> NoLineBefore(events, |events|) && NoBreakBefore(events, |events|)
  {
    hide LineAt, BreakAt;
  }

  /** The event that ends the loop is the first line or break, and decides the outcome. */
  lemma StopIsFirst(events: seq<RecvEvent>)
    ensures NoLineBefore(events, StopAt(events)) && NoBreakBefore(events, StopAt(events))
    ensures forall k: nat :: LineAt(events, k) || BreakAt(events, k) ==> StopAt(events) <= k < |events|
    ensures StopAt(events) < |events| ==> (LineAt(events, StopAt(events)) <==> !BreakAt(events, StopAt(events)))
    ensures OutcomeAt(events, StopAt(events)) ==
            if StopAt(events) == |events| then Unfinished
            else if LineAt(events, StopAt(events)) then Message(Received(events[..StopAt(events) + 1]))
            else Aborted
  {
    hide EndsLine, Received, StopAt;
    assert forall k: nat :: k < |events| ==> (Stops(events[k]) <==> LineAt(events, k) || BreakAt(events, k));
  }

  /** Event `k` completes the message with a full first buffer. */
  predicate FillsFirstBuffer(events: seq<RecvEvent>, k: nat)
    requires k <= |events|
  {
    k < |events| && events[k].Data? && |events[k].bytes| == MAX_BUF_SIZE && Received(events[..k]) == ""
  }

  /** The terminator is not always in bounds: one chunk of 512 bytes that is a whole line. */
  lemma TerminatorOverruns()
    ensures var events := [Data(seq(511, _ => 'a') + "\n")];
            ChunksFit(events) && FillsFirstBuffer(events, StopAt(events))
  {
    var events := [Data(seq(511, _ => 'a') + "\n")];
    StopAtIs(events, 0);
    assert events[..0] == [];
  }

  lemma StopAtIs(events: seq<RecvEvent>, k: nat)
    requires k < |events| && Stops(events[k]) && forall i :: 0 <= i < k ==> !Stops(events[i])
    ensures StopAt(events) == k
  {
  }

  function BytesOf(e: RecvEvent): string {
    if e.Data? then e.bytes else ""
  }

  /** All bytes received. */
  function Received(events: seq<RecvEvent>): string {
    if events == [] then ""
    else Received(events[..|events| - 1]) + BytesOf(events[|events| - 1])
  }

  lemma ReceivedStep(events: seq<RecvEvent>, i: nat)
    requires i < |events|
    ensures Received(events[..i + 1]) == Received(events[..i]) + BytesOf(events[i])
  {
    assert events[..i + 1][..i] == events[..i];
  }

  /** The terminator has no room exactly when the first bytes to arrive are 512 of them ending in a newline. */
  lemma OverrunExactly(events: seq<RecvEvent>)
    requires ChunksFit(events)
    ensures FillsFirstBuffer(events, StopAt(events)) <==>
            exists k: nat :: LineAt(events, k) && |events[k].bytes| == 512 && NoBreakBefore(events, k)
                             && forall i :: 0 <= i < k ==> !events[i].Data?
  {
    StopIsFirst(events);
    hide LineAt, BreakAt, StopAt;
    var stop := StopAt(events);
    NothingReceived(events, stop);
    forall k: nat | LineAt(events, k) && NoBreakBefore(events, k) && forall i :: 0 <= i < k ==> !events[i].Data?
      ensures k == stop
    {
      DataLine(events, stop);
    }
  }

  lemma DataLine(events: seq<RecvEvent>, k: nat)
    ensures LineAt(events, k) ==> events[k].Data?
  {
  }

  lemma {:induction false} NothingReceived(events: seq<RecvEvent>, k: nat)
    requires ChunksFit(events) && k <= |events|
    ensures Received(events[..k]) == "" <==> forall i :: 0 <= i < k ==> !events[i].Data?
  {
    hide Received;
    if k == 0 {
      NoneReceived(events);
    } else {
      NothingReceived(events, k - 1);
      ReceivedStep(events, k - 1);
    }
  }

  lemma NoneReceived(events: seq<RecvEvent>)
    ensures Received(events[..0]) == ""
  {
  }

  method Memcpy(p: array<char>, pos: nat, bytes: string)
    requires pos + |bytes| <= p.Length
    modifies p
    ensures p[..pos + |bytes|] == old(p[..pos]) + bytes
  {
    forall j | 0 <= j < |bytes| {
      p[pos + j] := bytes[j];
    }
  }

  /** The buffer with room for two more chunks behind its first `pos` bytes. */
  method Realloc(p: array<char>, pos: nat) returns (q: array<char>)
    requires pos <= p.Length
    ensures fresh(q) && q.Length == pos + 2 * MAX_BUF_SIZE && q[..pos] == p[..pos]
  {
    q := new char[pos + 2 * MAX_BUF_SIZE];
    forall j | 0 <= j < pos {
      q[j] := p[j];
    }
  }

  /** The buffer holds one chunk at first, and room for two behind what was received later. */
  predicate Capacity(p: array<char>, pos: nat) {
    p.Length == if pos == 0 then MAX_BUF_SIZE else pos + 2 * MAX_BUF_SIZE
  }

  /**
   One chunk: copied in, and then either the text is complete and terminated or the buffer
   grows. The terminator has no room exactly when the chunk fills the buffer.
   */
  method StoreChunk(p: array<char>, pos: nat, bytes: string) returns (q: array<char>, done: bool, overrun: bool)
    requires Capacity(p, pos) && 1 <= |bytes| <= MAX_BUF_SIZE
    modifies p
    ensures q == p || fresh(q)
    ensures done == EndsLine(bytes)
    ensures pos + |bytes| <= q.Length && q[..pos + |bytes|] == old(p[..pos]) + bytes
    ensures !done ==> Capacity(q, pos + |bytes|)
    ensures overrun <==> done && pos == 0 && |bytes| == MAX_BUF_SIZE
    ensures done && !overrun ==> pos + |bytes| < q.Length && q[pos + |bytes|] == '\0'
  {
    q, overrun := p, false;
    var size := |bytes|;
    Memcpy(p, pos, bytes);
    assert p[pos + size - 1] == bytes[size - 1];
    done := p[pos + size - 1] == '\n';
    if !done {
      q := Realloc(p, pos + size);
    } else if pos + size < p.Length {
      p[pos + size] := '\0';
    } else {
      overrun := true;
    }
  }

  /**
   The terminator is written past the buffer exactly when the first bytes to arrive are a
   full 512 of them ending in a newline; every other write of the loop is in bounds.
   */
  method RecvDynamic(events: seq<RecvEvent>) returns (outcome: Outcome, p: array<char>, overrun: bool)
    requires ChunksFit(events)
    ensures outcome == OutcomeAt(events, StopAt(events))
    ensures overrun <==> FillsFirstBuffer(events, StopAt(events))
    ensures outcome.Message? ==> |outcome.text| <= p.Length && p[..|outcome.text|] == outcome.text
    ensures outcome.Message? && !overrun ==> |outcome.text| < p.Length && p[|outcome.text|] == '\0'
  {
    hide StopAt, EndsLine, Received;
    NoneReceived(events);
    overrun := false;
    var pos: nat := 0;
    p := new char[MAX_BUF_SIZE];
    var i := 0;
    while i < |events|
      invariant 0 <= i <= |events| && fresh(p) && !overrun
      invariant forall j :: 0 <= j < i ==> !Stops(events[j])
      invariant Capacity(p, pos) && p[..pos] == Received(events[..i])
    {
      var event := events[i];
      ReceivedStep(events, i);
      if Stops(event) {
        StopAtIs(events, i);
      }
      i := i + 1;
      if event.Shutdown? {
        return Aborted, p, false;
      }
      if event.WouldBlock? {
        continue;
      }
      if event.Failed? {
        return Aborted, p, false;
      }
      if event.Data? {
        var done;
        p, done, overrun := StoreChunk(p, pos, event.bytes);
        pos := pos + |event.bytes|;
        if done {
          return Message(p[..pos]), p, overrun;
        }
      }
    }
    outcome := Unfinished;
  }

  /** The characters of a buffer up to its first NUL, as `strlen` counts them. */
  function CString(s: string): string {
    if s == "" || s[0] == '\0' then "" else [s[0]] + CString(s[1..])
  }

  /** The terminated buffer has the C string of the message in it, whatever lies behind. */
  lemma {:induction false} CStringOfBuffer(s: string, n: nat)
    requires n < |s| && s[n] == '\0'
    ensures CString(s) == CString(s[..n])
  {
    if 0 < n && s[0] != '\0' {
      CStringOfBuffer(s[1..], n - 1);
      assert s[..n][1..] == s[1..][..n - 1];
    }
  }

  ghost predicate NulFree(s: string) {
    forall i :: 0 <= i < |s| ==> s[i] != '\0'
  }

  /** `strlen` counts the whole message exactly when it has no NUL byte; it always counts a prefix. */
  lemma {:induction false} CStringWhole(s: string)
    ensures CString(s) == s <==> NulFree(s)
    ensures CString(s) <= s && NulFree(CString(s))
  {
    if s != "" {
      CStringWhole(s[1..]);
      if s[0] != '\0' {
        assert s == [s[0]] + s[1..];
        assert forall i :: 0 <= i < |s[1..]| ==> s[1..][i] == s[i + 1];
        assert CString(s)[1..] == CString(s[1..]);
      }
    }
  }

  lemma {:induction false} ReceivedGrows(events: seq<RecvEvent>, i: nat)
    requires i <= |events|
    ensures Received(events[..i]) <= Received(events)
  {
    if i == |events| {
      assert events[..i] == events;
    } else {
      var front := events[..|events| - 1];
      assert front[..i] == events[..i];
      ReceivedGrows(front, i);
    }
  }

  lemma {:induction false} NoLineWithoutStop(events: seq<RecvEvent>)
    requires ChunksFit(events) && forall i :: 0 <= i < |events| ==> !Stops(events[i])
    ensures !EndsLine(Received(events))
  {
    if events != [] {
      var n := |events| - 1;
      NoLineWithoutStop(events[..n]);
      if events[n].Data? {
        assert !EndsLine(events[n].bytes);
      } else {
        assert Received(events) == Received(events[..n]);
      }
    }
  }

  lemma OnlyLinePrefix(got: string, message: string)
    requires got <= message && EndsLine(got)
    requires forall i :: 0 <= i < |message| - 1 ==> message[i] != '\n'
    ensures got == message
  {
    assert message[|got| - 1] == '\n';
  }

  /**
   A message whose only newline is its last byte is received whole, however it is cut into
   chunks and however often the socket has nothing to give in between.
   */
  lemma Reassembles(message: string, events: seq<RecvEvent>)
    requires EndsLine(message) && forall i :: 0 <= i < |message| - 1 ==> message[i] != '\n'
    requires ChunksFit(events) && forall i :: 0 <= i < |events| ==> !events[i].Shutdown? && !events[i].Failed?
    requires Received(events) == message
    ensures OutcomeAt(events, StopAt(events)) == Message(message)
  {
    if StopAt(events) == |events| {
      NoLineWithoutStop(events);
    }
    ReceivedAtStop(events, StopAt(events));
    ReceivedGrows(events, StopAt(events) + 1);
    OnlyLinePrefix(Received(events[..StopAt(events) + 1]), message);
  }

  lemma ReceivedAtStop(events: seq<RecvEvent>, k: nat)
    requires k < |events| && events[k].Data? && EndsLine(events[k].bytes)
    ensures EndsLine(Received(events[..k + 1]))
  {
    ReceivedStep(events, k);
  }

  // -------------------------------------------------------------------- send

  /** A connected socket: the bytes handed to the peer so far, and whether a send has failed. */
  class Socket {
    var sent: string
    ghost var broken: bool

    constructor ()
      ensures sent == "" && !broken
    {
      sent, broken := "", false;
    }

    /** send: an error, or some of the bytes, at least one. */
    method Send(data: string) returns (n: int)
      requires data != ""
      modifies this
      ensures n == -1 || 1 <= n <= |data|
      ensures sent == if n == -1 then old(sent) else old(sent) + data[..n]
      ensures broken == (old(broken) || n == -1)
    {
      var taken :| -1 <= taken <= |data| && taken != 0;
      if taken == -1 {
        broken := true;
        return -1;
      }
      sent := sent + data[..taken];
      n := taken;
    }
  }

  /**
   Sends a prefix of the buffer and reports its length. It is the whole buffer, and the
   result 0, exactly when no send fails.
   */
  method SendAll(s: Socket, buf: string) returns (rc: int, total: nat)
    requires buf != "" && !s.broken
    modifies s
    ensures rc == -1 <==> s.broken
    ensures total <= |buf| && s.sent == old(s.sent) + buf[..total]
    ensures rc == (if total == |buf| then 0 else -1)
  {
    total := 0;
    var n := 0;
    while total < |buf|
      invariant total <= |buf| && s.sent == old(s.sent) + buf[..total]
      invariant n != -1 && !s.broken
    {
      n := s.Send(buf[total..]);
      if n == -1 {
        break;
      }
      assert buf[..total + n] == buf[..total] + buf[total..][..n];
      total := total + n;
    }
    rc := if n == -1 then -1 else 0;
  }
}
