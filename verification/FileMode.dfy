/**
 The reply when the server is built to keep its messages in a file (`read_line` and the loop
 around it in server/aesdsocket.c).
 */
module FileMode {
  import opened Sequences
  import opened Transfer

  /** A file open for reading. */
  class Stream {
    const data: string
    var at: nat

    ghost predicate Valid()
      reads this
    {
      at <= |data|
    }

    constructor (data: string)
      ensures Valid() && this.data == data && at == 0
    {
      this.data, at := data, 0;
    }

    /** The next character, or None at the end of the file. */
    method Fgetc() returns (c: Option<char>)
      requires Valid()
      modifies this
      ensures Valid()
      ensures c == if old(at) < |data| then Some(data[old(at)]) else None
      ensures at == if old(at) < |data| then old(at) + 1 else old(at)
    {
      if at < |data| {
        c := Some(data[at]);
        at := at + 1;
      } else {
        c := None;
      }
    }
  }

  /** `end` is the first newline from `at` on, or the end of the data. */
  ghost predicate LineEnds(data: string, at: nat, end: nat) {
    && at <= end <= |data|
    && (forall i :: at <= i < end ==> data[i] != '\n')
    && (end < |data| ==> data[end] == '\n')
  }

  /** Twice the room, same contents. */
  method Double(p: array<char>) returns (q: array<char>)
    ensures fresh(q) && q.Length == 2 * p.Length
    ensures forall i :: 0 <= i < p.Length ==> q[i] == p[i]
  {
    q := new char[2 * p.Length];
    forall i | 0 <= i < p.Length {
      q[i] := p[i];
    }
  }

  /**
   The line at the position, without its newline, in a buffer that doubles when it is full;
   None at the end of the file only. The position moves past the newline.
   */
  method ReadLine(f: Stream) returns (line: Option<string>, ghost end: nat)
    requires f.Valid()
    modifies f
    ensures f.Valid() && LineEnds(f.data, old(f.at), end)
    ensures line == if old(f.at) == |f.data| then None else Some(f.data[old(f.at)..end])
    ensures f.at == if end < |f.data| then end + 1 else end
  {
    ghost var start, rest := f.at, f.data[f.at..];
    var ptrLine := new char[32];
    var next: nat := 0;
    var c: Option<char>;
    while true
      invariant f.Valid() && fresh(ptrLine) && 0 < ptrLine.Length && next <= ptrLine.Length
      invariant f.at == start + next
      invariant forall i :: 0 <= i < next ==> ptrLine[i] == rest[i]
      invariant forall i :: 0 <= i < next ==> ptrLine[i] != '\n'
      decreases |f.data| - f.at
    {
      if next == ptrLine.Length {
        ptrLine := Double(ptrLine);
      }
      c := f.Fgetc();
      assert next < |rest| ==> c == Some(rest[next]);
      if c.None? || c.value == '\n' {
        ptrLine[next] := '\0';
        break;
      }
      ptrLine[next] := c.value;
      next := next + 1;
    }
    end := start + next;
    assert ptrLine[..next] == rest[..next] == f.data[start..end];
    assert forall i :: start <= i < end ==> f.data[i] == ptrLine[i - start];
    if c.None? && next == 0 {
      line := None;
    } else {
      line := Some(ptrLine[..next]);
    }
  }

  /** The end of the line that starts at `at`. */
  function EndOfLine(data: string, at: nat): (end: nat)
    requires at <= |data|
    ensures LineEnds(data, at, end)
    decreases |data| - at
  {
    if at == |data| || data[at] == '\n' then at else EndOfLine(data, at + 1)
  }

  /** The data from `at` on, split at its newlines. */
  function Lines(data: string, at: nat): seq<string>
    decreases |data| - at
  {
    if |data| <= at then []
    else [data[at..EndOfLine(data, at)]] + Lines(data, EndOfLine(data, at) + 1)
  }

  /** A line as it is kept: ended, unless it is empty. */
  function Ended(line: string): string {
    if line == "" then "" else line + "\n"
  }

  /** The lines with something in them, each ended. */
  function Kept(lines: seq<string>): string {
    if lines == [] then "" else Ended(lines[0]) + Kept(lines[1..])
  }

  function AllEnded(lines: seq<string>): string {
    if lines == [] then "" else lines[0] + "\n" + AllEnded(lines[1..])
  }

  /** No line of the split has a newline in it. */
  lemma {:induction false} LinesClean(data: string, at: nat)
    ensures forall i :: 0 <= i < |Lines(data, at)| ==> '\n' !in Lines(data, at)[i]
    decreases |data| - at
  {
    if at < |data| {
      var end := EndOfLine(data, at);
      LinesClean(data, end + 1);
      var line, rest := data[at..end], Lines(data, end + 1);
      assert Lines(data, at) == [line] + rest && '\n' !in line;
      forall i | 0 <= i < |Lines(data, at)| ensures '\n' !in Lines(data, at)[i] {
        if 0 < i {
          assert Lines(data, at)[i] == rest[i - 1];
        }
      }
    }
  }

  /** Ending each line of the split gives the data back, its last line ended. */
  lemma {:induction false} LinesJoin(data: string, at: nat)
    requires at <= |data|
    ensures AllEnded(Lines(data, at)) == data[at..] + MissingNewline(data, at)
    decreases |data| - at
  {
    hide AllEnded, MissingNewline, EndOfLine;
    AllEndedNothing();
    if at == |data| {
      assert data[at..] == "" && "" + MissingNewline(data, at) == "";
    } else {
      var end := EndOfLine(data, at);
      AllEndedOfCons(data[at..end], Lines(data, end + 1));
      if end < |data| {
        LinesJoin(data, end + 1);
      }
      JoinAt(data, at, end);
    }
  }

  lemma AllEndedNothing()
    ensures AllEnded([]) == ""
    ensures forall data: string :: MissingNewline(data, |data|) == ""
  {
  }

  function MissingNewline(data: string, at: nat): string {
    if |data| <= at || data[|data| - 1] == '\n' then "" else "\n"
  }

  /** The first line ended, before what its rest comes to. */
  lemma JoinAt(data: string, at: nat, end: nat)
    requires at < |data| && LineEnds(data, at, end)
    ensures data[at..end] + "\n" + (if end < |data| then data[end + 1..] + MissingNewline(data, end + 1) else "") ==
            data[at..] + MissingNewline(data, at)
  {
    if end < |data| {
      assert MissingNewline(data, at) == MissingNewline(data, end + 1);
      assert data[at..] == data[at..end] + "\n" + data[end + 1..];
    } else {
      assert data[at..] == data[at..end] && MissingNewline(data, at) == "\n";
    }
  }

  lemma AllEndedOfCons(line: string, rest: seq<string>)
    ensures AllEnded([line] + rest) == line + "\n" + AllEnded(rest)
  {
    assert ([line] + rest)[1..] == rest;
  }

  // ------------------------------------------- the kept lines, without splitting

  /** A text without the newlines that follow a newline, or that come first when `atStart`. */
  function WithoutEmptyLines(text: string, atStart: bool): string {
    if text == "" then ""
    else if text[0] == '\n' && atStart then WithoutEmptyLines(text[1..], true)
    else [text[0]] + WithoutEmptyLines(text[1..], text[0] == '\n')
  }

  /** What is kept is the data, its last line ended, without its empty lines. */
  lemma KeptExactly(data: string)
    ensures Kept(Lines(data, 0)) == WithoutEmptyLines(data + MissingNewline(data, 0), true)
  {
    LinesJoin(data, 0);
    LinesClean(data, 0);
    KeptOfClean(Lines(data, 0));
    assert data[0..] == data;
  }

  lemma {:induction false} KeptOfClean(lines: seq<string>)
    requires forall i :: 0 <= i < |lines| ==> '\n' !in lines[i]
    ensures WithoutEmptyLines(AllEnded(lines), true) == Kept(lines)
  {
    if lines != [] {
      KeptOfClean(lines[1..]);
      var line, more := lines[0], AllEnded(lines[1..]);
      if line == "" {
        assert line + "\n" + more == "\n" + more && ("\n" + more)[1..] == more;
      } else {
        LineStays(line, more, true);
      }
    }
  }

  lemma {:induction false} LineStays(line: string, more: string, atStart: bool)
    requires '\n' !in line && (line != "" || !atStart)
    ensures WithoutEmptyLines(line + "\n" + more, atStart) == line + "\n" + WithoutEmptyLines(more, true)
  {
    var text := line + "\n" + more;
    if line == "" {
      assert text[1..] == more;
    } else {
      assert text[1..] == line[1..] + "\n" + more;
      LineStays(line[1..], more, false);
      assert line == [line[0]] + line[1..];
    }
  }

  /** There is one end of a line. */
  lemma LineEndsOnce(data: string, at: nat, end: nat)
    requires LineEnds(data, at, end)
    ensures EndOfLine(data, at) == end
  {
    assert LineEnds(data, at, EndOfLine(data, at));
  }

  /** A line and then its newline; a prefix of both if a send fails. */
  method SendLine(s: Socket, line: string) returns (rc: int)
    requires line != "" && !s.broken
    modifies s
    ensures rc == 0 || rc == -1
    ensures rc == -1 <==> s.broken
    ensures old(s.sent) <= s.sent <= old(s.sent) + (line + "\n")
    ensures rc == 0 ==> s.sent == old(s.sent) + (line + "\n")
  {
    var n;
    rc, n := SendAll(s, line);
    if rc == 0 {
      rc, n := SendAll(s, "\n");
    }
  }

  /** The reply from position `at` on: the kept lines of the split. */
  function ReplyFrom(data: string, at: nat): string {
    Kept(Lines(data, at))
  }

  /** How much of the reply has been sent when the file is at `at`. */
  ghost predicate SentUpTo(data: string, at: nat, sent: string) {
    sent + ReplyFrom(data, at) == ReplyFrom(data, 0)
  }

  lemma LineExtends(data: string, at: nat, sent: string, end: nat)
    requires SentUpTo(data, at, sent) && LineEnds(data, at, end) && at < |data|
    ensures var more := sent + Ended(data[at..end]);
            && more <= ReplyFrom(data, 0)
            && SentUpTo(data, if end < |data| then end + 1 else end, more)
  {
    hide ReplyFrom, Ended, EndOfLine, LineEnds;
    ReplyStep(data, at, end);
    Regroup(sent, Ended(data[at..end]), ReplyFrom(data, if end < |data| then end + 1 else end));
  }

  lemma Regroup(a: string, b: string, c: string)
    ensures a + (b + c) == (a + b) + c && a + b <= a + (b + c)
  {
    assert a + (b + c) == (a + b) + c;
  }

  lemma ReplyStep(data: string, at: nat, end: nat)
    requires LineEnds(data, at, end) && at < |data|
    ensures at <= end <= |data|
    ensures ReplyFrom(data, at) ==
            Ended(data[at..end]) + ReplyFrom(data, if end < |data| then end + 1 else end)
  {
    hide Kept, Ended, EndOfLine;
    LineEndsOnce(data, at, end);
    KeptOfCons(data[at..end], Lines(data, end + 1));
    if end == |data| {
      NoLinesAtEnd(data, end);
    }
  }

  lemma KeptOfCons(line: string, rest: seq<string>)
    ensures Kept([line] + rest) == Ended(line) + Kept(rest)
  {
    assert ([line] + rest)[1..] == rest;
  }

  lemma NoLinesAtEnd(data: string, end: nat)
    requires |data| <= end
    ensures Lines(data, end) == [] == Lines(data, end + 1) && Kept([]) == ""
  {
  }

  lemma StartAndEnd(data: string, at: nat, sent: string)
    ensures SentUpTo(data, 0, "")
    ensures |data| <= at && SentUpTo(data, at, sent) ==> sent == ReplyFrom(data, 0)
  {
    assert "" + ReplyFrom(data, 0) == ReplyFrom(data, 0);
    if |data| <= at {
      NoLinesAtEnd(data, at);
      assert sent + "" == sent;
    }
  }

  /** A prefix of the next line is a prefix of everything. */
  lemma PrefixOfReply(before: string, sent: string, line: string, now: string, reply: string)
    requires before + sent <= now <= before + sent + line && sent + line <= reply
    ensures before <= now <= before + reply
    ensures now == before + sent + line ==> now == before + (sent + line)
  {
    assert before + (sent + line) == before + sent + line;
  }

  /**
   The reply in file mode: the lines of the file that have something in them, each ended; a
   prefix of that if a send fails.
   */
  method Reply(f: Stream, s: Socket) returns (rc: int)
    requires f.Valid() && f.at == 0 && NulFree(f.data) && !s.broken
    modifies f, s
    ensures rc == (if s.broken then -1 else 0)
    ensures old(s.sent) <= s.sent <= old(s.sent) + Kept(Lines(f.data, 0))
    ensures rc == 0 ==> s.sent == old(s.sent) + Kept(Lines(f.data, 0))
  {
    hide Kept, Lines, LineEnds, SentUpTo, Ended;
    ghost var data, before, sent := f.data, s.sent, "";
    StartAndEnd(data, 0, sent);
    while true
      invariant f.Valid() && s.sent == before + sent && !s.broken
      invariant SentUpTo(data, f.at, sent)
      decreases |data| - f.at
    {
      ghost var at := f.at;
      ghost var end;
      var line;
      line, end := ReadLine(f);
      if line.None? {
        StartAndEnd(data, at, sent);
        break;
      }
      LineExtends(data, at, sent, end);
      EndedText(line.value);
      if line.value != "" {
        rc := SendLine(s, line.value);
        PrefixOfReply(before, sent, Ended(line.value), s.sent, Kept(Lines(data, 0)));
        if rc == -1 {
          return;
        }
      }
      sent := sent + Ended(line.value);
    }
    rc := 0;
  }

  lemma EndedText(line: string)
    ensures Ended(line) == if line == "" then "" else line + "\n"
  {
  }
}
