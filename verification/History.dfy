/**
 What the sequence of accepted writes means: it is cut after each write whose last byte
 is a newline. A newline inside a write does not cut.
 */
module History {
  import opened Sequences

  predicate EndsLine(text: string) {
    text != "" && text[|text| - 1] == '\n'
  }

  /** The bytes accepted since the last cut. */
  function Pending(writes: seq<string>): string {
    if writes == [] then ""
    else
      var text := Pending(writes[..|writes| - 1]) + writes[|writes| - 1];
      if EndsLine(text) then "" else text
  }

  /** The complete commands, in order. */
  function Commands(writes: seq<string>): seq<string> {
    if writes == [] then []
    else
      var front := writes[..|writes| - 1];
      var text := Pending(front) + writes[|writes| - 1];
      if EndsLine(text) then Commands(front) + [text] else Commands(front)
  }

  lemma AfterWrite(writes: seq<string>, buf: string)
    ensures var text := Pending(writes) + buf;
            if EndsLine(text) then
              Commands(writes + [buf]) == Commands(writes) + [text] && Pending(writes + [buf]) == ""
            else
              Commands(writes + [buf]) == Commands(writes) && Pending(writes + [buf]) == text
  {
    assert (writes + [buf])[..|writes|] == writes;
  }

  /** Nothing is lost, duplicated or reordered. */
  lemma {:induction false} HistoryConserved(writes: seq<string>)
    ensures Flatten(Commands(writes)) + Pending(writes) == Flatten(writes)
    ensures forall c :: c in Commands(writes) ==> EndsLine(c)
    ensures !EndsLine(Pending(writes))
  {
    hide Flatten;
    FlattenNone();
    if writes == [] {
    } else {
      var front, last := writes[..|writes| - 1], writes[|writes| - 1];
      HistoryConserved(front);
      assert writes == front + [last];
      FlattenOneMore(front, last);
      var text := Pending(front) + last;
      if EndsLine(text) {
        FlattenOneMore(Commands(front), text);
        assert Flatten(Commands(front)) + text == Flatten(writes);
      }
    }
  }

  lemma FlattenNone()
    ensures Flatten([]) == ""
  {
  }

  lemma FlattenOneMore(pieces: seq<string>, last: string)
    ensures Flatten(pieces + [last]) == Flatten(pieces) + last
  {
    FlattenAppend(pieces, [last]);
    assert Flatten([last]) == last;
  }

  /** A write that ends a line separates what comes before it from what comes after. */
  lemma {:induction false} CutAfterLine(before: seq<string>, line: string, after: seq<string>)
    requires EndsLine(line)
    ensures Commands(before + [line] + after) == Commands(before + [line]) + Commands(after)
    ensures Pending(before + [line] + after) == Pending(after)
    ensures Commands(before + [line]) == Commands(before) + [Pending(before) + line]
  {
    hide Pending, Commands;
    AfterWrite(before, line);
    var text := Pending(before) + line;
    assert text[|text| - 1] == line[|line| - 1];
    CutWhenNothingPending(before + [line], after);
  }

  /** With nothing pending the writes before and after are cut on their own. */
  lemma {:induction false} CutWhenNothingPending(before: seq<string>, after: seq<string>)
    requires Pending(before) == ""
    ensures Commands(before + after) == Commands(before) + Commands(after)
    ensures Pending(before + after) == Pending(after)
    decreases |after|
  {
    hide Pending, Commands, EndsLine;
    NothingWritten();
    if after == [] {
      assert before + after == before && Commands(before) + [] == Commands(before);
    } else {
      var front, last := after[..|after| - 1], after[|after| - 1];
      CutWhenNothingPending(before, front);
      AfterWrite(before + front, last);
      AfterWrite(front, last);
      assert after == front + [last] && before + after == (before + front) + [last];
    }
  }

  lemma NothingWritten()
    ensures Commands([]) == [] && Pending([]) == ""
  {
  }

  /** Writes none of which ends a line only accumulate. */
  lemma {:induction false} NoCutWithoutLine(writes: seq<string>)
    requires forall i :: 0 <= i < |writes| ==> writes[i] != "" && !EndsLine(writes[i])
    ensures Commands(writes) == [] && Pending(writes) == Flatten(writes)
  {
    if writes == [] {
    } else {
      var front, last := writes[..|writes| - 1], writes[|writes| - 1];
      NoCutWithoutLine(front);
      assert writes == front + [last];
      FlattenAppend(front, [last]);
      assert Flatten([last]) == last;
      assert !EndsLine(Pending(front) + last);
    }
  }

  // ------------------------------------------------------- newlines inside

  /** No newline before the last byte. */
  ghost predicate NoInnerNewline(text: string) {
    forall i :: 0 <= i < |text| - 1 ==> text[i] != '\n'
  }

  ghost predicate NoneInner(writes: seq<string>) {
    forall i :: 0 <= i < |writes| ==> NoInnerNewline(writes[i])
  }

  /** Every command is one line. */
  ghost predicate OneLineEach(commands: seq<string>) {
    forall i :: 0 <= i < |commands| ==> EndsLine(commands[i]) && NoInnerNewline(commands[i])
  }

  ghost predicate NoNewline(text: string) {
    forall i :: 0 <= i < |text| ==> text[i] != '\n'
  }

  /** What one write does to the bytes pending: they stay free of newlines exactly when it has none inside. */
  lemma InnerNewlineOfAppend(pending: string, buf: string)
    requires NoNewline(pending)
    ensures NoInnerNewline(pending + buf) <==> NoInnerNewline(buf)
    ensures !EndsLine(pending + buf) ==> (NoNewline(pending + buf) <==> NoInnerNewline(buf))
  {
    var text := pending + buf;
    assert forall i :: 0 <= i < |buf| ==> buf[i] == text[|pending| + i];
    assert forall i :: 0 <= i < |pending| ==> text[i] == pending[i];
  }

  /** The device is a list of lines exactly when no write has a newline before its last byte. */
  lemma {:induction false} LinesExactly(writes: seq<string>)
    ensures OneLineEach(Commands(writes)) && NoNewline(Pending(writes)) <==> NoneInner(writes)
  {
    if writes == [] {
    } else {
      var front, buf := writes[..|writes| - 1], writes[|writes| - 1];
      assert writes == front + [buf];
      LinesExactly(front);
      LinesAfterWrite(front, buf);
      assert NoneInner(writes) <==> NoneInner(front) && NoInnerNewline(buf);
    }
  }

  lemma LinesAfterWrite(writes: seq<string>, buf: string)
    ensures OneLineEach(Commands(writes + [buf])) && NoNewline(Pending(writes + [buf])) <==>
            OneLineEach(Commands(writes)) && NoNewline(Pending(writes)) && NoInnerNewline(buf)
  {
    AfterWrite(writes, buf);
    var pending, text := Pending(writes), Pending(writes) + buf;
    if EndsLine(text) {
      assert OneLineEach(Commands(writes) + [text]) <==> OneLineEach(Commands(writes)) && NoInnerNewline(text) by {
        assert (Commands(writes) + [text])[|Commands(writes)|] == text;
        assert forall i :: 0 <= i < |Commands(writes)| ==> (Commands(writes) + [text])[i] == Commands(writes)[i];
      }
      if NoInnerNewline(text) {
        assert forall i :: 0 <= i < |pending| ==> pending[i] == text[i];
        PendingBeforeLast(pending, buf);
      }
    } else {
      if NoNewline(text) {
        assert forall i :: 0 <= i < |pending| ==> pending[i] == text[i];
      }
    }
    HistoryConserved(writes);
    if NoNewline(pending) {
      InnerNewlineOfAppend(pending, buf);
    }
  }

  /** Pending bytes do not end a line, so in a text with no inner newline they have none. */
  lemma PendingBeforeLast(pending: string, buf: string)
    requires NoInnerNewline(pending + buf)
    ensures EndsLine(pending) || NoNewline(pending)
  {
    assert forall i :: 0 <= i < |pending| ==> pending[i] == (pending + buf)[i];
  }

  /** Two lines in one write are one command. */
  lemma TwoLinesOneCommand()
    ensures Commands(["a\nb\n"]) == ["a\nb\n"] && !NoInnerNewline("a\nb\n")
  {
    AfterWrite([], "a\nb\n");
    assert "" + "a\nb\n" == "a\nb\n" && [] + ["a\nb\n"] == ["a\nb\n"];
    assert "a\nb\n"[1] == '\n';
  }

  predicate AllLines(writes: seq<string>) {
    forall i :: 0 <= i < |writes| ==> EndsLine(writes[i])
  }

  /** The commands are the writes exactly when every write ends a line. */
  lemma CommandsAreWritesExactly(writes: seq<string>)
    ensures Commands(writes) == writes <==> AllLines(writes)
  {
    HistoryConserved(writes);
    if AllLines(writes) {
      LinesAreCommands(writes);
    }
    if Commands(writes) == writes {
      assert forall i :: 0 <= i < |writes| ==> writes[i] in Commands(writes);
    }
  }

  lemma {:induction false} LinesAreCommands(writes: seq<string>)
    requires AllLines(writes)
    ensures Commands(writes) == writes && Pending(writes) == ""
  {
    if writes == [] {
    } else {
      var front := writes[..|writes| - 1];
      LinesAreCommands(front);
      assert "" + writes[|writes| - 1] == writes[|writes| - 1];
      assert writes == front + [writes[|writes| - 1]];
    }
  }

  // ------------------------------------- the last ten commands and the last ten writes

  /** There are at most as many commands as writes, and as many exactly when every write ends a line. */
  lemma {:induction false} CommandsAtMost(writes: seq<string>)
    ensures |Commands(writes)| <= |writes|
    ensures |Commands(writes)| == |writes| <==> AllLines(writes)
  {
    if writes != [] {
      var front, last := writes[..|writes| - 1], writes[|writes| - 1];
      CommandsAtMost(front);
      assert writes == front + [last];
      OneMoreCommand(front, last);
    }
  }

  lemma OneMoreCommand(front: seq<string>, last: string)
    requires |Commands(front)| <= |front|
    requires |Commands(front)| == |front| <==> AllLines(front)
    ensures |Commands(front + [last])| <= |front| + 1
    ensures |Commands(front + [last])| == |front| + 1 <==> AllLines(front + [last])
  {
    hide Commands, Pending;
    AfterWrite(front, last);
    assert (front + [last])[|front|] == last;
    assert forall i :: 0 <= i < |front| ==> (front + [last])[i] == front[i];
    if AllLines(front) {
      LinesAreCommands(front);
      assert "" + last == last;
    }
  }

  /** Commands one after the other are nothing, or end a line; nothing only if there are none. */
  lemma {:induction false} FlattenOfLines(commands: seq<string>)
    requires forall i :: 0 <= i < |commands| ==> EndsLine(commands[i])
    ensures if commands == [] then Flatten(commands) == "" else EndsLine(Flatten(commands))
  {
    if commands != [] {
      var front, last := commands[..|commands| - 1], commands[|commands| - 1];
      assert commands == front + [last];
      FlattenOneMore(front, last);
    }
  }

  lemma CommandsAreLines(writes: seq<string>)
    ensures forall i :: 0 <= i < |Commands(writes)| ==> EndsLine(Commands(writes)[i])
  {
    HistoryConserved(writes);
    assert forall i :: 0 <= i < |Commands(writes)| ==> Commands(writes)[i] in Commands(writes);
  }

  /**
   When the last ten commands read the same as the last ten writes: nothing is pending and,
   with more than ten writes, nothing was pending before the last ten either and each of
   those ends a line (or there are no bytes before them). Ten empty writes read the same as
   no command.
   */
  predicate SameLastTen(writes: seq<string>) {
    if Flatten(LastTen(writes)) == "" then Commands(writes) == []
    else
      && Pending(writes) == ""
      && (|writes| <= CAPACITY ||
          (Pending(Older(writes)) == "" && (AllLines(LastTen(writes)) || Flatten(Older(writes)) == "")))
  }

  lemma SameLastTenExactly(writes: seq<string>)
    ensures Flatten(LastTen(Commands(writes))) == Flatten(LastTen(writes)) <==> SameLastTen(writes)
  {
    hide Commands, Pending, Flatten, LastTen, Older, AllLines;
    CommandsAreLines(writes);
    LastTenLines(Commands(writes));
    if Flatten(LastTen(writes)) == "" {
    } else if Pending(writes) != "" {
      PendingDiffers(writes);
    } else if |writes| <= CAPACITY {
      FewWrites(writes);
    } else if Pending(Older(writes)) != "" {
      StartsInsideCommand(writes);
    } else {
      StartsAtCommand(writes);
    }
  }

  lemma LastTenLines(commands: seq<string>)
    requires forall i :: 0 <= i < |commands| ==> EndsLine(commands[i])
    ensures if commands == [] then Flatten(LastTen(commands)) == "" else EndsLine(Flatten(LastTen(commands)))
  {
    FlattenOfLines(LastTen(commands));
  }

  lemma SplitAtLastTen(writes: seq<string>)
    ensures Older(writes) + LastTen(writes) == writes
    ensures Flatten(writes) == Flatten(Older(writes)) + Flatten(LastTen(writes))
  {
    FlattenAppend(Older(writes), LastTen(writes));
    assert Older(writes) + LastTen(writes) == writes;
  }

  /** With bytes pending the last ten writes end in one of them, commands never do. */
  lemma PendingDiffers(writes: seq<string>)
    requires Pending(writes) != "" && Flatten(LastTen(writes)) != ""
    ensures Flatten(LastTen(Commands(writes))) != Flatten(LastTen(writes))
  {
    hide Commands, Pending, Flatten, LastTen, Older;
    HistoryConserved(writes);
    SplitAtLastTen(writes);
    CommandsAreLines(writes);
    LastTenLines(Commands(writes));
    SameLastByte(Flatten(Commands(writes)), Pending(writes), Flatten(Older(writes)), Flatten(LastTen(writes)));
  }

  lemma SameLastByte(a: string, b: string, c: string, d: string)
    requires a + b == c + d && b != "" && d != ""
    ensures b[|b| - 1] == d[|d| - 1]
  {
    assert (a + b)[|a + b| - 1] == b[|b| - 1];
    assert (c + d)[|c + d| - 1] == d[|d| - 1];
  }

  lemma FewWrites(writes: seq<string>)
    requires Pending(writes) == "" && |writes| <= CAPACITY
    ensures Flatten(LastTen(Commands(writes))) == Flatten(LastTen(writes))
  {
    hide Commands, Pending, Flatten;
    HistoryConserved(writes);
    CommandsAtMost(writes);
    assert Flatten(Commands(writes)) + "" == Flatten(Commands(writes));
  }

  /** If the last ten writes start inside a command, no commands read the same. */
  lemma StartsInsideCommand(writes: seq<string>)
    requires Pending(writes) == "" && Pending(Older(writes)) != ""
    ensures Flatten(LastTen(Commands(writes))) != Flatten(LastTen(writes))
  {
    hide Commands, Pending, Flatten, LastTen, Older;
    HistoryConserved(writes);
    HistoryConserved(Older(writes));
    SplitAtLastTen(writes);
    SplitAtLastTen(Commands(writes));
    CommandsAreLines(writes);
    OlderLines(Commands(writes));
    var all := Flatten(writes);
    assert Flatten(Commands(writes)) + "" == Flatten(Commands(writes));
    var a, b := Flatten(Older(writes)), Flatten(Older(Commands(writes)));
    assert a != "" && !EndsLine(a) by {
      var p := Pending(Older(writes));
      assert a[|a| - 1] == p[|p| - 1];
    }
    if Flatten(LastTen(Commands(writes))) == Flatten(LastTen(writes)) {
      SamePrefix(a, b, Flatten(LastTen(writes)));
    }
  }

  lemma SamePrefix(a: string, b: string, c: string)
    requires a + c == b + c
    ensures a == b
  {
    assert a == (a + c)[..|a|] && b == (b + c)[..|b|];
  }

  lemma OlderLines(commands: seq<string>)
    requires forall i :: 0 <= i < |commands| ==> EndsLine(commands[i])
    ensures Flatten(Older(commands)) == "" || EndsLine(Flatten(Older(commands)))
  {
    FlattenOfLines(Older(commands));
  }

  /** If the last ten writes start at a command, they are the last ten commands when each is one, or there is nothing older. */
  lemma StartsAtCommand(writes: seq<string>)
    requires CAPACITY < |writes| && Pending(writes) == "" && Pending(Older(writes)) == ""
    ensures Flatten(LastTen(Commands(writes))) == Flatten(LastTen(writes)) <==>
            AllLines(LastTen(writes)) || Flatten(Older(writes)) == ""
  {
    hide Commands, Pending, Flatten;
    var older, ten := Older(writes), LastTen(writes);
    SplitAtLastTen(writes);
    CutWhenNothingPending(older, ten);
    HistoryConserved(older);
    HistoryConserved(ten);
    assert Flatten(Commands(older)) + "" == Flatten(Commands(older));
    assert Flatten(Commands(ten)) + "" == Flatten(Commands(ten));
    CommandsAtMost(ten);
    CommandsAreLines(older);
    FlattenOfLines(Commands(older));
    LastTenOfTwo(Commands(older), Commands(ten));
  }

  lemma LastTenOfTwo(a: seq<string>, b: seq<string>)
    requires |b| <= CAPACITY && forall i :: 0 <= i < |a| ==> EndsLine(a[i])
    ensures Flatten(LastTen(a + b)) == Flatten(b) <==> |b| == CAPACITY || a == []
  {
    hide *;
    var kept := LastTenSplit(a, b);
    FlattenAppend(kept, b);
    NothingInFront(Flatten(kept), Flatten(b));
  }

  /** What is kept of `a` when `b` follows. */
  lemma LastTenSplit(a: seq<string>, b: seq<string>) returns (kept: seq<string>)
    requires |b| <= CAPACITY && forall i :: 0 <= i < |a| ==> EndsLine(a[i])
    ensures LastTen(a + b) == kept + b
    ensures Flatten(kept) == "" <==> |b| == CAPACITY || a == []
  {
    hide EndsLine, Flatten;
    var room := CAPACITY - |b|;
    kept := if |a| <= room then a else a[|a| - room..];
    FlattenOfLines(kept);
    NothingFlat();
  }

  lemma NothingFlat()
    ensures Flatten([]) == "" && !EndsLine("")
  {
  }

  lemma NothingInFront(a: string, b: string)
    ensures a + b == b <==> a == ""
  {
    if a == "" {
      assert a + b == b;
    }
    assert |a + b| == |a| + |b|;
  }

  /**
   For writes with at least one byte: up to ten of them read the same exactly when the last
   ends a line, more exactly when each of the last eleven does.
   */
  lemma SameLastTenOfNonEmpty(writes: seq<string>)
    requires writes != [] && forall i :: 0 <= i < |writes| ==> writes[i] != ""
    ensures SameLastTen(writes) <==>
            if |writes| <= CAPACITY then EndsLine(writes[|writes| - 1])
            else forall i :: |writes| - CAPACITY - 1 <= i < |writes| ==> EndsLine(writes[i])
  {
    hide Commands, Pending, Flatten;
    NonEmptyText(LastTen(writes));
    PendingOfNonEmpty(writes);
    if CAPACITY < |writes| {
      var older, ten := Older(writes), LastTen(writes);
      NonEmptyText(older);
      PendingOfNonEmpty(older);
      assert older[|older| - 1] == writes[|writes| - CAPACITY - 1];
      assert forall i :: 0 <= i < |ten| ==> ten[i] == writes[|writes| - CAPACITY + i];
      assert forall i :: |writes| - CAPACITY <= i < |writes| ==> writes[i] == ten[i - (|writes| - CAPACITY)];
    }
  }

  lemma NonEmptyText(pieces: seq<string>)
    requires pieces != [] && pieces[0] != ""
    ensures Flatten(pieces) != ""
  {
  }

  lemma PendingOfNonEmpty(writes: seq<string>)
    requires writes != [] && writes[|writes| - 1] != ""
    ensures Pending(writes) == "" <==> EndsLine(writes[|writes| - 1])
  {
    var text := Pending(writes[..|writes| - 1]) + writes[|writes| - 1];
    assert text[|text| - 1] == writes[|writes| - 1][|writes[|writes| - 1]| - 1];
  }

  /** The stored commands end in the newest write, if it has a byte, exactly when that ends a line. */
  lemma OwnWriteLast(writes: seq<string>, buf: string)
    requires buf != ""
    ensures var text := Flatten(LastTen(Commands(writes + [buf])));
            (|buf| <= |text| && text[|text| - |buf|..] == buf) <==> EndsLine(buf)
  {
    hide Commands, Pending, Flatten;
    AfterWrite(writes, buf);
    CommandsAreLines(writes + [buf]);
    LastTenLines(Commands(writes + [buf]));
    var commands, line := Commands(writes), Pending(writes) + buf;
    assert line[|line| - 1] == buf[|buf| - 1];
    var text := Flatten(LastTen(Commands(writes + [buf])));
    if EndsLine(buf) {
      NewestIsSuffix(commands, line);
      assert text[|text| - |line|..][|Pending(writes)|..] == buf;
    } else if |buf| <= |text| {
      assert text[|text| - |buf|..][|buf| - 1] == text[|text| - 1];
    }
  }

  lemma NewestIsSuffix(commands: seq<string>, line: string)
    ensures var text := Flatten(LastTen(commands + [line]));
            |line| <= |text| && text[|text| - |line|..] == line
  {
    var kept := LastTen(commands + [line]);
    assert kept == kept[..|kept| - 1] + [line];
    FlattenOneMore(kept[..|kept| - 1], line);
  }
}
