/**
 The text command that seeks (server/aesdsocket.c): prefix test, two `strtok` tokens and
 `atoi`, as in sections 7.24.5.8 and 7.22.1.2 of ISO/IEC 9899:2011.
 */
module SeekCommand {
  import opened Sequences
  import opened FileOps

  const PREFIX := "AESDCHAR_IOCSEEKTO:"

  /** strncmp over the length of the prefix finds no difference. */
  predicate IsSeek(msg: string) {
    PREFIX <= msg
  }

  /** A message seeks exactly when it agrees with the command in all of its 19 characters. */
  lemma IsSeekExactly(msg: string)
    ensures IsSeek(msg) <==>
            19 <= |msg| && forall k :: 0 <= k < 19 ==> msg[k] == "AESDCHAR_IOCSEEKTO:"[k]
  {
  }

  // ------------------------------------------------------------------ strtok

  function SkipCommas(s: string): string {
    if s != "" && s[0] == ',' then SkipCommas(s[1..]) else s
  }

  function UntilComma(s: string): string {
    if s == "" || s[0] == ',' then "" else [s[0]] + UntilComma(s[1..])
  }

  lemma {:induction false} UntilCommaIsPrefix(s: string)
    ensures UntilComma(s) <= s && forall i :: 0 <= i < |UntilComma(s)| ==> s[i] != ','
    ensures |UntilComma(s)| < |s| ==> s[|UntilComma(s)|] == ','
  {
    if s != "" && s[0] != ',' {
      UntilCommaIsPrefix(s[1..]);
    }
  }

  /** The next token, if any, and where the following call resumes. */
  function StrTok(s: string): (Option<string>, string) {
    var start := SkipCommas(s);
    if start == "" then (None, "")
    else
      UntilCommaIsPrefix(start);
      var n := |UntilComma(start)|;
      (Some(start[..n]), if n == |start| then "" else start[n + 1..])
  }

  // -------------------------------------------------------------------- atoi

  predicate IsSpace(c: char) {
    c == ' ' || '\t' <= c <= '\r'
  }

  predicate IsDigit(c: char) {
    '0' <= c <= '9'
  }

  function SkipSpaces(s: string): string {
    if s != "" && IsSpace(s[0]) then SkipSpaces(s[1..]) else s
  }

  /** The digits at the head of `s`, read behind the value `acc`. */
  function DigitsFrom(s: string, acc: nat): nat {
    if s != "" && IsDigit(s[0]) then DigitsFrom(s[1..], 10 * acc + (s[0] - '0') as nat) else acc
  }

  function Atoi(s: string): int {
    var t := SkipSpaces(s);
    if t != "" && t[0] == '-' then 0 - DigitsFrom(t[1..], 0) as int
    else if t != "" && t[0] == '+' then DigitsFrom(t[1..], 0)
    else DigitsFrom(t, 0)
  }

  /** `int` to `uint32_t` */
  function ToUint32(x: int): nat {
    x % 0x1_0000_0000
  }

  /** The request in a seek message; None when there are not two tokens. */
  function Parse(msg: string): Option<SeekTo>
    requires IsSeek(msg)
  {
    var (first, rest) := StrTok(msg[|PREFIX|..]);
    var (second, _) := StrTok(rest);
    if first.None? || second.None? then None
    else Some(SeekTo(ToUint32(Atoi(first.value)), ToUint32(Atoi(second.value))))
  }

  // ----------------------------------------------------- when parsing fails

  /** Two characters other than a comma with a comma between them. */
  ghost predicate HasTwoTokens(s: string) {
    exists i, j, k :: 0 <= i < j < k < |s| && s[i] != ',' && s[j] == ',' && s[k] != ','
  }

  lemma {:induction false} SkipCommasDrops(s: string) returns (n: nat)
    ensures n <= |s| && SkipCommas(s) == s[n..] && (forall i :: 0 <= i < n ==> s[i] == ',')
    ensures n < |s| ==> s[n] != ','
  {
    if s != "" && s[0] == ',' {
      var m := SkipCommasDrops(s[1..]);
      n := m + 1;
    } else {
      n := 0;
    }
  }

  /** Commas, then none up to `m`, then a comma there: two tokens exactly if something else follows. */
  lemma TwoTokensFrom(s: string, n: nat, m: nat)
    requires n < m < |s| && s[n] != ',' && s[m] == ','
    requires forall i :: 0 <= i < n ==> s[i] == ','
    requires forall i :: n <= i < m ==> s[i] != ','
    ensures HasTwoTokens(s) <==> exists k :: m < k < |s| && s[k] != ','
  {
    if k :| m < k < |s| && s[k] != ',' {
      assert s[n] != ',' && s[m] == ',' && s[k] != ',';
    }
  }

  /** Without a comma behind the first token there is no second. */
  lemma OneTokenOnly(s: string, n: nat)
    requires n <= |s|
    requires forall i :: 0 <= i < n ==> s[i] == ','
    requires forall i :: n <= i < |s| ==> s[i] != ','
    ensures !HasTwoTokens(s)
  {
  }

  /** A seek message is refused exactly when what follows the prefix has fewer than two tokens. */
  lemma ParseFailsExactly(msg: string)
    requires IsSeek(msg)
    ensures Parse(msg).None? <==> !HasTwoTokens(msg[|PREFIX|..])
  {
    hide HasTwoTokens, UntilComma, SkipCommas;
    var s := msg[|PREFIX|..];
    var n := SkipCommasDrops(s);
    var start := s[n..];
    if start == "" {
      NoSecondToken();
      OneTokenOnly(s, n);
    } else {
      UntilCommaIsPrefix(start);
      var m := |UntilComma(start)|;
      assert forall i :: n <= i < n + m ==> s[i] == start[i - n];
      if m < |start| {
        var rest := start[m + 1..];
        var q := SkipCommasDrops(rest);
        assert s[n + m] == start[m];
        assert forall i :: 0 <= i < |rest| ==> s[n + m + 1 + i] == rest[i];
        UntilCommaNonEmpty(start);
        TwoTokensFrom(s, n, n + m);
        assert forall k :: n + m < k < |s| ==> s[k] == rest[k - (n + m + 1)];
      } else {
        NoSecondToken();
        OneTokenOnly(s, n);
      }
    }
  }

  lemma UntilCommaNonEmpty(s: string)
    requires s != "" && s[0] != ','
    ensures 0 < |UntilComma(s)|
  {
  }

  lemma NoSecondToken()
    ensures StrTok("").0.None?
  {
  }

  // ---------------------------------------------------------------- numbers

  /** `%d` of a natural number. */
  function Decimal(n: nat): string {
    if n < 10 then [('0' as int + n) as char]
    else Decimal(n / 10) + [('0' as int + n % 10) as char]
  }

  lemma {:induction false} DecimalIsDigits(n: nat)
    ensures Decimal(n) != "" && forall i :: 0 <= i < |Decimal(n)| ==> IsDigit(Decimal(n)[i])
  {
    if 10 <= n {
      DecimalIsDigits(n / 10);
    }
  }

  /** Reading a printed number leaves its value in the accumulator. */
  lemma {:induction false} DigitsOfDecimal(n: nat, tail: string)
    ensures DigitsFrom(Decimal(n) + tail, 0) == DigitsFrom(tail, n)
  {
    if n < 10 {
      assert (Decimal(n) + tail)[1..] == tail;
    } else {
      var last := [('0' as int + n % 10) as char];
      assert Decimal(n) + tail == Decimal(n / 10) + (last + tail);
      DigitsOfDecimal(n / 10, last + tail);
      assert (last + tail)[1..] == tail;
    }
  }

  lemma {:induction false} UntilCommaOf(token: string, tail: string)
    requires ',' !in token && (tail == "" || tail[0] == ',')
    ensures UntilComma(token + tail) == token
  {
    if token == "" {
      assert token + tail == tail;
    } else {
      assert (token + tail)[1..] == token[1..] + tail;
      UntilCommaOf(token[1..], tail);
    }
  }

  lemma NothingToSkip(s: string)
    requires s != "" && s[0] != ','
    ensures SkipCommas(s) == s
  {
  }

  /** The token behind any commas and before another, and the rest behind that. */
  lemma StrTokOf(commas: string, token: string, rest: string)
    requires AllCommas(commas) && token != "" && ',' !in token
    ensures StrTok(commas + (token + ("," + rest))) == (Some(token), rest)
  {
    var s := token + ("," + rest);
    assert s[0] == token[0];
    SkipCommasOf(commas, s);
    UntilCommaOf(token, "," + rest);
    assert s[..|token|] == token && s[|token| + 1..] == rest;
  }

  lemma StrTokLast(commas: string, token: string, rest: string)
    requires AllCommas(commas) && token != "" && ',' !in token && (rest == "" || rest[0] == ',')
    ensures StrTok(commas + (token + rest)).0 == Some(token)
  {
    var s := token + rest;
    assert s[0] == token[0];
    SkipCommasOf(commas, s);
    UntilCommaOf(token, rest);
    assert s[..|token|] == token;
  }

  ghost predicate AllCommas(s: string) {
    forall i :: 0 <= i < |s| ==> s[i] == ','
  }

  lemma {:induction false} SkipCommasOf(commas: string, s: string)
    requires AllCommas(commas) && s != "" && s[0] != ','
    ensures SkipCommas(commas + s) == s
  {
    if commas == "" {
      assert commas + s == s;
    } else {
      assert (commas + s)[1..] == commas[1..] + s;
      SkipCommasOf(commas[1..], s);
    }
  }

  // ------------------------------------------------- what a token stands for

  /**
   A token taken apart: white space, a sign or none, then digits written as zeros and a
   number, or no digit at all, and what follows.
   */
  datatype Token =
    | Number(space: string, sign: string, zeros: string, n: nat, tail: string)
    | NoDigits(space: string, sign: string, tail: string)
  {
    function Text(): string {
      space + (sign + ((if Number? then zeros + Decimal(n) else "") + tail))
    }

    function Value(): int {
      if NoDigits? then 0 else if sign == "-" then -(n as int) else n
    }

    ghost predicate Valid() {
      && (forall i :: 0 <= i < |space| ==> space[i] == ' ' || 9 <= space[i] as int <= 13)
      && (sign == "" || sign == "+" || sign == "-")
      && (Number? ==> forall i :: 0 <= i < |zeros| ==> zeros[i] == '0')
      && (tail != "" ==> !('0' <= tail[0] <= '9'))
      && (NoDigits? && sign == "" && tail != "" ==>
            tail[0] != '+' && tail[0] != '-' && tail[0] != ' ' && !(9 <= tail[0] as int <= 13))
    }
  }

  lemma {:induction false} SkipSpacesOf(space: string, s: string)
    requires forall i :: 0 <= i < |space| ==> IsSpace(space[i])
    requires s != "" ==> !IsSpace(s[0])
    ensures SkipSpaces(space + s) == s
  {
    if space == "" {
      assert space + s == s;
    } else {
      assert (space + s)[1..] == space[1..] + s;
      SkipSpacesOf(space[1..], s);
    }
  }

  lemma {:induction false} DigitsOfZeros(zeros: string, s: string)
    requires forall i :: 0 <= i < |zeros| ==> zeros[i] == '0'
    ensures DigitsFrom(zeros + s, 0) == DigitsFrom(s, 0)
  {
    if zeros == "" {
      assert zeros + s == s;
    } else {
      assert (zeros + s)[1..] == zeros[1..] + s;
      DigitsOfZeros(zeros[1..], s);
    }
  }

  /** `atoi` gives the value of every token. */
  lemma AtoiReads(token: Token)
    requires token.Valid()
    ensures Atoi(token.Text()) == token.Value()
  {
    hide Decimal;
    var digits := if token.Number? then token.zeros + Decimal(token.n) else "";
    var s := digits + token.tail;
    DigitsRead(token);
    SkipSpacesOf(token.space, token.sign + s);
    if token.sign != "" {
      assert (token.sign + s)[1..] == s;
    } else {
      assert token.sign + s == s;
    }
  }

  /** The digits and what follows them: their value, and that no white space or sign comes first. */
  lemma DigitsRead(token: Token)
    requires token.Valid()
    ensures var s := (if token.Number? then token.zeros + Decimal(token.n) else "") + token.tail;
            && DigitsFrom(s, 0) == (if token.Number? then token.n else 0)
            && (s != "" && (token.Number? || token.sign == "") ==> !IsSpace(s[0]) && s[0] != '+' && s[0] != '-')
  {
    if token.Number? {
      var number := Decimal(token.n) + token.tail;
      assert (token.zeros + Decimal(token.n)) + token.tail == token.zeros + number;
      DecimalIsDigits(token.n);
      DigitsOfZeros(token.zeros, number);
      DigitsOfDecimal(token.n, token.tail);
      var s := token.zeros + number;
      assert s[0] == if token.zeros != "" then token.zeros[0] else Decimal(token.n)[0];
    } else {
      assert "" + token.tail == token.tail;
    }
  }

  /** Every string is the text of a token. */
  lemma TokenOf(s: string) returns (token: Token)
    ensures token.Valid() && token.Text() == s
  {
    hide Token.Text, Token.Valid;
    var k := LeadingSpaces(s);
    var u := s[k..];
    assert s == s[..k] + u;
    if u != "" && (u[0] == '+' || u[0] == '-') {
      assert u == u[..1] + u[1..];
      token := SignedToken(s[..k], u[..1], u[1..]);
    } else {
      assert u == "" + u;
      token := SignedToken(s[..k], "", u);
    }
  }

  lemma SignedToken(space: string, sign: string, v: string) returns (token: Token)
    requires forall i :: 0 <= i < |space| ==> IsSpace(space[i])
    requires sign == "+" || sign == "-" || (sign == "" && (v != "" ==> v[0] != '+' && v[0] != '-' && !IsSpace(v[0])))
    ensures token.Valid() && token.Text() == space + (sign + v)
  {
    hide Decimal;
    var m := LeadingDigits(v);
    if m == 0 {
      token := NoDigits(space, sign, v);
      assert "" + v == v;
    } else {
      var zeros, n := ZerosAndNumber(v[..m]);
      token := Number(space, sign, zeros, n, v[m..]);
      assert v == v[..m] + v[m..];
    }
  }

  lemma {:induction false} LeadingSpaces(s: string) returns (k: nat)
    ensures k <= |s| && (forall i :: 0 <= i < k ==> IsSpace(s[i])) && (k < |s| ==> !IsSpace(s[k]))
  {
    k := 0;
    if s != "" && IsSpace(s[0]) {
      k := LeadingSpaces(s[1..]);
      k := k + 1;
    }
  }

  lemma {:induction false} LeadingDigits(s: string) returns (k: nat)
    ensures k <= |s| && (forall i :: 0 <= i < k ==> IsDigit(s[i])) && (k < |s| ==> !IsDigit(s[k]))
  {
    k := 0;
    if s != "" && IsDigit(s[0]) {
      k := LeadingDigits(s[1..]);
      k := k + 1;
    }
  }

  /** Digits are zeros and a number without any in front. */
  lemma {:induction false} ZerosAndNumber(digits: string) returns (zeros: string, n: nat)
    requires digits != "" && forall i :: 0 <= i < |digits| ==> IsDigit(digits[i])
    ensures digits == zeros + Decimal(n) && forall i :: 0 <= i < |zeros| ==> zeros[i] == '0'
    decreases |digits|
  {
    var front, d := digits[..|digits| - 1], (digits[|digits| - 1] - '0') as nat;
    assert digits == front + Decimal(d);
    if front == "" {
      zeros, n := "", d;
    } else {
      zeros, n := ZerosAndNumber(front);
      if n == 0 {
        assert Decimal(0) == "0" && zeros + "0" + Decimal(d) == digits;
        zeros, n := zeros + "0", d;
      } else {
        assert Decimal(10 * n + d) == Decimal(n) + Decimal(d);
        n := 10 * n + d;
      }
    }
  }

  // ------------------------------------------------ what a message asks for

  /** A seek message taken apart: commas, the first token, a comma and maybe more, the second, the rest. */
  datatype Form = Form(commas: string, x: Token, more: string, y: Token, rest: string)
  {
    function Text(): string {
      "AESDCHAR_IOCSEEKTO:" + (commas + (x.Text() + ("," + (more + (y.Text() + rest)))))
    }

    ghost predicate Valid() {
      && AllCommas(commas) && AllCommas(more)
      && x.Valid() && x.Text() != "" && ',' !in x.Text()
      && y.Valid() && y.Text() != "" && ',' !in y.Text()
      && (rest == "" || rest[0] == ',')
    }

    /** A value as a `uint32_t` */
    function WriteCmd(): nat {
      x.Value() % 0x1_0000_0000
    }

    function WriteCmdOffset(): nat {
      y.Value() % 0x1_0000_0000
    }
  }

  /**
   What every seek message asks for: the values of its first two tokens, however many commas
   stand before and between them and whatever follows.
   */
  lemma ParseReads(f: Form)
    requires f.Valid()
    ensures IsSeek(f.Text()) && Parse(f.Text()) == Some(SeekTo(f.WriteCmd(), f.WriteCmdOffset()))
  {
    hide StrTok, Atoi, Token.Text, Token.Value, Token.Valid;
    AtoiReads(f.x);
    AtoiReads(f.y);
    var rest := f.more + (f.y.Text() + f.rest);
    StrTokOf(f.commas, f.x.Text(), rest);
    StrTokLast(f.more, f.y.Text(), f.rest);
    assert f.Text()[|PREFIX|..] == f.commas + (f.x.Text() + ("," + rest));
  }

  /** And every seek message that can be parsed is such a text. */
  lemma ParseCovers(msg: string) returns (f: Form)
    requires IsSeek(msg) && Parse(msg).Some?
    ensures f.Valid() && f.Text() == msg
  {
    hide StrTok, Atoi, Token.Text, Token.Value, Token.Valid, AllCommas;
    var s := msg[|PREFIX|..];
    var commas, x, rest := FirstToken(s);
    var more, y, tail := SecondToken(rest);
    f := Form(commas, x, more, y, tail);
    assert msg == PREFIX + s;
  }

  lemma FirstToken(s: string) returns (commas: string, x: Token, rest: string)
    requires StrTok(s).0.Some? && StrTok(StrTok(s).1).0.Some?
    ensures AllCommas(commas) && x.Valid() && x.Text() != "" && ',' !in x.Text()
    ensures s == commas + (x.Text() + ("," + rest)) && rest == StrTok(s).1
  {
    hide StrTok, Token.Text, Token.Valid;
    NoSecondToken();
    var n, m := TokenSplit(s);
    commas, rest := s[..n], s[n + m + 1..];
    x := TokenOf(s[n..n + m]);
    JoinAround(s, n, n + m);
  }

  lemma SecondToken(s: string) returns (more: string, y: Token, rest: string)
    requires StrTok(s).0.Some?
    ensures AllCommas(more) && y.Valid() && y.Text() != "" && ',' !in y.Text()
    ensures (rest == "" || rest[0] == ',') && s == more + (y.Text() + rest)
  {
    hide StrTok, Token.Text, Token.Valid;
    var n, m := TokenSplit(s);
    more, rest := s[..n], s[n + m..];
    y := TokenOf(s[n..n + m]);
    JoinThree(s, n, n + m);
  }

  lemma JoinThree(s: string, i: nat, j: nat)
    requires i <= j <= |s|
    ensures s == s[..i] + (s[i..j] + s[j..])
  {
  }

  lemma JoinAround(s: string, i: nat, j: nat)
    requires i <= j < |s| && s[j] == ','
    ensures s == s[..i] + (s[i..j] + ("," + s[j + 1..]))
  {
    JoinThree(s, i, j);
    assert s[j..] == "," + s[j + 1..];
  }

  /** Where the next token lies. */
  lemma TokenSplit(s: string) returns (n: nat, m: nat)
    requires StrTok(s).0.Some?
    ensures n + m <= |s| && 0 < m && AllCommas(s[..n]) && ',' !in s[n..n + m]
    ensures n + m < |s| ==> s[n + m] == ','
    ensures StrTok(s) == (Some(s[n..n + m]), if n + m == |s| then "" else s[n + m + 1..])
  {
    n := SkipCommasDrops(s);
    var start := s[n..];
    UntilCommaIsPrefix(start);
    UntilCommaNonEmpty(start);
    m := |UntilComma(start)|;
    assert start[..m] == s[n..n + m];
    assert m < |start| ==> start[m + 1..] == s[n + m + 1..];
  }

  // -------------------------------------------------------------- round trip

  function SeekMessage(x: nat, y: nat): string {
    "AESDCHAR_IOCSEEKTO:" + (Decimal(x) + ("," + (Decimal(y) + "\n")))
  }

  function PrintedForm(x: nat, y: nat): Form {
    Form("", Number("", "", "", x, ""), "", Number("", "", "", y, "\n"), "")
  }

  lemma PrintedTokens(x: nat, y: nat)
    ensures var f := PrintedForm(x, y);
            && f.x.Text() == Decimal(x) && f.y.Text() == Decimal(y) + "\n"
            && f.x.Valid() && f.y.Valid() && f.x.Value() == x && f.y.Value() == y
  {
    hide Decimal;
    assert "" + ("" + (("" + Decimal(x)) + "")) == Decimal(x);
    assert "" + ("" + (("" + Decimal(y)) + "\n")) == Decimal(y) + "\n";
  }

  /** Printing a request and parsing it back gives the request. */
  lemma SeekRoundTrip(x: nat, y: nat)
    requires x < 0x8000_0000 && y < 0x8000_0000
    ensures IsSeek(SeekMessage(x, y)) && Parse(SeekMessage(x, y)) == Some(SeekTo(x, y))
  {
    hide Decimal, IsSeek, Parse, Token.Text, Token.Valid, Token.Value;
    var f := PrintedForm(x, y);
    DecimalIsDigits(x);
    DecimalIsDigits(y);
    PrintedTokens(x, y);
    assert Decimal(x) + ("," + ("" + ((Decimal(y) + "\n") + ""))) == Decimal(x) + ("," + (Decimal(y) + "\n"));
    assert f.Text() == SeekMessage(x, y);
    ParseReads(f);
  }
}
