/**
 The translation between a byte position in the virtual concatenation of the stored
 commands and a (command, offset) pair.
 */
module Offsets {
  import opened Sequences

  /** The position that the seek ioctl computes for an offset into command `c`. */
  function Position(sizes: seq<nat>, c: nat, offset: nat): nat
    requires c <= |sizes|
  {
    Sum(sizes[..c]) + offset
  }

  /** The search of the lookup loop, resumed at command `i` with `p` bytes still to skip. */
  function LocateFrom(sizes: seq<nat>, i: nat, p: nat): Option<(nat, nat)>
    requires i <= |sizes|
    decreases |sizes| - i
  {
    if i == |sizes| then None
    else if p < sizes[i] then Some((i, p))
    else LocateFrom(sizes, i + 1, p - sizes[i])
  }

  /** The (command, offset) pair of position `p`, if there is one. */
  function Locate(sizes: seq<nat>, p: nat): Option<(nat, nat)> {
    LocateFrom(sizes, 0, p)
  }

  lemma {:induction false} LocateFromSums(sizes: seq<nat>, i: nat, p: nat)
    requires i <= |sizes|
    ensures match LocateFrom(sizes, i, p)
            case None => Sum(sizes) - Sum(sizes[..i]) <= p
            case Some(r) => i <= r.0 < |sizes| && r.1 < sizes[r.0] &&
                            Position(sizes, r.0, r.1) == Sum(sizes[..i]) + p
    decreases |sizes| - i
  {
    if i == |sizes| {
      assert sizes[..i] == sizes;
    } else {
      SumPrefix(sizes, i);
      if sizes[i] <= p {
        LocateFromSums(sizes, i + 1, p - sizes[i]);
      }
    }
  }

  lemma {:induction false} SumMonotone(sizes: seq<nat>, i: nat, j: nat)
    requires i <= j <= |sizes|
    ensures Sum(sizes[..i]) <= Sum(sizes[..j])
    decreases j - i
  {
    if i < j {
      SumPrefix(sizes, i);
      SumMonotone(sizes, i + 1, j);
    }
  }

  lemma PositionInjective(sizes: seq<nat>, c: nat, o: nat, c': nat, o': nat)
    requires c < |sizes| && o < sizes[c]
    requires c' < |sizes| && o' < sizes[c']
    requires Position(sizes, c, o) == Position(sizes, c', o')
    ensures c == c' && o == o'
  {
    SumPrefix(sizes, c);
    SumPrefix(sizes, c');
    if c < c' {
      SumMonotone(sizes, c + 1, c');
    } else if c' < c {
      SumMonotone(sizes, c' + 1, c);
    }
  }

  /**
   Lookup is the inverse of seek, in both directions: the lookup of `p` is (c, o) exactly
   when o lies inside command c and seeking to (c, o) gives `p`.
   */
  lemma LookupInvertsSeek(sizes: seq<nat>, p: nat, c: nat, o: nat)
    ensures Locate(sizes, p) == Some((c, o))
       <==> c < |sizes| && o < sizes[c] && Position(sizes, c, o) == p
  {
    LocateFromSums(sizes, 0, p);
    if c < |sizes| && o < sizes[c] && Position(sizes, c, o) == p {
      SumPrefix(sizes, c);
      SumMonotone(sizes, c + 1, |sizes|);
      assert sizes[..|sizes|] == sizes;
      var r := Locate(sizes, p).value;
      PositionInjective(sizes, c, o, r.0, r.1);
    }
  }

  /** The positions that the lookup finds are exactly those below the stored total. */
  lemma LookupDomain(sizes: seq<nat>, p: nat)
    ensures Locate(sizes, p).Some? <==> p < Sum(sizes)
  {
    LocateFromSums(sizes, 0, p);
    if Locate(sizes, p).Some? {
      var c := Locate(sizes, p).value.0;
      SumPrefix(sizes, c);
      SumMonotone(sizes, c + 1, |sizes|);
      assert sizes[..|sizes|] == sizes;
    }
  }

  /** An offset equal to the command's size is the start of the next command, or the end of data. */
  lemma SeekToEndOfCommand(sizes: seq<nat>, c: nat)
    requires c < |sizes|
    ensures Position(sizes, c, sizes[c]) == Position(sizes, c + 1, 0)
    ensures c + 1 == |sizes| ==> Position(sizes, c, sizes[c]) == Sum(sizes)
  {
    SumPrefix(sizes, c);
    if c + 1 == |sizes| {
      assert sizes[..c + 1] == sizes;
    }
  }

  /** The pair for a position among the first `|sizes|` commands is not changed by appending one. */
  lemma LocateAppend(sizes: seq<nat>, size: nat, p: nat)
    ensures Locate(sizes + [size], p) ==
            if p < Sum(sizes) then Locate(sizes, p)
            else if p < Sum(sizes) + size then Some((|sizes|, p - Sum(sizes)))
            else None
  {
    var more := sizes + [size];
    SumAppend(sizes, [size]);
    LookupDomain(sizes, p);
    LookupDomain(more, p);
    assert more[..|sizes|] == sizes;
    if p < Sum(sizes) {
      var r := Locate(sizes, p).value;
      LookupInvertsSeek(sizes, p, r.0, r.1);
      assert more[..r.0] == sizes[..r.0];
      LookupInvertsSeek(more, p, r.0, r.1);
    } else if p < Sum(more) {
      LookupInvertsSeek(more, p, |sizes|, p - Sum(sizes));
    }
  }

  /** Dropping the oldest command moves every later position down by its size. */
  lemma LocateTail(sizes: seq<nat>, p: nat)
    requires sizes != [] && sizes[0] <= p
    ensures Locate(sizes[1..], p - sizes[0]) ==
            match Locate(sizes, p)
            case None => None
            case Some(r) => if r.0 == 0 then None else Some((r.0 - 1, r.1))
    ensures Locate(sizes, p).Some? ==> 0 < Locate(sizes, p).value.0
  {
    LookupDomain(sizes, p);
    LookupDomain(sizes[1..], p - sizes[0]);
    if p < Sum(sizes) {
      var r := Locate(sizes, p).value;
      LookupInvertsSeek(sizes, p, r.0, r.1);
      if 0 < r.0 {
        assert sizes[..r.0][1..] == sizes[1..][..r.0 - 1];
        LookupInvertsSeek(sizes[1..], p - sizes[0], r.0 - 1, r.1);
      }
    }
  }

  /**
   What an add does to the answer for every position. `sizes` are those of all commands
   ever added. Below capacity nothing moves; at capacity every position at or beyond the
   evicted size moves down by it; the bytes after the old end fall in the new command.
   */
  lemma EvictionShift(sizes: seq<nat>, size: nat, p: nat)
    ensures var now, next := LastTen(sizes), LastTen(sizes + [size]);
            var newest := if p < Sum(now) + size then Some((|next| - 1, p - Sum(now))) else None;
            && (|sizes| < CAPACITY ==>
                  Locate(next, p) == if p < Sum(now) then Locate(now, p) else newest)
            && (CAPACITY <= |sizes| && now[0] <= p ==>
                  if p < Sum(now) then
                    Locate(now, p).Some? && 0 < Locate(now, p).value.0 &&
                    Locate(next, p - now[0]) == Some((Locate(now, p).value.0 - 1, Locate(now, p).value.1))
                  else
                    Locate(next, p - now[0]) == newest)
  {
    var now, next := LastTen(sizes), LastTen(sizes + [size]);
    if |sizes| < CAPACITY {
      assert next == now + [size];
      LocateAppend(now, size, p);
    } else {
      assert next == now[1..] + [size];
      if now[0] <= p {
        LocateTail(now, p);
        LookupDomain(now, p);
        LocateAppend(now[1..], size, p - now[0]);
      }
    }
  }
}
