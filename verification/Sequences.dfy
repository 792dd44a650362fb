/** Concatenation, sums and the "ten most recent" window used by every other module. */
module Sequences {

  datatype Option<+T> = None | Some(value: T)

  /** AESDCHAR_MAX_WRITE_OPERATIONS_SUPPORTED */
  const CAPACITY: nat := 10

  /** The ten most recent elements, oldest first. */
  function LastTen<T>(s: seq<T>): seq<T> {
    if |s| <= CAPACITY then s else s[|s| - CAPACITY..]
  }

  /** What comes before the ten most recent elements. */
  function Older<T>(s: seq<T>): seq<T> {
    if |s| <= CAPACITY then [] else s[..|s| - CAPACITY]
  }

  function Flatten(pieces: seq<string>): string {
    if pieces == [] then "" else pieces[0] + Flatten(pieces[1..])
  }

  function Sum(sizes: seq<nat>): nat {
    if sizes == [] then 0 else sizes[0] + Sum(sizes[1..])
  }

  function Lengths(pieces: seq<string>): seq<nat> {
    seq(|pieces|, i requires 0 <= i < |pieces| => |pieces[i]|)
  }

  /** What is left of `text` from position `start` on; nothing past its end. */
  function From(text: string, start: nat): string {
    if start < |text| then text[start..] else ""
  }

  lemma {:induction false} FlattenAppend(a: seq<string>, b: seq<string>)
    ensures Flatten(a + b) == Flatten(a) + Flatten(b)
  {
    if a == [] {
      assert a + b == b;
    } else {
      assert (a + b)[1..] == a[1..] + b;
      FlattenAppend(a[1..], b);
    }
  }

  lemma {:induction false} SumAppend(a: seq<nat>, b: seq<nat>)
    ensures Sum(a + b) == Sum(a) + Sum(b)
  {
    if a == [] {
      assert a + b == b;
    } else {
      assert (a + b)[1..] == a[1..] + b;
      SumAppend(a[1..], b);
    }
  }

  /** One more element: the form in which loops grow a prefix. */
  lemma SumPrefix(sizes: seq<nat>, i: nat)
    requires i < |sizes|
    ensures Sum(sizes[..i + 1]) == Sum(sizes[..i]) + sizes[i]
  {
    assert sizes[..i + 1] == sizes[..i] + [sizes[i]];
    SumAppend(sizes[..i], [sizes[i]]);
  }

  lemma {:induction false} FlattenLength(pieces: seq<string>)
    ensures |Flatten(pieces)| == Sum(Lengths(pieces))
  {
    if pieces == [] {
    } else {
      assert Lengths(pieces)[1..] == Lengths(pieces[1..]);
      FlattenLength(pieces[1..]);
    }
  }

  /** Part of one piece is that part of the whole, shifted by what comes before the piece. */
  lemma FlattenAt(pieces: seq<string>, c: nat, from: nat, to: nat)
    requires c < |pieces| && from <= to <= |pieces[c]|
    ensures var before := Sum(Lengths(pieces)[..c]);
            before + to <= |Flatten(pieces)| &&
            Flatten(pieces)[before + from..before + to] == pieces[c][from..to]
  {
    var head, tail := pieces[..c], pieces[c + 1..];
    assert pieces == head + ([pieces[c]] + tail);
    FlattenAppend(head, [pieces[c]] + tail);
    FlattenAppend([pieces[c]], tail);
    assert Flatten([pieces[c]]) == pieces[c];
    FlattenLength(head);
    assert Lengths(head) == Lengths(pieces)[..c];
  }
}
