/**
 The operations that use a handle's position: read, llseek and the seek ioctl (main.c).
 Integer conversions of the C code are written out.
 */
module FileOps {
  import opened Sequences
  import opened Offsets
  import opened Kernel
  import opened CircularBuffer
  import opened DriverModel

  /** `loff_t` to `size_t`. */
  function ToSize(p: int): nat {
    p % 0x1_0000_0000_0000_0000
  }

  /** To `loff_t`. */
  function ToLoff(x: int): int {
    (x + 0x8000_0000_0000_0000) % 0x1_0000_0000_0000_0000 - 0x8000_0000_0000_0000
  }

  /** To `int`. */
  function ToInt(x: int): int {
    (x + 0x8000_0000) % 0x1_0000_0000 - 0x8000_0000
  }

  /** A conversion gives the one value of its type that is congruent to what it converts. */
  lemma ToIntExactly(x: int)
    ensures -0x8000_0000 <= ToInt(x) <= 0x7fff_ffff && (x - ToInt(x)) % 0x1_0000_0000 == 0
  {
    assert x - ToInt(x) == 0x1_0000_0000 * ((x + 0x8000_0000) / 0x1_0000_0000);
  }

  lemma ToLoffExactly(x: int)
    ensures -0x8000_0000_0000_0000 <= ToLoff(x) <= 0x7fff_ffff_ffff_ffff
    ensures (x - ToLoff(x)) % 0x1_0000_0000_0000_0000 == 0
  {
    assert x - ToLoff(x) == 0x1_0000_0000_0000_0000 * ((x + 0x8000_0000_0000_0000) / 0x1_0000_0000_0000_0000);
  }

  lemma ToSizeExactly(x: int)
    ensures 0 <= ToSize(x) <= 0xffff_ffff_ffff_ffff && (x - ToSize(x)) % 0x1_0000_0000_0000_0000 == 0
  {
    assert x - ToSize(x) == 0x1_0000_0000_0000_0000 * (x / 0x1_0000_0000_0000_0000);
  }

  lemma ToLoffInRange(x: int)
    requires -0x8000_0000_0000_0000 <= x < 0x8000_0000_0000_0000
    ensures ToLoff(x) == x
  {
  }

  /** Adding into an `int` step by step wraps like adding once. */
  lemma ToIntAdd(x: int, y: int)
    ensures ToInt(ToInt(x) + y) == ToInt(x + y)
  {
  }

  // -------------------------------------------------------------------- read

  /** aesd_read at position `pos`: value returned, bytes delivered, new position. */
  ghost function ReadNext(d: Dev, pos: int, count: nat, env: Env): (int, string, int)
    requires Owned(d)
  {
    if !env.locked then (-ERESTARTSYS, "", pos)
    else match Locate(Sizes(Stored(d)), ToSize(pos))
      case None => (0, "", pos)
      case Some(r) =>
        LookupInvertsSeek(Sizes(Stored(d)), ToSize(pos), r.0, r.1);
        var left := Stored(d)[r.0].size - r.1;
        var n := if left > count then count else left;
        if !env.copied then (-EFAULT, "", pos)
        else (n, Peek(Texts(d)[r.0], r.1, n, env.stray), pos + n)
  }

  /** The read of a found position, in terms of the entry's block. */
  lemma ReadFound(d: Dev, pos: int, count: nat, env: Env)
    requires Owned(d) && env.locked && Locate(Sizes(Stored(d)), ToSize(pos)).Some?
    ensures var (c, o) := Locate(Sizes(Stored(d)), ToSize(pos)).value;
            && c < |Stored(d)| && o < Stored(d)[c].size && Stored(d)[c].buffptr in d.heap.live
            && var n := if Stored(d)[c].size - o > count then count else Stored(d)[c].size - o;
               ReadNext(d, pos, count, env) ==
               if !env.copied then (-EFAULT, "", pos)
               else (n, Peek(d.heap.live[Stored(d)[c].buffptr], o, n, env.stray), pos + n)
  {
    var r := Locate(Sizes(Stored(d)), ToSize(pos)).value;
    LookupInvertsSeek(Sizes(Stored(d)), ToSize(pos), r.0, r.1);
    assert Ptrs(Stored(d))[r.0] == Stored(d)[r.0].buffptr;
  }

  /** The other outcomes: the lock wait is interrupted, or there is nothing at the position. */
  lemma ReadNotFound(d: Dev, pos: int, count: nat, env: Env)
    requires Owned(d)
    ensures !env.locked ==> ReadNext(d, pos, count, env) == (-ERESTARTSYS, "", pos)
    ensures env.locked && Locate(Sizes(Stored(d)), ToSize(pos)).None? ==> ReadNext(d, pos, count, env) == (0, "", pos)
  {
  }

  /** The stored text: the commands one after the other. */
  ghost function StoredText(d: Dev): string
    requires Owned(d)
  {
    Flatten(Texts(d))
  }

  /**
   A successful read delivers the stored text at its position, at most `count` bytes of it,
   and nothing exactly when it asks for nothing or the position is at or past the end.
   */
  lemma ReadDeliversText(d: Dev, pos: int, count: nat, env: Env)
    requires Owned(d) && Sized(d) && 0 <= pos < 0x1_0000_0000_0000_0000 && env.locked && env.copied
    ensures var (ret, data, pos') := ReadNext(d, pos, count, env);
            && ret == |data| <= count
            && pos' == pos + |data|
            && (data == "" <==> count == 0 || |StoredText(d)| <= pos)
            && (data != "" ==> pos' <= |StoredText(d)| && data == StoredText(d)[pos..pos'])
  {
    hide Owned, ReadNext, Locate, Flatten;
    ReadNotFound(d, pos, count, env);
    FlattenLength(Texts(d));
    LookupDomain(Sizes(Stored(d)), pos);
    if pos < |StoredText(d)| {
      ReadWithinCommand(d, pos, count, env);
      var r := Locate(Sizes(Stored(d)), pos).value;
      FlattenAt(Texts(d), r.0, r.1, r.1 + |ReadNext(d, pos, count, env).1|);
    }
  }

  /**
   One read stays inside the command its position lies in: it ends there or at its count,
   whichever is first, and delivers that command's bytes.
   */
  lemma ReadWithinCommand(d: Dev, pos: int, count: nat, env: Env)
    requires Owned(d) && Sized(d) && 0 <= pos < |StoredText(d)| && pos < 0x1_0000_0000_0000_0000
    requires env.locked && env.copied
    ensures Locate(Sizes(Stored(d)), pos).Some?
    ensures var (ret, data, pos') := ReadNext(d, pos, count, env);
            var (c, o) := Locate(Sizes(Stored(d)), pos).value;
            && c < |Texts(d)| && o < |Texts(d)[c]| && pos == Position(Lengths(Texts(d)), c, o)
            && ret == |data| == (if count < |Texts(d)[c]| - o then count else |Texts(d)[c]| - o)
            && pos' == pos + ret
            && data == Texts(d)[c][o..o + |data|]
  {
    var sizes := Sizes(Stored(d));
    FlattenLength(Texts(d));
    LookupDomain(sizes, pos);
    var r := Locate(sizes, pos).value;
    LookupInvertsSeek(sizes, pos, r.0, r.1);
    assert sizes[r.0] == Lengths(Texts(d))[r.0];
  }

  /**
   A read fails exactly when its lock wait is interrupted, or there is something at its
   position and the user copy fails. It then delivers nothing and does not move; without a failure it
   returns the length of what it delivers and moves by that.
   */
  lemma FailedReadStays(d: Dev, pos: int, count: nat, env: Env)
    requires Owned(d)
    ensures var (ret, data, pos') := ReadNext(d, pos, count, env);
            var found := Locate(Sizes(Stored(d)), ToSize(pos)).Some?;
            && (ret < 0 <==> !env.locked || (found && !env.copied))
            && (ret < 0 ==> ret == if !env.locked then -512 else -14)
            && (0 <= ret ==> ret == |data|)
            && (!env.locked || !found || !env.copied ==> data == "")
            && |data| <= count && pos' == pos + |data|
  {
    if Locate(Sizes(Stored(d)), ToSize(pos)).Some? {
      var r := Locate(Sizes(Stored(d)), ToSize(pos)).value;
      LookupInvertsSeek(Sizes(Stored(d)), ToSize(pos), r.0, r.1);
    }
  }

  /** Reads one after the other on one handle: the bytes delivered and the final position. */
  ghost function Drain(d: Dev, pos: int, counts: seq<nat>, env: Env): (string, int)
    requires Owned(d)
    decreases |counts|
  {
    if counts == [] then ("", pos)
    else
      var (_, data, next) := ReadNext(d, pos, counts[0], env);
      var (rest, end) := Drain(d, next, counts[1..], env);
      (data + rest, end)
  }

  lemma FromSplit(text: string, pos: nat, next: nat)
    requires pos <= next <= |text|
    ensures text[pos..next] + From(text, next) == From(text, pos)
  {
  }

  /**
   Whatever positive counts are used, the pieces make up the stored text from the start
   position, and as many reads as bytes are left always reach the end.
   */
  lemma {:induction false} DrainDeliversRest(d: Dev, pos: nat, counts: seq<nat>, env: Env)
    requires Owned(d) && Sized(d) && env.locked && env.copied
    requires |StoredText(d)| < 0x8000_0000_0000_0000 && pos < 0x8000_0000_0000_0000
    requires forall i :: 0 <= i < |counts| ==> 0 < counts[i]
    ensures Drain(d, pos, counts, env).1 == pos + |Drain(d, pos, counts, env).0|
    ensures Drain(d, pos, counts, env).0 <= From(StoredText(d), pos)
    ensures |StoredText(d)| - pos <= |counts| ==> Drain(d, pos, counts, env).0 == From(StoredText(d), pos)
    decreases |counts|
  {
    if counts == [] {
    } else {
      ReadDeliversText(d, pos, counts[0], env);
      var (_, data, next) := ReadNext(d, pos, counts[0], env);
      DrainDeliversRest(d, next, counts[1..], env);
      if data == "" {
        assert From(StoredText(d), pos) == "";
      } else {
        FromSplit(StoredText(d), pos, next);
      }
    }
  }

  // ------------------------------------------------------------------ llseek

  const SEEK_SET := 0
  const SEEK_CUR := 1
  const SEEK_END := 2

  /** aesd_llseek: value returned and new position. */
  function LlseekNext(d: Dev, pos: int, off: int, whence: int): (int, int) {
    if whence != SEEK_SET && whence != SEEK_CUR && whence != SEEK_END then (-EINVAL, pos)
    else
      var origin := if whence == SEEK_SET then 0 else if whence == SEEK_CUR then pos
                    else Sum(Sizes(Stored(d)));
      var target := ToLoff(origin + off);
      if target < 0 then (-EINVAL, pos) else (target, target)
  }

  /** Seeking `k` back from the end and draining returns exactly the last `k` bytes. */
  lemma SeekEndThenDrain(d: Dev, pos: int, k: nat, counts: seq<nat>, env: Env)
    requires Owned(d) && Sized(d) && env.locked && env.copied
    requires k <= |StoredText(d)| < 0x8000_0000_0000_0000
    requires k <= |counts| && forall i :: 0 <= i < |counts| ==> 0 < counts[i]
    ensures var (ret, pos') := LlseekNext(d, pos, -(k as int), SEEK_END);
            && ret == pos' == |StoredText(d)| - k
            && Drain(d, pos', counts, env).0 == StoredText(d)[|StoredText(d)| - k..]
  {
    hide Owned, Drain, ToLoff, Flatten, Texts;
    FlattenLength(Texts(d));
    ToLoffInRange(|StoredText(d)| - k);
    DrainDeliversRest(d, |StoredText(d)| - k, counts, env);
  }

  /**
   llseek goes to its origin plus the offset exactly when that is a position; otherwise it
   fails and the handle stays where it is.
   */
  lemma LlseekLands(d: Dev, pos: int, off: int, whence: int)
    requires Owned(d) && Sized(d) && |StoredText(d)| < 0x8000_0000_0000_0000
    requires -0x8000_0000_0000_0000 <= pos < 0x8000_0000_0000_0000
    requires -0x8000_0000_0000_0000 <= off < 0x8000_0000_0000_0000
    ensures var (ret, pos') := LlseekNext(d, pos, off, whence);
            var origin := if whence == 0 then 0 else if whence == 1 then pos else |StoredText(d)|;
            if 0 <= whence <= 2 && 0 <= origin + off < 0x8000_0000_0000_0000 then ret == pos' == origin + off
            else if 0 <= whence <= 2 && origin + off < -0x8000_0000_0000_0000 then
              ret == pos' == origin + off + 0x1_0000_0000_0000_0000
            else ret == -22 && pos' == pos
  {
    FlattenLength(Texts(d));
  }

  // ------------------------------------------------------------------- ioctl

  /** AESDCHAR_IOCSEEKTO = _IOWR(0x16, 1, struct aesd_seekto) */
  const IOCSEEKTO := 0xC008_1601

  /** struct aesd_seekto: two uint32_t */
  datatype SeekTo = SeekTo(writeCmd: nat, writeCmdOffset: nat)

  predicate SeekValid(sizes: seq<nat>, arg: SeekTo) {
    arg.writeCmd < |sizes| && arg.writeCmdOffset <= sizes[arg.writeCmd]
  }

  /** aesd_ioctl: value returned and new position. */
  function IoctlNext(d: Dev, pos: int, cmd: int, arg: SeekTo, copied: bool): (int, int) {
    if cmd != IOCSEEKTO then (-ENOTTY, pos)
    else if !copied then (-EFAULT, pos)
    else if !SeekValid(Sizes(Stored(d)), arg) then (-EINVAL, pos)
    else (0, ToInt(Position(Sizes(Stored(d)), arg.writeCmd, arg.writeCmdOffset)))
  }

  /**
   The ioctl succeeds exactly when the command is known, the request could be copied, the
   named write is stored and the offset is at most its size. The handle then stands at the
   place summed in an `int`; in every other case it stays where it is.
   */
  lemma IoctlExactly(d: Dev, pos: int, cmd: int, arg: SeekTo, copied: bool)
    ensures var (ret, pos') := IoctlNext(d, pos, cmd, arg, copied);
            var stored := Stored(d);
            && (ret == 0 <==> cmd == 0xC008_1601 && copied && arg.writeCmd < |stored|
                              && arg.writeCmdOffset <= stored[arg.writeCmd].size)
            && (ret != 0 ==> pos' == pos && ret == if cmd != 0xC008_1601 then -25 else if !copied then -14 else -22)
            && (ret == 0 ==>
                  && -0x8000_0000 <= pos' < 0x8000_0000
                  && (Sum(Sizes(stored[..arg.writeCmd])) + arg.writeCmdOffset - pos') % 0x1_0000_0000 == 0)
  {
    var stored := Stored(d);
    if arg.writeCmd < |stored| {
      assert Sizes(stored)[..arg.writeCmd] == Sizes(stored[..arg.writeCmd]);
      ToIntExactly(Position(Sizes(stored), arg.writeCmd, arg.writeCmdOffset));
    }
  }

  /**
   The ioctl reaches the requested command and offset exactly when their position fits the
   `int` it is summed in; then the lookup of the new position gives the request back.
   */
  lemma SeekThenLookup(d: Dev, pos: int, arg: SeekTo)
    requires SeekValid(Sizes(Stored(d)), arg)
    ensures var target := Position(Sizes(Stored(d)), arg.writeCmd, arg.writeCmdOffset);
            var (ret, pos') := IoctlNext(d, pos, IOCSEEKTO, arg, true);
            && ret == 0
            && (pos' == target <==> target < 0x8000_0000)
            && (target < 0x8000_0000 && arg.writeCmdOffset < Sizes(Stored(d))[arg.writeCmd] ==>
                  Locate(Sizes(Stored(d)), ToSize(pos')) == Some((arg.writeCmd, arg.writeCmdOffset)))
  {
    LookupInvertsSeek(Sizes(Stored(d)), Position(Sizes(Stored(d)), arg.writeCmd, arg.writeCmdOffset),
                      arg.writeCmd, arg.writeCmdOffset);
  }
}
