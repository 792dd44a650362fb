# The AESD character device and its socket server

This project models the behaviour of the AESD device and proves properties of it in Dafny.

The device keeps the ten most recent commands written to it. A command is what successive
writes deliver up to and including a write whose last byte is a newline. Reading gives the
stored commands one after the other; `llseek` and a seek ioctl move a handle within them. A
socket server stores each message it receives on the device and answers with what the device
then holds, or, for a text command that seeks, with the part from the requested place on.

## How the project is laid out

| file | content |
|---|---|
| `Sequences.dfy` | concatenation, sums, the window of the last ten |
| `Offsets.dfy` | byte position against (command, offset) |
| `Kernel.dfy` | allocator, error codes, and what the kernel decides during a call |
| `CircularBuffer.dfy` | the ring: its closed form, and the class that updates it in place |
| `History.dfy` | what a sequence of writes means: commands and an unfinished remainder |
| `DriverModel.dfy` | the device between calls and what a write makes of it, failures included |
| `FileOps.dfy` | read, llseek and ioctl, with the integer conversions of the C code |
| `DriverRuns.dfy` | runs: any interleaving of calls on any number of handles |
| `AesdDevice.dfy` | the driver as a class whose methods are proved against the transitions above |
| `SeekCommand.dfy` | prefix test, `strtok` and `atoi` of the text command |
| `Transfer.dfy` | receiving into a growing buffer, sending completely |
| `Server.dfy` | the connection threads as a state machine around the mutex, and its invariant |
| `ServerRuns.dfy` | what every schedule guarantees |
| `FileMode.dfy` | the reply when the server is built to keep messages in a file |
| `Connection.dfy` | one connection from lock to unlock, as methods over the driver class |

The kernel's decisions (an interrupted lock wait, no memory, a block that moves or grows in
place, a failed user copy, the value of bytes nobody wrote) are parameters of every call, so a
statement about all runs covers every success and failure path. A block is named by the number
of its allocation, which makes "freed exactly once" a statement about a whole run.

## What the code does not do

Six properties one would expect are false of the code. The model keeps the code as it is, and
for each there is the exact condition and an input that fails.

* After an append that fails, the pending bytes are freed but stay counted, and the next write
  lands outside its block. `DriverModel.BoundsExactly` says when a write leaves its block,
  `DriverModel.FailedAppendLeadsOutOfBounds` gives a run that does, and `DriverRuns.RunRefines`
  says that every state of a run represents its history if and only if no call of the run fails
  with bytes pending. Block ownership holds on all runs all the same.
* The ioctl sums sizes in an `int`. `FileOps.SeekThenLookup` says that the handle arrives where
  it should if and only if that place is below 2^31; `DriverRuns.SeekOverflows` gives a run of two
  writes that arrives at a negative position; `DriverRuns.PositionsNonNegative` is the statement for runs.
* The receive loop writes its terminator one byte past the buffer. `Transfer.OverrunExactly` says
  that this happens if and only if the first bytes to arrive are 512 of them ending in a newline;
  `Transfer.TerminatorOverruns` is such a chunk.
* The device is described as a list of lines, but a newline inside a write does not end a
  command. `History.LinesExactly` says that every command is one line, and nothing pending holds a
  newline, if and only if no accepted write has a newline before its last byte; `DriverRuns.RunHoldsLines`
  says it of every state of a run in which no call fails with bytes pending, and
  `History.TwoLinesOneCommand` gives a write of two lines.
* The server writes as much of a message as `strlen` counts, which `Transfer.CStringWhole` says is
  the whole message if and only if it has no NUL byte. `ServerRuns.ReplyIsStoredCommands` gives the
  reply for every message: the client's own message, if not empty, comes last if and only if what is
  written of it ends a line, and the reply reads as the last ten messages if and only if
  `History.SameLastTen` holds of those written. For messages of at least one byte that is, by
  `History.SameLastTenOfNonEmpty`: the last of at most ten ends a line, or each of the last eleven
  does. `ServerRuns.NulByteLosesMessage` gives a schedule in which one client is answered without
  its own message and the next with both glued together.
* A message of which nothing is written makes the driver look at the byte before its block when
  nothing is pending (aesd-char-driver/main.c:130). In the model that write does not happen and its
  thread keeps the mutex. `ServerRuns.ActBlockedExactly` says that a write that fits in memory is
  blocked in this case and no other; `ServerRuns.EmptyMessageSticks` gives a schedule, and
  `ServerRuns.NoDeadlock` says that it takes a NUL byte.

## Model

| member | source | states |
|---|---|---|
| `Offsets.LookupInvertsSeek` | aesd-char-driver/aesd-circular-buffer.c:42-53 | lookup of a position is (c, o) if and only if o lies inside command c and the ioctl's sum for (c, o) is that position: each is the inverse of the other |
| `Offsets.PositionInjective` | aesd-char-driver/main.c:223-244 | two places inside commands never have the same position |
| `Offsets.LookupDomain` | aesd-char-driver/aesd-circular-buffer.c:26-28 | a position is found exactly when it is below the stored total |
| `Offsets.SeekToEndOfCommand` | aesd-char-driver/main.c:238-242 | an offset equal to the size is the start of the next command, or the end of data for the last |
| `Offsets.EvictionShift` | aesd-char-driver/aesd-circular-buffer.c:66-92 | what an add does to the answer for every position: nothing below capacity, a shift by the evicted size at capacity, the last positions in the new entry |
| `CircularBuffer.ReadsInOrder` | aesd-char-driver/aesd-circular-buffer.c:70-91 | after any adds the slots from `out_offs` on are the ten last entries, oldest first, then empty slots |
| `CircularBuffer.SlotHoldsNewest` | aesd-char-driver/aesd-circular-buffer.c:70-89 | closed form: each slot holds the most recent entry whose number is congruent to it modulo ten |
| `CircularBuffer.OccupiedWindow` | aesd-char-driver/aesd-circular-buffer.h:33-52 | the occupied slots are the window from `out_offs` up to `in_offs`; `full` means ten; the offsets meet exactly when empty or full |
| `CircularBuffer.LayoutAfterAdd` | aesd-char-driver/aesd-circular-buffer.c:70-89 | one more add keeps the closed form, in both branches |
| `CircularBuffer.NextSlot` | aesd-char-driver/aesd-circular-buffer.c:70-84 | the NULL test that chooses the branch agrees with `full`, and at capacity the slot holds the oldest entry |
| `CircularBuffer.PhysicalTotalIsStoredTotal` | aesd-char-driver/aesd-circular-buffer.h:75-78 | the array-order sum is the stored total for every rotation and fill level |
| `CircularBuffer.CircularBuffer.constructor` | aesd-char-driver/aesd-circular-buffer.c:97-100 | the initialised ring is the one with no adds |
| `CircularBuffer.CircularBuffer.FindEntryOffsetForFpos` | aesd-char-driver/aesd-circular-buffer.c:30-55 | the loop finds the slot and offset of the position, and leaves the out-pointer alone when there is none |
| `CircularBuffer.CircularBuffer.AddEntry` | aesd-char-driver/aesd-circular-buffer.c:66-92 | append, dropping the oldest of ten; returns the dropped pointer or NULL |
| `CircularBuffer.CircularBuffer.TotalSize` | aesd-char-driver/main.c:182-186 | the loop over all slots yields the stored total |
| `History.HistoryConserved` | aesd-char-driver/main.c:129-146 | commands followed by the remainder are all accepted bytes in order: nothing lost, duplicated or reordered |
| `History.CutAfterLine` | aesd-char-driver/main.c:129-146 | a write that ends a line ends a command made of exactly what was pending and itself, and separates what comes before from what comes after |
| `History.NoCutWithoutLine` | aesd-char-driver/main.c:143-146 | writes that do not end a line only accumulate, whatever newlines they contain |
| `History.LinesExactly` | aesd-char-driver/main.c:129-146 | commands are single lines and the remainder free of newlines if and only if no write has a newline before its last byte |
| `History.TwoLinesOneCommand` | aesd-char-driver/main.c:129-146 | a write of two lines is stored as one command |
| `History.CommandsAreWritesExactly` | aesd-char-driver/main.c:129-146 | the commands are the writes if and only if every write ends a line |
| `History.SameLastTenExactly` | aesd-char-driver/main.c:129-146 | the last ten commands read the same as the last ten writes if and only if nothing is pending and, with more than ten writes, nothing was pending before the last ten and each of these ends a line or nothing came before |
| `History.SameLastTenOfNonEmpty` | aesd-char-driver/main.c:129-146 | for writes of at least one byte: the last of at most ten ends a line, or each of the last eleven does |
| `History.OwnWriteLast` | aesd-char-driver/main.c:129-146 | the stored commands end in the newest write, if it has a byte, exactly when it ends a line |
| `DriverModel.WriteNext` | aesd-char-driver/main.c:89-160 | on every path the live blocks stay exactly the stored ones and the working one, all distinct, and every block is live or freed once |
| `DriverModel.WriteRefines` | aesd-char-driver/main.c:100-157 | a write keeps ring and working entry equal to the history if and only if it does not fail with bytes pending |
| `DriverModel.WriteOutcome` | aesd-char-driver/main.c:129-149 | a successful write commits pending bytes and buffer together if they end a line, and keeps them otherwise |
| `DriverModel.FailedWrite` | aesd-char-driver/main.c:97-157 | a failed write leaves commands and history alone, gives up the pending bytes, keeps their count, and returns the code of its cause |
| `DriverModel.CommitRefines` | aesd-char-driver/main.c:133-142 | a commit stores the working block as the newest command with `size` equal to its allocation and drops the oldest of ten |
| `DriverModel.BoundsExactly` | aesd-char-driver/main.c:122-130 | copy and last-byte test leave the working block exactly when bytes are counted that no block holds |
| `DriverModel.FailedAppendLeadsOutOfBounds` | aesd-char-driver/main.c:153-155 | three calls after which a write lands outside its block |
| `FileOps.ReadDeliversText` | aesd-char-driver/main.c:63-82 | a read delivers the stored text at its position, and nothing exactly when nothing is asked for or at or past the end |
| `FileOps.ReadWithinCommand` | aesd-char-driver/main.c:68-78 | one read ends at its count or at the end of its command, whichever is first |
| `FileOps.FailedReadStays` | aesd-char-driver/main.c:60-82 | a read fails exactly when its lock wait is interrupted, or there is something to copy and the copy fails, with the code of its cause; it then delivers nothing; every read moves by exactly what it delivers |
| `FileOps.DrainDeliversRest` | aesd-char-driver/main.c:63-82 | reads with any positive counts deliver the text from the start position on, and as many reads as bytes are left reach the end |
| `FileOps.LlseekLands` | aesd-char-driver/main.c:163-196 | llseek goes to origin plus offset exactly when that is a position, and otherwise fails without moving, wrap-around included |
| `FileOps.SeekEndThenDrain` | aesd-char-driver/main.c:180-195 | seeking k back from the end and draining returns exactly the last k bytes |
| `FileOps.IoctlExactly` | aesd-char-driver/main.c:211-250 | success exactly for the known command, a request that could be copied, a stored write and an offset of at most its size, with the handle at the sum reduced to an `int`; otherwise the handle stays where it is and the code is that of the cause |
| `FileOps.SeekThenLookup` | aesd-char-driver/main.c:211-245 | a valid request succeeds; the handle stands at its place if and only if that fits an `int`, and the lookup of the handle then gives the request back |
| `FileOps.ToIntExactly` | aesd-char-driver/main.c:209-244 | the conversion to `int` gives the one 32-bit value congruent to the sum |
| `FileOps.ToLoffExactly` | aesd-char-driver/main.c:174-195 | the same for `loff_t` |
| `FileOps.ToSizeExactly` | aesd-char-driver/main.c:65 | the same for `size_t`, in which a position is looked up |
| `DriverRuns.After` | aesd-char-driver/main.c:89-160 | ownership of blocks in every reachable state |
| `DriverRuns.StepFrame` | aesd-char-driver/main.c:255-263 | which calls can happen; each concerns its own handle only, a write moves no handle, only a write changes the device, and a call that cannot happen changes nothing |
| `DriverRuns.OwnHandleAfterLlseek` | aesd-char-driver/main.c:163-196 | in a run a call of llseek leaves its own handle at origin plus offset when that is a position, and where it was when it is refused |
| `DriverRuns.OwnHandleAfterRead` | aesd-char-driver/main.c:56-87 | in a run a read of any count moves its own handle by the bytes delivered, which are the stored text from there on |
| `DriverRuns.OwnHandleAfterIoctl` | aesd-char-driver/main.c:202-253 | in a run an ioctl leaves its own handle at the place asked for when it is accepted, and where it was when it is refused |
| `DriverRuns.HeapOverRuns` | aesd-char-driver/main.c:101-157 | a freed block is never live or freed again, every allocated block is held or was freed once |
| `DriverRuns.RunRefines` | aesd-char-driver/main.c:100-157 | every state of a run holds the last ten commands and the remainder of its history if and only if no call fails with bytes pending |
| `DriverRuns.RunStaysInBounds` | aesd-char-driver/main.c:101-130 | on such runs every write stays inside its block |
| `DriverRuns.LinesKept` | aesd-char-driver/aesd-circular-buffer.h:19 | when every accepted write is a line, the device stores the last ten of them, all if there are no more |
| `DriverRuns.AbsoluteAddressing` | aesd-char-driver/main.c:63-87 | on a run that drops nothing, with E the sizes of the entries the ring has displaced, a read at p delivers bytes E+p onward of everything ever accepted, nothing exactly when none is asked for, at a negative position or past the end, and E plus the stored bytes is all that was committed |
| `DriverRuns.AddressesAreStable` | aesd-char-driver/main.c:129-146 | an absolute address keeps its byte for the rest of a run |
| `DriverRuns.PositionsNonNegative` | aesd-char-driver/main.c:193-244 | no position is ever negative if and only if no seek of the run wraps below zero |
| `DriverRuns.SeekOverflows` | aesd-char-driver/main.c:209-244 | a run of two writes without failures whose accepted seek leaves a handle at -2^31 |
| `DriverRuns.RunHoldsLines` | aesd-char-driver/main.c:129-146 | every state of a run that drops nothing is a list of lines if and only if no accepted write has a newline inside |
| `AesdDevice.AesdDevice.Read` | aesd-char-driver/main.c:53-87 | value returned, bytes and handle are those of the read transition; no freed block is touched |
| `AesdDevice.AesdDevice.Write` | aesd-char-driver/main.c:89-160 | device and value returned are those of the write transition on every path; nothing is freed twice |
| `AesdDevice.AesdDevice.Llseek` | aesd-char-driver/main.c:163-196 | value returned and handle are those of the llseek transition |
| `AesdDevice.AesdDevice.SizeOfPreceding` | aesd-char-driver/main.c:222-229 | the loop's wrapped sum is the wrapped sum of the preceding sizes, and it fails exactly when one of them is missing |
| `AesdDevice.AesdDevice.Ioctl` | aesd-char-driver/main.c:202-253 | value returned and handle are those of the ioctl transition; 0 exactly when the command is known, the copy succeeds, the write is stored and the offset at most its size, and otherwise an error with the handle left alone |
| `AesdDevice.AesdDevice.CleanupModule` | aesd-char-driver/main.c:309-330 | afterwards every block ever allocated has been freed exactly once |
| `SeekCommand.ParseFailsExactly` | server/aesdsocket.c:537-546 | a seek message is refused exactly when fewer than two tokens follow the prefix |
| `SeekCommand.IsSeekExactly` | server/aesdsocket.c:537 | a message seeks exactly when its first 19 characters are those of the command |
| `SeekCommand.AtoiReads` | server/aesdsocket.c:549-550 | white space, a sign, leading zeros and a number read as the signed number, whatever follows that is no digit; a token without digits as 0 |
| `SeekCommand.ParseReads` | server/aesdsocket.c:538-555 | a seek message asks for the values of its first two tokens as unsigned 32-bit numbers, however many commas stand before and between them and whatever follows |
| `SeekCommand.ParseCovers` | server/aesdsocket.c:538-555 | every seek message that can be parsed has that form |
| `SeekCommand.SeekRoundTrip` | server/aesdsocket.c:537-555 | printing X and Y into the command and parsing it gives (X, Y), for all X and Y an `int` holds |
| `Transfer.RecvDynamic` | server/aesdsocket.c:440-489 | the loop ends as the events say, with the received bytes at the head of the buffer and a terminator behind them unless it has no room |
| `Transfer.OutcomeExactly` | server/aesdsocket.c:448-486 | for every sequence of events: the message up to the first bytes that end in a newline if no shutdown or failed recv comes before, nothing if one does, no end otherwise |
| `Transfer.OverrunExactly` | server/aesdsocket.c:443-477 | the terminator has no room exactly when the first bytes to arrive are 512 of them ending in a newline |
| `Transfer.StoreChunk` | server/aesdsocket.c:471-485 | one chunk is stored in bounds, and the buffer has room for the next |
| `Transfer.Reassembles` | server/aesdsocket.c:448-486 | a message whose only newline is its last byte is received whole for every cut into chunks and every pattern of would-block |
| `Transfer.TerminatorOverruns` | server/aesdsocket.c:443-477 | a first chunk of 512 bytes that is a line has no room for its terminator |
| `Transfer.CStringOfBuffer` | server/aesdsocket.c:571 | the C string of the buffer is that of the message, whatever lies behind the terminator |
| `Transfer.CStringWhole` | server/aesdsocket.c:571 | `strlen` counts the whole message if and only if it has no NUL byte |
| `Transfer.SendAll` | server/aesdsocket.c:106-120 | a prefix of reported length is sent; it is the whole buffer, and the result 0, exactly when no send fails |
| `FileMode.ReadLine` | server/aesdsocket.c:78-101 | the line up to its newline, NULL only at the end of the file, every write inside the doubling buffer |
| `FileMode.LinesClean` | server/aesdsocket.c:78-101 | no line of the split has a newline in it |
| `FileMode.LinesJoin` | server/aesdsocket.c:78-101 | ending each line of the split gives the file back, its last line ended |
| `FileMode.KeptExactly` | server/aesdsocket.c:588-613 | the reply, without splitting: the file, its last line ended, without its empty lines |
| `FileMode.SendLine` | server/aesdsocket.c:591-609 | a line and then a newline are sent, both exactly when no send fails, else a prefix |
| `FileMode.Reply` | server/aesdsocket.c:588-613 | the client receives the lines of the split that have something in them, each ended, all of them exactly when no send fails, else a prefix |
| `Server.ActWriteKeeps` | server/aesdsocket.c:568-581 | the write of a thread keeps the invariant: its own message, as `strlen` counts it, is the newest write of the device |
| `Server.ActSeekKeeps` | server/aesdsocket.c:548-567 | the seek of a thread keeps the invariant, accepted or refused |
| `Server.ReadAdvances` | server/aesdsocket.c:625-635 | each read continues the reply exactly where it was, and an empty one proves it complete |
| `Server.SendStep` | server/aesdsocket.c:106-120 | a thread can hand over any part of what it has read, at least one byte |
| `Server.StepKeepsInv` | server/aesdsocket.c:493-653 | every step of every thread keeps the invariant |
| `ServerRuns.ReplyIsStoredCommands` | server/aesdsocket.c:514-652 | under every schedule and for every message a finished client has received the commands stored just after its own write; its own message is last exactly when what was written of it ends a line, and the reply reads as the last ten messages exactly under `SameLastTen` |
| `ServerRuns.ReplyIsLastTenMessages` | server/aesdsocket.c:514-652 | when no NUL byte is received, a finished client has received the last ten messages as of its own write, its own last |
| `ServerRuns.NulByteLosesMessage` | server/aesdsocket.c:571 | a schedule of two clients that both finish: one, with a NUL byte in its message, is answered without it, and the next with both messages glued together |
| `ServerRuns.ReplyToSeek` | server/aesdsocket.c:536-567 | a finished seek client has received the stored commands from the requested place on, wherever the `int` sum puts it: the place itself below 2^31, and no bytes of the driver if the sum is negative |
| `ServerRuns.ReplyToSeekText` | server/aesdsocket.c:536-567 | the same for any text that can be parsed: with X and Y the values of its tokens, all but the sizes before command X and Y more bytes |
| `ServerRuns.RefusedOnlyIfInvalid` | server/aesdsocket.c:540-564 | a refused client had sent the command, and it could not be parsed or named nothing stored at its own instant |
| `ServerRuns.ActDispatches` | server/aesdsocket.c:537-581 | a message that starts with the 19 characters of the command leaves the device unchanged and is refused exactly when it cannot be parsed or names nothing stored; every other one is accepted and written as it is |
| `ServerRuns.NegativeSeekRefused` | server/aesdsocket.c:549-558 | a negative X or Y asks for its value plus 2^32 and is refused: X always, Y as long as no command is 2^31 bytes long |
| `ServerRuns.RepliesAreNotTorn` | server/aesdsocket.c:515-650 | between lock and unlock no other thread changes device, handles, mutex or the holder |
| `ServerRuns.MutualExclusion` | server/aesdsocket.c:515-650 | at most one thread is between lock and unlock |
| `ServerRuns.JobInstant` | server/aesdsocket.c:557-571 | the instant a reply or refusal refers to is that of the thread's own write or seek |
| `ServerRuns.MessageReceived` | server/aesdsocket.c:507-571 | what a thread handles is what it received, up to the first NUL byte |
| `ServerRuns.HistoryIsWrites` | server/aesdsocket.c:570-571 | every message on the device was written by one step of the thread that has it, and none starts with the command |
| `ServerRuns.WritesAreDistinct` | server/aesdsocket.c:570-571 | two clients are never answered for the same write |
| `ServerRuns.SomeStepEnabled` | server/aesdsocket.c:515-652 | while a thread has not finished, and no open thread is blocked in its write, some step is possible, and by the mutex holder if there is one |
| `ServerRuns.ActBlockedExactly` | server/aesdsocket.c:571 | a write that fits in memory is blocked exactly when it has no byte and nothing is pending |
| `ServerRuns.EmptyMessageSticks` | server/aesdsocket.c:571 | a message that starts with NUL, sent first, leaves no thread a step |
| `ServerRuns.LinesCanAct` | server/aesdsocket.c:570-571 | when only lines were received, every message in hand that fits in memory can be written |
| `ServerRuns.NoDeadlock` | server/aesdsocket.c:515-652 | when no NUL byte is received and memory lasts, an unfinished thread means some step is possible |
| `ServerRuns.HolderFinishes` | server/aesdsocket.c:625-650 | every step of the holder reduces a bound on the steps left to its unlock |
| `ServerRuns.OwnStepsBounded` | server/aesdsocket.c:515-650 | in no schedule does the holder take more steps than the bound |
| `ServerRuns.HolderReleases` | server/aesdsocket.c:515-650 | every schedule that gives the holder as many turns as the bound releases the mutex on the way |
| `ServerRuns.ReleaseSchedule` | server/aesdsocket.c:515-652 | the holder alone can be brought to its end within the bound, with its message written, its reply due from that instant, and the mutex free |
| `ServerRuns.ServeSchedule` | server/aesdsocket.c:515-652 | the same for a waiting thread when the mutex is free |
| `ServerRuns.ServerRunIsDriverRun` | server/aesdsocket.c:527-646 | every schedule is a run of the driver in which no call fails with bytes pending |
| `Connection.Serve` | server/aesdsocket.c:524-652 | the critical section over the driver class completes exactly when the request is accepted and no send fails; then the client has exactly the answer, after a failed send a prefix, after a refusal nothing |
| `Connection.AcceptsExactly` | server/aesdsocket.c:537-558 | a message that does not start with the command is always accepted, another exactly when it can be parsed and names stored bytes |
| `Connection.HandleMessage` | server/aesdsocket.c:493-653 | from the chunks on the socket to the reply: a message that does not start with the command is written and, if no send fails, answered with the stored commands; one that does leaves the device unchanged |

## Left out

- The allocator's own limit on a block and the kernel's on one call: sizes are bounded by neither, though `DriverRuns.SeekOverflows` stays below the limit of one call.
- A read at a negative position: the kernel refuses it before the driver sees it, and the server, which tests only for 0, goes on with a length of -1; the model gives the driver's own answer, which is end of data.
- Write with no byte to look at: a write of length 0 with nothing pending reads the byte before its block (aesd-char-driver/main.c:130), so the write operations require at least one byte.
- What a write outside its block destroys: such bytes are dropped, and bytes read outside a block are arbitrary; only ownership and counts are followed from there.
- The `int` counters of the server (`cap` and `next` in `read_line`, `total` and `bytesleft` in `sendAll`, `pos` in `recv_dynamic`) are unbounded: a message, line or buffer near 2^31 bytes overflows them.
- `size_t` is unbounded where it counts bytes held in memory; conversions to `int`, `uint32_t`, `loff_t` and from `loff_t` to `size_t` are modelled.
- `atoi` of a number that no `int` holds is undefined in C; the model reduces it to 32 bits.
- Server.Enabled: a write of the server has a byte to look at and succeeds only while the stored bytes stay below 2^63, the size of an address space.
- Failing calls inside the server (open, read, malloc, mutex): the thread exits without closing device or socket; the state machine follows the error exits of the seek only, `Connection.Serve` also that of a failed send.
- A connection that the peer closes before the message ends is polled for ever by the receive loop; receiving then has no outcome.
- Seek and ioctl from outside the server: they take no lock, so the driver runs treat every call as one step, which the server's mutex guarantees for the server.
- Registration of the module and its device, `aesd_open` and `aesd_release` beyond a handle that starts at 0.
- Server start-up, daemon mode, signals, shutdown, logging, and the loop that joins finished threads, which continues from an entry it has just freed.
- File mode beyond its reply, and its timer: not used in the configured build.
- The other programs of the repository (`examples`, `finder-app`, scripts): process and file wrappers.
