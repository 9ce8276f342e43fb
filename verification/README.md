# HelloX user-space library and JerryScript snapshots: a verified model

This project models the algorithms of HelloX's user-space library `hxlib` and of the JerryScript snapshot code, and
proves what they promise. Run `dafny verify dfyconfig.toml` to check all of it.

The machine is the 32-bit x86 target: `int` and `long` have 32 bits, `long long` and `time_t` 64, words are
little-endian. Wrapping is written out wherever the code can reach it.

| files | what they model |
|---|---|
| `CTypes`, `Options`, `Allocation` | the integer types, values that may be absent, and requests for memory that may be refused |
| `MqRing`, `MqProtocol`, `MqTable` | POSIX message queues: the ring in one byte buffer, the protocol of two semaphores and a mutex under any interleaving of any number of threads, and the reference-counted descriptor table |
| `BinSem` | the binary semaphore with flush: a monitor with a generation counter, competing takers and spurious wakeups |
| `Bytes`, `ByteCode`, `CodeTree`, `SnapshotSave`, `SnapshotOffsets`, `SnapshotLoad`, `Snapshot` | JerryScript snapshots, byte for byte: the recursive writer into a flat buffer, the linear pass that patches literal slots, the recursive loader, and the round trip |
| `Shifts`, `Ieee`, `Sqrt`, `Fmod`, `Floor` | floating point in 32-bit words; magnitudes are exact integers in units of 2^-1074 |
| `QSort`, `Dirent` | Bentley-McIlroy quicksort, and directory streams with `scandir` on top of it |
| `Calendar`, `Clock` | the two date algorithms and `gmtime` against a day-by-day calendar; counter conversions and `nanosleep` |
| `Strchr`, `Numerals`, `Rand`, `Division` | word-at-a-time search, `strtol` against `itoa`, the random generator, 64-bit software division |

Concurrent code is a state machine whose steps are the code between two scheduling points; a run is any sequence of
events. The semaphore, mutex and condition variable contracts are those of `hxlib/pthread_sem.c` and of POSIX. Code that
works in place is a class or a method on arrays, proved against a function or a relation whose meaning is then proved.

Where the code does not meet its own documentation, the model keeps the code, and a member states exactly when the
documented behaviour holds:

- a flush is missed by a take that 2^32 flushes pass by (`BinSem.FlushDecides`; such a run: `BinSem.WrappedFlushIsMissed`);
- `mq_open` multiplies the two sizes in 32 bits, and sends overrun the buffer when that wraps (`MqTable.CreatedOverruns`;
  such sizes: `MqTable.ShortBuffer`);
- positions in a directory are hashes (`Dirent.AllPositionsRestored`; such names: `Dirent.NamesCollide`,
  `Dirent.UnnamedCollide`), and `rewinddir` leaves a stream at its end after a seek to the end (`Dirent.DirStream.Rewind`;
  `Dirent.EndThenRewind`);
- `gmtime` looks at the low 32 bits of a 64-bit time, but takes the weekday from all of them (`Calendar.GmTime`; such a
  time: `Calendar.BeyondLowBits`), and the encoders move the time by 25200 seconds (`Calendar.DescribeThenEncode`);
- `nanosleep` reports success when a counter read fails while it spins (`Clock.Machine.Nanosleep`; such reads:
  `Clock.EarlySuccess`), and its request wraps in 64 bits (`Clock.TargetIsExact`; such a request: `Clock.WrappedRequest`), and so do the milliseconds
  of a sleep in 32 bits, so that it spins where it should sleep (`Clock.CoarseSleepIs`; such a rest: `Clock.LongRestSpins`);
- `strtol` does not give back what `itoa` writes for negative numbers in other radices (`Numerals.RoundTrip`),
  and finds no number in a prefix `0x` without a digit, where C11 has 0 (`Numerals.StrtolReads`, `Numerals.BarePrefix`);
- the quotient of the smallest number by -1 does not fit (`Division.Div`).

## Model

| member | source | states |
|---|---|---|
| `MqRing.EnqueueAppends` | hxlib/mq.c:309-315 | a send into a queue with room keeps the ring well formed and makes its contents the old contents followed by the message |
| `MqRing.DequeueTakesOldest` | hxlib/mq.c:363-369 | a receive from a non-empty queue returns the oldest message, byte for byte, and leaves the rest in order |
| `MqRing.OtherSlot` | hxlib/mq.c:310-312 | writing one slot leaves the bytes of every other slot as they were |
| `MqRing.QueueBuffer.EnqueueLocked` | hxlib/mq.c:309-315 | the in-place code leaves exactly the ring that `Enqueue` describes |
| `MqRing.QueueBuffer.DequeueLocked` | hxlib/mq.c:363-369 | the in-place code returns exactly the message and leaves exactly the ring that `Dequeue` describes |
| `MqProtocol.RunInv` | hxlib/mq.c:292-317 | the whole invariant (ring, mutex, tokens, history) holds after every schedule of any number of threads |
| `MqProtocol.Conservation` | hxlib/mq.c:292-317 | free slots + messages + tokens held by threads between taking one semaphore and posting the other = mq_maxmsg in every reachable state; a copy into the ring always finds a free slot, a copy out always finds a message; one thread at most is inside the mutex |
| `MqProtocol.Fifo` | hxlib/mq.c:309-317 | over every run the messages received are a prefix of those sent, the rest is exactly the contents of the ring, and tail = (head + mq_curmsgs) mod mq_maxmsg |
| `MqProtocol.HistoryGrows` | hxlib/mq.c:309-317 | what has been sent or received stays so, in the same order, however the run goes on |
| `MqProtocol.GiveUpLeavesNoTrace` | hxlib/mq.c:292-307 | a timed out or refused call leaves no trace: taking its beginning and its end out of any schedule, whatever the other threads do before, meanwhile and after, leads to the same ring, semaphores, mutex, threads and histories |
| `MqProtocol.OverrunIffShort` | hxlib/mq.c:309-311 | some run of sends copies a message beyond the end of the buffer if and only if the buffer is smaller than all slots together |
| `MqProtocol.ReceiverGetsOldest` | hxlib/mq.c:363-378 | in every run the message that a receive copies and returns, whatever happens until it returns, is the oldest one in the ring when it copies, and stands at its place in the history |
| `MqProtocol.SenderSendsItsMessage` | hxlib/mq.c:309-315 | in every run what a send puts into the ring and into the history is the message that it was called with, whatever happens until it copies |
| `MqProtocol.SendGoesThrough` | hxlib/mq.c:292-319 | with the mutex free a send into a queue with room goes through, leaving one message more, one free slot less and everything else as it was; it has to wait exactly if there is no room |
| `MqProtocol.ReceiveGoesThrough` | hxlib/mq.c:346-378 | the same for a receive, which takes the oldest message and has to wait exactly if there is none |
| `MqProtocol.Quiescent` | hxlib/mq.c:292-317 | with nobody inside an operation the semaphores are exactly mq_curmsgs and mq_maxmsg - mq_curmsgs, and the mutex is free |
| `MqProtocol.OnlyFullOrEmptyBlocks` | hxlib/mq.c:292-317 | no deadlock: if nobody can move, every waiting sender faces a full queue and every waiting receiver an empty one |
| `MqProtocol.PostIsExact` | hxlib/pthread_sem.c:199-214 | the kernel's cap on a semaphore count is never reached by a post, so no token is lost |
| `MqTable.TableInvariant` | hxlib/mq.c:98-173 | over every sequence of opens, closes and unlinks a name is linked to at most one slot, a slot's refcount is the number of its outstanding opens, and its storage exists exactly while that is positive |
| `MqTable.Frame` | hxlib/mq.c:98-236 | a call leaves every slot that it neither names nor creates as it was |
| `MqTable.UnlinkHides` | hxlib/mq.c:241-265 | unlinking removes the name at once and changes nothing else of the open queue |
| `MqTable.RecreatedIsSeparate` | hxlib/mq.c:130-173 | a queue recreated under an unlinked name gets another slot with empty storage, and the old queue is untouched |
| `MqTable.OpenLinked` | hxlib/mq.c:98-116 | opening a linked name without O_EXCL returns its descriptor, counts one open more, adds O_NONBLOCK, and changes nothing else; with O_EXCL it is EEXIST and nothing changes |
| `MqTable.OpenBadName` | hxlib/mq.c:85-96 | EINVAL without a name or a leading slash, ENAMETOOLONG for a name of more than 256 characters |
| `MqTable.OpenAbsentRefused` | hxlib/mq.c:118-142 | for a name that is linked nowhere: ENOENT without O_CREAT, else EINVAL without positive attributes, else ENFILE with a full table |
| `MqTable.OpenAbsentCreates` | hxlib/mq.c:144-205 | with a free slot, exactly when ENOMEM, ENOSPC and success are returned, what the new queue holds, and that a failed creation leaves the slot free |
| `MqTable.UnlinkAnswers` | hxlib/mq.c:241-265 | EINVAL for a bad name, ENOENT for an absent one; otherwise the one slot with the name is unlinked and nothing else changes |
| `MqTable.CloseAnswers` | hxlib/mq.c:211-236 | EBADF for a descriptor that is not open; otherwise one open less with name, flags and, while opens remain, storage unchanged; the last close frees slot and storage |
| `MqTable.CreatedStartsProtocol` | hxlib/mq.c:147-173 | a created queue is an initial state of the send and receive protocol if and only if mq_maxmsg * mq_msgsize does not wrap in the 32-bit size passed to malloc |
| `MqTable.CreatedOverruns` | hxlib/mq.c:147-173 | some run of sends on a created queue leaves its buffer if and only if that product wraps |
| `MqTable.ShortBuffer` | hxlib/mq.c:147-173 | eight messages of 2^29 + 1 bytes get a buffer of 8 bytes, and a run leads to a first message of 9 bytes that leaves it |
| `MqTable.QueueTable.MqOpen` | hxlib/mq.c:67-206 | the searching loops leave exactly the table and return exactly the descriptor or error that `Open` describes, including every failing initialisation |
| `MqTable.QueueTable.MqClose` | hxlib/mq.c:211-236 | the same for `Close` |
| `MqTable.QueueTable.MqUnlink` | hxlib/mq.c:241-265 | the same for `Unlink` |
| `BinSem.RunInv` | hxlib/binsem.c:106-201 | the whole invariant holds after every interleaving of givers, takers and flushers with spurious wakeups |
| `BinSem.NoLostWakeup` | hxlib/binsem.c:119-174 | whenever the mutex is free every sleeping taker has captured the current generation, and if val is 1 while somebody sleeps, some awake taker only has to be scheduled to consume it |
| `BinSem.Conservation` | hxlib/binsem.c:106-175 | val is 0 or 1, and the gives that raised it are the takes that consumed it plus val |
| `BinSem.FlushDecides` | hxlib/binsem.c:143-174 | in every reachable state a taker holding the mutex leaves empty-handed if and only if the flushes since its capture are not a multiple of 2^32; otherwise it consumes a raised val, or sleeps and frees the mutex |
| `BinSem.CaptureIsCurrent` | hxlib/binsem.c:136-143 | a take captures the generation, and the number of flushes, of the moment at which it first holds the mutex |
| `BinSem.FlushBodiesCount` | hxlib/binsem.c:195-197 | the flushes are counted, and the generation moved, by the bodies of flushers and by nothing else |
| `BinSem.UndisturbedTakeConsumes` | hxlib/binsem.c:143-174 | a take with no flush since it first held the mutex, whatever else has happened in between, consumes a val of 1 and sleeps on 0 whenever it looks |
| `BinSem.FreshTakeDecides` | hxlib/binsem.c:143-174 | in particular at its first look, however many flushes went before |
| `BinSem.GiveRaises` | hxlib/binsem.c:119-123 | a give leaves val at 1, and goes on to signal exactly if it was 0 |
| `BinSem.SignalLetsGo` | hxlib/binsem.c:119-123 | the signal of a give wakes a sleeper if there is one and disturbs nobody who is awake |
| `BinSem.FlushedTakeConsumesNothing` | hxlib/binsem.c:160-169 | with fewer than 2^32 flushes during one take, a take overtaken by a flush returns without consuming |
| `BinSem.WrappedFlushIsMissed` | hxlib/binsem.c:195-197 | a reachable run in which exactly 2^32 flushes pass during one take, which then consumes as if there had been none |
| `BinSem.FlushWakesAll` | hxlib/binsem.c:195-199 | a broadcast leaves nobody asleep and val as it was |
| `BinSem.Semaphore.GiveLocked` | hxlib/binsem.c:119-123 | in any state of the protocol in which a thread gives under the mutex, the code leaves the fields that the thread's step leaves, and signals exactly if that step goes on to signal, which is if it has raised val |
| `BinSem.Semaphore.TakeLocked` | hxlib/binsem.c:153-171 | the same for a take: the fields, and whether the thread sleeps, leaves empty-handed or leaves having consumed |
| `BinSem.Semaphore.FlushLocked` | hxlib/binsem.c:197-197 | the same for a flush, after which the broadcast is due |
| `ByteCode.ImageAt` | JerryEngine/JerryEngine/jerry-snapshot.c:150-158 | copying the bytes of a block puts a block with the same header, literal slots and instructions into memory, in either header layout |
| `ByteCode.HeaderBytes` | JerryEngine/JerryEngine/jerry-snapshot.c:150-158 | the bytes of the header, field by field, in the narrow and in the wide layout |
| `ByteCode.ReadBack` | JerryEngine/JerryEngine/jerry-snapshot.c:322-355 | reading a block through the struct that its flags select gives the block back |
| `ByteCode.SlotWrite` | JerryEngine/JerryEngine/jerry-snapshot.c:184-200 | storing into one literal slot changes that slot of the block and nothing else |
| `CodeTree.StoredFrame` | JerryEngine/JerryEngine/jerry-snapshot.c:108-202 | whether a tree stands at a place in a snapshot depends on its own bytes only |
| `CodeTree.HeapGrows` | JerryEngine/JerryEngine/jerry-snapshot.c:413-434 | objects already built stay built while the loader allocates more |
| `SnapshotSave.Writer.Write` | JerryEngine/JerryEngine/jerry-snapshot.c:49-66 | data is copied and the offset advanced exactly if it fits; otherwise nothing changes |
| `SnapshotSave.Writer.AddRegexp` | JerryEngine/JerryEngine/jerry-snapshot.c:96-145 | a regular expression is stored as its source behind a six byte header, with its length in refs, and the offset aligned; an error exactly if it does not fit |
| `SnapshotSave.Writer.AddCompiledCode` | JerryEngine/JerryEngine/jerry-snapshot.c:73-203 | a tree is stored contiguously, root first, with child slots holding the offsets where the children really stand and the own offset for self-references; an error is raised exactly if some part does not fit or some offset exceeds 16 bits, and nothing below the start is written |
| `SnapshotSave.Writer.AddChild` | JerryEngine/JerryEngine/jerry-snapshot.c:184-200 | one round of the loop over the child slots keeps everything stored so far |
| `SnapshotOffsets.PassTree` | JerryEngine/JerryEngine/jerry-snapshot.c:215-296 | the linear pass, which knows only block sizes, visits a stored tree block by block, patches it as a whole, and goes on behind it |
| `SnapshotOffsets.PassPatches` | JerryEngine/JerryEngine/jerry-snapshot.c:215-296 | so the pass over the area of a stored tree ends exactly at its end and leaves the patched tree |
| `SnapshotOffsets.MapLiterals` | JerryEngine/JerryEngine/jerry-snapshot.c:251-286 | a loop over literal slots replaces each identifier by the offset of its first entry |
| `SnapshotOffsets.ClearRegisters` | JerryEngine/JerryEngine/jerry-snapshot.c:269-272 | a loop over register slots empties them |
| `SnapshotOffsets.PatchFunction` | JerryEngine/JerryEngine/jerry-snapshot.c:221-291 | one block patched in place is the block that `PatchAt` describes |
| `SnapshotOffsets.BlockPatchedSlots` | JerryEngine/JerryEngine/jerry-snapshot.c:248-290 | which slots of a block keep a literal, as an offset, and which are emptied, by the bits and ends in its header; and that the reference count becomes 1 |
| `SnapshotOffsets.OffsetOfFirst` | JerryEngine/JerryEngine/jerry-snapshot.c:253-262 | the offset is that of the first entry with the identifier |
| `SnapshotOffsets.SetOffsets` | JerryEngine/JerryEngine/jerry-snapshot.c:209-297 | the loop in place leaves exactly the outcome of the pass |
| `SnapshotLoad.Engine.Load` | JerryEngine/JerryEngine/jerry-snapshot.c:316-437 | loading a stored tree builds, in new objects only, the tree with its offsets mapped back, self-references pointing to the new object itself; for any script of refusals, it fails if a request for memory is refused, and otherwise only if no address is left |
| `SnapshotLoad.Engine.LoadChild` | JerryEngine/JerryEngine/jerry-snapshot.c:413-434 | one child slot: the own address for the own offset, else a newly loaded object, without disturbing what is already built |
| `SnapshotLoad.Engine.MapConstants` | JerryEngine/JerryEngine/jerry-snapshot.c:398-411 | the constants of the new object are mapped in place |
| `SnapshotLoad.IdOfFirst` | JerryEngine/JerryEngine/jerry-snapshot.c:400-409 | the identifier is that of the first entry with the offset |
| `SnapshotLoad.WholeLoaded` | JerryEngine/JerryEngine/jerry-snapshot.c:398-434 | a root and its loaded children form the loaded tree |
| `Snapshot.RoundTrip` | JerryEngine/JerryEngine/jerry-snapshot.c:209-437 | patching and loading with inverse literal tables gives back the tree, patterns included, with registers empty and one reference on every function |
| `Snapshot.KeptExactly` | JerryEngine/JerryEngine/jerry-snapshot.c:209-437 | so a tree comes back unchanged if and only if its functions have one reference and empty registers |
| `Snapshot.NormalIsRestored` | JerryEngine/JerryEngine/jerry-snapshot.c:209-437 | object by object: every constant from register_end on, and every argument of a non-strict function that needs its arguments object, is the original word; other slots below const_literal_end are empty; code, header and links are the same, with one reference |
| `Snapshot.OneToOneInverse` | JerryEngine/JerryEngine/jerry-snapshot.c:253-266 | a one-to-one table without offset 0 is its own inverse |
| `Snapshot.Save` | JerryEngine/JerryEngine/jerry-snapshot.c:450-534 | the result is 0 exactly if the code or the literal table does not fit, an offset in the code exceeds 16 bits, or the table is longer than 16-bit offsets in units of four bytes can say; else the buffer holds a snapshot of that size with the patched tree |
| `Snapshot.Exec` | JerryEngine/JerryEngine/jerry-snapshot.c:546-612 | which header errors are reported, exactly; otherwise the loaded tree in new objects |
| `Snapshot.AcceptedIsNotSnapshot` | JerryEngine/JerryEngine/jerry-snapshot.c:563-590 | the checks of the header and of the size of the literal table accept 24 bytes, a header and an empty table, without a tree |
| `Snapshot.SaveThenExec` | JerryEngine/JerryEngine/jerry-snapshot.c:450-612 | saving and then loading with inverse literal tables yields the normalised tree in new objects, every object restored as `NormalIsRestored` says, and the same scope flag, unless a request for memory is refused or no address is left |
| `Sqrt.Normalize` | hxlib/sqrt.c:133-152 | every positive finite input, subnormals included, becomes a significand with its top bit at 2^52 and an exponent with the same value |
| `Sqrt.HighBits` | hxlib/sqrt.c:160-178 | the loop on the high word finds the leading bits of the integer root, with the exact remainder |
| `Sqrt.LowBits` | hxlib/sqrt.c:180-203 | the two-word loop finds the remaining bits, with the exact remainder |
| `Sqrt.RootBits` | hxlib/sqrt.c:160-203 | Q = q * 2^32 + q1 satisfies Q^2 <= Y * 2^53 < (Q + 1)^2 for the doubled, even-exponent significand Y, and the words left over are zero exactly if Q^2 is equal |
| `Sqrt.RootStep` | hxlib/sqrt.c:168-177 | one trial subtraction keeps the scaled remainder of the square |
| `Sqrt.RootRange` | hxlib/sqrt.c:163-203 | the root cannot be so large that rounding it overflows the significand |
| `Sqrt.RoundedRoot` | hxlib/sqrt.c:205-230 | the parity test rounds the root correctly in every mode; an exact root is never halfway |
| `Sqrt.Pack` | hxlib/sqrt.c:231-239 | the packed words denote the rounded significand times its power of two |
| `Sqrt.RootCorrect` | hxlib/sqrt.c:205-239 | a correctly rounded significand makes a correctly rounded double: no double lies closer, or on the wrong side |
| `Sqrt.Sqrt` | hxlib/sqrt.c:105-241 | the nearest double (or the directed one) for every positive finite input, and the IEEE 754 results for zero, negative, infinite and NaN inputs |
| `Sqrt.RootMonotone` | hxlib/sqrt.c:105-241 | larger arguments have no smaller roots, in every mode |
| `Sqrt.ExactRoot` | hxlib/sqrt.c:105-241 | a perfect square has its exact root in every mode |
| `Fmod.CodeOrder` | hxlib/math.c:35-45 | comparing the words of |x| and |y| compares their values |
| `Fmod.Ilogb` | hxlib/math.c:47-91 | the counting loops find the exponent of normal and subnormal numbers |
| `Fmod.Align` | hxlib/math.c:93-129 | the shifted words are the 53-bit significand |
| `Fmod.FixedPointMod` | hxlib/math.c:131-166 | the shift-and-subtract loop, which stops early on zero, leaves the shifted dividend modulo the divisor |
| `Fmod.RunningSubtract` | hxlib/math.c:135-153 | one trial subtraction keeps the running value congruent to the shifted dividend and below twice the divisor |
| `Fmod.Renormalize` | hxlib/math.c:173-178 | the normalising loop terminates with the same value |
| `Fmod.PackRemainder` | hxlib/math.c:179-206 | the packed words denote the remainder exactly, normal or subnormal |
| `Fmod.Fmod` | hxlib/math.c:16-208 | for finite x and finite non-zero y exactly the sign of x and |x| mod |y|; NaN and infinite operands as C11 demands |
| `Fmod.RemainderMeaning` | hxlib/math.c:16-208 | that is x - n * y for an integer n, smaller in magnitude than y |
| `Floor.TargetIsFloor` | hxlib/math.c:249-265 | clearing the bits below one, after adding one to a negative non-integer, gives the floor, also when the carry reaches the exponent |
| `Floor.FloorLow` | hxlib/math.c:278-305 | the floor when the bits below one are in the low word, with the carry between the words |
| `Floor.FloorHigh` | hxlib/math.c:249-265 | the floor when they reach into the high word |
| `Floor.Floor` | hxlib/math.c:224-309 | the largest integer not above x for every finite x, with the sign of x; NaN and infinities unchanged |
| `QSort.Med3IsMedian` | hxlib/qsort.c:102-110 | for a total preorder the chosen element lies between the other two |
| `QSort.InsertionSort` | hxlib/qsort.c:123-128 | a rearrangement for every comparator, sorted for a total preorder |
| `QSort.VecSwappedAt` | hxlib/qsort.c:178-182 | the block swap exchanges two ranges element by element |
| `QSort.Partition` | hxlib/qsort.c:143-169 | the scan ends with the zones equal, less, greater, equal for every comparator that is a function, and only rearranges |
| `QSort.Gather` | hxlib/qsort.c:178-182 | the two block swaps bring the pivot's equals to the middle |
| `QSort.Pass` | hxlib/qsort.c:121-190 | one pass leaves a strictly smaller part for the loop, with everything before it finished |
| `QSort.QSort` | hxlib/qsort.c:112-192 | terminates for every comparator and length with a rearrangement, which is sorted for every total preorder |
| `Dirent.DirStream.Next` | hxlib/dirent.c:357-378 | takes exactly the next entry that is still to come, from the cache or the file system |
| `Dirent.DirStream.Read` | hxlib/dirent.c:459-557 | returns the first entry still to come, with the position of the one behind it, and leaves exactly the rest despite the lookahead |
| `Dirent.DirStream.Tell` | hxlib/dirent.c:595-614 | the position of the next entry, with the stream unchanged |
| `Dirent.DirStream.Seek` | hxlib/dirent.c:630-686 | what is still to come is everything from the first name with that hash, and nothing, with the stream invalid, if there is none |
| `Dirent.DirStream.Rewind` | hxlib/dirent.c:296-307 | the whole directory again if and only if the stream is not invalid |
| `Dirent.EndThenRewind` | hxlib/dirent.c:296-307 | rewinding does not bring back a stream that has sought the end position |
| `Dirent.HashIs` | hxlib/dirent.c:386-399 | the hash is 5381 * 33^n plus every character times its power of 33, modulo 2^32, without the top bit |
| `Dirent.SiblingsDiffer` | hxlib/dirent.c:386-399 | names that differ in their last character only have different hashes |
| `Dirent.SiblingsRestored` | hxlib/dirent.c:630-686 | in a directory of such names every position of an entry is restored, and the end unless a name has its hash |
| `Dirent.TypeOfBits` | hxlib/dirent.c:223-232 | the type of an entry by bits 6 and 4 of its attributes |
| `Dirent.SeekRestores` | hxlib/dirent.c:630-686 | seeking a telldir position restores exactly the entries still to come if and only if no earlier name has that hash |
| `Dirent.OffsetRestores` | hxlib/dirent.c:520-532 | the same for the d_off of an entry |
| `Dirent.AllPositionsRestored` | hxlib/dirent.c:386-399 | every position can be sought if and only if the hashes are distinct and none is the end marker |
| `Dirent.NamesCollide` | hxlib/dirent.c:386-399 | in a directory with "Ez" and then "FY" the position of the second brings back both |
| `Dirent.UnnamedCollide` | hxlib/dirent.c:386-399 | so it does for any two entries without a long name |
| `Dirent.ListedAt` | hxlib/dirent.c:459-557 | the listing holds every entry once, in order, with the position of its successor |
| `Dirent.FilteredParts` | hxlib/dirent.c:736-738 | the filter decides entry by entry and keeps the order |
| `Dirent.FilteredCounts` | hxlib/dirent.c:736-738 | an entry that passes the filter is kept as often as it occurs, and no other |
| `Dirent.Scandir` | hxlib/dirent.c:700-795 | the filtered listing, in order without a comparator, a permutation with one, sorted if it is a total preorder; -1 if and only if the directory is not found or a request for memory is refused, those made to open it included |
| `Calendar.NextDayCounts` | hxlib/time.c:564-572 | the day number grows by exactly one from every date of the Gregorian calendar to the next, in every year |
| `Calendar.CountsFromEpoch` | hxlib/time.c:564-572 | n days after 1970-01-01 the day number is n |
| `Calendar.DaysInjective` | hxlib/time.c:564-572 | different dates have different day numbers |
| `Calendar.DaysFromYear` | hxlib/time.c:564-572 | the March-based formula agrees with the month tables |
| `Calendar.GmToTime` | hxlib/time.c:15-80 | the seconds of the same date plus 25200, wrapped to 32 bits; -1 for years out of range or a negative result |
| `Calendar.SplitYear` | hxlib/time.c:275-302 | the four-year cycle finds the year and the seconds into it |
| `Calendar.GmTime` | hxlib/time.c:259-332 | exactly the calendar fields and the day of the year of the low 32 bits, and nothing if they are negative; the weekday is computed from all 64 bits; so the moment that was given is described if and only if it lies within 31 bits, and then with its weekday |
| `Calendar.BeyondLowBits` | hxlib/time.c:259-332 | 2^32 seconds after the epoch, on 2106-02-07 at 06:28:16, the fields are those of 1970-01-01, a Thursday, and the weekday is Sunday |
| `Calendar.WeekdayAdvances` | hxlib/time.c:320-320 | the weekday advances by one, modulo 7, from every day to the next, and day 0 is a Thursday |
| `Calendar.WeekdayOfAdvances` | hxlib/time.c:320-320 | so does the weekday that gmtime computes, within 31 bits |
| `Calendar.DescribeThenEncode` | hxlib/time.c:15-80 | encoding what gmtime describes gives the moment plus 25200, or -1 exactly if that does not fit |
| `Calendar.EncodeThenDescribe` | hxlib/time.c:259-332 | gmtime gives back every field that was encoded |
| `Clock.NsExact` | hxlib/time.c:545-550 | for frequencies up to 18.4 GHz the split conversion is the exact floor of delta * 10^9 / freq if and only if that fits into 64 bits |
| `Clock.TicksExact` | hxlib/time.c:557-561 | the same for ns * freq / 10^9 |
| `Clock.NeverGoesBack` | hxlib/time.c:652-660 | CLOCK_MONOTONIC is the exact elapsed time and never decreases while the counter does not |
| `Clock.Machine.BusyWait` | hxlib/time.c:583-596 | for every script of counter reads: ends with the first read that shows the target, or with the first failing read |
| `Clock.Machine.Nanosleep` | hxlib/time.c:669-735 | invalid requests are refused and empty ones granted at once; otherwise, if no read fails, the call succeeds and the target has passed; if a read fails, it is the last one, and the call succeeds if and only if an earlier read had made it spin; the milliseconds slept are those that the plan gives after each read |
| `Clock.CoarseSleepIs` | hxlib/time.c:704-723 | with more than 7 ms left a sleep follows that leaves 2 to 7 ms, as long as its milliseconds fit into 32 bits; beyond, exactly when none follows |
| `Clock.SpinsIs` | hxlib/time.c:704-731 | so within 2^32 ms the call spins exactly with 7 ms or less to go |
| `Clock.LongRestSpins` | hxlib/time.c:704-731 | with 2^32 + 2 ms to go no sleep follows, and the call spins for 49.7 days |
| `Clock.SpinsToTarget` | hxlib/time.c:707-731 | as long as no sleep is longer than asked, no sleep reaches the target, and a call that succeeds with good reads has spun to it, unless its first read in the loop already showed it |
| `Clock.CoarseEndsBefore` | hxlib/time.c:707-723 | as long as no sleep is longer than asked, every read behind a sleep leaves at least 2 ms to the target |
| `Clock.SleptWithin` | hxlib/time.c:707-723 | as long as no sleep is shorter than asked, the sleeps of a call add up to at least 2 ms less than its target, or there are none |
| `Clock.EarlySuccess` | hxlib/time.c:697-735 | a script of three reads, the last of which fails, on which the call succeeds although the reads show 1000 of its 1000000 ticks |
| `Clock.TargetIsExact` | hxlib/time.c:680-690 | the target is the exact request rounded down to ticks if and only if neither its nanoseconds nor its ticks leave 64 bits, and otherwise less |
| `Clock.WrappedRequest` | hxlib/time.c:680-690 | at 500 MHz a request for 18446744074 seconds waits for 0.29 seconds |
| `Strchr.UnchangedIff` | hxlib/string.c:416-426 | the magic-bits test is raised exactly by a zero byte or by 128 in the top byte |
| `Strchr.BytesOfWord` | hxlib/string.c:435-452 | the bytes of a word from its lowest address up |
| `Strchr.SearchFinds` | hxlib/string.c:324-476 | what is found is the first occurrence, with no terminator before it |
| `Strchr.SearchMisses` | hxlib/string.c:324-476 | nothing is found exactly if there is no occurrence up to and including the terminator |
| `Strchr.AlarmCatches` | hxlib/string.c:416-430 | a word that holds the character or a zero is never skipped |
| `Strchr.InWord` | hxlib/string.c:435-452 | the four tests find the first match or terminator in a word, or that the alarm was false |
| `Strchr.Strchr` | hxlib/string.c:324-476 | the same result as a search byte by byte, for every string, character and alignment |
| `Numerals.OverflowTest` | hxlib/string.c:254-261 | the test made before a digit is added says exactly that the value would exceed the limit |
| `Numerals.Accumulate` | hxlib/string.c:243-262 | the loop reads all digits, with the exact value or the knowledge that it exceeds the limit |
| `Numerals.StringToLong` | hxlib/string.c:209-277 | the exact value of the digits clamped to the 32-bit range, and where they end, after spaces, sign and prefix |
| `Numerals.StrtolReads` | hxlib/string.c:209-277 | for every string, by its spaces, sign, prefix and digits given as numbers: the number clamped to 32 bits and the index behind the digits, or 0 and the start without a digit |
| `Numerals.BarePrefix` | hxlib/string.c:229-235 | the string 0x reads as no number |
| `Numerals.NumeralShape` | hxlib/atox.c:143-151 | a numeral has no leading zero, and its letters are small |
| `Numerals.WrittenDenotes` | hxlib/atox.c:124-163 | what itoa writes: sign, digits of the number or of the number plus 2^32, terminator |
| `Numerals.Digits` | hxlib/atox.c:143-151 | the digits in reverse order, never more than 32 of them, so the buffer of 33 is not overrun |
| `Numerals.IntToString` | hxlib/atox.c:124-163 | the numeral of the number, signed in radix 10 only; nothing for a radix out of range |
| `Numerals.RoundTrip` | hxlib/atox.c:124-163 | strtol gives back what itoa has written if and only if the radix is 10 or the number is not negative |
| `Rand.NoOverflow` | hxlib/rand.c:31-37 | no intermediate value leaves a signed 32-bit long, and the state stays in 1 .. 2^31 - 1 |
| `Rand.StepIsProduct` | hxlib/rand.c:31-37 | the step is multiplication by 16807 modulo 2^31 - 1 |
| `Rand.StaysGood` | hxlib/rand.c:31-39 | the states 1 .. 2^31 - 2 are left exactly from the multiples of 2^31 - 1, for good |
| `Rand.StepInjective` | hxlib/rand.c:31-39 | different states have different successors |
| `Rand.NthState` | hxlib/rand.c:45-48 | the n-th state is 16807^n * seed mod (2^31 - 1) and never 0 |
| `Rand.Generator.Rand` | hxlib/rand.c:27-48 | the call stores and returns the next state |
| `Division.Round` | hxlib/comp_gcc_AI.c:14-20 | the shift loses no bit, because the remainder never exceeds the prefix of the dividend read so far |
| `Division.UDiv` | hxlib/comp_gcc_AI.c:9-23 | the quotient, for all 64-bit a and non-zero b |
| `Division.UMod` | hxlib/comp_gcc_AI.c:32-44 | the remainder, for all 64-bit a and non-zero b |
| `Division.Div` | hxlib/comp_gcc_AI.c:25-30 | the quotient truncated toward zero, except exactly for the smallest number divided by -1 |
| `Division.Mod` | hxlib/comp_gcc_AI.c:46-52 | the remainder with the sign of the dividend, always |
| `Division.QuotRem` | hxlib/comp_gcc_AI.c:25-52 | quotient and remainder belong together as C11 section 6.5.5 demands |

## Left out

- MqTable.TableInvariant: reference counts are unbounded, because 2^31 opens of one queue without a close are needed to wrap them.
- MqProtocol.Conservation: starts from a queue whose buffer has the size that the ring needs; `MqTable.CreatedStartsProtocol` says when that is so, and a copy that would leave the buffer is not a step.
- Snapshot.RoundTrip: the literal storage is taken as a table that is inverse between saving and loading, and recompiling a pattern as giving the same regular expression again; `ecma-literal-storage.c` and `re-compiler.c` are not part of this model.
- Snapshot.Exec: requires a well-formed snapshot behind an accepted header, because the loader checks nothing further, although the header and a literal table alone do not make one (`Snapshot.AcceptedIsNotSnapshot`); the literal storage's own requests for memory, the virtual machine and the parser are not part of this model.
- Strchr.Strchr: only the four-byte words of the 32-bit target, not the eight-byte branch.
- Clock.Machine.Nanosleep: the counter grows from one successful read to the next and stays below 2^64; no upper bound on the time slept, which depends on the kernel's `Sleep`.
- Last close of a queue overlapping an operation in flight on it; descriptor checks of `mq_send` and `mq_receive`; message priority, which the code ignores.
- Fairness: which waiting thread the kernel serves first.
- The snapshot path that leaves instructions in the read-only buffer (`copy_bytecode` false), and the cache of compiled regular expressions.
- Floating-point flags, signalling NaNs and NaN payloads; a NaN result is one quiet NaN.
- The masks and shifts of the floating-point code are written as division, remainder and recursive doubling, and the over-long shift by 32 in the subnormal path of `sqrt` as either of the two values that processors give.
- `qsort`: the byte-wise exchange of elements and its choice by alignment, and the overflow of `int` distances in arrays of 2 GB and more; elements are values of any type.
- Dirent: name conversion to wide characters, the wide-character variants, paths, and name truncation; a directory does not change while it is read.
- `alphasort`, `versionsort`, `strtok`, `localtime`, `mktime`, `asctime`, `CLOCK_REALTIME` and the second polling of the clock's initialisation.
- `itoa` into a caller's buffer, which only differs in who allocates it; `strtol` with a base that is neither 0 nor 2 to 36.
- The polynomial approximations of `hxlib`'s other mathematical functions, whose claims are about rounding errors.
- System call stubs, thread wrappers, formatted input and output, and the kernel itself.
