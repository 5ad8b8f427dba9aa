# aesdchar: the character device and the server's critical sections

This project models the aesdchar driver and the part of the socket server that works on it,
and proves what they promise over whole runs.

The driver keeps the last N newline-terminated commands (N = 10 in the header; every proof
holds for any capacity from 1 to 255, which is what a `uint8_t` index allows). Writers hand
in arbitrary chunks; the driver assembles commands from them, commits one command per
newline it sees, and evicts and frees the oldest. Readers read the concatenation of the kept
commands through their own file position, and move that position with `llseek` or with the
`AESDCHAR_IOCSEEKTO` ioctl. The server lets many client threads append a packet, or seek,
and read everything back while holding `file_mutex`.

## How the model is built

- `Bytes.dfy`: bytes, concatenation, the last n elements of a sequence.
- `CircularBuffer.dfy`: `Ring` is the C struct with its array, two offsets and flag, updated
  in place. Its ghost `history` holds every entry ever added, and `Shows` is a closed form
  for the struct in terms of that history. The methods are proved against the closed form.
- `Lines.dfy`: the driver's assembly of commands as a function on byte strings (`Feed`),
  against a plain line splitter (`Split`).
- `DeviceSpec.dfy`: the device as a machine over an unbounded history of commits, with the
  kernel heap as a map from addresses to contents. What the kernel decides (a failed or
  moved allocation, an interrupted wait for the lock, a failed copy, what fresh memory
  contains) is a parameter of each operation.
- `DeviceWrites.dfy`, `DeviceReads.dfy`: what one operation means for the command stream,
  the buffers and the file position.
- `Driver.dfy`: `AesdDevice`, `File` and `Heap` as objects, with the statements of `main.c`.
  Each method is proved to do exactly what the machine does, although the ring stores only
  N slots, and to touch only allocated memory: `Kfree` and `Memcpy` demand an allocated
  block, so a double free or a use after free would not verify.
- `Runs.dfy`, `RunStreams.dfy`: runs of any calls through any number of open files.
- `CallOutcomes.dfy`: exactly when each call gives each of its answers, what a failed call
  leaves as it was, and what a lock that was kept does to the rest of a run.
- `Server.dfy`, `ServerProofs.dfy`, `ServerProgress.dfy`: sessions of the server as interleaved
  single steps: what every interleaving keeps, and when all sessions finish.
- `ServerCalls.dfy`: the same critical sections as code, with their loops.
- `Replies.dfy`: what reaches the client byte for byte, NUL bytes or not.

Calls on the device are single steps of a run because each holds `buffer_lock` around its
work on the device; the flag `locked` says that a call returned without releasing it. The
test of the file position comes before the lock, so calls through one handle are taken as
serial. Sessions of the server interleave step by step.

`Witnesses.dfy` holds runs from module load, and `ServerWitnesses.dfy` runs from the start of
the server, on which the claims below about the driver, seeks and replies fail.

## Where the code does not meet the obvious claim

Where a claim holds for some inputs only, the condition proved is both necessary and
sufficient.

- The full flag is raised only if the write position, on returning to slot 0, finds a
  non-empty entry there. The ring is a sliding window exactly when fewer than N entries were
  added or some such return found data (`SlidingWindow`; it fails on the family in
  `EmptyEntryMisfires`). In a ring that missed it, the lookup finds nothing whenever the write
  position stands at slot 0 (`LookupWhenMissed`). The driver never commits an empty command,
  so on the device the window is always right (`CommitsAreWindowed`).
- A failed `krealloc` overwrites the pending pointer and keeps its size. A run conserves
  every byte at every moment exactly when that never happens to a pending buffer
  (`ConservationIff`), and the buffer ledger is exact under the same condition (`Ledger`).
  A single write conserves the stream exactly when it does not lose the buffer and is not
  the next one to get a buffer after a loss (`WriteConservesIff`): that one puts
  uninitialised bytes in front of its chunk (`WriteCommits`). It fails in
  `LostBufferCommitsGarbage`. The byte counts still agree after it (`CountsAgree`).
- The driver does not look behind the first newline of a write. At every moment of a run the
  commits are the lines of what was accepted exactly when no pending buffer is lost and no
  accepted piece holds two newlines (`LinesIff`; it fails in `TwoNewlinesAreNotSplit`).
- Three exits return with the device lock held: a failed copy from user space, an unknown
  `whence`, and a negative target. The lock is free after a run exactly when none was taken
  (`LockFreeIff`; each one fails in `LockKept`). After one of them every further read, write
  and seek fails and the device never changes again (`KeptLockStopsDevice`).
- A command seek on a full ring is not refused for an index of N or more; it goes round the
  ring (`SeekExact`, `SeekBeyondLive`), and the next read finds the end of file
  (`SeekPastFullRing`). An offset equal to the command's size is accepted
  (`SeekWithinLive`). The debug message in the source speaks of an invalid index; the model
  follows the code.
- The server stores the result of `ioctl`, a long, in an int, and when that is negative it
  returns without unlocking `file_mutex`. So a seek fails for the server when the device
  refuses it, and also when its position is negative as an int, as 2^31 is (`Refused`). After
  such a seek no session ever moves again (`StuckStopsEveryone`). A session gets stuck
  exactly when some seek of the run fails in one of these ways (`StuckIff`); every run is
  finite (`RunsAreBounded`), and one that has gone on as long as it can has served everyone
  and released the mutex exactly when no seek failed (`AllFinishIff`; it fails in
  `SeekOnEmptyDeviceSticks` by a refusal, and in `IntConversionSticks` by the conversion of a
  position the device accepted).
- The server sends `strlen` bytes of what it reads back. A client that appended receives the
  stream exactly when it holds no NUL byte (`SentBackIff`, `PacketsArrive`; it fails in
  `NulDoesNotArrive`); in any case it receives of each line of at most 1023 bytes what stands
  before its first NUL, and of a longer one that of each block of 1023 (`SentByLines`,
  `SentInBlocks`, `PacketsReceived`). A client that sought gets its reply through a reused
  buffer. How the reads cut the contents is a function of the contents, the position and the
  size of the buffer (`Cuts`); if every command fits the buffer, the pieces are the commands
  (`CutsAreCommands`). The client receives exactly the bytes read when they hold no NUL and
  no piece is shorter than the one before (`SentFromIff`, `HandleIoctl`; it fails in
  `StaleBytesAreSent`); `SentFromStep` says what each read adds in any case.

## Assumptions

- An allocation succeeds only if the bytes in the window, the pending command and the new
  block together stay below 2^63, as the address space demands. With it, no size or position
  wraps (`ArithmeticIsSafe`), except where a seek multiplies the window: there positions are
  converted to 64 bits as the source does (`ToLoff`).
- Pointer arguments from the kernel are never null.
- A server session succeeds in opening the file and in allocating; only sessions use the
  device. A session's chunk is the received chunk that holds a newline. In the interleaved
  steps it goes out in one `write`; `AppendToDevice` allows any number of short ones.

## Model

| member | source | states |
|---|---|---|
| CircularBuffer.PosIsMod | aesd-char-driver/aesd-circular-buffer.c:81 | the slot of the x-th addition, defined by repeated subtraction, is x modulo the capacity |
| CircularBuffer.AfterIsMod | aesd-char-driver/aesd-circular-buffer.c:45 | the slot i places after an offset is the sum modulo the capacity |
| CircularBuffer.Ring.constructor | aesd-char-driver/aesd-circular-buffer.c:95-98 | initialisation leaves every slot zero, both offsets 0, the flag down and an empty history |
| CircularBuffer.Ring.AddEntry | aesd-char-driver/aesd-circular-buffer.c:66-90 | for any entry and any state: the history grows by the entry, the struct again equals the closed form of the history, and the returned pointer is that of the addition N places earlier if the flag was up, else NULL |
| CircularBuffer.Ring.FindEntryOffsetForFpos | aesd-char-driver/aesd-circular-buffer.c:29-56 | NULL exactly when the offset is not below the sizes scanned; otherwise the slot and byte that the prefix sums determine, with no wrap of the size_t accumulator |
| CircularBuffer.ClosedForm | aesd-char-driver/aesd-circular-buffer.c:66-98 | after any history of additions, empty entries included: in_offs is n mod N, out_offs is 0 until the flag rises and equals in_offs afterwards, each of the last N additions is in its slot, later slots are zero |
| CircularBuffer.SlidingWindow | aesd-char-driver/aesd-circular-buffer.c:66-90 | reading from out_offs gives the last min(n, N) additions if and only if n < N or a return to slot 0 found data |
| CircularBuffer.NonEmptyIsWindowed | aesd-char-driver/aesd-circular-buffer.c:84-86 | non-empty additions always meet that condition, and the flag is up exactly from the N-th one on |
| CircularBuffer.EmptyEntryMisfires | aesd-char-driver/aesd-circular-buffer.c:84-86 | N additions of which the first is empty leave a ring that looks empty |
| CircularBuffer.QueueWhenMissed | aesd-char-driver/aesd-circular-buffer.c:66-90 | in a ring of N or more additions whose flag was never raised, array order is the additions since the last return to slot 0 and then the older ones of the last N; only the former count as present |
| CircularBuffer.LookupWhenMissed | aesd-char-driver/aesd-circular-buffer.c:29-56 | in such a ring the lookup returns NULL exactly when the write position stands at slot 0 or the offset is not below the size of the last N additions |
| CircularBuffer.FifoDisplacement | aesd-char-driver/aesd-circular-buffer.c:74-89 | after any history the next addition gives back the pointer added N places earlier when the flag is up, nothing before |
| CircularBuffer.RawSumIsWindowSum | aesd-char-driver/aesd-circular-buffer.h:75-78 | the size sum over all slots in array order is the size of the window in queue order, whatever the rotation |
| CircularBuffer.OffsetBijection | aesd-char-driver/aesd-circular-buffer.c:43-52 | pairs of an entry and a byte in it correspond one to one to the flat offsets below the total, and the lookup computes the inverse |
| CircularBuffer.LookupSeesWindow | aesd-char-driver/aesd-circular-buffer.c:43-54 | scanning all slots, dead ones included, finds what a search of the window alone finds |
| Lines.FeedAllConserves | aesd-char-driver/main.c:139-187 | accepted writes add exactly their bytes to the stream of commands and pending bytes |
| Lines.AssemblyIsSplit | aesd-char-driver/main.c:139-187 | feeding writes equals splitting their concatenation into lines if and only if no write holds two newlines |
| Lines.SplitConserves | aesd-char-driver/main.c:139-187 | the lines and tail of a stream make up the stream |
| Lines.PacketsStayWhole | aesd-char-driver/main.c:165-175 | writes whose only newline is the last byte become commands one for one, with nothing pending |
| DeviceWrites.WriteKeepsInv | aesd-char-driver/main.c:104-197 | whatever the kernel chooses, a write keeps: commands non-empty and newline-terminated, live slots backed by their own distinct allocated buffers, pending buffer of the recorded size and not shared, evicted buffers freed in order |
| DeviceWrites.WriteLeaks | aesd-char-driver/main.c:153-170 | the set of allocated but unreachable buffers grows by exactly the pending buffer when krealloc fails on it, and by nothing otherwise |
| DeviceWrites.WriteFeeds | aesd-char-driver/main.c:139-187 | in every state: the bytes a write reports, all of them or those through the first newline, are fed behind what it finds; a write that reports none commits nothing and keeps the pending bytes unless krealloc failed on their buffer; it reports some exactly when it gets a buffer |
| DeviceWrites.WriteCommits | aesd-char-driver/main.c:139-187 | in every state: a write that takes bytes commits exactly one command when they hold a newline, and none otherwise; in front of the chunk stand the pending bytes or, after a lost buffer, as many bytes of whatever the new memory held |
| DeviceReads.ReadIsStream | aesd-char-driver/main.c:72-96 | a successful read of n bytes at p returns bytes E+p to E+p+n of all committed bytes, E being the evicted ones, and advances by n |
| DeviceReads.ReadEndsAtEnd | aesd-char-driver/main.c:72-77 | a fault-free read with valid arguments returns 0 exactly at or past the end |
| DeviceReads.ReadStopsAtEntry | aesd-char-driver/main.c:79-96 | a read inside a command returns bytes of that command: the count asked for or the rest of the command, whichever is less |
| DeviceReads.ReadToEnd | aesd-char-driver/main.c:72-96 | reads with any positive counts return consecutive pieces, and as many reads as bytes remain return exactly the rest of the contents |
| DeviceReads.SeekEndReadsTail | aesd-char-driver/main.c:216-233 | SEEK_END with offset -k followed by reading to the end yields the last k bytes |
| DeviceReads.CommandStartStep | aesd-char-driver/main.c:274-276 | one round of the seek loop moves from the start of command k to the start of command k+1, going round the ring |
| DeviceReads.CommandStartClosed | aesd-char-driver/main.c:274-276 | the start of command k is (k / N) totals plus the sizes before command k mod N |
| DeviceReads.SeekLookupInverse | aesd-char-driver/main.c:274-287 | a seek to byte off of live command k is accepted, and the lookup at the position it sets finds command k, byte off |
| Driver.SeekFindsSlot | aesd-char-driver/main.c:274-287 | in any ring that holds the window, the lookup at the target of live command k and byte off names slot (out_offs + k) mod N and offset off |
| DeviceReads.SeekReachesEveryPosition | aesd-char-driver/main.c:274-287 | every readable position is the target of a live command and a byte in it |
| DeviceReads.SeekIsInjective | aesd-char-driver/main.c:274-287 | two such pairs with the same target are the same pair |
| DeviceReads.SeekWithinLive | aesd-char-driver/main.c:279-287 | for a live command the seek is accepted exactly up to the command's size, stays within the contents, and the end of one command is the start of the next |
| DeviceReads.SeekBeyondLive | aesd-char-driver/main.c:266-287 | beyond the live commands: refused if the ring is not full, else accepted by the size of command k mod N; the exact position is at or past the end, and the next read reports end of file exactly when its 64-bit value is too |
| DeviceReads.SeekExact | aesd-char-driver/main.c:266-287 | for every index k: accepted exactly if the ring is full or command k is live, and the offset is at most the size of command k mod the live count; the position is (k / count) totals plus the sizes before that command plus the offset, in 64 bits |
| DeviceSpec.Conversions | aesd-char-driver/main.c:213-224 | the conversions to a 64-bit and a 32-bit signed integer, defined by whole turns, are the residues in two's complement |
| Driver.CommitsAreWindowed | aesd-char-driver/main.c:165-166 | the driver's commits always meet the ring's window condition |
| Driver.LookupFindsTheByte | aesd-char-driver/aesd-circular-buffer.c:35-55 | the lookup returns nothing exactly past the contents, and otherwise a slot backed by an allocated buffer that holds the byte the offset names |
| Driver.ArithmeticIsSafe | aesd-char-driver/main.c:79-84 | offsets stay below N, the entry count does not underflow, no partial size sum reaches 2^63, and the bytes left in a found entry are between 1 and its size |
| Driver.AesdDevice.constructor | aesd-char-driver/main.c:333-341 | a new device is empty, unlocked, owns no buffer and satisfies the invariant |
| Driver.InitModule | aesd-char-driver/main.c:333-341 | the module's device is such a device with capacity 10 |
| Driver.AesdDevice.Read | aesd-char-driver/main.c:50-102 | result, data and new file position are those of the history machine, and the lock is released on every path |
| Driver.AesdDevice.AppendChunk | aesd-char-driver/main.c:151-163 | krealloc and memcpy leave the pending buffer, moved or not, holding its old bytes and then the chunk, or drop it when krealloc fails |
| Driver.AesdDevice.CommitEntry | aesd-char-driver/main.c:165-175 | the pending command joins the history, the ring holds the new window, and exactly the command that left it is freed |
| Driver.AesdDevice.StartNext | aesd-char-driver/main.c:177-186 | the bytes behind the newline become the new pending command in a buffer of their own, unless allocation fails |
| Driver.AesdDevice.CompleteCommand | aesd-char-driver/main.c:165-188 | commit followed by the start of the next command, with the return value that counts the bytes kept |
| Driver.AesdDevice.Assemble | aesd-char-driver/main.c:138-188 | the locked part of a write ends in the state and return value of the history machine |
| Driver.AesdDevice.Write | aesd-char-driver/main.c:104-197 | every path ends in the state, return value and lock state of the history machine, and the scratch buffer is always freed |
| Driver.AesdDevice.TotalSize | aesd-char-driver/main.c:218-223 | the raw array sum is the number of readable bytes |
| Driver.AesdDevice.Llseek | aesd-char-driver/main.c:199-238 | position, return value and lock state are those of the history machine, including the two exits that keep the lock |
| Driver.AesdDevice.SizeOfCommand | aesd-char-driver/main.c:279 | the slot indexed for command k holds the size of window element k mod N |
| Driver.AesdDevice.StartOfCommand | aesd-char-driver/main.c:272-276 | the loop computes the start of command k, converted to a 64-bit long, for the indices its signed counter can hold |
| Driver.AesdDevice.FindCommand | aesd-char-driver/main.c:266-286 | the checks and the loop refuse exactly the commands the machine refuses and compute its target otherwise, for the indices the signed counter can hold |
| Driver.AesdDevice.Ioctl | aesd-char-driver/main.c:240-294 | position and return value are those of the history machine, and the lock is released on every path, for the indices the signed counter can hold |
| Driver.AesdDevice.Cleanup | aesd-char-driver/main.c:363-370 | exactly the live slots' buffers are freed, none twice |
| Runs.RunKeepsInv | aesd-char-driver/main.c:50-294 | every legal run of calls keeps the invariant |
| Runs.Ledger | aesd-char-driver/main.c:123-194 | from module load, the allocated buffers are the live slots' and the pending one if and only if krealloc never failed on a pending buffer; in every run evicted buffers are freed once each in commit order and live ones are distinct, allocated and unshared |
| Runs.CleanupLeaves | aesd-char-driver/main.c:363-370 | after clean-up the pending buffer, if any, and the lost ones remain, untouched, and nothing else; none is lost if and only if krealloc never failed on a pending one |
| RunStreams.ConservationIff | aesd-char-driver/main.c:139-187 | commits followed by pending bytes are the accepted prefixes, short writes included, at every moment of a run if and only if krealloc never fails on a pending buffer in it |
| RunStreams.Conservation | aesd-char-driver/main.c:139-187 | at the end of a run in which krealloc never fails on a pending buffer, commits followed by pending bytes are the concatenation of the accepted prefixes |
| RunStreams.WriteConservesIff | aesd-char-driver/main.c:151-187 | in every state, a write conserves the stream if and only if krealloc does not fail on a pending buffer in it, and it does not get a buffer as the first write after such a failure |
| RunStreams.LinesIff | aesd-char-driver/main.c:139-187 | for every run: commits and pending bytes are the lines and tail of what was accepted at every moment if and only if krealloc never fails on a pending buffer and no accepted piece holds two newlines |
| RunStreams.CommitsAreLines | aesd-char-driver/main.c:139-187 | for a run in which krealloc never fails on a pending buffer: the commits and pending bytes at its end are the lines and tail of what it accepted if and only if no accepted piece holds two newlines |
| RunStreams.ChunkingIndependence | aesd-char-driver/main.c:139-189 | two runs in which krealloc never fails on a pending buffer and which accept the same stream in pieces with at most one newline each end with the same window, namely the last N lines, and the same pending tail |
| RunStreams.CountsAgree | aesd-char-driver/main.c:151-187 | in every run, failures included, committed bytes plus the pending size equal the bytes reported as written |
| RunStreams.ReadsFollowStream | aesd-char-driver/main.c:64-99 | in every interleaving, the reads through a handle return consecutive stretches of the committed stream as long as no seek through it is carried out, each gap being exactly the bytes evicted in between; failed reads, writes and seeks disturb nothing |
| RunStreams.LockFreeIff | aesd-char-driver/main.c:130-135 | the device lock is free after a run if and only if no call took an exit that keeps it |
| CallOutcomes.WriteAnswers | aesd-char-driver/main.c:114-186 | each error of a write and its success, exactly when, by sign of the position, count, lock, allocations and copy; the count returned is short exactly when bytes lie behind the first newline and no buffer is had for them, and then ends at that newline |
| CallOutcomes.WriteIgnoresPosition | aesd-char-driver/main.c:104-197 | a write gives the same result and state from every position that is not negative |
| CallOutcomes.FailedWriteKeeps | aesd-char-driver/main.c:114-196 | a failed write leaves commits, buffers and pending size as they were; it drops the pending pointer exactly when krealloc failed and keeps the lock exactly when the copy failed |
| CallOutcomes.ReadAnswers | aesd-char-driver/main.c:60-99 | for all arguments and faults: each error of a read, end of file and success, exactly when; a read that returns no bytes leaves the position |
| CallOutcomes.LlseekAnswers | aesd-char-driver/main.c:205-237 | succeeds exactly when not interrupted, whence is 0, 1 or 2 and the exact sum of base and offset is not negative and below 2^63; that sum is then position and result; otherwise the position stays and, unless interrupted, the lock is kept |
| CallOutcomes.SeekCurWraps | aesd-char-driver/main.c:213-215 | the same for SEEK_CUR from every 64-bit position, negative ones included |
| CallOutcomes.SeekSetThenCur | aesd-char-driver/main.c:210-215 | SEEK_SET to a then SEEK_CUR by b is SEEK_SET to a + b, and SEEK_CUR by -b undoes it |
| CallOutcomes.SeekEndIsSet | aesd-char-driver/main.c:216-225 | SEEK_END by any offset is SEEK_SET counted from the end of the contents |
| CallOutcomes.FailedLlseekKeeps | aesd-char-driver/main.c:205-232 | an interrupted or refused llseek leaves position and data as they were |
| CallOutcomes.IoctlAnswers | aesd-char-driver/main.c:246-293 | a seek command that is unknown, not copied, interrupted or refused returns the respective error and leaves position and device; any other puts the position it returns |
| CallOutcomes.KeptLockStopsDevice | aesd-char-driver/main.c:130-135 | from a state with the lock kept, in every run every read, write and seek returns an error and moves nothing, and the device never changes |
| CallOutcomes.KeptLockAdmits | aesd-char-driver/main.c:60-67 | with the lock kept a call returns exactly if its arguments or an interruption end it before the lock |
| ServerProofs.MovesKeepInv | server/aesdsocket.c:100-129 | every interleaving keeps: only the holder of file_mutex is under way and has the device open, the device is the chunks appended so far in lock order, and what a reader has read plus what lies ahead is what it set out to read |
| ServerProofs.OnlyHolderHasFile | server/aesdsocket.c:100-129 | at every reachable moment only the holder of file_mutex has the device open, and only between opening and closing it |
| ServerProofs.RepliesLinearizable | server/aesdsocket.c:100-129 | the i-th session to take file_mutex to append has read, when done, what a device holds after the chunks of sessions 0 to i |
| ServerProofs.PacketReplies | server/aesdsocket.c:100-129 | if every chunk has its only newline at the end, that is the concatenation of the last min(i+1, N) packets in lock order, its own last |
| ServerProofs.PacketsArrive | server/aesdsocket.c:124-126 | what the client receives is that concatenation if and only if those packets hold no NUL byte |
| ServerProofs.SeekReadBackAtomic | server/aesdsocket.c:371-403 | from any reachable moment of a seek that the device accepts at a position not negative as an int, whatever sessions do from then on, the seeking session when done has read exactly the contents at that moment from the target of its command and offset |
| ServerProgress.StuckIff | server/aesdsocket.c:385-392 | after any run a session holds file_mutex for ever if and only if some seek of the run named a command or offset that the device at that moment refuses, or takes to a position that is negative as an int |
| ServerProgress.StuckStopsEveryone | server/aesdsocket.c:385-392 | from a reachable moment at which a session makes such a seek, refused or with a position negative as an int, it holds file_mutex with its file closed and no session makes another move |
| ServerProgress.RunsAreBounded | server/aesdsocket.c:100-129 | with s sessions and chunks of at most b bytes no run makes more than s * (s * b + 6) moves |
| ServerProgress.AllFinishIff | server/aesdsocket.c:100-129 | for non-empty chunks that fit in memory together and seek indices below about 2^31: a run that can go no further has finished every session and released file_mutex if and only if no seek in it was refused or led to a position negative as an int |
| ServerProgress.HolderCanMove | server/aesdsocket.c:100-129 | a session that holds file_mutex and is not stuck can always go on, provided its chunk fits in memory and its seek index is below about 2^31 |
| ServerProgress.MovesByPhase | server/aesdsocket.c:100-129 | at every reachable moment the moves a session can make are those of its phase, with reads of any positive size: the device never stands in the way |
| ServerCalls.SentBackIff | server/aesdsocket.c:124-126 | an appending client receives the stream itself if and only if it holds no NUL byte |
| Replies.SentLine | server/aesdsocket.c:124-126 | a line of at most 1023 bytes is sent up to its first NUL, and what follows it as if it came first |
| Replies.SentLongPart | server/aesdsocket.c:124-126 | of 1023 bytes without a newline the same holds, whatever follows |
| Replies.SentByLines | server/aesdsocket.c:124-126 | for every stream, what is sent is what is sent for each line of its splitting and for its tail, one behind the other |
| Replies.SentInBlocks | server/aesdsocket.c:124-126 | a line of any length, or a tail, is sent in blocks of 1023 bytes, each up to its first NUL |
| Replies.SentShortLines | server/aesdsocket.c:124-126 | if lines and tail have at most 1023 bytes each, the client gets each up to its first NUL |
| Replies.PacketsReceived | server/aesdsocket.c:100-129 | the client of the i-th appending session receives the last min(i+1, N) packets in lock order, each as sent on its own; of those of at most 1023 bytes what stands before the first NUL |
| ServerCalls.SentFromIff | server/aesdsocket.c:395-399 | through a cleared buffer that is reused, a client receives of any list of reads exactly the bytes read if and only if they hold no NUL and no read is shorter than the one before |
| Replies.SentFromStep | server/aesdsocket.c:395-399 | each read adds to the reply the buffer up to its first NUL, where every index holds the byte of the last read that reached it |
| ServerCalls.CutsMakeUp | server/aesdsocket.c:397-398 | the pieces a loop of reads returns make up the contents from its position on; none is empty or longer than the buffer |
| ServerCalls.CutsAreCommands | server/aesdsocket.c:397-398 | if every readable command fits the buffer, the pieces from the start of command k on are the commands k, k+1, ... themselves |
| ServerCalls.ReadBack | server/aesdsocket.c:120-124 | reading until end of file terminates and returns the contents from the file position on |
| ServerCalls.SendLines | server/aesdsocket.c:124-126 | the fgets loop sends, line by line and 1023 bytes at most, each piece up to its first NUL |
| ServerCalls.AppendToDevice | server/aesdsocket.c:113-119 | a chunk that stdio gets out by any number of short writes is accepted in pieces that make up the chunk; the device ends in the state of these writes one after the other, each fed to the assembly |
| ServerCalls.SendContents | server/aesdsocket.c:120-126 | rewinding and reading back sends everything the device holds, up to the NUL bytes, and changes nothing |
| ServerCalls.MessageHandler | server/aesdsocket.c:100-129 | the section appends the chunk as those writes do, sends back everything the device then holds, and releases file_mutex |
| ServerCalls.ReadAndSend | server/aesdsocket.c:397-399 | the loop terminates, reads exactly the contents from the file position on, and sends what the buffer, overwritten by each of the pieces determined by contents, position and size, holds up to its first NUL |
| ServerCalls.HandleIoctl | server/aesdsocket.c:371-403 | it fails, keeps file_mutex and reads and sends nothing exactly when the seek is refused or its position is negative as an int; otherwise it reads exactly the contents from the target on, and sends exactly that if and only if it holds no NUL and no piece determined by target and contents is shorter than the one before; the device is unchanged |
| Witnesses.TwoNewlinesAreNotSplit | aesd-char-driver/main.c:177-184 | a legal run whose one write holds two newlines, with every allocation succeeding, does not end in the lines it accepted |
| Witnesses.LostBufferCommitsGarbage | aesd-char-driver/main.c:153-158 | a legal run in which krealloc fails once commits a byte nobody wrote in place of an accepted one, and leaks a buffer |
| Witnesses.LockKept | aesd-char-driver/main.c:132-135 | each of the three exits is taken in a legal run and leaves the lock held |
| Witnesses.SeekPastFullRing | aesd-char-driver/main.c:266-287 | for every capacity there is a legal run that fills the ring, after which a seek to the non-existing command N succeeds and the next read reports end of file |
| ServerWitnesses.SeekOnEmptyDeviceSticks | server/aesdsocket.c:385-392 | one session seeking on the empty device is refused and stuck |
| ServerWitnesses.IntConversionSticks | server/aesdsocket.c:385-392 | for every capacity there is a run in which the device is filled, accepts a seek to position 2^31, and the session is stuck |
| ServerWitnesses.NulDoesNotArrive | server/aesdsocket.c:124-126 | a packet holding a NUL is read back whole and not sent whole |
| ServerWitnesses.StaleBytesAreSent | server/aesdsocket.c:395-399 | after a packet and a shorter one, what is sent to a session that seeks to the start is not what it reads |

## Left out

- Driver.AesdDevice.Ioctl: a `write_cmd` of about 2^31 or more on a full ring overflows the signed loop index in C, which is undefined; such indices are excluded by its precondition.
- Driver.AesdDevice.StartOfCommand: excludes the same indices, for the same reason.
- Driver.AesdDevice.FindCommand: excludes the same indices, for the same reason.
- ServerProgress.HolderCanMove: a seek with such an index is not a step of the model, so for it the lemma demands a smaller one.
- ServerProgress.AllFinishIff: for the same reason the seek indices of all sessions stay below about 2^31.
- RunStreams.Conservation: stated for runs in which krealloc never fails on a pending buffer; `ConservationIff` has no such hypothesis, but speaks of every moment, since uninitialised bytes may by chance equal the lost ones at the end.
- RunStreams.CommitsAreLines: stated for runs in which krealloc never fails on a pending buffer, for the same reason; `LinesIff` has no such hypothesis.
- RunStreams.ChunkingIndependence: stated for runs in which krealloc never fails on a pending buffer, since afterwards the window holds bytes of unknown content.
- ServerProofs.RepliesLinearizable: each chunk goes out in one fully accepted write; `AppendToDevice` covers short writes, but not as interleaved steps.
- ServerCalls.AppendToDevice: a `write` that takes nothing is not modelled; stdio would give up and the chunk stay in its buffer.
- ServerCalls.MessageHandler: stdio is represented by its effect: writes until the chunk is out, a rewind, and reads until end of file whose bytes fgets cuts into lines.
- ServerCalls.HandleIoctl: when a read fills the whole buffer and leaves no NUL in it, `strlen` runs past its end, which is undefined in C; the model stops at the end.
- Partial copies to and from user space: a failed copy is an error return and its bytes are not modelled.
- Waiting for a lock: a call that needs the device lock takes place when the lock is free or returns as interrupted.
- Receive assembly in the server: chunks before the one with the newline are overwritten there, and an end of stream without a newline leads to a null file.
- The server's thread list, shutdown, timer, signals, daemon mode, sockets, logging and the parsing of the seek command.
- Character device registration, module entry points beyond the buffer, `container_of` and debug output.
- The directories `examples`, `finder-app` and `student-test`, and the scripts: thin wrappers.
