# The CPC–Pi link, verified

This project models the command server that runs on the Raspberry Pi behind the FIFO link of an
Amstrad CPC (`sw/examples/mcp/rpi_c`), with the two pieces of Z80 code that talk to it: the block
transfers of `fifolib.s` and the client `mcplib.s`. `dafny verify dfyconfig.toml` checks all of it.

The server is one endless loop over two ring queues. It takes a byte in, hands a byte out, and, while
no lock holds it back, looks for a frame `+++ size type payload ---`, runs the command in it, and ticks
a table of unfinished commands. The allocation commands CALLOC, FALLOC, RALLOC, SALLOC, IALLOC and
XALLOC work on twenty paged allocations.

| module | what it models |
|---|---|
| `RingQueue` | `queue.c`: a class over the byte array, specified by the bytes a reader can still see |
| `FrameCodec` | the wire format on sequences: one frame, one check, the frames of a stream |
| `Packet` | `packet.c` on the ring, each method proved against `FrameCodec` |
| `Memstore` | `memstore_manager.c`: the store as a value with its laws, and the class that edits buffers in place |
| `CommandText` | `command.c`: the table, the name of a text command, the binary parameters |
| `MemoryCommands` | `command_memory.c`: each command as a function and as a method |
| `Scheduler` | `command_processor.c`: the table of unfinished commands and its trace law |
| `MainLoop` | one pass of `mcp_pi.c` as a function |
| `LoopTrace` | the trace law of the scheduler, for the loop |
| `Deferral`, `SendLock`, `Standstill` | what a command that is put back leaves behind, when the locks release, and what stops the loop for good |
| `Dispatching` | what a packet check does with each kind of frame at the head |
| `Refinement`, `RequestDispatch`, `Service` | the sequential service, and that every run of the loop refines it |
| `Conversation`, `Pipeline` | a client that waits for its answers is always served; one that does not can stop the service |
| `Server`, `ProgramRefinement` | the program on its rings and tables in place, proved equal to `MainLoop` |
| `Bytes`, `AddressSpace` | bytes, and the 16-bit addresses of the Z80 |
| `FifoTransfer` | the unrolled Z80 transfers, register by register |
| `CpcClient` | `mcplib.s`: sending and receiving a packet |

The methods that change state are each proved against a function; the theorems are about those
functions. The main ones are `Service.ServiceRefinement` with `ProgramRefinement.RunLoop`,
`FrameCodec.ChunkIndependence`, `Deferral.DeferralsDoNotMatter`, `SendLock.SendLockRelease`,
`Service.ReceiveLockIsExact`, `Standstill.DataFrameLeaves`, `Conversation.EveryRequestIsAnswered`,
`LoopTrace.LoopTraceLaw` and the pair `CpcClient.PiUnderstandsClient` and `CpcClient.ClientUnderstandsPi`.

What comes from outside is a parameter of each pass: the byte the FIFO offers, whether it takes one,
the answer of the heap, the clock readings, and what the commands other than the six do (how many
parameter bytes they read, the text they reply, whether they complete). A conforming client, for the
refinement, sends well-formed requests: the six, and commands outside them, as binary or text frames,
that complete at once with a reply that keeps to the room reserved for it. A store carries exactly one
page and an insert as many bytes as it announces. A run keeps the input ring from filling, and no
retrieval fills the output ring exactly; a client that waits for its answers cannot help keeping both.

## Where the code does not do what it sets out to do

The code is followed in each case, and the exact condition is proved.

- A write that fills a ring exactly makes it read as empty (`RingQueue.Queue.WriteData`). A retrieval
  can do that to the output (`SendLock.RetrievalSetsLock`).
- The send lock adds the unread input where the queued output is meant. It can be released if and only if
  the unread input is at most the earlier output plus 14 bytes and the answer does not fill the ring
  exactly (`SendLock.SendLockRelease`); otherwise the server never processes another command. A
  conforming client that pipelines its requests gets there (`Pipeline.PipelinedClientStops`); one that
  waits for its answers never does (`Conversation.EveryRequestIsAnswered`).
- The receive lock becomes negative when a data frame at least two bytes longer than asked for has come
  too far (`Standstill.SafePayload`, `Standstill.LongFrameStops`), and is then never cleared
  (`Standstill.NegativeLockForEver`).
- A data frame at the head of the input, where a command should be, stays there and stops the service until
  the arrivals fill the ring to the last byte, which loses everything in it (`Standstill.DataFrameLeaves`).
  It gets there when no command asked for it, and also when it is shorter than its store or insert asked
  for: then the command is gone without an answer (`Standstill.FrameIsTaken`, `Standstill.ShortFrameStands`).
  Together with the receive lock, a data frame is safe when it has exactly the bytes asked for or one more.
- A rejected text that begins with a newline and holds `+++` hides the frame behind it from the next check
  (`CommandText.RejectedTextKeepsNextFrame`, `CommandText.NewLineCostsNextFrame`).
- A text name of 29 bytes without a separator steps the read index back by one, to -1 when it stands at
  0 (`CommandText.GetCommandText`, `CommandText.StepBelowZero`).
- Freeing id 0 reports success (`Memstore.FreeKeepsStore`).
- A table of unfinished commands with all twenty slots taken, and no other, forgets a command
  (`Scheduler.ForgottenIffFull`).
- The client sends 65536 bytes for a length of 0 (`CpcClient.SentIsTheFrame`), and reads 65536 bytes for
  an empty body (`CpcClient.ClientUnderstandsPi`).
- The comments of `fifolib.s` give the result of a transfer in HL; the code sets L only, as its callers
  expect, and the model follows the code.

## Model

| member | source | states |
|---|---|---|
| `RingQueue.UnreadFrom` | sw/examples/mcp/rpi_c/queue.c:170-173 | stepping the read index over k unread bytes shows exactly the rest, wherever the ring wraps |
| `RingQueue.UnreadCount` | sw/examples/mcp/rpi_c/queue.c:170-185 | a step of any length changes the unread count modulo the ring size |
| `RingQueue.UnreadBack` | sw/examples/mcp/rpi_c/queue.c:170-173 | a step of -1 shows the previous byte again |
| `RingQueue.UnreadAppend` | sw/examples/mcp/rpi_c/queue.c:147-179 | storing a byte appends it to what a reader sees, except that the byte which fills the ring makes it read as empty |
| `RingQueue.PutPieces` | sw/examples/mcp/rpi_c/queue.c:57-86 | writing in pieces leaves what writing at once leaves, exact fill included |
| `RingQueue.SpaceForWrites` | sw/examples/mcp/rpi_c/queue.c:57-132 | with unread bytes the space test answers whether the write is taken at all, exact fill included; on an empty ring, whether the bytes stay readable |
| `RingQueue.Queue.IsSpaceAvailable` | sw/examples/mcp/rpi_c/queue.c:118-132 | true exactly when the bytes fit, an exact fill counting as fitting unless the ring is empty |
| `RingQueue.Queue.NumberBytesToRead` | sw/examples/mcp/rpi_c/queue.c:182-185 | the number of unread bytes |
| `RingQueue.Queue.NumberFreeBytes` | sw/examples/mcp/rpi_c/queue.c:188-203 | the ring size less the unread bytes |
| `RingQueue.Queue.CurrentReadByte` | sw/examples/mcp/rpi_c/queue.c:135-138 | the oldest unread byte |
| `RingQueue.Queue.ReadAheadByte` | sw/examples/mcp/rpi_c/queue.c:141-144 | the unread byte that many places on |
| `RingQueue.Queue.PreviousReadByte` | sw/examples/mcp/rpi_c/queue.c:153-167 | the byte a reader has just stepped over: the first of what was unread one place before the read index, round the end of the ring |
| `RingQueue.Queue.IncrementRead` | sw/examples/mcp/rpi_c/queue.c:170-173 | steps the read index by any number: a prefix goes, a step too far changes the count modulo the size, -1 brings the previous byte back, and -1 from index 0 gives index -1 |
| `RingQueue.Queue.Append` | sw/examples/mcp/rpi_c/queue.c:147-179 | one byte behind the unread ones, or an empty ring when it fills exactly |
| `RingQueue.Queue.GetData` | sw/examples/mcp/rpi_c/queue.c:29-54 | takes n bytes off the front into the buffer, or touches nothing when fewer are unread |
| `RingQueue.Queue.WriteData` | sw/examples/mcp/rpi_c/queue.c:57-86 | appends when there is room to spare, empties the ring when it fills exactly, refuses unchanged otherwise |
| `RingQueue.Queue.WriteByte` | sw/examples/mcp/rpi_c/queue.c:89-115 | the same for one byte; it always succeeds |
| `RingQueue.Queue.NextThreeBytes` | sw/examples/mcp/rpi_c/queue.c:206-228 | the next three bytes, with the ring left as it was |
| `FrameCodec.FrameIsItsParts` | sw/examples/mcp/rpi_c/packet.c:189-238 | the well-formed frames are exactly what the writer produces |
| `FrameCodec.FrameBytes` | sw/examples/mcp/rpi_c/packet.c:189-238 | the bytes of a frame one by one: three `+`, the size low byte first, the type, the payload, three `-` |
| `FrameCodec.IsFrameBytes` | sw/examples/mcp/rpi_c/packet.c:16-109 | a well-formed frame read off the bytes: its declared size, a type of 1 to 4, both delimiters |
| `FrameCodec.FindStartIsFirst` | sw/examples/mcp/rpi_c/packet.c:112-152 | the skip stops at the first `+++`, or with fewer than three bytes left |
| `FrameCodec.AcceptedIsFrame` | sw/examples/mcp/rpi_c/packet.c:16-109 | every accepted frame is well formed; a declared size of 0, 1 or 2 is never accepted |
| `FrameCodec.BadPacketIsDropped` | sw/examples/mcp/rpi_c/packet.c:56-86 | a packet that is there as a whole but is no frame, for its type or its end, is dropped as a whole: just the bytes it declares |
| `FrameCodec.PartialPacketWaits` | sw/examples/mcp/rpi_c/packet.c:35-56 | a packet of which a part is missing is left alone, good or bad |
| `FrameCodec.FrameIsAccepted` | sw/examples/mcp/rpi_c/packet.c:16-109 | a well-formed frame at the head is accepted, whatever follows |
| `FrameCodec.PartialFrameWaits` | sw/examples/mcp/rpi_c/packet.c:16-109 | a partly arrived frame makes the check wait and drop nothing |
| `FrameCodec.JudgeIsStable` | sw/examples/mcp/rpi_c/packet.c:16-109 | an accept or discard decided on a prefix is decided the same on every extension |
| `FrameCodec.SkipIsStable` | sw/examples/mcp/rpi_c/packet.c:112-152 | garbage dropped from a prefix is garbage in every extension |
| `FrameCodec.DecoderKeepsPromise` | sw/examples/mcp/rpi_c/packet.c:16-152 | however the stream is cut and whenever checks happen, frames accepted so far plus frames still to come are the frames of the stream |
| `FrameCodec.ChunkIndependence` | sw/examples/mcp/rpi_c/packet.c:16-152 | the accepted frames are an initial part of the frames of the byte stream, and all of them once checks settle |
| `FrameCodec.SameStreamSameFrames` | sw/examples/mcp/rpi_c/packet.c:16-152 | two receivers of one stream accept the same frames |
| `FrameCodec.ChecksSettle` | sw/examples/mcp/rpi_c/packet.c:16-152 | as many checks as there are bytes always settle the buffer |
| `FrameCodec.CheckProgress` | sw/examples/mcp/rpi_c/packet.c:35-105 | no check reads past what is stored, and a discard shortens the content by at least six bytes |
| `FrameCodec.ResyncExactly` | sw/examples/mcp/rpi_c/packet.c:112-152 | the frame behind garbage is found if and only if the garbage holds no `+++` and does not end in `+` |
| `FrameCodec.FrameRoundTrip` | sw/examples/mcp/rpi_c/packet.c:112-238 | any payload up to 65532 bytes behind such garbage comes back unchanged, and exactly what followed the frame is left |
| `Packet.SkipToNextPacket` | sw/examples/mcp/rpi_c/packet.c:112-152 | drops exactly the bytes before the first `+++` and says whether one is there |
| `Packet.SkipTerminatorOfPacket` | sw/examples/mcp/rpi_c/packet.c:155-169 | drops `---` when it is at the head, nothing otherwise |
| `FrameCodec.OthersAreKept` | sw/examples/mcp/rpi_c/packet.c:155-169 | bytes other than `---` are left alone, and of `---` exactly three go |
| `Packet.PacketType` | sw/examples/mcp/rpi_c/packet.c:172-176 | the type byte of the frame at the head |
| `Packet.PacketSize` | sw/examples/mcp/rpi_c/packet.c:179-186 | the declared size of the frame at the head |
| `Packet.PacketHasTerminator` | sw/examples/mcp/rpi_c/packet.c:241-255 | whether `---` stands where the size says |
| `Packet.IsCompletePacketAvailable` | sw/examples/mcp/rpi_c/packet.c:16-109 | does one check of the codec on the ring and answers whether it accepts |
| `Packet.GetDataFromPacket` | sw/examples/mcp/rpi_c/packet.c:366-411 | copies n payload bytes and stops right behind them, or changes nothing when the frame has fewer |
| `Packet.WriteDataToPacket` | sw/examples/mcp/rpi_c/packet.c:189-238 | puts the whole frame behind the unread bytes when the space test passes, nothing otherwise |
| `Packet.StartBuildDataPacket` | sw/examples/mcp/rpi_c/packet.c:258-293 | writes the front exactly when the whole frame to come passes the space test |
| `Packet.AddDataToPacket` | sw/examples/mcp/rpi_c/packet.c:296-334 | the given bytes behind the unread ones |
| `Packet.FinishBuildDataPacketAndSend` | sw/examples/mcp/rpi_c/packet.c:347-363 | the rear delimiter behind the unread bytes |
| `Packet.PutAllKeepsEveryPiece` | sw/examples/mcp/rpi_c/packet.c:296-344 | with room for all of them no piece is dropped |
| `Packet.BuilderEqualsWriter` | sw/examples/mcp/rpi_c/packet.c:258-363 | for every split of a payload the builder leaves the ring as the one-shot writer does, exact fill included |
| `Packet.PutFrameWithRoom` | sw/examples/mcp/rpi_c/packet.c:189-238 | with room to spare the frame is written whole behind the queued bytes |
| `Packet.WriteOutHelpTextArray` | sw/examples/mcp/rpi_c/command.c:372-398 | an array of strings goes out as the one frame of its concatenation |
| `Packet.SizeOfStringArray` | sw/examples/mcp/rpi_c/command.c:357-369 | the length of the concatenation |
| `Memstore.CutThenInsert` | sw/examples/mcp/rpi_c/memstore_manager.c:219-275 | inserting what a cut removed succeeds and restores the whole store |
| `Memstore.InsertThenCut` | sw/examples/mcp/rpi_c/memstore_manager.c:219-275 | cutting what was inserted restores all but the last bytes, which become zero |
| `Memstore.EditsKeepStore` | sw/examples/mcp/rpi_c/memstore_manager.c:219-275 | an edit keeps the store well formed and every other allocation unchanged |
| `Memstore.StoreThenRetrieve` | sw/examples/mcp/rpi_c/memstore_manager.c:166-216 | a page read back is the page stored; every other page of every allocation reads as before |
| `Memstore.PagesAreSlices` | sw/examples/mcp/rpi_c/memstore_manager.c:166-216 | the pages of an allocation are exactly the slices of a page length inside its buffer: the same for storing and retrieving, byte by byte |
| `Memstore.NothingElseIsThere` | sw/examples/mcp/rpi_c/memstore_manager.c:51-275 | no other id has a page, a size or anything to edit |
| `Memstore.SizesAreOfTheBuffer` | sw/examples/mcp/rpi_c/memstore_manager.c:51-84 | the size of an allocation is the length of its buffer, and an edit succeeds if and only if its stretch ends before the last byte |
| `Memstore.EditedBytes` | sw/examples/mcp/rpi_c/memstore_manager.c:219-275 | every byte of the buffer after an insert and after a cut |
| `Memstore.FreeSlotIsLowest` | sw/examples/mcp/rpi_c/memstore_manager.c:433-445 | the slot found is the lowest free one, and 0 when none is free |
| `Memstore.CreateTakesLowest` | sw/examples/mcp/rpi_c/memstore_manager.c:88-129 | creation adds just the lowest free id with a zeroed buffer, and fails exactly when twenty are live or the heap refuses |
| `Memstore.CreatedPages` | sw/examples/mcp/rpi_c/memstore_manager.c:88-129 | a new allocation has exactly the pages asked for, of the size asked for, and they read as zeros |
| `Memstore.FreeKeepsStore` | sw/examples/mcp/rpi_c/memstore_manager.c:132-163 | freeing removes just that id; it succeeds exactly for a live id or for id 0, which changes nothing |
| `Memstore.StoreInvariant` | sw/examples/mcp/rpi_c/memstore_manager.c:17-275 | in every state of every run slot i holds id 0 or i, slot 0 is free, and no live buffer exceeds 327647232 bytes |
| `Memstore.MemMove` | sw/examples/mcp/rpi_c/memstore_manager.c:219-275 | an overlapping move puts the bytes the source held before at the destination |
| `Memstore.InsertInBuffer` | sw/examples/mcp/rpi_c/memstore_manager.c:219-246 | the move and the copy in place equal the insertion on sequences |
| `Memstore.CutFromBuffer` | sw/examples/mcp/rpi_c/memstore_manager.c:249-275 | the move and the clear in place equal the cut on sequences |
| `Memstore.MemoryTable.constructor` | sw/examples/mcp/rpi_c/memstore_manager.c:17-20 | the table starts with every slot free |
| `Memstore.MemoryTable.PageSizeBytes` | sw/examples/mcp/rpi_c/memstore_manager.c:51-66 | the page size of a live id, 0 for every other |
| `Memstore.MemoryTable.AllocSizeBytes` | sw/examples/mcp/rpi_c/memstore_manager.c:69-84 | the whole size of a live id, 0 for every other |
| `Memstore.MemoryTable.FreeMemoryAllocation` | sw/examples/mcp/rpi_c/memstore_manager.c:433-445 | the lowest free slot, or 0 |
| `Memstore.MemoryTable.CreateAllocation` | sw/examples/mcp/rpi_c/memstore_manager.c:88-129 | creates as specified; live slots keep buffers of their own |
| `Memstore.MemoryTable.FreeAllocation` | sw/examples/mcp/rpi_c/memstore_manager.c:132-163 | frees as specified |
| `Memstore.MemoryTable.RetrievePageOfData` | sw/examples/mcp/rpi_c/memstore_manager.c:166-189 | the bytes of the page, or nothing for an id or page that is not there |
| `Memstore.MemoryTable.StorePageOfData` | sw/examples/mcp/rpi_c/memstore_manager.c:192-216 | overwrites exactly that page of that allocation, or changes nothing |
| `Memstore.MemoryTable.InsertData` | sw/examples/mcp/rpi_c/memstore_manager.c:219-246 | inserts exactly when the stretch lies strictly inside a live allocation |
| `Memstore.MemoryTable.CutData` | sw/examples/mcp/rpi_c/memstore_manager.c:249-275 | cuts exactly when the stretch lies strictly inside a live allocation |
| `CommandText.CommandIdFromString` | sw/examples/mcp/rpi_c/command.c:102-116 | the one table row that spells the text, or the unknown command when no row does |
| `CommandText.FoundRowIsFirst` | sw/examples/mcp/rpi_c/command.c:102-116 | the row found spells the text and no earlier one does; it is the unknown command when none does |
| `CommandText.NamesAreDistinct` | sw/examples/mcp/rpi_c/command.c:28-69 | no two of the 33 rows have the same name, so a name finds the row it stands in |
| `CommandText.NamesAreSpelled` | sw/examples/mcp/rpi_c/command.c:28-69 | each name, spelled out, finds its command id (the first 17) |
| `CommandText.MoreNamesAreSpelled` | sw/examples/mcp/rpi_c/command.c:28-69 | the same for the other 16 |
| `CommandText.GetCommandText` | sw/examples/mcp/rpi_c/command.c:119-194 | yields the name exactly when 1 to 29 bytes precede a separator, stops just behind it, and says what a payload without a name costs, the read index of -1 included |
| `CommandText.NamedTextIsRead` | sw/examples/mcp/rpi_c/command.c:119-194 | name and newline, or name, space and arguments, yields exactly the name and leaves exactly what stands behind the separator |
| `CommandText.HasNameIff` | sw/examples/mcp/rpi_c/command.c:119-194 | a text has a name if and only if it is 1 to 29 bytes, a space or a newline, and anything; the name ends at the first separator |
| `CommandText.RejectedTextKeepsNextFrame` | sw/examples/mcp/rpi_c/command.c:119-194 | after any rejected payload the next check finds the frame behind it, if and only if the payload does not begin with a newline and hold `+++` |
| `CommandText.NewLineCostsNextFrame` | sw/examples/mcp/rpi_c/command.c:145-150 | a newline and `+++` are such a payload |
| `CommandText.LongNameUnderflows` | sw/examples/mcp/rpi_c/command.c:168-190 | a name of 29 letters in a frame 36 places before the end of the ring is such an input |
| `CommandText.StepBelowZero` | sw/examples/mcp/rpi_c/command.c:168-190 | starting from a new queue, that frame leaves the read index at -1 |
| `CommandText.GetCommandBin` | sw/examples/mcp/rpi_c/command.c:293-307 | the command id of a binary frame, with the read index behind it |
| `CommandText.NextParam8` | sw/examples/mcp/rpi_c/command.c:310-318 | the next byte |
| `CommandText.NextParam16` | sw/examples/mcp/rpi_c/command.c:321-331 | the next two bytes, low byte first |
| `CommandText.NextParam32` | sw/examples/mcp/rpi_c/command.c:334-348 | the next four bytes, high half first, as a signed number |
| `CommandText.ParamBytes` | sw/examples/mcp/rpi_c/command.c:321-348 | the place of each parameter byte in a word and in a signed number |
| `CommandText.IntRoundTrip` | sw/examples/mcp/rpi_c/command.c:334-348 | reading back a written 32-bit number gives the number |
| `CommandText.BytesRoundTrip` | sw/examples/mcp/rpi_c/packet.c:337-344 | writing back a number that was read gives its bytes |
| `CommandText.AddIntToPacket` | sw/examples/mcp/rpi_c/packet.c:337-344 | appends the four bytes of the number |
| `MemoryCommands.Machine.SetReceiveLock` | sw/examples/mcp/rpi_c/mcp_pi.c:39-54 | the lock is the count asked for less the unread input |
| `MemoryCommands.Machine.SetSendLock` | sw/examples/mcp/rpi_c/mcp_pi.c:57-71 | the lock is the count asked for plus the unread input |
| `MemoryCommands.Machine.SendStatus` | sw/examples/mcp/rpi_c/command_memory.c:82-139 | a status of up to 20 bytes is written whole behind the queued output |
| `MemoryCommands.Machine.CommandCreateAlloc` | sw/examples/mcp/rpi_c/command_memory.c:51-139 | CALLOC on the rings and the table is the specified step |
| `MemoryCommands.Machine.CommandFreeAlloc` | sw/examples/mcp/rpi_c/command_memory.c:141-201 | FALLOC likewise |
| `MemoryCommands.Machine.CommandRetrieveAlloc` | sw/examples/mcp/rpi_c/command_memory.c:203-311 | RALLOC likewise, the wait for room and the send lock included |
| `MemoryCommands.Machine.CommandStoreAlloc` | sw/examples/mcp/rpi_c/command_memory.c:313-499 | SALLOC likewise, both early errors, the wait for data and the silent short frame included |
| `MemoryCommands.Machine.CommandInsertAlloc` | sw/examples/mcp/rpi_c/command_memory.c:501-663 | IALLOC likewise |
| `MemoryCommands.Machine.CommandCutAlloc` | sw/examples/mcp/rpi_c/command_memory.c:665-750 | XALLOC likewise |
| `MainLoop.MemoryCommandKeeps` | sw/examples/mcp/rpi_c/command_memory.c:51-750 | every allocation command keeps both rings and the store well formed |
| `MainLoop.ReservationSuffices` | sw/examples/mcp/rpi_c/command_processor.c:38-51 | when a command that is let through emits only a status frame, that frame is written whole and never fills the ring |
| `Scheduler.NothingDueBefore` | sw/examples/mcp/rpi_c/command_processor.c:138-181 | the tick never passes over a due entry in a lower slot |
| `Scheduler.DueAfterPeriod` | sw/examples/mcp/rpi_c/command_processor.c:201-207 | an entry is due as soon as its period has passed: three seconds for SHUTDOWN and REBOOT, half a second for RALLOC, a tenth for all others |
| `Scheduler.CommandStates.EmptyCommandState` | sw/examples/mcp/rpi_c/command_processor.c:184-198 | the last idle slot, because the search does not stop at the first; none exactly when all twenty are taken |
| `Scheduler.CommandStates.ParkCommand` | sw/examples/mcp/rpi_c/command_processor.c:108-135 | parks the command with tick 1 a period ahead, and forgets it exactly when all twenty slots are taken |
| `Scheduler.LastIdleIsLast` | sw/examples/mcp/rpi_c/command_processor.c:184-198 | the search finds a slot if and only if one is idle, and every slot above the one it finds is taken |
| `Scheduler.ForgottenIffFull` | sw/examples/mcp/rpi_c/command_processor.c:108-135 | a command is forgotten if and only if all twenty slots are taken; otherwise just the last idle one changes |
| `Scheduler.CommandStates.TickCommand` | sw/examples/mcp/rpi_c/command_processor.c:138-181 | runs the lowest due entry, and re-arms or clears it |
| `Scheduler.SchedStepKeepsInv` | sw/examples/mcp/rpi_c/command_processor.c:108-207 | each step keeps the table in agreement with what has been called |
| `Scheduler.TraceLaw` | sw/examples/mcp/rpi_c/command_processor.c:108-207 | in every run each parked command is called with ticks 0, 1, 2, … and never sooner than its period after the call before |
| `Scheduler.TwentyTicksServeAll` | sw/examples/mcp/rpi_c/command_processor.c:108-181 | within the shortest period twenty ticks, with any parkings between them, call every command that was due at its start |
| `LoopTrace.PassIsScheduling` | sw/examples/mcp/rpi_c/mcp_pi.c:128-347 | a pass of the loop acts on the table as at most one parking followed by at most one tick |
| `LoopTrace.LoopIsScheduling` | sw/examples/mcp/rpi_c/mcp_pi.c:128-347 | the table a run of the loop leaves is the one the scheduler leaves under those events |
| `LoopTrace.LoopTraceLaw` | sw/examples/mcp/rpi_c/mcp_pi.c:333-344 | in every run of the main loop each parked command is called with ticks 0, 1, 2, … and never sooner than its period after the call before |
| `LoopTrace.TicksComeRound` | sw/examples/mcp/rpi_c/mcp_pi.c:333-344 | from whatever count, as long as no lock holds it back, the loop ticks once in every 101 passes |
| `LoopTrace.TickCallsLowestDue` | sw/examples/mcp/rpi_c/command_processor.c:138-181 | a tick calls the lowest due entry, appends its reply, and clears the entry or re-arms it with the next number |
| `LoopTrace.TickOtherwise` | sw/examples/mcp/rpi_c/mcp_pi.c:333-344 | before its turn, or with nothing due, the tick changes nothing but its counter |
| `LoopTrace.LoopServesDue` | sw/examples/mcp/rpi_c/mcp_pi.c:333-344 | 2020 passes of the main loop within the shortest period, with no lock at their ticks, call every command that was due at its start |
| `Deferral.DeferralIsAtomic` | sw/examples/mcp/rpi_c/mcp_pi.c:189-275 | after a deferral the input from the frame on, the output, the store and the pending table are as before; only the receive lock may differ |
| `Deferral.TriesLeaveNoTrace` | sw/examples/mcp/rpi_c/mcp_pi.c:189-275 | so they are after any number of deferrals with bytes moving in between |
| `Deferral.DispatchIgnoresLock` | sw/examples/mcp/rpi_c/command_memory.c:203-663 | no dispatch depends on the receive lock |
| `Deferral.DeferralsDoNotMatter` | sw/examples/mcp/rpi_c/mcp_pi.c:189-275 | any number of deferrals gives the final result that none would have given |
| `SendLock.RetrievalSetsLock` | sw/examples/mcp/rpi_c/command_memory.c:263-291 | a retrieval appends status and page, unless the two fill the ring exactly, and sets the lock to page, overhead and unread input |
| `SendLock.LockedForEver` | sw/examples/mcp/rpi_c/mcp_pi.c:157-185 | a lock larger than the queued output is never released and nothing is processed any more |
| `SendLock.LockCountsDown` | sw/examples/mcp/rpi_c/mcp_pi.c:157-185 | a covered lock counts down with every byte that leaves, and nothing new is emitted meanwhile |
| `SendLock.CoveredLockRelease` | sw/examples/mcp/rpi_c/mcp_pi.c:157-175 | a covered lock is released by exactly the schedules that take as many bytes as it counts |
| `SendLock.SendLockRelease` | sw/examples/mcp/rpi_c/mcp_pi.c:57-71 | the lock of an n-byte page can be released if and only if the unread input u is at most the earlier output plus 14 and the answer does not fill the ring exactly; then every schedule that takes n+9+u bytes releases it, and no other |
| `SendLock.OneRequestAtATime` | sw/examples/mcp/rpi_c/mcp_pi.c:57-71 | with only the terminator unread, every schedule that takes n+12 bytes releases the lock, unless the answer fills the ring exactly, which it does not when the output has drained |
| `Pipeline.PipelinedClientStops` | sw/examples/mcp/rpi_c/mcp_pi.c:57-71 | a conforming client that sends an allocation, a retrieval and two releases at a stretch stops the service for good, from power-up, in a schedule that keeps to every rule |
| `Standstill.NegativeLockForEver` | sw/examples/mcp/rpi_c/mcp_pi.c:146-185 | a negative receive lock stops all processing for good |
| `Standstill.AwaitedFrameLock` | sw/examples/mcp/rpi_c/mcp_pi.c:39-54 | a store or insert put back for its data sets the lock to the bytes still missing if and only if the data frame has the length asked for |
| `Standstill.AwaitedFrameClears` | sw/examples/mcp/rpi_c/mcp_pi.c:39-54 | every schedule that delivers the bytes that lock counts clears it, and no other; none does once more of the data frame has arrived than the request accounts for |
| `Standstill.CountedLockClears` | sw/examples/mcp/rpi_c/mcp_pi.c:146-151 | a lock that is not negative is cleared by exactly the schedules that deliver as many bytes as it counts |
| `Standstill.SafePayload` | sw/examples/mcp/rpi_c/mcp_pi.c:39-54 | no point of arrival makes the lock negative if and only if the payload is at most one byte longer than asked for |
| `Standstill.LongFrameStops` | sw/examples/mcp/rpi_c/mcp_pi.c:39-54 | a store of a 1024-byte page with 1034 bytes of a frame of 1026 there is an input that sets the lock to -1 for good |
| `Standstill.DataFrameBlocks` | sw/examples/mcp/rpi_c/mcp_pi.c:278-299 | a BinaryData or GraphicDirectives frame at the head, behind any garbage, stays there with all that arrives behind it in every run whose arrivals do not fill the ring |
| `Standstill.DataFrameLeaves` | sw/examples/mcp/rpi_c/mcp_pi.c:134-299 | without garbage before it, it leaves the head if and only if the arrivals fill the ring to the last byte, which loses all of it |
| `Standstill.FrameIsTaken` | sw/examples/mcp/rpi_c/command_memory.c:413-445 | the complete frame behind a store or insert leaves the head if and only if it has at least as many payload bytes as asked for; so many are then stored and answered as the service does, and a shorter one stays unanswered |
| `Standstill.ShortFrameStops` | sw/examples/mcp/rpi_c/mcp_pi.c:278-299 | a data frame shorter than asked for therefore stands at the head until the ring fills to the last byte, in every schedule |
| `Standstill.ShortFrameStands` | sw/examples/mcp/rpi_c/command_memory.c:413-445 | a store of a 1024-byte page with a frame of 1023 bytes behind it is such an input |
| `Refinement.ServeKeepsWellFormed` | sw/examples/mcp/rpi_c/command_memory.c:51-750 | the sequential service keeps the store well formed |
| `Refinement.BodyBytes` | sw/examples/mcp/rpi_c/command_memory.c:51-750 | the payloads of the six requests, byte by byte |
| `Refinement.AnswersOfSlots` | sw/examples/mcp/rpi_c/command_memory.c:51-201 | the answers to CALLOC and FALLOC, byte by byte, and the ids that are live after them |
| `Refinement.AnswersOfPages` | sw/examples/mcp/rpi_c/command_memory.c:203-499 | the answers to RALLOC and SALLOC, byte by byte: error 0 exactly when the page lies inside a live buffer |
| `Refinement.AnswersOfEdits` | sw/examples/mcp/rpi_c/command_memory.c:501-750 | the answers to IALLOC and XALLOC, byte by byte: error 0 exactly when the stretch ends before the last byte of a live buffer |
| `RequestDispatch.ProcessRequest` | sw/examples/mcp/rpi_c/command_processor.c:24-135 | a conforming request is answered as the sequential service answers it exactly when its data and its room are there; else it is put back |
| `RequestDispatch.GeneralRuns` | sw/examples/mcp/rpi_c/command_processor.c:46-60 | a command outside the six that completes at once leaves its reply, whole, behind the queued output |
| `RequestDispatch.DispatchRequest` | sw/examples/mcp/rpi_c/mcp_pi.c:244-275 | the same for the dispatch as a whole |
| `Dispatching.BadPacketAtHead` | sw/examples/mcp/rpi_c/mcp_pi.c:187-189 | the loop drops a whole packet that is no frame, just the bytes it declares, and does nothing else |
| `Dispatching.PartAtHead` | sw/examples/mcp/rpi_c/mcp_pi.c:187-189 | the loop leaves a packet of which a part is missing alone |
| `Dispatching.NoStart` | sw/examples/mcp/rpi_c/mcp_pi.c:187-189 | the loop drops input without any `+++` but for its last two bytes |
| `Dispatching.FrameBehindGarbage` | sw/examples/mcp/rpi_c/mcp_pi.c:187-275 | a frame behind garbage that does not hide it is dispatched as if it stood alone |
| `Dispatching.BinaryAtHead` | sw/examples/mcp/rpi_c/command_processor.c:24-135 | a binary command outside the six: without room nothing happens; an unfinished SHELLEXEC is put back; any other loses its frame and, unfinished, takes the last idle slot with tick 1 or is forgotten when all twenty are taken |
| `Dispatching.TextAtHead` | sw/examples/mcp/rpi_c/command_processor.c:24-135 | the same for a text command |
| `Dispatching.EnoughIsStored` | sw/examples/mcp/rpi_c/command_memory.c:51-750 | each of the six finds its parameters as soon as that many bytes are stored, whatever the client sends; any other command, as soon as the bytes it reads are |
| `Dispatching.BadTextAtHead` | sw/examples/mcp/rpi_c/mcp_pi.c:230-242 | a text without a name is answered once, with the frame of the bad-text reply, and taken; the next check finds the frame behind it unless the text begins with a newline and holds `+++` |
| `Dispatching.BadTextReplyIsSpelled` | sw/examples/mcp/rpi_c/mcp_pi.c:230-233 | the reply is `Bad Text Command` and a newline |
| `Dispatching.RefusedStore` | sw/examples/mcp/rpi_c/command_memory.c:360-412 | SALLOC without a buffer is answered with error 2, one for an id that is not live or a page above 9999 with error 1; the input is then looked through for the next `+++` |
| `Dispatching.RefusedInsert` | sw/examples/mcp/rpi_c/command_memory.c:545-590 | IALLOC without a buffer or of a length below -1 is answered with error 2, one past the end with error 3 |
| `Dispatching.FrameIsSteppedOver` | sw/examples/mcp/rpi_c/command_memory.c:491-496 | the data frame behind a refused command is stepped over, to the very frame behind it, if and only if it holds no `+++` after its first byte |
| `Service.PassKeepsInv` | sw/examples/mcp/rpi_c/mcp_pi.c:128-347 | one pass keeps the refinement invariant |
| `Service.ServiceRefinement` | sw/examples/mcp/rpi_c/mcp_pi.c:128-347 | in every interleaving, bytes sent plus queued output and the store are what the sequential service makes of a prefix of the requests, commands outside the six among them |
| `Service.ReceiveLockIsExact` | sw/examples/mcp/rpi_c/mcp_pi.c:39-54 | in every such state the lock is exactly the bytes still missing, and each request is put back for its data at most once |
| `Service.NextIsServed` | sw/examples/mcp/rpi_c/mcp_pi.c:185-275 | a packet check that is let through serves the next request if and only if it has arrived and its answer has room |
| `Service.QuietMeansServed` | sw/examples/mcp/rpi_c/mcp_pi.c:185-275 | with all bytes there and the output drained, every packet check that is let through serves a request |
| `Conversation.PolitePass` | sw/examples/mcp/rpi_c/mcp_pi.c:128-347 | with a client that waits for its answers neither ring fills and the queued output covers the send lock, whatever the schedule |
| `Conversation.AskedIsServed` | sw/examples/mcp/rpi_c/mcp_pi.c:185-275 | twenty-one passes, whatever comes and goes in them, serve a request that is there as a whole |
| `Conversation.ClientMayGoOn` | sw/examples/mcp/rpi_c/mcp_pi.c:128-347 | the client never waits in vain: after twenty-one quiet passes and as many takes as the output holds it may send on, or is answered in full |
| `Conversation.EveryRequestIsAnswered` | sw/examples/mcp/rpi_c/mcp_pi.c:128-347 | every schedule in which the client waits for each answer, sends all its requests and twenty-one more passes follow serves every request; once the output has been taken, exactly the answers of the sequential service have left |
| `Conversation.FinishConversation` | sw/examples/mcp/rpi_c/mcp_pi.c:128-347 | from every state a waiting client can be in, some such schedule brings in all its requests and sends all the answers |
| `Conversation.ConversationExists` | sw/examples/mcp/rpi_c/mcp_pi.c:128-347 | for every conforming client such a schedule exists from power-up |
| `Conversation.MaySendIsVisible` | sw/examples/mcp/rpi_c/mcp_pi.c:128-347 | the client can tell from the bytes it has sent and received alone whether it may send |
| `Server.Program.ProcessCommand` | sw/examples/mcp/rpi_c/command_processor.c:24-135 | `process_command` on the tables in place is the specified step |
| `Server.Program.CheckPackets` | sw/examples/mcp/rpi_c/mcp_pi.c:187-320 | the packet check with its dispatch is the specified step |
| `Server.Program.RunOrRewind` | sw/examples/mcp/rpi_c/mcp_pi.c:213-275 | a command that ran loses its terminator; one that did not is rewound to the start of its frame |
| `Server.Program.Pass` | sw/examples/mcp/rpi_c/mcp_pi.c:128-347 | one pass of the loop is the specified step and hands over the specified byte |
| `Server.Program.TickCheck` | sw/examples/mcp/rpi_c/mcp_pi.c:333-344 | the gated tick is the specified step |
| `Server.Program.MoveBytes` | sw/examples/mcp/rpi_c/mcp_pi.c:134-175 | a byte in and a byte out, each counted by its lock |
| `ProgramRefinement.PassIsDefined` | sw/examples/mcp/rpi_c/mcp_pi.c:185-275 | a conforming client never makes a pass read a byte that is not stored |
| `ProgramRefinement.RunLoop` | sw/examples/mcp/rpi_c/mcp_pi.c:128-347 | the loop on the rings and tables in place sends and stores what the sequential service does |
| `FifoTransfer.ReadManyMoves` | sw/examples/loopback/cpc_cpct/fifo/src/fifolib.s:390-422 | n bytes in: the next n bytes of the FIFO, in order, and no other byte of memory changes |
| `FifoTransfer.WriteManyMoves` | sw/examples/loopback/cpc_cpct/fifo/src/fifolib.s:442-474 | n bytes out: the bytes of the buffer, in order |
| `FifoTransfer.ReadReadyStopsAtNotReady` | sw/examples/loopback/cpc_cpct/fifo/src/fifolib.s:243-296 | the checked read moves as many bytes as status reads come out ready in a row |
| `FifoTransfer.WriteReadyStopsAtNotReady` | sw/examples/loopback/cpc_cpct/fifo/src/fifolib.s:317-370 | the checked write likewise |
| `FifoTransfer.WriteReadySendsReadyRun` | sw/examples/loopback/cpc_cpct/fifo/src/fifolib.s:317-370 | and it puts out the same bytes as the unchecked one would |
| `FifoTransfer.TransfersUseTheirPorts` | sw/examples/loopback/cpc_cpct/fifo/src/fifolib.s:243-474 | every access is to port FD80 or a read of FD81; the resetting port is never written |
| `FifoTransfer.TransfersAreOnPorts` | sw/examples/loopback/cpc_cpct/fifo/src/fifolib.s:243-474 | every status read and every byte moved is one access to a port, and there is no other |
| `FifoTransfer.EntryLeavesMultiple` | sw/examples/loopback/cpc_cpct/fifo/src/fifolib.s:243-474 | entered at count modulo 4, one round leaves a multiple of four |
| `FifoTransfer.Cpu.ExtParam` | sw/examples/loopback/cpc_cpct/fifo/src/fifolib.s:197-222 | loads the buffer pointer and the signed count limited to 0..255 |
| `FifoTransfer.Clamped` | sw/examples/loopback/cpc_cpct/fifo/src/fifolib.s:205-222 | the count of a transfer is the signed 16-bit word, 0 when negative and 255 when above |
| `FifoTransfer.StatusBits` | sw/examples/loopback/cpc_cpct/fifo/src/fifolib.s:243-370 | byte ready is bit 0 of the status, room for a byte is bit 1 |
| `FifoTransfer.Cpu.FifoInBytes` | sw/examples/loopback/cpc_cpct/fifo/src/fifolib.s:243-296 | the unrolled checked read equals the simple loop; L is the number moved |
| `FifoTransfer.Cpu.FifoOutBytes` | sw/examples/loopback/cpc_cpct/fifo/src/fifolib.s:317-370 | the unrolled checked write equals the simple loop; L is the number moved |
| `FifoTransfer.Cpu.FifoInNcBytes` | sw/examples/loopback/cpc_cpct/fifo/src/fifolib.s:390-422 | the unrolled unchecked read equals the simple loop |
| `FifoTransfer.Cpu.FifoOutNcBytes` | sw/examples/loopback/cpc_cpct/fifo/src/fifolib.s:442-474 | the unrolled unchecked write equals the simple loop |
| `CpcClient.SentIsTheFrame` | sw/examples/mcp/cpc_asm/mcplib.s:292-355 | what the client sends is the frame of what it means if and only if the length is at least 1 |
| `CpcClient.PiUnderstandsClient` | sw/examples/mcp/cpc_asm/mcplib.s:292-355 | the decoder of the Pi accepts it with the bytes of the buffer as its payload, a newline added for text, and leaves what follows |
| `CpcClient.MemoryAtBytes` | sw/examples/mcp/cpc_asm/mcplib.s:325-340 | those bytes are the ones in memory from the buffer address on, going round the address space |
| `CpcClient.ClientUnderstandsPi` | sw/examples/mcp/cpc_asm/mcplib.s:371-478 | a frame of the expected type is read exactly to its end if and only if it has a body; up to 4095 bytes arrive whole and zero-terminated, more are passed over |
| `CpcClient.ClientRefusesFront` | sw/examples/mcp/cpc_asm/mcplib.s:385-418 | of a packet of the expected type without `+++` only the front is taken, with error 3; a size of 0, 1 or 2 is taken for one above 65532, and that many bytes are passed over, with error 4 |
| `CpcClient.Cpc.SendPacket` | sw/examples/mcp/cpc_asm/mcplib.s:292-355 | the bytes put on the wire |
| `CpcClient.Cpc.ReceivePacket` | sw/examples/mcp/cpc_asm/mcplib.s:371-443 | for any bytes to come: what is left unread, the buffer, the length word, the error word, and that nothing else changes; for an empty body, the whole memory |
| `CpcClient.Cpc.ReceiveBody` | sw/examples/mcp/cpc_asm/mcplib.s:422-443 | the body in order at the buffer, the three delimiter bytes over one another, a zero byte over the last; a length of 0 goes round the whole memory |
| `CpcClient.Cpc.DrainPacketFromQueue` | sw/examples/mcp/cpc_asm/mcplib.s:455-478 | takes exactly the body and the delimiter, and changes one byte of the buffer |
| `CpcClient.Cpc.SetWord` | sw/examples/mcp/cpc_asm/mcplib.s:678-684 | a word, low byte first |
| `CpcClient.WordIsRead` | sw/examples/mcp/cpc_asm/mcplib.s:491-497 | a word is what a reader makes of its two bytes, low byte first |
| `CpcClient.Cpc.SendByte` | sw/examples/mcp/cpc_asm/mcplib.s:637-641 | one byte sent, however often the FIFO is not ready |
| `CpcClient.Cpc.ReceiveByte` | sw/examples/mcp/cpc_asm/mcplib.s:653-657 | one byte received, however often the FIFO has none |
| `CpcClient.Cpc.FifoInByte` | sw/examples/mcp/cpc_asm/fifolib_slim.s:53-77 | a byte when the status says so, nothing otherwise |
| `CpcClient.Cpc.FifoOutByte` | sw/examples/mcp/cpc_asm/fifolib_slim.s:93-101 | a byte when the status says so, nothing otherwise |

## Left out

- GPIO, wiringPi and the pins behind `read_fifo_byte`, `GET_DOR` and `GET_DIR`: outside calls. The FIFO is
  a byte that may be offered and a flag that may be set in each pass.
- Files, shell, wifi, time, help texts, reset, shutdown and reboot: their effects are calls to the
  system. The scheduler and the loop see only how much they read, one text reply and whether they
  complete; a tick reads no input. RESET also empties the queues and the store, which is not modelled,
  and neither are PILALLOC and PISALLOC, which load and save allocations.
- `memstore_load_data`, `memstore_save_data`, and the readers of text parameters, which only those other
  commands use.
- Debug output, `TRON` and the injected commands of the debug build: no protocol content.
- Command ids of 33 and above: `process_command` would read past its table. In the model they are commands
  like any other outside the six.
- Heap: whether an allocation succeeds is a parameter. A store or an insert that is put back leaks its
  temporary buffer, which has no counterpart in the model.
- Integer width: indices, locks and counters are unbounded, and the sum of two 32-bit parameters is not
  wrapped; `Refinement.RequestOk` asks that such sums fit 32 bits.
- MainLoop.Dispatch: when a command would read bytes that are not stored, or a refused store or insert
  would step over a byte that is not there, the model leaves the frame where it is, because the code
  would read stale bytes of the ring. `ProgramRefinement.PassIsDefined` proves that this does not happen
  for a conforming client.
- MemoryCommands.Machine.CommandStoreAlloc: requires that a refusal has a byte to step over, because the
  code would otherwise show the whole stale ring as unread.
- MemoryCommands.Machine.CommandInsertAlloc: requires the same.
- Server.Program.ProcessCommand: requires that the parameters of the command are stored.
- Server.Program.RunOrRewind: requires the same.
- Server.Program.CheckPackets: requires that the dispatch reads only stored bytes, and that the text frame
  at the head does not make the read index negative; what the code does with an index of -1 is undefined.
- Server.Program.Pass: requires the same of the input once its byte has moved.
- Service.ServiceRefinement: does not admit commands that need a tick to complete (SHUTDOWN and REBOOT, for
  example), commands that leave some of their parameters unread, RESET, PILALLOC, or replies other than
  one text frame. The single-pass, deferral and trace
  results hold for those that need a tick.
- ProgramRefinement.RunLoop: the same.
- CommandText.GetCommandText: the name is returned as a sequence instead of a C string in a 30-byte buffer.
- Memstore.MemoryTable.RetrievePageOfData: returns the bytes of the page instead of a pointer into it.
- CpcClient.Cpc.ReceivePacket: the caller's buffer must have room and not overlap the result words, as
  the library asks of BASIC. For an empty body the loop overwrites all of memory, the program's own code
  included; the model counts on to its end. Printing the reply is left out.
- CpcClient.Cpc.SendByte: the FIFO becomes ready after finitely many reads of its status; a FIFO that
  never does keeps the client waiting for ever.
- The single-byte routines of `fifolib.s`, the BCPL and two-way transfers, and the copies of both
  libraries in other directories: easier or identical.
- The CPLD, the boards, the Makefiles, the BASIC and C demos.
