# A verified model of the camera firmware's core

This project models, in Dafny, the parts of the camera firmware whose
correctness is hard to see from the code, and proves what they are for.

**The shared frame ring** (`ShmRing`, `ShmCursor`, `ShmDelivery`, `ShmEvicted`,
`ShmSteps`, `ShmWalk`, `ShmWrongTurn`, `ShmMemory`, `ShmWriter`, `ShmReader`,
`ShmSeek`). One writer lays audio or video frames into a fixed region of bytes
and wraps to its start by one of two routes; readers hold a position and a
sequence number. `ShmRing.Inv` says what the bytes
mean: a history of every frame written and where it went explains every live
frame, the writer's next head and the slot a wrap abandoned. The region is
bytes, the heads are words in them, and every lemma is about those bytes. On
top of the invariant stand in-order delivery over all interleavings, the exact
condition under which a reader keeps its place, and the searches by steps and by
key frames: where they end, when they fail, and when they never end. `Shm`,
`ShmWrite`, `ShmRead` and `ShmInfo` are the objects as the code updates them,
each method proved equal to its specification function.

**The web server's substrate.** `Balloc` (the size-class allocator: an exact
partition of its arena), `RingQ` (the growing ring queue: a byte deque),
`Handles` (handle tables), `SymTable` (the hash table: a partial map) and `Sock`
(buffered output against any pattern of sends).

**Arithmetic and codecs.** `Md5Compress`, `Md5` and `Md5Rfc` (streaming MD5 of
RFC 1321, and two of its digests), `BitWords` (words as bytes), `Calendar`
(Gregorian day numbers), `Decimal` and `NumberLaws` (printing and reading
numbers), `CText` (C strings and `strtok`), `EmfDb`, `EmfDbStore`, `EmfDbTrip`
and `EmfDbLaws` (the text database, and what comes back of it), `Um` and `UmTrip` (masked passwords, from
adding a user to reading the password back from a stored database).

**Control.** `Sched` (the round-robin timer queue), `Url` (the request path
resolved under the web directory), and the Ejscript interpreter: `Ej` and
`EjParser` (the recursive descent), `EjSkip` and `EjEnds` (what it leaves
untouched while it only skips, and how far skipping goes), `EjPrograms` (programs
as trees, what script each is written as, and what it means), `EjMeaning` and
`EjScripts` (the interpreter on that script does what the program means),
`EjRuns` and `EjLaws` (what that comes to for calls, branches, loops and
operators).

`Bytes`, `Memory` and `Power` hold what several of these share.

How it is written: what the code updates in place is a class whose methods carry
the code's loops and branches and are proved against functions of the old state;
the laws are lemmas about those functions. Sizes of heads and extras are
parameters (`Layout`), multiples of 4. The ring assumes a region of at least its
shared head, three maximal frames and one more head, because the wrap does not
check again that the frame fits.

`dafny verify dfyconfig.toml` checks the whole project.

## Where the code and its comments differ

The model follows the code.

- The ring queue's comment says the increment is doubled; asking for the bin of
  twice the increment quadruples it (`RingQ.IncrementQuadruples`).
- A block header is described as holding the requested size; it holds the
  capacity of the block (`Balloc.LiveHeader`).
- The reader's comments give 5 for an empty region and -1 for a lost place; the
  codes are -3 and -2, and -1 means waiting for the next frame. A frame larger
  than the caller's buffer is not discarded, it stays next
  (`ShmCursor.ReadDelivers`).
- The delay of a scheduled callback is not rounded up to seconds but to the
  nearest one (`Sched.SecondsNearest`).
- The leap test recognises centuries by remainders that C gives a sign, so it is
  right exactly as `Calendar.LeapAgrees` says.
- A refresh of an empty ring does not leave the initial cursor
  (`ShmWalk.RefreshExact`, `ShmWalk.ReadFromStart`).
- A move back past the oldest live frame is meant to fail. The code knows that
  only from the missing magic word where the evicted frame was, and the head of
  a newer frame may have landed there: then the move succeeds on that frame, and
  a search for a key frame, with the lock held, may never end
  (`ShmWrongTurn.NeverFound`; exactly when: `ShmWalk.FrameMoveFails`,
  `ShmWalk.KeyMoveEnds`, `ShmEvicted.FencedIff`).
- A block whose next statement begins with an operator never ends, even when it
  is only skipped (`EjEnds.SpinsForever`).
- Skipped code is not entirely without effect: `var` declares even then
  (`EjSkip.DeclaresAnyway`).
- An error in the last statement of a block may be lost: if it is noticed just
  before the closing brace, the block ends as if nothing had happened
  (`EjLaws.ErrorLost`).
- An increment that cannot be evaluated is an error, but not in the head of a
  loop (`EjMeaning.MarkInError`).
- The round constants of the MD5 loop are followed by four that no step uses.

## Model

| member | source | states |
|---|---|---|
| ShmRing.PlaceLands | source/libshmav/shm_write_class.cpp:69-87 | Whatever branch places a frame, it lands on a multiple of 4 inside the region, the head zeroed behind it overlaps neither it nor (when the writer turns back) the newest frame, and each wrap is taken only when the frame or the next head would not fit |
| ShmRing.ExtendLaid | source/libshmav/shm_write_class.cpp:69-107 | One more frame keeps the layout of the history: live frames of a lap in order, those of the old lap ahead of the writer, the abandoned tail behind them |
| ShmRing.WriteInv | source/libshmav/shm_write_class.cpp:46-113 | Every accepted frame leaves the region byte for byte what the longer history calls for: all live frames intact and linked both ways, the newest position and number in the shared head, a zeroed head where the writer will go on |
| ShmRing.WriteStays | source/libshmav/shm_write_class.cpp:69-107 | A write stays between the shared head and the end of the region and changes no byte outside its own room, the next head and, on a wrap, the link of the newest frame |
| ShmRing.Apart | source/libshmav/shm_write_class.cpp:69-107 | Any two live frames occupy disjoint bytes |
| ShmRing.SurvivorsUntouched | source/libshmav/shm_write_class.cpp:95-107 | Neither the new frame nor the head zeroed behind it reaches into a frame still live after the write; the link that a wrap stores in the newest frame is another matter (`ShmRing.WriteStays`) |
| ShmRing.Relink | source/libshmav/shm_write_class.cpp:75-77 | Storing a new link into a frame head changes that link and nothing else the frame holds |
| ShmRing.FreshInv | source/libshmav/shm_write_class.cpp:10-18 | A zeroed region with both positions at its start is explained by the empty history |
| ShmWriter.ShmWrite.constructor | source/libshmav/shm_write_class.cpp:4-29 | The writer empties whatever region it is given and stands at its start |
| ShmWriter.ShmWrite.WriteFrame | source/libshmav/shm_write_class.cpp:46-113 | A frame of length 1 to the maximum is appended to the history exactly as brought, any other is refused with its own code and changes nothing; the invariant holds after either |
| ShmWriter.ShmWrite.Locate | source/libshmav/shm_write_class.cpp:69-87 | The position arithmetic, the first wrap with its relinking and the second wrap choose the placement of the specification |
| ShmWriter.ShmWrite.StoreFrame | source/libshmav/shm_write_class.cpp:95-104 | Payload, zeroed next head and own head, stored in that order, leave both heads and the payload in place |
| ShmMemory.HeadStores | source/libshmav/shm_write_class.cpp:99-104 | The field-by-field stores of a head, in the order of the code, amount to one block with magic, links, number, size and extras in their places |
| ShmCursor.LiveFields | source/libshmav/shm_read_class.cpp:84-112 | Reading the fields of a live frame gives back the payload, the extras and both links that were written |
| ShmCursor.Resolves | source/libshmav/shm_read_class.cpp:353-372 | From each of the three kinds of valid cursor the overflow check ends at the slot of the frame the cursor denotes, also from an abandoned tail |
| ShmCursor.ReadDelivers | source/libshmav/shm_read_class.cpp:53-135 | A read through a valid cursor hands over exactly the frame it denotes and moves to the next, or reports nothing new, or that the buffer is too small and stays on that frame |
| ShmCursor.ReadCodes | source/libshmav/shm_read_class.cpp:53-135 | Whatever the region holds: which code a read gives and where it leaves the cursor; a frame larger than any may be is dropped, one only larger than the buffer stays next |
| ShmCursor.DistanceExact | source/libshmav/shm_read_class.cpp:145-174 | The distance is the number of frames from the cursor to the newest, and -1 when waiting for the next |
| ShmCursor.MoveBackExact | source/libshmav/shm_read_class.cpp:182-260 | A step back reaches the predecessor whenever one is live; from the oldest live frame it fails and resets the cursor exactly if no magic word stands in the evicted slot, and otherwise succeeds on whatever stands there |
| ShmCursor.MoveForwardExact | source/libshmav/shm_read_class.cpp:268-282 | A step forward reaches the successor, and fails only at the newest |
| ShmCursor.MovesInverse | source/libshmav/shm_read_class.cpp:182-282 | Stepping back and forward undo each other between live frames, up to the resolved position of the start |
| ShmCursor.RefreshNewest | source/libshmav/shm_read_class.cpp:292-319 | A refresh denotes the newest frame, and fails exactly on an empty ring |
| ShmCursor.ExtrasExact | source/libshmav/shm_read_class.cpp:322-351 | The extras fetched are those of the frame denoted, and zeros for the frame not yet written |
| ShmCursor.StartCursorReads | source/libshmav/shm_read_class.cpp:53-135 | What a read does from the cursor that a refresh of an empty ring leaves: it starts with the lap in progress, is lost right after the writer turned back, and finds nothing while the ring is empty |
| ShmDelivery.ChainOfRun | source/libshmav/shm_write_class.cpp:46-113 | After every run of a writer on a fresh region the live frames form one doubly linked, gap-free numbered chain ending at the newest, disjoint, aligned and inside the region |
| ShmDelivery.EvictionSafe | source/libshmav/shm_write_class.cpp:69-107 | A write retires only a prefix of the window, never the frame just before the new one, and neither the new frame nor the head zeroed behind it reaches into a frame it keeps |
| ShmDelivery.RetiredTouched | source/libshmav/shm_write_class.cpp:69-107 | A frame leaves the window only by being written over or by falling a lap behind |
| ShmDelivery.SurvivesIff | source/libshmav/shm_write_class.cpp:69-107 | A valid cursor stays valid across a write exactly if it waits for that frame, or its head is not written over and it has not fallen a lap behind |
| ShmDelivery.InOrderDelivery | source/libshmav/shm_read_class.cpp:53-135 | Over every interleaving of writes and reads, a reader that keeps up is handed consecutive frames, each once, byte for byte, across both kinds of wrap |
| ShmDelivery.DistanceCountsReads | source/libshmav/shm_read_class.cpp:53-174 | At distance d exactly d+1 reads in a row succeed, with the right frames, and the next reports nothing new |
| ShmReader.ShmRead.CheckOverflowed | source/libshmav/shm_read_class.cpp:353-372 | The in-place check moves the private cursor as specified |
| ShmReader.ShmRead.ReadFrame | source/libshmav/shm_read_class.cpp:53-135 | The method, with or without a buffer, returns the specified code and cursor and fills the caller's arrays with the frame and with nothing else; a cursor one ahead of the newest frame finds nothing new and stays, one farther ahead is an error and is reset, and neither touches the arrays |
| ShmReader.ShmRead.Distance2Newest | source/libshmav/shm_read_class.cpp:145-174 | The method computes the specified distance |
| ShmReader.ShmRead.MoveBack | source/libshmav/shm_read_class.cpp:182-260 | The method returns the specified cursor, for any bytes in the region |
| ShmReader.ShmRead.MoveForward | source/libshmav/shm_read_class.cpp:268-282 | A read without a buffer is the specified step forward |
| ShmReader.ShmRead.Refresh | source/libshmav/shm_read_class.cpp:292-319 | The method returns the newest position and number and whether a frame is there |
| ShmReader.ShmRead.GetExtras | source/libshmav/shm_read_class.cpp:322-351 | The method fills, zeroes or keeps the caller's buffer as specified, wherever the cursor points |
| ShmEvicted.LandedUnfences | source/libshmav/shm_read_class.cpp:226-240 | If a newer frame was placed where the frame evicted last had been, the step back from the oldest live frame hands out that newer frame |
| ShmEvicted.LandedOnce | source/libshmav/shm_write_class.cpp:69-87 | At most one frame can have been |
| ShmEvicted.FencedIff | source/libshmav/shm_read_class.cpp:226-240 | As long as no payload or extras can be taken for a magic word, the evicted slot looks empty exactly if no frame of the current lap was placed on it |
| ShmWrongTurn.WrongTurn | source/libshmav/shm_read_class.cpp:182-260 | Six ordinary frames of zeros after which a step back from the oldest live frame succeeds on the newest |
| ShmWrongTurn.NeverFound | source/libshmav/shm_read.cpp:112-150 | From there four steps back lead to the start again, and a search for a key frame goes on for ever |
| ShmSteps.KeyBackCounts | source/libshmav/shm_read.cpp:112-150 | The target of the backward key search is a key frame with exactly n key frames from it up to the start, and there is one exactly if there are n |
| ShmSteps.KeyAheadCounts | source/libshmav/shm_read.cpp:112-150 | The same for the forward search |
| ShmSteps.StepsUndo | source/libshmav/shm_read.cpp:97-186 | n steps back and n steps forward return to the start exactly if counting frames, or if the start is itself a key frame |
| ShmWalk.StepExact | source/libshmav/shm_read.cpp:128-165 | One step of a stored cursor reaches the neighbour; out of the window it fails, except back over a slot that is not fenced |
| ShmWalk.BackNExact | source/libshmav/shm_read.cpp:97-186 | A move ends exactly on the n-th frame or key frame in the given direction, none skipped, or, if there is none and the way back is fenced, fails and leaves the cursor where it was |
| ShmWalk.RoundReturns | source/libshmav/shm_read.cpp:151-165 | When a frame landed on the evicted slot, as many steps back as the cycle has frames lead to the start again |
| ShmWalk.BackNRound | source/libshmav/shm_read.cpp:97-186 | Then a move that runs out of live frames succeeds on a frame of the cycle when counting frames; counting key frames it succeeds if the cycle holds one, and otherwise never ends |
| ShmWalk.LoopCounts | source/libshmav/shm_read.cpp:112-150 | The key frame such a search ends on: its target in the window, or the one reached after whole laps of the cycle with exactly the number of key frames asked for |
| ShmWalk.InnocuousDecided | source/libshmav/shm_read_class.cpp:226-240 | With no stray magic word the evicted slot is fenced or a frame landed on it, and the history alone says which |
| ShmWalk.FrameMoveFails | source/libshmav/shm_read.cpp:151-182 | A move back by frames fails exactly if too few are live and the evicted slot is fenced |
| ShmWalk.OneTooMany | source/libshmav/shm_read.cpp:151-182 | In every state, one frame too many is refused exactly if the slot is fenced, and otherwise ends on what stands there |
| ShmWalk.KeyMoveEnds | source/libshmav/shm_read.cpp:112-150 | A move back by key frames ends exactly if its target is live, the evicted slot is fenced, or the cycle holds a key frame |
| ShmWalk.FromInitial | source/libshmav/shm_read.cpp:97-186 | A cursor never used moves back as one that waits for the next frame, and gets its initial value back when that fails |
| ShmWalk.RefreshExact | source/libshmav/shm_read.cpp:188-210 | A keyed refresh ends on the most recent live key frame, an ordinary one on the newest frame; a failed one leaves the cursor on the newest frame, or at the start of an empty ring |
| ShmWalk.RefreshEndless | source/libshmav/shm_read.cpp:188-210 | With no live key frame and a newer frame on the evicted slot a keyed refresh never ends |
| ShmWalk.ReadNextExact | source/libshmav/shm_read.cpp:378-435 | A first read starts at the newest key frame for H.264 video and at the newest frame otherwise, later ones go on in order, the code tells key frames apart; if there is nothing to start from, the answer is NO_FRAME and the cursor stays where the refresh left it |
| ShmWalk.ReadAfterNoFrame | source/libshmav/shm_read.cpp:390-432 | After NO_FRAME the next read of H.264 video starts on an ordinary frame |
| ShmWalk.ReadNextEndless | source/libshmav/shm_read.cpp:390-421 | A first read of H.264 video never ends where a keyed refresh does not |
| ShmWalk.ReadFromStart | source/libshmav/shm_read.cpp:390-432 | What a read answers through the cursor an empty ring left behind, before and after frames have been written |
| ShmWalk.AstrayReads | source/libshmav/shm_read_class.cpp:53-135 | A stored cursor that no frame of the history explains, such as one from before the writer was restarted, gets an error, no frame, and the initial cursor |
| ShmWalk.AstrayRecovers | source/libshmav/shm_read.cpp:378-435 | So the read after it is a first read again, whatever has been written in between |
| ShmWalk.AstrayMoves | source/libshmav/shm_read_class.cpp:145-351 | Such a cursor has no distance and no extras, and leads neither back nor forward |
| ShmWalk.HeadReads | source/libshmav/shm_read_class.cpp:53-174 | The number in a cursor is not compared: at the head of a live frame that frame is read whatever number the cursor carries; only the distance tells |
| ShmSeek.WriterExplains | source/libshmav/shm_write_class.cpp:46-113 | Whatever a valid writer has written is what its readers see |
| ShmSeek.SeekFrames | source/libshmav/shm_read.cpp:151-165 | The step loop succeeds exactly if all its steps do, and ends where the last one leads |
| ShmSeek.SeekKeys | source/libshmav/shm_read.cpp:112-150 | The key loop, which looks at the extras before each step, finds, loses or goes on as specified, whatever its buffer held at first |
| ShmSeek.BackNFrameNolock | source/libshmav/shm_read.cpp:97-186 | The cursor ends exactly on the n-th frame or key frame in the given direction, or the call fails; whenever it fails, on any bytes at all, the cursor is what it was |
| ShmSeek.RefreshNolock | source/libshmav/shm_read.cpp:188-210 | The cursor ends on the newest frame, or on the newest live key frame if one was asked for; a failure leaves it on the newest frame, or at the start of an empty ring |
| ShmSeek.ReadFrameWithExtras | source/libshmav/shm_read.cpp:378-435 | A first read starts at the newest key frame for H.264 video and at the newest frame otherwise, later ones go on in order; the caller's arrays hold the frame and are otherwise as they were; NO_FRAME leaves the cursor where the refresh did; a cursor gone astray gets ERROR, the initial cursor and untouched arrays, so that the next read starts afresh |
| RingQ.BinBlockFits | source/goahead/src/ringq.c:572-581 | The block is larger than what was asked for, and at most twice that unless it is the smallest |
| RingQ.IncrementQuadruples | source/goahead/src/ringq.c:529-563 | Asking for a block of twice a power of two gives four times that power |
| RingQ.GetBinBlockSize | source/goahead/src/ringq.c:572-581 | The shifting loop finds the bin |
| RingQ.WindowPush | source/goahead/src/ringq.c:462-479 | Bytes stored at the end of the circle are appended to its contents, wherever the circle wraps |
| RingQ.WindowUnshift | source/goahead/src/ringq.c:204-221 | A byte stored before the front is prepended, wherever the circle wraps |
| RingQ.WindowDrop | source/goahead/src/ringq.c:486-503 | Moving the front drops bytes from the contents |
| RingQ.RingQ.constructor | source/goahead/src/ringq.c:79-98 | A new queue is empty, in a block that fits |
| RingQ.RingQ.Len | source/goahead/src/ringq.c:125-135 | The length is that of the contents |
| RingQ.RingQ.Getc | source/goahead/src/ringq.c:142-171 | Removes and returns the first byte, or -1 when empty |
| RingQ.RingQ.Putc | source/goahead/src/ringq.c:179-197 | Appends the byte, and fails exactly when full at its size limit |
| RingQ.RingQ.Insertc | source/goahead/src/ringq.c:204-221 | Prepends the byte, and fails exactly when full at its size limit |
| RingQ.RingQ.AddNull | source/goahead/src/ringq.c:246-252 | The terminating zero is no part of the contents |
| RingQ.RingQ.PutBlk | source/goahead/src/ringq.c:346-379 | Appends a prefix of the block, all of it unless the size limit is reached and the queue is full; the recursion through growing ends |
| RingQ.RingQ.PutRun | source/goahead/src/ringq.c:355-377 | One straight copy of the loop, with growth in between |
| RingQ.RingQ.GetBlk | source/goahead/src/ringq.c:386-417 | Moves the first bytes to the caller, as many as asked for or all there are |
| RingQ.RingQ.PutBlkMax | source/goahead/src/ringq.c:425-436 | How much fits in one copy; nothing exactly when only the slot that must stay empty is left |
| RingQ.RingQ.GetBlkMax | source/goahead/src/ringq.c:444-455 | How much can be taken in one copy; nothing exactly when empty |
| RingQ.RingQ.PutBlkAdj | source/goahead/src/ringq.c:462-479 | After a caller copied bytes in, they are appended, also across the end of the buffer; more of them than there is room for push out all that was waiting |
| RingQ.RingQ.GetBlkAdj | source/goahead/src/ringq.c:486-503 | After a caller copied bytes out, they are removed; more of them than were waiting bring old bytes back in front |
| RingQ.RingQ.Flush | source/goahead/src/ringq.c:510-520 | Leaves the queue empty |
| RingQ.RingQ.Grow | source/goahead/src/ringq.c:529-563 | Keeps the contents in a bigger buffer, refuses exactly at the size limit, and quadruples the increment |
| RingQ.RingQ.MoveTo | source/goahead/src/ringq.c:540-556 | The bytes taken out into the new buffer and appended there onto themselves are the contents again |
| Sock.Socket.DoOutput | source/goahead/src/sock.c:470-533 | What the system takes is a prefix of what was offered, and the error code is the one it gave, or that of a full system when it took nothing |
| Sock.Socket.Flush | source/goahead/src/sock.c:272-346 | Sends a prefix of what is buffered and keeps the rest; success with bytes left means a writable event is awaited; it fails exactly if its last send failed with neither EINTR nor EWOULDBLOCK nor EAGAIN |
| Sock.Socket.SendRun | source/goahead/src/sock.c:295-327 | One run of the buffer, sent in part or blocked, loses and repeats no byte; what comes of it is what the answer of the system means |
| Sock.Socket.Write | source/goahead/src/sock.c:41-87 | For every pattern of partial, interrupted and blocked sends, bytes sent followed by bytes buffered are the bytes accepted; a return of k means the first k were accepted, and k is short only when a non-blocking socket is full; -1 comes exactly after a send that failed for good |
| Sock.Socket.Accept | source/goahead/src/sock.c:80-84 | Bytes copied into the buffer are appended to what was accepted |
| Balloc.ClassFits | source/goahead/src/balloc.c:523-532 | The class of a request is the smallest whose blocks hold it |
| Balloc.ClassReturns | source/goahead/src/balloc.c:365-405 | The capacity stored in a header leads back to the class the block was cut for |
| Balloc.GetSize | source/goahead/src/balloc.c:523-532 | The shifting loop finds the class and its block size |
| Balloc.TilesApart | source/goahead/src/balloc.c:212-300 | Blocks of the arena never overlap |
| Balloc.TileInside | source/goahead/src/balloc.c:212-300 | Every block lies in the part of the arena handed out so far |
| Balloc.SizesSum | source/goahead/src/balloc.c:212-300 | Block sizes add up to that part |
| Balloc.PopKeeps | source/goahead/src/balloc.c:275-287 | Taking the front of a free queue keeps the arena an exact partition and gives out a block nobody holds |
| Balloc.CarveKeeps | source/goahead/src/balloc.c:289-305 | Cutting a block off the untouched part keeps the partition |
| Balloc.MallocKeeps | source/goahead/src/balloc.c:212-356 | A block obtained from the system disturbs no other |
| Balloc.PushKeeps | source/goahead/src/balloc.c:365-405 | A freed block joins the queue of its own class, once |
| Balloc.UnmallocKeeps | source/goahead/src/balloc.c:365-405 | A block of the system's is given back and no other is touched |
| Balloc.LiveHeader | source/goahead/src/balloc.c:365-405 | The integrity mark in a header is intact exactly while the block is in use, and the size stored there is its capacity |
| Balloc.WriteKeeps | source/goahead/src/balloc.c:212-356 | A caller writing into its own block breaks nothing |
| Balloc.Arena.constructor | source/goahead/src/balloc.c:137-188 | Nothing is handed out at first and the whole arena is untouched |
| Balloc.Arena.Balloc | source/goahead/src/balloc.c:212-356 | A request is refused exactly when negative or when no block can be had, and then changes nothing; otherwise it gets a fresh block of its class, from the front of its queue if that has one, else from the untouched part while that is large enough, else from the system |
| Balloc.Arena.Bfree | source/goahead/src/balloc.c:365-405 | A block in use is returned to its own class or to the system; freeing one already free, with its header unmodified, changes nothing |
| Balloc.Arena.Brealloc | source/goahead/src/balloc.c:490-513 | It fails exactly if the block does not already fit and a new one of that size would be refused, and then changes nothing; otherwise the old bytes lead the block returned, the old block is released only after a successful move, one that fits stays in place, and nobody else's bytes change; without a block it is an allocation |
| Balloc.RefusedExactly | source/goahead/src/balloc.c:212-356 | A request is refused exactly if it is negative, or the system may not be asked, no free block of the smallest class that holds it is queued and the untouched part is not larger than such a block |
| Balloc.FreedServes | source/goahead/src/balloc.c:275-287 | A block given back serves the next request of its class, whatever else is left, and the queues are then as before |
| Balloc.LiveApart | source/goahead/src/balloc.c:212-532 | Blocks in use never overlap, in every reachable state |
| Balloc.ArenaConserved | source/goahead/src/balloc.c:137-532 | Blocks and untouched part together make up the arena, in every reachable state |
| Md5Compress.CallsMatchTables | source/goahead/src/md5c.c:55-223 | The word, rotation and constant written into each of the 64 unrolled calls are those of the tables |
| Md5Compress.ShortForms | source/goahead/src/md5c.c:16-19 | The shortened F and G are the functions of section 3.4 of RFC 1321 |
| Md5Compress.UnrollingAgrees | source/goahead/src/md5c.c:108-223 | The unrolled code, which renames nothing, computes what the loop with its register rotation computes |
| Md5Compress.CompressAgrees | source/goahead/src/md5c.c:108-223 | Both builds of the compression function are the same function |
| Md5Compress.LoadIsWord | source/goahead/src/md5c.c:31-35 | A word is loaded from its four bytes low byte first |
| BitWords.StoreIsWord | source/goahead/src/md5c.c:25-29 | A register is stored as its four bytes low byte first |
| BitWords.LittleValue | source/goahead/src/md5c.c:31-35 | Shifting and joining four bytes gives the number they spell in base 256 |
| Md5Rfc.EmptyDigest | source/goahead/src/md5c.c:55-353 | The digest of the empty message is the one appendix A.5 of RFC 1321 gives |
| Md5Rfc.AbcDigest | source/goahead/src/md5c.c:55-353 | So is that of the message abc, byte for byte |
| Md5.Pad | source/goahead/src/md5c.c:291-340 | The padding of sections 3.1 and 3.2 of RFC 1321 completes the message to whole blocks with the fewest bytes |
| Md5.PadBlocks | source/goahead/src/md5c.c:303-340 | What remains of a message is closed in one block if at most 55 bytes are left, and in two otherwise |
| Md5.CarryAdds | source/goahead/src/md5c.c:279-285 | The two-word bit count with its carry is addition modulo 2^64 |
| Md5.AbsorbBlock | source/goahead/src/md5c.c:262-289 | Absorbing one more block is one compression |
| Md5.Context.Init | source/goahead/src/md5c.c:247-260 | A fresh context has been fed nothing |
| Md5.Context.Update | source/goahead/src/md5c.c:262-289 | The context depends only on the bytes fed, not on how they were split |
| Md5.Context.Feed | source/goahead/src/md5c.c:266-287 | One copy into the block, compressing and counting when it is full |
| Md5.Context.Count | source/goahead/src/md5c.c:279-285 | The count is right modulo 2^64 |
| Md5.Context.Finish | source/goahead/src/md5c.c:291-340 | Closing the message absorbs exactly its padding |
| Md5.Context.Final | source/goahead/src/md5c.c:291-353 | The digest is that of everything fed, and the context is wiped |
| Calendar.LeapAgrees | source/goahead/src/webs.c:3097-3114 | The leap test is the Gregorian rule exactly for years that are not negative, not centuries, or multiples of 400 |
| Calendar.LeapDisagrees | source/goahead/src/webs.c:3097-3114 | Year -100 is taken for a leap year |
| Calendar.NextDayIsNext | source/goahead/src/webs.c:3121-3143 | Consecutive days get consecutive numbers, over month ends, leap days and year ends |
| Calendar.OrderKept | source/goahead/src/webs.c:3121-3143 | A date comes before another exactly if its number is smaller |
| Calendar.EveryDayNumbered | source/goahead/src/webs.c:3121-3143 | Every number from 1 on belongs to exactly one valid date |
| Calendar.FirstDay | source/goahead/src/webs.c:3121-3143 | Numbers start at 1, on the first of January of year 1 |
| Calendar.YearRoundTrip | source/goahead/src/webs.c:3149-3173 | The year computed from a date's number is the year of the date |
| Calendar.YearRecovered | source/goahead/src/webs.c:3149-3173 | The same for every number between two year starts |
| Calendar.TimeAdvances | source/goahead/src/webs.c:3257-3271 | The time of a date advances by 86400 seconds a day and is 0 at the start of 1970 |
| SymTable.IsPrime | source/goahead/src/sym.c:435-448 | Trial division up to half decides primality |
| SymTable.CalcPrime | source/goahead/src/sym.c:455-467 | The largest prime not above the size asked for, and 1 for the size 1 |
| SymTable.ComputeHashIndex | source/goahead/src/sym.c:410-428 | The hashing loop is the shift-and-add sum of the name, and lands in the table |
| SymTable.HashTerms | source/goahead/src/sym.c:410-428 | That sum counts the character at place k 2^(7k mod 24) times, modulo the unsigned word |
| SymTable.EnterGets | source/goahead/src/sym.c:263-336 | Entering changes what is held under that name and nothing else, and keeps every name once and in its own bucket |
| SymTable.DeleteGets | source/goahead/src/sym.c:343-388 | Deleting removes what is held under that name and nothing else |
| SymTable.FlatExact | source/goahead/src/sym.c:156-220 | The entries in walking order are what the table holds under every name, each once |
| SymTable.Table.constructor | source/goahead/src/sym.c:76-113 | A new table has a prime number of buckets and holds nothing |
| SymTable.Table.Lookup | source/goahead/src/sym.c:228-253 | Finds what is held under a name; nothing is under the empty one |
| SymTable.Table.Enter | source/goahead/src/sym.c:263-336 | The table is the old map with one name set |
| SymTable.Table.Delete | source/goahead/src/sym.c:343-388 | The table is the old map without the name, and -1 says it was not there |
| SymTable.Table.First | source/goahead/src/sym.c:156-184 | A walk begins with the first entry and the others remain |
| SymTable.Table.Next | source/goahead/src/sym.c:191-220 | Each further step gives the next of the remaining entries, and nothing only when none remains |
| SymTable.Table.Walk | source/goahead/src/cgi.c:182-194 | A loop over an unchanged table visits every entry exactly once, in order |
| Handles.HandleTable.AllocEntry | source/goahead/src/h.c:45-188 | An entry goes into the lowest free slot; no other entry moves, also when the table grows |
| Handles.HandleTable.FindFree | source/goahead/src/h.c:72-86 | The scan finds the lowest free slot, and runs off the end exactly when all are taken |
| Handles.HandleTable.Grow | source/goahead/src/h.c:87-99 | Growing adds 16 free slots behind the old ones |
| Handles.HandleTable.Free | source/goahead/src/h.c:108-142 | Gives the slot back and lowers the maximum to the highest slot in use; the last one gives back the table |
| Handles.TakenAll | source/goahead/src/h.c:72-86 | The used counter says whether the table is full and whether it is empty |
| Handles.Topped | source/goahead/src/h.c:123-141 | What is forgotten at the end are free slots, all of them |
| Handles.Highest | source/goahead/src/h.c:130-141 | The scan from the end finds the highest slot in use |
| Handles.SameSlots | source/goahead/src/h.c:108-142 | A list whose last slot is in use is determined by what its handles name |
| Sched.SecondsNearest | source/goahead/src/websuemf.c:112-148 | A delay becomes the nearest number of seconds; it is rounded up exactly for whole seconds and half seconds on |
| Sched.SecondsPast | source/goahead/src/websuemf.c:112-148 | A delay already past is rounded towards now, as C divides |
| Sched.PickFinds | source/goahead/src/websuemf.c:189-207 | A call runs some job whenever one is due, and none farther round the circle than any due one |
| Sched.Served | source/goahead/src/websuemf.c:169-208 | No starvation: a job that stays due is run within as many calls as there are slots, whatever else changes between calls |
| Sched.NobodyTwice | source/goahead/src/websuemf.c:169-208 | While a due job waits, no other is run twice |
| Sched.StaysBefore | source/goahead/src/websuemf.c:169-208 | Until then every job run lies between the start of the search and the waiting one |
| Sched.Scheduler.SchedCallback | source/goahead/src/websuemf.c:112-132 | A new job gets the lowest free id, and under every other id is what was there |
| Sched.Scheduler.ReschedCallback | source/goahead/src/websuemf.c:139-148 | Only the named job gets a new time; an id that names none is ignored |
| Sched.Scheduler.UnschedCallback | source/goahead/src/websuemf.c:152-162 | Under the given id there is no job any more, and under every other what was there |
| Sched.UnschedUndoes | source/goahead/src/websuemf.c:112-162 | Dropping the job scheduled last leaves the queue as it was, its length included |
| Sched.Scheduler.Search | source/goahead/src/websuemf.c:189-207 | Going round the circle once ends, on the first due job if there is one |
| Sched.Scheduler.Process | source/goahead/src/websuemf.c:169-208 | One call runs a job that is due, or none only while every job is still ahead, and remembers where to go on, also after the table has shrunk |
| Url.DecodeUrl | source/goahead/src/webs.c:1961-1996 | Decoding over the text itself never overtakes the reading and gives the decoded text |
| Url.EncodedDecodes | source/goahead/src/webs.c:1961-1996 | However a text is spelled with escapes, of either case, decoding gives it back |
| Url.SpellsDecoded | source/goahead/src/webs.c:1961-1996 | A text is what a request decodes to exactly if the request spells it: a percent sign with two digits for a character, or the character itself where no such escape stands |
| Url.ClimbCancels | source/goahead/src/default.c:458-484 | A climb undoes the segment before it, anywhere in a path, and is lost at the top |
| Url.ResolvedClean | source/goahead/src/default.c:458-484 | No segment left is empty, `.` or `..` or holds a slash, and each was in the request |
| Url.JoinedSegments | source/goahead/src/default.c:498-507 | Splitting the built path gives the segments back |
| Url.StaysInside | source/goahead/src/default.c:395-514 | An accepted path lies under the web directory: what follows the directory is at most 8 real names, in normal form |
| Url.NamesFound | source/goahead/src/default.c:451-484 | A path of names with slashes or backslashes between them, in any number, is resolved to those names |
| Url.AskedFound | source/goahead/src/default.c:395-514 | Every request for at most 8 names, however spelled and separated, leads to them under the web directory |
| Url.CutKeepsRoot | source/goahead/src/default.c:456-498 | Testing the path after it was split still recognises the root and the empty path |
| Url.FoldSegments | source/goahead/src/default.c:451-484 | The loop refuses exactly if some segment finds the stack full, and otherwise holds the resolved segments, with room counted for all of them |
| Url.PushSegment | source/goahead/src/default.c:472-482 | One segment is skipped, pops or is pushed |
| Url.BuildPath | source/goahead/src/default.c:499-505 | The allocated buffer always holds the directory, the segments and the terminator, although popped segments stay counted |
| Url.ValidateUrl | source/goahead/src/default.c:395-514 | The root and the empty request give the web directory; a request for at most 8 names, however spelled, gives the directory with those names; a request is refused exactly if there is no directory, some segment finds the stack full, or nothing remains of what was more than a slash |
| Decimal.IntegerReadsBack | source/goahead/src/misc.c:496-540 | Every int printed is read back, with its sign |
| NumberLaws.DigitAt | source/goahead/src/misc.c:496-540 | The i-th character from the right is the digit of weight 10^i |
| NumberLaws.DigitCount | source/goahead/src/misc.c:502-507 | There are as many digits as the number needs |
| NumberLaws.AtoiReads | source/goahead/src/misc.c:674-680 | Whatever white space stands before a number and whatever follows its digits, the number with its sign is read |
| NumberLaws.HexDigits | source/goahead/src/misc.c:642-666 | Each further hexadecimal digit, of either case, counts the number so far 16 times |
| Decimal.PutUlong | source/goahead/src/misc.c:496-540 | The two printing loops give the digits of every unsigned long without overflow, for 32-bit and 64-bit longs |
| Decimal.FindWeight | source/goahead/src/misc.c:502-507 | The search stops at the weight of the leading digit |
| Decimal.PutDigits | source/goahead/src/misc.c:530-534 | Digit by digit from that weight, nothing is lost |
| Decimal.PutInt | source/goahead/src/misc.c:299-315 | The sign is printed in front of the digits of the absolute value |
| Decimal.PutChars | source/goahead/src/misc.c:435-459 | A buffer growing by 64 up to its maximum, but at least once, keeps all that fits beside the terminator and drops the rest |
| EmfDb.GrownByOne | source/goahead/src/emfdb.c:399-440 | Asking for one row more fills every deleted row first and then adds one at the end |
| EmfDb.EmitAppend | source/goahead/src/emfdb.c:664-688 | What is printed is the lines one after the other |
| EmfDb.IndexOf | source/goahead/src/emfdb.c:966-1033 | The first table or column of a name, or -1 if there is none |
| EmfDbStore.Db.Register | source/goahead/src/emfdb.c:52-111 | The tables so far stay in place; the new one is empty and is found by its name unless an older one has that name, and no other name leads elsewhere |
| EmfDbStore.Db.GetTableId | source/goahead/src/emfdb.c:966-982 | The scan finds the first table of that name |
| EmfDbStore.Db.GetColumnIndex | source/goahead/src/emfdb.c:1016-1033 | The scan finds the first column of that name, and none of a table that is not there |
| EmfDbStore.Db.AddRow | source/goahead/src/emfdb.c:308-334 | A blank row takes the first deleted place or the end, and its number is returned |
| EmfDbStore.Db.SetTableNrow | source/goahead/src/emfdb.c:399-440 | Rows are added until there are enough; the loop ends although filling a deleted row makes no more of them |
| EmfDbStore.Db.DeleteRow | source/goahead/src/emfdb.c:341-392 | Only that row is emptied, and the count drops to the last row left |
| EmfDbStore.Db.Zero | source/goahead/src/emfdb.c:190-229 | Every table keeps its columns and loses its rows |
| EmfDbStore.Db.SearchStr | source/goahead/src/emfdb.c:236-301 | The first row whose cell is that text, heeding case or not; deleted rows and missing texts are passed over |
| EmfDbStore.Db.ReadCell | source/goahead/src/emfdb.c:466-522 | The cell, or the code of the first check that fails |
| EmfDbStore.Db.WriteStr | source/goahead/src/emfdb.c:586-657 | Only that cell changes, or nothing and the code of the first check that fails |
| EmfDbStore.Db.WriteInt | source/goahead/src/emfdb.c:531-576 | The same for numbers |
| EmfDbStore.WriteKeyValue | source/goahead/src/emfdb.c:664-688 | One line, cut where the formatter cuts it |
| EmfDbStore.SaveRow | source/goahead/src/emfdb.c:738-777 | A row is its number and its cells, one line each, in column order |
| EmfDbStore.SaveTable | source/goahead/src/emfdb.c:718-779 | A table is its name and the rows that count |
| EmfDbStore.Db.Save | source/goahead/src/emfdb.c:695-801 | The file holds the lines of the whole database |
| EmfDbStore.Db.Load | source/goahead/src/emfdb.c:838-959 | The tables become what the lines of the file make of them, one after the other |
| EmfDbStore.Db.LoadOneLine | source/goahead/src/emfdb.c:891-949 | A line opens a table, adds a row, sets a cell or is ignored |
| EmfDbTrip.CrackKeyed | source/goahead/src/emfdb.c:808-829 | A printed line is cracked into its key and what trimming and cutting leave of its value |
| EmfDbTrip.EmitTokens | source/goahead/src/emfdb.c:838-955 | Splitting the file at newlines gives the printed lines back |
| EmfDbTrip.RowLineLoads | source/goahead/src/emfdb.c:920-931 | A row line adds one blank row behind the others, whatever number it carries |
| EmfDbTrip.CellLineLoads | source/goahead/src/emfdb.c:933-949 | A cell line sets exactly its own column of the row begun last |
| EmfDbTrip.OneRowLoads | source/goahead/src/emfdb.c:918-949 | The lines of a row add that row, every cell as `Restored` says |
| EmfDbTrip.TableLinesLoad | source/goahead/src/emfdb.c:896-949 | The lines of a table fill the registered table of that name and no other |
| EmfDbTrip.RoundTrip | source/goahead/src/emfdb.c:664-959 | Saving, emptying and loading gives back, table by table, every row with a non-empty first cell, in order and renumbered from 0 |
| EmfDbTrip.RestoredExactly | source/goahead/src/emfdb.c:808-829 | A cell without a newline comes back as it was exactly if it is a number, or a text without carriage return and leading white space |
| EmfDbTrip.ExactRoundTrip | source/goahead/src/emfdb.c:664-959 | If all rows are named and all cells of that kind, the database comes back exactly |
| EmfDbLaws.ReadCodes | source/goahead/src/emfdb.c:466-522 | Exactly when a read is refused, and with which code: no table, no row, no column, a deleted row, in that order |
| EmfDbLaws.NumCodes | source/goahead/src/emfdb.c:531-576 | The same for writing a number, which looks for the column before the row |
| EmfDbLaws.TextCodes | source/goahead/src/emfdb.c:586-657 | The same for writing a text, which wants a text column before it looks for the row |
| EmfDbLaws.WroteReads | source/goahead/src/emfdb.c:466-657 | What is written is read there next; every other cell reads as before, and no refusal changes |
| EmfDbLaws.UnknownTableIgnored | source/goahead/src/emfdb.c:896-949 | Behind the name of an unknown table everything is ignored up to the next table line |
| EmfDbLaws.StrayIgnored | source/goahead/src/emfdb.c:933-949 | Values for a missing column or before the first row, and lines without an equals sign, are ignored |
| EmfDbLaws.EndedAt | source/goahead/src/emfdb.c:808-829 | A line is cut at its last newline, or, without one, at its last carriage return |
| EmfDbLaws.LineCracked | source/goahead/src/emfdb.c:808-829 | White space before the key and before the value goes, and so does a carriage return at the end |
| EmfDbLaws.FoldedEqual | source/goahead/src/emfdb.c:236-301 | Folding makes texts equal exactly if they differ in the case of letters only |
| EmfDbLaws.SkippedExactly | source/goahead/src/emfdb.c:738-777 | A row is written exactly if it is there and its first cell is a text that is not empty |
| Um.XorTwice | source/goahead/src/um.c:256-256 | Exclusive or with the same mask is undone by itself |
| Um.XorEachBit | source/goahead/src/um.c:256-256 | Each bit of the exclusive or tells whether the bits there differ |
| Um.MaskUndone | source/goahead/src/um.c:243-277 | Masking twice gives a string back exactly if each white-space character in it is one the mask leaves alone |
| Um.MaskSpaceless | source/goahead/src/um.c:243-277 | For a string free of white space the masked form holds neither NUL nor white space, and masking again restores it |
| Um.MaskedBits | source/goahead/src/um.c:243-277 | What is stored for a character is the byte whose bits tell where it differs from the mask's, unless that is NUL or white space: then the character itself |
| Um.FirstMasks | source/goahead/src/um.c:243-277 | The mask is applied from its first character on |
| Um.MaskRepeats | source/goahead/src/um.c:243-277 | It begins anew behind its last |
| Um.EncryptString | source/goahead/src/um.c:243-277 | The loop masks the string in place, wrapping the mask around, and stops at the terminator |
| Um.CheckName | source/goahead/src/um.c:1393-1410 | A name is accepted exactly if it is not empty and free of white space |
| Um.AddUser | source/goahead/src/um.c:360-419 | A user is refused by the first check that fails and nothing changes, or gets one row in the first free place, from which the masked password, the group and the two flags are read back as given |
| Um.UserCodes | source/goahead/src/um.c:360-419 | Exactly when a new user is refused, and with which code, in the order of the checks |
| Um.UserStored | source/goahead/src/um.c:400-416 | Reading the cells of the row just written gives back what was put into each |
| Um.GetUserPassword | source/goahead/src/um.c:492-515 | The unmasked password of the first row of that name |
| Um.Commit | source/goahead/src/um.c:193-208 | Writes the lines of all tables |
| Um.Restore | source/goahead/src/um.c:215-235 | Empties the tables before loading |
| UmTrip.UserStorable | source/goahead/src/um.c:360-419 | A database that could be stored still can be after a user was added |
| UmTrip.OnlyNewUser | source/goahead/src/um.c:492-515 | After storing and loading, no other row bears the new user's name |
| UmTrip.PasswordSurvives | source/goahead/src/um.c:193-515 | The password accepted for a new user is the one read back after writing the database, emptying it and loading it |
| EjSkip.SkippingTouchesNothing | source/goahead/src/ejparse.c:371-1128 | With execution off, parsing anything without `var` calls no script function and changes no variable, whatever is nested in it and however long it runs |
| EjSkip.OneBranch | source/goahead/src/ejparse.c:649-691 | Of the two branches of an `if` only the taken one has an effect: what it leaves is what executing that branch alone leaves |
| EjSkip.BranchTaken | source/goahead/src/ejparse.c:632-691 | Whatever the condition, an `if` leaves what executing its first branch leaves if the condition's result begins with 1, and what executing its second leaves, if there is one, otherwise |
| EjSkip.BodyQuiet | source/goahead/src/ejparse.c:734-754 | Reading the increment and the body of a loop to find its end has no effect |
| EjSkip.ZeroIterations | source/goahead/src/ejparse.c:724-790 | A loop whose condition is 0 at first does nothing more than evaluate it |
| EjSkip.DeclaresAnyway | source/goahead/src/ejparse.c:545-556 | A declaration takes effect whether it is executed or only skipped |
| EjEnds.SkipSettles | source/goahead/src/ejparse.c:371-1128 | From a number of steps on that is linear in what is left of the script, more steps change nothing about what is skipped, and the only way not to end is to stand in front of an operator put back |
| EjEnds.StuckBlock | source/goahead/src/ejparse.c:821-872 | A block never ends if its next statement would have to begin with an operator, a comma, an assignment or `else` |
| EjEnds.SpinsForever | source/goahead/src/ejparse.c:466-872 | So `{ +` is never read to its end, executed or skipped |
| EjRuns.CallRuns | source/goahead/src/ejparse.c:589-630 | A call with a literal argument calls the function once with that argument when executing, and does nothing when skipped |
| EjRuns.AssignmentRuns | source/goahead/src/ejparse.c:495-524 | An assignment gives the variable the value when executing and leaves every other variable alone; it does nothing when skipped |
| EjMeaning.ExpressionParsed | source/goahead/src/ejparse.c:1063-1128 | An expression is read up to the mark that ends it; its result, calls and variables, or its failure, are those of its tree: terms joined from left to right, each operator applied to what stands left and right of it, the rest behind a logical operator evaluated first |
| EjMeaning.TermParsed | source/goahead/src/ejparse.c:495-630 | The same for literals, variables, calls and brackets: arguments are evaluated in order, the function is called once with them when executing and not at all when skipped |
| EjMeaning.ActionParsed | source/goahead/src/ejparse.c:495-576 | The same for assignments, which go to the local variable if there is one, and for increments, whose failure only a closing bracket behind them forgives |
| EjScripts.PhraseParsed | source/goahead/src/ejparse.c:441-910 | Run on the script a program is written as, executed or skipped, the interpreter ends where the program ends, with exactly the result, variables and calls the program means, in a return if it returns, and in an error if it fails outside any block; two steps a token and one more an iteration are enough |
| EjScripts.BlockParsed | source/goahead/src/ejparse.c:821-846 | The same for the statements of a block |
| EjScripts.AgainParsed | source/goahead/src/ejparse.c:755-787 | The same for the rotated loop: body, increment and condition, over and over, from the places saved |
| EjScripts.DeclareParsed | source/goahead/src/ejparse.c:916-959 | The same for a list of declarations, which take effect even when skipped |
| EjLaws.BranchCalls | source/goahead/src/ejparse.c:632-691 | `if (v) f(a); else g(b);` makes exactly the call f(a) if v begins with 1, exactly g(b) otherwise, and none when skipped |
| EjLaws.CountingRuns | source/goahead/src/ejparse.c:694-790 | A loop that counts from 0 up to k calls its function k times, once with each number and in order |
| EjLaws.FormulaRuns | source/goahead/src/ejparse.c:1063-1128 | In `x = a + b && c + d;`, for any operators, each gets what stands on its left and right, in that order, and the logical one gets the values of both sides |
| EjLaws.NewlinesBefore | source/goahead/src/ejparse.c:482-483 | Newlines before a statement change nothing |
| EjLaws.NothingLeft | source/goahead/src/ejparse.c:855-863 | A `return` that is executed leaves nothing of the script to be read |
| EjLaws.DeclaredReads | source/goahead/src/ejparse.c:545-556 | A variable just declared is found in the local frame, empty unless it was given a value |
| EjLaws.ErrorLost | source/goahead/src/ejparse.c:821-846 | An undefined variable as the last statement of a block is an error that the closing brace covers up |
| EjSkip.SafeParse | source/goahead/src/ejparse.c:371-434 | Every kind of phrase keeps declarations out of what is still to be read, and touches nothing unless executing |
| EjParser.Interpreter.GetToken | source/goahead/src/ejlex.c:209-583 | The token put back comes first, then the next of the script; words are keywords only where a statement may begin |
| EjParser.Interpreter.Evaluate | source/goahead/src/ejparse.c:371-434 | Every kind of phrase ends as specified, with its own set of acceptable outcomes; what that amounts to is `EjScripts.PhraseParsed`; skipping one, with no declaration ahead, changes no variable and calls no function |
| EjParser.Interpreter.Statement | source/goahead/src/ejparse.c:463-874 | The statement loop, over newlines and skipped returns, ends where specified, and is without effect when skipping; an `if` executes the branch its condition says (`EjSkip.BranchTaken`, `EjLaws.BranchCalls`) |
| EjParser.Interpreter.FirstPass | source/goahead/src/ejparse.c:734-754 | Reading the increment and the body of a loop leaves variables and calls alone, also in a loop that is to be executed |
| EjParser.Interpreter.Iterate | source/goahead/src/ejparse.c:755-787 | The rotated loop: body, increment, condition, each from its saved place |
| EjParser.Interpreter.Block | source/goahead/src/ejparse.c:821-846 | Statements up to the closing brace, without effect when skipping |
| EjParser.Interpreter.Declarations | source/goahead/src/ejparse.c:916-959 | Names separated by commas up to a semicolon |
| EjParser.Interpreter.Arguments | source/goahead/src/ejparse.c:966-995 | Expressions separated by commas, without effect when skipping |
| EjParser.Interpreter.Condition | source/goahead/src/ejparse.c:1002-1056 | Relational expressions combined from left to right, without effect when skipping |
| EjParser.Interpreter.Expression | source/goahead/src/ejparse.c:1063-1128 | Terms combined from left to right; behind a logical operator comes an expression of its own; without effect when skipping |

## Left out

- ShmWriter.ShmWrite.WriteFrame: assumes the sequence counter has not come within two of its 32-bit limit; there the writer starts again at 1 and the reader at 0.
- ShmRing.WriteInv: assumes the same about the sequence counter.
- ShmRing.ExtendLaid: assumes the same about the sequence counter.
- ShmWalk.FrameMoveFails: assumes that the evicted slot is fenced or that a frame landed on it; when bytes of a payload there read like a head, `ShmWalk.OneTooMany` still says where the first step too many leads, and nothing is said about further ones.
- ShmWalk.KeyMoveEnds: assumes the same.
- ShmWalk.BackNExact: starts from valid cursors; from the initial one `ShmWalk.FromInitial` covers moving back, while moving forward reads the shared head as if it were a frame.
- ShmSeek.BackNFrameNolock: a key search is cut off after a given number of moves, since it need not end; the laws hold for every such number. The unset extras buffer of the call may hold anything.
- ShmDelivery.InOrderDelivery: says nothing about readers that were lapped; the sequence number is not compared there.
- Reads outside the region: in the model a word there is 0, and nothing is copied from there.
- Shared memory segments, semaphores and threads: each locked operation is one step.
- The tables of reader ids: a stored cursor is an object of its own.
- The user-defined information in the shared head.
- Balloc.Arena.Balloc: does not say what a new block contains, nor model the failing of the system's own allocator.
- Opening the allocator twice, its statistics and its verification build.
- Sizes that overflow an int in the allocator and the ring queue.
- Wide-character builds, and the builds for other systems and for SSL.
- Sock.Socket.DoOutput: the system's answers are a script given beforehand; once it is used up every send fails, and addresses of datagrams are not modelled.
- Sock.Socket.Flush: event masks are records of three flags.
- SymTable.ComputeHashIndex: characters count as non-negative, as where `char` is unsigned; elsewhere names with bytes above 127 fall into other buckets, which no other law depends on.
- SymTable.Table.Enter: chains are sequences; the links that thread them are not part of this model.
- SymTable.Table.Next: the walk's position belongs to the table, where the code shares one among all tables, and the bucket behind the last one reads as empty.
- The identity of symbol entries and the memory of names and values.
- Md5.Context.Final: words have 32 bits, whatever the width of an unsigned long.
- Calendar.YearRoundTrip: floating-point quotients are exact floors; the conversion back to month and day is disabled in the code and absent here.
- Parsing of date strings and time zones.
- EmfDbStore.Db.WriteInt: asks that the column is not a text column; the code does not check, and would store a number where a string belongs.
- EmfDbStore.Db.Load: asks that a file that is not empty holds more than newlines; the code would crack a missing line.
- Um.Restore: asks the same of the file.
- EmfDbStore.Db.Save: writing does not fail; temporary files and renaming are not part of this model.
- Classification of characters is that of the C locale.
- Um.AddUser: names, groups and flags are as the interface gives them; deleting users, groups and access limits would add easy members only.
- Setting a password later, which does not check for white space: `Um.MaskUndone` says what then comes back.
- UmTrip.PasswordSurvives: asks that the names of the other users come back themselves and that the new lines fit the formatter.
- Url.ValidateUrl: the checks of other systems' reserved names, and the request object, are left out.
- EjParser.Interpreter.Evaluate: runs for a given number of steps, since a script can make the original run for ever; every law holds for every such number, and `EjEnds.SkipSettles` says how many are enough when skipping.
- EjScripts.PhraseParsed: says nothing about a program that goes wrong inside a block, because the brace may cover the error up (`EjLaws.ErrorLost`), nor about scripts no program is written as; newlines between statements are `EjLaws.NewlinesBefore`.
- EjParser.Interpreter.GetToken: scripts are words and tokens; reading characters, putting them back and error texts are left out.
- EjParser.Interpreter.Expression: what operators compute is a parameter, any function at all, as are the script functions.
- The interpreter's own loop over a script and its guard against endless loops.
- Sched.Scheduler.Process: the routine that is run is whatever changes the queue before the next call.
- CGI, pages, forms, uploads, content types, logging and the web server's own loop.
- The vendor interfaces under the main engine.
