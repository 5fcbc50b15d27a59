/**
 Reading the ring: a cursor is a position and the sequence number expected there.
 The functions follow the reader's methods branch by branch on any bytes at all;
 the lemmas say what they do from a cursor that denotes a frame of the history.
 */
module ShmCursor {
  import opened Bytes
  import opened ShmRing

  datatype Cursor = Cursor(pos: nat, sq: nat)

  const INITIAL := Cursor(0, 0)

  // Return codes of the reader.
  const EMPTY_SPACE := -3
  const NO_FRAME := -2
  const ERROR := -1
  const OK := 0
  const NO_NEW_FRAME := 0
  const FRAME_TOO_LARGE := 1
  const GET_A_NEW_FRAME := 2
  const GET_A_NEW_KEY_FRAME := 3
  const NEXT_FRAME_OF_NEWEST := 4

  function Magic(r: Ring, p: nat): nat { Word(r.mem, p) }

  function IsFrame(r: Ring, p: nat): bool { Magic(r, p) == MAGIC }

  /** The frame size field read as a signed 32-bit integer. */
  function FrameSize(r: Ring, p: nat): int {
    var w := Word(r.mem, p + SIZE);
    if w < 0x8000_0000 then w else w - WORD_LIMIT
  }

  /** Bytes at `p`; what would stick out of the region is left out. */
  function BytesAt(r: Ring, p: nat, n: int): seq<byte> {
    if 0 <= n && p + n <= |r.mem| then r.mem[p..p + n] else []
  }

  function FrameFrom(L: Layout, r: Ring, p: nat): Frame {
    Frame(BytesAt(r, p + L.Head(), FrameSize(r, p)), BytesAt(r, p + EXTRAS, L.extras))
  }

  /** A reader waiting at a slot the writer wrapped away from is sent to the start of the frame area. */
  function CheckOverflowed(L: Layout, r: Ring, c: Cursor): Cursor {
    if c.pos != 0 && !IsFrame(r, c.pos) && c.sq == Word(r.mem, L.start + SEQ) then Cursor(L.start, c.sq) else c
  }

  /** `size` is the buffer length handed back to the caller. */
  datatype ReadResult = ReadResult(rtn: int, cursor: Cursor, frame: Frame, size: int)

  const NOTHING := Frame([], [])

  /** `capacity` is the caller's buffer size; `frame` is what is copied out on success. */
  function ReadFrame(L: Layout, r: Ring, c: Cursor, capacity: int): ReadResult {
    if r.newestSeq == 0 then
      ReadResult(EMPTY_SPACE, c, NOTHING, capacity)
    else if r.newestSeq < c.sq then
      if r.newestSeq != c.sq - 1 then ReadResult(ERROR, INITIAL, NOTHING, capacity)
      else ReadResult(NO_NEW_FRAME, c, NOTHING, capacity)
    else
      var at := CheckOverflowed(L, r, c);
      if !IsFrame(r, at.pos) then
        ReadResult(ERROR, INITIAL, NOTHING, capacity)
      else if FrameSize(r, at.pos) > L.maxFrame then
        ReadResult(FRAME_TOO_LARGE, Following(r, at.pos), NOTHING, capacity)
      else if FrameSize(r, at.pos) > capacity then
        ReadResult(FRAME_TOO_LARGE, at, NOTHING, capacity)
      else
        ReadResult(GET_A_NEW_FRAME, Following(r, at.pos), FrameFrom(L, r, at.pos), FrameSize(r, at.pos))
  }

  /** The cursor just past the frame at `p`. */
  function Following(r: Ring, p: nat): Cursor {
    var sq := Word(r.mem, p + SEQ) + 1;
    Cursor(Word(r.mem, p + NEXT), if sq >= MAX_SEQUENCE then 0 else sq)
  }

  function Distance2Newest(L: Layout, r: Ring, c: Cursor): int {
    var at := CheckOverflowed(L, r, c);
    if at.sq == r.newestSeq + 1 then -1
    else if IsFrame(r, at.pos) && Word(r.mem, at.pos + SEQ) == at.sq then r.newestSeq - at.sq
    else -2
  }

  datatype MoveResult = MoveResult(rtn: int, cursor: Cursor)

  function MoveBack(L: Layout, r: Ring, c: Cursor): MoveResult {
    if r.newestSeq == 0 then
      MoveResult(EMPTY_SPACE, c)
    else if c.pos == 0 then
      MoveResult(OK, Cursor(r.newestPos, Word(r.mem, r.newestPos + SEQ)))
    else if c.sq == r.newestSeq + 1 then
      MoveResult(OK, Cursor(r.newestPos, r.newestSeq))
    else
      var at := CheckOverflowed(L, r, c);
      var prev := Word(r.mem, at.pos + PREV);
      if IsFrame(r, at.pos) && at.pos != prev && IsFrame(r, prev) then
        MoveResult(OK, Cursor(prev, Word(r.mem, prev + SEQ)))
      else
        MoveResult(ERROR, INITIAL)
  }

  function MoveForward(L: Layout, r: Ring, c: Cursor): MoveResult {
    var res := ReadFrame(L, r, c, L.maxFrame);
    MoveResult(if res.rtn == GET_A_NEW_FRAME then OK else ERROR, res.cursor)
  }

  function Refresh(r: Ring): MoveResult {
    MoveResult(if IsFrame(r, r.newestPos) then OK else ERROR, Cursor(r.newestPos, r.newestSeq))
  }

  datatype ExtrasResult = ExtrasResult(rtn: int, extras: seq<byte>)

  /** The caller's buffer keeps its contents, `kept`, on ERROR and when the extras would stick out of the region. */
  function GetExtras(L: Layout, r: Ring, c: Cursor, kept: seq<byte>): ExtrasResult {
    var at := CheckOverflowed(L, r, c);
    if IsFrame(r, at.pos) then
      ExtrasResult(OK, if at.pos + EXTRAS + L.extras <= |r.mem| then BytesAt(r, at.pos + EXTRAS, L.extras) else kept)
    else if at.sq == r.newestSeq + 1 then ExtrasResult(NEXT_FRAME_OF_NEWEST, Zeros(L.extras))
    else ExtrasResult(ERROR, kept)
  }

  /** The frame after the one at `p`, by that frame's own link and number. */
  ghost predicate Behind(r: Ring, p: nat, c: Cursor) {
    && c.pos == Word(r.mem, p + NEXT)
    && (Word(r.mem, p + SEQ) + 1 < MAX_SEQUENCE ==> c.sq == Word(r.mem, p + SEQ) + 1)
    && (Word(r.mem, p + SEQ) + 1 >= MAX_SEQUENCE ==> c.sq == 0)
  }

  /**
   Whatever the region holds: which code a read gives, and where it leaves the cursor. A frame larger than any
   frame may be is dropped; one that is only larger than the buffer stays next.
   */
  lemma ReadCodes(L: Layout, r: Ring, c: Cursor, capacity: int)
    ensures var res, at := ReadFrame(L, r, c, capacity), CheckOverflowed(L, r, c);
      var size, ahead := FrameSize(r, at.pos), r.newestSeq + 1 < c.sq;
      var here := 0 < r.newestSeq && c.sq <= r.newestSeq;
      && (res.rtn == -3 <==> r.newestSeq == 0)
      && (res.rtn == 0 <==> 0 < r.newestSeq && c.sq == r.newestSeq + 1)
      && (res.rtn == -1 <==> 0 < r.newestSeq && (ahead || (here && Word(r.mem, at.pos) != MAGIC)))
      && (res.rtn == 1 <==> here && Word(r.mem, at.pos) == MAGIC && (L.maxFrame < size || capacity < size))
      && (res.rtn == 2 <==> here && Word(r.mem, at.pos) == MAGIC && size <= L.maxFrame && size <= capacity)
      && (res.rtn in {-3, 0} ==> res.cursor == c) && (res.rtn == -1 ==> res.cursor == Cursor(0, 0))
      && (res.rtn == 1 && size <= L.maxFrame ==> res.cursor == at)
      && (res.rtn == 2 || (res.rtn == 1 && L.maxFrame < size) ==> Behind(r, at.pos, res.cursor))
  {
    hide Word, FrameSize, FrameFrom;
  }

  // --- Cursors and the history ---

  /** The cursor names frame `k` of the history, or the frame to be written next when `k` is its length. */
  ghost predicate Denotes(L: Layout, g: Geo, c: Cursor, k: nat) {
    && c.sq == k + 1
    && (|| (g.lo <= k < g.N() && c.pos == g.hist[k].pos)
        || (k == g.N() > 0 && c.pos == g.WritePos(L))
        || (k == g.lap < g.N() && c.pos == g.tail != 0))
  }

  /** The placement half of the invariant; frame 0 always opened the region. */
  lemma InvLaid(L: Layout, r: Ring, g: Geo)
    requires Inv(L, r, g)
    ensures Laid(L, g)
    ensures g.N() > 0 ==> g.hist[0].pos == L.start
  {
  }

  /** A live frame lies in the region as its block of bytes, with fields that fit their words. */
  lemma LiveHeld(L: Layout, r: Ring, g: Geo, k: nat)
    requires Inv(L, r, g) && g.lo <= k < g.N()
    ensures var f := g.hist[k].frame;
      && Holds(r.mem, g.hist[k].pos, FrameBytes(g.PrevOf(L, k), g.PosAt(L, k + 1), k + 1, f))
      && f.Fits(L) && g.PrevOf(L, k) < WORD_LIMIT && g.PosAt(L, k + 1) < WORD_LIMIT && k + 1 < WORD_LIMIT
  {
    assert FrameAt(L, r.mem, g, k);
    assert g.hist[k].frame.Fits(L);
    hide Slots, Ordered, Ahead, Bounds, Past, Holds, FrameBytes;
  }

  /** Reading the fields of a live frame gives back what was written. */
  lemma LiveFields(L: Layout, r: Ring, g: Geo, k: nat)
    requires Inv(L, r, g) && g.lo <= k < g.N()
    ensures var p := g.hist[k].pos;
      && IsFrame(r, p) && Word(r.mem, p + PREV) == g.PrevOf(L, k) && Word(r.mem, p + NEXT) == g.PosAt(L, k + 1)
      && Word(r.mem, p + SEQ) == k + 1 && FrameSize(r, p) == |g.hist[k].frame.payload|
      && FrameFrom(L, r, p) == g.hist[k].frame && g.hist[k].frame.Fits(L)
  {
    LiveHeld(L, r, g, k);
    hide Inv, Laid, Holds, Word, FrameSize, BytesAt;
    FieldsHeld(L, r, g.hist[k].pos, g.PrevOf(L, k), g.PosAt(L, k + 1), k + 1, g.hist[k].frame);
  }

  lemma HeadWords(prev: nat, next: nat, sq: nat, f: Frame)
    requires prev < WORD_LIMIT && next < WORD_LIMIT && sq < WORD_LIMIT && |f.payload| < WORD_LIMIT
    ensures var bs := FrameBytes(prev, next, sq, f);
      && Word(bs, 0) == MAGIC && Word(bs, PREV) == prev && Word(bs, NEXT) == next
      && Word(bs, SEQ) == sq && Word(bs, SIZE) == |f.payload|
  {
    hide Word, WordBytes;
    var m, p, n, q, z := WordBytes(MAGIC), WordBytes(prev), WordBytes(next), WordBytes(sq), WordBytes(|f.payload|);
    var rest := f.extras + f.payload;
    var bs := FrameBytes(prev, next, sq, f);
    assert bs == [] + m + (p + n + q + z + rest);
    WordAt([], MAGIC, p + n + q + z + rest);
    assert bs == m + p + (n + q + z + rest);
    WordAt(m, prev, n + q + z + rest);
    assert bs == (m + p) + n + (q + z + rest);
    WordAt(m + p, next, q + z + rest);
    assert bs == (m + p + n) + q + (z + rest);
    WordAt(m + p + n, sq, z + rest);
    assert bs == (m + p + n + q) + z + rest;
    WordAt(m + p + n + q, |f.payload|, rest);
  }

  lemma FrameParts(prev: nat, next: nat, sq: nat, f: Frame)
    requires prev < WORD_LIMIT && next < WORD_LIMIT && sq < WORD_LIMIT && |f.payload| < WORD_LIMIT
    ensures var bs := FrameBytes(prev, next, sq, f);
      bs[EXTRAS..EXTRAS + |f.extras|] == f.extras && bs[EXTRAS + |f.extras|..|bs|] == f.payload
  {
    hide WordBytes;
  }

  lemma FieldsHeld(L: Layout, r: Ring, p: nat, prev: nat, next: nat, sq: nat, f: Frame)
    requires prev < WORD_LIMIT && next < WORD_LIMIT && sq < WORD_LIMIT && |f.payload| < 0x8000_0000
    requires |f.extras| == L.extras && Holds(r.mem, p, FrameBytes(prev, next, sq, f))
    ensures IsFrame(r, p) && Word(r.mem, p + PREV) == prev && Word(r.mem, p + NEXT) == next
    ensures Word(r.mem, p + SEQ) == sq && FrameSize(r, p) == |f.payload| && FrameFrom(L, r, p) == f
  {
    hide Word, WordBytes, FrameBytes, HeadBytes;
    var bs := FrameBytes(prev, next, sq, f);
    HeadWords(prev, next, sq, f);
    WordHeld(r.mem, p, bs, 0);
    WordHeld(r.mem, p, bs, PREV);
    WordHeld(r.mem, p, bs, NEXT);
    WordHeld(r.mem, p, bs, SEQ);
    WordHeld(r.mem, p, bs, SIZE);
    SliceHeld(r.mem, p, bs, EXTRAS, L.Head());
    SliceHeld(r.mem, p, bs, L.Head(), |bs|);
    FrameParts(prev, next, sq, f);
  }

  /** A zeroed head is not a frame and carries sequence 0. */
  lemma ZeroFields(L: Layout, r: Ring, p: nat)
    requires Holds(r.mem, p, Zeros(L.Head()))
    ensures !IsFrame(r, p) && Word(r.mem, p + SEQ) == 0
  {
    WordHeld(r.mem, p, Zeros(L.Head()), 0);
    WordHeld(r.mem, p, Zeros(L.Head()), SEQ);
  }

  /** The sequence number found at the start of the frame area. */
  lemma StartSeq(L: Layout, r: Ring, g: Geo)
    requires Inv(L, r, g)
    ensures Word(r.mem, L.start + SEQ) == if g.lap < g.N() then g.lap + 1 else 0
  {
    if g.lap < g.N() {
      LiveFields(L, r, g, g.lap);
    } else {
      ZeroFields(L, r, L.start);
    }
  }

  /** From every valid cursor the overflow check lands on the slot of the frame it denotes. */
  lemma Resolves(L: Layout, r: Ring, g: Geo, c: Cursor, k: nat)
    requires Inv(L, r, g) && Denotes(L, g, c, k)
    ensures CheckOverflowed(L, r, c) == Cursor(g.PosAt(L, k), k + 1)
    ensures k == g.N() ==> !IsFrame(r, g.PosAt(L, k))
    ensures c.pos != 0 && r.newestSeq == g.N() > 0 && r.newestPos == g.hist[g.N() - 1].pos
  {
    hide Word, Ordered, Ahead, Aligned, AlignUp, Layout.Room, FrameFrom;
    WritePosAligned(L, g);
    StartSeq(L, r, g);
    if k < g.N() {
      LiveFields(L, r, g, k);
      if c.pos == g.tail != 0 {
        ZeroFields(L, r, g.tail);
      }
    } else {
      ZeroFields(L, r, g.WritePos(L));
    }
  }

  /** A read delivers exactly the frame the cursor denotes and moves to the next one, or reports nothing new. */
  lemma ReadDelivers(L: Layout, r: Ring, g: Geo, c: Cursor, k: nat, capacity: int)
    requires Inv(L, r, g) && Denotes(L, g, c, k)
    ensures var res := ReadFrame(L, r, c, capacity);
      if k == g.N() then
        res == ReadResult(NO_NEW_FRAME, c, NOTHING, capacity)
      else if |g.hist[k].frame.payload| > capacity then
        res == ReadResult(FRAME_TOO_LARGE, Cursor(g.PosAt(L, k), k + 1), NOTHING, capacity) && Denotes(L, g, res.cursor, k)
      else
        res == ReadResult(GET_A_NEW_FRAME, Cursor(g.PosAt(L, k + 1), k + 2), g.hist[k].frame, |g.hist[k].frame.payload|)
             && Denotes(L, g, res.cursor, k + 1)
  {
    hide Inv, Slots, Ordered, Ahead, Bounds, Past, Layout.Valid, Word, FrameFrom, CheckOverflowed;
    InvLaid(L, r, g);
    Resolves(L, r, g, c, k);
    if k < g.N() {
      LiveFields(L, r, g, k);
    }
  }

  lemma DistanceExact(L: Layout, r: Ring, g: Geo, c: Cursor, k: nat)
    requires Inv(L, r, g) && Denotes(L, g, c, k)
    ensures Distance2Newest(L, r, c) == g.N() - 1 - k
  {
    hide Inv, Slots, Ordered, Ahead, Bounds, Past, Layout.Valid, Word, FrameFrom, CheckOverflowed;
    InvLaid(L, r, g);
    Resolves(L, r, g, c, k);
    if k < g.N() {
      LiveFields(L, r, g, k);
    }
  }

  /** No frame is to be seen where the one evicted last was. */
  ghost predicate Fenced(r: Ring, g: Geo) {
    g.lo == 0 || (g.lo <= g.N() && !IsFrame(r, g.hist[g.lo - 1].pos))
  }

  /** The cursor a step back is handed if there is. */
  ghost function Evicted(r: Ring, g: Geo): Cursor
    requires !Fenced(r, g) && g.lo <= g.N()
  {
    var p := g.hist[g.lo - 1].pos;
    Cursor(p, Word(r.mem, p + SEQ))
  }

  lemma MoveBackLive(L: Layout, r: Ring, g: Geo, c: Cursor, k: nat)
    requires Inv(L, r, g) && Denotes(L, g, c, k) && k > g.lo
    ensures MoveBack(L, r, c) == MoveResult(OK, Cursor(g.hist[k - 1].pos, k))
  {
    hide Inv, Slots, Ordered, Ahead, Bounds, Past, Layout.Valid, Word, FrameFrom, FrameSize, CheckOverflowed;
    InvLaid(L, r, g);
    Resolves(L, r, g, c, k);
    if k < g.N() {
      LiveFields(L, r, g, k);
      LiveFields(L, r, g, k - 1);
      Apart(L, g, k - 1, k);
    }
  }

  /** The oldest live frame and the one evicted last never shared a position. */
  lemma EvictedApart(L: Layout, g: Geo)
    requires Laid(L, g) && 0 < g.lo < g.N()
    ensures g.hist[g.lo - 1].pos != g.hist[g.lo].pos
  {
    RoomPositive(L, g, g.lo - 1);
    hide Slots, Ordered, Ahead, Bounds, Layout.Valid;
    assert Follows(L, g, g.lo - 1);
  }

  lemma MoveBackStops(L: Layout, r: Ring, g: Geo, c: Cursor)
    requires Inv(L, r, g) && Denotes(L, g, c, g.lo) && g.lo < g.N()
    ensures MoveBack(L, r, c) == if Fenced(r, g) then MoveResult(ERROR, INITIAL) else MoveResult(OK, Evicted(r, g))
  {
    hide Inv, Slots, Ordered, Ahead, Bounds, Past, Layout.Valid, Word, FrameFrom, FrameSize, CheckOverflowed;
    InvLaid(L, r, g);
    Resolves(L, r, g, c, g.lo);
    LiveFields(L, r, g, g.lo);
    if g.lo > 0 {
      EvictedApart(L, g);
    }
  }

  /** Stepping back reaches the predecessor while one is live; from the oldest live frame it fails exactly when fenced. */
  lemma MoveBackExact(L: Layout, r: Ring, g: Geo, c: Cursor, k: nat)
    requires Inv(L, r, g) && Denotes(L, g, c, k)
    ensures g.lo <= k && g.lo < g.N()
    ensures k > g.lo ==> MoveBack(L, r, c) == MoveResult(OK, Cursor(g.hist[k - 1].pos, k))
                         && Denotes(L, g, MoveBack(L, r, c).cursor, k - 1)
    ensures k == g.lo ==> MoveBack(L, r, c)
                          == if Fenced(r, g) then MoveResult(ERROR, INITIAL) else MoveResult(OK, Evicted(r, g))
  {
    hide Inv, MoveBack, Fenced, Evicted;
    InvLaid(L, r, g);
    hide Slots, Ordered, Ahead, Bounds, Past;
    if k > g.lo {
      MoveBackLive(L, r, g, c, k);
    } else {
      MoveBackStops(L, r, g, c);
    }
  }

  lemma MoveForwardExact(L: Layout, r: Ring, g: Geo, c: Cursor, k: nat)
    requires Inv(L, r, g) && Denotes(L, g, c, k)
    ensures k < g.N() ==> MoveForward(L, r, c) == MoveResult(OK, Cursor(g.PosAt(L, k + 1), k + 2))
                          && Denotes(L, g, MoveForward(L, r, c).cursor, k + 1)
    ensures k == g.N() ==> MoveForward(L, r, c) == MoveResult(ERROR, c)
  {
    ReadDelivers(L, r, g, c, k, L.maxFrame);
    if k < g.N() {
      LiveFields(L, r, g, k);
    }
  }

  /** The two moves undo each other wherever both frames are live. */
  lemma MovesInverse(L: Layout, r: Ring, g: Geo, c: Cursor, k: nat)
    requires Inv(L, r, g) && Denotes(L, g, c, k)
    ensures k < g.N() ==>
              MoveBack(L, r, MoveForward(L, r, c).cursor) == MoveResult(OK, CheckOverflowed(L, r, c))
    ensures k > g.lo ==>
              MoveForward(L, r, MoveBack(L, r, c).cursor) == MoveResult(OK, CheckOverflowed(L, r, c))
  {
    hide Inv, Slots, Ordered, Ahead, Bounds, Past, Word, FrameFrom, CheckOverflowed, MoveForward, MoveBack;
    InvLaid(L, r, g);
    Resolves(L, r, g, c, k);
    if k < g.N() {
      MoveForwardExact(L, r, g, c, k);
      MoveBackExact(L, r, g, MoveForward(L, r, c).cursor, k + 1);
    }
    if k > g.lo {
      MoveBackExact(L, r, g, c, k);
      MoveForwardExact(L, r, g, MoveBack(L, r, c).cursor, k - 1);
    }
  }

  lemma RefreshNewest(L: Layout, r: Ring, g: Geo)
    requires Inv(L, r, g)
    ensures g.N() > 0 ==> Refresh(r) == MoveResult(OK, Cursor(g.hist[g.N() - 1].pos, g.N()))
                          && Denotes(L, g, Refresh(r).cursor, g.N() - 1)
    ensures g.N() == 0 ==> Refresh(r) == MoveResult(ERROR, Cursor(L.start, 0))
  {
    hide Slots, Ordered, Ahead, Bounds, Past, Layout.Valid, Word, FrameFrom, FrameAt, Holds;
    if g.N() > 0 {
      LiveFields(L, r, g, g.N() - 1);
    } else {
      ZeroFields(L, r, L.start);
    }
  }

  lemma ExtrasExact(L: Layout, r: Ring, g: Geo, c: Cursor, k: nat, kept: seq<byte>)
    requires Inv(L, r, g) && Denotes(L, g, c, k)
    ensures GetExtras(L, r, c, kept) ==
            if k < g.N() then ExtrasResult(OK, g.hist[k].frame.extras)
            else ExtrasResult(NEXT_FRAME_OF_NEWEST, Zeros(L.extras))
  {
    hide Inv, Slots, Ordered, Ahead, Bounds, Past, Layout.Valid, Word, FrameSize, CheckOverflowed;
    InvLaid(L, r, g);
    Resolves(L, r, g, c, k);
    if k < g.N() {
      LiveFields(L, r, g, k);
    }
  }

  /**
   The cursor a refresh leaves behind on an empty ring, `(start, 0)`, is not the
   initial one: a later read through it starts from the first frame of the lap in
   progress, or loses its place if the writer has just turned back to the start.
   */
  lemma StartCursorReads(L: Layout, r: Ring, g: Geo, capacity: int)
    requires Inv(L, r, g)
    ensures var c := Cursor(L.start, 0); var res := ReadFrame(L, r, c, capacity);
      if g.N() == 0 then
        res == ReadResult(EMPTY_SPACE, c, NOTHING, capacity)
      else if g.lap == g.N() then
        res == ReadResult(ERROR, INITIAL, NOTHING, capacity)
      else if |g.hist[g.lap].frame.payload| > capacity then
        res == ReadResult(FRAME_TOO_LARGE, c, NOTHING, capacity)
      else
        var f := g.hist[g.lap].frame;
        res == ReadResult(GET_A_NEW_FRAME, Cursor(g.PosAt(L, g.lap + 1), g.lap + 2), f, |f.payload|)
             && Denotes(L, g, res.cursor, g.lap + 1)
  {
    hide Slots, Ordered, Ahead, Word, FrameFrom, FrameAt, Holds;
    if g.lap < g.N() {
      LiveFields(L, r, g, g.lap);
    } else {
      ZeroFields(L, r, L.start);
    }
  }
}
