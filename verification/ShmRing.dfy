/**
 The shared frame ring as a value: the bytes of the region, the two head fields
 every reader follows, and the writer's private cursor. `WriteFrame` places one
 frame; `Geo` is the history of placements that explains what the bytes mean.
 */
module ShmRing {
  import opened Bytes

  const MAGIC: nat := 0x7F7E7D7C
  const MAX_SEQUENCE: nat := 0xFFFF_FFFF

  // Offsets of the fields of a frame head.
  const PREV: nat := 4
  const NEXT: nat := 8
  const SEQ: nat := 12
  const SIZE: nat := 16
  const EXTRAS: nat := 20

  // Offset of the key-frame flag inside the extras.
  const KEY_OFFSET: nat := 19

  predicate Aligned(n: nat) {
    n % 4 == 0
  }

  function AlignUp(n: nat): (m: nat)
    ensures Aligned(m) && n <= m < n + 4
  {
    n + (4 - n) % 4
  }

  lemma AlignUpFrom(p: nat, n: nat)
    requires Aligned(p)
    ensures AlignUp(p + n) == p + AlignUp(n) && Aligned(p + AlignUp(n))
  {
  }

  /** Sizes fixed when the region is created. `start` is the size of the shared head. */
  datatype Layout = Layout(start: nat, extras: nat, maxFrame: nat, size: nat) {
    function Head(): (h: nat)
      ensures h >= EXTRAS
    {
      EXTRAS + extras
    }

    /** Room a frame of the given payload length takes. */
    function Room(len: nat): nat {
      AlignUp(Head() + len)
    }

    predicate Valid() {
      && 0 < start && Aligned(start)
      && Aligned(extras) && KEY_OFFSET < extras
      && size < 0x8000_0000
      && start + 3 * Room(maxFrame) + Head() <= size
    }
  }

  predicate KeyFlag(extras: seq<byte>) {
    KEY_OFFSET < |extras| && extras[KEY_OFFSET] == 1
  }

  datatype Frame = Frame(payload: seq<byte>, extras: seq<byte>) {
    predicate Fits(L: Layout) {
      1 <= |payload| <= L.maxFrame && |extras| == L.extras
    }

    predicate IsKey() {
      KeyFlag(extras)
    }
  }

  datatype Ring = Ring(mem: seq<byte>, newestPos: nat, newestSeq: nat, writePos: nat, writeSeq: nat)

  function HeadBytes(prev: nat, next: nat, sq: nat, f: Frame): (bs: seq<byte>)
    requires prev < WORD_LIMIT && next < WORD_LIMIT && sq < WORD_LIMIT && |f.payload| < WORD_LIMIT
    ensures |bs| == EXTRAS + |f.extras|
  {
    WordBytes(MAGIC) + WordBytes(prev) + WordBytes(next) + WordBytes(sq) + WordBytes(|f.payload|) + f.extras
  }

  function FrameBytes(prev: nat, next: nat, sq: nat, f: Frame): (bs: seq<byte>)
    requires prev < WORD_LIMIT && next < WORD_LIMIT && sq < WORD_LIMIT && |f.payload| < WORD_LIMIT
    ensures |bs| == EXTRAS + |f.extras| + |f.payload|
  {
    HeadBytes(prev, next, sq, f) + f.payload
  }

  /** Where the frame goes, where the writer stands afterwards, and whether the frame itself wrapped. */
  datatype Placement = Placement(at: nat, next: nat, wrapped: bool)

  function Place(L: Layout, writePos: nat, len: nat): (pl: Placement) {
    var next := AlignUp(writePos + len + L.Head());
    if next >= L.size then
      Placement(L.start, AlignUp(L.start + len + L.Head()), true)
    else if next + L.Head() >= L.size then
      Placement(writePos, L.start, false)
    else
      Placement(writePos, next, false)
  }

  function NextSeq(sq: nat): nat {
    if sq + 1 >= MAX_SEQUENCE then 1 else sq + 1
  }

  /** The state a fresh writer leaves: a zeroed region with both positions at its start. */
  function Fresh(L: Layout): Ring {
    Ring(Zeros(L.size), L.start, 0, L.start, 0)
  }

  ghost predicate Writable(L: Layout, r: Ring, f: Frame) {
    var pl := Place(L, r.writePos, |f.payload|);
    && f.Fits(L) && L.Valid()
    && |r.mem| == L.size && r.newestPos + L.Head() <= L.size && r.writeSeq < MAX_SEQUENCE
    && pl.at + L.Head() + |f.payload| <= L.size && pl.next + L.Head() <= L.size
  }

  /** The bytes once the old newest frame has been linked to the new one. */
  function Linked(L: Layout, r: Ring, f: Frame): (mem: seq<byte>)
    requires Writable(L, r, f)
    ensures |mem| == |r.mem|
  {
    var pl := Place(L, r.writePos, |f.payload|);
    if pl.wrapped then Blit(r.mem, r.newestPos + NEXT, WordBytes(pl.at)) else r.mem
  }

  /** The stores of one write in the writer's order: link, payload, next head, own head. */
  function WriteBytes(L: Layout, r: Ring, f: Frame): (mem: seq<byte>)
    requires Writable(L, r, f)
    ensures |mem| == |r.mem|
  {
    var pl := Place(L, r.writePos, |f.payload|);
    var filled := Blit(Linked(L, r, f), pl.at + L.Head(), f.payload);
    var fenced := Blit(filled, pl.next, Zeros(L.Head()));
    Blit(fenced, pl.at, HeadBytes(r.newestPos, pl.next, NextSeq(r.writeSeq), f))
  }

  function WriteFrame(L: Layout, r: Ring, f: Frame): (r': Ring)
    requires Writable(L, r, f)
  {
    var pl := Place(L, r.writePos, |f.payload|);
    Ring(WriteBytes(L, r, f), pl.at, NextSeq(r.writeSeq), pl.next, NextSeq(r.writeSeq))
  }

  // --- The history behind the bytes ---

  /** A frame placed at `pos`, with the first position after its room. */
  datatype Slot = Slot(frame: Frame, pos: nat, end: nat)

  /**
   Every frame ever written with the position it was given. `lap` is the first
   frame of the lap in progress, `lo` the oldest frame still live, and `tail`
   (0 for none) the zeroed slot abandoned by the wrap that opened this lap.
   */
  datatype Geo = Geo(hist: seq<Slot>, lo: nat, lap: nat, tail: nat) {
    function N(): nat { |hist| }

    function WritePos(L: Layout): nat {
      if lap < |hist| then hist[|hist| - 1].end else L.start
    }

    function NewestPos(L: Layout): nat {
      if |hist| == 0 then L.start else hist[|hist| - 1].pos
    }

    function PosAt(L: Layout, i: nat): nat {
      if i < |hist| then hist[i].pos else WritePos(L)
    }

    function PrevOf(L: Layout, i: nat): nat {
      if 0 < i <= |hist| then hist[i - 1].pos else L.start
    }
  }

  /** The bytes a placed frame occupies, padding left out. */
  function Extent(L: Layout, s: Slot): nat {
    L.Head() + |s.frame.payload|
  }

  /** Every slot is aligned and inside the region, and holds a frame the writer accepts. */
  ghost predicate Slots(L: Layout, g: Geo) {
    forall i :: 0 <= i < g.N() ==>
      && g.hist[i].frame.Fits(L) && Aligned(g.hist[i].pos) && Aligned(g.hist[i].end)
      && L.start <= g.hist[i].pos && g.hist[i].end == g.hist[i].pos + L.Room(|g.hist[i].frame.payload|) <= L.size
  }

  /** Within a lap, live slots follow each other without overlap. */
  ghost predicate Ordered(L: Layout, g: Geo) {
    forall i, j :: g.lo <= i < j < g.N() && (j < g.lap || g.lap <= i) ==> g.hist[i].end <= g.hist[j].pos
  }

  /** Live slots of the old lap lie ahead of the writer's next head and behind the abandoned tail. */
  ghost predicate Ahead(L: Layout, g: Geo) {
    && (forall i :: g.lo <= i < g.lap && i < g.N() ==> g.WritePos(L) + L.Head() <= g.hist[i].pos)
    && (g.tail != 0 ==> forall i :: g.lo <= i < g.lap && i < g.N() ==> g.hist[i].end <= g.tail)
  }

  /** Where the lap begins and where the writer stands. */
  ghost predicate Bounds(L: Layout, g: Geo) {
    && (g.N() > 0 ==> g.hist[0].pos == L.start)
    && (g.lap < g.N() ==> g.hist[g.lap].pos == L.start)
    && (g.lap == g.N() > 0 ==> g.hist[g.N() - 1].end + L.Head() >= L.size)
    && g.WritePos(L) + L.Head() <= L.size
    && (g.tail != 0 ==>
          g.lap < g.N() && g.WritePos(L) + L.Head() <= g.tail && Aligned(g.tail) && g.tail + L.Head() <= L.size)
  }

  /** Frames of the current lap touch each other; across a wrap, a frame and its successor at least stand apart. */
  ghost predicate Follows(L: Layout, g: Geo, i: nat)
    requires i + 1 < g.N()
  {
    if g.lap <= i then g.hist[i + 1].pos == g.hist[i].end else g.hist[i + 1].pos != g.hist[i].pos
  }

  /** Each frame follows the one before it, and the one retired last stood before the end of the writer's next head. */
  ghost predicate Past(L: Layout, g: Geo) {
    && (forall i {:trigger Follows(L, g, i)} :: 0 <= i < g.N() - 1 ==> Follows(L, g, i))
    && (0 < g.lo <= g.N() ==> g.hist[g.lo - 1].pos < g.WritePos(L) + L.Head())
  }

  /** The placement facts of a history. */
  ghost predicate Laid(L: Layout, g: Geo) {
    && L.Valid()
    && g.lo <= g.lap <= g.N() < MAX_SEQUENCE - 1
    && (g.N() > 0 ==> g.lo < g.N())
    && Slots(L, g) && Ordered(L, g) && Ahead(L, g) && Bounds(L, g) && Past(L, g)
  }

  /** The bytes the history calls for at slot `i`: linked both ways, numbered from 1. */
  ghost function SlotBytes(L: Layout, g: Geo, i: nat): (bs: seq<byte>)
    requires Laid(L, g) && i < g.N()
    ensures |bs| == Extent(L, g.hist[i])
  {
    FrameBytes(g.PrevOf(L, i), g.PosAt(L, i + 1), i + 1, g.hist[i].frame)
  }

  ghost predicate FrameAt(L: Layout, mem: seq<byte>, g: Geo, i: nat)
    requires Laid(L, g) && i < g.N()
  {
    Holds(mem, g.hist[i].pos, SlotBytes(L, g, i))
  }

  /** The bytes of the ring are the ones the history calls for. */
  ghost predicate Inv(L: Layout, r: Ring, g: Geo) {
    && Laid(L, g)
    && |r.mem| == L.size
    && r.newestPos == g.NewestPos(L) && r.newestSeq == r.writeSeq == g.N() && r.writePos == g.WritePos(L)
    && (forall i :: g.lo <= i < g.N() ==> FrameAt(L, r.mem, g, i))
    && Holds(r.mem, r.writePos, Zeros(L.Head()))
    && (g.tail != 0 ==> Holds(r.mem, g.tail, Zeros(L.Head())))
  }

  /** First index from `lo` on whose slot lies at or beyond `limit`, or `hi`. */
  function FirstBeyond(hist: seq<Slot>, lo: nat, hi: nat, limit: nat): (i: nat)
    requires lo <= hi <= |hist|
    ensures lo <= i <= hi
    ensures i < hi ==> limit <= hist[i].pos
    ensures forall j :: lo <= j < i ==> hist[j].pos < limit
    decreases hi - lo
  {
    if lo == hi || limit <= hist[lo].pos then lo else FirstBeyond(hist, lo + 1, hi, limit)
  }

  /** The history after one more frame. */
  function Extend(L: Layout, g: Geo, f: Frame): (g': Geo)
    requires g.lo <= g.lap <= g.N()
  {
    var pl := Place(L, g.WritePos(L), |f.payload|);
    var hist := g.hist + [Slot(f, pl.at, pl.at + L.Room(|f.payload|))];
    var limit := pl.next + L.Head();
    if pl.wrapped then
      Geo(hist, FirstBeyond(hist, g.lap, g.N(), limit), g.N(), if limit <= g.WritePos(L) then g.WritePos(L) else 0)
    else if pl.next == L.start then
      Geo(hist, FirstBeyond(hist, g.lap, g.N() + 1, limit), g.N() + 1, 0)
    else
      Geo(hist, FirstBeyond(hist, g.lo, g.lap, limit), g.lap, if limit <= g.tail then g.tail else 0)
  }

  // --- Placement ---

  lemma PlaceCases(L: Layout, w: nat, len: nat)
    requires L.Valid() && Aligned(w)
    ensures Place(L, w, len) ==
      if w + L.Room(len) >= L.size then Placement(L.start, L.start + L.Room(len), true)
      else if w + L.Room(len) + L.Head() >= L.size then Placement(w, L.start, false)
      else Placement(w, w + L.Room(len), false)
    ensures Aligned(L.start + L.Room(len)) && Aligned(w + L.Room(len))
  {
    AlignUpFrom(w, len + L.Head());
    AlignUpFrom(L.start, len + L.Head());
  }

  /** Both wraps open a new lap. */
  predicate OpensLap(L: Layout, pl: Placement) {
    pl.wrapped || pl.next == L.start
  }

  /** What the capacity assumption says about the landing place of a frame that takes `room` bytes. */
  ghost predicate Landing(L: Layout, g: Geo, pl: Placement, room: nat) {
    && Aligned(pl.at) && Aligned(pl.next) && Aligned(pl.at + room)
    && L.start <= pl.at && pl.at + room <= L.size && pl.next + L.Head() <= L.size
    && Disjoint(pl.next, L.Head(), pl.at, room)
    && (pl.wrapped ==>
          && g.lap < g.N() && pl.at == L.start && pl.next == L.start + room && g.WritePos(L) + room >= L.size
          && pl.next + L.Head() <= g.hist[g.N() - 1].pos)
    && (!pl.wrapped ==> pl.at == g.WritePos(L))
    && (!pl.wrapped && pl.next != L.start ==> pl.next == pl.at + room)
    && (!pl.wrapped && pl.next == L.start ==>
          pl.at + room + L.Head() >= L.size && g.lap < g.N() && L.start + L.Head() <= g.hist[g.N() - 1].pos)
    && (!pl.wrapped && g.lap == g.N() > 0 ==> pl.next + L.Head() <= g.hist[g.N() - 1].pos)
  }

  lemma PlaceLands(L: Layout, g: Geo, f: Frame)
    requires Laid(L, g) && f.Fits(L)
    ensures Landing(L, g, Place(L, g.WritePos(L), |f.payload|), L.Room(|f.payload|))
    ensures L.Head() + |f.payload| <= L.Room(|f.payload|)
  {
    hide Place, AlignUp, Aligned;
    var w, len := g.WritePos(L), |f.payload|;
    WritePosAligned(L, g);
    PlaceCases(L, w, len);
    RoomBound(L, len);
    if g.N() > 0 {
      RoomBound(L, |g.hist[g.N() - 1].frame.payload|);
    }
  }

  lemma RoomBound(L: Layout, len: nat)
    requires len <= L.maxFrame
    ensures L.Head() + len <= L.Room(len) <= L.Room(L.maxFrame)
    ensures Aligned(L.Room(len))
  {
  }

  lemma WritePosAligned(L: Layout, g: Geo)
    requires Laid(L, g)
    ensures Aligned(g.WritePos(L)) && L.start <= g.WritePos(L)
  {
    hide Aligned, AlignUp;
  }

  /** Live frames of the current lap end at or before the writer. */
  lemma EndsAtWritePos(L: Layout, g: Geo, i: nat)
    requires Ordered(L, g) && Slots(L, g) && g.lo <= g.lap <= i < g.N()
    ensures g.hist[i].end <= g.WritePos(L)
  {
    if i < g.N() - 1 {
      RoomBound(L, |g.hist[g.N() - 1].frame.payload|);
    }
  }

  lemma ExtendLaid(L: Layout, g: Geo, f: Frame)
    requires Laid(L, g) && f.Fits(L) && g.N() + 2 < MAX_SEQUENCE
    ensures Laid(L, Extend(L, g, f))
    ensures Extend(L, g, f).WritePos(L) == Place(L, g.WritePos(L), |f.payload|).next
    ensures Extend(L, g, f).lo <= g.N()
  {
    hide Aligned, AlignUp, Place, Layout.Room, Layout.Valid, Slots, Ordered, Ahead, Landing, Past;
    PlaceLands(L, g, f);
    ExtendSlots(L, g, f);
    ExtendBounds(L, g, f);
    ExtendOrdered(L, g, f);
    ExtendAhead(L, g, f);
    ExtendPast(L, g, f);
  }

  lemma FollowsKept(L: Layout, g: Geo, f: Frame, i: nat)
    requires Laid(L, g) && f.Fits(L) && i + 1 < g.N()
    ensures Follows(L, Extend(L, g, f), i)
  {
    RoomPositive(L, g, i);
    hide Aligned, AlignUp, Place, Slots, Ordered, Ahead, Bounds, Layout.Valid, Layout.Room, Frame.Fits, FirstBeyond;
    var g' := Extend(L, g, f);
    assert Follows(L, g, i);
    assert g'.hist[i] == g.hist[i] && g'.hist[i + 1] == g.hist[i + 1];
  }

  lemma RoomPositive(L: Layout, g: Geo, i: nat)
    requires Laid(L, g) && i < g.N()
    ensures g.hist[i].pos < g.hist[i].end
  {
    RoomBound(L, |g.hist[i].frame.payload|);
  }

  lemma FollowsAdded(L: Layout, g: Geo, f: Frame)
    requires Laid(L, g) && f.Fits(L) && 0 < g.N()
    requires Landing(L, g, Place(L, g.WritePos(L), |f.payload|), L.Room(|f.payload|))
    ensures Follows(L, Extend(L, g, f), g.N() - 1)
  {
    RoomPositive(L, g, g.N() - 1);
    RoomBound(L, |f.payload|);
    hide Aligned, AlignUp, Place, Slots, Ordered, Ahead, Past, Layout.Valid, Layout.Room, Frame.Fits, FirstBeyond;
    var g' := Extend(L, g, f);
    assert g'.hist[g.N() - 1] == g.hist[g.N() - 1];
  }

  /** The frame just before the first one not retired stood before the limit. */
  lemma LastRetired(hist: seq<Slot>, lo: nat, hi: nat, limit: nat)
    requires lo <= hi <= |hist|
    ensures var i := FirstBeyond(hist, lo, hi, limit);
      && (lo < i ==> hist[i - 1].pos < limit)
      && (lo < hi && hist[lo].pos < limit ==> lo < i)
  {
    hide FirstBeyond;
  }

  lemma LapOpens(L: Layout, g: Geo, pl: Placement, room: nat)
    requires Laid(L, g) && Landing(L, g, pl, room) && OpensLap(L, pl)
    ensures g.lap < g.N() && g.hist[g.lap].pos == L.start < pl.next + L.Head()
  {
    hide Aligned, Slots, Ordered, Ahead, Past;
  }

  lemma RetiredEarlier(L: Layout, g: Geo, pl: Placement, room: nat)
    requires Laid(L, g) && Landing(L, g, pl, room) && !OpensLap(L, pl)
    ensures 0 < g.lo ==> g.hist[g.lo - 1].pos < pl.next + L.Head()
  {
    hide Aligned, Slots, Ordered, Ahead, Bounds, Follows;
  }

  lemma RetiredBefore(L: Layout, g: Geo, f: Frame)
    requires Laid(L, g) && f.Fits(L)
    requires Landing(L, g, Place(L, g.WritePos(L), |f.payload|), L.Room(|f.payload|))
    ensures var g' := Extend(L, g, f);
      var limit := Place(L, g.WritePos(L), |f.payload|).next + L.Head();
      0 < g'.lo <= g'.N() ==> g'.hist[g'.lo - 1].pos < limit
  {
    hide Aligned, AlignUp, Place, Landing, Slots, Ordered, Ahead, Bounds, Past, Layout.Valid, Layout.Room, Frame.Fits,
      FirstBeyond, Geo.WritePos;
    var g' := Extend(L, g, f);
    var pl, room := Place(L, g.WritePos(L), |f.payload|), L.Room(|f.payload|);
    if OpensLap(L, pl) {
      LapOpens(L, g, pl, room);
      LastRetired(g'.hist, g.lap, g'.lap, pl.next + L.Head());
    } else {
      RetiredEarlier(L, g, pl, room);
      LastRetired(g'.hist, g.lo, g.lap, pl.next + L.Head());
    }
  }

  lemma ExtendFollows(L: Layout, g: Geo, f: Frame, i: nat)
    requires Laid(L, g) && f.Fits(L) && i < g.N()
    requires Landing(L, g, Place(L, g.WritePos(L), |f.payload|), L.Room(|f.payload|))
    ensures i + 1 < Extend(L, g, f).N() && Follows(L, Extend(L, g, f), i)
  {
    hide Aligned, AlignUp, Place, Landing, Slots, Ordered, Ahead, Bounds, Past, Layout.Valid, Layout.Room, Frame.Fits,
      Follows, Geo.WritePos, FirstBeyond;
    if i + 1 < g.N() {
      FollowsKept(L, g, f, i);
    } else {
      FollowsAdded(L, g, f);
    }
  }

  lemma ExtendCount(L: Layout, g: Geo, f: Frame)
    requires g.lo <= g.lap <= g.N()
    ensures Extend(L, g, f).N() == g.N() + 1
  {
    hide Place, FirstBeyond;
  }

  lemma ExtendPast(L: Layout, g: Geo, f: Frame)
    requires Laid(L, g) && f.Fits(L)
    requires Landing(L, g, Place(L, g.WritePos(L), |f.payload|), L.Room(|f.payload|))
    requires Extend(L, g, f).WritePos(L) == Place(L, g.WritePos(L), |f.payload|).next
    ensures Past(L, Extend(L, g, f))
  {
    hide Place, Landing, Slots, Ordered, Ahead, Bounds, Layout.Valid, Layout.Room, Frame.Fits, Follows, Geo.WritePos, Extend;
    RetiredBefore(L, g, f);
    ExtendCount(L, g, f);
    var g' := Extend(L, g, f);
    forall i | 0 <= i < g'.N() - 1 ensures Follows(L, g', i) {
      ExtendFollows(L, g, f, i);
    }
  }

  lemma ExtendSlots(L: Layout, g: Geo, f: Frame)
    requires Laid(L, g) && f.Fits(L)
    requires Landing(L, g, Place(L, g.WritePos(L), |f.payload|), L.Room(|f.payload|))
    ensures Slots(L, Extend(L, g, f))
  {
    hide Aligned, AlignUp, Place, Layout.Room, Frame.Fits, Ordered, Ahead, Bounds, FirstBeyond;
    var g' := Extend(L, g, f);
    assert forall i :: 0 <= i < g.N() ==> g'.hist[i] == g.hist[i];
  }

  lemma ExtendBounds(L: Layout, g: Geo, f: Frame)
    requires Laid(L, g) && f.Fits(L)
    requires Landing(L, g, Place(L, g.WritePos(L), |f.payload|), L.Room(|f.payload|))
    ensures Bounds(L, Extend(L, g, f))
    ensures Extend(L, g, f).WritePos(L) == Place(L, g.WritePos(L), |f.payload|).next
    ensures Extend(L, g, f).lo <= Extend(L, g, f).lap <= g.N() + 1
    ensures Extend(L, g, f).lo <= g.N()
  {
    WritePosAligned(L, g);
    hide Aligned, AlignUp, Place, Layout.Room, Frame.Fits, Slots, Ordered, Ahead;
  }

  lemma ExtendOrdered(L: Layout, g: Geo, f: Frame)
    requires Laid(L, g) && f.Fits(L)
    requires Landing(L, g, Place(L, g.WritePos(L), |f.payload|), L.Room(|f.payload|))
    ensures Ordered(L, Extend(L, g, f))
  {
    hide Aligned, AlignUp, Place, Layout.Room, Layout.Valid, Frame.Fits, Ahead, FirstBeyond;
    var g' := Extend(L, g, f);
    forall i, j | g'.lo <= i < j < g'.N() && (j < g'.lap || g'.lap <= i)
      ensures g'.hist[i].end <= g'.hist[j].pos
    {
      if j < g.N() {
        assert g.hist[i].end <= g.hist[j].pos;
      } else {
        EndsAtWritePos(L, g, i);
      }
    }
  }

  /** Within a lap, positions rise with the index. */
  lemma Climbs(L: Layout, g: Geo, i: nat, j: nat)
    requires Slots(L, g) && Ordered(L, g) && g.lo <= i <= j < g.N() && (j < g.lap || g.lap <= i)
    ensures g.hist[i].pos <= g.hist[j].pos
  {
    RoomBound(L, |g.hist[i].frame.payload|);
  }

  /** What the new history retires lies before the writer's next head; what it keeps of the old lap lies beyond. */
  lemma KeptBeyond(L: Layout, g: Geo, f: Frame, i: nat)
    requires Laid(L, g) && f.Fits(L)
    requires var g' := Extend(L, g, f); g'.lo <= i < g'.lap && i < g.N()
    ensures Place(L, g.WritePos(L), |f.payload|).next + L.Head() <= g.hist[i].pos
  {
    hide Aligned, AlignUp, Place, Layout.Room;
    var g' := Extend(L, g, f);
    Climbs(L, g, g'.lo, i);
  }

  lemma ExtendAhead(L: Layout, g: Geo, f: Frame)
    requires Laid(L, g) && f.Fits(L)
    requires Landing(L, g, Place(L, g.WritePos(L), |f.payload|), L.Room(|f.payload|))
    ensures Ahead(L, Extend(L, g, f))
  {
    hide Aligned, AlignUp, Place, Landing, Layout.Room, Layout.Valid, Frame.Fits, Slots, Ordered, FirstBeyond;
    ExtendBounds(L, g, f);
    var g' := Extend(L, g, f);
    forall i | g'.lo <= i < g'.lap && i < g'.N()
      ensures g'.WritePos(L) + L.Head() <= g'.hist[i].pos
      ensures g'.tail != 0 ==> g'.hist[i].end <= g'.tail
    {
      if i < g.N() {
        KeptBeyond(L, g, f, i);
      } else {
        AddedBeyond(L, g, f);
      }
      TailBehind(L, g, f, i);
    }
  }

  /** A frame that closes its lap lies beyond the head zeroed at the start. */
  lemma AddedBeyond(L: Layout, g: Geo, f: Frame)
    requires Laid(L, g) && f.Fits(L) && Extend(L, g, f).lap == g.N() + 1
    requires Landing(L, g, Place(L, g.WritePos(L), |f.payload|), L.Room(|f.payload|))
    ensures var pl := Place(L, g.WritePos(L), |f.payload|);
      pl.next + L.Head() <= pl.at && Extend(L, g, f).hist[g.N()].pos == pl.at
  {
    WritePosAligned(L, g);
    hide Aligned, AlignUp, Place, Layout.Room, Slots, Ordered, Ahead, FirstBeyond;
  }

  /** An abandoned tail lies behind every frame of the old lap that is still live. */
  lemma TailBehind(L: Layout, g: Geo, f: Frame, i: nat)
    requires Laid(L, g) && f.Fits(L)
    requires Landing(L, g, Place(L, g.WritePos(L), |f.payload|), L.Room(|f.payload|))
    requires var g' := Extend(L, g, f); g'.lo <= i < g'.lap && i < g'.N()
    ensures Extend(L, g, f).tail != 0 ==> Extend(L, g, f).hist[i].end <= Extend(L, g, f).tail
  {
    hide Aligned, AlignUp, Place, Layout.Room, Layout.Valid, Frame.Fits, Ordered, Slots;
    if Place(L, g.WritePos(L), |f.payload|).wrapped {
      EndsAtWritePos(L, g, i);
    }
  }

  // --- Bytes ---

  /** A write touches its own head and payload, and the head that follows it. */
  predicate Untouched(L: Layout, pl: Placement, len: nat, p: nat, n: nat) {
    Disjoint(pl.at, L.Head() + len, p, n) && Disjoint(pl.next, L.Head(), p, n)
  }

  lemma SurvivorsUntouched(L: Layout, g: Geo, f: Frame, i: nat)
    requires Laid(L, g) && f.Fits(L)
    requires Extend(L, g, f).lo <= i < g.N()
    ensures Untouched(L, Place(L, g.WritePos(L), |f.payload|), |f.payload|, g.hist[i].pos, Extent(L, g.hist[i]))
  {
    PlaceLands(L, g, f);
    RoomBound(L, |g.hist[i].frame.payload|);
    hide Aligned, AlignUp, Layout.Room, Place;
    if i < Extend(L, g, f).lap {
      KeptBeyond(L, g, f, i);
    }
    if g.lap <= i {
      EndsAtWritePos(L, g, i);
    }
  }

  lemma Relink(mem: seq<byte>, p: nat, prev: nat, next: nat, sq: nat, f: Frame, next': nat)
    requires prev < WORD_LIMIT && next < WORD_LIMIT && next' < WORD_LIMIT && sq < WORD_LIMIT && |f.payload| < WORD_LIMIT
    requires Holds(mem, p, FrameBytes(prev, next, sq, f))
    ensures Holds(Blit(mem, p + NEXT, WordBytes(next')), p, FrameBytes(prev, next', sq, f))
  {
    var was, now := FrameBytes(prev, next, sq, f), FrameBytes(prev, next', sq, f);
    var mem' := Blit(mem, p + NEXT, WordBytes(next'));
    forall i | 0 <= i < |now| ensures mem'[p + i] == now[i] {
      assert mem[p + i] == mem[p..p + |was|][i];
    }
    assert mem'[p..p + |now|] == now;
  }

  /** The three stores that follow the link keep whatever they do not touch. */
  lemma WriteKeeps(L: Layout, r: Ring, f: Frame, p: nat, held: seq<byte>)
    requires Writable(L, r, f)
    requires Untouched(L, Place(L, r.writePos, |f.payload|), |f.payload|, p, |held|)
    requires Holds(Linked(L, r, f), p, held)
    ensures Holds(WriteBytes(L, r, f), p, held)
  {
    hide Place, Holds, Zeros, HeadBytes;
    var pl := Place(L, r.writePos, |f.payload|);
    var linked := Linked(L, r, f);
    var filled := Blit(linked, pl.at + L.Head(), f.payload);
    BlitKeeps(linked, pl.at + L.Head(), f.payload, p, held);
    var fenced := Blit(filled, pl.next, Zeros(L.Head()));
    BlitKeeps(filled, pl.next, Zeros(L.Head()), p, held);
    BlitKeeps(fenced, pl.at, HeadBytes(r.newestPos, pl.next, NextSeq(r.writeSeq), f), p, held);
  }

  /** The write leaves the whole frame at its position and a zeroed head after it. */
  lemma WriteLands(L: Layout, r: Ring, f: Frame)
    requires Writable(L, r, f)
    requires var pl := Place(L, r.writePos, |f.payload|);
      Disjoint(pl.next, L.Head(), pl.at, L.Head() + |f.payload|)
    ensures var pl := Place(L, r.writePos, |f.payload|);
      && Holds(WriteBytes(L, r, f), pl.at, FrameBytes(r.newestPos, pl.next, NextSeq(r.writeSeq), f))
      && Holds(WriteBytes(L, r, f), pl.next, Zeros(L.Head()))
  {
    hide Place, Zeros;
    var pl := Place(L, r.writePos, |f.payload|);
    var filled := Blit(Linked(L, r, f), pl.at + L.Head(), f.payload);
    var fenced := Blit(filled, pl.next, Zeros(L.Head()));
    var head := HeadBytes(r.newestPos, pl.next, NextSeq(r.writeSeq), f);
    BlitHolds(filled, pl.next, Zeros(L.Head()));
    BlitKeeps(fenced, pl.at, head, pl.next, Zeros(L.Head()));
    BlitHolds(Linked(L, r, f), pl.at + L.Head(), f.payload);
    BlitKeeps(filled, pl.next, Zeros(L.Head()), pl.at + L.Head(), f.payload);
    BlitKeeps(fenced, pl.at, head, pl.at + L.Head(), f.payload);
    BlitHolds(fenced, pl.at, head);
    HoldsConcat(WriteBytes(L, r, f), pl.at, head, f.payload);
  }

  lemma InvWritable(L: Layout, r: Ring, g: Geo, f: Frame)
    requires Inv(L, r, g) && f.Fits(L)
    ensures Writable(L, r, f)
  {
    PlaceLands(L, g, f);
    hide Aligned, AlignUp, Place, Layout.Room, Ordered, Ahead;
  }

  /** One more frame changes the bytes called for only at the newest slot, and only in its link. */
  lemma SlotBytesKept(L: Layout, g: Geo, f: Frame, i: nat)
    requires Laid(L, g) && f.Fits(L) && Laid(L, Extend(L, g, f)) && i < g.N()
    ensures i < g.N() - 1 ==> SlotBytes(L, Extend(L, g, f), i) == SlotBytes(L, g, i)
    ensures i == g.N() - 1 ==> SlotBytes(L, Extend(L, g, f), i) ==
                               FrameBytes(g.PrevOf(L, i), Place(L, g.WritePos(L), |f.payload|).at, i + 1, g.hist[i].frame)
  {
    hide FrameBytes, Place, Slots, Ordered, Ahead, Bounds, Past, FirstBeyond;
  }

  /** Linking the newest frame to the new one leaves every live frame with its final bytes. */
  lemma LinkedHolds(L: Layout, r: Ring, g: Geo, f: Frame, i: nat)
    requires Inv(L, r, g) && f.Fits(L) && Writable(L, r, f) && Laid(L, Extend(L, g, f))
    requires g.lo <= i < g.N()
    ensures Holds(Linked(L, r, f), g.hist[i].pos, SlotBytes(L, Extend(L, g, f), i))
  {
    hide Aligned, AlignUp, Layout.Room, Place, FrameBytes, SlotBytes, Extend, Ordered, Ahead, Slots;
    PlaceLands(L, g, f);
    SlotBytesKept(L, g, f, i);
    var pl := Place(L, g.WritePos(L), |f.payload|);
    assert FrameAt(L, r.mem, g, i);
    var last := g.N() - 1;
    if i == last {
      LinkNewest(L, r, g, pl);
    } else {
      Apart(L, g, i, last);
      if pl.wrapped {
        BlitKeeps(r.mem, r.newestPos + NEXT, WordBytes(pl.at), g.hist[i].pos, SlotBytes(L, g, i));
      }
    }
  }

  lemma LinkNewest(L: Layout, r: Ring, g: Geo, pl: Placement)
    requires Inv(L, r, g) && 0 < g.N() && pl.at < WORD_LIMIT && (pl.wrapped || pl.at == g.WritePos(L))
    ensures var last := g.N() - 1;
      Holds(if pl.wrapped then Blit(r.mem, r.newestPos + NEXT, WordBytes(pl.at)) else r.mem, r.newestPos,
            FrameBytes(g.PrevOf(L, last), pl.at, last + 1, g.hist[last].frame))
  {
    hide Ordered, Ahead, Bounds, FrameBytes, Word, WordBytes, Aligned, AlignUp, Layout.Room;
    var last := g.N() - 1;
    assert FrameAt(L, r.mem, g, last);
    if pl.wrapped {
      Relink(r.mem, r.newestPos, g.PrevOf(L, last), g.PosAt(L, last + 1), last + 1, g.hist[last].frame, pl.at);
    }
  }

  /** Any two live frames occupy disjoint bytes. */
  lemma Apart(L: Layout, g: Geo, i: nat, j: nat)
    requires Laid(L, g) && g.lo <= i < j < g.N()
    ensures Disjoint(g.hist[i].pos, Extent(L, g.hist[i]), g.hist[j].pos, Extent(L, g.hist[j]))
  {
    RoomBound(L, |g.hist[i].frame.payload|);
    RoomBound(L, |g.hist[j].frame.payload|);
    hide Aligned, AlignUp, Layout.Room;
    if i < g.lap <= j {
      EndsAtWritePos(L, g, j);
    }
  }

  lemma TailHeld(L: Layout, r: Ring, g: Geo, f: Frame)
    requires Inv(L, r, g) && f.Fits(L) && Writable(L, r, f) && Extend(L, g, f).tail != 0
    ensures Holds(WriteBytes(L, r, f), Extend(L, g, f).tail, Zeros(L.Head()))
  {
    hide Aligned, AlignUp, Place, Zeros, Holds, FrameAt, WriteBytes, FirstBeyond, Ordered, Ahead;
    PlaceLands(L, g, f);
    var tail := Extend(L, g, f).tail;
    var pl := Place(L, g.WritePos(L), |f.payload|);
    if pl.wrapped {
      RoomBound(L, |g.hist[g.N() - 1].frame.payload|);
      hide Layout.Room, Slots;
      BlitKeeps(r.mem, r.newestPos + NEXT, WordBytes(pl.at), tail, Zeros(L.Head()));
    }
    hide Layout.Room, Slots;
    WriteKeeps(L, r, f, tail, Zeros(L.Head()));
  }

  lemma FrameKept(L: Layout, r: Ring, g: Geo, f: Frame, i: nat)
    requires Inv(L, r, g) && f.Fits(L) && Writable(L, r, f) && Laid(L, Extend(L, g, f))
    requires Extend(L, g, f).lo <= i < g.N()
    ensures FrameAt(L, WriteBytes(L, r, f), Extend(L, g, f), i)
  {
    hide FrameBytes, SlotBytes, WriteBytes, Linked, Place, AlignUp, Aligned, Layout.Room;
    var g' := Extend(L, g, f);
    LinkedHolds(L, r, g, f, i);
    SurvivorsUntouched(L, g, f, i);
    WriteKeeps(L, r, f, g.hist[i].pos, SlotBytes(L, g', i));
  }

  lemma SlotBytesAdded(L: Layout, r: Ring, g: Geo, f: Frame)
    requires Inv(L, r, g) && f.Fits(L) && Laid(L, Extend(L, g, f))
    requires Extend(L, g, f).WritePos(L) == Place(L, g.WritePos(L), |f.payload|).next
    requires Place(L, g.WritePos(L), |f.payload|).next < WORD_LIMIT
    ensures NextSeq(r.writeSeq) == g.N() + 1
    ensures SlotBytes(L, Extend(L, g, f), g.N()) ==
            FrameBytes(r.newestPos, Place(L, g.WritePos(L), |f.payload|).next, g.N() + 1, f)
  {
    hide FrameBytes, Place, AlignUp, Aligned, Layout.Room, Layout.Valid, Slots, Ordered, Ahead, Bounds, Past, FirstBeyond, FrameAt, Holds;
  }

  lemma FrameAdded(L: Layout, r: Ring, g: Geo, f: Frame)
    requires Inv(L, r, g) && f.Fits(L) && Writable(L, r, f) && Laid(L, Extend(L, g, f))
    requires Extend(L, g, f).WritePos(L) == Place(L, g.WritePos(L), |f.payload|).next
    ensures FrameAt(L, WriteBytes(L, r, f), Extend(L, g, f), g.N())
    ensures Holds(WriteBytes(L, r, f), Place(L, g.WritePos(L), |f.payload|).next, Zeros(L.Head()))
  {
    hide FrameBytes, SlotBytes, WriteBytes, Place, AlignUp, Aligned, Layout.Room, Slots, Ordered, Ahead, Bounds, Past, Zeros, Holds;
    PlaceLands(L, g, f);
    SlotBytesAdded(L, r, g, f);
    WriteLands(L, r, f);
  }

  /** One accepted frame keeps the invariant, and the history grows by exactly that frame. */
  lemma WriteInv(L: Layout, r: Ring, g: Geo, f: Frame)
    requires Inv(L, r, g) && f.Fits(L) && g.N() + 2 < MAX_SEQUENCE
    ensures Writable(L, r, f) && Inv(L, WriteFrame(L, r, f), Extend(L, g, f))
  {
    hide Aligned, AlignUp, Place, Layout.Room, FrameAt, WriteBytes, Zeros, Slots, Ordered, Ahead, Bounds, Past, FirstBeyond, Holds;
    InvWritable(L, r, g, f);
    ExtendLaid(L, g, f);
    FrameAdded(L, r, g, f);
    if Extend(L, g, f).tail != 0 {
      TailHeld(L, r, g, f);
    }
    forall i | Extend(L, g, f).lo <= i < g.N() ensures FrameAt(L, WriteBytes(L, r, f), Extend(L, g, f), i) {
      FrameKept(L, r, g, f, i);
    }
  }

  /** A write stays between the shared head and the end of the region, and changes only the bytes it names. */
  lemma WriteStays(L: Layout, r: Ring, g: Geo, f: Frame)
    requires Inv(L, r, g) && f.Fits(L) && Writable(L, r, f)
    ensures var pl := Place(L, r.writePos, |f.payload|);
      && L.start <= pl.at && pl.at + L.Head() + |f.payload| <= L.size
      && L.start <= pl.next && pl.next + L.Head() <= L.size
      && (pl.wrapped ==> L.start <= r.newestPos && r.newestPos + L.Head() <= L.size)
      && forall p :: 0 <= p < L.size && Untouched(L, pl, |f.payload|, p, 1)
                     && (pl.wrapped ==> Disjoint(r.newestPos + NEXT, 4, p, 1)) ==>
            WriteBytes(L, r, f)[p] == r.mem[p]
  {
    PlaceLands(L, g, f);
    hide Place, AlignUp, Aligned, Ordered, Ahead, Layout.Room, FrameAt, Holds, Zeros, WordBytes, HeadBytes;
  }

  /** A fresh region satisfies the invariant with an empty history. */
  lemma FreshInv(L: Layout)
    requires L.Valid()
    ensures Inv(L, Fresh(L), Geo([], 0, 0, 0))
  {
    RoomBound(L, 0);
    assert Fresh(L).mem[L.start..L.start + L.Head()] == Zeros(L.Head());
  }
}
