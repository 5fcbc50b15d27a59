/**
 What holds over whole runs: the chain of live frames, what a write evicts, and
 in-order delivery to a reader whose steps interleave with the writer's.
 */
module ShmDelivery {
  import opened Bytes
  import opened ShmRing
  import opened ShmCursor

  function Frames(hist: seq<Slot>): (fs: seq<Frame>)
    ensures |fs| == |hist| && forall i :: 0 <= i < |hist| ==> fs[i] == hist[i].frame
  {
    seq(|hist|, i requires 0 <= i < |hist| => hist[i].frame)
  }

  lemma FramesAppend(hist: seq<Slot>, s: Slot)
    ensures Frames(hist + [s]) == Frames(hist) + [s.frame]
  {
  }

  // --- The writer alone ---

  lemma WriteStep(L: Layout, r: Ring, g: Geo, f: Frame)
    requires Inv(L, r, g) && f.Fits(L) && |Frames(g.hist)| + 2 < MAX_SEQUENCE
    ensures Writable(L, r, f) && Inv(L, WriteFrame(L, r, f), Extend(L, g, f))
    ensures Frames(Extend(L, g, f).hist) == Frames(g.hist) + [f]
  {
    hide Inv, Writable, WriteFrame, Place, AlignUp, Aligned, Layout.Room, Frame.Fits;
    WriteInv(L, r, g, f);
    InvLaid(L, r, g);
    hide Slots, Ordered, Ahead, Bounds, Past;
    assert Extend(L, g, f).hist == g.hist + [Extend(L, g, f).hist[g.N()]];
    FramesAppend(g.hist, Extend(L, g, f).hist[g.N()]);
  }

  /** A ring together with the history that explains it. */
  datatype Told = Told(r: Ring, g: Geo)

  /** A writer's state after the frames `fs`: the bytes fit the history and the history is `fs`. */
  ghost predicate Tells(L: Layout, t: Told, fs: seq<Frame>) {
    Inv(L, t.r, t.g) && Frames(t.g.hist) == fs
  }

  ghost function Append(L: Layout, t: Told, f: Frame, fs: seq<Frame>): (t': Told)
    requires Tells(L, t, fs) && f.Fits(L) && |fs| + 2 < MAX_SEQUENCE
    ensures Tells(L, t', fs + [f])
  {
    WriteStep(L, t.r, t.g, f);
    Told(WriteFrame(L, t.r, f), Extend(L, t.g, f))
  }

  ghost function Start(L: Layout): (t: Told)
    requires L.Valid()
    ensures Tells(L, t, [])
  {
    FreshInv(L);
    Told(Fresh(L), Geo([], 0, 0, 0))
  }

  /** The ring and its history after a writer has written `fs` into a fresh region. */
  ghost function Written(L: Layout, fs: seq<Frame>): (t: Told)
    requires L.Valid() && |fs| + 2 < MAX_SEQUENCE && forall f :: f in fs ==> f.Fits(L)
    ensures Tells(L, t, fs)
  {
    hide Tells, Inv, Writable, WriteFrame, Extend, Place, Layout.Valid, Frame.Fits, Fresh;
    if fs == [] then
      Start(L)
    else
      var m := |fs| - 1;
      assert fs == fs[..m] + [fs[m]];
      Append(L, Written(L, fs[..m]), fs[m], fs[..m])
  }

  /** The heads of the live frames form one chain, numbered without gaps, that ends at the newest. */
  ghost predicate Chained(L: Layout, r: Ring, g: Geo) {
    && (forall i :: g.lo <= i < g.N() ==>
          FrameFrom(L, r, g.hist[i].pos) == g.hist[i].frame && Word(r.mem, g.hist[i].pos + SEQ) == i + 1)
    && (forall i :: g.lo <= i < g.N() - 1 ==>
          && Word(r.mem, g.hist[i].pos + NEXT) == g.hist[i + 1].pos
          && Word(r.mem, g.hist[i + 1].pos + PREV) == g.hist[i].pos)
    && (g.N() > 0 ==> g.lo < g.N() && r.newestPos == g.hist[g.N() - 1].pos && r.newestSeq == g.N())
  }

  /** Live frames do not overlap, and every frame was placed on a multiple of 4 inside the region. */
  ghost predicate Separate(L: Layout, g: Geo) {
    && (forall i, j :: g.lo <= i < j < g.N() ==>
          Disjoint(g.hist[i].pos, Extent(L, g.hist[i]), g.hist[j].pos, Extent(L, g.hist[j])))
    && (forall i :: 0 <= i < g.N() ==>
          Aligned(g.hist[i].pos) && L.start <= g.hist[i].pos && g.hist[i].pos + Extent(L, g.hist[i]) <= L.size)
  }

  lemma InvChained(L: Layout, r: Ring, g: Geo)
    requires Inv(L, r, g)
    ensures Chained(L, r, g)
  {
    hide Word, FrameFrom, FrameAt, Holds, Slots, Ordered, Ahead, Bounds, Past, Layout.Valid;
    forall i | g.lo <= i < g.N()
      ensures FrameFrom(L, r, g.hist[i].pos) == g.hist[i].frame && Word(r.mem, g.hist[i].pos + SEQ) == i + 1
    {
      LiveFields(L, r, g, i);
    }
    forall i | g.lo <= i < g.N() - 1
      ensures Word(r.mem, g.hist[i].pos + NEXT) == g.hist[i + 1].pos
      ensures Word(r.mem, g.hist[i + 1].pos + PREV) == g.hist[i].pos
    {
      LiveFields(L, r, g, i);
      LiveFields(L, r, g, i + 1);
    }
  }

  lemma LaidSeparate(L: Layout, g: Geo)
    requires Laid(L, g)
    ensures Separate(L, g)
  {
    hide Aligned, AlignUp, Layout.Room, Ordered, Ahead, Bounds, Layout.Valid;
    forall i, j | g.lo <= i < j < g.N()
      ensures Disjoint(g.hist[i].pos, Extent(L, g.hist[i]), g.hist[j].pos, Extent(L, g.hist[j]))
    {
      Apart(L, g, i, j);
    }
    forall i | 0 <= i < g.N() ensures g.hist[i].pos + Extent(L, g.hist[i]) <= L.size {
      RoomBound(L, |g.hist[i].frame.payload|);
    }
  }

  /** The chain invariant holds after every run of the writer. */
  lemma ChainOfRun(L: Layout, fs: seq<Frame>)
    requires L.Valid() && |fs| + 2 < MAX_SEQUENCE && forall f :: f in fs ==> f.Fits(L)
    ensures var t := Written(L, fs); Frames(t.g.hist) == fs && Chained(L, t.r, t.g) && Separate(L, t.g)
  {
    var r, g := Written(L, fs).r, Written(L, fs).g;
    InvLaid(L, r, g);
    InvChained(L, r, g);
    LaidSeparate(L, g);
  }

  // --- Eviction ---

  /**
   Whether a valid cursor is still valid after a write: it waited for that very
   frame, or its head is not written over and it has not fallen a lap behind.
   */
  predicate Survives(L: Layout, g: Geo, c: Cursor, len: nat) {
    var pl := Place(L, g.WritePos(L), len);
    || c.sq == g.N() + 1
    || (&& Untouched(L, pl, len, c.pos, L.Head())
        && (OpensLap(L, pl) ==> c.sq > g.lap && c.pos != g.tail))
  }

  /** A head lying between a new frame and the end of the zeroed head behind it cannot go untouched. */
  lemma NoGap(L: Layout, at: nat, len: nat, p: nat)
    requires Aligned(at) && Aligned(p)
    requires at <= p < at + L.Room(len) + L.Head()
    ensures !Untouched(L, Placement(at, at + L.Room(len), false), len, p, L.Head())
    ensures !Untouched(L, Placement(at, at + L.Room(len), true), len, p, L.Head())
  {
  }

  /** Exactly which cursors a write leaves valid. */
  lemma SurvivesIff(L: Layout, g: Geo, f: Frame, c: Cursor, k: nat)
    requires Laid(L, g) && f.Fits(L) && Denotes(L, g, c, k)
    ensures Denotes(L, Extend(L, g, f), c, k) <==> Survives(L, g, c, |f.payload|)
  {
    hide Place, AlignUp, Aligned, Layout.Room;
    PlaceLands(L, g, f);
    if k == g.N() {
      WaiterSurvives(L, g, f, c);
    } else if g.lo <= k < g.N() && c.pos == g.hist[k].pos {
      OffTail(L, g, k);
      LiveSurvives(L, g, f, c, k);
    } else {
      TailSurvives(L, g, f, c);
    }
  }

  lemma OffTail(L: Layout, g: Geo, k: nat)
    requires Laid(L, g) && g.lo <= k < g.N()
    ensures g.hist[k].pos != g.tail
  {
    RoomBound(L, |g.hist[k].frame.payload|);
    hide Place, AlignUp, Aligned, Layout.Room;
    if g.lap <= k {
      EndsAtWritePos(L, g, k);
    }
  }

  lemma WaiterSurvives(L: Layout, g: Geo, f: Frame, c: Cursor)
    requires Laid(L, g) && f.Fits(L) && Denotes(L, g, c, g.N())
    ensures Denotes(L, Extend(L, g, f), c, g.N())
  {
    hide Place, AlignUp, Aligned, Slots, Ordered, Ahead;
    PlaceLands(L, g, f);
    ExtendBounds(L, g, f);
    WritePosAligned(L, g);
    if Place(L, g.WritePos(L), |f.payload|).wrapped {
      LastBeforeWriter(L, g);
    }
  }

  lemma LastBeforeWriter(L: Layout, g: Geo)
    requires Laid(L, g) && g.lap < g.N()
    ensures g.hist[g.N() - 1].pos < g.WritePos(L)
  {
    RoomBound(L, |g.hist[g.N() - 1].frame.payload|);
  }

  lemma TailSurvives(L: Layout, g: Geo, f: Frame, c: Cursor)
    requires Laid(L, g) && f.Fits(L) && g.lap < g.N() && c == Cursor(g.tail, g.lap + 1) && g.tail != 0
    ensures Denotes(L, Extend(L, g, f), c, g.lap) <==> Survives(L, g, c, |f.payload|)
  {
    hide Place, AlignUp, Aligned, Slots, Ordered, Ahead;
    PlaceLands(L, g, f);
    WritePosAligned(L, g);
    ExtendBounds(L, g, f);
    var pl := Place(L, g.WritePos(L), |f.payload|);
    assert g.hist[g.lap].pos == L.start < g.tail;
    if !OpensLap(L, pl) && g.tail < pl.next + L.Head() {
      NoGap(L, pl.at, |f.payload|, g.tail);
    }
  }

  lemma LiveSurvives(L: Layout, g: Geo, f: Frame, c: Cursor, k: nat)
    requires Laid(L, g) && f.Fits(L) && g.lo <= k < g.N() && c == Cursor(g.hist[k].pos, k + 1) && c.pos != g.tail
    ensures Denotes(L, Extend(L, g, f), c, k) <==> Survives(L, g, c, |f.payload|)
  {
    hide Slots, Ordered, Ahead;
    var g' := Extend(L, g, f);
    hide Place, AlignUp, Aligned, Layout.Room;
    PlaceLands(L, g, f);
    WritePosAligned(L, g);
    var pl := Place(L, g.WritePos(L), |f.payload|);
    if g'.lo <= k {
      SurvivorsUntouched(L, g, f, k);
    } else {
      RetiredTouched(L, g, f, k);
    }
  }

  /** A live frame leaves the window only by being written over or by falling a lap behind. */
  lemma RetiredTouched(L: Layout, g: Geo, f: Frame, k: nat)
    requires Laid(L, g) && f.Fits(L) && g.lo <= k < g.N() && k < Extend(L, g, f).lo
    ensures var pl := Place(L, g.WritePos(L), |f.payload|);
      || !Untouched(L, pl, |f.payload|, g.hist[k].pos, L.Head())
      || (OpensLap(L, pl) && k < g.lap)
    ensures !Denotes(L, Extend(L, g, f), Cursor(g.hist[k].pos, k + 1), k)
  {
    hide Place, AlignUp, Aligned, Ordered, Layout.Room;
    PlaceLands(L, g, f);
    WritePosAligned(L, g);
    var pl := Place(L, g.WritePos(L), |f.payload|);
    assert Extend(L, g, f).hist[k] == g.hist[k];
    if pl.next != L.start && (!pl.wrapped || g.lap <= k) {
      NoGap(L, pl.at, |f.payload|, g.hist[k].pos);
    }
  }

  /** Each write keeps a contiguous suffix of the window, and always keeps the frame before the new one. */
  lemma EvictionSafe(L: Layout, g: Geo, f: Frame)
    requires Laid(L, g) && f.Fits(L)
    ensures var g' := Extend(L, g, f);
      && g.lo <= g'.lo && (g.N() > 0 ==> g'.lo <= g.N() - 1)
      && g'.hist == g.hist + [g'.hist[g.N()]] && g'.hist[g.N()].frame == f
    ensures forall k :: Extend(L, g, f).lo <= k < g.N() ==>
              Untouched(L, Place(L, g.WritePos(L), |f.payload|), |f.payload|, g.hist[k].pos, Extent(L, g.hist[k]))
  {
    hide Place, AlignUp, Aligned, Ordered, Layout.Room;
    PlaceLands(L, g, f);
    assert g.N() > 0 ==> Extend(L, g, f).hist[g.N() - 1] == g.hist[g.N() - 1];
    forall k | Extend(L, g, f).lo <= k < g.N()
      ensures Untouched(L, Place(L, g.WritePos(L), |f.payload|), |f.payload|, g.hist[k].pos, Extent(L, g.hist[k]))
    {
      SurvivorsUntouched(L, g, f, k);
    }
  }

  // --- Readers and the writer interleaved ---

  /** One locked operation: the writer offers a frame, or the reader asks for one with a buffer of some size. */
  datatype Event = Write(frame: Frame) | Read(capacity: int)

  /** The ring with its history, one reader's cursor, and the frames that reader has been handed. */
  datatype System = System(t: Told, c: Cursor, out: seq<Frame>)

  ghost predicate Sound(L: Layout, s: System) {
    Inv(L, s.t.r, s.t.g)
  }

  /** Frames the writer turns away (empty, or above the maximum) change nothing. */
  ghost function Step(L: Layout, s: System, e: Event): (s': System)
    requires Sound(L, s) && s.t.g.N() + 2 < MAX_SEQUENCE
    ensures Sound(L, s')
    ensures e.Write? && e.frame.Fits(L) ==>
              s'.t.g == Extend(L, s.t.g, e.frame) && Frames(s'.t.g.hist) == Frames(s.t.g.hist) + [e.frame]
    ensures !(e.Write? && e.frame.Fits(L)) ==> s'.t == s.t
    ensures s.t.g.N() <= s'.t.g.N() <= s.t.g.N() + 1
  {
    match e
    case Write(f) =>
      if f.Fits(L) then
        var fs := Frames(s.t.g.hist);
        System(Append(L, s.t, f, fs), s.c, s.out)
      else
        s
    case Read(capacity) =>
      var res := ReadFrame(L, s.t.r, s.c, capacity);
      System(s.t, res.cursor, if res.rtn == GET_A_NEW_FRAME then s.out + [res.frame] else s.out)
  }

  ghost function Exec(L: Layout, s: System, es: seq<Event>): (s': System)
    requires Sound(L, s) && s.t.g.N() + |es| + 2 < MAX_SEQUENCE
    ensures Sound(L, s')
    decreases |es|
  {
    if es == [] then s else Exec(L, Step(L, s, es[0]), es[1..])
  }

  /** The frames among `es` that the writer accepts. */
  function Accepted(L: Layout, es: seq<Event>): seq<Frame> {
    if es == [] then [] else Accepts(L, es[0]) + Accepted(L, es[1..])
  }

  function Accepts(L: Layout, e: Event): seq<Frame> {
    if e.Write? && e.frame.Fits(L) then [e.frame] else []
  }

  ghost predicate Ready(L: Layout, s: System, e: Event) {
    && (e.Write? && e.frame.Fits(L) ==> Survives(L, s.t.g, s.c, |e.frame.payload|))
    && (e.Read? ==> L.maxFrame <= e.capacity)
  }

  /** The reader brings a buffer that holds any frame, and no write along the run destroys its place. */
  ghost predicate KeepsUp(L: Layout, s: System, es: seq<Event>)
    requires Sound(L, s) && s.t.g.N() + |es| + 2 < MAX_SEQUENCE
    decreases |es|
  {
    es == [] ||
    (Ready(L, s, es[0]) && KeepsUp(L, Step(L, s, es[0]), es[1..]))
  }

  /** From `s` to `s'` the history grew by `accepted`, and the reader at frame `k` was handed the next frames in order. */
  ghost predicate Delivers(L: Layout, s: System, k: nat, accepted: seq<Frame>, s': System) {
    var k' := k + |s'.out| - |s.out|;
    && Frames(s'.t.g.hist) == Frames(s.t.g.hist) + accepted
    && k <= k' <= s'.t.g.N() && Denotes(L, s'.t.g, s'.c, k')
    && s'.out == s.out + Frames(s'.t.g.hist)[k..k']
  }

  lemma DeliversTrans(L: Layout, s: System, k: nat, a: seq<Frame>, s1: System, b: seq<Frame>, s2: System)
    requires Delivers(L, s, k, a, s1) && Delivers(L, s1, k + |s1.out| - |s.out|, b, s2)
    ensures Delivers(L, s, k, a + b, s2)
  {
    hide Denotes, Frames;
    var k1 := k + |s1.out| - |s.out|;
    var k2 := k1 + |s2.out| - |s1.out|;
    var h1, h2 := Frames(s1.t.g.hist), Frames(s2.t.g.hist);
    assert h2[k..k1] == h1[k..k1];
    assert h2[k..k2] == h2[k..k1] + h2[k1..k2];
  }

  /**
   In-order delivery: over every interleaving, a reader that keeps up is handed
   consecutive frames of the history, each once and byte for byte, across both
   kinds of wrap; the history itself grows by exactly the accepted frames.
   */
  lemma {:induction false} InOrderDelivery(L: Layout, s: System, es: seq<Event>, k: nat)
    requires Sound(L, s) && s.t.g.N() + |es| + 2 < MAX_SEQUENCE
    requires Denotes(L, s.t.g, s.c, k) && KeepsUp(L, s, es)
    ensures Delivers(L, s, k, Accepted(L, es), Exec(L, s, es))
    decreases |es|
  {
    hide Sound, Denotes, Step, Ready, Frame.Fits, Frames, Delivers;
    if es == [] {
      DeliversNone(L, s, k);
    } else {
      var s1 := Step(L, s, es[0]);
      StepDelivers(L, s, es[0], k);
      DeliversDenotes(L, s, k, Accepts(L, es[0]), s1);
      InOrderDelivery(L, s1, es[1..], k + |s1.out| - |s.out|);
      DeliversTrans(L, s, k, Accepts(L, es[0]), s1, Accepted(L, es[1..]), Exec(L, s1, es[1..]));
    }
  }

  lemma DeliversDenotes(L: Layout, s: System, k: nat, a: seq<Frame>, s1: System)
    requires Delivers(L, s, k, a, s1)
    ensures var k1 := k + |s1.out| - |s.out|; k <= k1 && Denotes(L, s1.t.g, s1.c, k1)
  {
  }

  lemma DeliversNone(L: Layout, s: System, k: nat)
    requires Sound(L, s) && Denotes(L, s.t.g, s.c, k)
    ensures Delivers(L, s, k, [], s)
  {
    InvLaidOf(L, s, k);
  }

  lemma InvLaidOf(L: Layout, s: System, k: nat)
    requires Sound(L, s) && Denotes(L, s.t.g, s.c, k)
    ensures s.t.g.lo <= k <= s.t.g.N()
  {
    InvLaid(L, s.t.r, s.t.g);
  }

  lemma StepDelivers(L: Layout, s: System, e: Event, k: nat)
    requires Sound(L, s) && s.t.g.N() + 2 < MAX_SEQUENCE && Denotes(L, s.t.g, s.c, k)
    requires Ready(L, s, e)
    ensures Delivers(L, s, k, Accepts(L, e), Step(L, s, e))
  {
    hide Sound, Denotes, Delivers, Frames, Frame.Fits, Survives, Append;
    if e.Read? {
      ReadStepDelivers(L, s, e, k);
    } else if e.frame.Fits(L) {
      WriteStepDelivers(L, s, e, k);
    } else {
      DeliversNone(L, s, k);
    }
  }

  lemma WriteStepDelivers(L: Layout, s: System, e: Event, k: nat)
    requires Sound(L, s) && s.t.g.N() + 2 < MAX_SEQUENCE && Denotes(L, s.t.g, s.c, k)
    requires e.Write? && e.frame.Fits(L) && Survives(L, s.t.g, s.c, |e.frame.payload|)
    ensures Delivers(L, s, k, [e.frame], Step(L, s, e))
  {
    hide Denotes, Inv, Survives, Extend, Append, Frames, Laid, Frame.Fits;
    InvLaidOf(L, s, k);
    InvLaid(L, s.t.r, s.t.g);
    SurvivesIff(L, s.t.g, e.frame, s.c, k);
  }

  lemma ReadStepDelivers(L: Layout, s: System, e: Event, k: nat)
    requires Sound(L, s) && s.t.g.N() + 2 < MAX_SEQUENCE && Denotes(L, s.t.g, s.c, k)
    requires e.Read? && L.maxFrame <= e.capacity
    ensures Delivers(L, s, k, [], Step(L, s, e))
  {
    hide Denotes, Inv, ReadFrame, FrameFrom, Word;
    InvLaidOf(L, s, k);
    ReadDelivers(L, s.t.r, s.t.g, s.c, k, e.capacity);
    if k < s.t.g.N() {
      LiveFields(L, s.t.r, s.t.g, k);
    }
  }

  // --- Catching up ---

  /** The results of `n` reads in a row with no write in between, and where they leave the cursor. */
  function ReadTimes(L: Layout, r: Ring, c: Cursor, capacity: int, n: nat): (res: (seq<ReadResult>, Cursor))
    ensures |res.0| == n
    decreases n
  {
    if n == 0 then ([], c)
    else
      var (done, at) := ReadTimes(L, r, c, capacity, n - 1);
      var next := ReadFrame(L, r, at, capacity);
      (done + [next], next.cursor)
  }

  lemma {:induction false} ReadsAhead(L: Layout, r: Ring, g: Geo, c: Cursor, k: nat, capacity: int, n: nat)
    requires Inv(L, r, g) && Denotes(L, g, c, k) && L.maxFrame <= capacity && k + n <= g.N()
    ensures var res := ReadTimes(L, r, c, capacity, n);
      && Denotes(L, g, res.1, k + n)
      && forall i :: 0 <= i < n ==> res.0[i].rtn == GET_A_NEW_FRAME && res.0[i].frame == g.hist[k + i].frame
    decreases n
  {
    hide Denotes, Inv, ReadFrame;
    if n > 0 {
      ReadsAhead(L, r, g, c, k, capacity, n - 1);
      var at := ReadTimes(L, r, c, capacity, n - 1).1;
      ReadDelivers(L, r, g, at, k + n - 1, capacity);
      InvLaidOf(L, System(Told(r, g), at, []), k + n - 1);
      LiveFields(L, r, g, k + n - 1);
    }
  }

  /** From a cursor at distance `d`, exactly `d + 1` reads succeed and the next one reports nothing new. */
  lemma DistanceCountsReads(L: Layout, r: Ring, g: Geo, c: Cursor, k: nat, capacity: int)
    requires Inv(L, r, g) && Denotes(L, g, c, k) && L.maxFrame <= capacity
    ensures Distance2Newest(L, r, c) >= -1
    ensures var n := Distance2Newest(L, r, c) + 1;
      var done := ReadTimes(L, r, c, capacity, n);
      && k + n == g.N()
      && (forall i :: 0 <= i < n ==> done.0[i].rtn == GET_A_NEW_FRAME && done.0[i].frame == g.hist[k + i].frame)
      && ReadFrame(L, r, done.1, capacity).rtn == NO_NEW_FRAME
  {
    hide Denotes, Inv, ReadFrame, Distance2Newest;
    DistanceExact(L, r, g, c, k);
    InvLaidOf(L, System(Told(r, g), c, []), k);
    ReadsAhead(L, r, g, c, k, capacity, g.N() - k);
    ReadDelivers(L, r, g, ReadTimes(L, r, c, capacity, g.N() - k).1, g.N(), capacity);
  }
}
