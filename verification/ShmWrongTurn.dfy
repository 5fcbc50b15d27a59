/** Six ordinary frames after which a reader that steps back from the oldest live frame is handed the newest one. */
module ShmWrongTurn {
  import opened Bytes
  import opened ShmRing
  import opened ShmCursor
  import opened ShmDelivery
  import opened ShmEvicted
  import opened ShmSteps
  import opened ShmWalk

  const SMALL := Layout(4, 20, 48, 320)

  function Blank(len: nat): Frame {
    Frame(Zeros(len), Zeros(20))
  }

  const S0 := Slot(Blank(8), 4, 52)
  const S1 := Slot(Blank(48), 52, 140)
  const S2 := Slot(Blank(48), 140, 228)
  const S3 := Slot(Blank(48), 228, 316)
  const S4 := Slot(Blank(8), 4, 52)
  const S5 := Slot(Blank(8), 52, 100)

  lemma AlignedStays(n: nat)
    requires Aligned(n)
    ensures AlignUp(n) == n
  {
  }

  lemma SmallLayout()
    ensures SMALL.Valid() && SMALL.Head() == 40 && SMALL.Room(8) == 48 && SMALL.Room(48) == 88
  {
    hide AlignUp;
    AlignedStays(48);
    AlignedStays(88);
  }

  lemma BlankFits(len: nat)
    requires 1 <= len <= 48
    ensures Blank(len).Fits(SMALL) && |Blank(len).payload| == len
  {
    hide Zeros;
  }

  /** Where a frame of length `len` goes from the position `w`. */
  lemma Placed(w: nat, len: nat)
    requires Aligned(w) && (len == 8 || len == 48)
    ensures var next := w + len + 40;
      Place(SMALL, w, len) == if next >= 320 then Placement(4, 44 + len, true)
                              else if next + 40 >= 320 then Placement(w, 4, false)
                              else Placement(w, next, false)
  {
    hide Place, AlignUp;
    SmallLayout();
    PlaceCases(SMALL, w, len);
  }

  /** One more blank frame, when the writer stands at `w`. */
  lemma Grows(g: Geo, w: nat, len: nat)
    requires g.lo <= g.lap <= g.N() && g.WritePos(SMALL) == w && g.tail == 0
    requires Aligned(w) && (len == 8 || len == 48) && w + len + 40 < 320
    ensures var next := w + len + 40; var hist := g.hist + [Slot(Blank(len), w, next)];
      Extend(SMALL, g, Blank(len)) ==
      if next + 40 >= 320 then Geo(hist, FirstBeyond(hist, g.lap, g.N() + 1, 44), g.N() + 1, 0)
      else Geo(hist, FirstBeyond(hist, g.lo, g.lap, next + 40), g.lap, 0)
  {
    hide Place, AlignUp, Zeros, FirstBeyond, Layout.Room, Layout.Head;
    SmallLayout();
    BlankFits(len);
    Placed(w, len);
  }

  lemma FirstBeyondIs(hist: seq<Slot>, lo: nat, hi: nat, limit: nat, i: nat)
    requires lo <= i <= hi <= |hist| && (i < hi ==> limit <= hist[i].pos)
    requires forall j :: lo <= j < i ==> hist[j].pos < limit
    ensures FirstBeyond(hist, lo, hi, limit) == i
  {
    hide FirstBeyond;
  }

  /** The first lap, up to the wrap. */
  lemma FirstLap()
    ensures Extend(SMALL, Geo([], 0, 0, 0), Blank(8)) == Geo([S0], 0, 0, 0)
    ensures Extend(SMALL, Geo([S0], 0, 0, 0), Blank(48)) == Geo([S0, S1], 0, 0, 0)
    ensures Extend(SMALL, Geo([S0, S1], 0, 0, 0), Blank(48)) == Geo([S0, S1, S2], 0, 0, 0)
  {
    hide Extend, Blank, FirstBeyond;
    Grows(Geo([], 0, 0, 0), 4, 8);
    Grows(Geo([S0], 0, 0, 0), 52, 48);
    Grows(Geo([S0, S1], 0, 0, 0), 140, 48);
    FirstBeyondIs([S0], 0, 0, 92, 0);
    FirstBeyondIs([S0, S1], 0, 0, 180, 0);
    FirstBeyondIs([S0, S1, S2], 0, 0, 268, 0);
    assert [] + [S0] == [S0] && [S0] + [S1] == [S0, S1] && [S0, S1] + [S2] == [S0, S1, S2];
  }

  lemma Wrap()
    ensures Extend(SMALL, Geo([S0, S1, S2], 0, 0, 0), Blank(48)) == Geo([S0, S1, S2, S3], 1, 4, 0)
  {
    hide Extend, Blank, FirstBeyond;
    Grows(Geo([S0, S1, S2], 0, 0, 0), 228, 48);
    FirstBeyondIs([S0, S1, S2, S3], 0, 4, 44, 1);
    assert [S0, S1, S2] + [S3] == [S0, S1, S2, S3];
  }

  lemma SecondLap()
    ensures Extend(SMALL, Geo([S0, S1, S2, S3], 1, 4, 0), Blank(8)) == Geo([S0, S1, S2, S3, S4], 2, 4, 0)
    ensures Extend(SMALL, Geo([S0, S1, S2, S3, S4], 2, 4, 0), Blank(8)) == Geo([S0, S1, S2, S3, S4, S5], 2, 4, 0)
  {
    hide Extend, Blank, FirstBeyond;
    var h4, h5 := [S0, S1, S2, S3, S4], [S0, S1, S2, S3, S4, S5];
    Grows(Geo([S0, S1, S2, S3], 1, 4, 0), 4, 8);
    FirstBeyondIs(h4, 1, 4, 92, 2);
    Grows(Geo(h4, 2, 4, 0), 52, 8);
    FirstBeyondIs(h5, 2, 4, 140, 2);
    assert [S0, S1, S2, S3] + [S4] == h4 && h4 + [S5] == h5;
  }

  lemma WrittenSnoc(L: Layout, fs: seq<Frame>, f: Frame)
    requires L.Valid() && |fs| + 3 < MAX_SEQUENCE && f.Fits(L) && forall e :: e in fs ==> e.Fits(L)
    ensures forall e :: e in fs + [f] ==> e.Fits(L)
    ensures var g := Written(L, fs).g; g.lo <= g.lap <= g.N() && Written(L, fs + [f]).g == Extend(L, g, f)
  {
    hide Inv, Writable, WriteFrame, Extend, Layout.Valid, Frame.Fits;
    assert (fs + [f])[..|fs|] == fs;
    InvLaid(L, Written(L, fs).r, Written(L, fs).g);
  }

  predicate AllBlank(fs: seq<Frame>) {
    forall f :: f in fs ==> f == Blank(8) || f == Blank(48)
  }

  lemma BlanksFit(fs: seq<Frame>)
    requires AllBlank(fs)
    ensures SMALL.Valid() && forall f :: f in fs ==> f.Fits(SMALL)
  {
    hide Frame.Fits, Blank, Zeros, Layout.Valid, Layout.Room, Layout.Head, AlignUp, Aligned;
    SmallLayout();
    forall f | f in fs ensures f.Fits(SMALL) {
      if f == Blank(8) {
        BlankFits(8);
      } else {
        BlankFits(48);
      }
    }
  }

  /** Writing `fs` into a fresh small region leaves the history `g`. */
  ghost predicate Leaves(fs: seq<Frame>, g: Geo) {
    AllBlank(fs) && |fs| < 10 && (BlanksFit(fs); Written(SMALL, fs).g == g)
  }

  lemma WrittenNone(L: Layout)
    requires L.Valid()
    ensures Written(L, []).g == Geo([], 0, 0, 0)
  {
    hide Tells, Inv, Writable, WriteFrame, Extend, Place, Layout.Valid, Frame.Fits, Fresh;
  }

  lemma LeavesNone()
    ensures Leaves([], Geo([], 0, 0, 0))
  {
    hide Written, Layout.Valid, Layout.Room, Layout.Head, AlignUp, Aligned;
    SmallLayout();
    WrittenNone(SMALL);
  }

  lemma LeavesMore(fs: seq<Frame>, f: Frame, g: Geo)
    requires Leaves(fs, g) && |fs| < 9 && (f == Blank(8) || f == Blank(48))
    ensures g.lo <= g.lap <= g.N() && Leaves(fs + [f], Extend(SMALL, g, f))
  {
    hide Written, Extend, Frame.Fits, Layout.Valid, Blank;
    BlanksFit(fs);
    BlanksFit([f]);
    assert f in [f];
    WrittenSnoc(SMALL, fs, f);
  }

  lemma LeavesNext(fs: seq<Frame>, f: Frame, g: Geo, fs': seq<Frame>, g': Geo)
    requires Leaves(fs, g) && |fs| < 9 && (f == Blank(8) || f == Blank(48))
    requires fs' == fs + [f] && g' == Extend(SMALL, g, f)
    ensures Leaves(fs', g')
  {
    hide Leaves, Extend, Blank;
    LeavesMore(fs, f, g);
  }

  const FRAMES: seq<Frame> := [Blank(8), Blank(48), Blank(48), Blank(48), Blank(8), Blank(8)]

  /** The history those frames leave behind. */
  lemma History()
    ensures Leaves(FRAMES, Geo([S0, S1, S2, S3, S4, S5], 2, 4, 0))
  {
    hide Leaves, Extend, Blank;
    FirstLap();
    Wrap();
    SecondLap();
    var a, b := Blank(8), Blank(48);
    LeavesNone();
    LeavesNext([], a, Geo([], 0, 0, 0), [a], Geo([S0], 0, 0, 0));
    LeavesNext([a], b, Geo([S0], 0, 0, 0), [a, b], Geo([S0, S1], 0, 0, 0));
    LeavesNext([a, b], b, Geo([S0, S1], 0, 0, 0), [a, b, b], Geo([S0, S1, S2], 0, 0, 0));
    LeavesNext([a, b, b], b, Geo([S0, S1, S2], 0, 0, 0), [a, b, b, b], Geo([S0, S1, S2, S3], 1, 4, 0));
    LeavesNext([a, b, b, b], a, Geo([S0, S1, S2, S3], 1, 4, 0), [a, b, b, b, a], Geo([S0, S1, S2, S3, S4], 2, 4, 0));
    LeavesNext([a, b, b, b, a], a, Geo([S0, S1, S2, S3, S4], 2, 4, 0), FRAMES, Geo([S0, S1, S2, S3, S4, S5], 2, 4, 0));
  }

  /** Frame 5, the newest, stands where frame 1 was; stepping back from frame 2, the oldest live one, leads to it. */
  lemma WrongTurn()
    ensures SMALL.Valid() && forall f :: f in FRAMES ==> f.Fits(SMALL)
    ensures var t := Written(SMALL, FRAMES);
      && Inv(SMALL, t.r, t.g) && t.g.lo == 2 && t.g.N() == 6 && Landed(t.g, 5)
      && Denotes(SMALL, t.g, Cursor(140, 3), 2)
      && MoveBack(SMALL, t.r, Cursor(140, 3)) == MoveResult(OK, Cursor(52, 6))
  {
    hide Written, Inv, MoveBack, Fenced, Evicted, Frame.Fits, Blank, Layout.Valid;
    History();
    BlanksFit(FRAMES);
    var t := Written(SMALL, FRAMES);
    assert Tells(SMALL, t, FRAMES);
    LandedUnfences(SMALL, t.r, t.g, 5);
    MoveBackExact(SMALL, t.r, t.g, Cursor(140, 3), 2);
  }

  lemma NoKeys(n: nat)
    requires n <= 6
    ensures KeyCount([S0, S1, S2, S3, S4, S5], 0, n) == 0
  {
    hide Zeros;
    if n > 0 {
      NoKeys(n - 1);
    }
  }

  /** From there four steps back return to the start, and a search for a key frame, of which there is none, never ends. */
  lemma NeverFound(scratch: seq<byte>, fuel: nat)
    ensures SMALL.Valid() && forall f :: f in FRAMES ==> f.Fits(SMALL)
    ensures var r := Written(SMALL, FRAMES).r;
      && BackN(SMALL, r, Cursor(140, 3), 4, 0, 1, scratch, fuel) == Ended(OK, Cursor(140, 3))
      && BackN(SMALL, r, Cursor(140, 3), 1, 1, 1, scratch, fuel) == Walking
  {
    hide Written, Inv, Fenced, Evicted, Frame.Fits, Blank, Layout.Valid, BackN, Round, KeyCount, Target, Seen;
    History();
    WrongTurn();
    var t := Written(SMALL, FRAMES);
    InvSeen(SMALL, t.r, t.g);
    NoKeys(6);
    KeyCountSplit(t.g.hist, 0, 2, 6);
    RoundReturns(t.g, 5, 2);
    NoTarget(t.g);
    BackNRound(SMALL, t.r, t.g, Cursor(140, 3), 2, 5, 4, 0, scratch, fuel);
    BackNRound(SMALL, t.r, t.g, Cursor(140, 3), 2, 5, 1, 1, scratch, fuel);
  }

  lemma NoTarget(g: Geo)
    requires g.lo == 2 <= g.N()
    ensures Target(g, 2, 4, false, true) < 0 && Target(g, 2, 1, true, true) < 0
  {
  }
}
