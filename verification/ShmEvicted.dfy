/**
 What a reader stepping back out of the window runs into: nothing it takes for a
 frame, a newer frame whose head landed where the evicted one was, or bytes that
 happen to read like a head.
 */
module ShmEvicted {
  import opened Bytes
  import opened ShmRing
  import opened ShmCursor

  /** Frame `j` of the current lap was placed exactly where the frame evicted last had been. */
  ghost predicate Landed(g: Geo, j: nat) {
    0 < g.lo <= g.lap <= j < g.N() && g.hist[j].pos == g.hist[g.lo - 1].pos
  }

  lemma LandedOnce(L: Layout, g: Geo, i: nat, j: nat)
    requires Laid(L, g) && Landed(g, i) && Landed(g, j)
    ensures i == j
  {
    RoomPositive(L, g, i);
    RoomPositive(L, g, j);
    hide Slots, Ahead, Bounds, Past, Layout.Valid;
  }

  /** Then a step back from the oldest live frame succeeds, and hands out that newer frame. */
  lemma LandedUnfences(L: Layout, r: Ring, g: Geo, j: nat)
    requires Inv(L, r, g) && Landed(g, j)
    ensures !Fenced(r, g) && Evicted(r, g) == Cursor(g.hist[j].pos, j + 1) && Denotes(L, g, Evicted(r, g), j)
  {
    LiveFields(L, r, g, j);
    hide Inv, Slots, Ordered, Ahead, Bounds, Past, Layout.Valid, Word;
  }

  // --- Frames without a magic word ---

  /** The bytes at `o` read like the magic word, as far as they go. */
  predicate LikeMagic(bs: seq<byte>, o: nat) {
    forall i :: 0 <= i < 4 && o + i < |bs| ==> bs[o + i] == WordBytes(MAGIC)[i]
  }

  /** Neither extras nor payload read like the magic word at a multiple of 4. */
  predicate Clean(f: Frame) {
    forall o :: 0 <= o < |f.extras + f.payload| && Aligned(o) ==> !LikeMagic(f.extras + f.payload, o)
  }

  /** Nothing the writer stores besides its own mark can be taken for it. */
  ghost predicate Innocuous(L: Layout, g: Geo) {
    && L.size <= MAGIC && g.N() < MAGIC
    && forall j {:trigger g.hist[j].frame} :: g.lap <= j < g.N() ==> Clean(g.hist[j].frame)
  }

  lemma MagicBytes(mem: seq<byte>, p: nat)
    requires p + 4 <= |mem| && Word(mem, p) == MAGIC
    ensures mem[p..p + 4] == WordBytes(MAGIC)
  {
    var a, b, c, d := mem[p] as int, mem[p + 1] as int, mem[p + 2] as int, mem[p + 3] as int;
    assert a + 0x100 * (b + 0x100 * (c + 0x100 * d)) == MAGIC;
  }

  /** Frames of the current lap cover everything from the start of the frame area to the writer. */
  lemma {:induction false} Covering(L: Layout, g: Geo, p: nat, n: nat) returns (j: nat)
    requires Laid(L, g) && g.lap < n <= g.N() && L.start <= p < g.hist[n - 1].end
    ensures g.lap <= j < n && g.hist[j].pos <= p < g.hist[j].end
    decreases n
  {
    hide Slots, Ordered, Ahead, Layout.Valid;
    j := n - 1;
    if p < g.hist[j].pos {
      assert j > g.lap;
      assert Follows(L, g, j - 1);
      j := Covering(L, g, p, n - 1);
    }
  }

  /** Inside a live frame, behind its own magic word, no aligned word reads like one. */
  lemma NoMagicInside(L: Layout, r: Ring, g: Geo, j: nat, p: nat)
    requires Inv(L, r, g) && Innocuous(L, g) && g.lo <= g.lap <= j < g.N()
    requires g.hist[j].pos < p < g.hist[j].end && Aligned(p)
    ensures !IsFrame(r, p)
  {
    hide Slots, Ordered, Ahead, Bounds, Past, Layout.Valid, Word, LikeMagic, Holds;
    var o, f := p - g.hist[j].pos, g.hist[j].frame;
    InsideRoom(L, g, j, p);
    PositionsSmall(L, g, j);
    if o < EXTRAS {
      NoMagicHead(L, r, g, j, o);
    } else {
      assert FrameAt(L, r.mem, g, j);
      assert !LikeMagic(f.extras + f.payload, o - EXTRAS);
      NotMagicAt(L, r, g, j, o);
    }
  }

  /** The fields of a head are smaller than the magic word. */
  lemma NoMagicHead(L: Layout, r: Ring, g: Geo, j: nat, o: nat)
    requires Inv(L, r, g) && g.lo <= g.lap <= j < g.N() && L.size <= MAGIC && g.N() < MAGIC
    requires Aligned(o) && 4 <= o < EXTRAS
    requires g.PrevOf(L, j) < L.size && g.PosAt(L, j + 1) < L.size && |g.hist[j].frame.payload| < L.size
    ensures !IsFrame(r, g.hist[j].pos + o)
  {
    hide Inv, Word, FrameFrom;
    LiveFields(L, r, g, j);
    HeadOffsets(o);
  }

  lemma HeadOffsets(o: nat)
    requires Aligned(o) && 4 <= o < EXTRAS
    ensures o == PREV || o == NEXT || o == SEQ || o == SIZE
  {
  }

  lemma BelowAligned(o: nat, n: nat)
    requires Aligned(o) && o < AlignUp(n)
    ensures o < n && o + 4 <= AlignUp(n)
  {
  }

  lemma InsideRoom(L: Layout, g: Geo, j: nat, p: nat)
    requires Laid(L, g) && j < g.N() && g.hist[j].pos < p < g.hist[j].end && Aligned(p)
    ensures var o := p - g.hist[j].pos;
      Aligned(o) && 4 <= o < L.Head() + |g.hist[j].frame.payload| && p + 4 <= L.size
  {
    hide Ordered, Ahead, Bounds, Past, Layout.Valid, AlignUp;
    var o := p - g.hist[j].pos;
    assert Aligned(o) && 4 <= o;
    hide Aligned;
    BelowAligned(o, L.Head() + |g.hist[j].frame.payload|);
  }

  lemma PositionsSmall(L: Layout, g: Geo, j: nat)
    requires Laid(L, g) && j < g.N()
    ensures g.PrevOf(L, j) < L.size && g.PosAt(L, j + 1) < L.size && |g.hist[j].frame.payload| < L.size
    ensures |g.hist[j].frame.extras| == L.extras
  {
    RoomBound(L, |g.hist[j].frame.payload|);
  }

  lemma NotMagicAt(L: Layout, r: Ring, g: Geo, j: nat, o: nat)
    requires Laid(L, g) && j < g.N() && FrameAt(L, r.mem, g, j) && EXTRAS <= o < Extent(L, g.hist[j])
    requires |r.mem| == L.size && g.hist[j].pos + o + 4 <= L.size && |g.hist[j].frame.extras| == L.extras
    requires var f := g.hist[j].frame; !LikeMagic(f.extras + f.payload, o - EXTRAS)
    ensures !IsFrame(r, g.hist[j].pos + o)
  {
    hide Slots, Ordered, Ahead, Bounds, Past, Layout.Valid, Word, WordBytes;
    var p, f := g.hist[j].pos, g.hist[j].frame;
    var bs, tail := SlotBytes(L, g, j), f.extras + f.payload;
    if IsFrame(r, p + o) {
      MagicBytes(r.mem, p + o);
      var m := r.mem[p + o..p + o + 4];
      forall i | 0 <= i < 4 && o - EXTRAS + i < |tail| ensures tail[o - EXTRAS + i] == WordBytes(MAGIC)[i] {
        assert tail[o - EXTRAS + i] == bs[o + i] == r.mem[p..p + |bs|][o + i] == m[i];
      }
    }
  }

  /**
   The slot of the frame evicted last looks empty exactly if no newer frame landed
   on it, as long as nothing written can be taken for a magic word.
   */
  lemma FencedIff(L: Layout, r: Ring, g: Geo)
    requires Inv(L, r, g) && Innocuous(L, g)
    ensures Fenced(r, g) <==> forall j :: !Landed(g, j)
  {
    if j :| Landed(g, j) {
      LandedUnfences(L, r, g, j);
    } else if g.lo > 0 {
      UnlandedFences(L, r, g);
    }
  }

  lemma UnlandedFences(L: Layout, r: Ring, g: Geo)
    requires Inv(L, r, g) && Innocuous(L, g) && 0 < g.lo && forall j :: !Landed(g, j)
    ensures Fenced(r, g)
  {
    hide Slots, Ordered, Ahead, Bounds, Past, Layout.Valid, Aligned, IsFrame, Innocuous, FrameAt, Holds;
    var p := g.hist[g.lo - 1].pos;
    EvictedPlace(L, g);
    if g.lap < g.N() && p < g.WritePos(L) {
      var j := Covering(L, g, p, g.N());
      assert !Landed(g, j);
      NoMagicInside(L, r, g, j, p);
    } else {
      ZeroWord(L, r, g, p);
    }
  }

  lemma EvictedPlace(L: Layout, g: Geo)
    requires Laid(L, g) && 0 < g.lo
    ensures var p := g.hist[g.lo - 1].pos; Aligned(p) && L.start <= p < g.WritePos(L) + L.Head()
    ensures Aligned(g.WritePos(L)) && Aligned(L.Head()) && (g.lap == g.N() ==> g.WritePos(L) == L.start)
  {
    WritePosAligned(L, g);
    hide Ordered, Ahead, Bounds, Follows, AlignUp, Frame.Fits;
  }

  /** The head the writer zeroed holds no magic word. */
  lemma ZeroWord(L: Layout, r: Ring, g: Geo, p: nat)
    requires Inv(L, r, g) && g.WritePos(L) <= p < g.WritePos(L) + L.Head() && Aligned(p)
    requires Aligned(g.WritePos(L)) && Aligned(L.Head())
    ensures !IsFrame(r, p)
  {
    hide Laid, FrameAt;
    WordHeld(r.mem, g.WritePos(L), Zeros(L.Head()), p - g.WritePos(L));
  }
}
