/** The shared region and its single writer, as objects updated in place. */
module ShmWriter {
  import opened Bytes
  import opened Memory
  import opened ShmRing
  import opened ShmCursor
  import opened ShmMemory
  import ShmDelivery

  const WRITE_OVERFLOW := -2

  /** The mapped region with the shared head; `mem` holds the frame area at its real offsets. */
  class Shm {
    const layout: Layout
    const mem: array<byte>
    var newestPos: nat
    var newestSeq: nat

    ghost predicate Valid()
      reads this
    {
      layout.Valid() && mem.Length == layout.size && newestPos + layout.Head() <= layout.size
    }

    constructor (layout: Layout)
      requires layout.Valid()
      ensures Valid() && this.layout == layout && fresh(mem)
    {
      this.layout := layout;
      mem := new byte[layout.size](_ => 0);
      newestPos, newestSeq := layout.start, 0;
    }
  }

  /** The ring and its history after the frame `f` was written. */
  ghost predicate Appended(L: Layout, r: Ring, g: Geo, f: Frame, r': Ring, g': Geo) {
    && f.Fits(L) && Writable(L, r, f) && r' == ShmRing.WriteFrame(L, r, f)
    && g.lo <= g.lap <= g.N() && g' == Extend(L, g, f)
    && ShmDelivery.Frames(g'.hist) == ShmDelivery.Frames(g.hist) + [f]
  }

  lemma Appends(L: Layout, r: Ring, g: Geo, f: Frame)
    requires Inv(L, r, g) && f.Fits(L) && g.N() + 2 < MAX_SEQUENCE
    ensures g.lo <= g.lap <= g.N() && Writable(L, r, f)
    ensures Inv(L, ShmRing.WriteFrame(L, r, f), Extend(L, g, f))
    ensures Appended(L, r, g, f, ShmRing.WriteFrame(L, r, f), Extend(L, g, f))
  {
    hide Writable, ShmRing.WriteFrame, Extend, Frame.Fits, Slots, Ordered, Ahead, Bounds, Past, FrameAt, Holds;
    ShmDelivery.WriteStep(L, r, g, f);
  }

  class ShmWrite {
    const shm: Shm
    var framePos: nat
    var frameSeq: nat
    // Every frame written since the region was created, and where it went.
    ghost var geo: Geo

    ghost function State(): Ring
      reads this, shm, shm.mem
    {
      Ring(shm.mem[..], shm.newestPos, shm.newestSeq, framePos, frameSeq)
    }

    ghost predicate Valid()
      reads this, shm, shm.mem
    {
      shm.Valid() && Inv(shm.layout, State(), geo)
    }

    constructor (shm: Shm)
      requires shm.Valid()
      modifies shm, shm.mem
      ensures this.shm == shm && Valid() && State() == Fresh(shm.layout) && geo == Geo([], 0, 0, 0)
    {
      this.shm := shm;
      framePos, frameSeq := shm.layout.start, 0;
      geo := Geo([], 0, 0, 0);
      new;
      Memset(shm.mem, 0, shm.layout.size);
      shm.newestPos, shm.newestSeq := shm.layout.start, 0;
      FreshInv(shm.layout);
      assert shm.mem[..] == Zeros(shm.layout.size);
    }

    /** A frame is turned away or appended; either way the region is again what its history calls for. */
    method WriteFrame(buf: array<byte>, bufLen: int, extras: array<byte>) returns (rtn: int)
      requires Valid() && geo.N() + 2 < MAX_SEQUENCE
      requires bufLen <= buf.Length && extras.Length == shm.layout.extras && buf != shm.mem && extras != shm.mem
      modifies this, shm, shm.mem
      ensures Valid()
      ensures rtn == if bufLen <= 0 then ERROR else if bufLen > shm.layout.maxFrame then WRITE_OVERFLOW else OK
      ensures rtn == OK ==>
                Appended(shm.layout, old(State()), old(geo), Frame(buf[..bufLen], extras[..]), State(), geo)
      ensures rtn != OK ==> State() == old(State()) && geo == old(geo)
    {
      if bufLen <= 0 {
        return ERROR;
      }
      if bufLen > shm.layout.maxFrame {
        return WRITE_OVERFLOW;
      }
      Accept(buf, bufLen, extras, Frame(buf[..bufLen], extras[..]));
      return OK;
    }

    method Accept(buf: array<byte>, bufLen: nat, extras: array<byte>, ghost f: Frame)
      requires Valid() && geo.N() + 2 < MAX_SEQUENCE && f.Fits(shm.layout) && Brings(buf, bufLen, extras, f)
      modifies this, shm, shm.mem
      ensures Valid() && Appended(shm.layout, old(State()), old(geo), f, State(), geo)
    {
      hide Inv, Writable, ShmRing.WriteFrame, Extend, Appended, Frame.Fits;
      Appends(shm.layout, State(), geo, f);
      ghost var g' := Extend(shm.layout, geo, f);
      Append(buf, bufLen, extras, f);
      geo := g';
    }

    /** The arrays of a call hold `f` and are not the region itself. */
    ghost predicate Brings(buf: array<byte>, bufLen: nat, extras: array<byte>, f: Frame)
      reads buf, extras
    {
      && bufLen <= buf.Length && buf != shm.mem && extras != shm.mem && extras.Length == shm.layout.extras
      && f == Frame(buf[..bufLen], extras[..])
    }

    /** A frame at `at` followed by a head at `next` stays inside the region. */
    ghost predicate HasRoom(at: nat, next: nat, f: Frame)
      reads shm
    {
      && shm.mem.Length == shm.layout.size < WORD_LIMIT && |f.extras| == shm.layout.extras
      && at + shm.layout.Head() + |f.payload| <= shm.layout.size && next + shm.layout.Head() <= shm.layout.size
      && shm.newestPos + shm.layout.Head() <= shm.layout.size
    }

    /** The stores of one accepted frame, in the writer's order. */
    method Append(buf: array<byte>, bufLen: nat, extras: array<byte>, ghost f: Frame)
      requires Brings(buf, bufLen, extras, f) && Writable(shm.layout, State(), f) && shm.Valid()
      modifies this`framePos, this`frameSeq, shm, shm.mem
      ensures shm.Valid()
      ensures State() == ShmRing.WriteFrame(shm.layout, old(State()), f)
    {
      hide Writable, Place, Linked, Blit;
      ghost var was := State();
      var next := Locate(bufLen, f);
      NextFrameSeq();
      StoreFrame(next, buf, bufLen, extras, f);
      Publish(next);
    }

    method NextFrameSeq()
      modifies this`frameSeq
      ensures frameSeq == NextSeq(old(frameSeq))
    {
      frameSeq := frameSeq + 1;
      if frameSeq >= MAX_SEQUENCE {
        frameSeq := 1;
      }
    }

    method Publish(next: nat)
      modifies this`framePos, shm
      ensures shm.newestPos == old(framePos) && shm.newestSeq == frameSeq && framePos == next
    {
      shm.newestPos := framePos;
      shm.newestSeq := frameSeq;
      framePos := next;
    }

    /** Settles where the frame goes, wrapping and linking the newest frame to it if it must. */
    method Locate(bufLen: nat, ghost f: Frame) returns (next: nat)
      requires Writable(shm.layout, State(), f) && bufLen == |f.payload|
      modifies this`framePos, shm.mem
      ensures var pl := Place(shm.layout, old(framePos), bufLen); framePos == pl.at && next == pl.next
      ensures HasRoom(framePos, next, f) && frameSeq < MAX_SEQUENCE
      ensures shm.mem[..] == Linked(shm.layout, old(State()), f)
    {
      var head := shm.layout.Head();
      next := framePos + bufLen + head;
      next := next + (4 - next) % 4;
      if next >= shm.layout.size {
        framePos := shm.layout.start;
        StoreWord(shm.mem, shm.newestPos + NEXT, framePos);
        next := framePos + bufLen + head;
        next := next + (4 - next) % 4;
      } else if next + head >= shm.layout.size {
        next := shm.layout.start;
      }
    }

    /** Payload, then the zeroed head behind it, then the frame's own head. */
    method StoreFrame(next: nat, buf: array<byte>, bufLen: nat, extras: array<byte>, ghost f: Frame)
      requires Brings(buf, bufLen, extras, f) && HasRoom(framePos, next, f) && frameSeq < WORD_LIMIT
      modifies shm.mem
      ensures var head := shm.layout.Head();
        var filled := Blit(old(shm.mem[..]), framePos + head, f.payload);
        var fenced := Blit(filled, next, Zeros(head));
        shm.mem[..] == Blit(fenced, framePos, HeadBytes(shm.newestPos, next, frameSeq, f))
    {
      hide HeadBytes, Zeros, Blit;
      Memcpy(shm.mem, framePos + shm.layout.Head(), buf, 0, bufLen);
      Memset(shm.mem, next, shm.layout.Head());
      StoreHead(next, bufLen, extras, f);
    }

    method StoreHead(next: nat, bufLen: nat, extras: array<byte>, ghost f: Frame)
      requires HasRoom(framePos, next, f) && frameSeq < WORD_LIMIT
      requires extras != shm.mem && f.extras == extras[..] && bufLen == |f.payload|
      modifies shm.mem
      ensures shm.mem[..] == Blit(old(shm.mem[..]), framePos, HeadBytes(shm.newestPos, next, frameSeq, f))
    {
      hide HeadBytes, WordBytes, Blit;
      StoreWord(shm.mem, framePos + SIZE, bufLen);
      StoreWord(shm.mem, framePos + SEQ, frameSeq);
      StoreWord(shm.mem, framePos + NEXT, next);
      StoreWord(shm.mem, framePos + PREV, shm.newestPos);
      StoreWord(shm.mem, framePos, MAGIC);
      Memcpy(shm.mem, framePos + EXTRAS, extras, 0, extras.Length);
      HeadStores(old(shm.mem[..]), framePos, shm.newestPos, next, frameSeq, f);
    }
  }
}
