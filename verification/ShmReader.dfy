/** A reader of the shared region, updating its private cursor in place. */
module ShmReader {
  import opened Bytes
  import opened Memory
  import opened ShmRing
  import opened ShmCursor
  import opened ShmMemory
  import opened ShmWriter

  class ShmRead {
    const shm: Shm
    var framePos: nat
    var frameSeq: nat

    constructor (shm: Shm)
      ensures this.shm == shm && At() == INITIAL
    {
      this.shm := shm;
      framePos, frameSeq := 0, 0;
    }

    ghost function At(): Cursor
      reads this
    {
      Cursor(framePos, frameSeq)
    }

    /** What the reader sees of the region; the writer's private cursor is no part of it. */
    ghost function View(): Ring
      reads shm, shm.mem
    {
      Ring(shm.mem[..], shm.newestPos, shm.newestSeq, 0, 0)
    }

    method CheckOverflowed()
      modifies this
      ensures At() == ShmCursor.CheckOverflowed(shm.layout, View(), old(At()))
    {
      if framePos != 0 {
        var magic := LoadWord(shm.mem, framePos);
        var startSeq := LoadWord(shm.mem, shm.layout.start + SEQ);
        if magic != MAGIC && frameSeq == startSeq {
          framePos := shm.layout.start;
        }
      }
    }

    method LoadFrameSize(p: nat) returns (size: int)
      ensures size == FrameSize(View(), p)
    {
      size := LoadWord(shm.mem, p + SIZE);
      if size >= 0x8000_0000 {
        size := size - WORD_LIMIT;
      }
    }

    /** Moves the private cursor past the frame it stands on. */
    method Advance()
      modifies this
      ensures At() == Following(View(), old(framePos))
    {
      var sq := LoadWord(shm.mem, framePos + SEQ);
      var next := LoadWord(shm.mem, framePos + NEXT);
      frameSeq, framePos := sq + 1, next;
      if frameSeq >= MAX_SEQUENCE {
        frameSeq := 0;
      }
    }

    ghost predicate Accepts(buf: array?<byte>, bufLen: int, extras: array?<byte>) {
      buf != null ==>
        && buf != shm.mem && bufLen <= buf.Length
        && extras != null && extras != shm.mem && extras != buf && extras.Length == shm.layout.extras
    }

    /** The caller's arrays hold the frame at their start and are otherwise as they were. */
    ghost predicate Received(buf: array<byte>, extras: array?<byte>, was: seq<byte>, wasExtras: seq<byte>, f: Frame)
      reads buf, if extras == null then {} else {extras}
    {
      && extras != null && |f.payload| <= |was| && |f.extras| <= |wasExtras|
      && buf[..] == Blit(was, 0, f.payload) && extras[..] == Blit(wasExtras, 0, f.extras)
    }

    lemma ReceivedNothing(buf: array?<byte>, extras: array?<byte>)
      ensures buf != null && extras != null ==> Received(buf, extras, buf[..], extras[..], NOTHING)
    {
    }

    /** Receiving nothing leaves the arrays as they were. */
    lemma NothingReceived(buf: array<byte>, extras: array<byte>, was: seq<byte>, wasExtras: seq<byte>)
      requires Received(buf, extras, was, wasExtras, NOTHING)
      ensures buf[..] == was && extras[..] == wasExtras
    {
    }

    method CopyFrame(buf: array<byte>, size: int, extras: array<byte>)
      requires Accepts(buf, size, extras) && size == FrameSize(View(), framePos)
      modifies buf, extras
      ensures View() == old(View())
      ensures Received(buf, extras, old(buf[..]), old(extras[..]), FrameFrom(shm.layout, View(), framePos))
    {
      CopyOut(shm.mem, framePos + shm.layout.Head(), size, buf);
      CopyOut(shm.mem, framePos + EXTRAS, shm.layout.extras, extras);
    }

    /**
     `buf` is null when the caller only wants to move forward a frame. A cursor more
     than one ahead of the newest frame is from another run of the writer: it is reset.
     */
    method ReadFrame(buf: array?<byte>, bufLen: int, extras: array?<byte>, pos: nat, sq: nat)
      returns (rtn: int, bufLen': int, pos': nat, sq': nat)
      requires Accepts(buf, bufLen, extras)
      modifies this, if buf == null then {} else {buf}, if buf == null || extras == null then {} else {extras}
      ensures View() == old(View())
      ensures var res := ShmCursor.ReadFrame(shm.layout, View(), Cursor(pos, sq), bufLen);
        && rtn == res.rtn && Cursor(pos', sq') == res.cursor
        && bufLen' == (if buf == null then bufLen else res.size)
        && (buf != null ==> Received(buf, extras, old(buf[..]), old(extras[..]), res.frame))
      ensures 0 < shm.newestSeq < sq ==>
                && rtn == (if sq == shm.newestSeq + 1 then NO_NEW_FRAME else ERROR)
                && Cursor(pos', sq') == (if sq == shm.newestSeq + 1 then Cursor(pos, sq) else INITIAL)
                && bufLen' == bufLen && (buf != null ==> buf[..] == old(buf[..]) && extras[..] == old(extras[..]))
      ensures shm.newestSeq == 0 ==> rtn == EMPTY_SPACE && Cursor(pos', sq') == Cursor(pos, sq) && bufLen' == bufLen
    {
      rtn, bufLen', pos', sq' := NO_NEW_FRAME, bufLen, pos, sq;
      if shm.newestSeq == 0 {
        return EMPTY_SPACE, bufLen, pos, sq;
      }
      framePos, frameSeq := pos, sq;
      if shm.newestSeq < frameSeq {
        if shm.newestSeq != frameSeq - 1 {
          framePos, frameSeq, rtn := 0, 0, ERROR;
        }
      } else {
        rtn, bufLen' := ReadHere(buf, bufLen, extras);
      }
      pos', sq' := framePos, frameSeq;
    }

    /** The part of a read that runs once there may be a frame to copy. */
    method ReadHere(buf: array?<byte>, bufLen: int, extras: array?<byte>) returns (rtn: int, bufLen': int)
      requires 0 < shm.newestSeq && frameSeq <= shm.newestSeq
      requires Accepts(buf, bufLen, extras)
      modifies this, if buf == null then {} else {buf}, if buf == null || extras == null then {} else {extras}
      ensures View() == old(View())
      ensures var res := ShmCursor.ReadFrame(shm.layout, View(), old(At()), bufLen);
        && rtn == res.rtn && At() == res.cursor
        && bufLen' == (if buf == null then bufLen else res.size)
        && (buf != null ==> Received(buf, extras, old(buf[..]), old(extras[..]), res.frame))
    {
      hide Received, Word, FrameFrom;
      bufLen' := bufLen;
      ghost var was, wasExtras := if buf == null then [] else buf[..], if extras == null then [] else extras[..];
      assert buf != null ==> Received(buf, extras, was, wasExtras, NOTHING) by { ReceivedNothing(buf, extras); }
      CheckOverflowed();
      var magic := LoadWord(shm.mem, framePos);
      if magic != MAGIC {
        framePos, frameSeq := 0, 0;
        return ERROR, bufLen;
      }
      var size := LoadFrameSize(framePos);
      if size > shm.layout.maxFrame {
        rtn := FRAME_TOO_LARGE;
        Advance();
      } else if size > bufLen {
        rtn := FRAME_TOO_LARGE;
      } else {
        if buf != null {
          CopyFrame(buf, size, extras);
          bufLen' := size;
        }
        rtn := GET_A_NEW_FRAME;
        Advance();
      }
    }

    method Distance2Newest(pos: nat, sq: nat) returns (distance: int)
      modifies this
      ensures distance == ShmCursor.Distance2Newest(shm.layout, View(), Cursor(pos, sq))
    {
      framePos, frameSeq := pos, sq;
      CheckOverflowed();
      var magic := LoadWord(shm.mem, framePos);
      var here := LoadWord(shm.mem, framePos + SEQ);
      if frameSeq == shm.newestSeq + 1 {
        distance := -1;
      } else if magic == MAGIC && here == frameSeq {
        distance := shm.newestSeq - frameSeq;
      } else {
        distance := -2;
      }
    }

    method MoveBack(pos: nat, sq: nat) returns (rtn: int, pos': nat, sq': nat)
      modifies this
      ensures MoveResult(rtn, Cursor(pos', sq')) == ShmCursor.MoveBack(shm.layout, View(), Cursor(pos, sq))
    {
      hide Word, ShmCursor.CheckOverflowed;
      if shm.newestSeq == 0 {
        return EMPTY_SPACE, pos, sq;
      }
      framePos, frameSeq, rtn := pos, sq, ERROR;
      if framePos == 0 {
        framePos := shm.newestPos;
        frameSeq := LoadWord(shm.mem, framePos + SEQ);
        rtn := OK;
      } else if frameSeq == shm.newestSeq + 1 {
        framePos, frameSeq, rtn := shm.newestPos, shm.newestSeq, OK;
      } else {
        CheckOverflowed();
        var magic := LoadWord(shm.mem, framePos);
        if magic == MAGIC {
          var prev := LoadWord(shm.mem, framePos + PREV);
          if framePos != prev {
            framePos := prev;
            magic := LoadWord(shm.mem, framePos);
            if magic == MAGIC {
              frameSeq := LoadWord(shm.mem, framePos + SEQ);
              rtn := OK;
            }
          }
        }
      }
      if rtn < 0 {
        framePos, frameSeq := 0, 0;
      }
      pos', sq' := framePos, frameSeq;
    }

    method MoveForward(pos: nat, sq: nat) returns (rtn: int, pos': nat, sq': nat)
      modifies this
      ensures MoveResult(rtn, Cursor(pos', sq')) == ShmCursor.MoveForward(shm.layout, View(), Cursor(pos, sq))
    {
      var bufLen;
      rtn, bufLen, pos', sq' := ReadFrame(null, shm.layout.maxFrame, null, pos, sq);
      rtn := if rtn == GET_A_NEW_FRAME then OK else ERROR;
    }

    method Refresh() returns (rtn: int, pos': nat, sq': nat)
      modifies this
      ensures MoveResult(rtn, Cursor(pos', sq')) == ShmCursor.Refresh(View())
    {
      framePos, frameSeq := shm.newestPos, shm.newestSeq;
      var magic := LoadWord(shm.mem, framePos);
      rtn := if magic == MAGIC then OK else ERROR;
      pos', sq' := framePos, frameSeq;
    }

    /** Copies the extras of the frame at the cursor; `extras` keeps its contents on ERROR. */
    method GetExtras(extras: array<byte>, pos: nat, sq: nat) returns (rtn: int)
      requires extras != shm.mem && extras.Length == shm.layout.extras
      modifies this, extras
      ensures ExtrasResult(rtn, extras[..]) ==
              ShmCursor.GetExtras(shm.layout, View(), Cursor(pos, sq), old(extras[..]))
    {
      hide Word, ShmCursor.CheckOverflowed;
      framePos, frameSeq := pos, sq;
      CheckOverflowed();
      var magic := LoadWord(shm.mem, framePos);
      if magic == MAGIC {
        CopyOut(shm.mem, framePos + EXTRAS, shm.layout.extras, extras);
        rtn := OK;
      } else if frameSeq == shm.newestSeq + 1 {
        Memset(extras, 0, extras.Length);
        rtn := NEXT_FRAME_OF_NEWEST;
      } else {
        rtn := ERROR;
      }
    }
  }
}
