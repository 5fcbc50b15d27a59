/**
 The library's calls on a stored cursor, for one reader id. A key search is cut
 off after `fuel` moves, as it need not end; `scratch` is what the local extras
 buffer of a call happens to hold.
 */
module ShmSeek {
  import opened Bytes
  import opened ShmRing
  import opened ShmCursor
  import opened ShmWriter
  import opened ShmReader
  import opened ShmSteps
  import opened ShmWalk

  /** What a writer has written is what its readers see. */
  lemma WriterExplains(w: ShmWrite, reader: ShmRead)
    requires w.Valid() && w.shm == reader.shm
    ensures Seen(reader.shm.layout, reader.View(), w.geo)
  {
    assert Completed(reader.shm.layout, reader.View(), w.geo) == w.State();
  }

  /** The position and sequence number kept for one reader id. */
  class ShmInfo {
    var pos: nat
    var sq: nat

    constructor ()
      ensures At() == INITIAL
    {
      pos, sq := 0, 0;
    }

    ghost function At(): Cursor
      reads this
    {
      Cursor(pos, sq)
    }
  }

  /** One step of a stored cursor; a failed step leaves whatever the reader reports in it. */
  method StepInfo(reader: ShmRead, info: ShmInfo, back: bool) returns (rtn: int)
    modifies reader, info
    ensures MoveResult(rtn, info.At()) == Step(reader.shm.layout, reader.View(), old(info.At()), back)
  {
    hide ShmCursor.MoveBack, ShmCursor.MoveForward;
    if back {
      rtn, info.pos, info.sq := reader.MoveBack(info.pos, info.sq);
    } else {
      rtn, info.pos, info.sq := reader.MoveForward(info.pos, info.sq);
    }
  }

  method SeekFrames(reader: ShmRead, info: ShmInfo, steps: nat, back: bool) returns (left: nat)
    requires 0 < steps
    modifies reader, info
    ensures var m := StepTimes(reader.shm.layout, reader.View(), old(info.At()), back, steps);
      (left == 0 <==> m.rtn >= 0) && (left == 0 ==> info.At() == m.cursor)
  {
    hide Step;
    ghost var L, v := reader.shm.layout, reader.View();
    left := steps;
    var rtn := OK;
    while rtn >= 0 && left > 0
      invariant rtn >= 0 ==> StepTimes(L, v, info.At(), back, left) == StepTimes(L, v, old(info.At()), back, steps)
      invariant rtn < 0 ==> left > 0 && StepTimes(L, v, old(info.At()), back, steps).rtn < 0
      decreases left, rtn >= 0
    {
      rtn := StepInfo(reader, info, back);
      if rtn >= 0 {
        left := left - 1;
      }
    }
  }

  /** `left` key frames are still missing when the loop ends; `spent` says it was cut off. */
  method SeekKeys(reader: ShmRead, info: ShmInfo, steps: nat, back: bool, fuel: nat)
    returns (left: nat, spent: bool, ghost scratch: seq<byte>)
    requires 0 < steps
    modifies reader, info
    ensures var s := KeySteps(reader.shm.layout, reader.View(), old(info.At()), back, steps, false, scratch, fuel);
      && (spent <==> s.Spent?) && (s.Found? <==> left == 0) && (s.Found? ==> info.At() == s.cursor)
  {
    hide Step, ShmCursor.GetExtras, KeySteps;
    var extras := new byte[reader.shm.layout.extras];
    scratch := extras[..];
    ghost var L, v := reader.shm.layout, reader.View();
    ghost var goal := KeySteps(L, v, info.At(), back, steps, false, scratch, fuel);
    left, spent := steps, false;
    var moves, going := 0, true;
    while going && left > 0
      invariant moves <= fuel && reader.View() == v && fresh(extras)
      invariant going ==> 0 < left && !spent
      invariant going ==> KeySteps(L, v, info.At(), back, left, moves > 0, extras[..], fuel - moves) == goal
      invariant !going ==> (spent <==> goal.Spent?) && (goal.Found? <==> left == 0)
      invariant !going && goal.Found? ==> info.At() == goal.cursor
      decreases going, fuel - moves
    {
      KeyStepsUnfold(L, v, info.At(), back, left, moves > 0, extras[..], fuel - moves);
      var isKey := KeyAtInfo(reader, info, extras);
      if isKey && moves > 0 {
        left := left - 1;
      }
      if left == 0 {
        going := false;
      } else {
        var rtn := StepInfo(reader, info, back);
        if rtn < 0 {
          going := false;
        } else if moves == fuel {
          going, spent := false, true;
        } else {
          moves := moves + 1;
        }
      }
    }
  }

  lemma KeyStepsUnfold(L: Layout, r: Ring, c: Cursor, back: bool, left: nat, moved: bool, kept: seq<byte>, fuel: nat)
    requires 0 < left
    ensures var extras := ShmCursor.GetExtras(L, r, c, kept).extras;
      var left' := if KeyFlag(extras) && moved then left - 1 else left;
      var m := Step(L, r, c, back);
      KeySteps(L, r, c, back, left, moved, kept, fuel) ==
      if left' == 0 then Found(c)
      else if m.rtn < 0 then Lost
      else if fuel == 0 then Spent
      else KeySteps(L, r, m.cursor, back, left', true, extras, fuel - 1)
  {
    hide Step, ShmCursor.GetExtras;
  }

  /** The key-frame flag of the frame at a stored cursor, as left in the caller's extras buffer. */
  method KeyAtInfo(reader: ShmRead, info: ShmInfo, extras: array<byte>) returns (isKey: bool)
    requires extras != reader.shm.mem && extras.Length == reader.shm.layout.extras
    modifies reader, extras
    ensures extras[..] == ShmCursor.GetExtras(reader.shm.layout, reader.View(), info.At(), old(extras[..])).extras
    ensures isKey == KeyFlag(extras[..])
  {
    hide ShmCursor.GetExtras;
    var rtn := reader.GetExtras(extras, info.pos, info.sq);
    isKey := KEY_OFFSET < extras.Length && extras[KEY_OFFSET] == 1;
  }

  /** The cursor stands on frame `k` of the history behind the bytes, and `fuel` is enough to search all of it. */
  ghost predicate Ready(reader: ShmRead, c: Cursor, g: Geo, k: nat, fuel: nat)
    reads reader.shm, reader.shm.mem
  {
    && Seen(reader.shm.layout, reader.View(), g) && Stands(reader.shm.layout, g, c, k)
    && g.lo <= k <= g.N() <= fuel
  }

  /**
   Moves a stored cursor `steps` frames, or key frames, back or forward. A failed
   move puts it back where it was, whatever the bytes are. From frame `k` of the
   history `g` it ends exactly on the frame asked for, or fails if there is none,
   unless it moves back over a slot that is not fenced.
   */
  method BackNFrameNolock(reader: ShmRead, info: ShmInfo, steps: int, keyFlag: int, isBack: int, fuel: nat,
                          ghost g: Geo, ghost k: nat)
    returns (rtn: int, ended: bool, ghost scratch: seq<byte>)
    modifies reader, info
    ensures var out := BackN(reader.shm.layout, reader.View(), old(info.At()), steps, keyFlag, isBack, scratch, fuel);
      if ended then out == Ended(rtn, info.At()) else out == Walking
    ensures ended && rtn != OK ==> info.At() == old(info.At())
    ensures Ready(reader, old(info.At()), g, k, fuel) && 0 < steps ==>
              var j := Target(g, k, steps, keyFlag == 1, isBack == 1);
              j >= 0 || isBack != 1 || Fenced(reader.View(), g) ==>
                ended && if j >= 0 then rtn == OK && info.At() == On(reader.shm.layout, g, j)
                         else rtn == ERROR && info.At() == old(info.At())
  {
    hide KeySteps, StepTimes, Fenced, Target, On, Seen, Stands;
    rtn, ended, scratch := ERROR, true, [];
    if steps > 0 {
      var bakPos, bakSeq := info.pos, info.sq;
      var left: nat;
      if keyFlag == 1 {
        var spent;
        left, spent, scratch := SeekKeys(reader, info, steps, isBack == 1, fuel);
        ended := !spent;
      } else {
        left := SeekFrames(reader, info, steps, isBack == 1);
      }
      if left == 0 {
        rtn := OK;
      } else {
        info.pos, info.sq := bakPos, bakSeq;
      }
      if Ready(reader, old(info.At()), g, k, fuel) {
        BackNExact(reader.shm.layout, reader.View(), g, old(info.At()), k, steps, keyFlag, isBack, scratch, fuel);
      }
    } else if steps == 0 {
      rtn := OK;
    }
  }

  /** What becomes of a refresh with moves enough, unless it searches back over a slot that is not fenced. */
  ghost predicate Refreshed(L: Layout, v: Ring, g: Geo, keyed: bool, ended: bool, rtn: int, at: Cursor) {
    if g.N() == 0 then
      ended && rtn == ERROR && at == Cursor(L.start, 0)
    else
      && g.lo < g.N()
      && var j := Newest(g, keyed);
      && (j >= 0 ==> ended && rtn == OK && at == On(L, g, j))
      && (j < 0 && Fenced(v, g) ==> ended && rtn == ERROR && at == On(L, g, g.N() - 1))
  }

  /**
   Puts a stored cursor on the newest frame, or on the last key frame; if there is
   none, it fails and leaves it on the newest frame, or at the start of an empty ring.
   */
  method RefreshNolock(reader: ShmRead, info: ShmInfo, keyFlag: int, fuel: nat, ghost g: Geo)
    returns (rtn: int, ended: bool, ghost scratch: seq<byte>, ghost inner: seq<byte>)
    modifies reader, info
    ensures var out := RefreshN(reader.shm.layout, reader.View(), keyFlag, scratch, inner, fuel);
      if ended then out == Ended(rtn, info.At()) else out == Walking
    ensures Seen(reader.shm.layout, reader.View(), g) && g.N() <= fuel ==>
              Refreshed(reader.shm.layout, reader.View(), g, keyFlag == 1, ended, rtn, info.At())
  {
    hide BackN, ShmCursor.GetExtras, ShmCursor.Refresh, Fenced, On, Seen, Newest;
    ended, scratch, inner := true, [], [];
    rtn, info.pos, info.sq := reader.Refresh();
    if keyFlag == 1 {
      var extras := new byte[reader.shm.layout.extras];
      scratch := extras[..];
      var isKey := KeyAtInfo(reader, info, extras);
      if !isKey {
        rtn, ended, inner := BackNFrameNolock(reader, info, 1, keyFlag, 1, fuel, g, 0);
      }
    }
    if Seen(reader.shm.layout, reader.View(), g) {
      RefreshExact(reader.shm.layout, reader.View(), g, keyFlag, scratch, inner, fuel);
    }
  }

  /** The cursor is initial or denotes frame `k` of the history behind the bytes, and `fuel` is enough to search all of it. */
  ghost predicate Readable(reader: ShmRead, c: Cursor, g: Geo, k: nat, fuel: nat)
    reads reader.shm, reader.shm.mem
  {
    && Seen(reader.shm.layout, reader.View(), g) && (c == INITIAL || Denotes(reader.shm.layout, g, c, k))
    && g.lo <= g.N() <= fuel
  }

  /**
   Reads the next frame through a stored cursor, refreshing it first if it was
   never used: to the newest key frame for H.264 video, to the newest frame
   otherwise. If there is none, it leaves the cursor where the refresh does. A
   cursor gone astray is reset, and the next read starts over.
   */
  method ReadFrameWithExtras(reader: ShmRead, info: ShmInfo, buf: array<byte>, bufLen: int, extras: array<byte>,
                             isVideo: bool, codec: byte, fuel: nat, ghost g: Geo, ghost k: nat)
    returns (rtn: int, bufLen': int, ended: bool, ghost b: Buffers)
    requires reader.Accepts(buf, bufLen, extras)
    modifies reader, info, buf, extras
    ensures b.capacity == bufLen && b.extras == old(extras[..])
    ensures Readable(reader, old(info.At()), g, k, fuel) ==>
              var j := ReadsFrom(g, old(info.At()), k, isVideo && codec == CODEC_H264);
              var out := ReadNext(reader.shm.layout, reader.View(), old(info.At()), b, isVideo, codec, fuel);
              && (j >= 0 ==> ended && j <= g.N() && out.Got?
                             && Delivers(reader.shm.layout, g, j, old(info.At()), bufLen, isVideo, out.result))
              && (j < 0 && g.N() == 0 ==> ended && rtn == NO_FRAME && info.At() == Cursor(reader.shm.layout.start, 0))
              && (j < 0 && 0 < g.N() && Fenced(reader.View(), g) ==>
                    ended && rtn == NO_FRAME && info.At() == On(reader.shm.layout, g, g.N() - 1))
    ensures Seen(reader.shm.layout, reader.View(), g) && Astray(reader.View(), g, old(info.At())) ==>
              && ended && rtn == ERROR && info.At() == INITIAL && bufLen' == bufLen
              && buf[..] == old(buf[..]) && extras[..] == old(extras[..])
    ensures var out := ReadNext(reader.shm.layout, reader.View(), old(info.At()), b, isVideo, codec, fuel);
      if !ended then out == Endless
      else
        && out.Got? && out == Got(ReadResult(rtn, info.At(), out.result.frame, bufLen'))
        && reader.Received(buf, extras, old(buf[..]), old(extras[..]), out.result.frame)
  {
    hide RefreshN, ReadMarked, Word, Delivers, Fenced, On, Seen, Denotes, Newest, ShmCursor.ReadFrame;
    ghost var L, v, c, was := reader.shm.layout, reader.View(), info.At(), extras[..];
    bufLen', ended, b := bufLen, true, Buffers(bufLen, extras[..], [], []);
    if info.pos == 0 {
      ghost var scratch, inner;
      rtn, ended, scratch, inner := RefreshNolock(reader, info, if isVideo && codec == CODEC_H264 then 1 else 0, fuel, g);
      b := Buffers(bufLen, extras[..], scratch, inner);
      if Readable(reader, c, g, k, fuel) {
        ReadNextExact(L, v, g, c, k, b, isVideo, codec, fuel);
      }
      if !ended {
        return;
      } else if rtn < 0 {
        reader.ReceivedNothing(buf, extras);
        return NO_FRAME, bufLen, true, b;
      }
    }
    if Readable(reader, c, g, k, fuel) {
      ReadNextExact(L, v, g, c, k, b, isVideo, codec, fuel);
    }
    if Seen(L, v, g) && Astray(v, g, c) {
      AstrayReads(L, v, g, c, bufLen);
      MarkedCases(L, v, c, bufLen, was, isVideo, ShmCursor.ReadFrame(L, v, c, bufLen));
    }
    rtn, bufLen' := ReadAt(reader, info, buf, bufLen, extras, isVideo);
    if Seen(L, v, g) && Astray(v, g, c) {
      reader.NothingReceived(buf, extras, old(buf[..]), old(extras[..]));
    }
  }

  lemma ExtrasWhole(L: Layout, r: Ring, c: Cursor, capacity: int)
    ensures var bs := ShmCursor.ReadFrame(L, r, c, capacity).frame.extras; bs == [] || |bs| == L.extras
  {
    hide Word, ShmCursor.CheckOverflowed;
  }

  method ReadAt(reader: ShmRead, info: ShmInfo, buf: array<byte>, bufLen: int, extras: array<byte>, isVideo: bool)
    returns (rtn: int, bufLen': int)
    requires reader.Accepts(buf, bufLen, extras)
    modifies reader, info, buf, extras
    ensures reader.View() == old(reader.View())
    ensures var res := ReadMarked(reader.shm.layout, reader.View(), old(info.At()), bufLen, old(extras[..]), isVideo);
      && res == ReadResult(rtn, info.At(), res.frame, bufLen')
      && reader.Received(buf, extras, old(buf[..]), old(extras[..]), res.frame)
  {
    ExtrasWhole(reader.shm.layout, reader.View(), info.At(), bufLen);
    hide ShmCursor.ReadFrame, Word;
    rtn, bufLen', info.pos, info.sq := reader.ReadFrame(buf, bufLen, extras, info.pos, info.sq);
    if rtn == GET_A_NEW_FRAME && isVideo && KEY_OFFSET < extras.Length && extras[KEY_OFFSET] == 1 {
      rtn := GET_A_NEW_KEY_FRAME;
    }
  }
}
