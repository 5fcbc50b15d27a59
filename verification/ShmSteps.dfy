/**
 Moving a stored cursor by steps or by key frames, and reading through it, on
 any bytes at all; and the same on the history. A search may go on for ever, so
 it is given the number of moves after which it is cut off.
 */
module ShmSteps {
  import opened Bytes
  import opened ShmRing
  import opened ShmCursor

  const CODEC_H264: byte := 3

  function Step(L: Layout, r: Ring, c: Cursor, back: bool): MoveResult {
    if back then MoveBack(L, r, c) else MoveForward(L, r, c)
  }

  /** `n` steps, or as many as succeed. */
  function StepTimes(L: Layout, r: Ring, c: Cursor, back: bool, n: nat): MoveResult
    decreases n
  {
    if n == 0 then MoveResult(OK, c)
    else
      var m := Step(L, r, c, back);
      if m.rtn < 0 then m else StepTimes(L, r, m.cursor, back, n - 1)
  }

  /** `Spent`: still under way after the moves allowed. */
  datatype Search = Found(cursor: Cursor) | Lost | Spent

  /**
   The key-frame loop: look at the flag in the extras of the frame here, which
   counts once the cursor has moved, then step on. `kept` is what the extras
   buffer holds; `fuel` bounds the moves.
   */
  function KeySteps(L: Layout, r: Ring, c: Cursor, back: bool, left: nat, moved: bool, kept: seq<byte>, fuel: nat): Search
    requires 0 < left
    decreases fuel
  {
    var extras := GetExtras(L, r, c, kept).extras;
    var left' := if KeyFlag(extras) && moved then left - 1 else left;
    if left' == 0 then Found(c)
    else
      var m := Step(L, r, c, back);
      if m.rtn < 0 then Lost
      else if fuel == 0 then Spent
      else KeySteps(L, r, m.cursor, back, left', true, extras, fuel - 1)
  }

  /** How a move ends: with a code and the cursor it leaves, or not within the moves allowed. */
  datatype Outcome = Ended(rtn: int, cursor: Cursor) | Walking

  /** A move by `steps` frames or key frames. A failed move puts the cursor back. */
  function BackN(L: Layout, r: Ring, c: Cursor, steps: int, keyFlag: int, isBack: int, scratch: seq<byte>, fuel: nat)
    : (out: Outcome)
    ensures out.Ended? && out.rtn != OK ==> out == Ended(ERROR, c)
  {
    if steps <= 0 then Ended(if steps == 0 then OK else ERROR, c)
    else if keyFlag == 1 then
      match KeySteps(L, r, c, isBack == 1, steps, false, scratch, fuel)
      case Found(at) => Ended(OK, at)
      case Lost => Ended(ERROR, c)
      case Spent => Walking
    else
      var m := StepTimes(L, r, c, isBack == 1, steps);
      if m.rtn < 0 then Ended(ERROR, c) else Ended(OK, m.cursor)
  }

  /** Starting over: at the newest frame, or at the last key frame. */
  function RefreshN(L: Layout, r: Ring, keyFlag: int, scratch: seq<byte>, inner: seq<byte>, fuel: nat): Outcome {
    var m := Refresh(r);
    if keyFlag == 1 && !KeyFlag(GetExtras(L, r, m.cursor, scratch).extras) then
      BackN(L, r, m.cursor, 1, keyFlag, 1, inner, fuel)
    else
      Ended(m.rtn, m.cursor)
  }

  /** A read whose code tells key frames of a video apart; `extras` is what the caller's buffer holds. */
  function ReadMarked(L: Layout, r: Ring, c: Cursor, capacity: int, extras: seq<byte>, isVideo: bool): ReadResult {
    var res := ReadFrame(L, r, c, capacity);
    var got := if res.frame.extras == [] then extras else res.frame.extras;
    if res.rtn == GET_A_NEW_FRAME && isVideo && KeyFlag(got) then res.(rtn := GET_A_NEW_KEY_FRAME) else res
  }

  datatype Reading = Got(result: ReadResult) | Endless

  /** What the caller and the scratch buffers of a read hold. */
  datatype Buffers = Buffers(capacity: int, extras: seq<byte>, scratch: seq<byte>, inner: seq<byte>)

  /** The next frame through a stored cursor, which is refreshed first if it was never used. */
  function ReadNext(L: Layout, r: Ring, c: Cursor, b: Buffers, isVideo: bool, codec: byte, fuel: nat): Reading {
    if c.pos != 0 then Got(ReadMarked(L, r, c, b.capacity, b.extras, isVideo))
    else
      match RefreshN(L, r, if isVideo && codec == CODEC_H264 then 1 else 0, b.scratch, b.inner, fuel)
      case Walking => Endless
      case Ended(rtn, at) =>
        if rtn < 0 then Got(ReadResult(NO_FRAME, at, NOTHING, b.capacity))
        else Got(ReadMarked(L, r, at, b.capacity, b.extras, isVideo))
  }

  // --- Key frames of the history ---

  /** Index of the `n`-th key frame before `k`, counting back, or -1 if `lo..k` holds fewer. */
  function KeyBack(hist: seq<Slot>, lo: nat, k: nat, n: nat): (j: int)
    requires lo <= k <= |hist| && 0 < n
    ensures -1 <= j < k
    decreases k
  {
    if k == lo then -1
    else if !hist[k - 1].frame.IsKey() then KeyBack(hist, lo, k - 1, n)
    else if n == 1 then k - 1
    else KeyBack(hist, lo, k - 1, n - 1)
  }

  /** Index of the `n`-th key frame from `k` on, or -1 if there are fewer. */
  function KeyAhead(hist: seq<Slot>, k: nat, n: nat): (j: int)
    requires k <= |hist| && 0 < n
    ensures -1 <= j < |hist|
    decreases |hist| - k
  {
    if k == |hist| then -1
    else if !hist[k].frame.IsKey() then KeyAhead(hist, k + 1, n)
    else if n == 1 then k
    else KeyAhead(hist, k + 1, n - 1)
  }

  function KeyCount(hist: seq<Slot>, a: nat, b: nat): nat
    requires a <= b <= |hist|
    decreases b
  {
    if a == b then 0 else KeyCount(hist, a, b - 1) + if hist[b - 1].frame.IsKey() then 1 else 0
  }

  lemma {:induction false} KeyCountSplit(hist: seq<Slot>, a: nat, m: nat, b: nat)
    requires a <= m <= b <= |hist|
    ensures KeyCount(hist, a, b) == KeyCount(hist, a, m) + KeyCount(hist, m, b)
    decreases b
  {
    if m < b {
      KeyCountSplit(hist, a, m, b - 1);
    }
  }

  /** The backward search finds the frame with exactly `n` key frames from it up to `k`, when there are that many. */
  lemma {:induction false} KeyBackCounts(hist: seq<Slot>, lo: nat, k: nat, n: nat)
    requires lo <= k <= |hist| && 0 < n
    ensures var j := KeyBack(hist, lo, k, n);
      && (j >= 0 <==> n <= KeyCount(hist, lo, k))
      && (j >= 0 ==> lo <= j < k && hist[j].frame.IsKey() && KeyCount(hist, j, k) == n)
    decreases k
  {
    if lo < k {
      var m := if hist[k - 1].frame.IsKey() then n - 1 else n;
      if m > 0 {
        KeyBackCounts(hist, lo, k - 1, m);
      }
    }
  }

  lemma {:induction false} KeyAheadCounts(hist: seq<Slot>, k: nat, n: nat)
    requires k <= |hist| && 0 < n
    ensures var j := KeyAhead(hist, k, n);
      && (j >= 0 <==> n <= KeyCount(hist, k, |hist|))
      && (j >= 0 ==> k <= j && hist[j].frame.IsKey() && KeyCount(hist, k, j + 1) == n)
    decreases |hist| - k
  {
    if k < |hist| {
      KeyCountSplit(hist, k, k + 1, |hist|);
      var m := if hist[k].frame.IsKey() then n - 1 else n;
      if m > 0 {
        KeyAheadCounts(hist, k + 1, m);
        var j := KeyAhead(hist, k + 1, m);
        if j >= 0 {
          KeyCountSplit(hist, k, k + 1, j + 1);
        }
      }
    }
  }

  /** The frame a search from frame `k` must end on, or -1. */
  function Target(g: Geo, k: nat, steps: nat, keyed: bool, back: bool): (j: int)
    requires g.lo <= k <= g.N() && 0 < steps
    ensures j >= 0 ==> g.lo <= j <= g.N()
  {
    if keyed then
      if back then
        KeyBackCounts(g.hist, g.lo, k, steps);
        KeyBack(g.hist, g.lo, k, steps)
      else if k == g.N() then -1
      else
        KeyAheadCounts(g.hist, k + 1, steps);
        KeyAhead(g.hist, k + 1, steps)
    else if back then
      if steps <= k - g.lo then k - steps else -1
    else
      if k + steps <= g.N() then k + steps else -1
  }

  /** A key frame is determined by how many key frames lie between a fixed frame and it. */
  lemma KeyUnique(hist: seq<Slot>, a: nat, i: nat, j: nat)
    requires a <= i <= j < |hist| && hist[i].frame.IsKey() && hist[j].frame.IsKey()
    requires KeyCount(hist, a, i + 1) == KeyCount(hist, a, j + 1)
    ensures i == j
  {
    if i < j {
      KeyCountSplit(hist, a, i + 1, j + 1);
    }
  }

  /** As many steps forward undo those back, unless key steps set out from an ordinary frame. */
  lemma StepsUndo(g: Geo, k: nat, steps: nat, keyed: bool)
    requires g.lo <= k <= g.N() && 0 < steps && Target(g, k, steps, keyed, true) >= 0
    ensures Target(g, Target(g, k, steps, keyed, true), steps, keyed, false) == k
            <==> (!keyed || (k < g.N() && g.hist[k].frame.IsKey()))
  {
    if keyed {
      var j := Target(g, k, steps, true, true);
      KeyBackCounts(g.hist, g.lo, k, steps);
      KeyAheadCounts(g.hist, j + 1, steps);
      KeyCountSplit(g.hist, j, j + 1, k);
      if k < g.N() && g.hist[k].frame.IsKey() {
        KeyCountSplit(g.hist, j + 1, k + 1, g.N());
        var back := KeyAhead(g.hist, j + 1, steps);
        if back <= k {
          KeyUnique(g.hist, j + 1, back, k);
        } else {
          KeyUnique(g.hist, j + 1, k, back);
        }
      }
    }
  }

  /** Where a key search still `left` frames short ends, from frame `k`, which itself counts once the cursor has moved. */
  ghost function Remaining(g: Geo, k: nat, left: nat, back: bool, counts: bool): (j: int)
    requires g.lo <= k <= g.N() && 0 < left
  {
    if back then KeyBack(g.hist, g.lo, if counts && k < g.N() then k + 1 else k, left)
    else if counts then KeyAhead(g.hist, k, left)
    else if k == g.N() then -1
    else KeyAhead(g.hist, k + 1, left)
  }
}
