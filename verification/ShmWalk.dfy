/** Where a move or a search through the ring ends, or that it never does, in terms of the history. */
module ShmWalk {
  import opened Bytes
  import opened ShmRing
  import opened ShmCursor
  import opened ShmEvicted
  import opened ShmSteps

  // --- What readers see ---

  /** A reader's view, completed with the writer's private cursor. */
  ghost function Completed(L: Layout, v: Ring, g: Geo): Ring {
    Ring(v.mem, v.newestPos, v.newestSeq, g.WritePos(L), g.N())
  }

  /** The view `v` shows a ring that the history `g` explains. */
  ghost predicate Seen(L: Layout, v: Ring, g: Geo) {
    Inv(L, Completed(L, v, g), g)
  }

  lemma InvSeen(L: Layout, r: Ring, g: Geo)
    requires Inv(L, r, g)
    ensures Seen(L, r, g)
  {
    hide Laid, FrameAt, Holds;
    assert Completed(L, r, g) == r;
  }

  /** Readers do not look at the writer's private cursor. */
  lemma SameView(L: Layout, r: Ring, q: Ring, c: Cursor, capacity: int, kept: seq<byte>)
    requires r.mem == q.mem && r.newestPos == q.newestPos && r.newestSeq == q.newestSeq
    ensures ReadFrame(L, r, c, capacity) == ReadFrame(L, q, c, capacity)
    ensures MoveBack(L, r, c) == MoveBack(L, q, c) && MoveForward(L, r, c) == MoveForward(L, q, c)
    ensures GetExtras(L, r, c, kept) == GetExtras(L, q, c, kept) && Refresh(r) == Refresh(q)
    ensures Distance2Newest(L, r, c) == Distance2Newest(L, q, c)
  {
    hide Word;
    assert CheckOverflowed(L, r, c) == CheckOverflowed(L, q, c);
  }

  lemma SameSlot(r: Ring, q: Ring, g: Geo)
    requires r.mem == q.mem
    ensures Fenced(r, g) == Fenced(q, g)
    ensures !Fenced(r, g) && g.lo <= g.N() ==> Evicted(r, g) == Evicted(q, g)
  {
    hide Word;
  }

  /** A cursor that denotes frame `k`, or the one a refresh leaves behind on an empty ring. */
  ghost predicate Stands(L: Layout, g: Geo, c: Cursor, k: nat) {
    Denotes(L, g, c, k) || (g.N() == k == 0 && c == Cursor(L.start, 0))
  }

  /** The cursor a move leaves on frame `k`. */
  ghost function On(L: Layout, g: Geo, k: nat): Cursor {
    Cursor(g.PosAt(L, k), k + 1)
  }

  lemma OnDenotes(L: Layout, g: Geo, k: nat)
    requires g.lo <= k < g.N()
    ensures Denotes(L, g, On(L, g, k), k)
  {
  }

  lemma SeenBounds(L: Layout, v: Ring, g: Geo)
    requires Seen(L, v, g)
    ensures g.lo <= g.lap <= g.N() && (0 < g.N() ==> g.lo < g.N())
    ensures KEY_OFFSET < L.extras
  {
    InvLaid(L, Completed(L, v, g), g);
  }

  lemma StandsBounds(L: Layout, v: Ring, g: Geo, c: Cursor, k: nat)
    requires Seen(L, v, g) && Stands(L, g, c, k)
    ensures g.lo <= k <= g.N()
  {
    SeenBounds(L, v, g);
  }

  // --- One step ---

  predicate CanStep(g: Geo, k: nat, back: bool) {
    if back then g.lo < k else k < g.N()
  }

  function Stepped(k: nat, back: bool): (j: nat)
    requires back ==> 0 < k
  {
    if back then k - 1 else k + 1
  }

  /** A step reaches the neighbour; out of the window it fails, except back over a slot that is not fenced. */
  lemma StepExact(L: Layout, v: Ring, g: Geo, c: Cursor, k: nat, back: bool)
    requires Seen(L, v, g) && Stands(L, g, c, k)
    ensures g.lo <= k <= g.N()
    ensures CanStep(g, k, back) ==>
              var j := Stepped(k, back); Step(L, v, c, back) == MoveResult(OK, On(L, g, j)) && Denotes(L, g, On(L, g, j), j)
    ensures !CanStep(g, k, back) ==>
              if !back || Fenced(v, g) then Step(L, v, c, back).rtn < 0
              else Step(L, v, c, back) == MoveResult(OK, Evicted(v, g))
  {
    hide Inv, Fenced, Evicted, MoveBack, MoveForward, Denotes;
    var r := Completed(L, v, g);
    SeenBounds(L, v, g);
    SameView(L, v, r, c, 0, []);
    SameSlot(v, r, g);
    if g.N() > 0 {
      if back {
        MoveBackExact(L, r, g, c, k);
      } else {
        MoveForwardExact(L, r, g, c, k);
      }
      Window(L, r, g, c, k);
    } else {
      EmptySteps(L, v, g, c, k);
    }
  }

  lemma Window(L: Layout, r: Ring, g: Geo, c: Cursor, k: nat)
    requires Inv(L, r, g) && Denotes(L, g, c, k)
    ensures g.lo <= k <= g.N() && c.pos != 0
  {
    Resolves(L, r, g, c, k);
  }

  lemma EmptySteps(L: Layout, v: Ring, g: Geo, c: Cursor, k: nat)
    requires Seen(L, v, g) && Stands(L, g, c, k) && g.N() == 0
    ensures g.lo == k == 0 && MoveBack(L, v, c).rtn < 0 && MoveForward(L, v, c).rtn < 0 && Fenced(v, g)
  {
    SeenBounds(L, v, g);
    hide Laid, Word;
  }

  /** Over the slot of the frame evicted last, back to a newer frame that landed there. */
  lemma StepRound(L: Layout, v: Ring, g: Geo, c: Cursor, j: nat)
    requires Seen(L, v, g) && Stands(L, g, c, g.lo) && Landed(g, j)
    ensures Step(L, v, c, true) == MoveResult(OK, On(L, g, j)) && Denotes(L, g, On(L, g, j), j)
  {
    hide Inv, Fenced, Evicted, Denotes, Step;
    StepExact(L, v, g, c, g.lo, true);
    SameSlot(v, Completed(L, v, g), g);
    LandedUnfences(L, Completed(L, v, g), g, j);
  }

  // --- Frame steps ---

  lemma {:induction false} StepTimesLands(L: Layout, v: Ring, g: Geo, c: Cursor, k: nat, back: bool, n: nat)
    requires Seen(L, v, g) && Stands(L, g, c, k) && 0 < n && g.lo <= k <= g.N() && Target(g, k, n, false, back) >= 0
    ensures var j := Target(g, k, n, false, back);
      StepTimes(L, v, c, back, n) == MoveResult(OK, On(L, g, j)) && Denotes(L, g, On(L, g, j), j)
    decreases n
  {
    hide Seen, Denotes, Step;
    StepExact(L, v, g, c, k, back);
    if n > 1 {
      StepTimesLands(L, v, g, On(L, g, Stepped(k, back)), Stepped(k, back), back, n - 1);
    }
  }

  lemma {:induction false} StepTimesFails(L: Layout, v: Ring, g: Geo, c: Cursor, k: nat, back: bool, n: nat)
    requires Seen(L, v, g) && Stands(L, g, c, k) && 0 < n && g.lo <= k <= g.N() && Target(g, k, n, false, back) < 0
    requires back ==> Fenced(v, g)
    ensures StepTimes(L, v, c, back, n).rtn < 0
    decreases n
  {
    hide Seen, Denotes, Step, Fenced;
    StepExact(L, v, g, c, k, back);
    if CanStep(g, k, back) {
      StepTimesFails(L, v, g, On(L, g, Stepped(k, back)), Stepped(k, back), back, n - 1);
    }
  }

  /** Where `n` steps back from `k` lead when frame `j` landed on the evicted slot: round and round the frames `lo..j`. */
  ghost function Round(g: Geo, j: nat, k: nat, n: nat): (i: nat)
    requires g.lo <= k <= g.N() && Landed(g, j)
    ensures g.lo <= i <= g.N()
    decreases n
  {
    if n == 0 then k else Round(g, j, if k > g.lo then k - 1 else j, n - 1)
  }

  lemma {:induction false} RoundDown(g: Geo, j: nat, k: nat, n: nat, m: nat)
    requires g.lo <= k <= g.N() && Landed(g, j) && n <= k - g.lo
    ensures Round(g, j, k, n + m) == Round(g, j, k - n, m)
    decreases n
  {
    if n > 0 {
      RoundDown(g, j, k - 1, n - 1, m);
    }
  }

  /** From a frame of the cycle, one step for every frame of it leads back to the start. */
  lemma RoundReturns(g: Geo, j: nat, k: nat)
    requires Landed(g, j) && g.lo <= k <= j
    ensures Round(g, j, k, j - g.lo + 1) == k
  {
    RoundDown(g, j, k, k - g.lo, j - k + 1);
    RoundDown(g, j, j, j - k, 0);
  }

  lemma {:induction false} StepTimesRound(L: Layout, v: Ring, g: Geo, c: Cursor, k: nat, j: nat, n: nat)
    requires Seen(L, v, g) && Stands(L, g, c, k) && 0 < n && g.lo <= k <= g.N() && Landed(g, j)
    ensures var i := Round(g, j, k, n);
      StepTimes(L, v, c, true, n) == MoveResult(OK, On(L, g, i)) && Denotes(L, g, On(L, g, i), i)
    decreases n
  {
    hide Seen, Denotes, Step, Fenced, Evicted;
    StepExact(L, v, g, c, k, true);
    var m := if k > g.lo then k - 1 else j;
    if k == g.lo {
      StepRound(L, v, g, c, j);
    }
    if n > 1 {
      StepTimesRound(L, v, g, On(L, g, m), m, j, n - 1);
    }
  }

  // --- Key frames ---

  predicate KeyAt(g: Geo, k: nat) {
    k < g.N() && g.hist[k].frame.IsKey()
  }

  /** How many key frames a search still needs once the frame it stands on has been looked at. */
  function After(g: Geo, k: nat, left: nat, moved: bool): (left': nat)
    requires 0 < left
  {
    if KeyAt(g, k) && moved then left - 1 else left
  }

  lemma KeyHere(L: Layout, v: Ring, g: Geo, c: Cursor, k: nat, kept: seq<byte>)
    requires Seen(L, v, g) && Stands(L, g, c, k) && 0 < g.N()
    ensures KeyFlag(GetExtras(L, v, c, kept).extras) <==> KeyAt(g, k)
  {
    hide Inv, GetExtras, Denotes;
    var r := Completed(L, v, g);
    SameView(L, v, r, c, 0, kept);
    ExtrasExact(L, r, g, c, k, kept);
  }

  lemma RemainingStep(g: Geo, k: nat, left: nat, back: bool, moved: bool)
    requires g.lo <= k <= g.N() && 0 < left
    ensures var j := Remaining(g, k, left, back, moved); var left' := After(g, k, left, moved);
      if left' == 0 then j == k && moved
      else if CanStep(g, k, back) then
        && j == Remaining(g, Stepped(k, back), left', back, true)
        && (j >= 0 ==> if back then j < k else k < j)
      else
        j == -1
  {
    var left' := After(g, k, left, moved);
    if back && moved && k < g.N() && 0 < left' {
      assert KeyBack(g.hist, g.lo, k + 1, left) == KeyBack(g.hist, g.lo, k, left');
    } else if !back && k < g.N() && 0 < left' {
      KeyAheadCounts(g.hist, k + 1, left');
    }
  }

  /** Where a key search ends and after how many moves, unless it leads back over a slot that is not fenced. */
  function Moves(g: Geo, k: nat, back: bool, j: int): (n: int)
  {
    if j >= 0 then (if back then k - j else j - k) else if back then k - g.lo else g.N() - k
  }

  lemma {:induction false} KeyStepsExact(L: Layout, v: Ring, g: Geo, c: Cursor, k: nat, back: bool, left: nat, moved: bool,
                                         kept: seq<byte>, fuel: nat)
    requires Seen(L, v, g) && Stands(L, g, c, k) && 0 < left && g.lo <= k <= g.N()
    requires moved ==> 0 < g.N() && c == On(L, g, k)
    requires Remaining(g, k, left, back, moved) >= 0 || !back || Fenced(v, g)
    ensures var j := Remaining(g, k, left, back, moved);
      KeySteps(L, v, c, back, left, moved, kept, fuel) ==
      if fuel < Moves(g, k, back, j) then Spent else if j >= 0 then Found(On(L, g, j)) else Lost
    decreases fuel
  {
    hide Seen, Denotes, Step, Fenced, Evicted, Remaining, GetExtras, On, KeyFlag;
    StepExact(L, v, g, c, k, back);
    RemainingStep(g, k, left, back, moved);
    var extras := GetExtras(L, v, c, kept).extras;
    if g.N() > 0 {
      KeyHere(L, v, g, c, k, kept);
    }
    if After(g, k, left, moved) > 0 && CanStep(g, k, back) && fuel > 0 {
      var j := Stepped(k, back);
      KeyStepsExact(L, v, g, On(L, g, j), j, back, After(g, k, left, moved), true, extras, fuel - 1);
    }
  }

  /** Unfenced and without a key frame in the cycle, a backward key search that finds nothing on its way goes on for ever. */
  lemma {:induction false} KeyStepsEndless(L: Layout, v: Ring, g: Geo, c: Cursor, k: nat, j: nat, left: nat, moved: bool,
                                           kept: seq<byte>, fuel: nat)
    requires Seen(L, v, g) && Stands(L, g, c, k) && 0 < left && g.lo <= k <= g.N()
    requires moved ==> 0 < g.N() && c == On(L, g, k)
    requires Landed(g, j) && KeyCount(g.hist, g.lo, j + 1) == 0 && Remaining(g, k, left, true, moved) < 0
    ensures KeySteps(L, v, c, true, left, moved, kept, fuel) == Spent
    decreases fuel
  {
    hide Seen, Denotes, Step, Fenced, Evicted, Remaining, GetExtras, On, KeyFlag;
    StepExact(L, v, g, c, k, true);
    RemainingStep(g, k, left, true, moved);
    KeyHere(L, v, g, c, k, kept);
    var extras, left' := GetExtras(L, v, c, kept).extras, After(g, k, left, moved);
    var m := if k > g.lo then k - 1 else j;
    if k == g.lo {
      StepRound(L, v, g, c, j);
      NoneRound(g, j, left');
    }
    if fuel > 0 {
      KeyStepsEndless(L, v, g, On(L, g, m), m, j, left', true, extras, fuel - 1);
    }
  }

  lemma NoneRound(g: Geo, j: nat, left: nat)
    requires Landed(g, j) && KeyCount(g.hist, g.lo, j + 1) == 0 && 0 < left
    ensures Remaining(g, j, left, true, true) < 0
  {
    KeyBackCounts(g.hist, g.lo, j + 1, left);
  }

  datatype Stop = Stop(frame: nat, moves: nat)

  /** Where a backward key search ends, and after how many moves, when its way leads round a cycle with key frames in it. */
  ghost function Loop(g: Geo, j: nat, k: nat, left: nat, moved: bool): (s: Stop)
    requires g.lo <= k <= g.N() && 0 < left && Landed(g, j) && 0 < KeyCount(g.hist, g.lo, j + 1)
    ensures g.lo <= s.frame && KeyAt(g, s.frame) && s.frame == Round(g, j, k, s.moves)
    decreases After(g, k, left, moved), if KeyCount(g.hist, g.lo, k) > 0 then k else k + g.N() + 1
  {
    var left' := After(g, k, left, moved);
    if left' == 0 then Stop(k, 0)
    else
      var s := Loop(g, j, if k > g.lo then k - 1 else j, left', true);
      Stop(s.frame, s.moves + 1)
  }

  lemma {:induction false} KeyStepsLoop(L: Layout, v: Ring, g: Geo, c: Cursor, k: nat, j: nat, left: nat, moved: bool,
                                        kept: seq<byte>, fuel: nat)
    requires Seen(L, v, g) && Stands(L, g, c, k) && 0 < left && g.lo <= k <= g.N()
    requires moved ==> 0 < g.N() && c == On(L, g, k)
    requires Landed(g, j) && 0 < KeyCount(g.hist, g.lo, j + 1)
    ensures var s := Loop(g, j, k, left, moved);
      KeySteps(L, v, c, true, left, moved, kept, fuel) == if fuel < s.moves then Spent else Found(On(L, g, s.frame))
    decreases fuel
  {
    hide Seen, Denotes, Step, Fenced, Evicted, GetExtras, On, KeyFlag;
    StepExact(L, v, g, c, k, true);
    KeyHere(L, v, g, c, k, kept);
    var extras, left' := GetExtras(L, v, c, kept).extras, After(g, k, left, moved);
    var m := if k > g.lo then k - 1 else j;
    if k == g.lo {
      StepRound(L, v, g, c, j);
    }
    if left' > 0 && fuel > 0 {
      KeyStepsLoop(L, v, g, On(L, g, m), m, j, left', true, extras, fuel - 1);
    }
  }

  /** The key frames a search passes on its way down to the oldest live frame. */
  function KeysBelow(g: Geo, k: nat, counts: bool): nat
    requires g.lo <= k <= g.N()
  {
    KeyCount(g.hist, g.lo, if counts && k < g.N() then k + 1 else k)
  }

  /** It ends in the window, or after whole laps of the cycle `lo..j` with exactly the key frames asked for. */
  ghost predicate Ends(g: Geo, j: nat, k: nat, left: nat, moved: bool, laps: nat)
    requires g.lo <= k <= g.N() && 0 < left && Landed(g, j) && 0 < KeyCount(g.hist, g.lo, j + 1)
  {
    var i := Loop(g, j, k, left, moved).frame;
    var r := Remaining(g, k, left, true, moved);
    if r >= 0 then i == r
    else i <= j && left == KeysBelow(g, k, moved) + laps * KeyCount(g.hist, g.lo, j + 1) + KeyCount(g.hist, i, j + 1)
  }

  lemma {:induction false} LoopCounts(g: Geo, j: nat, k: nat, left: nat, moved: bool) returns (laps: nat)
    requires g.lo <= k <= g.N() && 0 < left && Landed(g, j) && 0 < KeyCount(g.hist, g.lo, j + 1)
    ensures Ends(g, j, k, left, moved, laps)
    decreases After(g, k, left, moved), if KeyCount(g.hist, g.lo, k) > 0 then k else k + g.N() + 1
  {
    hide Frame.IsKey, KeyFlag, Remaining, KeyBack, KeysBelow;
    var left' := After(g, k, left, moved);
    RemainingStep(g, k, left, true, moved);
    KeysPassed(g, k, left, moved);
    laps := 0;
    if left' > 0 {
      if k > g.lo {
        laps := LoopCounts(g, j, k - 1, left', true);
      } else {
        laps := LoopCounts(g, j, j, left', true);
        laps := Turned(g, j, left', laps);
      }
    }
  }

  lemma Turned(g: Geo, j: nat, left: nat, laps: nat) returns (laps': nat)
    requires Landed(g, j) && 0 < left && 0 < KeyCount(g.hist, g.lo, j + 1)
    requires Ends(g, j, j, left, true, laps)
    ensures var i := Loop(g, j, j, left, true).frame;
      i <= j && left == laps' * KeyCount(g.hist, g.lo, j + 1) + KeyCount(g.hist, i, j + 1)
  {
    hide Loop, KeyCount, KeyBack;
    KeyBackCounts(g.hist, g.lo, j + 1, left);
    laps' := if Remaining(g, j, left, true, true) < 0 then laps + 1 else 0;
  }

  lemma KeyCountNext(hist: seq<Slot>, a: nat, b: nat)
    requires a <= b <= |hist|
    ensures KeyCount(hist, a, a) == 0
    ensures b < |hist| ==> KeyCount(hist, a, b + 1) == KeyCount(hist, a, b) + if hist[b].frame.IsKey() then 1 else 0
  {
    hide Frame.IsKey;
  }

  lemma KeysPassed(g: Geo, k: nat, left: nat, moved: bool)
    requires g.lo <= k <= g.N() && g.lo < g.N() && 0 < left
    ensures left - KeysBelow(g, k, moved) == After(g, k, left, moved) - KeyCount(g.hist, g.lo, k)
    ensures k == g.lo ==> KeyCount(g.hist, g.lo, k) == 0
    ensures k > g.lo ==> KeyCount(g.hist, g.lo, k) == KeysBelow(g, k - 1, true)
  {
    hide Frame.IsKey, KeyCount;
    KeyCountNext(g.hist, g.lo, k);
  }

  // --- Whole moves ---

  /** A move ends exactly on the frame asked for, or fails if there is none and the way back is fenced. */
  lemma BackNExact(L: Layout, v: Ring, g: Geo, c: Cursor, k: nat, steps: nat, keyFlag: int, isBack: int,
                   scratch: seq<byte>, fuel: nat)
    requires Seen(L, v, g) && Stands(L, g, c, k) && 0 < steps
    ensures g.lo <= k <= g.N()
    ensures var keyed, back := keyFlag == 1, isBack == 1;
      var j := Target(g, k, steps, keyed, back);
      var out := BackN(L, v, c, steps, keyFlag, isBack, scratch, fuel);
      j >= 0 || !back || Fenced(v, g) ==>
        if keyed && fuel < Moves(g, k, back, j) then out == Walking
        else if j >= 0 then out == Ended(OK, On(L, g, j)) && Stands(L, g, On(L, g, j), j)
        else out == Ended(ERROR, c)
  {
    hide Seen, Denotes, Fenced, On, KeySteps, StepTimes;
    StandsBounds(L, v, g, c, k);
    var back := isBack == 1;
    var j := Target(g, k, steps, keyFlag == 1, back);
    if j >= 0 || !back || Fenced(v, g) {
      if keyFlag == 1 {
        KeyStepsExact(L, v, g, c, k, back, steps, false, scratch, fuel);
        if j >= 0 {
          OnDenotes(L, g, j);
        }
      } else if j >= 0 {
        StepTimesLands(L, v, g, c, k, back, steps);
      } else {
        StepTimesFails(L, v, g, c, k, back, steps);
      }
    }
  }

  /**
   Back beyond the oldest live frame when a newer frame landed on the evicted
   slot: frame steps succeed on a frame of the cycle; a key search succeeds if
   the cycle holds a key frame, and otherwise never ends.
   */
  lemma BackNRound(L: Layout, v: Ring, g: Geo, c: Cursor, k: nat, j: nat, steps: nat, keyFlag: int,
                   scratch: seq<byte>, fuel: nat)
    requires Seen(L, v, g) && Stands(L, g, c, k) && 0 < steps && Landed(g, j)
    ensures g.lo <= k <= g.N()
    ensures var out := BackN(L, v, c, steps, keyFlag, 1, scratch, fuel);
      Target(g, k, steps, keyFlag == 1, true) < 0 ==>
        if keyFlag != 1 then
          out == Ended(OK, On(L, g, Round(g, j, k, steps)))
        else if KeyCount(g.hist, g.lo, j + 1) == 0 then
          out == Walking
        else
          var s := Loop(g, j, k, steps, false);
          out == if fuel < s.moves then Walking else Ended(OK, On(L, g, s.frame))
  {
    hide Seen, Denotes, Fenced, On, KeySteps, StepTimes, Loop;
    StandsBounds(L, v, g, c, k);
    if Target(g, k, steps, keyFlag == 1, true) < 0 {
      if keyFlag != 1 {
        StepTimesRound(L, v, g, c, k, j, steps);
      } else if KeyCount(g.hist, g.lo, j + 1) == 0 {
        KeyStepsEndless(L, v, g, c, k, j, steps, false, scratch, fuel);
      } else {
        KeyStepsLoop(L, v, g, c, k, j, steps, false, scratch, fuel);
      }
    }
  }

  /** The slot of the frame evicted last shows nothing, or a newer frame that landed there. */
  ghost predicate Decided(v: Ring, g: Geo) {
    Fenced(v, g) || exists j: nat :: Landed(g, j)
  }

  /** It does whenever nothing written can be taken for a magic word; then the history alone tells which. */
  lemma InnocuousDecided(L: Layout, v: Ring, g: Geo)
    requires Seen(L, v, g) && Innocuous(L, g)
    ensures Decided(v, g) && (Fenced(v, g) <==> forall j: nat :: !Landed(g, j))
  {
    hide Inv, Innocuous, Fenced;
    FencedIff(L, Completed(L, v, g), g);
    SameSlot(v, Completed(L, v, g), g);
  }

  /** Back by frames: it fails, leaving the cursor alone, exactly if too few are live and the evicted slot is fenced. */
  lemma FrameMoveFails(L: Layout, v: Ring, g: Geo, c: Cursor, k: nat, steps: nat, keyFlag: int,
                       scratch: seq<byte>, fuel: nat)
    requires Seen(L, v, g) && Stands(L, g, c, k) && 0 < steps && keyFlag != 1 && Decided(v, g)
    ensures g.lo <= k
    ensures BackN(L, v, c, steps, keyFlag, 1, scratch, fuel) == Ended(ERROR, c) <==> k - g.lo < steps && Fenced(v, g)
  {
    hide Seen, Stands, Fenced, BackN;
    BackNExact(L, v, g, c, k, steps, keyFlag, 1, scratch, fuel);
    if j: nat :| Landed(g, j) {
      BackNRound(L, v, g, c, k, j, steps, keyFlag, scratch, fuel);
    }
  }

  lemma {:induction false} StepsBeyond(L: Layout, v: Ring, g: Geo, c: Cursor, k: nat, n: nat)
    requires Seen(L, v, g) && Stands(L, g, c, k) && g.lo <= k <= g.N() && !Fenced(v, g) && k - g.lo < n
    ensures StepTimes(L, v, c, true, n) == StepTimes(L, v, Evicted(v, g), true, n - (k - g.lo) - 1)
    decreases n
  {
    hide Seen, Denotes, Step, Fenced, Evicted;
    StepExact(L, v, g, c, k, true);
    if k > g.lo {
      StepsBeyond(L, v, g, On(L, g, k - 1), k - 1, n - 1);
    }
  }

  /** One frame too many, in every state of the ring: refused if the evicted slot is fenced, else the cursor ends there. */
  lemma OneTooMany(L: Layout, v: Ring, g: Geo, c: Cursor, k: nat, keyFlag: int, scratch: seq<byte>, fuel: nat)
    requires Seen(L, v, g) && Stands(L, g, c, k) && keyFlag != 1
    ensures g.lo <= k <= g.N()
    ensures BackN(L, v, c, k - g.lo + 1, keyFlag, 1, scratch, fuel)
         == if Fenced(v, g) then Ended(ERROR, c) else Ended(OK, Evicted(v, g))
  {
    hide Seen, Stands, Fenced, Evicted, Step;
    StandsBounds(L, v, g, c, k);
    BackNExact(L, v, g, c, k, k - g.lo + 1, keyFlag, 1, scratch, fuel);
    if !Fenced(v, g) {
      StepsBeyond(L, v, g, c, k, k - g.lo + 1);
      assert StepTimes(L, v, Evicted(v, g), true, 0) == MoveResult(OK, Evicted(v, g));
    }
  }

  /** A backward key search can end at all. */
  ghost predicate Finite(L: Layout, v: Ring, c: Cursor, steps: nat, scratch: seq<byte>) {
    exists fuel: nat :: BackN(L, v, c, steps, 1, 1, scratch, fuel).Ended?
  }

  /** The cycle over the frame that landed on the evicted slot holds a key frame. */
  ghost predicate KeyOnCycle(g: Geo) {
    exists j: nat :: Landed(g, j) && KeyCount(g.hist, g.lo, j + 1) > 0
  }

  /** It ends exactly if its target is live, the evicted slot is fenced, or the cycle holds a key frame. */
  lemma KeyMoveEnds(L: Layout, v: Ring, g: Geo, c: Cursor, k: nat, steps: nat, scratch: seq<byte>)
    requires Seen(L, v, g) && Stands(L, g, c, k) && 0 < steps && Decided(v, g)
    ensures g.lo <= k <= g.N()
    ensures Finite(L, v, c, steps, scratch) <==> Target(g, k, steps, true, true) >= 0 || Fenced(v, g) || KeyOnCycle(g)
  {
    hide Seen, Stands, Fenced, BackN, Loop, KeyCount, KeyBack, Target;
    StandsBounds(L, v, g, c, k);
    if Target(g, k, steps, true, true) >= 0 || Fenced(v, g) {
      BackNExact(L, v, g, c, k, steps, 1, 1, scratch, g.N());
      assert BackN(L, v, c, steps, 1, 1, scratch, g.N()).Ended?;
    } else if KeyOnCycle(g) {
      var j: nat :| Landed(g, j) && KeyCount(g.hist, g.lo, j + 1) > 0;
      var n := Loop(g, j, k, steps, false).moves;
      BackNRound(L, v, g, c, k, j, steps, 1, scratch, n);
      assert BackN(L, v, c, steps, 1, 1, scratch, n).Ended?;
    } else {
      var j: nat :| Landed(g, j);
      forall fuel: nat ensures !BackN(L, v, c, steps, 1, 1, scratch, fuel).Ended? {
        BackNRound(L, v, g, c, k, j, steps, 1, scratch, fuel);
      }
    }
  }

  /** A cursor never used moves back as one that waits for the next frame does. */
  lemma FromInitial(L: Layout, v: Ring, g: Geo, steps: nat, keyFlag: int, scratch: seq<byte>, fuel: nat)
    requires Seen(L, v, g) && 0 < g.N() && 0 < steps
    ensures Stands(L, g, On(L, g, g.N()), g.N())
    ensures var waiting := BackN(L, v, On(L, g, g.N()), steps, keyFlag, 1, scratch, fuel);
      BackN(L, v, INITIAL, steps, keyFlag, 1, scratch, fuel)
      == if waiting.Ended? && waiting.rtn != OK then Ended(ERROR, INITIAL) else waiting
  {
    hide Inv, GetExtras, Denotes, KeyFlag, KeySteps, Step, Seen;
    var c, at := On(L, g, g.N()), On(L, g, g.N() - 1);
    WaitingDenotes(L, g);
    SeenBounds(L, v, g);
    OnDenotes(L, g, g.N() - 1);
    InitialStep(L, v, g);
    StepExact(L, v, g, c, g.N(), true);
    KeySearchUnfold(L, v, INITIAL, steps, scratch, fuel);
    KeySearchUnfold(L, v, c, steps, scratch, fuel);
    if fuel > 0 {
      var some, other := GetExtras(L, v, INITIAL, scratch).extras, GetExtras(L, v, c, scratch).extras;
      AnyExtras(L, v, g, at, g.N() - 1, steps, some, other, fuel - 1);
    }
  }

  lemma WaitingDenotes(L: Layout, g: Geo)
    requires 0 < g.N()
    ensures Denotes(L, g, On(L, g, g.N()), g.N())
  {
  }

  lemma NewestHead(L: Layout, r: Ring, g: Geo)
    requires Inv(L, r, g) && 0 < g.N()
    ensures g.lo < g.N() && r.newestSeq == g.N() && r.newestPos == g.hist[g.N() - 1].pos
    ensures Word(r.mem, r.newestPos + SEQ) == g.N()
  {
    hide Slots, Ordered, Ahead, Bounds, Past, Layout.Valid, Word, FrameAt, FrameFrom, Holds;
    LiveFields(L, r, g, g.N() - 1);
  }

  lemma InitialStep(L: Layout, v: Ring, g: Geo)
    requires Seen(L, v, g) && 0 < g.N()
    ensures Step(L, v, INITIAL, true) == MoveResult(OK, On(L, g, g.N() - 1))
  {
    hide Inv, Word, MoveForward, CheckOverflowed;
    NewestHead(L, Completed(L, v, g), g);
  }

  lemma KeySearchUnfold(L: Layout, v: Ring, c: Cursor, left: nat, kept: seq<byte>, fuel: nat)
    requires 0 < left
    ensures var m := Step(L, v, c, true);
      KeySteps(L, v, c, true, left, false, kept, fuel) ==
      if m.rtn < 0 then Lost
      else if fuel == 0 then Spent
      else KeySteps(L, v, m.cursor, true, left, true, GetExtras(L, v, c, kept).extras, fuel - 1)
  {
    hide Step, GetExtras;
  }

  /** What the extras buffer held does not matter on a ring that is not empty. */
  lemma AnyExtras(L: Layout, v: Ring, g: Geo, c: Cursor, k: nat, left: nat, kept: seq<byte>, other: seq<byte>, fuel: nat)
    requires Seen(L, v, g) && 0 < g.N() && Denotes(L, g, c, k) && 0 < left
    ensures KeySteps(L, v, c, true, left, true, kept, fuel) == KeySteps(L, v, c, true, left, true, other, fuel)
  {
    hide Inv, GetExtras, Denotes, Step;
    var r := Completed(L, v, g);
    ExtrasExact(L, r, g, c, k, kept);
    ExtrasExact(L, r, g, c, k, other);
    SameView(L, v, r, c, 0, kept);
    SameView(L, v, r, c, 0, other);
  }

  // --- Starting over and reading ---

  /** The frame a refresh ends on: the newest, or the newest live key frame; -1 if there is none. */
  function Newest(g: Geo, keyed: bool): (j: int)
    requires g.lo < g.N()
    ensures j >= 0 ==> g.lo <= j < g.N()
  {
    if keyed then
      KeyBackCounts(g.hist, g.lo, g.N(), 1);
      KeyBack(g.hist, g.lo, g.N(), 1)
    else
      g.N() - 1
  }

  lemma NewestKey(g: Geo)
    requires g.lo < g.N()
    ensures Newest(g, true) == if KeyAt(g, g.N() - 1) then g.N() - 1 else Target(g, g.N() - 1, 1, true, true)
    ensures Newest(g, true) < 0 <==> KeyCount(g.hist, g.lo, g.N()) == 0
  {
    KeyBackCounts(g.hist, g.lo, g.N(), 1);
  }

  /** On failure the cursor is left on the newest frame, or at the start of an empty ring. */
  lemma RefreshExact(L: Layout, v: Ring, g: Geo, keyFlag: int, scratch: seq<byte>, inner: seq<byte>, fuel: nat)
    requires Seen(L, v, g)
    ensures 0 < g.N() ==> g.lo < g.N()
    ensures var out := RefreshN(L, v, keyFlag, scratch, inner, fuel); var keyed := keyFlag == 1;
      if g.N() == 0 then out == Ended(ERROR, Cursor(L.start, 0))
      else
        var j := Newest(g, keyed);
        j >= 0 || Fenced(v, g) ==>
          if fuel < (if j >= 0 then g.N() - 1 - j else g.N() - 1 - g.lo) then out == Walking
          else if j >= 0 then out == Ended(OK, On(L, g, j))
          else out == Ended(ERROR, On(L, g, g.N() - 1))
  {
    hide Inv, Denotes, Fenced, BackN, KeyFlag, GetExtras;
    SeenBounds(L, v, g);
    var at := Refresh(v).cursor;
    RefreshNewest(L, Completed(L, v, g), g);
    SameView(L, v, Completed(L, v, g), INITIAL, 0, []);
    if g.N() > 0 {
      KeyHere(L, v, g, at, g.N() - 1, scratch);
      NewestKey(g);
      BackNExact(L, v, g, at, g.N() - 1, 1, keyFlag, 1, inner, fuel);
    } else {
      EmptySteps(L, v, g, at, 0);
      BackNExact(L, v, g, at, 0, 1, keyFlag, 1, inner, fuel);
      assert Target(g, 0, 1, keyFlag == 1, true) == -1;
    }
  }

  /** With no live key frame and a newer frame on the evicted slot, a refresh to a key frame never ends. */
  lemma RefreshEndless(L: Layout, v: Ring, g: Geo, j: nat, scratch: seq<byte>, inner: seq<byte>, fuel: nat)
    requires Seen(L, v, g) && Landed(g, j) && KeyCount(g.hist, g.lo, g.N()) == 0
    ensures RefreshN(L, v, 1, scratch, inner, fuel) == Walking
  {
    hide Inv, Denotes, Fenced, BackN, KeyFlag, GetExtras, Target;
    SeenBounds(L, v, g);
    var at := Refresh(v).cursor;
    RefreshNewest(L, Completed(L, v, g), g);
    SameView(L, v, Completed(L, v, g), INITIAL, 0, []);
    KeyHere(L, v, g, at, g.N() - 1, scratch);
    NewestKey(g);
    KeyCountSplit(g.hist, g.lo, j + 1, g.N());
    BackNRound(L, v, g, at, g.N() - 1, j, 1, 1, inner, fuel);
  }

  /** The frame the next read through a stored cursor is about: its own, or where a first refresh ends; -1 for none. */
  ghost function ReadsFrom(g: Geo, c: Cursor, k: nat, keyed: bool): int
    requires g.lo <= g.N()
  {
    if c.pos != 0 then k else if g.lo < g.N() then Newest(g, keyed) else -1
  }

  /** What a read about frame `j` answers. */
  ghost predicate Delivers(L: Layout, g: Geo, j: nat, c: Cursor, capacity: int, isVideo: bool, res: ReadResult)
    requires j <= g.N()
  {
    if j == g.N() then res == ReadResult(NO_NEW_FRAME, c, NOTHING, capacity)
    else
      var f := g.hist[j].frame;
      if |f.payload| > capacity then
        res == ReadResult(FRAME_TOO_LARGE, On(L, g, j), NOTHING, capacity) && Denotes(L, g, On(L, g, j), j)
      else
        && res.rtn == (if isVideo && f.IsKey() then GET_A_NEW_KEY_FRAME else GET_A_NEW_FRAME)
        && res == ReadResult(res.rtn, On(L, g, j + 1), f, |f.payload|)
        && Denotes(L, g, On(L, g, j + 1), j + 1)
  }

  /** What the flag in the extras makes of a read. */
  lemma MarkedCases(L: Layout, v: Ring, c: Cursor, capacity: int, extras: seq<byte>, isVideo: bool, res: ReadResult)
    requires res == ReadFrame(L, v, c, capacity)
    ensures var out := ReadMarked(L, v, c, capacity, extras, isVideo);
      && (res.rtn != GET_A_NEW_FRAME ==> out == res)
      && (res.rtn == GET_A_NEW_FRAME && res.frame.extras != [] ==>
            out == res.(rtn := if isVideo && res.frame.IsKey() then GET_A_NEW_KEY_FRAME else GET_A_NEW_FRAME))
  {
    hide ReadFrame;
  }

  lemma ReadMarkedExact(L: Layout, v: Ring, g: Geo, c: Cursor, k: nat, capacity: int, extras: seq<byte>, isVideo: bool)
    requires Seen(L, v, g) && Denotes(L, g, c, k)
    ensures k <= g.N() && Delivers(L, g, k, c, capacity, isVideo, ReadMarked(L, v, c, capacity, extras, isVideo))
  {
    hide Inv, ReadFrame, ReadMarked, Frame.IsKey, Denotes, Stands;
    var r := Completed(L, v, g);
    InWindow(L, v, g, c, k);
    if k < g.N() {
      FrameExtras(L, v, g, k);
    }
    ReadDelivers(L, r, g, c, k, capacity);
    SameView(L, v, r, c, capacity, []);
    MarkedCases(L, v, c, capacity, extras, isVideo, ReadFrame(L, v, c, capacity));
  }

  lemma InWindow(L: Layout, v: Ring, g: Geo, c: Cursor, k: nat)
    requires Seen(L, v, g) && Denotes(L, g, c, k)
    ensures g.lo <= k <= g.N() && c.pos != 0
  {
    Window(L, Completed(L, v, g), g, c, k);
  }

  lemma FrameExtras(L: Layout, v: Ring, g: Geo, k: nat)
    requires Seen(L, v, g) && k < g.N()
    ensures g.hist[k].frame.extras != []
  {
    SeenBounds(L, v, g);
    assert g.hist[k].frame.Fits(L);
  }

  /**
   A read through a stored cursor that is initial or denotes frame `k`. If the
   refresh it starts with finds no key frame, it answers NO_FRAME and leaves the
   cursor on the newest frame, or at the start of an empty ring.
   */
  lemma ReadNextExact(L: Layout, v: Ring, g: Geo, c: Cursor, k: nat, b: Buffers, isVideo: bool, codec: byte, fuel: nat)
    requires Seen(L, v, g) && (c == INITIAL || Denotes(L, g, c, k)) && g.N() <= fuel
    ensures g.lo <= g.N() && (0 < g.N() ==> g.lo < g.N()) && (c != INITIAL ==> k <= g.N())
    ensures var keyed := isVideo && codec == CODEC_H264;
      var j := ReadsFrom(g, c, k, keyed);
      var out := ReadNext(L, v, c, b, isVideo, codec, fuel);
      if j >= 0 then
        j <= g.N() && out.Got? && Delivers(L, g, j, c, b.capacity, isVideo, out.result)
      else
        g.N() == 0 || Fenced(v, g) ==>
          var at := if g.N() == 0 then Cursor(L.start, 0) else On(L, g, g.N() - 1);
          out == Got(ReadResult(NO_FRAME, at, NOTHING, b.capacity))
  {
    hide Inv, Denotes, Fenced, RefreshN, ReadMarked;
    SeenBounds(L, v, g);
    if c != INITIAL {
      InWindow(L, v, g, c, k);
      ReadMarkedExact(L, v, g, c, k, b.capacity, b.extras, isVideo);
    } else {
      var keyed := isVideo && codec == CODEC_H264;
      RefreshExact(L, v, g, if keyed then 1 else 0, b.scratch, b.inner, fuel);
      var j := ReadsFrom(g, c, k, keyed);
      if j >= 0 {
        OnDenotes(L, g, j);
        ReadMarkedExact(L, v, g, On(L, g, j), j, b.capacity, b.extras, isVideo);
      }
    }
  }

  /** After such an answer the next read starts on the newest frame, an ordinary one. */
  lemma ReadAfterNoFrame(L: Layout, v: Ring, g: Geo, b: Buffers, next: Buffers, fuel: nat)
    requires Seen(L, v, g) && 0 < g.N() <= fuel
    requires g.lo < g.N() && KeyCount(g.hist, g.lo, g.N()) == 0 && Fenced(v, g)
    ensures var first := ReadNext(L, v, INITIAL, b, true, CODEC_H264, fuel);
      && first.Got? && first.result.rtn == NO_FRAME
      && var f := g.hist[g.N() - 1].frame; var second := ReadNext(L, v, first.result.cursor, next, true, CODEC_H264, fuel);
      && !f.IsKey() && (|f.payload| <= next.capacity ==>
        second == Got(ReadResult(GET_A_NEW_FRAME, On(L, g, g.N()), f, |f.payload|)))
  {
    hide Inv, Denotes, Fenced, ReadNext, Frame.IsKey;
    NewestKey(g);
    OnDenotes(L, g, g.N() - 1);
    InWindow(L, v, g, On(L, g, g.N() - 1), g.N() - 1);
    ReadNextExact(L, v, g, INITIAL, 0, b, true, CODEC_H264, fuel);
    ReadNextExact(L, v, g, On(L, g, g.N() - 1), g.N() - 1, next, true, CODEC_H264, fuel);
  }

  /** With no live key frame and a newer frame on the evicted slot, a first read of H.264 video never ends. */
  lemma ReadNextEndless(L: Layout, v: Ring, g: Geo, j: nat, b: Buffers, fuel: nat)
    requires Seen(L, v, g) && Landed(g, j) && KeyCount(g.hist, g.lo, g.N()) == 0
    ensures ReadNext(L, v, INITIAL, b, true, CODEC_H264, fuel) == Endless
  {
    hide RefreshN, Seen, KeyCount;
    RefreshEndless(L, v, g, j, b.scratch, b.inner, fuel);
  }

  /** A read through the cursor an empty ring left behind, before or after frames have been written. */
  lemma ReadFromStart(L: Layout, v: Ring, g: Geo, b: Buffers, isVideo: bool, codec: byte, fuel: nat)
    requires Seen(L, v, g)
    ensures g.lap <= g.N()
    ensures var c := Cursor(L.start, 0); var out := ReadNext(L, v, c, b, isVideo, codec, fuel);
      if g.N() == 0 then out == Got(ReadResult(EMPTY_SPACE, c, NOTHING, b.capacity))
      else if g.lap == g.N() then out == Got(ReadResult(ERROR, INITIAL, NOTHING, b.capacity))
      else
        var f := g.hist[g.lap].frame;
        if |f.payload| > b.capacity then out == Got(ReadResult(FRAME_TOO_LARGE, c, NOTHING, b.capacity))
        else out.Got? && Delivers(L, g, g.lap, c, b.capacity, isVideo, out.result)
  {
    hide Inv, ReadFrame, ReadMarked, RefreshN, Frame.IsKey, Denotes;
    SeenBounds(L, v, g);
    RegionStart(L, v, g);
    if g.lap < g.N() {
      FrameExtras(L, v, g, g.lap);
    }
    var c := Cursor(L.start, 0);
    StartCursorReads(L, Completed(L, v, g), g, b.capacity);
    SameView(L, v, Completed(L, v, g), c, b.capacity, []);
    MarkedCases(L, v, c, b.capacity, b.extras, isVideo, ReadFrame(L, v, c, b.capacity));
  }

  lemma RegionStart(L: Layout, v: Ring, g: Geo)
    requires Seen(L, v, g)
    ensures L.start != 0
  {
    InvLaid(L, Completed(L, v, g), g);
  }

  // --- Cursors that name no frame of the history ---

  /** A cursor from before the writer started over, or one whose frame is gone without a trace. */
  predicate Astray(v: Ring, g: Geo, c: Cursor) {
    && c.pos != 0 && 0 < g.N()
    && (|| c.sq > g.N() + 1
        || (c.sq <= g.N() && !IsFrame(v, c.pos) && !(g.lap < g.N() && c.sq == g.lap + 1)))
  }

  /** A read through it fails, hands out nothing and resets it. */
  lemma AstrayReads(L: Layout, v: Ring, g: Geo, c: Cursor, capacity: int)
    requires Seen(L, v, g) && Astray(v, g, c)
    ensures ReadFrame(L, v, c, capacity) == ReadResult(ERROR, INITIAL, NOTHING, capacity)
  {
    hide Inv, Word, FrameFrom;
    var r := Completed(L, v, g);
    SeenBounds(L, v, g);
    NewestHead(L, r, g);
    StartSeq(L, r, g);
    StartEmpty(L, r, g);
  }

  lemma StartEmpty(L: Layout, r: Ring, g: Geo)
    requires Inv(L, r, g)
    ensures g.lap == g.N() ==> !IsFrame(r, L.start)
  {
    if g.lap == g.N() {
      ZeroFields(L, r, L.start);
    }
  }

  /** So the next read is a first one again, whatever has been written since. */
  lemma AstrayRecovers(L: Layout, v: Ring, g: Geo, c: Cursor, b: Buffers, isVideo: bool, codec: byte,
                       v': Ring, g': Geo, b': Buffers, fuel: nat)
    requires Seen(L, v, g) && Astray(v, g, c) && Seen(L, v', g') && 0 < g'.N() <= fuel
    ensures g'.lo < g'.N()
    ensures var first := ReadNext(L, v, c, b, isVideo, codec, fuel);
      && first == Got(ReadResult(ERROR, INITIAL, NOTHING, b.capacity))
      && var j := Newest(g', isVideo && codec == CODEC_H264);
         var second := ReadNext(L, v', first.result.cursor, b', isVideo, codec, fuel);
      j >= 0 ==> second.Got? && Delivers(L, g', j, INITIAL, b'.capacity, isVideo, second.result)
  {
    hide Seen, ReadFrame, ReadMarked, RefreshN, Delivers, Newest;
    AstrayReads(L, v, g, c, b.capacity);
    MarkedCases(L, v, c, b.capacity, b.extras, isVideo, ReadFrame(L, v, c, b.capacity));
    ReadNextExact(L, v', g', INITIAL, 0, b', isVideo, codec, fuel);
  }

  /** Nor does it lead anywhere else, unless some head stands where it points. */
  lemma AstrayMoves(L: Layout, v: Ring, g: Geo, c: Cursor, kept: seq<byte>)
    requires Seen(L, v, g) && Astray(v, g, c) && !IsFrame(v, c.pos) && !(g.lap < g.N() && c.sq == g.lap + 1)
    ensures Distance2Newest(L, v, c) == -2 && GetExtras(L, v, c, kept) == ExtrasResult(ERROR, kept)
    ensures MoveBack(L, v, c) == MoveForward(L, v, c) == MoveResult(ERROR, INITIAL)
  {
    hide Inv, Word, FrameFrom, FrameSize;
    var r := Completed(L, v, g);
    SeenBounds(L, v, g);
    NewestHead(L, r, g);
    StartSeq(L, r, g);
    StartEmpty(L, r, g);
  }

  /**
   The sequence number is not compared: a cursor at the head of any live frame
   reads that frame, whatever number it carries.
   */
  lemma HeadReads(L: Layout, v: Ring, g: Geo, c: Cursor, j: nat, capacity: int)
    requires Seen(L, v, g) && g.lo <= j < g.N() && c.pos == g.hist[j].pos && c.sq <= g.N()
    ensures var f := g.hist[j].frame;
      ReadFrame(L, v, c, capacity) ==
      if |f.payload| > capacity then ReadResult(FRAME_TOO_LARGE, c, NOTHING, capacity)
      else ReadResult(GET_A_NEW_FRAME, On(L, g, j + 1), f, |f.payload|)
    ensures Distance2Newest(L, v, c) == if c.sq == j + 1 then g.N() - c.sq else -2
  {
    hide Inv, Word, FrameFrom, FrameSize, Following;
    var r := Completed(L, v, g);
    LiveHead(L, r, g, j);
    SameView(L, v, r, c, capacity, []);
    assert IsFrame(r, c.pos);
  }

  lemma LiveHead(L: Layout, r: Ring, g: Geo, j: nat)
    requires Inv(L, r, g) && g.lo <= j < g.N()
    ensures var p, f := g.hist[j].pos, g.hist[j].frame;
      && IsFrame(r, p) && FrameSize(r, p) == |f.payload| <= L.maxFrame && FrameFrom(L, r, p) == f
      && Following(r, p) == On(L, g, j + 1) && Word(r.mem, p + SEQ) == j + 1
      && r.newestSeq == g.N()
  {
    hide Slots, Ordered, Ahead, Bounds, Past, Layout.Valid, Word, FrameFrom, FrameSize, FrameAt, Holds;
    LiveFields(L, r, g, j);
    CountedOnce(L, r, g);
  }

  /** Numbers stay below their limit while the history explains the bytes. */
  lemma CountedOnce(L: Layout, r: Ring, g: Geo)
    requires Inv(L, r, g)
    ensures g.N() + 1 < MAX_SEQUENCE
  {
  }
}
