/** The timer queue: jobs with a due time, and a round-robin pick of one that is due. */
module Sched {
  import opened Handles

  /** A job: when it is due, in seconds. */
  datatype Job = Job(at: int)

  type Queue = seq<Slot<Job>>

  /** C division by 1000, towards zero. */
  function Thousandth(n: int): int {
    if n >= 0 then n / 1000 else 0 - (-n) / 1000
  }

  /** The delay in seconds. */
  function Seconds(delay: int): int {
    Thousandth(delay + 500)
  }

  /** A delay is rounded to the nearest second, half a second up; it is rounded up only if it is not just past one. */
  lemma SecondsNearest(delay: nat)
    ensures delay - 500 < 1000 * Seconds(delay) <= delay + 500
    ensures 1000 * Seconds(delay) >= delay <==> delay % 1000 == 0 || delay % 1000 >= 500
  {
    var q, r := delay / 1000, delay % 1000;
    assert delay + 500 == 1000 * q + (r + 500);
    if r < 500 {
      assert Seconds(delay) == q;
    } else {
      assert Seconds(delay) == q + 1;
    }
  }

  /** A delay already past is rounded towards now, as C divides. */
  lemma SecondsPast(delay: int)
    requires delay < 0
    ensures -500 <= delay ==> Seconds(delay) == 0
    ensures delay < -500 ==> delay + 500 <= 1000 * Seconds(delay) < delay + 1500
  {
  }

  predicate Due(q: Queue, i: nat, now: int) {
    i < |q| && q[i].Live? && q[i].value.at <= now
  }

  // --- The pick ---

  /** The slot `d` places after `s` in a circle of `m`. */
  function Around(m: nat, s: nat, d: nat): (i: nat)
    requires s < m && d < m
    ensures i < m
  {
    if s + d < m then s + d else s + d - m
  }

  /** How many places after `s` slot `i` comes. */
  function Distance(m: nat, s: nat, i: nat): (d: nat)
    requires s < m && i < m
    ensures d < m && Around(m, s, d) == i
  {
    if s <= i then i - s else i + m - s
  }

  /** Where a search begins. */
  function Start(q: Queue, next: nat): (s: nat)
    requires q != []
    ensures s < |q|
  {
    if next >= |q| then 0 else next
  }

  /** The first due job at or after place `d` of the circle from `s`, or -1. */
  function PickFrom(q: Queue, s: nat, d: nat, now: int): (id: int)
    requires s < |q| && d <= |q|
    ensures -1 <= id < |q|
    ensures id >= 0 ==> Due(q, id, now) && d <= Distance(|q|, s, id)
    ensures forall i :: 0 <= i < |q| && d <= Distance(|q|, s, i) && (id >= 0 ==> Distance(|q|, s, i) < Distance(|q|, s, id))
              ==> !Due(q, i, now)
    decreases |q| - d
  {
    if d == |q| then -1
    else if Due(q, Around(|q|, s, d), now) then
      assert Distance(|q|, s, Around(|q|, s, d)) == d;
      Around(|q|, s, d)
    else
      var id := PickFrom(q, s, d + 1, now);
      assert forall i :: 0 <= i < |q| && Distance(|q|, s, i) == d ==> i == Around(|q|, s, d);
      id
  }

  /** The job a call runs: the first due one from where the last call left off, or -1. */
  function Pick(q: Queue, next: nat, now: int): (id: int)
    ensures -1 <= id < |q|
  {
    if q == [] then -1 else PickFrom(q, Start(q, next), 0, now)
  }

  /** Where the next call begins. */
  function After(q: Queue, next: nat, now: int): nat {
    if q == [] then next
    else if Pick(q, next, now) >= 0 then Pick(q, next, now) + 1
    else Start(q, next)
  }

  /** A job is picked whenever one is due. */
  lemma PickFinds(q: Queue, next: nat, now: int, t: nat)
    requires Due(q, t, now)
    ensures Pick(q, next, now) >= 0
    ensures Distance(|q|, Start(q, next), Pick(q, next, now)) <= Distance(|q|, Start(q, next), t)
  {
  }

  /** Nothing is picked only while every job is still ahead. */
  lemma NoneDue(q: Queue, next: nat, now: int)
    ensures Pick(q, next, now) < 0 ==> forall i: nat :: At(q, i).Live? ==> now < At(q, i).value.at
  {
    hide Pick;
    forall i: nat | Pick(q, next, now) < 0 && At(q, i).Live? ensures now < At(q, i).value.at {
      if At(q, i).value.at <= now {
        PickFinds(q, next, now, i);
      }
    }
  }

  // --- No starvation ---

  /** What a call finds: the queue and the time. Anything may have happened between calls. */
  datatype Call = Call(q: Queue, now: int)

  /** What each of a run of calls picks. */
  function Picks(calls: seq<Call>, next: nat): (ids: seq<int>)
    ensures |ids| == |calls|
  {
    if calls == [] then []
    else
      var c := calls[0];
      [Pick(c.q, next, c.now)] + Picks(calls[1..], After(c.q, next, c.now))
  }

  /** In every call there are `m` slots and job `t` is due. */
  ghost predicate StaysDue(calls: seq<Call>, m: nat, t: nat) {
    forall k :: 0 <= k < |calls| ==> |calls[k].q| == m && Due(calls[k].q, t, calls[k].now)
  }

  function From(m: nat, next: nat): (s: nat)
    requires m > 0
    ensures s < m
  {
    if next >= m then 0 else next
  }

  /** A call that runs another job leaves the waiting one nearer. */
  lemma Nearer(q: Queue, next: nat, now: int, t: nat)
    requires Due(q, t, now) && Pick(q, next, now) != t
    ensures var m := |q|;
      Distance(m, From(m, After(q, next, now)), t) < Distance(m, From(m, next), t)
  {
    PickFinds(q, next, now, t);
  }

  lemma PicksUnfold(calls: seq<Call>, next: nat)
    requires calls != []
    ensures var c := calls[0];
      && Picks(calls, next)[0] == Pick(c.q, next, c.now)
      && forall k :: 0 <= k < |calls| - 1 ==> Picks(calls, next)[k + 1] == Picks(calls[1..], After(c.q, next, c.now))[k]
  {
    hide Pick, After;
  }

  /** The first `n` calls do not run `t`. */
  ghost predicate NotYet(calls: seq<Call>, next: nat, t: nat, n: nat)
    requires n <= |calls|
  {
    forall k :: 0 <= k < n ==> Picks(calls, next)[k] != t
  }

  lemma NotYetTail(calls: seq<Call>, next: nat, t: nat, n: nat)
    requires 0 < n <= |calls| && NotYet(calls, next, t, n)
    ensures Pick(calls[0].q, next, calls[0].now) != t
    ensures NotYet(calls[1..], After(calls[0].q, next, calls[0].now), t, n - 1)
  {
    hide Pick, After, Picks;
    PicksUnfold(calls, next);
    var rest := Picks(calls[1..], After(calls[0].q, next, calls[0].now));
    forall k | 0 <= k < n - 1 ensures rest[k] != t {
      assert rest[k] == Picks(calls, next)[k + 1];
    }
  }

  /** A job that stays due is run, within as many calls as there are slots. */
  lemma {:induction false} Served(calls: seq<Call>, next: nat, m: nat, t: nat) returns (k: nat)
    requires t < m && StaysDue(calls, m, t) && |calls| > Distance(m, From(m, next), t)
    ensures k <= Distance(m, From(m, next), t) < m && Picks(calls, next)[k] == t
    decreases |calls|
  {
    hide Pick, After, Picks, Distance, Due, From;
    var c := calls[0];
    PicksUnfold(calls, next);
    if Pick(c.q, next, c.now) == t {
      k := 0;
    } else {
      Nearer(c.q, next, c.now, t);
      k := Served(calls[1..], After(c.q, next, c.now), m, t);
      k := k + 1;
    }
  }

  /** Meanwhile nobody is run twice: what is run comes ever closer to the waiting job. */
  lemma {:induction false} NobodyTwice(calls: seq<Call>, next: nat, m: nat, t: nat, i: nat, j: nat)
    requires t < m && StaysDue(calls, m, t) && i < j < |calls| && NotYet(calls, next, t, j)
    ensures Picks(calls, next)[i] != Picks(calls, next)[j]
    decreases |calls|
  {
    hide Pick, After, Picks, Due, NotYet;
    var c := calls[0];
    var rest, next' := calls[1..], After(c.q, next, c.now);
    PicksUnfold(calls, next);
    NotYetTail(calls, next, t, j);
    assert Picks(calls, next)[j] == Picks(rest, next')[j - 1];
    if i > 0 {
      NobodyTwice(rest, next', m, t, i - 1, j - 1);
      assert Picks(calls, next)[i] == Picks(rest, next')[i - 1];
    } else {
      StaysBefore(rest, next', m, t, j - 1);
      PassedBy(c.q, next, c.now, t);
    }
  }

  /** The job just run is the farthest from where the next call begins, farther than the waiting one. */
  lemma PassedBy(q: Queue, next: nat, now: int, t: nat)
    requires Due(q, t, now) && Pick(q, next, now) != t
    ensures var m, id := |q|, Pick(q, next, now);
      && 0 <= id < m
      && Distance(m, From(m, After(q, next, now)), t) < Distance(m, From(m, After(q, next, now)), id)
  {
    PickFinds(q, next, now, t);
  }

  /** Until the waiting job is run, every job that is run lies between the start and it. */
  lemma {:induction false} StaysBefore(calls: seq<Call>, next: nat, m: nat, t: nat, j: nat)
    requires t < m && StaysDue(calls, m, t) && j < |calls| && NotYet(calls, next, t, j)
    ensures var s, id := From(m, next), Picks(calls, next)[j];
      0 <= id < m && Distance(m, s, id) <= Distance(m, s, t)
    decreases |calls|
  {
    hide Pick, After, Picks, Due, NotYet;
    var c := calls[0];
    PicksUnfold(calls, next);
    if j == 0 {
      PickFinds(c.q, next, c.now, t);
    } else {
      NotYetTail(calls, next, t, j);
      StaysBefore(calls[1..], After(c.q, next, c.now), m, t, j - 1);
      assert Picks(calls, next)[j] == Picks(calls[1..], After(c.q, next, c.now))[j - 1];
      StillBetween(c.q, next, c.now, t, Picks(calls, next)[j]);
    }
  }

  /** Between the new start and the waiting job is between the old start and it. */
  lemma StillBetween(q: Queue, next: nat, now: int, t: nat, id: nat)
    requires Due(q, t, now) && Pick(q, next, now) != t && id < |q|
    requires var s' := From(|q|, After(q, next, now)); Distance(|q|, s', id) <= Distance(|q|, s', t)
    ensures Distance(|q|, From(|q|, next), id) <= Distance(|q|, From(|q|, next), t)
  {
    PickFinds(q, next, now, t);
  }

  class Scheduler {
    // The jobs, held in a handle table, and where the next call begins.
    const table: HandleTable<Job>
    var next: nat

    ghost predicate Valid()
      reads table, table.slots
    {
      table.Valid()
    }

    ghost function Jobs(): (q: Queue)
      reads table, table.slots
      requires Valid()
      ensures LastInUse(q)
    {
      table.Contents()
    }

    constructor ()
      ensures Valid() && Jobs() == [] && next == 0 && fresh(table) && fresh(table.slots)
    {
      table := new HandleTable<Job>();
      next := 0;
    }

    /** Schedules a job under the lowest free id; all others stay as they are. */
    method SchedCallback(delay: int, now: int) returns (schedid: nat)
      requires Valid()
      modifies table, table.slots
      ensures Valid() && (table.slots == old(table.slots) || fresh(table.slots))
      ensures At(old(Jobs()), schedid).Deleted? && forall i :: 0 <= i < schedid ==> At(old(Jobs()), i).Live?
      ensures forall i :: At(Jobs(), i) == if i == schedid then Live(Job(Seconds(delay) + now)) else At(old(Jobs()), i)
    {
      schedid := table.AllocEntry(Job(Seconds(delay) + now));
    }

    /** Gives a job a new time; an id that names none is ignored. */
    method ReschedCallback(schedid: int, delay: int, now: int)
      requires Valid() && schedid >= -1
      modifies table.slots
      ensures Valid()
      ensures forall i :: At(Jobs(), i)
                == if i == schedid && At(old(Jobs()), i).Live? then Live(Job(Seconds(delay) + now)) else At(old(Jobs()), i)
    {
      if schedid == -1 || schedid >= table.max || table.slots[schedid].Deleted? {
        return;
      }
      table.Replace(schedid, Job(Seconds(delay) + now));
    }

    /** Drops a job, if the id names one; all others stay as they are. */
    method UnschedCallback(schedid: int)
      requires Valid() && schedid >= -1
      modifies table, table.slots
      ensures Valid() && (table.slots == old(table.slots) || fresh(table.slots))
      ensures forall i :: At(Jobs(), i) == if i == schedid then Deleted else At(old(Jobs()), i)
    {
      if schedid == -1 || schedid >= table.max || table.slots[schedid].Deleted? {
        return;
      }
      table.Free(schedid);
    }

    /** Runs at most one due job, and says which. */
    method Process(now: int) returns (ran: int)
      requires Valid()
      modifies this`next
      ensures Valid() && ran == Pick(Jobs(), old(next), now) && next == After(Jobs(), old(next), now)
      ensures ran >= 0 ==> At(Jobs(), ran).Live? && At(Jobs(), ran).value.at <= now && next == ran + 1
      ensures ran < 0 ==> forall i: nat :: At(Jobs(), i).Live? ==> now < At(Jobs(), i).value.at
      ensures ran < 0 ==> next == if old(next) >= |Jobs()| > 0 then 0 else old(next)
    {
      hide PickFrom;
      NoneDue(Jobs(), next, now);
      if table.max <= 0 {
        return -1;
      }
      if next >= table.max {
        next := 0;
      }
      ran := Search(now);
      if ran >= 0 {
        next := ran + 1;
      }
    }

    /** Goes round the circle once. */
    method Search(now: int) returns (schedid: int)
      requires Valid() && next < table.max
      ensures schedid == PickFrom(Jobs(), next, 0, now)
    {
      hide PickFrom, Due, Distance;
      schedid := next;
      ghost var d, m := 0, table.max;
      while true
        invariant d < m && schedid == Around(m, next, d)
        invariant PickFrom(Jobs(), next, d, now) == PickFrom(Jobs(), next, 0, now)
        decreases m - d
      {
        PickUnfolds(Jobs(), next, d, now);
        if IsDue(schedid, now) {
          return;
        }
        schedid := schedid + 1;
        if schedid >= table.max {
          schedid := 0;
        }
        d := d + 1;
        if schedid == next {
          PickUnfolds(Jobs(), next, d, now);
          return -1;
        }
      }
    }

    predicate IsDue(i: nat, now: int)
      reads this, table, table.slots
      requires Valid() && i < table.max
      ensures IsDue(i, now) == Due(Jobs(), i, now)
    {
      table.slots[i].Live? && table.slots[i].value.at <= now
    }
  }

  /** Dropping a job just scheduled leaves the queue as it was. */
  lemma UnschedUndoes(q: Queue, added: Queue, dropped: Queue, id: int, job: Job)
    requires LastInUse(q) && LastInUse(dropped) && At(q, id).Deleted?
    requires forall i :: At(added, i) == if i == id then Live(job) else At(q, i)
    requires forall i :: At(dropped, i) == if i == id then Deleted else At(added, i)
    ensures dropped == q
  {
    forall i: nat ensures At(dropped, i) == At(q, i) {
      assert At(added, i) == if i == id then Live(job) else At(q, i);
    }
    SameSlots(dropped, q);
  }

  lemma PickUnfolds(q: Queue, s: nat, d: nat, now: int)
    requires s < |q| && d <= |q|
    ensures PickFrom(q, s, d, now) ==
            if d == |q| then -1
            else if Due(q, Around(|q|, s, d), now) then Around(|q|, s, d)
            else PickFrom(q, s, d + 1, now)
  {
  }
}
