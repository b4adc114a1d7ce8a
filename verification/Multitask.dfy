/**
  The multitask() awaitable (pb_type_task): runs its children one step each per round until
  all are done, or until one is done when racing, and cancels the others.
 */
module Multitask {
  import opened Words

  type Obj = nat

  /** How a child behaves: it yields so many times and then returns (None or a value) or raises. */
  datatype Outcome = Return(value: Option<Obj>) | Raise(exception: nat)

  /** closing: the k-th close() call raises this exception, if any; calls beyond the list do not raise. */
  datatype Plan = Plan(steps: nat, outcome: Outcome, closing: seq<Option<nat>>)

  /** One child and its progress record: how often it was iterated and closed, whether it is done, its return_val. */
  datatype Track = Track(plan: Plan, iterated: nat, closed: nat, done: bool, result: Option<Obj>)

  datatype Round = Ongoing | Finished(values: seq<Option<Obj>>) | Raised(exception: nat)

  /**
    How the loop over the children ends: not enough are done; a turn made enough; it came to the end with enough; one
    raised.
   */
  datatype Ending = Pending | Enough | Over | Broken(exception: nat)

  // ----- Closing -----

  /** The exception the next close() of this child raises. */
  function CloseError(t: Track): Option<nat> {
    if t.closed < |t.plan.closing| then t.plan.closing[t.closed] else None
  }

  /** pb_type_Task_close from child i on: closes every child that is not done, up to the first that raises. */
  function CloseFrom(ts: seq<Track>, i: nat): (r: (seq<Track>, Option<nat>))
    requires i <= |ts|
    ensures |r.0| == |ts|
    decreases |ts| - i
  {
    if i == |ts| then (ts, None)
    else if ts[i].done then CloseFrom(ts, i + 1)
    else
      var next := ts[i := ts[i].(closed := ts[i].closed + 1)];
      if CloseError(ts[i]).Some? then (next, CloseError(ts[i])) else CloseFrom(next, i + 1)
  }

  function CloseAll(ts: seq<Track>): (r: (seq<Track>, Option<nat>))
    ensures |r.0| == |ts|
  {
    CloseFrom(ts, 0)
  }

  function Results(ts: seq<Track>): (r: seq<Option<Obj>>)
    ensures |r| == |ts| && forall i :: 0 <= i < |ts| ==> r[i] == ts[i].result
  {
    seq(|ts|, i requires 0 <= i < |ts| => ts[i].result)
  }

  predicate StillYields(t: Track) {
    t.iterated < t.plan.steps
  }

  /** What one mp_iternext does to a child that is not done. */
  function Advance(t: Track): Track {
    var t' := t.(iterated := t.iterated + 1);
    if StillYields(t) || t.plan.outcome.Raise? then t'
    else t'.(done := true, result := if t.plan.outcome.value.Some? then t.plan.outcome.value else t.result)
  }

  /** The loop of one round from child i on, with total children found done so far. */
  function RoundFrom(ts: seq<Track>, required: nat, i: nat, total: nat): (r: (seq<Track>, Ending))
    requires i <= |ts|
    ensures |r.0| == |ts|
    decreases |ts| - i
  {
    if i == |ts| then
      (ts, if total < required then Pending else Over)
    else if ts[i].done then
      RoundFrom(ts, required, i + 1, total + 1)
    else
      var next := ts[i := Advance(ts[i])];
      if StillYields(ts[i]) then RoundFrom(next, required, i + 1, total)
      else if ts[i].plan.outcome.Raise? then (next, Broken(ts[i].plan.outcome.exception))
      else if total + 1 >= required then (next, Enough)
      else RoundFrom(next, required, i + 1, total + 1)
  }

  /**
    What follows the loop. When enough are done the others are closed; a close that raises there enters the
    exception handler, which closes everything that is not done once more. The handler re-raises the exception
    it was entered with, unless closing raises itself.
   */
  function Conclude(ts: seq<Track>, ending: Ending): (r: (seq<Track>, Round))
    ensures |r.0| == |ts|
  {
    match ending
    case Pending => (ts, Ongoing)
    case Over => (ts, Finished(Results(ts)))
    case Broken(e) => Handle(ts, e)
    case Enough =>
      var (closed, error) := CloseAll(ts);
      if error.None? then (closed, Finished(Results(closed))) else Handle(closed, error.value)
  }

  /** The exception handler of pb_type_Task_iternext. */
  function Handle(ts: seq<Track>, exception: nat): (seq<Track>, Round) {
    var (closed, error) := CloseAll(ts);
    (closed, Raised(if error.Some? then error.value else exception))
  }

  /** The children at the end of the loop of one round, and how it ends. */
  function Loop(ts: seq<Track>, required: nat): (seq<Track>, Ending) {
    RoundFrom(ts, required, 0, 0)
  }

  function RunRound(ts: seq<Track>, required: nat): (seq<Track>, Round) {
    var (mid, ending) := Loop(ts, required);
    Conclude(mid, ending)
  }

  function Fresh(plans: seq<Plan>): (ts: seq<Track>)
    ensures |ts| == |plans| && forall i :: 0 <= i < |ts| ==> ts[i] == Track(plans[i], 0, 0, false, None)
  {
    seq(|plans|, i requires 0 <= i < |plans| => Track(plans[i], 0, 0, false, None))
  }

  /** The children after n rounds. */
  function Rounds(plans: seq<Plan>, required: nat, n: nat): (ts: seq<Track>)
    ensures |ts| == |plans|
  {
    if n == 0 then Fresh(plans) else RunRound(Rounds(plans, required, n - 1), required).0
  }

  /** What the n-th round reports, counting from 1. */
  function Report(plans: seq<Plan>, required: nat, n: nat): Round
    requires n > 0
  {
    RunRound(Rounds(plans, required, n - 1), required).1
  }

  // ----- Counting the done -----

  function CountDone(ts: seq<Track>): (n: nat)
    ensures n <= |ts|
  {
    if ts == [] then 0 else CountDone(ts[..|ts| - 1]) + if ts[|ts| - 1].done then 1 else 0
  }

  lemma {:induction false} CountDoneAll(ts: seq<Track>)
    ensures CountDone(ts) == |ts| <==> forall i :: 0 <= i < |ts| ==> ts[i].done
  {
    if ts != [] {
      CountDoneAll(ts[..|ts| - 1]);
    }
  }

  lemma {:induction false} CountDoneMonotone(ts: seq<Track>, k: nat)
    requires k <= |ts|
    ensures CountDone(ts[..k]) <= CountDone(ts)
    decreases |ts|
  {
    if k < |ts| {
      CountDoneMonotone(ts[..|ts| - 1], k);
      assert ts[..|ts| - 1][..k] == ts[..k];
    } else {
      assert ts[..k] == ts;
    }
  }

  lemma {:induction false} CountDoneUpdate(ts: seq<Track>, i: nat, t: Track)
    requires i < |ts|
    ensures CountDone(ts[i := t]) + (if ts[i].done then 1 else 0) == CountDone(ts) + (if t.done then 1 else 0)
    decreases |ts|
  {
    var last := |ts| - 1;
    if i == last {
      assert ts[i := t][..last] == ts[..last];
    } else {
      assert ts[i := t][..last] == ts[..last][i := t];
      CountDoneUpdate(ts[..last], i, t);
    }
  }

  // ----- The loop of a round -----

  /** The loop leaves done children alone, iterates each other child at most once and closes none. */
  ghost predicate Fair(before: seq<Track>, mid: seq<Track>) {
    && |mid| == |before|
    && forall i :: 0 <= i < |before| ==>
         && mid[i].plan == before[i].plan && mid[i].closed == before[i].closed
         && (before[i].done ==> mid[i] == before[i])
         && before[i].iterated <= mid[i].iterated <= before[i].iterated + 1
  }

  /** The rest of the loop does not iterate the children before i. */
  ghost predicate Untouched(before: seq<Track>, mid: seq<Track>, i: nat) {
    |mid| == |before| && forall j :: 0 <= j < i && j < |before| ==> mid[j] == before[j]
  }

  lemma FairCompose(ts: seq<Track>, i: nat, mid: seq<Track>)
    requires i < |ts| && !ts[i].done
    requires Fair(ts[i := Advance(ts[i])], mid) && Untouched(ts[i := Advance(ts[i])], mid, i + 1)
    ensures Fair(ts, mid) && Untouched(ts, mid, i)
  {
    assert mid[i] == Advance(ts[i]);
  }

  /** The child's step ends the round before the children after it get a turn. */
  predicate EndsRound(t: Track, required: nat, total: nat) {
    !StillYields(t) && (t.plan.outcome.Raise? || total + 1 >= required)
  }

  lemma RoundFromNext(ts: seq<Track>, required: nat, i: nat)
    requires i < |ts|
    ensures var total := CountDone(ts[..i]);
            var next := if ts[i].done then ts else ts[i := Advance(ts[i])];
            ts[i].done || !EndsRound(ts[i], required, total) ==>
              RoundFrom(ts, required, i, total) == RoundFrom(next, required, i + 1, CountDone(next[..i + 1]))
  {
    var next := if ts[i].done then ts else ts[i := Advance(ts[i])];
    assert next[..i + 1][..i] == ts[..i];
  }

  lemma {:induction false} RoundFromIsFair(ts: seq<Track>, required: nat, i: nat)
    requires i <= |ts|
    ensures var (mid, ending) := RoundFrom(ts, required, i, CountDone(ts[..i]));
            && Fair(ts, mid) && Untouched(ts, mid, i)
            && (ending.Pending? ==> CountDone(mid) < required)
            && (ending.Over? ==> CountDone(mid) >= required)
    decreases |ts| - i
  {
    if i == |ts| {
      assert ts[..i] == ts;
    } else {
      var mid := RoundFrom(ts, required, i, CountDone(ts[..i])).0;
      RoundFromNext(ts, required, i);
      if ts[i].done {
        RoundFromIsFair(ts, required, i + 1);
      } else if EndsRound(ts[i], required, CountDone(ts[..i])) {
        assert mid == ts[i := Advance(ts[i])];
      } else {
        RoundFromIsFair(ts[i := Advance(ts[i])], required, i + 1);
        FairCompose(ts, i, mid);
      }
    }
  }

  lemma {:induction false} RaceNotOver(ts: seq<Track>, i: nat)
    requires i <= |ts| && CountDone(ts) == 0
    ensures !RoundFrom(ts, 1, i, 0).1.Over?
    decreases |ts| - i
  {
    NoneDone(ts);
    if i < |ts| && StillYields(ts[i]) {
      CountDoneUpdate(ts, i, Advance(ts[i]));
      RaceNotOver(ts[i := Advance(ts[i])], i + 1);
    }
  }

  /** What the loop of a round does. It comes to its end with enough done only if then all are done. */
  lemma LoopIsFair(ts: seq<Track>, required: nat)
    requires CountDone(ts) < required && (required == 1 || required == |ts|)
    ensures var (mid, ending) := Loop(ts, required);
            && Fair(ts, mid)
            && (ending.Pending? ==> CountDone(mid) < required)
            && (ending.Over? ==> forall i :: 0 <= i < |mid| ==> mid[i].done)
  {
    assert ts[..0] == [];
    RoundFromIsFair(ts, required, 0);
    if required == 1 {
      RaceNotOver(ts, 0);
    } else {
      CountDoneAll(Loop(ts, required).0);
    }
  }

  // ----- Who is closed -----

  /** The first child from i on that is not done and whose close() raises, or the number of children. */
  function Blocker(ts: seq<Track>, i: nat): (f: nat)
    requires i <= |ts|
    ensures i <= f <= |ts|
    ensures f < |ts| ==> !ts[f].done && CloseError(ts[f]).Some?
    ensures forall j :: i <= j < f ==> ts[j].done || CloseError(ts[j]).None?
    decreases |ts| - i
  {
    if i == |ts| || (!ts[i].done && CloseError(ts[i]).Some?) then i else Blocker(ts, i + 1)
  }

  /** Closing from child i on closes exactly those up to f that are not done, once. */
  predicate ClosedUpTo(ts: seq<Track>, closed: seq<Track>, i: nat, f: nat) {
    && |closed| == |ts|
    && forall j :: 0 <= j < |ts| ==>
         closed[j] == if i <= j <= f && !ts[j].done then ts[j].(closed := ts[j].closed + 1) else ts[j]
  }

  lemma ClosedUpToNext(ts: seq<Track>, closed: seq<Track>, i: nat, f: nat)
    requires i < |ts| && i < f
    ensures ts[i].done && ClosedUpTo(ts, closed, i + 1, f) ==> ClosedUpTo(ts, closed, i, f)
    ensures !ts[i].done && ClosedUpTo(ts[i := ts[i].(closed := ts[i].closed + 1)], closed, i + 1, f) ==>
              ClosedUpTo(ts, closed, i, f)
  {
  }

  lemma ClosedUpToLast(ts: seq<Track>, i: nat)
    requires i <= |ts|
    ensures i == |ts| ==> ClosedUpTo(ts, ts, i, i)
    ensures i < |ts| && !ts[i].done ==> ClosedUpTo(ts, ts[i := ts[i].(closed := ts[i].closed + 1)], i, i)
  {
  }

  /** Exactly the children up to the blocker are closed. */
  lemma {:induction false} ClosesUpToBlocker(ts: seq<Track>, i: nat)
    requires i <= |ts|
    ensures ClosedUpTo(ts, CloseFrom(ts, i).0, i, Blocker(ts, i))
    ensures CloseFrom(ts, i).1 == if Blocker(ts, i) < |ts| then CloseError(ts[Blocker(ts, i)]) else None
    decreases |ts| - i
  {
    hide ClosedUpTo;
    if i < |ts| && (ts[i].done || CloseError(ts[i]).None?) {
      ClosedUpToNext(ts, CloseFrom(ts, i).0, i, Blocker(ts, i));
      if ts[i].done {
        ClosesUpToBlocker(ts, i + 1);
      } else {
        var next := ts[i := ts[i].(closed := ts[i].closed + 1)];
        BlockerFrom(ts, next, i + 1);
        ClosesUpToBlocker(next, i + 1);
      }
    } else {
      ClosedUpToLast(ts, i);
    }
  }

  lemma {:induction false} BlockerFrom(ts: seq<Track>, us: seq<Track>, i: nat)
    requires i <= |ts| == |us| && forall j :: i <= j < |ts| ==> ts[j] == us[j]
    ensures Blocker(ts, i) == Blocker(us, i)
    decreases |ts| - i
  {
    if i < |ts| {
      BlockerFrom(ts, us, i + 1);
    }
  }

  /** How often the end of a round closes a child that is not done. */
  function Closings(mid: seq<Track>, ending: Ending, j: nat): nat {
    var f := Blocker(mid, 0);
    match ending
    case Pending => 0
    case Over => 0
    case Broken(_) => if j <= f then 1 else 0
    case Enough =>
      if f == |mid| then 1
      else (if j <= f then 1 else 0) + (if j <= Blocker(CloseAll(mid).0, 0) then 1 else 0)
  }

  lemma ConcludeCounts(mid: seq<Track>, ending: Ending)
    ensures ClosedAsDemanded(mid, ending, Conclude(mid, ending).0)
  {
    ClosesUpToBlocker(mid, 0);
    ClosesUpToBlocker(CloseAll(mid).0, 0);
  }

  /**
    Closing goes well: no child that is not done raises when it is closed. When a child raised, the last one may.
   */
  predicate ClosesWell(mid: seq<Track>, ending: Ending) {
    match ending
    case Pending => true
    case Over => true
    case Enough => forall i :: 0 <= i < |mid| && !mid[i].done ==> CloseError(mid[i]).None?
    case Broken(_) => forall i, j :: 0 <= i < j < |mid| && !mid[i].done && !mid[j].done ==> CloseError(mid[i]).None?
  }

  ghost predicate ClosedTimes(mid: seq<Track>, after: seq<Track>, j: nat, n: nat) {
    j < |mid| == |after| && !mid[j].done && after[j].closed == mid[j].closed + n
  }

  lemma NotClosedAfterException(mid: seq<Track>, ending: Ending) returns (j: nat)
    requires ending.Broken? && !ClosesWell(mid, ending)
    ensures ClosedTimes(mid, Conclude(mid, ending).0, j, 0)
  {
    ConcludeCounts(mid, ending);
    var i, k :| 0 <= i < k < |mid| && !mid[i].done && !mid[k].done && CloseError(mid[i]).Some?;
    j := k;
  }

  lemma ClosedTwiceWhenEnough(mid: seq<Track>, ending: Ending) returns (j: nat)
    requires ending.Enough? && !ClosesWell(mid, ending)
    ensures ClosedTimes(mid, Conclude(mid, ending).0, j, 2)
  {
    ConcludeCounts(mid, ending);
    ClosesUpToBlocker(mid, 0);
    var f, g := Blocker(mid, 0), Blocker(CloseAll(mid).0, 0);
    j := if g < f then g else f;
    assert CloseAll(mid).0[j].done == mid[j].done;
  }

  /**
    When a collection ends, every child not done is closed exactly once if and only if closing goes well.
    If not, then after a child's exception somebody is not closed at all, and when enough are done somebody
    is closed twice. Nobody is closed more often, and done children never are.
   */
  lemma ClosedOnceIff(mid: seq<Track>, ending: Ending)
    requires ending.Enough? || ending.Broken?
    ensures var after := Conclude(mid, ending).0;
            && |after| == |mid|
            && (ClosesWell(mid, ending) <==>
                forall j :: 0 <= j < |mid| && !mid[j].done ==> after[j].closed == mid[j].closed + 1)
            && (!ClosesWell(mid, ending) && ending.Broken? ==> exists j :: ClosedTimes(mid, after, j, 0))
            && (!ClosesWell(mid, ending) && ending.Enough? ==> exists j :: ClosedTimes(mid, after, j, 2))
            && forall j :: 0 <= j < |mid| ==> after[j].closed <= mid[j].closed + if mid[j].done then 0 else 2
  {
    ConcludeCounts(mid, ending);
    if !ClosesWell(mid, ending) {
      if ending.Broken? {
        var j := NotClosedAfterException(mid, ending);
      } else {
        var j := ClosedTwiceWhenEnough(mid, ending);
      }
    }
  }

  /** What the caller is told: values exactly if enough are done and no close raises; the first close that raises
      replaces the exception of the child. */
  lemma ReportIs(mid: seq<Track>, ending: Ending)
    requires ending.Enough? || ending.Broken?
    ensures var f, r := Blocker(mid, 0), Conclude(mid, ending).1;
            && !r.Ongoing?
            && (r.Finished? <==> ending.Enough? && f == |mid|)
            && (r.Finished? ==> r.values == Results(mid))
            && (ending.Broken? ==> r == Raised(if f < |mid| then CloseError(mid[f]).value else ending.exception))
  {
    ClosesUpToBlocker(mid, 0);
    var closed := CloseAll(mid).0;
    assert forall i :: 0 <= i < |mid| ==> closed[i].result == mid[i].result;
    assert Results(closed) == Results(mid);
  }

  /** Each child not done has been closed as often as the ending demands, and nothing else has changed. */
  predicate ClosedAsDemanded(mid: seq<Track>, ending: Ending, after: seq<Track>) {
    && |after| == |mid|
    && forall i :: 0 <= i < |mid| ==>
         after[i] == mid[i].(closed := mid[i].closed + if mid[i].done then 0 else Closings(mid, ending, i))
  }

  /**
    A round: done children are neither iterated nor closed again, every other child gets at most one turn, nothing
    is closed while the collection goes on, and when it ends each child not done is closed as often as said above.
   */
  lemma RoundIsExclusive(ts: seq<Track>, required: nat)
    requires CountDone(ts) < required && (required == 1 || required == |ts|)
    ensures var (mid, ending) := Loop(ts, required);
            var (after, r) := RunRound(ts, required);
            && Fair(ts, mid) && ClosedAsDemanded(mid, ending, after)
            && (r.Ongoing? <==> ending.Pending?) && (r.Ongoing? ==> after == mid && CountDone(after) < required)
            && (ending.Over? ==> forall i :: 0 <= i < |ts| ==> mid[i].done)
  {
    LoopIsFair(ts, required);
    var (mid, ending) := Loop(ts, required);
    ConcludeCounts(mid, ending);
    OngoingIff(mid, ending);
  }

  lemma OngoingIff(mid: seq<Track>, ending: Ending)
    ensures Conclude(mid, ending).1.Ongoing? <==> ending.Pending?
    ensures ending.Pending? ==> Conclude(mid, ending).0 == mid
  {
  }

  lemma {:induction false} FreshNotDone(plans: seq<Plan>)
    ensures CountDone(Fresh(plans)) == 0
  {
    NoneDone(Fresh(plans));
  }

  lemma {:induction false} NoneDone(ts: seq<Track>)
    ensures CountDone(ts) == 0 <==> forall i :: 0 <= i < |ts| ==> !ts[i].done
  {
    if ts != [] {
      NoneDone(ts[..|ts| - 1]);
    }
  }

  /** The collection still runs after n rounds. */
  predicate OngoingFor(plans: seq<Plan>, required: nat, n: nat) {
    forall m :: 1 <= m <= n ==> Report(plans, required, m).Ongoing?
  }

  /** The children when the loop of round n + 1 ends, and how it ends. */
  function LastLoop(plans: seq<Plan>, required: nat, n: nat): (seq<Track>, Ending) {
    Loop(Rounds(plans, required, n), required)
  }

  lemma {:induction false} OngoingKeeps(plans: seq<Plan>, required: nat, n: nat)
    requires |plans| >= 1 && (required == 1 || required == |plans|)
    requires OngoingFor(plans, required, n)
    ensures var ts := Rounds(plans, required, n);
            && |ts| == |plans| && CountDone(ts) < required
            && forall i :: 0 <= i < |plans| ==> ts[i].closed == 0 && ts[i].plan == plans[i]
  {
    if n == 0 {
      FreshNotDone(plans);
    } else {
      OngoingKeeps(plans, required, n - 1);
      assert Report(plans, required, n).Ongoing?;
      RoundIsExclusive(Rounds(plans, required, n - 1), required);
    }
  }

  /**
    Over a whole run: nothing is closed before the end. When the collection ends, by finishing or by an exception,
    every child not done has been closed exactly once if and only if closing goes well, and no done child ever.
   */
  lemma RunIsExclusive(plans: seq<Plan>, required: nat, n: nat)
    requires |plans| >= 1 && (required == 1 || required == |plans|)
    requires OngoingFor(plans, required, n) && !Report(plans, required, n + 1).Ongoing?
    ensures var (mid, ending) := LastLoop(plans, required, n);
            var ts := Rounds(plans, required, n + 1);
            && |mid| == |ts| == |Rounds(plans, required, n)| == |plans|
            && (forall i :: 0 <= i < |plans| ==> Rounds(plans, required, n)[i].closed == mid[i].closed == 0)
            && (forall i :: 0 <= i < |plans| && mid[i].done ==> ts[i].closed == 0)
            && (ClosesWell(mid, ending) <==> forall i :: 0 <= i < |plans| && !mid[i].done ==> ts[i].closed == 1)
  {
    OngoingKeeps(plans, required, n);
    RoundIsExclusive(Rounds(plans, required, n), required);
    var (mid, ending) := LastLoop(plans, required, n);
    if !ending.Over? {
      ClosedOnceIff(mid, ending);
    }
  }

  /** What the first close() of a child raises. */
  function FirstClose(p: Plan): Option<nat> {
    if p.closing == [] then None else p.closing[0]
  }

  /**
    A child whose iteration and whose close() both raise keeps the children after it from being closed at all:
    their operations go on after the collection has ended.
   */
  lemma LaterChildIsNotClosed(e: nat, closeError: nat, steps: nat, outcome: Outcome, closing: seq<Option<nat>>)
    requires steps > 0
    ensures var plans := [Plan(0, Raise(e), [Some(closeError)]), Plan(steps, outcome, closing)];
            var ts := Rounds(plans, 2, 1);
            Report(plans, 2, 1) == Raised(closeError) && |ts| == 2 && ts[0].closed == 1 && ts[1].closed == 0
  {
    var plans := [Plan(0, Raise(e), [Some(closeError)]), Plan(steps, outcome, closing)];
    var ts := Fresh(plans);
    assert Rounds(plans, 2, 0) == ts;
    var mid := ts[0 := Advance(ts[0])];
    assert Loop(ts, 2) == (mid, Broken(e));
    assert CloseFrom(mid, 0) == (mid[0 := mid[0].(closed := 1)], Some(closeError));
  }

  /** In a race, a loser whose close() raises once is closed twice, and the winner's value is lost. */
  lemma WinnerIsLost(value: Option<Obj>, closeError: nat, steps: nat, outcome: Outcome)
    requires steps > 0
    ensures var plans := [Plan(0, Return(value), []), Plan(steps, outcome, [Some(closeError)])];
            var ts := Rounds(plans, 1, 1);
            Report(plans, 1, 1) == Raised(closeError) && |ts| == 2 && ts[0].closed == 0 && ts[1].closed == 2
  {
    var plans := [Plan(0, Return(value), []), Plan(steps, outcome, [Some(closeError)])];
    var ts := Fresh(plans);
    assert Rounds(plans, 1, 0) == ts;
    var mid := ts[0 := Advance(ts[0])];
    assert Loop(ts, 1) == (mid, Enough);
    var once := mid[1 := mid[1].(closed := 1)];
    assert CloseFrom(mid, 1) == (once, Some(closeError)) && CloseAll(mid) == (once, Some(closeError));
    var twice := once[1 := once[1].(closed := 2)];
    assert CloseFrom(twice, 2) == (twice, None) && CloseFrom(once, 1) == (twice, None) &&
        CloseAll(once) == (twice, None);
  }

  // ----- Waiting for all -----

  /** A child that has been part of `all` for n rounds without an exception. */
  function AllTrack(p: Plan, n: nat): Track {
    if p.steps < n then Track(p, p.steps + 1, 0, true, if p.outcome.Return? then p.outcome.value else None)
    else Track(p, n, 0, false, None)
  }

  /** In the round after n: the children before i have had their turn. */
  function AllMix(plans: seq<Plan>, n: nat, i: nat): (ts: seq<Track>)
    ensures |ts| == |plans|
    ensures forall j :: 0 <= j < |plans| ==> ts[j] == AllTrack(plans[j], if j < i then n + 1 else n)
  {
    seq(|plans|, j requires 0 <= j < |plans| => AllTrack(plans[j], if j < i then n + 1 else n))
  }

  /** No child raises within its first n turns. */
  predicate NoneRaises(plans: seq<Plan>, n: nat) {
    forall i :: 0 <= i < |plans| && plans[i].steps < n ==> plans[i].outcome.Return?
  }

  predicate AllReturnWithin(plans: seq<Plan>, n: nat) {
    forall i :: 0 <= i < |plans| ==> plans[i].steps < n
  }

  lemma AllMixNext(plans: seq<Plan>, n: nat, i: nat)
    requires i < |plans| && (plans[i].steps == n ==> plans[i].outcome.Return?)
    ensures var t := AllTrack(plans[i], n);
            var ts := AllMix(plans, n, i);
            AllMix(plans, n, i + 1) == if t.done then ts else ts[i := Advance(t)]
  {
    var t := AllTrack(plans[i], n);
    var ts := AllMix(plans, n, i);
    var next := if t.done then ts else ts[i := Advance(t)];
    assert next[i] == AllTrack(plans[i], n + 1);
    assert AllMix(plans, n, i + 1) == next;
  }

  /** The last child to return is also the last in the list, and all others are done. */
  lemma LastToReturn(plans: seq<Plan>, n: nat, i: nat)
    requires i < |plans| && NoneRaises(plans, n + 1)
    requires var ts := AllMix(plans, n, i); !ts[i].done && EndsRound(ts[i], |plans|, CountDone(ts[..i]))
    ensures i == |plans| - 1 && AllReturnWithin(plans, n + 1)
    ensures AllMix(plans, n, i + 1) == AllMix(plans, n, |plans|)
  {
    var ts := AllMix(plans, n, i);
    CountDoneAll(ts[..i]);
    assert forall j :: 0 <= j < i ==> ts[..i][j].done;
  }

  lemma AllDoneIff(plans: seq<Plan>, n: nat)
    ensures var ts := AllMix(plans, n, |plans|);
            CountDone(ts[..|plans|]) == CountDone(ts) && (CountDone(ts) == |plans| <==> AllReturnWithin(plans, n + 1))
  {
    var ts := AllMix(plans, n, |plans|);
    assert ts[..|plans|] == ts;
    CountDoneAll(ts);
    assert AllReturnWithin(plans, n + 1) <==> forall j :: 0 <= j < |ts| ==> ts[j].done;
  }

  lemma {:induction false} AllRound(plans: seq<Plan>, n: nat, i: nat)
    requires |plans| >= 1 && i <= |plans| && NoneRaises(plans, n + 1)
    ensures var (mid, ending) := RoundFrom(AllMix(plans, n, i), |plans|, i, CountDone(AllMix(plans, n, i)[..i]));
            && mid == AllMix(plans, n, |plans|)
            && if AllReturnWithin(plans, n + 1) then ending.Enough? || ending.Over? else ending.Pending?
    decreases |plans| - i
  {
    var ts := AllMix(plans, n, i);
    if i == |plans| {
      AllDoneIff(plans, n);
    } else {
      AllMixNext(plans, n, i);
      RoundFromNext(ts, |plans|, i);
      if !ts[i].done && EndsRound(ts[i], |plans|, CountDone(ts[..i])) {
        LastToReturn(plans, n, i);
      } else {
        AllRound(plans, n, i + 1);
      }
    }
  }

  /** With nothing left to close, the collection ends with the values. */
  lemma AllDoneConclude(mid: seq<Track>, ending: Ending)
    requires ending.Enough? || ending.Over?
    requires forall i :: 0 <= i < |mid| ==> mid[i].done
    ensures Conclude(mid, ending) == (mid, Finished(Results(mid)))
  {
    ClosesUpToBlocker(mid, 0);
    assert CloseAll(mid).0 == mid;
  }

  lemma {:induction false} AllRounds(plans: seq<Plan>, n: nat)
    requires |plans| >= 1 && NoneRaises(plans, n)
    ensures Rounds(plans, |plans|, n) == AllMix(plans, n, 0)
    ensures n > 0 ==> Report(plans, |plans|, n) ==
                      if AllReturnWithin(plans, n) then Finished(Results(AllMix(plans, n, 0))) else Ongoing
  {
    if n > 0 {
      AllRounds(plans, n - 1);
      var ts := AllMix(plans, n - 1, 0);
      assert ts[..0] == [];
      AllRound(plans, n - 1, 0);
      assert AllMix(plans, n - 1, |plans|) == AllMix(plans, n, 0);
      if AllReturnWithin(plans, n) {
        AllDoneConclude(AllMix(plans, n, 0), Loop(ts, |plans|).1);
      }
    }
  }

  predicate IsMaximum(plans: seq<Plan>, k: nat) {
    && (forall i :: 0 <= i < |plans| ==> plans[i].steps <= k)
    && exists i :: 0 <= i < |plans| && plans[i].steps == k
  }

  predicate AllReturn(plans: seq<Plan>) {
    forall i :: 0 <= i < |plans| ==> plans[i].outcome.Return?
  }

  /**
    `all`: with children that yield k_i times and then return v_i, the collection goes on for
    max(k) rounds and stops in the next with every v_i at its own index, having iterated child i
    exactly k_i + 1 times and closed none.
   */
  lemma AllStopsWithEveryValue(plans: seq<Plan>, k: nat)
    requires AllReturn(plans) && IsMaximum(plans, k)
    ensures OngoingFor(plans, |plans|, k)
    ensures Report(plans, |plans|, k + 1).Finished?
    ensures |Report(plans, |plans|, k + 1).values| == |Rounds(plans, |plans|, k + 1)| == |plans|
    ensures forall i :: 0 <= i < |plans| ==>
              && Report(plans, |plans|, k + 1).values[i] == plans[i].outcome.value
              && Rounds(plans, |plans|, k + 1)[i].iterated == plans[i].steps + 1
              && Rounds(plans, |plans|, k + 1)[i].closed == 0
  {
    forall m | 1 <= m <= k
      ensures Report(plans, |plans|, m).Ongoing?
    {
      AllRounds(plans, m);
    }
    AllRounds(plans, k + 1);
  }

  /** The child whose exception ends the collection: the first to reach one, by round and then by position. */
  predicate FirstToRaise(plans: seq<Plan>, r: nat) {
    && r < |plans| && plans[r].outcome.Raise?
    && forall i :: 0 <= i < |plans| && plans[i].outcome.Raise? ==>
                     plans[r].steps <= plans[i].steps && (i < r ==> plans[r].steps < plans[i].steps)
  }

  lemma {:induction false} AllRoundRaises(plans: seq<Plan>, r: nat, i: nat)
    requires FirstToRaise(plans, r) && i <= r
    ensures var n := plans[r].steps;
            RoundFrom(AllMix(plans, n, i), |plans|, i, CountDone(AllMix(plans, n, i)[..i])) ==
            (AllMix(plans, n, r)[r := Advance(AllTrack(plans[r], n))], Broken(plans[r].outcome.exception))
    decreases r - i
  {
    var n := plans[r].steps;
    var ts := AllMix(plans, n, i);
    if i < r {
      AllMixNext(plans, n, i);
      RoundFromNext(ts, |plans|, i);
      AllRoundRaises(plans, r, i + 1);
    }
  }

  /** Done when child r raises: the children that returned in an earlier round or, before r, in the same one. */
  predicate ReturnedBefore(plans: seq<Plan>, r: nat, i: nat)
    requires r < |plans| && i < |plans|
  {
    plans[i].steps < plans[r].steps || (plans[i].steps == plans[r].steps && i < r)
  }

  /**
    An exception in one child ends `all` in the round in which it is raised. It is the one reported if no child
    still running raises when it is closed. Each child still running is closed exactly once if and only if none
    of them but possibly the last raises when it is closed.
   */
  lemma AllReraises(plans: seq<Plan>, r: nat)
    requires FirstToRaise(plans, r)
    ensures OngoingFor(plans, |plans|, plans[r].steps)
    ensures var report, ts := Report(plans, |plans|, plans[r].steps + 1), Rounds(plans, |plans|, plans[r].steps + 1);
            && report.Raised? && |ts| == |plans|
            && (forall i :: 0 <= i < |plans| ==> (ts[i].done <==> ReturnedBefore(plans, r, i)))
            && (forall i :: 0 <= i < |plans| ==> (ts[i].done ==> ts[i].closed == 0))
            && ((forall i :: 0 <= i < |plans| && !ts[i].done ==> FirstClose(plans[i]).None?) ==>
                  report == Raised(plans[r].outcome.exception))
            && ((forall i :: 0 <= i < |plans| && !ts[i].done ==> ts[i].closed == 1) <==>
                  forall i, j :: 0 <= i < j < |plans| && !ts[i].done && !ts[j].done ==> FirstClose(plans[i]).None?)
  {
    forall m | 1 <= m <= plans[r].steps
      ensures Report(plans, |plans|, m).Ongoing?
    {
      AllRounds(plans, m);
    }
    RaisedEnding(plans, r);
    var (mid, ending) := LastLoop(plans, |plans|, plans[r].steps);
    EndingOf(plans, |plans|, plans[r].steps, mid, ending);
  }

  /** The children when child r has raised: nothing has been closed. */
  lemma RaisedEnding(plans: seq<Plan>, r: nat)
    requires FirstToRaise(plans, r)
    ensures var (mid, ending) := LastLoop(plans, |plans|, plans[r].steps);
            && ending == Broken(plans[r].outcome.exception) && |mid| == |plans|
            && forall i :: 0 <= i < |plans| ==>
                 mid[i].plan == plans[i] && mid[i].closed == 0 && (mid[i].done <==> ReturnedBefore(plans, r, i))
  {
    var n := plans[r].steps;
    AllRounds(plans, n);
    assert AllMix(plans, n, 0)[..0] == [];
    AllRoundRaises(plans, r, 0);
  }

  /** The results for one round, for children of which none has been closed before. */
  lemma EndingOf(plans: seq<Plan>, required: nat, n: nat, mid: seq<Track>, ending: Ending)
    requires ending.Enough? || ending.Broken?
    requires LastLoop(plans, required, n) == (mid, ending) && |mid| == |plans|
    requires forall i :: 0 <= i < |mid| ==> mid[i].plan == plans[i] && mid[i].closed == 0
    ensures var ts, report := Rounds(plans, required, n + 1), Report(plans, required, n + 1);
            && |ts| == |mid| && !report.Ongoing?
            && (forall i :: 0 <= i < |mid| ==> ts[i] == mid[i].(closed := ts[i].closed))
            && (forall i :: 0 <= i < |mid| && mid[i].done ==> ts[i].closed == 0)
            && (ClosesWell(mid, ending) <==> forall i :: 0 <= i < |mid| && !mid[i].done ==> ts[i].closed == 1)
            && (forall i :: 0 <= i < |mid| ==> CloseError(mid[i]) == FirstClose(plans[i]))
            && (report.Finished? <==> ending.Enough? && ClosesWell(mid, ending))
            && (report.Finished? ==> report.values == Results(mid))
            && (ending.Broken? && (forall i :: 0 <= i < |mid| && !mid[i].done ==> FirstClose(plans[i]).None?) ==>
                  report == Raised(ending.exception))
  {
    ConcludeCounts(mid, ending);
    ClosedOnceIff(mid, ending);
    ReportIs(mid, ending);
  }

  // ----- Racing -----

  /** The least position among those with the fewest yields. */
  predicate IsWinner(plans: seq<Plan>, w: nat) {
    && w < |plans|
    && forall i :: 0 <= i < |plans| ==> plans[w].steps <= plans[i].steps && (i < w ==> plans[w].steps < plans[i].steps)
  }

  /** Nobody is done; the children before i have been iterated once more than the n times of the others. */
  function RaceMix(plans: seq<Plan>, n: nat, i: nat): (ts: seq<Track>)
    ensures |ts| == |plans|
    ensures forall j :: 0 <= j < |plans| ==> ts[j] == Track(plans[j], if j < i then n + 1 else n, 0, false, None)
  {
    seq(|plans|, j requires 0 <= j < |plans| => Track(plans[j], if j < i then n + 1 else n, 0, false, None))
  }

  lemma {:induction false} RaceRound(plans: seq<Plan>, w: nat, n: nat, i: nat)
    requires IsWinner(plans, w) && n < plans[w].steps && i <= |plans|
    ensures RoundFrom(RaceMix(plans, n, i), 1, i, 0) == (RaceMix(plans, n, |plans|), Pending)
    decreases |plans| - i
  {
    if i < |plans| {
      var ts := RaceMix(plans, n, i);
      assert ts[i := Advance(ts[i])] == RaceMix(plans, n, i + 1);
      RaceRound(plans, w, n, i + 1);
    }
  }

  lemma {:induction false} RaceRounds(plans: seq<Plan>, w: nat, n: nat)
    requires IsWinner(plans, w) && n <= plans[w].steps
    ensures Rounds(plans, 1, n) == RaceMix(plans, n, 0)
    ensures n > 0 ==> Report(plans, 1, n).Ongoing?
  {
    if n > 0 {
      RaceRounds(plans, w, n - 1);
      RaceRound(plans, w, n - 1, 0);
      assert RaceMix(plans, n - 1, |plans|) == RaceMix(plans, n, 0);
    }
  }

  lemma {:induction false} RaceLastRound(plans: seq<Plan>, w: nat, i: nat)
    requires IsWinner(plans, w) && i <= w
    ensures var ts := RaceMix(plans, plans[w].steps, w);
            RoundFrom(RaceMix(plans, plans[w].steps, i), 1, i, 0) ==
            (ts[w := Advance(ts[w])], if plans[w].outcome.Raise? then Broken(plans[w].outcome.exception) else Enough)
    decreases w - i
  {
    if i < w {
      var ts := RaceMix(plans, plans[w].steps, i);
      assert ts[i := Advance(ts[i])] == RaceMix(plans, plans[w].steps, i + 1);
      RaceLastRound(plans, w, i + 1);
    }
  }

  /**
    The children still running when the race is decided close without raising; if the winner raised, the last may
    raise.
   */
  predicate LosersCloseWell(plans: seq<Plan>, w: nat)
    requires w < |plans|
  {
    match plans[w].outcome
    case Return(_) => forall i :: 0 <= i < |plans| && i != w ==> FirstClose(plans[i]).None?
    case Raise(_) => forall i :: 0 <= i < |plans| - 1 ==> FirstClose(plans[i]).None?
  }

  /**
    `race`: the collection goes on for min(k) rounds; in the next the least child attaining the minimum decides
    alone. If it returns, its value is at its index and None everywhere else, exactly if no other child raises when
    it is closed; else the race raises. Children before the winner had one more turn, children after it had none in
    that round, and all others are closed exactly once if and only if closing them goes well.
   */
  lemma RaceHasOneWinner(plans: seq<Plan>, w: nat)
    requires IsWinner(plans, w)
    ensures OngoingFor(plans, 1, plans[w].steps)
    ensures var last := Report(plans, 1, plans[w].steps + 1);
            match plans[w].outcome
            case Raise(e) =>
              && last.Raised?
              && ((forall i :: 0 <= i < |plans| ==> FirstClose(plans[i]).None?) ==> last == Raised(e))
            case Return(v) =>
              && (last.Finished? <==> LosersCloseWell(plans, w)) && (!last.Finished? ==> last.Raised?)
              && (last.Finished? ==>
                    && |last.values| == |plans|
                    && forall i :: 0 <= i < |plans| ==> last.values[i] == if i == w then v else None)
    ensures var ts := Rounds(plans, 1, plans[w].steps + 1);
            && |ts| == |plans|
            && (forall i :: 0 <= i < |plans| ==>
                  && ts[i].iterated == plans[w].steps + (if i <= w then 1 else 0)
                  && ts[i].done == (i == w && plans[w].outcome.Return?)
                  && (ts[i].done ==> ts[i].closed == 0))
            && (LosersCloseWell(plans, w) <==> forall i :: 0 <= i < |plans| && !ts[i].done ==> ts[i].closed == 1)
  {
    forall m | 1 <= m <= plans[w].steps
      ensures Report(plans, 1, m).Ongoing?
    {
      RaceRounds(plans, w, m);
    }
    RaceEnding(plans, w);
    var (mid, ending) := LastLoop(plans, 1, plans[w].steps);
    EndingOf(plans, 1, plans[w].steps, mid, ending);
    LosersAreOpen(plans, w, mid, ending);
  }

  /** The children when the last loop of a race ends: nobody is done but a winner that returned. */
  ghost predicate Decided(plans: seq<Plan>, w: nat, mid: seq<Track>, ending: Ending)
    requires w < |plans|
  {
    && |mid| == |plans|
    && (forall i :: 0 <= i < |plans| ==>
          var won := i == w && plans[w].outcome.Return?;
          mid[i] == Track(plans[i], plans[w].steps + (if i <= w then 1 else 0), 0, won,
                          if won then plans[w].outcome.value else None))
    && ending == if plans[w].outcome.Raise? then Broken(plans[w].outcome.exception) else Enough
  }

  lemma RaceEnding(plans: seq<Plan>, w: nat)
    requires IsWinner(plans, w)
    ensures Decided(plans, w, LastLoop(plans, 1, plans[w].steps).0, LastLoop(plans, 1, plans[w].steps).1)
  {
    RaceRounds(plans, w, plans[w].steps);
    RaceLastRound(plans, w, 0);
  }

  lemma LosersAreOpen(plans: seq<Plan>, w: nat, mid: seq<Track>, ending: Ending)
    requires IsWinner(plans, w) && Decided(plans, w, mid, ending)
    ensures LosersCloseWell(plans, w) <==> ClosesWell(mid, ending)
  {
    assert forall i :: 0 <= i < |mid| ==> CloseError(mid[i]) == FirstClose(plans[i]);
    if plans[w].outcome.Raise? && ClosesWell(mid, ending) {
      forall i | 0 <= i < |plans| - 1
        ensures FirstClose(plans[i]).None?
      {
        assert !mid[i].done && !mid[|plans| - 1].done;
      }
    }
  }

  /** Every race has a winner and every `all` has a slowest child. */
  lemma {:induction false} WinnerExists(plans: seq<Plan>) returns (w: nat, k: nat)
    requires |plans| >= 1
    ensures IsWinner(plans, w) && IsMaximum(plans, k)
  {
    if |plans| == 1 {
      w, k := 0, plans[0].steps;
    } else {
      var last := |plans| - 1;
      w, k := WinnerExists(plans[..last]);
      if plans[last].steps < plans[w].steps {
        w := last;
      }
      if plans[last].steps > k {
        k := plans[last].steps;
      }
      assert exists i :: 0 <= i < |plans| && plans[i].steps == k;
    }
  }
}
