/**
  wait() and its pool of re-used awaitables (pb_module_tools). A cell's state field holds the
  end time; the clock is the true time in milliseconds, of which the program sees 32 bits.
 */
module Waits {
  import opened Words
  import opened Awaitable

  const POOL := 6

  /** A wait has no close callback, so it does not matter what one would do. */
  const NO_CALLBACK := Callback(false, false)

  /** No parent object, a single yield for duration 0, and the end time in place of protothread state. */
  function WaitConfig(time: int, now: nat): Config {
    Config(0, time != 0, false, None, Wrap(Wrap(now) + Wrap(time)))
  }

  /** pb_module_tools_wait_iter_once. */
  function WaitIterOnce(state: int, now: nat): Answer {
    Answer(if HasPassed(Wrap(now), state) then Success else Again, state)
  }

  datatype Command = Wait(time: int) | Poll(addr: nat) | Cancel(addr: nat)

  /** A command and the true time at which it is given. */
  datatype Timed = At(now: nat, command: Command)

  predicate Outstanding(c: Cell) {
    !c.parent.Free?
  }

  /** The first free cell of the static pool, or a new cell after all others. */
  function PlaceFrom(cells: seq<Cell>, i: nat): (addr: nat)
    requires POOL <= |cells| && i <= POOL
    ensures i <= addr <= |cells|
    ensures addr < |cells| ==> addr < POOL && !Outstanding(cells[addr])
    ensures addr == |cells| ==> forall j :: i <= j < POOL ==> Outstanding(cells[j])
    ensures forall j :: i <= j < addr && j < POOL ==> Outstanding(cells[j])
    decreases POOL - i
  {
    if i == POOL then |cells| else if !Outstanding(cells[i]) then i else PlaceFrom(cells, i + 1)
  }

  function Step(cells: seq<Cell>, op: nat, t: Timed): (r: seq<Cell>)
    requires POOL <= |cells|
    ensures |cells| <= |r|
  {
    match t.command
    case Wait(time) => Put(cells, PlaceFrom(cells, 0), NewCell(WaitConfig(time, t.now), op, None))
    case Poll(addr) =>
      if addr < |cells| then cells[addr := Iterated(cells[addr], WaitIterOnce(cells[addr].state, t.now)).0] else cells
    case Cancel(addr) => if addr < |cells| then cells[addr := Closing(cells[addr], NO_CALLBACK).0] else cells
  }

  /** A run; the i-th command counts as operation op + i. */
  function Run(cells: seq<Cell>, op: nat, ts: seq<Timed>): (r: seq<Cell>)
    requires POOL <= |cells|
    ensures |cells| <= |r|
    decreases |ts|
  {
    if ts == [] then cells else Run(Step(cells, op, ts[0]), op + 1, ts[1..])
  }

  /** Some command of the run closes the wait in this cell or tells its caller that it is over. */
  predicate EndedIn(cells: seq<Cell>, op: nat, ts: seq<Timed>, addr: nat)
    requires POOL <= |cells| && addr < |cells|
    decreases |ts|
  {
    ts != [] &&
    ( || ts[0].command == Cancel(addr)
      || (ts[0].command == Poll(addr) && Iterated(cells[addr], WaitIterOnce(cells[addr].state, ts[0].now)).1.Exhausted?)
      || EndedIn(Step(cells, op, ts[0]), op + 1, ts[1..], addr))
  }

  /** A new wait takes a cell that was not outstanding and leaves every outstanding wait as it was. */
  lemma WaitDisturbsNobody(cells: seq<Cell>, op: nat, time: int, now: nat)
    requires POOL <= |cells|
    ensures var r := Step(cells, op, At(now, Wait(time)));
            exists at :: 0 <= at < |r| && (at < |cells| ==>
                !Outstanding(cells[at])) && r[at] == NewCell(WaitConfig(time, now), op, None)
              && forall j :: 0 <= j < |cells| && j != at ==> r[j] == cells[j]
  {
    var at := PlaceFrom(cells, 0);
    var r := Step(cells, op, At(now, Wait(time)));
    assert 0 <= at < |r| && r[at] == NewCell(WaitConfig(time, now), op, None);
  }

  /** Up to six waits at a time need no allocation: one is made only while all six are outstanding. */
  lemma AllocatesBeyondSix(cells: seq<Cell>, op: nat, time: int, now: nat)
    requires |cells| >= 6
    ensures |Step(cells, op, At(now, Wait(time)))| == |cells| <==> exists i :: 0 <= i < 6 && cells[i].parent.Free?
    ensures |Step(cells, op, At(now, Wait(time)))| <= |cells| + 1
  {
    var at := PlaceFrom(cells, 0);
    assert at < |cells| ==> cells[at].parent.Free?;
  }

  /**
    The pool does not interfere: whatever waits are started, iterated or closed meanwhile, an
    outstanding wait keeps its cell and its end time until it is itself closed or exhausted.
   */
  lemma {:induction false} WaitKeepsItsCell(cells: seq<Cell>, op: nat, ts: seq<Timed>, addr: nat)
    requires POOL <= |cells| && addr < |cells| && Outstanding(cells[addr])
    requires !EndedIn(cells, op, ts, addr)
    ensures var c := Run(cells, op, ts)[addr];
            c.op == cells[addr].op && c.state == cells[addr].state && Outstanding(c)
    decreases |ts|
  {
    if ts != [] {
      WaitKeepsItsCell(Step(cells, op, ts[0]), op + 1, ts[1..], addr);
    }
  }

  ghost predicate DistinctWaits(cells: seq<Cell>, op: nat) {
    && (forall i :: 0 <= i < |cells| && Outstanding(cells[i]) ==> cells[i].op < op)
    && (forall i, j :: 0 <= i < j < |cells| && Outstanding(cells[i]) && Outstanding(cells[j]) ==>
        cells[i].op != cells[j].op)
  }

  lemma PutKeepsDistinct(cells: seq<Cell>, op: nat, at: nat, c: Cell)
    requires DistinctWaits(cells, op) && at <= |cells| && c.op == op
    requires at < |cells| ==> !Outstanding(cells[at])
    ensures DistinctWaits(Put(cells, at, c), op + 1)
  {
  }

  lemma ChangeKeepsDistinct(cells: seq<Cell>, op: nat, at: nat, c: Cell)
    requires DistinctWaits(cells, op) && at < |cells| && c.op == cells[at].op
    requires Outstanding(c) ==> Outstanding(cells[at])
    ensures DistinctWaits(cells[at := c], op + 1)
  {
  }

  lemma StepKeepsDistinct(cells: seq<Cell>, op: nat, t: Timed)
    requires POOL <= |cells| && DistinctWaits(cells, op)
    ensures DistinctWaits(Step(cells, op, t), op + 1)
  {
    match t.command
    case Wait(time) =>
      PutKeepsDistinct(cells, op, PlaceFrom(cells, 0), NewCell(WaitConfig(time, t.now), op, None));
    case Poll(addr) =>
      if addr < |cells| {
        var c := cells[addr];
        ChangeKeepsDistinct(cells, op, addr, Iterated(c, WaitIterOnce(c.state, t.now)).0);
      }
    case Cancel(addr) =>
      if addr < |cells| {
        ChangeKeepsDistinct(cells, op, addr, Closing(cells[addr], NO_CALLBACK).0);
      }
  }

  /** Two waits outstanding at the same time are in different cells, and each cell holds one wait. */
  lemma {:induction false} OutstandingWaitsAreDistinct(cells: seq<Cell>, op: nat, ts: seq<Timed>)
    requires POOL <= |cells| && DistinctWaits(cells, op)
    ensures DistinctWaits(Run(cells, op, ts), op + |ts|)
    decreases |ts|
  {
    if ts != [] {
      StepKeepsDistinct(cells, op, ts[0]);
      OutstandingWaitsAreDistinct(Step(cells, op, ts[0]), op + 1, ts[1..]);
    }
  }

  // ----- Timing -----

  /** The results of iterating one wait at the given true times until it is exhausted. */
  function Polls(c: Cell, times: seq<nat>): (n: nat)
    ensures n <= |times|
    decreases |times|
  {
    if times == [] then 0
    else
      var (c', r, _) := Iterated(c, WaitIterOnce(c.state, times[0]));
      if r.Yielded? then 1 + Polls(c', times[1..]) else 0
  }

  /** A zero wait yields exactly once, whatever the clock says. */
  lemma ZeroWaitYieldsOnce(start: nat, op: nat, times: seq<nat>)
    requires |times| >= 2
    ensures Polls(NewCell(WaitConfig(0, start), op, None), times) == 1
  {
    var c := NewCell(WaitConfig(0, start), op, None);
    assert Polls(Scheduled(c), times[1..]) == 0;
  }

  lemma EndTime(start: nat, time: int)
    ensures WaitConfig(time, start).state == Wrap(start + time)
  {
    WrapOfWrap(start, Wrap(time));
    WrapOfWrap(time, start);
  }

  /** One iteration decides as true time does, for waits and delays below half a turn of the clock. */
  lemma IterationDecides(c: Cell, start: nat, time: int, now: nat)
    requires c.parent.Live? && c.config.iterates && c.config.returnMap.None? && c.state == Wrap(start + time)
    requires -0x8000_0001 <= now - (start + time) < 0x7FFF_FFFF
    ensures Iterated(c, WaitIterOnce(c.state, now)).1.Exhausted? <==> now >= start + time
    ensures Iterated(c, WaitIterOnce(c.state, now)).1.Yielded? <==> now < start + time
    ensures now < start + time ==> Iterated(c, WaitIterOnce(c.state, now)).0 == c
  {
    HasPassedIsTrueOrder(now, start + time);
  }

  /**
    A positive wait shorter than half a turn of the clock yields at every iteration before its
    deadline and ends at the first one at or after it, also when the clock wraps in between.
    Iterations come in true-time order and none is later than half a turn after the deadline.
   */
  lemma {:induction false} WaitEndsAtFirstPollAfterDeadline(c: Cell, start: nat, time: int, times: seq<nat>)
    requires c.parent.Live? && c.config.iterates && c.config.returnMap.None? && c.state == Wrap(start + time)
    requires 0 < time < 0x8000_0000
    requires forall i :: 0 <= i < |times| ==> start <= times[i] < start + time + 0x7FFF_FFFF
    ensures var n := Polls(c, times);
            && (forall i :: 0 <= i < n ==> times[i] < start + time)
            && (n < |times| ==> times[n] >= start + time)
    decreases |times|
  {
    if times != [] {
      IterationDecides(c, start, time, times[0]);
      if times[0] < start + time {
        WaitEndsAtFirstPollAfterDeadline(c, start, time, times[1..]);
        var n := Polls(c, times[1..]);
        forall i | 0 <= i < n + 1
          ensures times[i] < start + time
        {
          assert i > 0 ==> times[i] == times[1..][i - 1];
        }
      }
    }
  }

  /** Applied to a wait as wait() configures it. */
  lemma StartedWaitEndsOnTime(start: nat, time: int, op: nat, times: seq<nat>)
    requires 0 < time < 0x8000_0000
    requires forall i :: 0 <= i < |times| ==> start <= times[i] < start + time + 0x7FFF_FFFF
    ensures var n := Polls(NewCell(WaitConfig(time, start), op, None), times);
            && (forall i :: 0 <= i < n ==> times[i] < start + time)
            && (n < |times| ==> times[n] >= start + time)
  {
    EndTime(start, time);
    WaitEndsAtFirstPollAfterDeadline(NewCell(WaitConfig(time, start), op, None), start, time, times);
  }

  /** A negative wait does not yield at all: it is over at its first iteration. */
  lemma NegativeWaitNeverYields(start: nat, time: int, op: nat, times: seq<nat>)
    requires time < 0 && times != []
    requires start <= times[0] < start + time + 0x7FFF_FFFF
    ensures Polls(NewCell(WaitConfig(time, start), op, None), times) == 0
  {
    EndTime(start, time);
    IterationDecides(NewCell(WaitConfig(time, start), op, None), start, time, times[0]);
  }

  /** The exact condition for an iteration at or after the deadline to end the wait: how late it is, modulo
      one turn of the clock, must be less than half a turn. An iteration half a turn late still yields. */
  lemma LateIterationEndsIff(c: Cell, start: nat, time: int, now: nat)
    requires c.parent.Live? && c.config.iterates && c.config.returnMap.None? && c.state == Wrap(start + time)
    requires now >= start + time
    ensures Iterated(c, WaitIterOnce(c.state, now)).1.Exhausted? <==> (now - (start + time)) % U32 < 0x7FFF_FFFF
    ensures now == start + time + 0x7FFF_FFFF ==> Iterated(c, WaitIterOnce(c.state, now)).1.Yielded?
  {
    WrapOfWrap(now, Wrap(start + time));
    WrapOfWrap(start + time, now);
  }
}
