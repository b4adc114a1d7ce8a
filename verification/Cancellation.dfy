/**
  A multitask() over awaitables (pb_type_task with pb_type_async): one run in which a child's turn is an iteration
  of its awaitable and cancelling it is closing its awaitable.
 */
module Cancellation {
  import opened Words
  import opened Awaitable
  import M = Multitask

  /** Where a child's awaitable is, the operation it stands for, and whether its close callback stops it first. */
  datatype Child = Child(addr: nat, op: nat, stops: bool)

  predicate Distinct(kids: seq<Child>) {
    forall i, j :: 0 <= i < j < |kids| ==> kids[i].addr != kids[j].addr
  }

  // ----- The run -----

  /** What the driver replies in a child's next turn. */
  function Reply(t: M.Track, state: int): Answer {
    if M.StillYields(t) then Answer(Again, state)
    else match t.plan.outcome
      case Return(_) => Answer(Success, state)
      case Raise(e) => Answer(Failure(e), state)
  }

  function Turn(w: World, kid: Child, t: M.Track, state: int): (v: World)
    requires WellFormed(w)
    ensures WellFormed(v)
  {
    Step(w, Iterate(kid.addr, Reply(t, state)))
  }

  function Cancel(w: World, kid: Child, t: M.Track): (v: World)
    requires WellFormed(w)
    ensures WellFormed(v)
  {
    Step(w, Close(kid.addr, Callback(kid.stops, M.CloseError(t).Some?)))
  }

  /** The turns of a round from child i on, as M.RoundFrom takes them. state(i) is the state child i's driver leaves. */
  function TurnsFrom(w: World, kids: seq<Child>, ts: seq<M.Track>, required: nat, i: nat, total: nat,
      state: nat -> int): (v: World)
    requires WellFormed(w) && i <= |ts| == |kids|
    ensures WellFormed(v)
    decreases |ts| - i
  {
    if i == |ts| then w
    else if ts[i].done then TurnsFrom(w, kids, ts, required, i + 1, total + 1, state)
    else
      var v := Turn(w, kids[i], ts[i], state(i));
      if M.EndsRound(ts[i], required, total) then v
      else
        var next := ts[i := M.Advance(ts[i])];
        TurnsFrom(v, kids, next, required, i + 1, if M.StillYields(ts[i]) then total else total + 1, state)
  }

  /** The close calls from child i on, as M.CloseFrom makes them. */
  function CancelFrom(w: World, kids: seq<Child>, ts: seq<M.Track>, i: nat): (v: World)
    requires WellFormed(w) && i <= |ts| == |kids|
    ensures WellFormed(v)
    decreases |ts| - i
  {
    if i == |ts| then w
    else if ts[i].done then CancelFrom(w, kids, ts, i + 1)
    else
      var v := Cancel(w, kids[i], ts[i]);
      if M.CloseError(ts[i]).Some? then v
      else CancelFrom(v, kids, ts[i := ts[i].(closed := ts[i].closed + 1)], i + 1)
  }

  /** The close calls at the end of a round, as M.Conclude makes them. */
  function Ended(w: World, kids: seq<Child>, mid: seq<M.Track>, ending: M.Ending): (v: World)
    requires WellFormed(w) && |mid| == |kids|
    ensures WellFormed(v)
  {
    match ending
    case Pending => w
    case Over => w
    case Broken(_) => CancelFrom(w, kids, mid, 0)
    case Enough =>
      var (closed, error) := M.CloseAll(mid);
      var v := CancelFrom(w, kids, mid, 0);
      if error.None? then v else CancelFrom(v, kids, closed, 0)
  }

  // ----- What the run keeps -----

  /**
    The awaitable behaves as the plan says: it returns that value, and close raises so many times and then succeeds.
   */
  predicate Agrees(c: Cell, plan: M.Plan, stops: bool) {
    && c.config.iterates
    && (plan.outcome.Return? ==> Mapped(c.config, c.config.parent) == Exhausted(plan.outcome.value))
    && (plan.closing != [] ==> c.config.closes) && (stops ==> |plan.closing| <= 1)
    && forall k :: 0 <= k < |plan.closing| ==> plan.closing[k].Some?
  }

  /** Where the awaitable of a child not done stands after so many close calls. */
  function Standing(c: Cell, t: M.Track, stops: bool): Parent {
    if t.closed > |t.plan.closing| then Free
    else if t.closed > 0 && stops then Stopping
    else Live(c.config.parent)
  }

  /** A child: done means its exhaustion was delivered; otherwise its operation is still in its awaitable. */
  predicate KidOk(c: Cell, log: seq<Event>, t: M.Track, op: nat, stops: bool) {
    if t.done then Delivered(op) in log
    else
      && c.op == op && Agrees(c, t.plan, stops) && c.parent == Standing(c, t, stops)
      && (t.closed > |t.plan.closing| ==> Closed(op) in log)
      && (t.closed > |t.plan.closing| == 0 && c.config.closes ==> Fired(op) in log)
      && (t.plan.closing == [] ==> Broke(op) !in log)
  }

  ghost predicate AllOk(w: World, kids: seq<Child>, ts: seq<M.Track>) {
    && WellFormed(w) && |kids| == |ts| && Inv(w) && Distinct(kids)
    && (forall i :: 0 <= i < |kids| ==> kids[i].addr < |w.heap|)
    && forall i :: 0 <= i < |kids| ==> KidOk(w.heap[kids[i].addr], w.log, ts[i], kids[i].op, kids[i].stops)
  }

  lemma KidOkLater(c: Cell, log: seq<Event>, events: seq<Event>, t: M.Track, op: nat, stops: bool)
    requires KidOk(c, log, t, op, stops)
    requires !t.done ==> forall i :: 0 <= i < |events| ==> events[i].op != op
    ensures KidOk(c, log + events, t, op, stops)
  {
    assert forall e :: e in log ==> e in log + events;
  }

  /** A call on the awaitable of one child leaves the others as they are. */
  lemma UpdateKeepsOk(w: World, kids: seq<Child>, ts: seq<M.Track>, i: nat, c: Cell, events: seq<Event>, t: M.Track)
    requires AllOk(w, kids, ts) && i < |kids| && !ts[i].done
    requires LocalStep(w.heap[kids[i].addr], c, events)
    requires KidOk(c, w.log + events, t, kids[i].op, kids[i].stops)
    ensures AllOk(Update(w, kids[i].addr, c, events), kids, ts[i := t])
  {
    UpdateKeepsInv(w, kids[i].addr, c, events);
    forall j | 0 <= j < |kids| && j != i
      ensures KidOk(w.heap[kids[j].addr], w.log + events, ts[j], kids[j].op, kids[j].stops)
    {
      assert kids[j].addr != kids[i].addr;
      KidOkLater(w.heap[kids[j].addr], w.log, events, ts[j], kids[j].op, kids[j].stops);
    }
  }

  lemma TurnKeepsOk(w: World, kids: seq<Child>, ts: seq<M.Track>, i: nat, state: int)
    requires AllOk(w, kids, ts) && i < |kids| && !ts[i].done && ts[i].closed == 0
    ensures AllOk(Turn(w, kids[i], ts[i], state), kids, ts[i := M.Advance(ts[i])])
  {
    var c, reply := w.heap[kids[i].addr], Reply(ts[i], state);
    var (c', _, events) := Iterated(c, reply);
    IteratingIsLocal(c, reply);
    assert events[|events| - 1] in w.log + events;
    assert Broke(c.op) !in events;
    UpdateKeepsOk(w, kids, ts, i, c', events, M.Advance(ts[i]));
  }

  lemma CancelKeepsOk(w: World, kids: seq<Child>, ts: seq<M.Track>, i: nat)
    requires AllOk(w, kids, ts) && i < |kids| && !ts[i].done
    ensures AllOk(Cancel(w, kids[i], ts[i]), kids, ts[i := ts[i].(closed := ts[i].closed + 1)])
  {
    var c, callback := w.heap[kids[i].addr], Callback(kids[i].stops, M.CloseError(ts[i]).Some?);
    var (c', events) := Closing(c, callback);
    ClosingIsLocal(c, callback);
    assert events[0] in w.log + events && events[|events| - 1] in w.log + events;
    UpdateKeepsOk(w, kids, ts, i, c', events, ts[i].(closed := ts[i].closed + 1));
  }

  /** No child that is not done has been closed. */
  predicate NoneClosed(ts: seq<M.Track>) {
    forall i :: 0 <= i < |ts| && !ts[i].done ==> ts[i].closed == 0
  }

  /** The turn of one child, and the rest of the round. */
  lemma TurnsFromNext(w: World, kids: seq<Child>, ts: seq<M.Track>, required: nat, i: nat, total: nat,
      state: nat -> int)
    requires WellFormed(w) && i < |ts| == |kids| && !ts[i].done && !M.EndsRound(ts[i], required, total)
    ensures var v, next := Turn(w, kids[i], ts[i], state(i)), ts[i := M.Advance(ts[i])];
            var sum := if M.StillYields(ts[i]) then total else total + 1;
            && TurnsFrom(w, kids, ts, required, i, total, state) ==
               TurnsFrom(v, kids, next, required, i + 1, sum, state)
            && M.RoundFrom(ts, required, i, total) == M.RoundFrom(next, required, i + 1, sum)
  {
  }

  lemma NoneClosedNext(ts: seq<M.Track>, i: nat)
    requires NoneClosed(ts) && i < |ts|
    ensures NoneClosed(ts[i := M.Advance(ts[i])])
  {
  }

  lemma {:induction false} TurnsKeepOk(w: World, kids: seq<Child>, ts: seq<M.Track>, required: nat, i: nat, total: nat,
                                       state: nat -> int)
    requires AllOk(w, kids, ts) && NoneClosed(ts) && i <= |ts|
    ensures AllOk(TurnsFrom(w, kids, ts, required, i, total, state), kids, M.RoundFrom(ts, required, i, total).0)
    decreases |ts| - i
  {
    hide Inv, KidOk;
    if i < |ts| {
      if ts[i].done {
        TurnsKeepOk(w, kids, ts, required, i + 1, total + 1, state);
      } else {
        TurnKeepsOk(w, kids, ts, i, state(i));
        if !M.EndsRound(ts[i], required, total) {
          TurnsFromNext(w, kids, ts, required, i, total, state);
          NoneClosedNext(ts, i);
          TurnsKeepOk(Turn(w, kids[i], ts[i], state(i)), kids, ts[i := M.Advance(ts[i])], required, i + 1,
                      if M.StillYields(ts[i]) then total else total + 1, state);
        }
      }
    }
  }

  lemma {:induction false} CancelsKeepOk(w: World, kids: seq<Child>, ts: seq<M.Track>, i: nat)
    requires AllOk(w, kids, ts) && i <= |ts|
    ensures AllOk(CancelFrom(w, kids, ts, i), kids, M.CloseFrom(ts, i).0)
    decreases |ts| - i
  {
    hide Inv, KidOk;
    if i < |ts| {
      if ts[i].done {
        CancelsKeepOk(w, kids, ts, i + 1);
      } else {
        CancelKeepsOk(w, kids, ts, i);
        if M.CloseError(ts[i]).None? {
          CancelsKeepOk(Cancel(w, kids[i], ts[i]), kids, ts[i := ts[i].(closed := ts[i].closed + 1)], i + 1);
        }
      }
    }
  }

  lemma EndKeepsOk(w: World, kids: seq<Child>, mid: seq<M.Track>, ending: M.Ending)
    requires AllOk(w, kids, mid)
    ensures AllOk(Ended(w, kids, mid, ending), kids, M.Conclude(mid, ending).0)
  {
    hide Inv, KidOk;
    if ending.Broken? || ending.Enough? {
      CancelsKeepOk(w, kids, mid, 0);
      var (closed, error) := M.CloseAll(mid);
      if ending.Enough? && error.Some? {
        CancelsKeepOk(CancelFrom(w, kids, mid, 0), kids, closed, 0);
      }
    }
  }

  /** One round: the turns and what follows them. */
  function Round(w: World, kids: seq<Child>, ts: seq<M.Track>, required: nat, state: nat -> int): (v: World)
    requires WellFormed(w) && |ts| == |kids|
    ensures WellFormed(v)
  {
    var (mid, ending) := M.Loop(ts, required);
    Ended(TurnsFrom(w, kids, ts, required, 0, 0, state), kids, mid, ending)
  }

  // ----- What happens to the hardware -----

  /** The close callback of an operation is called exactly once in the whole history, and it returns. */
  ghost predicate StoppedOnce(log: seq<Event>, o: nat) {
    exists i :: 0 <= i < |log| && log[i] == Fired(o) && forall j :: 0 <= j < |log| && j != i ==> !Calls(log[j], o)
  }

  lemma FiredIsStoppedOnce(log: seq<Event>, o: nat)
    requires HistorySafe(log) && Fired(o) in log && Broke(o) !in log
    ensures StoppedOnce(log, o)
  {
    var i :| 0 <= i < |log| && log[i] == Fired(o);
    forall j | 0 <= j < |log| && j != i
      ensures !Calls(log[j], o)
    {
      if Calls(log[j], o) {
        assert log[j] == Fired(o);
        var first, second := if i < j then i else j, if i < j then j else i;
        assert Ends(log[first], o) && Acts(log[second], o);
      }
    }
  }

  /** What has become of a child when the collection has ended. */
  ghost predicate Fate(c: Cell, log: seq<Event>, t: M.Track, op: nat) {
    && (t.done ==> Delivered(op) in log)
    && (!t.done && t.closed == 0 ==> c.op == op && c.parent.Live?)
    && (!t.done && t.closed > 0 && t.plan.closing == [] ==>
          && c.op == op && c.parent.Free? && Closed(op) in log && (c.config.closes ==> StoppedOnce(log, op)))
  }

  lemma OkDecidesFate(w: World, c: Cell, t: M.Track, op: nat, stops: bool)
    requires Inv(w) && KidOk(c, w.log, t, op, stops)
    ensures Fate(c, w.log, t, op)
  {
    if !t.done && t.closed > 0 && t.plan.closing == [] && c.config.closes {
      FiredIsStoppedOnce(w.log, op);
    }
  }

  /** A close that raises comes before child i, and again when the closing is repeated. */
  predicate NotReached(mid: seq<M.Track>, ending: M.Ending, i: nat) {
    i > M.Blocker(mid, 0) && (ending.Enough? ==> i > M.Blocker(M.CloseAll(mid).0, 0))
  }

  /** The fate of all children at the end of a collection, and who has not been closed. */
  ghost predicate FatesDecided(v: World, kids: seq<Child>, mid: seq<M.Track>, ending: M.Ending, after: seq<M.Track>) {
    && |mid| == |after| == |kids| && AllOk(v, kids, after)
    && (forall i :: 0 <= i < |kids| ==> Fate(v.heap[kids[i].addr], v.log, after[i], kids[i].op))
    && (forall i :: 0 <= i < |kids| && !mid[i].done ==> (after[i].closed == 0 <==> NotReached(mid, ending, i)))
  }

  lemma FatesFollow(v: World, kids: seq<Child>, mid: seq<M.Track>, ending: M.Ending, after: seq<M.Track>)
    requires AllOk(v, kids, after) && NoneClosed(mid) && M.ClosedAsDemanded(mid, ending, after) && !ending.Pending?
    requires ending.Over? ==> forall i :: 0 <= i < |mid| ==> mid[i].done
    ensures FatesDecided(v, kids, mid, ending, after)
  {
    forall i | 0 <= i < |kids|
      ensures Fate(v.heap[kids[i].addr], v.log, after[i], kids[i].op)
    {
      OkDecidesFate(v, v.heap[kids[i].addr], after[i], kids[i].op, kids[i].stops);
    }
  }

  lemma FairKeepsNoneClosed(ts: seq<M.Track>, mid: seq<M.Track>)
    requires NoneClosed(ts) && M.Fair(ts, mid)
    ensures NoneClosed(mid)
  {
  }

  /**
    The round in which a collection of awaitables ends. A child that is done has had its exhaustion delivered, and
    its object is not closed. A child that is closed and whose callback does not raise has its hardware stopped by
    exactly one call in the whole history. A child that is not closed goes on running, and that happens
    exactly to those that a raising close kept from being reached.
   */
  lemma EndOfRoundStopsHardware(w: World, kids: seq<Child>, ts: seq<M.Track>, required: nat, state: nat -> int)
    requires AllOk(w, kids, ts) && NoneClosed(ts)
    requires M.CountDone(ts) < required && (required == 1 || required == |ts|)
    requires !M.RunRound(ts, required).1.Ongoing?
    ensures FatesDecided(Round(w, kids, ts, required, state), kids,
                         M.Loop(ts, required).0, M.Loop(ts, required).1, M.RunRound(ts, required).0)
  {
    hide Inv, KidOk, Fate, FatesDecided, M.Fair, M.ClosedAsDemanded, CancelFrom, TurnsFrom, M.RoundFrom, M.CloseFrom,
        M.Conclude, Ended;
    M.RoundIsExclusive(ts, required);
    TurnsKeepOk(w, kids, ts, required, 0, 0, state);
    var (mid, ending) := M.Loop(ts, required);
    FairKeepsNoneClosed(ts, mid);
    EndKeepsOk(TurnsFrom(w, kids, ts, required, 0, 0, state), kids, mid, ending);
    FatesFollow(Round(w, kids, ts, required, state), kids, mid, ending, M.RunRound(ts, required).0);
  }

  // ----- The whole run -----

  function InRound(state: (nat, nat) -> int, n: nat): nat -> int {
    (i: nat) => state(n, i)
  }

  /** The awaitables after n rounds. state(k, i) is the state the driver of child i leaves in round k. */
  function Play(w: World, kids: seq<Child>, plans: seq<M.Plan>, required: nat, n: nat,
                state: (nat, nat) -> int): (v: World)
    requires WellFormed(w) && |plans| == |kids|
    ensures WellFormed(v)
  {
    if n == 0 then w
    else Round(Play(w, kids, plans, required, n - 1, state), kids, M.Rounds(plans, required, n - 1), required,
               InRound(state, n))
  }

  /** A collection is made of different awaitables that are live and behave as planned. */
  ghost predicate Starts(w: World, kids: seq<Child>, plans: seq<M.Plan>) {
    && |kids| == |plans| >= 1 && Distinct(kids)
    && forall i :: 0 <= i < |kids| ==>
         && kids[i].addr < |w.heap| && w.heap[kids[i].addr].op == kids[i].op
         && w.heap[kids[i].addr].parent == Live(w.heap[kids[i].addr].config.parent)
         && Agrees(w.heap[kids[i].addr], plans[i], kids[i].stops) && Broke(kids[i].op) !in w.log
  }

  lemma StartsOk(w: World, kids: seq<Child>, plans: seq<M.Plan>)
    requires Inv(w) && Starts(w, kids, plans)
    ensures AllOk(w, kids, M.Fresh(plans))
  {
  }

  lemma {:induction false} PlayKeepsOk(cs: seq<Command>, kids: seq<Child>, plans: seq<M.Plan>, required: nat, n: nat,
                                       state: (nat, nat) -> int)
    requires Starts(Run(cs), kids, plans) && (required == 1 || required == |plans|)
    requires M.OngoingFor(plans, required, n)
    ensures AllOk(Play(Run(cs), kids, plans, required, n, state), kids, M.Rounds(plans, required, n))
  {
    hide Inv, KidOk, Round, M.RunRound, NoneClosed;
    if n == 0 {
      RunKeepsInv(cs);
      StartsOk(Run(cs), kids, plans);
    } else {
      PlayKeepsOk(cs, kids, plans, required, n - 1, state);
      OngoingIsOpen(plans, required, n - 1);
      assert M.Report(plans, required, n).Ongoing?;
      var w := Play(Run(cs), kids, plans, required, n - 1, state);
      OngoingKeepsOk(w, kids, M.Rounds(plans, required, n - 1), required, InRound(state, n));
    }
  }

  /** While the collection goes on too few are done and none has been closed. */
  lemma OngoingIsOpen(plans: seq<M.Plan>, required: nat, n: nat)
    requires |plans| >= 1 && (required == 1 || required == |plans|) && M.OngoingFor(plans, required, n)
    ensures NoneClosed(M.Rounds(plans, required, n)) && M.CountDone(M.Rounds(plans, required, n)) < required
  {
    M.OngoingKeeps(plans, required, n);
  }

  /** A round after which the collection goes on closes nothing. */
  lemma OngoingKeepsOk(w: World, kids: seq<Child>, ts: seq<M.Track>, required: nat, state: nat -> int)
    requires AllOk(w, kids, ts) && NoneClosed(ts)
    requires M.CountDone(ts) < required && (required == 1 || required == |ts|)
    requires M.RunRound(ts, required).1.Ongoing?
    ensures AllOk(Round(w, kids, ts, required, state), kids, M.RunRound(ts, required).0)
  {
    hide Inv, KidOk;
    M.RoundIsExclusive(ts, required);
    TurnsKeepOk(w, kids, ts, required, 0, 0, state);
  }

  /**
    Over a whole run, after any history of awaitables: when the collection ends in round n + 1, every child that was
    not done and was closed without raising has its hardware stopped by exactly one call ever, every child that is
    done has had its exhaustion delivered, and a child runs on exactly if a raising close kept it from being reached.
   */
  lemma CollectionStopsHardware(cs: seq<Command>, kids: seq<Child>, plans: seq<M.Plan>, required: nat, n: nat,
                                state: (nat, nat) -> int)
    requires Starts(Run(cs), kids, plans) && (required == 1 || required == |plans|)
    requires M.OngoingFor(plans, required, n) && !M.Report(plans, required, n + 1).Ongoing?
    ensures FatesDecided(Play(Run(cs), kids, plans, required, n + 1, state), kids,
                         M.LastLoop(plans, required, n).0, M.LastLoop(plans, required, n).1,
                         M.Rounds(plans, required, n + 1))
  {
    hide Inv, KidOk;
    PlayKeepsOk(cs, kids, plans, required, n, state);
    OngoingIsOpen(plans, required, n);
    var w := Play(Run(cs), kids, plans, required, n, state);
    EndOfRoundStopsHardware(w, kids, M.Rounds(plans, required, n), required, InRound(state, n + 1));
  }
}
