/**
  The awaitable as an object updated in place, the allocator that recycles it, and the
  blocking alternative. Each method is tied to the cell functions of module Awaitable.
 */
module AwaitableObjects {
  import opened Words
  import opened Awaitable

  /**
    The hardware driver behind iter_once: its reply may depend on the state it is given and on how often it was
    called.
   */
  class Driver {
    const answer: (nat, int) -> Answer
    var calls: nat
    /** The state handed to each call so far. */
    ghost var states: seq<int>

    constructor (answer: (nat, int) -> Answer)
      ensures this.answer == answer && calls == 0 && states == []
    {
      this.answer := answer;
      calls, states := 0, [];
    }

    method IterOnce(state: int) returns (reply: Answer)
      modifies this
      ensures calls == old(calls) + 1 && states == old(states) + [state] && reply == answer(old(calls), state)
    {
      reply := answer(calls, state);
      calls, states := calls + 1, states + [state];
    }
  }

  class Async {
    var parent: Parent
    var callbacks: Config
    var state: int
    ghost var op: nat
    ghost var slot: Option<nat>

    ghost function Value(): Cell
      reads this
    {
      Cell(parent, callbacks, state, op, slot)
    }

    constructor (config: Config, ghost op: nat, ghost slot: Option<nat>)
      ensures Value() == NewCell(config, op, slot)
    {
      parent, callbacks, state := Live(config.parent), config, config.state;
      this.op, this.slot := op, slot;
    }

    /** An object in zeroed static memory, never used so far. */
    constructor Zeroed()
      ensures parent == Free
    {
      parent, callbacks, state := Free, Config(0, false, false, None, 0), 0;
    }

    method Assign(config: Config, ghost op: nat, ghost slot: Option<nat>)
      modifies this
      ensures Value() == NewCell(config, op, slot)
    {
      parent, callbacks, state := Live(config.parent), config, config.state;
      this.op, this.slot := op, slot;
    }

    /** pb_type_async_schedule_stop_iteration. */
    static method ScheduleStopIteration(iter: Async?) returns (ghost events: seq<Event>)
      modifies iter
      ensures iter != null ==> iter.Value() == Scheduled(old(iter.Value()))
      ensures events == if iter == null || old(iter.parent).Free? then [] else [Stopped(iter.op)]
    {
      if iter == null || iter.parent == Free {
        return [];
      }
      iter.parent := Stopping;
      events := [Stopped(iter.op)];
    }

    /**
      pb_type_async_close, given what the close callback does. raised tells whether the callback was called and
      raised, which leaves the method before the object is freed.
     */
    method CloseIt(callback: Callback) returns (raised: bool, ghost events: seq<Event>)
      modifies this
      ensures (Value(), events) == Closing(old(Value()), callback)
      ensures raised <==> old(CallsBack(Value())) && callback.raises
    {
      raised, events := false, [];
      if callbacks.closes && parent != Free && parent != Stopping {
        if callback.stops {
          ghost var stopped := ScheduleStopIteration(this);
        }
        if callback.raises {
          return true, [Broke(op)] + if callback.stops then [Stopped(op)] else [];
        }
        events := [Fired(op)];
      }
      parent := Free;
      events := events + [Closed(op)];
    }

    /** pb_type_async_iternext. */
    method IterNext(driver: Driver) returns (r: Result, ghost events: seq<Event>)
      modifies this, driver
      ensures (Value(), r, events) == Iterated(old(Value()), driver.answer(old(driver.calls), old(state)))
      ensures driver.states == old(driver.states) + if Ran(old(op)) in events then [old(state)] else []
      ensures driver.calls == old(driver.calls) + if Ran(old(op)) in events then 1 else 0
    {
      if parent == Stopping || parent == Free {
        parent := Free;
        return Exhausted(None), [Delivered(op)];
      }
      if !callbacks.iterates {
        ghost var stopped := ScheduleStopIteration(this);
        return Yielded, [];
      }
      var reply := driver.IterOnce(state);
      state := reply.state;
      assert [Ran(op)][0] == Ran(op) && [Ran(op), Delivered(op)][0] == Ran(op) && [Ran(op), Failed(op)][0] == Ran(op);
      if reply.err == Again {
        return Yielded, [Ran(op)];
      }
      if reply.err.Failure? {
        return Raised(reply.err.code), [Ran(op), Failed(op)];
      }
      r := Mapped(callbacks, parent.obj);
      if r.Raised? {
        return r, [Ran(op), Failed(op)];
      }
      parent := Free;
      return r, [Ran(op), Delivered(op)];
    }

    /**
      The object for a new operation: the slot's object if there is one and it is free, else a
      new one. hasPrev and prev stand for the pointer to the slot; the caller stores the result there.
     */
    static method ReuseOrAllocate(config: Config, hasPrev: bool, prev: Async?, ghost op: nat, ghost slot: Option<nat>)
      returns (iter: Async)
      modifies if hasPrev then {prev} else {}
      ensures iter.Value() == NewCell(config, op, slot)
      ensures if hasPrev && prev != null && old(prev.parent).Free? then iter == prev
              else fresh(iter) && (prev != null ==> unchanged(prev))
    {
      if hasPrev && prev != null && prev.parent == Free {
        iter := prev;
        iter.Assign(config, op, slot);
      } else {
        iter := new Async(config, op, slot);
      }
    }
  }

  // ----- Blocking and awaited execution -----

  /**
    The states handed to the driver, call after call from the k-th on, and the outcome reached, if it is within n calls.
   */
  function BlockingRun(config: Config, answer: (nat, int) -> Answer, k: nat, state: int, n: nat)
    : (seq<int>, Option<Result>)
    decreases n
  {
    if n == 0 then ([], None)
    else
      var reply := answer(k, state);
      match reply.err
      case Again => var (states, r) := BlockingRun(config, answer, k + 1, reply.state, n - 1); ([state] + states, r)
      case Failure(code) => ([state], Some(Raised(code)))
      case Success => ([state], Some(Mapped(config, config.parent)))
  }

  /** The blocking run ends. */
  ghost predicate Ends(config: Config, driver: Driver, state: int, n: nat)
    reads driver
  {
    BlockingRun(config, driver.answer, driver.calls, state, n).1.Some?
  }

  /** pb_type_async_wait_or_await without a run loop: iterate here and now. */
  method WaitBlocking(config: Config, driver: Driver, ghost n: nat) returns (r: Result)
    requires config.iterates && Ends(config, driver, config.state, n)
    modifies driver
    ensures var (states, outcome) := BlockingRun(config, driver.answer, old(driver.calls), config.state, n);
            driver.states == old(driver.states) + states && Some(r) == outcome
  {
    ghost var (states, outcome) := BlockingRun(config, driver.answer, driver.calls, config.state, n);
    ghost var left, before := n - 1, driver.states;
    var reply := driver.IterOnce(config.state);
    while reply.err == Again
      invariant left >= 0
      invariant if reply.err == Again then
                  var (rest, end) := BlockingRun(config, driver.answer, driver.calls, reply.state, left);
                  end == outcome && outcome.Some? && driver.states + rest == before + states
                else
                  && driver.states == before + states
                  && outcome == Some(if reply.err.Failure? then
                      Raised(reply.err.code) else Mapped(config, config.parent))
      decreases left, reply.err == Again
    {
      left := left - 1;
      reply := driver.IterOnce(reply.state);
    }
    if reply.err.Failure? {
      return Raised(reply.err.code);
    }
    r := Mapped(config, config.parent);
  }

  /** Iterating an awaitable until it no longer yields, as the run loop does. */
  function AwaitedRun(c: Cell, answer: (nat, int) -> Answer, k: nat, n: nat): (seq<int>, Option<Result>)
    decreases n
  {
    if n == 0 then ([], None)
    else
      var (c', r, events) := Iterated(c, answer(k, c.state));
      var states := if Ran(c.op) in events then [c.state] else [];
      if r.Yielded? then
        var (rest, end) := AwaitedRun(c', answer, k + |states|, n - 1);
        (states + rest, end)
      else (states, Some(r))
  }

  /** The same calls with the same states, the same value or error: an operation cannot tell how it is waited for. */
  lemma {:induction false} AwaitedRunIsBlockingRun(c: Cell, answer: (nat, int) -> Answer, k: nat, n: nat)
    requires c.config.iterates && c.parent == Live(c.config.parent)
    ensures AwaitedRun(c, answer, k, n) == BlockingRun(c.config, answer, k, c.state, n)
    decreases n
  {
    if n > 0 {
      var reply := answer(k, c.state);
      var events := Iterated(c, reply).2;
      assert events[0] == Ran(c.op);
      if reply.err == Again {
        AwaitedRunIsBlockingRun(c.(state := reply.state), answer, k + 1, n - 1);
      }
    }
  }

  /** The run loop over one awaitable: iterated until it no longer yields. */
  method DriveToEnd(iter: Async, driver: Driver, ghost n: nat) returns (r: Result)
    requires iter.callbacks.iterates && iter.parent == Live(iter.callbacks.parent)
    requires Ends(iter.callbacks, driver, iter.state, n)
    modifies iter, driver
    ensures var (states, outcome) := BlockingRun(old(iter.callbacks), driver.answer, old(driver.calls),
        old(iter.state), n);
            driver.states == old(driver.states) + states && Some(r) == outcome
    ensures iter.parent.Free? <==> r.Exhausted?
  {
    ghost var config, left, before := iter.callbacks, n, driver.states;
    ghost var (states, outcome) := BlockingRun(config, driver.answer, driver.calls, iter.state, n);
    r := Yielded;
    while r == Yielded
      invariant left >= 0
      invariant if r == Yielded then
                  var (rest, end) := BlockingRun(config, driver.answer, driver.calls, iter.state, left);
                  && iter.parent == Live(config.parent) && iter.callbacks == config
                  && end == outcome && outcome.Some? && driver.states + rest == before + states
                else
                  driver.states == before + states && outcome == Some(r) && (iter.parent.Free? <==> r.Exhausted?)
      decreases left, r == Yielded
    {
      ghost var op := iter.op;
      ghost var events;
      r, events := iter.IterNext(driver);
      assert events[0] == Ran(op);
      left := left - 1;
    }
  }

  /** pb_type_async_return_result: the protothread yields once, then succeeds, and the map returns the constant. */
  function ConstantConfig(result: Obj): Config {
    Config(result, true, false, Some((x: Obj) => Mapping.Value(x)), 0)
  }

  function ConstantIterOnce(state: int): Answer {
    if state == 0 then Answer(Again, 1) else Answer(Success, state)
  }

  lemma ConstantYieldsOnceThenReturns(result: Obj, op: nat, slot: Option<nat>)
    ensures var c := NewCell(ConstantConfig(result), op, slot);
            && Iterated(c, ConstantIterOnce(c.state)).1 == Yielded
            && (var d := Iterated(c, ConstantIterOnce(c.state)).0;
                Iterated(d, ConstantIterOnce(d.state)).1 == Exhausted(Some(result)))
  {
  }

  // ----- All awaitables of a program -----

  /** Every awaitable allocated so far and the slots that point to them; addresses are positions in objs. */
  class Runtime {
    var objs: seq<Async>
    var slots: map<nat, nat>
    ghost var ops: nat
    ghost var log: seq<Event>

    ghost function Model(): World
      reads this, objs
    {
      World(seq(|objs|, i requires 0 <= i < |objs| reads this, objs => objs[i].Value()), slots, ops, log)
    }

    ghost predicate Valid()
      reads this, objs
    {
      && (forall i, j :: 0 <= i < j < |objs| ==> objs[i] != objs[j])
      && WellFormed(Model())
    }

    constructor ()
      ensures Valid() && Model() == START
    {
      objs, slots, ops, log := [], map[], 0, [];
    }

    method ScheduleStopIteration(target: Option<nat>)
      requires Valid() && (target.Some? ==> target.value < |objs|)
      modifies this`log, objs
      ensures Valid() && Model() == Step(old(Model()), ScheduleStop(target))
      ensures objs == old(objs)
    {
      var iter: Async? := if target.None? then null else objs[target.value];
      ghost var events := Async.ScheduleStopIteration(iter);
      log := log + events;
      assert Model().heap == StopAt(old(Model()), target).heap;
    }

    method CloseAt(addr: nat, callback: Callback) returns (raised: bool)
      requires Valid() && addr < |objs|
      modifies this`log, objs
      ensures Valid() && Model() == Step(old(Model()), Close(addr, callback))
      ensures raised <==> CallsBack(old(Model()).heap[addr]) && callback.raises
    {
      ghost var w := Model();
      ghost var events;
      raised, events := objs[addr].CloseIt(callback);
      log := log + events;
      assert Model().heap == w.heap[addr := Closing(w.heap[addr], callback).0];
    }

    method IterateAt(addr: nat, driver: Driver) returns (r: Result)
      requires Valid() && addr < |objs|
      modifies this`log, objs, driver
      ensures Valid()
      ensures var reply := driver.answer(old(driver.calls), old(objs[addr].state));
              && Model() == Step(old(Model()), Iterate(addr, reply))
              && r == Iterated(old(Model()).heap[addr], reply).1
    {
      ghost var w := Model();
      ghost var events;
      r, events := objs[addr].IterNext(driver);
      log := log + events;
      assert Model().heap == w.heap[addr := objs[addr].Value()];
    }

    /** Stores the operation in the object at this address, or in a new one behind all others. */
    method Store(at: Option<nat>, config: Config, slot: Option<nat>) returns (addr: nat)
      requires Valid() && (at.Some? ==> at.value < |objs| && slot.Some?)
      modifies this`objs, objs
      ensures old(objs) <= objs && addr < |objs| <= |old(objs)| + 1
      ensures forall i, j :: 0 <= i < j < |objs| ==> objs[i] != objs[j]
      ensures addr == if at.Some? && old(objs[at.value].parent).Free? then at.value else |old(objs)|
      ensures Model().heap == Put(old(Model()).heap, addr, NewCell(config, ops, slot))
    {
      ghost var heap := Model().heap;
      var prev: Async? := if at.None? then null else objs[at.value];
      var iter := Async.ReuseOrAllocate(config, slot.Some?, prev, ops, slot);
      if iter == prev {
        addr := at.value;
        assert Model().heap == heap[addr := NewCell(config, ops, slot)];
      } else {
        addr := |objs|;
        objs := objs + [iter];
        assert Model().heap == heap + [NewCell(config, ops, slot)];
      }
    }

    method PlaceNew(slot: Option<nat>, config: Config) returns (addr: nat)
      requires Valid()
      modifies this, objs
      ensures Valid() && Model() == Placed(old(Model()), slot, config)
      ensures addr == Place(old(Model()), slot) && addr < |objs|
    {
      addr := Store(Prev(slots, slot), config, slot);
      if slot.Some? {
        slots := slots[slot.value := addr];
      }
      log := log + [Created(ops, slot, addr)];
      ops := ops + 1;
    }

    /** pb_type_async_wait_or_await with the run loop active. */
    method WaitOrAwait(slot: Option<nat>, config: Config, stopPrev: bool) returns (addr: nat)
      requires Valid()
      modifies this, objs
      ensures Valid() && Model() == Step(old(Model()), Create(slot, config, stopPrev))
      ensures addr < |objs| && Model().heap[addr] == NewCell(config, old(ops), slot)
    {
      if stopPrev {
        ScheduleStopIteration(Prev(slots, slot));
      }
      addr := PlaceNew(slot, config);
    }
  }
}
