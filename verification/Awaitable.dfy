/**
  The recycled awaitable (pb_type_async): a three-state object that is created,
  iterated, scheduled to stop, closed, and re-used in place for the next operation.

  Cell functions say what each call does to one object; World composes them over
  all objects and all resource slots and records what happened as a log of events.
  The operation number and the slot of a cell are history variables: the firmware
  does not store them.
 */
module Awaitable {
  import opened Words

  /** A reference to a MicroPython object. */
  type Obj = nat

  /** The field parent_obj: MP_OBJ_NULL, MP_OBJ_SENTINEL, or the object that made us. */
  datatype Parent = Free | Stopping | Live(obj: Obj)

  /** What iter_once returned: PBIO_ERROR_AGAIN, PBIO_SUCCESS, or an error that is raised. */
  datatype Error = Again | Success | Failure(code: nat)

  /** The driver's reply to one iter_once call: its error and the protothread state it leaves. */
  datatype Answer = Answer(err: Error, state: int)

  /** What iternext tells its caller. */
  datatype Result = Yielded | Exhausted(value: Option<Obj>) | Raised(code: nat)

  /** What the return map makes of the parent object. */
  datatype Mapping = Value(obj: Obj) | Throws(code: nat)

  /** An operation as its method configures it. iterates and closes say whether those callbacks are set. */
  datatype Config = Config(parent: Obj, iterates: bool, closes: bool, returnMap: Option<Obj -> Mapping>, state: int)

  /** What the close callback does if it is called: it may schedule its own awaitable to stop, and it may raise. */
  datatype Callback = Callback(stops: bool, raises: bool)

  datatype Cell = Cell(parent: Parent, config: Config, state: int, op: nat, slot: Option<nat>)

  datatype Event =
    | Created(op: nat, slot: Option<nat>, addr: nat)
    | Ran(op: nat)        // iter_once was called
    | Fired(op: nat)      // the hardware close callback was called and returned
    | Broke(op: nat)      // the hardware close callback was called and raised
    | Stopped(op: nat)    // scheduled to stop by someone else
    | Delivered(op: nat)  // StopIteration reached the caller
    | Closed(op: nat)     // close() was called
    | Failed(op: nat)     // an error was raised to the caller

  // ----- One object -----

  function NewCell(config: Config, op: nat, slot: Option<nat>): Cell {
    Cell(Live(config.parent), config, config.state, op, slot)
  }

  function Scheduled(c: Cell): Cell {
    if c.parent.Free? then c else c.(parent := Stopping)
  }

  /** The close callback is only called for a live operation that has one. */
  predicate CallsBack(c: Cell) {
    c.parent.Live? && c.config.closes
  }

  /** A callback that raises leaves the object as it is, or scheduled to stop if that is what it did first. */
  function Closing(c: Cell, callback: Callback): (Cell, seq<Event>) {
    if CallsBack(c) && callback.raises then
      (if callback.stops then Scheduled(c) else c, [Broke(c.op)] + if callback.stops then [Stopped(c.op)] else [])
    else
      (c.(parent := Free), (if CallsBack(c) then [Fired(c.op)] else []) + [Closed(c.op)])
  }

  /** How a successful operation ends: with the mapped parent object, with None without a map, or the map raises. */
  function Mapped(config: Config, parent: Obj): (r: Result)
    ensures !r.Yielded?
  {
    if config.returnMap.None? then Exhausted(None)
    else
      match config.returnMap.value(parent)
      case Value(obj) => Exhausted(Some(obj))
      case Throws(code) => Raised(code)
  }

  function Iterated(c: Cell, reply: Answer): (Cell, Result, seq<Event>) {
    if !c.parent.Live? then
      (c.(parent := Free), Exhausted(None), [Delivered(c.op)])
    else if !c.config.iterates then
      (Scheduled(c), Yielded, [])
    else
      var c' := c.(state := reply.state);
      match reply.err
      case Again => (c', Yielded, [Ran(c.op)])
      case Failure(code) => (c', Raised(code), [Ran(c.op), Failed(c.op)])
      case Success =>
        var r := Mapped(c.config, c.parent.obj);
        if r.Raised? then (c', r, [Ran(c.op), Failed(c.op)])
        else (c'.(parent := Free), r, [Ran(c.op), Delivered(c.op)])
  }

  // ----- All objects -----

  /** heap: every awaitable ever allocated; slots: the `prev` pointer of each resource. */
  datatype World = World(heap: seq<Cell>, slots: map<nat, nat>, ops: nat, log: seq<Event>)

  datatype Command =
    | Create(slot: Option<nat>, config: Config, stopPrev: bool)
    | Iterate(addr: nat, reply: Answer)
    | Close(addr: nat, callback: Callback)
    | ScheduleStop(target: Option<nat>)

  const START := World([], map[], 0, [])

  ghost predicate WellFormed(w: World) {
    forall s :: s in w.slots ==> w.slots[s] < |w.heap|
  }

  function Prev(slots: map<nat, nat>, slot: Option<nat>): Option<nat> {
    if slot.Some? && slot.value in slots then Some(slots[slot.value]) else None
  }

  /** Safe to call with no target, or on one that is already complete. */
  function StopAt(w: World, target: Option<nat>): World {
    if target.None? || target.value >= |w.heap| || w.heap[target.value].parent.Free? then w
    else
      var c := w.heap[target.value];
      w.(heap := w.heap[target.value := Scheduled(c)], log := w.log + [Stopped(c.op)])
  }

  /** Where the new operation is stored: in the slot's object if that is free, else in a new one. */
  function Place(w: World, slot: Option<nat>): (addr: nat)
    requires WellFormed(w)
    ensures addr <= |w.heap|
  {
    var prev := Prev(w.slots, slot);
    if prev.Some? && w.heap[prev.value].parent.Free? then prev.value else |w.heap|
  }

  function Put(heap: seq<Cell>, addr: nat, c: Cell): seq<Cell>
    requires addr <= |heap|
  {
    if addr == |heap| then heap + [c] else heap[addr := c]
  }

  /** Stores a new operation and remembers it in the slot. */
  function Placed(w: World, slot: Option<nat>, config: Config): (w': World)
    requires WellFormed(w)
    ensures WellFormed(w')
  {
    var addr := Place(w, slot);
    World(Put(w.heap, addr, NewCell(config, w.ops, slot)),
          if slot.Some? then w.slots[slot.value := addr] else w.slots,
          w.ops + 1,
          w.log + [Created(w.ops, slot, addr)])
  }

  /** pb_type_async_wait_or_await with the run loop active. */
  function CreateAt(w: World, slot: Option<nat>, config: Config, stopPrev: bool): (w': World)
    requires WellFormed(w)
    ensures WellFormed(w')
  {
    Placed(if stopPrev then StopAt(w, Prev(w.slots, slot)) else w, slot, config)
  }

  function Step(w: World, c: Command): (w': World)
    requires WellFormed(w)
    ensures WellFormed(w')
  {
    match c
    case Create(slot, config, stopPrev) => CreateAt(w, slot, config, stopPrev)
    case ScheduleStop(target) => StopAt(w, target)
    case Iterate(addr, reply) =>
      if addr >= |w.heap| then w
      else
        var (cell, _, events) := Iterated(w.heap[addr], reply);
        w.(heap := w.heap[addr := cell], log := w.log + events)
    case Close(addr, callback) =>
      if addr >= |w.heap| then w
      else
        var (cell, events) := Closing(w.heap[addr], callback);
        w.(heap := w.heap[addr := cell], log := w.log + events)
  }

  function Run(cs: seq<Command>): (w: World)
    ensures WellFormed(w)
  {
    if cs == [] then START else Step(Run(cs[..|cs| - 1]), cs[|cs| - 1])
  }

  // ----- What every run keeps -----

  /** The event ends operation o: afterwards it may neither run nor touch the hardware. */
  predicate Ends(e: Event, o: nat) {
    e == Stopped(o) || e == Delivered(o) || e == Closed(o) || e == Fired(o)
  }

  /** The event is a call of the close callback of operation o. */
  predicate Calls(e: Event, o: nat) {
    e == Fired(o) || e == Broke(o)
  }

  /** The event is operation o driving the hardware. */
  predicate Acts(e: Event, o: nat) {
    e == Ran(o) || Calls(e, o)
  }

  ghost predicate HistorySafe(log: seq<Event>) {
    forall i, j, o :: 0 <= i < j < |log| && Ends(log[i], o) ==> !Acts(log[j], o)
  }

  predicate CreatedIn(e: Event, s: nat) {
    e.Created? && e.slot == Some(s)
  }

  /** Once a slot got a newer operation the older one never acts again. */
  ghost predicate NewestWins(log: seq<Event>, s: nat) {
    forall i, j, k :: 0 <= i < j < k < |log| && CreatedIn(log[i], s) && CreatedIn(log[j], s) ==>
        !Acts(log[k], log[i].op)
  }

  /** The caller of operation o has been told it is over, or has itself closed it. */
  predicate Finished(log: seq<Event>, o: nat) {
    Delivered(o) in log || Closed(o) in log
  }

  /** No object holds a running operation o. */
  ghost predicate Dead(heap: seq<Cell>, o: nat) {
    forall a :: 0 <= a < |heap| && heap[a].op == o ==> !heap[a].parent.Live?
  }

  /** Operation numbers are unique and events only mention numbers already given out. */
  ghost predicate OpsUnique(w: World) {
    && (forall a :: 0 <= a < |w.heap| ==> w.heap[a].op < w.ops)
    && (forall a, b :: 0 <= a < b < |w.heap| ==> w.heap[a].op != w.heap[b].op)
    && (forall i :: 0 <= i < |w.log| ==> w.log[i].op < w.ops)
  }

  /** An object holding an operation is the one recorded when the operation was created. */
  ghost predicate Recorded(w: World) {
    forall i, a :: 0 <= i < |w.log| && 0 <= a < |w.heap| && w.log[i].Created? && w.log[i].op == w.heap[a].op ==>
                     w.log[i].slot == w.heap[a].slot && w.log[i].addr == a
  }

  ghost predicate EndedAreDead(w: World) {
    forall i, o :: 0 <= i < |w.log| && Ends(w.log[i], o) ==> Dead(w.heap, o)
  }

  /** Slots used only with stop_prev: the live operation of the slot is the one it points to. */
  ghost predicate OnlyPrevLive(w: World, s: nat) {
    forall a :: 0 <= a < |w.heap| && w.heap[a].slot == Some(s) && w.heap[a].parent.Live? ==>
        s in w.slots && w.slots[s] == a
  }

  /** Slots point to objects created through them; two slots never share an object. */
  ghost predicate SlotsOwn(w: World) {
    forall s :: s in w.slots ==> w.slots[s] < |w.heap| && w.heap[w.slots[s]].slot == Some(s)
  }

  ghost predicate OlderAreDead(w: World, s: nat) {
    forall i, j :: 0 <= i < j < |w.log| && CreatedIn(w.log[i], s) && CreatedIn(w.log[j], s) ==>
        Dead(w.heap, w.log[i].op)
  }

  /** Every operation in the log is still in its object until its caller knows it is over. */
  ghost predicate NotStolen(w: World) {
    forall i :: 0 <= i < |w.log| && w.log[i].Created? ==>
                  w.log[i].addr < |w.heap| && (w.heap[w.log[i].addr].op == w.log[i].op || Finished(w.log, w.log[i].op))
  }

  ghost predicate FreeAreFinished(w: World) {
    forall a :: 0 <= a < |w.heap| && w.heap[a].parent.Free? ==> Finished(w.log, w.heap[a].op)
  }

  /** An operation leaves the live state only by being finished or stopped, or by its single yield. */
  ghost predicate NotLost(w: World) {
    forall a :: 0 <= a < |w.heap| && w.heap[a].config.iterates && !w.heap[a].parent.Live? ==>
                  Finished(w.log, w.heap[a].op) || Stopped(w.heap[a].op) in w.log
  }

  ghost predicate Inv(w: World) {
    && WellFormed(w) && OpsUnique(w) && Recorded(w) && EndedAreDead(w) && SlotsOwn(w)
    && HistorySafe(w.log) && NotStolen(w) && FreeAreFinished(w) && NotLost(w)
  }

  ghost predicate SlotInv(w: World, s: nat) {
    OnlyPrevLive(w, s) && OlderAreDead(w, s) && NewestWins(w.log, s)
  }

  /** What a call on one object may do: its events are about its own operation, only a live operation acts, ... */
  ghost predicate LocalStep(c: Cell, c': Cell, events: seq<Event>) {
    && c'.op == c.op && c'.slot == c.slot && c'.config == c.config
    && (c'.parent.Live? ==> c.parent.Live?)
    && (forall i :: 0 <= i < |events| ==> events[i].op == c.op && !events[i].Created?)
    && (forall i, o :: 0 <= i < |events| && Acts(events[i], o) ==> c.parent.Live?)
    && (forall i, o :: 0 <= i < |events| && Ends(events[i], o) ==> !c'.parent.Live?)
    && HistorySafe(events)
    && (c'.parent.Free? ==> c.parent.Free? || Finished(events, c.op))
    && (c.parent.Live? && c.config.iterates && !c'.parent.Live? ==> Finished(events, c.op) || Stopped(c.op) in events)
  }

  lemma IteratingIsLocal(c: Cell, reply: Answer)
    ensures LocalStep(c, Iterated(c, reply).0, Iterated(c, reply).2)
  {
    var events := Iterated(c, reply).2;
    assert events != [] ==> events[|events| - 1] in events;
  }

  lemma ClosingIsLocal(c: Cell, callback: Callback)
    ensures LocalStep(c, Closing(c, callback).0, Closing(c, callback).1)
  {
    var events := Closing(c, callback).1;
    assert events[|events| - 1] in events;
  }

  /** What any call on one object keeps to. */
  lemma CellCallsAreLocal(c: Cell, reply: Answer, callback: Callback)
    ensures LocalStep(c, Iterated(c, reply).0, Iterated(c, reply).2)
    ensures LocalStep(c, Closing(c, callback).0, Closing(c, callback).1)
    ensures !c.parent.Free? ==> LocalStep(c, Scheduled(c), [Stopped(c.op)])
  {
    IteratingIsLocal(c, reply);
    ClosingIsLocal(c, callback);
    assert [Stopped(c.op)][0] in [Stopped(c.op)];
  }

  function Update(w: World, addr: nat, c: Cell, events: seq<Event>): World
    requires addr < |w.heap|
  {
    w.(heap := w.heap[addr := c], log := w.log + events)
  }

  lemma UpdateKeepsStories(w: World, addr: nat, c: Cell, events: seq<Event>)
    requires OpsUnique(w) && NotStolen(w) && FreeAreFinished(w) && NotLost(w)
    requires addr < |w.heap| && LocalStep(w.heap[addr], c, events)
    ensures var v := Update(w, addr, c, events); NotStolen(v) && FreeAreFinished(v) && NotLost(v)
  {
    var v := Update(w, addr, c, events);
    assert forall e :: e in w.log ==> e in v.log;
    assert forall e :: e in events ==> e in v.log;
  }

  lemma UpdateKeepsInv(w: World, addr: nat, c: Cell, events: seq<Event>)
    requires Inv(w) && addr < |w.heap| && LocalStep(w.heap[addr], c, events)
    ensures Inv(Update(w, addr, c, events))
  {
    UpdateKeepsStories(w, addr, c, events);
    UpdateKeepsDead(w, addr, c, events);
  }

  lemma UpdateKeepsDead(w: World, addr: nat, c: Cell, events: seq<Event>)
    requires OpsUnique(w) && EndedAreDead(w) && addr < |w.heap| && LocalStep(w.heap[addr], c, events)
    ensures EndedAreDead(Update(w, addr, c, events))
    ensures HistorySafe(w.log) ==> HistorySafe(w.log + events)
    ensures forall o :: Dead(w.heap, o) ==> Dead(w.heap[addr := c], o)
  {
    var v := Update(w, addr, c, events);
    forall i, o | 0 <= i < |v.log| && Ends(v.log[i], o)
      ensures Dead(v.heap, o)
    {
      if i < |w.log| {
        assert Dead(w.heap, o);
      } else {
        assert v.log[i] == events[i - |w.log|];
      }
    }
    if HistorySafe(w.log) {
      forall i, j, o | 0 <= i < j < |v.log| && Ends(v.log[i], o)
        ensures !Acts(v.log[j], o)
      {
        if j >= |w.log| {
          assert v.log[j] == events[j - |w.log|];
          if i < |w.log| {
            assert Dead(w.heap, o);
          } else {
            assert v.log[i] == events[i - |w.log|];
          }
        }
      }
    }
  }

  lemma UpdateKeepsSlot(w: World, addr: nat, c: Cell, events: seq<Event>, s: nat)
    requires Inv(w) && SlotInv(w, s) && addr < |w.heap| && LocalStep(w.heap[addr], c, events)
    ensures SlotInv(Update(w, addr, c, events), s)
  {
    UpdateKeepsDead(w, addr, c, events);
    var v := Update(w, addr, c, events);
    assert forall m :: |w.log| <= m < |v.log| ==> v.log[m] == events[m - |w.log|];
    forall i, j | 0 <= i < j < |v.log| && CreatedIn(v.log[i], s) && CreatedIn(v.log[j], s)
      ensures Dead(v.heap, v.log[i].op)
      ensures forall k :: j < k < |v.log| ==> !Acts(v.log[k], v.log[i].op)
    {
      assert j < |w.log|;
      assert Dead(w.heap, w.log[i].op);
    }
  }

  lemma PlacedKeepsUnique(w: World, slot: Option<nat>, config: Config)
    requires WellFormed(w) && OpsUnique(w)
    ensures OpsUnique(Placed(w, slot, config))
  {
  }

  lemma PlacedKeepsRecorded(w: World, slot: Option<nat>, config: Config)
    requires WellFormed(w) && OpsUnique(w) && Recorded(w)
    ensures Recorded(Placed(w, slot, config))
  {
  }

  lemma PlacedKeepsOwn(w: World, slot: Option<nat>, config: Config)
    requires WellFormed(w) && SlotsOwn(w)
    ensures SlotsOwn(Placed(w, slot, config))
  {
  }

  lemma PlacedKeepsDead(w: World, slot: Option<nat>, config: Config)
    requires WellFormed(w) && OpsUnique(w) && EndedAreDead(w) && HistorySafe(w.log)
    ensures var v := Placed(w, slot, config); EndedAreDead(v) && HistorySafe(v.log)
  {
    var v := Placed(w, slot, config);
    forall i, o | 0 <= i < |v.log| && Ends(v.log[i], o)
      ensures Dead(v.heap, o)
    {
      assert v.log[i] == w.log[i];
      assert Dead(w.heap, o);
    }
  }

  lemma PlacedKeepsStories(w: World, slot: Option<nat>, config: Config)
    requires WellFormed(w) && OpsUnique(w) && Recorded(w) && NotStolen(w) && FreeAreFinished(w) && NotLost(w)
    ensures var v := Placed(w, slot, config); NotStolen(v) && FreeAreFinished(v) && NotLost(v)
  {
    var v := Placed(w, slot, config);
    assert forall x :: x in w.log ==> x in v.log;
    var addr := Place(w, slot);
    if addr < |w.heap| {
      assert Finished(w.log, w.heap[addr].op);
    }
  }

  lemma PlacedKeepsInv(w: World, slot: Option<nat>, config: Config)
    requires Inv(w)
    ensures Inv(Placed(w, slot, config))
  {
    PlacedKeepsUnique(w, slot, config);
    PlacedKeepsRecorded(w, slot, config);
    PlacedKeepsOwn(w, slot, config);
    PlacedKeepsDead(w, slot, config);
    PlacedKeepsStories(w, slot, config);
  }

  lemma PlacedKeepsSlot(w: World, slot: Option<nat>, config: Config, s: nat)
    requires Inv(w) && SlotInv(w, s)
    requires slot == Some(s) ==> forall a :: 0 <= a < |w.heap| && w.heap[a].slot == Some(s) ==> !w.heap[a].parent.Live?
    ensures SlotInv(Placed(w, slot, config), s)
  {
    PlacedKeepsOlderDead(w, slot, config, s);
    var log := Placed(w, slot, config).log;
    forall i, j, k | 0 <= i < j < k < |log| && CreatedIn(log[i], s) && CreatedIn(log[j], s)
      ensures !Acts(log[k], log[i].op)
    {
      assert log[i] == w.log[i] && log[j] == w.log[j];
    }
  }

  lemma PlacedKeepsOlderDead(w: World, slot: Option<nat>, config: Config, s: nat)
    requires WellFormed(w) && OpsUnique(w) && Recorded(w) && OnlyPrevLive(w, s) && OlderAreDead(w, s)
    requires slot == Some(s) ==> forall a :: 0 <= a < |w.heap| && w.heap[a].slot == Some(s) ==> !w.heap[a].parent.Live?
    ensures OlderAreDead(Placed(w, slot, config), s)
  {
    var v := Placed(w, slot, config);
    forall i, j | 0 <= i < j < |v.log| && CreatedIn(v.log[i], s) && CreatedIn(v.log[j], s)
      ensures Dead(v.heap, v.log[i].op)
    {
      assert v.log[i] == w.log[i];
      assert j < |w.log| ==> Dead(w.heap, w.log[i].op);
    }
  }

  predicate UsesStopPrev(c: Command, s: nat) {
    c.Create? && c.slot == Some(s) ==> c.stopPrev
  }

  lemma UpdateKeepsAll(w: World, addr: nat, c: Cell, events: seq<Event>)
    requires Inv(w) && addr < |w.heap| && LocalStep(w.heap[addr], c, events)
    ensures Inv(Update(w, addr, c, events))
    ensures forall s :: SlotInv(w, s) ==> SlotInv(Update(w, addr, c, events), s)
  {
    UpdateKeepsInv(w, addr, c, events);
    forall s | SlotInv(w, s)
      ensures SlotInv(Update(w, addr, c, events), s)
    {
      UpdateKeepsSlot(w, addr, c, events, s);
    }
  }

  lemma StopAtKeepsAll(w: World, target: Option<nat>)
    requires Inv(w)
    ensures Inv(StopAt(w, target))
    ensures forall s :: SlotInv(w, s) ==> SlotInv(StopAt(w, target), s)
  {
    if target.Some? && target.value < |w.heap| && !w.heap[target.value].parent.Free? {
      var c := w.heap[target.value];
      CellCallsAreLocal(c, Answer(Again, 0), Callback(false, false));
      UpdateKeepsAll(w, target.value, Scheduled(c), [Stopped(c.op)]);
    }
  }

  lemma CreateKeepsAll(w: World, slot: Option<nat>, config: Config, stopPrev: bool)
    requires Inv(w)
    ensures Inv(CreateAt(w, slot, config, stopPrev))
    ensures forall s :: SlotInv(w, s) && UsesStopPrev(Create(slot, config, stopPrev), s) ==>
                          SlotInv(CreateAt(w, slot, config, stopPrev), s)
  {
    StopAtKeepsAll(w, Prev(w.slots, slot));
    var v := if stopPrev then StopAt(w, Prev(w.slots, slot)) else w;
    PlacedKeepsInv(v, slot, config);
    forall s | SlotInv(w, s) && UsesStopPrev(Create(slot, config, stopPrev), s)
      ensures SlotInv(Placed(v, slot, config), s)
    {
      PlacedKeepsSlot(v, slot, config, s);
    }
  }

  lemma StepKeepsInv(w: World, c: Command)
    requires Inv(w)
    ensures Inv(Step(w, c))
    ensures forall s :: SlotInv(w, s) && UsesStopPrev(c, s) ==> SlotInv(Step(w, c), s)
  {
    match c
    case ScheduleStop(target) => StopAtKeepsAll(w, target);
    case Create(slot, config, stopPrev) => CreateKeepsAll(w, slot, config, stopPrev);
    case Iterate(addr, reply) =>
      if addr < |w.heap| {
        CellCallsAreLocal(w.heap[addr], reply, Callback(false, false));
        UpdateKeepsAll(w, addr, Iterated(w.heap[addr], reply).0, Iterated(w.heap[addr], reply).2);
      }
    case Close(addr, callback) =>
      if addr < |w.heap| {
        CellCallsAreLocal(w.heap[addr], Answer(Again, 0), callback);
        UpdateKeepsAll(w, addr, Closing(w.heap[addr], callback).0, Closing(w.heap[addr], callback).1);
      }
  }

  // ----- Every run -----

  lemma {:induction false} RunKeepsInv(cs: seq<Command>)
    ensures Inv(Run(cs))
    ensures forall s :: (forall i :: 0 <= i < |cs| ==> UsesStopPrev(cs[i], s)) ==> SlotInv(Run(cs), s)
  {
    if cs != [] {
      RunKeepsInv(cs[..|cs| - 1]);
      StepKeepsInv(Run(cs[..|cs| - 1]), cs[|cs| - 1]);
    }
  }

  /**
    New operation wins. In every run whose creations through slot s ask to stop the previous
    operation, the only live operation of the slot is in the object the slot points to, and
    once a newer operation exists an older one never runs and never touches the hardware.
   */
  lemma NewOperationWins(cs: seq<Command>, s: nat)
    requires forall i :: 0 <= i < |cs| ==> UsesStopPrev(cs[i], s)
    ensures OnlyPrevLive(Run(cs), s)
    ensures NewestWins(Run(cs).log, s)
  {
    RunKeepsInv(cs);
    var w := Run(cs);
    assert SlotInv(w, s);
  }

  /** Without stop_prev both the old and the new operation of a slot stay live. */
  lemma WithoutStopPrevTwoLive(config: Config, s: nat)
    ensures var w := Run([Create(Some(s), config, false), Create(Some(s), config, false)]);
            |w.heap| == 2 && w.heap[0].parent.Live? && w.heap[1].parent.Live? &&
                w.heap[0].slot == w.heap[1].slot == Some(s)
  {
    var c := Create(Some(s), config, false);
    assert [c, c][..1] == [c] && [c][..0] == [];
    assert Run([c]) == Step(START, c);
    assert Run([c, c]) == Step(Run([c]), c);
  }

  /**
    No operation acts after it was stopped, exhausted or successfully closed. Its close callback is called
    a second time only if all calls before raised: it returns at most once. Holds for any interleaving of any calls.
   */
  lemma OverIsOver(cs: seq<Command>, o: nat)
    ensures HistorySafe(Run(cs).log)
    ensures forall i, j :: 0 <= i < j < |Run(cs).log| && Calls(Run(cs).log[i], o) && Calls(Run(cs).log[j], o) ==>
                             Run(cs).log[i] == Broke(o)
  {
    RunKeepsInv(cs);
    var log := Run(cs).log;
    forall i, j | 0 <= i < j < |log| && Calls(log[i], o) && Calls(log[j], o)
      ensures log[i] == Broke(o)
    {
      assert Acts(log[j], o);
      assert !Ends(log[i], o);
    }
  }

  /** The object is freed by closing it exactly when its callback was not called or did not raise. */
  lemma ClosingFreesIff(c: Cell, callback: Callback)
    ensures Closing(c, callback).0.parent.Free? <==> !(CallsBack(c) && callback.raises)
    ensures Closed(c.op) in Closing(c, callback).1 <==> Closing(c, callback).0.parent.Free?
    ensures CallsBack(c) && callback.raises ==>
              Closing(c, callback).0.parent == if callback.stops then Stopping else c.parent
  {
    var events := Closing(c, callback).1;
    assert events[|events| - 1] in events;
  }

  /** A callback that raises is called again by the next close, and the operation still runs in between. */
  lemma RaisingCallbackIsRepeated(config: Config, slot: Option<nat>)
    requires config.closes && config.iterates
    ensures var broken := Close(0, Callback(false, true));
            Run([Create(slot, config, true), broken, Iterate(0, Answer(Again, 0)), broken]).log ==
            [Created(0, slot, 0), Broke(0), Ran(0), Broke(0)]
  {
    var create, broken := Create(slot, config, true), Close(0, Callback(false, true));
    var iterate := Iterate(0, Answer(Again, 0));
    assert [create, broken, iterate, broken][..3] == [create, broken, iterate];
    assert [create, broken, iterate][..2] == [create, broken];
    assert [create, broken][..1] == [create] && [create][..0] == [];
    assert Run([create]) == Step(START, create);
    assert Run([create, broken]) == Step(Run([create]), broken);
    assert Run([create, broken, iterate]) == Step(Run([create, broken]), iterate);
  }

  /**
    Recycling never steals a completion. Until operation o has delivered StopIteration or been
    closed, the object it was created in still holds it, and holds it live unless someone
    stopped it or it was a bare single yield.
   */
  lemma NeverStolen(cs: seq<Command>, o: nat, slot: Option<nat>, addr: nat)
    requires Created(o, slot, addr) in Run(cs).log
    requires !Finished(Run(cs).log, o)
    ensures addr < |Run(cs).heap| && Run(cs).heap[addr].op == o
    ensures Run(cs).heap[addr].config.iterates && Stopped(o) !in Run(cs).log ==> Run(cs).heap[addr].parent.Live?
  {
    RunKeepsInv(cs);
  }

  /** So a caller that only uses handles it has not seen end gets the events of its own operation. */
  lemma OwnHandleOwnEvents(cs: seq<Command>, o: nat, slot: Option<nat>, addr: nat, reply: Answer)
    requires Created(o, slot, addr) in Run(cs).log
    requires !Finished(Run(cs).log, o)
    ensures addr < |Run(cs).heap|
    ensures var w := Run(cs + [Iterate(addr, reply)]);
            && Run(cs).log <= w.log
            && (forall i :: |Run(cs).log| <= i < |w.log| ==> w.log[i].op == o)
            && (Iterated(Run(cs).heap[addr], reply).1.Exhausted? <==> Delivered(o) in w.log)
  {
    NeverStolen(cs, o, slot, addr);
    var w := Run(cs);
    var next := cs + [Iterate(addr, reply)];
    assert next[..|next| - 1] == cs;
    var events := Iterated(w.heap[addr], reply).2;
    assert Run(next).log == w.log + events;
    assert forall i :: |w.log| <= i < |w.log + events| ==> (w.log + events)[i] == events[i - |w.log|];
    assert events != [] ==> events[|events| - 1] in w.log + events;
  }

  /** Iterating an object frees it exactly when the caller is told that it is exhausted: if the operation
      or its return map raises, it stays as it is, and the next iteration runs it again. */
  lemma FreedExactlyWhenTold(c: Cell, reply: Answer)
    ensures Iterated(c, reply).0.parent.Free? <==> Iterated(c, reply).1.Exhausted?
    ensures Iterated(c, reply).1.Raised? ==> Iterated(c, reply).0.parent == c.parent && c.parent.Live?
    ensures Iterated(c, reply).1.Raised? <==>
              && c.parent.Live? && c.config.iterates
              && (reply.err.Failure? || (reply.err.Success? && Mapped(c.config, c.parent.obj).Raised?))
  {
  }

  // ----- What the caller is told -----

  /** An object that is stopped or free answers any iteration with exhaustion, and is free. */
  lemma NotLiveIsExhausted(c: Cell, reply: Answer)
    requires !c.parent.Live?
    ensures var (after, r, events) := Iterated(c, reply);
            r == Exhausted(None) && after.parent.Free? && events == [Delivered(c.op)]
  {
  }

  /** A live operation reports what its driver and its return map say; without iter_once it yields once and is over. */
  lemma LiveReportsReply(c: Cell, reply: Answer)
    requires c.parent.Live?
    ensures var (after, r, events) := Iterated(c, reply);
            if !c.config.iterates then
              r == Yielded && Ran(c.op) !in events && Iterated(after, reply).1 == Exhausted(None)
            else
              && Ran(c.op) in events && after.state == reply.state
              && match reply.err
                 case Again => r == Yielded && after.parent == c.parent
                 case Failure(code) => r == Raised(code) && after.parent == c.parent
                 case Success =>
                   if c.config.returnMap.None? then r == Exhausted(None)
                   else match c.config.returnMap.value(c.parent.obj)
                     case Value(obj) => r == Exhausted(Some(obj))
                     case Throws(code) => r == Raised(code)
  {
    var events := Iterated(c, reply).2;
    assert c.config.iterates ==> events[0] == Ran(c.op);
  }

  /**
    A stopped operation is never lost: in every run, if operation o was stopped and its caller does not know yet that
    it is over, the next iteration of its object tells it, frees the object and does not run the operation.
   */
  lemma StoppedIsDelivered(cs: seq<Command>, o: nat, slot: Option<nat>, addr: nat, reply: Answer)
    requires Created(o, slot, addr) in Run(cs).log && Stopped(o) in Run(cs).log && !Finished(Run(cs).log, o)
    ensures IsTold(cs, o, addr, reply)
  {
    RunKeepsInv(cs);
    NeverStolen(cs, o, slot, addr);
    var i :| 0 <= i < |Run(cs).log| && Run(cs).log[i] == Stopped(o);
    assert Ends(Run(cs).log[i], o) && Dead(Run(cs).heap, o);
    DeadIsTold(cs, o, addr, reply);
  }

  /** The next iteration of this object tells its caller that operation o is over. */
  ghost predicate IsTold(cs: seq<Command>, o: nat, addr: nat, reply: Answer) {
    var w, v := Run(cs), Run(cs + [Iterate(addr, reply)]);
    && addr < |w.heap| == |v.heap| && w.heap[addr].op == o
    && Iterated(w.heap[addr], reply).1 == Exhausted(None)
    && v.log == w.log + [Delivered(o)] && v.heap[addr].parent.Free?
  }

  lemma DeadIsTold(cs: seq<Command>, o: nat, addr: nat, reply: Answer)
    requires addr < |Run(cs).heap| && Run(cs).heap[addr].op == o && Dead(Run(cs).heap, o)
    ensures IsTold(cs, o, addr, reply)
  {
    NotLiveIsExhausted(Run(cs).heap[addr], reply);
    var next := cs + [Iterate(addr, reply)];
    assert next[..|next| - 1] == cs;
  }

  /**
    So is a superseded one: through a slot whose creations all ask to stop the previous operation, as soon as a newer
    operation exists the next iteration of the older one's object tells its caller that it is over.
   */
  lemma SupersededIsTold(cs: seq<Command>, s: nat, i: nat, j: nat, reply: Answer)
    requires forall k :: 0 <= k < |cs| ==> UsesStopPrev(cs[k], s)
    requires i < j < |Run(cs).log| && CreatedIn(Run(cs).log[i], s) && CreatedIn(Run(cs).log[j], s)
    requires !Finished(Run(cs).log, Run(cs).log[i].op)
    ensures IsTold(cs, Run(cs).log[i].op, Run(cs).log[i].addr, reply)
  {
    RunKeepsInv(cs);
    var w := Run(cs);
    var e := w.log[i];
    assert SlotInv(w, s);
    assert Dead(w.heap, e.op);
    NeverStolen(cs, e.op, e.slot, e.addr);
    DeadIsTold(cs, e.op, e.addr, reply);
  }

  /** Creating through a slot allocates exactly if the slot's object is missing or not free; else it is re-used. */
  lemma AllocatesIff(w: World, slot: Option<nat>, config: Config, stopPrev: bool)
    requires WellFormed(w)
    ensures var v, prev := CreateAt(w, slot, config, stopPrev), Prev(w.slots, slot);
            && |w.heap| <= |v.heap| <= |w.heap| + 1
            && (|v.heap| == |w.heap| <==> prev.Some? && w.heap[prev.value].parent.Free?)
            && (|v.heap| == |w.heap| ==> v.heap == w.heap[prev.value := NewCell(config, w.ops, slot)])
            && (slot.Some? ==> v.slots[slot.value] < |v.heap|)
            && (slot.Some? ==> v.heap[v.slots[slot.value]] == NewCell(config, w.ops, slot))
  {
  }
}
