/** The multitask() object of pb_type_task, with its progress records updated in place. */
module MultitaskObjects {
  import opened Words
  import opened Multitask

  datatype Reply = Yielded | StopIteration(value: Option<Obj>) | Threw(exception: nat)

  /** A coroutine or awaitable handed to multitask(); it counts how it is used. */
  class Child {
    const plan: Plan
    var iterated: nat
    var closed: nat

    constructor (plan: Plan)
      ensures this.plan == plan && iterated == 0 && closed == 0
    {
      this.plan := plan;
      iterated, closed := 0, 0;
    }

    method Next() returns (r: Reply)
      modifies this`iterated
      ensures iterated == old(iterated) + 1
      ensures r == if old(iterated) < plan.steps then Yielded
                   else if plan.outcome.Raise? then Threw(plan.outcome.exception) else StopIteration(plan.outcome.value)
    {
      iterated := iterated + 1;
      if iterated <= plan.steps {
        return Yielded;
      }
      match plan.outcome
      case Raise(e) => return Threw(e);
      case Return(v) => return StopIteration(v);
    }

    method Close() returns (error: Option<nat>)
      modifies this`closed
      ensures closed == old(closed) + 1
      ensures error == if old(closed) < |plan.closing| then plan.closing[old(closed)] else None
    {
      error := if closed < |plan.closing| then plan.closing[closed] else None;
      closed := closed + 1;
    }
  }

  class Task {
    const children: seq<Child>
    const required: nat
    const done: array<bool>
    const returnVal: array<Option<Obj>>

    ghost predicate Valid()
      reads this
    {
      && done.Length == returnVal.Length == |children|
      && forall i, j :: 0 <= i < j < |children| ==> children[i] != children[j]
    }

    ghost function Tracks(): (ts: seq<Track>)
      requires Valid()
      reads this, done, returnVal, children
      ensures |ts| == |children|
    {
      seq(|children|, i requires 0 <= i < |children| && Valid() reads this, done, returnVal, children =>
        Track(children[i].plan, children[i].iterated, children[i].closed, done[i], returnVal[i]))
    }

    /** pb_type_Task_new. */
    constructor (children: seq<Child>, race: bool)
      requires forall i, j :: 0 <= i < j < |children| ==> children[i] != children[j]
      ensures Valid() && fresh(done) && fresh(returnVal)
      ensures this.children == children && required == if race then 1 else |children|
      ensures forall i :: 0 <= i < |children| ==>
                Tracks()[i] == Track(children[i].plan, children[i].iterated, children[i].closed, false, None)
    {
      this.children := children;
      required := if race then 1 else |children|;
      done := new bool[|children|](_ => false);
      returnVal := new Option<Obj>[|children|](_ => None);
    }

    /** pb_type_Task_close: closes every child that is not done, up to the first that raises. */
    method CloseUnfinished() returns (error: Option<nat>)
      requires Valid()
      modifies children
      ensures (Tracks(), error) == CloseAll(old(Tracks()))
    {
      for i := 0 to |children|
        invariant CloseFrom(Tracks(), i) == CloseAll(old(Tracks()))
      {
        ghost var ts := Tracks();
        if !done[i] {
          error := children[i].Close();
          assert Tracks() == ts[i := ts[i].(closed := ts[i].closed + 1)];
          if error.Some? {
            return;
          }
        }
      }
      error := None;
    }

    /** One turn of a child that is not done, recording its return value and completion. */
    method Turn(i: nat) returns (reply: Reply)
      requires Valid() && i < |children| && !done[i]
      modifies done, returnVal, children[i]
      ensures Tracks() == old(Tracks())[i := Advance(old(Tracks())[i])]
      ensures var t := old(Tracks())[i];
              reply == if StillYields(t) then Yielded
                       else if t.plan.outcome.Raise? then
                           Threw(t.plan.outcome.exception) else StopIteration(t.plan.outcome.value)
    {
      reply := children[i].Next();
      if reply.StopIteration? {
        if reply.value.Some? {
          returnVal[i] := reply.value;
        }
        done[i] := true;
      }
    }

    /** The exception handler of pb_type_Task_iternext. */
    method HandleException(exception: nat) returns (r: Round)
      requires Valid()
      modifies children
      ensures (Tracks(), r) == Handle(old(Tracks()), exception)
    {
      var error := CloseUnfinished();
      r := Raised(if error.Some? then error.value else exception);
    }

    /** pb_type_Task_iternext. */
    method Iternext() returns (r: Round)
      requires Valid()
      modifies done, returnVal, children
      ensures (Tracks(), r) == RunRound(old(Tracks()), required)
    {
      var total := 0;
      var i := 0;
      while i < |children|
        invariant 0 <= i <= |children|
        invariant RoundFrom(Tracks(), required, i, total) == Loop(old(Tracks()), required)
      {
        if done[i] {
          total := total + 1;
        } else {
          var reply := Turn(i);
          if reply.Threw? {
            r := HandleException(reply.exception);
            return;
          }
          if reply.StopIteration? {
            total := total + 1;
            if total >= required {
              r := Finish();
              return;
            }
          }
        }
        i := i + 1;
      }
      if total < required {
        return Ongoing;
      }
      r := Values();
    }

    /** Enough children are done: the others are closed, and the values are returned unless that raises. */
    method Finish() returns (r: Round)
      requires Valid()
      modifies children
      ensures (Tracks(), r) == Conclude(old(Tracks()), Enough)
    {
      var error := CloseUnfinished();
      if error.Some? {
        r := HandleException(error.value);
      } else {
        r := Values();
      }
    }

    method Values() returns (r: Round)
      requires Valid()
      ensures r == Finished(Results(Tracks()))
    {
      r := Finished(returnVal[..]);
      assert returnVal[..] == Results(Tracks());
    }
  }
}
