/** The static state of pb_module_tools: the run loop flag and the pool of wait awaitables. */
module Tools {
  import opened Words
  import opened Awaitable
  import opened AwaitableObjects
  import Multitask
  import opened MultitaskObjects
  import Waits

  /** The task goes on after its k-th iteration. */
  predicate GoesOn(plan: Multitask.Plan, pending: nat -> Option<nat>, k: nat) {
    k < plan.steps && pending(k).None?
  }

  /** What run_task() answers: whether a loop runs, RuntimeError, None, or the exception that ended the loop. */
  datatype RunResult = Active(flag: bool) | Refused | Completed | Aborted(exception: nat)

  class ToolsModule {
    var runLoopActive: bool
    /** The six static awaitables followed by those allocated because the pool was taken. */
    var waits: seq<Async>

    ghost predicate Valid()
      reads this
    {
      && Waits.POOL <= |waits|
      && forall i, j :: 0 <= i < j < |waits| ==> waits[i] != waits[j]
    }

    ghost function Cells(): (cells: seq<Cell>)
      reads this, waits
      ensures |cells| == |waits|
    {
      seq(|waits|, i requires 0 <= i < |waits| reads this, waits => waits[i].Value())
    }

    /** pb_module_tools_init. */
    constructor ()
      ensures Valid() && !runLoopActive && |waits| == Waits.POOL
      ensures forall i :: 0 <= i < |waits| ==> !Waits.Outstanding(Cells()[i])
    {
      var a := new Async.Zeroed();
      var b := new Async.Zeroed();
      var c := new Async.Zeroed();
      var d := new Async.Zeroed();
      var e := new Async.Zeroed();
      var f := new Async.Zeroed();
      waits, runLoopActive := [a, b, c, d, e, f], false;
    }

    /** pb_module_tools_wait with the run loop active. */
    method Wait(time: int, now: nat, ghost op: nat) returns (addr: nat)
      requires Valid() && runLoopActive
      modifies this`waits, waits
      ensures Valid()
      ensures Cells() == Waits.Step(old(Cells()), op, Waits.At(now, Waits.Wait(time)))
      ensures addr == Waits.PlaceFrom(old(Cells()), 0) && addr < |waits|
    {
      ghost var before := Cells();
      var reuse: Async? := null;
      addr := |waits|;
      var i := 0;
      while i < Waits.POOL && reuse == null
        invariant 0 <= i <= Waits.POOL
        invariant reuse == null ==> addr == |waits| && Waits.PlaceFrom(before, 0) == Waits.PlaceFrom(before, i)
        invariant reuse != null ==>
            addr < |waits| && reuse == waits[addr] && reuse.parent.Free? && addr == Waits.PlaceFrom(before, 0)
        decreases Waits.POOL - i, reuse == null
      {
        assert before[i] == waits[i].Value();
        if waits[i].parent == Free {
          reuse, addr := waits[i], i;
        } else {
          i := i + 1;
        }
      }
      var iter := Async.ReuseOrAllocate(Waits.WaitConfig(time, now), true, reuse, op, None);
      if addr == |waits| {
        waits := waits + [iter];
      }
      assert Cells() == Put(before, addr, NewCell(Waits.WaitConfig(time, now), op, None));
    }

    /** One iteration of a wait awaitable at true time now. */
    method Poll(addr: nat, now: nat, ghost op: nat) returns (r: Result)
      requires Valid() && addr < |waits|
      modifies waits
      ensures Valid() && waits == old(waits)
      ensures Cells() == Waits.Step(old(Cells()), op, Waits.At(now, Waits.Poll(addr)))
      ensures r == Iterated(old(Cells())[addr], Waits.WaitIterOnce(old(Cells())[addr].state, now)).1
    {
      ghost var before := Cells();
      var driver := new Driver((k: nat, state: int) => Waits.WaitIterOnce(state, now));
      ghost var events;
      r, events := waits[addr].IterNext(driver);
      assert Cells() == before[addr := waits[addr].Value()];
    }

    /** Closing a wait awaitable, as a cancelled task does. */
    method Cancel(addr: nat, now: nat, ghost op: nat)
      requires Valid() && addr < |waits|
      modifies waits
      ensures Valid() && waits == old(waits)
      ensures Cells() == Waits.Step(old(Cells()), op, Waits.At(now, Waits.Cancel(addr)))
    {
      ghost var before := Cells();
      ghost var raised, events := waits[addr].CloseIt(Waits.NO_CALLBACK);
      assert Cells() == before[addr := waits[addr].Value()];
    }

    /**
      pb_module_tools_run_task over any coroutine or awaitable. pending(k) is the exception, if any, found pending
      after its k-th iteration, counting all iterations of its life. Refuses to nest, ends with the first iteration
      that does not yield or is followed by a pending exception, and clears the flag also then.
     */
    method RunTask(task: Child?, pending: nat -> Option<nat>) returns (r: RunResult)
      modifies this`runLoopActive, task
      ensures task == null ==> r == Active(runLoopActive) && unchanged(this`runLoopActive)
      ensures task != null && old(runLoopActive) ==> r == Refused && runLoopActive && unchanged(task)
      ensures task != null && !old(runLoopActive) ==>
                var last := task.iterated - 1;
                && !runLoopActive && old(task.iterated) <= last && task.closed == old(task.closed)
                && (forall k :: old(task.iterated) <= k < last ==> GoesOn(task.plan, pending, k))
                && if last < task.plan.steps then pending(last).Some? && r == Aborted(pending(last).value)
                   else r == match task.plan.outcome case Raise(e) => Aborted(e) case Return(_) => Completed
    {
      if task == null {
        return Active(runLoopActive);
      }
      if runLoopActive {
        return Refused;
      }
      runLoopActive := true;
      var reply := task.Next();
      while reply == Reply.Yielded && pending(task.iterated - 1).None?
        invariant old(task.iterated) < task.iterated && task.closed == old(task.closed)
        invariant reply == Reply.Yielded <==> task.iterated <= task.plan.steps
        invariant forall k :: old(task.iterated) <= k < task.iterated - 1 ==> GoesOn(task.plan, pending, k)
        invariant reply.Threw? <==> task.iterated > task.plan.steps && task.plan.outcome.Raise?
        invariant reply.Threw? ==> reply.exception == task.plan.outcome.exception
        decreases task.plan.steps - task.iterated, reply == Reply.Yielded
      {
        reply := task.Next();
      }
      runLoopActive := false;
      r := match reply
        case Yielded => Aborted(pending(task.iterated - 1).value)
        case Threw(e) => Aborted(e)
        case StopIteration(_) => Completed;
    }
  }
}
