/** StopWatch (pb_type_stopwatch): three wrapping 32-bit registers and a flag that measure running time. */
module Stopwatch {
  import opened Words

  datatype Command = Pause | Resume | Reset

  /** A command and the true time in milliseconds at which it is given. */
  datatype Timed = At(now: nat, command: Command)

  datatype Watch = Watch(start: nat, stop: nat, pausing: nat, running: bool)

  // ----- What the methods compute -----

  function ResetAt(w: Watch, now: nat): Watch {
    w.(start := Wrap(now), stop := Wrap(now), pausing := 0)
  }

  function PauseAt(w: Watch, now: nat): Watch {
    if w.running then w.(running := false, stop := Wrap(now)) else w
  }

  function ResumeAt(w: Watch, now: nat): Watch {
    if w.running then w else w.(running := true, pausing := Wrap(w.pausing + Wrap(Wrap(now) - w.stop)))
  }

  function TimeAt(w: Watch, now: nat): nat {
    Wrap(Wrap((if w.running then Wrap(now) else w.stop) - w.start) - w.pausing)
  }

  function MakeNew(now: nat): Watch {
    ResumeAt(ResetAt(Watch(0, 0, 0, false), now), now)
  }

  function Step(w: Watch, t: Timed): Watch {
    match t.command
    case Pause => PauseAt(w, t.now)
    case Resume => ResumeAt(w, t.now)
    case Reset => ResetAt(w, t.now)
  }

  function Run(created: nat, h: seq<Timed>): Watch {
    if h == [] then MakeNew(created) else Step(Run(created, h[..|h| - 1]), h[|h| - 1])
  }

  // ----- What they should measure -----

  /** Whether the watch runs after the commands h: it starts running, and only pause and resume change that. */
  predicate RunsAfter(h: seq<Timed>) {
    if h == [] then true
    else
      match h[|h| - 1].command
      case Pause => false
      case Resume => true
      case Reset => RunsAfter(h[..|h| - 1])
  }

  function LastTime(created: nat, h: seq<Timed>): nat {
    if h == [] then created else h[|h| - 1].now
  }

  predicate InOrder(created: nat, h: seq<Timed>) {
    h == [] || (InOrder(created, h[..|h| - 1]) && LastTime(created, h[..|h| - 1]) <= h[|h| - 1].now)
  }

  /** True running time since the last reset: the sum of the intervals between commands in which the watch ran. */
  function Elapsed(created: nat, h: seq<Timed>, now: nat): nat
    requires InOrder(created, h) && LastTime(created, h) <= now
    decreases |h|
  {
    var interval := if RunsAfter(h) then now - LastTime(created, h) else 0;
    if h == [] || h[|h| - 1].command == Reset then interval
    else Elapsed(created, h[..|h| - 1], h[|h| - 1].now) + interval
  }

  /** The registers encode the running time, modulo one turn of the clock. */
  predicate Encodes(w: Watch, running: bool, elapsed: int, now: int) {
    && w.running == running
    && Wrap(if w.running then now - w.start - w.pausing else w.stop - w.start - w.pausing) == Wrap(elapsed)
  }

  lemma StepEncodes(w: Watch, t: Timed, elapsed: int, last: int)
    requires Encodes(w, w.running, elapsed, last) && last <= t.now
    ensures var total := elapsed + if w.running then t.now - last else 0;
            Encodes(Step(w, t), Step(w, t).running, if t.command == Reset then 0 else total, t.now)
  {
    var gap := t.now - last;
    if w.running {
      WrapShift(last - w.start - w.pausing, elapsed, gap);
    }
    match t.command
    case Reset => WrapOfWrap(t.now, 0 - Wrap(t.now));
    case Pause =>
      if w.running {
        WrapOfWrap(t.now, 0 - w.start - w.pausing);
      }
    case Resume =>
      if !w.running {
        PausedResume(w, t.now);
      }
  }

  lemma PausedResume(w: Watch, now: int)
    ensures var pausing := Wrap(w.pausing + Wrap(Wrap(now) - w.stop));
            Wrap(now - w.start - pausing) == Wrap(w.stop - w.start - w.pausing)
  {
    var idle := Wrap(now) - w.stop;
    WrapOfWrap(w.pausing + Wrap(idle), now - w.start);
    WrapOfWrap(idle, now - w.start - w.pausing);
    WrapOfWrap(now, now - w.start - w.pausing + w.stop);
  }

  lemma {:induction false} RunEncodes(created: nat, h: seq<Timed>)
    requires InOrder(created, h)
    ensures Encodes(Run(created, h), RunsAfter(h), Elapsed(created, h, LastTime(created, h)), LastTime(created, h))
  {
    if h == [] {
      WrapOfWrap(created, created);
    } else {
      var p := h[..|h| - 1];
      RunEncodes(created, p);
      StepEncodes(Run(created, p), h[|h| - 1], Elapsed(created, p, LastTime(created, p)), LastTime(created, p));
    }
  }

  /**
    After any sequence of pause, resume and reset, redundant ones included, time() is the true
    running time since the last reset modulo 2^32, however often the clock has wrapped.
   */
  lemma TimeIsRunningTime(created: nat, h: seq<Timed>, now: nat)
    requires InOrder(created, h) && LastTime(created, h) <= now
    ensures TimeAt(Run(created, h), now) == Wrap(Elapsed(created, h, now))
  {
    RunEncodes(created, h);
    var w := Run(created, h);
    var last := LastTime(created, h);
    TimeDropsWraps(w, now);
    if w.running {
      WrapShift(last - w.start - w.pausing, Elapsed(created, h, last), now - last);
    }
  }

  lemma TimeDropsWraps(w: Watch, now: int)
    requires 0 <= now
    ensures TimeAt(w, now) == Wrap((if w.running then now else w.stop) - w.start - w.pausing)
  {
    var clock := if w.running then Wrap(now) else w.stop;
    WrapOfWrap(clock - w.start, w.pausing);
    WrapOfWrap(now, w.start + w.pausing);
  }

  // ----- The object -----

  class StopWatch {
    var timeStart: nat
    var timeStop: nat
    var timeSpentPausing: nat
    var running: bool

    function Value(): Watch
      reads this
    {
      Watch(timeStart, timeStop, timeSpentPausing, running)
    }

    constructor (now: nat)
      ensures Value() == MakeNew(now)
    {
      running := false;
      timeStart, timeStop, timeSpentPausing := 0, 0, 0;
      new;
      ResetNow(now);
      ResumeNow(now);
    }

    method ResetNow(now: nat)
      modifies this
      ensures Value() == ResetAt(old(Value()), now)
    {
      timeStart := Wrap(now);
      timeStop := timeStart;
      timeSpentPausing := 0;
    }

    method Time(now: nat) returns (t: nat)
      ensures t == TimeAt(Value(), now)
    {
      if running {
        t := Wrap(Wrap(Wrap(now) - timeStart) - timeSpentPausing);
      } else {
        t := Wrap(Wrap(timeStop - timeStart) - timeSpentPausing);
      }
    }

    method PauseNow(now: nat)
      modifies this
      ensures Value() == PauseAt(old(Value()), now)
    {
      if running {
        running := false;
        timeStop := Wrap(now);
      }
    }

    method ResumeNow(now: nat)
      modifies this
      ensures Value() == ResumeAt(old(Value()), now)
    {
      if !running {
        running := true;
        timeSpentPausing := Wrap(timeSpentPausing + Wrap(Wrap(now) - timeStop));
      }
    }
  }
}
