/**
  The drive command limiter of TechnicMoveHub (pb_type_technic_move_hub_drive): identical commands
  are repeated at most twice within half a second. An attempt is a write handed to the Bluetooth driver, which
  may refuse it.
 */
module DriveThrottle {
  import opened Words

  const MAX_REPEAT := 2
  const TIMEOUT := 500

  /** pbio_int_math_clamp. */
  function Clamp(x: int, limit: int): (r: int)
    requires limit >= 0
    ensures -limit <= r <= limit
    ensures -limit <= x <= limit ==> r == x
  {
    if x > limit then limit else if x < -limit then -limit else x
  }

  function ToByte(x: int): byte {
    x % 256
  }

  /** The two bytes of a drive command. */
  datatype Drive = Drive(speed: byte, steering: byte)

  function Encode(speed: int, steering: int): Drive {
    Drive(ToByte(Clamp(speed, 100)), ToByte(Clamp(steering, 97)))
  }

  /** Clamped requests are never confused with each other. */
  lemma EncodeIsInjective(speed: int, steering: int, speed': int, steering': int)
    ensures Encode(speed, steering) == Encode(speed', steering') <==>
            Clamp(speed, 100) == Clamp(speed', 100) && Clamp(steering, 97) == Clamp(steering', 97)
  {
  }

  /** A byte read as a signed number. */
  function SignedByte(b: byte): int {
    if b < 128 then b else b as int - 256
  }

  /** The number in the range that is nearest to the argument: itself, or the limit on its side. */
  predicate IsNearest(r: int, x: int, limit: int) {
    && -limit <= r <= limit && (-limit <= x <= limit ==> r == x)
    && (x > limit ==> r == limit) && (x < -limit ==> r == -limit)
  }

  /** The bytes mean the speed limited to 100 and the steering limited to 97, signs kept. */
  lemma EncodeMeans(speed: int, steering: int)
    ensures IsNearest(SignedByte(Encode(speed, steering).speed), speed, 100)
    ensures IsNearest(SignedByte(Encode(speed, steering).steering), steering, 97)
  {
  }

  /** data[0..2] and the timer. */
  datatype State = State(last: Drive, count: nat, start: nat)

  predicate Expired(s: State, now: nat) {
    HasPassed(Wrap(now), Wrap(s.start + TIMEOUT))
  }

  /** One call; the flag tells whether the command is handed to the driver. */
  function Call(s: State, cmd: Drive, now: nat): (State, bool) {
    var count := if cmd != s.last || Expired(s, now) then 0 else s.count;
    if count == MAX_REPEAT then (s.(count := count), false)
    else (State(cmd, if count + 1 < MAX_REPEAT then count + 1 else MAX_REPEAT, Wrap(now)), true)
  }

  /** A request, the true time in milliseconds at which it is made, and whether the driver would accept a write then. */
  datatype Request = Request(cmd: Drive, now: nat, accepted: bool)

  predicate InOrder(rs: seq<Request>) {
    forall i, j :: 0 <= i < j < |rs| ==> rs[i].now <= rs[j].now
  }

  /** The cleared data of a new connection; the timer holds whatever memory held. */
  function Connected(start: nat): State {
    State(Drive(0, 0), 0, Wrap(start))
  }

  function Run(start: nat, rs: seq<Request>): State {
    if rs == [] then Connected(start) else Call(Run(start, rs[..|rs| - 1]), rs[|rs| - 1].cmd, rs[|rs| - 1].now).0
  }

  /** The requests handed to the driver, in order. The state does not depend on whether it accepts them. */
  function Attempts(start: nat, rs: seq<Request>): seq<Request> {
    if rs == [] then []
    else
      var before := rs[..|rs| - 1];
      Attempts(start, before) +
      if Call(Run(start, before), rs[|rs| - 1].cmd, rs[|rs| - 1].now).1 then [rs[|rs| - 1]] else []
  }

  /** The timer can only have expired if the half second is really over. */
  lemma ExpiredMeansLater(s: State, sent: nat, now: nat)
    requires s.start == Wrap(sent) && sent <= now && Expired(s, now)
    ensures now >= sent + TIMEOUT
  {
    WrapOfWrap(sent, TIMEOUT);
    if now < sent + TIMEOUT {
      HasPassedIsTrueOrder(now, sent + TIMEOUT);
      assert false;
    }
  }

  /** The last requested command is the last one attempted. */
  lemma {:induction false} LastAttemptIsLastRequested(start: nat, rs: seq<Request>)
    requires rs != []
    ensures Run(start, rs).last == rs[|rs| - 1].cmd
    ensures Attempts(start, rs) != [] && Attempts(start, rs)[|Attempts(start, rs)| - 1].cmd == rs[|rs| - 1].cmd
    ensures Run(start, rs).count > 0
  {
    var before := rs[..|rs| - 1];
    if before != [] {
      LastAttemptIsLastRequested(start, before);
    }
  }

  /** A command that differs from the last one attempted is attempted at once. */
  lemma DifferentIsTriedAtOnce(start: nat, rs: seq<Request>, cmd: Drive, now: nat, accepted: bool)
    requires Attempts(start, rs) == [] || Attempts(start, rs)[|Attempts(start, rs)| - 1].cmd != cmd
    ensures Attempts(start, rs + [Request(cmd, now, accepted)]) == Attempts(start, rs) + [Request(cmd, now, accepted)]
  {
    var next := rs + [Request(cmd, now, accepted)];
    assert next[..|next| - 1] == rs;
    if rs != [] {
      LastAttemptIsLastRequested(start, rs);
    }
  }

  /** Any three consecutive attempts at the same command take at least the timeout. */
  ghost predicate Spaced(sent: seq<Request>) {
    forall i :: 0 <= i < |sent| - 2 && sent[i].cmd == sent[i + 1].cmd == sent[i + 2].cmd ==>
                  sent[i + 2].now - sent[i].now >= TIMEOUT
  }

  /** What the counter and the timer remember about the attempts so far. */
  ghost predicate Remembers(s: State, sent: seq<Request>, now: nat) {
    var n := |sent|;
    if n == 0 then s.count == 0 && s.last == Drive(0, 0)
    else
      && sent[n - 1].now <= now && s.start == Wrap(sent[n - 1].now) && s.last == sent[n - 1].cmd
      && 1 <= s.count <= MAX_REPEAT
      && (s.count == 1 && n >= 2 && sent[n - 2].cmd == sent[n - 1].cmd ==> sent[n - 1].now - sent[n - 2].now >= TIMEOUT)
      && (n >= 2 ==> sent[n - 2].now <= sent[n - 1].now)
  }

  function LastTime(rs: seq<Request>): nat {
    if rs == [] then 0 else rs[|rs| - 1].now
  }

  lemma SpacedAppend(sent: seq<Request>, r: Request)
    requires Spaced(sent)
    requires var n := |sent|;
             n >= 2 && sent[n - 2].cmd == sent[n - 1].cmd == r.cmd ==> r.now - sent[n - 2].now >= TIMEOUT
    ensures Spaced(sent + [r])
  {
  }

  lemma CallIsSpaced(s: State, sent: seq<Request>, last: nat, r: Request)
    requires Remembers(s, sent, last) && Spaced(sent) && last <= r.now
    ensures var (s', sending) := Call(s, r.cmd, r.now);
            var sent' := sent + if sending then [r] else [];
            Remembers(s', sent', r.now) && Spaced(sent')
  {
    if Call(s, r.cmd, r.now).1 {
      TriedIsRemembered(s, sent, last, r);
      SpacedAppend(sent, r);
    } else {
      assert sent + [] == sent;
    }
  }

  lemma TriedIsRemembered(s: State, sent: seq<Request>, last: nat, r: Request)
    requires Remembers(s, sent, last) && last <= r.now && Call(s, r.cmd, r.now).1
    ensures Remembers(Call(s, r.cmd, r.now).0, sent + [r], r.now)
    ensures var n := |sent|;
            n >= 2 && sent[n - 2].cmd == sent[n - 1].cmd == r.cmd ==> r.now - sent[n - 2].now >= TIMEOUT
  {
    var n := |sent|;
    if n > 0 && Expired(s, r.now) {
      ExpiredMeansLater(s, sent[n - 1].now, r.now);
    }
  }

  lemma {:induction false} RunIsSpaced(start: nat, rs: seq<Request>)
    requires InOrder(rs)
    ensures Spaced(Attempts(start, rs))
    ensures Remembers(Run(start, rs), Attempts(start, rs), LastTime(rs))
  {
    if rs != [] {
      var before, r := rs[..|rs| - 1], rs[|rs| - 1];
      assert InOrder(before);
      RunIsSpaced(start, before);
      CallIsSpaced(Run(start, before), Attempts(start, before), LastTime(before), r);
      var (s', sending) := Call(Run(start, before), r.cmd, r.now);
      assert Run(start, rs) == s';
      assert Attempts(start, rs) == Attempts(start, before) + if sending then [r] else [];
    }
  }

  /** Within a run of identical commands no three attempts fall inside a window shorter than the timeout. */
  lemma NoThreeTogether(start: nat, rs: seq<Request>, i: nat)
    requires InOrder(rs) && i + 2 < |Attempts(start, rs)|
    requires var sent := Attempts(start, rs); sent[i].cmd == sent[i + 1].cmd == sent[i + 2].cmd
    ensures Attempts(start, rs)[i + 2].now - Attempts(start, rs)[i].now >= 500
  {
    RunIsSpaced(start, rs);
    assert Spaced(Attempts(start, rs));
  }

  /**
    Suppression ends: a repeated command is attempted again once the timeout is over, up to half a turn of the clock
    later.
   */
  lemma RepeatedAfterTimeout(s: State, sent: nat, cmd: Drive, now: nat)
    requires s.start == Wrap(sent) && s.last == cmd && s.count == MAX_REPEAT
    requires sent <= now < sent + TIMEOUT + 0x7FFF_FFFF
    ensures Call(s, cmd, now).1 <==> now >= sent + TIMEOUT
  {
    WrapOfWrap(sent, TIMEOUT);
    HasPassedIsTrueOrder(now, sent + TIMEOUT);
  }

  /** In numbers: the limiter lets two equal requests through and then none until 500 ms after the second. */
  lemma TwiceThenNotUntil500(start: nat, cmd: Drive, first: nat, second: nat, third: nat, ok: bool)
    requires first <= second < first + 500 && second <= third < second + 500 + 0x7FFF_FFFF
    ensures var rs := [Request(cmd, first, ok), Request(cmd, second, ok), Request(cmd, third, ok)];
            IsTried(start, rs, 0) && IsTried(start, rs, 1) && (IsTried(start, rs, 2) <==> third >= second + 500)
  {
    var a, b, c := Request(cmd, first, ok), Request(cmd, second, ok), Request(cmd, third, ok);
    assert [a, b, c][..2] == [a, b] && [a, b, c][..1] == [a] && [a, b][..1] == [a] && [a, b, c][..0] == [a][..0] == [];
    WrapOfWrap(first, TIMEOUT);
    HasPassedIsTrueOrder(second, first + TIMEOUT);
    assert Run(start, [a]) == State(cmd, 1, Wrap(first));
    assert Run(start, [a, b]) == State(cmd, 2, Wrap(second));
    RepeatedAfterTimeout(Run(start, [a, b]), second, cmd, third);
  }

  // ----- What the hub obeys -----

  /** Request j is handed to the driver. */
  predicate IsTried(start: nat, rs: seq<Request>, j: nat) {
    j < |rs| && Call(Run(start, rs[..j]), rs[j].cmd, rs[j].now).1
  }

  predicate Succeeds(start: nat, rs: seq<Request>, j: nat) {
    IsTried(start, rs, j) && rs[j].accepted
  }

  /** The requests the driver accepted, in order. */
  function Delivered(start: nat, rs: seq<Request>): seq<Request> {
    if rs == [] then []
    else Delivered(start, rs[..|rs| - 1]) + if Succeeds(start, rs, |rs| - 1) then [rs[|rs| - 1]] else []
  }

  /** The command the hub was last given. */
  function Obeyed(start: nat, rs: seq<Request>): Option<Drive> {
    var delivered := Delivered(start, rs);
    if delivered == [] then None else Some(delivered[|delivered| - 1].cmd)
  }

  /** Since when the same command has been requested. */
  function LastChange(rs: seq<Request>): (k: nat)
    requires rs != []
    ensures k < |rs| && forall j :: k <= j < |rs| ==> rs[j].cmd == rs[|rs| - 1].cmd
    ensures k > 0 ==> rs[k - 1].cmd != rs[k].cmd
  {
    var n := |rs|;
    if n >= 2 && rs[n - 2].cmd == rs[n - 1].cmd then LastChange(rs[..n - 1]) else n - 1
  }

  /** The first request after a change is always handed to the driver. */
  lemma ChangeIsTried(start: nat, rs: seq<Request>)
    requires rs != []
    ensures IsTried(start, rs, LastChange(rs))
  {
    var k := LastChange(rs);
    if k > 0 {
      LastAttemptIsLastRequested(start, rs[..k]);
    }
  }

  lemma ObeyedStep(start: nat, rs: seq<Request>)
    requires rs != []
    ensures Obeyed(start, rs) ==
            if Succeeds(start, rs, |rs| - 1) then Some(rs[|rs| - 1].cmd) else Obeyed(start, rs[..|rs| - 1])
  {
  }

  ghost predicate SomeSucceeds(start: nat, rs: seq<Request>, from: nat) {
    exists j :: from <= j < |rs| && Succeeds(start, rs, j)
  }

  /**
    The hub was last given the command now requested if and only if an attempt since the request last changed
    succeeded, or the hub had been given the same command before and all attempts at others in between failed.
   */
  lemma {:induction false} ObeyedIff(start: nat, rs: seq<Request>)
    requires rs != []
    ensures Obeyed(start, rs) == Some(rs[|rs| - 1].cmd) <==>
              || SomeSucceeds(start, rs, LastChange(rs))
              || Obeyed(start, rs[..LastChange(rs)]) == Some(rs[|rs| - 1].cmd)
    decreases |rs|
  {
    var last, k := |rs| - 1, LastChange(rs);
    ObeyedStep(start, rs);
    SucceedsInPrefix(start, rs, k);
    if k < last {
      ObeyedIff(start, rs[..last]);
      assert rs[..last][..k] == rs[..k];
    }
  }

  lemma SucceedsInPrefix(start: nat, rs: seq<Request>, k: nat)
    requires k < |rs|
    ensures SomeSucceeds(start, rs, k) <==> SomeSucceeds(start, rs[..|rs| - 1], k) || Succeeds(start, rs, |rs| - 1)
  {
    var before := rs[..|rs| - 1];
    forall j | 0 <= j < |before|
      ensures Succeeds(start, before, j) <==> Succeeds(start, rs, j)
    {
      assert before[..j] == rs[..j];
    }
    if SomeSucceeds(start, rs, k) {
      var j :| k <= j < |rs| && Succeeds(start, rs, j);
      assert j < |before| ==> Succeeds(start, before, j);
    }
    if SomeSucceeds(start, before, k) {
      var j :| k <= j < |before| && Succeeds(start, before, j);
      assert Succeeds(start, rs, j);
    }
  }

  /** While the driver accepts every write, the hub always has the command last requested. */
  lemma AcceptedIsObeyed(start: nat, rs: seq<Request>)
    requires rs != [] && forall i :: 0 <= i < |rs| ==> rs[i].accepted
    ensures Obeyed(start, rs) == Some(rs[|rs| - 1].cmd)
  {
    ChangeIsTried(start, rs);
    assert Succeeds(start, rs, LastChange(rs));
    ObeyedIff(start, rs);
  }

  /** After two failed writes the third equal request is not even attempted, and nothing has been delivered. */
  lemma TwoFailuresLoseTheCommand(start: nat, cmd: Drive, now: nat, third: bool)
    ensures var rs := [Request(cmd, now, false), Request(cmd, now, false), Request(cmd, now, third)];
            Delivered(start, rs) == [] && !IsTried(start, rs, 2)
  {
    var failed := Request(cmd, now, false);
    var one, two, rs := [failed], [failed, failed], [failed, failed, Request(cmd, now, third)];
    assert rs[..2] == two && two[..1] == one && one[..0] == [];
    WrapOfWrap(now, TIMEOUT);
    HasPassedIsTrueOrder(now, now + TIMEOUT);
    assert Run(start, one) == State(cmd, 1, Wrap(now));
    assert Run(start, two) == State(cmd, 2, Wrap(now));
    assert !Succeeds(start, one, 0) && !Succeeds(start, two, 1) && !Succeeds(start, rs, 2);
    assert Delivered(start, rs) == Delivered(start, two) == Delivered(start, one) == [];
  }

  // ----- The object -----

  datatype Result = Sending | Skipped | WriteFailed

  class MoveHub {
    const data: array<byte>
    var timerStart: nat
    var timerDuration: nat
    /** The command bytes handed to the Bluetooth driver, and those of them it accepted, newest last. */
    ghost var tried: seq<seq<byte>>
    ghost var accepted: seq<seq<byte>>

    ghost predicate Valid()
      reads this, data
    {
      data.Length == 8 && data[2] <= MAX_REPEAT
    }

    function Value(): State
      requires data.Length == 8
      reads this, data
    {
      State(Drive(data[0], data[1]), data[2], timerStart)
    }

    constructor (start: nat, duration: nat)
      ensures Valid() && fresh(data) && Value() == Connected(start) && timerDuration == duration
      ensures tried == accepted == []
    {
      data := new byte[8](_ => 0);
      timerStart, timerDuration, tried, accepted := Wrap(start), duration, [], [];
    }

    static function Command(cmd: Drive): seq<byte> {
      [0x0d, 0x00, 0x81, 0x36, 0x11, 0x51, 0x00, 0x03, 0x00, cmd.speed, cmd.steering, 0, 0]
    }

    /** Thirteen bytes, as the first says, that carry the limited speed and steering in the tenth and eleventh. */
    static predicate IsDriveMessage(bytes: seq<byte>, speed: int, steering: int) {
      && |bytes| == 13 && bytes[..9] == [13, 0x00, 0x81, 0x36, 0x11, 0x51, 0x00, 0x03, 0x00] && bytes[11..] == [0, 0]
      && IsNearest(SignedByte(bytes[9]), speed, 100) && IsNearest(SignedByte(bytes[10]), steering, 97)
    }

    static lemma CommandMeans(speed: int, steering: int)
      ensures IsDriveMessage(Command(Encode(speed, steering)), speed, steering)
    {
      EncodeMeans(speed, steering);
    }

    /** pb_type_technic_move_hub_drive. The state is updated before the write, whether or not the write fails. */
    method DriveCall(speed: int, steering: int, now: nat, writeOk: bool) returns (r: Result)
      requires Valid() && (timerDuration == TIMEOUT || data[2] == 0)
      modifies this, data
      ensures Valid() && (timerDuration == TIMEOUT || data[2] == 0)
      ensures r != Skipped ==> tried != [] && IsDriveMessage(tried[|tried| - 1], speed, steering)
      ensures var cmd := Encode(speed, steering);
              var (s, sent) := Call(old(Value()), cmd, now);
              && Value() == s
              && r == (if !sent then Skipped else if writeOk then Sending else WriteFailed)
              && tried == old(tried) + (if sent then [Command(cmd)] else [])
              && accepted == old(accepted) + if sent && writeOk then [Command(cmd)] else []
    {
      hide IsDriveMessage;
      CommandMeans(speed, steering);
      var steeringByte := ToByte(Clamp(steering, 97));
      var speedByte := ToByte(Clamp(speed, 100));
      var identical := speedByte == data[0] && steeringByte == data[1];
      if !identical || HasPassed(Wrap(now), Wrap(timerStart + timerDuration)) {
        data[2] := 0;
      }
      if data[2] == MAX_REPEAT {
        return Skipped;
      }
      data[0] := speedByte;
      data[1] := steeringByte;
      data[2] := if data[2] + 1 < MAX_REPEAT then data[2] + 1 else MAX_REPEAT;
      timerStart, timerDuration := Wrap(now), TIMEOUT;
      ghost var bytes := Command(Drive(speedByte, steeringByte));
      tried := tried + [bytes];
      if !writeOk {
        return WriteFailed;
      }
      accepted := accepted + [bytes];
      r := Sending;
    }
  }
}
