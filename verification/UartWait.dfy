/** UARTDevice.wait_until (pb_type_uart_device): consumes received bytes until a pattern has gone by. */
module UartWait {
  import opened Words

  /** How far the pattern agrees with the stream at pos: the first mismatch, or the whole pattern. */
  function Agreement(p: seq<byte>, s: seq<byte>, pos: nat, i: nat): (n: nat)
    requires i <= |p| && pos + |p| <= |s|
    ensures i <= n <= |p|
    ensures forall j :: i <= j < n ==> s[pos + j] == p[j]
    ensures n < |p| ==> s[pos + n] != p[n]
    decreases |p| - i
  {
    if i < |p| && s[pos + i] == p[i] then Agreement(p, s, pos, i + 1) else i
  }

  /** Where one pass over everything received stops, and whether it saw the pattern go by. */
  function Scan(p: seq<byte>, s: seq<byte>, pos: nat): (r: (nat, bool))
    requires pos <= |s|
    ensures pos <= r.0 <= |s|
    decreases |s| - pos
  {
    if |s| - pos < |p| then (pos, false)
    else
      var n := Agreement(p, s, pos, 0);
      if n == |p| then (pos + |p|, true) else Scan(p, s, pos + n + 1)
  }

  lemma ScanNext(p: seq<byte>, s: seq<byte>, pos: nat)
    requires pos + |p| <= |s|
    ensures var n := Agreement(p, s, pos, 0);
            Scan(p, s, pos) == if n == |p| then (pos + |p|, true) else Scan(p, s, pos + n + 1)
  {
  }

  /** The bytes before a position are the pattern, and it lies behind the start. */
  predicate EndsWithPattern(p: seq<byte>, s: seq<byte>, start: nat, q: nat) {
    start + |p| <= q <= |s| && s[q - |p|..q] == p
  }

  lemma ScanEnds(p: seq<byte>, s: seq<byte>)
    ensures forall pos: nat :: pos <= |s| < pos + |p| ==> Scan(p, s, pos) == (pos, false)
  {
  }

  lemma AgreementIsPattern(p: seq<byte>, s: seq<byte>, pos: nat)
    requires pos + |p| <= |s| && Agreement(p, s, pos, 0) == |p|
    ensures EndsWithPattern(p, s, pos, pos + |p|)
  {
  }

  lemma StartsEarlier(p: seq<byte>, s: seq<byte>, start: nat, later: nat, q: nat)
    requires start <= later && EndsWithPattern(p, s, later, q)
    ensures EndsWithPattern(p, s, start, q)
  {
  }

  /** The pattern is found where it really is; otherwise fewer bytes than the pattern remain. */
  lemma {:induction false} ScanIsSound(p: seq<byte>, s: seq<byte>, pos: nat)
    requires pos <= |s|
    ensures var (q, found) := Scan(p, s, pos);
            if found then EndsWithPattern(p, s, pos, q) else |s| - q < |p|
    decreases |s| - pos
  {
    hide EndsWithPattern;
    if |s| - pos >= |p| {
      var n := Agreement(p, s, pos, 0);
      if n < |p| {
        ScanIsSound(p, s, pos + n + 1);
        var (q, found) := Scan(p, s, pos + n + 1);
        if found {
          StartsEarlier(p, s, pos, pos + n + 1, q);
        }
      } else {
        AgreementIsPattern(p, s, pos);
      }
    }
  }

  // ----- Schedule independence -----

  lemma {:induction false} AgreementIgnoresLater(p: seq<byte>, s: seq<byte>, t: seq<byte>, pos: nat, i: nat)
    requires i <= |p| && pos + |p| <= |s|
    ensures Agreement(p, s + t, pos, i) == Agreement(p, s, pos, i)
    decreases |p| - i
  {
    if i < |p| && s[pos + i] == p[i] {
      AgreementIgnoresLater(p, s, t, pos, i + 1);
    }
  }

  /** A pass that ran dry can be taken up again when more bytes have come, as if they had been there at once. */
  lemma {:induction false} ScanResumes(p: seq<byte>, s: seq<byte>, t: seq<byte>, pos: nat)
    requires pos <= |s|
    ensures var (q, found) := Scan(p, s, pos);
            Scan(p, s + t, pos) == if found then (q, true) else Scan(p, s + t, q)
    decreases |s| - pos
  {
    hide Scan;
    ScanEnds(p, s);
    if |s| - pos >= |p| {
      var n := Agreement(p, s, pos, 0);
      AgreementIgnoresLater(p, s, t, pos, 0);
      ScanNext(p, s, pos);
      ScanNext(p, s + t, pos);
      if n < |p| {
        ScanResumes(p, s, t, pos + n + 1);
      }
    }
  }

  function Flatten(chunks: seq<seq<byte>>): seq<byte> {
    if chunks == [] then [] else Flatten(chunks[..|chunks| - 1]) + chunks[|chunks| - 1]
  }

  /** Bytes arrive chunk by chunk with one poll after each; a poll after success no longer happens. */
  function Polls(p: seq<byte>, chunks: seq<seq<byte>>): (r: (nat, bool))
    ensures r.0 <= |Flatten(chunks)|
  {
    if chunks == [] then (0, false)
    else
      var (pos, found) := Polls(p, chunks[..|chunks| - 1]);
      if found then (pos, true) else Scan(p, Flatten(chunks), pos)
  }

  /**
    For every way of cutting a stream into arrivals and polls, the same bytes are consumed and
    success comes at the same position as in one pass over the whole stream.
   */
  lemma {:induction false} PollsIsOneScan(p: seq<byte>, chunks: seq<seq<byte>>)
    requires p != []
    ensures Polls(p, chunks) == Scan(p, Flatten(chunks), 0)
  {
    if chunks != [] {
      var before := chunks[..|chunks| - 1];
      PollsIsOneScan(p, before);
      ScanResumes(p, Flatten(before), chunks[|chunks| - 1], 0);
    }
  }

  // ----- What can be missed -----

  predicate OccursAt(p: seq<byte>, s: seq<byte>, k: nat) {
    k + |p| <= |s| && s[k..k + |p|] == p
  }

  /** In any stream that contains the pattern it is found. */
  ghost predicate FindsAll(p: seq<byte>) {
    forall s, k :: OccursAt(p, s, k) ==> Scan(p, s, 0).1
  }

  predicate AllEqual(p: seq<byte>) {
    forall i :: 0 <= i < |p| ==> p[i] == p[0]
  }

  lemma {:induction false} FindsUniform(p: seq<byte>, s: seq<byte>, pos: nat, k: nat)
    requires p != [] && AllEqual(p) && pos <= k && OccursAt(p, s, k)
    ensures Scan(p, s, pos).1
    decreases |s| - pos
  {
    var n := Agreement(p, s, pos, 0);
    if n < |p| {
      // The mismatching byte is not the pattern's byte, so it lies before the occurrence.
      if pos + n >= k {
        assert s[k..k + |p|][pos + n - k] == p[pos + n - k];
      }
      FindsUniform(p, s, pos + n + 1, k);
    }
  }

  /** A byte that only breaks the pattern at i but starts a new occurrence is dropped. */
  lemma MissesAfterFalseStart(p: seq<byte>, i: nat)
    requires i < |p| && p[i] != p[0]
    requires forall j :: 0 <= j < i ==> p[j] == p[0]
    ensures OccursAt(p, p[..i] + p, i)
    ensures !Scan(p, p[..i] + p, 0).1
  {
    var s := p[..i] + p;
    assert s[i] == p[0];
    assert forall j :: 0 <= j < i ==> s[j] == p[j];
    assert Agreement(p, s, 0, 0) == i;
  }

  /**
    wait_until finds its pattern in every stream that contains it exactly when all bytes of the
    pattern are equal: after a mismatch the mismatching byte and the bytes before it are gone.
   */
  lemma FindsAllIffUniform(p: seq<byte>)
    requires p != []
    ensures FindsAll(p) <==> AllEqual(p)
  {
    if AllEqual(p) {
      forall s, k | OccursAt(p, s, k)
        ensures Scan(p, s, 0).1
      {
        FindsUniform(p, s, 0, k);
      }
    } else {
      var i := FirstDifferent(p, 0);
      MissesAfterFalseStart(p, i);
    }
  }

  lemma {:induction false} FirstDifferent(p: seq<byte>, from: nat) returns (i: nat)
    requires p != [] && from <= |p| && !AllEqual(p)
    requires forall j :: 0 <= j < from ==> p[j] == p[0]
    ensures i < |p| && p[i] != p[0] && forall j :: 0 <= j < i ==> p[j] == p[0]
    decreases |p| - from
  {
    if p[from] != p[0] { i := from; } else { i := FirstDifferent(p, from + 1); }
  }

  // ----- The device -----

  datatype Error = Success | Again | Busy | InvalidArg

  class UartDevice {
    /** Bytes received and not yet read. */
    var rx: seq<byte>
    var waitData: seq<byte>
    var waitLen: nat
    /** Everything read so far. */
    ghost var consumed: seq<byte>

    constructor ()
      ensures rx == [] && waitLen == 0 && consumed == []
    {
      rx, waitData, waitLen, consumed := [], [], 0, [];
    }

    ghost predicate Valid()
      reads this
    {
      waitLen == 0 || waitLen == |waitData|
    }

    /** Bytes received by the driver. */
    method Receive(bytes: seq<byte>)
      modifies this`rx
      ensures rx == old(rx) + bytes
    {
      rx := rx + bytes;
    }

    method ReadByte() returns (b: byte)
      requires rx != []
      modifies this`rx, this`consumed
      ensures b == old(rx)[0] && rx == old(rx)[1..] && consumed == old(consumed) + [b]
    {
      b, rx := rx[0], rx[1..];
      consumed := consumed + [b];
    }

    /** Reads bytes one at a time while they agree with the pattern; the first that does not is gone as well. */
    method Attempt(ghost stream: seq<byte>) returns (matching: bool)
      requires Valid() && 0 < waitLen <= |rx| && consumed + rx == stream
      modifies this`rx, this`consumed
      ensures consumed + rx == stream
      ensures var n := Agreement(waitData, stream, |old(consumed)|, 0);
              matching == (n == waitLen) && |consumed| == |old(consumed)| + n + if matching then 0 else 1
    {
      ghost var start := |consumed|;
      matching := true;
      var i := 0;
      while i < waitLen && matching
        invariant consumed + rx == stream
        invariant 0 <= i <= waitLen && |consumed| == start + i + if matching then 0 else 1
        invariant i == waitLen ==> matching
        invariant forall j :: 0 <= j < i ==> stream[start + j] == waitData[j]
        invariant !matching ==> stream[start + i] != waitData[i]
        decreases waitLen - i, matching
      {
        assert rx[0] == stream[start + i];
        var b := ReadByte();
        if b != waitData[i] {
          matching := false;
        } else {
          i := i + 1;
        }
      }
    }

    /** pb_type_uart_device_wait_until_iter_once. */
    method WaitUntilIterOnce() returns (err: Error)
      requires Valid() && waitLen > 0
      modifies this`rx, this`consumed
      ensures consumed + rx == old(consumed + rx)
      ensures err == Success || err == Again
      ensures (|consumed|, err == Success) == Scan(waitData, old(consumed + rx), |old(consumed)|)
    {
      ghost var stream := consumed + rx;
      ScanEnds(waitData, stream);
      hide Scan, Agreement;
      while true
        invariant consumed + rx == stream
        invariant Scan(waitData, stream, |consumed|) == Scan(waitData, stream, |old(consumed)|)
        decreases |rx|
      {
        if |rx| < waitLen {
          return Again;
        }
        ghost var pos := |consumed|;
        var matched := Attempt(stream);
        ScanNext(waitData, stream, pos);
        if matched {
          return Success;
        }
      }
    }

    /** Bytes arrive chunk by chunk, and the pending wait is polled after each until it has succeeded. */
    method ReceiveAndPoll(chunks: seq<seq<byte>>) returns (found: bool)
      requires Valid() && waitLen > 0 && rx == consumed == []
      modifies this`rx, this`consumed
      ensures consumed + rx == Flatten(chunks)
      ensures (|consumed|, found) == Scan(waitData, Flatten(chunks), 0)
    {
      found := false;
      for i := 0 to |chunks|
        invariant consumed + rx == Flatten(chunks[..i])
        invariant (|consumed|, found) == Polls(waitData, chunks[..i])
      {
        assert chunks[..i + 1][..i] == chunks[..i];
        ghost var before := consumed + rx;
        Receive(chunks[i]);
        assert consumed + rx == before + chunks[i];
        if !found {
          var err := WaitUntilIterOnce();
          found := err == Success;
        }
      }
      assert chunks[..|chunks|] == chunks;
      PollsIsOneScan(waitData, chunks);
    }

    /** pb_type_uart_device_wait_until, up to making the awaitable. */
    method WaitUntil(pattern: seq<byte>) returns (err: Error)
      requires Valid()
      modifies this`waitData, this`waitLen
      ensures Valid()
      ensures (waitLen, err) == Admit(old(waitLen), pattern)
      ensures err == Success ==> waitData == pattern
    {
      if waitLen != 0 {
        return Busy;
      }
      waitData, waitLen := pattern, |pattern|;
      if waitLen == 0 {
        return InvalidArg;
      }
      return Success;
    }

    /** pb_type_uart_device_wait_until_return_map: runs only when the wait completes. */
    method WaitUntilReturnMap()
      modifies this`waitData, this`waitLen
      ensures Valid() && waitLen == 0
    {
      waitData, waitLen := [], 0;
    }
  }

  /** The length remembered after a call of wait_until, and its answer. */
  function Admit(waitLen: nat, pattern: seq<byte>): (nat, Error) {
    if waitLen != 0 then (waitLen, Busy) else (|pattern|, if pattern == [] then InvalidArg else Success)
  }

  datatype Call = Start(pattern: seq<byte>) | Completed | Cancelled

  /** An empty pattern is refused, another is taken, and that of a wait still open is kept. */
  lemma AdmitMeans(waitLen: nat, pattern: seq<byte>)
    ensures Admit(waitLen, pattern).1 == InvalidArg <==> waitLen == 0 && pattern == []
    ensures Admit(waitLen, pattern).1 == Success <==> waitLen == 0 && pattern != []
    ensures Admit(waitLen, pattern).1 == Busy <==> waitLen > 0
    ensures Admit(waitLen, pattern).0 == if waitLen > 0 then waitLen else |pattern|
  {
  }

  /** Only completion resets the remembered length; a cancelled or superseded wait keeps it. */
  function Remembered(calls: seq<Call>): nat {
    if calls == [] then 0
    else
      var before := Remembered(calls[..|calls| - 1]);
      match calls[|calls| - 1]
      case Start(pattern) => Admit(before, pattern).0
      case Completed => 0
      case Cancelled => before
  }

  /** A wait was started, with a real pattern, and nothing has completed since. */
  ghost predicate Unfinished(calls: seq<Call>) {
    exists i :: 0 <= i < |calls| && calls[i].Start? && calls[i].pattern != []
                && forall j :: i < j < |calls| ==> !calls[j].Completed?
  }

  /**
    A wait is refused as busy exactly when one was started and nothing has completed since. In
    particular, once a wait has been cancelled or superseded every later wait_until is refused.
   */
  lemma {:induction false} BusyIffUnfinished(calls: seq<Call>, pattern: seq<byte>)
    ensures Admit(Remembered(calls), pattern).1 == Busy <==> Unfinished(calls)
  {
    if calls != [] {
      var last := |calls| - 1;
      BusyIffUnfinished(calls[..last], pattern);
      if Unfinished(calls[..last]) && !calls[last].Completed? {
        var i :| 0 <= i < last && calls[..last][i].Start? && calls[..last][i].pattern != []
                 && forall j :: i < j < last ==> !calls[..last][j].Completed?;
        assert calls[i].Start? && calls[i].pattern != [] && forall j :: i < j < |calls| ==> !calls[j].Completed?;
      }
    }
  }
}
