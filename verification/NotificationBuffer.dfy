/**
  The notification buffer of LWP3Device (pb_type_iodevices_lwp3device): a ring of fixed slots that drops the oldest.
 */
module NotificationBuffer {
  import opened Words

  const HEADER := 3
  const SLOT := 20

  type Message = seq<byte>

  function Min(a: nat, b: nat): nat {
    if a < b then a else b
  }

  /** A slot after copying a message over what it held. */
  function Overlay(message: Message, stale: seq<byte>): (slot: seq<byte>)
    requires |stale| == SLOT
    ensures |slot| == SLOT
  {
    var n := Min(|message|, SLOT);
    message[..n] + stale[n..]
  }

  /** What read() makes of a slot: the first byte is the length; unusable lengths give None. */
  function Extract(slot: seq<byte>): Option<Message>
    requires |slot| == SLOT
  {
    var len := slot[0];
    if len < HEADER || len > SLOT then None else Some(slot[..len])
  }

  /** The first byte of a well-formed message is its size. */
  predicate WellFormed(m: Message) {
    HEADER <= |m| <= SLOT && m[0] == |m|
  }

  /** A message comes back byte for byte exactly when it is well-formed, whatever the slot held before. */
  lemma ExtractOverlay(m: Message, stale: seq<byte>)
    requires |stale| == SLOT
    ensures Extract(Overlay(m, stale)) == Some(m) <==> WellFormed(m)
  {
    if WellFormed(m) {
      assert Overlay(m, stale)[..|m|] == m;
    }
  }

  /** In numbers: 3 to 20 bytes, the first of which says how many. */
  lemma WellFormedSizes(m: Message)
    ensures WellFormed(m) <==> 3 <= |m| <= 20 && m[0] == |m|
  {
  }

  /**
    What read() makes of any message that was stored: None if its first byte is not 3 to 20, else as many bytes as
    that says, those of the message first and, if it was shorter, what the slot held before behind them.
   */
  lemma ExtractMeans(m: Message, stale: seq<byte>)
    requires |stale| == SLOT && m != []
    ensures var r := Extract(Overlay(m, stale));
            && (r.Some? <==> 3 <= m[0] <= 20)
            && (r.Some? ==> |r.value| == m[0])
            && (r.Some? ==> forall i :: 0 <= i < m[0] ==> r.value[i] == if i < |m| then m[i] else stale[i])
  {
  }

  // ----- The queue it should be -----

  datatype Command = Notify(message: Message) | Read

  /** All messages that arrived, and how many of them have been read or dropped. */
  datatype Queue = Queue(arrived: seq<Message>, gone: nat)

  predicate QueueOk(q: Queue, capacity: nat) {
    q.gone <= |q.arrived| && |q.arrived| - q.gone <= capacity
  }

  function Unread(q: Queue): seq<Message>
    requires q.gone <= |q.arrived|
  {
    q.arrived[q.gone..]
  }

  /** Only when more than capacity messages are unread is the oldest of them dropped. */
  function QueueStep(q: Queue, capacity: nat, c: Command): (q': Queue)
    requires QueueOk(q, capacity) && capacity > 0
    ensures QueueOk(q', capacity)
  {
    match c
    case Read => if q.gone == |q.arrived| then q else q.(gone := q.gone + 1)
    case Notify(m) => Queue(q.arrived + [m], if |q.arrived| + 1 - q.gone > capacity then q.gone + 1 else q.gone)
  }

  // ----- Two indices and a flag -----

  /** memory: the slots; read and write: the indices; full tells the two cases of equal indices apart. */
  datatype Ring = Ring(memory: seq<seq<byte>>, read: nat, write: nat, full: bool)

  predicate RingOk(r: Ring) {
    && r.read < |r.memory| && r.write < |r.memory|
    && (r.full ==> r.read == r.write)
    && forall i :: 0 <= i < |r.memory| ==> |r.memory[i]| == SLOT
  }

  function Used(r: Ring): (n: nat)
    requires RingOk(r)
    ensures n <= |r.memory| && (n == |r.memory| <==> r.full)
  {
    if r.full then |r.memory| else if r.write >= r.read then r.write - r.read else r.write + |r.memory| - r.read
  }

  /** Position of the k-th unread slot. */
  function Position(r: Ring, k: nat): (i: nat)
    requires RingOk(r) && k < |r.memory|
    ensures i < |r.memory|
  {
    if r.read + k < |r.memory| then r.read + k else r.read + k - |r.memory|
  }

  /** The unread slots, oldest first. */
  function Slots(r: Ring): (s: seq<seq<byte>>)
    requires RingOk(r)
    ensures |s| == Used(r)
    ensures forall k :: 0 <= k < |s| ==> s[k] == r.memory[Position(r, k)] && |s[k]| == SLOT
  {
    seq(Used(r), k requires 0 <= k < Used(r) => r.memory[Position(r, k)])
  }

  function Advance(i: nat, n: nat): (j: nat)
    requires i < n
    ensures j == if i + 1 == n then 0 else i + 1
  {
    (i + 1) % n
  }

  /** Storing a notification. */
  function Stored(r: Ring, m: Message): Ring
    requires RingOk(r)
  {
    var read := if r.full then Advance(r.read, |r.memory|) else r.read;
    var write := Advance(r.write, |r.memory|);
    Ring(r.memory[r.write := Overlay(m, r.memory[r.write])], read, write, read == write)
  }

  /** Taking the oldest slot out. */
  function Taken(r: Ring): Ring
    requires RingOk(r)
  {
    r.(read := Advance(r.read, |r.memory|), full := false)
  }

  predicate IsEmpty(r: Ring) {
    !r.full && r.write == r.read
  }

  /** A new message goes behind the unread ones; if all slots are unread the oldest goes. Also with one slot. */
  lemma StoredSlots(r: Ring, m: Message)
    requires RingOk(r)
    ensures RingOk(Stored(r, m))
    ensures var s := Slots(r);
            Slots(Stored(r, m)) == (if |s| == |r.memory| then s[1..] else s) + [Overlay(m, r.memory[r.write])]
  {
    var s, t := Slots(r), Slots(Stored(r, m));
    var kept := if |s| == |r.memory| then s[1..] else s;
    assert |t| == |kept| + 1;
    forall k | 0 <= k < |t|
      ensures t[k] == (kept + [Overlay(m, r.memory[r.write])])[k]
    {
      assert Position(Stored(r, m), k) == Position(r, if r.full && k < |kept| then k + 1 else if r.full then 0 else k);
    }
  }

  lemma TakenSlots(r: Ring)
    requires RingOk(r)
    ensures IsEmpty(r) <==> Slots(r) == []
    ensures !IsEmpty(r) ==> RingOk(Taken(r)) && Slots(r)[0] == r.memory[r.read] && Slots(Taken(r)) == Slots(r)[1..]
  {
    if !IsEmpty(r) {
      var s, t := Slots(r), Slots(Taken(r));
      forall k | 0 <= k < |t|
        ensures t[k] == s[1..][k]
      {
        assert Position(Taken(r), k) == Position(r, k + 1);
      }
    }
  }

  // ----- Every run -----

  function RingStep(r: Ring, c: Command): (Ring, Option<Message>)
    requires RingOk(r)
  {
    match c
    case Notify(m) => (Stored(r, m), None)
    case Read => if IsEmpty(r) then (r, None) else (Taken(r), Extract(r.memory[r.read]))
  }

  /** The ring holds exactly the unread messages, in order of arrival. */
  predicate Represents(r: Ring, q: Queue) {
    && RingOk(r) && QueueOk(q, |r.memory|)
    && |Slots(r)| == |Unread(q)|
    && forall k :: 0 <= k < |Unread(q)| ==> WellFormed(Unread(q)[k]) ==> Extract(Slots(r)[k]) == Some(Unread(q)[k])
  }

  lemma NotifyRepresents(r: Ring, q: Queue, m: Message)
    requires Represents(r, q)
    ensures Represents(Stored(r, m), QueueStep(q, |r.memory|, Notify(m)))
  {
    StoredSlots(r, m);
    ExtractOverlay(m, r.memory[r.write]);
    var kept := if |Slots(r)| == |r.memory| then Unread(q)[1..] else Unread(q);
    assert Unread(QueueStep(q, |r.memory|, Notify(m))) == kept + [m];
  }

  lemma StepRepresents(r: Ring, q: Queue, c: Command)
    requires Represents(r, q)
    ensures Represents(RingStep(r, c).0, QueueStep(q, |r.memory|, c))
    ensures |RingStep(r, c).0.memory| == |r.memory|
    ensures c.Read? && Unread(q) != [] && WellFormed(Unread(q)[0]) ==> RingStep(r, c).1 == Some(Unread(q)[0])
    ensures c.Read? && Unread(q) == [] ==> RingStep(r, c).1 == None
  {
    match c
    case Notify(m) => NotifyRepresents(r, q, m);
    case Read =>
      TakenSlots(r);
      assert Unread(q) != [] ==> Unread(QueueStep(q, |r.memory|, Read)) == Unread(q)[1..];
  }

  function RunRing(r: Ring, cs: seq<Command>): (r': Ring)
    requires RingOk(r)
    ensures RingOk(r') && |r'.memory| == |r.memory|
  {
    if cs == [] then r
    else
      var before := RunRing(r, cs[..|cs| - 1]);
      StoredSlotsOk(before, cs[|cs| - 1]);
      RingStep(before, cs[|cs| - 1]).0
  }

  lemma StoredSlotsOk(r: Ring, c: Command)
    requires RingOk(r)
    ensures RingOk(RingStep(r, c).0) && |RingStep(r, c).0.memory| == |r.memory|
  {
  }

  function RunQueue(capacity: nat, cs: seq<Command>): (q: Queue)
    requires capacity > 0
    ensures QueueOk(q, capacity)
  {
    if cs == [] then Queue([], 0) else QueueStep(RunQueue(capacity, cs[..|cs| - 1]), capacity, cs[|cs| - 1])
  }

  /**
    For any interleaving of notifications and reads, starting empty, the indices and the flag
    represent exactly the unread messages among the newest, in order of arrival.
   */
  lemma {:induction false} RunRepresents(r: Ring, cs: seq<Command>)
    requires RingOk(r) && IsEmpty(r)
    ensures Represents(RunRing(r, cs), RunQueue(|r.memory|, cs))
  {
    if cs == [] {
      TakenSlots(r);
    } else {
      RunRepresents(r, cs[..|cs| - 1]);
      StepRepresents(RunRing(r, cs[..|cs| - 1]), RunQueue(|r.memory|, cs[..|cs| - 1]), cs[|cs| - 1]);
    }
  }

  /**
    So the next read returns the oldest unread message byte for byte if it is well-formed, and None if there is none.
   */
  lemma ReadReturnsOldest(r: Ring, cs: seq<Command>)
    requires RingOk(r) && IsEmpty(r)
    ensures var q := RunQueue(|r.memory|, cs);
            var result := RingStep(RunRing(r, cs), Read).1;
            && (Unread(q) == [] ==> result == None)
            && (Unread(q) != [] && WellFormed(Unread(q)[0]) ==> result == Some(Unread(q)[0]))
  {
    RunRepresents(r, cs);
    StepRepresents(RunRing(r, cs), RunQueue(|r.memory|, cs), Read);
  }

  /** The messages that have arrived. */
  function Arrivals(cs: seq<Command>): seq<Message> {
    if cs == [] then []
    else Arrivals(cs[..|cs| - 1]) + if cs[|cs| - 1].Notify? then [cs[|cs| - 1].message] else []
  }

  /** Nothing is dropped while there is room, and what is unread is always the newest part of what arrived. */
  lemma {:induction false} UnreadAreNewest(capacity: nat, cs: seq<Command>)
    requires capacity > 0
    ensures RunQueue(capacity, cs).arrived == Arrivals(cs)
    ensures |Unread(RunQueue(capacity, cs))| <= capacity
    ensures (forall i :: 0 <= i < |cs| ==> cs[i].Notify?) ==>
              |Unread(RunQueue(capacity, cs))| == Min(|Arrivals(cs)|, capacity)
  {
    if cs != [] {
      UnreadAreNewest(capacity, cs[..|cs| - 1]);
    }
  }

  // ----- The object -----

  datatype Result = Failed | Got(message: Option<Message>)

  class Buffer {
    /** 0 means notifications are off. */
    const notiNum: nat
    const buffer: array<byte>
    var idxRead: nat
    var idxWrite: nat
    var full: bool

    /**
      The constructor's argument n: 0 means 1, and the count is kept in eight bits, while the
      buffer is allocated for the full count.
     */
    constructor (n: nat)
      ensures Valid() && fresh(buffer)
      ensures notiNum == (if n == 0 then 1 else n) % 256
      ensures notiNum > 0 ==> IsEmpty(Value())
    {
      var count := if n == 0 then 1 else n;
      notiNum := count % 256;
      buffer := new byte[SLOT * count];
      idxRead, idxWrite, full := 0, 0, false;
    }

    ghost function Memory(): (m: seq<seq<byte>>)
      requires SLOT * notiNum <= buffer.Length
      reads buffer
      ensures |m| == notiNum && forall i :: 0 <= i < notiNum ==> m[i] == buffer[SLOT * i..SLOT * i + SLOT]
    {
      seq(notiNum, i requires 0 <= i < notiNum &&
          SLOT * notiNum <= buffer.Length reads buffer => buffer[SLOT * i..SLOT * i + SLOT])
    }

    ghost function Value(): Ring
      requires SLOT * notiNum <= buffer.Length
      reads this, buffer
    {
      Ring(Memory(), idxRead, idxWrite, full)
    }

    ghost predicate Valid()
      reads this, buffer
    {
      notiNum < 256 && SLOT * notiNum <= buffer.Length && (notiNum > 0 ==> RingOk(Value()))
    }

    /** Clearing for a new connection: all slots in use are zeroed, the rest of the allocation is left alone. */
    method Reset()
      requires Valid()
      modifies this, buffer
      ensures Valid()
      ensures forall i :: 0 <= i < buffer.Length ==> buffer[i] == if i < SLOT * notiNum then 0 else old(buffer[i])
      ensures notiNum > 0 ==> IsEmpty(Value())
    {
      for i := 0 to SLOT * notiNum
        invariant forall j :: 0 <= j < buffer.Length ==> buffer[j] == if j < i then 0 else old(buffer[j])
      {
        buffer[i] := 0;
      }
      idxRead, idxWrite, full := 0, 0, false;
    }

    /** The memcpy into one slot: at most a slot's worth, leaving the rest of the slot and all others alone. */
    method CopyIn(at: nat, value: Message)
      requires SLOT * notiNum <= buffer.Length && at < notiNum
      modifies buffer
      ensures Memory() == old(Memory())[at := Overlay(value, old(Memory())[at])]
    {
      var n := Min(|value|, SLOT);
      var base := at * SLOT;
      for i := 0 to n
        invariant forall j :: 0 <= j < buffer.Length ==>
                    buffer[j] == if base <= j < base + i then value[j - base] else old(buffer[j])
      {
        buffer[base + i] := value[i];
      }
      assert Memory()[at] == Overlay(value, old(Memory())[at]);
      forall i | 0 <= i < notiNum && i != at
        ensures Memory()[i] == old(Memory())[i]
      {
        assert SLOT * i + SLOT <= base || base + SLOT <= SLOT * i;
      }
    }

    /** pb_type_lwp3device_handle_notification_generic. */
    method HandleNotification(value: Message)
      requires Valid()
      modifies this, buffer
      ensures Valid()
      ensures notiNum == 0 ==> unchanged(this) && unchanged(buffer)
      ensures notiNum > 0 ==> Value() == RingStep(old(Value()), Notify(value)).0
    {
      if notiNum == 0 {
        return;
      }
      ghost var before := Value();
      StoredSlotsOk(before, Notify(value));
      if full {
        idxRead := Advance(idxRead, notiNum);
      }
      CopyIn(idxWrite, value);
      idxWrite := Advance(idxWrite, notiNum);
      full := idxRead == idxWrite;
      assert Value() == Stored(before, value);
    }

    /** lwp3device_read while connected: None for an empty buffer or an unusable message. */
    method ReadMessage() returns (r: Result)
      requires Valid()
      modifies this
      ensures Valid()
      ensures notiNum == 0 ==> r == Failed && unchanged(this)
      ensures notiNum > 0 ==> (Value(), r) == (RingStep(old(Value()), Read).0, Got(RingStep(old(Value()), Read).1))
    {
      if notiNum == 0 {
        return Failed;
      }
      if !full && idxWrite == idxRead {
        return Got(None);
      }
      StoredSlotsOk(Value(), Read);
      var index := idxRead;
      ghost var before := Value();
      ghost var slot := Value().memory[index];
      assert slot == buffer[index * SLOT..index * SLOT + SLOT] && slot[0] == buffer[index * SLOT];
      full := false;
      idxRead := Advance(idxRead, notiNum);
      assert Value() == Taken(before);
      var base := index * SLOT;
      var len := buffer[base];
      if len < HEADER || len > SLOT {
        return Got(None);
      }
      assert buffer[base..base + len] == slot[..len];
      r := Got(Some(buffer[base..base + len]));
    }
  }
}
