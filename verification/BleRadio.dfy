/** Broadcasting and the table of observed channels (pb_type_ble_radio). */
module BleRadio {
  import opened Words
  import opened BleCodec
  import Rssi

  const MFG_SPECIFIC: byte := 0xFF
  /** LEGO's company identifier 0x0397, little-endian. */
  const LEGO_CID: seq<byte> := [0x97, 0x03]
  const OVERHEAD := 5

  // ----- Sending -----

  /** The manufacturer-specific structure: length, type, company identifier, channel, encoded data. */
  function Advertisement(channel: byte, body: seq<byte>): seq<byte>
    requires |body| <= MAX_SIZE
  {
    [(|body| + 4) as byte, MFG_SPECIFIC] + LEGO_CID + [channel] + body
  }

  /** What becomes of the contents of a buffer when these bytes are written at a position: nothing else changes. */
  function Written(contents: seq<byte>, at: nat, bytes: seq<byte>): (r: seq<byte>)
    requires at + |bytes| <= |contents|
    ensures |r| == |contents| && r[at..at + |bytes|] == bytes
  {
    contents[..at] + bytes + contents[at + |bytes|..]
  }

  /** pb_module_ble_append: dst is the buffer from position base on. */
  method Append(dst: array<byte>, base: nat, index: nat, src: seq<byte>, code: nat) returns (r: Result<nat>)
    requires base + MAX_SIZE <= dst.Length && index <= MAX_SIZE && code < 8
    modifies dst
    ensures index + |src| + 1 > MAX_SIZE ==> r == Err(ValueError) && dst[..] == old(dst[..])
    ensures index + |src| + 1 <= MAX_SIZE ==>
              r == Ok(index + |src| + 1) && dst[..] == Written(old(dst[..]), base + index, [Header(code, |src|)] + src)
  {
    var next := index + |src| + 1;
    if next > MAX_SIZE {
      return Err(ValueError);
    }
    ghost var before := dst[..];
    dst[base + index] := Header(code, |src|);
    forall i | 0 <= i < |src| {
      dst[base + index + 1 + i] := src[i];
    }
    assert dst[..base + index] == before[..base + index];
    assert dst[base + index..base + next] == [Header(code, |src|)] + src;
    assert dst[base + next..] == before[base + next..];
    assert dst[..] == dst[..base + index] + dst[base + index..base + next] + dst[base + next..];
    r := Ok(next);
  }

  /** pb_module_ble_encode. */
  method EncodeValue(dst: array<byte>, base: nat, index: nat, v: Value) returns (r: Result<nat>)
    requires base + MAX_SIZE <= dst.Length && index <= MAX_SIZE && IsValue(v)
    modifies dst
    ensures match EncodeError(v, index)
            case Some(e) => r == Err(e) && dst[..] == old(dst[..])
            case None =>
              && r == Ok(index + |Item(v)|) && index + |Item(v)| <= MAX_SIZE
              && dst[..] == Written(old(dst[..]), base + index, Item(v))
  {
    match v
    case Other => r := Err(TypeError);
    case Int(n) =>
      if !FitsInt32(n) {
        return Err(OverflowError);
      }
      r := Append(dst, base, index, Payload(v), INT);
    case Bool(b) => r := Append(dst, base, index, [], if b then TRUE else FALSE);
    case Float(bits) => r := Append(dst, base, index, bits, FLOAT);
    case Str(s) => r := Append(dst, base, index, s, STR);
    case Bytes(s) => r := Append(dst, base, index, s, BYTES);
  }

  /** This stream is in the buffer behind the start bytes, up to index, and nothing else has changed. */
  ghost predicate Holds(before: seq<byte>, contents: seq<byte>, stream: seq<byte>, start: nat, index: nat) {
    && |before| == OVERHEAD + MAX_SIZE && index == start + |stream| <= MAX_SIZE
    && contents == Written(before, OVERHEAD + start, stream)
  }

  lemma HoldsNext(before: seq<byte>, contents: seq<byte>, stream: seq<byte>, item: seq<byte>, start: nat, index: nat)
    requires Holds(before, contents, stream, start, index) && index + |item| <= MAX_SIZE
    ensures Holds(before, Written(contents, OVERHEAD + index, item), stream + item, start, index + |item|)
  {
    WrittenTwice(before, OVERHEAD + start, stream, item);
  }

  lemma WrittenTwice(contents: seq<byte>, at: nat, a: seq<byte>, b: seq<byte>)
    requires at + |a| + |b| <= |contents|
    ensures Written(Written(contents, at, a), at + |a|, b) == Written(contents, at, a + b)
  {
    var once := Written(contents, at, a);
    assert once[..at + |a|] == contents[..at] + a;
    assert once[at + |a| + |b|..] == contents[at + |a| + |b|..];
  }

  /** One turn of the loop of broadcast(). */
  method EncodeNext(buf: array<byte>, objs: seq<Value>, i: nat, start: nat, index: nat, ghost before: seq<byte>)
    returns (r: Result<nat>)
    requires buf.Length == OVERHEAD + MAX_SIZE && i < |objs| && IsValue(objs[i])
    requires ErrorTo(objs, i, start).None? && Holds(before, buf[..], StreamTo(objs, i), start, index)
    modifies buf
    ensures ErrorTo(objs, i + 1, start).Some? ==> r == Err(ErrorTo(objs, i + 1, start).value)
    ensures ErrorTo(objs, i + 1, start).None? ==> r.Ok? && Holds(before, buf[..], StreamTo(objs, i + 1), start, r.value)
  {
    ghost var contents := buf[..];
    r := EncodeValue(buf, OVERHEAD, index, objs[i]);
    OneMore(objs, i, start);
    if r.Ok? {
      EncodeErrorIff(objs[i], index);
      HoldsNext(before, contents, StreamTo(objs, i), Item(objs[i]), start, index);
    }
  }

  /** The loop of broadcast(): appends one object after another from position start. */
  method EncodeObjects(buf: array<byte>, objs: seq<Value>, start: nat) returns (r: Result<nat>)
    requires buf.Length == OVERHEAD + MAX_SIZE && start <= MAX_SIZE
    requires forall v :: v in objs ==> IsValue(v)
    modifies buf
    ensures StreamError(objs, start).Some? ==> r == Err(StreamError(objs, start).value)
    ensures StreamError(objs, start).None? ==>
              r.Ok? && Holds(old(buf[..]), buf[..], Stream(objs), start, r.value)
  {
    ghost var before := buf[..];
    var index := start;
    HoldsNone(before, start);
    for i := 0 to |objs|
      invariant ErrorTo(objs, i, start).None? && Holds(before, buf[..], StreamTo(objs, i), start, index)
    {
      var next := EncodeNext(buf, objs, i, start, index, before);
      if next.Err? {
        ErrorStays(objs, i + 1, |objs|, start);
        return Err(next.error);
      }
      index := next.value;
    }
    r := Ok(index);
  }

  lemma HoldsNone(before: seq<byte>, start: nat)
    requires |before| == OVERHEAD + MAX_SIZE && start <= MAX_SIZE
    ensures Holds(before, before, [], start, start)
  {
    assert before == before[..OVERHEAD + start] + [] + before[OVERHEAD + start..];
  }

  /** Encodes a single object behind its marker, or all objects of a tuple. */
  method EncodeBody(buf: array<byte>, d: BleCodec.Data) returns (end: Result<nat>)
    requires buf.Length == OVERHEAD + MAX_SIZE
    requires if d.Single? then IsValue(d.value) else forall v :: v in d.values ==> IsValue(v)
    modifies buf
    ensures BodyError(d).Some? ==> end == Err(BodyError(d).value)
    ensures BodyError(d).None? ==>
              CanBroadcast(d) && end == Ok(|Body(d)|) && buf[OVERHEAD..OVERHEAD + |Body(d)|] == Body(d)
  {
    hide Written, Payload, ErrorTo, StreamTo;
    BodyErrorIff(d);
    SingleStream(d);
    if d.Tuple? {
      ghost var before := buf[..];
      end := EncodeObjects(buf, d.values, 0);
      if end.Ok? {
        HeldBytes(buf, before, Stream(d.values), 0, end.value);
      }
    } else {
      buf[OVERHEAD] := Header(SINGLE_OBJECT, 0);
      ghost var before := buf[..];
      end := EncodeObjects(buf, [d.value], 1);
      if end.Ok? {
        HeldBytes(buf, before, Stream([d.value]), 1, end.value);
      }
    }
  }

  /** pb_module_ble_broadcast: the advertising data to start broadcasting, or None to stop. */
  method Broadcast(channel: Option<byte>, data: Option<Data>) returns (r: Result<Option<seq<byte>>>)
    requires data.Some? && data.value.Single? ==> IsValue(data.value.value)
    requires data.Some? && data.value.Tuple? ==> forall v :: v in data.value.values ==> IsValue(v)
    ensures channel.None? ==> r == Err(RuntimeError)
    ensures channel.Some? && data.None? ==> r == Ok(None)
    ensures channel.Some? && data.Some? ==>
              match BodyError(data.value)
              case Some(e) => r == Err(e)
              case None => CanBroadcast(data.value) && r == Ok(Some(Advertisement(channel.value, Body(data.value))))
  {
    if channel.None? {
      return Err(RuntimeError);
    }
    if data.None? {
      return Ok(None);
    }
    var buf := new byte[OVERHEAD + MAX_SIZE];
    var end := EncodeBody(buf, data.value);
    if end.Err? {
      return Err(end.error);
    }
    var bytes := Frame(buf, end.value, channel.value);
    r := Ok(Some(bytes));
  }

  /** The bytes between the header and index are those at the start and the stream. */
  lemma HeldBytes(buf: array<byte>, before: seq<byte>, stream: seq<byte>, start: nat, index: nat)
    requires Holds(before, buf[..], stream, start, index)
    ensures buf.Length == |before|
    ensures buf[OVERHEAD..OVERHEAD + index] == before[OVERHEAD..OVERHEAD + start] + stream
  {
    assert buf[OVERHEAD..OVERHEAD + index] == buf[..][OVERHEAD..OVERHEAD + index];
  }

  /** Fills in length, type, company identifier and channel before the encoded data. */
  method Frame(buf: array<byte>, index: nat, channel: byte) returns (bytes: seq<byte>)
    requires buf.Length == OVERHEAD + MAX_SIZE && index <= MAX_SIZE
    modifies buf
    ensures bytes == Advertisement(channel, old(buf[OVERHEAD..OVERHEAD + index]))
  {
    ghost var body := buf[OVERHEAD..OVERHEAD + index];
    buf[0] := index + 4;
    buf[1] := MFG_SPECIFIC;
    buf[2], buf[3] := LEGO_CID[0], LEGO_CID[1];
    buf[4] := channel;
    bytes := buf[..OVERHEAD + index];
    assert bytes[OVERHEAD..] == body;
    assert bytes[..OVERHEAD] == [(|body| + 4) as byte, MFG_SPECIFIC] + LEGO_CID + [channel];
  }

  /** A single object is encoded by the same loop, from position 1. */
  lemma SingleStream(d: Data)
    ensures d.Single? ==> StreamError([d.value], 1) == BodyError(d)
    ensures d.Single? && Encodable(d.value) ==> Stream([d.value]) == Item(d.value)
  {
    if d.Single? {
      assert StreamTo([d.value], 0) == [] && ErrorTo([d.value], 0, 1) == None;
      assert ErrorTo([d.value], 1, 1) == EncodeError(d.value, 1);
    }
  }

  /** What one more value adds to the error and to the bytes. */
  lemma OneMore(vs: seq<Value>, k: nat, start: nat)
    requires k < |vs| && ErrorTo(vs, k, start).None?
    ensures ErrorTo(vs, k + 1, start) == EncodeError(vs[k], start + |StreamTo(vs, k)|)
    ensures ErrorTo(vs, k + 1, start).None? ==> StreamTo(vs, k + 1) == StreamTo(vs, k) + Item(vs[k])
  {
  }

  /** The header of an advertisement, byte by byte. */
  lemma AdvertisementBytes(channel: byte, body: seq<byte>)
    requires |body| <= MAX_SIZE
    ensures MAX_SIZE == 26 && |Advertisement(channel, body)| == 5 + |body|
    ensures Advertisement(channel, body)[..5] == [|body| + 4, 0xFF, 0x97, 0x03, channel]
    ensures Advertisement(channel, body)[5..] == body
  {
  }

  /** The first error is the one reported. */
  lemma {:induction false} ErrorStays(vs: seq<Value>, k: nat, n: nat, start: nat)
    requires k <= n <= |vs| && ErrorTo(vs, k, start).Some?
    ensures ErrorTo(vs, n, start) == ErrorTo(vs, k, start)
    decreases n
  {
    if k < n {
      ErrorStays(vs, k, n - 1, start);
    }
  }

  /** So a list fails with the error of the first object that does not go in behind those before it. */
  lemma FirstErrorDecides(vs: seq<Value>, i: nat, start: nat)
    requires i < |vs| && ErrorTo(vs, i, start).None? && EncodeError(vs[i], start + |StreamTo(vs, i)|).Some?
    ensures StreamError(vs, start) == EncodeError(vs[i], start + |StreamTo(vs, i)|)
  {
    OneMore(vs, i, start);
    ErrorStays(vs, i + 1, |vs|, start);
  }

  // ----- Receiving -----

  /** A row of the observed-data table. */
  datatype Entry = Entry(channel: byte, link: Rssi.Channel, size: byte, data: seq<byte>)

  predicate EntriesOk(entries: seq<Entry>) {
    forall i :: 0 <= i < |entries| ==> |entries[i].data| == MAX_SIZE
  }

  /** lookup_observed_data: the first row of the channel at or after i, or the number of rows. */
  function Lookup(entries: seq<Entry>, channel: byte, i: nat): (k: nat)
    requires i <= |entries|
    ensures i <= k <= |entries|
    ensures k < |entries| ==> entries[k].channel == channel
    ensures forall j :: i <= j < k ==> entries[j].channel != channel
    decreases |entries| - i
  {
    if i == |entries| || entries[i].channel == channel then i else Lookup(entries, channel, i + 1)
  }

  /** The header the parser looks for. raw is the driver's buffer, at least as long as the parser copies. */
  predicate IsBroadcast(raw: seq<byte>, length: nat)
    requires |raw| >= OVERHEAD + MAX_SIZE
  {
    length >= OVERHEAD && raw[1] == MFG_SPECIFIC && raw[2..4] == LEGO_CID
  }

  /** The length byte counts type, company identifier and channel too; the difference is kept in eight bits. */
  function StoredSize(length: int): byte {
    (length - 4) % 256
  }

  function Update(e: Entry, raw: seq<byte>, rssi: int, now: int): (e': Entry)
    requires |raw| >= OVERHEAD + MAX_SIZE
    ensures |e'.data| == MAX_SIZE && e'.channel == e.channel
  {
    Entry(e.channel, Rssi.Received(e.link, now, rssi), StoredSize(raw[0]), raw[OVERHEAD..OVERHEAD + MAX_SIZE])
  }

  /** The table after an advertisement. */
  function Handled(entries: seq<Entry>, raw: seq<byte>, length: nat, rssi: int, now: int): (es: seq<Entry>)
    requires |raw| >= OVERHEAD + MAX_SIZE
    ensures |es| == |entries| && (EntriesOk(entries) ==> EntriesOk(es))
  {
    if !IsBroadcast(raw, length) then entries
    else
      var k := Lookup(entries, raw[4], 0);
      if k == |entries| then entries else entries[k := Update(entries[k], raw, rssi, now)]
  }

  /** The row that takes an advertisement: the first of the channel in its fifth byte. */
  ghost predicate Takes(entries: seq<Entry>, raw: seq<byte>, length: nat, k: nat)
    requires |raw| >= OVERHEAD + MAX_SIZE
  {
    && length >= 5 && raw[1] == 0xFF && raw[2] == 0x97 && raw[3] == 0x03
    && k < |entries| && entries[k].channel == raw[4] && forall j :: 0 <= j < k ==> entries[j].channel != raw[4]
  }

  /**
    Only manufacturer data of this company for a configured channel changes the table, and only in that row: its
    data is what follows the five bytes of the header, and its size four less than the length byte.
   */
  lemma OnlyTakerChanges(entries: seq<Entry>, raw: seq<byte>, length: nat, rssi: int, now: int, k: nat)
    requires |raw| >= OVERHEAD + MAX_SIZE && k < |entries|
    ensures var es := Handled(entries, raw, length, rssi, now);
            if Takes(entries, raw, length, k) then
              es[k].channel == raw[4] && es[k].data == raw[5..31] && es[k].size == (raw[0] as int - 4) % 256
            else es[k] == entries[k]
  {
    assert raw[2..4] == [raw[2], raw[3]];
  }

  function Refresh(e: Entry, now: int): Entry {
    if Rssi.IsStale(e.link, now) then e.(size := 0, link := Rssi.Queried(e.link, now)) else e
  }

  datatype Observation = NotConfigured | NoData | Data(observed: Observed)

  /** The table and the result after observe(); the channel number is taken modulo 256. */
  function Observe(entries: seq<Entry>, channel: int, now: int): (seq<Entry>, Observation)
    requires EntriesOk(entries)
  {
    var k := Lookup(entries, channel % 256, 0);
    if k == |entries| then (entries, NotConfigured)
    else
      var e := Refresh(entries[k], now);
      (entries[k := e], if e.link.rssi == Rssi.NO_DATA then NoData else Data(DecodeBody(e.data, e.size)))
  }

  /** The advertisement of d on a channel, as it lies in the receiver's buffer. */
  predicate Carries(raw: seq<byte>, length: nat, channel: byte, d: BleCodec.Data) {
    && CanBroadcast(d) && |raw| >= OVERHEAD + MAX_SIZE
    && Advertisement(channel, Body(d)) <= raw && length == OVERHEAD + |Body(d)|
  }

  lemma UpdateFromAdvertisement(e: Entry, raw: seq<byte>, body: seq<byte>, rssi: int, now: int)
    requires |body| <= MAX_SIZE && |raw| >= OVERHEAD + MAX_SIZE && Advertisement(e.channel, body) <= raw
    ensures IsBroadcast(raw, OVERHEAD + |body|) && raw[4] == e.channel
    ensures Update(e, raw, rssi, now).size == |body| && body <= Update(e, raw, rssi, now).data
  {
    var ad := Advertisement(e.channel, body);
    assert forall i :: 0 <= i < |ad| ==> raw[i] == ad[i];
    assert ad[OVERHEAD..] == body;
    assert raw[OVERHEAD..OVERHEAD + |body|] == body;
  }

  lemma ObserveFresh(entries: seq<Entry>, channel: byte, now: int)
    requires EntriesOk(entries) && Lookup(entries, channel, 0) < |entries|
    requires !Rssi.IsStale(entries[Lookup(entries, channel, 0)].link, now)
    ensures var e := entries[Lookup(entries, channel, 0)];
            Observe(entries, channel, now) ==
            (entries, if e.link.rssi == Rssi.NO_DATA then NoData else Data(DecodeBody(e.data, e.size)))
  {
    assert channel % 256 == channel;
    var k := Lookup(entries, channel, 0);
    assert entries[k := entries[k]] == entries;
  }

  /** The table after an advertisement on a configured channel, and what observe() finds in it within the timeout. */
  lemma ObserveHandled(entries: seq<Entry>, body: seq<byte>, channel: byte, raw: seq<byte>, rssi: int, sent: int,
      seen: int)
    requires EntriesOk(entries) && |body| <= MAX_SIZE
    requires |raw| >= OVERHEAD + MAX_SIZE && Advertisement(channel, body) <= raw
    requires Lookup(entries, channel, 0) < |entries| && 0 <= seen - sent <= Rssi.TIMEOUT
    ensures var k := Lookup(entries, channel, 0);
            var e := Update(entries[k], raw, rssi, sent);
            var es := Handled(entries, raw, OVERHEAD + |body|, rssi, sent);
            && es == entries[k := e]
            && Observe(es, channel, seen) == (es,
                if e.link.rssi == Rssi.NO_DATA then NoData else Data(DecodeBody(e.data, e.size)))
  {
    var k := Lookup(entries, channel, 0);
    UpdateFromAdvertisement(entries[k], raw, body, rssi, sent);
    var es := Handled(entries, raw, OVERHEAD + |body|, rssi, sent);
    LookupUnchanged(entries, es, channel, 0);
    ReceivedIsFresh(entries[k].link, sent, rssi, seen);
    ObserveFresh(es, channel, seen);
  }

  /**
    Broadcast then observe: an advertisement of d on a configured channel, observed within the
    timeout, gives back d, except that a smoothed signal strength equal to the "no data" value
    hides it. Rows of other channels are unchanged throughout.
   */
  lemma BroadcastThenObserve(entries: seq<Entry>, d: BleCodec.Data, channel: byte, raw: seq<byte>, length: nat,
                             rssi: int, sent: int, seen: int)
    requires EntriesOk(entries) && Carries(raw, length, channel, d)
    requires Lookup(entries, channel, 0) < |entries|
    requires 0 <= seen - sent <= Rssi.TIMEOUT
    ensures var k := Lookup(entries, channel, 0);
            var es := Handled(entries, raw, length, rssi, sent);
            var (es', result) := Observe(es, channel, seen);
            && |es| == |es'| == |entries|
            && (result == Data(Seen(d)) <==> Rssi.Received(entries[k].link, sent, rssi).rssi != Rssi.NO_DATA)
            && (result == NoData <==> Rssi.Received(entries[k].link, sent, rssi).rssi == Rssi.NO_DATA)
            && forall j :: 0 <= j < |entries| && j != k ==> es[j] == es'[j] == entries[j]
  {
    var k := Lookup(entries, channel, 0);
    var e := Update(entries[k], raw, rssi, sent);
    UpdateFromAdvertisement(entries[k], raw, Body(d), rssi, sent);
    DecodeOfBody(d, e.data);
    ObserveHandled(entries, Body(d), channel, raw, rssi, sent, seen);
  }

  lemma ReceivedIsFresh(link: Rssi.Channel, sent: int, rssi: int, seen: int)
    requires 0 <= seen - sent <= Rssi.TIMEOUT
    ensures !Rssi.IsStale(Rssi.Received(link, sent, rssi), seen)
  {
    WrapOfWrap(Wrap(sent) - link.timestamp, link.timestamp);
    WrapOfWrap(sent, 0);
    assert Rssi.Received(link, sent, rssi).timestamp == Wrap(sent);
    WrapDifference(seen, sent);
  }

  lemma {:induction false} LookupUnchanged(entries: seq<Entry>, es: seq<Entry>, channel: byte, i: nat)
    requires |es| == |entries| && i <= |es|
    requires forall j :: 0 <= j < |es| ==> es[j].channel == entries[j].channel
    ensures Lookup(es, channel, i) == Lookup(entries, channel, i)
    decreases |es| - i
  {
    if i < |es| && es[i].channel != channel {
      LookupUnchanged(entries, es, channel, i + 1);
    }
  }

  /**
    And it always does when the channel's history is timely and every sample, this one included,
    was stronger than the "no data" value.
   */
  lemma BroadcastIsObserved(entries: seq<Entry>, d: BleCodec.Data, channel: byte, raw: seq<byte>, length: nat,
                            rssi: int, sent: int, seen: int, configured: int, history: seq<Rssi.Event>)
    requires EntriesOk(entries) && Carries(raw, length, channel, d)
    requires Lookup(entries, channel, 0) < |entries|
    requires entries[Lookup(entries, channel, 0)].link == Rssi.Run(configured, history)
    requires Rssi.Timely(configured, history + [Rssi.Sample(sent, rssi)])
    requires Rssi.SamplesWithin(history + [Rssi.Sample(sent, rssi)], Rssi.NO_DATA + 1, 127)
    requires 0 <= seen - sent <= Rssi.TIMEOUT
    ensures Observe(Handled(entries, raw, length, rssi, sent), channel, seen).1 == Data(Seen(d))
  {
    var es := history + [Rssi.Sample(sent, rssi)];
    assert es[..|es| - 1] == history && es[|es| - 1].Sample?;
    Rssi.RunIsSound(configured, es, Rssi.NO_DATA + 1, 127);
    BroadcastThenObserve(entries, d, channel, raw, length, rssi, sent, seen);
  }

  // ----- Channels and values that are not what they seem -----

  /** observe() raises ValueError exactly when no row is configured for the channel number modulo 256. */
  lemma NotConfiguredIff(entries: seq<Entry>, channel: int, now: int)
    requires EntriesOk(entries)
    ensures Observe(entries, channel, now).1 == NotConfigured <==>
            forall j :: 0 <= j < |entries| ==> entries[j].channel != channel % 256
  {
    assert Lookup(entries, channel % 256, 0) == |entries| ||
           entries[Lookup(entries, channel % 256, 0)].channel == channel % 256;
  }

  /** So a number that is no channel is accepted exactly when its remainder is a configured one, and reads that. */
  lemma OutOfRangeIsAliased(entries: seq<Entry>, channel: int, now: int)
    requires EntriesOk(entries) && !(0 <= channel < 256)
    ensures Observe(entries, channel, now) == Observe(entries, channel % 256, now)
    ensures Observe(entries, channel, now).1 != NotConfigured <==>
            exists j :: 0 <= j < |entries| && entries[j].channel == channel % 256
  {
    NotConfiguredIff(entries, channel, now);
  }

  /** For instance channel 257 with only channel 1 configured. */
  lemma Channel257(e: Entry, now: int)
    requires e.channel == 1 && |e.data| == MAX_SIZE
    ensures Observe([e], 257, now).1 != NotConfigured && Observe([e], 257, now) == Observe([e], 1, now)
  {
    assert [e][0].channel == 257 % 256;
    OutOfRangeIsAliased([e], 257, now);
  }

  predicate IsFullWindowOld(link: Rssi.Channel, now: int) {
    Rssi.IsInt8(link.rssi) && Wrap(Wrap(now) - link.timestamp) >= Rssi.WINDOW
  }

  /** A sample of -128 dBm after a full window hides the data that came with it. */
  lemma WeakestSampleHides(entries: seq<Entry>, d: BleCodec.Data, channel: byte, raw: seq<byte>, length: nat,
      sent: int, seen: int)
    requires EntriesOk(entries) && Carries(raw, length, channel, d)
    requires Lookup(entries, channel, 0) < |entries| && 0 <= seen - sent <= Rssi.TIMEOUT
    requires IsFullWindowOld(entries[Lookup(entries, channel, 0)].link, sent)
    ensures Observe(Handled(entries, raw, length, Rssi.NO_DATA, sent), channel, seen).1 == NoData
  {
    hide Rssi.Smooth, DecodeBody, Handled, Observe, Advertisement, Wrap, CanBroadcast, Body, EntriesOk;
    var k := Lookup(entries, channel, 0);
    Rssi.ReceivedForgets(entries[k].link, sent, Rssi.NO_DATA);
    BroadcastThenObserve(entries, d, channel, raw, length, Rssi.NO_DATA, sent, seen);
  }

  // ----- The object -----

  class Radio {
    var entries: seq<Entry>

    constructor ()
      ensures entries == []
    {
      entries := [];
    }

    /** pb_type_ble_radio_init: checks the channel numbers and makes every row outdated. */
    method Init(broadcastChannel: Option<int>, channels: seq<int>, now: int) returns (r: Result<()>)
      modifies this
      ensures r.Ok? <==>
                && (broadcastChannel.Some? ==> 0 <= broadcastChannel.value < 256)
                && |channels| < 256
                && forall i :: 0 <= i < |channels| ==> 0 <= channels[i] < 256
      ensures r.Err? ==> r == Err(ValueError) && entries == old(entries)
      ensures r.Ok? ==> EntriesOk(entries) && |entries| == |channels|
      ensures r.Ok? ==> forall i :: 0 <= i < |entries| ==>
                          entries[i].channel == channels[i] && entries[i].link == Rssi.Configured(now)
    {
      if broadcastChannel.Some? && (broadcastChannel.value < 0 || broadcastChannel.value > 255) {
        return Err(ValueError);
      }
      if |channels| > 255 {
        return Err(ValueError);
      }
      var rows: seq<Entry> := [];
      for i := 0 to |channels|
        invariant |rows| == i && EntriesOk(rows)
        invariant forall j :: 0 <= j < i ==> 0 <= channels[j] < 256
        invariant forall j :: 0 <= j < i ==> rows[j].channel == channels[j] && rows[j].link == Rssi.Configured(now)
      {
        if channels[i] < 0 || channels[i] > 255 {
          return Err(ValueError);
        }
        rows := rows + [Entry(channels[i], Rssi.Configured(now), 0, seq(MAX_SIZE, _ => 0))];
      }
      entries := rows;
      r := Ok(());
    }

    method LookupObserved(channel: byte) returns (k: nat)
      ensures k == Lookup(entries, channel, 0)
    {
      k := 0;
      while k < |entries| && entries[k].channel != channel
        invariant k <= |entries| && Lookup(entries, channel, 0) == Lookup(entries, channel, k)
      {
        k := k + 1;
      }
    }

    /** handle_observe_event. */
    method HandleObserveEvent(raw: seq<byte>, length: nat, rssi: int, now: int)
      requires EntriesOk(entries) && |raw| >= OVERHEAD + MAX_SIZE
      modifies this
      ensures EntriesOk(entries) && entries == Handled(old(entries), raw, length, rssi, now)
    {
      if length >= OVERHEAD && raw[1] == MFG_SPECIFIC && raw[2..4] == LEGO_CID {
        var k := LookupObserved(raw[4]);
        if k == |entries| {
          return;
        }
        var e := entries[k];
        var diff := Wrap(Wrap(now) - e.link.timestamp);
        var stamp := Wrap(e.link.timestamp + diff);
        var smoothed := Rssi.Smooth(e.link.rssi, rssi, diff);
        var data := raw[OVERHEAD..OVERHEAD + MAX_SIZE];
        entries := entries[k := Entry(e.channel, Rssi.Channel(stamp, smoothed), StoredSize(raw[0]), data)];
      }
    }

    /** pb_module_ble_get_channel_data: a row that is too old is reset; None if the channel is not configured. */
    method GetChannelData(channel: int, now: int) returns (e: Option<Entry>)
      requires EntriesOk(entries)
      modifies this
      ensures EntriesOk(entries)
      ensures var k := Lookup(old(entries), channel % 256, 0);
              if k == |old(entries)| then e == None && entries == old(entries)
              else e == Some(Refresh(old(entries)[k], now)) && entries == old(entries)[k := e.value]
    {
      var k := LookupObserved(channel % 256);
      if k == |entries| {
        return None;
      }
      if Rssi.IsStale(entries[k].link, now) {
        var link := entries[k].link.(rssi := Rssi.NO_DATA);
        entries := entries[k := entries[k].(size := 0, link := link)];
      }
      e := Some(entries[k]);
    }

    /** pb_module_ble_observe. */
    method ObserveChannel(channel: int, now: int) returns (result: Observation)
      requires EntriesOk(entries)
      modifies this
      ensures EntriesOk(entries) && (entries, result) == Observe(old(entries), channel, now)
    {
      var found := GetChannelData(channel, now);
      if found.None? {
        return NotConfigured;
      }
      var e := found.value;
      if e.link.rssi == Rssi.NO_DATA {
        return NoData;
      }
      if e.size != 0 && e.data[0] / 32 == SINGLE_OBJECT {
        var v := DecodeAt(e.data, 1);
        return Data(if v.Got? then Seen(Single(v.value)) else if v.BadData? then Failed else Undefined);
      }
      var items: seq<Value>, index: nat := [], 0;
      while |items| < MAX_SIZE && index < e.size
        invariant |items| <= MAX_SIZE
        invariant DecodeTuple(e.data, e.size, index, items) == DecodeTuple(e.data, e.size, 0, [])
        decreases MAX_SIZE - |items|
      {
        var v := DecodeAt(e.data, index);
        if !v.Got? {
          return Data(if v.BadData? then Failed else Undefined);
        }
        items, index := items + [v.value], v.next;
      }
      result := Data(Seen(Tuple(items)));
    }

    /** pb_module_ble_signal_strength. */
    method SignalStrength(channel: int, now: int) returns (rssi: Option<int>)
      requires EntriesOk(entries)
      modifies this
      ensures EntriesOk(entries) && entries == Observe(old(entries), channel, now).0
      ensures var k := Lookup(old(entries), channel % 256, 0);
              rssi == if k == |old(entries)| then None else Some(Observe(old(entries), channel, now).0[k].link.rssi)
    {
      var e := GetChannelData(channel, now);
      rssi := if e.None? then None else Some(e.value.link.rssi);
    }
  }
}
