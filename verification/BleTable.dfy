/**
  Runs of the observed-channel table (pb_type_ble_radio): advertisements arrive and channels are observed in any
  order.
 */
module BleTable {
  import opened Words
  import opened BleCodec
  import opened BleRadio
  import Rssi

  datatype Event = Advert(now: int, raw: seq<byte>, length: nat, rssi: int) | Look(now: int, channel: int)

  predicate IsCopyable(e: Event) {
    e.Advert? ==> |e.raw| >= OVERHEAD + MAX_SIZE
  }

  predicate AllCopyable(es: seq<Event>) {
    forall i :: 0 <= i < |es| ==> IsCopyable(es[i])
  }

  /** The table made by the constructor. */
  function Fresh(channels: seq<byte>, now: int): (entries: seq<Entry>)
    ensures |entries| == |channels| && EntriesOk(entries)
    ensures forall i :: 0 <= i < |entries| ==>
        entries[i].channel == channels[i] && entries[i].link == Rssi.Configured(now)
  {
    var empty := seq(MAX_SIZE, _ => 0);
    seq(|channels|, i requires 0 <= i < |channels| => Entry(channels[i], Rssi.Configured(now), 0, empty))
  }

  function Step(entries: seq<Entry>, e: Event): (r: seq<Entry>)
    requires EntriesOk(entries) && IsCopyable(e)
    ensures |r| == |entries| && EntriesOk(r)
  {
    match e
    case Advert(now, raw, length, rssi) => Handled(entries, raw, length, rssi, now)
    case Look(now, channel) => Observe(entries, channel, now).0
  }

  function Table(channels: seq<byte>, configured: int, es: seq<Event>): (entries: seq<Entry>)
    requires AllCopyable(es)
    ensures |entries| == |channels| && EntriesOk(entries)
  {
    if es == [] then Fresh(channels, configured)
    else Step(Table(channels, configured, es[..|es| - 1]), es[|es| - 1])
  }

  /** The row that observes a channel: the first configured for it. */
  function Row(channels: seq<byte>, channel: byte): (k: nat)
    ensures k <= |channels|
  {
    Lookup(Fresh(channels, 0), channel, 0)
  }

  /** What an event means for the signal strength of row k. */
  function Meaning(channels: seq<byte>, e: Event, k: nat): Option<Rssi.Event>
    requires IsCopyable(e)
  {
    match e
    case Advert(now, raw, length, rssi) =>
      if IsBroadcast(raw, length) && Row(channels, raw[4]) == k then Some(Rssi.Sample(now, rssi)) else None
    case Look(now, channel) =>
      if Row(channels, channel % 256) == k then Some(Rssi.Query(now)) else None
  }

  /** The history of row k in a run. */
  function History(channels: seq<byte>, es: seq<Event>, k: nat): seq<Rssi.Event>
    requires AllCopyable(es)
  {
    if es == [] then []
    else
      var m := Meaning(channels, es[|es| - 1], k);
      History(channels, es[..|es| - 1], k) + if m.Some? then [m.value] else []
  }

  predicate SameChannels(entries: seq<Entry>, channels: seq<byte>) {
    |entries| == |channels| && forall i :: 0 <= i < |entries| ==> entries[i].channel == channels[i]
  }

  lemma RowIsLookup(entries: seq<Entry>, channels: seq<byte>, channel: byte)
    requires SameChannels(entries, channels)
    ensures Lookup(entries, channel, 0) == Row(channels, channel)
  {
    LookupUnchanged(entries, Fresh(channels, 0), channel, 0);
  }

  /** One event changes the row it means something for, as the channel's own step does, and no other. */
  lemma StepIsMeaning(entries: seq<Entry>, channels: seq<byte>, e: Event, k: nat)
    requires SameChannels(entries, channels) && EntriesOk(entries) && IsCopyable(e) && k < |entries|
    ensures SameChannels(Step(entries, e), channels)
    ensures var m := Meaning(channels, e, k);
            && (m.None? ==> Step(entries, e)[k] == entries[k])
            && (m.Some? ==> Step(entries, e)[k].link == Rssi.Step(entries[k].link, m.value))
  {
    match e
    case Advert(now, raw, length, rssi) =>
      if IsBroadcast(raw, length) {
        RowIsLookup(entries, channels, raw[4]);
      }
    case Look(now, channel) => RowIsLookup(entries, channels, channel % 256);
  }

  lemma {:induction false} ChannelsStay(channels: seq<byte>, configured: int, es: seq<Event>)
    requires AllCopyable(es)
    ensures SameChannels(Table(channels, configured, es), channels)
  {
    if es != [] {
      var entries := Table(channels, configured, es[..|es| - 1]);
      ChannelsStay(channels, configured, es[..|es| - 1]);
      forall k | 0 <= k < |entries|
        ensures Step(entries, es[|es| - 1])[k].channel == channels[k]
      {
        StepIsMeaning(entries, channels, es[|es| - 1], k);
      }
    }
  }

  lemma RunAppend(configured: int, h: seq<Rssi.Event>, m: Rssi.Event)
    ensures Rssi.Run(configured, h + [m]) == Rssi.Step(Rssi.Run(configured, h), m)
  {
    assert (h + [m])[..|h|] == h;
  }

  /** In every run each row's link is what its own history of samples and queries makes it. */
  lemma {:induction false} LinkIsHistory(channels: seq<byte>, configured: int, es: seq<Event>, k: nat)
    requires AllCopyable(es) && k < |channels|
    ensures Table(channels, configured, es)[k].link == Rssi.Run(configured, History(channels, es, k))
    decreases |es|
  {
    if es != [] {
      var before, e := es[..|es| - 1], es[|es| - 1];
      LinkIsHistory(channels, configured, before, k);
      ChannelsStay(channels, configured, before);
      LinkFollows(Table(channels, configured, before), channels, configured, e, k, History(channels, before, k));
    }
  }

  lemma LinkFollows(entries: seq<Entry>, channels: seq<byte>, configured: int, e: Event, k: nat, h: seq<Rssi.Event>)
    requires SameChannels(entries, channels) && EntriesOk(entries) && IsCopyable(e) && k < |entries|
    requires entries[k].link == Rssi.Run(configured, h)
    ensures var m := Meaning(channels, e, k);
            Step(entries, e)[k].link == Rssi.Run(configured, h + if m.Some? then [m.value] else [])
  {
    StepIsMeaning(entries, channels, e, k);
    var m := Meaning(channels, e, k);
    if m.Some? {
      RunAppend(configured, h, m.value);
    } else {
      assert h + [] == h;
    }
  }

  /** Since the advertisement sent at that time nothing but looks within the timeout concerned row k. */
  predicate Quiet(channels: seq<byte>, es: seq<Event>, k: nat, sent: int)
    requires AllCopyable(es)
  {
    forall i :: 0 <= i < |es| ==>
      var m := Meaning(channels, es[i], k);
      m.Some? ==> m.value.Query? && 0 <= m.value.now - sent <= Rssi.TIMEOUT
  }

  lemma RunsCompose(channels: seq<byte>, configured: int, es: seq<Event>, e: Event)
    requires AllCopyable(es) && IsCopyable(e)
    ensures AllCopyable(es + [e]) && Table(channels, configured, es + [e]) == Step(Table(channels, configured, es), e)
  {
    assert (es + [e])[..|es|] == es;
  }

  /** An event that is a look within the timeout, or none at all, leaves the row of a fresh sample as it is. */
  lemma QuietStep(entries: seq<Entry>, channels: seq<byte>, e: Event, k: nat, sent: int)
    requires SameChannels(entries, channels) && EntriesOk(entries) && IsCopyable(e) && k < |entries|
    requires Quiet(channels, [e], k, sent) && entries[k].link.timestamp == Wrap(sent)
    ensures Step(entries, e)[k] == entries[k]
  {
    StepIsMeaning(entries, channels, e, k);
    assert [e][0] == e;
    if Meaning(channels, e, k).Some? {
      RowIsLookup(entries, channels, e.channel % 256);
      WrapDifference(e.now, sent);
    }
  }

  /** While it is quiet the row of a fresh sample does not change. */
  lemma {:induction false} QuietKeepsRow(channels: seq<byte>, configured: int, es: seq<Event>, after: seq<Event>,
                                         k: nat, sent: int)
    requires AllCopyable(es) && AllCopyable(after) && k < |channels| && Quiet(channels, after, k, sent)
    requires Table(channels, configured, es)[k].link.timestamp == Wrap(sent)
    ensures AllCopyable(es + after)
    ensures Table(channels, configured, es + after)[k] == Table(channels, configured, es)[k]
    decreases |after|
  {
    if after == [] {
      assert es + after == es;
    } else {
      var front, e := after[..|after| - 1], after[|after| - 1];
      assert es + after == (es + front) + [e];
      QuietKeepsRow(channels, configured, es, front, k, sent);
      ChannelsStay(channels, configured, es + front);
      RunsCompose(channels, configured, es + front, e);
      QuietStep(Table(channels, configured, es + front), channels, e, k, sent);
    }
  }

  /**
    Observing returns the latest advertisement of the channel. In any run of the table whose samples on this
    channel are timely and stronger than the "no data" value, an advertisement of d is what observe() returns until
    the timeout, whatever else is received or observed meanwhile.
   */
  lemma LatestIsObserved(channels: seq<byte>, configured: int, before: seq<Event>, ad: Event, after: seq<Event>,
                         channel: byte, d: BleCodec.Data, seen: int)
    requires AllCopyable(before) && AllCopyable(after) && ad.Advert? && Carries(ad.raw, ad.length, channel, d)
    requires channel in channels && Quiet(channels, after, Row(channels, channel), ad.now)
    requires 0 <= seen - ad.now <= Rssi.TIMEOUT
    requires var h := History(channels, before, Row(channels, channel)) + [Rssi.Sample(ad.now, ad.rssi)];
             Rssi.Timely(configured, h) && Rssi.SamplesWithin(h, Rssi.NO_DATA + 1, 127)
    ensures AllCopyable(before + [ad] + after)
    ensures Observe(Table(channels, configured, before + [ad] + after), channel, seen).1 == Data(Seen(d))
  {
    var k, es := Row(channels, channel), before + [ad];
    RowExists(channels, channel);
    AdvertIsObserved(channels, configured, before, ad, channel, d, seen);
    QuietKeepsRow(channels, configured, es, after, k, ad.now);
    ChannelsStay(channels, configured, es);
    ChannelsStay(channels, configured, es + after);
    var before', after' := Table(channels, configured, es), Table(channels, configured, es + after);
    SameRowSameResult(before', after', channels, channel, seen);
  }

  /** Right after the advertisement. */
  lemma AdvertIsObserved(channels: seq<byte>, configured: int, before: seq<Event>, ad: Event, channel: byte,
                         d: BleCodec.Data, seen: int)
    requires AllCopyable(before) && ad.Advert? && Carries(ad.raw, ad.length, channel, d)
    requires channel in channels && 0 <= seen - ad.now <= Rssi.TIMEOUT
    requires var h := History(channels, before, Row(channels, channel)) + [Rssi.Sample(ad.now, ad.rssi)];
             Rssi.Timely(configured, h) && Rssi.SamplesWithin(h, Rssi.NO_DATA + 1, 127)
    ensures AllCopyable(before + [ad]) && Row(channels, channel) < |channels|
    ensures var entries := Table(channels, configured, before + [ad]);
            && Observe(entries, channel, seen).1 == Data(Seen(d))
            && entries[Row(channels, channel)].link.timestamp == Wrap(ad.now)
  {
    var k, u := Row(channels, channel), Table(channels, configured, before);
    RowExists(channels, channel);
    ChannelsStay(channels, configured, before);
    LinkIsHistory(channels, configured, before, k);
    RowIsLookup(u, channels, channel);
    RunsCompose(channels, configured, before, ad);
    var h := History(channels, before, k);
    BroadcastIsObserved(u, d, channel, ad.raw, ad.length, ad.rssi, ad.now, seen, configured, h);
    ObserveHandled(u, Body(d), channel, ad.raw, ad.rssi, ad.now, seen);
    ReceivedAt(u[k].link, ad.now, ad.rssi);
  }

  lemma RowExists(channels: seq<byte>, channel: byte)
    requires channel in channels
    ensures Row(channels, channel) < |channels| && channels[Row(channels, channel)] == channel
  {
    var i :| 0 <= i < |channels| && channels[i] == channel;
    assert Fresh(channels, 0)[i].channel == channel;
  }

  lemma ReceivedAt(link: Rssi.Channel, now: int, rssi: int)
    ensures Rssi.Received(link, now, rssi).timestamp == Wrap(now)
  {
    WrapOfWrap(Wrap(now) - link.timestamp, link.timestamp);
    WrapOfWrap(now, 0);
  }

  lemma SameRowSameResult(entries: seq<Entry>, es: seq<Entry>, channels: seq<byte>, channel: byte, now: int)
    requires SameChannels(entries, channels) && SameChannels(es, channels) && EntriesOk(entries) && EntriesOk(es)
    requires Row(channels, channel) < |channels| && es[Row(channels, channel)] == entries[Row(channels, channel)]
    ensures Observe(es, channel, now).1 == Observe(entries, channel, now).1
  {
    RowIsLookup(entries, channels, channel);
    RowIsLookup(es, channels, channel);
    assert channel % 256 == channel;
  }

  // ----- Data that is too old -----

  /** In any run: how long ago the last sample of the channel came, at true time seen. */
  function Age(channels: seq<byte>, configured: int, es: seq<Event>, channel: byte, seen: int): int
    requires AllCopyable(es)
  {
    seen - Rssi.LastSample(configured, History(channels, es, Row(channels, channel)))
  }

  /** The channel's events are in true-time order with gaps below one turn of the clock, up to time seen. */
  predicate IsTimely(channels: seq<byte>, configured: int, es: seq<Event>, channel: byte, seen: int)
    requires AllCopyable(es)
  {
    var h := History(channels, es, Row(channels, channel));
    && Rssi.Timely(configured, h) && Rssi.SamplesWithin(h, -128, 127)
    && Rssi.LatestTime(configured, h) <= seen && Age(channels, configured, es, channel, seen) < U32
  }

  /**
    In every run: more than 1000 ms after its last sample a channel answers "no data", and its row is emptied and its
    signal strength set to -128; up to 1000 ms after it observing changes nothing.
   */
  lemma ExpiresAfterOneSecond(channels: seq<byte>, configured: int, es: seq<Event>, channel: byte, seen: int)
    requires AllCopyable(es) && channel in channels && IsTimely(channels, configured, es, channel, seen)
    ensures var k, entries := Row(channels, channel), Table(channels, configured, es);
            var (after, result) := Observe(entries, channel, seen);
            && k < |entries| == |after|
            && if Age(channels, configured, es, channel, seen) > 1000 then
                 result == NoData && after[k].size == 0 && after[k].link.rssi == -128
               else after == entries
  {
    hide Rssi.Smooth, Observe;
    var k, entries := Row(channels, channel), Table(channels, configured, es);
    var h := History(channels, es, k);
    RowExists(channels, channel);
    ChannelsStay(channels, configured, es);
    RowIsLookup(entries, channels, channel);
    LinkIsHistory(channels, configured, es, k);
    Rssi.RunIsSound(configured, h, -128, 127);
    AgeDecides(entries, channel, k, Rssi.LastSample(configured, h), seen);
  }

  /** What observing a row does, by the age of its time stamp. */
  lemma AgeDecides(entries: seq<Entry>, channel: byte, k: nat, last: int, seen: int)
    requires EntriesOk(entries) && Lookup(entries, channel, 0) == k < |entries|
    requires entries[k].link.timestamp == Wrap(last) && 0 <= seen - last < U32
    ensures var (after, result) := Observe(entries, channel, seen);
            && |after| == |entries|
            && (seen - last > 1000 ==> result == NoData && after[k].size == 0 && after[k].link.rssi == -128)
            && (seen - last <= 1000 ==> after == entries)
  {
    Rssi.AgeIsTrue(entries[k].link, last, seen);
    assert channel % 256 == channel && entries[k := entries[k]] == entries;
  }

  /** A channel on which nothing has been received answers "no data". */
  lemma NothingReceivedIsNoData(channels: seq<byte>, configured: int, es: seq<Event>, channel: byte, seen: int)
    requires AllCopyable(es) && channel in channels && IsTimely(channels, configured, es, channel, seen)
    requires !Rssi.HasSample(History(channels, es, Row(channels, channel))) && configured <= seen
    ensures Observe(Table(channels, configured, es), channel, seen).1 == NoData
  {
    Rssi.NoSampleYet(configured, History(channels, es, Row(channels, channel)));
    ExpiresAfterOneSecond(channels, configured, es, channel, seen);
  }
}
