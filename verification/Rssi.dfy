/** Smoothing of the received signal strength in wrapping unsigned arithmetic (pb_type_ble_radio). */
module Rssi {
  import opened Words

  const WINDOW := 512
  const TIMEOUT := 1000
  /** INT8_MIN doubles as "no data". */
  const NO_DATA := -128

  predicate IsInt8(x: int) {
    -128 <= x <= 127
  }

  /** The signed 8-bit value of the low byte. */
  function ToInt8(u: int): (x: int)
    ensures IsInt8(x)
  {
    var low := u % 256;
    if low < 128 then low else low - 256
  }

  /** The expression of handle_observe_event: signed operands converted to 32-bit unsigned, then cut to eight bits. */
  function Smooth(before: int, sample: int, diff: nat): int {
    var d := if diff > WINDOW then WINDOW else diff;
    ToInt8(Wrap(Wrap(Wrap(before) * (WINDOW - d)) + Wrap(Wrap(sample) * d)) / WINDOW)
  }

  lemma WrapProduct(x: int, k: int)
    ensures Wrap(Wrap(x) * k) == Wrap(x * k)
  {
    var q := x / U32;
    assert x * k == Wrap(x) * k + (q * k) * U32;
    AddMultiple(Wrap(x) * k, q * k);
  }

  /** Unsigned division of the wrapped sum and truncation lose nothing. */
  lemma DivideWrapped(sum: int)
    requires IsInt8(sum / WINDOW)
    ensures ToInt8(Wrap(sum) / WINDOW) == sum / WINDOW
  {
    var q := sum / U32;
    assert Wrap(sum) / WINDOW == sum / WINDOW - q * 0x80_0000;
    assert (sum / WINDOW - q * 0x80_0000) % 256 == (sum / WINDOW) % 256;
  }

  /** The weighted sum over the window, before division. */
  function Weighted(before: int, sample: int, d: nat): int {
    before * (WINDOW - d) + sample * d
  }

  lemma ProductBetween(x: int, d: nat, lo: int, hi: int)
    requires lo <= x <= hi
    ensures lo * d <= x * d <= hi * d
  {
  }

  lemma SplitWindow(x: int, d: nat)
    requires d <= WINDOW
    ensures x * (WINDOW - d) + x * d == x * WINDOW
  {
  }

  lemma QuotientBetween(sum: int, lo: int, hi: int)
    requires lo * WINDOW <= sum <= hi * WINDOW
    ensures lo <= sum / WINDOW <= hi
  {
  }

  lemma WeightedBetween(before: int, sample: int, d: nat, lo: int, hi: int)
    requires d <= WINDOW && lo <= before <= hi && lo <= sample <= hi
    ensures lo <= Weighted(before, sample, d) / WINDOW <= hi
  {
    ProductBetween(before, WINDOW - d, lo, hi);
    ProductBetween(sample, d, lo, hi);
    SplitWindow(lo, d);
    SplitWindow(hi, d);
    QuotientBetween(Weighted(before, sample, d), lo, hi);
  }

  lemma SumOfWraps(x: int, y: int)
    ensures Wrap(Wrap(x) + Wrap(y)) == Wrap(x + y)
  {
    WrapOfWrap(x, Wrap(y));
    WrapOfWrap(y, x);
  }

  /** The wrapped, truncated expression is the exact floor of the weighted average. */
  lemma SmoothIsFloorAverage(before: int, sample: int, diff: nat)
    requires IsInt8(before) && IsInt8(sample)
    ensures var d := if diff > WINDOW then WINDOW else diff;
            Smooth(before, sample, diff) == Weighted(before, sample, d) / WINDOW
  {
    hide Wrap, ToInt8;
    var d := if diff > WINDOW then WINDOW else diff;
    WrapProduct(before, WINDOW - d);
    WrapProduct(sample, d);
    SumOfWraps(before * (WINDOW - d), sample * d);
    WeightedBetween(before, sample, d, -128, 127);
    assert Smooth(before, sample, diff) == ToInt8(Wrap(Weighted(before, sample, d)) / WINDOW);
    DivideWrapped(Weighted(before, sample, d));
  }

  /** In numbers: weights add up to 512, one for each millisecond of the window. */
  lemma SmoothOver512(before: int, sample: int, diff: nat)
    requires IsInt8(before) && IsInt8(sample)
    ensures diff <= 512 ==> Smooth(before, sample, diff) == (before * (512 - diff) + sample * diff) / 512
    ensures diff >= 512 ==> Smooth(before, sample, diff) == sample
  {
    SmoothIsFloorAverage(before, sample, diff);
  }

  /** So it lies between the old value and the sample. */
  lemma SmoothIsBetween(before: int, sample: int, diff: nat, lo: int, hi: int)
    requires IsInt8(before) && IsInt8(sample)
    requires lo <= before <= hi && lo <= sample <= hi
    ensures lo <= Smooth(before, sample, diff) <= hi
  {
    SmoothIsFloorAverage(before, sample, diff);
    WeightedBetween(before, sample, if diff > WINDOW then WINDOW else diff, lo, hi);
  }

  /** After a full window nothing is left of the old value. */
  lemma SmoothForgets(before: int, sample: int, diff: nat)
    requires IsInt8(before) && IsInt8(sample) && diff >= WINDOW
    ensures Smooth(before, sample, diff) == sample
  {
    SmoothIsFloorAverage(before, sample, diff);
  }

  // ----- One channel over time -----

  datatype Event = Sample(now: int, rssi: int) | Query(now: int)

  /** The registers of a channel. */
  datatype Channel = Channel(timestamp: nat, rssi: int)

  /** A configured channel is outdated from the start. */
  function Configured(now: int): Channel {
    Channel(Wrap(Wrap(now) - WINDOW - TIMEOUT), NO_DATA)
  }

  function Received(c: Channel, now: int, rssi: int): Channel {
    var diff := Wrap(Wrap(now) - c.timestamp);
    Channel(Wrap(c.timestamp + diff), Smooth(c.rssi, rssi, diff))
  }

  /** A sample after a full window replaces the stored value. */
  lemma ReceivedForgets(c: Channel, now: int, sample: int)
    requires IsInt8(c.rssi) && IsInt8(sample) && Wrap(Wrap(now) - c.timestamp) >= WINDOW
    ensures Received(c, now, sample).rssi == sample
  {
    SmoothForgets(c.rssi, sample, Wrap(Wrap(now) - c.timestamp));
  }

  predicate IsStale(c: Channel, now: int) {
    Wrap(Wrap(now) - c.timestamp) > TIMEOUT
  }

  function Queried(c: Channel, now: int): Channel {
    if IsStale(c, now) then c.(rssi := NO_DATA) else c
  }

  function Step(c: Channel, e: Event): Channel {
    match e
    case Sample(now, rssi) => Received(c, now, rssi)
    case Query(now) => Queried(c, now)
  }

  function Run(configured: int, es: seq<Event>): Channel {
    if es == [] then Configured(configured) else Step(Run(configured, es[..|es| - 1]), es[|es| - 1])
  }

  /** True time of the last sample, or the pretended one of a channel without samples. */
  function LastSample(configured: int, es: seq<Event>): int {
    if es == [] then configured - WINDOW - TIMEOUT
    else if es[|es| - 1].Sample? then es[|es| - 1].now
    else LastSample(configured, es[..|es| - 1])
  }

  predicate HasSample(es: seq<Event>) {
    exists i :: 0 <= i < |es| && es[i].Sample?
  }

  /** Events come in true-time order, each less than one turn of the clock after the last sample. */
  predicate Timely(configured: int, es: seq<Event>) {
    es == [] ||
    (var before, e := es[..|es| - 1], es[|es| - 1];
     && Timely(configured, before)
     && (before == [] ==> configured <= e.now)
     && (before != [] ==> before[|before| - 1].now <= e.now)
     && e.now - LastSample(configured, before) < U32)
  }

  /** A channel is configured as if its last sample had come 1512 ms before. */
  lemma {:induction false} NoSampleYet(configured: int, es: seq<Event>)
    requires !HasSample(es)
    ensures LastSample(configured, es) == configured - 1512
  {
    if es != [] {
      assert !es[|es| - 1].Sample?;
      NoSampleYet(configured, es[..|es| - 1]);
    }
  }

  predicate SamplesWithin(es: seq<Event>, lo: int, hi: int) {
    forall i :: 0 <= i < |es| && es[i].Sample? ==> lo <= es[i].rssi <= hi && IsInt8(es[i].rssi)
  }

  function LatestTime(configured: int, es: seq<Event>): int {
    if es == [] then configured else es[|es| - 1].now
  }

  /** The channel knows when its last sample was; its value is within the samples, or it says "no data" and is stale. */
  predicate Sound(c: Channel, last: int, sampled: bool, lo: int, hi: int, now: int) {
    && c.timestamp == Wrap(last) && last <= now && IsInt8(c.rssi)
    && ((sampled && lo <= c.rssi <= hi) || (c.rssi == NO_DATA && now - last > TIMEOUT))
  }

  lemma AgeIsTrue(c: Channel, last: int, now: int)
    requires c.timestamp == Wrap(last) && 0 <= now - last < U32
    ensures Wrap(Wrap(now) - c.timestamp) == now - last
    ensures Wrap(c.timestamp + Wrap(Wrap(now) - c.timestamp)) == Wrap(now)
  {
    WrapDifference(now, last);
    WrapOfWrap(last, now - last);
  }

  lemma StepIsSound(c: Channel, last: int, sampled: bool, lo: int, hi: int, before: int, e: Event)
    requires Sound(c, last, sampled, lo, hi, before)
    requires before <= e.now && e.now - last < U32
    requires e.Sample? ==> lo <= e.rssi <= hi && IsInt8(e.rssi)
    ensures Sound(Step(c, e), if e.Sample? then e.now else last, sampled || e.Sample?, lo, hi, e.now)
  {
    AgeIsTrue(c, last, e.now);
    if e.Sample? {
      SmoothIsFloorAverage(c.rssi, e.rssi, e.now - last);
      if sampled && lo <= c.rssi <= hi {
        SmoothIsBetween(c.rssi, e.rssi, e.now - last, lo, hi);
      } else {
        SmoothForgets(c.rssi, e.rssi, e.now - last);
      }
    }
  }

  /**
    Over every run with gaps below one turn of the clock the "no data" value never weighs in: what
    is stored is between the least and the greatest sample, or it is "no data" and the channel is stale.
   */
  lemma {:induction false} RunIsSound(configured: int, es: seq<Event>, lo: int, hi: int)
    requires Timely(configured, es) && SamplesWithin(es, lo, hi)
    ensures Sound(Run(configured, es), LastSample(configured, es), HasSample(es), lo, hi, LatestTime(configured, es))
  {
    if es == [] {
      WrapOfWrap(configured, -WINDOW - TIMEOUT);
    } else {
      var before, e := es[..|es| - 1], es[|es| - 1];
      RunIsSound(configured, before, lo, hi);
      StepIsSound(Run(configured, before), LastSample(configured, before), HasSample(before), lo, hi,
          LatestTime(configured, before), e);
      assert HasSample(es) <==> HasSample(before) || e.Sample? by {
        if HasSample(before) {
          var i :| 0 <= i < |before| && before[i].Sample?;
          assert es[i].Sample?;
        }
      }
    }
  }
}
