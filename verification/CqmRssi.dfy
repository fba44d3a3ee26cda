/** Connection quality monitoring with several RSSI thresholds, from `Wireless/nl80211.c`. After
    every event the driver is told a range around the last reading and reports again only outside
    it. The main results say exactly for which configurations the range always contains the
    reading, and that for those a later reading outside the range has crossed a threshold and
    moved by more than the hysteresis. */
module CqmRssi {
  import opened Basics

  const S32_MIN := -0x8000_0000
  const S32_MAX := 0x7FFF_FFFF
  const TWO32 := 0x1_0000_0000

  predicate S32(x: int) {
    S32_MIN <= x <= S32_MAX
  }

  /** Conversion of an unsigned 32-bit result to `s32`. */
  function Wrap(x: int): (r: int)
    ensures S32(r)
    ensures S32(x) ==> r == x
  {
    (x - S32_MIN) % TWO32 + S32_MIN
  }

  // ----- thresholds -----

  /** What `nl80211_set_cqm_rssi` accepts. */
  ghost predicate ThresholdsOk(t: seq<int>) {
    && (forall i :: 0 <= i < |t| ==> S32_MIN < t[i] <= 0)
    && (forall i, j :: 0 <= i < j < |t| ==> t[i] < t[j])
  }

  /** The loop that checks the thresholds of a request. */
  method CheckThresholds(t: seq<int>) returns (ok: bool)
    requires forall i :: 0 <= i < |t| ==> S32(t[i])
    ensures ok <==> ThresholdsOk(t)
    ensures ok <==> && (forall i :: 0 <= i < |t| ==> -0x8000_0000 < t[i] <= 0)
                    && (forall i :: 0 < i < |t| ==> t[i - 1] < t[i])
  {
    var prev := S32_MIN;
    for i := 0 to |t|
      invariant prev == if i == 0 then S32_MIN else t[i - 1]
      invariant ThresholdsOk(t[..i])
    {
      if t[i] > 0 || t[i] <= prev {
        assert i > 0 ==> t[i] <= t[i - 1] || t[i] > 0;
        return false;
      }
      assert forall k :: 0 <= k < i ==> t[..i][k] == t[k] <= prev;
      prev := t[i];
    }
    assert t[..|t|] == t;
    return true;
  }

  /** The number of thresholds at or below a reading: the first one above it comes next. */
  function Bucket(t: seq<int>, reading: int): (i: nat)
    ensures i <= |t|
    ensures forall k :: 0 <= k < i ==> t[k] <= reading
    ensures i < |t| ==> reading < t[i]
  {
    if t == [] || reading < t[0] then 0 else 1 + Bucket(t[1..], reading)
  }

  /** The range the driver is given for a reading, with the arithmetic of the source: signed and
      unsigned 32-bit operands are combined as unsigned and stored as signed. */
  function Range(t: seq<int>, hyst: int, reading: int): (r: (int, int)) {
    var i := Bucket(t, reading);
    (if i > 0 then Wrap(t[i - 1] - hyst) else S32_MIN,
     if i < |t| then Wrap(t[i] + hyst - 1) else S32_MAX)
  }

  predicate Within(r: (int, int), x: int) {
    r.0 <= x <= r.1
  }

  /** No range computed for these thresholds wraps around. It is enough to look at the lowest
      threshold: as thresholds are not positive, an upper bound can only wrap if this one does. */
  predicate NoWrap(t: seq<int>, hyst: int) {
    t == [] || t[0] - hyst >= S32_MIN
  }

  lemma BucketIs(t: seq<int>, reading: int, i: nat)
    requires ThresholdsOk(t) && i <= |t|
    requires forall k :: 0 <= k < i ==> t[k] <= reading
    requires i < |t| ==> reading < t[i]
    ensures Bucket(t, reading) == i
  {
    var b := Bucket(t, reading);
  }

  lemma RangeExact(t: seq<int>, hyst: int, reading: int)
    requires ThresholdsOk(t) && 0 <= hyst < TWO32 && NoWrap(t, hyst)
    ensures var i := Bucket(t, reading);
            Range(t, hyst, reading) == (if i > 0 then t[i - 1] - hyst else S32_MIN, if i < |t| then t[i] + hyst - 1 else S32_MAX)
  {
    var i := Bucket(t, reading);
    if i > 0 {
      assert t[0] <= t[i - 1] <= 0;
      assert S32(t[i - 1] - hyst);
    }
    if i < |t| {
      assert t[i] <= t[|t| - 1];
      assert S32(t[i] + hyst - 1);
    }
  }

  /** A configuration gives every reading a range that contains it exactly when no range wraps. */
  lemma RangesContainReadings(t: seq<int>, hyst: int)
    requires ThresholdsOk(t) && 0 <= hyst < TWO32
    ensures (forall reading :: S32(reading) ==> Within(Range(t, hyst, reading), reading)) <==> NoWrap(t, hyst)
  {
    if NoWrap(t, hyst) {
      forall reading | S32(reading) ensures Within(Range(t, hyst, reading), reading) {
        RangeExact(t, hyst, reading);
      }
    } else {
      BucketIs(t, t[0], 1);
      assert Wrap(t[0] - hyst) == t[0] - hyst + TWO32;
      assert !Within(Range(t, hyst, t[0]), t[0]);
    }
  }

  function Abs(x: int): nat {
    if x < 0 then -x else x
  }

  /** A reading outside the range of an earlier one is in another bucket and more than the
      hysteresis away. */
  lemma OutsideMeansCrossed(t: seq<int>, hyst: int, before: int, now: int)
    requires ThresholdsOk(t) && 0 <= hyst < TWO32 && NoWrap(t, hyst)
    requires S32(before) && S32(now) && !Within(Range(t, hyst, before), now)
    ensures Bucket(t, now) != Bucket(t, before)
    ensures Abs(now - before) > hyst
  {
    RangeExact(t, hyst, before);
  }

  /** In numbers: thresholds -70 and -50 with hysteresis 2. */
  lemma RangeExample()
    ensures Range([-70, -50], 2, -60) == (-72, -49)
    ensures Range([-70, -50], 2, -80) == (-2147483648, -69)
    ensures Range([-70, -50], 2, -40) == (-52, 2147483647)
  {
    BucketIs([-70, -50], -60, 1);
    BucketIs([-70, -50], -80, 0);
    BucketIs([-70, -50], -40, 2);
  }

  // ----- the wireless device -----

  datatype Config = Config(thresholds: seq<int>, hyst: int, last: int)

  /** What `rdev_get_station` answers when it is asked for the average beacon signal. */
  datatype Station = Unavailable | Failed | NoSignal | Signal(average: int)

  predicate StationOk(s: Station) {
    s.Signal? ==> -128 <= s.average <= 127
  }

  datatype Status = Done | Invalid | Unsupported | StationError

  /** What the device's driver can do. */
  datatype Driver = Driver(isStation: bool, singleThreshold: bool, thresholdList: bool)

  /** Lines 10849-10871: the search for the first threshold above the reading, and the bounds. */
  method ComputeRange(c: Config) returns (low: int, high: int)
    requires ThresholdsOk(c.thresholds)
    ensures (low, high) == Range(c.thresholds, c.hyst, c.last)
  {
    var n := |c.thresholds|;
    var i := 0;
    while i < n
      invariant 0 <= i <= n
      invariant forall k :: 0 <= k < i ==> c.thresholds[k] <= c.last
    {
      if c.last < c.thresholds[i] { break; }
      i := i + 1;
    }
    BucketIs(c.thresholds, c.last, i);
    low, high := S32_MIN, S32_MAX;
    if i - 1 >= 0 {
      low := Wrap(c.thresholds[i - 1] - c.hyst);
    }
    if i < n {
      high := Wrap(c.thresholds[i] + c.hyst - 1);
    }
  }

  class Wdev {
    var cqm: Option<Config>
    /** The range last given to the driver, and (in the model only) the reading it was made for. */
    var range: Option<(int, int)>
    ghost var rangedFor: int

    constructor ()
      ensures Valid() && cqm == None
    {
      cqm, range, rangedFor := None, None, 0;
    }

    ghost predicate Valid()
      reads this
    {
      cqm.Some? ==>
        && ThresholdsOk(cqm.value.thresholds) && 0 <= cqm.value.hyst < TWO32 && S32(cqm.value.last)
        && (range.Some? ==> S32(rangedFor) && range == Some(Range(cqm.value.thresholds, cqm.value.hyst, rangedFor)))
    }

    /** `cfg80211_cqm_rssi_update`. */
    method Update(station: Station) returns (status: Status)
      requires Valid() && StationOk(station)
      modifies this
      ensures Valid()
      ensures old(cqm).None? ==> status == Done && range == Some((0, 0)) && cqm == None
      ensures status == StationError <==> old(cqm).Some? && old(cqm).value.last == 0 && station.Failed?
      ensures status == StationError ==> unchanged(this)
      ensures status == StationError || status == Done
      ensures old(cqm).Some? && status == Done ==>
                && cqm == Some(old(cqm).value.(last := if old(cqm).value.last == 0 && station.Signal? then station.average else old(cqm).value.last))
                && range == Some(Range(cqm.value.thresholds, cqm.value.hyst, cqm.value.last)) && rangedFor == cqm.value.last
    {
      if cqm.None? {
        range := Some((0, 0));
        return Done;
      }
      if cqm.value.last == 0 && !station.Unavailable? {
        if station.Failed? { return StationError; }
        if station.Signal? {
          cqm := Some(cqm.value.(last := station.average));
        }
      }
      var low, high := ComputeRange(cqm.value);
      range := Some((low, high));
      rangedFor := cqm.value.last;
      return Done;
    }

    /** `nl80211_set_cqm_rssi`. The old configuration is gone as soon as thresholds and interface are
        found right, also if the device then turns out not to support lists. A request that gets as
        far as the threshold list replaces the configuration, or removes it if it only holds the
        threshold 0. */
    method SetCqmRssi(thresholds: seq<int>, hyst: int, driver: Driver, station: Station) returns (status: Status)
      requires Valid() && StationOk(station) && 0 <= hyst < TWO32
      requires forall i :: 0 <= i < |thresholds| ==> S32(thresholds[i])
      modifies this
      ensures Valid()
      ensures !ThresholdsOk(thresholds) ==> status == Invalid && unchanged(this)
      ensures ThresholdsOk(thresholds) && !driver.isStation ==> status == Unsupported && unchanged(this)
      ensures ThresholdsOk(thresholds) && driver.isStation && |thresholds| <= 1 && driver.singleThreshold ==>
                status == Done && cqm == None && range == old(range) && rangedFor == old(rangedFor)
      ensures ThresholdsOk(thresholds) && driver.isStation && (|thresholds| > 1 || !driver.singleThreshold) && !driver.thresholdList ==>
                status == Unsupported && cqm == None && range == old(range) && rangedFor == old(rangedFor)
      ensures ThresholdsOk(thresholds) && driver.isStation && (|thresholds| > 1 || !driver.singleThreshold) && driver.thresholdList ==>
                && (thresholds == [] || thresholds == [0] ==> cqm == None && status == Done && range == Some((0, 0)))
                && (thresholds != [] && thresholds != [0] ==>
                      var reading := if station.Signal? then station.average else 0;
                      && (status == StationError <==> station.Failed?) && (status == Done <==> !station.Failed?)
                      && cqm == Some(Config(thresholds, hyst, reading))
                      && (station.Failed? ==> range == None)
                      && (!station.Failed? ==> range == Some(Range(thresholds, hyst, reading)) && rangedFor == reading))
    {
      var ok := CheckThresholds(thresholds);
      if !ok { return Invalid; }
      if !driver.isStation { return Unsupported; }
      cqm := None;
      if |thresholds| <= 1 && driver.singleThreshold { return Done; }
      if !driver.thresholdList { return Unsupported; }
      var n := |thresholds|;
      if n == 1 && thresholds[0] == 0 { n := 0; }
      if n != 0 {
        cqm := Some(Config(thresholds, hyst, 0));
        range := None;
      }
      status := Update(station);
    }

    /** `cfg80211_cqm_rssi_notify`: the level reported to user space. */
    method Notify(level: int, station: Station) returns (reported: int)
      requires Valid() && S32(level) && StationOk(station)
      modifies this
      ensures Valid()
      ensures old(cqm).None? ==> unchanged(this) && reported == level
      ensures old(cqm).Some? ==>
                && cqm.Some? && cqm.value.thresholds == old(cqm).value.thresholds && cqm.value.hyst == old(cqm).value.hyst
                && reported == cqm.value.last
                && reported == (if level != 0 then level else if station.Signal? then station.average else 0)
                && (level == 0 && station.Failed? ==> range == old(range) && rangedFor == old(rangedFor))
                && (level != 0 || !station.Failed? ==> range == Some(Range(cqm.value.thresholds, cqm.value.hyst, reported)) && rangedFor == reported)
      ensures old(cqm).Some? && old(range).Some? ==>
                && range.Some?
                && Monitor(cqm.value.last, rangedFor, range.value)
                   == After(old(cqm).value.thresholds, old(cqm).value.hyst,
                            Monitor(old(cqm).value.last, old(rangedFor), old(range).value), Event(level, station))
    {
      reported := level;
      if cqm.Some? {
        cqm := Some(cqm.value.(last := level));
        var _ := Update(station);
        if level == 0 {
          reported := cqm.value.last;
        }
      }
    }
  }

  // ----- runs of events -----

  /** An event and what it makes of the last reading and the range; see `Wdev.Notify`. */
  datatype Event = Event(level: int, station: Station)

  predicate EventOk(e: Event) {
    S32(e.level) && StationOk(e.station)
  }

  /** The last reading, the reading the driver's range was made for, and that range. */
  datatype Monitor = Monitor(last: int, rangedFor: int, range: (int, int))

  function After(t: seq<int>, hyst: int, m: Monitor, e: Event): (m': Monitor) {
    var last := if e.level == 0 && e.station.Signal? then e.station.average else e.level;
    if e.level == 0 && e.station.Failed? then m.(last := 0)
    else Monitor(last, last, Range(t, hyst, last))
  }

  ghost predicate Run(t: seq<int>, hyst: int, ms: seq<Monitor>, es: seq<Event>) {
    && |ms| == |es| + 1
    && S32(ms[0].last) && ms[0].rangedFor == ms[0].last && ms[0].range == Range(t, hyst, ms[0].last)
    && forall k :: 0 <= k < |es| ==> EventOk(es[k]) && ms[k + 1] == After(t, hyst, ms[k], es[k])
  }

  lemma {:induction false} RangesMatch(t: seq<int>, hyst: int, ms: seq<Monitor>, es: seq<Event>, k: nat)
    requires Run(t, hyst, ms, es) && k < |ms|
    ensures S32(ms[k].last) && S32(ms[k].rangedFor) && ms[k].range == Range(t, hyst, ms[k].rangedFor)
    ensures ms[k].rangedFor == ms[k].last || ms[k].last == 0
  {
    if k > 0 {
      RangesMatch(t, hyst, ms, es, k - 1);
      assert EventOk(es[k - 1]) && ms[k - 1 + 1] == After(t, hyst, ms[k - 1], es[k - 1]);
    }
  }

  /** Over every run of events: the driver's range contains the reading it was made for, which is
      the last one unless the station could not be asked; and a next reading outside that range has
      crossed a threshold and moved by more than the hysteresis. */
  lemma EveryRunHasHysteresis(t: seq<int>, hyst: int, ms: seq<Monitor>, es: seq<Event>, k: nat, now: int)
    requires ThresholdsOk(t) && 0 <= hyst < TWO32 && NoWrap(t, hyst)
    requires Run(t, hyst, ms, es) && k < |ms| && S32(now)
    ensures Within(ms[k].range, ms[k].rangedFor)
    ensures ms[k].rangedFor == ms[k].last || ms[k].last == 0
    ensures !Within(ms[k].range, now) ==>
              Bucket(t, now) != Bucket(t, ms[k].rangedFor) && Abs(now - ms[k].rangedFor) > hyst
  {
    RangesMatch(t, hyst, ms, es, k);
    RangesContainReadings(t, hyst);
    if !Within(ms[k].range, now) { OutsideMeansCrossed(t, hyst, ms[k].rangedFor, now); }
  }
}
