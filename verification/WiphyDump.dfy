/** The resumable wiphy dump of `Wireless/nl80211.c`: the cursor kept in
    `struct nl80211_dump_wiphy_state`, the band/channel stage of `nl80211_send_wiphy` and the
    callback `nl80211_dump_wiphy`, which runs until the reader's buffer is full and is called
    again for more.

    A message is a list of attributes put one after the other into a buffer; `room` is the number
    of puts that succeed before the buffer is full. Since the first failing put cancels the
    message, this describes every way a message can fail. */
module WiphyDump {
  import opened Basics

  /** A band is absent or present with a number of channels. */
  type Bands = seq<Option<nat>>

  datatype Item = RateInfo(band: nat) | Channel(band: nat, index: nat)

  // ----- the plain nested loop -----

  function Channels(band: nat, lo: nat, hi: nat): (s: seq<Item>)
    requires lo <= hi
    decreases hi - lo
  {
    if lo == hi then [] else [Channel(band, lo)] + Channels(band, lo + 1, hi)
  }

  /** Every present band from `b` on: its rate information, then its channels in order. */
  function Walk(bands: Bands, b: nat): (s: seq<Item>)
    requires b <= |bands|
    decreases |bands| - b
  {
    if b == |bands| then []
    else if bands[b].None? then Walk(bands, b + 1)
    else [RateInfo(b)] + (Channels(b, 0, bands[b].value) + Walk(bands, b + 1))
  }

  lemma {:induction false} ChannelsSnoc(band: nat, lo: nat, hi: nat)
    requires lo <= hi
    ensures Channels(band, lo, hi + 1) == Channels(band, lo, hi) + [Channel(band, hi)]
    decreases hi - lo
  {
    if lo < hi {
      ChannelsSnoc(band, lo + 1, hi);
      assert Channels(band, lo, hi + 1) == [Channel(band, lo)] + Channels(band, lo + 1, hi + 1);
    } else {
      assert Channels(band, lo + 1, hi + 1) == [];
    }
  }

  // ----- the cursor of stage 3 -----

  /** Cursor values the code can reach: a channel cursor belongs to a present band. */
  predicate CursorOk(bands: Bands, band: int, chan: int) {
    && 0 <= band <= |bands| && 0 <= chan
    && (chan > 0 ==> band < |bands| && bands[band].Some? && chan - 1 <= bands[band].value)
  }

  /** What the nested loop has still to visit when the cursor stands at `(band, chan)`. */
  function Remaining(bands: Bands, band: int, chan: int): (s: seq<Item>)
    requires CursorOk(bands, band, chan)
  {
    if chan == 0 then Walk(bands, band)
    else Channels(band, chan - 1, bands[band].value) + Walk(bands, band + 1)
  }

  function FirstPresent(bands: Bands, b: nat): (r: nat)
    requires b <= |bands|
    ensures b <= r <= |bands|
    ensures r < |bands| ==> bands[r].Some?
    ensures forall x :: b <= x < r ==> bands[x].None?
    decreases |bands| - b
  {
    if b == |bands| || bands[b].Some? then b else FirstPresent(bands, b + 1)
  }

  lemma {:induction false} WalkSkipsAbsent(bands: Bands, b: nat)
    requires b <= |bands|
    ensures Walk(bands, b) == Walk(bands, FirstPresent(bands, b))
    decreases |bands| - b
  {
    if b < |bands| && bands[b].None? { WalkSkipsAbsent(bands, b + 1); }
  }

  /** The number of messages stage 3 still takes from `(band, chan)`: for every present band one
      for the rate information, one per channel and one that closes the band; and one more that
      finds no band left. */
  function Weight(bands: Bands, band: int, chan: int): (w: nat)
    requires CursorOk(bands, band, chan)
    ensures w > 0
    decreases |bands| - band, chan
  {
    if chan > 0 then (bands[band].value - (chan - 1)) + 1 + Weight(bands, band + 1, 0)
    else if band == |bands| then 1
    else (if bands[band].Some? then bands[band].value + 2 else 0) + Weight(bands, band + 1, 0)
  }

  lemma {:induction false} WeightSkipsAbsent(bands: Bands, b: nat)
    requires b <= |bands|
    ensures Weight(bands, b, 0) == Weight(bands, FirstPresent(bands, b), 0)
    decreases |bands| - b
  {
    if b < |bands| && bands[b].None? { WeightSkipsAbsent(bands, b + 1); }
  }

  /** What one split-mode message of stage 3 carries. */
  function Chunk(bands: Bands, band: int, chan: int): (items: seq<Item>)
    requires CursorOk(bands, band, chan)
  {
    var b := FirstPresent(bands, band);
    if b == |bands| then []
    else if chan == 0 then [RateInfo(b)]
    else if chan - 1 < bands[b].value then [Channel(b, chan - 1)]
    else []
  }

  /** Where it leaves the cursor; `(0, 0)` means the stage is over. */
  function Next(bands: Bands, band: int, chan: int): (next: (int, int))
    requires CursorOk(bands, band, chan)
    ensures CursorOk(bands, next.0, next.1)
  {
    var b := FirstPresent(bands, band);
    if b == |bands| then (0, 0)
    else if chan == 0 then (b, 1)
    else if chan - 1 < bands[b].value then (b, chan + 1)
    else (b + 1, 0)
  }

  predicate Over(cursor: (int, int)) {
    cursor == (0, 0)
  }

  /** One message takes the next piece off what is left. */
  lemma ChunkTakesNext(bands: Bands, band: int, chan: int)
    requires CursorOk(bands, band, chan)
    ensures var next := Next(bands, band, chan);
            Remaining(bands, band, chan)
              == Chunk(bands, band, chan) + (if Over(next) then [] else Remaining(bands, next.0, next.1))
  {
    var b := FirstPresent(bands, band);
    if chan == 0 {
      WalkSkipsAbsent(bands, band);
      if b < |bands| {
        var rest := Channels(b, 0, bands[b].value) + Walk(bands, b + 1);
        assert Walk(bands, b) == [RateInfo(b)] + rest;
        assert Remaining(bands, b, 1) == rest;
      }
    } else {
      var n, rest := bands[b].value, Walk(bands, b + 1);
      if chan - 1 < n {
        assert Channels(b, chan - 1, n) == [Channel(b, chan - 1)] + Channels(b, chan, n);
        Assoc([Channel(b, chan - 1)], Channels(b, chan, n), rest);
      } else {
        assert Channels(b, n, n) == [];
      }
    }
  }

  /** ... and is one fewer to go. */
  lemma ChunkCounts(bands: Bands, band: int, chan: int)
    requires CursorOk(bands, band, chan)
    ensures var next := Next(bands, band, chan);
            Weight(bands, band, chan) == 1 + (if Over(next) then 0 else Weight(bands, next.0, next.1))
  {
    if chan == 0 { WeightSkipsAbsent(bands, band); }
  }

  // ----- stage 3 itself -----

  class DumpState {
    var filterWiphy: int
    var start: int
    var splitStart: int
    var bandStart: int
    var chanStart: int
    var split: bool

    constructor (filter: int, isSplit: bool)
      ensures filterWiphy == filter && split == isSplit
      ensures start == splitStart == bandStart == chanStart == 0
    {
      filterWiphy, split := filter, isSplit;
      start, splitStart, bandStart, chanStart := 0, 0, 0, 0;
    }

    function Cur(): Cursor
      reads this
    {
      Cursor(splitStart, bandStart, chanStart)
    }
  }

  /** The puts the channel list takes, from channel `i` on. */
  function FreqPuts(i: int, n: int, split: bool): int {
    if i >= n then 1 else if split then 3 else 1 + 2 * (n - i)
  }

  /** Lines 2065-2095: the channel list of one band, and the channel cursor. */
  method SendFreqs(st: DumpState, band: nat, n: nat, room: int) returns (ok: bool, items: seq<Item>, room': int)
    requires 1 <= st.chanStart <= n + 1 && room >= 0
    modifies st`chanStart
    ensures ok <==> room >= FreqPuts(old(st.chanStart) - 1, n, st.split)
    ensures !ok ==> st.chanStart == old(st.chanStart)
    ensures ok ==> room' == room - FreqPuts(old(st.chanStart) - 1, n, st.split)
    ensures ok && st.split && old(st.chanStart) - 1 < n ==>
              items == [Channel(band, old(st.chanStart) - 1)] && st.chanStart == old(st.chanStart) + 1
    ensures ok && (!st.split || old(st.chanStart) - 1 == n) ==>
              items == Channels(band, old(st.chanStart) - 1, n) && st.chanStart == 0
  {
    ok, items, room' := false, [], room;
    if room' == 0 { return; }
    room' := room' - 1;
    var i := st.chanStart - 1;
    ghost var first := i;
    while i < n
      invariant first <= i <= n
      invariant st.chanStart == old(st.chanStart)
      invariant room' == room - 1 - 2 * (i - first) && room' >= 0
      invariant st.split ==> i == first
      invariant items == Channels(band, first, i)
    {
      if room' < 2 { return; }
      room' := room' - 2;
      ChannelsSnoc(band, first, i);
      items := items + [Channel(band, i)];
      if st.split { break; }
      i := i + 1;
    }
    if i < n {
      st.chanStart := i + 2;
    } else {
      st.chanStart := 0;
    }
    ok := true;
  }

  /** The puts one present band takes in a message. */
  function BandPuts(chan: int, n: nat, split: bool): (r: int)
    ensures r >= 2
  {
    1 + if chan > 0 then FreqPuts(chan - 1, n, split)
        else if split then 1
        else 1 + FreqPuts(0, n, false)
  }

  /** Lines 2053-2098: one present band. A failure leaves the channel cursor alone, except that in
      unsplit mode it has already moved past the rate information. */
  method SendBand(st: DumpState, band: nat, n: nat, room: int) returns (ok: bool, items: seq<Item>, room': int)
    requires 0 <= st.chanStart <= n + 1 && room >= 0
    modifies st`chanStart
    ensures ok <==> room >= BandPuts(old(st.chanStart), n, st.split)
    ensures !ok ==> st.chanStart == if !st.split && room >= 2 && old(st.chanStart) == 0 then 1 else old(st.chanStart)
    ensures ok ==> room' == room - BandPuts(old(st.chanStart), n, st.split)
    ensures ok && st.split ==>
              if old(st.chanStart) == 0 then items == [RateInfo(band)] && st.chanStart == 1
              else if old(st.chanStart) - 1 < n then
                items == [Channel(band, old(st.chanStart) - 1)] && st.chanStart == old(st.chanStart) + 1
              else items == [] && st.chanStart == 0
    ensures ok && !st.split ==>
              && st.chanStart == 0
              && items == if old(st.chanStart) == 0 then [RateInfo(band)] + Channels(band, 0, n)
                          else Channels(band, old(st.chanStart) - 1, n)
  {
    ok, items, room' := false, [], room;
    if room' == 0 { return; }
    room' := room' - 1;
    if st.chanStart == 0 {
      if room' == 0 { return; }
      room' := room' - 1;
      items := [RateInfo(band)];
      st.chanStart := st.chanStart + 1;
      if st.split {
        ok := true;
        return;
      }
    }
    var freqs;
    ok, freqs, room' := SendFreqs(st, band, n, room');
    items := items + freqs;
  }

  /** The puts a split-mode message of stage 3 takes. */
  function ChunkPuts(bands: Bands, band: int, chan: int): int
    requires CursorOk(bands, band, chan)
  {
    var b := FirstPresent(bands, band);
    if b == |bands| then 1 else 1 + BandPuts(chan, bands[b].value, true)
  }

  /** What an unsplit walk from band `b` on visits when the channel cursor is `chan`, 0 or 1: the
      cursor applies to the first present band and is 0 afterwards. */
  function Unsplit(bands: Bands, b: nat, chan: int): (s: seq<Item>)
    requires b <= |bands|
    decreases |bands| - b
  {
    if b == |bands| then []
    else if bands[b].None? then Unsplit(bands, b + 1, chan)
    else (if chan == 0 then [RateInfo(b)] + Channels(b, 0, bands[b].value) else Channels(b, 0, bands[b].value))
         + Unsplit(bands, b + 1, 0)
  }

  /** The puts it takes. */
  function UnsplitPuts(bands: Bands, b: nat, chan: int): int
    requires b <= |bands|
    decreases |bands| - b
  {
    if b == |bands| then 0
    else if bands[b].None? then UnsplitPuts(bands, b + 1, chan)
    else BandPuts(chan, bands[b].value, false) + UnsplitPuts(bands, b + 1, 0)
  }

  /** Whether it runs out of `room` inside a channel list. */
  predicate FailsInChannels(bands: Bands, b: nat, chan: int, room: int)
    requires b <= |bands|
    decreases |bands| - b
  {
    if b == |bands| then false
    else if bands[b].None? then FailsInChannels(bands, b + 1, chan, room)
    else
      var puts := BandPuts(chan, bands[b].value, false);
      if room < puts then chan == 1 || room >= 2 else FailsInChannels(bands, b + 1, 0, room - puts)
  }

  /** Lines 2038-2118: the band/channel stage of one message.

      In split mode a failed call leaves the cursor alone, and a successful one delivers the next
      chunk and moves the cursor past it. In unsplit mode a call with room for everything walks
      all bands in one go and leaves the cursor at its start; a failed one leaves the channel
      cursor at 1, and not at 0, when it fails inside a channel list. */
  method SendBands(st: DumpState, bands: Bands, room: nat) returns (ok: bool, items: seq<Item>)
    requires st.split ==> CursorOk(bands, st.bandStart, st.chanStart)
    requires !st.split ==> st.bandStart == 0 && 0 <= st.chanStart <= 1
    modifies st`splitStart, st`bandStart, st`chanStart
    ensures st.split ==> (ok <==> room >= ChunkPuts(bands, old(st.bandStart), old(st.chanStart)))
    ensures st.split && !ok ==> unchanged(st)
    ensures st.split && ok ==>
              && items == Chunk(bands, old(st.bandStart), old(st.chanStart))
              && (st.bandStart, st.chanStart) == Next(bands, old(st.bandStart), old(st.chanStart))
              && st.splitStart == old(st.splitStart) + (if Over((st.bandStart, st.chanStart)) then 1 else 0)
    ensures !st.split ==> st.bandStart == 0 && (ok <==> room >= 1 + UnsplitPuts(bands, 0, old(st.chanStart)))
    ensures !st.split && !ok ==> st.splitStart == old(st.splitStart)
    ensures !st.split && !ok && old(st.chanStart) == 0 ==>
              st.chanStart == if room > 0 && FailsInChannels(bands, 0, 0, room - 1) then 1 else 0
    ensures !st.split && ok ==> items == Unsplit(bands, 0, old(st.chanStart))
    ensures !st.split && ok && old(st.chanStart) == 0 ==> st.chanStart == 0 && st.splitStart == old(st.splitStart) + 1
  {
    hide Unsplit, UnsplitPuts, FailsInChannels, Channels, BandPuts, FirstPresent;
    ok, items := false, [];
    PutsNonNegative(bands, 0, st.chanStart);
    UnsplitUnfolds(bands, |bands|, 0, 0);
    UnsplitUnfolds(bands, |bands|, 1, 0);
    var left: int := room;
    if left == 0 { return; }
    left := left - 1;
    var band: int := st.bandStart;
    ghost var b0, c0 := st.bandStart, st.chanStart;
    while band < |bands|
      invariant b0 <= band <= |bands| && left >= 0 && !ok
      invariant st.bandStart == b0 && st.splitStart == old(st.splitStart)
      invariant st.split ==> st.chanStart == c0 && items == [] && left == room - 1
      invariant st.split ==> forall x :: b0 <= x < band ==> bands[x].None?
      invariant !st.split ==> 0 <= st.chanStart <= c0
      invariant !st.split ==> Unsplit(bands, 0, c0) == items + Unsplit(bands, band, st.chanStart)
      invariant !st.split ==> left - UnsplitPuts(bands, band, st.chanStart) == room - 1 - UnsplitPuts(bands, 0, c0)
      invariant !st.split ==> (FailsInChannels(bands, 0, c0, room - 1) <==> FailsInChannels(bands, band, st.chanStart, left))
    {
      if !st.split { UnsplitUnfolds(bands, band, st.chanStart, left); }
      if bands[band].None? {
        band := band + 1;
        continue;
      }
      assert st.split ==> band == FirstPresent(bands, b0);
      if !st.split { PutsNonNegative(bands, band + 1, 0); }
      ghost var before := items;
      var sent, more;
      sent, more, left := SendBand(st, band, bands[band].value, left);
      if !sent { return; }
      items := items + more;
      if !st.split { Assoc(before, more, Unsplit(bands, band + 1, 0)); }
      if st.split {
        if st.chanStart != 0 {
          band := band - 1;
        }
        break;
      }
      band := band + 1;
    }
    if band < |bands| {
      st.bandStart := band + 1;
    } else {
      st.bandStart := 0;
    }
    if st.bandStart == 0 && st.chanStart == 0 {
      st.splitStart := st.splitStart + 1;
    }
    ok := true;
  }

  lemma UnsplitUnfolds(bands: Bands, b: nat, chan: int, room: int)
    requires b <= |bands|
    ensures b == |bands| ==>
              Unsplit(bands, b, chan) == [] && UnsplitPuts(bands, b, chan) == 0
              && forall r: int :: !FailsInChannels(bands, b, chan, r)
    ensures b < |bands| && bands[b].None? ==>
              && Unsplit(bands, b, chan) == Unsplit(bands, b + 1, chan)
              && UnsplitPuts(bands, b, chan) == UnsplitPuts(bands, b + 1, chan)
              && FailsInChannels(bands, b, chan, room) == FailsInChannels(bands, b + 1, chan, room)
    ensures b < |bands| && bands[b].Some? ==>
              var n := bands[b].value;
              var puts := BandPuts(chan, n, false);
              && Unsplit(bands, b, chan)
                 == (if chan == 0 then [RateInfo(b)] + Channels(b, 0, n) else Channels(b, 0, n)) + Unsplit(bands, b + 1, 0)
              && UnsplitPuts(bands, b, chan) == puts + UnsplitPuts(bands, b + 1, 0)
              && FailsInChannels(bands, b, chan, room)
                 == if room < puts then chan == 1 || room >= 2 else FailsInChannels(bands, b + 1, 0, room - puts)
  {
  }

  lemma {:induction false} PutsNonNegative(bands: Bands, b: nat, chan: int)
    requires b <= |bands|
    ensures UnsplitPuts(bands, b, chan) >= 0
    decreases |bands| - b
  {
    if b < |bands| { PutsNonNegative(bands, b + 1, if bands[b].None? then chan else 0); }
  }

  // ----- the unsplit retry -----

  lemma {:induction false} UnsplitIsWalk(bands: Bands, b: nat)
    requires b <= |bands|
    ensures Unsplit(bands, b, 0) == Walk(bands, b)
    ensures Walk(bands, b) == [] ==> Unsplit(bands, b, 1) == []
    ensures Walk(bands, b) != [] ==> Unsplit(bands, b, 1) == Walk(bands, b)[1..]
    decreases |bands| - b
  {
    if b < |bands| {
      UnsplitIsWalk(bands, b + 1);
      if bands[b].Some? {
        Assoc([RateInfo(b)], Channels(b, 0, bands[b].value), Walk(bands, b + 1));
      }
    }
  }

  lemma {:induction false} FailureNeedsBand(bands: Bands, b: nat, chan: int, room: int)
    requires b <= |bands| && FailsInChannels(bands, b, chan, room)
    ensures Walk(bands, b) != []
    decreases |bands| - b
  {
    if bands[b].None? { FailureNeedsBand(bands, b + 1, chan, room); }
  }

  /** A device with one band of one channel, and a buffer that is full after the rate information:
      the second try starts behind it. */
  lemma RetryLosesRates()
    ensures var bands: Bands := [Some(1)];
            && 3 < 1 + UnsplitPuts(bands, 0, 0) && FailsInChannels(bands, 0, 0, 3 - 1)
            && Walk(bands, 0) == [RateInfo(0), Channel(0, 0)]
  {
    var bands: Bands := [Some(1)];
    assert Walk(bands, 1) == [] && Channels(0, 1, 1) == [] && Channels(0, 0, 1) == [Channel(0, 0)];
  }

  /** An unsplit message that did not fit an empty buffer is tried again with a larger one, after
      resetting `split_start` only (lines 2562-2568). The second attempt repeats the whole walk
      exactly when the first did not fail inside a channel list; otherwise it leaves out the rate
      information of the first present band. */
  method RetryUnsplit(st: DumpState, bands: Bands, room: nat, larger: nat) returns (items: seq<Item>)
    requires !st.split && st.bandStart == 0 && st.chanStart == 0
    requires room < 1 + UnsplitPuts(bands, 0, 0) <= larger
    modifies st
    ensures items == Walk(bands, 0) <==> !(room > 0 && FailsInChannels(bands, 0, 0, room - 1))
    ensures items == Walk(bands, 0) || (Walk(bands, 0) != [] && items == Walk(bands, 0)[1..])
  {
    var ok;
    ok, items := SendBands(st, bands, room);
    st.splitStart := 0;
    UnsplitIsWalk(bands, 0);
    FewerPuts(bands, 0);
    if room > 0 && FailsInChannels(bands, 0, 0, room - 1) {
      FailureNeedsBand(bands, 0, 0, room - 1);
    }
    ok, items := SendBands(st, bands, larger);
  }

  lemma {:induction false} FewerPuts(bands: Bands, b: nat)
    requires b <= |bands|
    ensures UnsplitPuts(bands, b, 1) <= UnsplitPuts(bands, b, 0)
    decreases |bands| - b
  {
    if b < |bands| && bands[b].None? { FewerPuts(bands, b + 1); }
  }

  // ----- whole devices, in split mode -----

  datatype Device = Device(net: int, wiphyIdx: int, bands: Bands)

  /** A message of the dump: an attribute stage, or a piece of the band/channel stage. */
  datatype Msg = Stage(dev: Device, stage: int) | BandsMsg(dev: Device, items: seq<Item>)

  datatype Cursor = Cursor(stage: int, band: int, chan: int)

  const START := Cursor(0, 0, 0)

  predicate Reached(d: Device, c: Cursor) {
    && 0 <= c.stage <= 15
    && CursorOk(d.bands, c.band, c.chan)
    && (c.stage != 3 ==> c.band == 0 && c.chan == 0)
  }

  /** What the next message is. Built without power management, stage 6 puts nothing and runs on
      into stage 7. */
  function MsgAt(d: Device, pm: bool, c: Cursor): Msg
    requires Reached(d, c)
  {
    if c.stage == 3 then BandsMsg(d, Chunk(d.bands, c.band, c.chan))
    else if c.stage == 6 && !pm then Stage(d, 7)
    else Stage(d, c.stage)
  }

  function After(d: Device, pm: bool, c: Cursor): (c': Cursor)
    requires Reached(d, c)
    ensures Reached(d, c')
  {
    if c.stage == 3 then
      var next := Next(d.bands, c.band, c.chan);
      if Over(next) then Cursor(4, 0, 0) else Cursor(3, next.0, next.1)
    else if c.stage == 6 && !pm then Cursor(8, 0, 0)
    else if c.stage == 15 then START
    else Cursor(c.stage + 1, 0, 0)
  }

  /** How many more messages the device takes, at most. */
  function Left(d: Device, c: Cursor): nat
    requires Reached(d, c)
  {
    if c.stage < 3 then 3 - c.stage + Weight(d.bands, 0, 0) + 12
    else if c.stage == 3 then Weight(d.bands, c.band, c.chan) + 12
    else 16 - c.stage
  }

  lemma LeftDecreases(d: Device, pm: bool, c: Cursor)
    requires Reached(d, c)
    ensures After(d, pm, c) == START || Left(d, After(d, pm, c)) < Left(d, c)
  {
    if c.stage == 3 { ChunkCounts(d.bands, c.band, c.chan); }
  }

  /** The messages a device has still to send from cursor `c`. */
  function Owed(d: Device, pm: bool, c: Cursor): (ms: seq<Msg>)
    requires Reached(d, c)
    ensures ms != []
    decreases Left(d, c)
  {
    LeftDecreases(d, pm, c);
    var c' := After(d, pm, c);
    [MsgAt(d, pm, c)] + if c' == START then [] else Owed(d, pm, c')
  }

  /** The items in the band/channel messages, in the order they are received. */
  function ItemsOf(ms: seq<Msg>): (s: seq<Item>) {
    if ms == [] then []
    else (if ms[0].BandsMsg? then ms[0].items else []) + ItemsOf(ms[1..])
  }

  lemma {:induction false} OwedItems(d: Device, pm: bool, c: Cursor)
    requires Reached(d, c)
    ensures ItemsOf(Owed(d, pm, c))
            == if c.stage < 3 then Walk(d.bands, 0)
               else if c.stage == 3 then Remaining(d.bands, c.band, c.chan) else []
    decreases Left(d, c)
  {
    LeftDecreases(d, pm, c);
    var c' := After(d, pm, c);
    var ms := Owed(d, pm, c);
    assert ms[1..] == if c' == START then [] else Owed(d, pm, c');
    if c' != START { OwedItems(d, pm, c'); }
    if c.stage == 3 { ChunkTakesNext(d.bands, c.band, c.chan); }
  }

  /** The split dump of a device visits exactly what the plain nested loop visits, once each and
      in order, whatever bands are absent and however many channels the others have. */
  lemma SplitRefinesUnsplit(d: Device, pm: bool)
    ensures Reached(d, START)
    ensures ItemsOf(Owed(d, pm, START)) == Walk(d.bands, 0) == Unsplit(d.bands, 0, 0)
  {
    OwedItems(d, pm, START);
    UnsplitIsWalk(d.bands, 0);
  }

  // ----- the dump callback -----

  /** `nl80211_send_wiphy` in split mode, with `room` puts left in the buffer. A message that fits
      is the next one owed; one that does not is owed still. */
  method SendWiphy(st: DumpState, d: Device, pm: bool, room: nat) returns (ok: bool, msg: Msg)
    requires st.split && Reached(d, st.Cur())
    modifies st`splitStart, st`bandStart, st`chanStart
    ensures Reached(d, st.Cur())
    ensures var c, c' := old(st.Cur()), st.Cur();
            && (ok ==> msg == MsgAt(d, pm, c) && c' == After(d, pm, c))
            && (!ok ==> Owed(d, pm, c') == Owed(d, pm, c) && (c' == c || c.stage == 6))
            && (ok <==> room >= Puts(d, c))
  {
    ok, msg := false, Stage(d, st.splitStart);
    // the header attributes of the message
    if room == 0 { return; }
    if st.splitStart == 3 {
      var items;
      ok, items := SendBands(st, d.bands, room - 1);
      msg := BandsMsg(d, items);
    } else if st.splitStart == 6 && !pm {
      st.splitStart := st.splitStart + 1;
      msg := Stage(d, 7);
      assert Owed(d, pm, Cursor(7, 0, 0)) == Owed(d, pm, Cursor(6, 0, 0));
      if room == 1 { return; }
      st.splitStart := st.splitStart + 1;
      ok := true;
    } else {
      if room == 1 { return; }
      st.splitStart := if st.splitStart == 15 then 0 else st.splitStart + 1;
      ok := true;
    }
  }

  /** The puts a message takes; those of a stage other than 3 count as one. */
  function Puts(d: Device, c: Cursor): int
    requires Reached(d, c)
  {
    1 + if c.stage == 3 then ChunkPuts(d.bands, c.band, c.chan) else 1
  }

  predicate Selected(d: Device, filter: int) {
    filter == -1 || filter == d.wiphyIdx
  }

  /** The messages owed to the reader by the devices from position `p` of the list on, when the
      next `skip` devices of the reader's namespace are to be passed over and the first selected
      device after them stands at cursor `c`. */
  function Pending(devs: seq<Device>, pm: bool, net: int, filter: int, p: nat, skip: int, c: Cursor): (ms: seq<Msg>)
    requires p <= |devs|
    decreases |devs| - p
  {
    if p == |devs| then []
    else if devs[p].net != net then Pending(devs, pm, net, filter, p + 1, skip, c)
    else if skip > 0 then Pending(devs, pm, net, filter, p + 1, skip - 1, c)
    else if !Selected(devs[p], filter) then Pending(devs, pm, net, filter, p + 1, 0, c)
    else (if Reached(devs[p], c) then Owed(devs[p], pm, c) else [])
         + Pending(devs, pm, net, filter, p + 1, 0, START)
  }

  /** The cursor fits the device it belongs to. */
  predicate Consistent(devs: seq<Device>, net: int, filter: int, p: nat, skip: int, c: Cursor)
    requires p <= |devs|
    decreases |devs| - p
  {
    if p == |devs| then true
    else if devs[p].net != net then Consistent(devs, net, filter, p + 1, skip, c)
    else if skip > 0 then Consistent(devs, net, filter, p + 1, skip - 1, c)
    else if !Selected(devs[p], filter) then Consistent(devs, net, filter, p + 1, 0, c)
    else Reached(devs[p], c)
  }

  function InNet(devs: seq<Device>, net: int, p: nat): (n: nat)
    requires p <= |devs|
  {
    if p == 0 then 0 else InNet(devs, net, p - 1) + if devs[p - 1].net == net then 1 else 0
  }

  /** Passing over the devices counted before position `p` comes out at position `p`. */
  lemma {:induction false} SkipTo(devs: seq<Device>, pm: bool, net: int, filter: int, q: nat, p: nat, c: Cursor)
    requires q <= p <= |devs|
    ensures InNet(devs, net, q) <= InNet(devs, net, p)
    ensures var skip := InNet(devs, net, p) - InNet(devs, net, q);
            && Pending(devs, pm, net, filter, q, skip, c) == Pending(devs, pm, net, filter, p, 0, c)
            && Consistent(devs, net, filter, q, skip, c) == Consistent(devs, net, filter, p, 0, c)
    decreases p - q
  {
    if q < p {
      SkipTo(devs, pm, net, filter, q + 1, p, c);
      assert InNet(devs, net, q + 1) == InNet(devs, net, q) + if devs[q].net == net then 1 else 0;
    }
  }

  lemma {:induction false} ConsistentAtStart(devs: seq<Device>, net: int, filter: int, p: nat, skip: int)
    requires p <= |devs|
    ensures Consistent(devs, net, filter, p, skip, START)
    decreases |devs| - p
  {
    if p < |devs| {
      if devs[p].net == net && skip > 0 {
        ConsistentAtStart(devs, net, filter, p + 1, skip - 1);
      } else if devs[p].net != net {
        ConsistentAtStart(devs, net, filter, p + 1, skip);
      } else {
        ConsistentAtStart(devs, net, filter, p + 1, 0);
      }
    }
  }

  ghost predicate Ready(st: DumpState, devs: seq<Device>, net: int)
    reads st
  {
    st.split && st.start >= 0
    && Consistent(devs, net, st.filterWiphy, 0, st.start, st.Cur())
  }

  /** All messages still owed to the reader. */
  ghost function Debt(st: DumpState, devs: seq<Device>, pm: bool, net: int): seq<Msg>
    reads st
  {
    Pending(devs, pm, net, st.filterWiphy, 0, st.start, st.Cur())
  }

  /** Lines 2541-2573: messages of one device until it is done or the buffer is full. `room(k)` is
      what is left of the buffer when message `k` is begun. */
  method SendDevice(st: DumpState, d: Device, pm: bool, room: nat -> nat) returns (done: bool, sent: seq<Msg>)
    requires st.split && Reached(d, st.Cur())
    requires room(0) >= Puts(d, st.Cur())
    modifies st`splitStart, st`bandStart, st`chanStart
    ensures sent != []
    ensures Reached(d, st.Cur())
    ensures done ==> st.Cur() == START
    ensures Owed(d, pm, old(st.Cur()))
            == sent + if done then [] else Owed(d, pm, st.Cur())
  {
    hide Owed, MsgAt, Puts;
    ghost var all := Owed(d, pm, st.Cur());
    done, sent := false, [];
    assert [] + all == all;
    while true
      invariant st.split && Reached(d, st.Cur())
      invariant all == sent + Owed(d, pm, st.Cur())
      invariant sent == [] ==> room(0) >= Puts(d, st.Cur())
      decreases Left(d, st.Cur())
    {
      ghost var c, before := st.Cur(), sent;
      LeftDecreases(d, pm, c);
      var ok, msg := SendWiphy(st, d, pm, room(|sent|));
      if !ok { return; }
      sent := sent + [msg];
      OwedUnfolds(d, pm, c);
      if st.splitStart <= 0 {
        done := true;
        return;
      }
      Assoc(before, [msg], Owed(d, pm, st.Cur()));
    }
  }

  lemma OwedUnfolds(d: Device, pm: bool, c: Cursor)
    requires Reached(d, c)
    ensures var c' := After(d, pm, c);
            Owed(d, pm, c) == [MsgAt(d, pm, c)] + if c' == START then [] else Owed(d, pm, c')
  {
  }

  /** The loop's `continue`s: device `p` is passed over. */
  lemma PassOver(devs: seq<Device>, pm: bool, net: int, filter: int, p: nat, start: int, c: Cursor)
    requires p < |devs|
    requires devs[p].net != net || InNet(devs, net, p + 1) <= start || !Selected(devs[p], filter)
    ensures var skip, skip' := Max(start - InNet(devs, net, p), 0), Max(start - InNet(devs, net, p + 1), 0);
            && Pending(devs, pm, net, filter, p, skip, c) == Pending(devs, pm, net, filter, p + 1, skip', c)
            && Consistent(devs, net, filter, p, skip, c) == Consistent(devs, net, filter, p + 1, skip', c)
  {
  }

  /** Device `p` is the one to serve. */
  lemma Serve(devs: seq<Device>, pm: bool, net: int, filter: int, p: nat, c: Cursor)
    requires p < |devs| && devs[p].net == net && Selected(devs[p], filter)
    ensures Consistent(devs, net, filter, p, 0, c) == Reached(devs[p], c)
    ensures Reached(devs[p], c) ==>
              Pending(devs, pm, net, filter, p, 0, c) == Owed(devs[p], pm, c) + Pending(devs, pm, net, filter, p + 1, 0, START)
  {
  }

  lemma SkipToFromStart(devs: seq<Device>, pm: bool, net: int, filter: int, p: nat, c: Cursor)
    requires p <= |devs|
    ensures Pending(devs, pm, net, filter, 0, InNet(devs, net, p), c) == Pending(devs, pm, net, filter, p, 0, c)
    ensures Consistent(devs, net, filter, 0, InNet(devs, net, p), c) == Consistent(devs, net, filter, p, 0, c)
    ensures p == |devs| ==> Pending(devs, pm, net, filter, p, 0, c) == [] && Consistent(devs, net, filter, p, 0, c)
  {
    SkipTo(devs, pm, net, filter, 0, p, c);
  }

  lemma InNetNext(devs: seq<Device>, net: int, p: nat)
    requires p < |devs|
    ensures InNet(devs, net, p + 1) == InNet(devs, net, p) + if devs[p].net == net then 1 else 0
  {
  }

  /** `nl80211_dump_wiphy` in split mode, one call. Wherever the buffer fills up, the call delivers
      the next messages owed, at least one if any is, and what it leaves owed is the rest: nothing
      is lost, repeated or reordered. Every message is assumed to fit an empty buffer. */
  method DumpWiphy(st: DumpState, devs: seq<Device>, pm: bool, net: int, room: nat -> nat) returns (sent: seq<Msg>)
    requires Ready(st, devs, net)
    requires forall d, c :: d in devs && Reached(d, c) ==> room(0) >= Puts(d, c)
    modifies st
    ensures Ready(st, devs, net) && st.filterWiphy == old(st.filterWiphy)
    ensures old(Debt(st, devs, pm, net)) == sent + Debt(st, devs, pm, net)
    ensures sent == [] <==> old(Debt(st, devs, pm, net)) == []
  {
    hide Pending, Consistent, Owed, InNet, Reached, Puts;
    sent := [];
    var idx, p := 0, 0;
    ghost var filter, c0 := st.filterWiphy, st.Cur();
    ghost var debt := Debt(st, devs, pm, net);
    SkipToFromStart(devs, pm, net, filter, 0, c0);
    assert InNet(devs, net, 0) == 0 by { InNetZero(devs, net); }
    while p < |devs|
      invariant p <= |devs| && unchanged(st) && sent == []
      invariant idx == InNet(devs, net, p)
      invariant debt == Pending(devs, pm, net, filter, p, Max(st.start - idx, 0), c0)
      invariant Consistent(devs, net, filter, p, Max(st.start - idx, 0), c0)
    {
      var rdev := devs[p];
      InNetNext(devs, net, p);
      ghost var passed := rdev.net != net || InNet(devs, net, p + 1) <= st.start || !Selected(rdev, filter);
      if passed { PassOver(devs, pm, net, filter, p, st.start, c0); }
      p := p + 1;
      if rdev.net != net { continue; }
      idx := idx + 1;
      if idx <= st.start { continue; }
      if st.filterWiphy != -1 && st.filterWiphy != rdev.wiphyIdx { continue; }
      Serve(devs, pm, net, filter, p - 1, c0);
      ghost var rest := Pending(devs, pm, net, filter, p, 0, START);
      var done;
      done, sent := SendDevice(st, rdev, pm, room);
      if done {
        SkipToFromStart(devs, pm, net, filter, p, START);
        ConsistentAtStart(devs, net, filter, p, 0);
      } else {
        idx := idx - 1;
        SkipToFromStart(devs, pm, net, filter, p - 1, st.Cur());
        Serve(devs, pm, net, filter, p - 1, st.Cur());
        Assoc(sent, Owed(rdev, pm, st.Cur()), rest);
      }
      st.start := idx;
      return;
    }
    SkipToFromStart(devs, pm, net, filter, |devs|, c0);
    NothingBeyond(devs, pm, net, filter, Max(st.start - idx, 0), c0);
    st.start := idx;
  }

  lemma NothingBeyond(devs: seq<Device>, pm: bool, net: int, filter: int, skip: int, c: Cursor)
    ensures Pending(devs, pm, net, filter, |devs|, skip, c) == []
  {
  }

  lemma InNetZero(devs: seq<Device>, net: int)
    ensures InNet(devs, net, 0) == 0
  {
  }

  // ----- the whole dump -----

  /** What the reader should end up with: for every selected device of its namespace, in order,
      every band's rate information and channels. */
  function Expected(devs: seq<Device>, net: int, filter: int, p: nat): (s: seq<(Device, Item)>)
    requires p <= |devs|
    decreases |devs| - p
  {
    if p == |devs| then []
    else (if devs[p].net == net && Selected(devs[p], filter) then Tag(devs[p], Walk(devs[p].bands, 0)) else [])
         + Expected(devs, net, filter, p + 1)
  }

  function Tag(d: Device, items: seq<Item>): (s: seq<(Device, Item)>) {
    seq(|items|, i requires 0 <= i < |items| => (d, items[i]))
  }

  function Tagged(ms: seq<Msg>): (s: seq<(Device, Item)>) {
    if ms == [] then []
    else (if ms[0].BandsMsg? then Tag(ms[0].dev, ms[0].items) else []) + Tagged(ms[1..])
  }

  lemma {:induction false} TaggedConcat(ms: seq<Msg>, ns: seq<Msg>)
    ensures Tagged(ms + ns) == Tagged(ms) + Tagged(ns)
  {
    if ms == [] {
      assert ms + ns == ns;
    } else {
      assert (ms + ns)[1..] == ms[1..] + ns;
      TaggedConcat(ms[1..], ns);
      Assoc(if ms[0].BandsMsg? then Tag(ms[0].dev, ms[0].items) else [], Tagged(ms[1..]), Tagged(ns));
    }
  }

  ghost predicate AllFrom(ms: seq<Msg>, d: Device) {
    forall i :: 0 <= i < |ms| ==> ms[i].dev == d
  }

  lemma {:induction false} OneDevice(ms: seq<Msg>, d: Device)
    requires AllFrom(ms, d)
    ensures Tagged(ms) == Tag(d, ItemsOf(ms))
  {
    if ms != [] {
      OneDevice(ms[1..], d);
    }
  }

  lemma {:induction false} OwedFrom(d: Device, pm: bool, c: Cursor)
    requires Reached(d, c)
    ensures AllFrom(Owed(d, pm, c), d)
    decreases Left(d, c)
  {
    LeftDecreases(d, pm, c);
    if After(d, pm, c) != START { OwedFrom(d, pm, After(d, pm, c)); }
  }

  lemma {:induction false} PendingIsExpected(devs: seq<Device>, pm: bool, net: int, filter: int, p: nat)
    requires p <= |devs|
    ensures Tagged(Pending(devs, pm, net, filter, p, 0, START)) == Expected(devs, net, filter, p)
    decreases |devs| - p
  {
    if p < |devs| {
      var d := devs[p];
      PendingIsExpected(devs, pm, net, filter, p + 1);
      if d.net == net && Selected(d, filter) {
        SplitRefinesUnsplit(d, pm);
        OwedFrom(d, pm, START);
        OneDevice(Owed(d, pm, START), d);
        TaggedConcat(Owed(d, pm, START), Pending(devs, pm, net, filter, p + 1, 0, START));
      }
    }
  }

  /** A split dump over a fixed list of devices, read to its end: the callback is called again and
      again, with whatever room each buffer has, until it delivers nothing. The reader then has
      every band and channel of every selected device exactly once and in order. */
  method Dump(devs: seq<Device>, pm: bool, net: int, filter: int, room: (nat, nat) -> nat) returns (received: seq<Msg>)
    requires forall d, c, k: nat :: d in devs && Reached(d, c) ==> room(k, 0) >= Puts(d, c)
    ensures Tagged(received) == Expected(devs, net, filter, 0)
  {
    var st := new DumpState(filter, true);
    ConsistentAtStart(devs, net, filter, 0, 0);
    ghost var all := Debt(st, devs, pm, net);
    PendingIsExpected(devs, pm, net, filter, 0);
    received := [];
    var k: nat := 0;
    while true
      invariant Ready(st, devs, net)
      invariant all == received + Debt(st, devs, pm, net)
      decreases |Debt(st, devs, pm, net)|
    {
      ghost var before, owed := received, Debt(st, devs, pm, net);
      var sent := DumpWiphy(st, devs, pm, net, n => room(k, n));
      if sent == [] {
        assert received == received + owed;
        return;
      }
      received := received + sent;
      Assoc(before, sent, Debt(st, devs, pm, net));
      k := k + 1;
    }
  }

  /** Every item received comes from a device of the reader's namespace that its filter asks for, and
      every such device's items are received, in the order of devices. */
  lemma {:induction false} ExpectedAre(devs: seq<Device>, net: int, filter: int, p: nat, d: Device, item: Item)
    requires p <= |devs|
    ensures (d, item) in Expected(devs, net, filter, p) <==>
            && d in devs[p..] && d.net == net && (filter == -1 || d.wiphyIdx == filter)
            && item in Walk(d.bands, 0)
    decreases |devs| - p
  {
    hide Walk;
    if p < |devs| {
      ExpectedAre(devs, net, filter, p + 1, d, item);
      assert devs[p..] == [devs[p]] + devs[p + 1..];
      TagHas(devs[p], Walk(devs[p].bands, 0), d, item);
    }
  }

  lemma TagHas(e: Device, items: seq<Item>, d: Device, item: Item)
    ensures (d, item) in Tag(e, items) <==> d == e && item in items
  {
    if d == e && item in items {
      var i :| 0 <= i < |items| && items[i] == item;
      assert Tag(e, items)[i] == (d, item);
    }
  }

  /** What a device has: the rate information of its bands, and their channels. */
  predicate Has(bands: Bands, b: nat, item: Item) {
    && b <= item.band < |bands| && bands[item.band].Some?
    && (item.Channel? ==> item.index < bands[item.band].value)
  }

  /** The walk visits all of that, each exactly once. */
  lemma {:induction false} WalkVisits(bands: Bands, b: nat, item: Item)
    requires b <= |bands|
    ensures multiset(Walk(bands, b))[item] == if Has(bands, b, item) then 1 else 0
    decreases |bands| - b
  {
    hide Channels, Walk;
    if b < |bands| {
      WalkVisits(bands, b + 1, item);
      if bands[b].Some? { ChannelsVisit(b, 0, bands[b].value, item); }
    }
    WalkCount(bands, b, item);
  }

  lemma WalkCount(bands: Bands, b: nat, item: Item)
    requires b <= |bands|
    ensures multiset(Walk(bands, b))[item]
            == if b == |bands| then 0
               else if bands[b].None? then multiset(Walk(bands, b + 1))[item]
               else (if item == RateInfo(b) then 1 else 0) + multiset(Channels(b, 0, bands[b].value))[item]
                    + multiset(Walk(bands, b + 1))[item]
  {
    hide Channels;
    if b < |bands| && bands[b].Some? {
      var cs, rest := Channels(b, 0, bands[b].value), Walk(bands, b + 1);
      CountConcat([RateInfo(b)], cs + rest, item);
      CountConcat(cs, rest, item);
    }
  }

  lemma {:induction false} ChannelsVisit(band: nat, lo: nat, hi: nat, item: Item)
    requires lo <= hi
    ensures multiset(Channels(band, lo, hi))[item]
            == if item.Channel? && item.band == band && lo <= item.index < hi then 1 else 0
    decreases hi - lo
  {
    if lo < hi {
      ChannelsVisit(band, lo + 1, hi, item);
      CountConcat([Channel(band, lo)], Channels(band, lo + 1, hi), item);
    }
  }

  lemma CountConcat(xs: seq<Item>, ys: seq<Item>, item: Item)
    ensures multiset(xs + ys)[item] == multiset(xs)[item] + multiset(ys)[item]
  {
  }

  // ----- the stages of a device -----

  /** The stages of the messages other than those of bands and channels, in the order sent. */
  function StagesOf(ms: seq<Msg>): (s: seq<int>) {
    if ms == [] then [] else (if ms[0].Stage? then [ms[0].stage] else []) + StagesOf(ms[1..])
  }

  predicate IsStage(k: int, pm: bool) {
    0 <= k <= 15 && k != 3 && (k != 6 || pm)
  }

  /** The stages from `lo` on: all but stage 3, which is the bands and channels, and stage 6, which is
      not built without power management. */
  function StagesFrom(lo: int, pm: bool): (s: seq<int>)
    requires 0 <= lo <= 16
    decreases 16 - lo
  {
    if lo == 16 then [] else (if IsStage(lo, pm) then [lo] else []) + StagesFrom(lo + 1, pm)
  }

  lemma {:induction false} StagesHave(lo: int, pm: bool, k: int)
    requires 0 <= lo <= 16
    ensures k in StagesFrom(lo, pm) <==> lo <= k && IsStage(k, pm)
    decreases 16 - lo
  {
    if lo < 16 { StagesHave(lo + 1, pm, k); }
  }

  lemma {:induction false} StagesAscend(lo: int, pm: bool, i: nat, j: nat)
    requires 0 <= lo <= 16 && i < j < |StagesFrom(lo, pm)|
    ensures StagesFrom(lo, pm)[i] < StagesFrom(lo, pm)[j]
    decreases 16 - lo
  {
    var rest := StagesFrom(lo + 1, pm);
    if !IsStage(lo, pm) {
      StagesAscend(lo + 1, pm, i, j);
    } else {
      assert StagesFrom(lo, pm)[j] == rest[j - 1];
      if i == 0 {
        StagesHave(lo + 1, pm, rest[j - 1]);
      } else {
        StagesAscend(lo + 1, pm, i - 1, j - 1);
      }
    }
  }

  lemma StageUnfolds(lo: int, pm: bool)
    requires 0 <= lo <= 15
    ensures StagesFrom(lo, pm) == (if IsStage(lo, pm) then [lo] else []) + StagesFrom(lo + 1, pm)
    ensures !IsStage(lo, pm) ==> StagesFrom(lo, pm) == StagesFrom(lo + 1, pm)
    ensures StagesFrom(16, pm) == []
  {
  }

  lemma StagesStep(d: Device, pm: bool, c: Cursor)
    requires Reached(d, c)
    ensures var c', m := After(d, pm, c), MsgAt(d, pm, c);
            StagesFrom(c.stage, pm)
            == (if m.Stage? then [m.stage] else []) + (if c' == START then [] else StagesFrom(c'.stage, pm))
  {
    hide Chunk, Next, StagesFrom;
    StageUnfolds(c.stage, pm);
    if c.stage == 6 { StageUnfolds(7, pm); }
    assert [] + StagesFrom(c.stage, pm) == StagesFrom(c.stage, pm);
  }

  lemma StagesCons(m: Msg, ms: seq<Msg>)
    ensures StagesOf([m] + ms) == (if m.Stage? then [m.stage] else []) + StagesOf(ms)
    ensures StagesOf([]) == []
  {
    assert ([m] + ms)[1..] == ms;
  }

  /** From every cursor, each stage that is left is sent once and in order. */
  lemma {:induction false} OwedStages(d: Device, pm: bool, c: Cursor)
    requires Reached(d, c)
    ensures StagesOf(Owed(d, pm, c)) == StagesFrom(c.stage, pm)
    decreases Left(d, c)
  {
    LeftDecreases(d, pm, c);
    hide Owed, StagesFrom, MsgAt, After, StagesOf, Left;
    var c' := After(d, pm, c);
    OwedUnfolds(d, pm, c);
    StagesStep(d, pm, c);
    StagesCons(MsgAt(d, pm, c), if c' == START then [] else Owed(d, pm, c'));
    if c' != START { OwedStages(d, pm, c'); }
  }

  /** A whole device sends all sixteen stages but the third and, without power management, the sixth,
      in ascending order. */
  lemma AllStages(d: Device, pm: bool)
    ensures var s := StagesOf(Owed(d, pm, START));
            && (forall k :: k in s <==> 0 <= k <= 15 && k != 3 && (k != 6 || pm))
            && (forall i, j :: 0 <= i < j < |s| ==> s[i] < s[j])
  {
    hide StagesFrom, Owed, StagesOf;
    OwedStages(d, pm, START);
    var s := StagesFrom(0, pm);
    forall k ensures k in s <==> IsStage(k, pm) {
      StagesHave(0, pm, k);
    }
    forall i, j | 0 <= i < j < |s| ensures s[i] < s[j] {
      StagesAscend(0, pm, i, j);
    }
  }
}
