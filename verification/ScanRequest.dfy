/** Scan requests from `Wireless/nl80211.c`. A request and all its variable parts live in one
    allocation: channels, SSIDs, information elements, match sets and scan plans follow the header,
    and a part that is absent gets no pointer. The main results are that the pointers cut the
    allocation without gaps or overlap for every combination of absent parts, and that the memory of
    a finished request is exactly the parts of the message in that order: no loop wrote outside its
    own region. */
module ScanRequest {
  import opened Basics

  datatype Channel = Channel(freq: nat, disabled: bool)

  type Octets = seq<bv8>

  datatype Item = Chan(channel: Channel) | Ssid(octets: Octets) | Plan(interval: nat, iterations: nat)

  /** One byte of the allocation: still zero, copied, or byte `k` of a record. */
  datatype Cell = Zero | Octet(value: bv8) | Part(item: Item, k: nat)

  const MAX_SSID_LEN := 32

  // ----- layout -----

  /** `sizeof` the request and the elements of its arrays. */
  datatype Sizes = Sizes(header: nat, channel: nat, ssid: nat, matchSet: nat, plan: nat)

  datatype Counts = Counts(channels: nat, ssids: nat, ie: nat, matches: nat, plans: nat)

  datatype Pointers = Pointers(channels: nat, ssids: Option<nat>, ie: Option<nat>, matchSets: Option<nat>, plans: Option<nat>)

  /** The argument of `kzalloc`. */
  function Allocation(z: Sizes, n: Counts): nat {
    z.header + z.ssid * n.ssids + z.matchSet * n.matches + z.plan * n.plans + z.channel * n.channels + n.ie
  }

  /** A part of `length` bytes that starts at `start`, or nothing. */
  predicate At(p: Option<nat>, start: nat, length: nat) {
    p == if length > 0 then Some(start) else None
  }

  function SsidsAt(z: Sizes, n: Counts): nat { z.header + z.channel * n.channels }
  function IeAt(z: Sizes, n: Counts): nat { SsidsAt(z, n) + z.ssid * n.ssids }
  function MatchSetsAt(z: Sizes, n: Counts): nat { IeAt(z, n) + n.ie }
  function PlansAt(z: Sizes, n: Counts): nat { MatchSetsAt(z, n) + z.matchSet * n.matches }

  /** Each part starts where the one before it ends, and the last ends with the allocation. */
  ghost predicate Tiles(z: Sizes, n: Counts, p: Pointers) {
    && p.channels == z.header
    && At(p.ssids, SsidsAt(z, n), n.ssids)
    && At(p.ie, IeAt(z, n), n.ie)
    && At(p.matchSets, MatchSetsAt(z, n), n.matches)
    && At(p.plans, PlansAt(z, n), n.plans)
    && PlansAt(z, n) + z.plan * n.plans == Allocation(z, n)
  }

  /** The pointers of a scheduled scan. */
  method Carve(z: Sizes, n: Counts) returns (p: Pointers)
    requires n.plans > 0
    ensures Tiles(z, n, p)
  {
    var ssids, ie, matchSets, plans: Option<nat> := None, None, None, None;
    var channels := z.header;
    if n.ssids != 0 {
      ssids := Some(channels + z.channel * n.channels);
    }
    if n.ie != 0 {
      if n.ssids != 0 {
        ie := Some(ssids.value + z.ssid * n.ssids);
      } else {
        ie := Some(channels + z.channel * n.channels);
      }
    }
    if n.matches != 0 {
      if ie.Some? {
        matchSets := Some(ie.value + n.ie);
      } else if n.ssids != 0 {
        matchSets := Some(ssids.value + z.ssid * n.ssids);
      } else {
        matchSets := Some(channels + z.channel * n.channels);
      }
    }
    if n.matches != 0 {
      plans := Some(matchSets.value + z.matchSet * n.matches);
    } else if ie.Some? {
      plans := Some(ie.value + n.ie);
    } else if n.ssids != 0 {
      plans := Some(ssids.value + z.ssid * n.ssids);
    } else {
      plans := Some(channels + z.channel * n.channels);
    }
    p := Pointers(channels, ssids, ie, matchSets, plans);
  }

  /** The pointers of a single scan, which has no match sets and no plans. */
  method CarveOnce(z: Sizes, n: Counts) returns (p: Pointers)
    requires n.matches == 0 && n.plans == 0
    ensures Tiles(z, n, p)
  {
    var ssids, ie: Option<nat> := None, None;
    var channels := z.header;
    if n.ssids != 0 {
      ssids := Some(channels + z.channel * n.channels);
    }
    if n.ie != 0 {
      if n.ssids != 0 {
        ie := Some(ssids.value + z.ssid * n.ssids);
      } else {
        ie := Some(channels + z.channel * n.channels);
      }
    }
    p := Pointers(channels, ssids, ie, None, None);
  }

  // ----- writing -----

  function Zeros(n: nat): (s: seq<Cell>)
    ensures |s| == n && forall i :: 0 <= i < n ==> s[i] == Zero
  {
    seq(n, _ => Zero)
  }

  function Record(item: Item, z: nat): (s: seq<Cell>)
    ensures |s| == z && forall k :: 0 <= k < z ==> s[k] == Part(item, k)
  {
    seq(z, k requires 0 <= k => Part(item, k))
  }

  /** An array of records. */
  function Flat(items: seq<Item>, z: nat): (s: seq<Cell>)
    ensures |s| == z * |items|
  {
    if items == [] then []
    else Grow(z, |items| - 1); Flat(items[..|items| - 1], z) + Record(items[|items| - 1], z)
  }

  lemma Grow(z: nat, n: nat)
    ensures z * (n + 1) == z * n + z
    ensures z * n >= 0
  {
  }

  function Copied(os: Octets): (s: seq<Cell>)
    ensures |s| == |os| && forall i :: 0 <= i < |os| ==> s[i] == Octet(os[i])
  {
    seq(|os|, i requires 0 <= i < |os| => Octet(os[i]))
  }

  lemma SpliceTwice(s: seq<Cell>, base: nat, a: seq<Cell>, b: seq<Cell>)
    requires base + |a| + |b| <= |s|
    ensures Splice(Splice(s, base, a), base + |a|, b) == Splice(s, base, a + b)
  {
  }

  lemma NothingWritten(s: seq<Cell>, base: nat, z: nat)
    requires base <= |s|
    ensures |Flat([], z)| == 0 && Splice(s, base, Flat([], z)) == s
    ensures Enabled([]) == []
  {
  }

  /** Writing at the start of the middle part leaves the parts around it alone. */
  lemma SpliceIn(pre: seq<Cell>, mid: seq<Cell>, post: seq<Cell>, bytes: seq<Cell>)
    requires |bytes| <= |mid|
    ensures Splice(pre + mid + post, |pre|, bytes) == pre + (bytes + mid[|bytes|..]) + post
  {
  }

  /** Assignment to an element of an array inside the allocation. */
  method Put(mem: array<Cell>, at: nat, z: nat, item: Item)
    requires at + z <= mem.Length
    modifies mem
    ensures mem[..] == Splice(old(mem[..]), at, Record(item, z))
  {
    for k := 0 to z
      invariant mem[..at] == old(mem[..at]) && mem[at + z..] == old(mem[at + z..])
      invariant forall i :: 0 <= i < k ==> mem[at + i] == Part(item, i)
    {
      mem[at + k] := Part(item, k);
    }
    assert mem[at..at + z] == Record(item, z);
    assert mem[..] == mem[..at] + mem[at..at + z] + mem[at + z..];
  }

  /** One more record at the end of those written so far. */
  lemma PutAppends(s: seq<Cell>, base: nat, items: seq<Item>, item: Item, z: nat)
    requires base + z * (|items| + 1) <= |s|
    ensures z * (|items| + 1) == z * |items| + z
    ensures Splice(Splice(s, base, Flat(items, z)), base + z * |items|, Record(item, z))
            == Splice(s, base, Flat(items + [item], z))
  {
    Grow(z, |items|);
    SpliceTwice(s, base, Flat(items, z), Record(item, z));
    assert (items + [item])[..|items|] == items;
  }

  method Memcpy(mem: array<Cell>, at: nat, os: Octets)
    requires at + |os| <= mem.Length
    modifies mem
    ensures mem[..] == Splice(old(mem[..]), at, Copied(os))
  {
    for k := 0 to |os|
      invariant mem[..at] == old(mem[..at]) && mem[at + |os|..] == old(mem[at + |os|..])
      invariant forall i :: 0 <= i < k ==> mem[at + i] == Octet(os[i])
    {
      mem[at + k] := Octet(os[k]);
    }
    assert mem[at..at + |os|] == Copied(os);
    assert mem[..] == mem[..at] + mem[at..at + |os|] + mem[at + |os|..];
  }

  // ----- channels -----

  /** A frequency attribute: its length in bytes, and its value. */
  datatype Freq = Freq(len: nat, value: nat)

  ghost predicate FreqsOk(fs: seq<Freq>) {
    && (forall i :: 0 <= i < |fs| ==> fs[i].len == 4)
    && (forall i, j :: 0 <= i < j < |fs| ==> fs[i].value != fs[j].value)
  }

  /** `validate_scan_freqs`. */
  method ValidateScanFreqs(fs: seq<Freq>) returns (n: nat)
    ensures n == if FreqsOk(fs) then |fs| else 0
    ensures n == |fs| || n == 0
    ensures fs != [] ==>
              (n == |fs| <==> && (forall f <- fs :: f.len == 4)
                              && (forall i, j :: 0 <= i < |fs| && 0 <= j < |fs| && i != j ==> fs[i].value != fs[j].value))
  {
    for i := 0 to |fs|
      invariant forall k :: 0 <= k < i ==> fs[k].len == 4
    {
      if fs[i].len != 4 {
        return 0;
      }
    }
    n := 0;
    for i := 0 to |fs|
      invariant n == i
      invariant forall k, l :: 0 <= k < i && 0 <= l < |fs| && k != l ==> fs[k].value != fs[l].value
    {
      n := n + 1;
      for j := 0 to |fs|
        invariant forall l :: 0 <= l < j && l != i ==> fs[i].value != fs[l].value
      {
        if i != j && fs[i].value == fs[j].value {
          return 0;
        }
      }
    }
  }

  type Bands = seq<Option<seq<Channel>>>

  /** Every channel of the device, band by band. */
  function AllChannels(bands: Bands): seq<Channel> {
    if bands == [] then []
    else AllChannels(bands[..|bands| - 1]) + (match bands[|bands| - 1] case Some(cs) => cs case None => [])
  }

  /** The records of the channels that are not disabled. */
  function Enabled(cs: seq<Channel>): (items: seq<Item>)
    ensures |items| <= |cs|
    ensures forall i :: 0 <= i < |items| ==> items[i].Chan? && !items[i].channel.disabled
  {
    if cs == [] then []
    else
      var last := cs[|cs| - 1];
      Enabled(cs[..|cs| - 1]) + (if last.disabled then [] else [Chan(last)])
  }

  lemma EnabledStep(cs: seq<Channel>, c: Channel)
    ensures Enabled(cs + [c]) == if c.disabled then Enabled(cs) else Enabled(cs) + [Chan(c)]
  {
    assert (cs + [c])[..|cs|] == cs;
  }

  /** The order of channels and bands is kept, and nothing but disabled channels left out. */
  lemma {:induction false} EnabledConcat(cs: seq<Channel>, ds: seq<Channel>)
    ensures Enabled(cs + ds) == Enabled(cs) + Enabled(ds)
    decreases |ds|
  {
    hide Enabled;
    if ds == [] {
      EnabledNone();
      assert cs + ds == cs;
    } else {
      var front, d := ds[..|ds| - 1], ds[|ds| - 1];
      EnabledConcat(cs, front);
      EnabledStep(cs + front, d);
      EnabledStep(front, d);
      assert cs + ds == (cs + front) + [d] && ds == front + [d];
      Assoc(Enabled(cs), Enabled(front), [Chan(d)]);
    }
  }

  lemma EnabledNone()
    ensures Enabled([]) == []
  {
  }

  lemma EnabledOne(c: Channel)
    ensures Enabled([c]) == if c.disabled then [] else [Chan(c)]
  {
    EnabledStep([], c);
    assert [] + [c] == [c];
  }

  lemma {:induction false} ChannelsConcat(a: Bands, b: Bands)
    ensures AllChannels(a + b) == AllChannels(a) + AllChannels(b)
    decreases |b|
  {
    if b == [] {
      assert a + b == a;
    } else {
      assert (a + b)[..|a + b| - 1] == a + b[..|b| - 1];
      ChannelsConcat(a, b[..|b| - 1]);
    }
  }

  lemma ChannelsOne(cs: seq<Channel>)
    ensures AllChannels([Some(cs)]) == cs && AllChannels([None]) == []
  {
    var some: Bands, none: Bands := [Some(cs)], [None];
    assert some[..0] == [] && none[..0] == [];
    assert [] + cs == cs;
  }

  function Found(fs: seq<Freq>, lookup: map<nat, Channel>): (cs: seq<Channel>)
    requires forall i :: 0 <= i < |fs| ==> fs[i].value in lookup
    ensures |cs| == |fs| && forall i :: 0 <= i < |fs| ==> cs[i] == lookup[fs[i].value]
  {
    seq(|fs|, i requires 0 <= i < |fs| => lookup[fs[i].value])
  }

  /** Writes one channel, unless it is disabled, behind those of `done`. */
  method PutChannel(mem: array<Cell>, base: nat, z: nat, n: nat, i: nat, c: Channel,
                    ghost done: seq<Channel>, ghost before: seq<Cell>)
    returns (i': nat)
    requires base + z * n <= mem.Length == |before| && |done| < n && i == |Enabled(done)|
    requires z * i <= z * n && mem[..] == Splice(before, base, Flat(Enabled(done), z))
    modifies mem
    ensures i' == |Enabled(done + [c])| <= n && z * i' <= z * n
    ensures mem[..] == Splice(before, base, Flat(Enabled(done + [c]), z))
  {
    EnabledStep(done, c);
    if c.disabled {
      return i;
    }
    Fits(z, i + 1, n);
    PutAppends(before, base, Enabled(done), Chan(c), z);
    Put(mem, base + z * i, z, Chan(c));
    i' := i + 1;
  }

  lemma Fits(z: nat, a: nat, b: nat)
    requires a <= b
    ensures 0 <= z * a <= z * b
  {
  }

  /** The channels the message lists; every one must exist. */
  method FillListed(mem: array<Cell>, base: nat, z: nat, fs: seq<Freq>, lookup: map<nat, Channel>)
    returns (ok: bool, i: nat)
    requires base + z * |fs| <= mem.Length
    modifies mem
    ensures ok <==> forall k :: 0 <= k < |fs| ==> fs[k].value in lookup
    ensures ok ==> && i == |Enabled(Found(fs, lookup))|
                   && z * i <= z * |fs|
                   && mem[..] == Splice(old(mem[..]), base, Flat(Enabled(Found(fs, lookup)), z))
  {
    hide Splice, Flat, Enabled;
    i := 0;
    Fits(z, 0, |fs|);
    NothingWritten(mem[..], base, z);
    assert Found(fs[..0], lookup) == [];
    for k := 0 to |fs|
      invariant forall l :: 0 <= l < k ==> fs[l].value in lookup
      invariant i == |Enabled(Found(fs[..k], lookup))| && z * i <= z * |fs|
      invariant mem[..] == Splice(old(mem[..]), base, Flat(Enabled(Found(fs[..k], lookup)), z))
    {
      if fs[k].value !in lookup {
        return false, 0;
      }
      var chan := lookup[fs[k].value];
      i := PutChannel(mem, base, z, |fs|, i, chan, Found(fs[..k], lookup), old(mem[..]));
      assert Found(fs[..k + 1], lookup) == Found(fs[..k], lookup) + [chan];
    }
    assert fs[..|fs|] == fs;
    ok := true;
  }

  /** The channels of one band behind those of `done`. */
  method FillBand(mem: array<Cell>, base: nat, z: nat, n: nat, i: nat, cs: seq<Channel>,
                  ghost done: seq<Channel>, ghost before: seq<Cell>)
    returns (i': nat)
    requires base + z * n <= mem.Length == |before| && |done + cs| <= n && i == |Enabled(done)|
    requires z * i <= z * n && mem[..] == Splice(before, base, Flat(Enabled(done), z))
    modifies mem
    ensures i' == |Enabled(done + cs)| && z * i' <= z * n
    ensures mem[..] == Splice(before, base, Flat(Enabled(done + cs), z))
  {
    hide Splice, Flat, Enabled;
    i' := i;
    assert done + cs[..0] == done;
    for j := 0 to |cs|
      invariant i' == |Enabled(done + cs[..j])| && z * i' <= z * n
      invariant mem[..] == Splice(before, base, Flat(Enabled(done + cs[..j]), z))
    {
      i' := PutChannel(mem, base, z, n, i', cs[j], done + cs[..j], before);
      assert done + cs[..j + 1] == (done + cs[..j]) + [cs[j]];
    }
    assert cs[..|cs|] == cs;
  }

  /** All channels of the device, `n` in all. */
  method FillAll(mem: array<Cell>, base: nat, z: nat, n: nat, bands: Bands) returns (i: nat)
    requires n == |AllChannels(bands)| && base + z * n <= mem.Length
    modifies mem
    ensures i == |Enabled(AllChannels(bands))| && z * i <= z * n
    ensures mem[..] == Splice(old(mem[..]), base, Flat(Enabled(AllChannels(bands)), z))
  {
    hide Splice, Flat, Enabled;
    i := 0;
    Fits(z, 0, n);
    NothingWritten(mem[..], base, z);
    for b := 0 to |bands|
      invariant i == |Enabled(AllChannels(bands[..b]))| && z * i <= z * n
      invariant mem[..] == Splice(old(mem[..]), base, Flat(Enabled(AllChannels(bands[..b])), z))
    {
      ghost var done := AllChannels(bands[..b]);
      assert bands[..b + 1][..b] == bands[..b];
      BandsFit(bands, b + 1);
      if bands[b].None? {
        assert done + [] == done;
        continue;
      }
      i := FillBand(mem, base, z, n, i, bands[b].value, done, old(mem[..]));
    }
    assert bands[..|bands|] == bands;
  }

  lemma {:induction false} BandsFit(bands: Bands, b: nat)
    requires b <= |bands|
    ensures |AllChannels(bands[..b])| <= |AllChannels(bands)|
    decreases |bands| - b
  {
    if b < |bands| {
      assert bands[..b + 1][..b] == bands[..b];
      BandsFit(bands, b + 1);
    } else {
      assert bands[..b] == bands;
    }
  }

  // ----- SSIDs and plans -----

  function Ssids(ss: seq<Octets>): (items: seq<Item>)
    ensures |items| == |ss| && forall i :: 0 <= i < |ss| ==> items[i] == Ssid(ss[i])
  {
    seq(|ss|, i requires 0 <= i < |ss| => Ssid(ss[i]))
  }

  method FillSsids(mem: array<Cell>, base: nat, z: nat, ss: seq<Octets>) returns (ok: bool)
    requires base + z * |ss| <= mem.Length
    modifies mem
    ensures ok <==> forall k :: 0 <= k < |ss| ==> |ss[k]| <= 32
    ensures ok ==> mem[..] == Splice(old(mem[..]), base, Flat(Ssids(ss), z))
  {
    hide Splice, Flat;
    NothingWritten(mem[..], base, z);
    assert Ssids(ss[..0]) == [];
    for i := 0 to |ss|
      invariant forall k :: 0 <= k < i ==> |ss[k]| <= MAX_SSID_LEN
      invariant mem[..] == Splice(old(mem[..]), base, Flat(Ssids(ss[..i]), z))
    {
      if |ss[i]| > MAX_SSID_LEN {
        return false;
      }
      Fits(z, i + 1, |ss|);
      Fits(z, i, |ss|);
      PutAppends(old(mem[..]), base, Ssids(ss[..i]), Ssid(ss[i]), z);
      Put(mem, base + z * i, z, Ssid(ss[i]));
      assert Ssids(ss[..i + 1]) == Ssids(ss[..i]) + [Ssid(ss[i])];
    }
    assert ss[..|ss|] == ss;
    ok := true;
  }

  /** The attributes of one plan; `Malformed` when they do not parse. */
  datatype PlanAttr = Malformed | PlanAttr(interval: Option<nat>, iterations: Option<nat>)

  datatype Limits = Limits(ssids: nat, ie: nat, matches: nat, plans: nat, interval: nat, iterations: nat)

  predicate InRange(x: Option<nat>, max: nat) {
    x.Some? && 0 < x.value <= max
  }

  /** Every plan has an interval, and all but the last a number of iterations, within the limits. */
  ghost predicate PlansOk(ps: seq<PlanAttr>, w: Limits) {
    && (forall i :: 0 <= i < |ps| ==> ps[i].PlanAttr? && InRange(ps[i].interval, w.interval))
    && (forall i :: 0 <= i < |ps| - 1 ==> InRange(ps[i].iterations, w.iterations))
    && (ps != [] ==> ps[|ps| - 1].iterations.None?)
  }

  function PlanOf(p: PlanAttr): Item {
    Plan(if p.PlanAttr? && p.interval.Some? then p.interval.value else 0,
         if p.PlanAttr? && p.iterations.Some? then p.iterations.value else 0)
  }

  function Plans(ps: seq<PlanAttr>): (items: seq<Item>)
    ensures |items| == |ps|
  {
    seq(|ps|, i requires 0 <= i < |ps| => PlanOf(ps[i]))
  }

  /** The explicit plans of `nl80211_parse_sched_scan_plans`; the fields of one plan are written
      together. */
  method FillPlans(mem: array<Cell>, base: nat, z: nat, ps: seq<PlanAttr>, nPlans: nat, w: Limits)
    returns (ok: bool)
    requires nPlans == |ps| > 0 && base + z * nPlans <= mem.Length
    modifies mem
    ensures ok <==> PlansOk(ps, w)
    ensures ok ==> mem[..] == Splice(old(mem[..]), base, Flat(Plans(ps), z))
  {
    hide Splice, Flat;
    NothingWritten(mem[..], base, z);
    assert Plans(ps[..0]) == [];
    var last := Plan(0, 0);
    for i := 0 to |ps|
      invariant forall k :: 0 <= k < i ==> ps[k].PlanAttr? && InRange(ps[k].interval, w.interval)
      invariant forall k :: 0 <= k < i && (k < |ps| - 1 || ps[k].iterations.Some?) ==> InRange(ps[k].iterations, w.iterations)
      invariant i > 0 ==> last == PlanOf(ps[i - 1])
      invariant mem[..] == Splice(old(mem[..]), base, Flat(Plans(ps[..i]), z))
    {
      var p := ps[i];
      if p.Malformed? || !InRange(p.interval, w.interval) {
        return false;
      }
      if p.iterations.Some? {
        if !InRange(p.iterations, w.iterations) {
          assert i == |ps| - 1 ==> ps[|ps| - 1].iterations.Some?;
          return false;
        }
      } else if i < nPlans - 1 {
        return false;
      }
      Fits(z, i + 1, |ps|);
      Fits(z, i, |ps|);
      PutAppends(old(mem[..]), base, Plans(ps[..i]), PlanOf(p), z);
      Put(mem, base + z * i, z, PlanOf(p));
      assert Plans(ps[..i + 1]) == Plans(ps[..i]) + [PlanOf(p)];
      last := PlanOf(p);
    }
    assert ps[..|ps|] == ps;
    if last.iterations != 0 {
      return false;
    }
    ok := true;
  }

  /** The one plan of a message that gives only an interval in milliseconds: seconds rounded up, no
      more than the limit. */
  function DefaultPlan(interval: nat, w: Limits): Item {
    var s := (interval + 999) / 1000;
    Plan(if s > w.interval then w.interval else s, 0)
  }

  /** The default plan repeats for ever, every so many seconds: the fewest that cover the interval, or
      the limit if that is less. */
  lemma DefaultPlanRounds(interval: nat, w: Limits)
    requires interval > 0
    ensures var p := DefaultPlan(interval, w);
            && p.Plan? && p.iterations == 0 && p.interval <= w.interval
            && (p.interval < w.interval ==> 1000 * p.interval >= interval)
            && (p.interval > 0 ==> 1000 * (p.interval - 1) < interval)
  {
  }

  /** The plans accepted, and what is written for them. */
  lemma AcceptedPlans(ps: seq<PlanAttr>, w: Limits)
    requires ps != []
    ensures PlansOk(ps, w) <==>
            forall i :: 0 <= i < |ps| ==>
              && ps[i].PlanAttr?
              && ps[i].interval.Some? && 1 <= ps[i].interval.value && ps[i].interval.value <= w.interval
              && (if i == |ps| - 1 then ps[i].iterations.None?
                  else ps[i].iterations.Some? && 1 <= ps[i].iterations.value && ps[i].iterations.value <= w.iterations)
    ensures PlansOk(ps, w) ==>
              forall i :: 0 <= i < |ps| ==>
                Plans(ps)[i] == Plan(ps[i].interval.value, if i == |ps| - 1 then 0 else ps[i].iterations.value)
  {
  }

  // ----- requests -----

  datatype Attrs = Attrs(freqs: Option<seq<Freq>>, ssids: seq<Octets>, ie: Octets, matches: nat,
                         plans: Option<seq<PlanAttr>>, interval: Option<nat>)

  datatype Device = Device(bands: Bands, lookup: map<nat, Channel>, limits: Limits)

  ghost predicate ChannelsOk(d: Device, a: Attrs) {
    && (a.freqs.Some? ==> FreqsOk(a.freqs.value) && forall i :: 0 <= i < |a.freqs.value| ==> a.freqs.value[i].value in d.lookup)
    && Channels(d, a) != []
  }

  /** The records of the channels to scan. */
  ghost function Channels(d: Device, a: Attrs): seq<Item>
    requires a.freqs.Some? ==> forall i :: 0 <= i < |a.freqs.value| ==> a.freqs.value[i].value in d.lookup
  {
    Enabled(if a.freqs.Some? then Found(a.freqs.value, d.lookup) else AllChannels(d.bands))
  }

  ghost predicate SsidsOk(a: Attrs, max: nat) {
    |a.ssids| <= max && forall k :: 0 <= k < |a.ssids| ==> |a.ssids[k]| <= MAX_SSID_LEN
  }

  ghost predicate SchedulingOk(a: Attrs, w: Limits) {
    if a.plans.Some? then
      && a.interval.None?
      && 0 < |a.plans.value| <= w.plans
      && PlansOk(a.plans.value, w)
    else
      a.interval.Some? && 0 < a.interval.value && 0 < w.plans
  }

  /** The messages that make a scheduled scan. */
  ghost predicate Acceptable(d: Device, a: Attrs) {
    && ChannelsOk(d, a)
    && SsidsOk(a, d.limits.ssids)
    && |a.ie| <= d.limits.ie
    && a.matches <= d.limits.matches
    && SchedulingOk(a, d.limits)
  }

  /** The limits are exact: of an acceptable message, each part can be exchanged for any other within
      its limit and for none beyond. */
  lemma LimitsAreExact(d: Device, a: Attrs, ssids: seq<Octets>, ie: Octets, matches: nat, ps: seq<PlanAttr>)
    requires Acceptable(d, a)
    ensures Acceptable(d, a.(ie := ie)) <==> |ie| <= d.limits.ie
    ensures Acceptable(d, a.(matches := matches)) <==> matches <= d.limits.matches
    ensures Acceptable(d, a.(ssids := ssids)) <==>
            |ssids| <= d.limits.ssids && forall i :: 0 <= i < |ssids| ==> |ssids[i]| <= 32
    ensures Acceptable(d, a.(plans := Some(ps), interval := None)) <==>
            0 < |ps| <= d.limits.plans && PlansOk(ps, d.limits)
    ensures forall n: nat :: Acceptable(d, a.(plans := None, interval := Some(n))) <==> n > 0
    ensures !Acceptable(d, a.(plans := None, interval := None))
    ensures forall n: nat :: !Acceptable(d, a.(plans := Some(ps), interval := Some(n)))
  {
    hide PlansOk, Enabled, AllChannels, FreqsOk;
  }

  ghost function PlanItems(a: Attrs, w: Limits): seq<Item> {
    if a.plans.Some? then Plans(a.plans.value)
    else if a.interval.Some? then [DefaultPlan(a.interval.value, w)]
    else []
  }

  function CountsOf(d: Device, a: Attrs): Counts {
    Counts(if a.freqs.Some? then |a.freqs.value| else |AllChannels(d.bands)|,
           |a.ssids|, |a.ie|, a.matches, if a.plans.Some? then |a.plans.value| else 1)
  }

  /** A region with records at its start and zeros behind them. */
  ghost function Padded(bytes: seq<Cell>, size: nat): (s: seq<Cell>)
    requires |bytes| <= size
    ensures |s| == size
  {
    bytes + Zeros(size - |bytes|)
  }

  /** The finished allocation. Match sets are written elsewhere. */
  ghost function Image(z: Sizes, n: Counts, channels: seq<Item>, ssids: seq<Item>, ie: Octets, plans: seq<Item>): seq<Cell>
    requires |Flat(channels, z.channel)| <= z.channel * n.channels
  {
    Zeros(z.header)
    + Padded(Flat(channels, z.channel), z.channel * n.channels)
    + Flat(ssids, z.ssid)
    + Copied(ie)
    + Zeros(z.matchSet * n.matches)
    + Flat(plans, z.plan)
  }

  lemma ZerosAdd(a: nat, b: nat)
    ensures Zeros(a + b) == Zeros(a) + Zeros(b)
  {
  }

  /** Writing the front of a run of zeros. */
  lemma WriteNext(pre: seq<Cell>, size: nat, rest: nat, bytes: seq<Cell>)
    requires |bytes| <= size
    ensures Splice(pre + Zeros(size + rest), |pre|, bytes) == pre + Padded(bytes, size) + Zeros(rest)
  {
    ZerosAdd(size, rest);
    assert pre + Zeros(size + rest) == pre + Zeros(size) + Zeros(rest);
    SpliceIn(pre, Zeros(size), Zeros(rest), bytes);
    assert Zeros(size)[|bytes|..] == Zeros(size - |bytes|);
  }

  lemma PaddedFully(bytes: seq<Cell>)
    ensures Padded(bytes, |bytes|) == bytes
  {
  }

  /** The four writes, each in its own region, make up the whole. */
  lemma Assemble(h: nat, c: nat, m: nat, chans: seq<Cell>, ss: seq<Cell>, ie: seq<Cell>, ps: seq<Cell>)
    requires |chans| <= c
    ensures var m0 := Zeros(h + c + |ss| + |ie| + m + |ps|);
            var m1 := Splice(m0, h, chans);
            var m2 := Splice(m1, h + c, ss);
            var m3 := Splice(m2, h + c + |ss|, ie);
            var m4 := Splice(m3, h + c + |ss| + |ie| + m, ps);
            m4 == Zeros(h) + Padded(chans, c) + ss + ie + Zeros(m) + ps
  {
    hide Splice, Zeros, Padded;
    var s, i, p := |ss|, |ie|, |ps|;
    PaddedFully(ss);
    PaddedFully(ie);
    PaddedFully(ps);
    var p1 := Zeros(h);
    var p2 := p1 + Padded(chans, c);
    var p3 := p2 + ss;
    var p4 := p3 + ie;
    ZerosAdd(h, c + (s + i + m + p));
    WriteNext(p1, c, s + i + m + p, chans);
    WriteNext(p2, s, i + m + p, ss);
    WriteNext(p3, i, m + p, ie);
    ZerosAdd(m, p);
    assert p4 + (Zeros(m) + Zeros(p)) == p4 + Zeros(m) + Zeros(p);
    WriteNext(p4 + Zeros(m), p, 0, ps);
    assert p4 + Zeros(m) + Zeros(p + 0) == p4 + Zeros(m) + Zeros(p);
    assert p4 + Zeros(m) + ps + Zeros(0) == p4 + Zeros(m) + ps;
  }

  lemma AssembleImage(z: Sizes, n: Counts, channels: seq<Item>, ssids: seq<Item>, ie: Octets, plans: seq<Item>)
    requires |channels| <= n.channels && |ssids| == n.ssids && |ie| == n.ie && |plans| == n.plans
    ensures |Flat(channels, z.channel)| <= z.channel * n.channels
    ensures z.header + |Flat(channels, z.channel)| <= Allocation(z, n)
    ensures SsidsAt(z, n) + |Flat(ssids, z.ssid)| <= Allocation(z, n)
    ensures IeAt(z, n) + |Copied(ie)| <= Allocation(z, n)
    ensures PlansAt(z, n) + |Flat(plans, z.plan)| <= Allocation(z, n)
    ensures var m1 := Splice(Zeros(Allocation(z, n)), z.header, Flat(channels, z.channel));
            var m2 := Splice(m1, SsidsAt(z, n), Flat(ssids, z.ssid));
            var m3 := Splice(m2, IeAt(z, n), Copied(ie));
            Splice(m3, PlansAt(z, n), Flat(plans, z.plan)) == Image(z, n, channels, ssids, ie, plans)
  {
    hide Splice, Flat, Zeros, Copied, Padded;
    Fits(z.channel, |channels|, n.channels);
    FitInside(z, n);
    Assemble(z.header, z.channel * n.channels, z.matchSet * n.matches, Flat(channels, z.channel),
             Flat(ssids, z.ssid), Copied(ie), Flat(plans, z.plan));
  }

  // ----- reading back -----

  lemma {:induction false} FlatAt(items: seq<Item>, z: nat, i: nat, k: nat)
    requires i < |items| && k < z
    ensures 0 <= z * i + k < |Flat(items, z)|
    ensures Flat(items, z)[z * i + k] == Part(items[i], k)
  {
    var n := |items| - 1;
    Grow(z, n);
    if i < n {
      var front := Flat(items[..n], z);
      FlatAt(items[..n], z, i, k);
      assert Flat(items, z) == front + Record(items[n], z);
      assert (front + Record(items[n], z))[z * i + k] == front[z * i + k];
    }
  }

  lemma PartsAt(h: seq<Cell>, c: seq<Cell>, s: seq<Cell>, o: seq<Cell>, q: seq<Cell>, r: seq<Cell>, j: nat)
    ensures var m := h + c + s + o + q + r;
            && (j < |c| ==> m[|h| + j] == c[j])
            && (j < |s| ==> m[|h| + |c| + j] == s[j])
            && (j < |o| ==> m[|h| + |c| + |s| + j] == o[j])
            && (j < |r| ==> m[|h| + |c| + |s| + |o| + |q| + j] == r[j])
  {
  }

  /** Reading element `i` of a part through its pointer gives what the message had there: byte `k`
      of the record, and byte `i` of the information elements. */
  lemma ReadBack(z: Sizes, n: Counts, p: Pointers, channels: seq<Item>, ssids: seq<Item>, ie: Octets, plans: seq<Item>, i: nat, k: nat)
    requires |channels| <= n.channels && |ssids| == n.ssids && |ie| == n.ie && |plans| == n.plans
    requires |Flat(channels, z.channel)| <= z.channel * n.channels
    requires Tiles(z, n, p)
    ensures var m := Image(z, n, channels, ssids, ie, plans);
            && |m| == Allocation(z, n)
            && (i < |channels| && k < z.channel ==>
                  && 0 <= p.channels + (z.channel * i + k) < |m|
                  && m[p.channels + (z.channel * i + k)] == Part(channels[i], k))
            && (i < |ssids| && k < z.ssid ==>
                  && 0 <= p.ssids.value + (z.ssid * i + k) < |m|
                  && m[p.ssids.value + (z.ssid * i + k)] == Part(ssids[i], k))
            && (i < |ie| ==> p.ie.value + i < |m| && m[p.ie.value + i] == Octet(ie[i]))
            && (i < |plans| && k < z.plan ==>
                  && 0 <= p.plans.value + (z.plan * i + k) < |m|
                  && m[p.plans.value + (z.plan * i + k)] == Part(plans[i], k))
  {
    hide Flat, Image, SsidsAt, IeAt, MatchSetsAt, PlansAt, Allocation, Copied;
    ImageAt(z, n, channels, ssids, ie, plans, i);
    if i < |channels| && k < z.channel {
      FlatAt(channels, z.channel, i, k);
      ImageAt(z, n, channels, ssids, ie, plans, z.channel * i + k);
    }
    if i < |ssids| && k < z.ssid {
      FlatAt(ssids, z.ssid, i, k);
      ImageAt(z, n, channels, ssids, ie, plans, z.ssid * i + k);
    }
    if i < |plans| && k < z.plan {
      FlatAt(plans, z.plan, i, k);
      ImageAt(z, n, channels, ssids, ie, plans, z.plan * i + k);
    }
  }

  lemma ImageAt(z: Sizes, n: Counts, channels: seq<Item>, ssids: seq<Item>, ie: Octets, plans: seq<Item>, j: nat)
    requires |channels| <= n.channels && |ssids| == n.ssids && |ie| == n.ie && |plans| == n.plans
    requires |Flat(channels, z.channel)| <= z.channel * n.channels
    ensures var m := Image(z, n, channels, ssids, ie, plans);
            && |m| == Allocation(z, n)
            && (j < |Flat(channels, z.channel)| ==>
                  z.header + j < |m| && m[z.header + j] == Flat(channels, z.channel)[j])
            && (j < |Flat(ssids, z.ssid)| ==> SsidsAt(z, n) + j < |m| && m[SsidsAt(z, n) + j] == Flat(ssids, z.ssid)[j])
            && (j < |ie| ==> IeAt(z, n) + j < |m| && m[IeAt(z, n) + j] == Copied(ie)[j])
            && (j < |Flat(plans, z.plan)| ==> PlansAt(z, n) + j < |m| && m[PlansAt(z, n) + j] == Flat(plans, z.plan)[j])
  {
    hide Flat, Zeros, Padded, Copied;
    FitInside(z, n);
    if j < |Flat(channels, z.channel)| {
      PaddedAt(Flat(channels, z.channel), z.channel * n.channels, j);
    }
    PartsAt(Zeros(z.header), Padded(Flat(channels, z.channel), z.channel * n.channels), Flat(ssids, z.ssid),
            Copied(ie), Zeros(z.matchSet * n.matches), Flat(plans, z.plan), j);
  }

  lemma PaddedAt(bytes: seq<Cell>, size: nat, j: nat)
    requires j < |bytes| <= size
    ensures Padded(bytes, size)[j] == bytes[j]
  {
  }

  datatype Request = Request(pointers: Pointers, nChannels: nat, image: seq<Cell>)

  /** The number of channels to make room for, or 0. */
  method CountChannels(d: Device, a: Attrs) returns (n: nat)
    ensures n == if a.freqs.Some? && !FreqsOk(a.freqs.value) then 0 else CountsOf(d, a).channels
  {
    if a.freqs.Some? {
      n := ValidateScanFreqs(a.freqs.value);
    } else {
      n := |AllChannels(d.bands)|;
    }
  }

  method FillChannels(mem: array<Cell>, base: nat, z: nat, d: Device, a: Attrs) returns (ok: bool, i: nat)
    requires base + z * CountsOf(d, a).channels <= mem.Length
    requires a.freqs.Some? ==> FreqsOk(a.freqs.value)
    modifies mem
    ensures ok <==> ChannelsOk(d, a)
    ensures ok ==> && i == |Channels(d, a)|
                   && z * i <= z * CountsOf(d, a).channels
                   && mem[..] == Splice(old(mem[..]), base, Flat(Channels(d, a), z))
  {
    hide Splice, Flat, Enabled;
    if a.freqs.Some? {
      ok, i := FillListed(mem, base, z, a.freqs.value, d.lookup);
      if !ok {
        return false, 0;
      }
    } else {
      i := FillAll(mem, base, z, |AllChannels(d.bands)|, d.bands);
    }
    ok := i != 0;
  }

  /** Skipping an absent part is the same as writing nothing. */
  lemma SpliceEmpty(s: seq<Cell>, base: nat, bytes: seq<Cell>)
    requires base <= |s| && bytes == []
    ensures Splice(s, base, bytes) == s
  {
  }

  method FillSsidsIfAny(mem: array<Cell>, p: Option<nat>, ghost start: nat, z: nat, ss: seq<Octets>)
    returns (ok: bool)
    requires At(p, start, |ss|) && start + z * |ss| <= mem.Length
    modifies mem
    ensures ok <==> forall k :: 0 <= k < |ss| ==> |ss[k]| <= MAX_SSID_LEN
    ensures ok ==> mem[..] == Splice(old(mem[..]), start, Flat(Ssids(ss), z))
  {
    hide Splice;
    ok := true;
    if p.Some? {
      ok := FillSsids(mem, p.value, z, ss);
    } else {
      SpliceEmpty(mem[..], start, Flat(Ssids(ss), z));
    }
  }

  method CopyIeIfAny(mem: array<Cell>, p: Option<nat>, ghost start: nat, ie: Octets)
    requires At(p, start, |ie|) && start + |ie| <= mem.Length
    modifies mem
    ensures mem[..] == Splice(old(mem[..]), start, Copied(ie))
  {
    if p.Some? {
      Memcpy(mem, p.value, ie);
    } else {
      SpliceEmpty(mem[..], start, Copied(ie));
    }
  }

  /** `nl80211_parse_sched_scan_plans`. */
  method ParsePlans(mem: array<Cell>, base: nat, z: nat, a: Attrs, w: Limits) returns (ok: bool)
    requires a.plans.None? ==> a.interval.Some?
    requires a.plans.Some? ==> a.plans.value != []
    requires base + z * (if a.plans.Some? then |a.plans.value| else 1) <= mem.Length
    modifies mem
    ensures ok <==> if a.plans.Some? then PlansOk(a.plans.value, w) else a.interval.value != 0
    ensures ok ==> mem[..] == Splice(old(mem[..]), base, Flat(PlanItems(a, w), z))
  {
    if a.plans.None? {
      if a.interval.value == 0 {
        return false;
      }
      NothingWritten(mem[..], base, z);
      PutAppends(mem[..], base, [], DefaultPlan(a.interval.value, w), z);
      Put(mem, base, z, DefaultPlan(a.interval.value, w));
      assert [] + [DefaultPlan(a.interval.value, w)] == PlanItems(a, w);
      return true;
    }
    ok := FillPlans(mem, base, z, a.plans.value, |a.plans.value|, w);
  }

  ghost predicate Plannable(a: Attrs, w: Limits) {
    if a.plans.Some? then PlansOk(a.plans.value, w) else a.interval.Some? && a.interval.value != 0
  }

  /** The fill loops of a scheduled scan, one after the other on the zeroed allocation. */
  method FillSched(mem: array<Cell>, z: Sizes, d: Device, a: Attrs, n: Counts, p: Pointers) returns (ok: bool, i: nat)
    requires n == CountsOf(d, a) && n.plans > 0 && Tiles(z, n, p)
    requires mem.Length == Allocation(z, n) && mem[..] == Zeros(Allocation(z, n))
    requires a.freqs.Some? ==> FreqsOk(a.freqs.value)
    requires a.plans.None? ==> a.interval.Some?
    modifies mem
    ensures ok <==> ChannelsOk(d, a) && SsidsOk(a, |a.ssids|) && Plannable(a, d.limits)
    ensures ok ==>
              && i == |Channels(d, a)|
              && |Flat(Channels(d, a), z.channel)| <= z.channel * n.channels
              && mem[..] == Image(z, n, Channels(d, a), Ssids(a.ssids), a.ie, PlanItems(a, d.limits))
  {
    hide Splice, Flat, Enabled, Zeros, Padded, Plans, Ssids, Copied, PlansOk, FreqsOk, PlanItems, Image;
    FitInside(z, n);
    ok, i := FillChannels(mem, p.channels, z.channel, d, a);
    if !ok {
      return;
    }
    ok := FillSsidsIfAny(mem, p.ssids, SsidsAt(z, n), z.ssid, a.ssids);
    if !ok {
      return;
    }
    CopyIeIfAny(mem, p.ie, IeAt(z, n), a.ie);
    ok := ParsePlans(mem, p.plans.value, z.plan, a, d.limits);
    if !ok {
      return;
    }
    PlanItemsCount(a, d.limits);
    AssembleImage(z, n, Channels(d, a), Ssids(a.ssids), a.ie, PlanItems(a, d.limits));
  }

  lemma FitInside(z: Sizes, n: Counts)
    ensures z.header + z.channel * n.channels == SsidsAt(z, n)
    ensures SsidsAt(z, n) + z.ssid * n.ssids == IeAt(z, n)
    ensures IeAt(z, n) + n.ie == MatchSetsAt(z, n) <= PlansAt(z, n)
    ensures PlansAt(z, n) + z.plan * n.plans == Allocation(z, n)
    ensures SsidsAt(z, n) <= IeAt(z, n) && PlansAt(z, n) <= Allocation(z, n)
  {
    Fits(z.ssid, 0, n.ssids);
    Fits(z.matchSet, 0, n.matches);
    Fits(z.plan, 0, n.plans);
  }

  lemma PlanItemsCount(a: Attrs, w: Limits)
    requires a.plans.None? ==> a.interval.Some?
    ensures |PlanItems(a, w)| == if a.plans.Some? then |a.plans.value| else 1
  {
  }

  /** `nl80211_parse_sched_scan`: which messages make a request, where its parts are, and that its
      memory holds them and nothing else. */
  method ParseSchedScan(z: Sizes, d: Device, a: Attrs, memory: bool) returns (r: Option<Request>)
    ensures r.Some? <==> memory && Acceptable(d, a)
    ensures r.Some? ==>
              && Tiles(z, CountsOf(d, a), r.value.pointers)
              && r.value.nChannels == |Channels(d, a)|
              && |Flat(Channels(d, a), z.channel)| <= z.channel * CountsOf(d, a).channels
              && r.value.image == Image(z, CountsOf(d, a), Channels(d, a), Ssids(a.ssids), a.ie, PlanItems(a, d.limits))
  {
    hide Tiles, Allocation, Image, Flat, PlansOk, Channels, PlanItems, Ssids;
    var nChannels := CountChannels(d, a);
    if a.freqs.Some? && nChannels == 0 {
      NoChannels(d, a);
      return None;
    }
    if |a.ssids| > d.limits.ssids || a.matches > d.limits.matches || |a.ie| > d.limits.ie {
      return None;
    }
    if a.plans.Some? {
      if a.interval.Some? {
        return None;
      }
    } else if a.interval.None? {
      return None;
    }
    var n := CountsOf(d, a);
    if n.plans == 0 || n.plans > d.limits.plans {
      return None;
    }
    if !memory {
      return None;
    }
    var mem := new Cell[Allocation(z, n)](_ => Zero);
    var p := Carve(z, n);
    assert mem[..] == Zeros(Allocation(z, n));
    var ok, i := FillSched(mem, z, d, a, n, p);
    if !ok {
      return None;
    }
    r := Some(Request(p, i, mem[..]));
  }

  lemma NoChannels(d: Device, a: Attrs)
    requires a.freqs.Some? && (!FreqsOk(a.freqs.value) || a.freqs.value == [])
    ensures !ChannelsOk(d, a)
  {
  }

  // ----- a single scan -----

  /** When the device may not leave its channel, `stay` is the frequency of that channel. */
  ghost predicate MayScan(d: Device, a: Attrs, stay: Option<nat>)
    requires ChannelsOk(d, a)
  {
    stay.Some? ==> |Channels(d, a)| == 1 && Channels(d, a)[0].channel.freq == stay.value
  }

  /** The first byte of a region with one record is the first byte of that record. */
  lemma FirstCell(s: seq<Cell>, base: nat, item: Item, z: nat)
    requires z > 0 && base + z <= |s|
    ensures |Flat([item], z)| == z
    ensures Splice(s, base, Flat([item], z))[base] == Part(item, 0)
  {
    assert Flat([item], z) == Flat([], z) + Record(item, z) by {
      assert [item][..0] == [];
    }
  }

  /** The fill loops of a single scan. The test in the middle reads back the channel just written. */
  method FillOnce(mem: array<Cell>, z: Sizes, d: Device, a: Attrs, stay: Option<nat>, n: Counts, p: Pointers)
    returns (ok: bool, i: nat)
    requires z.channel > 0
    requires n == CountsOf(d, a).(matches := 0, plans := 0) && Tiles(z, n, p)
    requires mem.Length == Allocation(z, n) && mem[..] == Zeros(Allocation(z, n))
    requires a.freqs.Some? ==> FreqsOk(a.freqs.value)
    modifies mem
    ensures ok <==> ChannelsOk(d, a) && MayScan(d, a, stay) && SsidsOk(a, |a.ssids|)
    ensures ok ==>
              && i == |Channels(d, a)|
              && |Flat(Channels(d, a), z.channel)| <= z.channel * n.channels
              && mem[..] == Image(z, n, Channels(d, a), Ssids(a.ssids), a.ie, [])
  {
    hide Splice, Flat, Enabled, Zeros, Padded, Ssids, Copied, FreqsOk, Image;
    FitInside(z, n);
    ok, i := FillChannels(mem, p.channels, z.channel, d, a);
    if !ok {
      return;
    }
    if stay.Some? {
      if i != 1 {
        return false, i;
      }
      ghost var first := Channels(d, a)[0];
      assert Channels(d, a) == [first];
      Fits(z.channel, 1, n.channels);
      FirstCell(old(mem[..]), p.channels, first, z.channel);
      assert mem[..][p.channels] == mem[p.channels];
      if mem[p.channels].item.channel.freq != stay.value {
        return false, i;
      }
    }
    ok := FillSsidsIfAny(mem, p.ssids, SsidsAt(z, n), z.ssid, a.ssids);
    if !ok {
      return;
    }
    CopyIeIfAny(mem, p.ie, IeAt(z, n), a.ie);
    NothingWritten(mem[..], PlansAt(z, n), z.plan);
    AssembleImage(z, n, Channels(d, a), Ssids(a.ssids), a.ie, []);
  }

  /** `nl80211_trigger_scan`, up to the checks that do not touch the allocation. */
  method TriggerScan(z: Sizes, d: Device, a: Attrs, stay: Option<nat>, memory: bool) returns (r: Option<Request>)
    requires z.channel > 0
    ensures r.Some? <==> && memory && ChannelsOk(d, a)
                         && (stay.Some? ==> |Channels(d, a)| == 1 && Channels(d, a)[0].channel.freq == stay.value)
                         && |a.ssids| <= d.limits.ssids && (forall k :: 0 <= k < |a.ssids| ==> |a.ssids[k]| <= 32)
                         && |a.ie| <= d.limits.ie
    ensures r.Some? ==>
              var n := CountsOf(d, a).(matches := 0, plans := 0);
              && Tiles(z, n, r.value.pointers)
              && r.value.nChannels == |Channels(d, a)|
              && |Flat(Channels(d, a), z.channel)| <= z.channel * n.channels
              && r.value.image == Image(z, n, Channels(d, a), Ssids(a.ssids), a.ie, [])
  {
    hide Tiles, Allocation, Image, Flat, Channels, Ssids;
    var nChannels := CountChannels(d, a);
    if a.freqs.Some? && nChannels == 0 {
      NoChannels(d, a);
      return None;
    }
    if |a.ssids| > d.limits.ssids || |a.ie| > d.limits.ie || !memory {
      return None;
    }
    var n := CountsOf(d, a).(matches := 0, plans := 0);
    var mem := new Cell[Allocation(z, n)](_ => Zero);
    var p := CarveOnce(z, n);
    assert mem[..] == Zeros(Allocation(z, n));
    var ok, i := FillOnce(mem, z, d, a, stay, n, p);
    if !ok {
      return None;
    }
    r := Some(Request(p, i, mem[..]));
  }
}
