/** The list of access points seen while scanning, from `Wireless/base.c`. An entry that is seen
    again moves to the tail with a new age; entries not seen for 180 seconds expire. The main result
    is that, over every run, the list is a map from BSSID to the time it was last seen. */
module ScanList {
  import opened Basics

  type Bssid = seq<bv8>

  /** `age` is the time, in jiffies, the access point was last seen. */
  datatype Entry = Entry(bssid: Bssid, age: nat)

  // ----- time -----

  const WORD := 0x1_0000_0000_0000_0000
  const UINT := 0x1_0000_0000
  const LIMIT := 180000

  /** Milliseconds per jiffy. */
  function Tick(hz: nat): (ms: nat)
    requires 0 < hz && 1000 % hz == 0
    ensures ms * hz == 1000
  {
    1000 / hz
  }

  /** `jiffies_to_msecs(now - age)`: the difference is 64 bits wide and the result 32. */
  function Msecs(ms: nat, now: nat, age: nat): (r: nat)
    ensures r < UINT
  {
    ms * ((now - age) % WORD) % UINT
  }

  /** The test in the expiry loop. */
  predicate Fresh(e: Entry, ms: nat, now: nat) {
    Msecs(ms, now, e.age) < LIMIT
  }

  /** What the test is meant to say. */
  predicate Recent(age: nat, ms: nat, now: nat) {
    ms * (now - age) < LIMIT
  }

  /** The 64-bit wrap does not show through the 32-bit one. */
  lemma MsecsModulo(ms: nat, now: nat, age: nat)
    requires age <= now
    ensures Msecs(ms, now, age) == ms * (now - age) % UINT
  {
    var d := now - age;
    var q, r := d / WORD, d % WORD;
    assert d == q * WORD + r;
    assert ms * d == ms * r + ms * q * WORD by {
      Distribute(ms, q * WORD, r);
      Regroup(ms, q, WORD);
    }
    Shift(ms * r, ms * q);
  }

  lemma Distribute(a: int, b: int, c: int)
    ensures a * (b + c) == a * b + a * c
  {
  }

  lemma Regroup(a: int, b: int, c: int)
    ensures a * (b * c) == a * b * c
  {
  }

  lemma Shift(a: int, b: int)
    ensures (a + b * WORD) % UINT == a % UINT
  {
    var k := b * UINT;
    assert b * WORD == k * UINT;
    ShiftOnce(a, k);
  }

  lemma ShiftOnce(a: int, k: int)
    ensures (a + k * UINT) % UINT == a % UINT
  {
  }

  /** An entry is kept rightly exactly when it is recent, or too old by an amount that does not
      fall back under the limit in 32 bits. */
  lemma FreshMeansRecent(e: Entry, ms: nat, now: nat)
    requires e.age <= now
    ensures (Fresh(e, ms, now) <==> Recent(e.age, ms, now))
            <==> Recent(e.age, ms, now) || ms * (now - e.age) % UINT >= LIMIT
    ensures ms * (now - e.age) < UINT ==> (Fresh(e, ms, now) <==> Recent(e.age, ms, now))
  {
    MsecsModulo(ms, now, e.age);
    var d := ms * (now - e.age);
    assert d < UINT ==> d % UINT == d;
  }

  /** In numbers: with a tick of a millisecond, an entry is kept 179999 ticks after it was seen and
      not after 180000. */
  lemma ThreeMinutes(bssid: Bssid, age: nat, d: nat)
    requires d < 0x1_0000_0000
    ensures Fresh(Entry(bssid, age), 1, age + d) <==> d < 180000
  {
    FreshMeansRecent(Entry(bssid, age), 1, age + d);
  }

  // ----- what the operations do to the list -----

  function Find(es: seq<Entry>, bssid: Bssid): (p: nat)
    ensures p <= |es|
    ensures p < |es| ==> es[p].bssid == bssid
    ensures forall i :: 0 <= i < p ==> es[i].bssid != bssid
  {
    if es == [] || es[0].bssid == bssid then 0 else 1 + Find(es[1..], bssid)
  }

  function Removed(es: seq<Entry>, bssid: Bssid): seq<Entry> {
    var p := Find(es, bssid);
    if p < |es| then es[..p] + es[p + 1..] else es
  }

  function Collected(es: seq<Entry>, bssid: Bssid, now: nat): seq<Entry> {
    Removed(es, bssid) + [Entry(bssid, now)]
  }

  function Kept(es: seq<Entry>, ms: nat, now: nat): seq<Entry> {
    if es == [] then []
    else (if Fresh(es[0], ms, now) then [es[0]] else []) + Kept(es[1..], ms, now)
  }

  class List {
    var list: seq<Entry>
    var num: int
    /** `btc_info.ap_num`. */
    var apNum: int

    constructor ()
      ensures list == [] && num == 0 && apNum == 0
    {
      list, num, apNum := [], 0, 0;
    }

    /** `rtl_collect_scan_list`. `beacon` is true of beacons and probe responses; `memory` says
        whether the allocation of a new entry succeeds. */
    method Collect(scanning: bool, beacon: bool, bssid: Bssid, memory: bool, now: nat)
      requires num == |list|
      modifies this`list, this`num
      ensures num == |list|
      ensures list == if scanning && beacon && (memory || Find(old(list), bssid) < |old(list)|)
                      then Collected(old(list), bssid, now) else old(list)
    {
      if !scanning || !beacon {
        return;
      }
      var found := false;
      var i := 0;
      while i < |list|
        invariant 0 <= i <= |list|
        invariant !found && list == old(list) && num == old(num)
        invariant forall k :: 0 <= k < i ==> list[k].bssid != bssid
      {
        if list[i].bssid == bssid {
          assert i == Find(list, bssid);
          list := list[..i] + list[i + 1..];
          found := true;
          break;
        }
        i := i + 1;
      }
      if !found {
        if !memory {
          return;
        }
        num := num + 1;
      }
      list := list + [Entry(bssid, now)];
    }

    /** `rtl_scan_list_expire`. */
    method Expire(hz: nat, now: nat)
      requires 0 < hz && 1000 % hz == 0
      requires num == |list|
      modifies this
      ensures num == |list| && apNum == num
      ensures list == Kept(old(list), Tick(hz), now)
    {
      hide Kept, Fresh;
      var ms := Tick(hz);
      var i := 0;
      ghost var kept, rest := [], list;
      assert [] + Kept(list, ms, now) == Kept(list, ms, now);
      while i < |list|
        invariant i == |kept| && list == kept + rest && num == |list|
        invariant Kept(old(list), ms, now) == kept + Kept(rest, ms, now)
        decreases |list| - i
      {
        Unlink(kept, rest);
        KeptStep(kept, rest, ms, now);
        var entry := list[i];
        if Fresh(entry, ms, now) {
          i := i + 1;
          kept := kept + [entry];
        } else {
          list := list[..i] + list[i + 1..];
          num := num - 1;
        }
        rest := rest[1..];
      }
      KeptNone(ms, now);
      assert rest == [] && kept + [] == kept;
      apNum := num;
    }

    /** `rtl_free_entries_from_scan_list`. */
    method FreeEntries()
      requires num == |list|
      modifies this`list, this`num
      ensures list == [] && num == 0
    {
      while list != []
        invariant num == |list|
        decreases |list|
      {
        list := list[1..];
        num := num - 1;
      }
    }
  }

  lemma KeptStep(kept: seq<Entry>, rest: seq<Entry>, ms: nat, now: nat)
    requires rest != []
    ensures kept + Kept(rest, ms, now)
            == (if Fresh(rest[0], ms, now) then kept + [rest[0]] else kept) + Kept(rest[1..], ms, now)
  {
    hide Fresh;
    var tail := Kept(rest[1..], ms, now);
    assert (kept + [rest[0]]) + tail == kept + ([rest[0]] + tail);
    assert [] + tail == tail;
  }

  lemma KeptNone(ms: nat, now: nat)
    ensures Kept([], ms, now) == []
  {
  }

  // ----- the map the list stands for -----

  ghost predicate Distinct(es: seq<Entry>) {
    forall i, j :: 0 <= i < j < |es| ==> es[i].bssid != es[j].bssid
  }

  ghost predicate ByAge(es: seq<Entry>) {
    forall i, j :: 0 <= i < j < |es| ==> es[i].age <= es[j].age
  }

  /** `m` says when each access point of the list was last seen, and lists no other. */
  ghost predicate Represents(es: seq<Entry>, m: map<Bssid, nat>) {
    && Distinct(es)
    && (forall e <- es :: e.bssid in m && m[e.bssid] == e.age)
    && (forall b <- m :: Entry(b, m[b]) in es)
  }

  /** The entries a removal leaves. */
  lemma RemovedAre(es: seq<Entry>, bssid: Bssid, e: Entry)
    requires Distinct(es)
    ensures e in Removed(es, bssid) <==> e in es && e.bssid != bssid
  {
    var p := Find(es, bssid);
    if p < |es| {
      assert es == es[..p] + [es[p]] + es[p + 1..];
      if e in es[p + 1..] {
        var i :| 0 <= i < |es[p + 1..]| && es[p + 1..][i] == e;
        assert es[p + 1 + i] == e;
      }
    }
  }

  lemma RemovedDistinct(es: seq<Entry>, bssid: Bssid)
    requires Distinct(es)
    ensures Distinct(Removed(es, bssid))
  {
  }

  /** Seeing an access point sets its time. */
  lemma CollectRefines(es: seq<Entry>, m: map<Bssid, nat>, bssid: Bssid, now: nat)
    requires Represents(es, m)
    ensures Represents(Collected(es, bssid, now), m[bssid := now])
  {
    hide Removed, Find;
    var rs, m' := Removed(es, bssid), m[bssid := now];
    RemovedDistinct(es, bssid);
    forall e: Entry ensures e in rs <==> e in es && e.bssid != bssid {
      RemovedAre(es, bssid, e);
    }
    var es' := Collected(es, bssid, now);
    assert forall e <- es' :: e in rs || e == Entry(bssid, now);
    assert forall b <- m' :: Entry(b, m'[b]) in es' by {
      assert Entry(bssid, now) == es'[|rs|];
      assert forall e <- rs :: e in es';
    }
  }

  lemma {:induction false} KeptAre(es: seq<Entry>, ms: nat, now: nat, e: Entry)
    ensures e in Kept(es, ms, now) <==> e in es && Fresh(e, ms, now)
  {
    hide Fresh;
    if es != [] {
      KeptAre(es[1..], ms, now, e);
      assert e in es <==> e == es[0] || e in es[1..];
    }
  }

  lemma {:induction false} KeptDistinct(es: seq<Entry>, ms: nat, now: nat)
    requires Distinct(es)
    ensures Distinct(Kept(es, ms, now))
  {
    hide Fresh;
    if es != [] {
      var rest := Kept(es[1..], ms, now);
      assert Distinct(rest) by {
        KeptDistinct(es[1..], ms, now);
      }
      forall e | e in rest ensures e.bssid != es[0].bssid {
        KeptAre(es[1..], ms, now, e);
      }
    }
  }

  /** The access points seen in the last 180 seconds. */
  ghost function Restricted(m: map<Bssid, nat>, ms: nat, now: nat): map<Bssid, nat>
    requires forall b <- m :: m[b] <= now
  {
    map b | b in m && Recent(m[b], ms, now) :: m[b]
  }

  /** Expiry restricts the map to the last 180 seconds if and only if no entry is so old that its
      age in milliseconds, cut to 32 bits, is under the limit again. */
  lemma ExpireRefines(es: seq<Entry>, m: map<Bssid, nat>, ms: nat, now: nat)
    requires Represents(es, m) && forall e <- es :: e.age <= now
    ensures Represents(Kept(es, ms, now), Restricted(m, ms, now))
            <==> forall e <- es :: Recent(e.age, ms, now) || ms * (now - e.age) % UINT >= LIMIT
  {
    hide Fresh, Recent, Kept;
    KeptDistinct(es, ms, now);
    forall e <- es
      ensures (e in Kept(es, ms, now) <==> Recent(e.age, ms, now))
              <==> Recent(e.age, ms, now) || ms * (now - e.age) % UINT >= LIMIT
    {
      KeptAre(es, ms, now, e);
      FreshMeansRecent(e, ms, now);
    }
    forall e <- Kept(es, ms, now) ensures e in es {
      KeptAre(es, ms, now, e);
    }
  }

  /** Such an entry exists: after 2 to the 32 ticks of a millisecond it is as good as new. */
  lemma ExpiryFails(bssid: Bssid)
    ensures var es, m := [Entry(bssid, 0)], map[bssid := 0];
            && Represents(es, m) && Kept(es, 1, UINT) == es && Restricted(m, 1, UINT) == map[]
            && !Represents(Kept(es, 1, UINT), Restricted(m, 1, UINT))
  {
    var es := [Entry(bssid, 0)];
    MsecsModulo(1, UINT, 0);
    assert Fresh(es[0], 1, UINT);
    AllKept(es, 1, UINT);
  }

  // ----- order -----

  lemma {:induction false} AllKept(es: seq<Entry>, ms: nat, now: nat)
    requires forall e <- es :: Fresh(e, ms, now)
    ensures Kept(es, ms, now) == es
  {
    if es != [] {
      AllKept(es[1..], ms, now);
    }
  }

  lemma LaterIsRecent(ms: nat, now: nat, a: nat, b: nat)
    requires a <= b <= now && Recent(a, ms, now)
    ensures Recent(b, ms, now)
  {
    Distribute(ms, now - b, b - a);
  }

  /** With the list in the order of age and no age beyond 32 bits of milliseconds, expiry removes a
      prefix: the entries not seen in the last 180 seconds. */
  lemma {:induction false} ExpireIsPrefix(es: seq<Entry>, ms: nat, now: nat) returns (p: nat)
    requires ByAge(es)
    requires forall e <- es :: e.age <= now && ms * (now - e.age) < UINT
    ensures p <= |es| && Kept(es, ms, now) == es[p..]
    ensures forall i :: 0 <= i < p ==> !Recent(es[i].age, ms, now)
    ensures forall i :: p <= i < |es| ==> Recent(es[i].age, ms, now)
  {
    hide Fresh, Recent;
    if es == [] {
      p := 0;
    } else {
      FreshMeansRecent(es[0], ms, now);
      if Fresh(es[0], ms, now) {
        p := 0;
        forall i | 0 <= i < |es| ensures Recent(es[i].age, ms, now) && Fresh(es[i], ms, now) {
          LaterIsRecent(ms, now, es[0].age, es[i].age);
          FreshMeansRecent(es[i], ms, now);
        }
        AllKept(es, ms, now);
      } else {
        var q := ExpireIsPrefix(es[1..], ms, now);
        p := q + 1;
        assert Kept(es, ms, now) == Kept(es[1..], ms, now);
        assert es[p..] == es[1..][q..];
      }
    }
  }

  // ----- runs -----

  datatype Event = Seen(bssid: Bssid, now: nat) | Expire(now: nat) | Clear(now: nat)

  function Apply(es: seq<Entry>, e: Event, ms: nat): seq<Entry> {
    match e
    case Seen(bssid, now) => Collected(es, bssid, now)
    case Expire(now) => Kept(es, ms, now)
    case Clear(_) => []
  }

  function ApplyAll(es: seq<Entry>, evs: seq<Event>, ms: nat): seq<Entry>
    decreases |evs|
  {
    if evs == [] then es else ApplyAll(Apply(es, evs[0], ms), evs[1..], ms)
  }

  ghost function ApplyMap(m: map<Bssid, nat>, e: Event, ms: nat): map<Bssid, nat>
    requires forall b <- m :: m[b] <= e.now
  {
    match e
    case Seen(bssid, now) => m[bssid := now]
    case Expire(now) => Restricted(m, ms, now)
    case Clear(_) => map[]
  }

  /** Time does not run backwards, and expiry runs often enough that no age outgrows 32 bits of
      milliseconds. */
  ghost predicate Timely(m: map<Bssid, nat>, evs: seq<Event>, ms: nat, now: nat)
    decreases |evs|
  {
    evs == []
    || (&& now <= evs[0].now
        && (forall b <- m :: m[b] <= now)
        && (evs[0].Expire? ==> forall b <- m :: ms * (evs[0].now - m[b]) < UINT)
        && Timely(ApplyMap(m, evs[0], ms), evs[1..], ms, evs[0].now))
  }

  ghost function ApplyMapAll(m: map<Bssid, nat>, evs: seq<Event>, ms: nat, now: nat): map<Bssid, nat>
    requires Timely(m, evs, ms, now)
    decreases |evs|
  {
    if evs == [] then m else ApplyMapAll(ApplyMap(m, evs[0], ms), evs[1..], ms, evs[0].now)
  }

  lemma RemovedInOrder(es: seq<Entry>, bssid: Bssid)
    requires ByAge(es)
    ensures ByAge(Removed(es, bssid))
  {
  }

  lemma ApplyRefines(es: seq<Entry>, m: map<Bssid, nat>, e: Event, ms: nat)
    requires Represents(es, m) && ByAge(es)
    requires forall b <- m :: m[b] <= e.now
    requires e.Expire? ==> forall b <- m :: ms * (e.now - m[b]) < UINT
    ensures Represents(Apply(es, e, ms), ApplyMap(m, e, ms))
    ensures ByAge(Apply(es, e, ms))
  {
    hide Kept, Restricted, Collected;
    match e
    case Seen(bssid, now) =>
      CollectRefines(es, m, bssid, now);
      CollectInOrder(es, bssid, now);
    case Expire(now) =>
      ExpireInOrder(es, m, ms, now);
    case Clear(_) =>
  }

  lemma CollectInOrder(es: seq<Entry>, bssid: Bssid, now: nat)
    requires Distinct(es) && ByAge(es) && forall f <- es :: f.age <= now
    ensures ByAge(Collected(es, bssid, now))
  {
    hide Removed;
    RemovedInOrder(es, bssid);
    forall f <- Removed(es, bssid) ensures f.age <= now {
      RemovedAre(es, bssid, f);
    }
  }

  lemma ExpireInOrder(es: seq<Entry>, m: map<Bssid, nat>, ms: nat, now: nat)
    requires Represents(es, m) && ByAge(es)
    requires forall b <- m :: m[b] <= now && ms * (now - m[b]) < UINT
    ensures Represents(Kept(es, ms, now), Restricted(m, ms, now))
    ensures ByAge(Kept(es, ms, now))
  {
    hide Kept, Restricted, Recent;
    forall f <- es
      ensures f.age <= now && ms * (now - f.age) < UINT
      ensures Recent(f.age, ms, now) || ms * (now - f.age) % UINT >= LIMIT
    {
      RecentOrLarge(f, ms, now);
    }
    ExpireRefines(es, m, ms, now);
    var p := ExpireIsPrefix(es, ms, now);
    assert ByAge(es[p..]);
  }

  lemma RecentOrLarge(e: Entry, ms: nat, now: nat)
    requires e.age <= now && ms * (now - e.age) < UINT
    ensures Recent(e.age, ms, now) || ms * (now - e.age) % UINT >= LIMIT
  {
    var d := ms * (now - e.age);
    assert d % UINT == d;
  }

  /** Over every timely run, the list stays without duplicates, in the order of age, and equal to the
      map of last sightings. */
  lemma {:induction false} EveryRunRefines(es: seq<Entry>, m: map<Bssid, nat>, evs: seq<Event>, ms: nat, now: nat)
    requires Represents(es, m) && ByAge(es) && Timely(m, evs, ms, now)
    ensures Represents(ApplyAll(es, evs, ms), ApplyMapAll(m, evs, ms, now))
    ensures ByAge(ApplyAll(es, evs, ms))
    decreases |evs|
  {
    hide Represents, ByAge, Apply, ApplyMap;
    if evs != [] {
      ApplyRefines(es, m, evs[0], ms);
      EveryRunRefines(Apply(es, evs[0], ms), ApplyMap(m, evs[0], ms), evs[1..], ms, evs[0].now);
    }
  }
}
