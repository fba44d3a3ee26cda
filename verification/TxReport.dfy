/** Transmission reports, from `Wireless/base.c`: frames that want a status wait in a queue and
    carry a sequence number of six bits; a report from the firmware names the number, and frames
    without a report are given up after a second. The main results are conservation of frames over
    every run and exactly when a report completes the frame it is about. */
module TxReport {
  import opened Basics

  /** `counter` is the value of `tx_report->sn` the sequence number was made from; the device sees
      only `Sn(counter)`. */
  datatype Frame = Frame(id: nat, counter: nat, sendTime: nat)

  /** The status given back for a frame. */
  datatype Status = Status(frame: Frame, ack: bool)

  /** Bits 7 to 2. The 32-bit counter wraps at a multiple of 64, so it can be left unbounded. */
  function Sn(counter: nat): (sn: nat)
    ensures sn < 256 && sn % 4 == 0
  {
    counter % 64 * 4
  }

  const WORD := 0x1_0000_0000_0000_0000

  /** `time_after(a, b)` on 64-bit jiffies. */
  predicate TimeAfter(a: nat, b: nat) {
    (b - a) % WORD >= WORD / 2
  }

  predicate StillYoung(f: Frame, hz: nat, now: nat) {
    TimeAfter(f.sendTime + hz, now)
  }

  /** Unless half the range of the clock has gone by, the frames kept are those sent less than a
      second ago. */
  lemma YoungMeansUnderASecond(f: Frame, hz: nat, now: nat)
    requires f.sendTime <= now && now - f.sendTime < WORD / 2 && hz < WORD / 2
    ensures StillYoung(f, hz, now) <==> now - f.sendTime < hz
  {
    var d := now - f.sendTime - hz;
    if d < 0 {
      assert d % WORD == d + WORD;
    } else {
      assert d % WORD == d;
    }
  }

  // ----- what the operations do to the queue -----

  /** The position of the first frame with a sequence number, or the length of the queue. */
  function Find(q: seq<Frame>, sn: nat): (p: nat)
    ensures p <= |q|
    ensures p < |q| ==> Sn(q[p].counter) == sn
    ensures forall i :: 0 <= i < p ==> Sn(q[i].counter) != sn
  {
    if q == [] || Sn(q[0].counter) == sn then 0 else 1 + Find(q[1..], sn)
  }

  function Without(q: seq<Frame>, p: nat): seq<Frame>
    requires p < |q|
  {
    q[..p] + q[p + 1..]
  }

  predicate Kept(f: Frame, chkTimeout: bool, hz: nat, now: nat) {
    chkTimeout && StillYoung(f, hz, now)
  }

  function Young(q: seq<Frame>, chkTimeout: bool, hz: nat, now: nat): (r: seq<Frame>) {
    if q == [] then []
    else (if Kept(q[0], chkTimeout, hz, now) then [q[0]] else []) + Young(q[1..], chkTimeout, hz, now)
  }

  function GivenUp(q: seq<Frame>, chkTimeout: bool, hz: nat, now: nat): (r: seq<Status>) {
    if q == [] then []
    else (if Kept(q[0], chkTimeout, hz, now) then [] else [Status(q[0], false)]) + GivenUp(q[1..], chkTimeout, hz, now)
  }

  class Queue {
    var sn: nat
    var lastSentSn: nat
    var lastSentTime: nat
    var lastRecvSn: nat
    /** Frames that have a number and are not queued yet. */
    ghost var numbered: seq<Frame>
    var queue: seq<Frame>
    /** Every status handed to `ieee80211_tx_status_irqsafe`, in order. */
    var reported: seq<Status>

    constructor ()
      ensures Value() == IDLE
    {
      sn, lastSentSn, lastSentTime, lastRecvSn := 0, 0, 0, 0;
      numbered, queue, reported := [], [], [];
    }

    ghost function Value(): State
      reads this
    {
      State(sn, numbered, queue, reported)
    }

    /** `rtl_get_tx_report_sn`: the frame gets the next number. */
    method GetTxReportSn(id: nat, now: nat) returns (skb: Frame)
      modifies this`sn, this`lastSentSn, this`lastSentTime, this`numbered
      ensures skb == Frame(id, sn, now) && lastSentSn == Sn(sn) && lastSentTime == now
      ensures sn == old(sn) + 1 && lastSentSn / 4 == sn % 64 && lastSentSn % 4 == 0
      ensures Value() == Apply(old(Value()), Number(id, now))
    {
      sn := sn + 1;
      lastSentSn := Sn(sn);
      lastSentTime := now;
      skb := Frame(id, sn, now);
      numbered := numbered + [skb];
    }

    /** `rtl_tx_ackqueue`, in whatever order the frames come. */
    method AckQueue(skb: Frame, ghost k: nat)
      requires k < |numbered| && numbered[k] == skb
      modifies this`numbered, this`queue
      ensures Value() == Apply(old(Value()), Enqueue(k))
    {
      queue := queue + [skb];
      numbered := Without(numbered, k);
    }

    /** `rtl_tx_report_handler`: the first frame with the number is unlinked and its status given. */
    method Handle(number: nat, st: nat)
      modifies this
      ensures lastRecvSn == number
      ensures Value() == Apply(old(Value()), Report(number, st))
    {
      lastRecvSn := number;
      var i := 0;
      while i < |queue|
        invariant 0 <= i <= |queue|
        invariant Value() == old(Value())
        invariant forall k :: 0 <= k < i ==> Sn(queue[k].counter) != number
      {
        if Sn(queue[i].counter) == number {
          var skb := queue[i];
          assert i == Find(queue, number);
          queue := queue[..i] + queue[i + 1..];
          reported := reported + [Status(skb, st == 0)];
          return;
        }
        i := i + 1;
      }
    }

    /** `rtl_free_entries_from_ack_queue`: walks the queue, unlinking in place. */
    method FreeEntries(chkTimeout: bool, hz: nat, now: nat)
      modifies this`queue, this`reported
      ensures Value() == Apply(old(Value()), Free(chkTimeout, hz, now))
    {
      hide Young, GivenUp, StillYoung;
      var i := 0;
      ghost var kept, rest := [], queue;
      ghost var all, before := queue, reported;
      assert [] + Young(all, chkTimeout, hz, now) == Young(all, chkTimeout, hz, now);
      while i < |queue|
        invariant i == |kept| && queue == kept + rest
        invariant Young(all, chkTimeout, hz, now) == kept + Young(rest, chkTimeout, hz, now)
        invariant before + GivenUp(all, chkTimeout, hz, now) == reported + GivenUp(rest, chkTimeout, hz, now)
        decreases |queue| - i
      {
        Unlink(kept, rest);
        YoungStep(kept, rest, chkTimeout, hz, now);
        GivenUpStep(reported, rest, chkTimeout, hz, now);
        var skb := queue[i];
        if chkTimeout && StillYoung(skb, hz, now) {
          i := i + 1;
          kept := kept + [skb];
        } else {
          queue := queue[..i] + queue[i + 1..];
          reported := reported + [Status(skb, false)];
        }
        rest := rest[1..];
      }
      NothingLeft(chkTimeout, hz, now);
      assert rest == [] && kept + [] == kept && reported + [] == reported;
    }
  }

  lemma NothingLeft(chk: bool, hz: nat, now: nat)
    ensures Young([], chk, hz, now) == [] && GivenUp([], chk, hz, now) == []
  {
  }

  lemma YoungStep(kept: seq<Frame>, rest: seq<Frame>, chk: bool, hz: nat, now: nat)
    requires rest != []
    ensures kept + Young(rest, chk, hz, now)
            == (if Kept(rest[0], chk, hz, now) then kept + [rest[0]] else kept) + Young(rest[1..], chk, hz, now)
  {
    hide Kept;
    var tail := Young(rest[1..], chk, hz, now);
    assert (kept + [rest[0]]) + tail == kept + ([rest[0]] + tail);
    assert [] + tail == tail;
  }

  lemma GivenUpStep(reported: seq<Status>, rest: seq<Frame>, chk: bool, hz: nat, now: nat)
    requires rest != []
    ensures reported + GivenUp(rest, chk, hz, now)
            == (if Kept(rest[0], chk, hz, now) then reported else reported + [Status(rest[0], false)])
               + GivenUp(rest[1..], chk, hz, now)
  {
    hide Kept;
    var tail := GivenUp(rest[1..], chk, hz, now);
    var up := [Status(rest[0], false)];
    assert (reported + up) + tail == reported + (up + tail);
    assert [] + tail == tail;
  }

  // ----- runs -----

  datatype State = State(sn: nat, numbered: seq<Frame>, queue: seq<Frame>, reported: seq<Status>)

  const IDLE := State(0, [], [], [])

  datatype Event = Number(id: nat, now: nat) | Enqueue(k: nat) | Report(sn: nat, st: nat) | Free(chkTimeout: bool, hz: nat, now: nat)

  function Apply(s: State, e: Event): (s': State) {
    match e
    case Number(id, now) => s.(sn := s.sn + 1, numbered := s.numbered + [Frame(id, s.sn + 1, now)])
    case Enqueue(k) =>
      if k >= |s.numbered| then s
      else s.(numbered := Without(s.numbered, k), queue := s.queue + [s.numbered[k]])
    case Report(sn, st) =>
      var p := Find(s.queue, sn);
      if p == |s.queue| then s
      else s.(queue := Without(s.queue, p), reported := s.reported + [Status(s.queue[p], st == 0)])
    case Free(chk, hz, now) =>
      s.(queue := Young(s.queue, chk, hz, now), reported := s.reported + GivenUp(s.queue, chk, hz, now))
  }

  function Frames(rs: seq<Status>): (fs: seq<Frame>)
    ensures |fs| == |rs|
    ensures forall i :: 0 <= i < |rs| ==> fs[i] == rs[i].frame
  {
    seq(|rs|, i requires 0 <= i < |rs| => rs[i].frame)
  }

  /** The frames that get a number over a run. */
  function Sent(s: State, es: seq<Event>): (fs: seq<Frame>)
    decreases |es|
  {
    if es == [] then []
    else (if es[0].Number? then [Frame(es[0].id, s.sn + 1, es[0].now)] else []) + Sent(Apply(s, es[0]), es[1..])
  }

  function ApplyAll(s: State, es: seq<Event>): (s': State)
    decreases |es|
  {
    if es == [] then s else ApplyAll(Apply(s, es[0]), es[1..])
  }

  /** The frames on their way to the queue, in it, and reported. */
  ghost function Accounted(s: State): multiset<Frame> {
    multiset(s.numbered) + multiset(s.queue) + multiset(Frames(s.reported))
  }

  lemma ReportedConcat(rs: seq<Status>, ts: seq<Status>)
    ensures multiset(Frames(rs + ts)) == multiset(Frames(rs)) + multiset(Frames(ts))
  {
    assert Frames(rs + ts) == Frames(rs) + Frames(ts);
  }

  lemma ReportedOne(r: Status)
    ensures multiset(Frames([r])) == multiset{r.frame}
  {
    assert Frames([r]) == [r.frame];
  }

  lemma WithoutMultiset(q: seq<Frame>, p: nat)
    requires p < |q|
    ensures multiset(Without(q, p)) + multiset{q[p]} == multiset(q)
  {
    assert q == q[..p] + [q[p]] + q[p + 1..];
  }

  lemma {:induction false} FreeConserves(q: seq<Frame>, chk: bool, hz: nat, now: nat)
    ensures multiset(Young(q, chk, hz, now)) + multiset(Frames(GivenUp(q, chk, hz, now))) == multiset(q)
  {
    if q == [] {
    } else {
      FreeConserves(q[1..], chk, hz, now);
      FreeOne(q, chk, hz, now);
    }
  }

  /** The first frame of the walk goes to one side or the other. */
  lemma FreeOne(q: seq<Frame>, chk: bool, hz: nat, now: nat)
    requires q != []
    ensures multiset(q) == multiset{q[0]} + multiset(q[1..])
    ensures Kept(q[0], chk, hz, now) ==>
              && multiset(Young(q, chk, hz, now)) == multiset{q[0]} + multiset(Young(q[1..], chk, hz, now))
              && GivenUp(q, chk, hz, now) == GivenUp(q[1..], chk, hz, now)
    ensures !Kept(q[0], chk, hz, now) ==>
              && Young(q, chk, hz, now) == Young(q[1..], chk, hz, now)
              && multiset(Frames(GivenUp(q, chk, hz, now)))
                 == multiset{q[0]} + multiset(Frames(GivenUp(q[1..], chk, hz, now)))
  {
    hide Kept, Frames;
    assert q == [q[0]] + q[1..];
    assert [] + Young(q[1..], chk, hz, now) == Young(q[1..], chk, hz, now);
    assert [] + GivenUp(q[1..], chk, hz, now) == GivenUp(q[1..], chk, hz, now);
    ReportedConcat([Status(q[0], false)], GivenUp(q[1..], chk, hz, now));
    ReportedOne(Status(q[0], false));
  }

  /** Without the timeout check nothing is kept. */
  lemma {:induction false} DrainEmpties(q: seq<Frame>, hz: nat, now: nat)
    ensures Young(q, false, hz, now) == []
  {
    if q != [] {
      DrainEmpties(q[1..], hz, now);
    }
  }

  lemma EnqueueConserves(s: State, k: nat)
    requires k < |s.numbered|
    ensures Accounted(Apply(s, Enqueue(k))) == Accounted(s)
  {
    hide Frames, Without;
    WithoutMultiset(s.numbered, k);
    assert multiset(s.queue + [s.numbered[k]]) == multiset(s.queue) + multiset{s.numbered[k]};
  }

  lemma ReportConserves(s: State, sn: nat, st: nat)
    ensures Accounted(Apply(s, Report(sn, st))) == Accounted(s)
  {
    hide Frames, Without, Find;
    var p := Find(s.queue, sn);
    if p < |s.queue| {
      WithoutMultiset(s.queue, p);
      ReportedConcat(s.reported, [Status(s.queue[p], st == 0)]);
      ReportedOne(Status(s.queue[p], st == 0));
    }
  }

  lemma ApplyConserves(s: State, e: Event)
    ensures Accounted(Apply(s, e)) == Accounted(s) + (if e.Number? then multiset{Frame(e.id, s.sn + 1, e.now)} else multiset{})
  {
    hide Young, GivenUp, Frames;
    match e
    case Number(id, now) =>
    case Enqueue(k) =>
      if k < |s.numbered| { EnqueueConserves(s, k); }
    case Report(sn, st) => ReportConserves(s, sn, st);
    case Free(chk, hz, now) =>
      FreeConserves(s.queue, chk, hz, now);
      ReportedConcat(s.reported, GivenUp(s.queue, chk, hz, now));
  }

  /** Conservation: over every run, the frames on their way to the queue, those in it and those whose
      status has been given are together exactly the frames that got a number. */
  lemma {:induction false} EveryRunConserves(s: State, es: seq<Event>)
    ensures Accounted(ApplyAll(s, es)) == Accounted(s) + multiset(Sent(s, es))
    decreases |es|
  {
    if es != [] {
      ApplyConserves(s, es[0]);
      EveryRunConserves(Apply(s, es[0]), es[1..]);
    }
  }

  lemma {:induction false} SentAreNew(s: State, es: seq<Event>, f: Frame)
    requires f in Sent(s, es)
    ensures f.counter > s.sn
    ensures multiset(Sent(s, es))[f] == 1
    decreases |es|
  {
    var s' := Apply(s, es[0]);
    var rest := Sent(s', es[1..]);
    if es[0].Number? {
      var first := Frame(es[0].id, s.sn + 1, es[0].now);
      assert multiset(Sent(s, es)) == multiset{first} + multiset(rest);
      if f in rest {
        SentAreNew(s', es[1..], f);
      } else {
        assert f == first;
      }
    } else {
      assert Sent(s, es) == rest;
      SentAreNew(s', es[1..], f);
    }
  }

  /** From an idle device, every numbered frame is on its way, queued or reported, exactly once in
      all; after a drain without the timeout check it has been reported exactly once, unless it is
      still on its way. */
  lemma ExactlyOnce(es: seq<Event>, f: Frame, hz: nat, now: nat)
    requires f in Sent(IDLE, es)
    ensures Accounted(ApplyAll(IDLE, es))[f] == 1
    ensures var s := Apply(ApplyAll(IDLE, es), Free(false, hz, now));
            s.queue == [] && multiset(Frames(s.reported))[f] == if f in s.numbered then 0 else 1
  {
    hide Young, GivenUp, Frames;
    var s := ApplyAll(IDLE, es);
    EveryRunConserves(IDLE, es);
    SentAreNew(IDLE, es, f);
    NoFrames();
    assert Accounted(s)[f] == 1;
    ApplyConserves(s, Free(false, hz, now));
    DrainEmpties(s.queue, hz, now);
    var s' := Apply(s, Free(false, hz, now));
    assert Accounted(s')[f] == multiset(s'.numbered)[f] + multiset(Frames(s'.reported))[f];
    assert f in s'.numbered <==> multiset(s'.numbered)[f] > 0;
  }

  lemma NoFrames()
    ensures Frames([]) == []
  {
  }

  // ----- which frame a report completes -----

  lemma {:induction false} SentNumbersDiffer(s: State, es: seq<Event>, f: Frame, g: Frame)
    requires f in Sent(s, es) && g in Sent(s, es) && f.counter == g.counter
    ensures f == g
    decreases |es|
  {
    hide Apply;
    var s', rest := Apply(s, es[0]), Sent(Apply(s, es[0]), es[1..]);
    SnGrows(s, es[0]);
    if f in rest { SentAreNew(s', es[1..], f); }
    if g in rest { SentAreNew(s', es[1..], g); }
    if f in rest && g in rest { SentNumbersDiffer(s', es[1..], f, g); }
  }

  lemma SnGrows(s: State, e: Event)
    ensures Apply(s, e).sn == if e.Number? then s.sn + 1 else s.sn
  {
  }

  lemma Twice(q: seq<Frame>, i: nat, j: nat)
    requires i < j < |q| && q[i] == q[j]
    ensures multiset(q)[q[i]] >= 2
  {
    assert q == q[..j] + q[j..];
    assert q[i] in q[..j] && q[j] in q[j..];
  }

  lemma QueuedWereSent(es: seq<Event>, f: Frame)
    requires f in ApplyAll(IDLE, es).queue
    ensures f in Sent(IDLE, es)
    ensures multiset(ApplyAll(IDLE, es).queue)[f] <= multiset(Sent(IDLE, es))[f]
  {
    hide ApplyAll, Sent, Frames;
    EveryRunConserves(IDLE, es);
    NoFrames();
    var s := ApplyAll(IDLE, es);
    assert Accounted(IDLE) == multiset{};
    assert Accounted(s) == multiset(Sent(IDLE, es));
    assert multiset(s.queue)[f] <= Accounted(s)[f];
    assert f in multiset(s.queue);
  }

  /** In every run, frames wait with different counters, in whatever order they joined. */
  lemma EveryRunDistinct(es: seq<Event>, i: nat, j: nat)
    requires var q := ApplyAll(IDLE, es).queue; i < j < |q|
    ensures var q := ApplyAll(IDLE, es).queue; q[i].counter != q[j].counter
  {
    var s := ApplyAll(IDLE, es);
    var f, g := s.queue[i], s.queue[j];
    QueuedWereSent(es, f);
    QueuedWereSent(es, g);
    if f.counter == g.counter {
      SentNumbersDiffer(IDLE, es, f, g);
      SentAreNew(IDLE, es, f);
      Twice(s.queue, i, j);
      assert false;
    }
  }

  /** The frames the walk keeps. */
  lemma {:induction false} YoungAre(q: seq<Frame>, chk: bool, hz: nat, now: nat, f: Frame)
    ensures f in Young(q, chk, hz, now) <==> f in q && Kept(f, chk, hz, now)
  {
    hide Kept;
    if q != [] {
      YoungAre(q[1..], chk, hz, now, f);
      assert f in q <==> f == q[0] || f in q[1..];
    }
  }

  /** After every run, a report about the frame at position `p` of the queue completes that frame
      exactly when no frame before it has the same number modulo 64. */
  lemma ReportCompletes(es: seq<Event>, p: nat, st: nat)
    requires p < |ApplyAll(IDLE, es).queue|
    ensures var s := ApplyAll(IDLE, es);
            var f := s.queue[p];
            Apply(s, Report(Sn(f.counter), st)).reported == s.reported + [Status(f, st == 0)] <==>
            forall i :: 0 <= i < p ==> s.queue[i].counter % 64 != f.counter % 64
  {
    var s := ApplyAll(IDLE, es);
    var f := s.queue[p];
    var r := Find(s.queue, Sn(f.counter));
    assert r <= p;
    var reported := s.reported + [Status(s.queue[r], st == 0)];
    assert reported[|s.reported|] == Status(s.queue[r], st == 0);
    if r < p {
      EveryRunDistinct(es, r, p);
      assert s.queue[r].counter % 64 == f.counter % 64;
    }
  }

  /** So while the counters of the waiting frames span fewer than 64, in whatever order they joined
      and however many frames have been sent since, each report completes the frame it is about and
      no other. */
  lemma ReportsAreExact(es: seq<Event>, p: nat, st: nat)
    requires var s := ApplyAll(IDLE, es);
             p < |s.queue| && forall g <- s.queue, h <- s.queue :: g.counter - h.counter < 64
    ensures var s := ApplyAll(IDLE, es);
            Apply(s, Report(Sn(s.queue[p].counter), st))
            == s.(queue := Without(s.queue, p), reported := s.reported + [Status(s.queue[p], st == 0)])
  {
    var s := ApplyAll(IDLE, es);
    var r := Find(s.queue, Sn(s.queue[p].counter));
    assert r <= p;
    if r < p {
      EveryRunDistinct(es, r, p);
      var c, d := s.queue[r].counter, s.queue[p].counter;
      assert s.queue[r] in s.queue && s.queue[p] in s.queue;
      DifferentNumbers(Min(c, d), Max(c, d));
      assert false;
    }
  }

  lemma DifferentNumbers(a: nat, b: nat)
    requires a < b < a + 64
    ensures a % 64 != b % 64
  {
    var i, j := a / 64, b / 64;
    assert a == 64 * i + a % 64 && b == 64 * j + b % 64;
    assert b - a == 64 * (j - i) + (b % 64 - a % 64);
  }

  /** A report about a frame whose status has been given already does nothing, if that frame and
      those waiting are among 64 sent in a row. */
  lemma LateReportsAreIgnored(es: seq<Event>, c: nat, st: nat)
    requires var s := ApplyAll(IDLE, es);
             forall g <- s.queue :: g.counter != c && -64 < g.counter - c < 64
    ensures var s := ApplyAll(IDLE, es); Apply(s, Report(Sn(c), st)) == s
  {
    var s := ApplyAll(IDLE, es);
    var p := Find(s.queue, Sn(c));
    if p < |s.queue| {
      var d := s.queue[p].counter;
      assert s.queue[p] in s.queue;
      DifferentNumbers(Min(c, d), Max(c, d));
    }
  }

  /** `n` frames, each numbered and queued before the next. */
  function Sends(n: nat): (es: seq<Event>) {
    if n == 0 then [] else Sends(n - 1) + [Number(0, 0)] + [Enqueue(0)]
  }

  lemma {:induction false} ApplyLast(s: State, es: seq<Event>, e: Event)
    ensures ApplyAll(s, es + [e]) == Apply(ApplyAll(s, es), e)
    decreases |es|
  {
    if es == [] {
      assert [e][1..] == [] && ([] + [e]) == [e];
    } else {
      assert (es + [e])[1..] == es[1..] + [e];
      ApplyLast(Apply(s, es[0]), es[1..], e);
    }
  }

  lemma {:induction false} SendsQueue(n: nat)
    ensures var s := ApplyAll(IDLE, Sends(n));
            && s.sn == n && s.numbered == [] && |s.queue| == n && s.reported == []
            && forall i :: 0 <= i < n ==> s.queue[i] == Frame(0, i + 1, 0)
  {
    if n > 0 {
      SendsQueue(n - 1);
      ApplyLast(IDLE, Sends(n - 1), Number(0, 0));
      ApplyLast(IDLE, Sends(n - 1) + [Number(0, 0)], Enqueue(0));
    }
  }

  /** Without the bound a report can go to another frame: after 65 frames are sent, the report about
      the last completes the first. */
  lemma ReportsCanBeStolen(st: nat)
    ensures var s := ApplyAll(IDLE, Sends(65));
            && Frame(0, 65, 0) in s.queue
            && Apply(s, Report(Sn(65), st)).reported == [Status(Frame(0, 1, 0), st == 0)]
  {
    SendsQueue(65);
    var s := ApplyAll(IDLE, Sends(65));
    assert s.queue[0] == Frame(0, 1, 0) && s.queue[64] == Frame(0, 65, 0);
    assert Sn(s.queue[0].counter) == Sn(65);
    assert Find(s.queue, Sn(65)) == 0;
  }

  /** The frames given up are those the walk does not keep, each reported as not acknowledged. */
  lemma {:induction false} GivenUpAre(q: seq<Frame>, chk: bool, hz: nat, now: nat, r: Status)
    ensures r in GivenUp(q, chk, hz, now) <==> r.frame in q && !Kept(r.frame, chk, hz, now) && !r.ack
  {
    hide Kept;
    if q != [] {
      GivenUpAre(q[1..], chk, hz, now, r);
      assert r.frame in q <==> r.frame == q[0] || r.frame in q[1..];
    }
  }

  /** Both in the order of the queue. */
  lemma {:induction false} FreeInOrder(q: seq<Frame>, r: seq<Frame>, chk: bool, hz: nat, now: nat)
    ensures Young(q + r, chk, hz, now) == Young(q, chk, hz, now) + Young(r, chk, hz, now)
    ensures GivenUp(q + r, chk, hz, now) == GivenUp(q, chk, hz, now) + GivenUp(r, chk, hz, now)
    decreases |q|
  {
    hide Kept;
    if q == [] {
      assert q + r == r;
    } else {
      assert (q + r)[1..] == q[1..] + r && (q + r)[0] == q[0];
      FreeInOrder(q[1..], r, chk, hz, now);
      Assoc(if Kept(q[0], chk, hz, now) then [q[0]] else [], Young(q[1..], chk, hz, now), Young(r, chk, hz, now));
      Assoc(if Kept(q[0], chk, hz, now) then [] else [Status(q[0], false)], GivenUp(q[1..], chk, hz, now), GivenUp(r, chk, hz, now));
    }
  }

  /** The timeout pass gives up exactly the frames sent a second ago or earlier. */
  lemma TimeoutIsASecond(q: seq<Frame>, hz: nat, now: nat, f: Frame)
    requires f in q && f.sendTime <= now && now - f.sendTime < WORD / 2 && hz < WORD / 2
    ensures f in Young(q, true, hz, now) <==> now - f.sendTime < hz
  {
    YoungAre(q, true, hz, now, f);
    YoungMeansUnderASecond(f, hz, now);
  }
}
