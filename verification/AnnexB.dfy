/** H.264 byte streams (Annex B of ITU-T H.264) as the muxer of `SVC-player/merge.cxx` reads
    and writes them: NAL units delimited by the four-byte start code.

    The main results are that splitting and joining are inverse to each other, for every byte
    stream and every list of start-code-free units, and that the counting loop and the splitting
    loop of the source agree on what the units are. */
module AnnexB {
  import opened Basics

  type Nalu = seq<byte>

  const SEP: Bytes := [0, 0, 0, 1]

  predicate SepAt(s: Bytes, p: nat) {
    && p + 4 <= |s|
    && s[p] == 0 && s[p + 1] == 0 && s[p + 2] == 0 && s[p + 3] == 1
  }

  /** `std::search(begin + from, end, sep, sep + 4)`, as an index; `|s|` stands for `end`. */
  function FindSep(s: Bytes, from: nat): (r: nat)
    requires from <= |s|
    ensures from <= r <= |s|
    ensures r < |s| ==> SepAt(s, r)
    ensures forall q :: from <= q < r ==> !SepAt(s, q)
    decreases |s| - from
  {
    if from == |s| then |s|
    else if SepAt(s, from) then from
    else FindSep(s, from + 1)
  }

  /** The units of `s` from the start code at `last` on. */
  function UnitsFrom(s: Bytes, last: nat): (ns: seq<Nalu>)
    requires last <= |s|
    requires last < |s| ==> SepAt(s, last)
    decreases |s| - last
  {
    if last == |s| then []
    else
      var next := FindSep(s, last + 4);
      [s[last + 4..next]] + UnitsFrom(s, next)
  }

  function Split(s: Bytes): (ns: seq<Nalu>) {
    UnitsFrom(s, FindSep(s, 0))
  }

  /** What the muxer's two `write` calls produce for a list of units. */
  function Join(ns: seq<Nalu>): (s: Bytes) {
    if ns == [] then [] else SEP + ns[0] + Join(ns[1..])
  }

  /** The bytes written for each unit, and in front of the others. */
  lemma JoinCons(n: Nalu, ns: seq<Nalu>)
    ensures Join([n] + ns) == [0, 0, 0, 1] + n + Join(ns)
  {
    assert ([n] + ns)[1..] == ns;
  }

  ghost predicate SepFree(n: Nalu) {
    forall p: nat :: !SepAt(n, p)
  }

  ghost predicate AllSepFree(ns: seq<Nalu>) {
    forall i :: 0 <= i < |ns| ==> SepFree(ns[i])
  }

  /** nal_unit_type, section 7.3.1 of ITU-T H.264. An empty unit in the middle of a stream is
      followed by a start code, so the header byte the counting loop reads for it is 0. */
  function TypeOf(n: Nalu): (t: int)
    ensures 0 <= t < 32
  {
    if n == [] then 0 else n[0] % 32
  }

  /** nal_ref_idc together with forbidden_zero_bit, as `n[0] >> 5` computes it. */
  function RefIdc(n: Nalu): (r: int)
    requires n != []
    ensures 0 <= r < 8
  {
    n[0] / 32
  }

  function Count(ns: seq<Nalu>, t: int): (c: nat) {
    if ns == [] then 0
    else Count(ns[..|ns| - 1], t) + (if TypeOf(ns[|ns| - 1]) == t then 1 else 0)
  }

  // ----- splitting and joining -----

  /** Joining the units of a stream gives the stream back, from its first start code on. */
  lemma {:induction false} JoinUndoesSplit(s: Bytes)
    ensures Join(Split(s)) == s[FindSep(s, 0)..]
    ensures AllSepFree(Split(s))
  {
    JoinUndoesUnits(s, FindSep(s, 0));
  }

  lemma {:induction false} JoinUndoesUnits(s: Bytes, last: nat)
    requires last <= |s|
    requires last < |s| ==> SepAt(s, last)
    ensures Join(UnitsFrom(s, last)) == s[last..]
    ensures AllSepFree(UnitsFrom(s, last))
    decreases |s| - last
  {
    if last < |s| {
      var next := FindSep(s, last + 4);
      var n := s[last + 4..next];
      JoinUndoesUnits(s, next);
      assert s[last..] == SEP + n + s[next..];
      forall p: nat ensures !SepAt(n, p) {
        assert SepAt(n, p) ==> SepAt(s, last + 4 + p);
      }
    }
  }

  /** A start code cannot straddle the end of `a` when `a` is followed by nothing or by a start
      code: its final byte would be one of the zeros. Trailing zeros of `a` are harmless. */
  lemma NoStraddle(a: Bytes, b: Bytes, p: nat)
    requires b == [] || SEP <= b
    requires p < |a|
    ensures SepAt(a + b, p) <==> SepAt(a, p)
  {
  }

  lemma SepAfter(a: Bytes, b: Bytes)
    requires SEP <= b
    ensures SepAt(a + b, |a|)
  {
    assert forall k :: 0 <= k < 4 ==> (a + b)[|a| + k] == b[k] == SEP[k];
  }

  lemma {:induction false} FindSepIgnoresTail(a: Bytes, b: Bytes, from: nat)
    requires b == [] || SEP <= b
    requires from <= |a|
    ensures FindSep(a + b, from) == FindSep(a, from)
    decreases |a| - from
  {
    if from < |a| {
      NoStraddle(a, b, from);
      if !SepAt(a, from) { FindSepIgnoresTail(a, b, from + 1); }
    } else if b != [] {
      SepAfter(a, b);
    }
  }

  lemma SliceIgnoresTail(a: Bytes, b: Bytes, lo: nat, hi: nat)
    requires lo <= hi <= |a|
    ensures (a + b)[lo..hi] == a[lo..hi]
  {
  }

  lemma {:induction false} UnitsIgnoreTail(a: Bytes, b: Bytes, s: Bytes, last: nat)
    requires b == [] || SEP <= b
    requires s == a + b
    requires last <= |a|
    requires last < |a| ==> SepAt(a, last) && SepAt(s, last)
    requires |a| < |s| ==> SepAt(s, |a|)
    ensures UnitsFrom(s, last) == UnitsFrom(a, last) + UnitsFrom(s, |a|)
    decreases |a| - last
  {
    if last < |a| {
      var next := FindSep(a, last + 4);
      FindSepIgnoresTail(a, b, last + 4);
      if next < |a| { NoStraddle(a, b, next); }
      var n, xs, ys := a[last + 4..next], UnitsFrom(a, next), UnitsFrom(s, |a|);
      assert UnitsFrom(s, next) == xs + ys by { UnitsIgnoreTail(a, b, s, next); }
      assert UnitsFrom(a, last) == [n] + xs;
      assert UnitsFrom(s, last) == [n] + (xs + ys) by { SliceIgnoresTail(a, b, last + 4, next); }
      Assoc([n], xs, ys);
    }
  }

  /** Splitting any bytes followed by joined units gives the units of those bytes followed by
      exactly the joined units; with `a == []`, splitting undoes joining. */
  lemma {:induction false} SplitUndoesJoin(a: Bytes, ns: seq<Nalu>)
    requires AllSepFree(ns)
    ensures Split(a + Join(ns)) == Split(a) + ns
  {
    var b := Join(ns);
    FindSepIgnoresTail(a, b, 0);
    var first := FindSep(a, 0);
    if b != [] { SepAfter(a, b); }
    if first < |a| { NoStraddle(a, b, first); }
    UnitsIgnoreTail(a, b, a + b, first);
    JoinedUnits(a, ns);
  }

  lemma OneUnit(a: Bytes, n: Nalu)
    requires SepFree(n)
    ensures var a' := a + (SEP + n); FindSep(a', |a| + 4) == |a'| && a'[|a| + 4..] == n
  {
    var a' := a + (SEP + n);
    assert forall q :: |a| + 4 <= q < |a'| && SepAt(a', q) ==> SepAt(n, q - |a| - 4);
  }

  lemma {:induction false} JoinedUnits(a: Bytes, ns: seq<Nalu>)
    requires AllSepFree(ns)
    ensures ns != [] ==> SepAt(a + Join(ns), |a|)
    ensures UnitsFrom(a + Join(ns), |a|) == ns
    decreases |ns|
  {
    if ns == [] {
      assert a + Join(ns) == a;
    } else {
      var n, rest := ns[0], ns[1..];
      var a' := a + (SEP + n);
      var s := a + Join(ns);
      Assoc(a, SEP + n, Join(rest));
      SepAfter(a, Join(ns));
      OneUnit(a, n);
      FindSepIgnoresTail(a', Join(rest), |a| + 4);
      SliceIgnoresTail(a', Join(rest), |a| + 4, |a'|);
      JoinedUnits(a', rest);
      assert UnitsFrom(s, |a|) == [n] + rest;
    }
  }

  lemma {:induction false} JoinConcat(ms: seq<Nalu>, ns: seq<Nalu>)
    ensures Join(ms + ns) == Join(ms) + Join(ns)
  {
    if ms == [] {
      assert ms + ns == ns;
    } else {
      assert (ms + ns)[1..] == ms[1..] + ns;
      JoinConcat(ms[1..], ns);
    }
  }

  // ----- the source's loops -----

  /** The counting loop reads the byte after every start code, so the stream must not end right
      after one; everything else about the stream is free. */
  predicate Countable(s: Bytes) {
    var ns := Split(s);
    ns != [] ==> ns[|ns| - 1] != []
  }

  /** If the last unit is not empty, a header byte follows every start code. */
  lemma {:induction false} HeaderInBounds(s: Bytes, last: nat)
    requires last < |s| && SepAt(s, last)
    requires var ns := UnitsFrom(s, last); ns != [] && ns[|ns| - 1] != []
    ensures last + 4 < |s|
    ensures TypeOf(UnitsFrom(s, last)[0]) == s[last + 4] % 32
  {
    var next := FindSep(s, last + 4);
    if next == |s| {
      assert UnitsFrom(s, last) == [s[last + 4..next]];
    }
  }

  lemma CountSnoc(ns: seq<Nalu>, n: Nalu, t: int)
    ensures Count(ns + [n], t) == Count(ns, t) + (if TypeOf(n) == t then 1 else 0)
  {
    assert (ns + [n])[..|ns|] == ns;
  }

  lemma UnitsStep(s: Bytes, last: nat, done: seq<Nalu>)
    requires last < |s| && SepAt(s, last)
    ensures var next := FindSep(s, last + 4);
            done + UnitsFrom(s, last) == (done + [s[last + 4..next]]) + UnitsFrom(s, next)
  {
  }

  /** `countNalus`: counts by header byte, without storing the units. */
  method CountNalus(stream: Bytes, t: int) returns (cnt: nat)
    requires Countable(stream)
    ensures cnt == Count(Split(stream), t)
  {
    cnt := 0;
    var last := FindSep(stream, 0);
    ghost var all := Split(stream);
    ghost var done: seq<Nalu> := [];
    while last != |stream|
      invariant last <= |stream|
      invariant last < |stream| ==> SepAt(stream, last)
      invariant all == done + UnitsFrom(stream, last)
      invariant cnt == Count(done, t)
      decreases |stream| - last
    {
      ghost var rest := UnitsFrom(stream, last);
      assert rest[|rest| - 1] == all[|all| - 1];
      HeaderInBounds(stream, last);
      var next := FindSep(stream, last + 4);
      var hdr := stream[last + 4];
      var naluType := hdr % 32;
      if naluType == t {
        cnt := cnt + 1;
      }
      CountSnoc(done, rest[0], t);
      UnitsStep(stream, last, done);
      done := done + [rest[0]];
      last := next;
    }
    assert done == all;
  }

  /** The splitting loop at the head of `mux`. */
  method SplitStream(stream: Bytes) returns (units: seq<Nalu>)
    ensures units == Split(stream)
  {
    units := [];
    var last := FindSep(stream, 0);
    while last != |stream|
      invariant last <= |stream|
      invariant last < |stream| ==> SepAt(stream, last)
      invariant Split(stream) == units + UnitsFrom(stream, last)
      decreases |stream| - last
    {
      var next := FindSep(stream, last + 4);
      UnitsStep(stream, last, units);
      units := units + [stream[last + 4..next]];
      last := next;
    }
  }
}
