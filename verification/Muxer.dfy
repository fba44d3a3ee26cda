/** The layer muxer: `mux` and `merge` of `SVC-player/merge.cxx`.

    `Mux` keeps the source's control flow (passes over the layers driven by the `active`, `eos`,
    `found` and `first` flags and an integer division). It is proved against a schedule in closed
    form that mentions none of them: which units of which layer are written in which pass, and
    how many passes there are. `MuxerTheorems` draws the consequences. */
module Muxer {
  import opened Basics
  import opened AnnexB

  /** The unit at position `index` of layer `layer`. */
  datatype Ref = Ref(layer: nat, index: nat)

  function Range(layer: nat, lo: nat, hi: nat): (rs: seq<Ref>)
    requires lo <= hi
    ensures |rs| == hi - lo
    ensures forall d :: 0 <= d < |rs| ==> rs[d] == Ref(layer, lo + d)
  {
    seq(hi - lo, d requires 0 <= d => Ref(layer, lo + d))
  }

  predicate Resolves(layers: seq<seq<Nalu>>, rs: seq<Ref>) {
    forall d :: 0 <= d < |rs| ==> rs[d].layer < |layers| && rs[d].index < |layers[rs[d].layer]|
  }

  function Units(layers: seq<seq<Nalu>>, rs: seq<Ref>): (ns: seq<Nalu>)
    requires Resolves(layers, rs)
    ensures |ns| == |rs|
    ensures forall d :: 0 <= d < |rs| ==> ns[d] == layers[rs[d].layer][rs[d].index]
  {
    seq(|rs|, d requires 0 <= d < |rs| => layers[rs[d].layer][rs[d].index])
  }

  lemma UnitsOfRange(layers: seq<seq<Nalu>>, i: nat, lo: nat, hi: nat)
    requires i < |layers| && lo <= hi <= |layers[i]|
    ensures Resolves(layers, Range(i, lo, hi))
    ensures Units(layers, Range(i, lo, hi)) == layers[i][lo..hi]
  {
  }

  lemma UnitsConcat(layers: seq<seq<Nalu>>, rs: seq<Ref>, qs: seq<Ref>)
    requires Resolves(layers, rs) && Resolves(layers, qs)
    ensures Resolves(layers, rs + qs)
    ensures Units(layers, rs + qs) == Units(layers, rs) + Units(layers, qs)
  {
  }

  // ----- where the base layer is cut -----

  /** The units of the base layer at which a new pass starts: a separator unit with some
      non-empty unit before it. */
  ghost predicate IsCut(base: seq<Nalu>, t: int, p: nat) {
    && p < |base| && base[p] != [] && TypeOf(base[p]) == t
    && exists q :: 0 <= q < p && base[q] != []
  }

  ghost function Cuts(base: seq<Nalu>, t: int, n: nat): (c: seq<nat>)
    requires n <= |base|
    ensures forall i :: 0 <= i < |c| ==> IsCut(base, t, c[i]) && 0 < c[i] < n
    ensures forall i, j :: 0 <= i < j < |c| ==> c[i] < c[j]
    ensures forall p :: 0 <= p < n && IsCut(base, t, p) ==> p in c
  {
    if n == 0 then []
    else Cuts(base, t, n - 1) + (if IsCut(base, t, n - 1) then [n - 1] else [])
  }

  /** The number of passes that write base-layer units. */
  ghost function Chunks(base: seq<Nalu>, t: int): nat {
    |Cuts(base, t, |base|)| + 1
  }

  /** Where pass `j` starts reading the base layer. */
  ghost function BasePos(base: seq<Nalu>, t: int, j: nat): (p: nat)
    ensures p <= |base|
  {
    var c := Cuts(base, t, |base|);
    if j == 0 then 0 else if j <= |c| then c[j - 1] else |base|
  }

  lemma BasePosMonotone(base: seq<Nalu>, t: int, j: nat)
    ensures BasePos(base, t, j) <= BasePos(base, t, j + 1)
  {
  }

  // ----- the schedule -----

  /** `naluPerAU` of every layer, the same in every pass. */
  function PerAU(counts: seq<nat>): (ks: seq<nat>)
    requires counts != [] ==> counts[0] > 0
    ensures |ks| == |counts|
    ensures forall i :: 0 <= i < |ks| ==> ks[i] == counts[i] / counts[0]
  {
    seq(|counts|, i requires 0 <= i < |counts| => counts[i] / counts[0])
  }

  ghost predicate WellFormed(layers: seq<seq<Nalu>>, ks: seq<nat>) {
    |layers| == |ks| && |layers| > 0
  }

  /** Where pass `j` starts reading layer `i`. */
  ghost function Pos(layers: seq<seq<Nalu>>, ks: seq<nat>, t: int, i: nat, j: nat): (p: nat)
    requires WellFormed(layers, ks) && i < |layers|
    ensures p <= |layers[i]|
  {
    if i == 0 then BasePos(layers[0], t, j) else Min(j * ks[i], |layers[i]|)
  }

  lemma PosMonotone(layers: seq<seq<Nalu>>, ks: seq<nat>, t: int, i: nat, j: nat)
    requires WellFormed(layers, ks) && i < |layers|
    ensures Pos(layers, ks, t, i, j) <= Pos(layers, ks, t, i, j + 1)
  {
    if i == 0 {
      BasePosMonotone(layers[0], t, j);
    } else {
      assert (j + 1) * ks[i] == j * ks[i] + ks[i];
    }
  }

  /** What pass `j` writes from the first `n` layers. */
  ghost function PassRefs(layers: seq<seq<Nalu>>, ks: seq<nat>, t: int, j: nat, n: nat): (rs: seq<Ref>)
    requires WellFormed(layers, ks) && n <= |layers|
    ensures Resolves(layers, rs)
  {
    if n == 0 then []
    else
      PosMonotone(layers, ks, t, n - 1, j);
      PassRefs(layers, ks, t, j, n - 1)
      + Range(n - 1, Pos(layers, ks, t, n - 1, j), Pos(layers, ks, t, n - 1, j + 1))
  }

  /** What the first `passes` passes write. */
  ghost function Schedule(layers: seq<seq<Nalu>>, ks: seq<nat>, t: int, passes: nat): (rs: seq<Ref>)
    requires WellFormed(layers, ks)
    ensures Resolves(layers, rs)
  {
    if passes == 0 then []
    else Schedule(layers, ks, t, passes - 1) + PassRefs(layers, ks, t, passes - 1, |layers|)
  }

  /** The last enhancement layer among the first `n` that contributes to a pass at all, or 0. */
  function Lead(ks: seq<nat>, n: nat): (i: nat)
    requires n <= |ks|
    ensures i == 0 || (0 < i < n && ks[i] > 0)
    ensures forall x :: 0 < x < n && x > i ==> ks[x] == 0
  {
    if n <= 1 then 0 else if ks[n - 1] > 0 then n - 1 else Lead(ks, n - 1)
  }

  /** The number of passes `mux` makes over two or more layers. */
  ghost function Passes(layers: seq<seq<Nalu>>, ks: seq<nat>, t: int): (p: nat)
    requires WellFormed(layers, ks)
    ensures p > 0
  {
    var lead := Lead(ks, |ks|);
    if lead == 0 then Chunks(layers[0], t) else |layers[lead]| / ks[lead] + 1
  }

  /** The value of `active` in pass `j` once the first `n` layers are done. */
  ghost predicate ActiveAfter(layers: seq<seq<Nalu>>, ks: seq<nat>, t: int, j: nat, n: nat)
    requires WellFormed(layers, ks) && n <= |layers|
  {
    var lead := Lead(ks, n);
    if lead == 0 then n > 0 && j + 1 < Chunks(layers[0], t)
    else (j + 1) * ks[lead] <= |layers[lead]|
  }

  lemma ActiveMeansMorePasses(layers: seq<seq<Nalu>>, ks: seq<nat>, t: int, j: nat)
    requires WellFormed(layers, ks)
    ensures ActiveAfter(layers, ks, t, j, |layers|) <==> j + 1 < Passes(layers, ks, t)
  {
    var lead := Lead(ks, |ks|);
    if lead != 0 {
      DivCompare(|layers[lead]|, ks[lead], j + 1);
    }
  }

  lemma DivCompare(l: nat, k: nat, x: nat)
    requires k > 0
    ensures x * k <= l <==> x <= l / k
  {
    var q := l / k;
    assert l == q * k + l % k && 0 <= l % k < k;
    if x <= q {
      assert x * k <= q * k;
    } else {
      assert x * k >= (q + 1) * k == q * k + k;
    }
  }

  // ----- one layer within a pass -----

  lemma JoinSnoc(ns: seq<Nalu>, n: Nalu)
    ensures Join(ns + [n]) == Join(ns) + SEP + n
  {
    JoinConcat(ns, [n]);
    assert Join([n]) == SEP + n + Join([]);
  }

  /** A base-layer pass that started at `start` stops in front of unit `q` (several layers). */
  ghost predicate Stops(base: seq<Nalu>, t: int, start: nat, q: nat) {
    && q < |base| && base[q] != [] && TypeOf(base[q]) == t
    && exists r :: start <= r < q && base[r] != []
  }

  /** The inner loop for `i == 0`. `found` is what becomes of `active`. */
  method EmitBase(base: seq<Nalu>, t: int, nLayers: nat, naluPerAU: nat, start: nat)
    returns (pos: nat, chunk: Bytes, found: bool)
    requires start <= |base| && nLayers >= 1
    ensures start <= pos <= |base|
    ensures chunk == Join(base[start..pos])
    ensures !found ==> pos == |base|
    ensures nLayers == 1 && found ==> start < pos
    ensures nLayers > 1 ==> forall q :: start < q < pos ==> !Stops(base, t, start, q)
    ensures nLayers > 1 && found ==> Stops(base, t, start, pos)
  {
    pos, chunk, found := start, [], false;
    var eos, first, cnt, nalRefIdc := false, true, 0, 0;
    while !eos && !found
      invariant start <= pos <= |base|
      invariant chunk == Join(base[start..pos])
      invariant eos ==> pos == |base| && !found
      invariant !found ==> (first <==> forall q :: start <= q < pos ==> base[q] == [])
      invariant nLayers == 1 && found ==> start < pos
      invariant nLayers > 1 ==> forall q :: start < q < pos ==> !Stops(base, t, start, q)
      invariant nLayers > 1 && found ==> Stops(base, t, start, pos)
      decreases |base| - pos, !eos, !found
    {
      if pos >= |base| {
        eos := true;
      } else {
        var n := base[pos];
        var naluType := 0;
        if |n| > 0 {
          nalRefIdc := RefIdc(n);
          naluType := TypeOf(n);
          if naluType == t {
            if !first && nLayers > 1 {
              found := true;
            }
          }
          first := false;
        }
        if naluType != 14 {
          cnt := cnt + 1;
        }
        if !found {
          assert base[start..pos + 1] == base[start..pos] + [n];
          JoinSnoc(base[start..pos], n);
          chunk := chunk + SEP + n;
          pos := pos + 1;
          if nLayers == 1 && naluType == 1 && (nalRefIdc == 2 || (nalRefIdc == 0 && cnt >= naluPerAU)) {
            found := true;
          }
        }
      }
    }
  }

  /** The inner loop for `i > 0`. It reads the header of every unit it writes, so the units must
      not be empty. */
  method EmitLayer(units: seq<Nalu>, naluPerAU: nat, start: nat, wasActive: bool)
    returns (pos: nat, chunk: Bytes, active: bool)
    requires start <= |units|
    requires forall d :: 0 <= d < |units| ==> units[d] != []
    ensures pos == Min(start + naluPerAU, |units|)
    ensures chunk == Join(units[start..pos])
    ensures active <==> if naluPerAU == 0 then wasActive else start + naluPerAU <= |units|
  {
    pos, chunk, active := start, [], wasActive;
    var eos, cnt := false, 0;
    while !eos && cnt < naluPerAU
      invariant pos == start + cnt <= |units| && cnt <= naluPerAU
      invariant chunk == Join(units[start..pos])
      invariant eos ==> pos == |units| && cnt < naluPerAU
      invariant active <==> if eos then false else cnt > 0 || wasActive
      decreases naluPerAU - cnt, !eos
    {
      if pos >= |units| {
        eos := true;
        active := false;
      } else {
        var n := units[pos];
        cnt := cnt + 1;
        var nalRefIdc := RefIdc(n);
        assert units[start..pos + 1] == units[start..pos] + [n];
        JoinSnoc(units[start..pos], n);
        chunk := chunk + SEP + n;
        pos := pos + 1;
        active := true;
      }
    }
  }

  /** A pass that starts where pass `j` should stops exactly in front of cuts. */
  lemma StopsAreCuts(base: seq<Nalu>, t: int, j: nat, q: nat)
    requires BasePos(base, t, j) < q
    ensures Stops(base, t, BasePos(base, t, j), q) <==> IsCut(base, t, q)
  {
    var start := BasePos(base, t, j);
    if IsCut(base, t, q) && j > 0 {
      assert base[start] != [];
    }
  }

  /** Such a pass, run to its first stop, ends where pass `j + 1` starts. */
  lemma NextBoundary(base: seq<Nalu>, t: int, j: nat, p: nat)
    requires BasePos(base, t, j) <= p <= |base|
    requires forall q :: BasePos(base, t, j) < q < p ==> !Stops(base, t, BasePos(base, t, j), q)
    requires p < |base| ==> Stops(base, t, BasePos(base, t, j), p)
    ensures p == BasePos(base, t, j + 1)
    ensures p < |base| <==> j + 1 < Chunks(base, t)
  {
    var start := BasePos(base, t, j);
    var c := Cuts(base, t, |base|);
    forall q | start < q <= p ensures IsCut(base, t, q) <==> q == p < |base| {
      StopsAreCuts(base, t, j, q);
    }
    NextInOrder(base, t, c, j, start, p);
  }

  lemma NextInOrder(base: seq<Nalu>, t: int, c: seq<nat>, j: nat, start: nat, p: nat)
    requires c == Cuts(base, t, |base|) && start == BasePos(base, t, j) <= p <= |base|
    requires start < p || p == |base|
    requires forall q :: start < q <= p ==> (IsCut(base, t, q) <==> q == p < |base|)
    ensures p == BasePos(base, t, j + 1)
    ensures p < |base| <==> j < |c|
  {
    hide Cuts, IsCut;
    if p < |base| {
      assert IsCut(base, t, p);
      var x :| 0 <= x < |c| && c[x] == p;
      assert x >= j;
    }
    if j < |c| {
      assert IsCut(base, t, c[j]) && start < c[j];
    }
  }

  // ----- a pass, and the whole run -----

  lemma RenderRange(layers: seq<seq<Nalu>>, rs: seq<Ref>, i: nat, lo: nat, hi: nat)
    requires i < |layers| && lo <= hi <= |layers[i]| && Resolves(layers, rs)
    ensures Resolves(layers, rs + Range(i, lo, hi))
    ensures Join(Units(layers, rs + Range(i, lo, hi))) == Join(Units(layers, rs)) + Join(layers[i][lo..hi])
  {
    UnitsOfRange(layers, i, lo, hi);
    UnitsConcat(layers, rs, Range(i, lo, hi));
    JoinConcat(Units(layers, rs), Units(layers, Range(i, lo, hi)));
  }

  lemma RenderSchedule(layers: seq<seq<Nalu>>, ks: seq<nat>, t: int, j: nat)
    requires WellFormed(layers, ks)
    ensures Join(Units(layers, Schedule(layers, ks, t, j + 1)))
            == Join(Units(layers, Schedule(layers, ks, t, j)))
               + Join(Units(layers, PassRefs(layers, ks, t, j, |layers|)))
  {
    var rs, qs := Schedule(layers, ks, t, j), PassRefs(layers, ks, t, j, |layers|);
    UnitsConcat(layers, rs, qs);
    JoinConcat(Units(layers, rs), Units(layers, qs));
  }

  lemma PosStep(layers: seq<seq<Nalu>>, ks: seq<nat>, t: int, i: nat, j: nat)
    requires WellFormed(layers, ks) && 0 < i < |layers|
    ensures var k := ks[i];
            var p := Pos(layers, ks, t, i, j);
            && Pos(layers, ks, t, i, j + 1) == Min(p + k, |layers[i]|)
            && (k > 0 ==> (p + k <= |layers[i]| <==> (j + 1) * k <= |layers[i]|))
  {
    assert (j + 1) * ks[i] == j * ks[i] + ks[i];
  }

  ghost predicate NonEmptyEnhancement(layers: seq<seq<Nalu>>) {
    forall i, d :: 0 < i < |layers| && 0 <= d < |layers[i]| ==> layers[i][d] != []
  }

  /** `positions` is where pass `j` starts reading each layer. */
  ghost predicate At(layers: seq<seq<Nalu>>, ks: seq<nat>, t: int, positions: seq<nat>, j: nat)
    requires WellFormed(layers, ks)
  {
    && |positions| == |layers|
    && forall x :: 0 <= x < |layers| ==> positions[x] == Pos(layers, ks, t, x, j)
  }

  lemma AtStart(layers: seq<seq<Nalu>>, ks: seq<nat>, t: int)
    requires WellFormed(layers, ks)
    ensures At(layers, ks, t, seq(|layers|, _ => 0), 0)
  {
    forall x | 0 < x < |layers| ensures Pos(layers, ks, t, x, 0) == 0 {
      assert 0 * ks[x] == 0;
    }
  }

  /** What the first `passes` passes append to the file. */
  ghost function Rendered(layers: seq<seq<Nalu>>, ks: seq<nat>, t: int, passes: nat): Bytes
    requires WellFormed(layers, ks)
  {
    Join(Units(layers, Schedule(layers, ks, t, passes)))
  }

  lemma RenderedNothing(layers: seq<seq<Nalu>>, ks: seq<nat>, t: int)
    requires WellFormed(layers, ks)
    ensures Rendered(layers, ks, t, 0) == []
  {
  }

  lemma RenderedPassStart(layers: seq<seq<Nalu>>, ks: seq<nat>, t: int, j: nat)
    requires WellFormed(layers, ks)
    ensures Join(Units(layers, PassRefs(layers, ks, t, j, 0))) == [] && !ActiveAfter(layers, ks, t, j, 0)
  {
  }

  lemma PassGrows(layers: seq<seq<Nalu>>, ks: seq<nat>, t: int, j: nat, i: nat)
    requires WellFormed(layers, ks) && i < |layers|
    ensures Pos(layers, ks, t, i, j) <= Pos(layers, ks, t, i, j + 1)
    ensures Join(Units(layers, PassRefs(layers, ks, t, j, i + 1)))
            == Join(Units(layers, PassRefs(layers, ks, t, j, i)))
               + Join(layers[i][Pos(layers, ks, t, i, j)..Pos(layers, ks, t, i, j + 1)])
  {
    hide Pos, Join, Units;
    PosMonotone(layers, ks, t, i, j);
    RenderRange(layers, PassRefs(layers, ks, t, j, i), i, Pos(layers, ks, t, i, j), Pos(layers, ks, t, i, j + 1));
  }

  /** The body of the `for` loop: layer `i` in pass `j`. */
  method Emit(layers: seq<seq<Nalu>>, ks: seq<nat>, t: int, i: nat, start: nat, wasActive: bool, ghost j: nat)
    returns (pos: nat, written: Bytes, active: bool)
    requires |ks| == |layers| > 1 && NonEmptyEnhancement(layers) && i < |layers|
    requires start == Pos(layers, ks, t, i, j)
    requires wasActive <==> ActiveAfter(layers, ks, t, j, i)
    ensures start <= pos == Pos(layers, ks, t, i, j + 1)
    ensures written == Join(layers[i][start..pos])
    ensures active <==> ActiveAfter(layers, ks, t, j, i + 1)
  {
    var naluPerAU := ks[i];
    if i == 0 {
      pos, written, active := EmitBase(layers[0], t, |layers|, naluPerAU, start);
      NextBoundary(layers[0], t, j, pos);
    } else {
      PosStep(layers, ks, t, i, j);
      pos, written, active := EmitLayer(layers[i], naluPerAU, start, wasActive);
    }
  }

  /** One round of the `while (active)` loop over two or more layers. */
  method Pass(layers: seq<seq<Nalu>>, ks: seq<nat>, t: int, positions: seq<nat>, ghost j: nat)
    returns (positions': seq<nat>, chunk: Bytes, active: bool)
    requires |ks| == |layers| > 1 && NonEmptyEnhancement(layers)
    requires At(layers, ks, t, positions, j)
    ensures At(layers, ks, t, positions', j + 1)
    ensures Rendered(layers, ks, t, j + 1) == Rendered(layers, ks, t, j) + chunk
    ensures active <==> j + 1 < Passes(layers, ks, t)
  {
    hide Pos, Join, Units, PassRefs, ActiveAfter, Passes;
    positions', chunk, active := positions, [], false;
    RenderedPassStart(layers, ks, t, j);
    for i := 0 to |layers|
      invariant |positions'| == |layers|
      invariant forall x :: 0 <= x < i ==> positions'[x] == Pos(layers, ks, t, x, j + 1)
      invariant forall x :: i <= x < |layers| ==> positions'[x] == Pos(layers, ks, t, x, j)
      invariant chunk == Join(Units(layers, PassRefs(layers, ks, t, j, i)))
      invariant active <==> ActiveAfter(layers, ks, t, j, i)
    {
      var pos, written;
      pos, written, active := Emit(layers, ks, t, i, positions'[i], active, j);
      PassGrows(layers, ks, t, j, i);
      positions' := positions'[i := pos];
      chunk := chunk + written;
    }
    RenderSchedule(layers, ks, t, j);
    ActiveMeansMorePasses(layers, ks, t, j);
  }

  ghost function Layers(streams: seq<Bytes>): (ls: seq<seq<Nalu>>)
    ensures |ls| == |streams|
    ensures forall i :: 0 <= i < |ls| ==> ls[i] == Split(streams[i])
  {
    seq(|streams|, i requires 0 <= i < |streams| => Split(streams[i]))
  }

  /** `mux`: what it appends to a file that already holds `init`. The base layer's count is a
      divisor, so it must be positive. */
  method Mux(init: Bytes, streams: seq<Bytes>, counts: seq<nat>, t: int) returns (out: Bytes)
    requires |counts| == |streams|
    requires streams != [] ==> counts[0] > 0
    requires NonEmptyEnhancement(Layers(streams))
    ensures |streams| == 0 ==> out == init
    ensures |streams| == 1 ==> out == init + Join(Split(streams[0]))
    ensures |streams| > 1 ==>
              var ls := Layers(streams);
              out == init + Rendered(ls, PerAU(counts), t, Passes(ls, PerAU(counts), t))
  {
    var layers: seq<seq<Nalu>> := [];
    for i := 0 to |streams|
      invariant layers == Layers(streams)[..i]
    {
      var units := SplitStream(streams[i]);
      layers := layers + [units];
    }
    assert layers == Layers(streams);
    if |streams| == 0 {
      // The body of the `while` loop runs once and leaves `active` false.
      out := init;
    } else if |streams| == 1 {
      out := MuxSingle(init, layers[0], t);
    } else {
      out := MuxMany(init, layers, PerAU(counts), t);
    }
  }

  /** The `while (active)` loop when there is one layer. */
  method MuxSingle(init: Bytes, base: seq<Nalu>, t: int) returns (out: Bytes)
    ensures out == init + Join(base)
  {
    out := init;
    var active, pos := true, 0;
    while active
      invariant pos <= |base|
      invariant out == init + Join(base[..pos])
      invariant !active ==> pos == |base|
      decreases |base| - pos, active
    {
      var next, chunk, found := EmitBase(base, t, 1, 1, pos);
      JoinConcat(base[..pos], base[pos..next]);
      assert base[..next] == base[..pos] + base[pos..next];
      active, pos, out := found, next, out + chunk;
    }
    assert base[..pos] == base;
  }

  /** The `while (active)` loop over two or more layers; `frm` numbers the passes. */
  method MuxMany(init: Bytes, layers: seq<seq<Nalu>>, ks: seq<nat>, t: int) returns (out: Bytes)
    requires |ks| == |layers| > 1 && NonEmptyEnhancement(layers)
    ensures out == init + Rendered(layers, ks, t, Passes(layers, ks, t))
  {
    hide Rendered, Passes, Pos;
    assert Rendered(layers, ks, t, 0) == [] by { RenderedNothing(layers, ks, t); }
    out := init;
    ghost var passes, body: Bytes := Passes(layers, ks, t), [];
    var active, frm, positions := true, 0, seq(|layers|, _ => 0);
    AtStart(layers, ks, t);
    while active
      invariant At(layers, ks, t, positions, frm)
      invariant body == Rendered(layers, ks, t, frm)
      invariant out == init + body
      invariant if active then frm < passes else frm == passes
      decreases passes - frm, active
    {
      var chunk;
      positions, chunk, active := Pass(layers, ks, t, positions, frm);
      Assoc(init, body, chunk);
      body, out, frm := body + chunk, out + chunk, frm + 1;
    }
  }

  // ----- merge -----

  /** The separator type `merge` settles on: 6, or 14 when the base layer holds no unit of type 6. */
  function SepType(base: seq<Nalu>): (t: int) {
    if Count(base, 6) == 0 then 14 else 6
  }

  function MergeCounts(layers: seq<seq<Nalu>>): (cs: seq<nat>)
    ensures |cs| == |layers|
    ensures forall i :: 0 < i < |layers| ==> cs[i] == Count(layers[i], 20)
    ensures layers != [] ==> cs[0] == Count(layers[0], SepType(layers[0]))
  {
    seq(|layers|, i requires 0 <= i < |layers| =>
      if i == 0 then Count(layers[0], SepType(layers[0])) else Count(layers[i], 20))
  }

  /** What `merge` needs of two or more layers: an access unit to divide by. */
  ghost predicate Mergeable(layers: seq<seq<Nalu>>) {
    |layers| > 1 && Count(layers[0], SepType(layers[0])) > 0
  }

  /** `naluPerAU` of the layers of a call of `merge`. */
  ghost function Shares(layers: seq<seq<Nalu>>): (ks: seq<nat>)
    requires Mergeable(layers)
    ensures WellFormed(layers, ks)
  {
    PerAU(MergeCounts(layers))
  }

  /** The units `merge` writes, in order. */
  ghost function Merged(layers: seq<seq<Nalu>>): (rs: seq<Ref>)
    requires Mergeable(layers)
    ensures Resolves(layers, rs)
  {
    var ks, t := Shares(layers), SepType(layers[0]);
    Schedule(layers, ks, t, Passes(layers, ks, t))
  }

  /** `merge`: the bytes of the output file. */
  method Merge(layerGroup: seq<Bytes>, initLayer: Bytes) returns (out: Bytes)
    requires layerGroup != [] ==> Countable(layerGroup[0])
    requires layerGroup != [] ==> Count(Split(layerGroup[0]), SepType(Split(layerGroup[0]))) > 0
    requires NonEmptyEnhancement(Layers(layerGroup))
    ensures |layerGroup| == 0 ==> out == initLayer
    ensures |layerGroup| == 1 ==> out == initLayer + Join(Split(layerGroup[0]))
    ensures |layerGroup| > 1 ==>
              var ls := Layers(layerGroup);
              out == initLayer + Join(Units(ls, Merged(ls)))
  {
    ghost var ls := Layers(layerGroup);
    var naluCounts: seq<nat> := [];
    var separatorNaluType := 6;
    for i := 0 to |layerGroup|
      invariant naluCounts == MergeCounts(ls)[..i]
      invariant separatorNaluType == if i == 0 then 6 else SepType(ls[0])
    {
      var naluCount;
      if i == 0 {
        naluCount := CountNalus(layerGroup[0], 6);
        if naluCount == 0 {
          naluCount := CountNalus(layerGroup[0], 14);
          separatorNaluType := 14;
        }
      } else {
        LastOfLayer(ls, i);
        naluCount := CountNalus(layerGroup[i], 20);
      }
      naluCounts := naluCounts + [naluCount];
    }
    assert naluCounts == MergeCounts(ls);
    out := Mux(initLayer, layerGroup, naluCounts, separatorNaluType);
  }

  lemma LastOfLayer(layers: seq<seq<Nalu>>, i: nat)
    requires NonEmptyEnhancement(layers) && 0 < i < |layers|
    ensures layers[i] != [] ==> layers[i][|layers[i]| - 1] != []
  {
  }
}
