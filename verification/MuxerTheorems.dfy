/** What the closed form of `Muxer` means for the merged file. */
module MuxerTheorems {
  import opened Basics
  import opened AnnexB
  import opened Muxer

  // ----- the output interleaves prefixes of the layers -----

  /** The units of layer `i` among those written, in the order they were written. */
  ghost function Of(rs: seq<Ref>, i: nat): (qs: seq<Ref>) {
    if rs == [] then []
    else Of(rs[..|rs| - 1], i) + (if rs[|rs| - 1].layer == i then [rs[|rs| - 1]] else [])
  }

  lemma {:induction false} OfConcat(rs: seq<Ref>, qs: seq<Ref>, i: nat)
    ensures Of(rs + qs, i) == Of(rs, i) + Of(qs, i)
  {
    if qs == [] {
      assert rs + qs == rs;
    } else {
      var all := rs + qs;
      assert all[..|all| - 1] == rs + qs[..|qs| - 1];
      OfConcat(rs, qs[..|qs| - 1], i);
    }
  }

  lemma {:induction false} OfRange(layer: nat, lo: nat, hi: nat, i: nat)
    requires lo <= hi
    ensures Of(Range(layer, lo, hi), i) == if layer == i then Range(layer, lo, hi) else []
    decreases hi - lo
  {
    if lo < hi {
      var rs := Range(layer, lo, hi);
      assert rs[..|rs| - 1] == Range(layer, lo, hi - 1);
      OfRange(layer, lo, hi - 1, i);
    }
  }

  lemma OfNothing(i: nat)
    ensures Of([], i) == []
  {
  }

  lemma {:induction false} OfPass(layers: seq<seq<Nalu>>, ks: seq<nat>, t: int, j: nat, n: nat, i: nat)
    requires WellFormed(layers, ks) && n <= |layers| && i < |layers|
    requires Pos(layers, ks, t, i, j) <= Pos(layers, ks, t, i, j + 1)
    ensures Of(PassRefs(layers, ks, t, j, n), i)
            == if i < n then Range(i, Pos(layers, ks, t, i, j), Pos(layers, ks, t, i, j + 1)) else []
  {
    hide Pos, Range, Of;
    OfNothing(i);
    if n > 0 {
      PosMonotone(layers, ks, t, n - 1, j);
      var lo, hi := Pos(layers, ks, t, n - 1, j), Pos(layers, ks, t, n - 1, j + 1);
      OfPass(layers, ks, t, j, n - 1, i);
      OfConcat(PassRefs(layers, ks, t, j, n - 1), Range(n - 1, lo, hi), i);
      OfRange(n - 1, lo, hi, i);
    }
  }

  /** After any number of passes, what has been written of each layer is a prefix of it, in
      order and without repetition: the output interleaves the layers. */
  lemma {:induction false} LayersInterleave(layers: seq<seq<Nalu>>, ks: seq<nat>, t: int, passes: nat, i: nat)
    requires WellFormed(layers, ks) && i < |layers|
    ensures Of(Schedule(layers, ks, t, passes), i) == Range(i, 0, Pos(layers, ks, t, i, passes))
    decreases passes
  {
    hide Pos, Range, Of, Schedule;
    if passes == 0 {
      InterleaveNothing(layers, ks, t, i);
    } else {
      LayersInterleaveStep(layers, ks, t, passes - 1, i);
    }
  }

  lemma InterleaveNothing(layers: seq<seq<Nalu>>, ks: seq<nat>, t: int, i: nat)
    requires WellFormed(layers, ks) && i < |layers|
    ensures Of(Schedule(layers, ks, t, 0), i) == Range(i, 0, Pos(layers, ks, t, i, 0)) == []
  {
    hide Cuts;
    assert Pos(layers, ks, t, i, 0) == 0;
  }

  lemma {:induction false} LayersInterleaveStep(layers: seq<seq<Nalu>>, ks: seq<nat>, t: int, j: nat, i: nat)
    requires WellFormed(layers, ks) && i < |layers|
    ensures Of(Schedule(layers, ks, t, j + 1), i) == Range(i, 0, Pos(layers, ks, t, i, j + 1))
    decreases j + 1, 0
  {
    hide Pos, Range, PassRefs, Of;
    LayersInterleave(layers, ks, t, j, i);
    PosMonotone(layers, ks, t, i, j);
    OfPass(layers, ks, t, j, |layers|, i);
    OfConcat(Schedule(layers, ks, t, j), PassRefs(layers, ks, t, j, |layers|), i);
    RangeConcat(i, Pos(layers, ks, t, i, j), Pos(layers, ks, t, i, j + 1));
  }

  lemma RangeConcat(i: nat, p: nat, q: nat)
    requires p <= q
    ensures Range(i, 0, p) + Range(i, p, q) == Range(i, 0, q)
  {
  }

  /** The same at every point inside a pass: cut the output after any unit. */
  lemma PrefixesInterleave(layers: seq<seq<Nalu>>, ks: seq<nat>, t: int, passes: nat, n: nat, i: nat)
    requires WellFormed(layers, ks) && i < |layers| && n <= |Schedule(layers, ks, t, passes)|
    ensures var written := Of(Schedule(layers, ks, t, passes)[..n], i);
            written == Range(i, 0, |written|) && |written| <= Pos(layers, ks, t, i, passes)
  {
    hide Pos, Schedule, Of;
    var rs := Schedule(layers, ks, t, passes);
    LayersInterleave(layers, ks, t, passes, i);
    assert rs == rs[..n] + rs[n..];
    OfConcat(rs[..n], rs[n..], i);
    var written := Of(rs[..n], i);
    assert written == Of(rs, i)[..|written|];
  }

  /** A pass after which `active` is set has written something, so the loop ends. */
  lemma ActivePassesWrite(layers: seq<seq<Nalu>>, ks: seq<nat>, t: int, j: nat)
    requires WellFormed(layers, ks) && j + 1 < Passes(layers, ks, t)
    ensures PassRefs(layers, ks, t, j, |layers|) != []
  {
    hide PassRefs;
    var lead := Lead(ks, |ks|);
    PosMonotone(layers, ks, t, lead, j);
    if lead != 0 {
      DivCompare(|layers[lead]|, ks[lead], j + 1);
      assert (j + 1) * ks[lead] == j * ks[lead] + ks[lead];
    }
    assert Pos(layers, ks, t, lead, j) < Pos(layers, ks, t, lead, j + 1);
    OfPass(layers, ks, t, j, |layers|, lead);
    OfNothing(lead);
  }

  /** A pass ends in front of every separator but a first unit of the layer, so that units in front of
      the first separator are a chunk of their own. */
  lemma {:induction false} CutsAreEverySeparator(base: seq<Nalu>, t: int, n: nat, p: nat)
    requires n <= |base| && p < n && forall d :: 0 <= d < |base| ==> base[d] != []
    ensures p in Cuts(base, t, n) <==> p > 0 && base[p][0] % 32 == t
  {
    if p < n - 1 {
      CutsAreEverySeparator(base, t, n - 1, p);
    } else {
      assert p !in Cuts(base, t, n - 1);
      if p > 0 { assert base[0] != []; }
    }
  }

  // ----- counting cuts and units -----

  lemma {:induction false} CutsAreSeparators(base: seq<Nalu>, t: int, n: nat)
    requires n <= |base|
    ensures |Cuts(base, t, n)| <= Count(base[..n], t)
  {
    if n > 0 {
      CutsAreSeparators(base, t, n - 1);
      assert base[..n][..n - 1] == base[..n - 1];
    }
  }

  lemma {:induction false} CountBounds(ns: seq<Nalu>, t: int)
    ensures Count(ns, t) <= |ns|
    ensures Count(ns, t) == |ns| <==> forall d :: 0 <= d < |ns| ==> TypeOf(ns[d]) == t
  {
    if ns != [] {
      var front := ns[..|ns| - 1];
      CountBounds(front, t);
      assert forall d :: 0 <= d < |ns| ==> ns[d] == if d < |front| then front[d] else ns[|ns| - 1];
    }
  }

  lemma DivFits(a: nat, c: nat)
    requires a > 0
    ensures a * (c / a) <= c
  {
  }

  /** There are at least `naluPerAU` units of every layer per access unit. */
  lemma SharesFit(layers: seq<seq<Nalu>>, i: nat)
    requires Mergeable(layers) && 0 < i < |layers|
    ensures MergeCounts(layers)[0] * Shares(layers)[i] <= MergeCounts(layers)[i] <= |layers[i]|
  {
    var counts := MergeCounts(layers);
    CountBounds(layers[i], 20);
    DivFits(counts[0], counts[i]);
  }

  // ----- the base layer -----

  /** The base layer takes at most one pass more than it has access units. */
  lemma FewChunks(layers: seq<seq<Nalu>>)
    requires Mergeable(layers)
    ensures Chunks(layers[0], SepType(layers[0])) <= MergeCounts(layers)[0] + 1
  {
    CutsAreSeparators(layers[0], SepType(layers[0]), |layers[0]|);
    assert layers[0][..|layers[0]|] == layers[0];
  }

  lemma EnoughPasses(layers: seq<seq<Nalu>>)
    requires Mergeable(layers)
    ensures Passes(layers, Shares(layers), SepType(layers[0])) >= Chunks(layers[0], SepType(layers[0]))
  {
    var ks := Shares(layers);
    FewChunks(layers);
    var lead := Lead(ks, |ks|);
    if lead != 0 {
      SharesFit(layers, lead);
      DivCompare(|layers[lead]|, ks[lead], MergeCounts(layers)[0]);
    }
  }

  /** The base layer is never cut short. For every input of two or more layers, divisible counts
      or not, the output holds the whole base layer, in order. */
  lemma BaseNeverCutShort(layers: seq<seq<Nalu>>)
    requires Mergeable(layers)
    ensures Of(Merged(layers), 0) == Range(0, 0, |layers[0]|)
  {
    var ks, t := Shares(layers), SepType(layers[0]);
    var p := Passes(layers, ks, t);
    EnoughPasses(layers);
    LayersInterleave(layers, ks, t, p, 0);
    assert Pos(layers, ks, t, 0, p) == BasePos(layers[0], t, p) == |layers[0]|;
  }

  /** No enhancement layer runs out in a pass before the one that holds the end of the base layer. */
  lemma NoEarlyEndOfStream(layers: seq<seq<Nalu>>, i: nat, j: nat)
    requires Mergeable(layers) && 0 < i < |layers|
    requires j + 1 < Chunks(layers[0], SepType(layers[0]))
    ensures (j + 1) * Shares(layers)[i] <= |layers[i]|
  {
    FewChunks(layers);
    SharesFit(layers, i);
    MulMonotone(j + 1, MergeCounts(layers)[0], Shares(layers)[i]);
  }

  lemma MulMonotone(x: nat, y: nat, k: nat)
    requires x <= y
    ensures x * k <= y * k
  {
  }

  /** Exactly when an enhancement layer is written to its end: the last contributing layer
      decides the number of passes, and the layer must not need more of them. */
  lemma EnhancementComplete(layers: seq<seq<Nalu>>, i: nat)
    requires Mergeable(layers) && 0 < i < |layers|
    ensures Of(Merged(layers), i) == Range(i, 0, |layers[i]|) <==> CanComplete(layers, Shares(layers), i)
  {
    var ks, t := Shares(layers), SepType(layers[0]);
    var p := Passes(layers, ks, t);
    LayersInterleave(layers, ks, t, p, i);
    RangeLength(i, Pos(layers, ks, t, i, p), |layers[i]|);
    CompleteAtEnd(layers, ks, t, i);
  }

  ghost predicate CanComplete(layers: seq<seq<Nalu>>, ks: seq<nat>, i: nat)
    requires WellFormed(layers, ks) && 0 < i < |layers|
  {
    var lead := Lead(ks, |ks|);
    || |layers[i]| == 0
    || (lead != 0 && |layers[i]| <= (|layers[lead]| / ks[lead] + 1) * ks[i])
  }

  lemma RangeLength(i: nat, p: nat, l: nat)
    ensures Range(i, 0, p) == Range(i, 0, l) <==> p == l
  {
    assert |Range(i, 0, p)| == p && |Range(i, 0, l)| == l;
  }

  lemma CompleteAtEnd(layers: seq<seq<Nalu>>, ks: seq<nat>, t: int, i: nat)
    requires WellFormed(layers, ks) && 0 < i < |layers|
    ensures Pos(layers, ks, t, i, Passes(layers, ks, t)) == |layers[i]| <==> CanComplete(layers, ks, i)
  {
    var lead := Lead(ks, |ks|);
    if lead == 0 {
      assert ks[i] == 0;
      assert Passes(layers, ks, t) * ks[i] == 0;
    }
  }

  // ----- alignment -----

  /** The positions of the separator units among the first `n` units. */
  ghost function Seps(base: seq<Nalu>, t: int, n: nat): (c: seq<nat>)
    requires n <= |base|
    ensures forall i :: 0 <= i < |c| ==> c[i] < n
    ensures forall i, j :: 0 <= i < j < |c| ==> c[i] < c[j]
    ensures |c| == Count(base[..n], t)
  {
    if n == 0 then [] else
    assert base[..n][..n - 1] == base[..n - 1];
    Seps(base, t, n - 1) + (if TypeOf(base[n - 1]) == t then [n - 1] else [])
  }

  /** Access unit `j` of the base layer: from its `j`-th separator up to the next one. */
  ghost function AccessUnit(base: seq<Nalu>, t: int, j: nat): (au: seq<Nalu>)
    requires j < |Seps(base, t, |base|)|
  {
    var c := Seps(base, t, |base|);
    base[c[j]..if j + 1 < |c| then c[j + 1] else |base|]
  }

  /** Units `j*k .. (j+1)*k` of a layer, as far as it has them. */
  ghost function Slice(ns: seq<Nalu>, k: nat, j: nat): (ms: seq<Nalu>) {
    MulMonotone(j, j + 1, k);
    ns[Min(j * k, |ns|)..Min((j + 1) * k, |ns|)]
  }

  /** The `j`-th slices of the layers `1 .. n-1`, layer after layer. */
  ghost function Slices(layers: seq<seq<Nalu>>, ks: seq<nat>, j: nat, n: nat): (ns: seq<Nalu>)
    requires |ks| == |layers| && 0 < n <= |layers|
  {
    if n == 1 then [] else Slices(layers, ks, j, n - 1) + Slice(layers[n - 1], ks[n - 1], j)
  }

  /** Base access unit `0`, its share of every enhancement layer, base access unit `1`, ... */
  ghost function Aligned(layers: seq<seq<Nalu>>, t: int, ks: seq<nat>, n: nat): (ns: seq<Nalu>)
    requires layers != [] && |ks| == |layers| && n <= |Seps(layers[0], t, |layers[0]|)|
  {
    if n == 0 then []
    else
      Aligned(layers, t, ks, n - 1)
      + (AccessUnit(layers[0], t, n - 1) + Slices(layers, ks, n - 1, |layers|))
  }

  /** The layers are made for each other: the base layer opens with a separator, and every
      enhancement layer holds the same number, at least one, of units of type 20 per access unit. */
  ghost predicate Proportional(layers: seq<seq<Nalu>>) {
    && Mergeable(layers)
    && TypeOf(layers[0][0]) == SepType(layers[0])
    && forall i :: 0 < i < |layers| ==>
         Shares(layers)[i] >= 1 && MergeCounts(layers)[i] == MergeCounts(layers)[0] * Shares(layers)[i]
  }

  ghost predicate OpensWithSeparator(base: seq<Nalu>, t: int) {
    base != [] && t != 0 && TypeOf(base[0]) == t
  }

  lemma {:induction false} SepsAndCuts(base: seq<Nalu>, t: int, n: nat)
    requires 0 < n <= |base| && OpensWithSeparator(base, t)
    ensures Seps(base, t, n) == [0] + Cuts(base, t, n)
  {
    if n == 1 {
      assert Seps(base, t, 0) == [];
      assert Cuts(base, t, 0) == [];
      assert !IsCut(base, t, 0);
    } else {
      SepsAndCuts(base, t, n - 1);
      assert base[0] != [];
      assert IsCut(base, t, n - 1) <==> TypeOf(base[n - 1]) == t;
    }
  }

  lemma PassBaseIsAccessUnit(base: seq<Nalu>, t: int, j: nat)
    requires OpensWithSeparator(base, t)
    requires j < |Seps(base, t, |base|)|
    ensures BasePos(base, t, j) <= BasePos(base, t, j + 1)
    ensures base[BasePos(base, t, j)..BasePos(base, t, j + 1)] == AccessUnit(base, t, j)
  {
    hide Cuts, Seps;
    SepsAndCuts(base, t, |base|);
    BasePosMonotone(base, t, j);
  }

  lemma {:induction false} PassIsAligned(layers: seq<seq<Nalu>>, ks: seq<nat>, t: int, j: nat, n: nat)
    requires WellFormed(layers, ks) && OpensWithSeparator(layers[0], t)
    requires j < |Seps(layers[0], t, |layers[0]|)| && 0 < n <= |layers|
    ensures Units(layers, PassRefs(layers, ks, t, j, n))
            == AccessUnit(layers[0], t, j) + Slices(layers, ks, j, n)
  {
    hide Units, AccessUnit, Seps, Cuts, BasePos, Resolves;
    var lo, hi := Pos(layers, ks, t, n - 1, j), Pos(layers, ks, t, n - 1, j + 1);
    PosMonotone(layers, ks, t, n - 1, j);
    UnitsOfRange(layers, n - 1, lo, hi);
    UnitsConcat(layers, PassRefs(layers, ks, t, j, n - 1), Range(n - 1, lo, hi));
    if n == 1 {
      PassBaseIsAccessUnit(layers[0], t, j);
      assert PassRefs(layers, ks, t, j, 0) == [];
    } else {
      PassIsAligned(layers, ks, t, j, n - 1);
      Assoc(AccessUnit(layers[0], t, j), Slices(layers, ks, j, n - 1), Slice(layers[n - 1], ks[n - 1], j));
    }
  }

  lemma {:induction false} PassesAreAligned(layers: seq<seq<Nalu>>, ks: seq<nat>, t: int, n: nat)
    requires WellFormed(layers, ks) && OpensWithSeparator(layers[0], t)
    requires n <= |Seps(layers[0], t, |layers[0]|)|
    ensures Units(layers, Schedule(layers, ks, t, n)) == Aligned(layers, t, ks, n)
  {
    hide Pos, Units, Slices, AccessUnit, PassRefs, Seps, Cuts;
    if n == 0 {
      assert Units(layers, []) == [];
    } else {
      PassesAreAligned(layers, ks, t, n - 1);
      PassIsAligned(layers, ks, t, n - 1, |layers|);
      UnitsConcat(layers, Schedule(layers, ks, t, n - 1), PassRefs(layers, ks, t, n - 1, |layers|));
    }
  }

  /** What passes `from .. end` write. */
  ghost function Later(layers: seq<seq<Nalu>>, ks: seq<nat>, t: int, from: nat, end: nat): (rs: seq<Ref>)
    requires WellFormed(layers, ks) && from <= end
    ensures Resolves(layers, rs)
    ensures Schedule(layers, ks, t, end) == Schedule(layers, ks, t, from) + rs
    decreases end
  {
    if from == end then []
    else Later(layers, ks, t, from, end - 1) + PassRefs(layers, ks, t, end - 1, |layers|)
  }

  lemma {:induction false} LaterOf(layers: seq<seq<Nalu>>, ks: seq<nat>, t: int, from: nat, end: nat, i: nat)
    requires WellFormed(layers, ks) && from <= end && i < |layers|
    ensures |Of(Later(layers, ks, t, from, end), i)| == Pos(layers, ks, t, i, end) - Pos(layers, ks, t, i, from)
  {
    LayersInterleave(layers, ks, t, from, i);
    LayersInterleave(layers, ks, t, end, i);
    OfConcat(Schedule(layers, ks, t, from), Later(layers, ks, t, from, end), i);
  }

  lemma {:induction false} EmptyByLayer(layers: seq<seq<Nalu>>, rs: seq<Ref>)
    requires Resolves(layers, rs)
    ensures rs == [] <==> forall i :: 0 <= i < |layers| ==> Of(rs, i) == []
  {
    if rs != [] {
      assert Of(rs, rs[|rs| - 1].layer) != [];
    }
  }

  lemma {:induction false} JoinLength(ns: seq<Nalu>)
    ensures |Join(ns)| >= 4 * |ns|
  {
    if ns != [] { JoinLength(ns[1..]); }
  }

  lemma MinStalls(a: nat, p: nat, k: nat, l: nat)
    requires a < p && k > 0 && a * k <= l
    ensures Min(a * k, l) == Min(p * k, l) <==> l == a * k
  {
    MulMonotone(a + 1, p, k);
    assert (a + 1) * k == a * k + k;
  }

  lemma MorePasses(layers: seq<seq<Nalu>>)
    requires Proportional(layers)
    ensures MergeCounts(layers)[0] < Passes(layers, Shares(layers), SepType(layers[0]))
  {
    var ks := Shares(layers);
    var last := |layers| - 1;
    SharesFit(layers, last);
    assert Lead(ks, |ks|) == last;
    DivCompare(|layers[last]|, ks[last], MergeCounts(layers)[0]);
  }

  /** What is left of layer `i` once `a` passes have been made: of the base layer nothing if it has
      `a` access units, of an enhancement layer whatever exceeds `a` shares. */
  lemma LeftOver(layers: seq<seq<Nalu>>, ks: seq<nat>, t: int, a: nat, p: nat, i: nat)
    requires WellFormed(layers, ks) && OpensWithSeparator(layers[0], t) && a < p && i < |layers|
    requires |Seps(layers[0], t, |layers[0]|)| == a
    requires i > 0 ==> ks[i] > 0 && a * ks[i] <= |layers[i]|
    ensures Of(Later(layers, ks, t, a, p), i) == [] <==> i == 0 || |layers[i]| == a * ks[i]
  {
    LaterOf(layers, ks, t, a, p, i);
    if i == 0 {
      BaseDoneBy(layers[0], t, a);
      BaseDoneBy(layers[0], t, p);
    } else {
      MinStalls(a, p, ks[i], |layers[i]|);
    }
  }

  /** Nothing is written after the last access unit exactly when every enhancement layer has been
      used up by then. */
  lemma NothingLater(layers: seq<seq<Nalu>>, p: nat)
    requires Proportional(layers) && MergeCounts(layers)[0] < p
    ensures Later(layers, Shares(layers), SepType(layers[0]), MergeCounts(layers)[0], p) == [] <==>
            forall i :: 0 < i < |layers| ==> |layers[i]| == Count(layers[i], 20)
  {
    var ks, t, a := Shares(layers), SepType(layers[0]), MergeCounts(layers)[0];
    var rs := Later(layers, ks, t, a, p);
    EmptyByLayer(layers, rs);
    assert layers[0][..|layers[0]|] == layers[0];
    forall i | 0 <= i < |layers| ensures Of(rs, i) == [] <==> i == 0 || |layers[i]| == Count(layers[i], 20) {
      if i > 0 { SharesFit(layers, i); }
      LeftOver(layers, ks, t, a, p, i);
    }
  }

  lemma BaseDoneBy(base: seq<Nalu>, t: int, j: nat)
    requires OpensWithSeparator(base, t) && j >= |Seps(base, t, |base|)|
    ensures BasePos(base, t, j) == |base|
  {
    SepsAndCuts(base, t, |base|);
  }

  /** Alignment. When the layers are proportional, the merged file is, access unit by access unit,
      the base access unit followed by its share of every enhancement layer, and nothing else,
      exactly when the enhancement layers hold no unit of another type. */
  lemma Alignment(layers: seq<seq<Nalu>>)
    requires Proportional(layers)
    ensures MergeCounts(layers)[0] == |Seps(layers[0], SepType(layers[0]), |layers[0]|)|
    ensures forall i :: 0 < i < |layers| ==> MergeCounts(layers)[0] * Shares(layers)[i] <= |layers[i]|
    ensures Join(Units(layers, Merged(layers)))
              == Join(Aligned(layers, SepType(layers[0]), Shares(layers), MergeCounts(layers)[0])) <==>
            forall i, d :: 0 < i < |layers| && 0 <= d < |layers[i]| ==> TypeOf(layers[i][d]) == 20
  {
    var ks, t, a := Shares(layers), SepType(layers[0]), MergeCounts(layers)[0];
    var p := Passes(layers, ks, t);
    assert layers[0][..|layers[0]|] == layers[0];
    PassesAreAligned(layers, ks, t, a);
    MorePasses(layers);
    NothingLater(layers, p);
    AddsBytes(layers, ks, t, a, p);
    forall i | 0 < i < |layers|
      ensures a * ks[i] <= |layers[i]|
      ensures |layers[i]| == Count(layers[i], 20) <==> forall d :: 0 <= d < |layers[i]| ==> TypeOf(layers[i][d]) == 20
    {
      SharesFit(layers, i);
      CountBounds(layers[i], 20);
    }
  }

  lemma AddsBytes(layers: seq<seq<Nalu>>, ks: seq<nat>, t: int, from: nat, end: nat)
    requires WellFormed(layers, ks) && from <= end
    ensures Join(Units(layers, Schedule(layers, ks, t, end))) == Join(Units(layers, Schedule(layers, ks, t, from)))
            <==> Later(layers, ks, t, from, end) == []
  {
    var rs, qs := Schedule(layers, ks, t, from), Later(layers, ks, t, from, end);
    UnitsConcat(layers, rs, qs);
    JoinConcat(Units(layers, rs), Units(layers, qs));
    JoinLength(Units(layers, qs));
  }

  /** Layers made for each other, with the types of units written out: the base layer opens with a
      unit of type `t`, and for each such unit layer `i` holds `ks[i]` units, all of type 20. */
  ghost predicate MadeFor(layers: seq<seq<Nalu>>, t: int, ks: seq<nat>) {
    && |ks| == |layers| > 1 && ks[0] == 1
    && layers[0] != [] && layers[0][0] != [] && layers[0][0][0] % 32 == t
    && forall i :: 0 < i < |layers| ==>
         && ks[i] >= 1 && |layers[i]| == Count(layers[0], t) * ks[i]
         && forall d :: 0 <= d < |layers[i]| ==> layers[i][d] != [] && layers[i][d][0] % 32 == 20
  }

  /** With a base layer that opens with a unit of type 6, `merge` cuts access units at type 6. */
  lemma MergeCutsAtSix(layers: seq<seq<Nalu>>, ks: seq<nat>)
    requires MadeFor(layers, 6, ks)
    ensures Mergeable(layers)
    ensures Join(Units(layers, Merged(layers))) == Join(Aligned(layers, 6, ks, |Seps(layers[0], 6, |layers[0]|)|))
  {
    FirstIsCounted(layers[0], 6);
    MergeIsAligned(layers, 6, ks);
  }

  /** With a base layer that holds no unit of type 6 and opens with one of type 14, it cuts access
      units at type 14. */
  lemma MergeCutsAtFourteen(layers: seq<seq<Nalu>>, ks: seq<nat>)
    requires MadeFor(layers, 14, ks)
    requires forall d :: 0 <= d < |layers[0]| ==> layers[0][d] != [] ==> layers[0][d][0] % 32 != 6
    ensures Mergeable(layers)
    ensures Join(Units(layers, Merged(layers))) == Join(Aligned(layers, 14, ks, |Seps(layers[0], 14, |layers[0]|)|))
  {
    FirstIsCounted(layers[0], 14);
    NoneCounted(layers[0], 6);
    MergeIsAligned(layers, 14, ks);
  }

  lemma MergeIsAligned(layers: seq<seq<Nalu>>, t: int, ks: seq<nat>)
    requires MadeFor(layers, t, ks) && SepType(layers[0]) == t && Count(layers[0], t) > 0
    ensures Mergeable(layers)
    ensures Join(Units(layers, Merged(layers))) == Join(Aligned(layers, t, ks, |Seps(layers[0], t, |layers[0]|)|))
  {
    var a := Count(layers[0], t);
    forall i | 0 <= i < |layers| ensures Shares(layers)[i] == ks[i] && (i > 0 ==> MergeCounts(layers)[i] == a * ks[i]) {
      if i > 0 {
        CountBounds(layers[i], 20);
        DivExact(ks[i], a);
      } else {
        DivExact(1, a);
      }
    }
    assert Shares(layers) == ks;
    Alignment(layers);
  }

  lemma DivExact(k: nat, a: nat)
    requires a > 0
    ensures a * k / a == k
  {
    DivCompare(a * k, a, k);
    DivCompare(a * k, a, k + 1);
    assert (k + 1) * a == a * k + a;
  }

  lemma {:induction false} FirstIsCounted(ns: seq<Nalu>, t: int)
    requires ns != [] && TypeOf(ns[0]) == t
    ensures Count(ns, t) > 0
  {
    if |ns| > 1 { FirstIsCounted(ns[..|ns| - 1], t); }
  }

  lemma {:induction false} NoneCounted(ns: seq<Nalu>, t: int)
    requires forall d :: 0 <= d < |ns| ==> TypeOf(ns[d]) != t
    ensures Count(ns, t) == 0
  {
    if ns != [] { NoneCounted(ns[..|ns| - 1], t); }
  }

  /** An enhancement layer with a unit of another type: its last unit is written behind the last
      access unit. */
  lemma AlignmentFails()
    ensures var layers := [[[6]], [[20], [1]]];
            && Proportional(layers) && MergeCounts(layers)[0] == 1 == |Seps(layers[0], 6, 1)|
            && Join(Units(layers, Merged(layers))) != Join(Aligned(layers, 6, Shares(layers), 1))
  {
    var base: seq<Nalu>, enh: seq<Nalu> := [[6]], [[20], [1]];
    var layers := [base, enh];
    assert base[..0] == [] && Count(base, 6) == 1;
    assert enh[..1] == [[20]] && enh[..1][..0] == [];
    assert Count(enh[..1], 20) == 1 && Count(enh, 20) == 1;
    Alignment(layers);
    assert TypeOf(layers[1][1]) != 20;
  }

  // ----- demultiplexing -----

  /** The units whose type is (or is not) 20, in order. */
  ghost function Select(ns: seq<Nalu>, svc: bool): (ms: seq<Nalu>) {
    if ns == [] then []
    else Select(ns[..|ns| - 1], svc) + (if (TypeOf(ns[|ns| - 1]) == 20) == svc then [ns[|ns| - 1]] else [])
  }

  ghost predicate TypesTellLayers(layers: seq<seq<Nalu>>) {
    && |layers| == 2
    && (forall d :: 0 <= d < |layers[0]| ==> TypeOf(layers[0][d]) != 20)
    && (forall d :: 0 <= d < |layers[1]| ==> TypeOf(layers[1][d]) == 20)
  }

  lemma {:induction false} SelectFollowsLayers(layers: seq<seq<Nalu>>, rs: seq<Ref>, svc: bool)
    requires TypesTellLayers(layers) && Resolves(layers, rs)
    ensures var i := if svc then 1 else 0;
            Resolves(layers, Of(rs, i)) && Select(Units(layers, rs), svc) == Units(layers, Of(rs, i))
  {
    hide Of, Select, Units;
    if rs == [] {
      SelectNothing(layers, svc);
    } else {
      var front, last := rs[..|rs| - 1], rs[|rs| - 1];
      SelectFollowsLayers(layers, front, svc);
      SelectSnoc(layers, front, last, svc);
      assert front + [last] == rs;
    }
  }

  lemma SelectNothing(layers: seq<seq<Nalu>>, svc: bool)
    ensures Of([], if svc then 1 else 0) == [] && Units(layers, []) == [] && Select([], svc) == []
  {
  }

  lemma SelectSnoc(layers: seq<seq<Nalu>>, rs: seq<Ref>, r: Ref, svc: bool)
    requires TypesTellLayers(layers) && Resolves(layers, rs) && r.layer < |layers| && r.index < |layers[r.layer]|
    requires var i := if svc then 1 else 0; Resolves(layers, Of(rs, i)) && Select(Units(layers, rs), svc) == Units(layers, Of(rs, i))
    ensures var i := if svc then 1 else 0;
            && Resolves(layers, rs + [r]) && Resolves(layers, Of(rs + [r], i))
            && Select(Units(layers, rs + [r]), svc) == Units(layers, Of(rs + [r], i))
  {
    var i := if svc then 1 else 0;
    var n := layers[r.layer][r.index];
    assert (TypeOf(n) == 20) == svc <==> r.layer == i;
    OfSnoc(rs, r, i);
    UnitsSnoc(layers, rs, r);
    SelectOne(Units(layers, rs), n, svc);
    if r.layer == i { UnitsSnoc(layers, Of(rs, i), r); }
  }

  lemma OfSnoc(rs: seq<Ref>, r: Ref, i: nat)
    ensures Of(rs + [r], i) == if r.layer == i then Of(rs, i) + [r] else Of(rs, i)
  {
    assert (rs + [r])[..|rs|] == rs;
  }

  lemma UnitsSnoc(layers: seq<seq<Nalu>>, rs: seq<Ref>, r: Ref)
    requires Resolves(layers, rs) && r.layer < |layers| && r.index < |layers[r.layer]|
    ensures Resolves(layers, rs + [r]) && Units(layers, rs + [r]) == Units(layers, rs) + [layers[r.layer][r.index]]
  {
    UnitsConcat(layers, rs, [r]);
    assert Units(layers, [r]) == [layers[r.layer][r.index]];
  }

  lemma SelectOne(ns: seq<Nalu>, n: Nalu, svc: bool)
    ensures Select(ns + [n], svc) == if (TypeOf(n) == 20) == svc then Select(ns, svc) + [n] else Select(ns, svc)
  {
    assert (ns + [n])[..|ns|] == ns;
  }

  /** Demultiplexing undoes merging, on bytes. With two layers told apart by their unit types,
      re-splitting the whole output file gives the units of the initialisation segment followed by
      the merged ones; selecting by type always gives the base layer back, and gives the
      enhancement layer back exactly when it is empty or has a unit for every access unit. */
  lemma DemuxUndoesMerge(layerGroup: seq<Bytes>, initLayer: Bytes)
    requires Mergeable(Layers(layerGroup)) && TypesTellLayers(Layers(layerGroup))
    ensures var ls := Layers(layerGroup);
            var us := Units(ls, Merged(ls));
            && Split(initLayer + Join(us)) == Split(initLayer) + us
            && Select(us, false) == ls[0]
            && (Select(us, true) == ls[1] <==> |ls[1]| == 0 || |ls[1]| >= MergeCounts(ls)[0])
  {
    var ls := Layers(layerGroup);
    var us := Units(ls, Merged(ls));
    forall d | 0 <= d < |us| ensures SepFree(us[d]) {
      JoinUndoesSplit(layerGroup[Merged(ls)[d].layer]);
    }
    SplitUndoesJoin(initLayer, us);
    SelectFollowsLayers(ls, Merged(ls), false);
    BaseNeverCutShort(ls);
    UnitsOfRange(ls, 0, 0, |ls[0]|);
    SelectFollowsLayers(ls, Merged(ls), true);
    SecondLayerComplete(ls);
  }

  /** Two access units and one enhancement unit: the unit is lost. */
  lemma DemuxFails(initLayer: Bytes)
    ensures var base: seq<Nalu>, enh: seq<Nalu> := [[6], [6]], [[20]];
            var layerGroup := [Join(base), Join(enh)];
            && Layers(layerGroup) == [base, enh] && Mergeable([base, enh])
            && Select(Units([base, enh], Merged([base, enh])), true) != enh
  {
    var base: seq<Nalu>, enh: seq<Nalu> := [[6], [6]], [[20]];
    var layerGroup := [Join(base), Join(enh)];
    SplitOfJoin(base);
    SplitOfJoin(enh);
    assert Layers(layerGroup) == [base, enh];
    assert base[..1] == [[6]] && base[..1][..0] == [];
    assert Count(base[..1], 6) == 1 && Count(base, 6) == 2;
    DemuxUndoesMerge(layerGroup, initLayer);
  }

  lemma SplitOfJoin(ns: seq<Nalu>)
    requires AllSepFree(ns)
    ensures Split(Join(ns)) == ns
  {
    SplitUndoesJoin([], ns);
    assert [] + Join(ns) == Join(ns) && Split([]) == [];
  }

  lemma PassedByNext(l: nat, k: nat)
    requires k > 0
    ensures l <= (l / k + 1) * k
  {
    DivCompare(l, k, l / k + 1);
  }

  lemma SecondLayerComplete(ls: seq<seq<Nalu>>)
    requires Mergeable(ls) && TypesTellLayers(ls)
    ensures Resolves(ls, Of(Merged(ls), 1))
    ensures Units(ls, Of(Merged(ls), 1)) == ls[1] <==> |ls[1]| == 0 || |ls[1]| >= MergeCounts(ls)[0]
  {
    hide Pos, Passes, Units, Of;
    var counts, ks, t := MergeCounts(ls), Shares(ls), SepType(ls[0]);
    var p := Pos(ls, ks, t, 1, Passes(ls, ks, t));
    LayersInterleave(ls, ks, t, Passes(ls, ks, t), 1);
    UnitsOfRange(ls, 1, 0, p);
    CountBounds(ls[1], 20);
    CompleteAtEnd(ls, ks, t, 1);
    DivCompare(counts[1], counts[0], 1);
    if ks[1] > 0 {
      assert Lead(ks, |ks|) == 1;
      PassedByNext(|ls[1]|, ks[1]);
    }
    assert ls[1][0..p] == ls[1] <==> p == |ls[1]|;
  }
}
