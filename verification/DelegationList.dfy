/** `ndn::DelegationList`: a vector of (preference, name) pairs that is kept in order while
    `isSorted` is set, with three policies for duplicate names and a TLV codec. */
module DelegationLists {
  import opened Basics
  import opened Tlv
  import opened NdnName
  import opened NameOrder

  datatype Delegation = Delegation(preference: nat, name: Name)

  // ----- the order of delegation.hpp -----

  predicate Less(a: Delegation, b: Delegation) {
    a.preference < b.preference || (a.preference == b.preference && CompareNames(a.name, b.name) < 0)
  }

  predicate Leq(a: Delegation, b: Delegation) {
    !Less(b, a)
  }

  // ----- when it is an order -----

  /** The delegations of a set can be put in order: all their components have wires, or those that
      have wires compare canonically. */
  ghost predicate OneOrder(us: set<Delegation>) {
    AllWired(us) || forall d <- us, e <- us :: Agreeing(d.name, e.name)
  }

  ghost predicate AllWired(us: set<Delegation>) {
    forall d <- us :: Wired(d.name)
  }

  /** What the order goes by: the wires, or the minimal encodings. */
  ghost function Key(us: set<Delegation>, d: Delegation): Name {
    if AllWired(us) then d.name else Canonical(d.name)
  }

  lemma LessByKey(us: set<Delegation>, a: Delegation, b: Delegation)
    requires OneOrder(us) && a in us && b in us
    ensures CompareNames(a.name, b.name) == CompareWrittenNames(Key(us, a), Key(us, b))
  {
    if AllWired(us) {
      WiredNames(a.name, b.name);
    } else {
      AgreeingNames(a.name, b.name);
    }
  }

  lemma LeqTransitive(us: set<Delegation>, a: Delegation, b: Delegation, c: Delegation)
    requires OneOrder(us) && a in us && b in us && c in us
    requires Leq(a, b) && Leq(b, c)
    ensures Leq(a, c)
  {
    hide OneOrder, Key;
    NamesFlip(a.name, b.name);
    NamesFlip(b.name, c.name);
    NamesFlip(a.name, c.name);
    LessByKey(us, a, b);
    LessByKey(us, b, c);
    LessByKey(us, a, c);
    if a.preference == b.preference == c.preference { NamesTransitive(Key(us, a), Key(us, b), Key(us, c)); }
  }

  lemma LeqAntisymmetric(a: Delegation, b: Delegation)
    requires Wired(a.name) && Wired(b.name)
    requires Leq(a, b) && Leq(b, a)
    ensures a == b
  {
    NamesFlip(a.name, b.name);
    WiredNames(a.name, b.name);
    NamesZero(a.name, b.name);
  }

  lemma LessIsLeq(a: Delegation, b: Delegation)
    requires Less(a, b)
    ensures Leq(a, b)
  {
    NamesFlip(a.name, b.name);
  }

  predicate Sorted(ds: seq<Delegation>) {
    forall i, j :: 0 <= i < j < |ds| ==> Leq(ds[i], ds[j])
  }

  // ----- insertion -----

  /** `std::upper_bound`: the first position whose delegation comes after `d`. */
  function UpperBound(ds: seq<Delegation>, d: Delegation): (p: nat)
    ensures p <= |ds|
    ensures p < |ds| ==> Less(d, ds[p])
    ensures forall i :: 0 <= i < p ==> Leq(ds[i], d)
  {
    if ds == [] || Less(d, ds[0]) then 0 else 1 + UpperBound(ds[1..], d)
  }

  /** `insertImpl`, on values. */
  function Place(ds: seq<Delegation>, d: Delegation, isSorted: bool): (r: seq<Delegation>) {
    if isSorted then var p := UpperBound(ds, d); ds[..p] + [d] + ds[p..] else ds + [d]
  }

  function PlaceAll(acc: seq<Delegation>, ds: seq<Delegation>, isSorted: bool): (r: seq<Delegation>)
    decreases |ds|
  {
    if ds == [] then acc else PlaceAll(Place(acc, ds[0], isSorted), ds[1..], isSorted)
  }

  ghost predicate Among(ds: seq<Delegation>, us: set<Delegation>) {
    forall i :: 0 <= i < |ds| ==> ds[i] in us
  }

  lemma PlaceSorted(us: set<Delegation>, ds: seq<Delegation>, d: Delegation)
    requires OneOrder(us) && Among(ds, us) && d in us
    requires Sorted(ds)
    ensures Sorted(Place(ds, d, true))
  {
    hide Leq, Less, OneOrder;
    var p := UpperBound(ds, d);
    var r := Place(ds, d, true);
    forall i, j | 0 <= i < j < |r| ensures Leq(r[i], r[j]) {
      if i == p {
        LessIsLeq(d, ds[p]);
        if j > p + 1 { LeqTransitive(us, d, ds[p], ds[j - 1]); }
      } else if j == p {
      } else {
        assert r[i] == ds[if i < p then i else i - 1] && r[j] == ds[if j < p then j else j - 1];
      }
    }
  }

  lemma PlaceMultiset(ds: seq<Delegation>, d: Delegation, isSorted: bool)
    ensures multiset(Place(ds, d, isSorted)) == multiset(ds) + multiset{d}
  {
    if isSorted {
      var p := UpperBound(ds, d);
      assert ds == ds[..p] + ds[p..];
    }
  }

  lemma PlaceAmong(us: set<Delegation>, ds: seq<Delegation>, d: Delegation, isSorted: bool)
    requires Among(ds, us) && d in us
    ensures Among(Place(ds, d, isSorted), us)
  {
  }

  lemma {:induction false} PlaceAllSorted(us: set<Delegation>, acc: seq<Delegation>, ds: seq<Delegation>)
    requires OneOrder(us) && Among(acc, us) && Among(ds, us)
    requires Sorted(acc)
    ensures Sorted(PlaceAll(acc, ds, true))
    decreases |ds|
  {
    hide OneOrder, Sorted, Place;
    if ds != [] {
      PlaceSorted(us, acc, ds[0]);
      PlaceAmong(us, acc, ds[0], true);
      PlaceAllSorted(us, Place(acc, ds[0], true), ds[1..]);
    }
  }

  lemma {:induction false} PlaceAllAmong(us: set<Delegation>, acc: seq<Delegation>, ds: seq<Delegation>, isSorted: bool)
    requires Among(acc, us) && Among(ds, us)
    ensures Among(PlaceAll(acc, ds, isSorted), us)
    decreases |ds|
  {
    hide Place;
    if ds != [] {
      PlaceAmong(us, acc, ds[0], isSorted);
      PlaceAllAmong(us, Place(acc, ds[0], isSorted), ds[1..], isSorted);
    }
  }

  /** A list in order stays as it is: each delegation goes behind those before it. */
  lemma {:induction false} PlaceAllInOrder(acc: seq<Delegation>, ds: seq<Delegation>)
    requires Sorted(acc + ds)
    ensures PlaceAll(acc, ds, true) == acc + ds
    decreases |ds|
  {
    if ds == [] {
      assert acc + ds == acc;
    } else {
      var d := ds[0];
      forall i | 0 <= i < |acc| ensures !Less(d, acc[i]) {
        assert (acc + ds)[i] == acc[i] && (acc + ds)[|acc|] == d;
      }
      assert UpperBound(acc, d) == |acc|;
      assert acc + [d] + ds[1..] == acc + ds;
      assert acc[..|acc|] + [d] + acc[|acc|..] == acc + [d];
      PlaceAllInOrder(acc + [d], ds[1..]);
    }
  }

  lemma {:induction false} PlaceAllMultiset(acc: seq<Delegation>, ds: seq<Delegation>, isSorted: bool)
    ensures multiset(PlaceAll(acc, ds, isSorted)) == multiset(acc) + multiset(ds)
    decreases |ds|
  {
    if ds != [] {
      PlaceMultiset(acc, ds[0], isSorted);
      PlaceAllMultiset(Place(acc, ds[0], isSorted), ds[1..], isSorted);
      assert ds == [ds[0]] + ds[1..];
    }
  }

  lemma {:induction false} PlaceAllUnsorted(acc: seq<Delegation>, ds: seq<Delegation>)
    ensures PlaceAll(acc, ds, false) == acc + ds
    decreases |ds|
  {
    if ds != [] {
      PlaceAllUnsorted(acc + [ds[0]], ds[1..]);
      assert acc + [ds[0]] + ds[1..] == acc + ds;
    }
  }

  lemma HeadIsLeast(ds: seq<Delegation>, d: Delegation)
    requires Sorted(ds) && d in multiset(ds)
    ensures ds != [] && Leq(ds[0], d)
  {
    NamesFlip(d.name, d.name);
    var i :| 0 <= i < |ds| && ds[i] == d;
  }

  lemma SortedTail(ds: seq<Delegation>)
    requires Sorted(ds) && ds != []
    ensures Sorted(ds[1..])
  {
    hide Leq;
  }

  lemma TailMultiset(ds: seq<Delegation>)
    requires ds != []
    ensures multiset(ds[1..]) == multiset(ds) - multiset{ds[0]}
  {
    assert ds == [ds[0]] + ds[1..];
  }

  /** The order of the wires is total, so a sorted list is determined by what it holds. */
  lemma {:induction false} SortedIsUnique(a: seq<Delegation>, b: seq<Delegation>)
    requires (forall d <- a :: Wired(d.name)) && (forall d <- b :: Wired(d.name))
    requires Sorted(a) && Sorted(b) && multiset(a) == multiset(b)
    ensures a == b
    decreases |a|
  {
    hide Leq, Less, Wired, Sorted;
    assert |a| == |multiset(a)| == |multiset(b)| == |b|;
    if a != [] {
      assert a[0] in multiset(b) && b[0] in multiset(a);
      HeadIsLeast(a, b[0]);
      HeadIsLeast(b, a[0]);
      LeqAntisymmetric(a[0], b[0]);
      TailMultiset(a);
      TailMultiset(b);
      SortedTail(a);
      SortedTail(b);
      SortedIsUnique(a[1..], b[1..]);
      assert a == [a[0]] + a[1..] && b == [b[0]] + b[1..];
    }
  }

  /** Inserting a list into an empty sorted list puts it in order; a list in order stays as it is. */
  lemma SortingSorts(us: set<Delegation>, ds: seq<Delegation>)
    requires OneOrder(us) && Among(ds, us)
    ensures Sorted(PlaceAll([], ds, true)) && multiset(PlaceAll([], ds, true)) == multiset(ds)
    ensures PlaceAll([], ds, true) == ds <==> Sorted(ds)
  {
    hide OneOrder;
    PlaceAllSorted(us, [], ds);
    PlaceAllMultiset([], ds, true);
    assert [] + ds == ds;
    if Sorted(ds) { PlaceAllInOrder([], ds); }
  }

  /** The delegations of a list. */
  ghost function Members(ds: seq<Delegation>): (us: set<Delegation>)
    ensures Among(ds, us)
  {
    set d | d in ds
  }

  lemma SortingWired(ds: seq<Delegation>)
    requires forall d <- ds :: Wired(d.name)
    ensures Sorted(PlaceAll([], ds, true)) && multiset(PlaceAll([], ds, true)) == multiset(ds)
    ensures PlaceAll([], ds, true) == ds <==> Sorted(ds)
  {
    SortingSorts(Members(ds), ds);
  }

  // ----- erasure -----

  predicate Matches(d: Delegation, preference: Option<nat>, name: Name) {
    (preference.None? || d.preference == preference.value) && SameName(d.name, name)
  }

  /** What `eraseImpl` leaves: the delegations that do not match, in their order. */
  function Survivors(ds: seq<Delegation>, preference: Option<nat>, name: Name): (r: seq<Delegation>)
    ensures |r| <= |ds|
    ensures forall i :: 0 <= i < |r| ==> r[i] in ds && !Matches(r[i], preference, name)
  {
    if ds == [] then []
    else (if Matches(ds[0], preference, name) then [] else [ds[0]]) + Survivors(ds[1..], preference, name)
  }

  function Matching(ds: seq<Delegation>, preference: Option<nat>, name: Name): (n: nat) {
    if ds == [] then 0
    else (if Matches(ds[0], preference, name) then 1 else 0) + Matching(ds[1..], preference, name)
  }

  lemma {:induction false} SurvivorsStaySorted(ds: seq<Delegation>, preference: Option<nat>, name: Name)
    requires Sorted(ds)
    ensures Sorted(Survivors(ds, preference, name))
  {
    if ds != [] {
      SurvivorsStaySorted(ds[1..], preference, name);
      var rest := Survivors(ds[1..], preference, name);
      forall i | 0 <= i < |rest| ensures Leq(ds[0], rest[i]) {
        var k :| 0 <= k < |ds[1..]| && ds[1..][k] == rest[i];
        assert rest[i] == ds[k + 1];
      }
    }
  }

  /** Erasing conserves: every delegation that does not match keeps its multiplicity, none that
      matches is left, and the count returned is the number of those. */
  lemma {:induction false} ErasureConserves(ds: seq<Delegation>, preference: Option<nat>, name: Name, d: Delegation)
    ensures |Survivors(ds, preference, name)| + Matching(ds, preference, name) == |ds|
    ensures multiset(Survivors(ds, preference, name))[d] == if Matches(d, preference, name) then 0 else multiset(ds)[d]
  {
    hide Matches;
    if ds != [] {
      ErasureConserves(ds[1..], preference, name, d);
      TailMultiset(ds);
      var head := if Matches(ds[0], preference, name) then [] else [ds[0]];
      assert multiset(Survivors(ds, preference, name)) == multiset(head) + multiset(Survivors(ds[1..], preference, name));
    }
  }

  ghost predicate DistinctNames(ds: seq<Delegation>) {
    forall i, j :: 0 <= i < j < |ds| ==> !SameName(ds[i].name, ds[j].name)
  }

  lemma {:induction false} SurvivorsStayDistinct(ds: seq<Delegation>, preference: Option<nat>, name: Name)
    requires DistinctNames(ds)
    ensures DistinctNames(Survivors(ds, preference, name))
  {
    if ds != [] {
      SurvivorsStayDistinct(ds[1..], preference, name);
      var rest := Survivors(ds[1..], preference, name);
      forall i | 0 <= i < |rest| ensures !SameName(ds[0].name, rest[i].name) {
        var k :| 0 <= k < |ds[1..]| && ds[1..][k] == rest[i];
        assert rest[i] == ds[k + 1];
      }
    }
  }

  lemma PlaceDistinct(ds: seq<Delegation>, d: Delegation, isSorted: bool)
    requires DistinctNames(ds) && forall i :: 0 <= i < |ds| ==> !SameName(ds[i].name, d.name)
    ensures DistinctNames(Place(ds, d, isSorted))
  {
  }

  // ----- the codec -----

  const NAME := 7
  const CONTENT := 21
  const FORWARDING_HINT := 30
  const LINK_DELEGATION := 31
  const LINK_PREFERENCE := 30

  datatype Error =
    | InvalidType | EmptyList | Malformed | NotADelegation
    | MissingPreference | InvalidPreference | MissingName | InvalidName

  datatype Result<T> = Ok(value: T) | Err(error: Error)

  predicate IsValidTlvType(typ: nat) {
    typ == CONTENT || typ == FORWARDING_HINT
  }

  /** `Name::wireEncode`, which writes every component anew, with minimal headers. */
  function NameElement(name: Name): (e: Element) {
    Element(NAME, EncodeAll(PlainName(name)))
  }

  function Fields(d: Delegation): (es: seq<Element>) {
    [Element(LINK_PREFERENCE, Integer(d.preference)), NameElement(d.name)]
  }

  /** The grammar of a delegation: its preference, then its name. */
  function DelegationElement(d: Delegation): (e: Element) {
    Element(LINK_DELEGATION, EncodeAll(Fields(d)))
  }

  function Elements(ds: seq<Delegation>): (es: seq<Element>)
    ensures |es| == |ds|
    ensures forall i :: 0 <= i < |ds| ==> es[i] == DelegationElement(ds[i])
  {
    seq(|ds|, i requires 0 <= i < |ds| => DelegationElement(ds[i]))
  }

  /** The wire form of a list, read forwards. */
  function ListElement(typ: nat, ds: seq<Delegation>): (e: Element) {
    Element(typ, EncodeAll(Elements(ds)))
  }

  /** Numbers fit 64 bits, and so do the lengths of all parts. */
  ghost predicate Encodable(d: Delegation) {
    d.preference < U64 && AllLegal(PlainName(d.name)) && |EncodeAll(PlainName(d.name))| < U64 && Legal(DelegationElement(d))
  }

  ghost predicate AllEncodable(ds: seq<Delegation>) {
    forall i :: 0 <= i < |ds| ==> Encodable(ds[i])
  }

  function DecodeDelegation(e: Element): (r: Result<Delegation>) {
    if e.typ != LINK_DELEGATION then Err(NotADelegation)
    else match Parse(e.value)
      case None => Err(Malformed)
      case Some(es) =>
        if es == [] || es[0].typ != LINK_PREFERENCE then Err(MissingPreference)
        else if ReadInteger(es[0].value).None? then Err(InvalidPreference)
        else if |es| < 2 || es[1].typ != NAME then Err(MissingName)
        else match ParseName(es[1].value)
          case None => Err(InvalidName)
          case Some(name) => Ok(Delegation(ReadInteger(es[0].value).value, name))
  }

  /** A delegation as it comes back from its encoding: the same, with minimal headers. */
  function Rewritten(d: Delegation): (r: Delegation)
    ensures r.preference == d.preference && SameName(r.name, d.name)
  {
    d.(name := Canonical(d.name))
  }

  function RewrittenAll(ds: seq<Delegation>): (r: seq<Delegation>)
    ensures |r| == |ds| && forall i :: 0 <= i < |ds| ==> r[i] == Rewritten(ds[i])
  {
    seq(|ds|, i requires 0 <= i < |ds| => Rewritten(ds[i]))
  }

  /** `operator==` of lists: equal preferences and equal names in the same order. */
  predicate SameDelegations(a: seq<Delegation>, b: seq<Delegation>) {
    RewrittenAll(a) == RewrittenAll(b)
  }

  /** Decoding the two fields of a delegation, whatever the name's TLV-VALUE is. */
  lemma DecodePair(preference: nat, value: Bytes)
    requires preference < U64 && |value| < U64
    ensures DecodeDelegation(Element(LINK_DELEGATION, EncodeAll([Element(LINK_PREFERENCE, Integer(preference)), Element(NAME, value)])))
            == match ParseName(value) case None => Err(InvalidName) case Some(name) => Ok(Delegation(preference, name))
  {
    hide ParseName, Parse, EncodeAll, ReadInteger, Integer;
    ReadUndoesInteger(preference);
    ParseUndoesEncode([Element(LINK_PREFERENCE, Integer(preference)), Element(NAME, value)]);
  }

  lemma DecodeUndoesEncode(d: Delegation)
    requires Encodable(d)
    ensures DecodeDelegation(DelegationElement(d)) == Ok(Rewritten(d))
  {
    ParseUndoesEncodeName(d.name);
    DecodePair(d.preference, EncodeAll(PlainName(d.name)));
  }

  /** A delegation as another encoder may write it: components in whatever widths they have. */
  function Received(d: Delegation): (e: Element)
    requires forall i :: 0 <= i < |d.name| ==> WireOk(d.name[i])
  {
    Element(LINK_DELEGATION, EncodeAll([Element(LINK_PREFERENCE, Integer(d.preference)), Element(NAME, Wires(d.name))]))
  }

  /** Decoding keeps those widths. */
  lemma ReceivedDecodes(d: Delegation)
    requires d.preference < U64 && forall i :: 0 <= i < |d.name| ==> WireOk(d.name[i])
    requires |Wires(d.name)| < U64
    ensures DecodeDelegation(Received(d)) == Ok(d)
  {
    hide DecodeDelegation, ParseName, Wires, WireOk;
    ParseUndoesWires(d.name);
    DecodePair(d.preference, Wires(d.name));
  }

  /** The delegations decoded before the first element that is not one, and the error it causes. */
  function DecodeAll(es: seq<Element>): (r: (seq<Delegation>, Option<Error>))
  {
    if es == [] then ([], None)
    else match DecodeDelegation(es[0])
      case Err(error) => ([], Some(error))
      case Ok(d) => var (ds, error) := DecodeAll(es[1..]); ([d] + ds, error)
  }

  lemma {:induction false} DecodeAllUndoesEncode(ds: seq<Delegation>)
    requires AllEncodable(ds)
    ensures DecodeAll(Elements(ds)) == (RewrittenAll(ds), None)
  {
    hide DecodeDelegation, DelegationElement, Encodable;
    if ds != [] {
      DecodeUndoesEncode(ds[0]);
      assert Elements(ds)[1..] == Elements(ds[1..]);
      DecodeAllUndoesEncode(ds[1..]);
      assert RewrittenAll(ds) == [Rewritten(ds[0])] + RewrittenAll(ds[1..]);
    }
  }

  /** The two fields of the list object. */
  datatype List = List(isSorted: bool, dels: seq<Delegation>)

  ghost predicate InOrder(l: List) {
    l.isSorted ==> Sorted(l.dels)
  }

  /** `wireDecode`: what becomes of the list, and the error thrown, if any. The list is replaced
      as soon as the type of the block is right, so a later error leaves the part decoded by then. */
  function Decode(l: List, block: Element, wantSort: bool): (r: (List, Option<Error>)) {
    if !IsValidTlvType(block.typ) then (l, Some(InvalidType))
    else match Parse(block.value)
      case None => (List(wantSort, []), Some(Malformed))
      case Some(es) =>
        var (ds, error) := DecodeAll(es);
        (List(wantSort, PlaceAll([], ds, wantSort)),
         if error.Some? then error else if ds == [] then Some(EmptyList) else None)
  }

  /** Decoding what was encoded gives the list back; asked to sort, the list in order. */
  lemma DecodeEncoded(l: List, typ: nat, ds: seq<Delegation>, wantSort: bool)
    requires IsValidTlvType(typ) && ds != [] && AllEncodable(ds)
    ensures Decode(l, ListElement(typ, ds), wantSort)
            == (List(wantSort, if wantSort then PlaceAll([], RewrittenAll(ds), true) else RewrittenAll(ds)), None)
  {
    var es := Elements(ds);
    assert AllLegal(es);
    ParseUndoesEncode(es);
    DecodeAllUndoesEncode(ds);
    var rs := RewrittenAll(ds);
    PlaceAllUnsorted([], rs);
    assert [] + rs == rs;
  }

  lemma RewrittenWired(ds: seq<Delegation>)
    ensures forall d <- RewrittenAll(ds) :: Wired(d.name)
  {
    forall i | 0 <= i < |ds| ensures Wired(RewrittenAll(ds)[i].name) {
      CanonicalIsWired(ds[i].name);
    }
  }

  lemma RewrittenTwice(ds: seq<Delegation>, rs: seq<Delegation>)
    requires forall d <- rs :: d in RewrittenAll(ds)
    ensures RewrittenAll(rs) == rs
  {
    forall i | 0 <= i < |rs| ensures Rewritten(rs[i]) == rs[i] {
      assert rs[i] in RewrittenAll(ds);
      var k :| 0 <= k < |ds| && rs[i] == RewrittenAll(ds)[k];
      assert PlainName(Canonical(ds[k].name)) == PlainName(ds[k].name);
    }
  }

  /** The round trip: it gives back an equal list exactly when sorting is not asked for or the
      list, written with minimal headers, is in order. */
  lemma RoundTrip(l: List, typ: nat, ds: seq<Delegation>, wantSort: bool)
    requires IsValidTlvType(typ) && ds != [] && AllEncodable(ds)
    ensures var (l', error) := Decode(l, ListElement(typ, ds), wantSort);
            && error.None? && l'.isSorted == wantSort
            && multiset(RewrittenAll(l'.dels)) == multiset(RewrittenAll(ds))
            && (SameDelegations(l'.dels, ds) <==> !wantSort || Sorted(RewrittenAll(ds)))
  {
    hide Decode, Sorted, PlaceAll, Rewritten;
    DecodeEncoded(l, typ, ds, wantSort);
    var rs := RewrittenAll(ds);
    var dels := Decode(l, ListElement(typ, ds), wantSort).0.dels;
    RewrittenWired(ds);
    SortingWired(rs);
    assert multiset(dels) == multiset(rs);
    forall d <- dels ensures d in rs {
      assert d in multiset(dels);
    }
    RewrittenTwice(ds, dels);
    RewrittenTwice(ds, rs);
  }

  /** A list whose headers are minimal already comes back as it is, to the byte. */
  lemma MinimalRoundTrip(l: List, typ: nat, ds: seq<Delegation>, wantSort: bool)
    requires IsValidTlvType(typ) && ds != [] && AllEncodable(ds) && RewrittenAll(ds) == ds
    ensures Decode(l, ListElement(typ, ds), wantSort) == (List(wantSort, ds), None) <==> !wantSort || Sorted(ds)
  {
    DecodeEncoded(l, typ, ds, wantSort);
    RewrittenWired(ds);
    SortingWired(ds);
  }

  /** Other lists need not: in order as received, with a long form behind a longer component, they
      come back in another order. */
  lemma LongFormsReorder(preference: nat, a: Bytes, b: Bytes)
    requires |a| < |b| < 253
    ensures var ds := [Delegation(preference, [Component(8, b, 1, 1)]), Delegation(preference, [Component(8, a, 1, 3)])];
            Sorted(ds) && !Sorted(RewrittenAll(ds))
  {
    var long, short := Component(8, a, 1, 3), Component(8, b, 1, 1);
    var ds := [Delegation(preference, [short]), Delegation(preference, [long])];
    assert CompareWritten(short, long) == -1 && CompareWritten(long, short) == 1;
    assert CompareNames([long], [short]) == 1;
    assert Sorted(ds);
    var rs := RewrittenAll(ds);
    assert Minimal(Plain(long)) == Component(8, a, 1, 1) && Minimal(Plain(short)) == short;
    assert rs[0].name == [short] && rs[1].name == [Component(8, a, 1, 1)];
    assert CompareNames(rs[1].name, rs[0].name) == -1;
    assert Less(rs[1], rs[0]);
  }

  /** `sort`, on values. */
  function SortList(l: List): (r: List) {
    if l.isSorted then l else List(true, PlaceAll([], l.dels, true))
  }

  /** Decoding a block unsorted and sorting afterwards is the same as decoding it sorted, also when
      decoding fails half-way. */
  lemma SortAfterDecode(l: List, block: Element)
    requires IsValidTlvType(block.typ)
    ensures SortList(Decode(l, block, false).0) == Decode(l, block, true).0
    ensures Decode(l, block, false).1 == Decode(l, block, true).1
  {
    var parsed := Parse(block.value);
    if parsed.Some? {
      var (ds, error) := DecodeAll(parsed.value);
      PlaceAllUnsorted([], ds);
      assert [] + ds == ds;
    }
  }

  /** The order of the delegations on the wire does not matter to a sorted decode. */
  lemma SortedDecodeForgetsOrder(l: List, typ: nat, ds: seq<Delegation>, es: seq<Delegation>)
    requires IsValidTlvType(typ) && ds != [] && AllEncodable(ds) && AllEncodable(es)
    requires multiset(RewrittenAll(ds)) == multiset(RewrittenAll(es))
    ensures Decode(l, ListElement(typ, ds), true) == Decode(l, ListElement(typ, es), true)
  {
    var ds', es' := RewrittenAll(ds), RewrittenAll(es);
    assert |ds'| == |multiset(ds')| == |multiset(es')| == |es'|;
    DecodeEncoded(l, typ, ds, true);
    DecodeEncoded(l, typ, es, true);
    RewrittenWired(ds);
    RewrittenWired(es);
    SortingWired(ds');
    SortingWired(es');
    var a, b := PlaceAll([], ds', true), PlaceAll([], es', true);
    forall d <- a ensures d in ds' {
      assert d in multiset(a);
    }
    forall d <- b ensures d in es' {
      assert d in multiset(b);
    }
    SortedIsUnique(a, b);
  }

  // ----- every run of operations -----

  datatype Policy = Replace | Append | Skip

  datatype Op =
    | Insert(d: Delegation, policy: Policy)
    | Erase(preference: Option<nat>, name: Name)
    | Sort
    | WireDecode(block: Element, wantSort: bool)

  predicate HasName(ds: seq<Delegation>, name: Name) {
    exists i :: 0 <= i < |ds| && SameName(ds[i].name, name)
  }

  function InsertList(l: List, d: Delegation, policy: Policy): (r: List) {
    match policy
    case Replace => l.(dels := Place(Survivors(l.dels, None, d.name), d, l.isSorted))
    case Append => l.(dels := Place(l.dels, d, l.isSorted))
    case Skip => if HasName(l.dels, d.name) then l else l.(dels := Place(l.dels, d, l.isSorted))
  }

  function Apply(l: List, op: Op): (r: List) {
    match op
    case Insert(d, policy) => InsertList(l, d, policy)
    case Erase(preference, name) => l.(dels := Survivors(l.dels, preference, name))
    case Sort => SortList(l)
    case WireDecode(block, wantSort) => Decode(l, block, wantSort).0
  }

  function ApplyAll(l: List, ops: seq<Op>): (r: List)
    decreases |ops|
  {
    if ops == [] then l else ApplyAll(Apply(l, ops[0]), ops[1..])
  }

  /** The delegations an operation brings in. */
  ghost predicate Brings(op: Op, us: set<Delegation>) {
    match op
    case Insert(d, _) => d in us
    case WireDecode(block, _) => Parse(block.value).Some? ==> Among(DecodeAll(Parse(block.value).value).0, us)
    case _ => true
  }

  lemma ApplyKeepsOrder(us: set<Delegation>, l: List, op: Op)
    requires OneOrder(us) && Among(l.dels, us) && Brings(op, us)
    requires InOrder(l)
    ensures InOrder(Apply(l, op)) && Among(Apply(l, op).dels, us)
  {
    hide OneOrder, Sorted, Place, PlaceAll;
    match op
    case Insert(d, policy) =>
      var rest := Survivors(l.dels, None, d.name);
      PlaceAmong(us, rest, d, l.isSorted);
      PlaceAmong(us, l.dels, d, l.isSorted);
      if l.isSorted {
        SurvivorsStaySorted(l.dels, None, d.name);
        PlaceSorted(us, rest, d);
        PlaceSorted(us, l.dels, d);
      }
    case Erase(preference, name) =>
      if l.isSorted { SurvivorsStaySorted(l.dels, preference, name); }
    case Sort =>
      NothingSorted();
      PlaceAllSorted(us, [], l.dels);
      PlaceAllAmong(us, [], l.dels, true);
    case WireDecode(block, wantSort) =>
      NothingSorted();
      if IsValidTlvType(block.typ) && Parse(block.value).Some? {
        var ds := DecodeAll(Parse(block.value).value).0;
        PlaceAllAmong(us, [], ds, wantSort);
        if wantSort { PlaceAllSorted(us, [], ds); }
      }
  }

  lemma NothingSorted()
    ensures Sorted([])
  {
  }

  /** After any sequence of operations, failed decodes included, a list that calls itself sorted is
      in order, provided the delegations that occur can be put in order at all. */
  lemma {:induction false} EveryRunInOrder(us: set<Delegation>, l: List, ops: seq<Op>)
    requires OneOrder(us) && Among(l.dels, us) && forall i :: 0 <= i < |ops| ==> Brings(ops[i], us)
    requires InOrder(l)
    ensures InOrder(ApplyAll(l, ops))
    decreases |ops|
  {
    hide OneOrder, Brings, InOrder, Apply;
    if ops != [] {
      ApplyKeepsOrder(us, l, ops[0]);
      EveryRunInOrder(us, Apply(l, ops[0]), ops[1..]);
    }
  }

  /** They can if every component has a wire, as every decoded one has; or if no header is longer
      than necessary, whether there are wires or not. */
  lemma WhenInOrder(us: set<Delegation>)
    ensures (forall d <- us :: Wired(d.name)) ==> OneOrder(us)
    ensures (forall d <- us :: Short(d.name)) ==> OneOrder(us)
  {
    if forall d <- us :: Short(d.name) {
      forall d <- us, e <- us ensures Agreeing(d.name, e.name) {
        ShortNamesAgree(d.name, e.name);
      }
    }
  }

  lemma {:induction false} DecodedAreWired(es: seq<Element>)
    ensures forall d <- DecodeAll(es).0 :: Wired(d.name)
  {
    if es != [] && DecodeDelegation(es[0]).Ok? {
      ReadNamesAreWired(Parse(es[0].value).value[1].value);
      DecodedAreWired(es[1..]);
    }
  }

  /** Otherwise the order is lost: two delegations are decoded, one of them in long form, and one
      whose component has no wire is inserted. The list goes on calling itself sorted. */
  lemma RunLosesOrder(preference: nat)
    requires preference < U64
    ensures var short, long, none := Component(8, [2], 1, 1), Component(8, [0], 1, 3), Component(8, [1], 0, 0);
            var a, b := Delegation(preference, [short]), Delegation(preference, [long]);
            && WireOk(short) && WireOk(long)
            && var block := Element(CONTENT, EncodeAll([Received(a), Received(b)]));
            var l := ApplyAll(List(true, []), [WireDecode(block, true), Insert(Delegation(preference, [none]), Append)]);
            l.isSorted && !InOrder(l)
  {
    hide Received, EncodeAll, Parse, DecodeAll, PlaceAll, Place, Less, CompareNames, Fits, Sorted;
    var short, long, none := Component(8, [2], 1, 1), Component(8, [0], 1, 3), Component(8, [1], 0, 0);
    var a, b, c := Delegation(preference, [short]), Delegation(preference, [long]), Delegation(preference, [none]);
    CycleOfNames(preference);
    var block := Element(CONTENT, EncodeAll([Received(a), Received(b)]));
    ReceivedPair(a, b);
    PlacePair(a, b);
    InsertBreaks(a, b, c);
    var l := List(true, []);
    assert Apply(l, WireDecode(block, true)) == List(true, [a, b]);
    assert Apply(List(true, [a, b]), Insert(c, Append)) == List(true, [c, a, b]);
    TwoOps(l, WireDecode(block, true), Insert(c, Append));
  }

  lemma TwoOps(l: List, x: Op, y: Op)
    ensures ApplyAll(l, [x, y]) == Apply(Apply(l, x), y)
  {
    hide Apply;
    var ops := [x, y];
    assert ops[1..] == [y] && ops[1..][1..] == [];
    assert ApplyAll(Apply(l, x), [y]) == ApplyAll(Apply(Apply(l, x), y), []);
  }

  lemma InsertBreaks(a: Delegation, b: Delegation, c: Delegation)
    requires Less(c, a) && Less(b, c)
    ensures Place([a, b], c, true) == [c, a, b] && !Sorted([c, a, b])
  {
    hide Less;
    var r := [c, a, b];
    assert !Leq(r[0], r[2]);
  }

  lemma CycleOfNames(preference: nat)
    ensures var short, long, none := Component(8, [2], 1, 1), Component(8, [0], 1, 3), Component(8, [1], 0, 0);
            var a, b, c := Delegation(preference, [short]), Delegation(preference, [long]), Delegation(preference, [none]);
            WireOk(short) && WireOk(long) && !Less(b, a) && Less(c, a) && Less(b, c)
  {
    hide Halves;
    HalvesDoNotMix();
    NamesFlip([Component(8, [2], 1, 1)], [Component(8, [0], 1, 3)]);
  }

  lemma PlacePair(a: Delegation, b: Delegation)
    requires !Less(b, a)
    ensures PlaceAll([], [a, b], true) == [a, b]
  {
    hide Less, UpperBound, Place, PlaceAll;
    var ds := [a, b];
    assert [] + ds == ds;
    assert Leq(ds[0], ds[1]);
    assert Sorted(ds);
    PlaceAllInOrder([], ds);
  }

  /** Decoding two received delegations. */
  lemma ReceivedPair(a: Delegation, b: Delegation)
    requires |a.name| == 1 && |b.name| == 1 && WireOk(a.name[0]) && WireOk(b.name[0])
    requires |a.name[0].value| <= 1 && |b.name[0].value| <= 1 && a.preference < U64 && b.preference < U64
    ensures Parse(EncodeAll([Received(a), Received(b)])) == Some([Received(a), Received(b)])
    ensures DecodeAll([Received(a), Received(b)]) == ([a, b], None)
  {
    hide Received, DecodeDelegation, Parse, EncodeAll, Legal, WireOk, Wires;
    SmallReceived(a);
    SmallReceived(b);
    ReceivedDecodes(a);
    ReceivedDecodes(b);
    ParseUndoesEncode([Received(a), Received(b)]);
    DecodeTwo(Received(a), Received(b), a, b);
  }

  lemma DecodeTwo(x: Element, y: Element, a: Delegation, b: Delegation)
    requires DecodeDelegation(x) == Ok(a) && DecodeDelegation(y) == Ok(b)
    ensures DecodeAll([x, y]) == ([a, b], None)
  {
    hide DecodeDelegation;
    assert [x, y][1..] == [y] && [y][1..] == [];
    assert DecodeAll([]) == ([], None);
    assert DecodeAll([y]) == ([b] + [], None);
    assert [b] + [] == [b];
    assert [a] + [b] == [a, b];
  }

  lemma SmallReceived(d: Delegation)
    requires |d.name| == 1 && WireOk(d.name[0]) && |d.name[0].value| <= 1
    ensures Legal(Received(d)) && |Wires(d.name)| < U64
  {
    var name := d.name;
    assert name[1..] == [];
    assert |Wires(name)| == |Wire(name[0])| <= 19;
    var p, n := Element(LINK_PREFERENCE, Integer(d.preference)), Element(NAME, Wires(name));
    assert [p, n][1..] == [n] && [n][1..] == [];
    assert |EncodeAll([n])| == |Encode(n)|;
    assert |EncodeAll([p, n])| == |Encode(p)| + |Encode(n)|;
  }

  predicate KeepsNamesApart(op: Op) {
    match op
    case Insert(_, policy) => policy != Append
    case WireDecode(_, _) => false
    case _ => true
  }

  lemma ApplyKeepsDistinct(l: List, op: Op)
    requires DistinctNames(l.dels) && KeepsNamesApart(op)
    ensures DistinctNames(Apply(l, op).dels)
  {
    match op
    case Insert(d, policy) =>
      SurvivorsStayDistinct(l.dels, None, d.name);
      PlaceDistinct(Survivors(l.dels, None, d.name), d, l.isSorted);
      if !HasName(l.dels, d.name) { PlaceDistinct(l.dels, d, l.isSorted); }
    case Erase(preference, name) => SurvivorsStayDistinct(l.dels, preference, name);
    case Sort => SortKeepsDistinct([], l.dels);
  }

  lemma {:induction false} SortKeepsDistinct(acc: seq<Delegation>, ds: seq<Delegation>)
    requires DistinctNames(ds) && DistinctNames(acc)
    requires forall i, j :: 0 <= i < |acc| && 0 <= j < |ds| ==> !SameName(acc[i].name, ds[j].name)
    ensures DistinctNames(PlaceAll(acc, ds, true))
    decreases |ds|
  {
    if ds != [] {
      PlaceDistinct(acc, ds[0], true);
      var acc' := Place(acc, ds[0], true);
      forall i, j | 0 <= i < |acc'| && 0 <= j < |ds[1..]| ensures !SameName(acc'[i].name, ds[1..][j].name) {
        assert ds[1..][j] == ds[j + 1];
        PlaceMultiset(acc, ds[0], true);
        assert acc'[i] in multiset(acc');
      }
      SortKeepsDistinct(acc', ds[1..]);
    }
  }

  /** A list built from the empty one by erasing, sorting and inserting with the policies `Replace`
      and `Skip` never holds a name twice. */
  lemma {:induction false} EveryRunDistinct(l: List, ops: seq<Op>)
    requires DistinctNames(l.dels) && forall i :: 0 <= i < |ops| ==> KeepsNamesApart(ops[i])
    ensures DistinctNames(ApplyAll(l, ops).dels)
    decreases |ops|
  {
    if ops != [] {
      ApplyKeepsDistinct(l, ops[0]);
      EveryRunDistinct(Apply(l, ops[0]), ops[1..]);
    }
  }

  // ----- what the operations mean, without the functions that define them -----

  /** A list in order runs from the lowest preference to the highest, and by name among equal ones. */
  lemma SortedAscends(ds: seq<Delegation>)
    ensures Sorted(ds) <==>
            forall i, j :: 0 <= i < j < |ds| ==>
              && ds[i].preference <= ds[j].preference
              && (ds[i].preference == ds[j].preference ==> CompareNames(ds[i].name, ds[j].name) <= 0)
  {
    hide CompareNames;
    forall i, j | 0 <= i < j < |ds|
      ensures Leq(ds[i], ds[j]) <==>
              && ds[i].preference <= ds[j].preference
              && (ds[i].preference == ds[j].preference ==> CompareNames(ds[i].name, ds[j].name) <= 0)
    {
      NamesFlip(ds[i].name, ds[j].name);
    }
  }

  /** After every run, after sorting and after a sorted decode, a list marked as sorted ascends. */
  lemma RunsAscend(us: set<Delegation>, l: List, ops: seq<Op>, i: nat, j: nat)
    requires OneOrder(us) && Among(l.dels, us) && forall i :: 0 <= i < |ops| ==> Brings(ops[i], us)
    requires InOrder(l) && i < j < |ApplyAll(l, ops).dels| && ApplyAll(l, ops).isSorted
    ensures var a, b := ApplyAll(l, ops).dels[i], ApplyAll(l, ops).dels[j];
            a.preference <= b.preference && (a.preference == b.preference ==> CompareNames(a.name, b.name) <= 0)
  {
    EveryRunInOrder(us, l, ops);
    SortedAscends(ApplyAll(l, ops).dels);
  }

  lemma SortAscends(us: set<Delegation>, l: List, i: nat, j: nat)
    requires OneOrder(us) && Among(l.dels, us) && InOrder(l)
    requires i < j < |SortList(l).dels|
    ensures SortList(l).isSorted && multiset(SortList(l).dels) == multiset(l.dels)
    ensures var a, b := SortList(l).dels[i], SortList(l).dels[j];
            a.preference <= b.preference && (a.preference == b.preference ==> CompareNames(a.name, b.name) <= 0)
  {
    hide OneOrder;
    if !l.isSorted { SortingSorts(us, l.dels); }
    SortedAscends(SortList(l).dels);
  }

  lemma SortedDecodeAscends(l: List, block: Element, i: nat, j: nat)
    requires block.typ == 21 || block.typ == 30
    requires i < j < |Decode(l, block, true).0.dels|
    ensures Decode(l, block, true).0.isSorted
    ensures var a, b := Decode(l, block, true).0.dels[i], Decode(l, block, true).0.dels[j];
            a.preference <= b.preference && (a.preference == b.preference ==> CompareNames(a.name, b.name) <= 0)
  {
    hide CompareNames;
    var es := Parse(block.value);
    if es.Some? {
      DecodedAreWired(es.value);
      SortingWired(DecodeAll(es.value).0);
      SortedAscends(Decode(l, block, true).0.dels);
    }
  }

  /** Erasing leaves exactly the delegations of another name or, if one was given, another
      preference, as often as they were there and in their order. */
  lemma {:induction false} EraseLaw(ds: seq<Delegation>, preference: Option<nat>, name: Name, d: Delegation)
    ensures multiset(Survivors(ds, preference, name))[d]
            == if PlainName(d.name) == PlainName(name) && (preference.None? || d.preference == preference.value) then 0
               else multiset(ds)[d]
  {
    ErasureConserves(ds, preference, name, d);
  }

  lemma {:induction false} EraseInOrder(ds: seq<Delegation>, es: seq<Delegation>, preference: Option<nat>, name: Name)
    ensures Survivors(ds + es, preference, name) == Survivors(ds, preference, name) + Survivors(es, preference, name)
    decreases |ds|
  {
    hide Matches;
    if ds == [] {
      assert ds + es == es;
    } else {
      assert (ds + es)[1..] == ds[1..] + es;
      EraseInOrder(ds[1..], es, preference, name);
    }
  }

  /** What each policy makes of a list: `Append` adds the delegation, `Replace` adds it and takes
      every other of that name away, `Skip` adds it only if the name is new. */
  lemma InsertLaw(l: List, d: Delegation, policy: Policy)
    ensures var r := InsertList(l, d, policy);
            && r.isSorted == l.isSorted
            && (policy == Append ==> multiset(r.dels) == multiset(l.dels) + multiset{d})
            && (policy == Replace ==>
                  forall e: Delegation :: multiset(r.dels)[e]
                              == (if PlainName(e.name) == PlainName(d.name) then 0 else multiset(l.dels)[e]) + (if e == d then 1 else 0))
            && (policy == Skip ==>
                  if exists i :: 0 <= i < |l.dels| && PlainName(l.dels[i].name) == PlainName(d.name) then r == l
                  else multiset(r.dels) == multiset(l.dels) + multiset{d})
  {
    hide Place, Survivors;
    PlaceMultiset(l.dels, d, l.isSorted);
    var rest := Survivors(l.dels, None, d.name);
    PlaceMultiset(rest, d, l.isSorted);
    forall e: Delegation ensures multiset(rest)[e] == if PlainName(e.name) == PlainName(d.name) then 0 else multiset(l.dels)[e] {
      EraseLaw(l.dels, None, d.name, e);
    }
  }

  /** An unsorted list takes the delegation at its end. */
  lemma UnsortedInsert(l: List, d: Delegation)
    requires !l.isSorted
    ensures InsertList(l, d, Append).dels == l.dels + [d]
    ensures InsertList(l, d, Replace).dels == Survivors(l.dels, None, d.name) + [d]
  {
  }

  /** An element from which a delegation can be read. */
  ghost predicate WellFormedDelegation(e: Element) {
    && e.typ == 31 && Parse(e.value).Some?
    && var es := Parse(e.value).value;
    && |es| >= 2
    && es[0].typ == 30 && (|es[0].value| == 1 || |es[0].value| == 2 || |es[0].value| == 4 || |es[0].value| == 8)
    && es[1].typ == 7 && Parse(es[1].value).Some?
  }

  lemma DelegationDecodes(e: Element)
    ensures DecodeDelegation(e).Ok? <==> WellFormedDelegation(e)
    ensures DecodeDelegation(e).Ok? ==>
              var es := Parse(e.value).value;
              DecodeDelegation(e).value.preference == ToNat(es[0].value) && PlainName(DecodeDelegation(e).value.name) == Parse(es[1].value).value
  {
    hide Parse, ParseName;
    if Parse(e.value).Some? && |Parse(e.value).value| >= 2 { ParseNameIsParse(Parse(e.value).value[1].value); }
  }

  /** Which blocks decode without an error: Content and ForwardingHint blocks with at least one
      sub-element, all of them delegations. */
  lemma DecodeAccepts(l: List, block: Element, wantSort: bool)
    ensures Decode(l, block, wantSort).1.None? <==>
            && (block.typ == 21 || block.typ == 30) && Parse(block.value).Some? && Parse(block.value).value != []
            && forall i :: 0 <= i < |Parse(block.value).value| ==> WellFormedDelegation(Parse(block.value).value[i])
  {
    hide Parse, WellFormedDelegation, PlaceAll;
    if Parse(block.value).Some? {
      DecodeAllAccepts(Parse(block.value).value);
    }
  }

  lemma {:induction false} DecodeAllAccepts(es: seq<Element>)
    ensures DecodeAll(es).1.None? <==> forall i :: 0 <= i < |es| ==> WellFormedDelegation(es[i])
    ensures DecodeAll(es).1.None? ==> |DecodeAll(es).0| == |es|
  {
    hide DecodeDelegation, WellFormedDelegation;
    if es != [] {
      DelegationDecodes(es[0]);
      DecodeAllAccepts(es[1..]);
      assert forall i :: 0 < i < |es| ==> es[i] == es[1..][i - 1];
    }
  }

  /** A decode that meets a bad element has taken the delegations in front of it, and only those. */
  lemma {:induction false} DecodeStops(ds: seq<Delegation>, bad: Element, rest: seq<Element>)
    requires AllEncodable(ds) && !WellFormedDelegation(bad)
    ensures DecodeAll(Elements(ds) + [bad] + rest).0 == RewrittenAll(ds) && DecodeAll(Elements(ds) + [bad] + rest).1.Some?
  {
    hide DecodeDelegation, DelegationElement, Encodable, WellFormedDelegation, Rewritten;
    var es := Elements(ds) + [bad] + rest;
    DelegationDecodes(bad);
    if ds == [] {
      assert es[0] == bad;
    } else {
      DecodeUndoesEncode(ds[0]);
      assert es[0] == DelegationElement(ds[0]);
      assert es[1..] == Elements(ds[1..]) + [bad] + rest;
      DecodeStops(ds[1..], bad, rest);
      assert RewrittenAll(ds) == [Rewritten(ds[0])] + RewrittenAll(ds[1..]);
    }
  }

  /** The grammar of the Link section, with its type numbers: a Content element of delegations, each
      of type 31 with a preference of type 30 and a name of type 7. */
  lemma ListGrammar(ds: seq<Delegation>)
    ensures ListElement(21, ds).typ == 21 && ListElement(21, ds).value == EncodeAll(Elements(ds))
    ensures forall i :: 0 <= i < |ds| ==>
              Elements(ds)[i]
              == Element(31, EncodeAll([Element(30, Integer(ds[i].preference)), Element(7, EncodeAll(PlainName(ds[i].name)))]))
  {
  }

  /** The errors, in the order they are looked for. */
  lemma DecodeErrors(l: List, wantSort: bool, preference: nat)
    requires preference < U64
    ensures forall e: Element :: e.typ != 21 && e.typ != 30 ==> Decode(l, e, wantSort) == (l, Some(InvalidType))
    ensures Decode(l, Element(21, []), wantSort) == (List(wantSort, []), Some(EmptyList))
    ensures forall e: Element :: e.typ != 31 ==> DecodeDelegation(e) == Err(NotADelegation)
    ensures DecodeDelegation(Element(31, [])) == Err(MissingPreference)
    ensures DecodeDelegation(Element(31, EncodeAll([Element(7, [])]))) == Err(MissingPreference)
    ensures DecodeDelegation(Element(31, EncodeAll([Element(30, [0, 0, 0])]))) == Err(InvalidPreference)
    ensures DecodeDelegation(Element(31, EncodeAll([Element(30, Integer(preference))]))) == Err(MissingName)
  {
    hide EncodeAll, ReadInteger, Integer;
    ReadUndoesInteger(preference);
    ParseUndoesEncode([Element(7, [])]);
    ParseUndoesEncode([Element(30, [0, 0, 0])]);
    ParseUndoesEncode([Element(30, Integer(preference))]);
    assert Parse([]) == Some([]);
    NoInteger();
  }

  lemma NoInteger()
    ensures ReadInteger([0, 0, 0]) == None
  {
  }
}
