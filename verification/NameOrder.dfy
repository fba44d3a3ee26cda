/** The order of names: `Name::compare` of ndn-cxx, which compares component by component, by wires
    where both names have them. The main results say what it comes to: the order of the wires if all
    components have them, and the order of the minimal encodings if the wires agree with that. */
module NameOrder {
  import opened Basics
  import opened Tlv
  import opened NdnName

  /** `Name::compare` over whole names. */
  function CompareNames(a: Name, b: Name): (r: int)
    ensures -1 <= r <= 1
  {
    if a == [] || b == [] then Sign(|a| - |b|)
    else if Halves(a[0], b[0]) != 0 then Halves(a[0], b[0])
    else CompareNames(a[1..], b[1..])
  }

  /** Where there is a wire it is one. */
  predicate WiresOk(name: Name) {
    forall i :: 0 <= i < |name| && HasWire(name[i]) ==> WireOk(name[i])
  }

  /** The loop of `Name::compare`, with `Component::compare` inside. */
  method Compare(a: Name, b: Name) returns (r: int)
    requires WiresOk(a) && WiresOk(b)
    ensures r == CompareNames(a, b)
  {
    var count := if |a| < |b| then |a| else |b|;
    for i := 0 to count
      invariant CompareNames(a, b) == CompareNames(a[i..], b[i..])
    {
      var comp;
      if HasWire(a[i]) && HasWire(b[i]) {
        comp := CompareWires(Wire(a[i]), Wire(b[i]));
        WiresCompareAsWritten(a[i], b[i]);
      } else {
        comp := CompareComponents(a[i], b[i]);
      }
      assert a[i..][1..] == a[i + 1..] && b[i..][1..] == b[i + 1..];
      if comp != 0 { return comp; }
    }
    return Sign(|a| - |b|);
  }

  lemma {:induction false} NamesFlip(a: Name, b: Name)
    ensures CompareNames(a, b) == -CompareNames(b, a)
    decreases |a|
  {
    if a != [] && b != [] {
      ComponentsFlip(a[0], b[0]);
      CanonicalFlip(a[0], b[0]);
      NamesFlip(a[1..], b[1..]);
    }
  }

  /** A name comes before every longer name it is a prefix of. */
  lemma {:induction false} PrefixComesFirst(a: Name, b: Name)
    requires b != []
    ensures CompareNames(a, a + b) == -1 && CompareNames(a + b, a) == 1
    decreases |a|
  {
    NamesFlip(a, a + b);
    if a == [] {
      assert a + b == b;
    } else {
      assert (a + b)[1..] == a[1..] + b;
      MemcmpZero(a[0].value, a[0].value);
      PrefixComesFirst(a[1..], b);
    }
  }

  // ----- names by their wires -----

  /** Names compared component by component as they are written: always an order. */
  function CompareWrittenNames(a: Name, b: Name): (r: int)
    ensures -1 <= r <= 1
  {
    if a == [] || b == [] then Sign(|a| - |b|)
    else if CompareWritten(a[0], b[0]) != 0 then CompareWritten(a[0], b[0])
    else CompareWrittenNames(a[1..], b[1..])
  }

  lemma {:induction false} NamesZero(a: Name, b: Name)
    ensures CompareWrittenNames(a, b) == 0 <==> a == b
    decreases |a|
  {
    if a != [] && b != [] {
      ComponentsZero(a[0], b[0]);
      NamesZero(a[1..], b[1..]);
      assert a == [a[0]] + a[1..] && b == [b[0]] + b[1..];
    }
  }

  lemma {:induction false} NamesTransitive(a: Name, b: Name, c: Name)
    requires CompareWrittenNames(a, b) <= 0 && CompareWrittenNames(b, c) <= 0
    ensures CompareWrittenNames(a, c) <= 0
    decreases |a|
  {
    if a != [] && b != [] && c != [] {
      ComponentsTransitive(a[0], b[0], c[0]);
      ComponentsZero(a[0], b[0]);
      ComponentsZero(b[0], c[0]);
      if a[0] == b[0] == c[0] { NamesTransitive(a[1..], b[1..], c[1..]); }
    }
  }

  predicate Wired(name: Name) {
    forall i :: 0 <= i < |name| ==> HasWire(name[i])
  }

  /** Names that have all their wires are compared as they are written. */
  lemma {:induction false} WiredNames(a: Name, b: Name)
    requires Wired(a) && Wired(b)
    ensures CompareNames(a, b) == CompareWrittenNames(a, b)
    decreases |a|
  {
    if a != [] && b != [] {
      WiredNames(a[1..], b[1..]);
    }
  }

  // ----- names by what they stand for -----

  /** Where both names have wires, these compare canonically. */
  predicate Agreeing(a: Name, b: Name) {
    forall i :: 0 <= i < |a| && i < |b| && HasWire(a[i]) && HasWire(b[i]) ==>
      CompareWritten(a[i], b[i]) == CompareComponents(a[i], b[i])
  }

  /** Such names are compared as if both were written with minimal headers. */
  lemma {:induction false} AgreeingNames(a: Name, b: Name)
    requires Agreeing(a, b)
    ensures CompareNames(a, b) == CompareWrittenNames(Canonical(a), Canonical(b))
    decreases |a|
  {
    hide Halves, CompareWritten, CompareComponents, Minimal;
    if a != [] && b != [] {
      MinimalCompare(a[0], b[0]);
      assert PlainName(a)[1..] == PlainName(a[1..]) && PlainName(b)[1..] == PlainName(b[1..]);
      assert Canonical(a)[1..] == Canonical(a[1..]) && Canonical(b)[1..] == Canonical(b[1..]);
      AgreeingNames(a[1..], b[1..]);
    }
  }

  lemma MinimalCompare(x: Component, y: Component)
    requires HasWire(x) && HasWire(y) ==> CompareWritten(x, y) == CompareComponents(x, y)
    ensures Halves(x, y) == CompareWritten(Minimal(Plain(x)), Minimal(Plain(y)))
  {
    MinimalIsCanonical(x, y);
  }

  /** A larger number never takes fewer bytes. */
  lemma MinimalIsCanonical(x: Component, y: Component)
    ensures CompareWritten(Minimal(Plain(x)), Minimal(Plain(y))) == CompareComponents(x, y)
  {
  }

  /** No header is longer than necessary. */
  predicate Short(name: Name) {
    forall i :: 0 <= i < |name| && HasWire(name[i]) ==> name[i] == Minimal(Plain(name[i]))
  }

  lemma ShortNamesAgree(a: Name, b: Name)
    requires Short(a) && Short(b)
    ensures Agreeing(a, b)
  {
    forall i | 0 <= i < |a| && i < |b| && HasWire(a[i]) && HasWire(b[i])
      ensures CompareWritten(a[i], b[i]) == CompareComponents(a[i], b[i])
    {
      MinimalIsCanonical(a[i], b[i]);
    }
  }

  /** Whatever is read has its wires. */
  lemma {:induction false} ReadNamesAreWired(s: Bytes)
    requires ParseName(s).Some?
    ensures Wired(ParseName(s).value)
    decreases |s|
  {
    if s != [] {
      ReadNamesAreWired(s[ReadElement(s).value.1..]);
    }
  }

  lemma CanonicalIsWired(name: Name)
    ensures Wired(Canonical(name))
  {
  }
}
