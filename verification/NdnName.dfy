/** Name components, how they are written, and their order: `Component::compare` of ndn-cxx.

    A component that was received keeps its wire, and NDN-TLV allows its type and length to be
    written in more bytes than necessary; a component made from a shared buffer has no wire. Two
    components with wires are compared by one `memcmp` over them, any others canonically. The main
    results say exactly when the `memcmp` agrees with the canonical order, and that the two
    comparisons mix to an order exactly then. */
module NdnName {
  import opened Basics
  import opened Tlv

  /** A component with the widths its type and length have on the wire; both are 0 if it has none. */
  datatype Component = Component(typ: nat, value: Bytes, typWidth: nat, lenWidth: nat)

  type Name = seq<Component>

  /** What a component stands for, however it is written. */
  function Plain(x: Component): (e: Element) {
    Element(x.typ, x.value)
  }

  predicate HasWire(x: Component) {
    x.typWidth != 0
  }

  /** ... as the encoder writes it. */
  function Minimal(e: Element): (x: Component)
    ensures Plain(x) == e
  {
    Component(e.typ, e.value, VarSize(e.typ), VarSize(|e.value|))
  }

  function PlainName(name: Name): (es: seq<Element>)
    ensures |es| == |name| && forall i :: 0 <= i < |name| ==> es[i] == Plain(name[i])
  {
    seq(|name|, i requires 0 <= i < |name| => Plain(name[i]))
  }

  function MinimalName(es: seq<Element>): (name: Name)
    ensures |name| == |es| && forall i :: 0 <= i < |es| ==> name[i] == Minimal(es[i])
    ensures PlainName(name) == es
  {
    seq(|es|, i requires 0 <= i < |es| => Minimal(es[i]))
  }

  /** `Name::equals`: the widths do not matter. */
  predicate SameName(a: Name, b: Name) {
    PlainName(a) == PlainName(b)
  }

  /** The name as it comes back from its own encoding. */
  function Canonical(name: Name): (r: Name)
    ensures SameName(r, name)
  {
    MinimalName(PlainName(name))
  }

  // ----- memcmp -----

  /** The sign of `memcmp` over the common length. */
  function Memcmp(a: Bytes, b: Bytes): (r: int)
    ensures -1 <= r <= 1
  {
    if a == [] || b == [] then 0
    else if a[0] != b[0] then Sign(a[0] as int - b[0] as int)
    else Memcmp(a[1..], b[1..])
  }

  function Sign(d: int): (r: int)
    ensures -1 <= r <= 1
  {
    if d < 0 then -1 else if d > 0 then 1 else 0
  }

  lemma {:induction false} MemcmpFlips(a: Bytes, b: Bytes)
    ensures Memcmp(a, b) == -Memcmp(b, a)
    decreases |a|
  {
    if a != [] && b != [] && a[0] == b[0] { MemcmpFlips(a[1..], b[1..]); }
  }

  lemma {:induction false} MemcmpZero(a: Bytes, b: Bytes)
    requires |a| == |b|
    ensures Memcmp(a, b) == 0 <==> a == b
    decreases |a|
  {
    if a != [] {
      if a[0] == b[0] { MemcmpZero(a[1..], b[1..]); }
      assert a == [a[0]] + a[1..] && b == [b[0]] + b[1..];
    }
  }

  lemma {:induction false} MemcmpTransitive(a: Bytes, b: Bytes, c: Bytes)
    requires |a| == |b| == |c| && Memcmp(a, b) <= 0 && Memcmp(b, c) <= 0
    ensures Memcmp(a, c) <= 0
    ensures Memcmp(a, b) < 0 || Memcmp(b, c) < 0 ==> Memcmp(a, c) < 0
    decreases |a|
  {
    if a != [] && a[0] == b[0] == c[0] { MemcmpTransitive(a[1..], b[1..], c[1..]); }
  }

  /** Two sequences of one length decide, unless they are equal. */
  lemma {:induction false} MemcmpPrefix(p: Bytes, q: Bytes, a: Bytes, b: Bytes)
    requires |p| == |q|
    ensures Memcmp(p + a, q + b) == if Memcmp(p, q) != 0 then Memcmp(p, q) else Memcmp(a, b)
    decreases |p|
  {
    if p == [] {
      assert p + a == a && q + b == b;
    } else {
      assert (p + a)[1..] == p[1..] + a && (q + b)[1..] == q[1..] + b;
      MemcmpPrefix(p[1..], q[1..], a, b);
    }
  }

  // ----- the encoding of numbers preserves order -----

  lemma {:induction false} BigEndianOrder(m: nat, n: nat, len: nat)
    requires m < n < Pow256(len)
    ensures Memcmp(BigEndian(m, len), BigEndian(n, len)) == -1
  {
    if len > 0 {
      var p, q := BigEndian(m / 256, len - 1), BigEndian(n / 256, len - 1);
      MemcmpPrefix(p, q, [m % 256], [n % 256]);
      if m / 256 < n / 256 {
        assert n / 256 < Pow256(len - 1);
        BigEndianOrder(m / 256, n / 256, len - 1);
      } else {
        MemcmpZero(p, q);
      }
    }
  }

  // ----- numbers and components on the wire -----

  /** `n` can be written in `w` bytes. */
  predicate Fits(n: nat, w: nat) {
    (w == 1 && n < 253) || (w == 3 && n < U16) || (w == 5 && n < U32) || (w == 9 && n < U64)
  }

  /** A variable-size number of `w` bytes, perhaps more than it needs. */
  function At(n: nat, w: nat): (s: Bytes)
    requires Fits(n, w)
    ensures |s| == w
  {
    if w == 1 then [n] else [if w == 3 then 253 else if w == 5 then 254 else 255] + BigEndian(n, w - 1)
  }

  lemma ReadAt(n: nat, w: nat, rest: Bytes)
    requires Fits(n, w)
    ensures ReadVarNumber(At(n, w) + rest) == Some((n, w))
  {
    Powers();
    if w > 1 {
      ToNatUndoesBigEndian(n, w - 1);
      assert (At(n, w) + rest)[1..w] == BigEndian(n, w - 1);
    }
  }

  /** Comparing two numbers on the wire, and what follows them, compares their widths first and
      then the numbers. */
  lemma AtFirst(m: nat, v: nat, n: nat, w: nat, a: Bytes, b: Bytes)
    requires Fits(m, v) && Fits(n, w)
    ensures Memcmp(At(m, v) + a, At(n, w) + b)
            == if v != w then Sign(v - w) else if m != n then Sign(m - n) else Memcmp(a, b)
  {
    var p, q := At(m, v), At(n, w);
    if v != w {
      assert (p + a)[0] == p[0] != q[0] == (q + b)[0];
    } else {
      MemcmpPrefix(p, q, a, b);
      AtOrder(m, n, w);
    }
  }

  lemma AtOrder(m: nat, n: nat, w: nat)
    requires Fits(m, w) && Fits(n, w)
    ensures Memcmp(At(m, w), At(n, w)) == Sign(m - n)
  {
    if w == 1 {
      assert At(m, w) == [m] && At(n, w) == [n];
    } else {
      Powers();
      var p, q := BigEndian(m, w - 1), BigEndian(n, w - 1);
      var head := [At(m, w)[0]];
      assert At(m, w) == head + p && At(n, w) == head + q;
      MemcmpZero(head, head);
      MemcmpPrefix(head, head, p, q);
      if m < n {
        BigEndianOrder(m, n, w - 1);
      } else if n < m {
        BigEndianOrder(n, m, w - 1);
        MemcmpFlips(p, q);
      } else {
        MemcmpZero(p, q);
      }
    }
  }

  predicate WireOk(x: Component) {
    0 < x.typ < U32 && Fits(x.typ, x.typWidth) && Fits(|x.value|, x.lenWidth)
  }

  function Wire(x: Component): (s: Bytes)
    requires WireOk(x)
    ensures |s| == x.typWidth + x.lenWidth + |x.value|
  {
    At(x.typ, x.typWidth) + (At(|x.value|, x.lenWidth) + x.value)
  }

  /** Whatever the widths, the wire reads as the component, and the widths are those read. */
  lemma WireReads(x: Component, rest: Bytes)
    requires WireOk(x)
    ensures ReadElement(Wire(x) + rest) == Some((Plain(x), |Wire(x)|))
    ensures Header(Wire(x) + rest) == (x.typWidth, x.lenWidth)
  {
    hide At;
    var v, w, l := x.typWidth, x.lenWidth, |x.value|;
    var typ, len := At(x.typ, v), At(l, w);
    var s, tail := Wire(x) + rest, x.value + rest;
    assert s == typ + (len + tail) by {
      Assoc(typ, len + x.value, rest);
      Assoc(len, x.value, rest);
    }
    ReadAt(x.typ, v, len + tail);
    Dropped(typ, len + tail);
    ReadAt(l, w, tail);
    Sliced(typ, len, x.value, rest);
  }

  lemma Dropped(a: Bytes, b: Bytes)
    ensures (a + b)[|a|..] == b
  {
  }

  lemma Sliced(a: Bytes, b: Bytes, c: Bytes, d: Bytes)
    ensures (a + (b + (c + d)))[|a| + |b|..|a| + |b| + |c|] == c
  {
  }

  /** Minimal widths give the encoding the encoder writes. */
  lemma MinimalWire(e: Element)
    requires Legal(e)
    ensures WireOk(Minimal(e)) && Wire(Minimal(e)) == Encode(e)
  {
    assert At(e.typ, VarSize(e.typ)) == VarNumber(e.typ);
    assert At(|e.value|, VarSize(|e.value|)) == VarNumber(|e.value|);
    Assoc(VarNumber(e.typ), VarNumber(|e.value|), e.value);
  }

  // ----- reading names -----

  /** The widths of type and length at the head of `s`. */
  function Header(s: Bytes): (h: (nat, nat))
    requires ReadElement(s).Some?
  {
    var v := ReadVarNumber(s).value.1;
    (v, ReadVarNumber(s[v..]).value.1)
  }

  /** `Name::wireDecode`, from the TLV-VALUE: the components with their wires. */
  function ParseName(s: Bytes): (r: Option<Name>)
    decreases |s|
  {
    if s == [] then Some([])
    else
      match ReadElement(s)
      case None => None
      case Some((e, n)) =>
        match ParseName(s[n..])
        case None => None
        case Some(name) => Some([Component(e.typ, e.value, Header(s).0, Header(s).1)] + name)
  }

  function Wires(name: Name): (s: Bytes)
    requires forall i :: 0 <= i < |name| ==> WireOk(name[i])
  {
    if name == [] then [] else Wire(name[0]) + Wires(name[1..])
  }

  /** A name reads back from its wires, widths included. */
  lemma {:induction false} ParseUndoesWires(name: Name)
    requires forall i :: 0 <= i < |name| ==> WireOk(name[i])
    ensures ParseName(Wires(name)) == Some(name)
  {
    hide Wire, ReadElement, Header, WireOk;
    if name != [] {
      var rest := Wires(name[1..]);
      WireReads(name[0], rest);
      WireNonEmpty(name[0]);
      ParseUndoesWires(name[1..]);
      assert (Wire(name[0]) + rest)[|Wire(name[0])|..] == rest;
      assert name == [name[0]] + name[1..];
    }
  }

  lemma WireNonEmpty(x: Component)
    requires WireOk(x)
    ensures |Wire(x)| > 0
  {
  }

  lemma {:induction false} MinimalWires(es: seq<Element>)
    requires AllLegal(es)
    ensures forall i :: 0 <= i < |es| ==> WireOk(MinimalName(es)[i])
    ensures Wires(MinimalName(es)) == EncodeAll(es)
  {
    hide Wire, Encode, WireOk, Legal;
    forall i | 0 <= i < |es| ensures WireOk(MinimalName(es)[i]) {
      MinimalWire(es[i]);
    }
    if es != [] {
      MinimalWire(es[0]);
      assert MinimalName(es)[1..] == MinimalName(es[1..]);
      MinimalWires(es[1..]);
    }
  }

  /** The encoder writes minimal headers, so a name comes back in canonical form. */
  lemma ParseUndoesEncodeName(name: Name)
    requires AllLegal(PlainName(name))
    ensures ParseName(EncodeAll(PlainName(name))) == Some(Canonical(name))
  {
    MinimalWires(PlainName(name));
    ParseUndoesWires(Canonical(name));
  }

  /** Names are read exactly where elements are, and stand for the elements read. */
  lemma {:induction false} ParseNameIsParse(s: Bytes)
    ensures ParseName(s).Some? <==> Parse(s).Some?
    ensures ParseName(s).Some? ==> PlainName(ParseName(s).value) == Parse(s).value
    decreases |s|
  {
    hide ReadElement, Header;
    if s != [] && ReadElement(s).Some? {
      ParseNameIsParse(s[ReadElement(s).value.1..]);
    }
  }

  // ----- the order of components -----

  /** The canonical order: type, then length, then value. */
  function CompareComponents(x: Component, y: Component): (r: int)
    ensures -1 <= r <= 1
  {
    if x.typ != y.typ then Sign(x.typ - y.typ)
    else if |x.value| != |y.value| then Sign(|x.value| - |y.value|)
    else Memcmp(x.value, y.value)
  }

  /** The first half of `Component::compare`, taken when both components have wires. */
  function CompareWires(x: Bytes, y: Bytes): int {
    Memcmp(x, y)
  }

  /** The order the first half comes to: each width in front of what is written in it. */
  function CompareWritten(x: Component, y: Component): (r: int)
    ensures -1 <= r <= 1
  {
    if x.typWidth != y.typWidth then Sign(x.typWidth - y.typWidth)
    else if x.typ != y.typ then Sign(x.typ - y.typ)
    else if x.lenWidth != y.lenWidth then Sign(x.lenWidth - y.lenWidth)
    else if |x.value| != |y.value| then Sign(|x.value| - |y.value|)
    else Memcmp(x.value, y.value)
  }

  lemma WiresCompareAsWritten(x: Component, y: Component)
    requires WireOk(x) && WireOk(y)
    ensures CompareWires(Wire(x), Wire(y)) == CompareWritten(x, y)
  {
    AtFirst(x.typ, x.typWidth, y.typ, y.typWidth, At(|x.value|, x.lenWidth) + x.value, At(|y.value|, y.lenWidth) + y.value);
    AtFirst(|x.value|, x.lenWidth, |y.value|, y.lenWidth, x.value, y.value);
  }

  /** The fast path agrees with the canonical order exactly when a difference in the width of the
      types, or of the lengths of one type, points the way the components do. */
  lemma FastCompareExact(x: Component, y: Component)
    requires WireOk(x) && WireOk(y)
    ensures CompareWires(Wire(x), Wire(y)) == CompareComponents(x, y) <==>
            && (x.typWidth == y.typWidth || Sign(x.typWidth - y.typWidth) == CompareComponents(x, y))
            && (x.typWidth == y.typWidth && x.typ == y.typ ==>
                  x.lenWidth == y.lenWidth || Sign(x.lenWidth - y.lenWidth) == CompareComponents(x, y))
  {
    WiresCompareAsWritten(x, y);
  }

  /** So it does for components as the encoder writes them. */
  lemma FastCompareIsCanonical(x: Element, y: Element)
    requires Legal(x) && Legal(y)
    ensures CompareWires(Encode(x), Encode(y)) == CompareComponents(Minimal(x), Minimal(y))
  {
    MinimalWire(x);
    MinimalWire(y);
    FastCompareExact(Minimal(x), Minimal(y));
  }

  /** It does not for a component in two forms: they read as the same and compare as different. */
  lemma FastCompareOnLongForms(x: Component, w: nat)
    requires WireOk(x) && Fits(|x.value|, w) && w > x.lenWidth
    ensures var long := x.(lenWidth := w);
            && ReadElement(Wire(x)) == Some((Plain(x), |Wire(x)|))
            && ReadElement(Wire(long)) == Some((Plain(x), |Wire(long)|))
            && CompareWires(Wire(x), Wire(long)) == -1
  {
    var long := x.(lenWidth := w);
    WireReads(x, []);
    WireReads(long, []);
    assert Wire(x) + [] == Wire(x) && Wire(long) + [] == Wire(long);
    WiresCompareAsWritten(x, long);
  }

  // ----- both halves together -----

  /** The conversion of an unsigned difference to `int`. */
  function ToInt(d: int): (r: int)
    ensures -0x8000_0000 <= r < 0x8000_0000
  {
    (d + 0x8000_0000) % U32 - 0x8000_0000
  }

  /** The second half of `Component::compare`, taken when a component has no wire: the sign of the
      first difference, as an `int`. */
  function SecondHalf(x: Component, y: Component): (r: int) {
    if ToInt(x.typ - y.typ) != 0 then Sign(ToInt(x.typ - y.typ))
    else if ToInt(|x.value| - |y.value|) != 0 then Sign(ToInt(|x.value| - |y.value|))
    else Memcmp(x.value, y.value)
  }

  /** It is the canonical order exactly for types less than 2 to the 31 apart. */
  lemma SecondHalfExact(x: Component, y: Component)
    requires x.typ < U32 && y.typ < U32 && |x.value| < 0x8000_0000 && |y.value| < 0x8000_0000
    ensures SecondHalf(x, y) == CompareComponents(x, y) <==> -0x8000_0000 <= x.typ - y.typ < 0x8000_0000
  {
    var d := x.typ - y.typ;
    assert ToInt(d) == if d < -0x8000_0000 then d + U32 else if d < 0x8000_0000 then d else d - U32;
    assert ToInt(|x.value| - |y.value|) == |x.value| - |y.value|;
  }

  /** `Component::compare`. */
  function Halves(x: Component, y: Component): (r: int)
    ensures -1 <= r <= 1
  {
    if HasWire(x) && HasWire(y) then CompareWritten(x, y) else CompareComponents(x, y)
  }

  /** Each is not after the next, and yet the first is after the last. */
  predicate Cycle(a: Component, n: Component, b: Component) {
    Halves(a, n) <= 0 && Halves(n, b) <= 0 && Halves(a, b) > 0
  }

  /** Components without wires go together with two that have wires, and never make a cycle, exactly
      when those two compare canonically. */
  lemma CyclesExactly(a: Component, b: Component)
    requires HasWire(a) && HasWire(b)
    ensures (forall n :: !HasWire(n) ==> !Cycle(a, n, b) && !Cycle(b, n, a))
            <==> CompareWritten(a, b) == CompareComponents(a, b)
  {
    ComponentsFlip(a, b);
    CanonicalFlip(a, b);
    ComponentsZero(a, b);
    if CompareWritten(a, b) == CompareComponents(a, b) {
      forall n | !HasWire(n) ensures !Cycle(a, n, b) && !Cycle(b, n, a) {
        if Cycle(a, n, b) { CanonicalTransitive(a, n, b); }
        if Cycle(b, n, a) { CanonicalTransitive(b, n, a); }
      }
    } else {
      var a', b' := a.(typWidth := 0, lenWidth := 0), b.(typWidth := 0, lenWidth := 0);
      MemcmpZero(a.value, a.value);
      MemcmpZero(b.value, b.value);
      assert Cycle(a, a', b) || Cycle(b, b', a);
    }
  }

  lemma CanonicalFlip(x: Component, y: Component)
    ensures CompareComponents(x, y) == -CompareComponents(y, x)
  {
    MemcmpFlips(x.value, y.value);
  }

  lemma CanonicalTransitive(x: Component, y: Component, z: Component)
    requires CompareComponents(x, y) <= 0 && CompareComponents(y, z) <= 0
    ensures CompareComponents(x, z) <= 0
  {
    if x.typ == y.typ == z.typ && |x.value| == |y.value| == |z.value| {
      MemcmpTransitive(x.value, y.value, z.value);
    }
  }

  /** A long form, a component without a wire and a short form that make a cycle. */
  lemma HalvesDoNotMix()
    ensures var long, none, short := Component(8, [0], 1, 3), Component(8, [1], 0, 0), Component(8, [2], 1, 1);
            && WireOk(long) && WireOk(short)
            && Halves(long, none) == -1 && Halves(none, short) == -1 && Halves(short, long) == -1
  {
  }

  lemma ComponentsFlip(x: Component, y: Component)
    ensures CompareWritten(x, y) == -CompareWritten(y, x)
  {
    MemcmpFlips(x.value, y.value);
  }

  lemma ComponentsZero(x: Component, y: Component)
    ensures CompareWritten(x, y) == 0 <==> x == y
  {
    if |x.value| == |y.value| { MemcmpZero(x.value, y.value); }
  }

  lemma ComponentsTransitive(x: Component, y: Component, z: Component)
    requires CompareWritten(x, y) <= 0 && CompareWritten(y, z) <= 0
    ensures CompareWritten(x, z) <= 0
    ensures CompareWritten(x, y) < 0 || CompareWritten(y, z) < 0 ==> CompareWritten(x, z) < 0
  {
    if x.typ == y.typ == z.typ && |x.value| == |y.value| == |z.value|
       && x.typWidth == y.typWidth == z.typWidth && x.lenWidth == y.lenWidth == z.lenWidth {
      MemcmpTransitive(x.value, y.value, z.value);
    }
  }
}
