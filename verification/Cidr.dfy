/** Address blocks: `NFD/core/network.cpp` and `network.hpp`. A block in CIDR notation (section 3.1
    of RFC 4632, section 2.3 of RFC 4291) is turned into its lowest and highest address, and
    membership is an interval test. The main results are that this test is agreement on the prefix
    bits, for every address and prefix length of both families, and that blocks nest or are
    disjoint. */
module Cidr {
  import opened Basics

  /** Bytes in network order; an IPv6 address may carry a scope id. */
  datatype Address = V4(bytes: seq<bv8>) | V6(bytes: seq<bv8>, scope: nat)

  predicate AddressOk(a: Address) {
    |a.bytes| == if a.V4? then 4 else 16
  }

  datatype Network = Network(minAddress: Address, maxAddress: Address)

  // ----- the interval test -----

  predicate Lt(a: bv8, b: bv8) {
    a < b
  }

  lemma LtIsTotal(a: bv8, b: bv8)
    ensures Lt(a, b) || a == b || Lt(b, a)
    ensures !(Lt(a, b) && Lt(b, a)) && !Lt(a, a) && !Lt(b, b)
  {
  }

  /** Numeric order of equally long addresses. */
  predicate Leq(a: seq<bv8>, b: seq<bv8>)
    requires |a| == |b|
  {
    a == [] || Lt(a[0], b[0]) || (a[0] == b[0] && Leq(a[1..], b[1..]))
  }

  /** The order of `boost::asio::ip::address`: every IPv4 address comes before every IPv6 one, and
      scope ids decide between equal bytes. */
  predicate AddressLeq(a: Address, b: Address)
    requires AddressOk(a) && AddressOk(b)
  {
    if a.V4? then b.V6? || Leq(a.bytes, b.bytes)
    else b.V6? && if a.bytes == b.bytes then a.scope <= b.scope else Leq(a.bytes, b.bytes)
  }

  lemma {:induction false} LeqReflexive(a: seq<bv8>)
    ensures Leq(a, a)
  {
    if a != [] { LeqReflexive(a[1..]); }
  }

  lemma {:induction false} LeqAntisymmetric(a: seq<bv8>, b: seq<bv8>)
    requires |a| == |b| && Leq(a, b) && Leq(b, a)
    ensures a == b
  {
    if a != [] {
      LtIsTotal(a[0], b[0]);
      hide Lt;
      LeqAntisymmetric(a[1..], b[1..]);
      assert a == [a[0]] + a[1..] && b == [b[0]] + b[1..];
    }
  }

  lemma {:induction false} LeqTransitive(a: seq<bv8>, b: seq<bv8>, c: seq<bv8>)
    requires |a| == |b| == |c| && Leq(a, b) && Leq(b, c)
    ensures Leq(a, c)
  {
    if a != [] && a[0] == b[0] == c[0] { LeqTransitive(a[1..], b[1..], c[1..]); }
  }

  predicate NetworkOk(n: Network) {
    AddressOk(n.minAddress) && AddressOk(n.maxAddress)
  }

  predicate DoesContain(n: Network, a: Address)
    requires NetworkOk(n) && AddressOk(a)
  {
    AddressLeq(n.minAddress, a) && AddressLeq(a, n.maxAddress)
  }

  // ----- bits -----

  /** The bit with weight `128 >> k`. */
  function BitMask(k: nat): (m: bv8)
    requires k < 8
  {
    if k == 0 then 0x80 else if k == 1 then 0x40 else if k == 2 then 0x20 else if k == 3 then 0x10
    else if k == 4 then 0x08 else if k == 5 then 0x04 else if k == 6 then 0x02 else 0x01
  }

  predicate Bit(b: bv8, k: nat)
    requires k < 8
  {
    b & BitMask(k) != 0
  }

  predicate BitAt(s: seq<bv8>, i: nat)
    requires i < 8 * |s|
  {
    Bit(s[i / 8], i % 8)
  }

  /** The first `mask` bits are the same. */
  ghost predicate SamePrefix(a: seq<bv8>, b: seq<bv8>, mask: nat)
    requires |a| == |b| && mask <= 8 * |a|
  {
    forall i :: 0 <= i < mask ==> BitAt(a, i) == BitAt(b, i)
  }

  /** A byte whose first `r` bits are set. */
  function PrefixMask(r: nat): (m: bv8)
    requires r <= 8
  {
    if r == 0 then 0 else Or(PrefixMask(r - 1), BitMask(r - 1))
  }

  lemma PrefixMasks()
    ensures PrefixMask(0) == 0 && PrefixMask(1) == 0x80 && PrefixMask(2) == 0xC0 && PrefixMask(3) == 0xE0
    ensures PrefixMask(4) == 0xF0 && PrefixMask(5) == 0xF8 && PrefixMask(6) == 0xFC && PrefixMask(7) == 0xFE
    ensures PrefixMask(8) == 0xFF
  {
    assert PrefixMask(1) == 0x80;
    assert PrefixMask(3) == 0xE0;
    assert PrefixMask(5) == 0xF8;
    assert PrefixMask(7) == 0xFE;
  }

  function Masked(a: bv8, m: bv8): bv8 {
    a & m
  }

  function Filled(a: bv8, m: bv8): bv8 {
    a | !m
  }

  function Or(a: bv8, b: bv8): bv8 {
    a | b
  }

  /** One byte: the interval between the masked and the filled byte is the set of bytes that agree
      on the masked bits. */
  lemma ByteInterval(a: bv8, x: bv8, r: nat)
    requires r <= 8
    ensures var m := PrefixMask(r);
            !Lt(x, Masked(a, m)) && !Lt(Filled(a, m), x) <==> Masked(x, m) == Masked(a, m)
  {
    PrefixMasks();
    var m := PrefixMask(r);
    assert m == 0 || m == 0x80 || m == 0xC0 || m == 0xE0 || m == 0xF0 || m == 0xF8 || m == 0xFC || m == 0xFE || m == 0xFF;
  }

  lemma WholeByte(a: bv8)
    ensures Masked(a, PrefixMask(8)) == a && Filled(a, PrefixMask(8)) == a
  {
    PrefixMasks();
  }

  lemma EmptyByte(a: bv8, x: bv8)
    ensures !Lt(x, Masked(a, PrefixMask(0))) && !Lt(Filled(a, PrefixMask(0)), x)
  {
    PrefixMasks();
  }

  /** One byte: agreeing on the masked bits is agreeing on each of them. */
  lemma {:induction false} ByteBits(a: bv8, x: bv8, r: nat)
    requires r <= 8
    ensures Masked(x, PrefixMask(r)) == Masked(a, PrefixMask(r)) <==> forall k :: 0 <= k < r ==> Bit(a, k) == Bit(x, k)
  {
    hide Masked, Bit, BitMask, PrefixMask, Or;
    if r == 0 {
      NoMask(a, x);
    } else {
      ByteBits(a, x, r - 1);
      PrefixMaskStep(r);
      MaskStep(a, x, PrefixMask(r - 1), BitMask(r - 1));
      BitCompare(a, x, r - 1);
    }
  }

  lemma NoMask(a: bv8, x: bv8)
    ensures Masked(x, PrefixMask(0)) == Masked(a, PrefixMask(0))
  {
  }

  lemma PrefixMaskStep(r: nat)
    requires 0 < r <= 8
    ensures PrefixMask(r) == Or(PrefixMask(r - 1), BitMask(r - 1))
  {
  }

  lemma Distributes(x: bv8, m: bv8, b: bv8)
    ensures Masked(x, Or(m, b)) == Or(Masked(x, m), Masked(x, b))
  {
  }

  lemma Absorbs(x: bv8, m: bv8, b: bv8)
    ensures Masked(Masked(x, Or(m, b)), m) == Masked(x, m)
    ensures Masked(Masked(x, Or(m, b)), b) == Masked(x, b)
  {
  }

  lemma MaskStep(a: bv8, x: bv8, m: bv8, b: bv8)
    ensures Masked(x, Or(m, b)) == Masked(a, Or(m, b)) <==> Masked(x, m) == Masked(a, m) && Masked(x, b) == Masked(a, b)
  {
    hide Masked, Or;
    Distributes(x, m, b);
    Distributes(a, m, b);
    Absorbs(x, m, b);
    Absorbs(a, m, b);
  }

  lemma BitCompare(a: bv8, x: bv8, k: nat)
    requires k < 8
    ensures Masked(x, BitMask(k)) == Masked(a, BitMask(k)) <==> Bit(a, k) == Bit(x, k)
  {
    var m := BitMask(k);
    assert m == 0x80 || m == 0x40 || m == 0x20 || m == 0x10 || m == 8 || m == 4 || m == 2 || m == 1;
  }

  // ----- whole addresses -----

  function Min8(m: nat): nat {
    if m <= 8 then m else 8
  }

  /** The lowest and the highest address with the first `mask` bits of `a`. */
  function Low(a: seq<bv8>, mask: nat): (r: seq<bv8>)
    ensures |r| == |a|
  {
    if a == [] then [] else [Masked(a[0], PrefixMask(Min8(mask)))] + Low(a[1..], mask - Min8(mask))
  }

  function High(a: seq<bv8>, mask: nat): (r: seq<bv8>)
    ensures |r| == |a|
  {
    if a == [] then [] else [Filled(a[0], PrefixMask(Min8(mask)))] + High(a[1..], mask - Min8(mask))
  }

  lemma {:induction false} Unmasked(a: seq<bv8>, x: seq<bv8>)
    requires |a| == |x|
    ensures Leq(Low(a, 0), x) && Leq(x, High(a, 0))
  {
    hide Masked, Filled, PrefixMask, Lt;
    if a != [] {
      var lo, hi := Low(a, 0), High(a, 0);
      EmptyByte(a[0], x[0]);
      LtIsTotal(lo[0], x[0]);
      LtIsTotal(x[0], hi[0]);
      assert lo[1..] == Low(a[1..], 0) && hi[1..] == High(a[1..], 0);
      Unmasked(a[1..], x[1..]);
    }
  }

  /** Agreement on the first `mask` bits, byte by byte. */
  ghost predicate SameBytes(a: seq<bv8>, x: seq<bv8>, mask: nat)
    requires |a| == |x|
  {
    a == [] || (Masked(x[0], PrefixMask(Min8(mask))) == Masked(a[0], PrefixMask(Min8(mask))) && SameBytes(a[1..], x[1..], mask - Min8(mask)))
  }

  lemma {:induction false} NothingMasked(a: seq<bv8>, x: seq<bv8>)
    requires |a| == |x|
    ensures SameBytes(a, x, 0)
  {
    if a != [] {
      NoMask(a[0], x[0]);
      NothingMasked(a[1..], x[1..]);
    }
  }

  lemma {:induction false} IntervalIsPrefix(a: seq<bv8>, x: seq<bv8>, mask: nat)
    requires |a| == |x|
    ensures Leq(Low(a, mask), x) && Leq(x, High(a, mask)) <==> SameBytes(a, x, mask)
  {
    hide Masked, Filled, PrefixMask, Lt;
    if a != [] {
      var r := Min8(mask);
      var lo, hi := Low(a, mask), High(a, mask);
      assert lo[1..] == Low(a[1..], mask - r) && hi[1..] == High(a[1..], mask - r);
      LtIsTotal(lo[0], x[0]);
      LtIsTotal(x[0], hi[0]);
      if r == 8 {
        WholeByte(a[0]);
        WholeByte(x[0]);
        IntervalIsPrefix(a[1..], x[1..], mask - r);
      } else {
        ByteInterval(a[0], x[0], r);
        Unmasked(a[1..], x[1..]);
        NothingMasked(a[1..], x[1..]);
      }
    }
  }

  lemma {:induction false} SameBytesIsSamePrefix(a: seq<bv8>, x: seq<bv8>, mask: nat)
    requires |a| == |x| && mask <= 8 * |a|
    ensures SameBytes(a, x, mask) <==> SamePrefix(a, x, mask)
  {
    hide Masked, PrefixMask, Bit, BitAt, SamePrefix;
    if a == [] {
      NoBits(a, x);
    } else {
      var r := Min8(mask);
      ByteBits(a[0], x[0], r);
      SameBytesIsSamePrefix(a[1..], x[1..], mask - r);
      BitsShift(a, mask, r);
      BitsShift(x, mask, r);
      PrefixSplits(a, x, mask, r);
    }
  }

  lemma NoBits(a: seq<bv8>, x: seq<bv8>)
    requires |a| == |x|
    ensures SamePrefix(a, x, 0)
  {
  }

  lemma BitsShift(a: seq<bv8>, mask: nat, r: nat)
    requires a != [] && mask <= 8 * |a| && r == Min8(mask)
    ensures forall i :: 0 <= i < r ==> BitAt(a, i) == Bit(a[0], i)
    ensures forall i :: 0 <= i < mask - r ==> BitAt(a, i + 8) == BitAt(a[1..], i)
  {
    hide Bit;
    forall i | 0 <= i < mask - r ensures BitAt(a, i + 8) == BitAt(a[1..], i) {
      assert (i + 8) / 8 == i / 8 + 1 && (i + 8) % 8 == i % 8;
    }
  }

  lemma PrefixSplits(a: seq<bv8>, x: seq<bv8>, mask: nat, r: nat)
    requires |a| == |x| > 0 && mask <= 8 * |a| && r == Min8(mask)
    requires forall i :: 0 <= i < r ==> BitAt(a, i) == Bit(a[0], i) && BitAt(x, i) == Bit(x[0], i)
    requires forall i :: 0 <= i < mask - r ==> BitAt(a, i + 8) == BitAt(a[1..], i) && BitAt(x, i + 8) == BitAt(x[1..], i)
    ensures SamePrefix(a, x, mask) <==> (forall k :: 0 <= k < r ==> Bit(a[0], k) == Bit(x[0], k)) && SamePrefix(a[1..], x[1..], mask - r)
  {
    if SamePrefix(a, x, mask) {
      forall k | 0 <= k < r ensures Bit(a[0], k) == Bit(x[0], k) {
        assert BitAt(a, k) == BitAt(x, k);
      }
      forall i | 0 <= i < mask - r ensures BitAt(a[1..], i) == BitAt(x[1..], i) {
        assert BitAt(a, i + 8) == BitAt(x, i + 8);
      }
    }
    if (forall k :: 0 <= k < r ==> Bit(a[0], k) == Bit(x[0], k)) && SamePrefix(a[1..], x[1..], mask - r) {
      forall i | 0 <= i < mask ensures BitAt(a, i) == BitAt(x, i) {
        if i >= r {
          assert BitAt(a[1..], i - 8) == BitAt(x[1..], i - 8);
          assert BitAt(a, i - 8 + 8) == BitAt(x, i - 8 + 8);
        } else {
          assert Bit(a[0], i) == Bit(x[0], i);
        }
      }
    }
  }

  // ----- blocks -----

  function MaxPrefix(a: Address): nat {
    if a.V4? then 32 else 128
  }

  function WithBytes(a: Address, bytes: seq<bv8>): Address {
    if a.V4? then V4(bytes) else V6(bytes, 0)
  }

  /** The block of all addresses that share the first `mask` bits of `a`. */
  function Block(a: Address, mask: nat): (n: Network) {
    Network(WithBytes(a, Low(a.bytes, mask)), WithBytes(a, High(a.bytes, mask)))
  }

  ghost predicate InFamily(a: Address, x: Address, mask: nat)
    requires AddressOk(a) && AddressOk(x) && mask <= MaxPrefix(a)
  {
    a.V4? == x.V4? && SamePrefix(a.bytes, x.bytes, mask)
  }

  /** Membership in a block is agreement on its prefix, within its family; only the highest address
      of an IPv6 block is not in it with a scope id. */
  lemma MembershipIsPrefix(a: Address, mask: nat, x: Address)
    requires AddressOk(a) && AddressOk(x) && mask <= MaxPrefix(a)
    ensures NetworkOk(Block(a, mask))
    ensures DoesContain(Block(a, mask), x) <==>
            InFamily(a, x, mask) && (x.V4? || x.scope == 0 || x.bytes != High(a.bytes, mask))
  {
    if a.V4? == x.V4? {
      IntervalIsPrefix(a.bytes, x.bytes, mask);
      SameBytesIsSamePrefix(a.bytes, x.bytes, mask);
      LeqReflexive(x.bytes);
    }
  }

  ghost predicate Inside(m: Network, n: Network)
    requires NetworkOk(m) && NetworkOk(n)
  {
    forall x :: AddressOk(x) && DoesContain(m, x) ==> DoesContain(n, x)
  }

  ghost predicate Disjoint(m: Network, n: Network)
    requires NetworkOk(m) && NetworkOk(n)
  {
    forall x :: AddressOk(x) ==> !(DoesContain(m, x) && DoesContain(n, x))
  }

  /** Two blocks are nested or disjoint: the one with the longer prefix lies inside the other
      exactly when its address has the other's prefix. */
  lemma BlocksNest(a: Address, p: nat, b: Address, q: nat)
    requires AddressOk(a) && AddressOk(b) && p <= q && p <= MaxPrefix(a) && q <= MaxPrefix(b)
    ensures NetworkOk(Block(a, p)) && NetworkOk(Block(b, q))
    ensures if InFamily(a, b, p) then Inside(Block(b, q), Block(a, p)) else Disjoint(Block(b, q), Block(a, p))
  {
    hide SamePrefix, High, Low, DoesContain;
    MembershipIsPrefix(a, p, b);
    MembershipIsPrefix(b, q, b);
    forall x | AddressOk(x)
      ensures DoesContain(Block(b, q), x) ==> (DoesContain(Block(a, p), x) <==> InFamily(a, b, p))
    {
      MembershipIsPrefix(a, p, x);
      MembershipIsPrefix(b, q, x);
      if a.V4? == b.V4? == x.V4? && SamePrefix(b.bytes, x.bytes, q) {
        PrefixTransfers(a.bytes, b.bytes, x.bytes, p, q);
        if SamePrefix(a.bytes, b.bytes, p) && x.bytes == High(a.bytes, p) {
          HighestIsHighest(a.bytes, p, b.bytes, q);
        }
      }
    }
  }

  /** The highest address of a block is the highest of every block inside it that it belongs to. */
  lemma HighestIsHighest(a: seq<bv8>, p: nat, b: seq<bv8>, q: nat)
    requires |a| == |b| && p <= q <= 8 * |a|
    requires SamePrefix(a, b, p) && SamePrefix(b, High(a, p), q)
    ensures High(b, q) == High(a, p)
  {
    hide SamePrefix, High, Low;
    var x, h := High(a, p), High(b, q);
    IntervalIsPrefix(b, x, q);
    SameBytesIsSamePrefix(b, x, q);
    LeqTransitive(Low(b, q), x, h);
    LeqReflexive(h);
    IntervalIsPrefix(b, h, q);
    SameBytesIsSamePrefix(b, h, q);
    PrefixTransfers(a, b, h, p, q);
    IntervalIsPrefix(a, h, p);
    SameBytesIsSamePrefix(a, h, p);
    LeqAntisymmetric(h, x);
  }

  lemma PrefixTransfers(a: seq<bv8>, b: seq<bv8>, x: seq<bv8>, p: nat, q: nat)
    requires |a| == |b| == |x| && p <= q <= 8 * |a| && SamePrefix(b, x, q)
    ensures SamePrefix(a, x, p) <==> SamePrefix(a, b, p)
  {
    assert forall i :: 0 <= i < p ==> BitAt(b, i) == BitAt(x, i);
  }

  // ----- reading a block -----

  function Clamp(m: int): (r: nat)
    ensures r <= 8
  {
    if m < 0 then 0 else if m > 8 then 8 else m
  }

  lemma ShiftIsBit(k: nat)
    requires k < 8
    ensures (1 as bv8) << (7 - k) == BitMask(k)
  {
    assert k == 0 || k == 1 || k == 2 || k == 3 || k == 4 || k == 5 || k == 6 || k == 7;
  }

  /** The loop that sets the bits of `maskBytes` one by one. */
  method BuildMask(size: nat, mask: nat) returns (maskBytes: array<bv8>)
    requires mask <= 8 * size
    ensures fresh(maskBytes) && maskBytes.Length == size
    ensures forall b :: 0 <= b < size ==> maskBytes[b] == PrefixMask(Clamp(mask - 8 * b))
  {
    maskBytes := new bv8[size](_ => 0);
    for i := 0 to mask
      invariant forall b :: 0 <= b < size ==> maskBytes[b] == PrefixMask(Clamp(i - 8 * b))
    {
      hide PrefixMask, BitMask;
      var byteId, bitIndex := i / 8, 7 - i % 8;
      ShiftIsBit(i % 8);
      PrefixMaskStep(i % 8 + 1);
      maskBytes[byteId] := Or(maskBytes[byteId], (1 as bv8) << bitIndex);
      assert Clamp(i - 8 * byteId) == i % 8 && Clamp(i + 1 - 8 * byteId) == i % 8 + 1;
      assert forall b :: 0 <= b < size && b != byteId ==> Clamp(i + 1 - 8 * b) == Clamp(i - 8 * b);
    }
  }

  lemma {:induction false} LowHighAt(a: seq<bv8>, mask: nat, i: nat)
    requires i < |a|
    ensures Low(a, mask)[i] == Masked(a[i], PrefixMask(Clamp(mask - 8 * i)))
    ensures High(a, mask)[i] == Filled(a[i], PrefixMask(Clamp(mask - 8 * i)))
  {
    hide Masked, Filled, PrefixMask;
    if i > 0 {
      LowHighAt(a[1..], mask - Min8(mask), i - 1);
      assert Clamp(mask - Min8(mask) - 8 * (i - 1)) == Clamp(mask - 8 * i);
    } else {
      assert Clamp(mask) == Min8(mask);
    }
  }

  /** The loops over `maskBytes`, `min` and `max`. */
  method MakeBlock(a: Address, mask: nat) returns (n: Network)
    requires AddressOk(a) && mask <= MaxPrefix(a)
    ensures n == Block(a, mask)
  {
    hide Masked, Filled, PrefixMask, Low, High, Clamp;
    var size := |a.bytes|;
    var maskBytes := BuildMask(size, mask);
    var min, max := new bv8[size], new bv8[size];
    for i := 0 to size
      invariant forall b :: 0 <= b < size ==> maskBytes[b] == PrefixMask(Clamp(mask - 8 * b))
      invariant forall b :: 0 <= b < i ==> min[b] == Low(a.bytes, mask)[b] && max[b] == High(a.bytes, mask)[b]
    {
      LowHighAt(a.bytes, mask, i);
      min[i] := Masked(a.bytes[i], maskBytes[i]);
      max[i] := Filled(a.bytes[i], maskBytes[i]);
    }
    assert min[..] == Low(a.bytes, mask) && max[..] == High(a.bytes, mask);
    n := Network(WithBytes(a, min[..]), WithBytes(a, max[..]));
  }

  function FindSlash(s: string): (p: nat)
    ensures p <= |s| && '/' !in s[..p]
    ensures p < |s| ==> s[p] == '/'
  {
    if s == [] || s[0] == '/' then 0 else 1 + FindSlash(s[1..])
  }

  predicate AllDigits(s: string) {
    forall i :: 0 <= i < |s| ==> '0' <= s[i] <= '9'
  }

  function Decimal(s: string): (n: nat)
    requires AllDigits(s)
  {
    if s == [] then 0 else Decimal(s[..|s| - 1]) * 10 + (s[|s| - 1] as int - '0' as int)
  }

  const SIZE_MAX := 0xFFFF_FFFF_FFFF_FFFF

  /** `boost::lexical_cast<size_t>` of a string of digits. */
  function ToSize(s: string): (r: Option<nat>)
    requires AllDigits(s)
  {
    if s == [] || Decimal(s) > SIZE_MAX then None else Some(Decimal(s))
  }

  ghost function Reading(s: string, fromString: string -> Option<Address>): Option<Network> {
    var p := FindSlash(s);
    if p == |s| then
      if fromString(s).Some? then Some(Network(fromString(s).value, fromString(s).value)) else None
    else
      var a, len := fromString(s[..p]), s[p + 1..];
      if a.Some? && AllDigits(len) && ToSize(len).Some? && ToSize(len).value <= MaxPrefix(a.value)
      then Some(Block(a.value, ToSize(len).value)) else None
  }

  /** The decimal digits of a number. */
  function DigitsOf(n: nat): (s: string)
    ensures s != [] && AllDigits(s)
  {
    if n < 10 then ["0123456789"[n]] else DigitsOf(n / 10) + ["0123456789"[n % 10]]
  }

  lemma DigitValue(n: nat)
    requires n < 10
    ensures "0123456789"[n] as int - '0' as int == n
  {
  }

  lemma {:induction false} DecimalUndoesDigits(n: nat)
    ensures Decimal(DigitsOf(n)) == n
  {
    var s := DigitsOf(n);
    DigitValue(n % 10);
    if n < 10 {
      assert s[..0] == [];
    } else {
      assert s[..|s| - 1] == DigitsOf(n / 10);
      DecimalUndoesDigits(n / 10);
    }
  }

  /** Hundreds, tens and ones, leading zeros included. */
  lemma DecimalPlaces(a: char, b: char, c: char)
    requires '0' <= a <= '9' && '0' <= b <= '9' && '0' <= c <= '9'
    ensures Decimal([c]) == c as int - 48
    ensures Decimal([b, c]) == 10 * (b as int - 48) + (c as int - 48)
    ensures Decimal([a, b, c]) == 100 * (a as int - 48) + 10 * (b as int - 48) + (c as int - 48)
  {
    assert [c][..0] == [] && [b, c][..1] == [b] && [b][..0] == [] && [a, b, c][..2] == [a, b] && [a, b][..1] == [a] && [a][..0] == [];
    assert Decimal([a]) == a as int - 48 && Decimal([b]) == b as int - 48;
    assert Decimal([a, b]) == 10 * (a as int - 48) + (b as int - 48);
  }

  lemma {:induction false} FirstSlash(text: string, rest: string)
    requires '/' !in text
    ensures FindSlash(text + "/" + rest) == |text|
  {
    var s := text + "/" + rest;
    if text == [] {
      assert s[0] == '/';
    } else {
      assert s[1..] == text[1..] + "/" + rest;
      FirstSlash(text[1..], rest);
    }
  }

  lemma {:induction false} NoSlash(text: string)
    requires '/' !in text
    ensures FindSlash(text) == |text|
  {
    if text != [] { NoSlash(text[1..]); }
  }

  /** An address followed by a slash and a number reads as the block of that address and prefix
      length, which may be up to 32 for IPv4 and 128 for IPv6; an address alone reads as itself. */
  lemma ReadingOfText(text: string, k: nat, fromString: string -> Option<Address>)
    requires '/' !in text
    ensures Reading(text + "/" + DigitsOf(k), fromString)
            == match fromString(text)
               case None => None
               case Some(a) => if k <= (if a.V4? then 32 else 128) then Some(Block(a, k)) else None
    ensures Reading(text, fromString)
            == match fromString(text) case None => None case Some(a) => Some(Network(a, a))
  {
    var s := text + "/" + DigitsOf(k);
    FirstSlash(text, DigitsOf(k));
    NoSlash(text);
    DecimalUndoesDigits(k);
    assert s[..|text|] == text && s[|text| + 1..] == DigitsOf(k);
  }

  /** Nothing or anything but digits behind the slash makes no network. */
  lemma ReadingFails(text: string, rest: string, fromString: string -> Option<Address>)
    requires '/' !in text && (rest == [] || exists i :: 0 <= i < |rest| && !('0' <= rest[i] <= '9'))
    ensures Reading(text + "/" + rest, fromString) == None
  {
    var s := text + "/" + rest;
    FirstSlash(text, rest);
    assert s[|text| + 1..] == rest;
  }

  /** `operator>>`: the network a string stands for, or `None` where the stream fails. How an
      address is written is left to `fromString`. */
  method ReadNetwork(s: string, fromString: string -> Option<Address>) returns (n: Option<Network>)
    requires forall t :: fromString(t).Some? ==> AddressOk(fromString(t).value)
    ensures n.Some? ==> NetworkOk(n.value)
    ensures n == Reading(s, fromString)
  {
    var position := FindSlash(s);
    if position == |s| {
      var a := fromString(s);
      if a.None? { return None; }
      return Some(Network(a.value, a.value));
    }
    var address := fromString(s[..position]);
    if address.None? { return None; }
    var prefixLenStr := s[position + 1..];
    if !AllDigits(prefixLenStr) { return None; }
    var mask := ToSize(prefixLenStr);
    if mask.None? { return None; }
    if mask.value > MaxPrefix(address.value) { return None; }
    var block := MakeBlock(address.value, mask.value);
    return Some(block);
  }
}
