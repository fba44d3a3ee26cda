/** NDN-TLV, as in the TLV encoding section of the NDN Packet Format Specification 0.3 and in
    `NDN/ndn-cxx/ndn-cxx/encoding`: variable-size numbers, non-negative integers, elements, and
    the encoder that writes a packet from its end by prepending. */
module Tlv {
  import opened Basics

  const U16 := 0x1_0000
  const U32 := 0x1_0000_0000
  const U64 := 0x1_0000_0000_0000_0000

  // ----- big-endian numbers -----

  function Pow256(len: nat): (p: nat)
    ensures p > 0
  {
    if len == 0 then 1 else 256 * Pow256(len - 1)
  }

  function BigEndian(n: nat, len: nat): (s: Bytes)
    ensures |s| == len
  {
    if len == 0 then [] else BigEndian(n / 256, len - 1) + [n % 256]
  }

  function ToNat(s: Bytes): (n: nat)
  {
    if s == [] then 0 else ToNat(s[..|s| - 1]) * 256 + s[|s| - 1]
  }

  lemma {:induction false} ToNatUndoesBigEndian(n: nat, len: nat)
    requires n < Pow256(len)
    ensures ToNat(BigEndian(n, len)) == n
  {
    if len > 0 {
      assert n / 256 < Pow256(len - 1);
      ToNatUndoesBigEndian(n / 256, len - 1);
      var s := BigEndian(n, len);
      assert s[..len - 1] == BigEndian(n / 256, len - 1);
    }
  }

  lemma Powers()
    ensures Pow256(1) == 256 && Pow256(2) == U16 && Pow256(4) == U32 && Pow256(8) == U64
  {
    assert Pow256(3) == 0x100_0000;
    assert Pow256(5) == 0x100_0000_0000;
    assert Pow256(6) == 0x1_0000_0000_0000;
    assert Pow256(7) == 0x100_0000_0000_0000;
  }

  // ----- VAR-NUMBER -----

  function VarSize(n: nat): (r: nat) {
    if n < 253 then 1 else if n < U16 then 3 else if n < U32 then 5 else 9
  }

  function VarNumber(n: nat): (s: Bytes)
    ensures |s| == VarSize(n)
  {
    if n < 253 then [n]
    else if n < U16 then [253] + BigEndian(n, 2)
    else if n < U32 then [254] + BigEndian(n, 4)
    else [255] + BigEndian(n, 8)
  }

  /** `readVarNumber`: the number at the head of `s` and its size. Encodings that are longer than
      necessary are accepted. */
  function ReadVarNumber(s: Bytes): (r: Option<(nat, nat)>)
    ensures r.Some? ==> 1 <= r.value.1 <= |s|
  {
    if s == [] then None
    else if s[0] < 253 then Some((s[0], 1))
    else
      var size := if s[0] == 253 then 2 else if s[0] == 254 then 4 else 8;
      if 1 + size > |s| then None else Some((ToNat(s[1..1 + size]), 1 + size))
  }

  lemma ReadUndoesVarNumber(n: nat, rest: Bytes)
    requires n < U64
    ensures ReadVarNumber(VarNumber(n) + rest) == Some((n, VarSize(n)))
  {
    Powers();
    var s := VarNumber(n) + rest;
    var size := VarSize(n) - 1;
    if n >= 253 {
      ToNatUndoesBigEndian(n, size);
      assert s[1..1 + size] == BigEndian(n, size);
    }
  }

  /** The encodings of the TLV encoding section, byte by byte. */
  lemma VarNumberBytes(n: nat)
    requires n < U64
    ensures n < 253 ==> VarNumber(n) == [n]
    ensures 253 <= n < 65536 ==> VarNumber(n) == [253, n / 256, n % 256]
    ensures 65536 <= n < 0x1_0000_0000 ==>
              VarNumber(n) == [254, n / 0x100_0000, n / 65536 % 256, n / 256 % 256, n % 256]
    ensures n >= 0x1_0000_0000 ==> |VarNumber(n)| == 9 && VarNumber(n)[0] == 255
  {
    if 253 <= n < 65536 {
      TwoBytes(n);
    } else if 65536 <= n < 0x1_0000_0000 {
      FourBytes(n);
    }
  }

  lemma TwoBytes(n: nat)
    ensures BigEndian(n, 2) == [n / 256 % 256, n % 256]
  {
    assert BigEndian(n / 256, 1) == [] + [n / 256 % 256];
  }

  lemma FourBytes(n: nat)
    ensures BigEndian(n, 4) == [n / 0x100_0000 % 256, n / 65536 % 256, n / 256 % 256, n % 256]
  {
    TwoBytes(n / 65536);
    assert n / 65536 / 256 == n / 0x100_0000;
    assert BigEndian(n / 256, 3) == BigEndian(n / 256 / 256, 2) + [n / 256 % 256];
    assert n / 256 / 256 == n / 65536;
  }

  // ----- nonNegativeInteger -----

  function IntegerSize(n: nat): (r: nat) {
    if n < 256 then 1 else if n < U16 then 2 else if n < U32 then 4 else 8
  }

  function Integer(n: nat): (s: Bytes)
    ensures |s| == IntegerSize(n)
  {
    BigEndian(n, IntegerSize(n))
  }

  function ReadInteger(s: Bytes): (r: Option<nat>) {
    if |s| == 1 || |s| == 2 || |s| == 4 || |s| == 8 then Some(ToNat(s)) else None
  }

  lemma ReadUndoesInteger(n: nat)
    requires n < U64
    ensures ReadInteger(Integer(n)) == Some(n)
  {
    Powers();
    ToNatUndoesBigEndian(n, IntegerSize(n));
  }

  /** One, two, four or eight bytes, as few as will do. */
  lemma IntegerBytes(n: nat)
    requires n < U64
    ensures n < 256 ==> Integer(n) == [n]
    ensures 256 <= n < 65536 ==> Integer(n) == [n / 256, n % 256]
    ensures 65536 <= n < 0x1_0000_0000 ==>
              Integer(n) == [n / 0x100_0000, n / 65536 % 256, n / 256 % 256, n % 256]
    ensures n >= 0x1_0000_0000 ==> |Integer(n)| == 8
  {
    if n < 256 {
      assert BigEndian(n / 256, 0) == [];
    } else if n < 65536 {
      TwoBytes(n);
    } else if n < 0x1_0000_0000 {
      FourBytes(n);
    }
  }

  // ----- elements -----

  datatype Element = Element(typ: nat, value: Bytes)

  function Encode(e: Element): (s: Bytes)
    ensures |s| == EncodedSize(e.typ, |e.value|)
  {
    VarNumber(e.typ) + VarNumber(|e.value|) + e.value
  }

  function EncodedSize(typ: nat, length: nat): (n: nat) {
    VarSize(typ) + VarSize(length) + length
  }

  function EncodeAll(es: seq<Element>): (s: Bytes) {
    if es == [] then [] else Encode(es[0]) + EncodeAll(es[1..])
  }

  predicate Legal(e: Element) {
    0 < e.typ < U32 && |e.value| < U64
  }

  predicate AllLegal(es: seq<Element>) {
    forall i :: 0 <= i < |es| ==> Legal(es[i])
  }

  /** `readType`, `readVarNumber` and the boundary test: the element at the head of `s`, and its
      size. */
  function ReadElement(s: Bytes): (r: Option<(Element, nat)>)
    ensures r.Some? ==> 0 < r.value.1 <= |s| && 0 < r.value.0.typ < U32 && |r.value.0.value| <= |s|
  {
    match ReadVarNumber(s)
    case None => None
    case Some((typ, n)) =>
      if typ == 0 || typ >= U32 then None
      else
        match ReadVarNumber(s[n..])
        case None => None
        case Some((length, m)) =>
          if length > |s| - n - m then None
          else Some((Element(typ, s[n + m..n + m + length]), n + m + length))
  }

  /** `Block::parse`: the sub-elements of a TLV-VALUE. */
  function Parse(s: Bytes): (r: Option<seq<Element>>)
    decreases |s|
  {
    if s == [] then Some([])
    else
      match ReadElement(s)
      case None => None
      case Some((e, n)) =>
        match Parse(s[n..])
        case None => None
        case Some(es) => Some([e] + es)
  }

  lemma ReadUndoesEncode(e: Element, rest: Bytes)
    requires Legal(e)
    ensures ReadElement(Encode(e) + rest) == Some((e, |Encode(e)|))
  {
    var s := Encode(e) + rest;
    var n, m, l := VarSize(e.typ), VarSize(|e.value|), |e.value|;
    assert s == VarNumber(e.typ) + (VarNumber(l) + e.value + rest);
    ReadUndoesVarNumber(e.typ, VarNumber(l) + e.value + rest);
    assert s[n..] == VarNumber(l) + (e.value + rest);
    ReadUndoesVarNumber(l, e.value + rest);
    assert s[n + m..n + m + l] == e.value;
  }

  lemma {:induction false} ParseUndoesEncode(es: seq<Element>)
    requires AllLegal(es)
    ensures Parse(EncodeAll(es)) == Some(es)
    decreases |es|
  {
    hide Encode, ReadElement, Legal;
    if es != [] {
      var rest := EncodeAll(es[1..]);
      ReadUndoesEncode(es[0], rest);
      ParseUndoesEncode(es[1..]);
      assert (Encode(es[0]) + rest)[|Encode(es[0])|..] == rest;
      assert es == [es[0]] + es[1..];
    }
  }

  lemma {:induction false} ParsedAreLegal(s: Bytes)
    requires Parse(s).Some? && |s| < U64
    ensures AllLegal(Parse(s).value)
    decreases |s|
  {
    if s != [] {
      var (e, n) := ReadElement(s).value;
      ParsedAreLegal(s[n..]);
    }
  }

  // ----- the prepending encoder -----

  /** `std::copy` into a buffer. */
  method Copy(bytes: Bytes, buffer: array<byte>, at: nat)
    requires at + |bytes| <= buffer.Length
    modifies buffer
    ensures buffer[..] == Splice(old(buffer[..]), at, bytes)
  {
    for k := 0 to |bytes|
      invariant buffer[..at] == old(buffer[..at]) && buffer[at + |bytes|..] == old(buffer[at + |bytes|..])
      invariant forall i :: 0 <= i < k ==> buffer[at + i] == bytes[i]
    {
      buffer[at + k] := bytes[k];
    }
    assert buffer[at..at + |bytes|] == bytes;
    assert buffer[..] == buffer[..at] + buffer[at..at + |bytes|] + buffer[at + |bytes|..];
  }

  lemma SpliceTail(s: Bytes, at: nat, bytes: Bytes)
    requires at + |bytes| <= |s|
    ensures Splice(s, at, bytes)[at..] == bytes + s[at + |bytes|..]
  {
  }

  /** `encoding::Encoder`: a buffer filled from its end. */
  class Encoder {
    var buffer: array<byte>
    var begin: nat

    ghost predicate Valid()
      reads this
    {
      begin <= buffer.Length
    }

    ghost function Contents(): Bytes
      reads this, buffer
      requires Valid()
    {
      buffer[begin..]
    }

    constructor (totalReserve: nat)
      ensures Valid() && fresh(buffer) && Contents() == []
      ensures buffer.Length == begin == totalReserve
    {
      buffer := new byte[totalReserve];
      begin := totalReserve;
      new;
    }

    /** `reserveFront` and `reserve`: makes room by moving everything to the end of a larger buffer. */
    method ReserveFront(size: nat)
      requires Valid()
      modifies this
      ensures Valid() && size <= begin && Contents() == old(Contents())
      ensures buffer.Length - begin == old(buffer.Length - begin)
      ensures size <= old(begin) ==> buffer == old(buffer) && begin == old(begin)
      ensures size > old(begin) ==> fresh(buffer)
    {
      if size > begin {
        var old_, len := buffer, buffer.Length;
        var diffBegin := len - begin;
        buffer := new byte[len * 2 + size](i requires 0 <= i < len * 2 + size reads old_ =>
          if i < len + size then 0 else old_[i - len - size]);
        begin := buffer.Length - diffBegin;
        assert buffer[begin..] == old_[len - diffBegin..];
      }
    }

    /** The new contents are `bytes` in front of the old ones; a buffer with room for them is
        kept. */
    twostate predicate Prepended(bytes: Bytes)
      reads this, buffer
      requires old(Valid())
    {
      && Valid()
      && Contents() == bytes + old(Contents())
      && (|bytes| <= old(begin) ==> buffer == old(buffer))
      && (buffer == old(buffer) || fresh(buffer))
    }

    method PrependByteArray(bytes: Bytes) returns (size: nat)
      requires Valid()
      modifies this, buffer
      ensures Prepended(bytes) && size == |bytes|
    {
      ReserveFront(|bytes|);
      ghost var before, tail := buffer[..], Contents();
      assert tail == before[begin..];
      begin := begin - |bytes|;
      Copy(bytes, buffer, begin);
      SpliceTail(before, begin, bytes);
      assert Contents() == buffer[..][begin..];
      size := |bytes|;
    }

    /** A number of two, four or eight bytes, and then the octet that announces its size. */
    method PrependTagged(tag: byte, bytes: Bytes) returns (size: nat)
      requires Valid()
      modifies this, buffer
      ensures Prepended([tag] + bytes) && size == 1 + |bytes|
    {
      ghost var before := Contents();
      size := PrependByteArray(bytes);
      var one := PrependByteArray([tag]);
      Assoc([tag], bytes, before);
      size := size + one;
    }

    method PrependVarNumber(n: nat) returns (size: nat)
      requires Valid() && n < U64
      modifies this, buffer
      ensures Prepended(VarNumber(n)) && size == VarSize(n)
    {
      if n < 253 {
        size := PrependByteArray([n]);
      } else if n < U16 {
        size := PrependTagged(253, BigEndian(n, 2));
      } else if n < U32 {
        size := PrependTagged(254, BigEndian(n, 4));
      } else {
        size := PrependTagged(255, BigEndian(n, 8));
      }
    }

    method PrependInteger(n: nat) returns (size: nat)
      requires Valid() && n < U64
      modifies this, buffer
      ensures Prepended(Integer(n)) && size == IntegerSize(n)
    {
      if n < 256 {
        size := PrependByteArray(BigEndian(n, 1));
      } else if n < U16 {
        size := PrependByteArray(BigEndian(n, 2));
      } else if n < U32 {
        size := PrependByteArray(BigEndian(n, 4));
      } else {
        size := PrependByteArray(BigEndian(n, 8));
      }
    }

    /** TLV-LENGTH and then TLV-TYPE, in front of a value of `length` bytes. */
    method PrependHeader(typ: nat, length: nat) returns (size: nat)
      requires Valid() && typ < U64 && length < U64
      modifies this, buffer
      ensures Prepended(VarNumber(typ) + VarNumber(length)) && size == VarSize(typ) + VarSize(length)
    {
      ghost var before := Contents();
      size := PrependVarNumber(length);
      var more := PrependVarNumber(typ);
      Assoc(VarNumber(typ), VarNumber(length), before);
      size := size + more;
    }

    /** `prependNonNegativeIntegerBlock`. */
    method PrependIntegerBlock(typ: nat, n: nat) returns (size: nat)
      requires Valid() && typ < U64 && n < U64
      modifies this, buffer
      ensures Prepended(Encode(Element(typ, Integer(n)))) && size == |Encode(Element(typ, Integer(n)))|
    {
      ghost var before := Contents();
      size := PrependInteger(n);
      var more := PrependHeader(typ, size);
      Assoc(VarNumber(typ) + VarNumber(IntegerSize(n)), Integer(n), before);
      size := size + more;
    }
  }
}
