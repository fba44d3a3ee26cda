/** The `Data` object of `data.cpp`: packet fields, a cached wire encoding and a cached full name.

    The main result is that the caches are coherent after every run of calls that do not throw,
    and exactly which throwing calls break them. */
module DataObject {
  import opened Basics
  import opened Tlv
  import opened NdnName
  import opened NameOrder
  import opened DelegationLists
  import opened DelegationListObject
  import opened PacketCodec

  /** The fields of the object; the empty full name that stands for "not computed" is `None`. */
  datatype Cache = Cache(p: Packet, wire: Option<Bytes>, fullName: Option<Name>)

  function FullName(name: Name, w: Bytes, digest: Bytes -> Bytes): (n: Name) {
    name + [Minimal(Element(IMPLICIT_DIGEST, digest(w)))]
  }

  /** A cached wire decodes to exactly the current fields, and a cached full name is the name with
      the digest of that wire. */
  predicate Coherent(c: Cache, digest: Bytes -> Bytes) {
    && (c.wire.Some? ==> DecodeWire(c.wire.value) == Some(c.p))
    && (c.fullName.Some? ==> c.wire.Some? && c.fullName.value == FullName(c.p.name, c.wire.value, digest))
  }

  // ----- operations on values -----

  datatype DataOp =
    | SetName(name: Name)
    | SetMetaInfo(meta: MetaInfo)
    | SetContentType(contentType: nat)
    | SetFreshnessPeriod(freshness: int)
    | SetFinalBlock(finalBlock: Option<Element>)
    | SetContent(value: Bytes)
    | UnsetContent
    | SetSignatureInfo(info: SigInfo)
    | SetSignatureValue(sig: Bytes)
    | WireEncode
    | WireDecode(wire: Bytes)
    | GetFullName

  /** Arguments the C++ types can represent. A block is a complete element. */
  predicate OpOk(op: DataOp) {
    match op
    case SetMetaInfo(m) => MetaOk(m)
    case SetContentType(t) => t < U32
    case SetFreshnessPeriod(f) => -0x8000_0000_0000_0000 <= f < 0x8000_0000_0000_0000
    case SetFinalBlock(fb) => fb.Some? ==> Legal(fb.value) && ComponentOk(fb.value)
    case WireDecode(w) => |w| < U64 && IsBlock(w)
    case _ => true
  }

  predicate IsBlock(w: Bytes) {
    var r := ReadElement(w);
    r.Some? && r.value.1 == |w|
  }

  function Reset(p: Packet): Cache {
    Cache(p, None, None)
  }

  /** The object after a call, or `None` if the call throws. */
  function Call(c: Cache, op: DataOp, digest: Bytes -> Bytes): (r: Option<Cache>)
    requires OpOk(op) && MetaOk(c.p.meta)
  {
    match op
    case SetName(n) => Some(if SameName(n, c.p.name) then c else Reset(c.p.(name := n)))
    case SetMetaInfo(m) => Some(Reset(c.p.(meta := m)))
    case SetContentType(t) => Some(if t == c.p.meta.contentType then c else Reset(c.p.(meta := c.p.meta.(contentType := t))))
    case SetFreshnessPeriod(f) =>
      if f == c.p.meta.freshness then Some(c) else if f < 0 then None
      else Some(Reset(c.p.(meta := c.p.meta.(freshness := f))))
    case SetFinalBlock(fb) => Some(if fb == c.p.meta.finalBlock then c else Reset(c.p.(meta := c.p.meta.(finalBlock := fb))))
    case SetContent(v) => Some(Reset(c.p.(content := Some(v))))
    case UnsetContent => Some(Reset(c.p.(content := None)))
    case SetSignatureInfo(s) => Some(Reset(c.p.(sigInfo := Some(s))))
    case SetSignatureValue(v) => Some(Reset(c.p.(sigValue := Some(v))))
    case WireEncode =>
      if c.wire.Some? then Some(c)
      else if c.p.sigInfo.None? then None
      else Decoded(EncodePacket(c.p))
    case WireDecode(w) => Decoded(w)
    case GetFullName =>
      if c.fullName.Some? then Some(c)
      else if c.wire.None? then None
      else Some(c.(fullName := Some(FullName(c.p.name, c.wire.value, digest))))
  }

  function Decoded(w: Bytes): (r: Option<Cache>) {
    match DecodeWire(w)
    case None => None
    case Some(p) => Some(Cache(p, Some(w), None))
  }

  /** The fields of a packet other than those numbered: name, MetaInfo, content, SignatureInfo,
      signature value. */
  predicate Others(p: Packet, q: Packet, changed: set<nat>) {
    && (0 !in changed ==> q.name == p.name)
    && (1 !in changed ==> q.meta == p.meta)
    && (2 !in changed ==> q.content == p.content)
    && (3 !in changed ==> q.sigInfo == p.sigInfo)
    && (4 !in changed ==> q.sigValue == p.sigValue)
  }

  // ----- coherence over runs -----

  lemma {:induction false} ToNatBound(s: Bytes)
    ensures ToNat(s) < Pow256(|s|)
  {
    if s != [] { ToNatBound(s[..|s| - 1]); }
  }

  lemma DecodedMetaOk(es: seq<Element>)
    requires AllLegal(es) && DecodeMeta(es).Some?
    ensures MetaOk(DecodeMeta(es).value)
  {
    Powers();
    var afterType := Rest(es, CONTENT_TYPE);
    if Starts(afterType, FRESHNESS_PERIOD) { ToNatBound(afterType[0].value); }
  }

  lemma {:induction false} ScanKeepsMetaOk(es: seq<Element>, last: nat, p: Packet)
    requires AllLegal(es) && MetaOk(p.meta) && Scan(es, last, p).Some?
    ensures MetaOk(Scan(es, last, p).value.meta)
    decreases |es|
  {
    if es != [] {
      var e := es[0];
      if e.typ == META_INFO {
        ParsedAreLegal(e.value);
        DecodedMetaOk(Parse(e.value).value);
        ScanKeepsMetaOk(es[1..], 2, p.(meta := ParseMeta(e.value).value));
      } else if e.typ == CONTENT {
        ScanKeepsMetaOk(es[1..], 3, p.(content := Some(e.value)));
      } else if e.typ == SIGNATURE_INFO {
        ScanKeepsMetaOk(es[1..], 4, p.(sigInfo := Some(ParseSig(e.value).value)));
      } else if e.typ == SIGNATURE_VALUE {
        ScanKeepsMetaOk(es[1..], 5, p.(sigValue := Some(e.value)));
      } else {
        ScanKeepsMetaOk(es[1..], last, p);
      }
    }
  }

  /** Decoding yields MetaInfo that can be encoded. */
  lemma DecodedPacketMetaOk(w: Bytes)
    requires |w| < U64 && DecodeWire(w).Some?
    ensures MetaOk(DecodeWire(w).value.meta)
  {
    var e := ReadElement(w).value.0;
    ParsedAreLegal(e.value);
    var es := Parse(e.value).value;
    ScanKeepsMetaOk(es[1..], 1, Packet(ParseName(es[0].value).value, DEFAULT_META, None, None, None));
  }

  ghost predicate Sound(c: Cache, digest: Bytes -> Bytes) {
    Coherent(c, digest) && MetaOk(c.p.meta)
  }

  /** An encoding that is about to be cached has a length. */
  ghost predicate Sized(c: Cache, op: DataOp) {
    op.WireEncode? && c.p.sigInfo.Some? && MetaOk(c.p.meta) ==> |EncodePacket(c.p)| < U64
  }

  lemma CallKeepsCoherent(c: Cache, op: DataOp, digest: Bytes -> Bytes)
    requires OpOk(op) && Sound(c, digest) && Sized(c, op) && Call(c, op, digest).Some?
    ensures Sound(Call(c, op, digest).value, digest)
  {
    match op
    case WireEncode =>
      if c.wire.None? { DecodedPacketMetaOk(EncodePacket(c.p)); }
    case WireDecode(w) => DecodedPacketMetaOk(w);
    case _ =>
  }

  /** `cs` are the states of an object over a run of calls none of which throws. */
  ghost predicate Run(cs: seq<Cache>, ops: seq<DataOp>, digest: Bytes -> Bytes) {
    && |cs| == |ops| + 1
    && forall k :: 0 <= k < |ops| ==>
         && OpOk(ops[k]) && MetaOk(cs[k].p.meta) && Sized(cs[k], ops[k])
         && Call(cs[k], ops[k], digest) == Some(cs[k + 1])
  }

  /** Over every run of calls that do not throw, the caches stay coherent. */
  lemma {:induction false} EveryRunCoherent(cs: seq<Cache>, ops: seq<DataOp>, digest: Bytes -> Bytes, k: nat)
    requires Run(cs, ops, digest) && Sound(cs[0], digest) && k < |cs|
    ensures Sound(cs[k], digest)
  {
    if k > 0 {
      EveryRunCoherent(cs, ops, digest, k - 1);
      assert Call(cs[k - 1], ops[k - 1], digest) == Some(cs[k - 1 + 1]);
      CallKeepsCoherent(cs[k - 1], ops[k - 1], digest);
    }
  }

  // ----- an object that does not encode to itself -----

  lemma {:induction false} SmallEncoding(es: seq<Element>, k: nat)
    requires forall i :: 0 <= i < |es| ==> |es[i].value| <= k
    ensures |EncodeAll(es)| <= |es| * (18 + k)
  {
    if es != [] {
      SmallEncoding(es[1..], k);
      assert |Encode(es[0])| <= 18 + k;
      assert (1 + |es[1..]|) * (18 + k) == (18 + k) + |es[1..]| * (18 + k);
    }
  }

  /** Packets with no name and no content, with these MetaInfo fields. */
  function Small(finalBlock: Option<Element>, app: seq<Element>): Packet {
    Packet([], MetaInfo(0, 0, finalBlock, app), None, Some(SigInfo(0, None, [])), Some([]))
  }

  predicate SmallMeta(finalBlock: Option<Element>, app: seq<Element>) {
    && (finalBlock.Some? ==> finalBlock.value == Element(8, [1]))
    && (app == [] || app == [Element(FINAL_BLOCK_ID, Encode(Element(8, [1])))])
  }

  lemma SmallMetaOk(finalBlock: Option<Element>, app: seq<Element>)
    requires SmallMeta(finalBlock, app)
    ensures var m := MetaInfo(0, 0, finalBlock, app);
            MetaOk(m) && AllLegal(MetaFields(m)) && |EncodeAll(MetaFields(m))| <= 300
  {
    hide EncodeAll, Encode;
    var m := MetaInfo(0, 0, finalBlock, app);
    assert |Encode(Element(8, [1]))| == 3;
    assert AllLegal(app) && MetaOk(m);
    assert MetaFields(m) == FinalBlockField(m) + app;
    SmallEncoding(MetaFields(m), 100);
  }

  lemma SmallSigOk()
    ensures var s := SigInfo(0, None, []); SigOk(s) && AllLegal(SigFields(s)) && |EncodeAll(SigFields(s))| <= 300
  {
    hide EncodeAll;
    SmallEncoding(SigFields(SigInfo(0, None, [])), 100);
  }

  lemma SmallOk(finalBlock: Option<Element>, app: seq<Element>)
    requires SmallMeta(finalBlock, app)
    ensures PacketOk(Small(finalBlock, app)) && |EncodePacket(Small(finalBlock, app))| < U64
  {
    hide Encode, EncodeAll, MetaFields, SigFields, MetaOk, SigOk, SmallMeta;
    var p := Small(finalBlock, app);
    SmallMetaOk(finalBlock, app);
    SmallSigOk();
    SmallEncoding(PlainName(p.name), 0);
    assert |PacketFields(p)| == 4;
    SmallEncoding(PacketFields(p), 300);
  }

  /** The setters refuse an application element that could be taken for a standard field, but a
      packet may be received with two FinalBlockId elements. Once the first is unset, encoding brings
      it back from the second, and the packet is no longer the one that was to be encoded. */
  lemma AmbiguousMetaIsReachable(digest: Bytes -> Bytes)
    ensures var block := Element(8, [1]);
            var app := [Element(FINAL_BLOCK_ID, Encode(block))];
            var received, unset, encoded := Small(Some(block), app), Small(None, app), Small(Some(block), []);
            && PacketOk(received)
            && var w := EncodePacket(received);
            && OpOk(DataOp.WireDecode(w))
            && Call(Reset(Packet([], DEFAULT_META, None, None, None)), DataOp.WireDecode(w), digest)
               == Some(Cache(received, Some(w), None))
            && Call(Cache(received, Some(w), None), DataOp.SetFinalBlock(None), digest) == Some(Reset(unset))
            && Call(Reset(unset), DataOp.WireEncode, digest).Some?
            && Call(Reset(unset), DataOp.WireEncode, digest).value.p == encoded != unset
  {
    hide Encode, EncodeAll, DecodeMeta, DecodeSig, ReadElement, PacketOk, DecodeWire;
    var block := Element(8, [1]);
    var app := [Element(FINAL_BLOCK_ID, Encode(block))];
    var received, unset := Small(Some(block), app), Small(None, app);
    SmallOk(Some(block), app);
    SmallOk(None, app);
    DecodeEncodedPacket(received);
    DecodeEncodedPacket(unset);
    MetaRoundTrip(received.meta);
    SigRoundTrip(received.sigInfo.value);
    SecondBecomesFirst();
    assert Canonical([]) == [];
  }

  lemma SecondBecomesFirst()
    ensures var block := Element(8, [1]);
            var app := [Element(FINAL_BLOCK_ID, Encode(block))];
            DecodeMeta(MetaFields(MetaInfo(0, 0, None, app))) == Some(MetaInfo(0, 0, Some(block), []))
  {
    var block := Element(8, [1]);
    var app := [Element(FINAL_BLOCK_ID, Encode(block))];
    ReadUndoesEncode(block, []);
    assert Encode(block) + [] == Encode(block);
    hide Encode, ReadElement;
    assert MetaFields(MetaInfo(0, 0, None, app)) == app;
    assert Rest(app, CONTENT_TYPE) == app && Rest(app, FRESHNESS_PERIOD) == app && Rest(app, FINAL_BLOCK_ID) == [];
  }

  // ----- the object -----

  class Data {
    const digest: Bytes -> Bytes
    var name: Name
    var metaInfo: MetaInfo
    var content: Option<Bytes>
    var signatureInfo: Option<SigInfo>
    var signatureValue: Option<Bytes>
    var wire: Option<Bytes>
    var fullName: Option<Name>

    ghost function Value(): Cache
      reads this
    {
      Cache(Packet(name, metaInfo, content, signatureInfo, signatureValue), wire, fullName)
    }

    /** A name, and MetaInfo with content type 0 and nothing else. */
    constructor (n: Name, sha256: Bytes -> Bytes)
      ensures digest == sha256 && Value() == Reset(Packet(n, DEFAULT_META, None, None, None))
      ensures Sound(Value(), digest)
      ensures name == n && metaInfo == MetaInfo(0, 0, None, []) && content == None && signatureInfo == None
      ensures signatureValue == None && wire == None && fullName == None
    {
      digest := sha256;
      name, metaInfo, content, signatureInfo, signatureValue := n, DEFAULT_META, None, None, None;
      wire, fullName := None, None;
    }

    method ResetWire()
      modifies this`wire, this`fullName
      ensures wire == None && fullName == None
    {
      wire := None;
      fullName := None;
    }

    method SetName(n: Name)
      requires MetaOk(metaInfo)
      modifies this
      ensures Some(Value()) == Call(old(Value()), DataOp.SetName(n), digest)
      ensures PlainName(name) == PlainName(n)
      ensures Others(old(Value().p), Value().p, {0})
      ensures PlainName(n) != old(PlainName(name)) ==> name == n && wire == None && fullName == None
      ensures PlainName(n) == old(PlainName(name)) ==> unchanged(this)
    {
      if !SameName(n, name) {
        name := n;
        ResetWire();
      }
    }

    method SetMetaInfo(m: MetaInfo)
      requires MetaOk(m) && MetaOk(metaInfo)
      modifies this
      ensures Some(Value()) == Call(old(Value()), DataOp.SetMetaInfo(m), digest)
      ensures metaInfo == m && Others(old(Value().p), Value().p, {1}) && wire == None && fullName == None
    {
      metaInfo := m;
      ResetWire();
    }

    method SetContentType(t: nat)
      requires t < U32 && MetaOk(metaInfo)
      modifies this
      ensures Some(Value()) == Call(old(Value()), DataOp.SetContentType(t), digest)
      ensures metaInfo.contentType == t && metaInfo == old(metaInfo).(contentType := metaInfo.contentType)
      ensures Others(old(Value().p), Value().p, {1})
      ensures if t == old(metaInfo).contentType then unchanged(this) else wire == None && fullName == None
    {
      if t != metaInfo.contentType {
        metaInfo := metaInfo.(contentType := t);
        ResetWire();
      }
    }

    method SetFreshnessPeriod(f: int) returns (ok: bool)
      requires OpOk(DataOp.SetFreshnessPeriod(f)) && MetaOk(metaInfo)
      modifies this
      ensures ok <==> Call(old(Value()), DataOp.SetFreshnessPeriod(f), digest).Some?
      ensures ok ==> Some(Value()) == Call(old(Value()), DataOp.SetFreshnessPeriod(f), digest)
      ensures !ok ==> unchanged(this)
      ensures !ok <==> f < 0 && f != old(metaInfo).freshness
      ensures ok ==> metaInfo.freshness == f && metaInfo == old(metaInfo).(freshness := metaInfo.freshness)
      ensures Others(old(Value().p), Value().p, {1})
      ensures ok ==> if f == old(metaInfo).freshness then unchanged(this) else wire == None && fullName == None
    {
      if f != metaInfo.freshness {
        if f < 0 { return false; }
        metaInfo := metaInfo.(freshness := f);
        ResetWire();
      }
      return true;
    }

    method SetFinalBlock(fb: Option<Element>)
      requires OpOk(DataOp.SetFinalBlock(fb)) && MetaOk(metaInfo)
      modifies this
      ensures Some(Value()) == Call(old(Value()), DataOp.SetFinalBlock(fb), digest)
      ensures metaInfo.finalBlock == fb && metaInfo == old(metaInfo).(finalBlock := metaInfo.finalBlock)
      ensures Others(old(Value().p), Value().p, {1})
      ensures if fb == old(metaInfo).finalBlock then unchanged(this) else wire == None && fullName == None
    {
      if fb != metaInfo.finalBlock {
        metaInfo := metaInfo.(finalBlock := fb);
        ResetWire();
      }
    }

    method SetContent(value: Bytes)
      requires MetaOk(metaInfo)
      modifies this
      ensures Some(Value()) == Call(old(Value()), DataOp.SetContent(value), digest)
      ensures content == Some(value) && Others(old(Value().p), Value().p, {2}) && wire == None && fullName == None
    {
      content := Some(value);
      ResetWire();
    }

    method UnsetContent()
      requires MetaOk(metaInfo)
      modifies this
      ensures Some(Value()) == Call(old(Value()), DataOp.UnsetContent, digest)
      ensures content == None && Others(old(Value().p), Value().p, {2}) && wire == None && fullName == None
    {
      content := None;
      ResetWire();
    }

    method SetSignatureInfo(info: SigInfo)
      requires MetaOk(metaInfo)
      modifies this
      ensures Some(Value()) == Call(old(Value()), DataOp.SetSignatureInfo(info), digest)
      ensures signatureInfo == Some(info) && Others(old(Value().p), Value().p, {3}) && wire == None && fullName == None
    {
      signatureInfo := Some(info);
      ResetWire();
    }

    method SetSignatureValue(value: Bytes)
      requires MetaOk(metaInfo)
      modifies this
      ensures Some(Value()) == Call(old(Value()), DataOp.SetSignatureValue(value), digest)
      ensures signatureValue == Some(value) && Others(old(Value().p), Value().p, {4}) && wire == None && fullName == None
    {
      signatureValue := Some(value);
      ResetWire();
    }

    method GetFullName() returns (full: Option<Name>)
      requires Sound(Value(), digest)
      modifies this`fullName
      ensures wire == None ==> full == None && unchanged(this)
      ensures wire.Some? ==> full == Some(FullName(name, wire.value, digest))
      ensures wire.Some? ==>
                && full.Some? && |full.value| == |name| + 1 && full.value[..|name|] == name
                && Plain(full.value[|name|]) == Element(1, digest(wire.value))
                && fullName == full
      ensures wire.Some? ==> Some(Value()) == Call(old(Value()), DataOp.GetFullName, digest)
    {
      if fullName.None? {
        if wire.None? { return None; }
        fullName := Some(name + [Minimal(Element(IMPLICIT_DIGEST, digest(wire.value)))]);
      }
      return fullName;
    }

    /** `wireDecode`. The wire is cached as soon as its type is right, so a call that throws later
        leaves a cache that nothing decodes to: such calls, and no others, break coherence. */
    method WireDecode(w: Bytes) returns (ok: bool)
      requires IsBlock(w)
      modifies this
      ensures ok <==> DecodeWire(w).Some?
      ensures ok ==> Some(Value()) == Decoded(w)
      ensures ok ==> DecodeWire(w) == Some(Value().p) && wire == Some(w) && fullName == None
      ensures ReadElement(w).value.0.typ != DATA ==> unchanged(this)
      ensures !ok && ReadElement(w).value.0.typ == DATA ==> wire == Some(w) && !Coherent(Value(), digest)
    {
      var e := ReadElement(w).value.0;
      if e.typ != DATA { return false; }
      wire := Some(w);
      var parsed := Parse(e.value);
      if parsed.None? { return false; }
      var es := parsed.value;
      if es == [] || es[0].typ != NAME { return false; }
      var n := ParseName(es[0].value);
      if n.None? { return false; }
      name := n.value;
      metaInfo, content, signatureInfo, signatureValue := DEFAULT_META, None, None, None;
      fullName := None;
      var scanned := ScanElements(es[1..]);
      if !scanned { return false; }
      if signatureInfo.None? { return false; }
      if signatureValue.None? { return false; }
      return true;
    }

    /** The loop over the elements after the name. */
    method ScanElements(es: seq<Element>) returns (ok: bool)
      modifies this`metaInfo, this`content, this`signatureInfo, this`signatureValue
      ensures ok <==> Scan(es, 1, old(Value().p)).Some?
      ensures ok ==> Value().p == Scan(es, 1, old(Value().p)).value
    {
      var lastElement := 1;
      ghost var all := Scan(es, 1, Value().p);
      for i := 0 to |es|
        invariant Scan(es[i..], lastElement, Value().p) == all
      {
        assert es[i..][0] == es[i] && es[i..][1..] == es[i + 1..];
        var element := es[i];
        if element.typ == META_INFO {
          if lastElement >= 2 { return false; }
          var m := ParseMeta(element.value);
          if m.None? { return false; }
          metaInfo := m.value;
          lastElement := 2;
        } else if element.typ == CONTENT {
          if lastElement >= 3 { return false; }
          content := Some(element.value);
          lastElement := 3;
        } else if element.typ == SIGNATURE_INFO {
          if lastElement >= 4 { return false; }
          var s := ParseSig(element.value);
          if s.None? { return false; }
          signatureInfo := Some(s.value);
          lastElement := 4;
        } else if element.typ == SIGNATURE_VALUE {
          if lastElement >= 5 { return false; }
          signatureValue := Some(element.value);
          lastElement := 5;
        } else {
          if IsCritical(element.typ) { return false; }
        }
      }
      assert es[|es|..] == [];
      return true;
    }

    /** `wireEncode()`: encodes backwards into a buffer and decodes the result into itself. A call
        that does not throw leaves an equal packet exactly when no application element of the
        MetaInfo can be mistaken for a missing field and the SignatureInfo can be decoded again. It
        throws when the signature value is missing or one of the two cannot be decoded, and then
        leaves its broken encoding in the cache. */
    method WireEncode() returns (ok: bool)
      requires Sound(Value(), digest)
      requires signatureInfo.Some? ==> PacketOk(Value().p)
      modifies this
      ensures ok <==> Call(old(Value()), DataOp.WireEncode, digest).Some?
      ensures ok ==> Some(Value()) == Call(old(Value()), DataOp.WireEncode, digest)
      ensures old(wire).Some? ==> ok && unchanged(this)
      ensures ok && old(wire).None? ==>
                && wire == Some(EncodePacket(old(Value().p))) && fullName == None
                && Reread(old(Value().p)) == Some(Value().p)
      ensures old(wire).None? ==>
                (ok <==> && old(signatureInfo).Some? && old(signatureValue).Some?
                         && DecodeMeta(MetaFields(old(metaInfo))).Some?
                         && DecodeSig(SigFields(old(signatureInfo).value)).Some?)
      ensures old(wire).None? && old(signatureInfo).Some? && old(signatureValue).Some? ==>
                (ok && SamePacket(Value().p, old(Value().p)) <==>
                 Unambiguous(old(metaInfo)) && OthersOk(old(signatureInfo).value))
      ensures !ok ==> (Coherent(Value(), digest) <==> old(signatureInfo).None?)
      ensures !ok && old(signatureInfo).None? ==> unchanged(this)
    {
      hide DecodeMeta, DecodeSig, MetaFields, SigFields, Unambiguous, OthersOk;
      if wire.Some? { return true; }
      if signatureInfo.None? { return false; }
      ghost var p := Value().p;
      DecodeEncodedPacket(p);
      RereadSame(p);
      var w := EncodeBackwards();
      ok := WireDecode(w);
    }

    /** The elements from the last to the first, each in front of those written before. */
    method EncodeBackwards() returns (w: Bytes)
      requires signatureInfo.Some? && PacketOk(Value().p)
      ensures w == EncodePacket(Value().p)
    {
      hide MetaFields, SigFields, Encode, EncodeAll, MetaOk, SigOk, VarNumber, VarSize;
      ghost var p := Value().p;
      var enc := new Encoder(0);
      var size := PrependFields(enc);
      assert enc.Contents() == EncodeAll(PacketFields(p)) + [] == EncodeAll(PacketFields(p));
      var more := enc.PrependHeader(DATA, size);
      HeaderInFront(Element(DATA, EncodeAll(PacketFields(p))));
      w := enc.buffer[enc.begin..];
    }

    /** Everything in the packet. */
    method PrependFields(enc: Encoder) returns (size: nat)
      requires enc.Valid() && signatureInfo.Some? && PacketOk(Value().p)
      modifies enc, enc.buffer
      ensures enc.Prepended(EncodeAll(PacketFields(Value().p))) && size == |EncodeAll(PacketFields(Value().p))|
    {
      hide MetaFields, SigFields, Encode, EncodeAll, MetaOk, SigOk;
      ghost var p, before := Value().p, enc.Contents();
      ghost var tail, meta, n := TailFields(p), MetaElement(p), NameElement(p.name);
      size := PrependTail(enc);
      var more := PrependElement(enc, Element(META_INFO, EncodeAll(MetaFields(metaInfo))));
      EncodeAllCons(meta, tail);
      Assoc(Encode(meta), EncodeAll(tail), before);
      size := size + more;
      more := PrependName(enc, name);
      EncodeAllCons(n, [meta] + tail);
      Assoc(Encode(n), EncodeAll([meta] + tail), before);
      size := size + more;
      assert [n] + ([meta] + tail) == PacketFields(p);
    }

    /** Signature value, signature info and content. */
    method PrependTail(enc: Encoder) returns (size: nat)
      requires enc.Valid() && signatureInfo.Some? && PacketOk(Value().p)
      modifies enc, enc.buffer
      ensures enc.Prepended(EncodeAll(TailFields(Value().p))) && size == |EncodeAll(TailFields(Value().p))|
    {
      hide MetaFields, SigFields, Encode, EncodeAll, MetaOk, SigOk;
      ghost var p, before := Value().p, enc.Contents();
      ghost var value, info := SigValueElement(p), SigInfoElement(p);
      TailEncodes(p);
      size := PrependElement(enc, if signatureValue.Some? then Element(SIGNATURE_VALUE, signatureValue.value) else Element(0, []));
      var more := PrependElement(enc, Element(SIGNATURE_INFO, EncodeAll(SigFields(signatureInfo.value))));
      Assoc(Encode(info), Encode(value), before);
      size := size + more;
      if content.Some? {
        more := PrependElement(enc, Element(CONTENT, content.value));
        Assoc(Encode(Element(CONTENT, content.value)), Encode(info) + Encode(value), before);
        size := size + more;
      }
    }
  }

  ghost function TailFields(p: Packet): seq<Element>
    requires p.sigInfo.Some?
  {
    ContentField(p) + [SigInfoElement(p), SigValueElement(p)]
  }

  lemma TailEncodes(p: Packet)
    requires p.sigInfo.Some?
    ensures var signature := Encode(SigInfoElement(p)) + Encode(SigValueElement(p));
            EncodeAll(TailFields(p)) == if p.content.Some? then Encode(Element(CONTENT, p.content.value)) + signature else signature
  {
    var value, info := SigValueElement(p), SigInfoElement(p);
    EncodeAllCons(value, []);
    assert [value] + [] == [value];
    EncodeAllCons(info, [value]);
    assert [info] + [value] == [info, value];
    if p.content.Some? {
      EncodeAllCons(Element(CONTENT, p.content.value), [info, value]);
    } else {
      assert TailFields(p) == [info, value];
    }
  }

  lemma HeaderInFront(e: Element)
    ensures (VarNumber(e.typ) + VarNumber(|e.value|)) + e.value == Encode(e)
  {
  }
}
