/** The codec of Data packets: `data.cpp`, `meta-info.cpp` and `signature-info.cpp` of ndn-cxx, on
    values. Optional fields come in a fixed order and unknown ones are ignored or refused, so what
    is decoded depends on what surrounds it; the theorems say exactly when decoding undoes
    encoding. */
module PacketCodec {
  import opened Basics
  import opened Tlv
  import opened NdnName
  import opened NameOrder
  import opened DelegationLists

  const DATA := 6
  const META_INFO := 20
  const SIGNATURE_INFO := 22
  const SIGNATURE_VALUE := 23
  const CONTENT_TYPE := 24
  const FRESHNESS_PERIOD := 25
  const FINAL_BLOCK_ID := 26
  const SIGNATURE_TYPE := 27
  const KEY_LOCATOR := 28
  const SIGNATURE_NONCE := 38
  const VALIDITY_PERIOD := 253
  const IMPLICIT_DIGEST := 1
  const PARAMETERS_DIGEST := 2

  predicate IsCritical(typ: nat) {
    typ <= 31 || typ % 2 == 1
  }

  // ----- MetaInfo -----

  /** `freshness` is a signed 64-bit number of milliseconds. */
  datatype MetaInfo = MetaInfo(contentType: nat, freshness: int, finalBlock: Option<Element>, app: seq<Element>)

  const DEFAULT_META := MetaInfo(0, 0, None, [])

  function AsUnsigned(f: int): nat
    requires -0x8000_0000_0000_0000 <= f
  {
    if f < 0 then f + U64 else f
  }

  function AsSigned(n: nat): int {
    if n < 0x8000_0000_0000_0000 then n else n - U64
  }

  /** `Component::ensureValid`. */
  predicate ComponentOk(e: Element) {
    && 1 <= e.typ <= 65535
    && (e.typ == IMPLICIT_DIGEST || e.typ == PARAMETERS_DIGEST ==> |e.value| == 32)
  }

  predicate MetaOk(m: MetaInfo) {
    && m.contentType < U32 && -0x8000_0000_0000_0000 <= m.freshness < 0x8000_0000_0000_0000
    && (m.finalBlock.Some? ==> Legal(m.finalBlock.value) && ComponentOk(m.finalBlock.value))
    && AllLegal(m.app)
  }

  function ContentTypeField(m: MetaInfo): seq<Element> {
    if m.contentType != 0 then [Element(CONTENT_TYPE, Integer(m.contentType))] else []
  }

  function FreshnessField(m: MetaInfo): seq<Element>
    requires MetaOk(m)
  {
    if m.freshness != 0 then [Element(FRESHNESS_PERIOD, Integer(AsUnsigned(m.freshness)))] else []
  }

  function FinalBlockField(m: MetaInfo): seq<Element> {
    if m.finalBlock.Some? then [Element(FINAL_BLOCK_ID, Encode(m.finalBlock.value))] else []
  }

  function MetaFields(m: MetaInfo): (es: seq<Element>)
    requires MetaOk(m)
  {
    ContentTypeField(m) + (FreshnessField(m) + (FinalBlockField(m) + m.app))
  }

  predicate Starts(es: seq<Element>, typ: nat) {
    es != [] && es[0].typ == typ
  }

  function Rest(es: seq<Element>, typ: nat): seq<Element> {
    if Starts(es, typ) then es[1..] else es
  }

  /** `MetaInfo::wireDecode`, from the parsed elements; `None` where it throws. */
  function DecodeMeta(es: seq<Element>): (r: Option<MetaInfo>) {
    var afterType := Rest(es, CONTENT_TYPE);
    var afterPeriod := Rest(afterType, FRESHNESS_PERIOD);
    var app := Rest(afterPeriod, FINAL_BLOCK_ID);
    if Starts(es, CONTENT_TYPE) && (ReadInteger(es[0].value).None? || ReadInteger(es[0].value).value >= U32) then None
    else if Starts(afterType, FRESHNESS_PERIOD) && ReadInteger(afterType[0].value).None? then None
    else if Starts(afterPeriod, FINAL_BLOCK_ID) && !FinalBlockOk(afterPeriod[0].value) then None
    else Some(MetaInfo(
      if Starts(es, CONTENT_TYPE) then ReadInteger(es[0].value).value else 0,
      if Starts(afterType, FRESHNESS_PERIOD) then AsSigned(ReadInteger(afterType[0].value).value) else 0,
      if Starts(afterPeriod, FINAL_BLOCK_ID) then Some(ReadElement(afterPeriod[0].value).value.0) else None,
      app))
  }

  /** A single, valid name component and nothing after it. */
  predicate FinalBlockOk(value: Bytes) {
    var r := ReadElement(value);
    r.Some? && r.value.1 == |value| && ComponentOk(r.value.0)
  }

  /** No application element could be taken for a standard field that is absent. */
  predicate Unambiguous(m: MetaInfo) {
    m.finalBlock.None? ==>
      && !Starts(m.app, FINAL_BLOCK_ID)
      && (m.freshness == 0 ==>
            && !Starts(m.app, FRESHNESS_PERIOD)
            && (m.contentType == 0 ==> !Starts(m.app, CONTENT_TYPE)))
  }

  lemma RestOfField(field: seq<Element>, rest: seq<Element>, typ: nat)
    requires |field| <= 1 && (field != [] ==> field[0].typ == typ)
    requires field == [] ==> !Starts(rest, typ)
    ensures Rest(field + rest, typ) == rest
    ensures field != [] ==> Starts(field + rest, typ) && (field + rest)[0] == field[0]
    ensures field == [] ==> !Starts(field + rest, typ)
  {
    if field == [] {
      assert field + rest == rest;
    } else {
      assert (field + rest)[1..] == rest;
    }
  }

  lemma MetaValuesRead(m: MetaInfo)
    requires MetaOk(m)
    ensures ReadInteger(Integer(m.contentType)) == Some(m.contentType)
    ensures ReadInteger(Integer(AsUnsigned(m.freshness))) == Some(AsUnsigned(m.freshness))
    ensures AsSigned(AsUnsigned(m.freshness)) == m.freshness
    ensures m.finalBlock.Some? ==>
              var v := Encode(m.finalBlock.value); FinalBlockOk(v) && ReadElement(v).value.0 == m.finalBlock.value
  {
    ReadUndoesInteger(m.contentType);
    ReadUndoesInteger(AsUnsigned(m.freshness));
    if m.finalBlock.Some? {
      ReadUndoesEncode(m.finalBlock.value, []);
      assert Encode(m.finalBlock.value) + [] == Encode(m.finalBlock.value);
    }
  }

  lemma MetaDecodes(m: MetaInfo)
    requires MetaOk(m) && Unambiguous(m)
    ensures DecodeMeta(MetaFields(m)) == Some(m)
  {
    hide ReadInteger, Integer, Encode, ReadElement, FinalBlockOk, AsSigned, AsUnsigned, Rest;
    MetaValuesRead(m);
    RestOfField(FinalBlockField(m), m.app, FINAL_BLOCK_ID);
    var afterPeriod := FinalBlockField(m) + m.app;
    RestOfField(FreshnessField(m), afterPeriod, FRESHNESS_PERIOD);
    var afterType := FreshnessField(m) + afterPeriod;
    RestOfField(ContentTypeField(m), afterType, CONTENT_TYPE);
  }

  /** Decoding undoes encoding exactly for unambiguous MetaInfo. */
  lemma MetaRoundTrip(m: MetaInfo)
    requires MetaOk(m)
    ensures DecodeMeta(MetaFields(m)) == Some(m) <==> Unambiguous(m)
  {
    if Unambiguous(m) {
      MetaDecodes(m);
    } else {
      MetaLosesApp(m);
    }
  }

  /** An ambiguous application element is swallowed by the decoder. */
  lemma MetaLosesApp(m: MetaInfo)
    requires MetaOk(m) && !Unambiguous(m)
    ensures DecodeMeta(MetaFields(m)) != Some(m)
  {
    var es := MetaFields(m);
    var afterType := Rest(es, CONTENT_TYPE);
    var afterPeriod := Rest(afterType, FRESHNESS_PERIOD);
    var app := Rest(afterPeriod, FINAL_BLOCK_ID);
    assert |es| == |ContentTypeField(m)| + |FreshnessField(m)| + |m.app|;
    assert Starts(m.app, FINAL_BLOCK_ID) || Starts(m.app, FRESHNESS_PERIOD) || Starts(m.app, CONTENT_TYPE);
    SkipFields(m);
    assert |app| < |m.app|;
  }

  lemma SkipFields(m: MetaInfo)
    requires MetaOk(m) && !Unambiguous(m)
    ensures var afterType := Rest(MetaFields(m), CONTENT_TYPE);
            var afterPeriod := Rest(afterType, FRESHNESS_PERIOD);
            |Rest(afterPeriod, FINAL_BLOCK_ID)| < |m.app|
  {
    var app := m.app;
    assert FinalBlockField(m) + app == app;
    if m.freshness == 0 {
      assert FreshnessField(m) + app == app;
    } else {
      var f := FreshnessField(m) + app;
      assert f[1..] == app && !Starts(f, CONTENT_TYPE);
    }
    if m.contentType == 0 {
      assert ContentTypeField(m) + (FreshnessField(m) + app) == FreshnessField(m) + app;
    } else {
      assert (ContentTypeField(m) + (FreshnessField(m) + app))[1..] == FreshnessField(m) + app;
    }
  }

  // ----- SignatureInfo -----

  /** A signature info whose type is set. The inside of a key locator is left uninterpreted. */
  datatype SigInfo = SigInfo(sigType: nat, keyLocator: Option<Bytes>, others: seq<Element>)

  /** An element that `wireDecode` keeps among the others. */
  predicate OtherOk(e: Element) {
    if e.typ == SIGNATURE_NONCE then |e.value| >= 1 else e.typ == VALIDITY_PERIOD || !IsCritical(e.typ)
  }

  predicate SigOk(s: SigInfo) {
    s.sigType < U16 && (s.keyLocator.Some? ==> |s.keyLocator.value| < U64) && AllLegal(s.others)
  }

  /** Nothing `addCustomTlv` has put among the other elements is refused by `wireDecode`. */
  predicate OthersOk(s: SigInfo) {
    forall i :: 0 <= i < |s.others| ==> OtherOk(s.others[i])
  }

  function SigFields(s: SigInfo): (es: seq<Element>) {
    [Element(SIGNATURE_TYPE, Integer(s.sigType))]
    + ((if s.keyLocator.Some? then [Element(KEY_LOCATOR, s.keyLocator.value)] else []) + s.others)
  }

  /** What the loop of `SignatureInfo::wireDecode` has collected. */
  datatype SigScan = SigScan(sigType: Option<nat>, keyLocator: Option<Bytes>, others: seq<Element>)

  function ScanSig(es: seq<Element>, last: nat, s: SigScan): (r: Option<SigScan>)
    decreases |es|
  {
    if es == [] then Some(s)
    else
      var e := es[0];
      if e.typ == SIGNATURE_TYPE then
        if last > 0 || ReadInteger(e.value).None? || ReadInteger(e.value).value >= U16 then None
        else ScanSig(es[1..], 1, s.(sigType := Some(ReadInteger(e.value).value)))
      else if e.typ == KEY_LOCATOR then
        if last > 1 then None else ScanSig(es[1..], 2, s.(keyLocator := Some(e.value)))
      else if OtherOk(e) then ScanSig(es[1..], last, s.(others := s.others + [e]))
      else None
  }

  function DecodeSig(es: seq<Element>): (r: Option<SigInfo>) {
    match ScanSig(es, 0, SigScan(None, None, []))
    case None => None
    case Some(s) => if s.sigType.None? then None else Some(SigInfo(s.sigType.value, s.keyLocator, s.others))
  }

  /** The other elements are collected exactly when none is refused; a scan keeps at most the
      elements it is given. */
  lemma {:induction false} ScanOthers(es: seq<Element>, last: nat, s: SigScan)
    requires last > 0
    ensures (forall i :: 0 <= i < |es| ==> OtherOk(es[i])) ==> ScanSig(es, last, s) == Some(s.(others := s.others + es))
    ensures ScanSig(es, last, s).Some? && !(forall i :: 0 <= i < |es| ==> OtherOk(es[i])) ==>
              |ScanSig(es, last, s).value.others| < |s.others| + |es|
    ensures ScanSig(es, last, s).Some? ==> |ScanSig(es, last, s).value.others| <= |s.others| + |es|
    decreases |es|
  {
    if es == [] {
      assert s.others + es == s.others;
    } else {
      var e := es[0];
      if e.typ == KEY_LOCATOR {
        if last <= 1 { ScanOthers(es[1..], 2, s.(keyLocator := Some(e.value))); }
      } else if e.typ != SIGNATURE_TYPE && OtherOk(e) {
        ScanOthers(es[1..], last, s.(others := s.others + [e]));
        assert s.others + [e] + es[1..] == s.others + es;
        if forall i :: 0 <= i < |es[1..]| ==> OtherOk(es[1..][i]) {
          assert forall i :: 0 < i < |es| ==> es[i] == es[1..][i - 1];
        }
      }
    }
  }

  /** SignatureInfo decodes to itself exactly when no other element is of a critical type that
      `wireDecode` does not know, or an empty nonce. */
  lemma SigRoundTrip(s: SigInfo)
    requires SigOk(s)
    ensures DecodeSig(SigFields(s)) == Some(s) <==> OthersOk(s)
  {
    hide ReadInteger, Integer;
    var es := SigFields(s);
    ReadUndoesInteger(s.sigType);
    var tail := es[1..];
    var start := SigScan(Some(s.sigType), None, []);
    assert ScanSig(es, 0, SigScan(None, None, [])) == ScanSig(tail, 1, start);
    assert [] + s.others == s.others;
    if s.keyLocator.Some? {
      assert tail[1..] == s.others;
      ScanOthers(s.others, 2, start.(keyLocator := s.keyLocator));
    } else {
      assert tail == s.others;
      ScanOthers(s.others, 1, start);
    }
  }

  /** `addCustomTlv` takes any element; one of type 0x81 cannot be decoded again. */
  lemma CriticalCustomElement(sigType: nat)
    requires sigType < U16
    ensures var s := SigInfo(sigType, None, [Element(0x81, [1])]);
            SigOk(s) && DecodeSig(SigFields(s)) == None
  {
    hide ReadInteger, Integer;
    var e := Element(0x81, [1]);
    var s := SigInfo(sigType, None, [e]);
    ReadUndoesInteger(sigType);
    assert SigFields(s)[1..] == [e];
    assert ScanSig(SigFields(s), 0, SigScan(None, None, [])) == ScanSig([e], 1, SigScan(Some(sigType), None, []));
  }

  // ----- Data -----

  /** The fields of a Data packet. An unset signature value is an invalid block of type 0. */
  datatype Packet = Packet(name: Name, meta: MetaInfo, content: Option<Bytes>, sigInfo: Option<SigInfo>, sigValue: Option<Bytes>)

  function SigValueElement(p: Packet): Element {
    if p.sigValue.Some? then Element(SIGNATURE_VALUE, p.sigValue.value) else Element(0, [])
  }

  function MetaElement(p: Packet): Element
    requires MetaOk(p.meta)
  {
    Element(META_INFO, EncodeAll(MetaFields(p.meta)))
  }

  function ContentField(p: Packet): seq<Element> {
    if p.content.Some? then [Element(CONTENT, p.content.value)] else []
  }

  function SigInfoElement(p: Packet): Element
    requires p.sigInfo.Some?
  {
    Element(SIGNATURE_INFO, EncodeAll(SigFields(p.sigInfo.value)))
  }

  /** `Data::wireEncode(encoder)`, read forwards. */
  function PacketFields(p: Packet): (es: seq<Element>)
    requires p.sigInfo.Some? && MetaOk(p.meta)
  {
    [NameElement(p.name), MetaElement(p)] + (ContentField(p) + [SigInfoElement(p), SigValueElement(p)])
  }

  function EncodePacket(p: Packet): (w: Bytes)
    requires p.sigInfo.Some? && MetaOk(p.meta)
  {
    Encode(Element(DATA, EncodeAll(PacketFields(p))))
  }

  /** All parts are well formed and no length exceeds 64 bits. */
  ghost predicate PacketOk(p: Packet) {
    && AllLegal(PlainName(p.name)) && MetaOk(p.meta) && p.sigInfo.Some? && SigOk(p.sigInfo.value)
    && AllLegal(MetaFields(p.meta)) && AllLegal(SigFields(p.sigInfo.value))
    && Legal(NameElement(p.name)) && Legal(MetaElement(p)) && Legal(SigInfoElement(p))
    && (p.content.Some? ==> |p.content.value| < U64) && (p.sigValue.Some? ==> |p.sigValue.value| < U64)
    && Legal(Element(DATA, EncodeAll(PacketFields(p))))
  }

  function ParseMeta(value: Bytes): Option<MetaInfo> {
    match Parse(value) case None => None case Some(es) => DecodeMeta(es)
  }

  function ParseSig(value: Bytes): Option<SigInfo> {
    match Parse(value) case None => None case Some(es) => DecodeSig(es)
  }

  /** The loop of `Data::wireDecode` over the elements after the name; `last` is `lastElement`. */
  function Scan(es: seq<Element>, last: nat, p: Packet): (r: Option<Packet>)
    decreases |es|
  {
    if es == [] then Some(p)
    else
      var e := es[0];
      if e.typ == META_INFO then
        if last >= 2 || ParseMeta(e.value).None? then None
        else Scan(es[1..], 2, p.(meta := ParseMeta(e.value).value))
      else if e.typ == CONTENT then
        if last >= 3 then None else Scan(es[1..], 3, p.(content := Some(e.value)))
      else if e.typ == SIGNATURE_INFO then
        if last >= 4 || ParseSig(e.value).None? then None
        else Scan(es[1..], 4, p.(sigInfo := Some(ParseSig(e.value).value)))
      else if e.typ == SIGNATURE_VALUE then
        if last >= 5 then None else Scan(es[1..], 5, p.(sigValue := Some(e.value)))
      else if IsCritical(e.typ) then None
      else Scan(es[1..], last, p)
  }

  function DecodeFields(es: seq<Element>): (r: Option<Packet>)
    ensures r.Some? ==> r.value.sigInfo.Some? && r.value.sigValue.Some?
  {
    if !Starts(es, NAME) || ParseName(es[0].value).None? then None
    else
      match Scan(es[1..], 1, Packet(ParseName(es[0].value).value, DEFAULT_META, None, None, None))
      case None => None
      case Some(p) => if p.sigInfo.None? || p.sigValue.None? then None else Some(p)
  }

  /** `Data::wireDecode` of the element `e`; `None` where it throws. */
  function DecodeElement(e: Element): (r: Option<Packet>)
    ensures r.Some? ==> r.value.sigInfo.Some? && r.value.sigValue.Some?
  {
    if e.typ != DATA then None
    else match Parse(e.value) case None => None case Some(es) => DecodeFields(es)
  }

  /** ... and of the wire it stands for. */
  function DecodeWire(w: Bytes): (r: Option<Packet>)
    ensures r.Some? ==> r.value.sigInfo.Some? && r.value.sigValue.Some?
  {
    match ReadElement(w) case None => None case Some((e, _)) => DecodeElement(e)
  }

  /** What the parts of an encoded packet decode to: the name with minimal headers, MetaInfo and
      SignatureInfo as they decode. */
  ghost function Reread(p: Packet): (r: Option<Packet>)
    requires p.sigInfo.Some? && MetaOk(p.meta)
  {
    match DecodeMeta(MetaFields(p.meta))
    case None => None
    case Some(m) =>
      match DecodeSig(SigFields(p.sigInfo.value))
      case None => None
      case Some(s) => Some(p.(name := Canonical(p.name), meta := m, sigInfo := Some(s)))
  }

  lemma FieldsDecode(p: Packet)
    requires PacketOk(p) && p.sigValue.Some?
    ensures DecodeFields(PacketFields(p)) == Reread(p)
  {
    hide MetaFields, SigFields, DecodeMeta, DecodeSig, EncodeAll, Encode, Parse, ParseName, SigOk, MetaOk;
    var es := PacketFields(p);
    ParseUndoesEncodeName(p.name);
    ParseUndoesEncode(MetaFields(p.meta));
    ParseUndoesEncode(SigFields(p.sigInfo.value));
    var q := Packet(Canonical(p.name), DEFAULT_META, None, None, None);
    assert es[1..][0] == MetaElement(p);
    var rest := es[1..][1..];
    assert rest == ContentField(p) + [SigInfoElement(p), SigValueElement(p)];
    var meta := DecodeMeta(MetaFields(p.meta));
    if meta.Some? {
      var q1 := q.(meta := meta.value);
      assert Scan(es[1..], 1, q) == Scan(rest, 2, q1);
      ScanTail(p, rest, q1);
    }
  }

  lemma ScanTail(p: Packet, rest: seq<Element>, q: Packet)
    requires PacketOk(p) && p.sigValue.Some?
    requires rest == ContentField(p) + [SigInfoElement(p), SigValueElement(p)]
    requires q.content == None
    ensures var info := ParseSig(SigInfoElement(p).value);
            Scan(rest, 2, q)
            == if info.None? then None
               else Some(q.(content := p.content, sigInfo := info, sigValue := p.sigValue))
  {
    hide MetaFields, SigFields, DecodeSig, EncodeAll, Encode, Parse, SigOk, MetaOk, ParseSig;
    var tail := [SigInfoElement(p), SigValueElement(p)];
    var q' := q.(content := p.content);
    if p.content.Some? {
      assert rest[1..] == tail;
      assert Scan(rest, 2, q) == Scan(tail, 3, q');
    } else {
      assert rest == tail;
    }
    var info := ParseSig(SigInfoElement(p).value);
    if info.None? {
      assert forall last: nat :: last < 4 ==> Scan(tail, last, q') == None;
    } else {
      assert tail[1..] == [SigValueElement(p)] && tail[1..][1..] == [];
      var q2 := q'.(sigInfo := info);
      assert forall last: nat :: last < 4 ==> Scan(tail, last, q') == Scan(tail[1..], 4, q2);
      assert Scan(tail[1..], 4, q2) == Scan([], 5, q2.(sigValue := p.sigValue));
    }
  }

  lemma {:induction false} TypeZeroEndsParse(es: seq<Element>)
    requires AllLegal(es)
    ensures Parse(EncodeAll(es + [Element(0, [])])).None?
    decreases |es|
  {
    var zero := Element(0, []);
    if es == [] {
      assert (es + [zero])[1..] == [];
      assert EncodeAll(es + [zero]) == Encode(zero) + [];
      assert Encode(zero)[0] == 0;
    } else {
      assert (es + [zero])[1..] == es[1..] + [zero];
      var rest := EncodeAll(es[1..] + [zero]);
      ReadUndoesEncode(es[0], rest);
      assert (Encode(es[0]) + rest)[|Encode(es[0])|..] == rest;
      TypeZeroEndsParse(es[1..]);
    }
  }

  /** What decoding makes of an encoded packet: its parts as they are read again; nothing at all if
      its signature value is missing. */
  lemma DecodeEncodedPacket(p: Packet)
    requires PacketOk(p)
    ensures ReadElement(EncodePacket(p)) == Some((Element(DATA, EncodeAll(PacketFields(p))), |EncodePacket(p)|))
    ensures DecodeWire(EncodePacket(p))
            == if p.sigValue.None? then None else Reread(p)
  {
    hide MetaFields, SigFields, DecodeMeta, DecodeFields, EncodeAll, Parse, SigOk, MetaOk, ReadElement;
    var es := PacketFields(p);
    var e := Element(DATA, EncodeAll(es));
    ReadUndoesEncode(e, []);
    assert Encode(e) + [] == Encode(e);
    if p.sigValue.Some? {
      assert AllLegal(es);
      ParseUndoesEncode(es);
      FieldsDecode(p);
    } else {
      var front := [NameElement(p.name), MetaElement(p)] + (ContentField(p) + [SigInfoElement(p)]);
      assert es == front + [Element(0, [])];
      assert AllLegal(front);
      TypeZeroEndsParse(front);
    }
  }

  /** `operator==` of packets: the widths of a name's headers do not matter. */
  ghost predicate SamePacket(p: Packet, q: Packet) {
    SameName(p.name, q.name) && p == q.(name := p.name)
  }

  /** The parts of a packet are read again as they are exactly when MetaInfo and SignatureInfo
      decode to themselves. */
  lemma RereadSame(p: Packet)
    requires PacketOk(p)
    ensures Reread(p).Some? && SamePacket(Reread(p).value, p) <==> Unambiguous(p.meta) && OthersOk(p.sigInfo.value)
    ensures Reread(p).Some? ==> Reread(p).value.name == Canonical(p.name)
  {
    hide DecodeMeta, DecodeSig, MetaFields, SigFields, Unambiguous, OthersOk;
    MetaRoundTrip(p.meta);
    SigRoundTrip(p.sigInfo.value);
  }

  /** The round trip of Data packets, exactly. */
  lemma PacketRoundTrip(p: Packet)
    requires PacketOk(p)
    ensures DecodeWire(EncodePacket(p)).Some? && SamePacket(DecodeWire(EncodePacket(p)).value, p) <==>
            p.sigValue.Some? && Unambiguous(p.meta) && OthersOk(p.sigInfo.value)
  {
    DecodeEncodedPacket(p);
    RereadSame(p);
  }

  // ----- the grammar, with its type numbers -----

  /** The Data section of the packet format: type 6 with name (7), MetaInfo (20), content (21),
      SignatureInfo (22) and signature value (23), in this order. */
  lemma PacketGrammar(p: Packet)
    requires p.sigInfo.Some? && MetaOk(p.meta) && p.sigValue.Some?
    ensures EncodePacket(p)
            == Encode(Element(6, EncodeAll(
                 [Element(7, EncodeAll(PlainName(p.name))), Element(20, EncodeAll(MetaFields(p.meta)))]
                 + ((if p.content.Some? then [Element(21, p.content.value)] else [])
                    + [Element(22, EncodeAll(SigFields(p.sigInfo.value))), Element(23, p.sigValue.value)]))))
  {
  }

  /** MetaInfo holds its content type (24) if it is not 0, its freshness period (25) if it is not 0
      and its final block (26) if it has one, and then the application's elements. */
  lemma MetaGrammar(m: MetaInfo)
    requires MetaOk(m) && m.freshness >= 0
    ensures MetaFields(m)
            == (if m.contentType == 0 then [] else [Element(24, Integer(m.contentType))])
               + ((if m.freshness == 0 then [] else [Element(25, Integer(m.freshness))])
                  + ((if m.finalBlock.None? then [] else [Element(26, Encode(m.finalBlock.value))]) + m.app))
  {
  }

  /** SignatureInfo holds its type (27), its key locator (28) if it has one, and other elements. */
  lemma SigGrammar(s: SigInfo)
    ensures SigFields(s)
            == [Element(27, Integer(s.sigType))]
               + ((if s.keyLocator.None? then [] else [Element(28, s.keyLocator.value)]) + s.others)
  {
  }

  /** Among the other elements of a SignatureInfo, a nonce (38) must not be empty, a validity period
      (253) is taken, and any other is taken exactly if its type is even and above 31. */
  lemma OtherElements(e: Element)
    ensures OtherOk(e) <==> if e.typ == 38 then e.value != [] else e.typ == 253 || (e.typ > 31 && e.typ % 2 == 0)
  {
  }

  /** A packet without MetaInfo has content type 0, no freshness period and no final block. */
  lemma WithoutMetaInfo(name: Name, s: SigInfo, value: Bytes)
    requires AllLegal(PlainName(name)) && SigOk(s) && OthersOk(s) && AllLegal(SigFields(s))
    ensures DecodeFields([NameElement(name), Element(22, EncodeAll(SigFields(s))), Element(23, value)])
            == Some(Packet(Canonical(name), MetaInfo(0, 0, None, []), None, Some(s), Some(value)))
  {
    hide SigFields, DecodeSig, EncodeAll, Parse, ParseName, SigOk, OthersOk;
    ParseUndoesEncodeName(name);
    ParseUndoesEncode(SigFields(s));
    SigRoundTrip(s);
    var info, sig := Element(22, EncodeAll(SigFields(s))), Element(23, value);
    var es := [NameElement(name), info, sig];
    assert es[1..] == [info, sig] && [info, sig][1..] == [sig] && [sig][1..] == [];
    var q := Packet(Canonical(name), DEFAULT_META, None, None, None);
    assert Scan([info, sig], 1, q) == Scan([sig], 4, q.(sigInfo := Some(s)));
    assert Scan([sig], 4, q.(sigInfo := Some(s))) == Scan([], 5, q.(sigInfo := Some(s), sigValue := Some(value)));
  }

  predicate Known(typ: nat) {
    20 <= typ <= 23
  }

  /** An unknown element anywhere behind the name is ignored if its type is even and above 31, and
      makes the decoder refuse the packet otherwise. */
  lemma {:induction false} UnknownElement(es: seq<Element>, e: Element, rest: seq<Element>, last: nat, p: Packet)
    requires !Known(e.typ)
    ensures e.typ > 31 && e.typ % 2 == 0 ==> Scan(es + [e] + rest, last, p) == Scan(es + rest, last, p)
    ensures !(e.typ > 31 && e.typ % 2 == 0) ==> Scan(es + [e] + rest, last, p) == None
    decreases |es|
  {
    hide ParseMeta, ParseSig;
    var all := es + [e] + rest;
    if es == [] {
      assert all[0] == e && all[1..] == rest && es + rest == rest;
    } else {
      var f := es[0];
      assert all[0] == f && all[1..] == es[1..] + [e] + rest;
      assert (es + rest)[0] == f && (es + rest)[1..] == es[1..] + rest;
      if f.typ == 20 && ParseMeta(f.value).Some? {
        UnknownElement(es[1..], e, rest, 2, p.(meta := ParseMeta(f.value).value));
      } else if f.typ == 21 {
        UnknownElement(es[1..], e, rest, 3, p.(content := Some(f.value)));
      } else if f.typ == 22 && ParseSig(f.value).Some? {
        UnknownElement(es[1..], e, rest, 4, p.(sigInfo := Some(ParseSig(f.value).value)));
      } else if f.typ == 23 {
        UnknownElement(es[1..], e, rest, 5, p.(sigValue := Some(f.value)));
      } else {
        UnknownElement(es[1..], e, rest, last, p);
      }
    }
  }

  /** The known fields must come in their order: one that comes after itself or a later one makes
      the decoder refuse the packet. */
  lemma {:induction false} FieldsInOrder(es: seq<Element>, last: nat, p: Packet, i: nat, j: nat)
    requires i < j < |es| && Known(es[i].typ) && Known(es[j].typ) && es[j].typ <= es[i].typ
    ensures Scan(es, last, p) == None
    decreases |es|
  {
    hide ParseMeta, ParseSig;
    if i == 0 {
      LateField(es, last, p, j);
    } else {
      var f := es[0];
      assert es[1..][i - 1] == es[i] && es[1..][j - 1] == es[j];
      if f.typ == 20 && ParseMeta(f.value).Some? {
        FieldsInOrder(es[1..], 2, p.(meta := ParseMeta(f.value).value), i - 1, j - 1);
      } else if f.typ == 21 {
        FieldsInOrder(es[1..], 3, p.(content := Some(f.value)), i - 1, j - 1);
      } else if f.typ == 22 && ParseSig(f.value).Some? {
        FieldsInOrder(es[1..], 4, p.(sigInfo := Some(ParseSig(f.value).value)), i - 1, j - 1);
      } else if f.typ == 23 {
        FieldsInOrder(es[1..], 5, p.(sigValue := Some(f.value)), i - 1, j - 1);
      } else {
        FieldsInOrder(es[1..], last, p, i - 1, j - 1);
      }
    }
  }

  lemma LateField(es: seq<Element>, last: nat, p: Packet, j: nat)
    requires 0 < j < |es| && Known(es[0].typ) && Known(es[j].typ) && es[j].typ <= es[0].typ
    ensures Scan(es, last, p) == None
  {
    hide ParseMeta, ParseSig;
    var f, tail := es[0], es[1..];
    assert tail[j - 1] == es[j];
    if f.typ == 20 && ParseMeta(f.value).Some? {
      TooLate(tail, 2, p.(meta := ParseMeta(f.value).value), j - 1);
    } else if f.typ == 21 {
      TooLate(tail, 3, p.(content := Some(f.value)), j - 1);
    } else if f.typ == 22 && ParseSig(f.value).Some? {
      TooLate(tail, 4, p.(sigInfo := Some(ParseSig(f.value).value)), j - 1);
    } else if f.typ == 23 {
      TooLate(tail, 5, p.(sigValue := Some(f.value)), j - 1);
    }
  }

  lemma {:induction false} TooLate(es: seq<Element>, last: nat, p: Packet, j: nat)
    requires j < |es| && Known(es[j].typ) && es[j].typ - 18 <= last
    ensures Scan(es, last, p) == None
    decreases |es|
  {
    hide ParseMeta, ParseSig;
    if j > 0 {
      var f := es[0];
      assert es[1..][j - 1] == es[j];
      if f.typ == 21 {
        if last < 3 { TooLate(es[1..], 3, p.(content := Some(f.value)), j - 1); }
      } else if f.typ == 22 && ParseSig(f.value).Some? {
        if last < 4 { TooLate(es[1..], 4, p.(sigInfo := Some(ParseSig(f.value).value)), j - 1); }
      } else if f.typ == 23 {
        if last < 5 { TooLate(es[1..], 5, p.(sigValue := Some(f.value)), j - 1); }
      } else if f.typ != 20 {
        TooLate(es[1..], last, p, j - 1);
      }
    }
  }

  /** What a decoder takes for a content type, a signature type and a final block. */
  lemma FieldLimits(n: nat, e: Element)
    requires n < U64 && Legal(e)
    ensures DecodeMeta([Element(24, Integer(n))])
            == if n < 0x1_0000_0000 then Some(MetaInfo(n, 0, None, [])) else None
    ensures DecodeSig([Element(27, Integer(n))]) == if n < 65536 then Some(SigInfo(n, None, [])) else None
    ensures DecodeMeta([Element(26, Encode(e))])
            == if e.typ <= 65535 && (e.typ == 1 || e.typ == 2 ==> |e.value| == 32) then Some(MetaInfo(0, 0, Some(e), [])) else None
  {
    hide ReadInteger, Integer, Encode, ReadElement;
    ReadUndoesInteger(n);
    ReadUndoesEncode(e, []);
    assert Encode(e) + [] == Encode(e);
    SingleField(Element(24, Integer(n)));
    SingleField(Element(26, Encode(e)));
    var sig := Element(27, Integer(n));
    assert [sig][1..] == [];
    assert ScanSig([], 1, SigScan(Some(n), None, [])) == Some(SigScan(Some(n), None, []));
  }

  lemma SingleField(e: Element)
    ensures Rest([e], e.typ) == [] && Rest([], CONTENT_TYPE) == [] && Rest([], FRESHNESS_PERIOD) == [] && Rest([], FINAL_BLOCK_ID) == []
    ensures forall t: nat :: t != e.typ ==> Rest([e], t) == [e]
  {
  }
}
