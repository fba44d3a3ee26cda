/** The `Link` object of `link.cpp`: a Data packet whose content is the encoding of a delegation
    list kept beside it. The main result is that, whatever sequence of calls of its own interface a
    non-empty Link has gone through, its content decodes to the delegations of its list, and says
    when it does so in the same order. */
module LinkObject {
  import opened Basics
  import opened Tlv
  import opened NdnName
  import opened NameOrder
  import opened DelegationLists
  import opened DelegationListObject
  import opened PacketCodec
  import opened DataObject

  const CONTENT_TYPE_LINK := 1

  /** All lengths in the encoding of the list fit 64 bits. */
  ghost predicate ListFits(l: List) {
    AllEncodable(l.dels) && |EncodeAll(Elements(l.dels))| < U64
  }

  /** The content of a packet and a delegation list say the same: decoded as the list is kept, the
      content gives equal delegations, and gives them in the same order unless the list is in order
      only as received, with headers longer than necessary. */
  ghost predicate Agree(content: Option<Bytes>, l: List) {
    && (l.dels != [] ==>
          && content.Some?
          && var (l', error) := Decode(l, Element(CONTENT, content.value), l.isSorted);
          && error.None? && l'.isSorted == l.isSorted
          && multiset(RewrittenAll(l'.dels)) == multiset(RewrittenAll(l.dels))
          && (!l.isSorted || Sorted(RewrittenAll(l.dels)) ==> SameDelegations(l'.dels, l.dels)))
    && (l.dels == [] ==> content.None? || content.value == [])
  }

  /** Encoding a list into the content makes them agree, sorted or not. */
  lemma EncodedAgrees(l: List)
    requires ListFits(l)
    ensures Agree(Some(if l.dels == [] then [] else EncodeAll(Elements(l.dels))), l)
  {
    if l.dels != [] {
      hide Decode, Sorted, SameDelegations;
      RoundTrip(l, CONTENT, l.dels, l.isSorted);
    }
  }

  class Link {
    const data: Data
    const delList: DelegationList

    ghost predicate Valid()
      reads this, data, delList
    {
      Sound(data.Value(), data.digest) && Agree(data.content, delList.Value())
    }

    constructor (n: Name, sha256: Bytes -> Bytes)
      ensures fresh(data) && fresh(delList) && Valid()
      ensures delList.Value() == List(true, []) && data.name == n
    {
      data := new Data(n, sha256);
      delList := new DelegationList();
    }

    /** `encodeContent`. */
    method EncodeContent()
      requires Sound(data.Value(), data.digest) && ListFits(delList.Value())
      modifies data
      ensures Valid() && data.name == old(data.name)
      ensures data.metaInfo == old(data.metaInfo).(contentType := 1)
      ensures data.content == Some(if delList.dels == [] then [] else EncodeAll(Elements(delList.dels)))
      ensures data.signatureInfo == old(data.signatureInfo) && data.signatureValue == old(data.signatureValue)
      ensures data.wire == None && data.fullName == None
    {
      hide Decode, Encodable, EncodeAll, Elements, Encode, DecodeWire, ReadElement;
      EncodedAgrees(delList.Value());
      data.SetContentType(CONTENT_TYPE_LINK);
      if |delList.dels| > 0 {
        var block := EncodedBlock();
        ContentOf(delList.dels);
        data.SetContent(ReadElement(block).value.0.value);
      } else {
        data.SetContent([]);
      }
    }

    /** The estimator pass, the encoder pass and `buffer.block()`. */
    method EncodedBlock() returns (block: Bytes)
      requires ListFits(delList.Value()) && delList.dels != []
      ensures block == Encode(ListElement(CONTENT, delList.dels))
    {
      var enc, _ := delList.EncodeExactly(CONTENT);
      block := enc.buffer[..];
    }

    method SetDelegationList(l: List)
      requires Valid() && ListFits(l)
      modifies data, delList
      ensures Valid() && delList.Value() == l
    {
      delList.isSorted, delList.dels := l.isSorted, l.dels;
      EncodeContent();
    }

    method AddDelegation(preference: nat, n: Name)
      requires Valid() && preference < U32
      requires ListFits(InsertList(delList.Value(), Delegation(preference, n), Replace))
      modifies data, delList
      ensures Valid() && delList.Value() == InsertList(old(delList.Value()), Delegation(preference, n), Replace)
    {
      var _ := delList.Insert(preference, n, Replace);
      EncodeContent();
    }

    method RemoveDelegation(n: Name) returns (removed: bool)
      requires Valid() && ListFits(delList.Value())
      modifies data, delList
      ensures Valid() && delList.Value() == List(old(delList.isSorted), Survivors(old(delList.dels), None, n))
      ensures removed <==> Matching(old(delList.dels), None, n) > 0
      ensures !removed ==> unchanged(data)
    {
      SurvivorsFit(delList.Value(), n);
      NothingErased(delList.dels, n);
      var nErased := delList.EraseImpl(None, n);
      if nErased > 0 {
        EncodeContent();
      }
      removed := nErased > 0;
    }

    /** `Link::wireDecode`. A call that does not throw leaves the content and the list in
        agreement, whatever order the delegations came in. */
    method WireDecode(w: Bytes, wantSort: bool) returns (ok: bool)
      requires IsBlock(w) && |w| < U64
      modifies data, delList
      ensures ok ==> Valid() && delList.isSorted == wantSort
      ensures ok ==>
                && DecodeWire(w) == Some(data.Value().p) && data.wire == Some(w) && data.metaInfo.contentType == 1
                && data.content.Some?
                && delList.Value() == Decode(old(delList.Value()), Element(21, data.content.value), wantSort).0
      ensures ok <==>
                && DecodeWire(w).Some? && DecodeWire(w).value.meta.contentType == CONTENT_TYPE_LINK
                && DecodeWire(w).value.content.Some?
                && Decode(old(delList.Value()), Element(CONTENT, DecodeWire(w).value.content.value), wantSort).1.None?
    {
      ok := data.WireDecode(w);
      if !ok { return; }
      DecodedPacketMetaOk(w);
      if data.metaInfo.contentType != CONTENT_TYPE_LINK { return false; }
      // an unset content is an invalid block, which the list refuses
      if data.content.None? { return false; }
      DecodeAgrees(delList.Value(), data.content.value, wantSort);
      var error := delList.WireDecode(Element(CONTENT, data.content.value), wantSort);
      return error.None?;
    }
  }

  lemma ContentOf(ds: seq<Delegation>)
    requires |EncodeAll(Elements(ds))| < U64
    ensures var block := Encode(ListElement(CONTENT, ds));
            ReadElement(block).Some? && ReadElement(block).value.0.value == EncodeAll(Elements(ds))
  {
    var e := ListElement(CONTENT, ds);
    ReadUndoesEncode(e, []);
    assert Encode(e) + [] == Encode(e);
  }

  /** A block that decodes without error agrees with the list it decodes to. */
  lemma DecodeAgrees(l: List, value: Bytes, wantSort: bool)
    ensures var (l', error) := Decode(l, Element(CONTENT, value), wantSort);
            error.None? ==> Agree(Some(value), l') && l'.isSorted == wantSort && l'.dels != []
  {
    var parsed := Parse(value);
    if parsed.Some? {
      var (ds, error) := DecodeAll(parsed.value);
      PlaceAllMultiset([], ds, wantSort);
    }
  }

  lemma {:induction false} NothingErased(ds: seq<Delegation>, n: Name)
    ensures Matching(ds, None, n) == 0 ==> Survivors(ds, None, n) == ds
  {
    if ds != [] {
      NothingErased(ds[1..], n);
      assert ds == [ds[0]] + ds[1..];
    }
  }

  /** Erasing only shortens the encoding. */
  lemma SurvivorsFit(l: List, n: Name)
    requires ListFits(l)
    ensures ListFits(l.(dels := Survivors(l.dels, None, n)))
  {
    SurvivorsShorter(l.dels, n);
  }

  lemma {:induction false} SurvivorsShorter(ds: seq<Delegation>, n: Name)
    ensures |EncodeAll(Elements(Survivors(ds, None, n)))| <= |EncodeAll(Elements(ds))|
  {
    if ds != [] {
      hide EncodeAll, Elements, Encode, DelegationElement, Matches, Survivors;
      var rest := Survivors(ds[1..], None, n);
      SurvivorsShorter(ds[1..], n);
      SurvivorsUnfold(ds, None, n);
      ElementsHead(ds[0], ds[1..]);
      ElementsHead(ds[0], rest);
      assert ds == [ds[0]] + ds[1..];
      assert [] + rest == rest;
    }
  }

  lemma ElementsHead(d: Delegation, ds: seq<Delegation>)
    ensures EncodeAll(Elements([d] + ds)) == Encode(DelegationElement(d)) + EncodeAll(Elements(ds))
  {
    var all := [d] + ds;
    assert all[0..] == all && all[0 + 1..] == ds;
    ElementsCons(all, 0);
  }
}
