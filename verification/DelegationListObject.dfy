/** The `DelegationList` object of `delegation-list.cpp`: its methods, each proved against the
    value-level operation of `DelegationLists` that the theorems there are about. */
module DelegationListObject {
  import opened Basics
  import opened Tlv
  import opened NdnName
  import opened NameOrder
  import opened DelegationLists

  lemma EncodeAllCons(e: Element, es: seq<Element>)
    ensures EncodeAll([e] + es) == Encode(e) + EncodeAll(es)
  {
    assert ([e] + es)[1..] == es;
  }

  /** `Name::wireEncode`: the components from the last to the first, then length and type. Each
      component is written anew, whatever its own wire is. */
  method PrependName(enc: Encoder, name: Name) returns (size: nat)
    requires enc.Valid() && AllLegal(PlainName(name)) && |EncodeAll(PlainName(name))| < U64
    modifies enc, enc.buffer
    ensures enc.Prepended(Encode(NameElement(name))) && size == |Encode(NameElement(name))|
  {
    hide EncodeAll, PlainName, VarNumber, VarSize;
    ghost var before := enc.Contents();
    size := PrependComponents(enc, name);
    var n := enc.PrependHeader(NAME, size);
    Assoc(VarNumber(NAME) + VarNumber(size), EncodeAll(PlainName(name)), before);
    size := size + n;
  }

  method PrependComponents(enc: Encoder, name: Name) returns (size: nat)
    requires enc.Valid() && AllLegal(PlainName(name))
    modifies enc, enc.buffer
    ensures enc.Prepended(EncodeAll(PlainName(name))) && size == |EncodeAll(PlainName(name))|
  {
    hide Encode;
    size := 0;
    ghost var before, es := enc.Contents(), PlainName(name);
    var i := |name|;
    assert [] + before == before;
    while i > 0
      invariant 0 <= i <= |name|
      invariant enc.Prepended(EncodeAll(es[i..])) && size == |EncodeAll(es[i..])|
    {
      i := i - 1;
      assert es[i..] == [es[i]] + es[i + 1..];
      EncodeAllCons(es[i], es[i + 1..]);
      var n := PrependElement(enc, Plain(name[i]));
      Assoc(Encode(es[i]), EncodeAll(es[i + 1..]), before);
      size := size + n;
    }
    assert es[0..] == es;
  }

  /** `prependByteArrayBlock`. */
  method PrependElement(enc: Encoder, e: Element) returns (size: nat)
    requires enc.Valid() && e.typ < U64 && |e.value| < U64
    modifies enc, enc.buffer
    ensures enc.Prepended(Encode(e)) && size == |Encode(e)|
  {
    ghost var before := enc.Contents();
    size := enc.PrependByteArray(e.value);
    var n := enc.PrependHeader(e.typ, |e.value|);
    Assoc(VarNumber(e.typ) + VarNumber(|e.value|), e.value, before);
    size := size + n;
  }

  /** The body of the loop of `DelegationList::wireEncode`: a delegation, written backwards. */
  method PrependDelegation(enc: Encoder, d: Delegation) returns (size: nat)
    requires enc.Valid() && Encodable(d)
    modifies enc, enc.buffer
    ensures enc.Prepended(Encode(DelegationElement(d))) && size == |Encode(DelegationElement(d))|
  {
    ghost var before := enc.Contents();
    var name := PrependName(enc, d.name);
    var pref := enc.PrependIntegerBlock(LINK_PREFERENCE, d.preference);
    ghost var p, n := Element(LINK_PREFERENCE, Integer(d.preference)), NameElement(d.name);
    Assoc(Encode(p), Encode(n), before);
    FieldsEncode(d);
    var header := enc.PrependHeader(LINK_DELEGATION, name + pref);
    Assoc(VarNumber(LINK_DELEGATION) + VarNumber(name + pref), EncodeAll(Fields(d)), before);
    size := name + pref + header;
  }

  lemma FieldsEncode(d: Delegation)
    ensures EncodeAll(Fields(d)) == Encode(Element(LINK_PREFERENCE, Integer(d.preference))) + Encode(NameElement(d.name))
  {
    var n := NameElement(d.name);
    assert Fields(d)[1..] == [n] && [n][1..] == [];
    assert EncodeAll([n]) == Encode(n) + EncodeAll([]);
  }

  lemma ElementsCons(ds: seq<Delegation>, i: nat)
    requires i < |ds|
    ensures EncodeAll(Elements(ds[i..])) == Encode(DelegationElement(ds[i])) + EncodeAll(Elements(ds[i + 1..]))
  {
    assert Elements(ds[i..]) == [DelegationElement(ds[i])] + Elements(ds[i + 1..]);
    EncodeAllCons(DelegationElement(ds[i]), Elements(ds[i + 1..]));
  }

  /** The loop of `DelegationList::wireEncode`, from the last delegation to the first. */
  method PrependDelegations(enc: Encoder, ds: seq<Delegation>) returns (size: nat)
    requires enc.Valid() && AllEncodable(ds)
    modifies enc, enc.buffer
    ensures enc.Prepended(EncodeAll(Elements(ds))) && size == |EncodeAll(Elements(ds))|
  {
    hide DelegationElement, Encode;
    ghost var before := enc.Contents();
    assert [] + before == before;
    size := 0;
    var i := |ds|;
    while i > 0
      invariant 0 <= i <= |ds|
      invariant enc.Prepended(EncodeAll(Elements(ds[i..]))) && size == |EncodeAll(Elements(ds[i..]))|
    {
      i := i - 1;
      ElementsCons(ds, i);
      var delLen := PrependDelegation(enc, ds[i]);
      Assoc(Encode(DelegationElement(ds[i])), EncodeAll(Elements(ds[i + 1..])), before);
      size := size + delLen;
    }
    assert ds[0..] == ds;
  }

  // ----- the estimator pass -----

  method EstimateName(name: Name) returns (size: nat)
    ensures size == |Encode(NameElement(name))|
  {
    size := 0;
    ghost var es := PlainName(name);
    var i := |name|;
    while i > 0
      invariant 0 <= i <= |name|
      invariant size == |EncodeAll(es[i..])|
    {
      i := i - 1;
      assert es[i..] == [es[i]] + es[i + 1..];
      EncodeAllCons(es[i], es[i + 1..]);
      size := size + EncodedSize(name[i].typ, |name[i].value|);
    }
    assert es[0..] == es;
    size := size + VarSize(size) + VarSize(NAME);
  }

  lemma PlaceLength(ds: seq<Delegation>, d: Delegation, isSorted: bool)
    ensures |Place(ds, d, isSorted)| == |ds| + 1
  {
  }

  // ----- the steps of the erasing loop -----

  lemma EraseStart(all: seq<Delegation>, preference: Option<nat>, name: Name)
    ensures [] + all == all
    ensures [] + Survivors(all, preference, name) == Survivors(all, preference, name)
  {
  }

  lemma EraseStep(kept: seq<Delegation>, rest: seq<Delegation>, preference: Option<nat>, name: Name)
    requires rest != []
    ensures var all, i := kept + rest, |kept|;
            && all[i] == rest[0]
            && all[..i] + all[i + 1..] == kept + rest[1..]
            && all == (kept + [rest[0]]) + rest[1..]
    ensures kept + Survivors(rest, preference, name)
            == (if Matches(rest[0], preference, name) then kept else kept + [rest[0]]) + Survivors(rest[1..], preference, name)
  {
    Unlink(kept, rest);
    var tail := Survivors(rest[1..], preference, name);
    SurvivorsUnfold(rest, preference, name);
    hide Survivors, Matches;
    Assoc(kept, [rest[0]], tail);
    EraseStart(tail, preference, name);
  }

  lemma SurvivorsUnfold(rest: seq<Delegation>, preference: Option<nat>, name: Name)
    requires rest != []
    ensures Survivors(rest, preference, name)
            == (if Matches(rest[0], preference, name) then [] else [rest[0]]) + Survivors(rest[1..], preference, name)
  {
  }

  lemma EraseEnd(kept: seq<Delegation>, preference: Option<nat>, name: Name)
    ensures kept + [] == kept && Survivors([], preference, name) == []
  {
  }

  class DelegationList {
    var isSorted: bool
    var dels: seq<Delegation>

    ghost function Value(): List
      reads this
    {
      List(isSorted, dels)
    }

    constructor ()
      ensures Value() == List(true, [])
    {
      isSorted, dels := true, [];
    }

    method InsertImpl(preference: nat, name: Name)
      modifies this
      ensures Value() == List(old(isSorted), Place(old(dels), Delegation(preference, name), old(isSorted)))
    {
      var del := Delegation(preference, name);
      if !isSorted {
        dels := dels + [del];
        return;
      }
      var pos := UpperBound(dels, del);
      dels := dels[..pos] + [del] + dels[pos..];
    }

    /** Erases in place, one matching delegation after the other. */
    method EraseImpl(preference: Option<nat>, name: Name) returns (nErased: nat)
      modifies this
      ensures Value() == List(old(isSorted), Survivors(old(dels), preference, name))
      ensures nErased == Matching(old(dels), preference, name) == old(|dels|) - |dels|
    {
      hide Matches, Survivors, Matching;
      nErased := 0;
      var i := 0;
      ghost var all, kept, rest := dels, [], dels;
      EraseStart(all, preference, name);
      while i < |dels|
        invariant isSorted == old(isSorted)
        invariant i == |kept| && dels == kept + rest && i + nErased + |rest| == |all|
        invariant Survivors(all, preference, name) == kept + Survivors(rest, preference, name)
        decreases |dels| - i
      {
        ghost var d := rest[0];
        EraseStep(kept, rest, preference, name);
        if Matches(dels[i], preference, name) {
          nErased := nErased + 1;
          dels := dels[..i] + dels[i + 1..];
        } else {
          i := i + 1;
          kept := kept + [d];
        }
        rest := rest[1..];
      }
      EraseEnd(kept, preference, name);
      ErasureConserves(all, preference, name, Delegation(0, name));
    }

    method Insert(preference: nat, name: Name, onConflict: Policy) returns (inserted: bool)
      modifies this
      ensures Value() == InsertList(old(Value()), Delegation(preference, name), onConflict)
      ensures inserted <==> onConflict != Skip || !HasName(old(dels), name)
    {
      match onConflict
      case Replace =>
        var _ := EraseImpl(None, name);
        InsertImpl(preference, name);
        return true;
      case Append =>
        InsertImpl(preference, name);
        return true;
      case Skip =>
        if !HasName(dels, name) {
          InsertImpl(preference, name);
          return true;
        }
        return false;
    }

    /** `sort`: reinserts everything into an empty, sorted list. */
    method SortInPlace()
      modifies this
      ensures Value() == SortList(old(Value()))
    {
      if isSorted { return; }
      var ds := dels;
      dels := [];
      isSorted := true;
      for i := 0 to |ds|
        invariant isSorted && PlaceAll(dels, ds[i..], true) == PlaceAll([], ds, true)
      {
        assert ds[i..][1..] == ds[i + 1..];
        InsertImpl(ds[i].preference, ds[i].name);
      }
    }

    /** `wireEncode` with an encoder: the loop runs from the last delegation to the first and
        prepends, and the result reads forwards as the grammar says. */
    method WireEncode(enc: Encoder, typ: nat) returns (r: Result<nat>)
      requires enc.Valid() && AllEncodable(dels) && |EncodeAll(Elements(dels))| < U64
      modifies enc, enc.buffer
      ensures r == if !IsValidTlvType(typ) then Err(InvalidType)
                   else if dels == [] then Err(EmptyList)
                   else Ok(|Encode(ListElement(typ, dels))|)
      ensures enc.Prepended(if r.Ok? then Encode(ListElement(typ, dels)) else [])
    {
      ghost var before := enc.Contents();
      assert [] + before == before;
      if !IsValidTlvType(typ) { return Err(InvalidType); }
      if dels == [] { return Err(EmptyList); }
      var totalLen := PrependDelegations(enc, dels);
      var header := enc.PrependHeader(typ, totalLen);
      Assoc(VarNumber(typ) + VarNumber(totalLen), EncodeAll(Elements(dels)), before);
      return Ok(totalLen + header);
    }

    /** `wireEncode` with an estimator: the length the encoder will produce, to the byte. */
    method EstimateSize(typ: nat) returns (r: Result<nat>)
      ensures r == if !IsValidTlvType(typ) then Err(InvalidType)
                   else if dels == [] then Err(EmptyList)
                   else Ok(|Encode(ListElement(typ, dels))|)
    {
      if !IsValidTlvType(typ) { return Err(InvalidType); }
      if dels == [] { return Err(EmptyList); }
      var totalLen := 0;
      var i := |dels|;
      while i > 0
        invariant 0 <= i <= |dels|
        invariant totalLen == |EncodeAll(Elements(dels[i..]))|
      {
        i := i - 1;
        ElementsCons(dels, i);
        FieldsEncode(dels[i]);
        var delLen := EstimateName(dels[i].name);
        delLen := delLen + EncodedSize(LINK_PREFERENCE, IntegerSize(dels[i].preference));
        delLen := delLen + VarSize(delLen) + VarSize(LINK_DELEGATION);
        totalLen := totalLen + delLen;
      }
      assert dels[0..] == dels;
      return Ok(totalLen + VarSize(totalLen) + VarSize(typ));
    }

    /** A buffer of the estimated size is filled exactly, without being reallocated. */
    method EncodeExactly(typ: nat) returns (enc: Encoder, r: Result<nat>)
      requires AllEncodable(dels) && |EncodeAll(Elements(dels))| < U64
      ensures fresh(enc) && enc.Valid()
      ensures r.Ok? <==> IsValidTlvType(typ) && dels != []
      ensures r.Ok? ==> enc.begin == 0 && enc.buffer.Length == r.value && enc.Contents() == Encode(ListElement(typ, dels))
    {
      r := EstimateSize(typ);
      if r.Err? {
        enc := new Encoder(0);
        return;
      }
      enc := new Encoder(r.value);
      ghost var buffer := enc.buffer;
      r := WireEncode(enc, typ);
      assert enc.Contents() == Encode(ListElement(typ, dels)) + [];
    }

    method WireDecode(block: Element, wantSort: bool) returns (error: Option<Error>)
      modifies this
      ensures (Value(), error) == Decode(old(Value()), block, wantSort)
    {
      hide Place, DecodeDelegation, Parse;
      if !IsValidTlvType(block.typ) { return Some(InvalidType); }
      isSorted := wantSort;
      dels := [];
      var parsed := Parse(block.value);
      if parsed.None? { return Some(Malformed); }
      var es := parsed.value;
      ghost var (ds, err) := DecodeAll(es);
      ghost var done: nat := 0;
      for i := 0 to |es|
        invariant isSorted == wantSort && done == i <= |ds|
        invariant DecodeAll(es[i..]) == (ds[i..], err)
        invariant PlaceAll(dels, ds[i..], wantSort) == PlaceAll([], ds, wantSort)
        invariant |dels| == i
      {
        assert es[i..][1..] == es[i + 1..];
        var d := DecodeDelegation(es[i]);
        if d.Err? { return Some(d.error); }
        assert ds[i..][0] == d.value && ds[i..][1..] == ds[i + 1..];
        PlaceLength(dels, d.value, wantSort);
        InsertImpl(d.value.preference, d.value.name);
        done := done + 1;
      }
      if |dels| == 0 { return Some(EmptyList); }
      return None;
    }
  }
}
