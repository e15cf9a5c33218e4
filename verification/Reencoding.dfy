/** Encoding what was decoded: the canonical form of a message has the same wire image, and
    so has what the receiver holds, exactly when no default of an omitted field speaks up. */
module Reencoding {
  import opened Bits
  import opened Wire
  import opened Schema
  import opened Encoding
  import opened Decoding
  import opened Scalars
  import opened Merging
  import opened Defaults
  import opened RoundTrip
  import opened Output
  import opened TypeSafety

  // ----- strings -----

  lemma {:induction false} StrLenCut(b: Bytes, max: nat)
    ensures StrLen(b[..StrLen(b, max)], max) == StrLen(b, max)
  {
    if max > 0 && b != [] && b[0] != 0 {
      StrLenCut(b[1..], max - 1);
      assert b[..StrLen(b, max)][1..] == b[1..][..StrLen(b[1..], max - 1)];
    }
  }

  lemma {:induction false} ScalarSame(f: Field, x: Item)
    requires !f.ltype.LSubmessage? && ItemOk(f, x)
    ensures EncItem(f, CanonScalar(f, x)) == EncItem(f, x)
    ensures IsZeroItem(f, CanonScalar(f, x)) == IsZeroItem(f, x)
    ensures CanonScalar(f, CanonScalar(f, x)) == CanonScalar(f, x)
  {
    if f.ltype.LString? {
      var cut := x.b[..StrLen(x.b, f.dataSize)];
      StrLenCut(x.b, f.dataSize);
      assert cut[..|cut|] == cut;
    }
  }

  // ----- the proto3 zero check does not tell the two apart -----

  lemma ZeroItemSame(f: Field, x: Item)
    requires ItemOk(f, x)
    ensures IsZeroItem(f, CanonItem(f, x)) == IsZeroItem(f, x)
    decreases f, 0
  {
    if f.ltype.LSubmessage? {
      ZeroMsgSame(f.sub, x.m);
    } else {
      ScalarSame(f, x);
    }
  }

  lemma ZeroValSame(fields: seq<Field>, m: Message, i: nat)
    requires MsgOk(fields, m) && i < |fields|
    ensures IsZeroVal(fields, CanonMsg(fields, m), i) == IsZeroVal(fields, m, i)
    decreases fields, 1
  {
    assert ValOk(fields[i], m[i]);
    CanonMsgAt(fields, m, i);
    if Singular(fields[i]) {
      ZeroItemSame(fields[i], m[i].item);
    }
    if fields[i].htype.HOneof? {
      UnionSame(fields, m, i);
    }
  }

  lemma {:induction false} UnionSame(fields: seq<Field>, m: Message, i: nat)
    requires MsgOk(fields, m) && i < |fields| && fields[i].htype.HOneof?
    ensures forall j :: 0 <= j < |fields| && Slot(fields, j) == Slot(fields, i) ==>
              (CanonMsg(fields, m)[j] == Alt(None) <==> m[j] == Alt(None))
  {
    forall j | 0 <= j < |fields| && Slot(fields, j) == Slot(fields, i)
      ensures CanonMsg(fields, m)[j] == Alt(None) <==> m[j] == Alt(None)
    {
      CanonMsgAt(fields, m, j);
      SlotOneof(fields, j);
      SlotOneof(fields, i);
      assert ValOk(fields[j], m[j]);
    }
  }

  lemma ZeroMsgSame(fields: seq<Field>, m: Message)
    requires MsgOk(fields, m)
    ensures IsZeroMsg(fields, CanonMsg(fields, m)) == IsZeroMsg(fields, m)
    decreases fields, 2
  {
    forall i | 0 <= i < |fields| ensures IsZeroVal(fields, CanonMsg(fields, m), i) == IsZeroVal(fields, m, i) {
      ZeroValSame(fields, m, i);
    }
  }

  // ----- the bytes -----

  lemma ItemSame(f: Field, x: Item)
    requires ItemOk(f, x)
    ensures EncItem(f, CanonItem(f, x)) == EncItem(f, x)
    decreases f, 0
  {
    if f.ltype.LSubmessage? {
      FromSame(f.sub, x.m, 0);
    } else {
      ScalarSame(f, x);
    }
  }

  lemma {:induction false} ItemsSame(f: Field, xs: seq<Item>)
    requires forall i :: 0 <= i < |xs| ==> ItemOk(f, xs[i])
    ensures EncPacked(f, CanonItems(f, xs)) == EncPacked(f, xs)
    ensures EncEach(f, CanonItems(f, xs)) == EncEach(f, xs)
    decreases f, 1, |xs|
  {
    if xs != [] {
      ItemSame(f, xs[0]);
      ItemsSame(f, xs[1..]);
      assert CanonItems(f, xs)[1..] == CanonItems(f, xs[1..]);
    }
  }

  lemma ValSame(f: Field, v: Val)
    requires ValOk(f, v)
    ensures EncVal(f, CanonVal(f, v)) == EncVal(f, v)
    decreases f, 2
  {
    match f.htype
    case HRequired => ItemSame(f, v.item);
    case HOptional =>
      ItemSame(f, v.item);
      ZeroItemSame(f, v.item);
    case HRepeated => ItemsSame(f, v.items);
    case HOneof =>
      if v.o.Some? {
        ItemSame(f, v.o.value);
      }
  }

  lemma {:induction false} FromSame(fields: seq<Field>, m: Message, k: nat)
    requires MsgOk(fields, m) && k <= |fields|
    ensures EncFrom(fields, CanonMsg(fields, m), k) == EncFrom(fields, m, k)
    decreases fields, 3, |fields| - k
  {
    if k < |fields| {
      assert ValOk(fields[k], m[k]);
      CanonMsgAt(fields, m, k);
      ValSame(fields[k], m[k]);
      FromSame(fields, m, k + 1);
    }
  }

  // ----- what a receiver sends on -----

  /** The default of every singular field left out is itself left out; so down through
      everything that is written. */
  ghost predicate SilentItem(f: Field, x: Item)
    decreases f, 0
  {
    f.ltype.LSubmessage? ==> SilentMsg(f.sub, SubOf(f, x))
  }

  ghost predicate SilentItems(f: Field, xs: seq<Item>)
    decreases f, 1
  {
    forall i :: 0 <= i < |xs| ==> SilentItem(f, xs[i])
  }

  ghost predicate SilentVal(f: Field, v: Val)
    decreases f, 2
  {
    if f.htype.HRepeated? then SilentItems(f, ItemsOf(v))
    else if Written(f, v) then SilentItem(f, ItemOf(f, v))
    else Singular(f) ==> IsZeroItem(f, DefaultItem(f))
  }

  ghost predicate SilentMsg(fields: seq<Field>, m: Message)
    requires |m| == |fields|
    decreases fields, 3
  {
    forall i :: 0 <= i < |fields| ==> SilentVal(fields[i], m[i])
  }

  /** b is a if same holds, and otherwise longer, if it exists at all. */
  ghost predicate Grows(a: Option<Bytes>, b: Option<Bytes>, same: bool)
  {
    a.Some? && (same ==> b == a) && (!same && b.Some? ==> |b.value| > |a.value|)
  }

  lemma GrowsBoth(a: Option<Bytes>, b: Option<Bytes>, p: bool, c: Option<Bytes>, d: Option<Bytes>, q: bool)
    requires Grows(a, b, p) && Grows(c, d, q)
    ensures Grows(Cat(a, c), Cat(b, d), p && q)
  {
  }

  lemma {:induction false} VarintMonotone(x: nat, y: nat)
    requires x <= y
    ensures |EncVarint(x)| <= |EncVarint(y)|
    decreases y
  {
    if x >= 128 {
      VarintMonotone(x / 128, y / 128);
    }
  }

  /** A longer block has a longer image. */
  lemma BlobLonger(a: Bytes, b: Bytes)
    requires |a| < |b| && |a| < U32
    ensures |EncBlob(a)| < |EncBlob(b)|
  {
    ModUnique(|a|, U64, 0, |a|);
    if |b| < U64 {
      ModUnique(|b|, U64, 0, |b|);
      VarintMonotone(|a|, |b|);
    } else {
      AtMostTen(|a|);
    }
  }

  // ----- what is written stays written -----

  lemma NonzeroItem(f: Field, x: Item)
    requires FieldOk(f) && ItemOk(f, x) && !IsZeroItem(f, x)
    ensures !IsZeroItem(f, ReceivedItem(f, x))
    decreases f, 0
  {
    if f.ltype.LSubmessage? {
      NonzeroMsg(f.sub, x.m);
    } else {
      ScalarSame(f, x);
    }
  }

  lemma {:induction false} NonzeroVal(fields: seq<Field>, m: Message, i: nat)
    requires DescriptorOk(fields) && MsgOk(fields, m) && i < |fields| && !IsZeroVal(fields, m, i)
    ensures !IsZeroVal(fields, ReceivedMsg(fields, m), i)
    decreases fields, 1
  {
    var f := fields[i];
    assert ValOk(f, m[i]) && FieldOk(f);
    ReceivedMsgAt(fields, m, i);
    if Singular(f) {
      NonzeroItem(f, m[i].item);
    } else if f.htype.HOneof? {
      var j :| 0 <= j < |fields| && Slot(fields, j) == Slot(fields, i) && m[j] != Alt(None);
      ReceivedMsgAt(fields, m, j);
      SlotOneof(fields, i);
      SlotOneof(fields, j);
      assert ValOk(fields[j], m[j]);
    }
  }

  lemma NonzeroMsg(fields: seq<Field>, m: Message)
    requires DescriptorOk(fields) && MsgOk(fields, m) && !IsZeroMsg(fields, m)
    ensures !IsZeroMsg(fields, ReceivedMsg(fields, m))
    decreases fields, 2
  {
    var i :| 0 <= i < |fields| && !IsZeroVal(fields, m, i);
    NonzeroVal(fields, m, i);
  }

  // ----- the bytes sent on -----

  lemma ItemGrows(f: Field, x: Item, w: Bytes)
    requires FieldOk(f) && ItemOk(f, x) && EncItem(f, x) == Some(w) && |w| < U32
    ensures Grows(EncItem(f, x), EncItem(f, ReceivedItem(f, x)), SilentItem(f, x))
    decreases f, 0
  {
    if f.ltype.LSubmessage? {
      var body := EncMsg(f.sub, x.m).value;
      FromGrows(f.sub, x.m, 0, body);
      SilentFromStart(f.sub, x.m);
      var next := EncMsg(f.sub, ReceivedMsg(f.sub, x.m));
      if !SilentMsg(f.sub, x.m) && next.Some? {
        BlobLonger(body, next.value);
      }
    } else {
      ScalarSame(f, x);
    }
  }

  lemma TaggedGrows(f: Field, x: Item, w: Bytes)
    requires FieldOk(f) && ItemOk(f, x) && EncTagged(f, x) == Some(w) && |w| < U32
    ensures Grows(EncTagged(f, x), EncTagged(f, ReceivedItem(f, x)), SilentItem(f, x))
    decreases f, 1
  {
    var tagBytes := Some(EncTag(f.tag, WireType(f.ltype)));
    ItemGrows(f, x, EncItem(f, x).value);
    GrowsBoth(tagBytes, tagBytes, true, EncItem(f, x), EncItem(f, ReceivedItem(f, x)), SilentItem(f, x));
  }

  lemma {:induction false} EachGrows(f: Field, xs: seq<Item>, w: Bytes)
    requires FieldOk(f) && (forall i :: 0 <= i < |xs| ==> ItemOk(f, xs[i]))
    requires EncEach(f, xs) == Some(w) && |w| < U32
    ensures Grows(EncEach(f, xs), EncEach(f, ReceivedItems(f, xs)), SilentItems(f, xs))
    decreases f, 2, |xs|
  {
    if xs != [] {
      var ys, rest := ReceivedItems(f, xs), xs[1..];
      TaggedGrows(f, xs[0], EncTagged(f, xs[0]).value);
      EachGrows(f, rest, EncEach(f, rest).value);
      assert ys[1..] == ReceivedItems(f, rest);
      SilentHead(f, xs);
      GrowsBoth(EncTagged(f, xs[0]), EncTagged(f, ys[0]), SilentItem(f, xs[0]),
                EncEach(f, rest), EncEach(f, ys[1..]), SilentItems(f, rest));
    }
  }

  lemma SilentHead(f: Field, xs: seq<Item>)
    requires xs != []
    ensures SilentItems(f, xs) <==> SilentItem(f, xs[0]) && SilentItems(f, xs[1..])
  {
    assert forall i :: 1 <= i < |xs| ==> xs[i] == xs[1..][i - 1];
  }

  lemma {:induction false} PackedSame(f: Field, xs: seq<Item>)
    requires !f.ltype.LSubmessage? && forall i :: 0 <= i < |xs| ==> ItemOk(f, xs[i])
    ensures EncPacked(f, ReceivedItems(f, xs)) == EncPacked(f, xs)
    decreases |xs|
  {
    if xs != [] {
      ScalarSame(f, xs[0]);
      PackedSame(f, xs[1..]);
      assert ReceivedItems(f, xs)[1..] == ReceivedItems(f, xs[1..]);
    }
  }

  lemma {:induction false} PackedArraySame(f: Field, xs: seq<Item>)
    requires Packable(f.ltype) && forall i :: 0 <= i < |xs| ==> ItemOk(f, xs[i])
    ensures EncArray(f, ReceivedItems(f, xs)) == EncArray(f, xs) && SilentItems(f, xs)
  {
    PackedSame(f, xs);
  }

  lemma ArrayGrows(f: Field, xs: seq<Item>, w: Bytes)
    requires FieldOk(f) && xs != [] && (forall i :: 0 <= i < |xs| ==> ItemOk(f, xs[i]))
    requires EncArray(f, xs) == Some(w) && |w| < U32
    ensures Grows(EncArray(f, xs), EncArray(f, ReceivedItems(f, xs)), SilentItems(f, xs))
    decreases f, 3
  {
    if Packable(f.ltype) {
      PackedArraySame(f, xs);
    } else {
      EachGrows(f, xs, w);
    }
  }

  /** A field that was left out is sent on exactly when it is singular and its default is
      not zero. */
  lemma {:induction false} UnwrittenGrows(f: Field, v: Val)
    requires FieldOk(f) && ValOk(f, v) && !Written(f, v)
    ensures Grows(EncVal(f, v), EncVal(f, ReceivedVal(f, v)), SilentVal(f, v))
  {
    if f.htype.HRepeated? {
      assert SilentItems(f, ItemsOf(v));
    }
  }

  lemma ValGrows(f: Field, v: Val, w: Bytes)
    requires FieldOk(f) && ValOk(f, v) && EncVal(f, v) == Some(w) && |w| < U32
    ensures Grows(EncVal(f, v), EncVal(f, ReceivedVal(f, v)), SilentVal(f, v))
    decreases f, 4
  {
    if !Written(f, v) {
      UnwrittenGrows(f, v);
    } else if f.htype.HRepeated? {
      ArrayGrows(f, v.items, w);
    } else {
      TaggedGrows(f, ItemOf(f, v), w);
      if Singular(f) {
        NonzeroItem(f, v.item);
      }
    }
  }

  ghost predicate SilentFrom(fields: seq<Field>, m: Message, k: nat)
    requires |m| == |fields|
  {
    forall i :: k <= i < |fields| ==> SilentVal(fields[i], m[i])
  }

  lemma SilentFromStart(fields: seq<Field>, m: Message)
    requires |m| == |fields|
    ensures SilentFrom(fields, m, 0) == SilentMsg(fields, m)
  {
  }

  lemma {:induction false} FromGrows(fields: seq<Field>, m: Message, k: nat, w: Bytes)
    requires DescriptorOk(fields) && MsgOk(fields, m) && k <= |fields| && EncFrom(fields, m, k) == Some(w) && |w| < U32
    ensures Grows(EncFrom(fields, m, k), EncFrom(fields, ReceivedMsg(fields, m), k), SilentFrom(fields, m, k))
    decreases fields, 5, |fields| - k
  {
    if k < |fields| {
      var f, r := fields[k], ReceivedMsg(fields, m);
      assert FieldOk(f) && ValOk(f, m[k]);
      ReceivedMsgAt(fields, m, k);
      ValGrows(f, m[k], EncVal(f, m[k]).value);
      FromGrows(fields, m, k + 1, EncFrom(fields, m, k + 1).value);
      GrowsBoth(EncVal(f, m[k]), EncVal(f, r[k]), SilentVal(f, m[k]),
                EncFrom(fields, m, k + 1), EncFrom(fields, r, k + 1), SilentFrom(fields, m, k + 1));
      EncFromStep(fields, m, k);
      EncFromStep(fields, r, k);
    }
  }

  lemma EncFromStep(fields: seq<Field>, m: Message, k: nat)
    requires |m| == |fields| && k < |fields|
    ensures EncFrom(fields, m, k) == Cat(EncVal(fields[k], m[k]), EncFrom(fields, m, k + 1))
    ensures SilentFrom(fields, m, k) == (SilentVal(fields[k], m[k]) && SilentFrom(fields, m, k + 1))
  {
  }

  /** Decoding what pb_encode wrote and encoding it again gives the same bytes if and only if
      the default of every singular field left out passes the zero check. */
  lemma SameBytes(fields: seq<Field>, m: Message, w: Bytes)
    requires DescriptorOk(fields) && MsgOk(fields, m) && EncMsg(fields, m) == Some(w) && |w| < U32
    ensures Decode(fields, w).Ok? && |Decode(fields, w).v| == |fields|
    ensures EncMsg(fields, Decode(fields, w).v) == Some(w) <==> SilentMsg(fields, m)
  {
    MessageReceived(fields, m, w);
    FromGrows(fields, m, 0, w);
    SilentFromStart(fields, m);
  }

  /** Decode, encode, decode, from any accepted bytes: the second decode succeeds and gives
      the canonical form of the first, exactly when every singular field left out in between
      holds its default. */
  lemma DecodeEncodeDecode(fields: seq<Field>, s: Bytes, w: Bytes)
    requires DescriptorOk(fields) && Typed(fields) && Decode(fields, s).Ok?
    requires EncMsg(fields, Decode(fields, s).v) == Some(w) && |w| < U32
    ensures Decode(fields, w) == Ok(ReceivedMsg(fields, Decode(fields, s).v), [])
    ensures Decode(fields, w) == Ok(CanonMsg(fields, Decode(fields, s).v), []) <==> KeptMsg(fields, Decode(fields, s).v)
  {
    DecodedIsTyped(fields, s);
    MessageReceived(fields, Decode(fields, s).v, w);
    MessageRoundTrip(fields, Decode(fields, s).v, w);
  }

  /** A singular uint32 with the default 5. */
  function FiveField(): (f: Field)
  {
    Field(1, LUvarint, HOptional, 0, 0, 4, 0, [], Some(Num(5)))
  }

  lemma ZeroOmitted()
    ensures DescriptorOk([FiveField()]) && MsgOk([FiveField()], [One(Num(0))])
    ensures EncMsg([FiveField()], [One(Num(0))]) == Some([])
  {
    var f, none: Bytes := FiveField(), [];
    assert FieldOk(f) && ValOk(f, One(Num(0)));
    assert EncVal(f, One(Num(0))) == Some(none) && EncFrom([f], [One(Num(0))], 1) == Some(none);
    assert none + none == none;
  }

  lemma FiveSent()
    ensures EncMsg([FiveField()], [One(Num(5))]) != Some([])
  {
    var f, none: Bytes := FiveField(), [];
    assert EncVal(f, One(Num(5))).Some? ==> |EncVal(f, One(Num(5))).value| >= 1;
    assert EncFrom([f], [One(Num(5))], 1) == Some(none);
  }

  /** Its zero is left out and arrives as 5, and 5 is what the receiver sends on. */
  lemma OmittedBecomesDefault()
    ensures var f := FiveField();
            && DescriptorOk([f]) && MsgOk([f], [One(Num(0))]) && !KeptMsg([f], [One(Num(0))])
            && EncMsg([f], [One(Num(0))]) == Some([]) && Decode([f], []) == Ok([One(Num(5))], [])
            && EncMsg([f], [One(Num(5))]) != Some([])
  {
    hide EncMsg, Decode, MsgOk, DescriptorOk;
    ZeroOmitted();
    FiveSent();
    assert ReceivedMsg([FiveField()], [One(Num(0))]) == [One(Num(5))];
    MessageReceived([FiveField()], [One(Num(0))], []);
    assert !KeptVal(FiveField(), One(Num(0)));
  }
}
