/** The decoder is type-safe: from any bytes whatever, what it accepts is a message of its
    type, and one that can be encoded again. */
module TypeSafety {
  import opened Bits
  import opened Wire
  import opened Schema
  import opened Encoding
  import opened Decoding

  // ----- descriptors whose sizes and defaults fit their types -----

  predicate SizeOk(f: Field)
  {
    match f.ltype
    case LVarint | LUvarint | LSvarint => IntSize(f.dataSize)
    case LBytes => f.dataSize >= BYTES_OFFSET
    case LString => f.dataSize >= 1
    case _ => true
  }

  ghost predicate TypedField(f: Field)
    decreases f, 0
  {
    && SizeOk(f) && (f.deflt.Some? && !f.ltype.LSubmessage? ==> GoodScalar(f, f.deflt.value))
    && Typed(f.sub)
  }

  ghost predicate Typed(fields: seq<Field>)
    decreases fields
  {
    forall i :: 0 <= i < |fields| ==> TypedField(fields[i])
  }

  // ----- values that can be held and sent -----

  ghost predicate GoodScalar(f: Field, x: Item)
  {
    !f.ltype.LSubmessage? && ItemOk(f, x) && EncItem(f, x).Some?
  }

  ghost predicate GoodItem(f: Field, x: Item)
    decreases f, 0
  {
    if f.ltype.LSubmessage? then x.Sub? && GoodMsg(f.sub, x.m) else GoodScalar(f, x)
  }

  ghost predicate GoodItems(f: Field, xs: seq<Item>)
    decreases f, 1
  {
    |xs| <= f.arraySize && forall i :: 0 <= i < |xs| ==> GoodItem(f, xs[i])
  }

  ghost predicate GoodVal(f: Field, v: Val)
    decreases f, 2
  {
    match f.htype
    case HRequired => v.One? && GoodItem(f, v.item)
    case HOptional => (if f.sizeOffset != 0 then v.Opt? else v.One?) && GoodItem(f, v.item)
    case HRepeated => v.Rep? && GoodItems(f, v.items) && (FixedCount(f) ==> |v.items| == f.arraySize)
    case HOneof => v.Alt? && (v.o.Some? ==> GoodItem(f, v.o.value))
  }

  ghost predicate GoodMsg(fields: seq<Field>, m: Message)
    decreases fields, 3
  {
    |m| == |fields| && (forall i :: 0 <= i < |fields| ==> GoodVal(fields[i], m[i])) && OneMember(fields, m)
  }

  // ----- they are well typed and have an encoding -----

  lemma GoodItemMeans(f: Field, x: Item)
    requires GoodItem(f, x)
    ensures ItemOk(f, x) && EncItem(f, x).Some?
    decreases f, 0
  {
    if f.ltype.LSubmessage? {
      GoodMsgMeans(f.sub, x.m);
    }
  }

  lemma {:induction false} GoodItemsMean(f: Field, xs: seq<Item>)
    requires forall i :: 0 <= i < |xs| ==> GoodItem(f, xs[i])
    ensures EncPacked(f, xs).Some? && EncEach(f, xs).Some?
    decreases f, 1, |xs|
  {
    if xs != [] {
      GoodItemMeans(f, xs[0]);
      GoodItemsMean(f, xs[1..]);
    }
  }

  lemma GoodValMeans(f: Field, v: Val)
    requires GoodVal(f, v)
    ensures ValOk(f, v) && EncVal(f, v).Some?
    decreases f, 2
  {
    if f.htype.HRepeated? {
      GoodItemsMean(f, v.items);
      forall i | 0 <= i < |v.items| ensures ItemOk(f, v.items[i]) {
        GoodItemMeans(f, v.items[i]);
      }
    } else if !f.htype.HOneof? || v.o.Some? {
      GoodItemMeans(f, ItemOf(f, v));
    }
  }

  lemma GoodMsgMeans(fields: seq<Field>, m: Message)
    requires GoodMsg(fields, m)
    ensures MsgOk(fields, m) && EncMsg(fields, m).Some?
    decreases fields, 3
  {
    forall i | 0 <= i < |fields| ensures ValOk(fields[i], m[i]) && EncVal(fields[i], m[i]).Some? {
      GoodValMeans(fields[i], m[i]);
    }
    AllEncoded(fields, m, 0);
  }

  lemma {:induction false} AllEncoded(fields: seq<Field>, m: Message, k: nat)
    requires |m| == |fields| && k <= |fields|
    requires forall i :: 0 <= i < |fields| ==> EncVal(fields[i], m[i]).Some?
    ensures EncFrom(fields, m, k).Some?
    decreases |fields| - k
  {
    if k < |fields| {
      AllEncoded(fields, m, k + 1);
    }
  }

  // ----- defaults -----

  lemma DefaultItemGood(f: Field)
    requires TypedField(f)
    ensures GoodItem(f, DefaultItem(f))
    decreases f, 0
  {
    if f.ltype.LSubmessage? {
      DefaultMsgGood(f.sub);
    }
  }

  lemma DefaultValGood(f: Field)
    requires TypedField(f)
    ensures GoodVal(f, DefaultVal(f))
    decreases f, 1
  {
    DefaultItemGood(f);
  }

  lemma DefaultMsgGood(fields: seq<Field>)
    requires Typed(fields)
    ensures GoodMsg(fields, DefaultMsg(fields))
    decreases fields, 2
  {
    forall i | 0 <= i < |fields|
      ensures GoodVal(fields[i], DefaultMsg(fields)[i]) && !Selected(DefaultMsg(fields)[i])
    {
      DefaultMsgAt(fields, i);
      DefaultValGood(fields[i]);
    }
  }

  // ----- scalars -----

  lemma {:induction false} LittleEndianBound(b: Bytes)
    ensures LittleEndian(b) < Pow2(8 * |b|)
    decreases |b|
  {
    hide Pow2;
    Pow2Values();
    if b != [] {
      LittleEndianBound(b[1..]);
      Pow2Add(8, 8 * |b[1..]|);
    }
  }

  lemma FixedGood(k: nat, s: Bytes)
    requires Fixed(k, s).Ok? && (k == 4 || k == 8)
    ensures Fixed(k, s).v < (if k == 4 then U32 else U64)
  {
    LittleEndianBound(s[..k]);
    Pow2Values();
  }

  lemma StringGood(f: Field, s: Bytes)
    requires f.ltype.LString? && DecString(f, s).Ok?
    ensures GoodScalar(f, DecString(f, s).v)
  {
    StringFits(Varint32(s).v, f.dataSize);
  }

  /** The size check of pb_dec_string, wrap-around included, leaves room for the NUL. */
  lemma StringFits(n: nat, size: nat)
    requires n <= (n + 1) % U32 <= size
    ensures n < size
  {
    if n < U32 - 1 {
      ModUnique(n + 1, U32, 0, n + 1);
    }
  }

  lemma BytesGood(f: Field, s: Bytes)
    requires SizeOk(f) && DecScalar(f, s).Ok? && (f.ltype.LBytes? || f.ltype.LFixedBytes?)
    ensures GoodScalar(f, DecScalar(f, s).v)
  {
  }

  lemma IntegerGood(f: Field, s: Bytes)
    requires DecScalar(f, s).Ok? && (f.ltype.LVarint? || f.ltype.LUvarint? || f.ltype.LSvarint?)
    ensures GoodScalar(f, DecScalar(f, s).v)
  {
  }

  lemma ScalarGood(f: Field, s: Bytes)
    requires SizeOk(f) && DecScalar(f, s).Ok?
    ensures GoodScalar(f, DecScalar(f, s).v)
  {
    match f.ltype
    case LBool =>
    case LVarint => IntegerGood(f, s);
    case LUvarint => IntegerGood(f, s);
    case LSvarint => IntegerGood(f, s);
    case LFixed32 => FixedGood(4, s);
    case LFixed64 => FixedGood(8, s);
    case LBytes => BytesGood(f, s);
    case LFixedBytes => BytesGood(f, s);
    case LString => StringGood(f, s);
  }

  // ----- everything else -----

  lemma {:induction false} ItemGood(f: Field, prev: Item, s: Bytes)
    requires TypedField(f) && GoodItem(f, prev) && DecItem(f, prev, s).Ok?
    ensures GoodItem(f, DecItem(f, prev, s).v)
    decreases |s|, 0
  {
    if f.ltype.LSubmessage? {
      DefaultMsgGood(f.sub);
      MsgGood(f.sub, if f.htype.HRepeated? then DefaultMsg(f.sub) else prev.m, Delimited(s).v);
    } else {
      ScalarGood(f, s);
    }
  }

  /** An array whose next entry is number n. */
  ghost predicate ArrayAt(f: Field, items: seq<Item>, n: nat)
  {
    GoodItems(f, items) && if FixedCount(f) then |items| == f.arraySize else n == |items|
  }

  lemma PutGood(f: Field, items: seq<Item>, n: nat, x: Item)
    requires ArrayAt(f, items, n) && n < f.arraySize && GoodItem(f, x)
    ensures ArrayAt(f, Put(items, n, x), n + 1)
  {
  }

  lemma {:induction false} PackedGood(f: Field, items: seq<Item>, n: nat, s: Bytes)
    requires TypedField(f) && ArrayAt(f, items, n) && DecPacked(f, items, n, s).Ok?
    ensures ArrayAt(f, DecPacked(f, items, n, s).v.0, DecPacked(f, items, n, s).v.1)
    decreases |s|, 1
  {
    if s != [] {
      DefaultItemGood(f);
      ItemGood(f, DefaultItem(f), s);
      var d := DecItem(f, DefaultItem(f), s);
      PutGood(f, items, n, d.v);
      PackedGood(f, Put(items, n, d.v), n + 1, d.rest);
    }
  }

  lemma ArrayGood(f: Field, items: seq<Item>, n: nat, wt: nat, s: Bytes)
    requires TypedField(f) && ArrayAt(f, items, n) && DecArray(f, items, n, wt, s).Ok?
    ensures ArrayAt(f, DecArray(f, items, n, wt, s).v.0, DecArray(f, items, n, wt, s).v.1)
    decreases |s|, 2
  {
    if wt == WT_STRING && Packable(f.ltype) {
      PackedGood(f, items, n, Delimited(s).v);
    } else {
      DefaultItemGood(f);
      ItemGood(f, DefaultItem(f), s);
      PutGood(f, items, n, DecItem(f, DefaultItem(f), s).v);
    }
  }

  /** Replacing the value of a field that is in no union. */
  lemma ReplaceGood(fields: seq<Field>, m: Message, i: nat, v: Val)
    requires GoodMsg(fields, m) && i < |fields| && GoodVal(fields[i], v) && !Selected(v)
    ensures GoodMsg(fields, m[i := v])
  {
  }

  /** Selecting a member of a union. */
  lemma SelectGood(fields: seq<Field>, m: Message, i: nat, x: Item)
    requires GoodMsg(fields, m) && i < |fields| && fields[i].htype.HOneof? && GoodItem(fields[i], x)
    ensures GoodMsg(fields, ClearUnion(fields, m, i)[i := Alt(Some(x))])
  {
    var r := ClearUnion(fields, m, i)[i := Alt(Some(x))];
    forall j | 0 <= j < |fields| ensures GoodVal(fields[j], r[j]) {
      assert GoodVal(fields[j], m[j]);
      if j != i && Slot(fields, j) == Slot(fields, i) {
        SlotOneof(fields, i);
        SlotOneof(fields, j);
      }
    }
  }

  lemma ValGood(fields: seq<Field>, m: Message, i: nat, wt: nat, got: nat, s: Bytes)
    requires Typed(fields) && GoodMsg(fields, m) && i < |fields| && DecVal(fields, m, i, wt, got, s).Ok?
    ensures GoodMsg(fields, DecVal(fields, m, i, wt, got, s).v.0)
    decreases |s|, 3
  {
    var f := fields[i];
    assert TypedField(f) && GoodVal(f, m[i]);
    if f.htype.HRepeated? {
      var n := if FixedCount(f) then got else |m[i].items|;
      ArrayGood(f, m[i].items, n, wt, s);
      ReplaceGood(fields, m, i, Rep(DecArray(f, m[i].items, n, wt, s).v.0));
    } else {
      DefaultItemGood(f);
      ItemGood(f, ItemOf(f, m[i]), s);
      var x := DecItem(f, ItemOf(f, m[i]), s).v;
      if f.htype.HOneof? {
        SelectGood(fields, m, i, x);
      } else {
        ReplaceGood(fields, m, i, SetItem(f, x));
      }
    }
  }

  lemma FieldGood(fields: seq<Field>, st: State, key: nat, s: Bytes)
    requires Typed(fields) && GoodMsg(fields, st.m) && DecField(fields, st, key, s).Ok?
    ensures GoodMsg(fields, DecField(fields, st, key, s).v.m)
    decreases |s|, 5
  {
    match Find(fields, key / 8)
    case None =>
    case Some(i) =>
      var st1 := Enter(fields, st, i).value;
      ValGood(fields, st.m, i, key % 8, Got(st1.fixed), s);
  }

  lemma {:induction false} LoopGood(fields: seq<Field>, st: State, s: Bytes)
    requires Typed(fields) && GoodMsg(fields, st.m) && DecLoop(fields, st, s).Ok?
    ensures GoodMsg(fields, DecLoop(fields, st, s).v.m)
    decreases |s|, 6
  {
    if s != [] {
      var d := Varint32(s);
      if d.v != 0 {
        FieldGood(fields, st, d.v, d.rest);
        var e := DecField(fields, st, d.v, d.rest);
        LoopGood(fields, e.v, e.rest);
      }
    }
  }

  lemma MsgGood(fields: seq<Field>, m: Message, s: Bytes)
    requires Typed(fields) && GoodMsg(fields, m) && DecMsg(fields, m, s).Ok?
    ensures GoodMsg(fields, DecMsg(fields, m, s).v)
    decreases |s|, 7
  {
    LoopGood(fields, Init(m), s);
  }

  /** Whatever bytes pb_decode accepts, the message is well typed (strings terminated, arrays
      within their sizes, one member per union, integers within their fields) and pb_encode
      has an encoding for it. */
  lemma DecodedIsTyped(fields: seq<Field>, s: Bytes)
    requires Typed(fields) && Decode(fields, s).Ok?
    ensures MsgOk(fields, Decode(fields, s).v) && EncMsg(fields, Decode(fields, s).v).Some?
  {
    DefaultMsgGood(fields);
    MsgGood(fields, DefaultMsg(fields), s);
    GoodMsgMeans(fields, Decode(fields, s).v);
  }
}
