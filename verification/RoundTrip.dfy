/** Decoding what the encoder wrote, on top of any message and with anything following,
    is merging; from the default message it is a round trip. */
module RoundTrip {
  import opened Bits
  import opened Wire
  import opened Schema
  import opened Encoding
  import opened Decoding
  import opened Scalars
  import opened Merging
  import opened Defaults

  ghost function ToDec<T>(o: Option<T>, t: Bytes): (d: Dec<T>)
  {
    match o
    case Some(v) => Ok(v, t)
    case None => Err(false)
  }

  // ----- one step of the loop on a known tag -----

  /** The loop goes on from wherever one field left it. */
  ghost function Then(fields: seq<Field>, d: Dec<State>): (r: Dec<State>)
    requires d.Ok? ==> |d.v.m| == |fields|
  {
    match d
    case Ok(st, r) => DecLoop(fields, st, r)
    case Err(e) => Err(e)
  }

  lemma LoopKnown(fields: seq<Field>, st: State, i: nat, wt: nat, s: Bytes)
    requires |st.m| == |fields| && i < |fields| && UniqueTags(fields)
    requires 1 <= fields[i].tag < TAG_LIMIT && wt < 8
    ensures DecLoop(fields, st, EncTag(fields[i].tag, wt) + s) == Then(fields, DecKnown(fields, st, i, wt, s))
  {
    var key := fields[i].tag * 8 + wt;
    Varint32RoundTrip(key, s);
    FindUnique(fields, i);
    assert key / 8 == fields[i].tag && key % 8 == wt;
  }

  /** Entering a field twice is entering it once. */
  lemma EnterTwice(fields: seq<Field>, st: State, i: nat)
    requires i < |fields| && Enter(fields, st, i).Some?
    ensures Enter(fields, Enter(fields, st, i).value, i) == Enter(fields, st, i)
  {
  }

  lemma LoopEnter(fields: seq<Field>, st: State, i: nat, wt: nat, s: Bytes)
    requires |st.m| == |fields| && i < |fields| && UniqueTags(fields)
    requires 1 <= fields[i].tag < TAG_LIMIT && wt < 8 && Enter(fields, st, i).Some?
    ensures var st1 := Enter(fields, st, i).value;
            var w := EncTag(fields[i].tag, wt) + s;
            DecLoop(fields, st, w) == DecLoop(fields, st1, w)
  {
    var st1 := Enter(fields, st, i).value;
    EnterTwice(fields, st, i);
    LoopKnown(fields, st, i, wt, s);
    LoopKnown(fields, st1, i, wt, s);
    assert DecKnown(fields, st, i, wt, s) == DecKnown(fields, st1, i, wt, s);
  }

  /** An entered field is decoded in place. */
  lemma KnownEntered(fields: seq<Field>, st: State, i: nat, wt: nat, s: Bytes)
    requires |st.m| == |fields| && i < |fields| && Enter(fields, st, i) == Some(st)
    ensures DecKnown(fields, st, i, wt, s) ==
            match DecVal(fields, st.m, i, wt, Got(st.fixed), s)
            case Ok(res, r) => Ok(st.(m := res.0, fixed := WithGot(st.fixed, res.1)), r)
            case Err(e) => Err(e)
  {
  }

  /** The whole step: enter field i, decode it in place, go on. */
  lemma LoopField(fields: seq<Field>, st: State, i: nat, wt: nat, s: Bytes)
    requires |st.m| == |fields| && i < |fields| && UniqueTags(fields)
    requires 1 <= fields[i].tag < TAG_LIMIT && wt < 8 && Enter(fields, st, i).Some?
    ensures var st1 := Enter(fields, st, i).value;
            DecLoop(fields, st, EncTag(fields[i].tag, wt) + s) ==
            match DecVal(fields, st.m, i, wt, Got(st1.fixed), s)
            case Ok(res, r) => DecLoop(fields, st1.(m := res.0, fixed := WithGot(st1.fixed, res.1)), r)
            case Err(e) => Err(e)
  {
    var st1 := Enter(fields, st, i).value;
    LoopEnter(fields, st, i, wt, s);
    LoopKnown(fields, st1, i, wt, s);
    EnterTwice(fields, st, i);
    KnownEntered(fields, st1, i, wt, s);
  }

  lemma DescriptorParts(fields: seq<Field>, k: nat)
    requires DescriptorOk(fields) && k < |fields|
    ensures UniqueTags(fields) && FieldOk(fields[k]) && 1 <= fields[k].tag < TAG_LIMIT
  {
  }

  // ----- items and arrays -----

  lemma {:induction false} ItemDecodes(f: Field, prev: Item, x: Item, w: Bytes, t: Bytes)
    requires FieldOk(f) && ItemOk(f, x) && EncItem(f, x) == Some(w) && |w| < U32
    ensures DecItem(f, prev, w + t) == ToDec(MergeItem(f, prev, x), t)
    decreases f, 0
  {
    if f.ltype.LSubmessage? {
      var body := EncMsg(f.sub, SubOf(f, x)).value;
      BlobDelimited(body, t);
      var base := if f.htype.HRepeated? then DefaultMsg(f.sub) else SubOf(f, prev);
      MsgDecodes(f.sub, base, x.m, body);

    } else {
      ScalarRoundTrip(f, x, t);
    }
  }

  lemma {:induction false} PackedDecodes(f: Field, items: seq<Item>, n: nat, xs: seq<Item>, w: Bytes)
    requires FieldOk(f) && Packable(f.ltype) && EncPacked(f, xs) == Some(w) && |w| < U32
    requires forall i :: 0 <= i < |xs| ==> ItemOk(f, xs[i])
    ensures DecPacked(f, items, n, w) == ToDec(MergeItems(f, items, n, xs), [])
    decreases |xs|
  {
    hide ItemOk, CanonScalar, FieldOk;
    if xs != [] {
      var a := EncItem(f, xs[0]).value;
      var b := EncPacked(f, xs[1..]).value;
      ScalarRoundTrip(f, xs[0], b);
      ScalarNonempty(f, xs[0], a);
      if n < f.arraySize {
        PackedDecodes(f, Put(items, n, CanonScalar(f, xs[0])), n + 1, xs[1..], b);
      }
    }
  }

  lemma ScalarNonempty(f: Field, x: Item, w: Bytes)
    requires !f.ltype.LSubmessage? && EncItem(f, x) == Some(w)
    ensures w != []
  {
  }

  // ----- one field -----

  /** The decoder's state once field i has been read with v and its message is m. */
  ghost function After(fields: seq<Field>, st: State, i: nat, v: Val, m: Message): (r: State)
    requires i < |fields|
  {
    var f := fields[i];
    if !Written(f, v) then st
    else
      match Enter(fields, st, i)
      case None => st
      case Some(st1) =>
        State(m, st1.seen, if FixedCount(f) then WithGot(st1.fixed, |ItemsOf(v)|) else st1.fixed, st1.closed)
  }

  /** State between two fields: no fixed-count array is half received, none of a later
      field has begun. */
  ghost predicate Between(fields: seq<Field>, st: State, k: nat)
  {
    && |st.m| == |fields| && !st.closed
    && FixedDone(st.fixed) && (st.fixed.Filling? ==> st.fixed.index < k)
  }

  /** The rest of the input after field i, or the failure of its merge. */
  ghost function Go(fields: seq<Field>, st: State, i: nat, v: Val, t: Bytes): (d: Dec<State>)
    requires |st.m| == |fields| && i < |fields|
  {
    match MergeAt(fields, st.m, i, v)
    case None => Err(false)
    case Some(m) => DecLoop(fields, After(fields, st, i, v, m), t)
  }

  lemma EnterBetween(fields: seq<Field>, st: State, k: nat)
    requires k < |fields| && Between(fields, st, k)
    ensures Enter(fields, st, k).Some?
    ensures FixedCount(fields[k]) ==> Enter(fields, st, k).value.fixed == Filling(k, fields[k].arraySize, 0)
    ensures !FixedCount(fields[k]) ==> Enter(fields, st, k).value.fixed == st.fixed
  {
  }

  lemma GotAgain(x: Filling)
    ensures WithGot(x, Got(x)) == x
  {
  }

  /** Field k has been entered and decoded into m, got entries of it if it is an array of
      fixed count. */
  ghost function Entered(fields: seq<Field>, st: State, k: nat, m: Message, got: nat): (r: State)
    requires k < |fields| && Enter(fields, st, k).Some?
  {
    var st1 := Enter(fields, st, k).value;
    st1.(m := m, fixed := if FixedCount(fields[k]) then WithGot(st1.fixed, got) else st1.fixed)
  }

  /** The step of the loop from a state between fields. */
  lemma LoopBetween(fields: seq<Field>, st: State, k: nat, wt: nat, s: Bytes)
    requires DescriptorOk(fields) && k < |fields| && Between(fields, st, k) && wt < 8
    ensures Enter(fields, st, k).Some?
    ensures DecLoop(fields, st, EncTag(fields[k].tag, wt) + s) ==
            match DecVal(fields, st.m, k, wt, if FixedCount(fields[k]) then 0 else Got(st.fixed), s)
            case Ok(res, r) => DecLoop(fields, Entered(fields, st, k, res.0, res.1), r)
            case Err(e) => Err(e)
  {
    EnterBetween(fields, st, k);
    LoopField(fields, st, k, wt, s);
    var st1 := Enter(fields, st, k).value;
    if !FixedCount(fields[k]) {
      GotAgain(st1.fixed);
      CountKept(fields, st.m, k, wt, Got(st1.fixed), s);
    }
  }

  lemma CountKept(fields: seq<Field>, m: Message, k: nat, wt: nat, got: nat, s: Bytes)
    requires |m| == |fields| && k < |fields| && !FixedCount(fields[k])
    ensures var d := DecVal(fields, m, k, wt, got, s); d.Ok? ==> d.v.1 == got
  {
  }

  lemma SingleValDecodes(fields: seq<Field>, m: Message, k: nat, v: Val, got: nat, wx: Bytes, t: Bytes)
    requires |m| == |fields| && k < |fields| && FieldOk(fields[k]) && ValOk(fields[k], v)
    requires Written(fields[k], v) && !fields[k].htype.HRepeated?
    requires EncItem(fields[k], ItemOf(fields[k], v)) == Some(wx) && |wx| < U32
    ensures DecVal(fields, m, k, WireType(fields[k].ltype), got, wx + t) ==
            match MergeAt(fields, m, k, v)
            case None => Err(false)
            case Some(r) => Ok((r, got), t)
    decreases fields, 1
  {
    ItemDecodes(fields[k], ItemOf(fields[k], m[k]), ItemOf(fields[k], v), wx, t);
  }

  /** Go on a field that is no array. */
  lemma GoSingle(fields: seq<Field>, st: State, k: nat, v: Val, t: Bytes)
    requires k < |fields| && |st.m| == |fields| && Written(fields[k], v) && !fields[k].htype.HRepeated?
    requires Enter(fields, st, k).Some?
    ensures Go(fields, st, k, v, t) ==
            match MergeAt(fields, st.m, k, v)
            case None => Err(false)
            case Some(m) => DecLoop(fields, Entered(fields, st, k, m, Got(st.fixed)), t)
  {
  }

  lemma SingleImage(f: Field, v: Val, w: Bytes, t: Bytes) returns (wx: Bytes)
    requires Written(f, v) && !f.htype.HRepeated? && EncVal(f, v) == Some(w)
    ensures EncItem(f, ItemOf(f, v)) == Some(wx) && |wx| <= |w|
    ensures w + t == EncTag(f.tag, WireType(f.ltype)) + (wx + t)
  {
    wx := EncItem(f, ItemOf(f, v)).value;
    Assoc(EncTag(f.tag, WireType(f.ltype)), wx, t);
  }

  /** Required, optional and oneof fields: one tag, one item. */
  lemma SingleDecodes(fields: seq<Field>, st: State, k: nat, v: Val, w: Bytes, t: Bytes)
    requires DescriptorOk(fields) && k < |fields| && Between(fields, st, k)
    requires ValOk(fields[k], v) && Written(fields[k], v) && !fields[k].htype.HRepeated?
    requires EncVal(fields[k], v) == Some(w) && |w| < U32
    ensures DecLoop(fields, st, w + t) == Go(fields, st, k, v, t)
    decreases fields, 2
  {
    assert FieldOk(fields[k]);
    var wx := SingleImage(fields[k], v, w, t);
    LoopBetween(fields, st, k, WireType(fields[k].ltype), wx + t);
    SingleValDecodes(fields, st.m, k, v, Got(st.fixed), wx, t);
    GoSingle(fields, st, k, v, t);
  }

  lemma PackedImage(f: Field, v: Val, w: Bytes, t: Bytes) returns (body: Bytes)
    requires Written(f, v) && f.htype.HRepeated? && Packable(f.ltype) && EncVal(f, v) == Some(w)
    ensures EncPacked(f, ItemsOf(v)) == Some(body) && |body| <= |w|
    ensures w + t == EncTag(f.tag, WT_STRING) + (EncBlob(body) + t)
  {
    body := EncPacked(f, ItemsOf(v)).value;
    Assoc(EncTag(f.tag, WT_STRING), EncBlob(body), t);
  }

  /** A packed array: one tag, one block. */
  lemma PackedFieldDecodes(fields: seq<Field>, st: State, k: nat, v: Val, w: Bytes, t: Bytes)
    requires DescriptorOk(fields) && k < |fields| && Between(fields, st, k)
    requires ValOk(fields[k], v) && Written(fields[k], v)
    requires fields[k].htype.HRepeated? && Packable(fields[k].ltype)
    requires EncVal(fields[k], v) == Some(w) && |w| < U32
    ensures DecLoop(fields, st, w + t) == Go(fields, st, k, v, t)
  {
    var f := fields[k];
    assert FieldOk(f);
    var body := PackedImage(f, v, w, t);
    LoopBetween(fields, st, k, WT_STRING, EncBlob(body) + t);
    PackedValDecodes(fields, st.m, k, v, if FixedCount(f) then 0 else Got(st.fixed), body, t);
    GoRepeated(fields, st, k, v, t);
  }

  /** Go on an array field, in terms of its entries. */
  lemma GoRepeated(fields: seq<Field>, st: State, k: nat, v: Val, t: Bytes)
    requires k < |fields| && |st.m| == |fields| && Written(fields[k], v) && fields[k].htype.HRepeated?
    requires Enter(fields, st, k).Some? && (FixedCount(fields[k]) ==> v.Rep?)
    ensures Go(fields, st, k, v, t) ==
            match MergeItems(fields[k], ItemsOf(st.m[k]), if FixedCount(fields[k]) then 0 else |ItemsOf(st.m[k])|,
                ItemsOf(v))
            case None => Err(false)
            case Some(res) => DecLoop(fields, Entered(fields, st, k, st.m[k := Rep(res.0)], res.1), t)
  {
  }

  lemma PackedValDecodes(fields: seq<Field>, m: Message, k: nat, v: Val, got: nat, body: Bytes, t: Bytes)
    requires |m| == |fields| && k < |fields| && FieldOk(fields[k]) && ValOk(fields[k], v)
    requires fields[k].htype.HRepeated? && Packable(fields[k].ltype) && (FixedCount(fields[k]) ==> got == 0)
    requires EncPacked(fields[k], ItemsOf(v)) == Some(body) && |body| < U32
    ensures DecVal(fields, m, k, WT_STRING, got, EncBlob(body) + t) ==
            match MergeItems(fields[k], ItemsOf(m[k]), if FixedCount(fields[k]) then 0 else |ItemsOf(m[k])|, ItemsOf(v))
            case None => Err(false)
            case Some(res) => Ok((m[k := Rep(res.0)], if FixedCount(fields[k]) then res.1 else got), t)
  {
    var f := fields[k];
    var items := ItemsOf(m[k]);
    BlobDelimited(body, t);
    PackedDecodes(f, items, if FixedCount(f) then 0 else |items|, ItemsOf(v), body);
  }

  /** Array field k holds items, n of them counted. */
  ghost function ArrayStored(fields: seq<Field>, st: State, k: nat, items: seq<Item>, n: nat): (r: State)
    requires k < |fields| && |st.m| == |fields|
  {
    st.(m := st.m[k := Rep(items)], fixed := if FixedCount(fields[k]) then WithGot(st.fixed, n) else st.fixed)
  }

  /** Array field k has been entered and holds n entries. */
  ghost predicate Receiving(fields: seq<Field>, st: State, k: nat, n: nat)
  {
    && DescriptorOk(fields) && k < |fields| && |st.m| == |fields|
    && fields[k].htype.HRepeated?
    && Enter(fields, st, k) == Some(st)
    && n == if FixedCount(fields[k]) then st.fixed.got else |ItemsOf(st.m[k])|
  }

  lemma {:induction false} EachStep(fields: seq<Field>, st: State, k: nat, n: nat, s: Bytes)
    requires Receiving(fields, st, k, n)
    ensures DecLoop(fields, st, EncTag(fields[k].tag, WireType(fields[k].ltype)) + s) ==
            if n >= fields[k].arraySize then Err(false)
            else
              match DecItem(fields[k], DefaultItem(fields[k]), s)
              case Ok(y, r) => DecLoop(fields, ArrayStored(fields, st, k, Put(ItemsOf(st.m[k]), n, y), n + 1), r)
              case Err(e) => Err(e)
  {
    hide EncTag, DecLoop, DecItem, DefaultItem, DescriptorOk;
    DescriptorParts(fields, k);
    LoopField(fields, st, k, WireType(fields[k].ltype), s);
    GotAgain(st.fixed);
  }

  lemma StillReceiving(fields: seq<Field>, st: State, k: nat, n: nat, y: Item)
    requires Receiving(fields, st, k, n)
    ensures Receiving(fields, ArrayStored(fields, st, k, Put(ItemsOf(st.m[k]), n, y), n + 1), k, n + 1)
  {
  }

  lemma ArrayStoredTwice(fields: seq<Field>, st: State, k: nat, items: seq<Item>, n: nat, items': seq<Item>, n': nat)
    requires k < |fields| && |st.m| == |fields|
    ensures ArrayStored(fields, ArrayStored(fields, st, k, items, n), k, items', n') ==
            ArrayStored(fields, st, k, items', n')
  {
  }

  lemma ArrayStoredSame(fields: seq<Field>, st: State, k: nat, n: nat)
    requires Receiving(fields, st, k, n) && st.m[k].Rep?
    ensures ArrayStored(fields, st, k, ItemsOf(st.m[k]), n) == st
  {
    assert st.m[k := Rep(ItemsOf(st.m[k]))] == st.m;
  }

  /** What the loop does once the entries xs have been merged. */
  ghost function GoArray(fields: seq<Field>, st: State, k: nat, n: nat, xs: seq<Item>, t: Bytes): (d: Dec<State>)
    requires Receiving(fields, st, k, n)
  {
    match MergeItems(fields[k], ItemsOf(st.m[k]), n, xs)
    case None => Err(false)
    case Some(res) => DecLoop(fields, ArrayStored(fields, st, k, res.0, res.1), t)
  }

  lemma GoArrayStep(fields: seq<Field>, st: State, k: nat, n: nat, xs: seq<Item>, y: Item, t: Bytes)
    requires Receiving(fields, st, k, n) && xs != [] && n < fields[k].arraySize
    requires MergeItem(fields[k], DefaultItem(fields[k]), xs[0]) == Some(y)
    ensures Receiving(fields, ArrayStored(fields, st, k, Put(ItemsOf(st.m[k]), n, y), n + 1), k, n + 1)
    ensures GoArray(fields, st, k, n, xs, t)
         == GoArray(fields, ArrayStored(fields, st, k, Put(ItemsOf(st.m[k]), n, y), n + 1), k, n + 1, xs[1..], t)
  {
    StillReceiving(fields, st, k, n, y);
    var items := Put(ItemsOf(st.m[k]), n, y);
    var res := MergeItems(fields[k], items, n + 1, xs[1..]);
    if res.Some? {
      ArrayStoredTwice(fields, st, k, items, n + 1, res.value.0, res.value.1);
    }
  }

  lemma EachHead(f: Field, xs: seq<Item>, w: Bytes, t: Bytes) returns (wx: Bytes, b: Bytes)
    requires xs != [] && EncEach(f, xs) == Some(w)
    ensures EncItem(f, xs[0]) == Some(wx) && EncEach(f, xs[1..]) == Some(b)
    ensures |wx| < |w| && |b| < |w|
    ensures w + t == EncTag(f.tag, WireType(f.ltype)) + (wx + (b + t))
  {
    assert EncTagged(f, xs[0]).Some?;
    wx, b := EncItem(f, xs[0]).value, EncEach(f, xs[1..]).value;
    Regroup(EncTag(f.tag, WireType(f.ltype)), wx, b, t);
  }

  lemma Regroup(a: Bytes, b: Bytes, c: Bytes, d: Bytes)
    ensures a + b + c + d == a + (b + (c + d))
  {
  }

  /** One entry of an array sent with its tag. */
  lemma EachOne(fields: seq<Field>, st: State, k: nat, n: nat, x: Item, wx: Bytes, s: Bytes)
    requires Receiving(fields, st, k, n) && ItemOk(fields[k], x) && FieldOk(fields[k])
    requires EncItem(fields[k], x) == Some(wx) && |wx| < U32
    ensures var y := MergeItem(fields[k], DefaultItem(fields[k]), x);
            DecLoop(fields, st, EncTag(fields[k].tag, WireType(fields[k].ltype)) + (wx + s)) ==
            if n < fields[k].arraySize && y.Some?
            then DecLoop(fields, ArrayStored(fields, st, k, Put(ItemsOf(st.m[k]), n, y.value), n + 1), s)
            else Err(false)
    decreases fields, 1, 0
  {
    EachStep(fields, st, k, n, wx + s);
    ItemDecodes(fields[k], DefaultItem(fields[k]), x, wx, s);
  }

  /** The entries from n on of an array sent with a tag each. */
  lemma {:induction false} EachDecodes(fields: seq<Field>, st: State, k: nat, n: nat, xs: seq<Item>, w: Bytes, t: Bytes)
    requires Receiving(fields, st, k, n) && (xs == [] ==> st.m[k].Rep?)
    requires forall i :: 0 <= i < |xs| ==> ItemOk(fields[k], xs[i])
    requires EncEach(fields[k], xs) == Some(w) && |w| < U32
    ensures DecLoop(fields, st, w + t) == GoArray(fields, st, k, n, xs, t)
    decreases fields, 2, |xs|
  {
    hide EncTag, DecLoop, DecItem, DefaultItem, DescriptorOk, MergeItem;
    var f := fields[k];
    if xs == [] {
      assert w + t == t;
      ArrayStoredSame(fields, st, k, n);
    } else {
      DescriptorParts(fields, k);
      var wx, b := EachHead(f, xs, w, t);
      EachOne(fields, st, k, n, xs[0], wx, b + t);
      var y := MergeItem(f, DefaultItem(f), xs[0]);
      if n < f.arraySize && y.Some? {
        GoArrayStep(fields, st, k, n, xs, y.value, t);
        EachDecodes(fields, ArrayStored(fields, st, k, Put(ItemsOf(st.m[k]), n, y.value), n + 1), k, n + 1, xs[1..],
            b, t);
      }
    }
  }

  lemma EachFieldDecodes(fields: seq<Field>, st: State, k: nat, v: Val, w: Bytes, t: Bytes)
    requires DescriptorOk(fields) && k < |fields| && Between(fields, st, k)
    requires ValOk(fields[k], v) && Written(fields[k], v)
    requires fields[k].htype.HRepeated? && !Packable(fields[k].ltype)
    requires EncVal(fields[k], v) == Some(w) && |w| < U32
    ensures DecLoop(fields, st, w + t) == Go(fields, st, k, v, t)
    decreases fields, 2
  {
    var f := fields[k];
    var xs := ItemsOf(v);
    assert EncArray(f, xs) == Some(w);
    assert EncEach(f, xs) == Some(w);
    DescriptorParts(fields, k);
    EnterBetween(fields, st, k);
    var st1 := Enter(fields, st, k).value;
    EnterTwice(fields, st, k);
    var wx, b := EachHead(f, xs, w, t);
    LoopEnter(fields, st, k, WireType(f.ltype), wx + (b + t));
    var n := if FixedCount(f) then 0 else |ItemsOf(st.m[k])|;
    EachDecodes(fields, st1, k, n, xs, w, t);
    GoIsGoArray(fields, st, k, n, v, t);
  }

  lemma GoIsGoArray(fields: seq<Field>, st: State, k: nat, n: nat, v: Val, t: Bytes)
    requires k < |fields| && Between(fields, st, k) && Written(fields[k], v) && fields[k].htype.HRepeated?
    requires ValOk(fields[k], v) && n == (if FixedCount(fields[k]) then 0 else |ItemsOf(st.m[k])|)
    requires Enter(fields, st, k).Some? && Receiving(fields, Enter(fields, st, k).value, k, n)
    ensures Go(fields, st, k, v, t) == GoArray(fields, Enter(fields, st, k).value, k, n, ItemsOf(v), t)
  {
  }

  /** Any field the encoder writes, on top of any state between fields. */
  lemma ValDecodes(fields: seq<Field>, st: State, k: nat, v: Val, w: Bytes, t: Bytes)
    requires DescriptorOk(fields) && k < |fields| && Between(fields, st, k)
    requires ValOk(fields[k], v)
    requires EncVal(fields[k], v) == Some(w) && |w| < U32
    ensures DecLoop(fields, st, w + t) == Go(fields, st, k, v, t)
    decreases fields, 3
  {
    var f := fields[k];
    if !Written(f, v) {
      assert w + t == t;
    } else if !f.htype.HRepeated? {
      SingleDecodes(fields, st, k, v, w, t);
    } else if Packable(f.ltype) {
      PackedFieldDecodes(fields, st, k, v, w, t);
    } else {
      EachFieldDecodes(fields, st, k, v, w, t);
    }
  }

  // ----- messages -----

  ghost function AfterFrom(fields: seq<Field>, st: State, a: Message, k: nat): (r: Option<State>)
    requires |st.m| == |a| == |fields| && k <= |fields|
    ensures r.Some? ==> |r.value.m| == |fields|
    decreases |fields| - k
  {
    if k == |fields| then Some(st)
    else
      var m :- MergeAt(fields, st.m, k, a[k]);
      AfterFrom(fields, After(fields, st, k, a[k], m), a, k + 1)
  }

  /** All required fields before position k have been seen. */
  ghost predicate SeenUpTo(fields: seq<Field>, st: State, k: nat)
    requires k <= |fields|
  {
    forall q :: 0 <= q < ReqIndex(fields, k) && q < MAX_REQUIRED ==> q in st.seen
  }

  lemma {:induction false} AfterBetween(fields: seq<Field>, st: State, k: nat, v: Val, m: Message)
    requires DescriptorOk(fields) && k < |fields| && Between(fields, st, k) && SeenUpTo(fields, st, k)
    requires ValOk(fields[k], v) && MergeAt(fields, st.m, k, v) == Some(m)
    ensures Between(fields, After(fields, st, k, v, m), k + 1)
    ensures SeenUpTo(fields, After(fields, st, k, v, m), k + 1)
    ensures After(fields, st, k, v, m).m == m
  {
    EnterBetween(fields, st, k);
  }

  lemma {:induction false} AfterIsMerge(fields: seq<Field>, st: State, a: Message, k: nat)
    requires DescriptorOk(fields) && MsgOk(fields, a) && k <= |fields|
    requires Between(fields, st, k) && SeenUpTo(fields, st, k)
    ensures AfterFrom(fields, st, a, k).Some? == MergeFrom(fields, st.m, a, k).Some?
    ensures AfterFrom(fields, st, a, k).Some? ==>
              && AfterFrom(fields, st, a, k).value.m == MergeFrom(fields, st.m, a, k).value
              && Between(fields, AfterFrom(fields, st, a, k).value, |fields|)
              && SeenUpTo(fields, AfterFrom(fields, st, a, k).value, |fields|)
    decreases |fields| - k
  {
    if k < |fields| {
      var m := MergeAt(fields, st.m, k, a[k]);
      if m.Some? {
        AfterBetween(fields, st, k, a[k], m.value);
        AfterIsMerge(fields, After(fields, st, k, a[k], m.value), a, k + 1);
      }
    }
  }

  /** The loop on the encoding of fields k.. of a, on top of any state between fields. */
  lemma {:induction false} FromDecodes(fields: seq<Field>, st: State, a: Message, k: nat, w: Bytes, t: Bytes)
    requires DescriptorOk(fields) && MsgOk(fields, a) && k <= |fields|
    requires Between(fields, st, k) && SeenUpTo(fields, st, k)
    requires EncFrom(fields, a, k) == Some(w) && |w| < U32
    ensures DecLoop(fields, st, w + t) ==
            match AfterFrom(fields, st, a, k)
            case None => Err(false)
            case Some(st') => DecLoop(fields, st', t)
    decreases fields, 4, |fields| - k
  {
    if k == |fields| {
      assert w + t == t;
    } else {
      var wv := EncVal(fields[k], a[k]).value;
      var b := EncFrom(fields, a, k + 1).value;
      assert w + t == wv + (b + t);
      assert ValOk(fields[k], a[k]);
      ValDecodes(fields, st, k, a[k], wv, b + t);
      var m := MergeAt(fields, st.m, k, a[k]);
      if m.Some? {
        AfterBetween(fields, st, k, a[k], m.value);
        FromDecodes(fields, After(fields, st, k, a[k], m.value), a, k + 1, b, t);
      }
    }
  }

  /** pb_decode_noinit of an encoded message is the merge of that message. */
  lemma MsgDecodes(fields: seq<Field>, m: Message, a: Message, w: Bytes)
    requires DescriptorOk(fields) && MsgOk(fields, a) && |m| == |fields|
    requires EncMsg(fields, a) == Some(w) && |w| < U32
    ensures DecMsg(fields, m, w) == ToDec(MergeMsg(fields, m, a), [])
    decreases fields, 5
  {
    FromDecodes(fields, Init(m), a, 0, w, []);
    AfterIsMerge(fields, Init(m), a, 0);
    assert w + [] == w;
  }

  /** What can be encoded has no array beyond its array_size. */
  lemma EncodableFits(fields: seq<Field>, a: Message, k: nat)
    requires |a| == |fields| && k <= |fields| && EncFrom(fields, a, k).Some?
    ensures forall i :: k <= i < |fields| ==> FitsVal(fields[i], a[i])
    decreases fields, 4, |fields| - k
  {
    if k < |fields| {
      ValFits(fields[k], a[k]);
      EncodableFits(fields, a, k + 1);
    }
  }

  lemma ItemFits(f: Field, x: Item)
    requires EncItem(f, x).Some?
    ensures FitsItem(f, x)
    decreases f, 0
  {
    if f.ltype.LSubmessage? {
      EncodableFits(f.sub, SubOf(f, x), 0);
    }
  }

  lemma {:induction false} EachFits(f: Field, xs: seq<Item>)
    requires EncEach(f, xs).Some?
    ensures forall i :: 0 <= i < |xs| ==> FitsItem(f, xs[i])
    decreases f, 1, |xs|
  {
    if xs != [] {
      ItemFits(f, xs[0]);
      EachFits(f, xs[1..]);
      assert forall i :: 1 <= i < |xs| ==> xs[i] == xs[1..][i - 1];
    }
  }

  lemma {:induction false} ValFits(f: Field, v: Val)
    requires EncVal(f, v).Some?
    ensures FitsVal(f, v)
    decreases f, 2
  {
    if Written(f, v) {
      if f.htype.HRepeated? {
        assert EncArray(f, ItemsOf(v)).Some?;
        if !Packable(f.ltype) {
          EachFits(f, ItemsOf(v));
        }
      } else {
        ItemFits(f, ItemOf(f, v));
      }
    }
  }

  /** Round trip: whatever pb_encode writes, pb_decode reads back in full, for every
      descriptor; the receiver has what was written, and the defaults for what was not. */
  lemma MessageReceived(fields: seq<Field>, a: Message, w: Bytes)
    requires DescriptorOk(fields) && MsgOk(fields, a)
    requires EncMsg(fields, a) == Some(w) && |w| < U32
    ensures Decode(fields, w) == Ok(ReceivedMsg(fields, a), [])
  {
    MsgDecodes(fields, DefaultMsg(fields), a, w);
    EncodableFits(fields, a, 0);
    MergeIntoDefault(fields, a);
  }

  /** The message is the one encoded, with absent optional fields at their defaults and
      strings cut at their NUL, if and only if every singular field left out holds its
      default. */
  lemma MessageRoundTrip(fields: seq<Field>, a: Message, w: Bytes)
    requires DescriptorOk(fields) && MsgOk(fields, a)
    requires EncMsg(fields, a) == Some(w) && |w| < U32
    ensures Decode(fields, w) == Ok(CanonMsg(fields, a), []) <==> KeptMsg(fields, a)
    ensures ZeroDefaults(fields) ==> Decode(fields, w) == Ok(CanonMsg(fields, a), [])
  {
    MessageReceived(fields, a, w);
    MsgArrives(fields, a);
    if ZeroDefaults(fields) {
      ZeroDefaultsKept(fields, a);
    }
  }
}
