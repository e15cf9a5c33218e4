/** Laws of the decoder over whole inputs: inputs concatenate, messages merge, unknown
    fields are transparent, and the two forms of an array agree. */
module Laws {
  import opened Bits
  import opened Wire
  import opened Schema
  import opened Encoding
  import opened Decoding
  import opened Scalars
  import opened Merging
  import opened RoundTrip

  // ----- every field decoder on a longer input -----

  lemma BlobStable(f: Field, s: Bytes, t: Bytes)
    ensures Stable(DecBytes(f, s), DecBytes(f, s + t), t)
    ensures Stable(DecString(f, s), DecString(f, s + t), t)
    ensures Stable(DecFixedBytes(f, s), DecFixedBytes(f, s + t), t)
  {
    hide Varint32;
    Varint32Stable(s, t);
    var d := Varint32(s);
    if d.Ok? {
      TakeStable(d.v, d.rest, t);
    }
  }

  lemma ScalarStable(f: Field, s: Bytes, t: Bytes)
    ensures Stable(DecScalar(f, s), DecScalar(f, s + t), t)
  {
    match f.ltype
    case LBool => Varint32Stable(s, t);
    case LVarint => Varint64Stable(0, 0, s, t);
    case LUvarint => Varint64Stable(0, 0, s, t);
    case LSvarint => Varint64Stable(0, 0, s, t);
    case LFixed32 => FixedStable(4, s, t);
    case LFixed64 => FixedStable(8, s, t);
    case LBytes => BlobStable(f, s, t);
    case LString => BlobStable(f, s, t);
    case LFixedBytes => BlobStable(f, s, t);
    case LSubmessage =>
  }

  lemma ItemStable(f: Field, prev: Item, s: Bytes, t: Bytes)
    ensures Stable(DecItem(f, prev, s), DecItem(f, prev, s + t), t)
  {
    if f.ltype.LSubmessage? {
      DelimitedStable(s, t);
    } else {
      ScalarStable(f, s, t);
    }
  }

  lemma {:induction false} ArrayStable(f: Field, items: seq<Item>, n: nat, wt: nat, s: Bytes, t: Bytes)
    ensures Stable(DecArray(f, items, n, wt, s), DecArray(f, items, n, wt, s + t), t)
  {
    if wt == WT_STRING && Packable(f.ltype) {
      DelimitedStable(s, t);
    } else {
      ItemStable(f, DefaultItem(f), s, t);
    }
  }

  lemma ValStable(fields: seq<Field>, m: Message, i: nat, wt: nat, got: nat, s: Bytes, t: Bytes)
    requires |m| == |fields| && i < |fields|
    ensures Stable(DecVal(fields, m, i, wt, got, s), DecVal(fields, m, i, wt, got, s + t), t)
  {
    var f := fields[i];
    if f.htype.HRepeated? {
      var items := ItemsOf(m[i]);
      ArrayStable(f, items, if FixedCount(f) then got else |items|, wt, s, t);
    } else {
      ItemStable(f, ItemOf(f, m[i]), s, t);
    }
  }

  lemma KnownStable(fields: seq<Field>, st: State, i: nat, wt: nat, s: Bytes, t: Bytes)
    requires |st.m| == |fields| && i < |fields|
    ensures Stable(DecKnown(fields, st, i, wt, s), DecKnown(fields, st, i, wt, s + t), t)
  {
    var st1 := Enter(fields, st, i);
    if st1.Some? {
      ValStable(fields, st.m, i, wt, Got(st1.value.fixed), s, t);
    }
  }

  lemma {:induction false} FieldStable(fields: seq<Field>, st: State, key: nat, s: Bytes, t: Bytes)
    requires |st.m| == |fields|
    ensures Stable(DecField(fields, st, key, s), DecField(fields, st, key, s + t), t)
  {
    match Find(fields, key / 8)
    case Some(i) => KnownStable(fields, st, i, key % 8, s, t);
    case None =>
      Varint32Stable(s, t);
      SkipStable(key % 8, s, t);
  }

  // ----- concatenated inputs -----

  lemma FieldKeepsOpen(fields: seq<Field>, st: State, key: nat, s: Bytes)
    requires |st.m| == |fields| && DecField(fields, st, key, s).Ok?
    ensures DecField(fields, st, key, s).v.closed == st.closed
  {
  }

  lemma {:induction false} ClosedStays(fields: seq<Field>, st: State, s: Bytes)
    requires |st.m| == |fields| && DecLoop(fields, st, s).Ok? && !DecLoop(fields, st, s).v.closed
    ensures DecLoop(fields, st, s).rest == [] && !st.closed
    decreases |s|
  {
    if s != [] {
      var d := Varint32(s);
      FieldKeepsOpen(fields, st, d.v, d.rest);
      var e := DecField(fields, st, d.v, d.rest);
      ClosedStays(fields, e.v, e.rest);
    }
  }

  /** Fields first, then more fields: if a was read to its end without meeting a zero tag,
      reading a + b is reading b from the state a left; if a was rejected, so is a + b. */
  lemma {:induction false} LoopConcat(fields: seq<Field>, st: State, a: Bytes, b: Bytes)
    requires |st.m| == |fields|
    ensures var d := DecLoop(fields, st, a);
            && (d.Ok? && !d.v.closed ==> DecLoop(fields, st, a + b) == DecLoop(fields, d.v, b))
            && (d == Err(false) ==> DecLoop(fields, st, a + b) == Err(false))
    decreases |a|
  {
    if a == [] {
      assert a + b == b;
    } else {
      Varint32Stable(a, b);
      var d := Varint32(a);
      if d.Ok? && d.v != 0 {
        FieldStable(fields, st, d.v, d.rest, b);
        var e := DecField(fields, st, d.v, d.rest);
        if e.Ok? {
          LoopConcat(fields, e.v, e.rest, b);
        }
      }
    }
  }

  // ----- unknown fields -----

  /** u is one complete field the descriptor does not know. An empty descriptor answers to
      tag 0 itself. */
  ghost predicate UnknownField(fields: seq<Field>, u: Bytes)
  {
    var d := Varint32(u);
    && d.Ok? && d.v != 0 && (fields == [] ==> d.v >= 8)
    && Find(fields, d.v / 8).None?
    && Skip(d.v % 8, d.rest) == Ok((), [])
  }

  lemma {:induction false} SkipsUnknown(fields: seq<Field>, st: State, u: Bytes, b: Bytes)
    requires |st.m| == |fields| && UnknownField(fields, u)
    ensures DecLoop(fields, st, u + b) == DecLoop(fields, st, b)
  {
    var d := Varint32(u);
    Varint32Stable(u, b);
    SkipStable(d.v % 8, d.rest, b);
    assert [] + b == b;
  }

  /** Inserting an unknown field at a field boundary changes neither the verdict nor the
      message, whatever comes before and after. */
  lemma UnknownTransparent(fields: seq<Field>, m: Message, a: Bytes, u: Bytes, b: Bytes)
    requires |m| == |fields| && UnknownField(fields, u)
    requires DecLoop(fields, Init(m), a).Ok? && !DecLoop(fields, Init(m), a).v.closed
    ensures DecMsg(fields, m, a + u + b) == DecMsg(fields, m, a + b)
  {
    Assoc(a, u, b);
    LoopConcat(fields, Init(m), a, u + b);
    LoopConcat(fields, Init(m), a, b);
    SkipsUnknown(fields, DecLoop(fields, Init(m), a).v, u, b);
  }

  // ----- merging -----

  /** A zero tag ends the message; what follows it is not looked at. */
  lemma {:induction false} LoopClosed(fields: seq<Field>, st: State, a: Bytes, b: Bytes)
    requires |st.m| == |fields| && !st.closed && DecLoop(fields, st, a).Ok? && DecLoop(fields, st, a).v.closed
    ensures DecLoop(fields, st, a + b) == Ok(DecLoop(fields, st, a).v, DecLoop(fields, st, a).rest + b)
    decreases |a|
  {
    Varint32Stable(a, b);
    var d := Varint32(a);
    if d.v != 0 {
      FieldKeepsOpen(fields, st, d.v, d.rest);
      FieldStable(fields, st, d.v, d.rest, b);
      var e := DecField(fields, st, d.v, d.rest);
      LoopClosed(fields, e.v, e.rest, b);
    }
  }

  ghost function WithSeen(d: Dec<State>, x: set<nat>): (r: Dec<State>)
  {
    match d
    case Ok(st, rest) => Ok(st.(seen := st.seen + x), rest)
    case Err(short) => Err(short)
  }

  /** Which required fields were met before has no influence but on that record. */
  lemma {:induction false} FieldSeen(fields: seq<Field>, st: State, key: nat, s: Bytes, x: set<nat>)
    requires |st.m| == |fields|
    ensures DecField(fields, st.(seen := st.seen + x), key, s) == WithSeen(DecField(fields, st, key, s), x)
  {
    match Find(fields, key / 8)
    case Some(i) => KnownSeen(fields, st, i, key % 8, s, x);
    case None =>
  }

  lemma {:induction false} KnownSeen(fields: seq<Field>, st: State, i: nat, wt: nat, s: Bytes, x: set<nat>)
    requires |st.m| == |fields| && i < |fields|
    ensures DecKnown(fields, st.(seen := st.seen + x), i, wt, s) == WithSeen(DecKnown(fields, st, i, wt, s), x)
  {
    var q := ReqIndex(fields, i);
    assert st.seen + x + {q} == st.seen + {q} + x;
  }

  lemma {:induction false} LoopSeen(fields: seq<Field>, st: State, s: Bytes, x: set<nat>)
    requires |st.m| == |fields|
    ensures DecLoop(fields, st.(seen := st.seen + x), s) == WithSeen(DecLoop(fields, st, s), x)
    decreases |s|
  {
    if s != [] {
      var d := Varint32(s);
      if d.Ok? && d.v != 0 {
        FieldSeen(fields, st, d.v, d.rest, x);
        var e := DecField(fields, st, d.v, d.rest);
        if e.Ok? {
          LoopSeen(fields, e.v, e.rest, x);
        }
      }
    }
  }

  /** No array of fixed count, whose entries have to come in one piece. */
  ghost predicate NoFixedCount(fields: seq<Field>)
  {
    forall i :: 0 <= i < |fields| ==> !FixedCount(fields[i])
  }

  lemma FieldNoArray(fields: seq<Field>, st: State, key: nat, s: Bytes)
    requires NoFixedCount(fields) && |st.m| == |fields| && st.fixed.NoArray? && DecField(fields, st, key, s).Ok?
    ensures DecField(fields, st, key, s).v.fixed.NoArray?
  {
  }

  lemma {:induction false} LoopNoArray(fields: seq<Field>, st: State, s: Bytes)
    requires NoFixedCount(fields) && |st.m| == |fields| && st.fixed.NoArray? && DecLoop(fields, st, s).Ok?
    ensures DecLoop(fields, st, s).v.fixed.NoArray?
    decreases |s|
  {
    if s != [] {
      var d := Varint32(s);
      if d.v != 0 {
        FieldNoArray(fields, st, d.v, d.rest);
        var e := DecField(fields, st, d.v, d.rest);
        LoopNoArray(fields, e.v, e.rest);
      }
    }
  }

  /** a and then b from the message a left, with the required fields met in either. */
  ghost function Resumed(fields: seq<Field>, st: State, b: Bytes): (d: Dec<Message>)
    requires |st.m| == |fields|
  {
    match DecLoop(fields, Init(st.m), b)
    case Ok(st', rest) => if AllMet(fields, st'.seen + st.seen) then Ok(st'.m, rest) else Err(false)
    case Err(short) => Err(short)
  }

  /** Merge law, without arrays of fixed count: if the loop reads a to its end, decoding
      a + b is decoding a and then b into the same message, and the required fields may come
      in either; if a ends at a zero tag, b is left over; if a is rejected, so is a + b. */
  lemma MergeLaw(fields: seq<Field>, m: Message, a: Bytes, b: Bytes)
    requires NoFixedCount(fields) && |m| == |fields|
    ensures var d, whole := DecLoop(fields, Init(m), a), DecMsg(fields, m, a + b);
            && (d.Ok? && !d.v.closed ==> whole == Resumed(fields, d.v, b))
            && (d.Ok? && d.v.closed ==>
                  whole == if AllMet(fields, d.v.seen) then Ok(d.v.m, d.rest + b) else Err(false))
            && (d == Err(false) ==> whole == Err(false))
  {
    LoopConcat(fields, Init(m), a, b);
    var d := DecLoop(fields, Init(m), a);
    if d.Ok? {
      LoopNoArray(fields, Init(m), a);
      if d.v.closed {
        LoopClosed(fields, Init(m), a, b);
      } else {
        ResumedRight(fields, d.v, b);
      }
    }
  }

  lemma ResumedRight(fields: seq<Field>, st: State, b: Bytes)
    requires NoFixedCount(fields) && |st.m| == |fields| && st.fixed.NoArray? && !st.closed
    ensures var d := DecLoop(fields, st, b);
            Resumed(fields, st, b) ==
            if d.Err? then Err(d.short) else if Final(fields, d.v) then Ok(d.v.m, d.rest) else Err(false)
  {
    LoopSeen(fields, Init(st.m), b, st.seen);
    assert Init(st.m).(seen := {} + st.seen) == st;
    if DecLoop(fields, st, b).Ok? {
      LoopNoArray(fields, st, b);
    }
  }

  ghost predicate NoRequiredField(fields: seq<Field>)
  {
    forall i :: 0 <= i < |fields| ==> !fields[i].htype.HRequired?
  }

  lemma {:induction false} NothingRequired(fields: seq<Field>, k: nat)
    requires NoRequiredField(fields) && k <= |fields|
    ensures ReqIndex(fields, k) == 0
  {
    if k > 0 {
      NothingRequired(fields, k - 1);
    }
  }

  /** No field whose check spans the whole message. */
  ghost predicate NoWholeChecks(fields: seq<Field>)
  {
    NoRequiredField(fields) && NoFixedCount(fields)
  }

  /** Where nothing is required either, it is one call of pb_decode_noinit after the other. */
  lemma MergeInTwoCalls(fields: seq<Field>, m: Message, a: Bytes, b: Bytes)
    requires NoWholeChecks(fields) && |m| == |fields|
    requires DecLoop(fields, Init(m), a).Ok? && !DecLoop(fields, Init(m), a).v.closed
    ensures DecMsg(fields, m, a).Ok?
    ensures DecMsg(fields, m, a + b) == DecMsg(fields, DecMsg(fields, m, a).v, b)
  {
    NothingRequired(fields, |fields|);
    MergeLaw(fields, m, a, b);
    LoopNoArray(fields, Init(m), a);
    var st := DecLoop(fields, Init(m), a).v;
    if DecLoop(fields, Init(st.m), b).Ok? {
      LoopNoArray(fields, Init(st.m), b);
    }
  }

  // ----- a submessage in pieces -----

  /** A singular submessage field, required, optional or member of a union. */
  ghost predicate SingleSub(fields: seq<Field>, k: nat)
  {
    && k < |fields| && fields[k].ltype.LSubmessage? && !fields[k].htype.HRepeated?
    && NoWholeChecks(fields[k].sub)
  }

  function SubRecord(f: Field, body: Bytes): (w: Bytes)
  {
    EncTag(f.tag, WT_STRING) + EncBlob(body)
  }

  /** Field k after its body was decoded. */
  ghost function WithSub(fields: seq<Field>, m: Message, k: nat, x: Message): (r: Message)
    requires |m| == |fields| && k < |fields|
  {
    if fields[k].htype.HOneof? then ClearUnion(fields, m, k)[k := Alt(Some(Sub(x)))]
    else m[k := SetItem(fields[k], Sub(x))]
  }

  lemma WithSubTwice(fields: seq<Field>, m: Message, k: nat, x: Message, y: Message)
    requires |m| == |fields| && SingleSub(fields, k) && |x| == |fields[k].sub|
    ensures |WithSub(fields, m, k, x)| == |fields|
    ensures WithSub(fields, WithSub(fields, m, k, x), k, y) == WithSub(fields, m, k, y)
    ensures SubOf(fields[k], ItemOf(fields[k], WithSub(fields, m, k, x)[k])) == x
  {
  }

  lemma SubDecodes(fields: seq<Field>, st: State, k: nat, body: Bytes, t: Bytes)
    requires DescriptorOk(fields) && |st.m| == |fields| && SingleSub(fields, k) && |body| < U32
    ensures var f := fields[k];
            var st1 := Enter(fields, st, k);
            && st1.Some?
            && DecLoop(fields, st, SubRecord(f, body) + t) ==
               match DecMsg(f.sub, SubOf(f, ItemOf(f, st.m[k])), body)
               case Ok(x, _) => DecLoop(fields, st1.value.(m := WithSub(fields, st.m, k, x)), t)
               case Err(_) => Err(false)
  {
    hide DecLoop, DecMsg, Delimited, EncTag, EncBlob, SubOf, ItemOf, SetItem, ClearUnion;
    var f := fields[k];
    DescriptorParts(fields, k);
    Assoc(EncTag(f.tag, WT_STRING), EncBlob(body), t);
    LoopKnown(fields, st, k, WT_STRING, EncBlob(body) + t);
    BlobDelimited(body, t);
    var st1 := Enter(fields, st, k).value;
    var d := DecMsg(f.sub, SubOf(f, ItemOf(f, st.m[k])), body);
    assert DecItem(f, ItemOf(f, st.m[k]), EncBlob(body) + t) == if d.Ok? then Ok(Sub(d.v), t) else Err(false);
    if d.Ok? {
      GotAgain(st1.fixed);
      var got := if st1.fixed.Filling? then st1.fixed.got else 0;
      assert DecVal(fields, st.m, k, WT_STRING, got, EncBlob(body) + t) ==
             Ok((WithSub(fields, st.m, k, d.v), got), t);
    }
  }

  /** A submessage may come in pieces: the field with body a and again with body b is the field
      with body a + b, in every state of the decoder and whatever follows. */
  lemma SubmessageInPieces(fields: seq<Field>, st: State, k: nat, a: Bytes, b: Bytes, t: Bytes)
    requires DescriptorOk(fields) && |st.m| == |fields| && SingleSub(fields, k) && |a| + |b| < U32
    requires var d := DecLoop(fields[k].sub, Init(SubOf(fields[k], ItemOf(fields[k], st.m[k]))), a);
             d.Ok? && !d.v.closed
    ensures var f := fields[k];
            DecLoop(fields, st, SubRecord(f, a) + (SubRecord(f, b) + t)) == DecLoop(fields, st, SubRecord(f, a + b) + t)
  {
    hide DecLoop, DecMsg, SubRecord, WithSub, SubOf, ItemOf, DescriptorOk, NoWholeChecks;
    var f := fields[k];
    var base := SubOf(f, ItemOf(f, st.m[k]));
    MergeInTwoCalls(f.sub, base, a, b);
    var x := DecMsg(f.sub, base, a).v;
    SubDecodes(fields, st, k, a, SubRecord(f, b) + t);
    SubDecodes(fields, st, k, a + b, t);
    WithSubTwice(fields, st.m, k, x, x);
    var st1 := Enter(fields, st, k).value.(m := WithSub(fields, st.m, k, x));
    SubDecodes(fields, st1, k, b, t);
    EnterTwice(fields, st, k);
    var d := DecMsg(f.sub, x, b);
    if d.Ok? {
      WithSubTwice(fields, st.m, k, x, d.v);
    }
  }

  lemma {:induction false} AfterStaysInit(fields: seq<Field>, m: Message, a: Message, k: nat)
    requires NoWholeChecks(fields) && |m| == |a| == |fields| && k <= |fields|
    ensures AfterFrom(fields, Init(m), a, k) ==
            match MergeFrom(fields, m, a, k)
            case Some(m') => Some(Init(m'))
            case None => None
    decreases |fields| - k
  {
    if k < |fields| {
      var m' := MergeAt(fields, m, k, a[k]);
      if m'.Some? {
        assert After(fields, Init(m), k, a[k], m'.value) == Init(m'.value);
        AfterStaysInit(fields, m'.value, a, k + 1);
      }
    }
  }

  /** For an encoded message the first step is the merge; if it fails, so does the whole. */
  lemma {:induction false} EncodedMerge(fields: seq<Field>, m: Message, a: Message, w: Bytes, b: Bytes)
    requires DescriptorOk(fields) && NoWholeChecks(fields) && MsgOk(fields, a) && |m| == |fields|
    requires EncMsg(fields, a) == Some(w) && |w| < U32
    ensures DecMsg(fields, m, w) == ToDec(MergeMsg(fields, m, a), [])
    ensures DecMsg(fields, m, w + b) ==
            match DecMsg(fields, m, w)
            case Ok(m', _) => DecMsg(fields, m', b)
            case Err(_) => Err(false)
  {
    MsgDecodes(fields, m, a, w);
    FromDecodes(fields, Init(m), a, 0, w, b);
    AfterStaysInit(fields, m, a, 0);
  }

  // ----- packed and unpacked arrays -----

  /** Entries ys written from position n on. */
  function PutAll(items: seq<Item>, n: nat, ys: seq<Item>): (r: seq<Item>)
    decreases |ys|
  {
    if ys == [] then items else PutAll(Put(items, n, ys[0]), n + 1, ys[1..])
  }

  /** At the end of an array they are appended, inside it they replace what was there. */
  lemma {:induction false} PutAllPlaces(items: seq<Item>, n: nat, ys: seq<Item>)
    requires n <= |items|
    ensures PutAll(items, n, ys) == items[..n] + ys + (if n + |ys| <= |items| then items[n + |ys|..] else [])
    decreases |ys|
  {
    if ys == [] {
      assert items[..n] + [] + items[n..] == items;
    } else {
      var next := Put(items, n, ys[0]);
      PutAllPlaces(next, n + 1, ys[1..]);
      assert next[..n + 1] + ys[1..] == items[..n] + ys;
      assert n + |ys| <= |items| ==> next[n + |ys|..] == items[n + |ys|..];
    }
  }

  lemma {:induction false} ScalarItems(f: Field, items: seq<Item>, n: nat, xs: seq<Item>)
    requires !f.ltype.LSubmessage?
    ensures MergeItems(f, items, n, xs) ==
            if xs != [] && n + |xs| > f.arraySize then None else Some((PutAll(items, n, CanonItems(f, xs)), n + |xs|))
    decreases |xs|
  {
    if xs != [] && n < f.arraySize {
      ScalarItems(f, Put(items, n, CanonScalar(f, xs[0])), n + 1, xs[1..]);
      assert CanonItems(f, xs)[1..] == CanonItems(f, xs[1..]);
    }
  }

  lemma PackedBlock(fields: seq<Field>, st: State, k: nat, n: nat, xs: seq<Item>, body: Bytes, t: Bytes)
    requires Receiving(fields, st, k, n) && Packable(fields[k].ltype)
    requires forall i :: 0 <= i < |xs| ==> ItemOk(fields[k], xs[i])
    requires EncPacked(fields[k], xs) == Some(body) && |body| < U32
    ensures DecLoop(fields, st, EncTag(fields[k].tag, WT_STRING) + (EncBlob(body) + t))
         == GoArray(fields, st, k, n, xs, t)
  {
    hide DecLoop, EncTag, DecPacked, EncPacked, ItemOk;
    DescriptorParts(fields, k);
    LoopField(fields, st, k, WT_STRING, EncBlob(body) + t);
    BlobDelimited(body, t);
    PackedDecodes(fields[k], ItemsOf(st.m[k]), n, xs, body);
    GotAgain(st.fixed);
  }

  /** xs as entries of field k: packed in one block, or each with a tag of its own. */
  ghost predicate Forms(fields: seq<Field>, k: nat, xs: seq<Item>, packed: Bytes, each: Bytes)
  {
    && DescriptorOk(fields) && k < |fields| && fields[k].htype.HRepeated? && Packable(fields[k].ltype)
    && (forall i :: 0 <= i < |xs| ==> ItemOk(fields[k], xs[i]))
    && EncEach(fields[k], xs) == Some(each) && |each| < U32
    && var body := EncPacked(fields[k], xs);
       body.Some? && |body.value| < U32 && packed == EncTag(fields[k].tag, WT_STRING) + EncBlob(body.value)
  }

  /** Entries of field k counted so far, once it has been entered. */
  ghost function Counted(fields: seq<Field>, st: State, k: nat): (n: nat)
    requires k < |fields| && |st.m| == |fields|
  {
    if FixedCount(fields[k]) then Got(st.fixed) else |ItemsOf(st.m[k])|
  }

  /** The loop after the entries xs of field k, entered in st1. */
  ghost function Appended(fields: seq<Field>, st1: State, k: nat, xs: seq<Item>, t: Bytes): (d: Dec<State>)
    requires k < |fields| && |st1.m| == |fields|
  {
    var n := Counted(fields, st1, k);
    if xs != [] && n + |xs| > fields[k].arraySize then Err(false)
    else
      var items := PutAll(ItemsOf(st1.m[k]), n, CanonItems(fields[k], xs));
      DecLoop(fields, ArrayStored(fields, st1, k, items, n + |xs|), t)
  }

  lemma GoArrayAppends(fields: seq<Field>, st1: State, k: nat, xs: seq<Item>, t: Bytes)
    requires k < |fields| && |st1.m| == |fields| && Packable(fields[k].ltype)
    requires Receiving(fields, st1, k, Counted(fields, st1, k))
    ensures GoArray(fields, st1, k, Counted(fields, st1, k), xs, t) == Appended(fields, st1, k, xs, t)
  {
    ScalarItems(fields[k], ItemsOf(st1.m[k]), Counted(fields, st1, k), xs);
  }

  /** A tag of array field k: the loop fails, or goes on as if the field had been entered. */
  lemma LoopIntoArray(fields: seq<Field>, st: State, k: nat, wt: nat, s: Bytes)
    requires DescriptorOk(fields) && k < |fields| && |st.m| == |fields| && fields[k].htype.HRepeated? && wt < 8
    ensures var w := EncTag(fields[k].tag, wt) + s;
            match Enter(fields, st, k)
            case None => DecLoop(fields, st, w) == Err(false)
            case Some(st1) =>
              && |st1.m| == |fields| && Receiving(fields, st1, k, Counted(fields, st1, k))
              && DecLoop(fields, st, w) == DecLoop(fields, st1, w)
  {
    DescriptorParts(fields, k);
    LoopKnown(fields, st, k, wt, s);
    if Enter(fields, st, k).Some? {
      LoopEnter(fields, st, k, wt, s);
      EnterTwice(fields, st, k);
    }
  }

  /** What an array makes of the entries xs, in every state. */
  ghost function ArrayOutcome(fields: seq<Field>, st: State, k: nat, xs: seq<Item>, t: Bytes): (d: Dec<State>)
    requires k < |fields| && |st.m| == |fields|
  {
    match Enter(fields, st, k)
    case None => Err(false)
    case Some(st1) => Appended(fields, st1, k, xs, t)
  }

  lemma {:induction false} PackedOutcome(fields: seq<Field>, st: State, k: nat, xs: seq<Item>, packed: Bytes,
      each: Bytes, t: Bytes)
    requires Forms(fields, k, xs, packed, each) && |st.m| == |fields|
    ensures DecLoop(fields, st, packed + t) == ArrayOutcome(fields, st, k, xs, t)
  {
    var body := EncPacked(fields[k], xs).value;
    Assoc(EncTag(fields[k].tag, WT_STRING), EncBlob(body), t);
    BlockOutcome(fields, st, k, xs, body, t);
  }

  lemma BlockOutcome(fields: seq<Field>, st: State, k: nat, xs: seq<Item>, body: Bytes, t: Bytes)
    requires DescriptorOk(fields) && k < |fields| && fields[k].htype.HRepeated? && Packable(fields[k].ltype)
    requires forall i :: 0 <= i < |xs| ==> ItemOk(fields[k], xs[i])
    requires EncPacked(fields[k], xs) == Some(body) && |body| < U32 && |st.m| == |fields|
    ensures DecLoop(fields, st, EncTag(fields[k].tag, WT_STRING) + (EncBlob(body) + t)) ==
            ArrayOutcome(fields, st, k, xs, t)
  {
    LoopIntoArray(fields, st, k, WT_STRING, EncBlob(body) + t);
    if Enter(fields, st, k).Some? {
      var st1 := Enter(fields, st, k).value;
      PackedBlock(fields, st1, k, Counted(fields, st1, k), xs, body, t);
      GoArrayAppends(fields, st1, k, xs, t);
    }
  }

  lemma {:induction false} EachOutcome(fields: seq<Field>, st: State, k: nat, xs: seq<Item>, packed: Bytes,
      each: Bytes, t: Bytes)
    requires Forms(fields, k, xs, packed, each) && |st.m| == |fields| && xs != []
    ensures DecLoop(fields, st, each + t) == ArrayOutcome(fields, st, k, xs, t)
  {
    hide DecLoop, EncTag, ItemOk;
    var wx, b := EachHead(fields[k], xs, each, t);
    LoopIntoArray(fields, st, k, WireType(fields[k].ltype), wx + (b + t));
    if Enter(fields, st, k).Some? {
      var st1 := Enter(fields, st, k).value;
      EachDecodes(fields, st1, k, Counted(fields, st1, k), xs, each, t);
      GoArrayAppends(fields, st1, k, xs, t);
    }
  }

  /** At least one value: one packed block and the same values sent one by one have the same
      outcome in every state of the decoder, for arrays with a count and for arrays of fixed
      count: a failure exactly on overflow, otherwise the entries in their places. */
  lemma PackedAgreesWithUnpacked(fields: seq<Field>, st: State, k: nat, xs: seq<Item>, packed: Bytes, each: Bytes,
      t: Bytes)
    requires Forms(fields, k, xs, packed, each) && |st.m| == |fields| && xs != []
    ensures DecLoop(fields, st, packed + t) == DecLoop(fields, st, each + t) == ArrayOutcome(fields, st, k, xs, t)
  {
    PackedOutcome(fields, st, k, xs, packed, each, t);
    EachOutcome(fields, st, k, xs, packed, each, t);
  }

  /** No value: the empty block still counts as having met the field. It changes nothing
      exactly when entering the field changes nothing. */
  lemma {:induction false} EmptyBlock(fields: seq<Field>, st: State, k: nat, packed: Bytes)
    requires Forms(fields, k, [], packed, []) && |st.m| == |fields| && st.m[k].Rep?
    ensures (forall t :: DecLoop(fields, st, packed + t) == DecLoop(fields, st, t)) <==>
            Enter(fields, st, k) == Some(st)
  {
    forall t ensures DecLoop(fields, st, packed + t) ==
                     if Enter(fields, st, k).None? then Err(false) else DecLoop(fields, Enter(fields, st, k).value, t)
    {
      PackedOutcome(fields, st, k, [], packed, [], t);
      if Enter(fields, st, k).Some? {
        var st1 := Enter(fields, st, k).value;
        LoopIntoArray(fields, st, k, WT_STRING, t);
        ArrayStoredSame(fields, st1, k, Counted(fields, st1, k));
      }
    }
    var none: Bytes := [];
    assert DecLoop(fields, st, packed + none) == DecLoop(fields, st, none) ==> Enter(fields, st, k) == Some(st);
  }

  ghost predicate AgreeIn(fields: seq<Field>, st: State, k: nat, packed: Bytes, each: Bytes)
  {
    |st.m| == |fields| && k < |fields| && st.m[k].Rep? ==>
      forall t :: DecLoop(fields, st, packed + t) == DecLoop(fields, st, each + t)
  }

  /** The two forms agree in every state if and only if there is at least one value or the
      array is not of fixed count. */
  lemma FormsAgreeExactly(fields: seq<Field>, k: nat, xs: seq<Item>, packed: Bytes, each: Bytes)
    requires Forms(fields, k, xs, packed, each)
    ensures (forall st :: AgreeIn(fields, st, k, packed, each)) <==> xs != [] || !FixedCount(fields[k])
  {
    if xs != [] {
      forall st: State ensures AgreeIn(fields, st, k, packed, each) {
        if |st.m| == |fields| {
          forall t ensures DecLoop(fields, st, packed + t) == DecLoop(fields, st, each + t) {
            PackedAgreesWithUnpacked(fields, st, k, xs, packed, each, t);
          }
        }
      }
    } else {
      EmptyFormsAgree(fields, k, packed);
    }
  }

  lemma EmptyFormsAgree(fields: seq<Field>, k: nat, packed: Bytes)
    requires Forms(fields, k, [], packed, [])
    ensures (forall st :: AgreeIn(fields, st, k, packed, [])) <==> !FixedCount(fields[k])
  {
    forall st: State | |st.m| == |fields| && st.m[k].Rep?
      ensures AgreeIn(fields, st, k, packed, []) <==> Enter(fields, st, k) == Some(st)
    {
      EmptyBlock(fields, st, k, packed);
      assert forall t: Bytes :: [] + t == t;
    }
    var m := DefaultMsg(fields);
    DefaultMsgAt(fields, k);
    assert Init(m).m[k].Rep?;
    assert Enter(fields, Init(m), k) == Some(Init(m)) <==> !FixedCount(fields[k]);
  }

  /** What comes of it: a message that consists of an empty block for an array of fixed count
      is rejected, while the empty message without required fields is not. */
  lemma EmptyBlockRejected(fields: seq<Field>, m: Message, k: nat, packed: Bytes)
    requires Forms(fields, k, [], packed, []) && |m| == |fields| && m[k].Rep? && FixedCount(fields[k])
    ensures DecMsg(fields, m, packed) == Err(false)
    ensures NoRequiredField(fields) ==> DecMsg(fields, m, []) == Ok(m, [])
  {
    DescriptorParts(fields, k);
    PackedOutcome(fields, Init(m), k, [], packed, [], []);
    assert packed + [] == packed;
    if NoRequiredField(fields) {
      NothingRequired(fields, |fields|);
    }
  }

  // ----- arrays of fixed count come whole -----

  /** While one array of fixed count is unfinished, another one may not begin. */
  lemma UnfinishedRejected(fields: seq<Field>, st: State, j: nat, wt: nat, s: Bytes)
    requires DescriptorOk(fields) && |st.m| == |fields| && j < |fields| && FixedCount(fields[j]) && wt < 8
    requires st.fixed.Filling? && st.fixed.index != j && st.fixed.got != st.fixed.want
    ensures DecLoop(fields, st, EncTag(fields[j].tag, wt) + s) == Err(false)
  {
    hide DecLoop;
    LoopIntoArray(fields, st, j, wt, s);
  }

  /** Where nothing is required, a message that is one block for an array of fixed count is
      accepted exactly if it has as many entries as the array; they are the array then. */
  lemma FixedCountExact(fields: seq<Field>, m: Message, k: nat, xs: seq<Item>, packed: Bytes, each: Bytes)
    requires Forms(fields, k, xs, packed, each) && |m| == |fields| && FixedCount(fields[k]) && NoRequiredField(fields)
    requires m[k].Rep? && |m[k].items| == fields[k].arraySize
    ensures DecMsg(fields, m, packed).Ok? <==> |xs| == fields[k].arraySize
    ensures |xs| == fields[k].arraySize ==>
              DecMsg(fields, m, packed) == Ok(m[k := Rep(CanonItems(fields[k], xs))], [])
  {
    hide DescriptorOk, ItemOk, EncEach, EncPacked, EncBlob, CanonItems, PutAll;
    DescriptorParts(fields, k);
    NothingRequired(fields, |fields|);
    PackedOutcome(fields, Init(m), k, xs, packed, each, []);
    assert packed + [] == packed;
    if |xs| == fields[k].arraySize {
      WholeArray(m[k].items, CanonItems(fields[k], xs));
    }
  }

  lemma WholeArray(items: seq<Item>, ys: seq<Item>)
    requires |items| == |ys|
    ensures PutAll(items, 0, ys) == ys
  {
    PutAllPlaces(items, 0, ys);
    assert items[..0] + ys + items[|ys|..] == ys;
  }

  // ----- the end of a message -----

  /** A zero byte at a field boundary ends the message; what follows is left over. */
  lemma ZeroTagEnds(fields: seq<Field>, m: Message, a: Bytes, t: Bytes)
    requires |m| == |fields| && DecLoop(fields, Init(m), a).Ok? && !DecLoop(fields, Init(m), a).v.closed
    ensures var st := DecLoop(fields, Init(m), a).v;
            DecMsg(fields, m, a + ([0] + t)) == if Final(fields, st) then Ok(st.m, t) else Err(false)
  {
    LoopConcat(fields, Init(m), a, [0] + t);
    assert ([0] + t)[1..] == t;
  }
}
