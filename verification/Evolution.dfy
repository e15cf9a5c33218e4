/** Senders and receivers with different descriptors: what one side does not know. */
module Evolution {
  import opened Bits
  import opened Wire
  import opened Schema
  import opened Encoding
  import opened Decoding
  import opened Scalars
  import opened Merging
  import opened RoundTrip
  import opened Laws

  // ----- the payload of every type is skipped by its wire type -----

  lemma {:induction false} SkipsVarint(v: nat, t: Bytes)
    ensures SkipVarint(EncVarint(v) + t) == Ok((), t)
    decreases v
  {
    EncVarintCons(v, t);
    if v >= 128 {
      SkipsVarint(v / 128, t);
    }
  }

  lemma SkipsFixed(w: Bytes, t: Bytes)
    ensures Take(|w|, w + t) == Ok(w, t)
  {
    assert (w + t)[..|w|] == w && (w + t)[|w|..] == t;
  }

  /** Whatever is written for a value, a reader that knows only its wire type finds its end. */
  lemma SkipsPayload(f: Field, x: Item, w: Bytes, t: Bytes)
    requires EncItem(f, x) == Some(w) && |w| < U32
    ensures Skip(WireType(f.ltype), w + t) == Ok((), t)
  {
    hide EncVarint, EncFixed, EncBlob, EncMsg, Delimited;
    match f.ltype
    case LBool => SkipsVarint(if NumOf(x) != 0 then 1 else 0, t);
    case LVarint => SkipsVarint(NumOf(x) % U64, t);
    case LUvarint => SkipsVarint(NumOf(x) % U64, t);
    case LSvarint => SkipsVarint(ZigZag(NumOf(x)), t);
    case LFixed32 => SkipsFixed(w, t);
    case LFixed64 => SkipsFixed(w, t);
    case LBytes => BlobDelimited(BytesOf(x), t);
    case LString => BlobDelimited(BytesOf(x)[..StrLen(BytesOf(x), f.dataSize)], t);
    case LFixedBytes => BlobDelimited(BytesOf(x), t);
    case LSubmessage => BlobDelimited(EncMsg(f.sub, SubOf(f, x)).value, t);
  }

  // ----- fields the receiver does not know -----

  /** The receiver has no field with f's tag. */
  ghost predicate Unknown(fields: seq<Field>, f: Field)
  {
    1 <= f.tag < TAG_LIMIT && Find(fields, f.tag).None?
  }

  lemma TagReads(tag: nat, wt: nat, t: Bytes)
    requires tag < TAG_LIMIT && wt < 8
    ensures Varint32(EncTag(tag, wt) + t) == Ok(tag * 8 + wt, t)
  {
    Varint32RoundTrip(tag * 8 + wt, t);
  }

  /** A tag and a payload its wire type can skip. */
  lemma RecordSkipped(fields: seq<Field>, st: State, f: Field, wt: nat, p: Bytes, b: Bytes)
    requires |st.m| == |fields| && Unknown(fields, f) && wt < 8 && Skip(wt, p) == Ok((), [])
    ensures DecLoop(fields, st, EncTag(f.tag, wt) + p + b) == DecLoop(fields, st, b)
  {
    hide DecLoop, Skip, EncTag, Varint32;
    TagReads(f.tag, wt, p);
    assert (f.tag * 8 + wt) / 8 == f.tag && (f.tag * 8 + wt) % 8 == wt;
    SkipsUnknown(fields, st, EncTag(f.tag, wt) + p, b);
  }

  lemma TaggedSkipped(fields: seq<Field>, st: State, f: Field, x: Item, w: Bytes, b: Bytes)
    requires |st.m| == |fields| && Unknown(fields, f) && EncTagged(f, x) == Some(w) && |w| < U32
    ensures DecLoop(fields, st, w + b) == DecLoop(fields, st, b)
  {
    hide DecLoop, Skip, EncTag, EncItem;
    var p := EncItem(f, x).value;
    SkipsPayload(f, x, p, []);
    assert p + [] == p;
    RecordSkipped(fields, st, f, WireType(f.ltype), p, b);
  }

  lemma {:induction false} EachSkipped(fields: seq<Field>, st: State, f: Field, xs: seq<Item>, w: Bytes, b: Bytes)
    requires |st.m| == |fields| && Unknown(fields, f) && EncEach(f, xs) == Some(w) && |w| < U32
    ensures DecLoop(fields, st, w + b) == DecLoop(fields, st, b)
    decreases |xs|
  {
    hide DecLoop, EncTagged;
    if xs == [] {
      assert w + b == b;
    } else {
      var first, rest := EncTagged(f, xs[0]).value, EncEach(f, xs[1..]).value;
      Assoc(first, rest, b);
      TaggedSkipped(fields, st, f, xs[0], first, rest + b);
      EachSkipped(fields, st, f, xs[1..], rest, b);
    }
  }

  /** Whatever the encoder writes for a field, a receiver without that field passes over. */
  lemma ValSkipped(fields: seq<Field>, st: State, f: Field, v: Val, w: Bytes, b: Bytes)
    requires |st.m| == |fields| && Unknown(fields, f) && EncVal(f, v) == Some(w) && |w| < U32
    ensures DecLoop(fields, st, w + b) == DecLoop(fields, st, b)
  {
    hide DecLoop, EncTagged, EncEach, EncPacked, Skip, EncTag, EncBlob;
    if w == [] {
      assert w + b == b;
    } else if !f.htype.HRepeated? {
      TaggedSkipped(fields, st, f, if f.htype.HOneof? then v.o.value else ItemOf(f, v), w, b);
    } else if Packable(f.ltype) {
      var body := EncPacked(f, ItemsOf(v)).value;
      BlockSkipped(body);
      RecordSkipped(fields, st, f, WT_STRING, EncBlob(body), b);
    } else {
      EachSkipped(fields, st, f, ItemsOf(v), w, b);
    }
  }

  lemma BlockSkipped(body: Bytes)
    requires |body| < U32
    ensures Skip(WT_STRING, EncBlob(body)) == Ok((), [])
  {
    BlobDelimited(body, []);
    assert EncBlob(body) + [] == EncBlob(body);
  }

  /** At any field boundary of a message. */
  lemma UnknownValTransparent(fields: seq<Field>, m: Message, a: Bytes, f: Field, v: Val, u: Bytes, b: Bytes)
    requires |m| == |fields| && Unknown(fields, f) && EncVal(f, v) == Some(u) && |u| < U32
    requires DecLoop(fields, Init(m), a).Ok? && !DecLoop(fields, Init(m), a).v.closed
    ensures DecMsg(fields, m, a + (u + b)) == DecMsg(fields, m, a + b)
  {
    hide DecLoop;
    LoopConcat(fields, Init(m), a, u + b);
    LoopConcat(fields, Init(m), a, b);
    ValSkipped(fields, DecLoop(fields, Init(m), a).v, f, v, u, b);
  }

  // ----- a receiver that lacks some of the sender's fields -----

  /** The same field in another struct: only the offsets differ. */
  ghost predicate SameWire(f: Field, g: Field)
  {
    f == g.(dataOffset := f.dataOffset, sizeOffset := f.sizeOffset) && (f.sizeOffset == 0 <==> g.sizeOffset == 0)
  }

  lemma SameItemImage(f: Field, g: Field, x: Item)
    requires SameWire(f, g)
    ensures EncItem(f, x) == EncItem(g, x) && IsZeroItem(f, x) == IsZeroItem(g, x)
    ensures ItemOk(f, x) == ItemOk(g, x) && DefaultItem(f) == DefaultItem(g)
    ensures EncTagged(f, x) == EncTagged(g, x)
  {
  }

  lemma {:induction false} SameArrayImage(f: Field, g: Field, xs: seq<Item>)
    requires SameWire(f, g)
    ensures EncPacked(f, xs) == EncPacked(g, xs) && EncEach(f, xs) == EncEach(g, xs)
    decreases |xs|
  {
    if xs != [] {
      SameItemImage(f, g, xs[0]);
      SameArrayImage(f, g, xs[1..]);
    }
  }

  lemma SameImage(f: Field, g: Field, v: Val)
    requires SameWire(f, g)
    ensures EncVal(f, v) == EncVal(g, v) && ValOk(f, v) == ValOk(g, v)
  {
    hide EncTagged, IsZeroItem, ItemOk, EncPacked, EncEach, DefaultItem;
    SameArrayImage(f, g, ItemsOf(v));
    forall x ensures EncTagged(f, x) == EncTagged(g, x) && IsZeroItem(f, x) == IsZeroItem(g, x)
             ensures ItemOk(f, x) == ItemOk(g, x) && DefaultItem(f) == DefaultItem(g)
    {
      SameItemImage(f, g, x);
    }
  }

  /** fields are those of sent at the positions pos, in order; the others are unknown. */
  ghost predicate Lacks(fields: seq<Field>, sent: seq<Field>, pos: seq<nat>)
  {
    && |pos| == |fields|
    && (forall j :: 0 <= j < |pos| ==> pos[j] < |sent| && SameWire(fields[j], sent[pos[j]]))
    && (forall j, k :: 0 <= j < k < |pos| ==> pos[j] < pos[k])
    && (forall k :: 0 <= k < |sent| && k !in pos ==> Unknown(fields, sent[k]))
  }

  /** What of m the receiver has fields for. */
  function Part(m: Message, pos: seq<nat>): (a: Message)
    requires forall j :: 0 <= j < |pos| ==> pos[j] < |m|
    ensures |a| == |pos|
  {
    seq(|pos|, j requires 0 <= j < |pos| => m[pos[j]])
  }

  /** j of the receiver's fields lie before position k of the sender's. */
  ghost predicate Aligned(pos: seq<nat>, k: nat, j: nat)
  {
    && j <= |pos| && (forall i :: 0 <= i < j ==> pos[i] < k) && (forall i :: j <= i < |pos| ==> pos[i] >= k)
  }

  lemma AlignedNext(pos: seq<nat>, k: nat, j: nat)
    requires Aligned(pos, k, j) && forall i, l :: 0 <= i < l < |pos| ==> pos[i] < pos[l]
    ensures if j < |pos| && pos[j] == k then Aligned(pos, k + 1, j + 1) else k !in pos && Aligned(pos, k + 1, j)
  {
  }

  /** From position k on, the receiver reads what its own fields would have been sent as. */
  lemma {:induction false} FromLacking(fields: seq<Field>, sent: seq<Field>, pos: seq<nat>, st: State, m: Message,
      k: nat, j: nat, w: Bytes)
    requires DescriptorOk(fields) && Lacks(fields, sent, pos) && |m| == |sent| && MsgOk(fields, Part(m, pos))
    requires k <= |sent| && Aligned(pos, k, j) && Between(fields, st, j) && SeenUpTo(fields, st, j)
    requires EncFrom(sent, m, k) == Some(w) && |w| < U32
    ensures DecLoop(fields, st, w) == ToDec(AfterFrom(fields, st, Part(m, pos), j), [])
    decreases |sent| - k
  {
    hide DecLoop, DescriptorOk, MsgOk, EncVal, Unknown, SameWire;
    var a := Part(m, pos);
    if k == |sent| {
      NothingLeft(fields, st, a, pos, k, j);
    } else {
      var u, b := EncVal(sent[k], m[k]).value, EncFrom(sent, m, k + 1).value;
      AlignedNext(pos, k, j);
      if j < |pos| && pos[j] == k {
        KnownField(fields, st, a, j, sent[k], u, b);
        var r := MergeAt(fields, st.m, j, a[j]);
        if r.Some? {
          AfterBetween(fields, st, j, a[j], r.value);
          FromLacking(fields, sent, pos, After(fields, st, j, a[j], r.value), m, k + 1, j + 1, b);
        }
      } else {
        ValSkipped(fields, st, sent[k], m[k], u, b);
        FromLacking(fields, sent, pos, st, m, k + 1, j, b);
      }
    }
  }

  lemma NothingLeft(fields: seq<Field>, st: State, a: Message, pos: seq<nat>, k: nat, j: nat)
    requires |st.m| == |a| == |pos| == |fields| && Aligned(pos, k, j) && forall i :: 0 <= i < |pos| ==> pos[i] < k
    ensures j == |fields| && DecLoop(fields, st, []) == ToDec(AfterFrom(fields, st, a, j), [])
  {
    assert pos == [] || pos[|pos| - 1] < k;
  }

  lemma KnownField(fields: seq<Field>, st: State, a: Message, j: nat, g: Field, u: Bytes, b: Bytes)
    requires DescriptorOk(fields) && MsgOk(fields, a) && j < |fields| && Between(fields, st, j)
    requires SameWire(fields[j], g) && EncVal(g, a[j]) == Some(u) && |u| < U32
    ensures ValOk(fields[j], a[j]) && DecLoop(fields, st, u + b) == Go(fields, st, j, a[j], b)
  {
    hide DecLoop, DescriptorOk, EncVal;
    SameImage(fields[j], g, a[j]);
    assert ValOk(fields[j], a[j]);
    ValDecodes(fields, st, j, a[j], u, b);
  }

  lemma ThenFinal(fields: seq<Field>, r: Message, a: Message, w: Bytes)
    requires DescriptorOk(fields) && MsgOk(fields, a) && |r| == |fields|
    requires DecLoop(fields, Init(r), w) == ToDec(AfterFrom(fields, Init(r), a, 0), [])
    ensures DecMsg(fields, r, w) == ToDec(MergeMsg(fields, r, a), [])
  {
    hide DecLoop, AfterFrom, MergeFrom, DescriptorOk;
    AfterIsMerge(fields, Init(r), a, 0);
  }

  /** A receiver without some of the sender's fields: decoding what the sender wrote, on top
      of any message, merges exactly the fields the receiver has. */
  lemma FieldsDropped(fields: seq<Field>, sent: seq<Field>, pos: seq<nat>, r: Message, m: Message, w: Bytes)
    requires DescriptorOk(fields) && Lacks(fields, sent, pos)
    requires |r| == |fields| && |m| == |sent| && MsgOk(fields, Part(m, pos))
    requires EncMsg(sent, m) == Some(w) && |w| < U32
    ensures DecMsg(fields, r, w) == ToDec(MergeMsg(fields, r, Part(m, pos)), [])
  {
    hide DecMsg, DecLoop, DescriptorOk, MsgOk, AfterFrom, MergeMsg, SameWire, Unknown;
    FromLacking(fields, sent, pos, Init(r), m, 0, 0, w);
    ThenFinal(fields, r, Part(m, pos), w);
  }

  /** A reader that knows no field walks the whole encoding to its end. */
  lemma NothingKnown(sent: seq<Field>, m: Message, w: Bytes)
    requires DescriptorOk(sent) && |m| == |sent| && EncMsg(sent, m) == Some(w) && |w| < U32
    ensures DecMsg([], [], w) == Ok([], [])
  {
    forall k | 0 <= k < |sent| ensures Unknown([], sent[k]) {
      assert FieldOk(sent[k]);
    }
    FieldsDropped([], sent, [], [], m, w);
  }

  // ----- a receiver that has more fields -----

  /** New fields of the receiver stay at their defaults: a message in which they are absent
      has the encoding the old sender gives it. */
  lemma {:induction false} FieldsAdded(fields: seq<Field>, sent: seq<Field>, pos: seq<nat>, a: Message, k: nat, j: nat)
    requires |pos| == |sent| && |a| == |fields| && k <= |fields| && Aligned(pos, k, j)
    requires forall i, l :: 0 <= i < l < |pos| ==> pos[i] < pos[l]
    requires forall i :: 0 <= i < |pos| ==> pos[i] < |fields| && SameWire(sent[i], fields[pos[i]])
    requires forall i :: 0 <= i < |fields| && i !in pos ==> EncVal(fields[i], a[i]) == Some([])
    ensures EncFrom(fields, a, k) == EncFrom(sent, Part(a, pos), j)
    decreases |fields| - k
  {
    hide EncVal, SameWire;
    if k < |fields| {
      AlignedNext(pos, k, j);
      if j < |pos| && pos[j] == k {
        SameImage(sent[j], fields[k], a[k]);
        FieldsAdded(fields, sent, pos, a, k + 1, j + 1);
      } else {
        FieldsAdded(fields, sent, pos, a, k + 1, j);
        NothingInFront(EncFrom(fields, a, k + 1));
      }
    }
  }

  /** What an old sender writes, a receiver with more fields reads in full; the new fields
      are those of a message that leaves them out. */
  lemma NewReceiver(fields: seq<Field>, sent: seq<Field>, pos: seq<nat>, a: Message, w: Bytes)
    requires |pos| == |sent| && DescriptorOk(fields) && MsgOk(fields, a)
    requires forall i, l :: 0 <= i < l < |pos| ==> pos[i] < pos[l]
    requires forall i :: 0 <= i < |pos| ==> pos[i] < |fields| && SameWire(sent[i], fields[pos[i]])
    requires forall i :: 0 <= i < |fields| && i !in pos ==> !Written(fields[i], a[i])
    requires EncMsg(sent, Part(a, pos)) == Some(w) && |w| < U32
    ensures Decode(fields, w) == Ok(ReceivedMsg(fields, a), [])
  {
    hide SameWire, DescriptorOk, IsZeroItem, EncArray, EncTagged, ReceivedMsg, Decode;
    forall i | 0 <= i < |fields| && i !in pos ensures EncVal(fields[i], a[i]) == Some([]) {
      UnwrittenEmpty(fields[i], a[i]);
    }
    FieldsAdded(fields, sent, pos, a, 0, 0);
    MessageReceived(fields, a, w);
  }

  lemma UnwrittenEmpty(f: Field, v: Val)
    requires !Written(f, v)
    ensures EncVal(f, v) == Some([])
  {
  }

  lemma NothingInFront(b: Option<Bytes>)
    ensures b.Some? ==> [] + b.value == b.value
  {
  }
}
