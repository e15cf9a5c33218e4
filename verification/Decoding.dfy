/** What pb_decode_noinit and pb_decode make of the bytes left in a stream, as functions.
    The number of bytes left is the measure of both the field loop and the recursion into
    submessages. */
module Decoding {
  import opened Bits
  import opened Wire
  import opened Schema

  // ----- pb_dec_* for scalars -----

  function Signed32(v: int): (n: int)
  {
    if v >= U32 / 2 then v - U32 else v
  }

  /** Store n in an integer field of the given size, refusing a value that does not fit. */
  function StoreSigned(n: int, size: nat, r: Bytes): (d: Dec<Item>)
  {
    if IntSize(size) && -Half(size) <= n < Half(size) then Ok(Num(n), r) else Err(false)
  }

  function StoreUnsigned(n: int, size: nat, r: Bytes): (d: Dec<Item>)
  {
    if IntSize(size) && 0 <= n < 2 * Half(size) then Ok(Num(n), r) else Err(false)
  }

  function DecBytes(f: Field, s: Bytes): (d: Dec<Item>)
    ensures d.Ok? ==> |d.rest| < |s|
  {
    var (n, r) :- Varint32(s);
    if n > PB_SIZE_MAX || n + BYTES_OFFSET > f.dataSize then Err(false)
    else
      var (b, r') :- Take(n, r);
      Ok(Blob(b), r')
  }

  function DecString(f: Field, s: Bytes): (d: Dec<Item>)
    ensures d.Ok? ==> |d.rest| < |s|
  {
    var (n, r) :- Varint32(s);
    var alloc := (n + 1) % U32;
    if alloc < n || alloc > f.dataSize then Err(false)
    else
      var (b, r') :- Take(n, r);
      Ok(Blob(b), r')
  }

  function DecFixedBytes(f: Field, s: Bytes): (d: Dec<Item>)
    ensures d.Ok? ==> |d.rest| < |s|
  {
    var (n, r) :- Varint32(s);
    if n > PB_SIZE_MAX then Err(false)
    else if n == 0 then Ok(Blob(Zeros(f.dataSize)), r)
    else if n != f.dataSize then Err(false)
    else
      var (b, r') :- Take(n, r);
      Ok(Blob(b), r')
  }

  function DecScalar(f: Field, s: Bytes): (d: Dec<Item>)
    ensures d.Ok? ==> |d.rest| < |s|
  {
    match f.ltype
    case LBool =>
      var (v, r) :- Varint32(s);
      Ok(Num(if v != 0 then 1 else 0), r)
    case LVarint =>
      var (v, r) :- Varint64(s);
      StoreSigned(if f.dataSize == 8 then Signed64(v) else Signed32(v % U32), f.dataSize, r)
    case LUvarint =>
      var (v, r) :- Varint64(s);
      StoreUnsigned(v, f.dataSize, r)
    case LSvarint =>
      var (v, r) :- Varint64(s);
      StoreSigned(UnZigZag(v), f.dataSize, r)
    case LFixed32 =>
      var (v, r) :- Fixed(4, s);
      Ok(Num(v), r)
    case LFixed64 =>
      var (v, r) :- Fixed(8, s);
      Ok(Num(v), r)
    case LBytes => DecBytes(f, s)
    case LString => DecString(f, s)
    case LFixedBytes => DecFixedBytes(f, s)
    case LSubmessage => Err(false)
  }

  // ----- the decoder's state across one message -----

  /** The fixed-count array being received: its field, its array_size and the entries got. */
  datatype Filling = NoArray | Filling(index: nat, want: nat, got: nat)

  /** seen holds the indices of the required fields met, closed says that a zero tag ended
      the message. */
  datatype State = State(m: Message, seen: set<nat>, fixed: Filling, closed: bool)

  function Init(m: Message): (st: State)
  {
    State(m, {}, NoArray, false)
  }

  predicate FixedDone(x: Filling)
  {
    x.NoArray? || x.got == x.want
  }

  function Got(x: Filling): (n: nat)
  {
    if x.Filling? then x.got else 0
  }

  function WithGot(x: Filling, n: nat): (r: Filling)
  {
    if x.Filling? then x.(got := n) else NoArray
  }

  /** The required fields have all been met; only the first 64 are tracked. */
  ghost predicate AllMet(fields: seq<Field>, seen: set<nat>)
  {
    forall k :: 0 <= k < ReqIndex(fields, |fields|) && k < MAX_REQUIRED ==> k in seen
  }

  /** The checks after the loop. */
  ghost predicate Final(fields: seq<Field>, st: State)
  {
    FixedDone(st.fixed) && AllMet(fields, st.seen)
  }

  // ----- fields and messages -----

  function SetItem(f: Field, x: Item): (v: Val)
  {
    if f.htype.HOptional? && f.sizeOffset != 0 then Opt(true, x) else One(x)
  }

  /** Entering field i: the bookkeeping of fixed_count_field and fields_seen. */
  function Enter(fields: seq<Field>, st: State, i: nat): (r: Option<State>)
    requires i < |fields|
    ensures r.Some? ==> r.value.m == st.m && r.value.closed == st.closed
  {
    var f := fields[i];
    var same := st.fixed.Filling? && st.fixed.index == i;
    if FixedCount(f) && !same && !FixedDone(st.fixed) then None
    else
      var fixed := if FixedCount(f) && !same then Filling(i, f.arraySize, 0) else st.fixed;
      var q := ReqIndex(fields, i);
      var seen := if f.htype.HRequired? && q < MAX_REQUIRED then st.seen + {q} else st.seen;
      Some(State(st.m, seen, fixed, st.closed))
  }

  ghost function DecItem(f: Field, prev: Item, s: Bytes): (d: Dec<Item>)
    ensures d.Ok? ==> |d.rest| < |s|
    decreases |s|, 0
  {
    if f.ltype.LSubmessage? then
      var (body, r) :- Delimited(s);
      var base := if f.htype.HRepeated? then DefaultMsg(f.sub) else SubOf(f, prev);
      match DecMsg(f.sub, base, body)
      case Ok(m, _) => Ok(Sub(m), r)
      case Err(_) => Err(false)
    else DecScalar(f, s)
  }

  /** The packed-array loop on the block's bytes. */
  ghost function DecPacked(f: Field, items: seq<Item>, n: nat, body: Bytes): (d: Dec<(seq<Item>, nat)>)
    decreases |body|, 1
  {
    if body == [] then Ok((items, n), [])
    else if n >= f.arraySize then Err(false)
    else
      match DecItem(f, DefaultItem(f), body)
      case Err(_) => Err(false)
      case Ok(x, r) => DecPacked(f, Put(items, n, x), n + 1, r)
  }

  /** The PB_HTYPE_REPEATED case; n is the current count. */
  ghost function DecArray(f: Field, items: seq<Item>, n: nat, wt: nat, s: Bytes): (d: Dec<(seq<Item>, nat)>)
    ensures d.Ok? ==> |d.rest| < |s|
    decreases |s|, 2
  {
    if wt == WT_STRING && Packable(f.ltype) then
      var (body, r) :- Delimited(s);
      match DecPacked(f, items, n, body)
      case Ok(res, _) => Ok(res, r)
      case Err(_) => Err(false)
    else if n >= f.arraySize then Err(false)
    else
      var (x, r) :- DecItem(f, DefaultItem(f), s);
      Ok((Put(items, n, x), n + 1), r)
  }

  /** decode_static_field on field i; got is the entry count of a fixed-count array. */
  ghost function DecVal(fields: seq<Field>, m: Message, i: nat, wt: nat, got: nat, s: Bytes): (d: Dec<(Message, nat)>)
    requires |m| == |fields| && i < |fields|
    ensures d.Ok? ==> |d.rest| < |s| && |d.v.0| == |m|
    decreases |s|, 3
  {
    var f := fields[i];
    match f.htype
    case HRequired =>
      var (x, r) :- DecItem(f, ItemOf(f, m[i]), s);
      Ok((m[i := SetItem(f, x)], got), r)
    case HOptional =>
      var (x, r) :- DecItem(f, ItemOf(f, m[i]), s);
      Ok((m[i := SetItem(f, x)], got), r)
    case HRepeated =>
      var items := ItemsOf(m[i]);
      var (res, r) :- DecArray(f, items, if FixedCount(f) then got else |items|, wt, s);
      Ok((m[i := Rep(res.0)], if FixedCount(f) then res.1 else got), r)
    case HOneof =>
      var (x, r) :- DecItem(f, ItemOf(f, m[i]), s);
      Ok((ClearUnion(fields, m, i)[i := Alt(Some(x))], got), r)
  }

  /** A field whose tag was found at position i. */
  ghost function DecKnown(fields: seq<Field>, st: State, i: nat, wt: nat, s: Bytes): (d: Dec<State>)
    requires |st.m| == |fields| && i < |fields|
    ensures d.Ok? ==> |d.rest| < |s| && |d.v.m| == |fields|
    decreases |s|, 4
  {
    match Enter(fields, st, i)
    case None => Err(false)
    case Some(st1) =>
      var got := if st1.fixed.Filling? then st1.fixed.got else 0;
      var (res, r) :- DecVal(fields, st.m, i, wt, got, s);
      var fixed := if st1.fixed.Filling? then st1.fixed.(got := res.1) else NoArray;
      Ok(State(res.0, st1.seen, fixed, st1.closed), r)
  }

  /** One field after its tag. In an empty message type the terminator itself answers to
      tag 0 and is read as a bool. */
  ghost function DecField(fields: seq<Field>, st: State, key: nat, s: Bytes): (d: Dec<State>)
    requires |st.m| == |fields|
    ensures d.Ok? ==> |d.rest| < |s| && |d.v.m| == |fields|
    decreases |s|, 5
  {
    match Find(fields, key / 8)
    case Some(i) => DecKnown(fields, st, i, key % 8, s)
    case None =>
      if fields == [] && key / 8 == 0 then
        var (_, r) :- Varint32(s);
        Ok(st, r)
      else
        var (_, r) :- Skip(key % 8, s);
        Ok(st, r)
  }

  /** The loop of pb_decode_noinit. */
  ghost function DecLoop(fields: seq<Field>, st: State, s: Bytes): (d: Dec<State>)
    requires |st.m| == |fields|
    ensures d.Ok? ==> |d.rest| <= |s| && |d.v.m| == |fields|
    decreases |s|, 6
  {
    if s == [] then Ok(st, [])
    else
      var (key, r) :- Varint32(s);
      if key == 0 then Ok(st.(closed := true), r)
      else
        var (st', r') :- DecField(fields, st, key, r);
        DecLoop(fields, st', r')
  }

  /** pb_decode_noinit. */
  ghost function DecMsg(fields: seq<Field>, m: Message, s: Bytes): (d: Dec<Message>)
    requires |m| == |fields|
    ensures d.Ok? ==> |d.rest| <= |s| && |d.v| == |fields|
    decreases |s|, 7
  {
    var (st, r) :- DecLoop(fields, Init(m), s);
    if Final(fields, st) then Ok(st.m, r) else Err(false)
  }

  /** pb_decode. */
  ghost function Decode(fields: seq<Field>, s: Bytes): (d: Dec<Message>)
    ensures d.Ok? ==> |d.v| == |fields|
  {
    DecMsg(fields, DefaultMsg(fields), s)
  }
}
