/** What pb_encode puts on the wire, as a function of descriptor and message. None is an
    encoding error. */
module Encoding {
  import opened Bits
  import opened Wire
  import opened Schema

  function EncTag(tag: nat, wt: nat): (w: Bytes)
    ensures |w| >= 1
  {
    EncVarint(tag * 8 + wt)
  }

  /** A length prefix, cast to 64 bits, and the bytes it announces. */
  function EncBlob(b: Bytes): (w: Bytes)
    ensures |w| > |b|
  {
    EncVarint(|b| % U64) + b
  }

  /** The field encoders pb_enc_*. */
  function EncItem(f: Field, x: Item): (r: Option<Bytes>)
    decreases f, 0
  {
    match f.ltype
    case LBool => Some(EncVarint(if NumOf(x) != 0 then 1 else 0))
    case LVarint => if IntSize(f.dataSize) then Some(EncVarint(NumOf(x) % U64)) else None
    case LUvarint => if IntSize(f.dataSize) then Some(EncVarint(NumOf(x) % U64)) else None
    case LSvarint => if IntSize(f.dataSize) then Some(EncVarint(ZigZag(NumOf(x)))) else None
    case LFixed32 => Some(EncFixed(NumOf(x) % U32, 4))
    case LFixed64 => Some(EncFixed(NumOf(x) % U64, 8))
    case LBytes => if |BytesOf(x)| + BYTES_OFFSET <= f.dataSize then Some(EncBlob(BytesOf(x))) else None
    case LString => Some(EncBlob(BytesOf(x)[..StrLen(BytesOf(x), f.dataSize)]))
    case LFixedBytes => if |BytesOf(x)| == f.dataSize then Some(EncBlob(BytesOf(x))) else None
    case LSubmessage =>
      var body :- EncMsg(f.sub, SubOf(f, x));
      Some(EncBlob(body))
  }

  function EncTagged(f: Field, x: Item): (r: Option<Bytes>)
    decreases f, 1
  {
    var w :- EncItem(f, x);
    Some(EncTag(f.tag, WireType(f.ltype)) + w)
  }

  /** The entries of a packed array, back to back. */
  function EncPacked(f: Field, xs: seq<Item>): (r: Option<Bytes>)
    decreases f, 2, |xs|
  {
    if xs == [] then Some([])
    else
      var a :- EncItem(f, xs[0]);
      var b :- EncPacked(f, xs[1..]);
      Some(a + b)
  }

  /** The entries of an array, each with its own tag. */
  function EncEach(f: Field, xs: seq<Item>): (r: Option<Bytes>)
    decreases f, 2, |xs|
  {
    if xs == [] then Some([])
    else
      var a :- EncTagged(f, xs[0]);
      var b :- EncEach(f, xs[1..]);
      Some(a + b)
  }

  /** encode_array. */
  function EncArray(f: Field, xs: seq<Item>): (r: Option<Bytes>)
    decreases f, 3
  {
    if xs == [] then Some([])
    else if |xs| > f.arraySize then None
    else if Packable(f.ltype) then
      var body :- EncPacked(f, xs);
      Some(EncTag(f.tag, WT_STRING) + EncBlob(body))
    else EncEach(f, xs)
  }

  // ----- pb_check_proto3_default_value -----

  /** The zero check on the data of a singular field. */
  predicate IsZeroItem(f: Field, x: Item)
    decreases f, 0
  {
    match f.ltype
    case LBytes => BytesOf(x) == []
    case LString => BytesOf(x) == [] || BytesOf(x)[0] == 0
    case LFixedBytes => f.dataSize == 0
    case LSubmessage => IsZeroMsg(f.sub, SubOf(f, x))
    case _ => NumOf(x) == 0
  }

  predicate IsZeroVal(fields: seq<Field>, m: Message, i: nat)
    requires |m| == |fields| && i < |fields|
    decreases fields, 1
  {
    var f := fields[i];
    match f.htype
    case HRequired => false
    case HRepeated => f.sizeOffset != 0 && ItemsOf(m[i]) == []
    case HOneof => forall j :: 0 <= j < |fields| && Slot(fields, j) == Slot(fields, i) ==> m[j] == Alt(None)
    case HOptional => if f.sizeOffset != 0 then !(m[i].Opt? && m[i].has) else IsZeroItem(f, ItemOf(f, m[i]))
  }

  predicate IsZeroMsg(fields: seq<Field>, m: Message)
    requires |m| == |fields|
    decreases fields, 2
  {
    forall i :: 0 <= i < |fields| ==> IsZeroVal(fields, m, i)
  }

  // ----- fields and messages -----

  predicate Present(f: Field, v: Val)
    requires f.htype.HOptional?
  {
    if f.sizeOffset != 0 then v.Opt? && v.has else !IsZeroItem(f, ItemOf(f, v))
  }

  /** encode_basic_field on a static field. */
  function EncVal(f: Field, v: Val): (r: Option<Bytes>)
    decreases f, 4
  {
    match f.htype
    case HRequired => EncTagged(f, ItemOf(f, v))
    case HOptional => if Present(f, v) then EncTagged(f, ItemOf(f, v)) else Some([])
    case HRepeated => EncArray(f, ItemsOf(v))
    case HOneof => if Selected(v) then EncTagged(f, v.o.value) else Some([])
  }

  /** The fields from position k on. */
  function EncFrom(fields: seq<Field>, m: Message, k: nat): (r: Option<Bytes>)
    requires |m| == |fields| && k <= |fields|
    decreases fields, 1, |fields| - k
  {
    if k == |fields| then Some([])
    else
      var a :- EncVal(fields[k], m[k]);
      var b :- EncFrom(fields, m, k + 1);
      Some(a + b)
  }

  /** pb_encode. */
  function EncMsg(fields: seq<Field>, m: Message): (r: Option<Bytes>)
    requires |m| == |fields|
    decreases fields, 2
  {
    EncFrom(fields, m, 0)
  }
}
