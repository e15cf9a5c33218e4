/** Message descriptors (pb_field_t arrays without their terminator) and message values.
    A message holds one value per field instead of raw struct bytes. */
module Schema {
  import opened Bits
  import opened Wire

  datatype Option<+T> = None | Some(value: T) {
    predicate IsFailure() { None? }
    function PropagateFailure<U>(): Option<U>
      requires None?
    {
      None
    }
    function Extract(): T
      requires Some?
    {
      value
    }
  }

  datatype LType = LBool | LVarint | LUvarint | LSvarint | LFixed32 | LFixed64
                 | LBytes | LString | LSubmessage | LFixedBytes
  datatype HType = HRequired | HOptional | HRepeated | HOneof

  /** pb_size_t of the PB_FIELD_32BIT build. */
  type Size = n: nat | n <= PB_SIZE_MAX

  /** sub is the submessage's descriptor, deflt a default value, the two uses of ptr. */
  datatype Field = Field(
    tag: Size, ltype: LType, htype: HType,
    dataOffset: Size, sizeOffset: int, dataSize: Size, arraySize: Size,
    sub: seq<Field>, deflt: Option<Item>)

  datatype Item = Num(n: int) | Blob(b: Bytes) | Sub(m: seq<Val>)

  /** One: required or proto3 singular. Opt: optional with a has_ flag. Rep: an array and
      its count. Alt: member of a oneof, present when which_ holds its tag. */
  datatype Val = One(item: Item) | Opt(has: bool, item: Item) | Rep(items: seq<Item>) | Alt(o: Option<Item>)

  type Message = seq<Val>

  /** PB_SIZE_MAX and offsetof(pb_bytes_array_t, bytes) of the PB_FIELD_32BIT build. */
  const PB_SIZE_MAX := 0xFFFF_FFFF
  const BYTES_OFFSET := 4
  const TAG_LIMIT := 0x2000_0000
  const MAX_REQUIRED := 64

  predicate Packable(t: LType)
  {
    t.LBool? || t.LVarint? || t.LUvarint? || t.LSvarint? || t.LFixed32? || t.LFixed64?
  }

  function WireType(t: LType): (wt: nat)
    ensures wt < 8
  {
    match t
    case LBool | LVarint | LUvarint | LSvarint => WT_VARINT
    case LFixed32 => WT_32BIT
    case LFixed64 => WT_64BIT
    case _ => WT_STRING
  }

  /** A repeated field without a _count member always holds array_size entries. */
  predicate FixedCount(f: Field)
  {
    f.htype.HRepeated? && f.sizeOffset == 0
  }

  predicate Singular(f: Field)
  {
    f.htype.HOptional? && f.sizeOffset == 0
  }

  // ----- layout-derived facts -----

  /** Members of one C union follow each other and share the storage of the first. */
  predicate JoinsPrevious(fields: seq<Field>, i: nat)
    requires i < |fields|
  {
    i > 0 && fields[i - 1].htype.HOneof? && fields[i].htype.HOneof? && fields[i].dataOffset == PB_SIZE_MAX
  }

  function Slot(fields: seq<Field>, i: nat): (k: nat)
    requires i < |fields|
    ensures k <= i
  {
    if JoinsPrevious(fields, i) then Slot(fields, i - 1) else i
  }

  /** Members of one union are all oneof fields. */
  lemma {:induction false} SlotOneof(fields: seq<Field>, i: nat)
    requires i < |fields|
    ensures Slot(fields, i) == i || (fields[i].htype.HOneof? && fields[Slot(fields, i)].htype.HOneof?)
    decreases i
  {
    if JoinsPrevious(fields, i) {
      SlotOneof(fields, i - 1);
    }
  }

  /** Number of required fields before position i. */
  function ReqIndex(fields: seq<Field>, i: nat): (n: nat)
    requires i <= |fields|
    ensures n <= i
  {
    if i == 0 then 0 else ReqIndex(fields, i - 1) + (if fields[i - 1].htype.HRequired? then 1 else 0)
  }

  function FindFrom(fields: seq<Field>, tag: nat, i: nat): (r: Option<nat>)
    requires i <= |fields|
    ensures r.Some? ==> i <= r.value < |fields| && fields[r.value].tag == tag
    ensures r.None? ==> forall j :: i <= j < |fields| ==> fields[j].tag != tag
    decreases |fields| - i
  {
    if i == |fields| then None
    else if fields[i].tag == tag then Some(i)
    else FindFrom(fields, tag, i + 1)
  }

  function Find(fields: seq<Field>, tag: nat): (r: Option<nat>)
    ensures r.Some? ==> r.value < |fields| && fields[r.value].tag == tag
    ensures r.None? ==> forall j :: 0 <= j < |fields| ==> fields[j].tag != tag
  {
    FindFrom(fields, tag, 0)
  }

  ghost predicate UniqueTags(fields: seq<Field>)
  {
    forall i, j :: 0 <= i < j < |fields| ==> fields[i].tag != fields[j].tag
  }

  lemma FindUnique(fields: seq<Field>, i: nat)
    requires UniqueTags(fields) && i < |fields|
    ensures Find(fields, fields[i].tag) == Some(i)
  {
  }

  // ----- defaults -----

  function Zeros(n: nat): (b: Bytes)
    ensures |b| == n
  {
    seq(n, _ => 0)
  }

  function DefaultItem(f: Field): (x: Item)
    ensures f.ltype.LSubmessage? ==> x.Sub? && |x.m| == |f.sub|
    decreases f, 0
  {
    if f.ltype.LSubmessage? then Sub(DefaultMsg(f.sub))
    else if f.deflt.Some? then f.deflt.value
    else if f.ltype.LBytes? || f.ltype.LString? then Blob([])
    else if f.ltype.LFixedBytes? then Blob(Zeros(f.dataSize))
    else Num(0)
  }

  function DefaultVal(f: Field): (v: Val)
    decreases f, 1
  {
    match f.htype
    case HRequired => One(DefaultItem(f))
    case HOptional => if f.sizeOffset != 0 then Opt(false, DefaultItem(f)) else One(DefaultItem(f))
    case HRepeated => if f.sizeOffset != 0 then Rep([]) else Rep(seq(f.arraySize, _ => DefaultItem(f)))
    case HOneof => Alt(None)
  }

  /** pb_message_set_to_defaults. */
  function DefaultMsg(fields: seq<Field>): (m: Message)
    ensures |m| == |fields|
    decreases fields
  {
    if fields == [] then [] else [DefaultVal(fields[0])] + DefaultMsg(fields[1..])
  }

  lemma {:induction false} DefaultMsgAt(fields: seq<Field>, i: nat)
    requires i < |fields|
    ensures DefaultMsg(fields)[i] == DefaultVal(fields[i])
    decreases fields
  {
    if i > 0 {
      DefaultMsgAt(fields[1..], i - 1);
    }
  }

  // ----- accessors -----

  function ItemOf(f: Field, v: Val): (x: Item)
  {
    match v
    case One(x) => x
    case Opt(_, x) => x
    case Alt(Some(x)) => x
    case _ => DefaultItem(f)
  }

  function NumOf(x: Item): (n: int)
  {
    if x.Num? then x.n else 0
  }

  function BytesOf(x: Item): (b: Bytes)
  {
    if x.Blob? then x.b else []
  }

  function ItemsOf(v: Val): (xs: seq<Item>)
  {
    if v.Rep? then v.items else []
  }

  function SubOf(f: Field, x: Item): (m: Message)
    ensures |m| == |f.sub|
  {
    if x.Sub? && |x.m| == |f.sub| then x.m else DefaultMsg(f.sub)
  }

  /** Write entry n of an array, growing it when n is its length. */
  function Put(items: seq<Item>, n: nat, x: Item): (r: seq<Item>)
  {
    if n < |items| then items[n := x] else items + [x]
  }

  /** Deselect every member of the union field i belongs to. */
  function ClearUnion(fields: seq<Field>, m: Message, i: nat): (r: Message)
    requires |m| == |fields| && i < |fields|
    ensures |r| == |m|
  {
    seq(|m|, j requires 0 <= j < |m| => if Slot(fields, j) == Slot(fields, i) then Alt(None) else m[j])
  }

  // ----- well-formed descriptors and messages -----

  predicate IntSize(size: nat)
  {
    size == 1 || size == 2 || size == 4 || size == 8
  }

  /** 2^(8 * size - 1) for the integer sizes. */
  function Half(size: nat): (h: int)
    ensures h > 0
  {
    if size == 1 then 0x80
    else if size == 2 then 0x8000
    else if size == 4 then 0x8000_0000
    else 0x8000_0000_0000_0000
  }

  /** What the generator guarantees of a field. */
  predicate FieldOk(f: Field)
    decreases f, 0
  {
    && 1 <= f.tag < TAG_LIMIT
    && (FixedCount(f) ==> f.arraySize >= 1)
    && DescriptorOk(f.sub)
  }

  predicate DescriptorOk(fields: seq<Field>)
    decreases fields
  {
    && (forall i :: 0 <= i < |fields| ==> FieldOk(fields[i]))
    && (forall i, j :: 0 <= i < j < |fields| ==> fields[i].tag != fields[j].tag)
  }

  /** Length of the C string in a buffer of max bytes. */
  function StrLen(b: Bytes, max: nat): (n: nat)
    ensures n <= max && n <= |b|
  {
    if max == 0 || b == [] || b[0] == 0 then 0 else 1 + StrLen(b[1..], max - 1)
  }

  /** x is a value of the field's C type; a string has its NUL within data_size. */
  ghost predicate ItemOk(f: Field, x: Item)
    decreases f, 0
  {
    match f.ltype
    case LBool => x == Num(0) || x == Num(1)
    case LVarint => x.Num? && -Half(f.dataSize) <= x.n < Half(f.dataSize)
    case LSvarint => x.Num? && -Half(f.dataSize) <= x.n < Half(f.dataSize)
    case LUvarint => x.Num? && 0 <= x.n < 2 * Half(f.dataSize)
    case LFixed32 => x.Num? && 0 <= x.n < U32
    case LFixed64 => x.Num? && 0 <= x.n < U64
    case LBytes => x.Blob?
    case LString => x.Blob? && StrLen(x.b, f.dataSize) < f.dataSize
    case LFixedBytes => x.Blob? && |x.b| == f.dataSize
    case LSubmessage => x.Sub? && MsgOk(f.sub, x.m)
  }

  ghost predicate ValOk(f: Field, v: Val)
    decreases f, 1
  {
    match f.htype
    case HRequired => v.One? && ItemOk(f, v.item)
    case HOptional => (if f.sizeOffset != 0 then v.Opt? else v.One?) && ItemOk(f, v.item)
    case HRepeated =>
      && v.Rep? && (FixedCount(f) ==> |v.items| == f.arraySize)
      && (forall i :: 0 <= i < |v.items| ==> ItemOk(f, v.items[i]))
    case HOneof => v.Alt? && (v.o.Some? ==> ItemOk(f, v.o.value))
  }

  ghost predicate MsgOk(fields: seq<Field>, m: Message)
    decreases fields, 2
  {
    && |m| == |fields|
    && (forall i :: 0 <= i < |fields| ==> ValOk(fields[i], m[i]))
    && OneMember(fields, m)
  }

  /** At most one member of a union is selected. */
  ghost predicate OneMember(fields: seq<Field>, m: Message)
    requires |m| == |fields|
  {
    forall i, j :: 0 <= i < j < |fields| && Slot(fields, i) == Slot(fields, j) ==>
                     !(Selected(m[i]) && Selected(m[j]))
  }

  predicate Selected(v: Val)
  {
    v.Alt? && v.o.Some?
  }
}
