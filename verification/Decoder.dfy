/** pb_decode.c on streams, proved to compute exactly what the functions of Decoding say:
    same verdict, same message, same bytes left over. Termination is by bytes_left. */
module Decoder {
  import opened Bits
  import opened Wire
  import opened Schema
  import opened Decoding
  import opened FieldIter
  import opened Input
  import RequiredMask

  ghost predicate Reads<T>(d: Dec<T>, ok: bool, v: T, rest: Bytes)
  {
    ok == d.Ok? && (ok ==> v == d.v && rest == d.rest)
  }

  /** Tags are nonzero and distinct at every depth, as protobuf demands. */
  ghost predicate WellTagged(fields: seq<Field>)
  {
    && UniqueTags(fields)
    && forall i :: 0 <= i < |fields| ==> fields[i].tag >= 1 && WellTagged(fields[i].sub)
  }

  // ----- scalars -----

  /** pb_dec_varint, pb_dec_uvarint, pb_dec_svarint. */
  method DecodeInteger(s: IStream, f: Field) returns (ok: bool, x: Item)
    requires s.Valid() && (f.ltype.LVarint? || f.ltype.LUvarint? || f.ltype.LSvarint?)
    modifies s
    ensures s.Valid() && Reads(DecScalar(f, old(s.Remaining())), ok, x, s.Remaining())
    ensures ok ==> s.End() == old(s.End())
  {
    var v;
    ok, v := DecodeVarint64(s);
    if !ok {
      return false, Num(0);
    }
    var n: int := v;
    if f.ltype.LVarint? {
      n := if f.dataSize == 8 then Signed64(v) else Signed32(v % U32);
    } else if f.ltype.LSvarint? {
      n := UnZigZag(v);
    }
    if !IntSize(f.dataSize) {
      return false, Num(0);
    }
    var clamped := if f.ltype.LUvarint? then 0 <= n < 2 * Half(f.dataSize)
        else -Half(f.dataSize) <= n < Half(f.dataSize);
    return clamped, Num(n);
  }

  /** pb_dec_bool, pb_dec_fixed32, pb_dec_fixed64. */
  method DecodeWord(s: IStream, f: Field) returns (ok: bool, x: Item)
    requires s.Valid() && (f.ltype.LBool? || f.ltype.LFixed32? || f.ltype.LFixed64?)
    modifies s
    ensures s.Valid() && Reads(DecScalar(f, old(s.Remaining())), ok, x, s.Remaining())
    ensures ok ==> s.End() == old(s.End())
  {
    if f.ltype.LBool? {
      var v;
      ok, v := DecodeVarint32(s);
      return ok, Num(if v != 0 then 1 else 0);
    }
    var b;
    ok, b := s.Read(if f.ltype.LFixed32? then 4 else 8);
    if !ok {
      return false, Num(0);
    }
    var v := FromBytes(b);
    return true, Num(v);
  }

  /** The shifts and ORs of pb_decode_fixed32/64, from the highest byte down. */
  method FromBytes(b: Bytes) returns (v: nat)
    ensures v == LittleEndian(b)
  {
    v := 0;
    var i := |b|;
    while i > 0
      invariant 0 <= i <= |b| && v == LittleEndian(b[i..])
    {
      i := i - 1;
      assert b[i..][1..] == b[i + 1..];
      v := b[i] + 256 * v;
    }
    assert b[0..] == b;
  }

  /** pb_dec_bytes. */
  method DecodeByteArray(s: IStream, f: Field) returns (ok: bool, x: Item)
    requires s.Valid()
    modifies s
    ensures s.Valid() && Reads(DecBytes(f, old(s.Remaining())), ok, x, s.Remaining())
    ensures ok ==> s.End() == old(s.End())
  {
    var size;
    ok, size := DecodeVarint32(s);
    if !ok || size > PB_SIZE_MAX || size + BYTES_OFFSET > f.dataSize {
      return false, Blob([]);
    }
    var b;
    ok, b := s.Read(size);
    return ok, Blob(b);
  }

  /** pb_dec_string. */
  method DecodeText(s: IStream, f: Field) returns (ok: bool, x: Item)
    requires s.Valid()
    modifies s
    ensures s.Valid() && Reads(DecString(f, old(s.Remaining())), ok, x, s.Remaining())
    ensures ok ==> s.End() == old(s.End())
  {
    var size;
    ok, size := DecodeVarint32(s);
    if !ok {
      return false, Blob([]);
    }
    var allocSize := (size + 1) % U32;
    if allocSize < size || allocSize > f.dataSize {
      return false, Blob([]);
    }
    var b;
    ok, b := s.Read(size);
    return ok, Blob(b);
  }

  /** pb_dec_fixed_length_bytes. */
  method DecodeFixedBytes(s: IStream, f: Field) returns (ok: bool, x: Item)
    requires s.Valid()
    modifies s
    ensures s.Valid() && Reads(DecFixedBytes(f, old(s.Remaining())), ok, x, s.Remaining())
    ensures ok ==> s.End() == old(s.End())
  {
    var size;
    ok, size := DecodeVarint32(s);
    if !ok || size > PB_SIZE_MAX {
      return false, Blob([]);
    }
    if size == 0 {
      return true, Blob(Zeros(f.dataSize));
    }
    if size != f.dataSize {
      return false, Blob([]);
    }
    var b;
    ok, b := s.Read(size);
    return ok, Blob(b);
  }

  /** The three length-prefixed types. */
  method DecodeBytes(s: IStream, f: Field) returns (ok: bool, x: Item)
    requires s.Valid() && (f.ltype.LBytes? || f.ltype.LString? || f.ltype.LFixedBytes?)
    modifies s
    ensures s.Valid() && Reads(DecScalar(f, old(s.Remaining())), ok, x, s.Remaining())
    ensures ok ==> s.End() == old(s.End())
  {
    if f.ltype.LString? {
      ok, x := DecodeText(s, f);
    } else if f.ltype.LBytes? {
      ok, x := DecodeByteArray(s, f);
    } else {
      ok, x := DecodeFixedBytes(s, f);
    }
  }

  // ----- items and arrays -----

  method DecodeItem(s: IStream, f: Field, prev: Item) returns (ok: bool, x: Item)
    requires s.Valid() && WellTagged(f.sub)
    modifies s
    ensures s.Valid() && Reads(DecItem(f, prev, old(s.Remaining())), ok, x, s.Remaining())
    ensures ok ==> s.End() == old(s.End())
    decreases s.bytesLeft, 1
  {
    if f.ltype.LSubmessage? {
      ok, x := DecodeSubmessage(s, f, prev);
    } else if f.ltype.LVarint? || f.ltype.LUvarint? || f.ltype.LSvarint? {
      ok, x := DecodeInteger(s, f);
    } else if f.ltype.LBool? || f.ltype.LFixed32? || f.ltype.LFixed64? {
      ok, x := DecodeWord(s, f);
    } else {
      ok, x := DecodeBytes(s, f);
    }
  }

  /** pb_dec_submessage: open, decode, close; the parent advances by prefix and length. */
  method DecodeSubmessage(s: IStream, f: Field, prev: Item) returns (ok: bool, x: Item)
    requires s.Valid() && f.ltype.LSubmessage? && WellTagged(f.sub)
    modifies s
    ensures s.Valid() && Reads(DecItem(f, prev, old(s.Remaining())), ok, x, s.Remaining())
    ensures ok ==> s.End() == old(s.End())
    decreases s.bytesLeft, 0
  {
    var sub;
    ok, sub := MakeSubstream(s);
    if !ok {
      return false, prev;
    }
    var status, m := DecodeMessage(sub, f.sub, if f.htype.HRepeated? then DefaultMsg(f.sub) else SubOf(f, prev));
    if !status {
      return false, prev;
    }
    ok := CloseSubstream(s, sub);
    return true, Sub(m);
  }

  /** The loop of a packed array over its substream. */
  method DecodePackedItems(sub: IStream, f: Field, items: seq<Item>, n: nat)
      returns (ok: bool, r: seq<Item>, count: nat)
    requires sub.Valid() && WellTagged(f.sub)
    modifies sub
    ensures sub.Valid() && ok == DecPacked(f, items, n, old(sub.Remaining())).Ok?
    ensures ok ==> (r, count) == DecPacked(f, items, n, old(sub.Remaining())).v && sub.End() == old(sub.End())
    decreases sub.bytesLeft, 2
  {
    hide DecItem, DefaultItem, Put;
    ghost var whole := sub.Remaining();
    r, count := items, n;
    while sub.bytesLeft > 0 && count < f.arraySize
      invariant sub.Valid() && sub.End() == old(sub.End()) && sub.bytesLeft <= old(sub.bytesLeft)
      invariant DecPacked(f, r, count, sub.Remaining()) == DecPacked(f, items, n, whole)
      decreases sub.bytesLeft
    {
      var status, x := DecodeItem(sub, f, DefaultItem(f));
      if !status {
        return false, r, count;
      }
      r := Put(r, count, x);
      count := count + 1;
    }
    return sub.bytesLeft == 0, r, count;
  }

  /** The PB_HTYPE_REPEATED case of decode_static_field. */
  method DecodeArray(s: IStream, f: Field, items: seq<Item>, n: nat, wt: nat)
      returns (ok: bool, r: seq<Item>, count: nat)
    requires s.Valid() && WellTagged(f.sub)
    modifies s
    ensures s.Valid() && Reads(DecArray(f, items, n, wt, old(s.Remaining())), ok, (r, count), s.Remaining())
    ensures ok ==> s.End() == old(s.End())
    decreases s.bytesLeft, 4
  {
    if wt == WT_STRING && Packable(f.ltype) {
      ok, r, count := DecodePackedArray(s, f, items, n);
    } else {
      if n >= f.arraySize {
        return false, items, n;
      }
      var x;
      ok, x := DecodeItem(s, f, DefaultItem(f));
      return ok, Put(items, n, x), n + 1;
    }
  }

  method DecodePackedArray(s: IStream, f: Field, items: seq<Item>, n: nat) returns (ok: bool, r: seq<Item>, count: nat)
    requires s.Valid() && WellTagged(f.sub) && Packable(f.ltype)
    modifies s
    ensures s.Valid() && Reads(DecArray(f, items, n, WT_STRING, old(s.Remaining())), ok, (r, count), s.Remaining())
    ensures ok ==> s.End() == old(s.End())
    decreases s.bytesLeft, 3
  {
    var sub;
    ok, sub := MakeSubstream(s);
    if !ok {
      return false, items, n;
    }
    ok, r, count := DecodePackedItems(sub, f, items, n);
    if !ok {
      return;
    }
    ok := CloseSubstream(s, sub);
  }

  // ----- one field -----

  /** decode_static_field. */
  method DecodeValue(s: IStream, fields: seq<Field>, m: Message, i: nat, wt: nat, got: nat)
      returns (ok: bool, r: Message, count: nat)
    requires s.Valid() && |m| == |fields| && i < |fields| && WellTagged(fields)
    modifies s
    ensures s.Valid() && |r| == |m|
    ensures Reads(DecVal(fields, m, i, wt, got, old(s.Remaining())), ok, (r, count), s.Remaining())
    ensures ok ==> s.End() == old(s.End())
    decreases s.bytesLeft, 5
  {
    var f := fields[i];
    r, count := m, got;
    if f.htype.HRepeated? {
      var items := ItemsOf(m[i]);
      var n := if FixedCount(f) then got else |items|;
      var xs, c;
      ok, xs, c := DecodeArray(s, f, items, n, wt);
      r := m[i := Rep(xs)];
      count := if FixedCount(f) then c else got;
    } else {
      var x;
      ok, x := DecodeItem(s, f, ItemOf(f, m[i]));
      if f.htype.HOneof? {
        r := ClearUnion(fields, m, i)[i := Alt(Some(x))];
      } else {
        r := m[i := SetItem(f, x)];
      }
    }
  }

  /** The local variables of pb_decode_noinit. */
  datatype Locals = Locals(dest: Message, seen: seq<nat>, fixedField: Option<nat>, fixedCount: nat)

  /** The locals stand for the state st. */
  ghost predicate Stands(fields: seq<Field>, l: Locals, st: State)
  {
    && l.dest == st.m && |l.dest| == |fields| && !st.closed
    && RequiredMask.Holds(l.seen, st.seen)
    && (forall q :: q in st.seen ==> q < ReqIndex(fields, |fields|) && q < MAX_REQUIRED)
    && (match l.fixedField
        case None => st.fixed.NoArray?
        case Some(i) => i < |fields| && st.fixed == Filling(i, fields[i].arraySize, l.fixedCount))
  }

  lemma {:induction false} ReqIndexBelow(fields: seq<Field>, i: nat, k: nat)
    requires i < k <= |fields| && fields[i].htype.HRequired?
    ensures ReqIndex(fields, i) < ReqIndex(fields, k)
    decreases k
  {
    if i < k - 1 {
      ReqIndexBelow(fields, i, k - 1);
    }
  }

  /** The bookkeeping before decode_field: fixed_count_field, then fields_seen. */
  method EnterField(fields: seq<Field>, iter: Iter, l: Locals, ghost st: State) returns (ok: bool, r: Locals)
    requires Stands(fields, l, st) && iter.Valid() && iter.fields == fields && fields != []
    ensures ok == Enter(fields, st, iter.pos).Some?
    ensures ok ==> Stands(fields, r, Enter(fields, st, iter.pos).value)
  {
    var f := fields[iter.pos];
    r := l;
    if FixedCount(f) && l.fixedField != Some(iter.pos) {
      if l.fixedField.Some? && l.fixedCount != fields[l.fixedField.value].arraySize {
        return false, l;
      }
      r := l.(fixedField := Some(iter.pos), fixedCount := 0);
    }
    if f.htype.HRequired? && iter.requiredIndex < MAX_REQUIRED {
      ReqIndexBelow(fields, iter.pos, |fields|);
      var words := RequiredMask.Mark(r.seen, iter.requiredIndex, st.seen);
      r := r.(seen := words);
    }
    return true, r;
  }

  /** A field whose tag the iterator found. */
  method DecodeKnown(s: IStream, fields: seq<Field>, iter: Iter, l: Locals, wt: nat, ghost st: State)
      returns (ok: bool, r: Locals, ghost st': State)
    requires s.Valid() && WellTagged(fields) && Stands(fields, l, st)
    requires iter.Valid() && iter.fields == fields && fields != []
    modifies s
    ensures s.Valid() && Reads(DecKnown(fields, st, iter.pos, wt, old(s.Remaining())), ok, st', s.Remaining())
    ensures ok ==> s.End() == old(s.End()) && Stands(fields, r, st')
    decreases s.bytesLeft, 6
  {
    ghost var whole := s.Remaining();
    st' := st;
    ok, r := EnterField(fields, iter, l, st);
    if !ok {
      return;
    }
    ghost var st1 := Enter(fields, st, iter.pos).value;
    var m, count;
    ok, m, count := DecodeValue(s, fields, r.dest, iter.pos, wt, if r.fixedField.Some? then r.fixedCount else 0);
    if ok {
      st' := State(m, st1.seen, if st1.fixed.Filling? then st1.fixed.(got := count) else NoArray, st1.closed);
      r := r.(dest := m, fixedCount := count);
    }
  }

  // ----- the message loop -----

  /** One field after its tag. */
  method DecodeField(s: IStream, fields: seq<Field>, iter: Iter, l: Locals, key: nat, ghost st: State)
      returns (ok: bool, r: Locals, ghost st': State)
    requires s.Valid() && WellTagged(fields) && Stands(fields, l, st) && iter.Valid() && iter.fields == fields
    modifies s, iter
    ensures s.Valid() && iter.Valid()
    ensures Reads(DecField(fields, st, key, old(s.Remaining())), ok, st', s.Remaining())
    ensures ok ==> s.End() == old(s.End()) && Stands(fields, r, st')
    decreases s.bytesLeft, 7
  {
    r, st' := l, st;
    var found := iter.Find(key / 8);
    if !found {
      ok := SkipField(s, key % 8);
    } else if fields == [] {
      var v;
      ok, v := DecodeVarint32(s);
    } else {
      ok, r, st' := DecodeKnown(s, fields, iter, l, key % 8, st);
    }
  }

  /** The while loop of pb_decode_noinit. */
  method DecodeFields(s: IStream, fields: seq<Field>, iter: Iter, l: Locals, ghost st: State)
      returns (ok: bool, r: Locals, ghost st': State)
    requires s.Valid() && WellTagged(fields) && Stands(fields, l, st) && iter.Valid() && iter.fields == fields
    modifies s, iter
    ensures s.Valid() && iter.Valid()
    ensures ok == DecLoop(fields, st, old(s.Remaining())).Ok?
    ensures ok ==> s.Remaining() == DecLoop(fields, st, old(s.Remaining())).rest && s.End() == old(s.End())
    ensures ok ==> Stands(fields, r, st') && st' == DecLoop(fields, st, old(s.Remaining())).v.(closed := false)
    decreases s.bytesLeft, 8
  {
    hide DecField, Varint32;
    ghost var whole := s.Remaining();
    r, st' := l, st;
    while s.bytesLeft > 0
      invariant s.Valid() && s.End() == old(s.End()) && s.bytesLeft <= old(s.bytesLeft)
      invariant iter.Valid() && Stands(fields, r, st')
      invariant DecLoop(fields, st', s.Remaining()) == DecLoop(fields, st, whole)
      decreases s.bytesLeft
    {
      var key;
      ok, key := DecodeVarint32(s);
      if !ok {
        return;
      }
      if key == 0 {
        return true, r, st';
      }
      ok, r, st' := DecodeField(s, fields, iter, r, key, st');
      if !ok {
        return;
      }
    }
    return true, r, st';
  }

  /** pb_decode_noinit. */
  method DecodeMessage(s: IStream, fields: seq<Field>, m: Message) returns (ok: bool, r: Message)
    requires s.Valid() && |m| == |fields| && WellTagged(fields)
    modifies s
    ensures s.Valid() && Reads(DecMsg(fields, m, old(s.Remaining())), ok, r, s.Remaining())
    ensures ok ==> s.End() == old(s.End())
    decreases s.bytesLeft, 9
  {
    ghost var whole := s.Remaining();
    var iter, l := Start(fields, m);
    ghost var st;
    ok, l, st := DecodeFields(s, fields, iter, l, Init(m));
    r := m;
    if ok {
      LoopThenFinal(fields, m, whole);
      r := l.dest;
      ok := FinalChecks(fields, iter, l, st);
    }
  }

  /** The locals before the loop. */
  method Start(fields: seq<Field>, m: Message) returns (iter: Iter, l: Locals)
    requires |m| == |fields|
    ensures fresh(iter) && iter.Valid() && iter.fields == fields && Stands(fields, l, Init(m))
  {
    iter := new Iter(fields);
    var words := RequiredMask.Empty();
    l := Locals(m, words, None, 0);
  }

  lemma LoopThenFinal(fields: seq<Field>, m: Message, s: Bytes)
    requires |m| == |fields| && DecLoop(fields, Init(m), s).Ok?
    ensures var d := DecLoop(fields, Init(m), s);
            var st := d.v.(closed := false);
            DecMsg(fields, m, s) == if Final(fields, st) then Ok(st.m, d.rest) else Err(false)
  {
  }

  /** The checks after the loop: the last fixed-count array, then the required fields. */
  method FinalChecks(fields: seq<Field>, iter: Iter, l: Locals, ghost st: State) returns (ok: bool)
    requires Stands(fields, l, st) && iter.Valid() && iter.fields == fields
    modifies iter
    ensures ok <==> Final(fields, st)
  {
    if l.fixedField.Some? && l.fixedCount != fields[l.fixedField.value].arraySize {
      return false;
    }
    var n := iter.CountRequired();
    if n > MAX_REQUIRED {
      n := MAX_REQUIRED;
    }
    ok := RequiredMask.AllSeen(l.seen, n, st.seen);
  }

  // ----- pb_message_set_to_defaults -----

  /** pb_field_set_to_default on a static field: the presence flag, count or which_ member
      first, then the data, from a submessage's own defaults, the stored default or zeros. */
  method SetFieldToDefault(f: Field) returns (v: Val)
    ensures v == DefaultVal(f)
    decreases f, 1
  {
    if f.htype.HOneof? {
      return Alt(None);
    }
    if f.htype.HRepeated? && f.sizeOffset != 0 {
      return Rep([]);
    }
    var x;
    if f.ltype.LSubmessage? {
      var sub := SetToDefaults(f.sub);
      x := Sub(sub);
    } else if f.deflt.Some? {
      x := f.deflt.value;
    } else if f.ltype.LBytes? || f.ltype.LString? {
      x := Blob([]);
    } else if f.ltype.LFixedBytes? {
      x := Blob(Zeros(f.dataSize));
    } else {
      x := Num(0);
    }
    if f.htype.HRepeated? {
      return Rep(seq(f.arraySize, _ => x));
    }
    return if f.htype.HOptional? && f.sizeOffset != 0 then Opt(false, x) else One(x);
  }

  /** The walk over all fields. */
  method SetToDefaults(fields: seq<Field>) returns (m: Message)
    ensures m == DefaultMsg(fields)
    decreases fields, 2
  {
    m := [];
    var iter := new Iter(fields);
    var more := fields != [];
    while more
      invariant iter.Valid() && iter.fields == fields
      invariant if more then |m| == iter.pos < |fields| else |m| == |fields|
      invariant forall i :: 0 <= i < |m| ==> m[i] == DefaultVal(fields[i])
      decreases |fields| - |m|
    {
      var v := SetFieldToDefault(fields[iter.pos]);
      m := m + [v];
      more := iter.Next();
    }
    forall i | 0 <= i < |fields| ensures m[i] == DefaultMsg(fields)[i] {
      DefaultMsgAt(fields, i);
    }
  }

  /** What a field holds before anything is decoded. */
  lemma DefaultExact(fields: seq<Field>, i: nat)
    requires i < |fields|
    ensures var f, v := fields[i], DefaultMsg(fields)[i];
            && (f.htype.HOneof? ==> v == Alt(None))
            && (f.htype.HRepeated? && f.sizeOffset != 0 ==> v == Rep([]))
            && (f.htype.HRepeated? && f.sizeOffset == 0 ==> v.Rep? && |v.items| == f.arraySize)
            && (f.htype.HRequired? || (f.htype.HOptional? && f.sizeOffset == 0) ==> v.One?)
            && (f.htype.HOptional? && f.sizeOffset != 0 ==> v.Opt? && !v.has)
    ensures var f, v := fields[i], DefaultMsg(fields)[i];
            v.One? || v.Opt? ==>
              if f.ltype.LSubmessage? then v.item == Sub(DefaultMsg(f.sub))
              else if f.deflt.Some? then v.item == f.deflt.value
              else match f.ltype
                   case LBytes => v.item == Blob([])
                   case LString => v.item == Blob([])
                   case LFixedBytes => v.item.Blob? && |v.item.b| == f.dataSize && forall k :: 0 <= k < f.dataSize ==>
                                       v.item.b[k] == 0
                   case _ => v.item == Num(0)
  {
    DefaultMsgAt(fields, i);
  }

  /** pb_decode on a buffer. */
  method DecodeBuffer(fields: seq<Field>, data: Bytes) returns (ok: bool, m: Message)
    requires WellTagged(fields)
    ensures ok <==> Decode(fields, data).Ok?
    ensures ok ==> m == Decode(fields, data).v
  {
    var s := new IStream(data, 0, |data|);
    assert data[0..|data|] == data;
    var initial := SetToDefaults(fields);
    ok, m := DecodeMessage(s, fields, initial);
  }
}
