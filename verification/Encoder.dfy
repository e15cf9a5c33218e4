/** pb_encode.c on streams. Every routine is proved to put exactly its wire image on the
    stream, and to succeed exactly when there is one and it fits; the same contract covers
    the sizing stream, whose count is therefore the number of bytes a real stream gets. */
module Encoder {
  import opened Bits
  import opened Wire
  import opened Schema
  import opened Encoding
  import opened Output
  import opened FieldIter

  // ----- scalars -----

  /** pb_encode_varint: seven bits at a time into a ten-byte buffer. */
  method EncodeVarint(s: OStream, value: nat) returns (ok: bool)
    requires s.Valid() && value < U64
    modifies s, s.buf
    ensures s.Valid()
    ensures Outcome(s.sizing, old(s.View()), s.View(), s.maxSize, Some(EncVarint(value)), ok)
  {
    var data := VarintBuffer(value);
    ok := s.Write(data);
  }

  method VarintBuffer(value: nat) returns (data: Bytes)
    requires value < U64
    ensures data == EncVarint(value)
  {
    hide EncVarint;
    if value <= 0x7F {
      return [value];
    }
    var buffer := new Byte[10];
    var i: nat, v: nat := 0, value;
    while v != 0
      invariant i <= 10 && Pending(buffer[..i], v, value)
      decreases v
    {
      VarintTurn(buffer[..i], v, value);
      SetByte(buffer, i, v % 128 + 128);
      v := v / 128;
      i := i + 1;
    }
    SetByte(buffer, i - 1, buffer[i - 1] - 128);
    return buffer[..i];
  }

  method SetByte(buffer: array<Byte>, i: nat, b: Byte)
    requires i < buffer.Length
    modifies buffer
    ensures buffer[..i + 1] == old(buffer[..i]) + [b]
  {
    buffer[i] := b;
  }

  /** The bytes so far and v make up the encoding; at the end the last byte still carries
      its continuation bit. */
  ghost predicate Pending(done: Bytes, v: nat, value: nat)
  {
    if v != 0 then done + EncVarint(v) == EncVarint(value)
    else
      var n := |done|;
      n >= 1 && done[n - 1] >= 128 && done[..n - 1] + [done[n - 1] - 128] == EncVarint(value)
  }

  lemma VarintTurn(done: Bytes, v: nat, value: nat)
    requires v != 0 && value < U64 && Pending(done, v, value)
    ensures Pending(done + [v % 128 + 128], v / 128, value) && |done| < 10
  {
    Varint64RoundTrip(value, []);
    var next := done + [v % 128 + 128];
    assert next[..|done|] == done;
    if v >= 128 {
      assert next + EncVarint(v / 128) == done + ([v % 128 + 128] + EncVarint(v / 128));
    }
  }

  /** pb_encode_fixed32 / pb_encode_fixed64: k bytes, lowest first. */
  method EncodeFixed(s: OStream, value: nat, k: nat) returns (ok: bool)
    requires s.Valid()
    modifies s, s.buf
    ensures s.Valid()
    ensures Outcome(s.sizing, old(s.View()), s.View(), s.maxSize, Some(EncFixed(value, k)), ok)
  {
    var data: Bytes := [];
    var i, v := 0, value;
    while i < k
      invariant 0 <= i <= k
      invariant data + EncFixed(v, k - i) == EncFixed(value, k)
    {
      assert data + [v % 256] + EncFixed(v / 256, k - i - 1) == data + EncFixed(v, k - i);
      data := data + [v % 256];
      v := v / 256;
      i := i + 1;
    }
    assert data == EncFixed(value, k);
    ok := s.Write(data);
  }

  method EncodeTag(s: OStream, tag: nat, wt: nat) returns (ok: bool)
    requires s.Valid() && tag <= PB_SIZE_MAX && wt < 8
    modifies s, s.buf
    ensures s.Valid()
    ensures Outcome(s.sizing, old(s.View()), s.View(), s.maxSize, Some(EncTag(tag, wt)), ok)
  {
    ok := EncodeVarint(s, tag * 8 + wt);
  }

  /** pb_encode_string: length, then bytes. */
  method EncodeBlob(s: OStream, b: Bytes) returns (ok: bool)
    requires s.Valid()
    modifies s, s.buf
    ensures s.Valid()
    ensures Outcome(s.sizing, old(s.View()), s.View(), s.maxSize, Some(EncBlob(b)), ok)
  {
    ghost var v0 := s.View();
    ok := EncodeVarint(s, |b| % U64);
    ghost var v1 := s.View();
    if !ok {
      FirstFails(s.sizing, v0, v1, s.maxSize, Some(EncVarint(|b| % U64)), Some(b));
      return;
    }
    ok := s.Write(b);
    Both(s.sizing, v0, v1, s.View(), s.maxSize, Some(EncVarint(|b| % U64)), Some(b), ok);
  }

  /** The loop of pb_enc_string that stands in for strnlen. */
  method StringLength(b: Bytes, max: nat) returns (n: nat)
    ensures n == StrLen(b, max) && n <= max && n <= |b|
    ensures (forall i :: 0 <= i < n ==> b[i] != 0) && (n == max || n == |b| || b[n] == 0)
  {
    n := 0;
    while n < max && n < |b| && b[n] != 0
      invariant n <= max && n <= |b| && forall i :: 0 <= i < n ==> b[i] != 0
      invariant n + StrLen(b[n..], max - n) == StrLen(b, max)
    {
      assert b[n..][1..] == b[n + 1..];
      n := n + 1;
    }
  }

  /** pb_enc_bool, pb_enc_varint, pb_enc_uvarint, pb_enc_svarint, pb_enc_fixed32/64. */
  method EncodeNumber(s: OStream, f: Field, x: Item) returns (ok: bool)
    requires s.Valid() && Packable(f.ltype)
    modifies s, s.buf
    ensures s.Valid()
    ensures Outcome(s.sizing, old(s.View()), s.View(), s.maxSize, EncItem(f, x), ok)
  {
    hide Outcome, EncVarint, EncFixed, ZigZag;
    var n := NumOf(x);
    if !f.ltype.LBool? && !f.ltype.LFixed32? && !f.ltype.LFixed64? && !IntSize(f.dataSize) {
      Refused(s.sizing, s.View(), s.maxSize);
      return false;
    }
    if f.ltype.LBool? {
      ok := EncodeVarint(s, if n != 0 then 1 else 0);
    } else if f.ltype.LFixed32? {
      ok := EncodeFixed(s, n % U32, 4);
    } else if f.ltype.LFixed64? {
      ok := EncodeFixed(s, n % U64, 8);
    } else if f.ltype.LSvarint? {
      ok := EncodeVarint(s, ZigZag(n));
    } else {
      ok := EncodeVarint(s, n % U64);
    }
  }

  /** pb_enc_bytes, pb_enc_string, pb_enc_fixed_length_bytes. */
  method EncodeBytes(s: OStream, f: Field, x: Item) returns (ok: bool)
    requires s.Valid() && (f.ltype.LBytes? || f.ltype.LString? || f.ltype.LFixedBytes?)
    modifies s, s.buf
    ensures s.Valid()
    ensures Outcome(s.sizing, old(s.View()), s.View(), s.maxSize, EncItem(f, x), ok)
  {
    hide Outcome, EncBlob, StrLen;
    var b := BytesOf(x);
    if (f.ltype.LBytes? && |b| + BYTES_OFFSET > f.dataSize) || (f.ltype.LFixedBytes? && |b| != f.dataSize) {
      Refused(s.sizing, s.View(), s.maxSize);
      return false;
    }
    var n := |b|;
    if f.ltype.LString? {
      n := StringLength(b, f.dataSize);
    }
    assert b[..|b|] == b;
    ok := EncodeBlob(s, b[..n]);
  }

  // ----- submessages: size first, then write -----

  /** The second pass of pb_encode_submessage, through a substream limited to size. It
      fails only if the body is too long for any stream, so "submsg size changed" is not
      reached by a body below 2^64 bytes. */
  method WriteBody(s: OStream, fields: seq<Field>, m: Message, size: nat, ghost body: Bytes) returns (ok: bool)
    requires s.Valid() && !s.sizing && |m| == |fields|
    requires EncMsg(fields, m) == Some(body) && size == |body| % U64
    modifies s, s.buf
    ensures s.Valid()
    ensures Outcome(s.sizing, old(s.View()), s.View(), s.maxSize, Some(body), ok)
    decreases fields, 4
  {
    hide EncMsg;
    ghost var v0 := s.View();
    if s.bytesWritten + size > s.maxSize {
      return false;
    }
    var sub := new OStream.On(s.buf, s.pos, size);
    var status := EncodeMessage(sub, fields, m);
    assert |body| < U64 ==> status && sub.bytesWritten == size;
    s.bytesWritten := s.bytesWritten + sub.bytesWritten;
    s.pos := sub.pos;
    if status {
      assert size == |body|;
    } else {
      KeptWider(v0, s.View(), size, s.maxSize - v0.written);
    }
    if sub.bytesWritten != size {
      return false;
    }
    return status;
  }

  /** pb_encode_submessage. */
  method EncodeSubmessage(s: OStream, fields: seq<Field>, m: Message) returns (ok: bool)
    requires s.Valid() && |m| == |fields|
    modifies s, s.buf
    ensures s.Valid()
    ensures Outcome(s.sizing, old(s.View()), s.View(), s.maxSize,
                    if EncMsg(fields, m).Some? then Some(EncBlob(EncMsg(fields, m).value)) else None, ok)
    decreases fields, 5
  {
    ghost var v0 := s.View();
    var size;
    ok, size := GetEncodedSize(fields, m);
    if !ok {
      Refused(s.sizing, v0, s.maxSize);
      return;
    }
    ghost var body := EncMsg(fields, m).value;
    ok := EncodeVarint(s, size);
    ghost var v1 := s.View();
    if !ok {
      FirstFails(s.sizing, v0, v1, s.maxSize, Some(EncVarint(size)), Some(body));
      return;
    }
    if s.sizing {
      s.Count(size, body);
    } else {
      ok := WriteBody(s, fields, m, size, body);
    }
    Both(s.sizing, v0, v1, s.View(), s.maxSize, Some(EncVarint(size)), Some(body), ok);
  }

  /** pb_get_encoded_size: the sizing pass succeeds exactly when the message can be encoded
      and yields the length of its encoding. */
  method GetEncodedSize(fields: seq<Field>, m: Message) returns (ok: bool, size: nat)
    requires |m| == |fields|
    ensures ok <==> EncMsg(fields, m).Some?
    ensures ok ==> size == |EncMsg(fields, m).value| % U64
    decreases fields, 4
  {
    var sub := new OStream.Sizing();
    ok := EncodeMessage(sub, fields, m);
    size := sub.bytesWritten;
  }

  method EncodeItem(s: OStream, f: Field, x: Item) returns (ok: bool)
    requires s.Valid()
    modifies s, s.buf
    ensures s.Valid()
    ensures Outcome(s.sizing, old(s.View()), s.View(), s.maxSize, EncItem(f, x), ok)
    decreases f, 0
  {
    if f.ltype.LSubmessage? {
      ok := EncodeSubmessage(s, f.sub, SubOf(f, x));
    } else if Packable(f.ltype) {
      ok := EncodeNumber(s, f, x);
    } else {
      ok := EncodeBytes(s, f, x);
    }
  }

  method EncodeTagged(s: OStream, f: Field, x: Item) returns (ok: bool)
    requires s.Valid()
    modifies s, s.buf
    ensures s.Valid()
    ensures Outcome(s.sizing, old(s.View()), s.View(), s.maxSize, EncTagged(f, x), ok)
    decreases f, 1
  {
    ghost var v0 := s.View();
    ghost var tagBytes := Some(EncTag(f.tag, WireType(f.ltype)));
    ok := EncodeTag(s, f.tag, WireType(f.ltype));
    ghost var v1 := s.View();
    if !ok {
      FirstFails(s.sizing, v0, v1, s.maxSize, tagBytes, EncItem(f, x));
      return;
    }
    ok := EncodeItem(s, f, x);
    Both(s.sizing, v0, v1, s.View(), s.maxSize, tagBytes, EncItem(f, x), ok);
  }

  // ----- arrays -----

  /** The data loop of a packed array. */
  method EncodePacked(s: OStream, f: Field, xs: seq<Item>) returns (ok: bool)
    requires s.Valid() && Packable(f.ltype)
    modifies s, s.buf
    ensures s.Valid()
    ensures Outcome(s.sizing, old(s.View()), s.View(), s.maxSize, EncPacked(f, xs), ok)
  {
    hide EncItem;
    ghost var v0 := s.View();
    ghost var done: Bytes := [];
    Nothing(s.sizing, v0, s.maxSize);
    CatEmpty(EncPacked(f, xs));
    var i := 0;
    while i < |xs|
      invariant 0 <= i <= |xs| && s.Valid()
      invariant Outcome(s.sizing, v0, s.View(), s.maxSize, Some(done), true)
      invariant EncPacked(f, xs) == Cat(Some(done), EncPacked(f, xs[i..]))
    {
      ghost var v1 := s.View();
      ghost var wx := EncItem(f, xs[i]);
      PackedTurn(f, xs, i);
      ok := EncodeNumber(s, f, xs[i]);
      OneMore(s.sizing, v0, v1, s.View(), s.maxSize, done, wx, EncPacked(f, xs[i + 1..]), ok);
      if !ok {
        return;
      }
      done := done + wx.value;
      i := i + 1;
    }
    CatEmpty(Some(done));
    return true;
  }

  lemma PackedTurn(f: Field, xs: seq<Item>, i: nat)
    requires i < |xs|
    ensures EncPacked(f, xs[i..]) == Cat(EncItem(f, xs[i]), EncPacked(f, xs[i + 1..]))
  {
    assert xs[i..][1..] == xs[i + 1..];
  }

  /** The loop that sends every entry with its tag. */
  method EncodeEach(s: OStream, f: Field, xs: seq<Item>) returns (ok: bool)
    requires s.Valid()
    modifies s, s.buf
    ensures s.Valid()
    ensures Outcome(s.sizing, old(s.View()), s.View(), s.maxSize, EncEach(f, xs), ok)
    decreases f, 2
  {
    hide Outcome, EncTagged;
    ghost var v0 := s.View();
    ghost var done: Bytes := [];
    Nothing(s.sizing, v0, s.maxSize);
    CatEmpty(EncEach(f, xs));
    var i := 0;
    while i < |xs|
      invariant 0 <= i <= |xs| && s.Valid()
      invariant Outcome(s.sizing, v0, s.View(), s.maxSize, Some(done), true)
      invariant EncEach(f, xs) == Cat(Some(done), EncEach(f, xs[i..]))
    {
      ghost var v1 := s.View();
      ghost var wx := EncTagged(f, xs[i]);
      EachTurn(f, xs, i);
      ok := EncodeTagged(s, f, xs[i]);
      OneMore(s.sizing, v0, v1, s.View(), s.maxSize, done, wx, EncEach(f, xs[i + 1..]), ok);
      if !ok {
        return;
      }
      done := done + wx.value;
      i := i + 1;
    }
    CatEmpty(Some(done));
    return true;
  }

  lemma EachTurn(f: Field, xs: seq<Item>, i: nat)
    requires i < |xs|
    ensures EncEach(f, xs[i..]) == Cat(EncTagged(f, xs[i]), EncEach(f, xs[i + 1..]))
  {
    assert xs[i..][1..] == xs[i + 1..];
  }

  lemma {:induction false} FixedPackedLength(f: Field, xs: seq<Item>, k: nat)
    requires (f.ltype.LFixed32? && k == 4) || (f.ltype.LFixed64? && k == 8)
    ensures EncPacked(f, xs).Some? && |EncPacked(f, xs).value| == k * |xs|
    decreases |xs|
  {
    if xs != [] {
      FixedPackedLength(f, xs[1..], k);
    }
  }

  /** The size of a packed block: computed for fixed-width entries, otherwise found with a
      sizing stream. */
  method PackedSize(f: Field, xs: seq<Item>) returns (ok: bool, size: nat)
    requires Packable(f.ltype) && |xs| <= PB_SIZE_MAX
    ensures ok <==> EncPacked(f, xs).Some?
    ensures ok ==> size == |EncPacked(f, xs).value| % U64
  {
    hide EncPacked;
    if f.ltype.LFixed32? || f.ltype.LFixed64? {
      var k := if f.ltype.LFixed32? then 4 else 8;
      FixedPackedLength(f, xs, k);
      return true, k * |xs|;
    }
    var sub := new OStream.Sizing();
    ok := EncodePacked(sub, f, xs);
    size := sub.bytesWritten;
  }

  /** encode_array, packed form. */
  method EncodePackedArray(s: OStream, f: Field, xs: seq<Item>) returns (ok: bool)
    requires s.Valid() && Packable(f.ltype) && 0 < |xs| <= f.arraySize
    modifies s, s.buf
    ensures s.Valid()
    ensures Outcome(s.sizing, old(s.View()), s.View(), s.maxSize, EncArray(f, xs), ok)
  {
    ghost var v0 := s.View();
    ghost var tagBytes := Some(EncTag(f.tag, WT_STRING));
    ok := EncodeTag(s, f.tag, WT_STRING);
    ghost var v1 := s.View();
    if !ok {
      FirstFails(s.sizing, v0, v1, s.maxSize, tagBytes, PackedBlock(f, xs));
      return;
    }
    ok := EncodePackedBlock(s, f, xs);
    Both(s.sizing, v0, v1, s.View(), s.maxSize, tagBytes, PackedBlock(f, xs), ok);
  }

  /** Length prefix and entries of a packed array. */
  function PackedBlock(f: Field, xs: seq<Item>): (r: Option<Bytes>)
  {
    var body :- EncPacked(f, xs);
    Some(EncBlob(body))
  }

  method EncodePackedBlock(s: OStream, f: Field, xs: seq<Item>) returns (ok: bool)
    requires s.Valid() && Packable(f.ltype) && |xs| <= PB_SIZE_MAX
    modifies s, s.buf
    ensures s.Valid()
    ensures Outcome(s.sizing, old(s.View()), s.View(), s.maxSize, PackedBlock(f, xs), ok)
  {
    ghost var v0 := s.View();
    var size;
    ok, size := PackedSize(f, xs);
    if !ok {
      Refused(s.sizing, v0, s.maxSize);
      return;
    }
    ok := EncodeVarint(s, size);
    ghost var v1 := s.View();
    if !ok {
      FirstFails(s.sizing, v0, v1, s.maxSize, Some(EncVarint(size)), EncPacked(f, xs));
      return;
    }
    if s.sizing {
      s.Count(size, EncPacked(f, xs).value);
    } else {
      ok := EncodePacked(s, f, xs);
    }
    Both(s.sizing, v0, v1, s.View(), s.maxSize, Some(EncVarint(size)), EncPacked(f, xs), ok);
  }

  /** encode_array. */
  method EncodeArray(s: OStream, f: Field, xs: seq<Item>) returns (ok: bool)
    requires s.Valid()
    modifies s, s.buf
    ensures s.Valid()
    ensures Outcome(s.sizing, old(s.View()), s.View(), s.maxSize, EncArray(f, xs), ok)
    decreases f, 3
  {
    if |xs| == 0 {
      Nothing(s.sizing, s.View(), s.maxSize);
      return true;
    }
    if |xs| > f.arraySize {
      Refused(s.sizing, s.View(), s.maxSize);
      return false;
    }
    if Packable(f.ltype) {
      ok := EncodePackedArray(s, f, xs);
    } else {
      ok := EncodeEach(s, f, xs);
    }
  }

  // ----- fields and messages -----

  /** encode_basic_field on a static field. */
  method EncodeField(s: OStream, f: Field, v: Val) returns (ok: bool)
    requires s.Valid()
    modifies s, s.buf
    ensures s.Valid()
    ensures Outcome(s.sizing, old(s.View()), s.View(), s.maxSize, EncVal(f, v), ok)
    decreases f, 4
  {
    match f.htype
    case HRequired =>
      ok := EncodeTagged(s, f, ItemOf(f, v));
    case HOptional =>
      if Present(f, v) {
        ok := EncodeTagged(s, f, ItemOf(f, v));
      } else {
        Nothing(s.sizing, s.View(), s.maxSize);
        ok := true;
      }
    case HRepeated =>
      ok := EncodeArray(s, f, ItemsOf(v));
    case HOneof =>
      if Selected(v) {
        ok := EncodeTagged(s, f, v.o.value);
      } else {
        Nothing(s.sizing, s.View(), s.maxSize);
        ok := true;
      }
  }

  /** pb_encode: the same walk sizes and writes. */
  method EncodeMessage(s: OStream, fields: seq<Field>, m: Message) returns (ok: bool)
    requires s.Valid() && |m| == |fields|
    modifies s, s.buf
    ensures s.Valid()
    ensures Outcome(s.sizing, old(s.View()), s.View(), s.maxSize, EncMsg(fields, m), ok)
    decreases fields, 3
  {
    hide Outcome, EncVal;
    ghost var v0 := s.View();
    ghost var done: Bytes := [];
    Nothing(s.sizing, v0, s.maxSize);
    CatEmpty(EncMsg(fields, m));
    var iter := new Iter(fields);
    var more := fields != [];
    ghost var k := 0;
    while more
      invariant s.Valid() && iter.Valid() && iter.fields == fields && 0 <= k <= |fields|
      invariant if more then iter.pos == k < |fields| else k == |fields|
      invariant Outcome(s.sizing, v0, s.View(), s.maxSize, Some(done), true)
      invariant EncMsg(fields, m) == Cat(Some(done), EncFrom(fields, m, k))
      decreases |fields| - k
    {
      ghost var v1 := s.View();
      ghost var wx := EncVal(fields[k], m[k]);
      FieldTurn(fields, m, k);
      ok := EncodeField(s, fields[iter.pos], m[iter.pos]);
      OneMore(s.sizing, v0, v1, s.View(), s.maxSize, done, wx, EncFrom(fields, m, k + 1), ok);
      if !ok {
        return;
      }
      done := done + wx.value;
      k := k + 1;
      more := iter.Next();
    }
    CatEmpty(Some(done));
    return true;
  }

  lemma FieldTurn(fields: seq<Field>, m: Message, k: nat)
    requires |m| == |fields| && k < |fields|
    ensures EncFrom(fields, m, k) == Cat(EncVal(fields[k], m[k]), EncFrom(fields, m, k + 1))
  {
  }

  /** Encoding into a fresh buffer of the given capacity. */
  method EncodeToBuffer(fields: seq<Field>, m: Message, capacity: nat) returns (ok: bool, w: Bytes)
    requires |m| == |fields| && capacity < U64
    ensures ok <==> EncMsg(fields, m).Some? && |EncMsg(fields, m).value| <= capacity
    ensures ok ==> Some(w) == EncMsg(fields, m)
  {
    var buf := new Byte[capacity](_ => 0);
    var s := new OStream.On(buf, 0, capacity);
    ok := EncodeMessage(s, fields, m);
    w := buf[..s.pos];
    if ok {
      var e := EncMsg(fields, m).value;
      assert w == e;
    }
  }
}
