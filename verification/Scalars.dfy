/** The field codecs pb_enc_* and pb_dec_* undo each other, whatever bytes follow. */
module Scalars {
  import opened Bits
  import opened Wire
  import opened Schema
  import opened Encoding
  import opened Decoding

  /** A string is what precedes its NUL; every other scalar is itself. */
  function CanonScalar(f: Field, x: Item): (y: Item)
  {
    if f.ltype.LString? && x.Blob? then Blob(x.b[..StrLen(x.b, f.dataSize)]) else x
  }

  lemma BoolRoundTrip(f: Field, x: Item, t: Bytes)
    requires f.ltype.LBool? && ItemOk(f, x)
    ensures EncItem(f, x).Some? && DecScalar(f, EncItem(f, x).value + t) == Ok(x, t)
  {
    Varint32RoundTrip(x.n, t);
  }

  /** A sign-extended value truncated to 32 bits and read back as int32. */
  lemma SignedRead(n: int, size: nat)
    requires IntSize(size) && -Half(size) <= n < Half(size)
    ensures (if size == 8 then Signed64(n % U64) else Signed32(n % U64 % U32)) == n
  {
    if n < 0 {
      ModUnique(n, U64, -1, n + U64);
      if size != 8 {
        ModUnique(n + U64, U32, U32 - 1, n + U32);
      }
    } else {
      ModUnique(n, U64, 0, n);
      if size != 8 {
        ModUnique(n, U32, 0, n);
      }
    }
  }

  lemma VarintRoundTrip(f: Field, x: Item, t: Bytes)
    requires f.ltype.LVarint? && ItemOk(f, x) && EncItem(f, x).Some?
    ensures DecScalar(f, EncItem(f, x).value + t) == Ok(x, t)
  {
    Varint64RoundTrip(x.n % U64, t);
    SignedRead(x.n, f.dataSize);
  }

  lemma {:induction false} UvarintRoundTrip(f: Field, x: Item, t: Bytes)
    requires f.ltype.LUvarint? && ItemOk(f, x) && EncItem(f, x).Some?
    ensures DecScalar(f, EncItem(f, x).value + t) == Ok(x, t)
  {
    ModUnique(x.n, U64, 0, x.n);
    Varint64RoundTrip(x.n, t);
  }

  lemma SvarintRoundTrip(f: Field, x: Item, t: Bytes)
    requires f.ltype.LSvarint? && ItemOk(f, x) && EncItem(f, x).Some?
    ensures DecScalar(f, EncItem(f, x).value + t) == Ok(x, t)
  {
    Varint64RoundTrip(ZigZag(x.n), t);
    ZigZagRoundTrip(x.n);
  }

  lemma Fixed32RoundTrip(f: Field, x: Item, t: Bytes)
    requires f.ltype.LFixed32? && ItemOk(f, x)
    ensures EncItem(f, x).Some? && DecScalar(f, EncItem(f, x).value + t) == Ok(x, t)
  {
    hide Fixed, EncFixed, Pow2;
    ModUnique(x.n, U32, 0, x.n);
    Pow2Values();
    FixedRoundTrip(x.n, 4, t);
  }

  lemma {:induction false} Fixed64RoundTrip(f: Field, x: Item, t: Bytes)
    requires f.ltype.LFixed64? && ItemOk(f, x)
    ensures EncItem(f, x).Some? && DecScalar(f, EncItem(f, x).value + t) == Ok(x, t)
  {
    hide Fixed, EncFixed, Pow2;
    ModUnique(x.n, U64, 0, x.n);
    Pow2Values();
    FixedRoundTrip(x.n, 8, t);
  }

  /** The length prefix and the bytes of a length-delimited value, taken one by one. */
  lemma BlobParts(b: Bytes, t: Bytes)
    requires |b| < U32
    ensures Varint32(EncBlob(b) + t) == Ok(|b|, b + t)
    ensures Take(|b|, b + t) == Ok(b, t)
  {
    ModUnique(|b|, U64, 0, |b|);
    assert EncBlob(b) + t == EncVarint(|b|) + (b + t);
    Varint32RoundTrip(|b|, b + t);
    assert (b + t)[..|b|] == b && (b + t)[|b|..] == t;
  }

  lemma BlobDelimited(b: Bytes, t: Bytes)
    requires |b| < U32
    ensures Delimited(EncBlob(b) + t) == Ok(b, t)
  {
    BlobParts(b, t);
  }

  lemma BytesRoundTrip(f: Field, x: Item, t: Bytes)
    requires f.ltype.LBytes? && ItemOk(f, x) && EncItem(f, x).Some?
    ensures DecScalar(f, EncItem(f, x).value + t) == Ok(x, t)
  {
    BlobParts(x.b, t);
  }

  /** The length of a C string: the place of its NUL, or all there is. */
  lemma {:induction false} StrLenExact(b: Bytes, max: nat)
    ensures var n := StrLen(b, max);
            (forall i :: 0 <= i < n ==> b[i] != 0) && (n == max || n == |b| || b[n] == 0)
    decreases |b|
  {
    if max > 0 && b != [] && b[0] != 0 {
      StrLenExact(b[1..], max - 1);
      assert forall i :: 1 <= i < StrLen(b, max) ==> b[i] == b[1..][i - 1];
    }
  }

  lemma StringRoundTrip(f: Field, x: Item, t: Bytes)
    requires f.ltype.LString? && ItemOk(f, x)
    ensures EncItem(f, x).Some? && DecScalar(f, EncItem(f, x).value + t) == Ok(CanonScalar(f, x), t)
  {
    hide Varint32, EncBlob;
    var n := StrLen(x.b, f.dataSize);
    BlobParts(x.b[..n], t);
    ModUnique(n + 1, U32, 0, n + 1);
  }

  lemma FixedBytesRoundTrip(f: Field, x: Item, t: Bytes)
    requires f.ltype.LFixedBytes? && ItemOk(f, x)
    ensures EncItem(f, x).Some? && DecScalar(f, EncItem(f, x).value + t) == Ok(x, t)
  {
    BlobParts(x.b, t);
    if x.b == [] {
      assert [] + t == t;
      assert Zeros(0) == x.b;
    }
  }

  /** Every scalar of every field type comes back from its own encoding, which is consumed
      exactly. */
  lemma ScalarRoundTrip(f: Field, x: Item, t: Bytes)
    requires !f.ltype.LSubmessage? && FieldOk(f) && ItemOk(f, x) && EncItem(f, x).Some?
    ensures DecScalar(f, EncItem(f, x).value + t) == Ok(CanonScalar(f, x), t)
  {
    match f.ltype
    case LBool => BoolRoundTrip(f, x, t);
    case LVarint => VarintRoundTrip(f, x, t);
    case LUvarint => UvarintRoundTrip(f, x, t);
    case LSvarint => SvarintRoundTrip(f, x, t);
    case LFixed32 => Fixed32RoundTrip(f, x, t);
    case LFixed64 => Fixed64RoundTrip(f, x, t);
    case LBytes => BytesRoundTrip(f, x, t);
    case LString => StringRoundTrip(f, x, t);
    case LFixedBytes => FixedBytesRoundTrip(f, x, t);
    case LSubmessage =>
  }

  /** A string that fills its buffer without a NUL is written but cannot be read back. */
  lemma {:induction false} UnterminatedString(f: Field, b: Bytes, t: Bytes)
    requires f.ltype.LString? && StrLen(b, f.dataSize) == f.dataSize
    ensures EncItem(f, Blob(b)).Some? && DecScalar(f, EncItem(f, Blob(b)).value + t) == Err(false)
  {
    BlobParts(b[..f.dataSize], t);
    if f.dataSize < PB_SIZE_MAX {
      ModUnique(f.dataSize + 1, U32, 0, f.dataSize + 1);
    } else {
      ModUnique(f.dataSize + 1, U32, 1, 0);
    }
  }
}
