/** Arrays behind a pointer (PB_ENABLE_MALLOC): the overflow guard of allocate_field and
    the growth loop for packed entries. */
module PointerArray {
  import opened Bits
  import opened Wire
  import opened Schema
  import opened Decoding
  import opened Input
  import opened Decoder

  /** The guard of allocate_field accepts exactly the nonzero sizes whose product is a
      size_t, although it divides only when one of them has high bits. */
  method SizesAccepted(dataSize: nat, arraySize: nat) returns (ok: bool)
    requires dataSize < U64 && arraySize < U64
    ensures ok <==> dataSize != 0 && arraySize != 0 && dataSize * arraySize <= U64 - 1
  {
    if dataSize == 0 || arraySize == 0 {
      return false;
    }
    var checkLimit := U32;
    if dataSize >= checkLimit || arraySize >= checkLimit {
      QuotientGuard(U64 - 1, arraySize, dataSize);
      if (U64 - 1) / arraySize < dataSize {
        return false;
      }
    } else {
      SmallProduct(dataSize, arraySize);
    }
    return true;
  }

  lemma QuotientGuard(max: nat, a: nat, d: nat)
    requires a > 0
    ensures max / a < d <==> d * a > max
  {
    var q := max / a;
    assert max == a * q + max % a;
    if q < d {
      MulMonotone(a, q + 1, d);
    } else {
      MulMonotone(a, d, q);
    }
  }

  lemma MulMonotone(a: nat, x: nat, y: nat)
    requires x <= y
    ensures a * x <= a * y
  {
  }

  lemma SmallProduct(d: nat, a: nat)
    requires d < U32 && a < U32
    ensures d * a <= U64 - 1
  {
    MulMonotone(d, a, U32 - 1);
  }

  /** The new allocation of the growth step. */
  function Grown(allocSize: nat, bytesLeft: nat, dataSize: nat): (r: nat)
    requires bytesLeft > 0 && dataSize > 0 && allocSize < PB_SIZE_MAX
    ensures allocSize < r <= PB_SIZE_MAX
  {
    var remain := (bytesLeft - 1) / dataSize + 1;
    if remain < PB_SIZE_MAX - allocSize then allocSize + remain else allocSize + 1
  }

  /** The guess is the number of entries of data_size bytes that the bytes left can hold,
      rounded up, so that entries of that size on the wire are reserved for in one step; only
      where that would pass the limit is it one entry. */
  lemma GrownExact(allocSize: nat, bytesLeft: nat, dataSize: nat)
    requires bytesLeft > 0 && dataSize > 0 && allocSize < PB_SIZE_MAX
    ensures var more := Grown(allocSize, bytesLeft, dataSize) - allocSize;
            || more == 1
            || (dataSize * (more - 1) < bytesLeft <= dataSize * more && allocSize + more < PB_SIZE_MAX)
    ensures bytesLeft <= PB_SIZE_MAX - allocSize - 1 ==>
              bytesLeft <= dataSize * (Grown(allocSize, bytesLeft, dataSize) - allocSize)
  {
    var q := (bytesLeft - 1) / dataSize;
    assert bytesLeft - 1 == dataSize * q + (bytesLeft - 1) % dataSize;
    assert dataSize * (q + 1) == dataSize * q + dataSize;
    QuotientSmaller(bytesLeft - 1, dataSize);
  }

  lemma QuotientSmaller(x: nat, d: nat)
    requires d > 0
    ensures x / d <= x
  {
    MulMonotone(x / d, 1, d);
  }

  /** The entries as a static array of PB_SIZE_MAX entries would take them. */
  ghost function Unbounded(f: Field, items: seq<Item>, s: Bytes): (d: Dec<(seq<Item>, nat)>)
  {
    DecPacked(f.(arraySize := PB_SIZE_MAX), items, |items|, s)
  }

  /** The packed loop of decode_pointer_field on its substream. Every entry is written below
      the allocation, which stays within PB_SIZE_MAX, and as long as the allocator
      grants every request the outcome is that of a static array of PB_SIZE_MAX entries. */
  method DecodeGrowing(sub: IStream, f: Field, items: seq<Item>)
      returns (ok: bool, r: seq<Item>, oom: bool)
    requires sub.Valid() && WellTagged(f.sub) && 0 < f.dataSize && |items| <= PB_SIZE_MAX
    modifies sub
    ensures sub.Valid() && |r| <= PB_SIZE_MAX
    ensures oom ==> !ok
    ensures !oom ==> ok == Unbounded(f, items, old(sub.Remaining())).Ok?
    ensures ok ==> (r, |r|) == Unbounded(f, items, old(sub.Remaining())).v
  {
    ghost var whole := sub.Remaining();
    ok, r, oom := true, items, false;
    var allocSize := |items|;
    while ok && sub.bytesLeft > 0
      invariant sub.Valid() && |r| <= allocSize <= PB_SIZE_MAX && (oom ==> !ok)
      invariant ok ==> Unbounded(f, r, sub.Remaining()) == Unbounded(f, items, whole)
      invariant !ok && !oom ==> Unbounded(f, items, whole).Err?
      decreases ok, sub.bytesLeft
    {
      ok, r, allocSize, oom := GrowTurn(sub, f, r, allocSize);
    }
  }

  /** One turn of the loop. */
  method GrowTurn(sub: IStream, f: Field, items: seq<Item>, allocSize: nat)
      returns (ok: bool, r: seq<Item>, alloc: nat, oom: bool)
    requires sub.Valid() && sub.bytesLeft > 0 && WellTagged(f.sub) && 0 < f.dataSize &&
             |items| <= allocSize <= PB_SIZE_MAX
    modifies sub
    ensures sub.Valid() && |r| <= alloc <= PB_SIZE_MAX && (oom ==> !ok)
    ensures ok ==> sub.bytesLeft < old(sub.bytesLeft)
    ensures ok ==> Unbounded(f, r, sub.Remaining()) == Unbounded(f, items, old(sub.Remaining()))
    ensures !ok && !oom ==> Unbounded(f, items, old(sub.Remaining())).Err?
  {
    r, alloc, oom := items, allocSize, false;
    if |items| == PB_SIZE_MAX {
      return false, r, alloc, false;
    }
    ok, alloc := Reserve(|items|, allocSize, sub.bytesLeft, f.dataSize);
    if !ok {
      return false, r, allocSize, true;
    }
    assert |items| < alloc;
    GrowOne(f, items, sub.Remaining());
    var x;
    ok, x := DecodeItem(sub, f, DefaultItem(f));
    if ok {
      r := items + [x];
    }
  }

  /** The allocation step of the loop: afterwards there is room for one more entry. */
  method Reserve(size: nat, allocSize: nat, bytesLeft: nat, dataSize: nat) returns (granted: bool, r: nat)
    requires size <= allocSize <= PB_SIZE_MAX && size < PB_SIZE_MAX
    requires bytesLeft > 0 && 0 < dataSize <= PB_SIZE_MAX
    ensures granted ==> size < r <= PB_SIZE_MAX && allocSize <= r
  {
    r := allocSize;
    granted := true;
    if size + 1 > allocSize {
      r := Grown(allocSize, bytesLeft, dataSize);
      granted := Realloc(dataSize, r);
    }
  }

  /** The array bound plays no part in decoding one entry. */
  lemma GrowOne(f: Field, r: seq<Item>, s: Bytes)
    requires s != [] && |r| < PB_SIZE_MAX
    ensures var d := DecItem(f, DefaultItem(f), s);
            Unbounded(f, r, s) == if d.Ok? then Unbounded(f, r + [d.v], d.rest) else Err(false)
  {
    SameDecoder(f, s);
  }

  lemma SameDecoder(f: Field, s: Bytes)
    ensures DecItem(f.(arraySize := PB_SIZE_MAX), DefaultItem(f.(arraySize := PB_SIZE_MAX)), s)
         == DecItem(f, DefaultItem(f), s)
  {
  }

  /** allocate_field: the guard never refuses a pb_size_t count of pb_size_t entries, so
      only the allocator itself can say no. */
  method Realloc(dataSize: nat, arraySize: nat) returns (granted: bool)
    requires 0 < dataSize <= PB_SIZE_MAX && 0 < arraySize <= PB_SIZE_MAX
  {
    var ok := SizesAccepted(dataSize, arraySize);
    SmallProduct(dataSize, arraySize);
    assert ok;
    var answer: bool := *;
    return answer;
  }
}
