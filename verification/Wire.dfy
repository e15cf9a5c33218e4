/** The wire primitives shared by encoder and decoder: varints, little-endian words,
    zigzag, length-delimited blocks and the skipping of unknown payloads. Decoders are
    functions of the bytes left in the stream. */
module Wire {
  import opened Bits

  type Byte = x: int | 0 <= x < 256
  type Bytes = seq<Byte>

  /** Outcome of a read. Err(true) means this stream ran out of bytes, Err(false) means
      the bytes seen so far are already unacceptable; the C code returns false for both. */
  datatype Dec<+T> = Ok(v: T, rest: Bytes) | Err(short: bool) {
    predicate IsFailure() { Err? }
    function PropagateFailure<U>(): Dec<U>
      requires Err?
    {
      Err(short)
    }
    function Extract(): (T, Bytes)
      requires Ok?
    {
      (v, rest)
    }
  }

  /** What d promises about the same decoder on a longer input: a success is the same
      success with the extra bytes left over, and a rejection stays a rejection. */
  ghost predicate Stable<T>(d: Dec<T>, longer: Dec<T>, t: Bytes)
  {
    match d
    case Ok(v, rest) => longer == Ok(v, rest + t)
    case Err(short) => !short ==> longer == Err(false)
  }

  lemma Assoc(a: Bytes, b: Bytes, c: Bytes)
    ensures a + b + c == a + (b + c)
  {
  }

  // ----- encoders -----

  function EncVarint(v: nat): (w: Bytes)
    ensures |w| >= 1
    ensures v < 128 ==> w == [v]
  {
    if v < 128 then [v] else [v % 128 + 128] + EncVarint(v / 128)
  }

  function EncFixed(v: nat, k: nat): (w: Bytes)
    ensures |w| == k
  {
    if k == 0 then [] else [v % 256] + EncFixed(v / 256, k - 1)
  }

  function ZigZag(n: int): (z: nat)
    ensures z < U64
  {
    if n < 0 then U64 - 1 - (n % U64 * 2) % U64 else (n % U64 * 2) % U64
  }

  // ----- decoders -----

  /** pb_readbyte / pb_read into a buffer or past one. */
  function Take(n: nat, s: Bytes): (d: Dec<Bytes>)
    ensures d.Ok? ==> |d.rest| + n == |s| && d.v + d.rest == s
  {
    if |s| < n then Err(true) else Ok(s[..n], s[n..])
  }

  /** pb_decode_varint: the 64-bit loop from a given bit position and partial result.
      Only one bit of the byte at position 63 fits; Varint64Or shows that the sum is the
      OR of the C code. */
  function Varint64From(bitpos: nat, acc: nat, s: Bytes): (d: Dec<nat>)
    ensures d.Ok? ==> |d.rest| < |s|
    decreases s
  {
    if bitpos >= 64 then Err(false)
    else if s == [] then Err(true)
    else
      var acc' := acc + Shl(if bitpos == 63 then s[0] % 2 else s[0] % 128, bitpos);
      if s[0] >= 128 then Varint64From(bitpos + 7, acc', s[1..]) else Ok(acc', s[1..])
  }

  function Varint64(s: Bytes): (d: Dec<nat>)
    ensures d.Ok? ==> |d.rest| < |s|
  {
    Varint64From(0, 0, s)
  }

  /** The check made on a byte past bit 32: only padding or sign extension may follow. */
  predicate BadTail(bitpos: nat, acc: nat, b: Byte)
  {
    b % 128 != 0 && (acc / 0x8000_0000 == 0 || b != (if bitpos < 63 then 0xFF else 0x01))
  }

  /** result |= (uint32_t)(byte & 0x7F) << bitpos */
  function Join32(acc: nat, b: Byte, bitpos: nat): (r: nat)
  {
    Or(acc, Shl(b % 128, bitpos) % U32)
  }

  /** The multibyte loop of pb_decode_varint32_eof. Four bits of the byte at position 28
      fit, and if it is the last byte the others must be zero. The position is kept in
      eight bits and comes round again after 36 bytes. */
  function Varint32From(bitpos: nat, acc: nat, s: Bytes): (d: Dec<nat>)
    ensures d.Ok? ==> |d.rest| < |s|
    decreases s
  {
    if s == [] then Err(true)
    else if bitpos >= 32 then
      if BadTail(bitpos, acc, s[0]) then Err(false)
      else if s[0] >= 128 then Varint32From((bitpos + 7) % 256, acc, s[1..])
      else Ok(acc, s[1..])
    else
      var acc' := Join32(acc, s[0], bitpos);
      if s[0] >= 128 then Varint32From(bitpos + 7, acc', s[1..])
      else if bitpos == 28 && s[0] >= 16 then Err(false)
      else Ok(acc', s[1..])
  }

  function Varint32(s: Bytes): (d: Dec<nat>)
    ensures d.Ok? ==> |d.rest| < |s|
  {
    if s == [] then Err(true)
    else if s[0] < 128 then Ok(s[0], s[1..])
    else Varint32From(7, s[0] % 128, s[1..])
  }

  function LittleEndian(b: Bytes): (v: nat)
  {
    if b == [] then 0 else b[0] + 256 * LittleEndian(b[1..])
  }

  function Fixed(k: nat, s: Bytes): (d: Dec<nat>)
    ensures d.Ok? ==> |d.rest| + k == |s|
  {
    var (b, r) :- Take(k, s);
    Ok(LittleEndian(b), r)
  }

  /** Two's complement reading of a value below 2^64. */
  function Signed64(v: int): (n: int)
  {
    if v >= U64 / 2 then v - U64 else v
  }

  function UnZigZag(z: nat): (n: int)
  {
    Signed64(if z % 2 == 1 then U64 - 1 - z / 2 else z / 2)
  }

  /** pb_make_string_substream: the block a length prefix announces. */
  function Delimited(s: Bytes): (d: Dec<Bytes>)
    ensures d.Ok? ==> |d.rest| + |d.v| < |s|
  {
    var (n, r) :- Varint32(s);
    Take(n, r)
  }

  function SkipVarint(s: Bytes): (d: Dec<()>)
    ensures d.Ok? ==> |d.rest| < |s|
  {
    if s == [] then Err(true)
    else if s[0] >= 128 then SkipVarint(s[1..])
    else Ok((), s[1..])
  }

  const WT_VARINT := 0
  const WT_64BIT := 1
  const WT_STRING := 2
  const WT_32BIT := 5

  function Skip(wt: nat, s: Bytes): (d: Dec<()>)
    ensures d.Ok? ==> |d.rest| < |s|
  {
    if wt == WT_VARINT then SkipVarint(s)
    else if wt == WT_64BIT then var (_, r) :- Take(8, s); Ok((), r)
    else if wt == WT_STRING then var (_, r) :- Delimited(s); Ok((), r)
    else if wt == WT_32BIT then var (_, r) :- Take(4, s); Ok((), r)
    else Err(false)
  }

  // ----- longer inputs -----

  lemma TakeStable(n: nat, s: Bytes, t: Bytes)
    ensures Stable(Take(n, s), Take(n, s + t), t)
  {
    if n <= |s| {
      assert (s + t)[..n] == s[..n] && (s + t)[n..] == s[n..] + t;
    }
  }

  lemma {:induction false} Varint64Stable(bitpos: nat, acc: nat, s: Bytes, t: Bytes)
    ensures Stable(Varint64From(bitpos, acc, s), Varint64From(bitpos, acc, s + t), t)
    decreases s
  {
    hide Shl;
    if s != [] && bitpos < 64 {
      assert (s + t)[1..] == s[1..] + t;
      var low := if bitpos == 63 then s[0] % 2 else s[0] % 128;
      Varint64Stable(bitpos + 7, acc + Shl(low, bitpos), s[1..], t);
    }
  }

  lemma {:induction false} Varint32FromStable(bitpos: nat, acc: nat, s: Bytes, t: Bytes)
    ensures Stable(Varint32From(bitpos, acc, s), Varint32From(bitpos, acc, s + t), t)
    decreases s
  {
    hide Join32;
    if s != [] {
      assert (s + t)[1..] == s[1..] + t;
      if bitpos >= 32 {
        Varint32FromStable((bitpos + 7) % 256, acc, s[1..], t);
      } else {
        Varint32FromStable(bitpos + 7, Join32(acc, s[0], bitpos), s[1..], t);
      }
    }
  }

  lemma Varint32Stable(s: Bytes, t: Bytes)
    ensures Stable(Varint32(s), Varint32(s + t), t)
  {
    if s != [] {
      assert (s + t)[1..] == s[1..] + t;
      Varint32FromStable(7, s[0] % 128, s[1..], t);
    }
  }

  lemma FixedStable(k: nat, s: Bytes, t: Bytes)
    ensures Stable(Fixed(k, s), Fixed(k, s + t), t)
  {
    TakeStable(k, s, t);
  }

  lemma DelimitedStable(s: Bytes, t: Bytes)
    ensures Stable(Delimited(s), Delimited(s + t), t)
  {
    Varint32Stable(s, t);
    var d := Varint32(s);
    if d.Ok? {
      TakeStable(d.v, d.rest, t);
    }
  }

  lemma {:induction false} SkipVarintStable(s: Bytes, t: Bytes)
    ensures Stable(SkipVarint(s), SkipVarint(s + t), t)
    decreases s
  {
    if s != [] {
      assert (s + t)[1..] == s[1..] + t;
      SkipVarintStable(s[1..], t);
    }
  }

  lemma SkipStable(wt: nat, s: Bytes, t: Bytes)
    ensures Stable(Skip(wt, s), Skip(wt, s + t), t)
  {
    if wt == WT_VARINT {
      SkipVarintStable(s, t);
    } else if wt == WT_64BIT {
      TakeStable(8, s, t);
    } else if wt == WT_STRING {
      DelimitedStable(s, t);
    } else if wt == WT_32BIT {
      TakeStable(4, s, t);
    }
  }

  // ----- round trips of the primitives -----

  /** A varint of a value below 2^(7k) takes at most k bytes. */
  lemma {:induction false} VarintLength(v: nat, k: nat)
    requires k >= 1 && v < Pow2(7 * k)
    ensures |EncVarint(v)| <= k
    decreases k
  {
    if v >= 128 {
      Pow2Seven(7 * (k - 1));
      Pow2Seven(0);
      VarintLength(v / 128, k - 1);
    }
  }

  lemma {:induction false} EncVarintCons(v: nat, t: Bytes)
    ensures (EncVarint(v) + t)[0] % 128 == v % 128
    ensures (EncVarint(v) + t)[0] >= 128 <==> v >= 128
    ensures v < 128 ==> (EncVarint(v) + t)[1..] == t
    ensures v >= 128 ==> (EncVarint(v) + t)[1..] == EncVarint(v / 128) + t
  {
  }

  lemma Turn64(bitpos: nat, acc: nat, v: nat, t: Bytes)
    requires bitpos <= 63 && (bitpos == 63 ==> v < 2)
    ensures Varint64From(bitpos, acc, EncVarint(v) + t) ==
            if v >= 128 then Varint64From(bitpos + 7, acc + Shl(v % 128, bitpos), EncVarint(v / 128) + t)
            else Ok(acc + Shl(v, bitpos), t)
  {
    hide Shl;
    EncVarintCons(v, t);
    var s := EncVarint(v) + t;
    assert bitpos == 63 ==> v < 128 && s[0] % 2 == v;
    if v >= 128 {
      assert Varint64From(bitpos, acc, s) == Varint64From(bitpos + 7, acc + Shl(v % 128, bitpos), s[1..]);
    }
  }

  lemma Round64Step(bitpos: nat, v: nat)
    requires bitpos <= 63 && Shl(v, bitpos) < U64
    ensures bitpos == 63 ==> v < 2
    ensures v >= 128 ==> bitpos + 7 <= 63 && Shl(v, bitpos) == Shl(v % 128, bitpos) + Shl(v / 128, bitpos + 7)
  {
    hide Shl;
    Pow2Values();
    if bitpos == 63 {
      FitsAtTop(v, bitpos, 1);
    }
    if v >= 128 {
      ShlSplit(v, bitpos);
      BitposBound(v / 128, bitpos + 7, 64);
    }
  }

  lemma {:induction false} Varint64RoundTripFrom(bitpos: nat, acc: nat, v: nat, t: Bytes)
    requires bitpos <= 63 && Shl(v, bitpos) < U64
    ensures Varint64From(bitpos, acc, EncVarint(v) + t) == Ok(acc + Shl(v, bitpos), t)
    decreases v
  {
    hide Varint64From, EncVarint, Shl;
    Round64Step(bitpos, v);
    Turn64(bitpos, acc, v, t);
    if v >= 128 {
      Varint64RoundTripFrom(bitpos + 7, acc + Shl(v % 128, bitpos), v / 128, t);
    }
  }

  lemma BitposBound(x: nat, bitpos: nat, n: nat)
    requires x >= 1 && Shl(x, bitpos) < Pow2(n)
    ensures bitpos < n
  {
    ShlAtLeast(x, bitpos);
    if bitpos >= n {
      Pow2Monotone(n, bitpos);
    }
  }

  lemma AtMostTen(v: nat)
    requires v < U64
    ensures |EncVarint(v)| <= 10
  {
    Pow2Values();
    Pow2Monotone(64, 70);
    VarintLength(v, 10);
  }

  /** Every uint64 goes through pb_encode_varint and pb_decode_varint unchanged, whatever
      follows it. */
  lemma Varint64RoundTrip(v: nat, t: Bytes)
    requires v < U64
    ensures Varint64(EncVarint(v) + t) == Ok(v, t)
    ensures |EncVarint(v)| <= 10
  {
    Varint64RoundTripFrom(0, 0, v, t);
    AtMostTen(v);
  }

  lemma More32(bitpos: nat, acc: nat, v: nat, low: nat, t: Bytes)
    requires bitpos <= 28 && bitpos % 7 == 0 && acc < Pow2(bitpos) && v >= 128
    requires low == if bitpos == 28 then v % 16 else v % 128
    ensures Varint32From(bitpos, acc, EncVarint(v) + t) ==
            Varint32From(bitpos + 7, acc + Shl(low, bitpos), EncVarint(v / 128) + t)
  {
    hide Pow2, Shl, Join32;
    EncVarintCons(v, t);
    var b := (EncVarint(v) + t)[0];
    LowNibble(b, v);
    Join32Adds(acc, b, bitpos);
  }

  lemma Last32(bitpos: nat, acc: nat, v: nat, t: Bytes)
    requires bitpos <= 28 && bitpos % 7 == 0 && acc < Pow2(bitpos) && v < (if bitpos == 28 then 16 else 128)
    ensures Varint32From(bitpos, acc, EncVarint(v) + t) == Ok(acc + Shl(v, bitpos), t)
  {
    LastByte32(bitpos, acc, v, t);
    JoinLast(bitpos, acc, v);
  }

  lemma JoinLast(bitpos: nat, acc: nat, b: Byte)
    requires bitpos <= 28 && bitpos % 7 == 0 && acc < Pow2(bitpos) && b < (if bitpos == 28 then 16 else 128)
    ensures Join32(acc, b, bitpos) == acc + Shl(b, bitpos)
  {
    Join32Adds(acc, b, bitpos);
    ModUnique(b, if bitpos == 28 then 16 else 128, 0, b);
  }

  lemma LastByte32(bitpos: nat, acc: nat, b: Byte, t: Bytes)
    requires bitpos <= 28 && b < (if bitpos == 28 then 16 else 128)
    ensures Varint32From(bitpos, acc, [b] + t) == Ok(Join32(acc, b, bitpos), t)
  {
    assert ([b] + t)[1..] == t;
  }

  lemma LowNibble(b: nat, v: nat)
    requires b % 128 == v % 128
    ensures b % 16 == v % 16
  {
    var r := b % 128;
    ModUnique(b, 16, 8 * (b / 128) + r / 16, r % 16);
    ModUnique(v, 16, 8 * (v / 128) + r / 16, r % 16);
  }

  /** v is still to be decoded at bitpos, and fits in what is left of 32 bits. */
  ghost predicate Ready32(bitpos: nat, acc: nat, v: nat)
  {
    bitpos <= 28 && bitpos % 7 == 0 && Shl(v, bitpos) < U32 && acc < Pow2(bitpos)
  }

  lemma Ready32Last(bitpos: nat, acc: nat, v: nat)
    requires Ready32(bitpos, acc, v)
    ensures bitpos == 28 ==> v < 16
  {
    if bitpos == 28 {
      ShiftBy28(v, bitpos);
    }
  }

  lemma Ready32Next(bitpos: nat, acc: nat, v: nat)
    requires Ready32(bitpos, acc, v) && v >= 128
    ensures bitpos < 28 && Ready32(bitpos + 7, acc + Shl(v % 128, bitpos), v / 128)
    ensures acc + Shl(v, bitpos) == acc + Shl(v % 128, bitpos) + Shl(v / 128, bitpos + 7)
  {
    Ready32Last(bitpos, acc, v);
    ShlSplit(v, bitpos);
    ShlSmall(v % 128, bitpos);
  }

  lemma {:induction false} Varint32RoundTripFrom(bitpos: nat, acc: nat, v: nat, t: Bytes)
    requires Ready32(bitpos, acc, v)
    ensures Varint32From(bitpos, acc, EncVarint(v) + t) == Ok(acc + Shl(v, bitpos), t)
    decreases v
  {
    hide Varint32From, EncVarint, Pow2, Shl;
    if v < 128 {
      Ready32Last(bitpos, acc, v);
      Last32(bitpos, acc, v, t);
    } else {
      Ready32Next(bitpos, acc, v);
      More32(bitpos, acc, v, v % 128, t);
      Varint32RoundTripFrom(bitpos + 7, acc + Shl(v % 128, bitpos), v / 128, t);
    }
  }

  lemma ShiftBy28(x: nat, n: nat)
    requires n == 28
    ensures Shl(x, n) == 0x1000_0000 * x && Pow2(n) == 0x1000_0000
  {
    hide Pow2, Shl;
    ShlMul(x, n);
    Pow2Values();
    Pow2Add(4, n);
  }

  /** Every uint32 goes through pb_encode_varint and pb_decode_varint32 unchanged. */
  lemma Varint32RoundTrip(v: nat, t: Bytes)
    requires v < U32
    ensures Varint32(EncVarint(v) + t) == Ok(v, t)
  {
    hide Varint32From, EncVarint, Pow2, Shl;
    if v >= 128 {
      First32(7, v, t);
      Above7(v);
      Pow2Values();
      Varint32RoundTripFrom(7, v % 128, v / 128, t);
    }
  }

  lemma First32(start: nat, v: nat, t: Bytes)
    requires v >= 128 && start == 7
    ensures Varint32(EncVarint(v) + t) == Varint32From(start, v % 128, EncVarint(v / 128) + t)
  {
    EncVarintCons(v, t);
  }

  lemma Above7(v: nat)
    ensures v == v % 128 + Shl(v / 128, 7)
  {
    ShlSeven(v / 128, 0);
  }

  lemma {:induction false} LittleEndianRoundTrip(v: nat, k: nat)
    requires v < Pow2(8 * k)
    ensures LittleEndian(EncFixed(v, k)) == v
    decreases k
  {
    hide Pow2;
    Pow2Values();
    if k > 0 {
      Pow2Add(8, 8 * (k - 1));
      LittleEndianRoundTrip(v / 256, k - 1);
      assert EncFixed(v, k)[1..] == EncFixed(v / 256, k - 1);
    }
  }

  lemma FixedRoundTrip(v: nat, k: nat, t: Bytes)
    requires v < Pow2(8 * k)
    ensures Fixed(k, EncFixed(v, k) + t) == Ok(v, t)
  {
    LittleEndianRoundTrip(v, k);
    var s := EncFixed(v, k) + t;
    assert s[..k] == EncFixed(v, k) && s[k..] == t;
  }

  /** Zigzag undoes itself on every int64, the minimum included. */
  lemma ZigZagRoundTrip(n: int)
    requires -(U64 / 2) <= n < U64 / 2
    ensures UnZigZag(ZigZag(n)) == n
  {
    if n < 0 {
      assert n % U64 == n + U64;
      assert (n + U64) * 2 % U64 == 2 * n + U64;
    } else {
      assert n % U64 == n && n * 2 % U64 == 2 * n;
    }
  }

  // ----- the 32-bit varint decoder against the 64-bit one -----

  /** One accumulation of the 64-bit loop differs from the 32-bit one by a multiple of
      2^32. */
  lemma HighPart(acc: nat, b: Byte, bitpos: nat) returns (h: nat)
    requires bitpos <= 63 && bitpos % 7 == 0
    requires bitpos <= 28 ==> acc < Pow2(bitpos)
    ensures Shl(if bitpos == 63 then b % 2 else b % 128, bitpos) ==
            U32 * h + (if bitpos >= 32 then 0
                       else Shl(if bitpos == 28 then b % 16 else b % 128, bitpos))
    ensures h == 0 <==> (bitpos == 28 ==> b % 128 < 16) && (bitpos == 63 ==> b % 2 == 0) &&
                        (28 < bitpos < 63 ==> b % 128 == 0)
  {
    if bitpos >= 32 {
      var x := if bitpos == 63 then b % 2 else b % 128;
      ShlHigh(x, bitpos);
      ShlNonzero(x, bitpos - 32);
      h := Shl(x, bitpos - 32);
    } else if bitpos == 28 {
      ShiftBy28(b % 128, bitpos);
      ShiftBy28(b % 16, bitpos);
      LowFourBits(b);
      h := b % 128 / 16;
    } else {
      h := 0;
    }
  }

  lemma ShlNonzero(x: nat, n: nat)
    ensures Shl(x, n) == 0 <==> x == 0
  {
    if x == 0 {
      ShlZero(n);
    } else {
      ShlAtLeast(x, n);
    }
  }

  /** The 32-bit accumulator stays a 32-bit number. */
  lemma Acc32Bound(acc: nat, b: Byte, bitpos: nat)
    requires bitpos <= 28 && bitpos % 7 == 0 && acc < Pow2(bitpos)
    ensures var acc' := acc + Shl(if bitpos == 28 then b % 16 else b % 128, bitpos);
            acc' < U32 && (bitpos < 28 ==> acc' < Pow2(bitpos + 7))
  {
    hide Pow2, Shl;
    if bitpos == 28 {
      ShiftBy28(b % 16, bitpos);
    } else {
      ShlSmall(b % 128, bitpos);
      Pow2Monotone(bitpos + 7, 32);
      Pow2Values();
    }
  }

  ghost predicate RefineInv(bitpos: nat, acc32: nat, h: nat)
  {
    && bitpos % 7 == 0 && acc32 < U32
    && (bitpos <= 28 ==> acc32 + U32 * h < Pow2(bitpos))
  }

  lemma RefineStep(bitpos: nat, acc32: nat, h: nat, b: Byte) returns (next: nat, h': nat)
    requires bitpos <= 63 && RefineInv(bitpos, acc32, h)
    ensures next == if bitpos >= 32 then acc32 else Join32(acc32, b, bitpos)
    ensures h' == 0 <==> h == 0 && (bitpos == 28 ==> b % 128 < 16) && (bitpos == 63 ==> b % 2 == 0) &&
                         (28 < bitpos < 63 ==> b % 128 == 0)
    ensures acc32 + U32 * h + Shl(if bitpos == 63 then b % 2 else b % 128, bitpos) == next + U32 * h'
    ensures RefineInv(bitpos + 7, next, h')
  {
    var k := HighPart(acc32 + U32 * h, b, bitpos);
    h' := h + k;
    next := acc32;
    if bitpos < 32 {
      Acc32Bound(acc32, b, bitpos);
      Join32Adds(acc32, b, bitpos);
      next := acc32 + Shl(if bitpos == 28 then b % 16 else b % 128, bitpos);
    }
    if bitpos < 28 {
      ShlSmall(b % 128, bitpos);
    }
  }

  /** One turn of both loops on the same byte. */
  lemma RefineTurn(bitpos: nat, acc32: nat, h: nat, s: Bytes) returns (next: nat, h': nat)
    requires RefineInv(bitpos, acc32, h)
    requires Varint64From(bitpos, acc32 + U32 * h, s).Ok? && Varint32From(bitpos, acc32, s).Ok?
    ensures s != [] && RefineInv(bitpos + 7, next, h')
    ensures Varint64From(bitpos, acc32 + U32 * h, s) ==
            if s[0] >= 128 then Varint64From(bitpos + 7, next + U32 * h', s[1..]) else Ok(next + U32 * h', s[1..])
    ensures Varint32From(bitpos, acc32, s) ==
            if s[0] >= 128 then Varint32From(bitpos + 7, next, s[1..]) else Ok(next, s[1..])
    ensures h' == 0 <==> h == 0 && LowPayload(bitpos / 7, s[0])
  {
    hide Pow2, Shl, Join32, LowPayload;
    PayloadRule(bitpos, acc32, acc32 + U32 * h, s);
    next, h' := RefineStep(bitpos, acc32, h, s[0]);
  }

  lemma {:induction false} Varint32RefinesFrom(bitpos: nat, acc32: nat, h: nat, acc64: nat, s: Bytes)
      returns (h': nat)
    requires RefineInv(bitpos, acc32, h) && acc64 == acc32 + U32 * h
    requires Varint64From(bitpos, acc64, s).Ok? && Varint32From(bitpos, acc32, s).Ok?
    ensures Varint32From(bitpos, acc32, s).rest == Varint64From(bitpos, acc64, s).rest
    ensures Varint64From(bitpos, acc64, s).v == Varint32From(bitpos, acc32, s).v + U32 * h'
    ensures Varint32From(bitpos, acc32, s).v < U32
    ensures h' == 0 <==> h == 0 && LowOnly(bitpos / 7, s)
    decreases s
  {
    hide Varint32From, Varint64From, LowPayload, Pow2;
    var next;
    next, h' := RefineTurn(bitpos, acc32, h, s);
    if s[0] >= 128 {
      h' := Varint32RefinesFrom(bitpos + 7, next, h', next + U32 * h', s[1..]);
    }
  }

  /** Byte i of a varint sets no bit at position 32 or above. */
  predicate LowPayload(i: nat, b: Byte)
  {
    (i == 4 ==> b % 128 < 16) && (i >= 5 ==> b % 128 == 0)
  }

  /** Nor do the bytes from byte i on. */
  predicate LowOnly(i: nat, s: Bytes)
    decreases s
  {
    s == [] || (LowPayload(i, s[0]) && (s[0] >= 128 ==> LowOnly(i + 1, s[1..])))
  }

  /** The high part a byte adds is zero exactly when its payload is low. At position 63 the
      64-bit decoder keeps one bit only, but the 32-bit one accepts no other. */
  lemma PayloadRule(bitpos: nat, acc32: nat, acc64: nat, s: Bytes)
    requires bitpos % 7 == 0
    requires Varint64From(bitpos, acc64, s).Ok? && Varint32From(bitpos, acc32, s).Ok?
    ensures bitpos <= 63 && s != []
    ensures LowPayload(bitpos / 7, s[0]) <==>
            (bitpos == 28 ==> s[0] % 128 < 16) && (bitpos == 63 ==> s[0] % 2 == 0) && (28 < bitpos < 63 ==>
                s[0] % 128 == 0)
  {
    hide Shl, Join32;
  }

  /** The first n bytes of s are one varint. */
  predicate EndsAt(s: Bytes, n: nat)
  {
    1 <= n <= |s| && s[n - 1] < 128 && forall i :: 0 <= i < n - 1 ==> s[i] >= 128
  }

  lemma {:induction false} LowOnlyEach(j: nat, s: Bytes, n: nat)
    requires EndsAt(s, n)
    ensures LowOnly(j, s) <==> forall i :: 0 <= i < n ==> LowPayload(j + i, s[i])
    decreases n
  {
    if s[0] >= 128 {
      var r := s[1..];
      assert forall i :: 0 <= i < n - 1 ==> r[i] == s[i + 1];
      LowOnlyEach(j + 1, r, n - 1);
      assert forall i :: 1 <= i < n ==>
             s[i] == r[i - 1] && LowPayload(j + i, s[i]) == LowPayload(j + 1 + (i - 1), r[i - 1]);
    }
  }

  lemma {:induction false} Varint64Ends(bitpos: nat, acc: nat, s: Bytes)
    requires Varint64From(bitpos, acc, s).Ok?
    ensures EndsAt(s, |s| - |Varint64From(bitpos, acc, s).rest|)
    decreases s
  {
    if s[0] >= 128 {
      var r := s[1..];
      Varint64Ends(bitpos + 7, acc + Shl(s[0] % 128, bitpos), r);
      assert forall i :: 1 <= i < |s| ==> s[i] == r[i - 1];
    }
  }

  /** Whenever both decoders accept the same bytes, the values are the same if and only if
      the bytes of the varint set no bit at position 32 or above: the byte at bit 28 has a
      payload below 16, and every later byte has none. */
  lemma SameValueExactly(s: Bytes)
    requires Varint32(s).Ok? && Varint64(s).Ok?
    ensures var n := |s| - |Varint64(s).rest|;
            && EndsAt(s, n)
            && (Varint32(s).v == Varint64(s).v <==> forall i :: 0 <= i < n ==> LowPayload(i, s[i]))
  {
    Varint64Ends(0, 0, s);
    LowOnlyEach(0, s, |s| - |Varint64(s).rest|);
    if s[0] >= 128 {
      var h := RefinesWhole(s);
    }
  }

  /** Whenever both decoders accept the same bytes they consume the same count and the
      32-bit result is the 64-bit one modulo 2^32. */
  lemma Varint32RefinesVarint64(s: Bytes)
    requires Varint32(s).Ok? && Varint64(s).Ok?
    ensures Varint32(s).rest == Varint64(s).rest
    ensures Varint32(s).v == Varint64(s).v % U32
  {
    if s[0] >= 128 {
      var h := RefinesWhole(s);
      ModUnique(Varint64(s).v, U32, h, Varint32(s).v);
    }
  }

  lemma RefinesWhole(s: Bytes) returns (h: nat)
    requires Varint32(s).Ok? && Varint64(s).Ok? && s[0] >= 128
    ensures Varint32(s).rest == Varint64(s).rest
    ensures Varint64(s).v == Varint32(s).v + U32 * h && Varint32(s).v < U32
    ensures h == 0 <==> LowOnly(1, s[1..])
  {
    First64(s);
    h := Varint32RefinesFrom(7, s[0] % 128, 0, s[0] % 128, s[1..]);
  }

  lemma First64(s: Bytes)
    requires s != [] && s[0] >= 128
    ensures Varint64(s) == Varint64From(7, s[0] % 128, s[1..])
    ensures s[0] % 128 < Pow2(7)
  {
    Pow2Seven(0);
  }

  /** The bytes past bit 32 of a negative number are all ones and are skipped. */
  lemma {:induction false} SignTail(bitpos: nat, acc: nat, v: nat, t: Bytes)
    requires 35 <= bitpos <= 63 && bitpos % 7 == 0 && v == Pow2(64 - bitpos) - 1
    requires U32 / 2 <= acc < U32
    ensures Varint32From(bitpos, acc, EncVarint(v) + t) == Ok(acc, t)
    decreases 64 - bitpos
  {
    hide Varint32From, EncVarint;
    if bitpos == 63 {
      assert v == 1;
      LastOne(bitpos, acc, t);
    } else {
      OnesSplit(57 - bitpos);
      TailTurn(bitpos, acc, v, t);
      SignTail(bitpos + 7, acc, v / 128, t);
    }
  }

  lemma LastOne(bitpos: nat, acc: nat, t: Bytes)
    requires bitpos == 63 && U32 / 2 <= acc < U32
    ensures Varint32From(bitpos, acc, EncVarint(1) + t) == Ok(acc, t)
  {
    assert EncVarint(1) == [1] && ([1] + t)[1..] == t;
  }

  lemma TailTurn(bitpos: nat, acc: nat, v: nat, t: Bytes)
    requires 32 <= bitpos <= 56 && U32 / 2 <= acc < U32 && v >= 128 && v % 128 == 127
    ensures Varint32From(bitpos, acc, EncVarint(v) + t) == Varint32From(bitpos + 7, acc, EncVarint(v / 128) + t)
  {
    hide EncVarint, Join32;
    EncVarintCons(v, t);
    assert (EncVarint(v) + t)[0] == 0xFF;
  }

  lemma OnesSplit(n: nat)
    requires n >= 1
    ensures Pow2(n + 7) - 1 >= 128
    ensures (Pow2(n + 7) - 1) % 128 == 127 && (Pow2(n + 7) - 1) / 128 == Pow2(n) - 1
  {
    Pow2Seven(n);
    Pow2Monotone(1, n);
  }

  /** Decoding a sign-extended int32 has reached bitpos: v is what is left of the number,
      all ones from bit 31 on, and r is the low 32 bits of the whole. */
  ghost predicate SignInv(bitpos: nat, acc: nat, v: nat, r: nat, h: nat)
  {
    && 7 <= bitpos <= 28 && bitpos % 7 == 0 && acc < Pow2(bitpos)
    && Pow2(64 - bitpos) - Pow2(31 - bitpos) <= v < Pow2(64 - bitpos)
    && acc + Shl(v, bitpos) == r + U32 * h && r < U32
  }

  lemma SignStep(bitpos: nat, acc: nat, v: nat, r: nat, h: nat)
    requires SignInv(bitpos, acc, v, r, h) && bitpos < 28
    ensures v >= 128 && SignInv(bitpos + 7, acc + Shl(v % 128, bitpos), v / 128, r, h)
  {
    hide Pow2, Shl;
    TopOnes(bitpos, v);
    ShlSplit(v, bitpos);
    ShlSmall(v % 128, bitpos);
  }

  lemma {:induction false} SignHead(bitpos: nat, acc: nat, v: nat, r: nat, h: nat, t: Bytes)
    requires SignInv(bitpos, acc, v, r, h)
    ensures Varint32From(bitpos, acc, EncVarint(v) + t) == Ok(r, t)
    decreases 64 - bitpos
  {
    hide Varint32From, EncVarint, Pow2, Shl;
    if bitpos < 28 {
      SignStep(bitpos, acc, v, r, h);
      More32(bitpos, acc, v, v % 128, t);
      SignHead(bitpos + 7, acc + Shl(v % 128, bitpos), v / 128, r, h, t);
    } else {
      SignTop(bitpos, acc, v, r, h, t);
    }
  }

  lemma SignTop(bitpos: nat, acc: nat, v: nat, r: nat, h: nat, t: Bytes)
    requires SignInv(bitpos, acc, v, r, h) && bitpos == 28
    ensures Varint32From(bitpos, acc, EncVarint(v) + t) == Ok(r, t)
  {
    hide Varint32From, EncVarint, Shl, Pow2;
    TopFour(bitpos, acc, v, r, h);
    More32(bitpos, acc, v, v % 16, t);
    SignTail(bitpos + 7, r, v / 128, t);
  }

  lemma TopOnes(bitpos: nat, v: nat)
    requires 7 <= bitpos < 28 && bitpos % 7 == 0
    requires Pow2(64 - bitpos) - Pow2(31 - bitpos) <= v < Pow2(64 - bitpos)
    ensures v >= 128
    ensures Pow2(57 - bitpos) - Pow2(24 - bitpos) <= v / 128 < Pow2(57 - bitpos)
  {
    Pow2Seven(57 - bitpos);
    Pow2Seven(24 - bitpos);
    Pow2Monotone(24 - bitpos, 56 - bitpos);
    Pow2Monotone(1, 56 - bitpos);
  }

  /** The byte at bit 28 completes r; only ones remain. */
  lemma TopFour(bitpos: nat, acc: nat, v: nat, r: nat, h: nat)
    requires SignInv(bitpos, acc, v, r, h) && bitpos == 28
    ensures v >= 128 && v / 128 == Pow2(57 - bitpos) - 1
    ensures r == acc + Shl(v % 16, bitpos) && r >= U32 / 2
  {
    Pow2Seven(57 - bitpos);
    Pow2Monotone(1, 57 - bitpos);
    assert Pow2(31 - bitpos) == 8;
    JustBelow(v, Pow2(57 - bitpos));
    FourBitsKept(acc, v, r, h, bitpos);
  }

  lemma JustBelow(v: nat, p: nat)
    requires p >= 2 && 128 * p - 8 <= v < 128 * p
    ensures v >= 128 && v / 128 == p - 1 && v % 16 >= 8
  {
    var r := v - 128 * (p - 1);
    ModUnique(v, 128, p - 1, r);
    ModUnique(v, 16, 8 * (p - 1) + 7, r - 112);
  }

  /** Of a byte placed at bit 28 only the low four bits fit in 32. */
  lemma FourBitsKept(acc: nat, v: nat, r: nat, h: nat, n: nat)
    requires n == 28 && acc < Pow2(n) && acc + Shl(v, n) == r + U32 * h && r < U32
    ensures r == acc + Shl(v % 16, n)
    ensures v % 16 >= 8 ==> r >= U32 / 2
  {
    ShiftBy28(v, n);
    ShiftBy28(v % 16, n);
    LowFour(acc, v, r, h);
  }

  lemma LowFour(acc: nat, v: nat, r: nat, h: nat)
    requires acc < 0x1000_0000 && acc + 0x1000_0000 * v == r + U32 * h && r < U32
    ensures r == acc + 0x1000_0000 * (v % 16)
  {
  }

  /** On the ten-byte encoding of a negative int32 the 32-bit decoder succeeds and gives
      its two's complement. */
  lemma Varint32Negative(n: int, t: Bytes)
    requires -(U32 / 2) <= n < 0
    ensures Varint32(EncVarint(n + U64) + t) == Ok(n + U32, t)
  {
    hide Varint32, EncVarint, SignInv;
    var v := n + U64;
    NegativeSplit(n);
    NegativeTail(7, v, n + U32, U32 - 1, t);
  }

  lemma NegativeTail(start: nat, v: nat, r: nat, h: nat, t: Bytes)
    requires start == 7 && v >= 128 && SignInv(start, v % 128, v / 128, r, h)
    ensures Varint32(EncVarint(v) + t) == Ok(r, t)
  {
    First32(start, v, t);
    SignHead(start, v % 128, v / 128, r, h, t);
  }

  lemma NegativeSplit(n: int)
    requires -(U32 / 2) <= n < 0
    ensures var v := n + U64;
            v >= 128 && SignInv(7, v % 128, v / 128, n + U32, U32 - 1)
  {
    hide Pow2, Shl;
    var v := n + U64;
    Pow2Values();
    Pow2Seven(57);
    Pow2Seven(24);
    ShlSeven(v / 128, 0);
  }

  /** Six bytes whose 64-bit value is 2^32 and which pb_decode_varint32 still accepts: a
      padded varint escapes the check on the fifth byte, so "modulo" cannot be dropped. */
  lemma Varint32AcceptsOverflow()
    ensures Varint64([0x80, 0x80, 0x80, 0x80, 0x90, 0x00]) == Ok(U32, [])
    ensures Varint32([0x80, 0x80, 0x80, 0x80, 0x90, 0x00]) == Ok(0, [])
  {
    hide Varint32, Varint64;
    OverflowTail();
    FourZeros([0x90, 0x00]);
    assert [0x80, 0x80, 0x80, 0x80] + [0x90, 0x00] == [0x80, 0x80, 0x80, 0x80, 0x90, 0x00];
  }

  lemma {:induction false} FourZeros(a: Bytes)
    ensures Varint64([0x80, 0x80, 0x80, 0x80] + a) == Varint64From(28, 0, a)
    ensures Varint32([0x80, 0x80, 0x80, 0x80] + a) == Varint32From(28, 0, a)
  {
    hide Varint32From, Varint64From;
    var b: Bytes := [0x80] + a;
    var c: Bytes := [0x80] + b;
    var d: Bytes := [0x80] + c;
    ZeroStep(21, a);
    ZeroStep(14, b);
    ZeroStep(7, c);
    ZeroStep(0, d);
    assert [0x80, 0x80, 0x80, 0x80] + a == [0x80] + d && ([0x80] + d)[1..] == d;
  }

  lemma {:induction false} ShlZero(n: nat)
    ensures Shl(0, n) == 0
  {
    if n > 0 {
      ShlZero(n - 1);
    }
  }

  /** A continuation byte without payload leaves both accumulators at zero. */
  lemma ZeroStep(bitpos: nat, s: Bytes)
    requires bitpos < 28
    ensures Varint64From(bitpos, 0, [0x80] + s) == Varint64From(bitpos + 7, 0, s)
    ensures Varint32From(bitpos, 0, [0x80] + s) == Varint32From(bitpos + 7, 0, s)
  {
    ShlZero(bitpos);
    assert Join32(0, 0x80, bitpos) == 0;
    assert ([0x80] + s)[1..] == s;
  }

  lemma OverflowTail()
    ensures Varint64From(28, 0, [0x90, 0x00]) == Ok(U32, [])
    ensures Varint32From(28, 0, [0x90, 0x00]) == Ok(0, [])
  {
    OverflowTail64(28, 35);
    OverflowTail32(28);
  }

  lemma {:induction false} OverflowTail64(n: nat, next: nat)
    requires n == 28 && next == 35
    ensures Varint64From(n, 0, [0x90, 0x00]) == Ok(U32, [])
  {
    hide Shl, Pow2;
    ShiftBy28(16, n);
    ShlZero(next);
    assert [0x90, 0x00][1..] == [0x00] && [0x00][1..] == [];
    assert Varint64From(next, U32, [0x00]) == Ok(U32, []);
  }

  lemma OverflowTail32(n: nat)
    requires n == 28
    ensures Varint32From(n, 0, [0x90, 0x00]) == Ok(0, [])
  {
    NothingJoined(n, 0x90);
    assert [0x90, 0x00][1..] == [0x00] && [0x00][1..] == [];
  }

  lemma NothingJoined(n: nat, b: Byte)
    requires n == 28 && b % 128 == 16
    ensures Join32(0, b, n) == 0
  {
    ShiftBy28(b % 128, n);
  }

  // ----- the sums above are the C code's shifts and ORs -----

  /** result |= (uint64_t)(byte & 0x7F) << bitpos */
  lemma Varint64Or(acc: nat, b: Byte, bitpos: nat, y: nat)
    requires bitpos == 63 || bitpos <= 56
    requires acc < Pow2(bitpos) && y == Shl(b % 128, bitpos) % U64
    ensures Or(acc, y) == acc + Shl(if bitpos == 63 then b % 2 else b % 128, bitpos)
  {
    Kept64(b, bitpos);
    OrShifted(acc, if bitpos == 63 then b % 2 else b % 128, bitpos, y);
  }

  lemma Kept64(b: Byte, bitpos: nat)
    requires bitpos == 63 || bitpos <= 56
    ensures Shl(b % 128, bitpos) % U64 == Shl(if bitpos == 63 then b % 2 else b % 128, bitpos)
  {
    hide Pow2, Shl;
    if bitpos == 63 {
      TopBit(b % 128, bitpos);
      assert b % 128 % 2 == b % 2;
    } else {
      FitsWord(b % 128, bitpos);
    }
  }

  lemma OrShifted(acc: nat, x: nat, bitpos: nat, y: nat)
    requires acc < Pow2(bitpos) && y == Shl(x, bitpos)
    ensures Or(acc, y) == acc + y
  {
    OrDisjoint(acc, x, bitpos);
  }

  lemma TopBit(x: nat, bitpos: nat)
    requires bitpos == 63
    ensures Shl(x, bitpos) % U64 == Shl(x % 2, bitpos)
  {
    hide Pow2, Shl;
    ShlMul(x, bitpos);
    ShlMul(x % 2, bitpos);
    Pow2Values();
    ModUnique(Shl(x, bitpos), U64, x / 2, Shl(x % 2, bitpos));
  }

  lemma FitsWord(x: nat, bitpos: nat)
    requires x < 128 && bitpos <= 57
    ensures Shl(x, bitpos) % U64 == Shl(x, bitpos)
  {
    hide Pow2, Shl;
    ShlSmall(x, bitpos);
    Pow2Monotone(bitpos + 7, 64);
    Pow2Values();
  }

  /** result |= (uint32_t)(byte & 0x7F) << bitpos */
  lemma Varint32Or(acc: nat, b: Byte, bitpos: nat, y: nat)
    requires bitpos == 28 || bitpos <= 21
    requires acc < Pow2(bitpos) && y == Shl(b % 128, bitpos) % U32
    ensures Or(acc, y) == acc + Shl(if bitpos == 28 then b % 16 else b % 128, bitpos)
  {
    if bitpos == 28 {
      TopFourBits(b, bitpos);
      OrShifted(acc, b % 16, bitpos, y);
    } else {
      FitsHalfWord(b % 128, bitpos);
      OrShifted(acc, b % 128, bitpos, y);
    }
  }

  lemma Join32Adds(acc: nat, b: Byte, bitpos: nat)
    requires bitpos % 7 == 0 && bitpos <= 28 && acc < Pow2(bitpos)
    ensures Join32(acc, b, bitpos) == acc + Shl(if bitpos == 28 then b % 16 else b % 128, bitpos)
  {
    Varint32Or(acc, b, bitpos, Shl(b % 128, bitpos) % U32);
  }

  lemma TopFourBits(b: Byte, bitpos: nat)
    requires bitpos == 28
    ensures Shl(b % 128, bitpos) % U32 == Shl(b % 16, bitpos)
  {
    ShiftBy28(b % 128, bitpos);
    ShiftBy28(b % 16, bitpos);
    LowFourBits(b);
    ModUnique(Shl(b % 128, bitpos), U32, b % 128 / 16, Shl(b % 16, bitpos));
  }

  lemma LowFourBits(b: Byte)
    ensures 0x1000_0000 * (b % 128) == U32 * (b % 128 / 16) + 0x1000_0000 * (b % 16)
  {
  }

  lemma {:induction false} FitsHalfWord(x: nat, bitpos: nat)
    requires x < 128 && bitpos <= 25
    ensures Shl(x, bitpos) % U32 == Shl(x, bitpos)
  {
    hide Pow2, Shl;
    ShlSmall(x, bitpos);
    Pow2Monotone(bitpos + 7, 32);
    Pow2Values();
  }
}
