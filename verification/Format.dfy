/** The wire format as the Protocol Buffers documentation describes it ("Encoding", sections
    "Base 128 Varints", "Signed Integers" and "Message Structure"), stated without the codecs,
    and that the codecs keep to it. */
module Format {
  import opened Bits
  import opened Wire
  import opened Schema
  import opened Encoding
  import opened Decoding
  import opened Scalars

  // ----- numbers -----

  /** The number whose digits are ds, lowest first. */
  function Positional(ds: seq<nat>, base: nat): (n: nat)
  {
    if ds == [] then 0 else ds[0] + base * Positional(ds[1..], base)
  }

  /** The low seven bits of each byte. */
  function Payloads(w: Bytes): (ds: seq<nat>)
    ensures |ds| == |w|
  {
    seq(|w|, i requires 0 <= i < |w| => w[i] % 128)
  }

  lemma PayloadsCons(w: Bytes)
    requires w != []
    ensures Payloads(w)[0] == w[0] % 128 && Payloads(w)[1..] == Payloads(w[1..])
  {
  }

  /** A varint: base 128, lowest digit first, the high bit set on every byte but the last,
      and no byte more than needed. These three determine the bytes. */
  lemma {:induction false} VarintFormat(v: nat)
    ensures var w := EncVarint(v);
            EndsAt(w, |w|) && Positional(Payloads(w), 128) == v && (|w| > 1 ==> w[|w| - 1] != 0)
    decreases v
  {
    var w := EncVarint(v);
    PayloadsCons(w);
    if v >= 128 {
      VarintFormat(v / 128);
      assert w[1..] == EncVarint(v / 128);
      assert forall i :: 1 <= i < |w| ==> w[i] == w[1..][i - 1];
    } else {
      assert Payloads(w)[1..] == [];
    }
  }

  /** A fixed-width word: its bytes, lowest first. */
  lemma {:induction false} FixedFormat(v: nat, k: nat)
    requires v < Pow2(8 * k)
    ensures |EncFixed(v, k)| == k && Positional(EncFixed(v, k), 256) == v
    decreases k
  {
    hide Pow2;
    Pow2Values();
    if k > 0 {
      Pow2Add(8, 8 * (k - 1));
      FixedFormat(v / 256, k - 1);
      assert EncFixed(v, k)[1..] == EncFixed(v / 256, k - 1);
    }
  }

  /** Zigzag: 0, -1, 1, -2, ... become 0, 1, 2, 3, ... */
  lemma ZigZagFormat(n: int)
    requires -(U64 / 2) <= n < U64 / 2
    ensures ZigZag(n) == if n >= 0 then 2 * n else -2 * n - 1
  {
    if n < 0 {
      ModUnique(n, U64, -1, n + U64);
      ModUnique((n + U64) * 2, U64, 1, 2 * n + U64);
    } else {
      ModUnique(n, U64, 0, n);
      ModUnique(2 * n, U64, 0, 2 * n);
    }
  }

  // ----- what pb_decode_varint makes of any bytes -----

  /** A varint of n bytes is read at position bitpos on top of acc. */
  lemma {:induction false} Varint64Reads(k: nat, acc: nat, s: Bytes, n: nat)
    requires EndsAt(s, n) && k + n <= 10 && acc < Pow2(7 * k)
    ensures Varint64From(7 * k, acc, s) == Ok((acc + Shl(Positional(Payloads(s[..n]), 128), 7 * k)) % U64, s[n..])
    decreases n
  {
    hide Pow2, Shl, Positional;
    var b, p := s[0], Positional(Payloads(s[..n]), 128);
    FirstDigit(s, n);
    if n == 1 {
      LastDigit(k, acc, b);
    } else {
      var acc' := acc + Shl(b % 128, 7 * k);
      DigitStep(k, acc, b, Positional(Payloads(s[1..][..n - 1]), 128));
      assert forall i :: 0 <= i < n - 1 ==> s[1..][i] == s[i + 1];
      Varint64Reads(k + 1, acc', s[1..], n - 1);
      assert s[1..][n - 1..] == s[n..];
    }
  }

  lemma FirstDigit(s: Bytes, n: nat)
    requires 1 <= n <= |s|
    ensures Positional(Payloads(s[..n]), 128) == s[0] % 128 + 128 * Positional(Payloads(s[1..][..n - 1]), 128)
    ensures n == 1 ==> Positional(Payloads(s[..n]), 128) == s[0] % 128
  {
    PayloadsCons(s[..n]);
    assert s[..n][1..] == s[1..][..n - 1];
    assert n == 1 ==> Payloads(s[1..][..0]) == [];
  }

  lemma LastDigit(k: nat, acc: nat, b: Byte)
    requires k <= 9 && acc < Pow2(7 * k)
    ensures acc + Shl(if 7 * k == 63 then b % 2 else b % 128, 7 * k) == (acc + Shl(b % 128, 7 * k)) % U64
  {
    hide Pow2, Shl;
    Kept64(b, 7 * k);
    var kept := Shl(if 7 * k == 63 then b % 2 else b % 128, 7 * k);
    KeptBelow(k, acc, b);
    var q := Shl(b % 128, 7 * k) / U64;
    ModUnique(acc + Shl(b % 128, 7 * k), U64, q, acc + kept);
  }

  lemma KeptBelow(k: nat, acc: nat, b: Byte)
    requires k <= 9 && acc < Pow2(7 * k)
    ensures acc + Shl(if 7 * k == 63 then b % 2 else b % 128, 7 * k) < U64
  {
    hide Pow2, Shl;
    Pow2Values();
    if k == 9 {
      ShlMul(b % 2, 63);
    } else {
      ShlSmall(b % 128, 7 * k);
      Pow2Monotone(7 * k + 7, 64);
    }
  }

  lemma DigitStep(k: nat, acc: nat, b: Byte, p: nat)
    requires acc < Pow2(7 * k)
    ensures acc + Shl(b % 128, 7 * k) < Pow2(7 * (k + 1))
    ensures Shl(b % 128 + 128 * p, 7 * k) == Shl(b % 128, 7 * k) + Shl(p, 7 * k + 7)
  {
    hide Pow2, Shl;
    ShlSmall(b % 128, 7 * k);
    var v := b % 128 + 128 * p;
    ModUnique(v, 128, p, b % 128);
    ShlSplit(v, 7 * k);
  }

  lemma {:induction false} Varint64Ten(k: nat, acc: nat, s: Bytes)
    requires k <= 10 && Varint64From(7 * k, acc, s).Ok?
    ensures k + |s| - |Varint64From(7 * k, acc, s).rest| <= 10
    decreases s
  {
    hide Shl;
    if s[0] >= 128 {
      Varint64Ten(k + 1, acc + Shl(s[0] % 128, 7 * k), s[1..]);
    }
  }

  /** pb_decode_varint on any bytes: it succeeds exactly when a byte without the high bit is
      among the first ten, and gives the number modulo 2^64. */
  lemma Varint64Exact(s: Bytes)
    ensures Varint64(s).Ok? <==> exists n: nat :: n <= 10 && EndsAt(s, n)
    ensures forall n: nat :: n <= 10 && EndsAt(s, n) ==>
              Varint64(s) == Ok(Positional(Payloads(s[..n]), 128) % U64, s[n..])
  {
    if Varint64(s).Ok? {
      Varint64Ends(0, 0, s);
      Varint64Ten(0, 0, s);
    }
    forall n: nat | n <= 10 && EndsAt(s, n) ensures Varint64(s) == Ok(Positional(Payloads(s[..n]), 128) % U64, s[n..]) {
      Varint64Reads(0, 0, s, n);
    }
  }

  // ----- what pb_decode_varint32 makes of any bytes -----

  /** Byte i may follow where bit 31 is high or not: padding, or the sign extension of a
      negative number. */
  predicate TailOk(i: nat, high: bool, b: Byte)
  {
    b % 128 == 0 || (high && b == if i < 9 then 0xFF else 0x01)
  }

  /** The n bytes of s, the first of which is byte i of the varint. */
  ghost predicate TailsOk(i: nat, high: bool, s: Bytes, n: nat)
    requires n <= |s|
  {
    forall j :: 0 <= j < n ==> TailOk(i + j, high, s[j])
  }

  lemma TailsCons(i: nat, high: bool, s: Bytes, n: nat)
    requires 1 <= n <= |s|
    ensures TailsOk(i, high, s, n) <==> TailOk(i, high, s[0]) && TailsOk(i + 1, high, s[1..], n - 1)
  {
    hide TailOk;
    var r := s[1..];
    if TailOk(i, high, s[0]) && TailsOk(i + 1, high, r, n - 1) {
      forall j | 0 <= j < n ensures TailOk(i + j, high, s[j]) {
        if j > 0 {
          assert TailOk(i + 1 + (j - 1), high, r[j - 1]);
        }
      }
    }
    if TailsOk(i, high, s, n) {
      forall j | 0 <= j < n - 1 ensures TailOk(i + 1 + j, high, r[j]) {
        assert TailOk(i + (j + 1), high, s[j + 1]);
      }
    }
  }

  /** The bytes from bit 35 on are only checked. */
  lemma {:induction false} Varint32High(i: nat, acc: nat, s: Bytes, n: nat)
    requires 5 <= i && i + n <= 37 && EndsAt(s, n) && acc < U32
    ensures Varint32From(7 * i, acc, s) ==
            if TailsOk(i, acc >= U32 / 2, s, n) then Ok(acc, s[n..]) else Err(false)
    decreases n
  {
    hide TailsOk, Join32;
    TailsCons(i, acc >= U32 / 2, s, n);
    HighTurn(7 * i, i, acc, s);
    if n == 1 {
      assert TailsOk(i + 1, acc >= U32 / 2, s[1..], 0) by { NoTails(i + 1, acc >= U32 / 2, s[1..]); }
    } else {
      assert forall j :: 0 <= j < n - 1 ==> s[1..][j] == s[j + 1];
      Varint32High(i + 1, acc, s[1..], n - 1);
      assert s[1..][n - 1..] == s[n..];
    }
  }

  lemma NoTails(i: nat, high: bool, s: Bytes)
    ensures TailsOk(i, high, s, 0)
  {
  }

  lemma HighTurn(bitpos: nat, i: nat, acc: nat, s: Bytes)
    requires bitpos == 7 * i && 5 <= i <= 36 && s != [] && acc < U32
    ensures Varint32From(bitpos, acc, s) ==
            if !TailOk(i, acc >= U32 / 2, s[0]) then Err(false)
            else if s[0] >= 128 then Varint32From((bitpos + 7) % 256, acc, s[1..])
            else Ok(acc, s[1..])
  {
    hide Join32;
  }

  /** The value of the first five bytes, or of all n. */
  ghost function Low32(i: nat, acc: nat, s: Bytes, n: nat): (v: nat)
    requires i <= 4 && n <= |s|
  {
    (acc + Shl(Positional(Payloads(s[..if n < 5 - i then n else 5 - i]), 128), 7 * i)) % U32
  }

  lemma Added28(acc: nat, b: Byte, bitpos: nat)
    requires bitpos == 28 && acc < Pow2(bitpos)
    ensures var v := acc + Shl(b % 16, bitpos);
            v < U32 && (v >= U32 / 2 <==> b % 16 >= 8) && v == (acc + Shl(b % 128, bitpos)) % U32
  {
    hide Shl, Pow2;
    ShiftBy28(b % 16, bitpos);
    ShiftBy28(b % 128, bitpos);
    LowFourBits(b);
    ModUnique(acc + Shl(b % 128, bitpos), U32, b % 128 / 16, acc + Shl(b % 16, bitpos));
  }

  lemma At28(bitpos: nat, acc: nat, s: Bytes)
    requires bitpos == 28 && acc < Pow2(bitpos) && s != []
    ensures var v := acc + Shl(s[0] % 16, bitpos);
            Varint32From(bitpos, acc, s) ==
            if s[0] >= 128 then Varint32From(bitpos + 7, v, s[1..])
            else if s[0] >= 16 then Err(false)
            else Ok(v, s[1..])
  {
    hide Shl, Pow2, Join32;
    Join32Adds(acc, s[0], bitpos);
  }

  lemma Varint32At28(bitpos: nat, acc: nat, s: Bytes, n: nat)
    requires bitpos == 28 && 4 + n <= 37 && EndsAt(s, n) && acc < Pow2(bitpos)
    ensures var v := (acc + Shl(s[0] % 128, bitpos)) % U32;
            Varint32From(bitpos, acc, s) ==
            if (n == 1 ==> s[0] < 16) && (n > 1 ==> TailsOk(5, s[0] % 16 >= 8, s[1..], n - 1))
            then Ok(v, s[n..]) else Err(false)
  {
    hide Shl, Pow2, Varint32From, TailsOk;
    Added28(acc, s[0], bitpos);
    At28(bitpos, acc, s);
    if n > 1 {
      assert forall j :: 0 <= j < n - 1 ==> s[1..][j] == s[j + 1];
      Varint32High(5, acc + Shl(s[0] % 16, bitpos), s[1..], n - 1);
      assert s[1..][n - 1..] == s[n..];
    }
  }

  lemma BelowWord(i: nat, acc: nat, b: Byte)
    requires 1 <= i <= 3 && acc < Pow2(7 * i)
    ensures Join32(acc, b, 7 * i) == acc + Shl(b % 128, 7 * i) < U32
  {
    hide Shl, Pow2, Join32;
    Join32Adds(acc, b, 7 * i);
    Acc32Bound(acc, b, 7 * i);
  }

  lemma LowLast(i: nat, acc: nat, s: Bytes)
    requires 1 <= i <= 3 && acc < Pow2(7 * i) && s != [] && s[0] < 128
    ensures Varint32From(7 * i, acc, s) == Ok(Low32(i, acc, s, 1), s[1..])
  {
    hide Shl, Pow2, Join32, Positional;
    BelowWord(i, acc, s[0]);
    FirstDigit(s, 1);
    ModUnique(acc + Shl(s[0] % 128, 7 * i), U32, 0, acc + Shl(s[0] % 128, 7 * i));
  }

  lemma LowTurn(i: nat, acc: nat, s: Bytes, n: nat)
    requires 1 <= i <= 3 && acc < Pow2(7 * i) && 1 < n <= |s| && s[0] >= 128
    ensures var acc' := acc + Shl(s[0] % 128, 7 * i);
            && Varint32From(7 * i, acc, s) == Varint32From(7 * (i + 1), acc', s[1..])
            && acc' < Pow2(7 * (i + 1))
            && Low32(i, acc, s, n) == Low32(i + 1, acc', s[1..], n - 1)
  {
    hide Shl, Pow2, Join32, Positional;
    BelowWord(i, acc, s[0]);
    var k := if n < 5 - i then n else 5 - i;
    FirstDigit(s, k);
    DigitStep(i, acc, s[0], Positional(Payloads(s[1..][..k - 1]), 128));
  }

  /** The bytes from byte i on, below bit 32. */
  lemma {:induction false} Varint32Low(i: nat, acc: nat, s: Bytes, n: nat)
    requires 1 <= i <= 4 && i + n <= 37 && EndsAt(s, n) && acc < Pow2(7 * i)
    ensures Varint32From(7 * i, acc, s) ==
            if (i + n == 5 ==> s[4 - i] < 16) &&
               (i + n > 5 ==> TailsOk(5, s[4 - i] % 16 >= 8, s[5 - i..], i + n - 5))
            then Ok(Low32(i, acc, s, n), s[n..]) else Err(false)
    decreases 4 - i
  {
    hide Shl, Pow2, Varint32From, TailsOk, Positional;
    if i == 4 {
      Varint32At28(7 * i, acc, s, n);
      FirstDigit(s, 1);
    } else if n == 1 {
      LowLast(i, acc, s);
    } else {
      LowTurn(i, acc, s, n);
      assert forall j :: 0 <= j < n - 1 ==> s[1..][j] == s[j + 1];
      Varint32Low(i + 1, acc + Shl(s[0] % 128, 7 * i), s[1..], n - 1);
      assert s[1..][n - 1..] == s[n..];
      assert i + n > 5 ==> s[1..][5 - (i + 1)..] == s[5 - i..];
    }
  }

  /** pb_decode_varint32 on any varint of at most 37 bytes, where its 8-bit position has not
      come round yet: it is accepted exactly if a fifth byte that ends it is below 16 and every
      byte from the sixth on is padding or sign extension; the value is that of the first five
      bytes modulo 2^32. */
  lemma Varint32Exact(s: Bytes, n: nat)
    requires EndsAt(s, n) && n <= 37
    ensures Varint32(s) ==
            if (n == 5 ==> s[4] < 16) && (n > 5 ==> TailsOk(5, s[4] % 16 >= 8, s[5..], n - 5))
            then Ok(Positional(Payloads(s[..if n < 5 then n else 5]), 128) % U32, s[n..]) else Err(false)
  {
    hide Varint32From, TailsOk, Positional;
    var k := if n < 5 then n else 5;
    FirstDigit(s, k);
    if n > 1 {
      var r := s[1..];
      assert forall j :: 0 <= j < n - 1 ==> r[j] == s[j + 1];
      FromSecond(7, s, n);
      assert r[n - 1..] == s[n..] && (n > 5 ==> r[4..] == s[5..]);
    }
  }

  lemma FromSecond(start: nat, s: Bytes, n: nat)
    requires start == 7 && EndsAt(s, n) && 1 < n <= 37
    ensures var r := s[1..];
            Varint32From(start, s[0] % 128, r) ==
            if (n == 5 ==> r[3] < 16) && (n > 5 ==> TailsOk(5, r[3] % 16 >= 8, r[4..], n - 5))
            then Ok(Positional(Payloads(s[..if n < 5 then n else 5]), 128) % U32, r[n - 1..]) else Err(false)
  {
    hide Varint32From, TailsOk, Positional, Pow2, Shl;
    var r := s[1..];
    Pow2Values();
    assert forall j :: 0 <= j < n - 1 ==> r[j] == s[j + 1];
    Varint32Low(1, s[0] % 128, r, n - 1);
    var k := if n < 5 then n else 5;
    FirstDigit(s, k);
    var p := Positional(Payloads(r[..k - 1]), 128);
    ShiftBySeven(p, start);
  }

  lemma ShiftBySeven(p: nat, n: nat)
    requires n == 7
    ensures Shl(p, n) == 128 * p
  {
    ShlSeven(p, 0);
  }

  lemma PaddingTurn(bitpos: nat, s: Bytes)
    requires bitpos < 256 && s != [] && s[0] == 0x80
    ensures Varint32From(bitpos, 0, s) == Varint32From((bitpos + 7) % 256, 0, s[1..])
  {
    hide Shl;
    ShlZero(bitpos);
  }

  /** Padding from byte i on leads to byte 37, where the 8-bit position is 3 again. */
  lemma {:induction false} PaddingRead(i: nat, t: Bytes)
    requires 1 <= i <= 37
    ensures Varint32From(7 * i % 256, 0, seq(37 - i, _ => 0x80) + t) == Varint32From(3, 0, t)
    decreases 37 - i
  {
    hide Varint32From;
    var s: Bytes := seq(37 - i, _ => 0x80) + t;
    if i == 37 {
      assert s == t;
    } else {
      assert s[1..] == seq(37 - (i + 1), _ => 0x80) + t;
      PaddingTurn(7 * i % 256, s);
      PaddingRead(i + 1, t);
    }
  }

  /** Beyond that bound late bytes count again: 37 bytes of padding and a 1 are read as 8. */
  lemma Varint32ComesRound(s: Bytes)
    requires |s| == 38 && s[37] == 1 && forall j :: 0 <= j < 37 ==> s[j] == 0x80
    ensures EndsAt(s, 38) && Varint32(s) == Ok(8, [])
  {
    assert s[1..] == seq(36, _ => 0x80) + [1];
    PaddingRead(1, [1]);
    assert Join32(0, 1, 3) == 8;
  }

  // ----- types -----

  /** PB_LTYPE_* of pb.h. */
  function TypeCode(t: LType): (c: nat)
  {
    match t
    case LBool => 0x00
    case LVarint => 0x01
    case LUvarint => 0x02
    case LSvarint => 0x03
    case LFixed32 => 0x04
    case LFixed64 => 0x05
    case LBytes => 0x06
    case LString => 0x07
    case LSubmessage => 0x08
    case LFixedBytes => 0x0A
  }

  /** PB_LTYPE_LAST_PACKABLE */
  const LAST_PACKABLE := 0x05

  /** Packable types are the first six, and exactly those do not use wire type 2; fixed-width
      words announce their width, 1 for eight bytes and 5 for four. */
  lemma TypeTable(t: LType)
    ensures Packable(t) <==> TypeCode(t) <= LAST_PACKABLE
    ensures Packable(t) <==> WireType(t) != 2
    ensures WireType(t) == 1 <==> TypeCode(t) == 0x05
    ensures WireType(t) == 5 <==> TypeCode(t) == 0x04
    ensures WireType(t) == 0 <==> TypeCode(t) <= 0x03
  {
  }

  lemma {:induction false} SkipVarintExact(s: Bytes)
    ensures SkipVarint(s).Ok? <==> exists n: nat :: EndsAt(s, n)
    ensures forall n: nat :: EndsAt(s, n) ==> SkipVarint(s) == Ok((), s[n..])
    decreases s
  {
    if s != [] && s[0] >= 128 {
      var r := s[1..];
      SkipVarintExact(r);
      forall n: nat | EndsAt(s, n) ensures SkipVarint(s) == Ok((), s[n..]) {
        assert forall j :: 0 <= j < n - 1 ==> r[j] == s[j + 1];
        assert EndsAt(r, n - 1) && r[n - 1..] == s[n..];
      }
      forall k: nat | EndsAt(r, k) ensures EndsAt(s, k + 1) {
        assert forall j :: 1 <= j < k + 1 ==> s[j] == r[j - 1];
      }
    } else if s != [] {
      assert EndsAt(s, 1);
    }
  }

  /** How much a field of each wire type takes, by its number. */
  lemma SkipExact(wt: nat, s: Bytes)
    ensures wt == 0 ==> (Skip(wt, s).Ok? <==> exists n: nat :: EndsAt(s, n))
    ensures wt == 0 ==> forall n: nat :: EndsAt(s, n) ==> Skip(wt, s) == Ok((), s[n..])
    ensures wt == 1 ==> Skip(wt, s) == if |s| >= 8 then Ok((), s[8..]) else Err(true)
    ensures wt == 5 ==> Skip(wt, s) == if |s| >= 4 then Ok((), s[4..]) else Err(true)
    ensures wt == 2 && Varint32(s).Ok? ==>
              var n, r := Varint32(s).v, Varint32(s).rest;
              Skip(wt, s) == if |r| >= n then Ok((), r[n..]) else Err(true)
    ensures wt !in {0, 1, 2, 5} ==> Skip(wt, s) == Err(false)
  {
    SkipVarintExact(s);
  }

  // ----- what each scalar decoder accepts -----

  lemma HalfRange(size: nat)
    requires size == 1 || size == 2 || size == 4 || size == 8
    ensures IntSize(size) && Half(size) == Pow2(8 * size - 1) && 2 * Half(size) == Pow2(8 * size)
  {
    Pow2Values();
    if size == 2 {
      Pow2Add(8, 8);
    }
  }

  lemma Varint64Bound(s: Bytes)
    requires Varint64(s).Ok?
    ensures Varint64(s).v < U64
  {
    hide Positional;
    Varint64Exact(s);
  }

  lemma {:induction false} OrBelow(a: nat, b: nat, n: nat)
    requires a < Pow2(n) && b < Pow2(n)
    ensures Or(a, b) < Pow2(n)
    decreases n
  {
    if n > 0 {
      OrBelow(a / 2, b / 2, n - 1);
      OrStep(a, b);
    }
  }

  lemma Join32Below(acc: nat, b: Byte, bitpos: nat)
    requires acc < U32
    ensures Join32(acc, b, bitpos) < U32
  {
    hide Or, Shl, Pow2;
    Pow2Values();
    OrBelow(acc, Shl(b % 128, bitpos) % U32, 32);
  }

  lemma {:induction false} Varint32FromBound(bitpos: nat, acc: nat, s: Bytes)
    requires Varint32From(bitpos, acc, s).Ok? && acc < U32
    ensures Varint32From(bitpos, acc, s).v < U32
    decreases s
  {
    hide Join32;
    if bitpos >= 32 {
      if s[0] >= 128 {
        Varint32FromBound((bitpos + 7) % 256, acc, s[1..]);
      }
    } else {
      Join32Below(acc, s[0], bitpos);
      if s[0] >= 128 {
        Varint32FromBound(bitpos + 7, Join32(acc, s[0], bitpos), s[1..]);
      }
    }
  }

  lemma Varint32Bound(s: Bytes)
    requires Varint32(s).Ok?
    ensures Varint32(s).v < U32
  {
    hide Varint32From;
    if s[0] >= 128 {
      Varint32FromBound(7, s[0] % 128, s[1..]);
    }
  }

  /** Integers: the varint is read as a number of the field's signedness and accepted exactly
      if it is in the range of the field's size; it is never cut down to that size. */
  lemma UnsignedExact(f: Field, s: Bytes)
    requires f.ltype.LUvarint? && f.dataSize in {1, 2, 4, 8} && Varint64(s).Ok?
    ensures var v, r := Varint64(s).v, Varint64(s).rest;
            DecScalar(f, s) == if v < Pow2(8 * f.dataSize) then Ok(Num(v), r) else Err(false)
  {
    hide Varint64, Pow2, Half;
    HalfRange(f.dataSize);
  }

  lemma ZigZagExact(f: Field, s: Bytes)
    requires f.ltype.LSvarint? && f.dataSize in {1, 2, 4, 8} && Varint64(s).Ok?
    ensures var v, r: Bytes, half: int := Varint64(s).v, Varint64(s).rest, Pow2(8 * f.dataSize - 1);
            var n := if v % 2 == 0 then v / 2 else -1 - v / 2;
            DecScalar(f, s) == if -half <= n < half then Ok(Num(n), r) else Err(false)
  {
    hide Varint64, Pow2, Half;
    HalfRange(f.dataSize);
    Varint64Bound(s);
  }

  /** Signed integers take 64 bits in an eight-byte field and the low 32 in a smaller one. */
  lemma SignedExact(f: Field, s: Bytes)
    requires f.ltype.LVarint? && f.dataSize in {1, 2, 4, 8} && Varint64(s).Ok?
    ensures var r: Bytes, half: int := Varint64(s).rest, Pow2(8 * f.dataSize - 1);
            var word := if f.dataSize == 8 then U64 else U32;
            var low := Varint64(s).v % word;
            var n := if low < word / 2 then low else low - word;
            DecScalar(f, s) == if -half <= n < half then Ok(Num(n), r) else Err(false)
  {
    hide Varint64, Pow2, Half;
    HalfRange(f.dataSize);
    Varint64Bound(s);
    ModUnique(Varint64(s).v, U64, 0, Varint64(s).v);
  }

  /** Sizes the encoder refuses too are refused, and so is a varint that does not end. */
  lemma IntegerRefused(f: Field, s: Bytes)
    requires f.ltype.LVarint? || f.ltype.LUvarint? || f.ltype.LSvarint?
    requires Varint64(s).Err? || f.dataSize !in {1, 2, 4, 8}
    ensures DecScalar(f, s).Err?
  {
    hide Varint64;
  }

  /** A bool is true for every number but zero. */
  lemma BoolExact(f: Field, s: Bytes)
    requires f.ltype.LBool? && Varint32(s).Ok?
    ensures DecScalar(f, s) == Ok(Num(if Varint32(s).v == 0 then 0 else 1), Varint32(s).rest)
  {
    hide Varint32;
  }

  lemma {:induction false} LittleEndianPositional(b: Bytes)
    ensures LittleEndian(b) == Positional(b, 256)
    decreases |b|
  {
    if b != [] {
      LittleEndianPositional(b[1..]);
    }
  }

  /** Fixed-width words: four or eight bytes, lowest first. */
  lemma WordExact(f: Field, s: Bytes)
    requires f.ltype.LFixed32? || f.ltype.LFixed64?
    ensures var k := if f.ltype.LFixed32? then 4 else 8;
            DecScalar(f, s) == if |s| < k then Err(true) else Ok(Num(Positional(s[..k], 256)), s[k..])
  {
    hide LittleEndian, Positional;
    if |s| >= 4 {
      LittleEndianPositional(s[..4]);
    }
    if |s| >= 8 {
      LittleEndianPositional(s[..8]);
    }
  }

  /** Length-prefixed values: what fits. Bytes leave room for their length field, a string for
      its NUL; bytes of fixed length come in that length, or empty and become zeros. */
  lemma BlobExact(f: Field, s: Bytes)
    requires Varint32(s).Ok?
    ensures f.ltype.LBytes? ==> DecScalar(f, s) == BlobIf(Varint32(s).v + 4 <= f.dataSize, Varint32(s))
    ensures f.ltype.LString? ==> DecScalar(f, s) == BlobIf(Varint32(s).v < f.dataSize, Varint32(s))
    ensures f.ltype.LFixedBytes? && Varint32(s).v != 0 ==>
              DecScalar(f, s) == BlobIf(Varint32(s).v == f.dataSize, Varint32(s))
    ensures f.ltype.LFixedBytes? && Varint32(s).v == 0 ==>
              DecScalar(f, s) == Ok(Blob(seq(f.dataSize, _ => 0)), Varint32(s).rest)
  {
    hide Varint32;
    var n := Varint32(s).v;
    Varint32Bound(s);
    if n < U32 - 1 {
      ModUnique(n + 1, U32, 0, n + 1);
    } else {
      ModUnique(n + 1, U32, 1, 0);
    }
    assert Zeros(f.dataSize) == seq(f.dataSize, _ => 0);
  }

  /** The bytes a length prefix announces, if they fit and if they are there. */
  function BlobIf(fits: bool, prefix: Dec<nat>): (d: Dec<Item>)
    requires prefix.Ok?
  {
    if !fits then Err(false)
    else if |prefix.rest| < prefix.v then Err(true)
    else Ok(Blob(prefix.rest[..prefix.v]), prefix.rest[prefix.v..])
  }

  // ----- what a singular field leaves out -----

  ghost predicate AllZero(w: Bytes)
  {
    forall i :: 0 <= i < |w| ==> w[i] == 0
  }

  lemma ZeroVarint(v: nat)
    ensures AllZero(EncVarint(v)) <==> v == 0
  {
    assert EncVarint(v)[0] == if v < 128 then v else v % 128 + 128;
  }

  lemma {:induction false} ZeroFixed(v: nat, k: nat)
    requires v < Pow2(8 * k)
    ensures AllZero(EncFixed(v, k)) <==> v == 0
    decreases k
  {
    hide Pow2;
    Pow2Values();
    if k > 0 {
      Pow2Add(8, 8 * (k - 1));
      ZeroFixed(v / 256, k - 1);
      var w := EncFixed(v, k);
      assert w[0] == v % 256 && w[1..] == EncFixed(v / 256, k - 1);
      assert forall i :: 1 <= i < k ==> w[i] == w[1..][i - 1];
      assert AllZero(w) <==> w[0] == 0 && AllZero(w[1..]);
    }
  }

  lemma ZeroBlob(b: Bytes)
    requires |b| < U64
    ensures AllZero(EncBlob(b)) <==> b == []
  {
    hide EncVarint;
    ModUnique(|b|, U64, 0, |b|);
    ZeroVarint(|b|);
    var p := EncVarint(|b|);
    assert EncBlob(b)[..|p|] == p;
    if AllZero(EncBlob(b)) {
      assert forall i :: 0 <= i < |p| ==> p[i] == EncBlob(b)[i];
    }
    if b == [] {
      assert EncBlob(b) == p;
    }
  }

  lemma ZeroString(f: Field, b: Bytes)
    requires StrLen(b, f.dataSize) < f.dataSize
    ensures StrLen(b, f.dataSize) == 0 <==> b == [] || b[0] == 0
  {
  }

  /** The proto3 zero check: a value passes it exactly if its payload would be nothing but
      zero bytes. */
  lemma ZeroItemExact(f: Field, x: Item, w: Bytes)
    requires FieldOk(f) && ItemOk(f, x) && EncItem(f, x) == Some(w) && |w| < U64
    ensures IsZeroItem(f, x) <==> AllZero(w)
  {
    hide EncVarint, EncFixed, EncBlob, Pow2, AllZero;
    Pow2Values();
    match f.ltype
    case LBool => ZeroVarint(x.n);
    case LVarint => ZeroVarint(x.n % U64); ZeroMod(x.n);
    case LUvarint => ZeroVarint(x.n % U64); ZeroMod(x.n);
    case LSvarint => ZeroVarint(ZigZag(x.n)); ZigZagFormat(x.n);
    case LFixed32 => ZeroFixed(x.n % U32, 4);
    case LFixed64 => ZeroFixed(x.n % U64, 8);
    case LBytes => ZeroBlob(x.b);
    case LString => ZeroString(f, x.b); ZeroBlob(x.b[..StrLen(x.b, f.dataSize)]);
    case LFixedBytes => ZeroBlob(x.b);
    case LSubmessage => ZeroSubExact(f, x, w);
  }

  lemma ZeroMod(n: int)
    requires -U64 < n < U64
    ensures n % U64 == 0 <==> n == 0
  {
    if n < 0 {
      ModUnique(n, U64, -1, n + U64);
    } else {
      ModUnique(n, U64, 0, n);
    }
  }

  lemma ZeroSubExact(f: Field, x: Item, w: Bytes)
    requires f.ltype.LSubmessage? && FieldOk(f) && ItemOk(f, x) && EncItem(f, x) == Some(w) && |w| < U64
    ensures IsZeroItem(f, x) <==> AllZero(w)
  {
    var body := EncMsg(f.sub, x.m).value;
    ZeroBlob(body);
    ZeroMsgExact(f.sub, x.m, body);
  }

  /** A message passes the zero check exactly if nothing at all is written for it. */
  lemma ZeroMsgExact(fields: seq<Field>, m: Message, w: Bytes)
    requires DescriptorOk(fields) && MsgOk(fields, m) && EncMsg(fields, m) == Some(w)
    ensures IsZeroMsg(fields, m) <==> w == []
  {
    hide IsZeroVal, EncVal;
    EmptyFrom(fields, m, 0, w);
    if w == [] {
      forall i | 0 <= i < |fields| ensures IsZeroVal(fields, m, i) {
        EmptyIsZero(fields, m, i);
      }
    }
    if IsZeroMsg(fields, m) {
      forall i | 0 <= i < |fields| ensures EncVal(fields[i], m[i]) == Some([]) {
        assert IsZeroVal(fields, m, i);
        ZeroIsEmpty(fields, m, i);
      }
    }
  }

  lemma {:induction false} EmptyFrom(fields: seq<Field>, m: Message, k: nat, w: Bytes)
    requires |m| == |fields| && k <= |fields| && EncFrom(fields, m, k) == Some(w)
    ensures w == [] <==> forall i :: k <= i < |fields| ==> EncVal(fields[i], m[i]) == Some([])
    decreases |fields| - k
  {
    hide EncVal;
    if k < |fields| {
      EmptyFrom(fields, m, k + 1, EncFrom(fields, m, k + 1).value);
    }
  }

  lemma ZeroIsEmpty(fields: seq<Field>, m: Message, i: nat)
    requires MsgOk(fields, m) && i < |fields| && IsZeroVal(fields, m, i)
    ensures EncVal(fields[i], m[i]) == Some([])
  {
    assert ValOk(fields[i], m[i]);
  }

  lemma TaggedNonempty(f: Field, x: Item)
    ensures EncTagged(f, x) != Some([])
  {
  }

  lemma ArrayNonempty(f: Field, xs: seq<Item>)
    requires xs != []
    ensures EncArray(f, xs) != Some([])
  {
    TaggedNonempty(f, xs[0]);
  }

  lemma EmptyIsZero(fields: seq<Field>, m: Message, i: nat)
    requires DescriptorOk(fields) && MsgOk(fields, m) && i < |fields|
    requires forall j :: 0 <= j < |fields| ==> EncVal(fields[j], m[j]) == Some([])
    ensures IsZeroVal(fields, m, i)
  {
    hide EncTagged, EncArray, IsZeroItem;
    var f := fields[i];
    assert ValOk(f, m[i]) && FieldOk(f) && EncVal(f, m[i]) == Some([]);
    match f.htype
    case HRequired => TaggedNonempty(f, ItemOf(f, m[i]));
    case HOptional => TaggedNonempty(f, ItemOf(f, m[i]));
    case HRepeated =>
      if ItemsOf(m[i]) != [] {
        ArrayNonempty(f, ItemsOf(m[i]));
      }
    case HOneof =>
      forall j | 0 <= j < |fields| && Slot(fields, j) == Slot(fields, i) ensures m[j] == Alt(None) {
        UnusedMember(fields, m, i, j);
      }
  }

  lemma UnusedMember(fields: seq<Field>, m: Message, i: nat, j: nat)
    requires MsgOk(fields, m) && i < |fields| && j < |fields| && Slot(fields, j) == Slot(fields, i)
    requires fields[i].htype.HOneof? && EncVal(fields[j], m[j]) == Some([])
    ensures m[j] == Alt(None)
  {
    hide EncTagged;
    SlotOneof(fields, i);
    SlotOneof(fields, j);
    assert ValOk(fields[j], m[j]);
    if Selected(m[j]) {
      TaggedNonempty(fields[j], m[j].o.value);
    }
  }
}
