/** Input streams over a buffer, and the primitive reads of pb_decode.c on them. Success
    keeps position plus bytes_left at the stream's end. */
module Input {
  import opened Bits
  import opened Wire

  class IStream {
    const data: Bytes
    var pos: nat
    var bytesLeft: nat

    ghost predicate Valid()
      reads this
    {
      pos + bytesLeft <= |data|
    }

    ghost function Remaining(): (r: Bytes)
      requires Valid()
      reads this
    {
      data[pos..pos + bytesLeft]
    }

    ghost function End(): (e: nat)
      reads this
    {
      pos + bytesLeft
    }

    constructor (data: Bytes, pos: nat, bytesLeft: nat)
      requires pos + bytesLeft <= |data|
      ensures Valid() && this.data == data && this.pos == pos && this.bytesLeft == bytesLeft
    {
      this.data := data;
      this.pos := pos;
      this.bytesLeft := bytesLeft;
    }

    /** pb_read on a buffer stream. */
    method Read(count: nat) returns (ok: bool, b: Bytes)
      requires Valid()
      modifies this
      ensures Valid() && ok == Take(count, old(Remaining())).Ok?
      ensures ok ==> b == Take(count, old(Remaining())).v
      ensures ok ==> Remaining() == Take(count, old(Remaining())).rest && End() == old(End())
      ensures !ok ==> pos == old(pos) && bytesLeft == old(bytesLeft)
    {
      b := [];
      if count == 0 {
        assert Remaining()[..0] == [] && Remaining()[0..] == Remaining();
        return true, [];
      }
      if bytesLeft < count {
        return false, [];
      }
      var source := pos;
      var i := 0;
      while i < count
        invariant 0 <= i <= count && b == data[source..source + i]
        invariant pos == old(pos) && bytesLeft == old(bytesLeft)
      {
        b := b + [data[source + i]];
        i := i + 1;
      }
      pos := pos + count;
      bytesLeft := bytesLeft - count;
      ok := true;
    }

    /** pb_readbyte. */
    method ReadByte() returns (ok: bool, b: Byte)
      requires Valid()
      modifies this
      ensures Valid() && ok == (old(Remaining()) != [])
      ensures ok ==> b == old(Remaining())[0] && Remaining() == old(Remaining())[1..] && End() == old(End())
      ensures ok ==> bytesLeft < old(bytesLeft)
      ensures !ok ==> pos == old(pos) && bytesLeft == old(bytesLeft)
    {
      if bytesLeft == 0 {
        return false, 0;
      }
      b := data[pos];
      pos := pos + 1;
      bytesLeft := bytesLeft - 1;
      return true, b;
    }
  }

  /** result |= (uint64_t)(byte & 0x7F) << bitpos */
  method Accumulate64(acc: nat, b: Byte, bitpos: nat) returns (r: nat)
    requires bitpos <= 63 && bitpos % 7 == 0 && acc < Pow2(bitpos)
    ensures r == acc + Shl(if bitpos == 63 then b % 2 else b % 128, bitpos)
    ensures bitpos < 63 ==> r < Pow2(bitpos + 7)
  {
    hide Pow2, Shl, Or;
    r := Or(acc, Shl(b % 128, bitpos) % U64);
    Varint64Or(acc, b, bitpos, Shl(b % 128, bitpos) % U64);
    if bitpos < 63 {
      ShlSmall(b % 128, bitpos);
    }
  }

  datatype Progress = Failed | More | Done

  /** The accumulator of pb_decode_varint lies below the position reached. */
  ghost predicate Fits64(bitpos: nat, acc: nat)
  {
    bitpos % 7 == 0 && bitpos <= 70 && (bitpos <= 63 ==> acc < Pow2(bitpos))
  }

  /** A turn of the loop of pb_decode_varint. */
  method WideByte(s: IStream, bitpos: nat, acc: nat) returns (turn: Progress, v: nat)
    requires s.Valid() && Fits64(bitpos, acc) && bitpos < 64
    modifies s
    ensures s.Valid() && (!turn.Failed? ==> s.End() == old(s.End()) && s.bytesLeft < old(s.bytesLeft))
    ensures turn.Failed? ==> Varint64From(bitpos, acc, old(s.Remaining())).Err?
    ensures turn.Done? ==> Varint64From(bitpos, acc, old(s.Remaining())) == Ok(v, s.Remaining())
    ensures turn.More? ==> Varint64From(bitpos, acc, old(s.Remaining())) == Varint64From(bitpos + 7, v, s.Remaining())
    ensures turn.More? ==> Fits64(bitpos + 7, v)
  {
    hide Pow2, Shl;
    var more, b := s.ReadByte();
    if !more {
      return Failed, 0;
    }
    v := Accumulate64(acc, b, bitpos);
    return if b >= 128 then More else Done, v;
  }

  /** pb_decode_varint. */
  method DecodeVarint64(s: IStream) returns (ok: bool, v: nat)
    requires s.Valid()
    modifies s
    ensures s.Valid() && ok == Varint64(old(s.Remaining())).Ok?
    ensures ok ==> v == Varint64(old(s.Remaining())).v
    ensures ok ==> s.Remaining() == Varint64(old(s.Remaining())).rest && s.End() == old(s.End())
  {
    ok, v := Varint64Loop(s, 0, 0);
  }

  /** Its loop, which starts at position 0 with nothing read. */
  method Varint64Loop(s: IStream, start: nat, first: nat) returns (ok: bool, v: nat)
    requires s.Valid() && Fits64(start, first)
    modifies s
    ensures s.Valid() && ok == Varint64From(start, first, old(s.Remaining())).Ok?
    ensures ok ==> v == Varint64From(start, first, old(s.Remaining())).v
    ensures ok ==> s.Remaining() == Varint64From(start, first, old(s.Remaining())).rest && s.End() == old(s.End())
  {
    hide Pow2, Shl;
    ghost var whole := s.Remaining();
    var bitpos := start;
    v := first;
    while true
      invariant s.Valid() && s.End() == old(s.End()) && Fits64(bitpos, v)
      invariant Varint64From(bitpos, v, s.Remaining()) == Varint64From(start, first, whole)
      decreases s.bytesLeft
    {
      if bitpos >= 64 {
        return false, 0;
      }
      var turn;
      turn, v := WideByte(s, bitpos, v);
      if turn.Failed? {
        return false, 0;
      }
      if turn.Done? {
        return true, v;
      }
      bitpos := bitpos + 7;
    }
  }

  /** pb_decode_varint32. */
  method DecodeVarint32(s: IStream) returns (ok: bool, v: nat)
    requires s.Valid()
    modifies s
    ensures s.Valid() && ok == Varint32(old(s.Remaining())).Ok?
    ensures ok ==> v == Varint32(old(s.Remaining())).v
    ensures ok ==> s.Remaining() == Varint32(old(s.Remaining())).rest && s.End() == old(s.End())
  {
    var more, b := s.ReadByte();
    if !more {
      return false, 0;
    }
    if b < 128 {
      return true, b;
    }
    ok, v := Varint32Tail(s, 7, b % 128);
  }

  /** A turn of the multibyte loop of pb_decode_varint32_eof below bit 32. */
  method LowByte(s: IStream, bitpos: nat, acc: nat) returns (turn: Progress, v: nat)
    requires s.Valid() && bitpos < 32
    modifies s
    ensures s.Valid() && (!turn.Failed? ==> s.End() == old(s.End()) && s.bytesLeft < old(s.bytesLeft))
    ensures turn.Failed? ==> Varint32From(bitpos, acc, old(s.Remaining())).Err?
    ensures turn.Done? ==> Varint32From(bitpos, acc, old(s.Remaining())) == Ok(v, s.Remaining())
    ensures turn.More? ==> Varint32From(bitpos, acc, old(s.Remaining())) == Varint32From(bitpos + 7, v, s.Remaining())
  {
    var more, b := s.ReadByte();
    if !more {
      return Failed, 0;
    }
    v := Or(acc, Shl(b % 128, bitpos) % U32);
    if b >= 128 {
      return More, v;
    }
    if bitpos + 7 == 35 && b >= 16 {  // byte & 0x70
      return Failed, 0;
    }
    return Done, v;
  }

  /** A turn past bit 32. */
  method HighByte(s: IStream, bitpos: nat, acc: nat) returns (turn: Progress)
    requires s.Valid() && bitpos >= 32
    modifies s
    ensures s.Valid() && (!turn.Failed? ==> s.End() == old(s.End()) && s.bytesLeft < old(s.bytesLeft))
    ensures turn.Failed? ==> Varint32From(bitpos, acc, old(s.Remaining())).Err?
    ensures turn.Done? ==> Varint32From(bitpos, acc, old(s.Remaining())) == Ok(acc, s.Remaining())
    ensures turn.More? ==>
              Varint32From(bitpos, acc, old(s.Remaining())) == Varint32From((bitpos + 7) % 256, acc, s.Remaining())
  {
    hide BadTail, Join32;
    var more, b := s.ReadByte();
    if !more || BadTail(bitpos, acc, b) {
      return Failed;
    }
    return if b >= 128 then More else Done;
  }

  /** One turn of the loop. */
  method NextByte(s: IStream, bitpos: nat, acc: nat) returns (turn: Progress, next: nat, v: nat)
    requires s.Valid()
    modifies s
    ensures s.Valid() && (!turn.Failed? ==> s.End() == old(s.End()) && s.bytesLeft < old(s.bytesLeft))
    ensures turn.Failed? ==> Varint32From(bitpos, acc, old(s.Remaining())).Err?
    ensures turn.Done? ==> Varint32From(bitpos, acc, old(s.Remaining())) == Ok(v, s.Remaining())
    ensures turn.More? ==> Varint32From(bitpos, acc, old(s.Remaining())) == Varint32From(next, v, s.Remaining())
  {
    hide Varint32From;
    if bitpos >= 32 {
      turn := HighByte(s, bitpos, acc);
      v := acc;
    } else {
      turn, v := LowByte(s, bitpos, acc);
    }
    next := (bitpos + 7) % 256;
  }

  /** The multibyte case of pb_decode_varint32_eof, which starts at position 7. */
  method Varint32Tail(s: IStream, start: nat, first: nat) returns (ok: bool, v: nat)
    requires s.Valid()
    modifies s
    ensures s.Valid() && ok == Varint32From(start, first, old(s.Remaining())).Ok?
    ensures ok ==> v == Varint32From(start, first, old(s.Remaining())).v
    ensures ok ==> s.Remaining() == Varint32From(start, first, old(s.Remaining())).rest && s.End() == old(s.End())
  {
    hide Varint32From;
    ghost var whole := s.Remaining();
    var bitpos := start;
    v := first;
    while true
      invariant s.Valid() && s.End() == old(s.End())
      invariant Varint32From(bitpos, v, s.Remaining()) == Varint32From(start, first, whole)
      decreases s.bytesLeft
    {
      var turn;
      turn, bitpos, v := NextByte(s, bitpos, v);
      if turn.Failed? {
        return false, 0;
      }
      if turn.Done? {
        return true, v;
      }
    }
  }

  /** pb_skip_varint. */
  method SkipVarintBytes(s: IStream) returns (ok: bool)
    requires s.Valid()
    modifies s
    ensures s.Valid() && ok == SkipVarint(old(s.Remaining())).Ok?
    ensures ok ==> s.Remaining() == SkipVarint(old(s.Remaining())).rest && s.End() == old(s.End())
  {
    ghost var whole := s.Remaining();
    while true
      invariant s.Valid() && s.End() == old(s.End()) && SkipVarint(s.Remaining()) == SkipVarint(whole)
      decreases s.bytesLeft
    {
      var more, b := s.ReadByte();
      if !more {
        return false;
      }
      if b < 128 {
        return true;
      }
    }
  }

  /** pb_skip_field. */
  method SkipField(s: IStream, wt: nat) returns (ok: bool)
    requires s.Valid()
    modifies s
    ensures s.Valid() && ok == Skip(wt, old(s.Remaining())).Ok?
    ensures ok ==> s.Remaining() == Skip(wt, old(s.Remaining())).rest && s.End() == old(s.End())
  {
    if wt == WT_VARINT {
      ok := SkipVarintBytes(s);
    } else if wt == WT_64BIT {
      var skipped;
      ok, skipped := s.Read(8);
    } else if wt == WT_STRING {
      var n;
      ok, n := DecodeVarint32(s);
      if ok {
        var skipped;
        ok, skipped := s.Read(n);
      }
    } else if wt == WT_32BIT {
      var skipped;
      ok, skipped := s.Read(4);
    } else {
      ok := false;
    }
  }

  /** pb_make_string_substream: the substream holds exactly the announced block, and the
      parent keeps only what lies behind it. */
  method MakeSubstream(s: IStream) returns (ok: bool, sub: IStream)
    requires s.Valid()
    modifies s
    ensures s.Valid() && ok == Delimited(old(s.Remaining())).Ok?
    ensures ok ==> fresh(sub) && sub.Valid() && sub.data == s.data && sub.End() + s.bytesLeft == old(s.End())
    ensures ok ==> sub.Remaining() == Delimited(old(s.Remaining())).v && sub.bytesLeft < old(s.bytesLeft)
    ensures ok ==> s.bytesLeft == |Delimited(old(s.Remaining())).rest|
    ensures ok ==> Delimited(old(s.Remaining())).rest == s.data[sub.End()..old(s.End())]
  {
    var size;
    ok, size := DecodeVarint32(s);
    sub := s;
    if !ok {
      return;
    }
    if s.bytesLeft < size {
      return false, s;
    }
    sub := new IStream(s.data, s.pos, size);
    s.bytesLeft := s.bytesLeft - size;
  }

  /** pb_close_string_substream: whatever the reader left of the block is skipped. */
  method CloseSubstream(s: IStream, sub: IStream) returns (ok: bool)
    requires s != sub && sub.Valid() && sub.data == s.data && sub.End() + s.bytesLeft <= |s.data|
    modifies s, sub
    ensures ok && s.Valid() && s.pos == old(sub.End()) && s.bytesLeft == old(s.bytesLeft)
  {
    if sub.bytesLeft > 0 {
      var skipped;
      ok, skipped := sub.Read(sub.bytesLeft);
      if !ok {
        return;
      }
    }
    s.pos := sub.pos;
    return true;
  }
}
