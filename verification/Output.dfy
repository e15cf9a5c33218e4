/** Output streams: a buffer being filled in place, or a sizing stream that only counts. */
module Output {
  import opened Bits
  import opened Wire
  import opened Schema

  /** What an output stream shows: the whole buffer, the write position and the count. */
  datatype Snap = Snap(img: Bytes, pos: nat, written: nat)

  function Splice(img: Bytes, p: nat, w: Bytes): (r: Bytes)
  {
    if p + |w| <= |img| then img[..p] + w + img[p + |w|..] else img
  }

  /** The stream after w has gone out; a sizing stream counts modulo 2^64. */
  function Advanced(sizing: bool, a: Snap, w: Bytes): (b: Snap)
  {
    if sizing then a.(written := (a.written + |w|) % U64)
    else Snap(Splice(a.img, a.pos, w), a.pos + |w|, a.written + |w|)
  }

  /** Going from a to b changed nothing before the position nor past the room left. */
  ghost predicate Kept(a: Snap, b: Snap, room: nat)
  {
    && |a.img| == |b.img| && a.pos <= b.pos <= a.pos + room <= |a.img|
    && a.img[..a.pos] == b.img[..a.pos] && a.img[a.pos + room..] == b.img[a.pos + room..]
    && b.written - a.written == b.pos - a.pos
  }

  ghost predicate SnapOk(sizing: bool, a: Snap, max: nat)
  {
    if sizing then a.written < U64 else a.written <= max && a.pos + (max - a.written) <= |a.img|
  }

  /** Success is exactly: there is something to write and room for it. Then precisely it
      was written; otherwise the damage is confined to the room there was. */
  ghost predicate Outcome(sizing: bool, a: Snap, b: Snap, max: nat, r: Option<Bytes>, ok: bool)
  {
    && (ok <==> r.Some? && (sizing || a.written + |r.value| <= max))
    && (ok ==> b == Advanced(sizing, a, r.value))
    && (!ok && !sizing ==> a.written <= max && Kept(a, b, max - a.written))
    && (!ok && sizing ==> b.img == a.img && b.pos == a.pos)
  }

  function Cat(a: Option<Bytes>, b: Option<Bytes>): (r: Option<Bytes>)
  {
    if a.Some? && b.Some? then Some(a.value + b.value) else None
  }

  lemma CatAssoc(a: Option<Bytes>, b: Option<Bytes>, c: Option<Bytes>)
    ensures Cat(Cat(a, b), c) == Cat(a, Cat(b, c))
  {
    if a.Some? && b.Some? && c.Some? {
      assert a.value + b.value + c.value == a.value + (b.value + c.value);
    }
  }

  lemma CatEmpty(a: Option<Bytes>)
    ensures Cat(a, Some([])) == a && Cat(Some([]), a) == a
  {
    if a.Some? {
      assert a.value + [] == a.value && [] + a.value == a.value;
    }
  }

  lemma SpliceTwice(img: Bytes, p: nat, v: Bytes, w: Bytes)
    requires p + |v| + |w| <= |img|
    ensures Splice(Splice(img, p, v), p + |v|, w) == Splice(img, p, v + w)
  {
    var once := Splice(img, p, v);
    assert once[..p + |v|] == img[..p] + v;
    assert once[p + |v| + |w|..] == img[p + |v| + |w|..];
  }

  lemma WrapTwice(a: nat, v: nat, w: nat)
    ensures ((a + v) % U64 + w) % U64 == (a + (v + w)) % U64
  {
    var q, r := (a + v) / U64, (a + v) % U64;
    ModUnique(a + (v + w), U64, q + (r + w) / U64, (r + w) % U64);
  }

  lemma AdvancedTwice(sizing: bool, a: Snap, v: Bytes, w: Bytes)
    requires sizing || a.pos + |v| + |w| <= |a.img|
    ensures Advanced(sizing, Advanced(sizing, a, v), w) == Advanced(sizing, a, v + w)
  {
    if sizing {
      WrapTwice(a.written, |v|, |w|);
    } else {
      SpliceTwice(a.img, a.pos, v, w);
    }
  }

  lemma AdvancedKept(a: Snap, v: Bytes, max: nat)
    requires SnapOk(false, a, max) && a.written + |v| <= max
    ensures Kept(a, Advanced(false, a, v), max - a.written)
  {
    var b := Advanced(false, a, v);
    assert b.img[..a.pos] == a.img[..a.pos];
    var limit := a.pos + (max - a.written);
    assert b.img[limit..] == a.img[limit..];
  }

  lemma KeptTwice(a: Snap, b: Snap, c: Snap, room: nat, left: nat)
    requires Kept(a, b, room) && Kept(b, c, left) && b.pos + left == a.pos + room
    ensures Kept(a, c, room)
  {
    assert c.img[..a.pos] == c.img[..b.pos][..a.pos];
    assert b.img[..a.pos] == b.img[..b.pos][..a.pos];
  }

  /** Two writes in a row, the second attempted only after the first succeeded. */
  lemma Both(sizing: bool, a: Snap, b: Snap, c: Snap, max: nat, r1: Option<Bytes>, r2: Option<Bytes>, ok: bool)
    requires SnapOk(sizing, a, max) && SnapOk(sizing, b, max)
    requires Outcome(sizing, a, b, max, r1, true) && Outcome(sizing, b, c, max, r2, ok)
    ensures Outcome(sizing, a, c, max, Cat(r1, r2), ok)
  {
    if ok {
      AdvancedTwice(sizing, a, r1.value, r2.value);
    } else if !sizing {
      AdvancedKept(a, r1.value, max);
      KeptTwice(a, b, c, max - a.written, max - b.written);
    }
  }

  /** A failed first write decides the pair. */
  lemma FirstFails(sizing: bool, a: Snap, b: Snap, max: nat, r1: Option<Bytes>, r2: Option<Bytes>)
    requires Outcome(sizing, a, b, max, r1, false)
    ensures Outcome(sizing, a, b, max, Cat(r1, r2), false)
  {
  }

  /** A loop that has written done and now writes wx, with rest still to come. */
  lemma OneMore(sizing: bool, a: Snap, b: Snap, c: Snap, max: nat, done: Bytes, wx: Option<Bytes>,
      rest: Option<Bytes>, ok: bool)
    requires SnapOk(sizing, a, max) && SnapOk(sizing, b, max)
    requires Outcome(sizing, a, b, max, Some(done), true) && Outcome(sizing, b, c, max, wx, ok)
    ensures ok ==> Outcome(sizing, a, c, max, Some(done + wx.value), true)
    ensures ok ==> Cat(Some(done), Cat(wx, rest)) == Cat(Some(done + wx.value), rest)
    ensures !ok ==> Outcome(sizing, a, c, max, Cat(Some(done), Cat(wx, rest)), false)
  {
    Both(sizing, a, b, c, max, Some(done), wx, ok);
    CatAssoc(Some(done), wx, rest);
    if !ok {
      FirstFails(sizing, a, c, max, Cat(Some(done), wx), rest);
    }
  }

  lemma Refused(sizing: bool, a: Snap, max: nat)
    requires SnapOk(sizing, a, max)
    ensures Outcome(sizing, a, a, max, None, false)
  {
  }

  lemma KeptWider(a: Snap, b: Snap, room: nat, wider: nat)
    requires Kept(a, b, room) && room <= wider && a.pos + wider <= |a.img|
    ensures Kept(a, b, wider)
  {
    assert a.img[a.pos + wider..] == a.img[a.pos + room..][wider - room..];
    assert b.img[a.pos + wider..] == b.img[a.pos + room..][wider - room..];
  }

  lemma Nothing(sizing: bool, a: Snap, max: nat)
    requires SnapOk(sizing, a, max)
    ensures Outcome(sizing, a, a, max, Some([]), true)
  {
    if !sizing {
      assert a.img[..a.pos] + [] + a.img[a.pos..] == a.img;
    }
  }

  class OStream {
    const sizing: bool
    const buf: array<Byte>
    const maxSize: nat
    var pos: nat
    var bytesWritten: nat

    ghost predicate Valid()
      reads this, buf
    {
      maxSize < U64 && SnapOk(sizing, View(), maxSize)
    }

    ghost function View(): (v: Snap)
      reads this, buf
    {
      Snap(buf[..], pos, bytesWritten)
    }

    /** pb_ostream_from_buffer, or the substream of pb_encode_submessage. */
    constructor On(buf: array<Byte>, pos: nat, maxSize: nat)
      requires pos + maxSize <= buf.Length && maxSize < U64
      ensures Valid() && !sizing && this.buf == buf && this.maxSize == maxSize
      ensures View() == Snap(buf[..], pos, 0)
    {
      sizing := false;
      this.buf := buf;
      this.maxSize := maxSize;
      this.pos := pos;
      bytesWritten := 0;
    }

    /** PB_OSTREAM_SIZING. */
    constructor Sizing()
      ensures Valid() && sizing && fresh(buf) && bytesWritten == 0
    {
      sizing := true;
      buf := new Byte[0];
      maxSize := 0;
      pos := 0;
      bytesWritten := 0;
    }

    /** buf_write. */
    method Copy(data: Bytes)
      requires !sizing && pos + |data| <= buf.Length
      modifies this`pos, buf
      ensures pos == old(pos) + |data|
      ensures buf[..] == Splice(old(buf[..]), old(pos), data)
    {
      var dest := pos;
      pos := pos + |data|;
      var i := 0;
      while i < |data|
        invariant 0 <= i <= |data| && pos == dest + |data|
        invariant forall k :: 0 <= k < buf.Length ==>
                    buf[k] == if dest <= k < dest + i then data[k - dest] else old(buf[k])
      {
        buf[dest + i] := data[i];
        i := i + 1;
      }
      ghost var want := Splice(old(buf[..]), dest, data);
      assert forall k :: 0 <= k < buf.Length ==> buf[k] == want[k];
    }

    /** pb_write. */
    method Write(data: Bytes) returns (ok: bool)
      requires Valid()
      modifies this, buf
      ensures Valid()
      ensures Outcome(sizing, old(View()), View(), maxSize, Some(data), ok)
    {
      if |data| > 0 && !sizing {
        if bytesWritten + |data| > maxSize {
          return false;
        }
        Copy(data);
      }
      if sizing {
        bytesWritten := (bytesWritten + |data|) % U64;
      } else {
        if data == [] {
          Nothing(sizing, View(), maxSize);
        }
        bytesWritten := bytesWritten + |data|;
      }
      return true;
    }

    /** pb_write with no data, as the sizing stream uses it. */
    method Count(n: nat, ghost data: Bytes)
      requires Valid() && sizing && n == |data| % U64
      modifies this
      ensures Valid()
      ensures Outcome(sizing, old(View()), View(), maxSize, Some(data), true)
    {
      bytesWritten := (bytesWritten + n) % U64;
      WrapTwice(0, |data|, old(bytesWritten));
    }
  }
}
