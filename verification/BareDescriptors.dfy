/** Stored defaults of singular fields play no part in encoding. So a receiver whose
    descriptor has none reads every message in canonical form, and the wire image of a
    message determines its canonical form whatever the defaults. */
module BareDescriptors {
  import opened Bits
  import opened Wire
  import opened Schema
  import opened Encoding
  import opened Decoding
  import opened Merging
  import opened Defaults
  import opened RoundTrip
  import Reencoding

  /** The descriptor without the stored defaults of its singular fields, at every depth. */
  function BareField(f: Field): (g: Field)
    decreases f
  {
    f.(deflt := if Singular(f) then None else f.deflt, sub := Bare(f.sub))
  }

  function Bare(fields: seq<Field>): (r: seq<Field>)
    ensures |r| == |fields|
    decreases fields
  {
    if fields == [] then [] else [BareField(fields[0])] + Bare(fields[1..])
  }

  lemma {:induction false} BareAt(fields: seq<Field>, i: nat)
    requires i < |fields|
    ensures Bare(fields)[i] == BareField(fields[i])
    decreases fields
  {
    if i > 0 {
      BareAt(fields[1..], i - 1);
    }
  }

  lemma {:induction false} BareSlot(fields: seq<Field>, i: nat)
    requires i < |fields|
    ensures Slot(Bare(fields), i) == Slot(fields, i)
    decreases i
  {
    BareAt(fields, i);
    if i > 0 {
      BareAt(fields, i - 1);
      BareSlot(fields, i - 1);
    }
  }

  lemma BareDescriptor(fields: seq<Field>)
    requires DescriptorOk(fields)
    ensures DescriptorOk(Bare(fields)) && ZeroDefaults(Bare(fields))
    decreases fields
  {
    var r := Bare(fields);
    forall i | 0 <= i < |fields|
      ensures FieldOk(r[i]) && (Singular(r[i]) ==> r[i].deflt.None?) && ZeroDefaults(r[i].sub)
      ensures r[i].tag == fields[i].tag
    {
      BareAt(fields, i);
      assert FieldOk(fields[i]);
      BareDescriptor(fields[i].sub);
    }
  }

  // ----- types -----

  lemma BareItemOk(f: Field, x: Item)
    requires ItemOk(f, x)
    ensures ItemOk(BareField(f), x)
    decreases f, 0
  {
    if f.ltype.LSubmessage? {
      BareMsgOk(f.sub, x.m);
    }
  }

  lemma BareValOk(f: Field, v: Val)
    requires ValOk(f, v)
    ensures ValOk(BareField(f), v)
    decreases f, 1
  {
    if f.htype.HRepeated? {
      forall i | 0 <= i < |v.items| ensures ItemOk(BareField(f), v.items[i]) {
        BareItemOk(f, v.items[i]);
      }
    } else if !f.htype.HOneof? || v.o.Some? {
      BareItemOk(f, ItemOf(f, v));
    }
  }

  lemma BareMsgOk(fields: seq<Field>, m: Message)
    requires MsgOk(fields, m)
    ensures MsgOk(Bare(fields), m)
    decreases fields, 2
  {
    forall i | 0 <= i < |fields| ensures ValOk(Bare(fields)[i], m[i]) && Slot(Bare(fields), i) == Slot(fields, i) {
      BareAt(fields, i);
      BareValOk(fields[i], m[i]);
      BareSlot(fields, i);
    }
  }

  // ----- the zero check -----

  lemma BareZeroItem(f: Field, x: Item)
    requires ItemOk(f, x)
    ensures IsZeroItem(BareField(f), x) == IsZeroItem(f, x)
    decreases f, 0
  {
    if f.ltype.LSubmessage? {
      BareZeroMsg(f.sub, x.m);
    }
  }

  lemma BareZeroVal(fields: seq<Field>, m: Message, i: nat)
    requires MsgOk(fields, m) && i < |fields|
    ensures IsZeroVal(Bare(fields), m, i) == IsZeroVal(fields, m, i)
    decreases fields, 1
  {
    assert ValOk(fields[i], m[i]);
    BareAt(fields, i);
    forall j | 0 <= j < |fields| ensures Slot(Bare(fields), j) == Slot(fields, j) {
      BareSlot(fields, j);
    }
    if Singular(fields[i]) {
      BareZeroItem(fields[i], m[i].item);
    }
  }

  lemma BareZeroMsg(fields: seq<Field>, m: Message)
    requires MsgOk(fields, m)
    ensures IsZeroMsg(Bare(fields), m) == IsZeroMsg(fields, m)
    decreases fields, 2
  {
    forall i | 0 <= i < |fields| ensures IsZeroVal(Bare(fields), m, i) == IsZeroVal(fields, m, i) {
      BareZeroVal(fields, m, i);
    }
  }

  // ----- the bytes -----

  lemma BareItem(f: Field, x: Item)
    requires ItemOk(f, x)
    ensures EncItem(BareField(f), x) == EncItem(f, x)
    decreases f, 0
  {
    if f.ltype.LSubmessage? {
      BareFrom(f.sub, x.m, 0);
    }
  }

  lemma {:induction false} BareItems(f: Field, xs: seq<Item>)
    requires forall i :: 0 <= i < |xs| ==> ItemOk(f, xs[i])
    ensures EncPacked(BareField(f), xs) == EncPacked(f, xs) && EncEach(BareField(f), xs) == EncEach(f, xs)
    decreases f, 1, |xs|
  {
    if xs != [] {
      BareItem(f, xs[0]);
      BareItems(f, xs[1..]);
    }
  }

  lemma {:induction false} BareVal(f: Field, v: Val)
    requires ValOk(f, v)
    ensures EncVal(BareField(f), v) == EncVal(f, v)
    decreases f, 2
  {
    if f.htype.HRepeated? {
      BareItems(f, v.items);
    } else if !f.htype.HOneof? || v.o.Some? {
      BareItem(f, ItemOf(f, v));
      BareZeroItem(f, ItemOf(f, v));
    }
  }

  lemma {:induction false} BareFrom(fields: seq<Field>, m: Message, k: nat)
    requires MsgOk(fields, m) && k <= |fields|
    ensures EncFrom(Bare(fields), m, k) == EncFrom(fields, m, k)
    decreases fields, 3, |fields| - k
  {
    if k < |fields| {
      assert ValOk(fields[k], m[k]);
      BareAt(fields, k);
      BareVal(fields[k], m[k]);
      BareFrom(fields, m, k + 1);
    }
  }

  // ----- canonical forms -----

  lemma SameItem(f: Field, x: Item, y: Item)
    requires ItemOk(f, x) && ItemOk(f, y) && CanonItem(BareField(f), x) == CanonItem(BareField(f), y)
    ensures CanonItem(f, x) == CanonItem(f, y)
    decreases f, 0
  {
    if f.ltype.LSubmessage? {
      SameMsg(f.sub, x.m, y.m);
    }
  }

  lemma {:induction false} SameItems(f: Field, xs: seq<Item>, ys: seq<Item>)
    requires (forall i :: 0 <= i < |xs| ==> ItemOk(f, xs[i])) && (forall i :: 0 <= i < |ys| ==> ItemOk(f, ys[i]))
    requires CanonItems(BareField(f), xs) == CanonItems(BareField(f), ys)
    ensures CanonItems(f, xs) == CanonItems(f, ys)
    decreases f, 1, |xs|
  {
    var g := BareField(f);
    assert |xs| == |ys|;
    if xs != [] {
      assert CanonItems(g, xs)[0] == CanonItems(g, ys)[0] && CanonItems(g, xs)[1..] == CanonItems(g, ys)[1..];
      SameItem(f, xs[0], ys[0]);
      SameItems(f, xs[1..], ys[1..]);
    }
  }

  lemma SameVal(f: Field, u: Val, v: Val)
    requires ValOk(f, u) && ValOk(f, v) && CanonVal(BareField(f), u) == CanonVal(BareField(f), v)
    ensures CanonVal(f, u) == CanonVal(f, v)
    decreases f, 2
  {
    if f.htype.HRepeated? {
      SameItems(f, u.items, v.items);
    } else if f.htype.HOneof? {
      if u.o.Some? {
        SameItem(f, u.o.value, v.o.value);
      }
    } else if f.htype.HRequired? || f.sizeOffset == 0 || u.has {
      SameItem(f, u.item, v.item);
    }
  }

  lemma SameMsg(fields: seq<Field>, a: Message, b: Message)
    requires MsgOk(fields, a) && MsgOk(fields, b) && CanonMsg(Bare(fields), a) == CanonMsg(Bare(fields), b)
    ensures CanonMsg(fields, a) == CanonMsg(fields, b)
    decreases fields, 3
  {
    forall i | 0 <= i < |fields| ensures CanonMsg(fields, a)[i] == CanonMsg(fields, b)[i] {
      assert ValOk(fields[i], a[i]) && ValOk(fields[i], b[i]);
      BareAt(fields, i);
      CanonMsgAt(Bare(fields), a, i);
      CanonMsgAt(Bare(fields), b, i);
      SameVal(fields[i], a[i], b[i]);
      CanonMsgAt(fields, a, i);
      CanonMsgAt(fields, b, i);
    }
  }

  // ----- what follows -----

  /** A receiver without stored defaults on singular fields reads every message in canonical
      form, whatever defaults the sender knows. */
  lemma BareReceiver(fields: seq<Field>, m: Message, w: Bytes)
    requires DescriptorOk(fields) && MsgOk(fields, m) && EncMsg(fields, m) == Some(w) && |w| < U32
    ensures Decode(Bare(fields), w) == Ok(CanonMsg(Bare(fields), m), [])
  {
    BareDescriptor(fields);
    BareMsgOk(fields, m);
    BareFrom(fields, m, 0);
    MessageRoundTrip(Bare(fields), m, w);
  }

  /** The canonical form is exactly what the wire keeps of a message: two messages have the
      same image if and only if they have the same one. */
  lemma ImageDeterminesMessage(fields: seq<Field>, a: Message, b: Message, w: Bytes)
    requires DescriptorOk(fields) && MsgOk(fields, a) && MsgOk(fields, b) && |w| < U32
    requires EncMsg(fields, a) == Some(w)
    ensures EncMsg(fields, b) == Some(w) <==> CanonMsg(fields, a) == CanonMsg(fields, b)
  {
    Reencoding.FromSame(fields, a, 0);
    Reencoding.FromSame(fields, b, 0);
    if EncMsg(fields, b) == Some(w) {
      BareReceiver(fields, a, w);
      BareReceiver(fields, b, w);
      SameMsg(fields, a, b);
    }
  }
}
