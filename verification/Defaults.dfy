/** What the sender held against what the receiver holds. The canonical form of a message
    keeps every value except those of absent optional fields; the receiver has it exactly
    when every singular field that was left out holds its default. */
module Defaults {
  import opened Schema
  import opened Encoding
  import opened Scalars
  import opened Merging

  // ----- which messages arrive in canonical form -----

  /** A singular number, string or byte field that is left out holds its default; so down
      through everything that is written, and through singular submessages left out. */
  ghost predicate KeptItem(f: Field, x: Item)
    decreases f, 0
  {
    f.ltype.LSubmessage? ==> KeptMsg(f.sub, SubOf(f, x))
  }

  ghost predicate KeptVal(f: Field, v: Val)
    decreases f, 1
  {
    if f.htype.HRepeated? then forall i :: 0 <= i < |ItemsOf(v)| ==> KeptItem(f, ItemsOf(v)[i])
    else if Written(f, v) then KeptItem(f, ItemOf(f, v))
    else Singular(f) ==>
           if f.ltype.LSubmessage? then KeptItem(f, ItemOf(f, v)) else CanonScalar(f, ItemOf(f, v)) == DefaultItem(f)
  }

  ghost predicate KeptMsg(fields: seq<Field>, m: Message)
    requires |m| == |fields|
    decreases fields, 2
  {
    forall i :: 0 <= i < |fields| ==> KeptVal(fields[i], m[i])
  }

  /** In a message that passes the zero check every field is left out. */
  lemma ZeroMsgUnwritten(fields: seq<Field>, m: Message)
    requires MsgOk(fields, m) && IsZeroMsg(fields, m)
    ensures ReceivedMsg(fields, m) == DefaultMsg(fields)
  {
    forall i | 0 <= i < |fields| ensures ReceivedMsg(fields, m)[i] == DefaultMsg(fields)[i] {
      assert ValOk(fields[i], m[i]) && IsZeroVal(fields, m, i);
      ReceivedMsgAt(fields, m, i);
      DefaultMsgAt(fields, i);
    }
  }

  lemma ItemArrives(f: Field, x: Item)
    requires FieldOk(f) && ItemOk(f, x)
    ensures ReceivedItem(f, x) == CanonItem(f, x) <==> KeptItem(f, x)
    decreases f, 0
  {
    if f.ltype.LSubmessage? {
      MsgArrives(f.sub, x.m);
    }
  }

  lemma {:induction false} ItemsArrive(f: Field, xs: seq<Item>)
    requires FieldOk(f) && forall i :: 0 <= i < |xs| ==> ItemOk(f, xs[i])
    ensures ReceivedItems(f, xs) == CanonItems(f, xs) <==> forall i :: 0 <= i < |xs| ==> KeptItem(f, xs[i])
    decreases f, 1, |xs|
  {
    hide KeptItem, ItemOk;
    if xs != [] {
      ItemArrives(f, xs[0]);
      ItemsArrive(f, xs[1..]);
      var r, c := ReceivedItems(f, xs), CanonItems(f, xs);
      assert r == c <==> r[0] == c[0] && r[1..] == c[1..];
      assert forall i :: 1 <= i < |xs| ==> xs[i] == xs[1..][i - 1];
    }
  }

  /** A field that is left out is at the value the receiver assumes exactly when it is kept:
      always, but for a singular field whose zero is not its default. */
  lemma {:induction false} UnwrittenIsDefault(f: Field, v: Val)
    requires FieldOk(f) && ValOk(f, v) && !Written(f, v)
    ensures CanonVal(f, v) == DefaultVal(f) <==> KeptVal(f, v)
    decreases f, 1
  {
    if Singular(f) && f.ltype.LSubmessage? {
      MsgArrives(f.sub, v.item.m);
      ZeroMsgUnwritten(f.sub, v.item.m);
    }
  }

  lemma ValArrives(f: Field, v: Val)
    requires FieldOk(f) && ValOk(f, v)
    ensures ReceivedVal(f, v) == CanonVal(f, v) <==> KeptVal(f, v)
    decreases f, 2
  {
    if !Written(f, v) {
      UnwrittenIsDefault(f, v);
    } else if f.htype.HRepeated? {
      ItemsArrive(f, v.items);
    } else {
      ItemArrives(f, ItemOf(f, v));
    }
  }

  /** The receiver holds the canonical form if and only if every singular field left out
      holds its default. */
  lemma MsgArrives(fields: seq<Field>, m: Message)
    requires DescriptorOk(fields) && MsgOk(fields, m)
    ensures ReceivedMsg(fields, m) == CanonMsg(fields, m) <==> KeptMsg(fields, m)
    decreases fields, 3
  {
    forall i | 0 <= i < |fields|
      ensures ReceivedMsg(fields, m)[i] == CanonMsg(fields, m)[i] <==> KeptVal(fields[i], m[i])
    {
      assert FieldOk(fields[i]) && ValOk(fields[i], m[i]);
      ValArrives(fields[i], m[i]);
      ReceivedMsgAt(fields, m, i);
      CanonMsgAt(fields, m, i);
    }
    assert ReceivedMsg(fields, m) == CanonMsg(fields, m) <==>
           forall i :: 0 <= i < |fields| ==> ReceivedMsg(fields, m)[i] == CanonMsg(fields, m)[i];
  }

  // ----- descriptors without stored defaults on singular fields -----

  /** As proto3 has it. */
  ghost predicate ZeroDefaults(fields: seq<Field>)
  {
    forall i :: 0 <= i < |fields| ==> (Singular(fields[i]) ==> fields[i].deflt.None?) && ZeroDefaults(fields[i].sub)
  }

  /** What passes the zero check is what the receiver sets a field without a default to. */
  lemma ZeroItemIsDefault(f: Field, x: Item)
    requires FieldOk(f) && f.deflt.None? && ZeroDefaults(f.sub) && ItemOk(f, x) && IsZeroItem(f, x)
    ensures CanonItem(f, x) == DefaultItem(f)
  {
    if f.ltype.LSubmessage? {
      ZeroDefaultsKept(f.sub, x.m);
      MsgArrives(f.sub, x.m);
      ZeroMsgUnwritten(f.sub, x.m);
    }
  }

  lemma ItemKept(f: Field, x: Item)
    requires FieldOk(f) && ZeroDefaults(f.sub) && ItemOk(f, x)
    ensures KeptItem(f, x)
    decreases f, 0
  {
    if f.ltype.LSubmessage? {
      ZeroDefaultsKept(f.sub, x.m);
    }
  }

  lemma ValKept(f: Field, v: Val)
    requires FieldOk(f) && ZeroDefaults(f.sub) && (Singular(f) ==> f.deflt.None?) && ValOk(f, v)
    ensures KeptVal(f, v)
    decreases f, 1
  {
    if f.htype.HRepeated? {
      forall i | 0 <= i < |v.items| ensures KeptItem(f, v.items[i]) {
        ItemKept(f, v.items[i]);
      }
    } else if Written(f, v) || Singular(f) {
      ItemKept(f, ItemOf(f, v));
    }
  }

  /** Then every message is kept. */
  lemma ZeroDefaultsKept(fields: seq<Field>, m: Message)
    requires DescriptorOk(fields) && ZeroDefaults(fields) && MsgOk(fields, m)
    ensures KeptMsg(fields, m)
    decreases fields, 2
  {
    forall i | 0 <= i < |fields| ensures KeptVal(fields[i], m[i]) {
      assert FieldOk(fields[i]) && ValOk(fields[i], m[i]);
      ValKept(fields[i], m[i]);
    }
  }
}
