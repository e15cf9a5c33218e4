/** The meaning of decoding on top of an existing message, said about values only: scalars
    take the new value, arrays append, submessages merge, oneofs keep the new member. */
module Merging {
  import opened Schema
  import opened Encoding
  import opened Decoding
  import opened Scalars

  /** None when an array would exceed its array_size. */
  ghost function MergeItem(f: Field, prev: Item, x: Item): (r: Option<Item>)
    decreases f, 0
  {
    if f.ltype.LSubmessage? then
      var m :- MergeMsg(f.sub, if f.htype.HRepeated? then DefaultMsg(f.sub) else SubOf(f, prev), SubOf(f, x));
      Some(Sub(m))
    else Some(CanonScalar(f, x))
  }

  /** Entries xs stored from position n on. */
  ghost function MergeItems(f: Field, items: seq<Item>, n: nat, xs: seq<Item>): (r: Option<(seq<Item>, nat)>)
    ensures r.Some? ==> r.value.1 == n + |xs|
    decreases f, 1, |xs|
  {
    if xs == [] then Some((items, n))
    else if n >= f.arraySize then None
    else
      var y :- MergeItem(f, DefaultItem(f), xs[0]);
      MergeItems(f, Put(items, n, y), n + 1, xs[1..])
  }

  ghost predicate Written(f: Field, v: Val)
  {
    match f.htype
    case HRequired => true
    case HOptional => Present(f, v)
    case HRepeated => ItemsOf(v) != []
    case HOneof => Selected(v)
  }

  ghost function MergeAt(fields: seq<Field>, m: Message, i: nat, v: Val): (r: Option<Message>)
    requires |m| == |fields| && i < |fields|
    ensures r.Some? ==> |r.value| == |m|
    decreases fields, 0
  {
    var f := fields[i];
    if !Written(f, v) then Some(m)
    else
      match f.htype
      case HRequired =>
        var y :- MergeItem(f, ItemOf(f, m[i]), ItemOf(f, v));
        Some(m[i := SetItem(f, y)])
      case HOptional =>
        var y :- MergeItem(f, ItemOf(f, m[i]), ItemOf(f, v));
        Some(m[i := SetItem(f, y)])
      case HRepeated =>
        var items := ItemsOf(m[i]);
        var res :- MergeItems(f, items, if FixedCount(f) then 0 else |items|, ItemsOf(v));
        Some(m[i := Rep(res.0)])
      case HOneof =>
        var y :- MergeItem(f, ItemOf(f, m[i]), ItemOf(f, v));
        Some(ClearUnion(fields, m, i)[i := Alt(Some(y))])
  }

  ghost function MergeFrom(fields: seq<Field>, m: Message, a: Message, k: nat): (r: Option<Message>)
    requires |m| == |a| == |fields| && k <= |fields|
    ensures r.Some? ==> |r.value| == |m|
    decreases fields, 1, |fields| - k
  {
    if k == |fields| then Some(m)
    else
      var m' :- MergeAt(fields, m, k, a[k]);
      MergeFrom(fields, m', a, k + 1)
  }

  ghost function MergeMsg(fields: seq<Field>, m: Message, a: Message): (r: Option<Message>)
    requires |m| == |a| == |fields|
    ensures r.Some? ==> |r.value| == |m|
    decreases fields, 2
  {
    MergeFrom(fields, m, a, 0)
  }

  // ----- the message a receiver starting from defaults ends up with -----

  ghost function ReceivedItem(f: Field, x: Item): (y: Item)
    decreases f, 0
  {
    if f.ltype.LSubmessage? then Sub(ReceivedMsg(f.sub, SubOf(f, x))) else CanonScalar(f, x)
  }

  ghost function ReceivedItems(f: Field, xs: seq<Item>): (ys: seq<Item>)
    ensures |ys| == |xs|
    decreases f, 1, |xs|
  {
    if xs == [] then [] else [ReceivedItem(f, xs[0])] + ReceivedItems(f, xs[1..])
  }

  /** A field that is not written is at its default, whatever the sender held. */
  ghost function ReceivedVal(f: Field, v: Val): (r: Val)
    decreases f, 2
  {
    if !Written(f, v) then DefaultVal(f)
    else
      match f.htype
      case HRequired => One(ReceivedItem(f, ItemOf(f, v)))
      case HOptional => SetItem(f, ReceivedItem(f, ItemOf(f, v)))
      case HRepeated => Rep(ReceivedItems(f, ItemsOf(v)))
      case HOneof => Alt(Some(ReceivedItem(f, ItemOf(f, v))))
  }

  ghost function ReceivedMsg(fields: seq<Field>, m: Message): (r: Message)
    requires |m| == |fields|
    ensures |r| == |m|
    decreases fields
  {
    if fields == [] then [] else [ReceivedVal(fields[0], m[0])] + ReceivedMsg(fields[1..], m[1..])
  }

  lemma {:induction false} ReceivedMsgAt(fields: seq<Field>, m: Message, i: nat)
    requires |m| == |fields| && i < |fields|
    ensures ReceivedMsg(fields, m)[i] == ReceivedVal(fields[i], m[i])
    decreases fields
  {
    if i > 0 {
      ReceivedMsgAt(fields[1..], m[1..], i - 1);
    }
  }

  // ----- the canonical form -----

  ghost function CanonItem(f: Field, x: Item): (y: Item)
    decreases f, 0
  {
    if f.ltype.LSubmessage? then Sub(CanonMsg(f.sub, SubOf(f, x))) else CanonScalar(f, x)
  }

  ghost function CanonItems(f: Field, xs: seq<Item>): (ys: seq<Item>)
    ensures |ys| == |xs|
    decreases f, 1, |xs|
  {
    if xs == [] then [] else [CanonItem(f, xs[0])] + CanonItems(f, xs[1..])
  }

  /** An absent optional field becomes its default; everything else is kept. */
  ghost function CanonVal(f: Field, v: Val): (r: Val)
    decreases f, 2
  {
    match f.htype
    case HRequired => One(CanonItem(f, ItemOf(f, v)))
    case HOptional =>
      if f.sizeOffset == 0 then One(CanonItem(f, ItemOf(f, v)))
      else if Present(f, v) then Opt(true, CanonItem(f, ItemOf(f, v)))
      else Opt(false, DefaultItem(f))
    case HRepeated => Rep(CanonItems(f, ItemsOf(v)))
    case HOneof => if Selected(v) then Alt(Some(CanonItem(f, ItemOf(f, v)))) else Alt(None)
  }

  ghost function CanonMsg(fields: seq<Field>, m: Message): (r: Message)
    requires |m| == |fields|
    ensures |r| == |m|
    decreases fields
  {
    if fields == [] then [] else [CanonVal(fields[0], m[0])] + CanonMsg(fields[1..], m[1..])
  }

  lemma {:induction false} CanonMsgAt(fields: seq<Field>, m: Message, i: nat)
    requires |m| == |fields| && i < |fields|
    ensures CanonMsg(fields, m)[i] == CanonVal(fields[i], m[i])
    decreases fields
  {
    if i > 0 {
      CanonMsgAt(fields[1..], m[1..], i - 1);
    }
  }

  // ----- merging into a default message -----

  /** No array of x, at any depth, exceeds its array_size; an encodable item is one. */
  ghost predicate FitsItem(f: Field, x: Item)
    decreases f, 0
  {
    f.ltype.LSubmessage? ==> FitsMsg(f.sub, SubOf(f, x))
  }

  ghost predicate FitsVal(f: Field, v: Val)
    decreases f, 1
  {
    Written(f, v) ==>
      if f.htype.HRepeated? then
        && |ItemsOf(v)| <= f.arraySize
        && forall i :: 0 <= i < |ItemsOf(v)| ==> FitsItem(f, ItemsOf(v)[i])
      else FitsItem(f, ItemOf(f, v))
  }

  ghost predicate FitsMsg(fields: seq<Field>, m: Message)
    requires |m| == |fields|
    decreases fields, 2
  {
    forall i :: 0 <= i < |fields| ==> FitsVal(fields[i], m[i])
  }

  /** Merging into field i of a message whose field i is still at its default. */
  lemma {:induction false} MergeAtDefault(fields: seq<Field>, m: Message, i: nat, v: Val)
    requires |m| == |fields| && i < |fields| && FieldOk(fields[i])
    requires m[i] == DefaultVal(fields[i]) && FitsVal(fields[i], v) && ValOk(fields[i], v)
    requires forall j :: 0 <= j < |fields| && j != i && Slot(fields, j) == Slot(fields, i) && Selected(v) ==>
             m[j] == Alt(None)
    ensures MergeAt(fields, m, i, v) == Some(m[i := ReceivedVal(fields[i], v)])
    decreases fields, 0
  {
    var f := fields[i];
    if !Written(f, v) {
      assert m[i := DefaultVal(f)] == m;
    } else {
      match f.htype
      case HRequired => ItemDefault(f, ItemOf(f, v));
      case HOptional => ItemDefault(f, ItemOf(f, v));
      case HRepeated => MergeArrayDefault(f, ItemsOf(v));
      case HOneof =>
        ItemDefault(f, ItemOf(f, v));
        assert ClearUnion(fields, m, i) == m;
    }
  }

  lemma ItemDefault(f: Field, x: Item)
    requires FieldOk(f) && FitsItem(f, x) && ItemOk(f, x)
    ensures MergeItem(f, DefaultItem(f), x) == Some(ReceivedItem(f, x))
    decreases f, 0
  {
    if f.ltype.LSubmessage? {
      MergeIntoDefault(f.sub, SubOf(f, x));
    }
  }

  lemma PutPrefix(items: seq<Item>, n: nat, y: Item, zs: seq<Item>)
    requires n <= |items|
    ensures |Put(items, n, y)| == if n < |items| then |items| else n + 1
    ensures Put(items, n, y)[..n + 1] + zs == items[..n] + ([y] + zs)
  {
  }

  lemma {:induction false} ItemsDefault(f: Field, items: seq<Item>, n: nat, xs: seq<Item>)
    requires FieldOk(f) && n + |xs| <= f.arraySize && n <= |items|
    requires forall i :: 0 <= i < |xs| ==> FitsItem(f, xs[i]) && ItemOk(f, xs[i])
    requires |items| == n || |items| == n + |xs|
    ensures MergeItems(f, items, n, xs) == Some((items[..n] + ReceivedItems(f, xs), n + |xs|))
    decreases f, 1, |xs|
  {
    if xs == [] {
      assert items[..n] + [] == items;
    } else {
      var y := ReceivedItem(f, xs[0]);
      assert MergeItem(f, DefaultItem(f), xs[0]) == Some(y) by {
        ItemDefault(f, xs[0]);
      }
      PutPrefix(items, n, y, ReceivedItems(f, xs[1..]));
      ItemsDefault(f, Put(items, n, y), n + 1, xs[1..]);
    }
  }

  lemma {:induction false} MergeArrayDefault(f: Field, xs: seq<Item>)
    requires FieldOk(f) && f.htype.HRepeated? && |xs| <= f.arraySize && (FixedCount(f) ==> |xs| == f.arraySize)
    requires forall i :: 0 <= i < |xs| ==> FitsItem(f, xs[i]) && ItemOk(f, xs[i])
    ensures MergeItems(f, ItemsOf(DefaultVal(f)), 0, xs) == Some((ReceivedItems(f, xs), |xs|))
    decreases f, 2
  {
    var items := ItemsOf(DefaultVal(f));
    ItemsDefault(f, items, 0, xs);
    assert items[..0] + ReceivedItems(f, xs) == ReceivedItems(f, xs);
  }

  /** Progress of merging a into the default message: the first k fields are done. */
  ghost predicate DoneUpTo(fields: seq<Field>, m: Message, a: Message, k: nat)
    requires |m| == |a| == |fields| && k <= |fields|
  {
    && (forall i :: 0 <= i < k ==> m[i] == ReceivedVal(fields[i], a[i]))
    && (forall i :: k <= i < |fields| ==> m[i] == DefaultVal(fields[i]))
  }

  lemma AllDone(fields: seq<Field>, m: Message, a: Message)
    requires |m| == |a| == |fields| && DoneUpTo(fields, m, a, |fields|)
    ensures m == ReceivedMsg(fields, a)
  {
    forall i | 0 <= i < |fields| ensures m[i] == ReceivedMsg(fields, a)[i] {
      ReceivedMsgAt(fields, a, i);
    }
  }

  lemma OneMoreDone(fields: seq<Field>, m: Message, a: Message, k: nat)
    requires DescriptorOk(fields) && MsgOk(fields, a) && FitsMsg(fields, a)
    requires |m| == |fields| && k < |fields| && DoneUpTo(fields, m, a, k)
    ensures MergeAt(fields, m, k, a[k]) == Some(m[k := ReceivedVal(fields[k], a[k])])
    decreases fields, 1, 0
  {
    forall j | 0 <= j < |fields| && j != k && Slot(fields, j) == Slot(fields, k) && Selected(a[k])
      ensures m[j] == Alt(None)
    {
      UnionMate(fields, m, a, k, j);
    }
    MergeAtDefault(fields, m, k, a[k]);
  }

  lemma {:induction false} MergeFromDefault(fields: seq<Field>, m: Message, a: Message, k: nat)
    requires DescriptorOk(fields) && MsgOk(fields, a) && FitsMsg(fields, a)
    requires |m| == |fields| && k <= |fields| && DoneUpTo(fields, m, a, k)
    ensures MergeFrom(fields, m, a, k) == Some(ReceivedMsg(fields, a))
    decreases fields, 2, |fields| - k
  {
    if k == |fields| {
      AllDone(fields, m, a);
    } else {
      OneMoreDone(fields, m, a, k);
      MergeFromDefault(fields, m[k := ReceivedVal(fields[k], a[k])], a, k + 1);
    }
  }

  lemma {:induction false} UnionMate(fields: seq<Field>, m: Message, a: Message, k: nat, j: nat)
    requires MsgOk(fields, a) && |m| == |fields| && k < |fields| && DoneUpTo(fields, m, a, k)
    requires j < |fields| && j != k && Slot(fields, j) == Slot(fields, k) && Selected(a[k])
    ensures m[j] == Alt(None)
  {
    SlotOneof(fields, j);
    SlotOneof(fields, k);
    assert ValOk(fields[j], a[j]) && ValOk(fields[k], a[k]);
    assert fields[j].htype.HOneof?;
    assert !Selected(a[j]);
  }

  /** Merging into the default message gives what its receiver holds. */
  lemma MergeIntoDefault(fields: seq<Field>, a: Message)
    requires DescriptorOk(fields) && MsgOk(fields, a) && FitsMsg(fields, a)
    ensures MergeMsg(fields, DefaultMsg(fields), a) == Some(ReceivedMsg(fields, a))
    decreases fields, 3
  {
    forall i | 0 <= i < |fields| ensures DefaultMsg(fields)[i] == DefaultVal(fields[i]) {
      DefaultMsgAt(fields, i);
    }
    MergeFromDefault(fields, DefaultMsg(fields), a, 0);
  }
}
