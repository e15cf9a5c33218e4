/** Two results read field by field: which tags a successful decode must have met, and what
    a merge leaves in each field. */
module FieldLaws {
  import opened Wire
  import opened Schema
  import opened Decoding
  import opened Merging
  import Decoder

  // ----- required fields -----

  /** The tags the loop meets on its way through s. */
  ghost function TagsRead(fields: seq<Field>, st: State, s: Bytes): (tags: set<nat>)
    requires |st.m| == |fields|
    decreases |s|
  {
    if s == [] then {}
    else
      match Varint32(s)
      case Err(_) => {}
      case Ok(key, r) =>
        if key == 0 then {}
        else
          match DecField(fields, st, key, r)
          case Err(_) => {}
          case Ok(st', r') => {key / 8} + TagsRead(fields, st', r')
  }

  /** Field i is the required field number q, among those that are tracked. */
  ghost predicate Tracked(fields: seq<Field>, i: nat, q: nat)
  {
    i < |fields| && fields[i].htype.HRequired? && ReqIndex(fields, i) == q && q < MAX_REQUIRED
  }

  ghost predicate OnWire(fields: seq<Field>, tags: set<nat>, q: nat)
  {
    exists i: nat :: Tracked(fields, i, q) && fields[i].tag in tags
  }

  lemma TrackedOnce(fields: seq<Field>, i: nat, j: nat, q: nat)
    requires Tracked(fields, i, q) && Tracked(fields, j, q)
    ensures i == j
  {
    if i < j {
      Decoder.ReqIndexBelow(fields, i, j);
    } else if j < i {
      Decoder.ReqIndexBelow(fields, j, i);
    }
  }

  lemma {:induction false} NumberExists(fields: seq<Field>, k: nat, q: nat) returns (i: nat)
    requires k <= |fields| && q < ReqIndex(fields, k) && q < MAX_REQUIRED
    ensures i < k && Tracked(fields, i, q)
    decreases k
  {
    if q == ReqIndex(fields, k - 1) {
      i := k - 1;
    } else {
      i := NumberExists(fields, k - 1, q);
    }
  }

  /** One field marks its own number if it is required, and no other. */
  lemma FieldMarks(fields: seq<Field>, st: State, key: nat, s: Bytes, q: nat)
    requires |st.m| == |fields| && UniqueTags(fields) && DecField(fields, st, key, s).Ok?
    ensures q in DecField(fields, st, key, s).v.seen <==> q in st.seen || OnWire(fields, {key / 8}, q)
  {
    match Find(fields, key / 8)
    case None =>
    case Some(i) =>
      var st1 := Enter(fields, st, i).value;
      assert DecField(fields, st, key, s).v.seen == st1.seen;
      if Tracked(fields, i, q) {
        assert fields[i].tag in {key / 8};
      }
      if OnWire(fields, {key / 8}, q) {
        var j: nat :| Tracked(fields, j, q) && fields[j].tag in {key / 8};
        FindUnique(fields, j);
      }
  }

  lemma OnWireUnion(fields: seq<Field>, a: set<nat>, b: set<nat>, q: nat)
    ensures OnWire(fields, a + b, q) <==> OnWire(fields, a, q) || OnWire(fields, b, q)
  {
  }

  lemma {:induction false} LoopMarks(fields: seq<Field>, st: State, s: Bytes, q: nat)
    requires |st.m| == |fields| && UniqueTags(fields) && DecLoop(fields, st, s).Ok?
    ensures q in DecLoop(fields, st, s).v.seen <==> q in st.seen || OnWire(fields, TagsRead(fields, st, s), q)
    decreases |s|
  {
    if s != [] {
      var d := Varint32(s);
      if d.v != 0 {
        var e := DecField(fields, st, d.v, d.rest);
        FieldMarks(fields, st, d.v, d.rest, q);
        LoopMarks(fields, e.v, e.rest, q);
        OnWireUnion(fields, {d.v / 8}, TagsRead(fields, e.v, e.rest), q);
      }
    }
  }

  ghost function RequiredBefore(fields: seq<Field>, i: nat): (js: set<nat>)
    requires i <= |fields|
  {
    set j: nat | 0 <= j < i && fields[j].htype.HRequired?
  }

  /** The index the iterator keeps is the number of required fields passed. */
  lemma {:induction false} ReqIndexCounts(fields: seq<Field>, i: nat)
    requires i <= |fields|
    ensures ReqIndex(fields, i) == |RequiredBefore(fields, i)|
  {
    if i > 0 {
      ReqIndexCounts(fields, i - 1);
      var before := RequiredBefore(fields, i - 1);
      assert RequiredBefore(fields, i) == if fields[i - 1].htype.HRequired? then before + {i - 1} else before;
    }
  }

  /** The required-field check is exact: once the loop has read the input, decoding succeeds
      if and only if the last fixed-count array is complete and every one of the first 64
      required fields had its tag on the wire. */
  lemma RequiredExact(fields: seq<Field>, m: Message, s: Bytes)
    requires |m| == |fields| && UniqueTags(fields) && DecLoop(fields, Init(m), s).Ok?
    ensures var fixed := DecLoop(fields, Init(m), s).v.fixed;
            DecMsg(fields, m, s).Ok? <==>
            && (fixed.Filling? ==> fixed.got == fixed.want)
            && forall i :: 0 <= i < |fields| && fields[i].htype.HRequired? && |RequiredBefore(fields, i)| < 64 ==>
                 fields[i].tag in TagsRead(fields, Init(m), s)
  {
    hide RequiredBefore;
    forall i | 0 <= i < |fields| ensures |RequiredBefore(fields, i)| == ReqIndex(fields, i) {
      ReqIndexCounts(fields, i);
    }
    TrackedExact(fields, m, s);
  }

  lemma TrackedExact(fields: seq<Field>, m: Message, s: Bytes)
    requires |m| == |fields| && UniqueTags(fields) && DecLoop(fields, Init(m), s).Ok?
    ensures DecMsg(fields, m, s).Ok? <==>
            && FixedDone(DecLoop(fields, Init(m), s).v.fixed)
            && forall i :: 0 <= i < |fields| && fields[i].htype.HRequired? && ReqIndex(fields, i) < MAX_REQUIRED ==>
                 fields[i].tag in TagsRead(fields, Init(m), s)
  {
    var st := DecLoop(fields, Init(m), s).v;
    var tags := TagsRead(fields, Init(m), s);
    if Final(fields, st) {
      forall i | 0 <= i < |fields| && fields[i].htype.HRequired? && ReqIndex(fields, i) < MAX_REQUIRED
        ensures fields[i].tag in tags
      {
        Decoder.ReqIndexBelow(fields, i, |fields|);
        LoopMarks(fields, Init(m), s, ReqIndex(fields, i));
        OnWireHere(fields, tags, i, ReqIndex(fields, i));
      }
    }
    if forall i :: 0 <= i < |fields| && fields[i].htype.HRequired? && ReqIndex(fields, i) < MAX_REQUIRED ==>
        fields[i].tag in tags {
      forall q | 0 <= q < ReqIndex(fields, |fields|) && q < MAX_REQUIRED ensures q in st.seen {
        var i := NumberExists(fields, |fields|, q);
        LoopMarks(fields, Init(m), s, q);
        OnWireHere(fields, tags, i, q);
      }
    }
  }

  /** The tag of the one field with number q decides. */
  lemma OnWireHere(fields: seq<Field>, tags: set<nat>, i: nat, q: nat)
    requires Tracked(fields, i, q)
    ensures OnWire(fields, tags, q) <==> fields[i].tag in tags
  {
    if OnWire(fields, tags, q) {
      var j: nat :| Tracked(fields, j, q) && fields[j].tag in tags;
      TrackedOnce(fields, i, j, q);
    }
  }

  // ----- merging, field by field -----

  /** What one field becomes, from its own two values alone. */
  ghost function MergeVal(f: Field, prev: Val, v: Val): (r: Option<Val>)
  {
    if f.htype.HRepeated? then
      var res :- MergeItems(f, ItemsOf(prev), if FixedCount(f) then 0 else |ItemsOf(prev)|, ItemsOf(v));
      Some(Rep(res.0))
    else
      var y :- MergeItem(f, ItemOf(f, prev), ItemOf(f, v));
      Some(if f.htype.HOneof? then Alt(Some(y)) else SetItem(f, y))
  }

  /** From position k on, a selects another member of the union field i is in. */
  ghost predicate Displaced(fields: seq<Field>, a: Message, k: nat, i: nat)
    requires |a| == |fields| && i < |fields|
  {
    exists j :: k <= j < |fields| && j != i && Slot(fields, j) == Slot(fields, i) && Selected(a[j])
  }

  /** What the fields from k on of a make of field i. */
  ghost function Becomes(fields: seq<Field>, m: Message, a: Message, k: nat, i: nat): (r: Option<Val>)
    requires |m| == |a| == |fields| && i < |fields|
  {
    if k <= i && Written(fields[i], a[i]) then MergeVal(fields[i], m[i], a[i])
    else if Displaced(fields, a, k, i) then Some(Alt(None))
    else Some(m[i])
  }

  lemma UnionOnly(fields: seq<Field>, i: nat, j: nat)
    requires i < |fields| && j < |fields| && i != j && Slot(fields, i) == Slot(fields, j)
    ensures fields[i].htype.HOneof? && fields[j].htype.HOneof?
  {
    SlotOneof(fields, i);
    SlotOneof(fields, j);
  }

  /** Merging field k touches field k and the other members of its union. */
  lemma {:induction false} MergeAtElsewhere(fields: seq<Field>, m: Message, a: Message, k: nat, i: nat)
    requires |m| == |fields| && MsgOk(fields, a) && k < |fields| && i < |fields|
    requires MergeAt(fields, m, k, a[k]).Some?
    ensures var r := MergeAt(fields, m, k, a[k]).value;
            if i == k then (if Written(fields[k], a[k]) then MergeVal(fields[k], m[k], a[k]) ==
                Some(r[k]) else r[k] == m[k])
            else r[i] == if Slot(fields, k) == Slot(fields, i) && Selected(a[k]) then Alt(None) else m[i]
  {
    assert ValOk(fields[k], a[k]);
    if i != k && Slot(fields, k) == Slot(fields, i) {
      UnionOnly(fields, i, k);
    }
  }

  lemma DisplacedStep(fields: seq<Field>, a: Message, k: nat, i: nat)
    requires |a| == |fields| && i < |fields| && k < |fields|
    ensures Displaced(fields, a, k, i) <==>
            Displaced(fields, a, k + 1, i) || (k != i && Slot(fields, k) == Slot(fields, i) && Selected(a[k]))
  {
  }

  /** A selected member is not displaced. */
  lemma SelectedStays(fields: seq<Field>, a: Message, k: nat, i: nat)
    requires MsgOk(fields, a) && i < |fields| && Written(fields[i], a[i])
    ensures !Displaced(fields, a, k, i)
  {
    if Displaced(fields, a, k, i) {
      var j :| k <= j < |fields| && j != i && Slot(fields, j) == Slot(fields, i) && Selected(a[j]);
      UnionOnly(fields, i, j);
    }
  }

  lemma {:induction false} MergeFromFieldwise(fields: seq<Field>, m: Message, a: Message, k: nat, i: nat)
    requires |m| == |fields| && MsgOk(fields, a) && k <= |fields| && i < |fields|
    requires MergeFrom(fields, m, a, k).Some?
    ensures Becomes(fields, m, a, k, i) == Some(MergeFrom(fields, m, a, k).value[i])
    decreases |fields| - k
  {
    hide MergeAt, ValOk;
    if k < |fields| {
      var m' := MergeAt(fields, m, k, a[k]).value;
      MergeAtElsewhere(fields, m, a, k, i);
      MergeFromFieldwise(fields, m', a, k + 1, i);
      DisplacedStep(fields, a, k, i);
      if Written(fields[i], a[i]) {
        SelectedStays(fields, a, k, i);
      }
    }
  }

  lemma {:induction false} MergeAtSucceeds(fields: seq<Field>, m: Message, a: Message, k: nat)
    requires |m| == |fields| && MsgOk(fields, a) && k < |fields|
    ensures MergeAt(fields, m, k, a[k]).Some? <==>
            Written(fields[k], a[k]) ==> MergeVal(fields[k], m[k], a[k]).Some?
  {
    assert ValOk(fields[k], a[k]);
  }

  lemma {:induction false} MergeFromSucceeds(fields: seq<Field>, m: Message, a: Message, k: nat)
    requires |m| == |fields| && MsgOk(fields, a) && k <= |fields|
    ensures MergeFrom(fields, m, a, k).Some? <==>
            forall i :: k <= i < |fields| && Written(fields[i], a[i]) ==> MergeVal(fields[i], m[i], a[i]).Some?
    decreases |fields| - k
  {
    hide MergeAt, ValOk, MergeVal, Written;
    if k < |fields| {
      var next := MergeAt(fields, m, k, a[k]);
      MergeAtSucceeds(fields, m, a, k);
      if next.Some? {
        MergeFromSucceeds(fields, next.value, a, k + 1);
        forall i | k < i < |fields| && Written(fields[i], a[i]) ensures next.value[i] == m[i] {
          MergeAtElsewhere(fields, m, a, k, i);
          SelectedStays(fields, a, k, i);
        }
      }
    }
  }

  /** A merge fails exactly when some field written by the sender does not fit. */
  lemma MergeSucceeds(fields: seq<Field>, m: Message, a: Message)
    requires |m| == |fields| && MsgOk(fields, a)
    ensures MergeMsg(fields, m, a).Some? <==>
            forall i :: 0 <= i < |fields| && Written(fields[i], a[i]) ==> MergeVal(fields[i], m[i], a[i]).Some?
  {
    MergeFromSucceeds(fields, m, a, 0);
  }

  /** A merge decides every field by that field's own two values: a field the sender wrote
      takes the merge of the two, a member of a union whose other member was written is
      deselected, every other field stays. */
  lemma MergeFieldwise(fields: seq<Field>, m: Message, a: Message, i: nat)
    requires |m| == |fields| && MsgOk(fields, a) && i < |fields| && MergeMsg(fields, m, a).Some?
    ensures var r := MergeMsg(fields, m, a).value;
            if Written(fields[i], a[i]) then MergeVal(fields[i], m[i], a[i]) == Some(r[i])
            else r[i] == if Displaced(fields, a, 0, i) then Alt(None) else m[i]
  {
    MergeFromFieldwise(fields, m, a, 0, i);
  }
}
