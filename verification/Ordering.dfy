/** Fields on the wire come in any order: which neighbours may change places, and that a
    message whose fields do not meet can be sent in every order. */
module Ordering {
  import opened Wire
  import opened Schema
  import opened Decoding
  import opened Laws

  // ----- what one known field does to the state -----

  /** The message with value x in field i; a member of a union deselects the others. */
  ghost function WithVal(fields: seq<Field>, m: Message, i: nat, x: Val): (r: Message)
    requires |m| == |fields| && i < |fields|
    ensures |r| == |m| && r[i] == x
  {
    if fields[i].htype.HOneof? then ClearUnion(fields, m, i)[i := x] else m[i := x]
  }

  ghost function Marked(fields: seq<Field>, seen: set<nat>, i: nat): (r: set<nat>)
    requires i < |fields|
  {
    var q := ReqIndex(fields, i);
    if fields[i].htype.HRequired? && q < MAX_REQUIRED then seen + {q} else seen
  }

  ghost function AfterVal(fields: seq<Field>, st: State, i: nat, x: Val, fixed: Filling): (r: State)
    requires |st.m| == |fields| && i < |fields|
    ensures |r.m| == |fields|
  {
    State(WithVal(fields, st.m, i, x), Marked(fields, st.seen, i), fixed, st.closed)
  }

  /** Decoding a value looks at the field's own value only, and changes it and its union. */
  lemma {:induction false} ValLocal(fields: seq<Field>, m: Message, m': Message, i: nat, wt: nat, got: nat,
      got': nat, s: Bytes)
    requires |m| == |m'| == |fields| && i < |fields| && m[i] == m'[i]
    requires FixedCount(fields[i]) ==> got == got'
    requires DecVal(fields, m, i, wt, got, s).Ok?
    ensures var d, d' := DecVal(fields, m, i, wt, got, s), DecVal(fields, m', i, wt, got', s);
            && d'.Ok? && d'.rest == d.rest && d'.v.0 == WithVal(fields, m', i, d.v.0[i])
            && d'.v.1 == (if FixedCount(fields[i]) then d.v.1 else got')
            && (fields[i].htype.HOneof? ==> Selected(d.v.0[i]))
  {
  }

  /** A field accepted in one state is accepted in every state with the same value for it
      and, if it is an array of fixed count, the same array in progress. */
  lemma {:induction false} KnownLocal(fields: seq<Field>, st: State, st': State, i: nat, wt: nat, s: Bytes)
    requires |st.m| == |st'.m| == |fields| && i < |fields| && st.m[i] == st'.m[i]
    requires FixedCount(fields[i]) ==> st.fixed == st'.fixed
    requires DecKnown(fields, st, i, wt, s).Ok?
    ensures var d := DecKnown(fields, st, i, wt, s);
            var fixed := if FixedCount(fields[i]) then d.v.fixed else st'.fixed;
            && DecKnown(fields, st', i, wt, s) == Ok(AfterVal(fields, st', i, d.v.m[i], fixed), d.rest)
            && (FixedCount(fields[i]) ==> d.v.fixed.Filling? && d.v.fixed.index == i)
            && (fields[i].htype.HOneof? ==> Selected(d.v.m[i]))
  {
    hide DecVal, ReqIndex;
    var st1, st1' := Enter(fields, st, i).value, Enter(fields, st', i).value;
    ValLocal(fields, st.m, st'.m, i, wt, Got(st1.fixed), Got(st1'.fixed), s);
  }

  lemma WithValElsewhere(fields: seq<Field>, m: Message, i: nat, x: Val, j: nat)
    requires |m| == |fields| && i < |fields| && j < |fields| && i != j
    ensures Slot(fields, i) != Slot(fields, j) ==> WithVal(fields, m, i, x)[j] == m[j]
    ensures Slot(fields, i) == Slot(fields, j) ==>
              fields[i].htype.HOneof? && fields[j].htype.HOneof? && WithVal(fields, m, i, x)[j] == Alt(None)
  {
    SlotOneof(fields, i);
    SlotOneof(fields, j);
  }

  lemma {:induction false} WithValCommutes(fields: seq<Field>, m: Message, i: nat, x: Val, j: nat, y: Val)
    requires |m| == |fields| && i < |fields| && j < |fields| && Slot(fields, i) != Slot(fields, j)
    ensures WithVal(fields, WithVal(fields, m, i, x), j, y) == WithVal(fields, WithVal(fields, m, j, y), i, x)
  {
    var a := WithVal(fields, WithVal(fields, m, i, x), j, y);
    var b := WithVal(fields, WithVal(fields, m, j, y), i, x);
    forall k | 0 <= k < |fields| ensures a[k] == b[k] {
      SlotOneof(fields, i);
      SlotOneof(fields, j);
    }
  }

  lemma AfterValCommutes(fields: seq<Field>, st: State, i: nat, x: Val, fi: Filling, j: nat, y: Val, fj: Filling,
      last: Filling)
    requires |st.m| == |fields| && i < |fields| && j < |fields| && Slot(fields, i) != Slot(fields, j)
    ensures AfterVal(fields, AfterVal(fields, st, i, x, fi), j, y, last) ==
            AfterVal(fields, AfterVal(fields, st, j, y, fj), i, x, last)
  {
    WithValCommutes(fields, st.m, i, x, j, y);
    assert Marked(fields, Marked(fields, st.seen, i), j) == Marked(fields, Marked(fields, st.seen, j), i);
  }

  // ----- two known fields -----

  /** Neither of the two fields touches what the other reads: they are in different unions
      and not both arrays of fixed count. */
  ghost predicate Apart(fields: seq<Field>, i: nat, j: nat)
    requires i < |fields| && j < |fields|
  {
    Slot(fields, i) != Slot(fields, j) && !(FixedCount(fields[i]) && FixedCount(fields[j]))
  }

  lemma {:induction false} KnownCommute(fields: seq<Field>, st: State, i: nat, wt: nat, s: Bytes, j: nat, wt': nat,
      s': Bytes)
    requires |st.m| == |fields| && i < |fields| && j < |fields| && i != j && Apart(fields, i, j)
    requires DecKnown(fields, st, i, wt, s).Ok? && DecKnown(fields, st, j, wt', s').Ok?
    ensures var d, e := DecKnown(fields, st, i, wt, s), DecKnown(fields, st, j, wt', s');
            && DecKnown(fields, d.v, j, wt', s').Ok? && DecKnown(fields, d.v, j, wt', s').rest == e.rest
            && DecKnown(fields, e.v, i, wt, s) == Ok(DecKnown(fields, d.v, j, wt', s').v, d.rest)
  {
    var d, e := DecKnown(fields, st, i, wt, s), DecKnown(fields, st, j, wt', s');
    KnownLocal(fields, st, st, i, wt, s);
    KnownLocal(fields, st, st, j, wt', s');
    WithValElsewhere(fields, st.m, i, d.v.m[i], j);
    WithValElsewhere(fields, st.m, j, e.v.m[j], i);
    KnownLocal(fields, st, d.v, j, wt', s');
    KnownLocal(fields, st, e.v, i, wt, s);
    var last := if FixedCount(fields[i]) then d.v.fixed else e.v.fixed;
    AfterValCommutes(fields, st, i, d.v.m[i], d.v.fixed, j, e.v.m[j], e.v.fixed, last);
  }

  /** Fields that are not apart never commute: the last member of a union and the last array
      of fixed count are the ones that stay. */
  lemma KnownConflict(fields: seq<Field>, st: State, i: nat, wt: nat, s: Bytes, j: nat, wt': nat, s': Bytes)
    requires |st.m| == |fields| && i < |fields| && j < |fields| && i != j && !Apart(fields, i, j)
    requires DecKnown(fields, st, i, wt, s).Ok? && DecKnown(fields, st, j, wt', s').Ok?
    ensures var d, e := DecKnown(fields, st, i, wt, s), DecKnown(fields, st, j, wt', s');
            var uv, vu := DecKnown(fields, d.v, j, wt', s'), DecKnown(fields, e.v, i, wt, s);
            uv.Ok? && vu.Ok? ==> uv.v != vu.v
  {
    var d, e := DecKnown(fields, st, i, wt, s), DecKnown(fields, st, j, wt', s');
    var uv, vu := DecKnown(fields, d.v, j, wt', s'), DecKnown(fields, e.v, i, wt, s);
    if uv.Ok? && vu.Ok? {
      KnownLocal(fields, d.v, d.v, j, wt', s');
      KnownLocal(fields, e.v, e.v, i, wt, s);
      WithValElsewhere(fields, e.v.m, i, vu.v.m[i], j);
    }
  }

  // ----- two fields of any kind -----

  function Key(u: Bytes): (key: nat)
  {
    var d := Varint32(u);
    if d.Ok? then d.v else 0
  }

  /** u is one field, tag and payload, that the decoder accepts in state st. */
  ghost predicate Readable(fields: seq<Field>, st: State, u: Bytes)
    requires |st.m| == |fields|
  {
    && Varint32(u).Ok? && Key(u) != 0
    && var d := DecField(fields, st, Key(u), Varint32(u).rest);
       d.Ok? && d.rest == []
  }

  /** The state after it. */
  ghost function AfterField(fields: seq<Field>, st: State, u: Bytes): (r: State)
    requires |st.m| == |fields| && Readable(fields, st, u)
    ensures |r.m| == |fields|
  {
    DecField(fields, st, Key(u), Varint32(u).rest).v
  }

  lemma LoopReadable(fields: seq<Field>, st: State, u: Bytes, t: Bytes)
    requires |st.m| == |fields| && Readable(fields, st, u)
    ensures DecLoop(fields, st, u + t) == DecLoop(fields, AfterField(fields, st, u), t)
  {
    Varint32Stable(u, t);
    FieldStable(fields, st, Key(u), Varint32(u).rest, t);
    assert [] + t == t;
  }

  /** The tags of u and v differ. */
  predicate OtherTag(u: Bytes, v: Bytes)
  {
    Key(u) / 8 != Key(v) / 8
  }

  /** u and v do not meet in the message: one of them is unknown to the descriptor, or they
      are fields apart. */
  ghost predicate Independent(fields: seq<Field>, u: Bytes, v: Bytes)
  {
    var i, j := Find(fields, Key(u) / 8), Find(fields, Key(v) / 8);
    i.Some? && j.Some? ==> Apart(fields, i.value, j.value)
  }

  /** Independent fields are accepted in either order, with the same state after both. */
  lemma AfterFieldCommutes(fields: seq<Field>, st: State, u: Bytes, v: Bytes)
    requires |st.m| == |fields| && Readable(fields, st, u) && Readable(fields, st, v)
    requires OtherTag(u, v) && Independent(fields, u, v)
    ensures Readable(fields, AfterField(fields, st, u), v) && Readable(fields, AfterField(fields, st, v), u)
    ensures AfterField(fields, AfterField(fields, st, u), v) == AfterField(fields, AfterField(fields, st, v), u)
  {
    var i, j := Find(fields, Key(u) / 8), Find(fields, Key(v) / 8);
    if i.Some? && j.Some? {
      KnownCommute(fields, st, i.value, Key(u) % 8, Varint32(u).rest, j.value, Key(v) % 8, Varint32(v).rest);
    }
  }

  /** Two neighbouring fields change places. */
  lemma FieldsCommute(fields: seq<Field>, st: State, u: Bytes, v: Bytes, t: Bytes)
    requires |st.m| == |fields| && Readable(fields, st, u) && Readable(fields, st, v)
    requires OtherTag(u, v) && Independent(fields, u, v)
    ensures DecLoop(fields, st, u + v + t) == DecLoop(fields, st, v + u + t)
    ensures Readable(fields, AfterField(fields, st, u), v)
    ensures DecLoop(fields, st, u + v + t) == DecLoop(fields, AfterField(fields, AfterField(fields, st, u), v), t)
  {
    AfterFieldCommutes(fields, st, u, v);
    BothReadable(fields, st, u, v, t);
    BothReadable(fields, st, v, u, t);
  }

  lemma BothReadable(fields: seq<Field>, st: State, u: Bytes, v: Bytes, t: Bytes)
    requires |st.m| == |fields| && Readable(fields, st, u) && Readable(fields, AfterField(fields, st, u), v)
    ensures DecLoop(fields, st, u + v + t) == DecLoop(fields, AfterField(fields, AfterField(fields, st, u), v), t)
  {
    Assoc(u, v, t);
    LoopReadable(fields, st, u, v + t);
    LoopReadable(fields, AfterField(fields, st, u), v, t);
  }

  /** How far a field reaches does not depend on the state. */
  lemma {:induction false} ValReach(fields: seq<Field>, m: Message, m': Message, i: nat, wt: nat, got: nat,
      got': nat, s: Bytes)
    requires |m| == |m'| == |fields| && i < |fields|
    requires DecVal(fields, m, i, wt, got, s).Ok? && DecVal(fields, m', i, wt, got', s).Ok?
    ensures DecVal(fields, m, i, wt, got, s).rest == DecVal(fields, m', i, wt, got', s).rest
  {
  }

  lemma KnownReach(fields: seq<Field>, st: State, st': State, i: nat, wt: nat, s: Bytes)
    requires |st.m| == |st'.m| == |fields| && i < |fields|
    requires DecKnown(fields, st, i, wt, s).Ok? && DecKnown(fields, st', i, wt, s).Ok?
    ensures DecKnown(fields, st, i, wt, s).rest == DecKnown(fields, st', i, wt, s).rest
  {
    var st1, st1' := Enter(fields, st, i).value, Enter(fields, st', i).value;
    ValReach(fields, st.m, st'.m, i, wt, Got(st1.fixed), Got(st1'.fixed), s);
  }

  lemma {:induction false} SameEnd(fields: seq<Field>, st: State, st': State, u: Bytes)
    requires |st.m| == |st'.m| == |fields| && Readable(fields, st, u) && DecLoop(fields, st', u).Ok?
    ensures Readable(fields, st', u) && DecLoop(fields, st', u) == Ok(AfterField(fields, st', u), [])
  {
    var i := Find(fields, Key(u) / 8);
    if i.Some? {
      KnownReach(fields, st, st', i.value, Key(u) % 8, Varint32(u).rest);
    }
  }

  /** Both orders are accepted with one outcome, whatever follows. */
  ghost predicate Commute(fields: seq<Field>, st: State, u: Bytes, v: Bytes)
    requires |st.m| == |fields|
  {
    && DecLoop(fields, st, u + v).Ok?
    && forall t :: DecLoop(fields, st, u + v + t) == DecLoop(fields, st, v + u + t)
  }

  /** Two fields of different tags, each accepted in the state, commute if and only if they
      are independent: not members of one union, not two arrays of fixed count. */
  lemma CommuteExactly(fields: seq<Field>, st: State, u: Bytes, v: Bytes)
    requires |st.m| == |fields| && Readable(fields, st, u) && Readable(fields, st, v) && OtherTag(u, v)
    ensures Commute(fields, st, u, v) <==> Independent(fields, u, v)
  {
    var none: Bytes := [];
    assert u + v + none == u + v && v + u + none == v + u;
    if Independent(fields, u, v) {
      forall t ensures DecLoop(fields, st, u + v + t) == DecLoop(fields, st, v + u + t) {
        FieldsCommute(fields, st, u, v, t);
      }
      FieldsCommute(fields, st, u, v, none);
    } else {
      var i, j := Find(fields, Key(u) / 8).value, Find(fields, Key(v) / 8).value;
      LoopReadable(fields, st, u, v);
      LoopReadable(fields, st, v, u);
      KnownConflict(fields, st, i, Key(u) % 8, Varint32(u).rest, j, Key(v) % 8, Varint32(v).rest);
      if Commute(fields, st, u, v) {
        assert DecLoop(fields, st, u + v + none) == DecLoop(fields, st, v + u + none);
        SameEnd(fields, st, AfterField(fields, st, u), v);
        SameEnd(fields, st, AfterField(fields, st, v), u);
      }
    }
  }

  /** In a whole message: swapping two independent fields at a field boundary changes neither
      the verdict nor the message. */
  lemma {:induction false} SwapTransparent(fields: seq<Field>, m: Message, a: Bytes, u: Bytes, v: Bytes, b: Bytes)
    requires |m| == |fields| && DecLoop(fields, Init(m), a).Ok? && !DecLoop(fields, Init(m), a).v.closed
    requires var st := DecLoop(fields, Init(m), a).v; Readable(fields, st, u) && Readable(fields, st, v)
    requires OtherTag(u, v) && Independent(fields, u, v)
    ensures DecMsg(fields, m, a + (u + v + b)) == DecMsg(fields, m, a + (v + u + b))
  {
    LoopConcat(fields, Init(m), a, u + v + b);
    LoopConcat(fields, Init(m), a, v + u + b);
    FieldsCommute(fields, DecLoop(fields, Init(m), a).v, u, v, b);
  }

  // ----- any number of fields -----

  function Joined(us: seq<Bytes>): (s: Bytes)
  {
    if us == [] then [] else us[0] + Joined(us[1..])
  }

  function Without(us: seq<Bytes>, k: nat): (r: seq<Bytes>)
    requires k < |us|
    ensures |r| == |us| - 1
  {
    us[..k] + us[k + 1..]
  }

  ghost predicate AllReadable(fields: seq<Field>, st: State, us: seq<Bytes>)
    requires |st.m| == |fields|
  {
    forall i :: 0 <= i < |us| ==> Readable(fields, st, us[i])
  }

  ghost predicate Strangers(fields: seq<Field>, us: seq<Bytes>)
  {
    forall i, j :: 0 <= i < |us| && 0 <= j < |us| && i != j ==>
                     OtherTag(us[i], us[j]) && Independent(fields, us[i], us[j])
  }

  /** What is left once one of the fields has been read. */
  lemma OthersRemain(fields: seq<Field>, st: State, us: seq<Bytes>, k: nat)
    requires |st.m| == |fields| && AllReadable(fields, st, us) && Strangers(fields, us) && k < |us|
    ensures AllReadable(fields, AfterField(fields, st, us[k]), Without(us, k)) && Strangers(fields, Without(us, k))
  {
    hide Independent, OtherTag, Readable;
    var r := Without(us, k);
    assert forall i :: 0 <= i < |r| ==> r[i] == us[if i < k then i else i + 1];
    forall i | 0 <= i < |r| ensures Readable(fields, AfterField(fields, st, us[k]), r[i]) {
      AfterFieldCommutes(fields, st, us[k], r[i]);
    }
  }

  lemma FirstRead(fields: seq<Field>, st: State, us: seq<Bytes>, t: Bytes)
    requires |st.m| == |fields| && us != [] && Readable(fields, st, us[0])
    ensures DecLoop(fields, st, Joined(us) + t) == DecLoop(fields, AfterField(fields, st, us[0]), Joined(us[1..]) + t)
  {
    Assoc(us[0], Joined(us[1..]), t);
    LoopReadable(fields, st, us[0], Joined(us[1..]) + t);
  }

  lemma WithoutLater(us: seq<Bytes>, k: nat)
    requires 0 < k < |us|
    ensures Without(us, k) != [] && Without(us, k)[0] == us[0] && Without(us, k)[1..] == Without(us[1..], k - 1)
  {
  }

  /** u first and then v of the others, or v first and then u. */
  lemma FrontStep(fields: seq<Field>, st: State, u: Bytes, v: Bytes, us: seq<Bytes>, t: Bytes)
    requires |st.m| == |fields| && Readable(fields, st, u) && Readable(fields, st, v)
    requires OtherTag(u, v) && Independent(fields, u, v) && us != [] && us[0] == u
    ensures Readable(fields, AfterField(fields, st, u), v)
    ensures DecLoop(fields, AfterField(fields, AfterField(fields, st, u), v), Joined(us[1..]) + t) ==
            DecLoop(fields, AfterField(fields, st, v), Joined(us) + t)
  {
    AfterFieldCommutes(fields, st, u, v);
    FirstRead(fields, AfterField(fields, st, v), us, t);
  }

  lemma RestRemain(fields: seq<Field>, st: State, us: seq<Bytes>)
    requires |st.m| == |fields| && AllReadable(fields, st, us) && Strangers(fields, us) && us != []
    ensures AllReadable(fields, AfterField(fields, st, us[0]), us[1..]) && Strangers(fields, us[1..])
  {
    OthersRemain(fields, st, us, 0);
    assert Without(us, 0) == us[1..];
  }

  /** Each of the fields might as well have come first. */
  lemma {:induction false} ToFront(fields: seq<Field>, st: State, us: seq<Bytes>, k: nat, t: Bytes)
    requires |st.m| == |fields| && AllReadable(fields, st, us) && Strangers(fields, us) && k < |us|
    ensures DecLoop(fields, st, Joined(us) + t) ==
            DecLoop(fields, AfterField(fields, st, us[k]), Joined(Without(us, k)) + t)
    decreases k
  {
    FirstRead(fields, st, us, t);
    if k == 0 {
      assert Without(us, 0) == us[1..];
    } else {
      WithoutLater(us, k);
      FrontStep(fields, st, us[0], us[k], Without(us, k), t);
      RestRemain(fields, st, us);
      ToFront(fields, AfterField(fields, st, us[0]), us[1..], k - 1, t);
    }
  }

  /** Fields of different tags that do not meet, each accepted in the state, give the same
      outcome in every order, whatever follows them. */
  lemma {:induction false} AnyOrder(fields: seq<Field>, st: State, us: seq<Bytes>, vs: seq<Bytes>, t: Bytes)
    requires |st.m| == |fields| && AllReadable(fields, st, us) && Strangers(fields, us)
    requires multiset(us) == multiset(vs)
    ensures DecLoop(fields, st, Joined(us) + t) == DecLoop(fields, st, Joined(vs) + t)
    decreases |us|
  {
    assert |us| == |multiset(us)| == |multiset(vs)| == |vs|;
    if us != [] {
      assert vs[0] in multiset(us);
      var k :| 0 <= k < |us| && us[k] == vs[0];
      WithoutFirst(us, k, vs);
      ToFront(fields, st, us, k, t);
      OthersRemain(fields, st, us, k);
      AnyOrder(fields, AfterField(fields, st, vs[0]), Without(us, k), vs[1..], t);
      FirstRead(fields, st, vs, t);
    }
  }

  lemma WithoutFirst(us: seq<Bytes>, k: nat, vs: seq<Bytes>)
    requires k < |us| && vs != [] && us[k] == vs[0] && multiset(us) == multiset(vs)
    ensures multiset(Without(us, k)) == multiset(vs[1..])
  {
    assert us == us[..k] + ([us[k]] + us[k + 1..]);
    assert vs == [vs[0]] + vs[1..];
    assert multiset(us) == multiset(us[..k]) + multiset{us[k]} + multiset(us[k + 1..]);
    assert multiset(vs) == multiset{vs[0]} + multiset(vs[1..]);
    assert multiset(Without(us, k)) == multiset(us) - multiset{us[k]};
  }
}
