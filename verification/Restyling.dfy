/** insetOrDeleteTabStyle: the selected paragraphs change their list style, the list is
    renumbered and the selection moves along. */
module Restyling {
  import opened Paragraphs
  import opened Renumbering

  // ----- which paragraphs a selection touches -----

  /** The filter of paragraphRanges(for:). */
  predicate Touches(r: Range, sel: Range, length: nat)
  {
    !(sel.Max() < r.loc) && !(r.Max() <= sel.loc && r.Max() != length)
  }

  /** Numbers of the paragraphs from i on that the selection touches. */
  function Chosen(ps: seq<Text>, sel: Range, i: nat): (idx: seq<nat>)
    requires i <= |ps|
    decreases |ps| - i
  {
    if i == |ps| then []
    else if Touches(RangeOf(ps, i), sel, |Join(ps)|) then [i] + Chosen(ps, sel, i + 1)
    else Chosen(ps, sel, i + 1)
  }

  /** They come in order, and they are all there. */
  lemma {:induction false} ChosenExact(ps: seq<Text>, sel: Range, i: nat)
    requires i <= |ps|
    ensures forall k :: 0 <= k < |Chosen(ps, sel, i)| ==> i <= Chosen(ps, sel, i)[k] < |ps|
    ensures forall k, l :: 0 <= k < l < |Chosen(ps, sel, i)| ==> Chosen(ps, sel, i)[k] < Chosen(ps, sel, i)[l]
    ensures forall j :: i <= j < |ps| ==> (j in Chosen(ps, sel, i) <==> Touches(RangeOf(ps, j), sel, |Join(ps)|))
    decreases |ps| - i
  {
    if i < |ps| {
      ChosenExact(ps, sel, i + 1);
    }
  }

  function ChosenRanges(ps: seq<Text>, idx: seq<nat>): (rs: seq<Range>)
    requires forall k :: 0 <= k < |idx| ==> idx[k] < |ps|
    ensures |rs| == |idx|
  {
    seq(|idx|, k requires 0 <= k < |idx| => RangeOf(ps, idx[k]))
  }

  /** The paragraph an insertion point belongs to; the end of the text counts to the last. */
  ghost predicate InLine(ps: seq<Text>, x: nat, i: nat)
  {
    && i < |ps| && Offset(ps, i) <= x <= Offset(ps, i) + |ps[i]|
    && (x == Offset(ps, i) + |ps[i]| ==> i == |ps| - 1)
  }

  lemma {:induction false} LineExists(ps: seq<Text>, x: nat, i: nat) returns (l: nat)
    requires i < |ps| && Offset(ps, i) <= x <= |Join(ps)|
    ensures i <= l && InLine(ps, x, l)
    decreases |ps| - i
  {
    OffsetStep(ps, i);
    if i == |ps| - 1 {
      OffsetEnd(ps);
      l := i;
    } else if x < Offset(ps, i + 1) {
      l := i;
    } else {
      l := LineExists(ps, x, i + 1);
    }
  }

  lemma RangesApart(ps: seq<Text>, i: nat, j: nat)
    requires i < j < |ps|
    ensures RangeOf(ps, i).Max() <= RangeOf(ps, j).loc
  {
    OffsetStep(ps, i);
    OffsetMonotone(ps, i + 1, j);
  }

  lemma NotLast(ps: seq<Text>, i: nat)
    requires AreParas(ps) && i < |ps|
    ensures RangeOf(ps, i).Max() == |Join(ps)| <==> i == |ps| - 1
  {
    OffsetStep(ps, i);
    OffsetStrict(ps, i + 1);
    OffsetMonotone(ps, i + 1, |ps|);
  }

  /** The touched paragraphs are exactly those from the line of the selection's start to the
      line of its end. */
  lemma TouchedBetween(ps: seq<Text>, sel: Range, f: nat, l: nat, i: nat)
    requires AreParas(ps) && sel.Max() <= |Join(ps)| && i < |ps|
    requires InLine(ps, sel.loc, f) && InLine(ps, sel.Max(), l)
    ensures f <= l && (Touches(RangeOf(ps, i), sel, |Join(ps)|) <==> f <= i <= l)
  {
    NotLast(ps, f);
    NotLast(ps, l);
    NotLast(ps, i);
    if l < f {
      RangesApart(ps, l, f);
    }
    if i < f {
      RangesApart(ps, i, f);
    } else if f < i {
      RangesApart(ps, f, i);
    }
    if l < i {
      RangesApart(ps, l, i);
    } else if i < l {
      RangesApart(ps, i, l);
    }
    assert IsPara(ps[i], i == |ps| - 1);
  }

  /** Some insertion point of the selection, its ends included, belongs to paragraph i. */
  ghost predicate Selects(ps: seq<Text>, sel: Range, i: nat)
  {
    exists x: nat :: sel.loc <= x <= sel.Max() && InLine(ps, x, i)
  }

  lemma TouchesExactly(ps: seq<Text>, sel: Range, i: nat)
    requires AreParas(ps) && sel.Max() <= |Join(ps)| && i < |ps|
    ensures Touches(RangeOf(ps, i), sel, |Join(ps)|) <==> Selects(ps, sel, i)
  {
    NotLast(ps, i);
    assert IsPara(ps[i], i == |ps| - 1);
    if Touches(RangeOf(ps, i), sel, |Join(ps)|) {
      assert InLine(ps, if sel.loc < Offset(ps, i) then Offset(ps, i) else sel.loc, i);
    }
  }

  /** The paragraphs chosen are exactly those the selection has an insertion point in. */
  lemma ChosenSelected(ps: seq<Text>, sel: Range, i: nat)
    requires AreParas(ps) && sel.Max() <= |Join(ps)| && i < |ps|
    ensures i in Chosen(ps, sel, 0) <==> Selects(ps, sel, i)
  {
    hide Chosen, Selects, Touches;
    ChosenExact(ps, sel, 0);
    TouchesExactly(ps, sel, i);
  }

  lemma {:induction false} FirstAndLast(ps: seq<Text>, sel: Range, f: nat, l: nat)
    requires AreParas(ps) && sel.Max() <= |Join(ps)|
    requires InLine(ps, sel.loc, f) && InLine(ps, sel.Max(), l)
    ensures var idx := Chosen(ps, sel, 0); idx != [] && idx[0] == f && idx[|idx| - 1] == l
  {
    var idx := Chosen(ps, sel, 0);
    ChosenExact(ps, sel, 0);
    TouchedBetween(ps, sel, f, l, f);
    TouchedBetween(ps, sel, f, l, l);
    assert f in idx && l in idx;
    var first, last := idx[0], idx[|idx| - 1];
    assert first in idx && last in idx;
    TouchedBetween(ps, sel, f, l, first);
    TouchedBetween(ps, sel, f, l, last);
  }

  // ----- splicing -----

  /** mutableTransParagraphTo on a paragraph stripped of its marker. */
  function Converted(p: Text, tab: Tab): (q: Text)
    ensures |q| == |Body(p)|
  {
    seq(|Body(p)|, k requires 0 <= k < |Body(p)| => Ch(Body(p)[k].c, tab))
  }

  /** Every paragraph of idx converted, the others as they are. */
  function Mapped(ps: seq<Text>, idx: seq<nat>, tab: Tab): (ms: seq<Text>)
    ensures |ms| == |ps|
  {
    seq(|ps|, i requires 0 <= i < |ps| => if i in idx then Converted(ps[i], tab) else ps[i])
  }

  function ReplaceRange(t: Text, r: Range, w: Text): (q: Text)
    requires r.Max() <= |t|
  {
    t[..r.loc] + w + t[r.Max()..]
  }

  lemma Resume(ps: seq<Text>, ms: seq<Text>, j: nat, b: nat)
    requires |ms| == |ps| && j <= b <= |ps| && forall i :: j <= i < b ==> ms[i] == ps[i]
    ensures Join(ps[..b]) + Join(ms[b..]) == Join(ps[..j]) + Join(ms[j..])
  {
    assert ps[..b] == ps[..j] + ps[j..b] && ms[j..] == ms[j..b] + ms[b..] && ps[j..b] == ms[j..b];
    JoinConcat(ps[..j], ps[j..b]);
    JoinConcat(ms[j..b], ms[b..]);
  }

  /** Replacing paragraph j in front of an already replaced tail. */
  lemma SpliceOne(ps: seq<Text>, ms: seq<Text>, j: nat)
    requires |ms| == |ps| && j < |ps|
    ensures var t := Join(ps[..j + 1]) + Join(ms[j + 1..]);
            && RangeOf(ps, j).Max() <= |t|
            && ReplaceRange(t, RangeOf(ps, j), ms[j]) == Join(ps[..j]) + Join(ms[j..])
  {
    AppendPara(ps, j);
    assert ms[j..][1..] == ms[j + 1..];
    assert ms[j..][0] == ms[j];
  }

  ghost predicate Increasing(idx: seq<nat>, limit: nat)
  {
    && (forall k :: 0 <= k < |idx| ==> idx[k] < limit)
    && (forall k, l :: 0 <= k < l < |idx| ==> idx[k] < idx[l])
  }

  /** The reversed loop of insetOrDeleteTabStyle: replacing from the back keeps the ranges
      in front valid, so the outcome is converting every paragraph in place. */
  method SpliceReversed(t: Text, ranges: seq<Range>, attrs: seq<Text>, ghost ps: seq<Text>, ghost idx: seq<nat>,
      ghost tab: Tab)
      returns (r: Text)
    requires t == Join(ps) && Increasing(idx, |ps|) && ranges == ChosenRanges(ps, idx)
    requires |attrs| == |idx| && forall k :: 0 <= k < |idx| ==> attrs[k] == Converted(ps[idx[k]], tab)
    ensures r == Join(Mapped(ps, idx, tab))
  {
    ghost var ms := Mapped(ps, idx, tab);
    r := t;
    var k := |ranges|;
    ghost var b := |ps|;
    assert ps[..b] == ps && ms[b..] == [];
    while k > 0
      invariant 0 <= k <= |idx| && b == if k < |idx| then idx[k] else |ps|
      invariant r == Join(ps[..b]) + Join(ms[b..])
    {
      k := k - 1;
      ghost var j := idx[k];
      SpliceNext(ps, idx, tab, k, b);
      r := ReplaceRange(r, ranges[k], attrs[k]);
      b := j;
    }
    NoneBefore(idx, b);
    Resume(ps, ms, 0, b);
    assert ps[..0] == [] && ms[0..] == ms;
  }

  /** The next replacement, of paragraph idx[k], when those from b on are done. */
  lemma SpliceNext(ps: seq<Text>, idx: seq<nat>, tab: Tab, k: nat, b: nat)
    requires Increasing(idx, |ps|) && k < |idx| && b == if k + 1 < |idx| then idx[k + 1] else |ps|
    ensures var ms, j := Mapped(ps, idx, tab), idx[k];
            var r := Join(ps[..b]) + Join(ms[b..]);
            && RangeOf(ps, j).Max() <= |r| && ms[j] == Converted(ps[j], tab)
            && ReplaceRange(r, RangeOf(ps, j), ms[j]) == Join(ps[..j]) + Join(ms[j..])
  {
    var ms, j := Mapped(ps, idx, tab), idx[k];
    NoneBetween(idx, k, j + 1, b);
    Resume(ps, ms, j + 1, b);
    SpliceOne(ps, ms, j);
    assert j in idx;
  }

  lemma NoneBetween(idx: seq<nat>, k: nat, lo: nat, hi: nat)
    requires k < |idx| && lo == idx[k] + 1 && (k + 1 < |idx| ==> hi == idx[k + 1])
    requires forall k, l :: 0 <= k < l < |idx| ==> idx[k] < idx[l]
    ensures forall i :: lo <= i < hi ==> i !in idx
  {
  }

  lemma NoneBefore(idx: seq<nat>, b: nat)
    requires |idx| > 0 ==> b == idx[0]
    requires forall k, l :: 0 <= k < l < |idx| ==> idx[k] < idx[l]
    ensures forall i :: 0 <= i < b ==> i !in idx
  {
  }

  lemma ChosenStep(ps: seq<Text>, sel: Range, i: nat, idx: seq<nat>, n: nat)
    requires i < |ps| && n <= |idx| && idx[n..] == Chosen(ps, sel, i)
    ensures if Touches(RangeOf(ps, i), sel, |Join(ps)|)
            then n < |idx| && idx[n] == i && idx[n + 1..] == Chosen(ps, sel, i + 1)
            else idx[n..] == Chosen(ps, sel, i + 1)
  {
    if Touches(RangeOf(ps, i), sel, |Join(ps)|) {
      assert idx[n..][0] == i && idx[n..][1..] == idx[n + 1..];
    }
  }

  /** The filter over all paragraph ranges. */
  method TouchedRanges(all: seq<Range>, sel: Range, length: nat, ghost ps: seq<Text>)
      returns (ranges: seq<Range>)
    requires all == Ranges(ps) && length == |Join(ps)|
    ensures Increasing(Chosen(ps, sel, 0), |ps|) && ranges == ChosenRanges(ps, Chosen(ps, sel, 0))
  {
    ChosenExact(ps, sel, 0);
    ghost var idx := Chosen(ps, sel, 0);
    ranges := [];
    var i := 0;
    while i < |all|
      invariant 0 <= i <= |all| && |ranges| <= |idx| && idx[|ranges|..] == Chosen(ps, sel, i)
      invariant forall k :: 0 <= k < |ranges| ==> ranges[k] == RangeOf(ps, idx[k])
    {
      ChosenStep(ps, sel, i, idx, |ranges|);
      if Touches(all[i], sel, length) {
        ranges := ranges + [all[i]];
      }
      i := i + 1;
    }
  }

  /** mutableTransParagraphTo: on an empty string it finds no style to change, adds one to no
      character and calls itself again, without end; ok is false then. */
  method TransParagraphTo(p: Text, tab: Tab) returns (ok: bool, q: Text)
    ensures ok <==> Body(p) != []
    ensures q == Converted(p, tab)
  {
    q := Converted(p, tab);
    ok := q != [];
  }

  ghost predicate NoBareMarker(ps: seq<Text>, idx: seq<nat>)
  {
    forall k :: 0 <= k < |idx| && idx[k] < |ps| ==> Body(ps[idx[k]]) != []
  }

  /** The forEach that strips and restyles the touched paragraphs. */
  method ConvertAll(t: Text, ranges: seq<Range>, tab: Tab, ghost ps: seq<Text>, ghost idx: seq<nat>)
      returns (ok: bool, attrs: seq<Text>)
    requires t == Join(ps) && Increasing(idx, |ps|) && ranges == ChosenRanges(ps, idx)
    ensures ok <==> NoBareMarker(ps, idx)
    ensures ok ==> |attrs| == |idx| && forall k :: 0 <= k < |idx| ==> attrs[k] == Converted(ps[idx[k]], tab)
  {
    hide Converted, Body, Join;
    ok, attrs := true, [];
    var i := 0;
    while i < |ranges|
      invariant 0 <= i <= |ranges| && |attrs| == i
      invariant forall k :: 0 <= k < i ==> attrs[k] == Converted(ps[idx[k]], tab) && Body(ps[idx[k]]) != []
    {
      CharsOf(ps, idx[i]);
      var attr;
      ok, attr := TransParagraphTo(t[ranges[i].loc..ranges[i].Max()], tab);
      if !ok {
        return;
      }
      attrs := attrs + [attr];
      i := i + 1;
    }
    ok := true;
  }

  // ----- the selection afterwards -----

  function IndexOf(rs: seq<Range>, r: Range): (i: nat)
    ensures i <= |rs|
  {
    if rs == [] || rs[0] == r then 0 else 1 + IndexOf(rs[1..], r)
  }

  lemma {:induction false} IndexOfFirst(rs: seq<Range>, i: nat)
    requires i < |rs| && forall k :: 0 <= k < i ==> rs[k] != rs[i]
    ensures IndexOf(rs, rs[i]) == i
    decreases i
  {
    if i > 0 {
      assert rs[1..][i - 1] == rs[i] && forall k :: 0 <= k < i - 1 ==> rs[1..][k] == rs[k + 1];
      IndexOfFirst(rs[1..], i - 1);
    }
  }

  function MaxInt(a: int, b: int): (m: int)
  {
    if a < b then b else a
  }

  /** One end of the selection carried over: as far from the end of its paragraph as it
      was, but not before its start. */
  function CarryOver(fromEnd: int, r: Range): (x: int)
  {
    MaxInt(r.Max() - fromEnd, r.loc)
  }

  /** Line numbers of the first and the last touched paragraph. */
  function Lines(ps: seq<Text>, sel: Range): (fl: (nat, nat))
  {
    ChosenExact(ps, sel, 0);
    var ranges := ChosenRanges(ps, Chosen(ps, sel, 0));
    if ranges == [] then (0, 0)
    else (IndexOf(Ranges(ps), ranges[0]), IndexOf(Ranges(ps), ranges[|ranges| - 1]))
  }

  /** Distance of an insertion point from the end of its paragraph. */
  function FromEnd(t: Text, x: nat): (d: int)
    requires x <= |t|
  {
    ParaRange(t, x).Max() - x
  }

  /** newRangeFor: start and end of the new selection. */
  function NewRangeFor(origin: Text, sel: Range, new_: Text): (r: (int, int))
    requires sel.Max() <= |origin| && |Split(origin)| == |Split(new_)|
  {
    if Split(origin) == [] then (sel.loc, sel.Max())
    else
      var (first, last) := Lines(Split(origin), sel);
      var newRanges := Ranges(Split(new_));
      if first < |newRanges| && last < |newRanges| then
        (CarryOver(FromEnd(origin, sel.loc), newRanges[first]), CarryOver(FromEnd(origin, sel.Max()), newRanges[last]))
      else (0, 0)
  }

  lemma LineIndex(ps: seq<Text>, i: nat)
    requires AreParas(ps) && i < |ps|
    ensures IndexOf(Ranges(ps), RangeOf(ps, i)) == i
  {
    forall k | 0 <= k < i ensures Ranges(ps)[k] != Ranges(ps)[i] {
      RangesApart(ps, k, i);
      assert IsPara(ps[k], k == |ps| - 1);
    }
    IndexOfFirst(Ranges(ps), i);
  }

  lemma FromEndExact(ps: seq<Text>, x: nat, l: nat)
    requires AreParas(ps) && InLine(ps, x, l)
    ensures x <= |Join(ps)| && FromEnd(Join(ps), x) == Offset(ps, l) + |ps[l]| - x
  {
    CharsOf(ps, l);
    if x < Offset(ps, l) + |ps[l]| {
      ParaRangeInside(ps, l, x);
    } else {
      NotLast(ps, l);
    }
  }

  lemma {:induction false} LinesExact(ps: seq<Text>, sel: Range, f: nat, l: nat)
    requires AreParas(ps) && sel.Max() <= |Join(ps)|
    requires InLine(ps, sel.loc, f) && InLine(ps, sel.Max(), l)
    ensures Lines(ps, sel) == (f, l)
  {
    ChosenExact(ps, sel, 0);
    FirstAndLast(ps, sel, f, l);
    LineIndex(ps, f);
    LineIndex(ps, l);
  }

  lemma NewRangeValue(origin: Text, sel: Range, new_: Text, f: nat, l: nat)
    requires sel.Max() <= |origin| && |Split(origin)| == |Split(new_)|
    requires f < |Split(origin)| && l < |Split(origin)| && Lines(Split(origin), sel) == (f, l)
    ensures NewRangeFor(origin, sel, new_) ==
            (CarryOver(FromEnd(origin, sel.loc), RangeOf(Split(new_), f)),
             CarryOver(FromEnd(origin, sel.Max()), RangeOf(Split(new_), l)))
  {
  }

  /** One end carried over from paragraph p to paragraph q of the same number. */
  ghost predicate CarriedTo(fromEnd: int, q: Range, x: int)
  {
    && q.loc <= x <= q.Max()
    && (fromEnd <= q.len ==> x == q.Max() - fromEnd)
    && (fromEnd > q.len ==> x == q.loc)
  }

  lemma CarryOverIn(fromEnd: nat, q: Range)
    ensures CarriedTo(fromEnd, q, CarryOver(fromEnd, q))
  {
  }

  /** The two ends stay in order: in different paragraphs by their places, in the same one
      because the second end was not further from the paragraph's end. */
  lemma CarryOverInOrder(d: nat, e: nat, q: Range, r: Range)
    requires if q == r then e <= d else q.Max() <= r.loc
    ensures CarryOver(d, q) <= CarryOver(e, r)
  {
  }

  lemma LinesInOrder(ps: seq<Text>, sel: Range, f: nat, l: nat)
    requires AreParas(ps) && sel.Max() <= |Join(ps)|
    requires InLine(ps, sel.loc, f) && InLine(ps, sel.Max(), l)
    ensures f <= l
    ensures FromEnd(Join(ps), sel.loc) >= 0 && FromEnd(Join(ps), sel.Max()) >= 0
    ensures f == l ==> FromEnd(Join(ps), sel.Max()) <= FromEnd(Join(ps), sel.loc)
  {
    TouchedBetween(ps, sel, f, l, f);
    FromEndExact(ps, sel.loc, f);
    FromEndExact(ps, sel.Max(), l);
  }

  lemma CarriedInLine(ps: seq<Text>, qs: seq<Text>, x: nat, i: nat)
    requires AreParas(ps) && AreParas(qs) && |ps| == |qs| && InLine(ps, x, i)
    ensures x <= |Join(ps)|
    ensures var y := CarryOver(FromEnd(Join(ps), x), RangeOf(qs, i));
            y >= 0 && InLine(qs, y, i) && CarriedTo(FromEnd(Join(ps), x), RangeOf(qs, i), y)
  {
    FromEndExact(ps, x, i);
    CarryOverIn(FromEnd(Join(ps), x), RangeOf(qs, i));
    assert IsPara(qs[i], i == |qs| - 1);
  }

  /** The new selection is well formed: each end lies in the paragraph of the same number,
      as far from its end as before where the paragraph is long enough and at its start
      otherwise, and the start does not come after the end. */
  lemma NewRangeGood(origin: Text, sel: Range, new_: Text, f: nat, l: nat)
    requires sel.Max() <= |origin| && |Split(origin)| == |Split(new_)|
    requires InLine(Split(origin), sel.loc, f) && InLine(Split(origin), sel.Max(), l)
    ensures var qs := Split(new_);
            var (start, end) := NewRangeFor(origin, sel, new_);
            && 0 <= start <= end <= |new_|
            && InLine(qs, start, f) && InLine(qs, end, l)
            && CarriedTo(FromEnd(origin, sel.loc), RangeOf(qs, f), start)
            && CarriedTo(FromEnd(origin, sel.Max()), RangeOf(qs, l), end)
  {
    var ps, qs := Split(origin), Split(new_);
    SplitJoins(origin);
    SplitJoins(new_);
    LinesExact(ps, sel, f, l);
    LinesInOrder(ps, sel, f, l);
    NewRangeValue(origin, sel, new_, f, l);
    EndsInOrder(qs, f, l);
    CarriedInLine(ps, qs, sel.loc, f);
    CarriedInLine(ps, qs, sel.Max(), l);
    CarryOverInOrder(FromEnd(origin, sel.loc), FromEnd(origin, sel.Max()), RangeOf(qs, f), RangeOf(qs, l));
  }

  /** For every selection in a nonempty text there are such paragraphs. */
  lemma NewRangeTotal(origin: Text, sel: Range, new_: Text) returns (f: nat, l: nat)
    requires origin != [] && sel.Max() <= |origin| && |Split(origin)| == |Split(new_)|
    ensures InLine(Split(origin), sel.loc, f) && InLine(Split(origin), sel.Max(), l)
    ensures var (start, end) := NewRangeFor(origin, sel, new_);
            0 <= start <= end <= |new_| && InLine(Split(new_), start, f) && InLine(Split(new_), end, l)
  {
    SplitJoins(origin);
    f := LineExists(Split(origin), sel.loc, 0);
    l := LineExists(Split(origin), sel.Max(), 0);
    NewRangeGood(origin, sel, new_, f, l);
  }

  lemma EndsInOrder(qs: seq<Text>, f: nat, l: nat)
    requires f <= l < |qs|
    ensures RangeOf(qs, l).Max() <= |Join(qs)| && (f < l ==> RangeOf(qs, f).Max() <= RangeOf(qs, l).loc)
  {
    CharsOf(qs, l);
    if f < l {
      RangesApart(qs, f, l);
    }
  }

  // ----- the whole operation -----

  /** A converted paragraph is still a paragraph, unless nothing of it is left. */
  lemma ConvertedPara(p: Text, tab: Tab, last: bool)
    requires IsPara(p, last) && Body(p) != []
    ensures IsPara(Converted(p, tab), last)
  {
    HeadNoNewline(p);
  }

  lemma MappedParas(ps: seq<Text>, idx: seq<nat>, tab: Tab)
    requires AreParas(ps) && NoBareMarker(ps, idx)
    ensures AreParas(Mapped(ps, idx, tab))
  {
    var ms := Mapped(ps, idx, tab);
    forall i | 0 <= i < |ps| ensures IsPara(ms[i], i == |ms| - 1) {
      assert IsPara(ps[i], i == |ps| - 1);
      if i in idx {
        ConvertedPara(ps[i], tab, i == |ps| - 1);
      }
    }
  }

  /** A paragraph that ends at its newline is never a bare marker. */
  lemma NewlineRemains(p: Text)
    requires IsPara(p, false)
    ensures Body(p) != []
  {
    HeadNoNewline(p);
  }

  /** When the operation returns, in terms of the text: only the last paragraph can be a bare
      marker, and it is touched just when the selection reaches it. */
  lemma ReturnsExactly(t: Text, sel: Range)
    ensures var ps := Split(t);
            NoBareMarker(ps, Chosen(ps, sel, 0)) <==>
            ps != [] ==> Body(ps[|ps| - 1]) != [] || sel.Max() < RangeOf(ps, |ps| - 1).loc
  {
    hide Split, Join, Chosen, Body;
    var ps := Split(t);
    SplitJoins(t);
    ChosenExact(ps, sel, 0);
    forall i | 0 <= i < |ps| - 1 ensures Body(ps[i]) != [] {
      assert IsPara(ps[i], false);
      NewlineRemains(ps[i]);
    }
    if ps != [] {
      LastTouched(ps, sel);
    }
  }

  lemma LastTouched(ps: seq<Text>, sel: Range)
    requires ps != []
    ensures Touches(RangeOf(ps, |ps| - 1), sel, |Join(ps)|) <==> RangeOf(ps, |ps| - 1).loc <= sel.Max()
  {
    OffsetEnd(ps);
    OffsetStep(ps, |ps| - 1);
  }

  /** A document that is one bare marker, of either list style and any number: with the
      cursor anywhere in it the operation does not return. */
  lemma BareMarkerEndless(style: Tab, n: nat, sel: Range)
    requires !style.NoList?
    ensures var ps := Split(Styled(MarkerString(style, n), style));
            ps != [] && Body(ps[0]) == [] && !NoBareMarker(ps, Chosen(ps, sel, 0))
  {
    var t := Styled(MarkerString(style, n), style);
    HeadOfMarked(style, style, n, []);
    assert t + [] == t;
    HeadNoNewline(t);
    assert AreParas([t]) && Join([t]) == t;
    JoinSplits([t]);
    ReturnsExactly(t, sel);
  }

  /** ms is ps with the paragraphs the selection has a point in stripped of their markers and
      given the style tab, character by character, and all others as they were. */
  ghost predicate Restyled(ps: seq<Text>, sel: Range, tab: Tab, ms: seq<Text>)
  {
    && |ms| == |ps|
    && forall i :: 0 <= i < |ps| ==>
         if Selects(ps, sel, i) then
           && |ms[i]| == |Body(ps[i])|
           && forall k :: 0 <= k < |ms[i]| ==> ms[i][k] == Ch(Body(ps[i])[k].c, tab)
         else ms[i] == ps[i]
  }

  lemma MappedRestyles(ps: seq<Text>, sel: Range, tab: Tab)
    requires AreParas(ps) && sel.Max() <= |Join(ps)|
    ensures Restyled(ps, sel, tab, Mapped(ps, Chosen(ps, sel, 0), tab))
  {
    hide Selects, Body, Chosen, Join;
    forall i | 0 <= i < |ps| ensures i in Chosen(ps, sel, 0) <==> Selects(ps, sel, i) {
      ChosenSelected(ps, sel, i);
    }
  }

  /** The text the operation works on: an empty document becomes one empty paragraph when a
      list is asked for. */
  function Document(text: Text, typing: Tab, tab: Tab): (t: Text)
  {
    if text == [] && tab != NoList then [Ch('\n', typing)] else text
  }

  /** What a list begun in an empty document looks like. */
  function FirstItem(tab: Tab): (t: Text)
  {
    match tab
    case NoList => []
    case Bullet => Styled("\t\U{2022}\t\n", tab)
    case Ordered => Styled("\t1.\t\n", tab)
  }

  lemma NewlineParas(tab: Tab)
    ensures Split([Ch('\n', tab)]) == [[Ch('\n', tab)]] && Join([[Ch('\n', tab)]]) == [Ch('\n', tab)]
    ensures Body([Ch('\n', tab)]) == [Ch('\n', tab)]
  {
    var t: Text := [Ch('\n', tab)];
    assert ParaEnd(t, 0) == 1 && t[..1] == t && t[1..] == [];
    assert [t][1..] == [];
  }

  lemma AloneChosen(p: Text, sel: Range)
    requires sel.Max() == 0 && Join([p]) == p && p != []
    ensures Chosen([p], sel, 0) == [0]
  {
    assert [p][..0] == [];
    assert Chosen([p], sel, 1) == [];
  }

  lemma ListBegun(typing: Tab, sel: Range, tab: Tab)
    requires sel.Max() == 0 && tab != NoList
    ensures var ps := Split(Document([], typing, tab));
            Join(Mapped(ps, Chosen(ps, sel, 0), tab)) == [Ch('\n', tab)] && ps == [[Ch('\n', typing)]]
  {
    hide Split, Body, Join, Chosen;
    NewlineParas(typing);
    NewlineParas(tab);
    var p: Text := [Ch('\n', typing)];
    AloneChosen(p, sel);
    assert Converted(p, tab) == [Ch('\n', tab)];
    assert Mapped([p], [0], tab) == [[Ch('\n', tab)]];
  }

  lemma FirstMarker(tab: Tab)
    requires tab != NoList
    ensures Styled(MarkerString(tab, 1), tab) + [Ch('\n', tab)] == FirstItem(tab)
  {
    assert tab.Ordered? ==> MarkerString(tab, 1) == ['\t', '1', '.', '\t'];
  }

  lemma FirstNumbered(tab: Tab)
    requires tab != NoList
    ensures Renumbered([Ch('\n', tab)]) == FirstItem(tab)
  {
    hide FirstItem, MarkerString, Split, Body, Styled;
    var t: Text := [Ch('\n', tab)];
    NewlineParas(tab);
    FirstMarker(tab);
    var q := Numbered(t, 1);
    assert NumberedParas([t]) == [q];
    assert Join([q]) == q by { assert [q][1..] == []; }
  }

  /** insetOrDeleteTabStyle. It returns exactly when the selection does not reach a bare marker
      at the end of the text. */
  method InsetOrDeleteTabStyle(text: Text, typing: Tab, sel: Range, tab: Tab)
      returns (done: bool, r: Text, selection: (int, int))
    requires sel.Max() <= |text|
    ensures var ps := Split(Document(text, typing, tab));
            done <==> (ps != [] ==> Body(ps[|ps| - 1]) != [] || sel.Max() < RangeOf(ps, |ps| - 1).loc)
    ensures var ps := Split(Document(text, typing, tab));
            var ms := Mapped(ps, Chosen(ps, sel, 0), tab);
            && Restyled(ps, sel, tab, ms)
            && (done ==> r == Renumbered(Join(ms)) && AreParas(ms) && Nonempty(ms) && Split(r) == NumberedParas(ms))
    ensures done && text != [] ==> |Split(r)| == |Split(text)| && selection == NewRangeFor(text, sel, r)
    ensures text == [] ==> done && r == FirstItem(tab) && selection == (sel.loc, sel.Max())
  {
    var t := Document(text, typing, tab);
    ghost var ps := Split(t);
    ghost var idx := Chosen(ps, sel, 0);
    SplitJoins(t);
    ReturnsExactly(t, sel);
    MappedRestyles(ps, sel, tab);
    if text == [] && tab != NoList {
      ListBegun(typing, sel, tab);
      NewlineParas(typing);
    }
    var all := AllParagraphRanges(t);
    var ranges := TouchedRanges(all, sel, |t|, ps);
    var attrs;
    selection := (sel.loc, sel.Max());
    done, attrs := ConvertAll(t, ranges, tab, ps, idx);
    if !done {
      return false, text, selection;
    }
    var spliced := SpliceReversed(t, ranges, attrs, ps, idx, tab);
    MappedParas(ps, idx, tab);
    ParasNonempty(Mapped(ps, idx, tab));
    JoinSplits(Mapped(ps, idx, tab));
    r := ResetTabOrderNumber(spliced);
    RenumberedParas(spliced);
    if text != [] {
      selection := NewRangeFor(text, sel, r);
    } else if tab != NoList {
      FirstNumbered(tab);
    }
  }
}
