/** Attributed text as characters that carry a list style, cut into paragraphs. A paragraph
    runs up to and including its newline; the last one may lack it. */
module Paragraphs {

  /** RZTextTabStyle: none, ul, ol. */
  datatype Tab = NoList | Bullet | Ordered
  datatype Ch = Ch(c: char, tab: Tab)
  type Text = seq<Ch>

  datatype Range = Range(loc: nat, len: nat) {
    function Max(): (m: nat) { loc + len }
  }

  /** End of the paragraph position i is in: past the next newline. */
  function ParaEnd(t: Text, i: nat): (e: nat)
    requires i <= |t|
    ensures i <= e <= |t| && (i < |t| ==> i < e)
    ensures forall k :: i <= k < e - 1 ==> t[k].c != '\n'
    ensures e < |t| ==> t[e - 1].c == '\n'
    decreases |t| - i
  {
    if i == |t| then i else if t[i].c == '\n' then i + 1 else ParaEnd(t, i + 1)
  }

  /** Start of the paragraph position i is in: past the previous newline. */
  function ParaStart(t: Text, i: nat): (s: nat)
    requires i <= |t|
    ensures s <= i
    ensures forall k :: s <= k < i ==> t[k].c != '\n'
    ensures s > 0 ==> t[s - 1].c == '\n'
  {
    if i == 0 || t[i - 1].c == '\n' then i else ParaStart(t, i - 1)
  }

  /** parapraghRange(for:) at an insertion point. */
  function ParaRange(t: Text, i: nat): (r: Range)
    requires i <= |t|
  {
    Range(ParaStart(t, i), ParaEnd(t, i) - ParaStart(t, i))
  }

  // ----- the list of paragraphs -----

  function Split(t: Text): (ps: seq<Text>)
    decreases |t|
  {
    if t == [] then [] else [t[..ParaEnd(t, 0)]] + Split(t[ParaEnd(t, 0)..])
  }

  function Join(ps: seq<Text>): (t: Text)
  {
    if ps == [] then [] else ps[0] + Join(ps[1..])
  }

  /** p is nonempty and a newline can only be its last character, where it must be unless
      p is the last paragraph. */
  predicate IsPara(p: Text, last: bool)
  {
    && p != [] && (forall k :: 0 <= k < |p| - 1 ==> p[k].c != '\n')
    && (last || p[|p| - 1].c == '\n')
  }

  predicate AreParas(ps: seq<Text>)
  {
    forall i :: 0 <= i < |ps| ==> IsPara(ps[i], i == |ps| - 1)
  }

  lemma {:induction false} SplitJoins(t: Text)
    ensures Join(Split(t)) == t && AreParas(Split(t))
    decreases |t|
  {
    if t != [] {
      var e := ParaEnd(t, 0);
      SplitJoins(t[e..]);
      assert t[..e] + t[e..] == t;
      HeadPara(t[..e], Split(t[e..]), t);
    }
  }

  lemma {:induction false} HeadPara(p: Text, ps: seq<Text>, t: Text)
    requires t != [] && p == t[..ParaEnd(t, 0)] && AreParas(ps) && (ps == [] ==> ParaEnd(t, 0) == |t|)
    ensures ps != [] && Join(ps) == t[ParaEnd(t, 0)..] ==> AreParas([p] + ps)
    ensures ps == [] ==> AreParas([p] + ps)
  {
    if ps != [] && Join(ps) == t[ParaEnd(t, 0)..] {
      assert IsPara(ps[0], |ps| == 1);
      assert IsPara(p, false);
    }
  }

  /** Paragraphs put together come apart as they were. */
  lemma {:induction false} JoinSplits(ps: seq<Text>)
    requires AreParas(ps)
    ensures Split(Join(ps)) == ps
    decreases |ps|
  {
    if ps != [] {
      var t := Join(ps);
      assert AreParas(ps[1..]) by {
        assert forall i :: 0 <= i < |ps[1..]| ==> ps[1..][i] == ps[i + 1];
      }
      JoinSplits(ps[1..]);
      assert IsPara(ps[0], |ps| == 1);
      FirstPara(ps[0], Join(ps[1..]));
      if |ps| == 1 {
        assert Join(ps[1..]) == [];
      }
    }
  }

  lemma FirstPara(p: Text, rest: Text)
    requires IsPara(p, rest == [])
    ensures ParaEnd(p + rest, 0) == |p|
    ensures (p + rest)[..|p|] == p && (p + rest)[|p|..] == rest
  {
    var t := p + rest;
    var e := ParaEnd(t, 0);
    assert forall k :: 0 <= k < |p| ==> t[k] == p[k];
  }

  lemma {:induction false} JoinConcat(a: seq<Text>, b: seq<Text>)
    ensures Join(a + b) == Join(a) + Join(b)
    decreases |a|
  {
    if a == [] {
      assert a + b == b;
    } else {
      JoinConcat(a[1..], b);
      assert (a + b)[1..] == a[1..] + b;
    }
  }

  // ----- ranges of paragraphs -----

  /** Where paragraph i starts in the joined text. */
  function Offset(ps: seq<Text>, i: nat): (n: nat)
    requires i <= |ps|
  {
    |Join(ps[..i])|
  }

  lemma OffsetStep(ps: seq<Text>, i: nat)
    requires i < |ps|
    ensures Offset(ps, i + 1) == Offset(ps, i) + |ps[i]|
  {
    assert ps[..i + 1] == ps[..i] + [ps[i]];
    JoinConcat(ps[..i], [ps[i]]);
    assert [ps[i]][1..] == [];
  }

  lemma {:induction false} JoinParts(ps: seq<Text>, i: nat)
    requires i < |ps|
    ensures Join(ps) == Join(ps[..i]) + ps[i] + Join(ps[i + 1..])
  {
    assert ps == ps[..i] + ps[i..];
    JoinConcat(ps[..i], ps[i..]);
    assert ps[i..][1..] == ps[i + 1..];
  }

  function RangeOf(ps: seq<Text>, i: nat): (r: Range)
    requires i < |ps|
  {
    Range(Offset(ps, i), |ps[i]|)
  }

  function Ranges(ps: seq<Text>): (rs: seq<Range>)
    ensures |rs| == |ps|
  {
    seq(|ps|, i requires 0 <= i < |ps| => RangeOf(ps, i))
  }

  lemma {:induction false} OffsetMonotone(ps: seq<Text>, i: nat, j: nat)
    requires i <= j <= |ps|
    ensures Offset(ps, i) <= Offset(ps, j) <= |Join(ps)|
    decreases |ps| - i
  {
    if i == j {
      if i == |ps| {
        assert ps[..i] == ps;
      } else {
        JoinParts(ps, i);
      }
    } else {
      OffsetStep(ps, i);
      OffsetMonotone(ps, i + 1, j);
    }
  }

  lemma OffsetEnd(ps: seq<Text>)
    ensures Offset(ps, |ps|) == |Join(ps)| && Offset(ps, 0) == 0
  {
    assert ps[..|ps|] == ps;
  }

  /** Paragraph i is found in the joined text at its offset. */
  lemma CharsOf(ps: seq<Text>, i: nat)
    requires i < |ps|
    ensures Offset(ps, i) + |ps[i]| <= |Join(ps)|
    ensures Join(ps)[Offset(ps, i)..Offset(ps, i) + |ps[i]|] == ps[i]
    ensures Offset(ps, i) + |ps[i]| < |Join(ps)| ==> i + 1 < |ps|
  {
    JoinParts(ps, i);
    assert i + 1 == |ps| ==> ps[i + 1..] == [];
  }

  /** The paragraph a position inside paragraph i belongs to is paragraph i. */
  lemma {:induction false} ParaRangeInside(ps: seq<Text>, i: nat, x: nat)
    requires AreParas(ps) && i < |ps| && Offset(ps, i) <= x < Offset(ps, i) + |ps[i]|
    ensures x < |Join(ps)| && ParaRange(Join(ps), x) == RangeOf(ps, i)
  {
    hide Join;
    CharsOf(ps, i);
    BeforePara(ps, i);
    assert IsPara(ps[i], i == |ps| - 1);
    RangeThere(Join(ps), Offset(ps, i), x, ps[i], i == |ps| - 1);
  }

  lemma RangeThere(t: Text, o: nat, x: nat, p: Text, last: bool)
    requires IsPara(p, last) && o <= x < o + |p| <= |t| && t[o..o + |p|] == p
    requires o > 0 ==> t[o - 1].c == '\n'
    requires o + |p| < |t| ==> !last
    ensures ParaRange(t, x) == Range(o, |p|)
  {
    assert forall k :: o <= k < o + |p| ==> t[k] == p[k - o];
    StartThere(t, o, x);
    EndThere(t, x, o + |p|);
  }

  /** What precedes paragraph i is nothing or a newline. */
  lemma {:induction false} BeforePara(ps: seq<Text>, i: nat)
    requires AreParas(ps) && i < |ps|
    ensures Offset(ps, i) <= |Join(ps)|
    ensures Offset(ps, i) > 0 ==> Join(ps)[Offset(ps, i) - 1].c == '\n'
  {
    JoinParts(ps, i);
    if i > 0 {
      OffsetStep(ps, i - 1);
      assert IsPara(ps[i - 1], false);
      JoinParts(ps, i - 1);
    }
  }

  lemma StartThere(t: Text, o: nat, x: nat)
    requires o <= x <= |t| && (o > 0 ==> t[o - 1].c == '\n')
    requires forall k :: o <= k < x ==> t[k].c != '\n'
    ensures ParaStart(t, x) == o
  {
    var s := ParaStart(t, x);
  }

  lemma EndThere(t: Text, x: nat, e: nat)
    requires x < e <= |t| && (e < |t| ==> t[e - 1].c == '\n')
    requires forall k :: x <= k < e - 1 ==> t[k].c != '\n'
    ensures ParaEnd(t, x) == e
  {
    var q := ParaEnd(t, x);
  }

  lemma OffsetStrict(ps: seq<Text>, i: nat)
    requires AreParas(ps) && i <= |ps|
    ensures i < |ps| <==> Offset(ps, i) < |Join(ps)|
  {
    OffsetEnd(ps);
    if i < |ps| {
      assert IsPara(ps[i], i == |ps| - 1);
      CharsOf(ps, i);
    }
  }

  /** allParapraghRange: hop from the start of one paragraph to its end. */
  method AllParagraphRanges(t: Text) returns (ranges: seq<Range>)
    ensures ranges == Ranges(Split(t))
  {
    hide Split, Join, ParaRange, AreParas;
    ghost var ps := Split(t);
    SplitJoins(t);
    OffsetEnd(ps);
    ranges := [];
    var loc: nat := 0;
    while loc < |t|
      invariant |ranges| <= |ps| && loc == Offset(ps, |ranges|) <= |t|
      invariant ranges == Ranges(ps)[..|ranges|]
      decreases |t| - loc
    {
      NextRange(ps, |ranges|);
      var r := ParaRange(t, loc);
      ranges := ranges + [r];
      loc := r.loc + r.len;
    }
    OffsetStrict(ps, |ranges|);
  }

  lemma NextRange(ps: seq<Text>, i: nat)
    requires AreParas(ps) && i <= |ps| && Offset(ps, i) < |Join(ps)|
    ensures i < |ps| && ps[i] != [] && Offset(ps, i + 1) == Offset(ps, i) + |ps[i]| <= |Join(ps)|
    ensures ParaRange(Join(ps), Offset(ps, i)) == RangeOf(ps, i)
  {
    OffsetStrict(ps, i);
    assert IsPara(ps[i], i == |ps| - 1);
    ParaRangeInside(ps, i, Offset(ps, i));
    OffsetStep(ps, i);
    CharsOf(ps, i);
  }
}
