/** resetTabOrderNumber: every list paragraph gets the marker of its place in its run. */
module Renumbering {
  import opened Paragraphs

  // ----- markers -----

  predicate IsDigit(c: char)
  {
    '0' <= c <= '9'
  }

  function DigitChar(d: nat): (c: char)
    requires d < 10
    ensures IsDigit(c)
  {
    "0123456789"[d]
  }

  /** Decimal notation, as Swift prints an Int. */
  function Decimal(n: nat): (s: string)
    ensures s != [] && forall i :: 0 <= i < |s| ==> IsDigit(s[i])
  {
    if n < 10 then [DigitChar(n)] else Decimal(n / 10) + [DigitChar(n % 10)]
  }

  function DigitValue(c: char): (d: nat)
    requires IsDigit(c)
  {
    c as int - '0' as int
  }

  /** The number a string of digits denotes. */
  function Value(s: string): (n: nat)
    requires forall i :: 0 <= i < |s| ==> IsDigit(s[i])
  {
    if s == [] then 0 else 10 * Value(s[..|s| - 1]) + DigitValue(s[|s| - 1])
  }

  /** The printed number is the number meant. */
  lemma {:induction false} DecimalValue(n: nat)
    ensures Value(Decimal(n)) == n
  {
    if n >= 10 {
      DecimalValue(n / 10);
      assert Decimal(n)[..|Decimal(n)| - 1] == Decimal(n / 10);
    } else {
      assert Decimal(n)[..0] == [];
    }
  }

  function MarkerString(tab: Tab, n: nat): (s: string)
  {
    if tab.Bullet? then "\t\U{2022}\t" else "\t" + Decimal(n) + ".\t"
  }

  /** Characters with one style. */
  function Styled(s: string, tab: Tab): (t: Text)
    ensures |t| == |s|
  {
    seq(|s|, i requires 0 <= i < |s| => Ch(s[i], tab))
  }

  function LeadingDigits(t: Text): (n: nat)
    ensures n <= |t| && (forall i :: 0 <= i < n ==> IsDigit(t[i].c)) && (n < |t| ==> !IsDigit(t[n].c))
  {
    if t == [] || !IsDigit(t[0].c) then 0 else 1 + LeadingDigits(t[1..])
  }

  /** headTabRange: length of the list marker p starts with, 0 without one. */
  function HeadLength(p: Text): (n: nat)
    ensures n <= |p|
  {
    if p == [] || p[0].c != '\t' then 0
    else
      var k := LeadingDigits(p[1..]);
      if k > 0 && |p| > k + 2 && p[k + 1].c == '.' && p[k + 2].c == '\t' then k + 3
      else if |p| > 2 && p[1].c == '\U{2022}' && p[2].c == '\t' then 3
      else 0
  }

  /** removeHeadTabString. */
  function Body(p: Text): (b: Text)
  {
    p[HeadLength(p)..]
  }

  lemma LeadingDigitsExact(t: Text, n: nat)
    requires n < |t| && (forall i :: 0 <= i < n ==> IsDigit(t[i].c)) && !IsDigit(t[n].c)
    ensures LeadingDigits(t) == n
  {
    var k := LeadingDigits(t);
  }

  /** A marker put in front is recognised in full, whatever follows. */
  lemma HeadOfMarked(tab: Tab, style: Tab, n: nat, rest: Text)
    requires !tab.NoList?
    ensures HeadLength(Styled(MarkerString(tab, n), style) + rest) == |MarkerString(tab, n)|
  {
    var s := MarkerString(tab, n);
    var p := Styled(s, style) + rest;
    if tab.Ordered? {
      var d := Decimal(n);
      assert forall i :: 0 <= i < |d| ==> p[1..][i].c == d[i];
      assert p[1..][|d|].c == '.' && p[|d| + 2].c == '\t';
      LeadingDigitsExact(p[1..], |d|);
    }
  }

  /** The whole of s matches tabPattern: tab, digits, dot, tab, or tab, bullet, tab. */
  ghost predicate IsMarker(s: Text)
  {
    && |s| >= 3 && s[0].c == '\t' && s[|s| - 1].c == '\t'
    && if s[1].c == '\U{2022}' then |s| == 3
       else |s| >= 4 && s[|s| - 2].c == '.' && forall i :: 1 <= i < |s| - 2 ==> '0' <= s[i].c <= '9'
  }

  /** The head found is a marker, and whatever marker stands at the head is found in full. */
  lemma HeadExact(p: Text, n: nat)
    requires n <= |p|
    ensures HeadLength(p) > 0 ==> IsMarker(p[..HeadLength(p)])
    ensures IsMarker(p[..n]) ==> HeadLength(p) == n
  {
    if p != [] && p[0].c == '\t' {
      var k := LeadingDigits(p[1..]);
      assert forall i :: 1 <= i <= k ==> p[i] == p[1..][i - 1];
      if IsMarker(p[..n]) && n >= 4 {
        assert forall i :: 0 <= i < n - 3 ==> p[1..][i] == p[..n][i + 1];
        assert p[1..][n - 3] == p[..n][n - 2];
        LeadingDigitsExact(p[1..], n - 3);
      }
    }
  }

  // ----- the specification, paragraph by paragraph -----

  function Style(p: Text): (tab: Tab)
    requires p != []
  {
    p[0].tab
  }

  ghost predicate Nonempty(ps: seq<Text>)
  {
    forall i :: 0 <= i < |ps| ==> ps[i] != []
  }

  /** Place of paragraph i, counted from 1, in its maximal run of equal styles. */
  function RunIndex(ps: seq<Text>, i: nat): (n: nat)
    requires Nonempty(ps) && i < |ps|
    ensures 1 <= n <= i + 1
  {
    if i == 0 || Style(ps[i - 1]) != Style(ps[i]) then 1 else RunIndex(ps, i - 1) + 1
  }

  /** The run that RunIndex counts in is as long as it can be: the last n paragraphs up to i
      start with one style, and the one before them, if any, with another. */
  lemma {:induction false} RunIndexMaximal(ps: seq<Text>, i: nat)
    requires Nonempty(ps) && i < |ps|
    ensures var n := RunIndex(ps, i);
            && (forall j :: i - n < j <= i ==> ps[j][0].tab == ps[i][0].tab)
            && (n <= i ==> ps[i - n][0].tab != ps[i][0].tab)
    decreases i
  {
    if i > 0 && Style(ps[i - 1]) == Style(ps[i]) {
      RunIndexMaximal(ps, i - 1);
    }
  }

  /** A plain paragraph as it is, a list paragraph with the marker of number n. */
  function Numbered(p: Text, n: nat): (q: Text)
    requires p != []
    ensures q != []
  {
    if Style(p).NoList? then p else Styled(MarkerString(Style(p), n), Style(p)) + Body(p)
  }

  function NumberedParas(ps: seq<Text>): (qs: seq<Text>)
    requires Nonempty(ps)
    ensures |qs| == |ps|
  {
    seq(|ps|, i requires 0 <= i < |ps| => Numbered(ps[i], RunIndex(ps, i)))
  }

  ghost function Renumbered(t: Text): (r: Text)
  {
    SplitJoins(t);
    ParasNonempty(Split(t));
    Join(NumberedParas(Split(t)))
  }

  lemma ParasNonempty(ps: seq<Text>)
    requires AreParas(ps)
    ensures Nonempty(ps)
  {
    forall i | 0 <= i < |ps| ensures ps[i] != [] {
      assert IsPara(ps[i], i == |ps| - 1);
    }
  }

  lemma DecimalNoNewline(tab: Tab, n: nat)
    ensures forall i :: 0 <= i < |MarkerString(tab, n)| ==> MarkerString(tab, n)[i] != '\n'
  {
    var d := Decimal(n);
    assert forall i :: 0 <= i < |d| ==> d[i] != '\n';
  }

  /** The marker found at a head holds no newline. */
  lemma HeadNoNewline(p: Text)
    ensures forall i :: 0 <= i < HeadLength(p) ==> p[i].c != '\n'
  {
    if p != [] && p[0].c == '\t' {
      var k := LeadingDigits(p[1..]);
      assert forall i :: 1 <= i <= k ==> p[i] == p[1..][i - 1];
    }
  }

  /** Renumbering keeps a paragraph a paragraph, its style and its text behind the marker. */
  lemma NumberedKeeps(p: Text, n: nat, last: bool)
    requires IsPara(p, last)
    ensures IsPara(Numbered(p, n), last) && Style(Numbered(p, n)) == Style(p)
    ensures !Style(p).NoList? ==> Body(Numbered(p, n)) == Body(p)
  {
    if !Style(p).NoList? {
      HeadOfMarked(Style(p), Style(p), n, Body(p));
      DecimalNoNewline(Style(p), n);
      BodyEnds(p, last);
      PrefixedPara(Styled(MarkerString(Style(p), n), Style(p)), Body(p), last);
    }
  }

  /** What follows the marker of a paragraph holds a newline only as the paragraph does. */
  lemma BodyEnds(p: Text, last: bool)
    requires IsPara(p, last)
    ensures var b := Body(p); (b != [] ==> IsPara(b, last)) && (b == [] ==> last)
  {
    HeadNoNewline(p);
  }

  lemma PrefixedPara(m: Text, b: Text, last: bool)
    requires m != [] && (forall i :: 0 <= i < |m| ==> m[i].c != '\n')
    requires (b != [] ==> IsPara(b, last)) && (b == [] ==> last)
    ensures IsPara(m + b, last)
  {
    var q := m + b;
    assert forall k :: 0 <= k < |q| ==> q[k] == if k < |m| then m[k] else b[k - |m|];
  }

  lemma NumberedParasKeep(ps: seq<Text>)
    requires AreParas(ps) && Nonempty(ps)
    ensures AreParas(NumberedParas(ps)) && Nonempty(NumberedParas(ps))
    ensures forall i :: 0 <= i < |ps| ==> Style(NumberedParas(ps)[i]) == Style(ps[i])
  {
    var qs := NumberedParas(ps);
    forall i | 0 <= i < |ps| ensures IsPara(qs[i], i == |qs| - 1) && Style(qs[i]) == Style(ps[i]) && qs[i] != [] {
      assert IsPara(ps[i], i == |ps| - 1);
      NumberedKeeps(ps[i], RunIndex(ps, i), i == |ps| - 1);
    }
  }

  lemma {:induction false} RunIndexByStyle(ps: seq<Text>, qs: seq<Text>, i: nat)
    requires Nonempty(ps) && Nonempty(qs) && |ps| == |qs| && i < |ps|
    requires forall k :: 0 <= k < |ps| ==> Style(qs[k]) == Style(ps[k])
    ensures RunIndex(qs, i) == RunIndex(ps, i)
    decreases i
  {
    if i > 0 {
      RunIndexByStyle(ps, qs, i - 1);
    }
  }

  /** The renumbered text has the paragraphs of the old one, each with the marker of its
      place and its text behind the marker untouched. */
  lemma RenumberedParas(t: Text)
    ensures AreParas(Split(t)) && Nonempty(Split(t))
    ensures Split(Renumbered(t)) == NumberedParas(Split(t))
  {
    var ps := Split(t);
    SplitJoins(t);
    ParasNonempty(ps);
    NumberedParasKeep(ps);
    JoinSplits(NumberedParas(ps));
  }

  /** The n-th paragraph of a run carries exactly the marker tab-n-dot-tab, and the number
      read back from it is n. */
  lemma MarkerOfPlace(t: Text, i: nat)
    requires i < |Split(t)|
    ensures AreParas(Split(t)) && Nonempty(Split(t)) && |Split(Renumbered(t))| == |Split(t)|
    ensures var p, q, n := Split(t)[i], Split(Renumbered(t))[i], RunIndex(Split(t), i);
            p != [] &&
            match p[0].tab
            case NoList => q == p
            case Bullet => q == Styled("\t\U{2022}\t", Bullet) + Body(p)
            case Ordered => q == Styled("\t" + Decimal(n) + ".\t", Ordered) + Body(p) && Value(Decimal(n)) == n
  {
    hide Body, Decimal, Value, Styled, Split, RunIndex, Renumbered;
    RenumberedParas(t);
    DecimalValue(RunIndex(Split(t), i));
    assert Split(Renumbered(t))[i] == Numbered(Split(t)[i], RunIndex(Split(t), i));
  }

  /** Numbering a second time puts the same marker back. */
  lemma NumberedTwice(p: Text, n: nat, last: bool)
    requires IsPara(p, last)
    ensures Numbered(Numbered(p, n), n) == Numbered(p, n)
  {
    NumberedKeeps(p, n, last);
  }

  /** Renumbering is idempotent. */
  lemma RenumberedTwice(t: Text)
    ensures Renumbered(Renumbered(t)) == Renumbered(t)
  {
    hide Split, Join, Style, RunIndex, Numbered;
    var ps := Split(t);
    RenumberedParas(t);
    RenumberedParas(Renumbered(t));
    NumberedParasKeep(ps);
    var qs := NumberedParas(ps);
    forall i | 0 <= i < |ps| ensures NumberedParas(qs)[i] == qs[i] {
      assert IsPara(ps[i], i == |ps| - 1);
      RunIndexByStyle(ps, qs, i);
      NumberedTwice(ps[i], RunIndex(ps, i), i == |ps| - 1);
    }
    assert NumberedParas(qs) == qs;
  }

  // ----- the method: group equal styles, then number each group -----

  function Total(groups: seq<seq<Text>>): (n: nat)
  {
    if groups == [] then 0 else Total(groups[..|groups| - 1]) + |groups[|groups| - 1]|
  }

  /** The groups so far are ps[..Total(groups)], and place k of a group is k + 1 in its
      run. */
  ghost predicate Grouped(ps: seq<Text>, groups: seq<seq<Text>>)
    requires Nonempty(ps)
  {
    if groups == [] then true
    else
      var init, g := groups[..|groups| - 1], groups[|groups| - 1];
      Grouped(ps, init) && RunAt(ps, Total(init), g)
  }

  /** g lies in ps at position s and is numbered there from 1. */
  ghost predicate RunAt(ps: seq<Text>, s: nat, g: seq<Text>)
    requires Nonempty(ps)
  {
    && s + |g| <= |ps| && ps[s..s + |g|] == g
    && forall j :: s <= j < s + |g| ==> RunIndex(ps, j) == j - s + 1
  }

  lemma {:induction false} GroupAdded(ps: seq<Text>, groups: seq<seq<Text>>, g: seq<Text>)
    requires Nonempty(ps) && Grouped(ps, groups) && RunAt(ps, Total(groups), g)
    ensures Grouped(ps, groups + [g]) && Total(groups + [g]) == Total(groups) + |g|
  {
    assert (groups + [g])[..|groups|] == groups;
  }

  /** The first i paragraphs are in groups, the current run among them in same. */
  ghost predicate Collecting(ps: seq<Text>, groups: seq<seq<Text>>, same: seq<Text>, i: nat)
    requires Nonempty(ps)
  {
    && Grouped(ps, groups) && Total(groups) + |same| == i && RunAt(ps, Total(groups), same)
    && (i > 0 ==> same != [])
  }

  /** One more paragraph for the current run. */
  lemma RunExtended(ps: seq<Text>, groups: seq<seq<Text>>, same: seq<Text>, i: nat)
    requires Nonempty(ps) && i < |ps| && Collecting(ps, groups, same, i)
    requires same == [] || Style(ps[i]) == Style(same[|same| - 1])
    ensures Collecting(ps, groups, same + [ps[i]], i + 1)
  {
    hide Grouped, Total;
    var s := Total(groups);
    if same != [] {
      assert ps[s..i][|same| - 1] == ps[i - 1];
      assert RunIndex(ps, i - 1) == |same|;
    }
    assert ps[s..i + 1] == ps[s..i] + [ps[i]];
  }

  /** A paragraph of another style closes the current run and begins the next. */
  lemma RunBegun(ps: seq<Text>, groups: seq<seq<Text>>, same: seq<Text>, i: nat)
    requires Nonempty(ps) && i < |ps| && Collecting(ps, groups, same, i)
    requires same != [] && Style(ps[i]) != Style(same[|same| - 1])
    ensures Collecting(ps, groups + [same], [ps[i]], i + 1)
  {
    hide Grouped, Total;
    var s := Total(groups);
    assert ps[s..i][|same| - 1] == ps[i - 1];
    GroupAdded(ps, groups, same);
    assert ps[i..i + 1] == [ps[i]];
  }

  lemma NothingCollected(ps: seq<Text>)
    requires Nonempty(ps)
    ensures Collecting(ps, [], [], 0)
  {
  }

  lemma AllCollected(ps: seq<Text>, groups: seq<seq<Text>>, same: seq<Text>, i: nat)
    requires Nonempty(ps) && Collecting(ps, groups, same, i)
    ensures i == 0 ==> Grouped(ps, groups) && Total(groups) == 0
    ensures Grouped(ps, groups + [same]) && Total(groups + [same]) == i
  {
    GroupAdded(ps, groups, same);
  }

  /** The characters of paragraph i. */
  method ParaAt(t: Text, range: Range, ghost ps: seq<Text>, ghost i: nat) returns (p: Text)
    requires i < |ps| && Join(ps) == t && range == Ranges(ps)[i]
    ensures p == ps[i]
  {
    hide Join;
    CharsOf(ps, i);
    p := t[range.loc..range.loc + range.len];
  }

  /** The forEach that collects consecutive paragraphs of equal style. */
  method GroupRuns(t: Text, ranges: seq<Range>) returns (groups: seq<seq<Text>>)
    requires ranges == Ranges(Split(t)) && AreParas(Split(t)) && Nonempty(Split(t))
    ensures Grouped(Split(t), groups) && Total(groups) == |ranges|
  {
    hide Collecting, Grouped, Total, Style, Split, Join, Ranges, AreParas;
    ghost var ps := Split(t);
    SplitJoins(t);
    NothingCollected(ps);
    groups := [];
    var same: seq<Text> := [];
    var i := 0;
    while i < |ranges|
      invariant 0 <= i <= |ranges| && Collecting(ps, groups, same, i) && Nonempty(same)
    {
      var p := ParaAt(t, ranges[i], ps, i);
      if same == [] || Style(p) == Style(same[|same| - 1]) {
        RunExtended(ps, groups, same, i);
        same := same + [p];
      } else {
        RunBegun(ps, groups, same, i);
        groups := groups + [same];
        same := [p];
      }
      i := i + 1;
    }
    AllCollected(ps, groups, same, i);
    if |ranges| > 0 {
      groups := groups + [same];
    }
  }

  /** resetTabOrderNumber. */
  method ResetTabOrderNumber(t: Text) returns (r: Text)
    ensures r == Renumbered(t)
  {
    ghost var ps := Split(t);
    RenumberedParas(t);
    var ranges := AllParagraphRanges(t);
    var groups := GroupRuns(t, ranges);
    r := PrintGroups(groups, ps);
    assert NumberedParas(ps)[..|ps|] == NumberedParas(ps);
  }

  /** The forEach that prints the groups. */
  method PrintGroups(groups: seq<seq<Text>>, ghost ps: seq<Text>) returns (r: Text)
    requires Nonempty(ps) && Grouped(ps, groups)
    ensures Total(groups) <= |ps| && r == Join(NumberedParas(ps)[..Total(groups)])
  {
    hide RunAt, NumberedParas;
    r := [];
    var g := 0;
    assert groups[..0] == [];
    while g < |groups|
      invariant 0 <= g <= |groups| && Grouped(ps, groups[..g]) && Total(groups[..g]) <= |ps|
      invariant r == Join(NumberedParas(ps)[..Total(groups[..g])])
    {
      ghost var done := Total(groups[..g]);
      GroupedAt(ps, groups, g);
      NumberInGroup(ps, done, groups[g]);
      r := PrintGroup(r, groups[g], NumberedParas(ps), done);
      g := g + 1;
    }
    assert groups[..|groups|] == groups;
  }

  lemma {:induction false} GroupedAt(ps: seq<Text>, groups: seq<seq<Text>>, g: nat)
    requires Nonempty(ps) && Grouped(ps, groups) && g < |groups|
    ensures RunAt(ps, Total(groups[..g]), groups[g])
    ensures Grouped(ps, groups[..g + 1]) && Total(groups[..g + 1]) == Total(groups[..g]) + |groups[g]|
    decreases |groups|
  {
    var init := groups[..|groups| - 1];
    if g == |groups| - 1 {
      assert groups[..g + 1] == groups;
    } else {
      GroupedAt(ps, init, g);
      assert init[..g] == groups[..g] && init[..g + 1] == groups[..g + 1];
    }
    assert groups[..g + 1][..g] == groups[..g];
  }

  /** The paragraphs of g, numbered from 1, stand in qs from s on. */
  ghost predicate NumberedAt(qs: seq<Text>, s: nat, g: seq<Text>)
  {
    s + |g| <= |qs| && forall i :: 0 <= i < |g| ==> g[i] != [] && qs[s + i] == Numbered(g[i], i + 1)
  }

  lemma NumberInGroup(ps: seq<Text>, s: nat, g: seq<Text>)
    requires Nonempty(ps) && RunAt(ps, s, g)
    ensures NumberedAt(NumberedParas(ps), s, g)
  {
    forall i | 0 <= i < |g| ensures g[i] != [] && NumberedParas(ps)[s + i] == Numbered(g[i], i + 1) {
      PlaceInGroup(ps, s, g, i);
    }
  }

  lemma PlaceInGroup(ps: seq<Text>, s: nat, g: seq<Text>, i: nat)
    requires Nonempty(ps) && RunAt(ps, s, g) && i < |g|
    ensures g[i] != [] && NumberedParas(ps)[s + i] == Numbered(g[i], i + 1)
  {
    hide Numbered, RunIndex;
    assert ps[s..s + |g|][i] == ps[s + i];
  }

  /** The i-th paragraph of a group, counted from 0. */
  method PrintPara(v: Text, i: nat) returns (a: Text)
    requires v != []
    ensures a == Numbered(v, i + 1)
  {
    a := v;
    if Style(v) != NoList {
      var marker := if Style(v) == Bullet then "\t\U{2022}\t" else "\t" + Decimal(i + 1) + ".\t";
      a := Styled(marker, v[0].tab) + Body(v);
    }
  }

  /** One group: markers 1, 2, 3, ... */
  method PrintGroup(prefix: Text, g: seq<Text>, ghost qs: seq<Text>, ghost s: nat) returns (r: Text)
    requires NumberedAt(qs, s, g) && prefix == Join(qs[..s])
    ensures r == Join(qs[..s + |g|])
  {
    r := prefix;
    var i := 0;
    while i < |g|
      invariant 0 <= i <= |g| && r == Join(qs[..s + i])
    {
      var a := PrintPara(g[i], i);
      AppendPara(qs, s + i);
      r := r + a;
      i := i + 1;
    }
  }

  lemma AppendPara(qs: seq<Text>, i: nat)
    requires i < |qs|
    ensures Join(qs[..i + 1]) == Join(qs[..i]) + qs[i]
  {
    assert qs[..i + 1] == qs[..i] + [qs[i]];
    JoinConcat(qs[..i], [qs[i]]);
    assert [qs[i]][1..] == [];
  }
}
