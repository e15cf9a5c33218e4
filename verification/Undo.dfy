/** The undo history of RZRichTextViewHelper: two stacks that together behave as one
    timeline of recorded states with a cursor. */
module Undo {

  /** What one record holds of the text view: its text, selection and typing attributes. */
  datatype Entry<D, S, A> = Entry(text: D, selection: S, typing: A)

  // ----- the reference: a timeline with a cursor -----

  datatype Timeline<E> = Timeline(entries: seq<E>, cursor: int)

  ghost predicate Proper<E>(t: Timeline<E>)
  {
    0 <= t.cursor < |t.entries|
  }

  datatype Act<E> = Record(e: E) | Back | Forth

  /** Everything after the cursor is forgotten, and the oldest entry when there are more
      than limit. */
  function Recorded<E>(t: Timeline<E>, e: E, limit: nat): (r: Timeline<E>)
    requires -1 <= t.cursor < |t.entries|
  {
    var all := t.entries[..t.cursor + 1] + [e];
    var kept := if |all| > limit then all[1..] else all;
    Timeline(kept, |kept| - 1)
  }

  function Moved<E>(t: Timeline<E>, act: Act<E>, limit: nat): (r: Timeline<E>)
    requires -1 <= t.cursor < |t.entries|
    ensures -1 <= r.cursor < |r.entries|
  {
    match act
    case Record(e) => Recorded(t, e, limit)
    case Back => if t.cursor <= 0 then t else t.(cursor := t.cursor - 1)
    case Forth => if t.cursor + 1 >= |t.entries| then t else t.(cursor := t.cursor + 1)
  }

  function Run<E>(t: Timeline<E>, acts: seq<Act<E>>, limit: nat): (r: Timeline<E>)
    requires -1 <= t.cursor < |t.entries|
    ensures -1 <= r.cursor < |r.entries|
    decreases |acts|
  {
    if acts == [] then t else Moved(Run(t, acts[..|acts| - 1], limit), acts[|acts| - 1], limit)
  }

  /** Whole runs: the cursor stays on the timeline and the timeline stays short. */
  lemma {:induction false} RunBounded<E>(t: Timeline<E>, acts: seq<Act<E>>, limit: nat)
    requires Proper(t) && 1 <= |t.entries| <= limit
    ensures Proper(Run(t, acts, limit)) && |Run(t, acts, limit).entries| <= limit
    decreases |acts|
  {
    if acts != [] {
      RunBounded(t, acts[..|acts| - 1], limit);
    }
  }

  lemma {:induction false} RunConcat<E>(t: Timeline<E>, a: seq<Act<E>>, b: seq<Act<E>>, limit: nat)
    requires -1 <= t.cursor < |t.entries|
    ensures Run(t, a + b, limit) == Run(Run(t, a, limit), b, limit)
    decreases |b|
  {
    if b == [] {
      assert a + b == a;
    } else {
      var front := b[..|b| - 1];
      assert (a + b)[..|a + b| - 1] == a + front;
      RunConcat(t, a, front, limit);
    }
  }

  function Times<E>(act: Act<E>, k: nat): (acts: seq<Act<E>>)
    ensures |acts| == k && forall i :: 0 <= i < k ==> acts[i] == act
  {
    seq(k, i => act)
  }

  lemma {:induction false} ManyBack<E>(t: Timeline<E>, k: nat, limit: nat)
    requires k <= t.cursor < |t.entries|
    ensures Run(t, Times(Back, k), limit) == t.(cursor := t.cursor - k)
  {
    if k > 0 {
      assert Times<E>(Back, k)[..k - 1] == Times(Back, k - 1);
      ManyBack(t, k - 1, limit);
    }
  }

  lemma {:induction false} ManyForth<E>(t: Timeline<E>, k: nat, limit: nat)
    requires -1 <= t.cursor && t.cursor + k < |t.entries|
    ensures Run(t, Times(Forth, k), limit) == t.(cursor := t.cursor + k)
  {
    if k > 0 {
      assert Times<E>(Forth, k)[..k - 1] == Times(Forth, k - 1);
      ManyForth(t, k - 1, limit);
    }
  }

  /** k effective undos followed by k redos change nothing. */
  lemma UndoneAndRedone<E>(t: Timeline<E>, k: nat, limit: nat)
    requires k <= t.cursor < |t.entries|
    ensures Run(t, Times(Back, k) + Times(Forth, k), limit) == t
  {
    RunConcat(t, Times(Back, k), Times(Forth, k), limit);
    ManyBack(t, k, limit);
    ManyForth(t.(cursor := t.cursor - k), k, limit);
  }

  function Records<E>(es: seq<E>): (acts: seq<Act<E>>)
    ensures |acts| == |es|
  {
    seq(|es|, i requires 0 <= i < |es| => Record(es[i]))
  }

  /** The last entries of s, n of them if there are so many. */
  function LastOf<E>(s: seq<E>, n: nat): (r: seq<E>)
  {
    if |s| <= n then s else s[|s| - n..]
  }

  /** Edits in a row: no more is forgotten than the limit demands, and that is the oldest. */
  lemma {:induction false} ManyRecorded<E>(t: Timeline<E>, es: seq<E>, limit: nat)
    requires Proper(t) && |t.entries| <= limit && es != []
    ensures var kept := LastOf(t.entries[..t.cursor + 1] + es, limit);
            Run(t, Records(es), limit) == Timeline(kept, |kept| - 1)
    decreases |es|
  {
    hide Recorded;
    var n := |es| - 1;
    var before := t.entries[..t.cursor + 1];
    assert Records(es)[..n] == Records(es[..n]);
    assert before + es == before + es[..n] + [es[n]];
    if n == 0 {
      assert Run(t, Records(es)[..n], limit) == t && before + es[..n] == before;
      OneMore(t.entries, t.cursor, before, es[n], limit);
    } else {
      ManyRecorded(t, es[..n], limit);
      var kept := LastOf(before + es[..n], limit);
      OneMore(kept, |kept| - 1, before + es[..n], es[n], limit);
    }
  }

  lemma OneMore<E>(entries: seq<E>, cursor: int, s: seq<E>, e: E, limit: nat)
    requires s != [] && limit > 0 && -1 <= cursor < |entries| && entries[..cursor + 1] == LastOf(s, limit)
    ensures var r := LastOf(s + [e], limit); Recorded(Timeline(entries, cursor), e, limit) == Timeline(r, |r| - 1)
  {
  }

  /** After any edits, k undos show what stood k edits before, as far back as entries go and
      the limit reaches. */
  lemma UndoneEdits<E>(t: Timeline<E>, es: seq<E>, k: nat, limit: nat)
    requires Proper(t) && |t.entries| <= limit && es != [] && k < limit && k <= t.cursor + |es|
    ensures var all, u := t.entries[..t.cursor + 1] + es, Run(t, Records(es) + Times(Back, k), limit);
            Proper(u) && u.entries[u.cursor] == all[|all| - 1 - k]
  {
    hide Run, Moved;
    RunConcat(t, Records(es), Times(Back, k), limit);
    ManyRecorded(t, es, limit);
    ManyBack(Run(t, Records(es), limit), k, limit);
  }

  /** Every undo of the run moves the cursor. */
  ghost predicate Effective<E>(t: Timeline<E>, acts: seq<Act<E>>, limit: nat)
    requires -1 <= t.cursor < |t.entries|
  {
    forall i :: 0 <= i < |acts| && acts[i] == Back ==> Run(t, acts[..i], limit).cursor > 0
  }

  /** The tail of a timeline from entry d on. */
  function Tail<E>(t: Timeline<E>, d: nat): (r: Timeline<E>)
    requires d <= |t.entries|
  {
    Timeline(t.entries[d..], t.cursor - d)
  }

  lemma MovedTail<E>(t: Timeline<E>, u: Timeline<E>, d: nat, act: Act<E>, limit: nat, wide: nat) returns (d': nat)
    requires 1 <= limit && |u.entries| + 1 <= wide
    requires d <= |u.entries| && t == Tail(u, d) && Proper(t) && (act == Back ==> t.cursor > 0)
    ensures d' <= |Moved(u, act, wide).entries| <= |u.entries| + 1
    ensures Moved(t, act, limit) == Tail(Moved(u, act, wide), d')
  {
    d' := d;
    if act.Record? {
      var all := u.entries[..u.cursor + 1] + [act.e];
      assert all[d..] == t.entries[..t.cursor + 1] + [act.e];
      if |all| - d > limit {
        d' := d + 1;
        assert all[d..][1..] == all[d + 1..];
      }
    }
  }

  lemma EffectiveFront<E>(t: Timeline<E>, acts: seq<Act<E>>, limit: nat)
    requires -1 <= t.cursor < |t.entries| && Effective(t, acts, limit) && acts != []
    ensures var n := |acts| - 1;
            Effective(t, acts[..n], limit) && (acts[n] == Back ==> Run(t, acts[..n], limit).cursor > 0)
  {
    hide Run;
    var front := acts[..|acts| - 1];
    forall i | 0 <= i < |front| && front[i] == Back ensures Run(t, front[..i], limit).cursor > 0 {
      assert front[..i] == acts[..i] && acts[i] == Back;
    }
  }

  /** Forgetting is invisible until an undo reaches it: as long as every undo moves, the
      bounded timeline is the tail of the one that forgets nothing, and so shows the same. */
  lemma {:induction false} BoundedAgrees<E>(t: Timeline<E>, acts: seq<Act<E>>, limit: nat, wide: nat) returns (d: nat)
    requires Proper(t) && |t.entries| <= limit && |t.entries| + |acts| <= wide && Effective(t, acts, limit)
    ensures |Run(t, acts, wide).entries| <= |t.entries| + |acts| && d <= |Run(t, acts, wide).entries|
    ensures Run(t, acts, limit) == Tail(Run(t, acts, wide), d) && Proper(Run(t, acts, limit))
    decreases |acts|
  {
    hide Effective, Moved;
    RunBounded(t, acts, limit);
    if acts == [] {
      d := 0;
    } else {
      var n := |acts| - 1;
      EffectiveFront(t, acts, limit);
      d := BoundedAgrees(t, acts[..n], limit, wide);
      d := MovedTail(Run(t, acts[..n], limit), Run(t, acts[..n], wide), d, acts[n], limit, wide);
    }
  }

  // ----- the two stacks -----

  function Reversed<E>(s: seq<E>): (r: seq<E>)
    ensures |r| == |s|
  {
    seq(|s|, i requires 0 <= i < |s| => s[|s| - 1 - i])
  }

  function TimelineOf<E>(history: seq<E>, stores: seq<E>): (t: Timeline<E>)
  {
    Timeline(history + Reversed(stores), |history| - 1)
  }

  /** The timeline determines both stacks. */
  lemma TimelineInjective<E>(h: seq<E>, s: seq<E>, h': seq<E>, s': seq<E>)
    requires TimelineOf(h, s) == TimelineOf(h', s')
    ensures h == h' && s == s'
  {
    var t, t' := TimelineOf(h, s), TimelineOf(h', s');
    assert h == t.entries[..|h|] && h' == t'.entries[..|h'|];
    assert Reversed(s) == t.entries[|h|..] && Reversed(s') == t'.entries[|h'|..];
    forall i | 0 <= i < |s| ensures s[i] == s'[i] {
      assert Reversed(s)[|s| - 1 - i] == s[i] && Reversed(s')[|s| - 1 - i] == s'[i];
    }
  }

  lemma UndoMoves<E>(h: seq<E>, s: seq<E>)
    requires |h| > 1
    ensures TimelineOf(h[..|h| - 1], s + [h[|h| - 1]]) == TimelineOf(h, s).(cursor := |h| - 2)
  {
    assert Reversed(s + [h[|h| - 1]]) == [h[|h| - 1]] + Reversed(s);
    assert h == h[..|h| - 1] + [h[|h| - 1]];
  }

  lemma RedoMoves<E>(h: seq<E>, s: seq<E>)
    requires |s| > 0
    ensures TimelineOf(h + [s[|s| - 1]], s[..|s| - 1]) == TimelineOf(h, s).(cursor := |h|)
  {
    assert Reversed(s) == [s[|s| - 1]] + Reversed(s[..|s| - 1]);
  }

  lemma RecordMoves<E>(h: seq<E>, s: seq<E>, e: E, limit: nat)
    ensures TimelineOf(if |h| + 1 > limit then (h + [e])[1..] else h + [e], []) == Recorded(TimelineOf(h, s), e, limit)
  {
    assert TimelineOf(h, s).entries[..|h|] == h;
  }

  /** The helper and the state of its text view. */
  class Helper<D, S, A> {
    var history: seq<Entry<D, S, A>>
    var stores: seq<Entry<D, S, A>>
    const notesCount: nat
    var shown: Entry<D, S, A>
    var canUndo: bool
    var canRedo: bool

    /** Between operations, once something has been recorded. */
    ghost predicate Valid()
      reads this
    {
      && history != [] && shown == history[|history| - 1]
      && |history| + |stores| <= notesCount + 1
      && canUndo == (|history| > 1) && canRedo == (|stores| > 0)
    }

    ghost function Line(): (t: Timeline<Entry<D, S, A>>)
      reads this
    {
      TimelineOf(history, stores)
    }

    constructor (first: Entry<D, S, A>, notesCount: nat)
      ensures Valid() && Line() == Timeline([first], 0) && this.notesCount == notesCount
    {
      this.notesCount := notesCount;
      history, stores, shown := [first], [], first;
      canUndo, canRedo := false, false;
    }

    /** The user changes the view, and addToHistory notes what it now holds. */
    method Edit(e: Entry<D, S, A>)
      requires Valid()
      modifies this
      ensures Valid() && shown == e && stores == [] && !canRedo
      ensures Line() == Recorded(old(Line()), e, notesCount + 1)
    {
      shown := e;
      RecordMoves(history, stores, e, notesCount + 1);
      AddToHistory();
    }

    /** addToHistory. */
    method AddToHistory()
      requires |history| <= notesCount + 1
      modifies this`history, this`stores, this`canUndo, this`canRedo
      ensures Valid() && stores == []
      ensures history == if |old(history)| + 1 > notesCount + 1 then (old(history) + [shown])[1..]
              else old(history) + [shown]
    {
      history := history + [shown];
      if |history| > notesCount + 1 {
        history := history[1..];
      }
      stores := [];
      canUndo := |history| > 1;
      canRedo := false;
    }

    /** revokeText: one step back or forth. */
    method RevokeText(revoke: bool)
      requires Valid()
      modifies this
      ensures Valid()
      ensures Line() == Moved(old(Line()), if revoke then Back else Forth, notesCount + 1)
    {
      hide Reversed;
      if revoke {
        if |history| > 1 {
          UndoMoves(history, stores);
          stores := stores + [history[|history| - 1]];
          shown := history[|history| - 2];
          history := history[..|history| - 1];
        }
      } else if |stores| > 0 {
        RedoMoves(history, stores);
        var value := stores[|stores| - 1];
        history := history + [value];
        shown := value;
        stores := stores[..|stores| - 1];
      }
      canUndo := |history| > 1;
      canRedo := |stores| > 0;
    }

    /** A session: any acts in any order follow the timeline, and the view always shows the
        entry at its cursor. */
    method Play(acts: seq<Act<Entry<D, S, A>>>)
      requires Valid()
      modifies this
      ensures Valid() && Line() == Run(old(Line()), acts, notesCount + 1)
      ensures shown == Line().entries[Line().cursor]
    {
      var i := 0;
      ghost var start := Line();
      assert acts[..0] == [];
      while i < |acts|
        invariant 0 <= i <= |acts| && Valid() && Line() == Run(start, acts[..i], notesCount + 1)
      {
        assert acts[..i + 1][..i] == acts[..i];
        match acts[i] {
          case Record(e) => Edit(e);
          case Back => RevokeText(true);
          case Forth => RevokeText(false);
        }
        i := i + 1;
      }
      assert acts[..i] == acts;
    }

    /** k effective undos and k redos give back text, selection, typing attributes and
        both stacks. */
    method UndoThenRedo(k: nat)
      requires Valid() && k < |history|
      modifies this
      ensures Valid() && shown == old(shown) && history == old(history) && stores == old(stores)
    {
      ghost var h, s := history, stores;
      UndoneAndRedone(Line(), k, notesCount + 1);
      Play(Times(Back, k) + Times(Forth, k));
      TimelineInjective(h, s, history, stores);
    }
  }
}
