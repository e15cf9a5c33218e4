/** Why the driver never reduces for ever: ranks on the tables that every reduction lowers,
    once each entry of the stack is given a fixed weight. Again a condition on the tables
    alone. */
module LrRanks {
  import opened LrTables

  /** step is the weight of a stack entry; the ranks of a state on top, and of a pending
      reduction on top of a state, depend on the lookahead. */
  datatype Ranks = Ranks(step: nat, state: (nat, nat) -> nat, pending: (nat, nat, nat) -> nat)

  /** Rank of what a goto from p puts on the stack; accepting puts nothing. */
  ghost function NextRank(t: Tables, k: Ranks, p: nat, lhs: nat, la: nat): (n: nat)
    requires Shaped(t)
  {
    if !GotoDefined(t, p, lhs) then 0
    else
      var act := ReduceAction(t, p, lhs);
      if act <= YY_MAX_SHIFT then k.state(act, la)
      else if YY_MIN_SHIFTREDUCE <= act <= YY_MAX_SHIFTREDUCE then k.pending(p, act - YY_MIN_SHIFTREDUCE, la)
      else 0
  }

  /** Taking n entries for one pays for the change of rank. */
  ghost predicate Falls(k: Ranks, n: nat, before: nat, after: nat)
  {
    after + k.step < before + k.step * n
  }

  /** Whatever state n entries below is exposed, the rank falls. */
  ghost predicate FallsFrom(t: Tables, k: Ranks, below: seq<set<nat>>, n: nat, lhs: nat, la: nat, before: nat)
    requires Shaped(t)
  {
    1 <= n <= |below| ==> forall p :: p in below[n - 1] ==> Falls(k, n, before, NextRank(t, k, p, lhs, la))
  }

  ghost predicate StateFalls(t: Tables, c: Cert, k: Ranks, s: nat, la: nat)
    requires Certified(t, c) && s <= YY_MAX_SHIFT
  {
    var act := ShiftAction(t, s, la);
    YY_MIN_REDUCE <= act < YY_MIN_REDUCE + YYNRULE ==>
      var rule := t.rules[act - YY_MIN_REDUCE];
      && (rule.nrhs == 0 ==> Falls(k, 0, k.state(s, la), NextRank(t, k, s, rule.lhs, la)))
      && FallsFrom(t, k, c.past[s], rule.nrhs, rule.lhs, la, k.state(s, la))
  }

  ghost predicate PendingFalls(t: Tables, c: Cert, k: Ranks, s: nat, r: nat, la: nat)
    requires Certified(t, c) && s <= YY_MAX_SHIFT && r < YYNRULE
  {
    FallsFrom(t, k, Above(c, s), t.rules[r].nrhs, t.rules[r].lhs, la, k.pending(s, r, la))
  }

  ghost predicate Ranked(t: Tables, c: Cert, k: Ranks)
    requires Certified(t, c)
  {
    && (forall s, la :: 0 <= s <= YY_MAX_SHIFT && 0 <= la < TERMINALS ==> StateFalls(t, c, k, s, la))
    && (forall s, r, la :: 0 <= s <= YY_MAX_SHIFT && 0 <= r < YYNRULE && 0 <= la < TERMINALS ==>
          PendingOk(t, c, s, r) ==> PendingFalls(t, c, k, s, r, la))
  }

  // ----- the measure of a stack -----

  ghost function TopRank(k: Ranks, st: seq<nat>, la: nat): (n: nat)
    requires st != []
  {
    var top := st[|st| - 1];
    if top < YY_MIN_REDUCE then k.state(top, la)
    else if |st| < 2 then 0
    else k.pending(st[|st| - 2], top - YY_MIN_REDUCE, la)
  }

  ghost function Measure(k: Ranks, st: seq<nat>, la: nat): (n: nat)
    requires st != []
  {
    k.step * |st| + TopRank(k, st, la)
  }

  /** The state a reduction exposes is one of those its condition speaks of. */
  lemma ExposedFalls(t: Tables, c: Cert, k: Ranks, st: seq<nat>, la: nat)
    requires Certified(t, c) && Ranked(t, c, k) && Inv(t, c, st) && la < TERMINALS
    requires YY_MIN_REDUCE <= ActionFor(t, st, la) <= YY_MAX_REDUCE
    ensures var rule := t.rules[ActionFor(t, st, la) - YY_MIN_REDUCE];
            && rule.nrhs < |st|
            && Falls(k, rule.nrhs, TopRank(k, st, la), NextRank(t, k, st[|st| - 1 - rule.nrhs], rule.lhs, la))
  {
    ReduceReady(t, c, st, la);
    var top := |st| - 1;
    var r := ActionFor(t, st, la) - YY_MIN_REDUCE;
    var n := t.rules[r].nrhs;
    if st[top] <= YY_MAX_SHIFT {
      assert StateFalls(t, c, k, st[top], la);
      assert ActionOk(t, c, st[top], ShiftAction(t, st[top], la));
      if n > 0 {
        assert st[top - 1 - (n - 1)] in c.past[st[top]][n - 1];
      }
    } else {
      assert PendingFalls(t, c, k, st[top - 1], r, la);
      AboveDescribed(c, st, top - 1);
      assert st[top - 1 - (n - 1)] in Above(c, st[top - 1])[n - 1];
    }
  }

  /** The rank of the entry a reduction pushes. */
  lemma PushedRank(t: Tables, k: Ranks, st: seq<nat>, e: nat, lhs: nat, la: nat)
    requires Shaped(t) && e < |st| && GotoDefined(t, st[e], lhs)
    requires var act := ReduceAction(t, st[e],
             lhs); act <= YY_MAX_SHIFT || YY_MIN_SHIFTREDUCE <= act <= YY_MAX_SHIFTREDUCE
    ensures TopRank(k, st[..e + 1] + [Stored(ReduceAction(t, st[e], lhs))], la) == NextRank(t, k, st[e], lhs, la)
  {
  }

  lemma MeasureFalls(k: Ranks, size: nat, n: nat, before: nat, after: nat)
    requires n < size && Falls(k, n, before, after)
    ensures k.step * (size - n + 1) + after < k.step * size + before
  {
    assert k.step * (size - n + 1) == k.step * size - k.step * n + k.step;
  }

  /** Every reduction that leaves the stack above its base lowers the measure. */
  lemma ReduceFalls(t: Tables, c: Cert, k: Ranks, st: seq<nat>, la: nat)
    requires Certified(t, c) && Ranked(t, c, k) && Inv(t, c, st) && la < TERMINALS
    requires YY_MIN_REDUCE <= ActionFor(t, st, la) <= YY_MAX_REDUCE
    ensures var r := ActionFor(t, st, la) - YY_MIN_REDUCE;
            && t.rules[r].nrhs < |st| && GotoDefined(t, st[|st| - 1 - t.rules[r].nrhs], t.rules[r].lhs)
            && var q := ReduceBy(t, st, r);
               q != [] && (|q| > 1 ==> Measure(k, q, la) < Measure(k, st, la))
  {
    hide Ranked, TopRank, NextRank;
    ReduceReady(t, c, st, la);
    var r := ActionFor(t, st, la) - YY_MIN_REDUCE;
    var rule := t.rules[r];
    ReduceKeeps(t, c, st, r);
    var e := |st| - 1 - rule.nrhs;
    var act := ReduceAction(t, st[e], rule.lhs);
    if act <= YY_MAX_SHIFTREDUCE {
      assert GotoOk(t, c, st[e], rule.lhs);
      ExposedFalls(t, c, k, st, la);
      PushedRank(t, k, st, e, rule.lhs, la);
      MeasureFalls(k, |st|, rule.nrhs, TopRank(k, st, la), NextRank(t, k, st[e], rule.lhs, la));
    }
  }

  lemma ReducedAbove(t: Tables, c: Cert, st: seq<nat>, la: nat)
    requires Certified(t, c) && Inv(t, c, st) && la < TERMINALS && TurnOf(t, st, la).Reduced?
    ensures YY_MIN_REDUCE <= ActionFor(t, st, la) <= YY_MAX_REDUCE
    ensures var r := ActionFor(t, st, la) - YY_MIN_REDUCE;
            && t.rules[r].nrhs < |st| && GotoDefined(t, st[|st| - 1 - t.rules[r].nrhs], t.rules[r].lhs)
            && Inv(t, c, ReduceBy(t, st, r)) && |ReduceBy(t, st, r)| > 1
  {
    ReduceReady(t, c, st, la);
    ReduceKeeps(t, c, st, ActionFor(t, st, la) - YY_MIN_REDUCE);
  }

  /** How the loop on one token ends: the first turn that does not reduce and go on. */
  ghost function FinalTurn(t: Tables, c: Cert, k: Ranks, st: seq<nat>, la: nat): (turn: Turn)
    requires Certified(t, c) && Ranked(t, c, k) && Inv(t, c, st) && la < TERMINALS
    ensures !turn.Reduced?
    decreases Measure(k, st, la)
  {
    if TurnOf(t, st, la).Reduced? then
      ReducedAbove(t, c, st, la);
      ReduceFalls(t, c, k, st, la);
      FinalTurn(t, c, k, ReduceBy(t, st, ActionFor(t, st, la) - YY_MIN_REDUCE), la)
    else TurnOf(t, st, la)
  }

  lemma TinyRanked()
    ensures Certified(Tiny(), TinyCert()) && Ranked(Tiny(), TinyCert(), Ranks(0, (s, la) => 0, (s, r, la) => 1))
  {
    TinyCertified();
    var t, c, k := Tiny(), TinyCert(), Ranks(0, (s, la) => 0, (s, r, la) => 1);
    forall s, la | 0 <= s <= YY_MAX_SHIFT && 0 <= la < TERMINALS ensures StateFalls(t, c, k, s, la) {
      assert WildAction(t, s, la) == YY_ERROR_ACTION;
    }
    forall s, r, la | 0 <= s <= YY_MAX_SHIFT && 0 <= r < YYNRULE && 0 <= la < TERMINALS && PendingOk(t, c, s, r)
      ensures PendingFalls(t, c, k, s, r, la)
    {
      assert s in Above(c, s)[0];
    }
  }
}
