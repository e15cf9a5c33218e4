/** The tables of the Lemon-generated parser and a certificate that makes them safe: for
    every state, which states can lie below it on the stack, and which gotos can be asked
    for. It is a condition on the tables alone. */
module LrTables {

  /** Codes below TERMINALS are tokens; error and the nonterminals follow. */
  const TERMINALS := 143
  const YYNOCODE := 252
  const YYWILDCARD := 96
  const YYSTACKDEPTH := 100
  const YY_MAX_SHIFT := 459
  const YY_MIN_SHIFTREDUCE := 672
  const YY_MAX_SHIFTREDUCE := 1003
  const YY_MIN_REDUCE := 1004
  const YY_MAX_REDUCE := 1335
  const YY_ERROR_ACTION := 1336
  const YY_ACCEPT_ACTION := 1337
  const YY_ACTTAB_COUNT := 1570
  const YY_REDUCE_COUNT := 328
  const YY_REDUCE_USE_DFLT := -130
  const YYNRULE := 332

  datatype Rule = Rule(lhs: nat, nrhs: nat)

  datatype Tables = Tables(
    shiftOfst: seq<int>, reduceOfst: seq<int>, lookahead: seq<nat>, action: seq<nat>,
    dflt: seq<nat>, fallback: seq<nat>, rules: seq<Rule>)

  /** Sizes of the arrays, and the assert on yyFallback: a fallback has none of its own. */
  ghost predicate Shaped(t: Tables)
  {
    && |t.shiftOfst| == |t.dflt| == YY_MAX_SHIFT + 1 && |t.reduceOfst| == YY_REDUCE_COUNT + 1
    && |t.lookahead| == |t.action| == YY_ACTTAB_COUNT && |t.rules| == YYNRULE
    && forall la :: 0 <= la < |t.fallback| && t.fallback[la] != 0 ==> !FallsBack(t, t.fallback[la])
  }

  predicate FallsBack(t: Tables, la: nat)
  {
    la < |t.fallback| && t.fallback[la] != 0
  }

  predicate Listed(t: Tables, i: int, symbol: nat)
    requires Shaped(t)
  {
    0 <= i < YY_ACTTAB_COUNT && t.lookahead[i] == symbol
  }

  /** The action for a state that lists neither the token nor its fallback. */
  function WildAction(t: Tables, s: nat, la: nat): (act: nat)
    requires Shaped(t) && s <= YY_MAX_SHIFT
  {
    var j := t.shiftOfst[s] + YYWILDCARD;
    if Listed(t, j, YYWILDCARD) && la > 0 then t.action[j] else t.dflt[s]
  }

  /** yy_find_shift_action in a proper state. */
  function ShiftAction(t: Tables, s: nat, la: nat): (act: nat)
    requires Shaped(t) && s <= YY_MAX_SHIFT
    decreases if FallsBack(t, la) then 1 else 0
  {
    var i := t.shiftOfst[s] + la;
    if Listed(t, i, la) then t.action[i]
    else if FallsBack(t, la) then ShiftAction(t, s, t.fallback[la])
    else WildAction(t, s, la)
  }

  /** The state has an entry of its own for symbol x. */
  ghost predicate HasEntry(t: Tables, s: nat, x: nat)
    requires Shaped(t) && s <= YY_MAX_SHIFT
  {
    0 <= t.shiftOfst[s] + x < YY_ACTTAB_COUNT && t.lookahead[t.shiftOfst[s] + x] == x
  }

  /** act is what the tables say for token la in state s: the entry for the token; without
      one, that for its fallback; without either, that for the wildcard, unless the token is 0
      and has no fallback; and otherwise the default. */
  ghost predicate TableSays(t: Tables, s: nat, la: nat, act: nat)
    requires Shaped(t) && s <= YY_MAX_SHIFT
  {
    var o := t.shiftOfst[s];
    var fallback := if la < |t.fallback| then t.fallback[la] else 0;
    if HasEntry(t, s, la) then act == t.action[o + la]
    else if fallback != 0 && HasEntry(t, s, fallback) then act == t.action[o + fallback]
    else if (la != 0 || fallback != 0) && HasEntry(t, s, YYWILDCARD) then act == t.action[o + YYWILDCARD]
    else act == t.dflt[s]
  }

  /** The lookup, fallback and wildcard steps included, gives what the tables say. */
  lemma LookupExact(t: Tables, s: nat, la: nat)
    requires Shaped(t) && s <= YY_MAX_SHIFT
    ensures TableSays(t, s, la, ShiftAction(t, s, la))
  {
    if FallsBack(t, la) {
      var fallback := t.fallback[la];
      assert !FallsBack(t, fallback);
      assert ShiftAction(t, s, fallback) ==
             if HasEntry(t, s, fallback) then t.action[t.shiftOfst[s] + fallback] else WildAction(t, s, fallback);
    }
  }

  /** The asserts of yy_find_reduce_action. */
  predicate GotoDefined(t: Tables, s: nat, symbol: nat)
    requires Shaped(t)
  {
    && s <= YY_REDUCE_COUNT && t.reduceOfst[s] != YY_REDUCE_USE_DFLT && symbol != YYNOCODE
    && Listed(t, t.reduceOfst[s] + symbol, symbol)
  }

  /** yy_find_reduce_action. */
  function ReduceAction(t: Tables, s: nat, symbol: nat): (act: nat)
    requires Shaped(t) && GotoDefined(t, s, symbol)
  {
    t.action[t.reduceOfst[s] + symbol]
  }

  // ----- the certificate -----

  /** past[s][k] contains every state that can lie k + 1 entries below an entry in state s;
      gotos contains every (state, left-hand side) a reduction can ask for. */
  datatype Cert = Cert(past: seq<seq<set<nat>>>, gotos: set<(nat, nat)>)

  /** What lies below an entry pushed on top of state s. */
  ghost function Above(c: Cert, s: nat): (l: seq<set<nat>>)
    requires s < |c.past|
  {
    [{s}] + c.past[s]
  }

  /** weak says no more than strong. */
  ghost predicate Weaker(weak: seq<set<nat>>, strong: seq<set<nat>>)
  {
    |weak| <= |strong| && forall k :: 0 <= k < |weak| ==> strong[k] <= weak[k]
  }

  ghost predicate PushOk(c: Cert, s: nat, next: nat)
    requires |c.past| == YY_MAX_SHIFT + 1 && s <= YY_MAX_SHIFT
  {
    0 < next <= YY_MAX_SHIFT && Weaker(c.past[next], Above(c, s))
  }

  /** Popping n entries from on top of a stack described by below leaves only states from
      which the goto on lhs is covered. */
  ghost predicate PopOk(c: Cert, below: seq<set<nat>>, n: nat, lhs: nat)
  {
    1 <= n <= |below| && forall p :: p in below[n - 1] ==> (p, lhs) in c.gotos
  }

  /** Reducing by rule r in state s. */
  ghost predicate ReduceOk(t: Tables, c: Cert, s: nat, r: nat)
    requires Shaped(t) && |c.past| == YY_MAX_SHIFT + 1 && s <= YY_MAX_SHIFT
  {
    && r < YYNRULE
    && if t.rules[r].nrhs == 0 then (s, t.rules[r].lhs) in c.gotos
       else PopOk(c, c.past[s], t.rules[r].nrhs, t.rules[r].lhs)
  }

  /** Pushing an entry on s that is at once reduced by rule r; its right side is not empty. */
  ghost predicate PendingOk(t: Tables, c: Cert, s: nat, r: nat)
    requires Shaped(t) && |c.past| == YY_MAX_SHIFT + 1 && s <= YY_MAX_SHIFT
  {
    r < YYNRULE && PopOk(c, Above(c, s), t.rules[r].nrhs, t.rules[r].lhs)
  }

  /** A shift or goto from s with the given action. */
  ghost predicate MoveOk(t: Tables, c: Cert, s: nat, act: nat)
    requires Shaped(t) && |c.past| == YY_MAX_SHIFT + 1 && s <= YY_MAX_SHIFT
  {
    if act <= YY_MAX_SHIFT then PushOk(c, s, act)
    else YY_MIN_SHIFTREDUCE <= act <= YY_MAX_SHIFTREDUCE && PendingOk(t, c, s, act - YY_MIN_SHIFTREDUCE)
  }

  ghost predicate ActionOk(t: Tables, c: Cert, s: nat, act: nat)
    requires Shaped(t) && |c.past| == YY_MAX_SHIFT + 1 && s <= YY_MAX_SHIFT
  {
    if act <= YY_MAX_SHIFTREDUCE then MoveOk(t, c, s, act)
    else if act <= YY_MAX_REDUCE then YY_MIN_REDUCE <= act && ReduceOk(t, c, s, act - YY_MIN_REDUCE)
    else act == YY_ERROR_ACTION
  }

  ghost predicate GotoOk(t: Tables, c: Cert, s: nat, lhs: nat)
    requires Shaped(t) && |c.past| == YY_MAX_SHIFT + 1
  {
    && GotoDefined(t, s, lhs)
    && var act := ReduceAction(t, s, lhs);
       if act <= YY_MAX_SHIFTREDUCE then MoveOk(t, c, s, act) else act == YY_ACCEPT_ACTION && s == 0
  }

  /** c certifies t. */
  ghost predicate Certified(t: Tables, c: Cert)
  {
    && Shaped(t) && |c.past| == YY_MAX_SHIFT + 1 && c.past[0] == []
    && (forall s, la :: 0 <= s <= YY_MAX_SHIFT && 0 <= la < TERMINALS ==> ActionOk(t, c, s, ShiftAction(t, s, la)))
    && (forall s, lhs :: (s, lhs) in c.gotos ==> s <= YY_MAX_SHIFT && GotoOk(t, c, s, lhs))
  }

  // ----- runs -----

  /** The entries below position i are as l describes them. */
  ghost predicate Described(st: seq<nat>, i: nat, l: seq<set<nat>>)
    requires i <= |st|
  {
    |l| <= i && forall k :: 0 <= k < |l| ==> st[i - 1 - k] in l[k]
  }

  /** What every stack of state numbers reached by the driver satisfies: it is never empty
      nor too deep, state 0 is at its base and nowhere else, only its top can be a pending
      reduction, and the certificate describes it. */
  ghost predicate Inv(t: Tables, c: Cert, st: seq<nat>)
    requires Certified(t, c)
  {
    && 1 <= |st| <= YYSTACKDEPTH && st[0] == 0
    && (forall i :: 0 < i < |st| ==> st[i] != 0)
    && (forall i :: 0 <= i < |st| - 1 ==> st[i] <= YY_MAX_SHIFT)
    && (forall i :: 0 <= i < |st| && st[i] <= YY_MAX_SHIFT ==> Described(st, i, c.past[st[i]]))
    && var top := st[|st| - 1];
       top <= YY_MAX_SHIFT ||
       (|st| >= 2 && YY_MIN_REDUCE <= top <= YY_MAX_REDUCE && PendingOk(t, c, st[|st| - 2], top - YY_MIN_REDUCE))
  }

  /** The state number stored for a shift action: a shift-reduce becomes a pending reduce. */
  function Stored(act: nat): (code: nat)
  {
    if act > YY_MAX_SHIFT then act + (YY_MIN_REDUCE - YY_MIN_SHIFTREDUCE) else act
  }

  /** yy_shift. */
  function ShiftTo(st: seq<nat>, act: nat): (r: seq<nat>)
    requires st != []
  {
    if |st| >= YYSTACKDEPTH then st[..1] else st + [Stored(act)]
  }

  /** yy_reduce. */
  function ReduceBy(t: Tables, st: seq<nat>, r: nat): (q: seq<nat>)
    requires Shaped(t) && st != [] && r < YYNRULE && t.rules[r].nrhs < |st|
    requires GotoDefined(t, st[|st| - 1 - t.rules[r].nrhs], t.rules[r].lhs)
  {
    var n := t.rules[r].nrhs;
    if n == 0 && |st| >= YYSTACKDEPTH then st[..1]
    else
      var act := ReduceAction(t, st[|st| - 1 - n], t.rules[r].lhs);
      if act <= YY_MAX_SHIFTREDUCE then st[..|st| - n] + [Stored(act)] else st[..|st| - n]
  }

  /** yy_find_shift_action on the stack. */
  function ActionFor(t: Tables, st: seq<nat>, la: nat): (act: nat)
    requires Shaped(t) && st != []
    requires st[|st| - 1] <= YY_MAX_SHIFT || st[|st| - 1] >= YY_MIN_REDUCE
  {
    var s := st[|st| - 1];
    if s >= YY_MIN_REDUCE then s else ShiftAction(t, s, la)
  }

  /** Rule r would push an entry onto a full stack. */
  predicate Overflows(t: Tables, st: seq<nat>, r: nat)
    requires Shaped(t) && r < YYNRULE
  {
    t.rules[r].nrhs == 0 && |st| >= YYSTACKDEPTH
  }

  /** Reducing by rule r ends the parse. */
  predicate Accepts(t: Tables, st: seq<nat>, r: nat)
    requires Shaped(t) && r < YYNRULE
  {
    && t.rules[r].nrhs < |st| && GotoDefined(t, st[|st| - 1 - t.rules[r].nrhs], t.rules[r].lhs)
    && ReduceAction(t, st[|st| - 1 - t.rules[r].nrhs], t.rules[r].lhs) > YY_MAX_SHIFTREDUCE
  }

  /** How one turn of the driver's loop ends. */
  datatype Turn = Shifted | Reduced | Accepted | SyntaxError | Overflow

  function TurnOf(t: Tables, st: seq<nat>, la: nat): (turn: Turn)
    requires Shaped(t) && st != []
    requires st[|st| - 1] <= YY_MAX_SHIFT || st[|st| - 1] >= YY_MIN_REDUCE
  {
    var act := ActionFor(t, st, la);
    if act <= YY_MAX_SHIFTREDUCE then if |st| >= YYSTACKDEPTH then Overflow else Shifted
    else if YY_MIN_REDUCE <= act < YY_MIN_REDUCE + YYNRULE then
      if Overflows(t, st, act - YY_MIN_REDUCE) then Overflow
      else if Accepts(t, st, act - YY_MIN_REDUCE) then Accepted
      else Reduced
    else SyntaxError
  }

  lemma WeakerDescribed(st: seq<nat>, i: nat, weak: seq<set<nat>>, strong: seq<set<nat>>)
    requires i <= |st| && Described(st, i, strong) && Weaker(weak, strong)
    ensures Described(st, i, weak)
  {
  }

  lemma AboveDescribed(c: Cert, st: seq<nat>, i: nat)
    requires i < |st| && st[i] < |c.past| && Described(st, i, c.past[st[i]])
    ensures Described(st, i + 1, Above(c, st[i]))
  {
    forall k | 0 <= k < |Above(c, st[i])| ensures st[i - k] in Above(c, st[i])[k] {
      if k > 0 {
        assert st[i - 1 - (k - 1)] in c.past[st[i]][k - 1];
      }
    }
  }

  lemma DescribedPrefix(st: seq<nat>, st': seq<nat>, i: nat, l: seq<set<nat>>)
    requires i <= |st| && i <= |st'| && st[..i] == st'[..i] && Described(st, i, l)
    ensures Described(st', i, l)
  {
    forall k | 0 <= k < |l| ensures st'[i - 1 - k] in l[k] {
      assert st'[i - 1 - k] == st'[..i][i - 1 - k] == st[..i][i - 1 - k] == st[i - 1 - k];
    }
  }

  /** A shorter stack is as good. */
  lemma InvPrefix(t: Tables, c: Cert, st: seq<nat>, k: nat)
    requires Certified(t, c) && Inv(t, c, st) && 1 <= k < |st|
    ensures Inv(t, c, st[..k])
  {
    var p := st[..k];
    forall i | 0 <= i < |p| ensures Described(p, i, c.past[p[i]]) {
      DescribedPrefix(st, p, i, c.past[st[i]]);
    }
  }

  /** Pushing the entry of a permitted move keeps the invariant. */
  lemma PushKeeps(t: Tables, c: Cert, st: seq<nat>, act: nat)
    requires Certified(t, c) && Inv(t, c, st) && |st| < YYSTACKDEPTH && st[|st| - 1] <= YY_MAX_SHIFT
    requires act <= YY_MAX_SHIFTREDUCE && MoveOk(t, c, st[|st| - 1], act)
    ensures Inv(t, c, st + [Stored(act)])
  {
    var top := |st| - 1;
    var q := st + [Stored(act)];
    forall i | 0 <= i < |q| && q[i] <= YY_MAX_SHIFT ensures Described(q, i, c.past[q[i]]) {
      if i <= top {
        DescribedPrefix(st, q, i, c.past[st[i]]);
      } else {
        AboveDescribed(c, st, top);
        WeakerDescribed(st, |st|, c.past[act], Above(c, st[top]));
        DescribedPrefix(st, q, |st|, c.past[act]);
      }
    }
  }

  lemma BaseKeeps(t: Tables, c: Cert, st: seq<nat>)
    requires Certified(t, c) && Inv(t, c, st)
    ensures st[..1] == [0] && Inv(t, c, st[..1])
  {
    if |st| > 1 {
      InvPrefix(t, c, st, 1);
    } else {
      assert st[..1] == st;
    }
  }

  /** A popped stack exposes a state whose goto the tables define; nothing underflows. */
  lemma Exposes(c: Cert, st: seq<nat>, i: nat, below: seq<set<nat>>, n: nat, lhs: nat)
    requires i <= |st| && Described(st, i, below) && PopOk(c, below, n, lhs)
    ensures n <= i && (st[i - n], lhs) in c.gotos
  {
    assert st[i - 1 - (n - 1)] in below[n - 1];
  }

  /** The reduction the driver is about to make never pops past the base, and its goto is
      covered by the certificate. */
  lemma ReduceReady(t: Tables, c: Cert, st: seq<nat>, la: nat)
    requires Certified(t, c) && Inv(t, c, st) && la < TERMINALS
    requires YY_MIN_REDUCE <= ActionFor(t, st, la) <= YY_MAX_REDUCE
    ensures var r := ActionFor(t, st, la) - YY_MIN_REDUCE;
            && r < YYNRULE && t.rules[r].nrhs < |st|
            && (st[|st| - 1] > YY_MAX_SHIFT ==> t.rules[r].nrhs > 0)
            && (st[|st| - 1 - t.rules[r].nrhs], t.rules[r].lhs) in c.gotos
  {
    var top := |st| - 1;
    var r := ActionFor(t, st, la) - YY_MIN_REDUCE;
    if st[top] <= YY_MAX_SHIFT {
      assert ActionOk(t, c, st[top], ShiftAction(t, st[top], la));
      if t.rules[r].nrhs > 0 {
        Exposes(c, st, top, c.past[st[top]], t.rules[r].nrhs, t.rules[r].lhs);
      }
    } else {
      AboveDescribed(c, st, top - 1);
      Exposes(c, st, top, Above(c, st[top - 1]), t.rules[r].nrhs, t.rules[r].lhs);
    }
  }

  /** The stack a reduction pushes on. */
  lemma PoppedKeeps(t: Tables, c: Cert, st: seq<nat>, n: nat)
    requires Certified(t, c) && Inv(t, c, st) && n < |st|
    ensures Inv(t, c, st[..|st| - n])
  {
    if n > 0 {
      InvPrefix(t, c, st, |st| - n);
    } else {
      assert st[..|st|] == st;
    }
  }

  /** Reducing keeps the invariant; accepting leaves the stack at its base. */
  lemma ReduceKeeps(t: Tables, c: Cert, st: seq<nat>, r: nat)
    requires Certified(t, c) && Inv(t, c, st) && r < YYNRULE && t.rules[r].nrhs < |st|
    requires t.rules[r].nrhs == 0 ==> st[|st| - 1] <= YY_MAX_SHIFT
    requires (st[|st| - 1 - t.rules[r].nrhs], t.rules[r].lhs) in c.gotos
    ensures GotoDefined(t, st[|st| - 1 - t.rules[r].nrhs], t.rules[r].lhs)
    ensures Inv(t, c, ReduceBy(t, st, r))
    ensures var act := ReduceAction(t, st[|st| - 1 - t.rules[r].nrhs], t.rules[r].lhs);
            act > YY_MAX_SHIFTREDUCE ==> act == YY_ACCEPT_ACTION && t.rules[r].nrhs + 1 == |st|
  {
    var n := t.rules[r].nrhs;
    var e := |st| - 1 - n;
    assert GotoOk(t, c, st[e], t.rules[r].lhs);
    BaseKeeps(t, c, st);
    PoppedKeeps(t, c, st, n);
    var act := ReduceAction(t, st[e], t.rules[r].lhs);
    if act <= YY_MAX_SHIFTREDUCE && e + 1 < YYSTACKDEPTH {
      PushKeeps(t, c, st[..e + 1], act);
    }
  }

  /** The three ends of a reduction: overflow and acceptance leave the base, everything else
      puts one entry in the place of the popped ones. */
  lemma ReduceCases(t: Tables, c: Cert, st: seq<nat>, la: nat, r: nat)
    requires Certified(t, c) && Inv(t, c, st) && la < TERMINALS
    requires r < YYNRULE && ActionFor(t, st, la) == YY_MIN_REDUCE + r
    ensures t.rules[r].nrhs < |st| && GotoDefined(t, st[|st| - 1 - t.rules[r].nrhs], t.rules[r].lhs)
    ensures Overflows(t, st, r) <==> t.rules[r].nrhs == 0 && |st| == YYSTACKDEPTH
    ensures Accepts(t, st, r) <==>
              ReduceAction(t, st[|st| - 1 - t.rules[r].nrhs], t.rules[r].lhs) == YY_ACCEPT_ACTION
    ensures Overflows(t, st, r) ==> ReduceBy(t, st, r) == st[..1]
    ensures !Overflows(t, st, r) && Accepts(t, st, r) ==>
              t.rules[r].nrhs + 1 == |st| && ReduceBy(t, st, r) == st[..1]
    ensures var n, act := t.rules[r].nrhs, ReduceAction(t, st[|st| - 1 - t.rules[r].nrhs], t.rules[r].lhs);
            !Overflows(t, st, r) && !Accepts(t, st, r) ==>
              && |st| - n < YYSTACKDEPTH && act <= YY_MAX_SHIFTREDUCE
              && ReduceBy(t, st, r) == st[..|st| - n] + [Stored(act)] && Inv(t, c, st[..|st| - n] + [Stored(act)])
  {
    ReduceReady(t, c, st, la);
    ReduceKeeps(t, c, st, r);
  }

  /** Shifting keeps the invariant, an overflow included. */
  lemma ShiftKeeps(t: Tables, c: Cert, st: seq<nat>, la: nat)
    requires Certified(t, c) && Inv(t, c, st) && la < TERMINALS
    requires ActionFor(t, st, la) <= YY_MAX_SHIFTREDUCE
    ensures Inv(t, c, ShiftTo(st, ActionFor(t, st, la)))
  {
    var s := st[|st| - 1];
    assert ActionOk(t, c, s, ShiftAction(t, s, la));
    BaseKeeps(t, c, st);
    if |st| < YYSTACKDEPTH {
      PushKeeps(t, c, st, ActionFor(t, st, la));
    }
  }

  /** No action but shift, shift-reduce, reduce and error ever comes up. */
  lemma ActionsComplete(t: Tables, c: Cert, st: seq<nat>, la: nat)
    requires Certified(t, c) && Inv(t, c, st) && la < TERMINALS
    ensures var act := ActionFor(t, st, la);
            act <= YY_MAX_SHIFTREDUCE || YY_MIN_REDUCE <= act <= YY_MAX_REDUCE || act == YY_ERROR_ACTION
  {
    var s := st[|st| - 1];
    if s <= YY_MAX_SHIFT {
      assert ActionOk(t, c, s, ShiftAction(t, s, la));
    }
  }

  // ----- a grammar of one rule, input ::= token 1 -----

  function Tiny(): (t: Tables)
  {
    Tables(
      seq(YY_MAX_SHIFT + 1, s => if s == 0 then 0 else YY_ACTTAB_COUNT),
      seq(YY_REDUCE_COUNT + 1, s => if s == 0 then 0 else YY_REDUCE_USE_DFLT),
      seq(YY_ACTTAB_COUNT, i => if i == 1 then 1 else if i == 144 then 144 else YYNOCODE),
      seq(YY_ACTTAB_COUNT, i => if i == 1 then YY_MIN_SHIFTREDUCE else YY_ACCEPT_ACTION),
      seq(YY_MAX_SHIFT + 1, _ => YY_ERROR_ACTION),
      [],
      seq(YYNRULE, _ => Rule(144, 1)))
  }

  ghost function TinyCert(): (c: Cert)
  {
    Cert(seq(YY_MAX_SHIFT + 1, _ => []), {(0, 144)})
  }

  /** Certificates exist. */
  lemma TinyCertified()
    ensures Certified(Tiny(), TinyCert())
  {
    var t, c := Tiny(), TinyCert();
    assert Above(c, 0) == [{0}];
    forall s, la | 0 <= s <= YY_MAX_SHIFT && 0 <= la < TERMINALS
      ensures ActionOk(t, c, s, ShiftAction(t, s, la))
    {
      assert WildAction(t, s, la) == YY_ERROR_ACTION;
    }
  }
}
