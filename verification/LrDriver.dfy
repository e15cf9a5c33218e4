/** The driver of the Lemon-generated parser: yy_find_shift_action, yy_shift, yy_reduce,
    yyStackOverflow and the loop of sqlite3Parser, on a fixed-depth stack. Ghost trees
    record what each entry stands for. */
module LrDriver {
  import opened LrTables
  import opened LrRanks

  datatype Tree = Leaf(token: nat) | Node(rule: nat, kids: seq<Tree>)

  function TreeLeaves(x: Tree): (l: seq<nat>)
    decreases x, 1
  {
    match x
    case Leaf(token) => [token]
    case Node(_, kids) => Leaves(kids)
  }

  function Leaves(xs: seq<Tree>): (l: seq<nat>)
    decreases xs, 0
  {
    if xs == [] then [] else TreeLeaves(xs[0]) + Leaves(xs[1..])
  }

  lemma {:induction false} LeavesConcat(a: seq<Tree>, b: seq<Tree>)
    ensures Leaves(a + b) == Leaves(a) + Leaves(b)
    decreases |a|
  {
    if a == [] {
      assert a + b == b;
    } else {
      var rest := a[1..];
      LeavesConcat(rest, b);
      assert (a + b)[1..] == rest + b;
      assert TreeLeaves(a[0]) + (Leaves(rest) + Leaves(b)) == TreeLeaves(a[0]) + Leaves(rest) + Leaves(b);
    }
  }

  lemma LeavesOne(x: Tree)
    ensures Leaves([x]) == TreeLeaves(x)
  {
    assert [x][1..] == [];
    assert TreeLeaves(x) + [] == TreeLeaves(x);
  }

  /** Grammar symbol a tree stands for. */
  function Symbol(t: Tables, x: Tree): (s: nat)
    requires Shaped(t) && (x.Node? ==> x.rule < YYNRULE)
  {
    match x
    case Leaf(token) => token
    case Node(r, _) => t.rules[r].lhs
  }

  /** Every node has as many children as its rule has right-hand symbols. */
  ghost predicate WellBuilt(t: Tables, x: Tree)
    requires Shaped(t)
  {
    match x
    case Leaf(_) => true
    case Node(r, kids) =>
      r < YYNRULE && |kids| == t.rules[r].nrhs && forall i :: 0 <= i < |kids| ==> WellBuilt(t, kids[i])
  }

  /** One well-built tree per symbol above the base. */
  ghost predicate Labelled(t: Tables, trees: seq<Tree>, symbols: seq<nat>)
    requires Shaped(t)
  {
    && |symbols| == |trees| + 1
    && forall i :: 0 <= i < |trees| ==> WellBuilt(t, trees[i]) && symbols[i + 1] == Symbol(t, trees[i])
  }

  /** The last n trees become the children of one. */
  function Fold(trees: seq<Tree>, r: nat, n: nat): (q: seq<Tree>)
    requires n <= |trees|
  {
    trees[..|trees| - n] + [Node(r, trees[|trees| - n..])]
  }

  lemma {:induction false} FoldLeaves(trees: seq<Tree>, r: nat, n: nat)
    requires n <= |trees|
    ensures Leaves(Fold(trees, r, n)) == Leaves(trees)
  {
    hide WellBuilt;
    var k := |trees| - n;
    LeavesConcat(trees[..k], trees[k..]);
    LeavesConcat(trees[..k], [Node(r, trees[k..])]);
    LeavesOne(Node(r, trees[k..]));
    assert trees[..k] + trees[k..] == trees;
  }

  lemma FoldLabelled(t: Tables, trees: seq<Tree>, symbols: seq<nat>, r: nat, n: nat)
    requires Shaped(t) && Labelled(t, trees, symbols) && r < YYNRULE && t.rules[r].nrhs == n <= |trees|
    ensures Labelled(t, Fold(trees, r, n), symbols[..|symbols| - n] + [t.rules[r].lhs])
  {
    var kids := trees[|trees| - n..];
    forall i | 0 <= i < |kids| ensures WellBuilt(t, kids[i]) {
      assert kids[i] == trees[|trees| - n + i];
    }
  }

  lemma AddLeaf(t: Tables, trees: seq<Tree>, symbols: seq<nat>, token: nat)
    requires Shaped(t) && Labelled(t, trees, symbols)
    ensures Labelled(t, trees + [Leaf(token)], symbols + [token])
    ensures Leaves(trees + [Leaf(token)]) == Leaves(trees) + [token]
  {
    LeavesConcat(trees, [Leaf(token)]);
    LeavesOne(Leaf(token));
  }

  /** a is what is left of b after dropping some elements. */
  ghost predicate Subsequence(a: seq<nat>, b: seq<nat>)
  {
    if a == [] then true
    else if b == [] then false
    else if a[|a| - 1] == b[|b| - 1] && Subsequence(a[..|a| - 1], b[..|b| - 1]) then true
    else Subsequence(a, b[..|b| - 1])
  }

  lemma SubsequenceGrows(a: seq<nat>, b: seq<nat>, x: nat)
    requires Subsequence(a, b)
    ensures Subsequence(a, b + [x]) && Subsequence(a + [x], b + [x])
  {
    assert (b + [x])[..|b|] == b && (a + [x])[..|a|] == a;
  }

  class Parser {
    const t: Tables
    ghost const c: Cert
    const stateno: array<nat>
    const major: array<nat>
    var top: nat
    ghost var trees: seq<Tree>
    ghost var shifted: seq<nat>

    ghost function Codes(): (st: seq<nat>)
      requires top < stateno.Length
      reads this, stateno
    {
      stateno[..top + 1]
    }

    /** The stack stays within its array and satisfies the certificate; above its base
        there is one well-built tree per entry, for the entry's symbol, and the leaves are
        the tokens shifted since the stack was last at its base. */
    ghost predicate Valid()
      reads this, stateno, major
    {
      && stateno.Length == major.Length == YYSTACKDEPTH && stateno != major && top < YYSTACKDEPTH
      && Certified(t, c) && Inv(t, c, Codes())
      && Labelled(t, trees, major[..top + 1]) && Leaves(trees) == shifted
    }

    /** sqlite3ParserInit: the base entry is in state 0. */
    constructor (t: Tables, ghost c: Cert)
      requires Certified(t, c)
      ensures Valid() && this.t == t && this.c == c && top == 0 && fresh(stateno) && fresh(major)
    {
      this.t := t;
      this.c := c;
      stateno := new nat[YYSTACKDEPTH](_ => 0);
      major := new nat[YYSTACKDEPTH](_ => 0);
      top := 0;
      trees := [];
      shifted := [];
      new;
      assert Codes() == [0];
      assert Described([0], 0, c.past[0]);
    }

    /** yy_find_shift_action, its fallback loop included. */
    method FindShiftAction(token: nat) returns (act: nat)
      requires Valid()
      ensures act == ActionFor(t, Codes(), token)
      ensures stateno[top] <= YY_MAX_SHIFT ==> TableSays(t, stateno[top], token, act)
      ensures stateno[top] > YY_MAX_SHIFT ==> act == stateno[top]
    {
      hide TableSays;
      var s := stateno[top];
      assert s == Codes()[top];
      if s <= YY_MAX_SHIFT {
        LookupExact(t, s, token);
      }
      if s >= YY_MIN_REDUCE {
        return s;
      }
      var la: nat := token;
      while true
        invariant ShiftAction(t, s, la) == ShiftAction(t, s, token)
        decreases if FallsBack(t, la) then 1 else 0
      {
        var i := t.shiftOfst[s] + la;
        if 0 <= i < YY_ACTTAB_COUNT && t.lookahead[i] == la {
          return t.action[i];
        }
        if la < |t.fallback| && t.fallback[la] != 0 {
          la := t.fallback[la];
        } else {
          var j := i - la + YYWILDCARD;
          if 0 <= j < YY_ACTTAB_COUNT && t.lookahead[j] == YYWILDCARD && la > 0 {
            return t.action[j];
          }
          return t.dflt[s];
        }
      }
    }

    /** yyStackOverflow and yy_accept both end with the stack at its base. */
    method PopAll()
      requires Valid()
      modifies this
      ensures Valid() && top == 0 && Codes() == old(Codes())[..1] && trees == [] && shifted == []
    {
      BaseKeeps(t, c, Codes());
      while top > 0
        invariant top <= old(top)
      {
        top := top - 1;
      }
      trees, shifted := [], [];
      assert Codes() == old(Codes())[..1];
    }

    /** yy_shift. */
    method Shift(act: nat, token: nat)
      requires Valid() && token < TERMINALS && act == ActionFor(t, Codes(), token) && act <= YY_MAX_SHIFTREDUCE
      modifies this, stateno, major
      ensures Valid() && Codes() == ShiftTo(old(Codes()), act)
      ensures old(top) + 1 < YYSTACKDEPTH ==> trees == old(trees) + [Leaf(token)] && shifted == old(shifted) + [token]
      ensures old(top) + 1 >= YYSTACKDEPTH ==> top == 0
    {
      ShiftKeeps(t, c, Codes(), token);
      if top + 1 >= YYSTACKDEPTH {
        PopAll();
        return;
      }
      Push(act, token);
      AddLeaf(t, trees, old(major[..top + 1]), token);
      trees, shifted := trees + [Leaf(token)], shifted + [token];
    }

    /** Write one entry above the top. */
    method Push(act: nat, symbol: nat)
      requires stateno.Length == major.Length == YYSTACKDEPTH && stateno != major && top + 1 < YYSTACKDEPTH
      modifies this`top, stateno, major
      ensures top == old(top) + 1 && Codes() == old(Codes()) + [LrTables.Stored(act)]
      ensures major[..top + 1] == old(major[..top + 1]) + [symbol]
    {
      top := top + 1;
      stateno[top] := if act > YY_MAX_SHIFT then act + (YY_MIN_REDUCE - YY_MIN_SHIFTREDUCE) else act;
      major[top] := symbol;
    }

    /** yy_find_reduce_action for the entry n below the top. */
    method FindReduceAction(n: nat, lhs: nat) returns (act: nat)
      requires Valid() && n <= top && GotoDefined(t, Codes()[top - n], lhs)
      ensures act == ReduceAction(t, Codes()[top - n], lhs)
      ensures var s := stateno[top - n];
              && s <= YY_REDUCE_COUNT && t.reduceOfst[s] != YY_REDUCE_USE_DFLT && lhs != YYNOCODE
              && 0 <= t.reduceOfst[s] + lhs < YY_ACTTAB_COUNT && t.lookahead[t.reduceOfst[s] + lhs] == lhs
              && act == t.action[t.reduceOfst[s] + lhs]
    {
      var s := stateno[top - n];
      assert s == Codes()[top - n];
      act := t.action[t.reduceOfst[s] + lhs];
    }

    /** yy_reduce after the semantic action. Nothing is popped past the base. On acceptance
        the whole stack has become one tree over all the tokens shifted. */
    method Reduce(r: nat, ghost token: nat) returns (accepted: bool, ghost tree: Tree)
      requires Valid() && token < TERMINALS && r < YYNRULE && ActionFor(t, Codes(), token) == YY_MIN_REDUCE + r
      modifies this, stateno, major
      ensures Valid() && t.rules[r].nrhs <= old(top)
      ensures GotoDefined(t, old(Codes())[old(top) - t.rules[r].nrhs], t.rules[r].lhs)
      ensures Codes() == ReduceBy(t, old(Codes()), r)
      ensures accepted <==> !Overflows(t, old(Codes()), r) && Accepts(t, old(Codes()), r)
      ensures accepted ==> top == 0 && WellBuilt(t, tree) && TreeLeaves(tree) == old(shifted)
      ensures Overflows(t, old(Codes()), r) <==> !accepted && top == 0
      ensures !accepted && top == 0 ==> old(top) + 1 == YYSTACKDEPTH
      ensures !accepted && top > 0 ==> shifted == old(shifted)
    {
      hide Certified, Inv, Labelled, Leaves, GotoDefined, ReduceBy, WellBuilt, TreeLeaves;
      tree := Leaf(0);
      BaseEmpty();
      ReduceCases(t, c, Codes(), token, r);
      var n := t.rules[r].nrhs;
      var lhs := t.rules[r].lhs;
      if n == 0 && top >= YYSTACKDEPTH - 1 {
        PopAll();
        return false, tree;
      }
      var act := FindReduceAction(n, lhs);
      if act <= YY_MAX_SHIFTREDUCE {
        ReplaceTop(r, n, act, lhs);
        return false, tree;
      }
      tree := Accept(r);
      return true, tree;
    }

    /** The last reduction: the entries above the base are popped and their trees become one. */
    method Accept(ghost r: nat) returns (ghost tree: Tree)
      requires Valid() && r < YYNRULE && t.rules[r].nrhs == top
      modifies this
      ensures Valid() && top == 0 && Codes() == old(Codes())[..1]
      ensures WellBuilt(t, tree) && TreeLeaves(tree) == old(shifted)
    {
      tree := Node(r, trees);
      PopAll();
    }

    /** The top n entries give way to one for the left-hand side. */
    method ReplaceTop(r: nat, n: nat, act: nat, lhs: nat)
      requires Valid() && n <= top && top - n + 1 < YYSTACKDEPTH && r < YYNRULE && t.rules[r] == Rule(lhs, n)
      requires Inv(t, c, Codes()[..top + 1 - n] + [LrTables.Stored(act)])
      modifies this, stateno, major
      ensures Valid() && Codes() == old(Codes())[..old(top) + 1 - n] + [LrTables.Stored(act)] && top > 0
      ensures shifted == old(shifted)
    {
      hide Inv, WellBuilt, Symbol, Leaves, Fold;
      ghost var folded, symbols := Fold(trees, r, n), major[..top + 1];
      FoldLeaves(trees, r, n);
      FoldLabelled(t, trees, symbols, r, n);
      Exchange(n, act, lhs);
      assert major[..top + 1] == symbols[..|symbols| - n] + [lhs];
      trees := folded;
    }

    method Exchange(n: nat, act: nat, symbol: nat)
      requires stateno.Length == major.Length == YYSTACKDEPTH && stateno != major && n <= top &&
               top - n + 1 < YYSTACKDEPTH
      requires top < YYSTACKDEPTH
      modifies this`top, stateno, major
      ensures top == old(top) - n + 1 && Codes() == old(Codes())[..old(top) + 1 - n] + [LrTables.Stored(act)]
      ensures major[..top + 1] == old(major[..top + 1])[..old(top) + 1 - n] + [symbol]
    {
      Retreat(n);
      Push(act, symbol);
    }

    /** Pop n entries. */
    method Retreat(n: nat)
      requires stateno.Length == major.Length == YYSTACKDEPTH && n <= top < YYSTACKDEPTH
      modifies this`top
      ensures top == old(top) - n
      ensures Codes() == old(Codes())[..old(top) + 1 - n]
      ensures major[..top + 1] == old(major[..top + 1])[..old(top) + 1 - n]
    {
      top := top - n;
    }

    /** One turn of the loop of sqlite3Parser: what it does is decided by the tables. A
        shifted token joins those on the stack, a reduction keeps them and lowers the
        measure, acceptance puts them under one tree, a syntax error drops the token and
        leaves the stack alone. */
    method Step(token: nat, ghost k: Ranks) returns (turn: Turn, ghost tree: Tree)
      requires Valid() && Ranked(t, c, k) && token < TERMINALS
      modifies this, stateno, major
      ensures Valid() && turn == TurnOf(t, old(Codes()), token)
      ensures turn.Shifted? ==> shifted == old(shifted) + [token] && top > 0
      ensures turn.Reduced? ==> shifted == old(shifted) && top > 0
      ensures turn.Reduced? ==> Measure(k, Codes(), token) < old(Measure(k, Codes(), token))
      ensures turn.Reduced? ==> FinalTurn(t, c, k, Codes(), token) == old(FinalTurn(t, c, k, Codes(), token))
      ensures turn.Accepted? ==> top == 0 && WellBuilt(t, tree) && TreeLeaves(tree) == old(shifted)
      ensures turn.SyntaxError? ==> Codes() == old(Codes()) && trees == old(trees) && shifted == old(shifted)
      ensures turn.SyntaxError? <==> ActionFor(t, old(Codes()), token) == YY_ERROR_ACTION
      ensures turn.Overflow? ==> top == 0 && old(top) + 1 == YYSTACKDEPTH
    {
      hide Certified, Inv, Labelled, Leaves, Ranked, FinalTurn;
      tree := Leaf(0);
      ActionsComplete(t, c, Codes(), token);
      var act := FindShiftAction(token);
      if act <= YY_MAX_SHIFTREDUCE {
        turn := if top + 1 >= YYSTACKDEPTH then Overflow else Shifted;
        Shift(act, token);
      } else if act <= YY_MAX_REDUCE {
        turn, tree := ReduceStep(act - YY_MIN_REDUCE, token, k);
      } else {
        turn := SyntaxError;
      }
    }

    /** A turn that reduces. */
    method ReduceStep(r: nat, ghost token: nat, ghost k: Ranks) returns (turn: Turn, ghost tree: Tree)
      requires Valid() && Ranked(t, c, k) && token < TERMINALS && r < YYNRULE
      requires ActionFor(t, Codes(), token) == YY_MIN_REDUCE + r
      modifies this, stateno, major
      ensures Valid() && turn == TurnOf(t, old(Codes()), token)
      ensures turn.Reduced? || turn.Accepted? || turn.Overflow?
      ensures turn.Reduced? ==> shifted == old(shifted) && top > 0
      ensures turn.Reduced? ==> Measure(k, Codes(), token) < old(Measure(k, Codes(), token))
      ensures turn.Reduced? ==> FinalTurn(t, c, k, Codes(), token) == old(FinalTurn(t, c, k, Codes(), token))
      ensures turn.Accepted? ==> top == 0 && WellBuilt(t, tree) && TreeLeaves(tree) == old(shifted)
      ensures turn.Overflow? ==> top == 0 && old(top) + 1 == YYSTACKDEPTH
    {
      hide Certified, Inv, Labelled, Leaves, Ranked, Measure;
      ReduceFalls(t, c, k, Codes(), token);
      var accepted;
      accepted, tree := Reduce(r, token);
      turn := if accepted then Accepted else if top == 0 then Overflow else Reduced;
    }

    /** sqlite3Parser on one token: the loop ends, in the way the tables say. */
    method Feed(token: nat, ghost k: Ranks) returns (turn: Turn, ghost tree: Tree)
      requires Valid() && Ranked(t, c, k) && token < TERMINALS
      modifies this, stateno, major
      ensures Valid() && turn == FinalTurn(t, c, k, old(Codes()), token)
      ensures turn.Shifted? ==> shifted == old(shifted) + [token]
      ensures turn.Accepted? ==> top == 0 && WellBuilt(t, tree) && TreeLeaves(tree) == old(shifted)
      ensures turn.SyntaxError? ==> shifted == old(shifted)
      ensures turn.Overflow? ==> top == 0
    {
      turn, tree := Step(token, k);
      while turn.Reduced?
        invariant Valid() && (turn.Reduced? ==> shifted == old(shifted))
        invariant old(FinalTurn(t, c, k, Codes(), token)) == if turn.Reduced?
                  then FinalTurn(t, c, k, Codes(), token) else turn
        invariant turn.Shifted? ==> shifted == old(shifted) + [token]
        invariant turn.Accepted? ==> top == 0 && WellBuilt(t, tree) && TreeLeaves(tree) == old(shifted)
        invariant turn.SyntaxError? ==> shifted == old(shifted)
        invariant turn.Overflow? ==> top == 0
        decreases turn.Reduced?, Measure(k, Codes(), token)
      {
        turn, tree := Step(token, k);
      }
    }

    /** Any token sequence: the stack stays sound and the leaves of its trees are tokens of
        the input, each at most once and in order. As long as there is no syntax error and
        no overflow, nothing is lost: the leaves of the accepted trees and then of the stack
        are the tokens taken, which are all but one lookahead for each acceptance. */
    method ParseAll(tokens: seq<nat>, ghost k: Ranks)
        returns (faults: nat, ghost accepted: seq<Tree>, ghost taken: seq<nat>)
      requires Valid() && Ranked(t, c, k) && top == 0 && forall i :: 0 <= i < |tokens| ==> tokens[i] < TERMINALS
      modifies this, stateno, major
      ensures Valid() && Subsequence(Leaves(trees), tokens) && Subsequence(taken, tokens)
      ensures forall i :: 0 <= i < |accepted| ==> WellBuilt(t, accepted[i])
      ensures |taken| + |accepted| + faults == |tokens|
      ensures faults == 0 ==> Leaves(accepted) + Leaves(trees) == taken
      ensures faults == 0 && accepted == [] ==> Leaves(trees) == tokens
    {
      hide Certified, Inv, Labelled;
      var i := 0;
      faults, accepted, taken := 0, [], [];
      BaseEmpty();
      assert tokens[..0] == [];
      while i < |tokens|
        invariant 0 <= i <= |tokens| && Valid() && Account(t, tokens[..i], shifted, accepted, taken, faults)
      {
        assert tokens[..i + 1] == tokens[..i] + [tokens[i]];
        faults, accepted, taken := FeedCounted(tokens[i], k, tokens[..i], faults, accepted, taken);
        i := i + 1;
      }
      assert tokens[..|tokens|] == tokens;
    }

    /** One token, with the account brought up to date. */
    method FeedCounted(token: nat, ghost k: Ranks, ghost read: seq<nat>, faults: nat, ghost accepted: seq<Tree>,
        ghost taken: seq<nat>)
        returns (faults': nat, ghost accepted': seq<Tree>, ghost taken': seq<nat>)
      requires Valid() && Ranked(t, c, k) && token < TERMINALS && Account(t, read, shifted, accepted, taken, faults)
      modifies this, stateno, major
      ensures Valid() && Account(t, read + [token], shifted, accepted', taken', faults')
    {
      hide Certified, Inv, Labelled, Account;
      ghost var before := shifted;
      faults', accepted', taken' := faults, accepted, taken;
      var turn, tree := Feed(token, k);
      BaseEmpty();
      if turn.Shifted? {
        AccountShift(t, read, before, accepted, taken, faults, token);
        taken' := taken + [token];
      } else if turn.Accepted? {
        AccountAccept(t, read, before, accepted, taken, faults, token, tree);
        accepted' := accepted + [tree];
      } else {
        AccountFault(t, read, before, accepted, taken, faults, token, shifted);
        faults' := faults + 1;
      }
    }

    lemma BaseEmpty()
      requires Valid()
      ensures Shaped(t) && (top == 0 ==> trees == [] && shifted == [])
    {
    }
  }

  /** Where the tokens read so far have gone. */
  ghost predicate Account(t: Tables, read: seq<nat>, stacked: seq<nat>, accepted: seq<Tree>, taken: seq<nat>,
      faults: nat)
    requires Shaped(t)
  {
    && Subsequence(stacked, read) && Subsequence(taken, read)
    && (forall i :: 0 <= i < |accepted| ==> WellBuilt(t, accepted[i]))
    && |taken| + |accepted| + faults == |read|
    && (faults == 0 ==> Leaves(accepted) + stacked == taken)
    && (faults == 0 && accepted == [] ==> taken == read)
  }

  lemma AccountShift(t: Tables, read: seq<nat>, stacked: seq<nat>, accepted: seq<Tree>, taken: seq<nat>, faults: nat,
      token: nat)
    requires Shaped(t) && Account(t, read, stacked, accepted, taken, faults)
    ensures Account(t, read + [token], stacked + [token], accepted, taken + [token], faults)
  {
    SubsequenceGrows(stacked, read, token);
    SubsequenceGrows(taken, read, token);
    assert Leaves(accepted) + (stacked + [token]) == Leaves(accepted) + stacked + [token];
  }

  lemma AccountAccept(t: Tables, read: seq<nat>, stacked: seq<nat>, accepted: seq<Tree>, taken: seq<nat>,
      faults: nat, token: nat, tree: Tree)
    requires Shaped(t) && Account(t, read, stacked, accepted, taken, faults)
    requires WellBuilt(t, tree) && TreeLeaves(tree) == stacked
    ensures Account(t, read + [token], [], accepted + [tree], taken, faults)
  {
    SubsequenceGrows(taken, read, token);
    AcceptedLeaves(accepted, tree);
    assert Leaves(accepted + [tree]) + [] == Leaves(accepted) + stacked;
  }

  lemma AccountFault(t: Tables, read: seq<nat>, stacked: seq<nat>, accepted: seq<Tree>, taken: seq<nat>, faults: nat,
      token: nat, left: seq<nat>)
    requires Shaped(t) && Account(t, read, stacked, accepted, taken, faults) && (left == stacked || left == [])
    ensures Account(t, read + [token], left, accepted, taken, faults + 1)
  {
    SubsequenceGrows(stacked, read, token);
    SubsequenceGrows(taken, read, token);
  }

  lemma AcceptedLeaves(accepted: seq<Tree>, tree: Tree)
    ensures Leaves(accepted + [tree]) == Leaves(accepted) + TreeLeaves(tree)
  {
    LeavesConcat(accepted, [tree]);
    LeavesOne(tree);
  }
}
