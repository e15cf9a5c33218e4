"""Compute the certificate and the ranks that modules LrTables and LrRanks ask of the parser
tables.

Usage: certificate.py parse.c

Reads the yy_* tables of a Lemon-generated parser with the constants of LrTables.dfy and
computes the least `past` (states that can lie k + 1 entries below a state) and `gotos`
(state, left-hand side pairs a reduction can ask for), then for every lookahead the least
ranks that reductions lower when a stack entry weighs STEP. Prints every place where the
conditions of LrTables.Certified or LrRanks.Ranked fail for them, and nothing else if there
is none.
"""
import re
import sys
from collections import defaultdict

MAX_SHIFT, MIN_SHIFTREDUCE, MAX_SHIFTREDUCE = 459, 672, 1003
MIN_REDUCE, MAX_REDUCE, ERROR, ACCEPT = 1004, 1335, 1336, 1337
TERMINALS, WILDCARD, ACTTAB_COUNT = 143, 96, 1570
REDUCE_COUNT, REDUCE_USE_DFLT = 328, -130
DEPTH = 12  # longer than any right-hand side
STEP = 1000


class Tables:
    def __init__(self, text):
        self.text = text
        self.action = self.numbers("yy_action")
        self.lookahead = self.numbers("yy_lookahead")
        self.shift_ofst = self.numbers("yy_shift_ofst")
        self.reduce_ofst = self.numbers("yy_reduce_ofst")
        self.default = self.numbers("yy_default")
        self.fallback = self.numbers("yyFallback")
        body = re.search(r"yyRuleInfo\[\] = \{(.*?)\n\};", text, re.S).group(1)
        self.rules = [(int(l), int(n)) for l, n in re.findall(r"\{ (\d+), (\d+) \}", body)]

    def numbers(self, name):
        body = re.search(name + r"\[\] = \{(.*?)\};", self.text, re.S).group(1)
        return [int(x) for x in re.findall(r"-?\d+", re.sub(r"/\*.*?\*/", "", body, flags=re.S))]

    def listed(self, i, symbol):
        return 0 <= i < ACTTAB_COUNT and self.lookahead[i] == symbol

    def shift_action(self, s, la):
        i = self.shift_ofst[s] + la
        if self.listed(i, la):
            return self.action[i]
        if la < len(self.fallback) and self.fallback[la]:
            return self.shift_action(s, self.fallback[la])
        j = self.shift_ofst[s] + WILDCARD
        if self.listed(j, WILDCARD) and la > 0:
            return self.action[j]
        return self.default[s]

    def goto(self, s, lhs):
        if s > REDUCE_COUNT or self.reduce_ofst[s] == REDUCE_USE_DFLT:
            return None
        i = self.reduce_ofst[s] + lhs
        return self.action[i] if self.listed(i, lhs) else None


class Certificate:
    def __init__(self, tables):
        self.t = tables
        self.moves, self.pending, self.reductions = defaultdict(set), defaultdict(set), defaultdict(set)
        self.reached, self.gotos, self.faults = set(), set(), []
        self.past = {}

    def add(self, s, act, is_goto):
        if act <= MAX_SHIFT:
            self.moves[s].add(act)
        elif MIN_SHIFTREDUCE <= act <= MAX_SHIFTREDUCE:
            self.pending[s].add(act - MIN_SHIFTREDUCE)
        elif is_goto:
            if act != ACCEPT or s != 0:
                self.faults.append(f"goto from {s} has action {act}")
        elif MIN_REDUCE <= act <= MAX_REDUCE:
            self.reductions[s].add(act - MIN_REDUCE)
        elif act != ERROR:
            self.faults.append(f"state {s} has action {act}")

    def reach(self):
        work = [0] if not self.reached else [q for p in self.reached for q in self.moves[p]]
        while work:
            s = work.pop()
            if s not in self.reached:
                self.reached.add(s)
                for la in range(TERMINALS):
                    self.add(s, self.t.shift_action(s, la), False)
                work.extend(self.moves[s])

    def describe(self):
        below = defaultdict(set)
        for p in self.reached:
            for q in self.moves[p]:
                below[q].add(p)
        depth = {s: 0 if s == 0 else DEPTH for s in self.reached}
        changed = True
        while changed:
            changed = False
            for s in self.reached - {0}:
                d = min([depth[p] + 1 for p in below[s]] + [DEPTH])
                changed, depth[s] = changed or d < depth[s], d
        self.past = {s: [] for s in self.reached}
        for k in range(DEPTH):
            for s in self.reached:
                if k < depth[s]:
                    self.past[s].append(set(below[s]) if k == 0 else
                                        set().union(*(self.past[p][k - 1] for p in below[s])))

    def require(self, stack, rule, s):
        lhs, n = self.t.rules[rule]
        if not 1 <= n <= len(stack):
            self.faults.append(f"rule {rule} pops {n} of {len(stack)} known entries on {s}")
            return
        for p in stack[n - 1] - {q for q, l in self.gotos if l == lhs}:
            self.gotos.add((p, lhs))
            act = self.t.goto(p, lhs)
            if act is None:
                self.faults.append(f"no goto from {p} on {lhs}")
            else:
                self.add(p, act, True)

    def compute(self):
        size = -1
        while size != (size := (len(self.reached), len(self.gotos))):
            self.reach()
            self.describe()
            for s in list(self.reached):
                for r in self.reductions[s]:
                    if self.t.rules[r][1] == 0:
                        lhs = self.t.rules[r][0]
                        if (s, lhs) not in self.gotos:
                            self.gotos.add((s, lhs))
                            act = self.t.goto(s, lhs)
                            if act is None:
                                self.faults.append(f"no goto from {s} on {lhs}")
                            else:
                                self.add(s, act, True)
                    else:
                        self.require(self.past[s], r, s)
                for r in list(self.pending[s]):
                    self.require([{s}] + self.past[s], r, s)
        if any(0 in self.moves[s] for s in self.reached):
            self.faults.append("state 0 is pushed")
        if len(self.reached) != MAX_SHIFT + 1:
            self.faults.append("some states are not reached")
        fb = self.t.fallback
        if any(f and f < len(fb) and fb[f] for f in fb):
            self.faults.append("a fallback token has a fallback")

    def pending_ok(self, s, rule):
        lhs, n = self.t.rules[rule]
        stack = [{s}] + self.past[s]
        return 1 <= n <= len(stack) and all((p, lhs) in self.gotos for p in stack[n - 1])

    def pushed(self, p, lhs):
        act = self.t.goto(p, lhs)
        if act is None or act > MAX_SHIFTREDUCE:
            return None
        return (act,) if act <= MAX_SHIFT else (p, act - MIN_SHIFTREDUCE)

    def rank(self):
        """Longest paths: a node is (state,) or (state below, pending rule)."""
        fixed = {}
        for s in self.reached:
            for r, (lhs, n) in enumerate(self.t.rules):
                if self.pending_ok(s, r):
                    fixed[s, r] = (n, {self.pushed(p, lhs) for p in ([{s}] + self.past[s])[n - 1]})
        for la in range(TERMINALS):
            edges = dict(fixed)
            for s in self.reached:
                act = self.t.shift_action(s, la)
                if MIN_REDUCE <= act <= MAX_REDUCE:
                    lhs, n = self.t.rules[act - MIN_REDUCE]
                    exposed = {s} if n == 0 else self.past[s][n - 1]
                    edges[s,] = (n, {self.pushed(p, lhs) for p in exposed})
            ranks = defaultdict(int)
            changed = True
            while changed:
                changed = False
                for node, (n, nexts) in edges.items():
                    least = max(ranks[y] if y else 0 for y in nexts) + 1 + STEP * (1 - n)
                    if least > ranks[node]:
                        changed, ranks[node] = True, least
                if changed and max(ranks.values()) > STEP * (MAX_SHIFT + 1):
                    self.faults.append(f"on token {la} reductions can go on without shortening the stack")
                    break


def main():
    with open(sys.argv[1], encoding="utf-8", errors="replace") as source:
        cert = Certificate(Tables(source.read()))
    cert.compute()
    if not cert.faults:
        cert.rank()
    for fault in dict.fromkeys(cert.faults):
        print(fault)
    return 1 if cert.faults else 0


if __name__ == "__main__":
    sys.exit(main())
