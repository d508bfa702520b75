/** The calculator's shunting-yard evaluator: two fixed stacks and one left-to-right scan,
    proved to compute the value of the expression's syntax tree. */
module Calc {

  // ----- syntax trees -----

  /** Literals keep their spelling; a negated literal is one operand. */
  datatype Expr = Num(lit: string) | Neg(lit: string) | Paren(e: Expr) | Bin(op: char, l: Expr, r: Expr)

  predicate IsOp(c: char) { c == '+' || c == '-' || c == '*' || c == '/' || c == '^' }

  function Prec(op: char): nat {
    if op == '+' || op == '-' then 1
    else if op == '*' || op == '/' then 2
    else if op == '^' then 3
    else 0
  }

  predicate IsDigit(c: char) { '0' <= c <= '9' }
  predicate NumChar(c: char) { IsDigit(c) || c == '.' }

  /** Digits with at most one point. */
  predicate LitOk(s: string) {
    s != [] && (forall i :: 0 <= i < |s| ==> NumChar(s[i])) && (forall i, j :: 0 <= i < j < |s| && s[i] == '.' ==> s[j] != '.')
  }

  function TopPrec(e: Expr): nat { if e.Bin? then Prec(e.op) else 4 }

  /** The trees that need no further parentheses: every operator associates to the left. */
  predicate Wf(e: Expr) {
    match e
    case Num(lit) => LitOk(lit)
    case Neg(lit) => LitOk(lit)
    case Paren(x) => Wf(x)
    case Bin(op, l, r) => IsOp(op) && Wf(l) && Wf(r) && TopPrec(l) >= Prec(op) && TopPrec(r) > Prec(op)
  }

  function Nesting(e: Expr): nat {
    match e
    case Num(_) => 0
    case Neg(_) => 0
    case Paren(x) => 1 + Nesting(x)
    case Bin(_, l, r) => if Nesting(l) > Nesting(r) then Nesting(l) else Nesting(r)
  }

  // ----- values -----

  function Digit(c: char): real
    requires IsDigit(c)
  {
    (c as int - '0' as int) as real
  }

  predicate AllDigits(s: string) { forall i :: 0 <= i < |s| ==> IsDigit(s[i]) }

  /** 0.d1d2d3... */
  function FracValue(s: string): real
    requires AllDigits(s)
  {
    if s == [] then 0.0 else (Digit(s[0]) + FracValue(s[1..])) / 10.0
  }

  /** acc d1d2...[.f1f2...]: a decimal numeral continued from acc. */
  function LitFrom(acc: real, s: string): real
    requires s == [] || LitOk(s)
    decreases s
  {
    if s == [] then acc
    else if s[0] == '.' then
      assert AllDigits(s[1..]);
      acc + FracValue(s[1..])
    else
      assert s[1..] == [] || LitOk(s[1..]);
      LitFrom(acc * 10.0 + Digit(s[0]), s[1..])
  }

  function Power(base: real, n: nat): real {
    if n == 0 then 1.0 else Power(base, n - 1) * base
  }

  /** (int)b: truncation toward zero. */
  function Truncate(b: real): int {
    if b >= 0.0 then b.Floor else -((-b).Floor)
  }

  function Apply(op: char, a: real, b: real): real {
    if op == '+' then a + b
    else if op == '-' then a - b
    else if op == '*' then a * b
    else if op == '/' then (if b != 0.0 then a / b else 0.0)
    else if op == '^' then
      var n := Truncate(b);
      if n >= 0 then Power(a, n) else if Power(a, -n) != 0.0 then 1.0 / Power(a, -n) else 0.0
    else 0.0
  }

  function Eval(e: Expr): real
    requires Wf(e)
  {
    match e
    case Num(lit) => LitFrom(0.0, lit)
    case Neg(lit) => -LitFrom(0.0, lit)
    case Paren(x) => Eval(x)
    case Bin(op, l, r) => Apply(op, Eval(l), Eval(r))
  }

  // ----- tokens -----

  datatype Token = TNum(lit: string) | TNeg(lit: string) | TOp(op: char) | TOpen | TClose

  function Tokens(e: Expr): seq<Token> {
    match e
    case Num(lit) => [TNum(lit)]
    case Neg(lit) => [TNeg(lit)]
    case Paren(x) => [TOpen] + Tokens(x) + [TClose]
    case Bin(op, l, r) => Tokens(l) + [TOp(op)] + Tokens(r)
  }

  // ----- the two-stack machine on tokens -----

  datatype State = State(nums: seq<real>, ops: seq<char>)

  function Top(ops: seq<char>): char
    requires ops != []
  {
    ops[|ops| - 1]
  }

  /** apply_op: the top operator on the top two numbers. */
  function ApplyTop(s: State): (r: State)
    requires s.ops != []
    ensures |r.ops| == |s.ops| - 1
  {
    var k := |s.nums|;
    var rest := s.ops[..|s.ops| - 1];
    if k < 2 then State(s.nums, rest)
    else State(s.nums[..k - 2] + [Apply(Top(s.ops), s.nums[k - 2], s.nums[k - 1])], rest)
  }

  /** Whether the top operator must be applied before one of precedence p comes in. */
  predicate Ready(p: nat, ops: seq<char>) {
    ops != [] && Top(ops) != '(' && Prec(Top(ops)) >= p
  }

  function Reduce(p: nat, s: State): State
    decreases |s.ops|
  {
    if Ready(p, s.ops) then Reduce(p, ApplyTop(s)) else s
  }

  predicate TokenOk(t: Token) {
    match t
    case TNum(lit) => LitOk(lit)
    case TNeg(lit) => LitOk(lit)
    case TOp(op) => IsOp(op)
    case TOpen => true
    case TClose => true
  }

  predicate AllOk(ts: seq<Token>) { forall i :: 0 <= i < |ts| ==> TokenOk(ts[i]) }

  function Step(s: State, t: Token): State
    requires TokenOk(t)
  {
    match t
    case TNum(lit) => State(s.nums + [LitFrom(0.0, lit)], s.ops)
    case TNeg(lit) => State(s.nums + [-LitFrom(0.0, lit)], s.ops)
    case TOpen => State(s.nums, s.ops + ['('])
    case TClose =>
      var r := Reduce(0, s);
      if r.ops != [] then State(r.nums, r.ops[..|r.ops| - 1]) else r
    case TOp(op) =>
      var r := Reduce(Prec(op), s);
      State(r.nums, r.ops + [op])
  }

  function Run(s: State, ts: seq<Token>): State
    requires forall i :: 0 <= i < |ts| ==> TokenOk(ts[i])
    decreases |ts|
  {
    if ts == [] then s else Run(Step(s, ts[0]), ts[1..])
  }

  lemma {:induction false} RunConcat(s: State, ts: seq<Token>, us: seq<Token>)
    requires forall i :: 0 <= i < |ts| ==> TokenOk(ts[i])
    requires forall i :: 0 <= i < |us| ==> TokenOk(us[i])
    ensures Run(s, ts + us) == Run(Run(s, ts), us)
    decreases |ts|
  {
    if ts == [] {
      assert ts + us == us;
    } else {
      assert (ts + us)[0] == ts[0] && (ts + us)[1..] == ts[1..] + us;
      RunConcat(Step(s, ts[0]), ts[1..], us);
    }
  }

  lemma {:induction false} TokensOk(e: Expr)
    requires Wf(e)
    ensures forall i :: 0 <= i < |Tokens(e)| ==> TokenOk(Tokens(e)[i])
  {
    match e
    case Num(_) =>
    case Neg(_) =>
    case Paren(x) => TokensOk(x);
    case Bin(op, l, r) => TokensOk(l); TokensOk(r);
  }

  /** Reducing in two goes, first down to q, then to p <= q, is reducing to p. */
  lemma {:induction false} ReduceTwice(p: nat, q: nat, s: State)
    requires p <= q
    ensures Reduce(p, Reduce(q, s)) == Reduce(p, s)
    decreases |s.ops|
  {
    if Ready(q, s.ops) { ReduceTwice(p, q, ApplyTop(s)); }
  }

  /** Meaning is preserved: running a tree's tokens and then reducing whatever binds at
      least as tightly as p leaves the tree's value and the operators that were there. */
  lemma {:induction false} RunsToValue(e: Expr, s: State, p: nat)
    requires Wf(e) && p <= TopPrec(e) && !Ready(p, s.ops)
    requires forall i :: 0 <= i < |Tokens(e)| ==> TokenOk(Tokens(e)[i])
    ensures Reduce(p, Run(s, Tokens(e))) == State(s.nums + [Eval(e)], s.ops)
    decreases e, 1
  {
    match e
    case Num(lit) => RunOne(s, TNum(lit));
    case Neg(lit) => RunOne(s, TNeg(lit));
    case Paren(x) => ParenRuns(x, s);
    case Bin(op, l, r) => BinRuns(op, l, r, s, p);
  }

  lemma RunOne(s: State, t: Token)
    requires TokenOk(t)
    ensures Run(s, [t]) == Step(s, t)
  {
    assert [t][1..] == [];
    assert Run(Step(s, t), []) == Step(s, t);
  }

  lemma {:induction false} ParenRuns(x: Expr, s: State)
    requires Wf(x)
    requires forall i :: 0 <= i < |Tokens(Paren(x))| ==> TokenOk(Tokens(Paren(x))[i])
    ensures Run(s, Tokens(Paren(x))) == State(s.nums + [Eval(x)], s.ops)
    decreases x, 2
  {
    TokensOk(x);
    var open := State(s.nums, s.ops + ['(']);
    RunConcat(s, [TOpen], Tokens(x) + [TClose]);
    RunOne(s, TOpen);
    RunConcat(open, Tokens(x), [TClose]);
    RunsToValue(x, open, 0);
    RunOne(Run(open, Tokens(x)), TClose);
    assert [TOpen] + Tokens(x) + [TClose] == [TOpen] + (Tokens(x) + [TClose]);
    assert (s.ops + ['('])[..|s.ops|] == s.ops;
  }

  lemma {:induction false} BinRuns(op: char, l: Expr, r: Expr, s: State, p: nat)
    requires Wf(Bin(op, l, r)) && p <= Prec(op) && !Ready(p, s.ops)
    requires forall i :: 0 <= i < |Tokens(Bin(op, l, r))| ==> TokenOk(Tokens(Bin(op, l, r))[i])
    ensures Reduce(p, Run(s, Tokens(Bin(op, l, r)))) == State(s.nums + [Apply(op, Eval(l), Eval(r))], s.ops)
    decreases Bin(op, l, r), 0
  {
    hide Apply;
    hide Run;
    hide Prec;
    hide Eval;
    hide Step;
    hide Reduce;
    hide Ready;
    hide LitOk;
    TokensOk(l);
    TokensOk(r);
    var q := Prec(op);
    Outranks(op, s.ops, p);
    RunsToValue(l, s, q);
    StepOp(op, s, Eval(l), Run(s, Tokens(l)));
    var s2 := State(s.nums + [Eval(l)], s.ops + [op]);
    BinSplit(op, l, r, s, s2);
    RunsToValue(r, s2, q + 1);
    ReduceTwice(p, q + 1, Run(s2, Tokens(r)));
    FinishBin(op, s, Eval(l), Eval(r), p);
    assert s2.nums + [Eval(r)] == s.nums + [Eval(l), Eval(r)];
  }

  /** A reduction to p leaves nothing that op would reduce, nor op itself for a tighter one. */
  lemma Outranks(op: char, ops: seq<char>, p: nat)
    requires p <= Prec(op) && !Ready(p, ops)
    ensures !Ready(Prec(op), ops) && !Ready(Prec(op) + 1, ops + [op])
  {
    hide Prec;
  }

  lemma StepOp(op: char, s: State, a: real, s1: State)
    requires IsOp(op) && Reduce(Prec(op), s1) == State(s.nums + [a], s.ops)
    ensures Step(s1, TOp(op)) == State(s.nums + [a], s.ops + [op])
  {
    hide Reduce;
    hide Prec;
  }

  /** The tokens run as the left operand, then the operator, then the right operand. */
  lemma BinSplit(op: char, l: Expr, r: Expr, s: State, s2: State)
    requires AllOk(Tokens(l)) && AllOk(Tokens(r)) && AllOk(Tokens(Bin(op, l, r))) && IsOp(op)
    requires Step(Run(s, Tokens(l)), TOp(op)) == s2
    ensures Run(s, Tokens(Bin(op, l, r))) == Run(s2, Tokens(r))
  {
    hide Run;
    hide Step;
    hide LitOk;
    var s1 := Run(s, Tokens(l));
    assert Tokens(Bin(op, l, r)) == Tokens(l) + ([TOp(op)] + Tokens(r));
    RunConcat(s, Tokens(l), [TOp(op)] + Tokens(r));
    RunConcat(s1, [TOp(op)], Tokens(r));
    RunOne(s1, TOp(op));
  }

  /** The operator left between its two operands is applied, and then nothing is ready. */
  lemma FinishBin(op: char, s: State, a: real, b: real, p: nat)
    requires op != '(' && p <= Prec(op) && !Ready(p, s.ops)
    ensures Reduce(p, State(s.nums + [a, b], s.ops + [op])) == State(s.nums + [Apply(op, a, b)], s.ops)
  {
    hide Apply;
    var t := State(s.nums + [a, b], s.ops + [op]);
    assert t.ops[..|s.ops|] == s.ops && t.nums[..|s.nums|] == s.nums;
    assert ApplyTop(t) == State(s.nums + [Apply(op, a, b)], s.ops);
  }

  // ----- how far the stacks can grow -----

  function Parens(ops: seq<char>): nat {
    if ops == [] then 0 else Parens(ops[..|ops| - 1]) + (if Top(ops) == '(' then 1 else 0)
  }

  /** Between two open parentheses precedence rises strictly toward the top. */
  predicate Rising(ops: seq<char>) {
    && (forall i :: 0 <= i < |ops| ==> ops[i] == '(' || IsOp(ops[i]))
    && (forall i :: 0 < i < |ops| && ops[i - 1] != '(' && ops[i] != '(' ==> Prec(ops[i - 1]) < Prec(ops[i]))
  }

  /** The stacks between two tokens: `operand` when an operand must come next, `depth` open
      parentheses, and exactly the numbers the pending operators will need. */
  predicate Disciplined(s: State, operand: bool, depth: nat) {
    && Rising(s.ops) && Parens(s.ops) == depth
    && |s.nums| == |s.ops| - depth + (if operand then 0 else 1)
  }

  lemma ParensPop(ops: seq<char>, c: char)
    ensures Parens(ops + [c]) == Parens(ops) + (if c == '(' then 1 else 0)
  {
    assert (ops + [c])[..|ops|] == ops;
  }

  lemma {:induction false} ParensBound(ops: seq<char>)
    ensures Parens(ops) <= |ops|
    ensures (forall i :: 0 <= i < |ops| ==> ops[i] != '(') ==> Parens(ops) == 0
    ensures Parens(ops) == 0 ==> forall i :: 0 <= i < |ops| ==> ops[i] != '('
  {
    if ops != [] { ParensBound(ops[..|ops| - 1]); }
  }

  /** At most three operators fit between parentheses. */
  lemma {:induction false} OpsBound(ops: seq<char>)
    requires Rising(ops)
    ensures |ops| <= 4 * Parens(ops) + (if ops == [] then 0 else Prec(Top(ops)))
  {
    if ops != [] { OpsBound(ops[..|ops| - 1]); }
  }

  /** Operator stack at most 4 d + 3, number stack at most 3 d + 4, at nesting depth d. */
  lemma StackBound(s: State, operand: bool, depth: nat)
    requires Disciplined(s, operand, depth)
    ensures |s.ops| <= 4 * depth + 3 && |s.nums| <= 3 * depth + 4
  {
    OpsBound(s.ops);
  }

  /** Applying the top operator of a disciplined stack never lacks a number. */
  lemma ApplyKeeps(s: State, depth: nat)
    requires Disciplined(s, false, depth) && s.ops != [] && Top(s.ops) != '('
    ensures |s.nums| >= 2 && Disciplined(ApplyTop(s), false, depth)
  {
    hide Apply;
    ParensBound(s.ops[..|s.ops| - 1]);
  }

  lemma {:induction false} ReduceKeeps(p: nat, s: State, depth: nat)
    requires Disciplined(s, false, depth)
    ensures Disciplined(Reduce(p, s), false, depth) && !Ready(p, Reduce(p, s).ops)
    decreases |s.ops|
  {
    if Ready(p, s.ops) {
      ApplyKeeps(s, depth);
      ReduceKeeps(p, ApplyTop(s), depth);
    }
  }

  /** The tokens that may come next, and what the scanner expects after them. */
  predicate Fits(t: Token, operand: bool, depth: nat) {
    match t
    case TNum(_) => operand
    case TNeg(_) => operand
    case TOpen => operand
    case TOp(_) => !operand
    case TClose => !operand && depth > 0
  }

  function DepthAfter(t: Token, depth: nat): nat {
    if t.TOpen? then depth + 1 else if t.TClose? && depth > 0 then depth - 1 else depth
  }

  function OperandAfter(t: Token): bool { t.TOp? || t.TOpen? }

  lemma StepKeeps(s: State, t: Token, operand: bool, depth: nat)
    requires Disciplined(s, operand, depth) && TokenOk(t) && Fits(t, operand, depth)
    ensures Disciplined(Step(s, t), OperandAfter(t), DepthAfter(t, depth))
  {
    hide LitFrom;
    hide Reduce;
    match t
    case TNum(_) =>
    case TNeg(_) =>
    case TOpen => ParensPop(s.ops, '(');
    case TOp(op) => OpKeeps(s, op, depth);
    case TClose => CloseKeeps(s, depth);
  }

  lemma OpKeeps(s: State, op: char, depth: nat)
    requires Disciplined(s, false, depth) && IsOp(op)
    ensures Disciplined(Step(s, TOp(op)), true, depth)
  {
    hide Reduce;
    ReduceKeeps(Prec(op), s, depth);
    ParensPop(Reduce(Prec(op), s).ops, op);
  }

  lemma CloseKeeps(s: State, depth: nat)
    requires Disciplined(s, false, depth) && depth > 0
    ensures Disciplined(Step(s, TClose), false, depth - 1)
  {
    hide Reduce;
    ReduceKeeps(0, s, depth);
    ParensBound(Reduce(0, s).ops);
  }

  /** A token sequence the scanner can read to the end. */
  predicate Accepts(ts: seq<Token>, operand: bool, depth: nat) {
    if ts == [] then !operand && depth == 0
    else TokenOk(ts[0]) && Fits(ts[0], operand, depth) && Accepts(ts[1..], OperandAfter(ts[0]), DepthAfter(ts[0], depth))
  }

  function Max(a: nat, b: nat): nat { if a > b then a else b }

  /** The greatest nesting depth reached while reading ts from the given depth. */
  function Deepest(ts: seq<Token>, depth: nat): nat {
    if ts == [] then depth else Max(depth, Deepest(ts[1..], DepthAfter(ts[0], depth)))
  }

  /** A tree's tokens are read as one operand, at most Nesting(e) deep. */
  lemma {:induction false} TokensAccepted(e: Expr, rest: seq<Token>, depth: nat)
    requires Wf(e)
    ensures Accepts(Tokens(e) + rest, true, depth) == Accepts(rest, false, depth)
    ensures Deepest(Tokens(e) + rest, depth) == Max(depth + Nesting(e), Deepest(rest, depth))
    decreases e
  {
    hide Accepts;
    hide Deepest;
    hide LitOk;
    hide Prec;
    match e
    case Num(lit) =>
      Cons(TNum(lit), rest, true, depth);
      DeepestFrom(rest, depth);
    case Neg(lit) =>
      Cons(TNeg(lit), rest, true, depth);
      DeepestFrom(rest, depth);
    case Paren(x) =>
      var after := [TClose] + rest;
      assert Tokens(e) + rest == [TOpen] + (Tokens(x) + after);
      Cons(TOpen, Tokens(x) + after, true, depth);
      TokensAccepted(x, after, depth + 1);
      Cons(TClose, rest, false, depth + 1);
      DeepestFrom(rest, depth);
    case Bin(op, l, r) =>
      var after := [TOp(op)] + (Tokens(r) + rest);
      assert Tokens(e) + rest == Tokens(l) + after;
      TokensAccepted(l, after, depth);
      Cons(TOp(op), Tokens(r) + rest, false, depth);
      TokensAccepted(r, rest, depth);
      DeepestFrom(rest, depth);
  }

  lemma Cons(t: Token, rest: seq<Token>, operand: bool, depth: nat)
    ensures Accepts([t] + rest, operand, depth) ==
            (TokenOk(t) && Fits(t, operand, depth) && Accepts(rest, OperandAfter(t), DepthAfter(t, depth)))
    ensures Deepest([t] + rest, depth) == Max(depth, Deepest(rest, DepthAfter(t, depth)))
  {
    assert ([t] + rest)[1..] == rest;
  }

  lemma DeepestFrom(ts: seq<Token>, depth: nat)
    ensures Deepest(ts, depth) >= depth
  {
  }

  /** The stack discipline holds after every prefix of an accepted token sequence. */
  lemma {:induction false} RunDisciplined(s: State, ts: seq<Token>, k: nat, operand: bool, depth: nat)
    requires k <= |ts| && Disciplined(s, operand, depth) && Accepts(ts, operand, depth)
    requires forall i :: 0 <= i < |ts| ==> TokenOk(ts[i])
    ensures exists o: bool, d: nat :: d <= Deepest(ts, depth) && Disciplined(Run(s, ts[..k]), o, d)
    decreases k
  {
    if k == 0 {
      DeepestFrom(ts, depth);
      assert Run(s, ts[..0]) == s;
    } else {
      StepKeeps(s, ts[0], operand, depth);
      RunDisciplined(Step(s, ts[0]), ts[1..], k - 1, OperandAfter(ts[0]), DepthAfter(ts[0], depth));
      var rest := ts[1..][..k - 1];
      assert ts[..k][1..] == rest && ts[..k][0] == ts[0];
      var o: bool, d: nat :| d <= Deepest(ts[1..], DepthAfter(ts[0], depth)) && Disciplined(Run(Step(s, ts[0]), rest), o, d);
      assert Disciplined(Run(s, ts[..k]), o, d);
    }
  }

  /** Evaluating an expression of nesting depth d, at any point of the scan, uses at most
      4 d + 3 operator entries and 3 d + 4 number entries, however long it is. */
  lemma EvaluationBound(e: Expr, k: nat)
    requires Wf(e) && k <= |Tokens(e)|
    requires forall i :: 0 <= i < |Tokens(e)| ==> TokenOk(Tokens(e)[i])
    ensures var s := Run(State([], []), Tokens(e)[..k]);
            |s.ops| <= 4 * Nesting(e) + 3 && |s.nums| <= 3 * Nesting(e) + 4
  {
    hide Disciplined;
    TokensAccepted(e, [], 0);
    assert Tokens(e) + [] == Tokens(e);
    Empty();
    RunDisciplined(State([], []), Tokens(e), k, true, 0);
    var o: bool, d: nat :| d <= Nesting(e) && Disciplined(Run(State([], []), Tokens(e)[..k]), o, d);
    StackBound(Run(State([], []), Tokens(e)[..k]), o, d);
  }

  lemma Empty()
    ensures Disciplined(State([], []), true, 0)
  {
  }

  /** An expression of nesting depth d that fills the operator stack: x+x*x^(x+x*x^(...)). */
  function Steep(x: string, d: nat): Expr {
    Bin('+', Num(x), Bin('*', Num(x), Bin('^', Num(x), if d == 0 then Num(x) else Paren(Steep(x, d - 1)))))
  }

  function Climb(x: string): seq<Token> {
    [TNum(x), TOp('+')] + [TNum(x), TOp('*')] + [TNum(x), TOp('^')]
  }

  /** The tokens of Steep(x, d) up to its innermost operand. */
  function Ascent(x: string, d: nat): seq<Token> {
    if d == 0 then Climb(x) else Climb(x) + ([TOpen] + Ascent(x, d - 1))
  }

  /** A literal and an operator that binds more tightly than what is on the stack. */
  lemma PairRuns(s: State, x: string, op: char)
    requires LitOk(x) && IsOp(op) && !Ready(Prec(op), s.ops)
    ensures Run(s, [TNum(x), TOp(op)]).ops == s.ops + [op]
  {
    hide LitFrom;
    var ts := [TNum(x), TOp(op)];
    assert ts[1..] == [TOp(op)];
    RunOne(Step(s, TNum(x)), TOp(op));
  }

  lemma ClimbRuns(s: State, x: string)
    requires LitOk(x) && (s.ops == [] || Top(s.ops) == '(')
    ensures Run(s, Climb(x)).ops == s.ops + ['+', '*', '^']
  {
    hide Run;
    hide LitOk;
    var a, b, c := [TNum(x), TOp('+')], [TNum(x), TOp('*')], [TNum(x), TOp('^')];
    PairRuns(s, x, '+');
    PairRuns(Run(s, a), x, '*');
    RunConcat(s, a, b);
    PairRuns(Run(s, a + b), x, '^');
    RunConcat(s, a + b, c);
  }

  lemma {:induction false} AscentRuns(s: State, x: string, d: nat)
    requires LitOk(x) && (s.ops == [] || Top(s.ops) == '(')
    ensures (forall i :: 0 <= i < |Ascent(x, d)| ==> TokenOk(Ascent(x, d)[i])) && |Run(s, Ascent(x, d)).ops| == |s.ops| + 4 * d + 3
    decreases d
  {
    hide Run;
    hide LitOk;
    ClimbRuns(s, x);
    if d > 0 {
      var s1 := Run(s, Climb(x));
      AscentRuns(Step(s1, TOpen), x, d - 1);
      RunConcat(s, Climb(x), [TOpen] + Ascent(x, d - 1));
      RunConcat(s1, [TOpen], Ascent(x, d - 1));
      RunOne(s1, TOpen);
    }
  }

  lemma {:induction false} SteepAscends(x: string, d: nat)
    requires LitOk(x)
    ensures Wf(Steep(x, d)) && Nesting(Steep(x, d)) == d && Ascent(x, d) <= Tokens(Steep(x, d))
  {
    hide LitOk;
    if d > 0 { SteepAscends(x, d - 1); }
    var inner := if d == 0 then Num(x) else Paren(Steep(x, d - 1));
    assert Wf(inner) && Nesting(inner) == d;
    ClimbUp(x, inner);
    assert d > 0 ==> [TOpen] + Ascent(x, d - 1) <= Tokens(inner);
  }

  /** The three precedences in a row, each on the right of a looser one. */
  lemma ClimbUp(x: string, inner: Expr)
    requires LitOk(x) && Wf(inner)
    requires inner.Num? || inner.Paren?
    ensures var e := Bin('+', Num(x), Bin('*', Num(x), Bin('^', Num(x), inner)));
            Wf(e) && Nesting(e) == Nesting(inner) && Tokens(e) == Climb(x) + Tokens(inner)
  {
    hide LitOk;
    var power := Bin('^', Num(x), inner);
    var product := Bin('*', Num(x), power);
    assert Wf(Num(x)) && Nesting(Num(x)) == 0;
    assert Wf(power) && Nesting(power) == Nesting(inner);
    assert Wf(product) && Nesting(product) == Nesting(inner);
    hide Nesting;
    hide Wf;
    BinTokens('^', x, inner);
    BinTokens('*', x, power);
    BinTokens('+', x, product);
  }

  lemma BinTokens(op: char, x: string, r: Expr)
    ensures Tokens(Bin(op, Num(x), r)) == [TNum(x), TOp(op)] + Tokens(r)
  {
    assert Tokens(Num(x)) == [TNum(x)];
  }

  /** The 64-entry operator stack suffices for every expression of nesting depth d if and
      only if d is at most 15. */
  lemma SixtyFourIsEnough(d: nat)
    ensures d <= 15 <==>
            forall e, k: nat | Wf(e) && Nesting(e) == d && k <= |Tokens(e)| && AllOk(Tokens(e)) ::
              |Run(State([], []), Tokens(e)[..k]).ops| <= 64
  {
    hide Run;
    hide Tokens;
    hide Wf;
    if d <= 15 {
      forall e, k: nat | Wf(e) && Nesting(e) == d && k <= |Tokens(e)| && AllOk(Tokens(e))
        ensures |Run(State([], []), Tokens(e)[..k]).ops| <= 64
      {
        EvaluationBound(e, k);
      }
    } else {
      var x := ['1'];
      var e, k := Steep(x, d), |Ascent(x, d)|;
      SteepAscends(x, d);
      TokensOk(e);
      AscentRuns(State([], []), x, d);
      assert Tokens(e)[..k] == Ascent(x, d);
    }
  }
}
