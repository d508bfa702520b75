/** What the calculator's language means, without precedence numbers: sums of products of powers,
    each level reading from left to right, with the arithmetic written out. The trees the
    evaluator is proved for are exactly the trees of this grammar, with the same values. */
module CalcGrammar {
  import opened Calc

  datatype Sum = One(p: Product) | Plus(s: Sum, p: Product) | Minus(s: Sum, p: Product)
  datatype Product = Just(w: Factor) | Times(p: Product, w: Factor) | Over(p: Product, w: Factor)
  datatype Factor = Base(a: Atom) | Raise(w: Factor, a: Atom)
  datatype Atom = Lit(lit: string) | NegLit(lit: string) | Group(s: Sum)

  // ----- literals are numerals -----

  predicate SumOk(s: Sum) {
    match s
    case One(p) => ProductOk(p)
    case Plus(t, p) => SumOk(t) && ProductOk(p)
    case Minus(t, p) => SumOk(t) && ProductOk(p)
  }

  predicate ProductOk(p: Product) {
    match p
    case Just(w) => FactorOk(w)
    case Times(q, w) => ProductOk(q) && FactorOk(w)
    case Over(q, w) => ProductOk(q) && FactorOk(w)
  }

  predicate FactorOk(w: Factor) {
    match w
    case Base(a) => AtomOk(a)
    case Raise(v, a) => FactorOk(v) && AtomOk(a)
  }

  predicate AtomOk(a: Atom) {
    match a
    case Lit(lit) => LitOk(lit)
    case NegLit(lit) => LitOk(lit)
    case Group(s) => SumOk(s)
  }

  // ----- tokens -----

  function SumTokens(s: Sum): seq<Token> {
    match s
    case One(p) => ProductTokens(p)
    case Plus(t, p) => SumTokens(t) + [TOp('+')] + ProductTokens(p)
    case Minus(t, p) => SumTokens(t) + [TOp('-')] + ProductTokens(p)
  }

  function ProductTokens(p: Product): seq<Token> {
    match p
    case Just(w) => FactorTokens(w)
    case Times(q, w) => ProductTokens(q) + [TOp('*')] + FactorTokens(w)
    case Over(q, w) => ProductTokens(q) + [TOp('/')] + FactorTokens(w)
  }

  function FactorTokens(w: Factor): seq<Token> {
    match w
    case Base(a) => AtomTokens(a)
    case Raise(v, a) => FactorTokens(v) + [TOp('^')] + AtomTokens(a)
  }

  function AtomTokens(a: Atom): seq<Token> {
    match a
    case Lit(lit) => [TNum(lit)]
    case NegLit(lit) => [TNeg(lit)]
    case Group(s) => [TOpen] + SumTokens(s) + [TClose]
  }

  // ----- values -----

  function SumValue(s: Sum): real
    requires SumOk(s)
  {
    match s
    case One(p) => ProductValue(p)
    case Plus(t, p) => SumValue(t) + ProductValue(p)
    case Minus(t, p) => SumValue(t) - ProductValue(p)
  }

  function ProductValue(p: Product): real
    requires ProductOk(p)
  {
    match p
    case Just(w) => FactorValue(w)
    case Times(q, w) => Multiplied(ProductValue(q), FactorValue(w))
    case Over(q, w) => Divided(ProductValue(q), FactorValue(w))
  }

  function Multiplied(a: real, b: real): real { a * b }

  function Divided(a: real, b: real): real { if b == 0.0 then 0.0 else a / b }

  function FactorValue(w: Factor): real
    requires FactorOk(w)
  {
    match w
    case Base(a) => AtomValue(a)
    case Raise(v, a) => IntPower(FactorValue(v), Truncate(AtomValue(a)))
  }

  function AtomValue(a: Atom): real
    requires AtomOk(a)
  {
    match a
    case Lit(lit) => LitFrom(0.0, lit)
    case NegLit(lit) => -LitFrom(0.0, lit)
    case Group(s) => SumValue(s)
  }

  /** base^n for any integer n; a negative power of 0 is 0. */
  function IntPower(base: real, n: int): real
    decreases if n < 0 then -n else n
  {
    if n == 0 then 1.0
    else if n > 0 then Multiplied(IntPower(base, n - 1), base)
    else if base == 0.0 then 0.0
    else Divided(IntPower(base, n + 1), base)
  }

  // ----- trees -----

  function SumTree(s: Sum): Expr {
    match s
    case One(p) => ProductTree(p)
    case Plus(t, p) => Bin('+', SumTree(t), ProductTree(p))
    case Minus(t, p) => Bin('-', SumTree(t), ProductTree(p))
  }

  function ProductTree(p: Product): Expr {
    match p
    case Just(w) => FactorTree(w)
    case Times(q, w) => Bin('*', ProductTree(q), FactorTree(w))
    case Over(q, w) => Bin('/', ProductTree(q), FactorTree(w))
  }

  function FactorTree(w: Factor): Expr {
    match w
    case Base(a) => AtomTree(a)
    case Raise(v, a) => Bin('^', FactorTree(v), AtomTree(a))
  }

  function AtomTree(a: Atom): Expr {
    match a
    case Lit(lit) => Num(lit)
    case NegLit(lit) => Neg(lit)
    case Group(s) => Paren(SumTree(s))
  }

  // ----- the operators -----

  /** The operators, by what undoes them; dividing by zero gives zero. */
  lemma ApplyLaws(a: real, b: real)
    ensures Apply('-', Apply('+', a, b), b) == a && Apply('+', Apply('-', a, b), b) == a
    ensures b != 0.0 ==> Apply('/', Apply('*', a, b), b) == a && Apply('*', Apply('/', a, b), b) == a
    ensures Apply('/', a, 0.0) == 0.0
  {
    hide Power;
    if b != 0.0 { Undone(a, b); }
  }

  lemma Undone(a: real, b: real)
    requires b != 0.0
    ensures a * b / b == a && a / b * b == a
  {
  }

  lemma {:induction false} PowerZero(n: nat)
    ensures Power(0.0, n) == if n == 0 then 1.0 else 0.0
  {
  }

  lemma {:induction false} PowerNonzero(a: real, n: nat)
    requires a != 0.0
    ensures Power(a, n) != 0.0
  {
    if n > 0 { PowerNonzero(a, n - 1); }
  }

  lemma {:induction false} PowerExact(a: real, n: int)
    ensures IntPower(a, n) ==
            if n >= 0 then Power(a, n) else if Power(a, -n) != 0.0 then 1.0 / Power(a, -n) else 0.0
    decreases if n < 0 then -n else n
  {
    if n > 0 {
      PowerExact(a, n - 1);
    } else if n < 0 {
      if a == 0.0 {
        PowerZero(-n);
      } else {
        PowerExact(a, n + 1);
        PowerNonzero(a, -n);
        PowerNonzero(a, -n - 1);
        Inverse(a, Power(a, -n - 1));
      }
    }
  }

  lemma Inverse(a: real, q: real)
    requires a != 0.0 && q != 0.0
    ensures q * a != 0.0 && 1.0 / q / a == 1.0 / (q * a)
  {
  }

  /** Powers of the same base add their exponents. */
  lemma {:induction false} PowersAdd(a: real, m: nat, n: nat)
    ensures IntPower(a, m + n) == Multiplied(IntPower(a, m), IntPower(a, n))
    decreases n
  {
    hide Multiplied;
    if n == 0 {
      Grouped(IntPower(a, m), 1.0, a);
    } else {
      PowersAdd(a, m, n - 1);
      Grouped(IntPower(a, m), IntPower(a, n - 1), a);
    }
  }

  lemma Grouped(x: real, y: real, z: real)
    ensures Multiplied(Multiplied(x, y), z) == Multiplied(x, Multiplied(y, z)) && Multiplied(x, 1.0) == x
  {
  }

  /** (int)b is the integer next to b on the side of zero. */
  lemma TruncateExact(b: real, n: int)
    ensures Truncate(b) == n <==> if b >= 0.0 then n as real <= b < (n + 1) as real else (n - 1) as real < b <= n as real
  {
  }

  // ----- the grammar's trees: tokens, values and shape -----

  lemma {:induction false} SumTrees(s: Sum)
    requires SumOk(s)
    ensures var e := SumTree(s); Wf(e) && Tokens(e) == SumTokens(s) && Eval(e) == SumValue(s)
  {
    hide LitOk;
    hide Apply;
    match s
    case One(p) => ProductTrees(p);
    case Plus(t, p) =>
      SumTrees(t);
      ProductTrees(p);
      ApplyOps(SumValue(t), ProductValue(p));
    case Minus(t, p) =>
      SumTrees(t);
      ProductTrees(p);
      ApplyOps(SumValue(t), ProductValue(p));
  }

  lemma {:induction false} ProductTrees(p: Product)
    requires ProductOk(p)
    ensures var e := ProductTree(p); Wf(e) && Tokens(e) == ProductTokens(p) && Eval(e) == ProductValue(p) && TopPrec(e) >= 2
  {
    hide LitOk;
    hide Apply;
    hide Multiplied;
    hide Divided;
    match p
    case Just(w) => FactorTrees(w);
    case Times(q, w) =>
      ProductTrees(q);
      FactorTrees(w);
      ApplyOps(ProductValue(q), FactorValue(w));
    case Over(q, w) =>
      ProductTrees(q);
      FactorTrees(w);
      ApplyOps(ProductValue(q), FactorValue(w));
  }

  lemma {:induction false} FactorTrees(w: Factor)
    requires FactorOk(w)
    ensures var e := FactorTree(w); Wf(e) && Tokens(e) == FactorTokens(w) && Eval(e) == FactorValue(w) && TopPrec(e) >= 3
  {
    hide LitOk;
    hide Apply;
    match w
    case Base(a) => AtomTrees(a);
    case Raise(v, a) =>
      FactorTrees(v);
      AtomTrees(a);
      ApplyOps(FactorValue(v), AtomValue(a));
  }

  lemma {:induction false} AtomTrees(a: Atom)
    requires AtomOk(a)
    ensures var e := AtomTree(a); Wf(e) && Tokens(e) == AtomTokens(a) && Eval(e) == AtomValue(a) && TopPrec(e) == 4
  {
    hide LitOk;
    hide Apply;
    match a
    case Lit(_) =>
    case NegLit(_) =>
    case Group(s) => SumTrees(s);
  }

  lemma ApplyOps(a: real, b: real)
    ensures Apply('+', a, b) == a + b && Apply('-', a, b) == a - b
    ensures Apply('*', a, b) == Multiplied(a, b) && Apply('/', a, b) == Divided(a, b)
    ensures Apply('^', a, b) == IntPower(a, Truncate(b))
  {
    PowerExact(a, Truncate(b));
  }

  // ----- every tree the evaluator accepts is one of the grammar's -----

  function SumOf(e: Expr): (s: Sum)
    requires Wf(e)
    ensures SumOk(s) && SumTree(s) == e
    decreases e, 3
  {
    if e.Bin? && e.op == '+' then Plus(SumOf(e.l), ProductOf(e.r))
    else if e.Bin? && e.op == '-' then Minus(SumOf(e.l), ProductOf(e.r))
    else One(ProductOf(e))
  }

  function ProductOf(e: Expr): (p: Product)
    requires Wf(e) && TopPrec(e) >= 2
    ensures ProductOk(p) && ProductTree(p) == e
    decreases e, 2
  {
    if e.Bin? && e.op == '*' then Times(ProductOf(e.l), FactorOf(e.r))
    else if e.Bin? && e.op == '/' then Over(ProductOf(e.l), FactorOf(e.r))
    else Just(FactorOf(e))
  }

  function FactorOf(e: Expr): (w: Factor)
    requires Wf(e) && TopPrec(e) >= 3
    ensures FactorOk(w) && FactorTree(w) == e
    decreases e, 1
  {
    if e.Bin? then Raise(FactorOf(e.l), AtomOf(e.r)) else Base(AtomOf(e))
  }

  function AtomOf(e: Expr): (a: Atom)
    requires Wf(e) && TopPrec(e) == 4
    ensures AtomOk(a) && AtomTree(a) == e
    decreases e, 0
  {
    match e
    case Num(lit) => Lit(lit)
    case Neg(lit) => NegLit(lit)
    case Paren(x) => Group(SumOf(x))
  }

  /** The trees the evaluator is proved for are exactly those of the grammar. */
  lemma WfExactly(e: Expr)
    ensures Wf(e) <==> exists s: Sum :: SumOk(s) && SumTree(s) == e
  {
    if Wf(e) {
      assert SumTree(SumOf(e)) == e;
    } else {
      forall s: Sum | SumOk(s)
        ensures SumTree(s) != e
      {
        SumTrees(s);
      }
    }
  }

  // ----- a sum is its signed terms -----

  /** The values of the terms, each with its sign. */
  function Terms(s: Sum): seq<real>
    requires SumOk(s)
  {
    match s
    case One(p) => [ProductValue(p)]
    case Plus(t, p) => Terms(t) + [ProductValue(p)]
    case Minus(t, p) => Terms(t) + [-ProductValue(p)]
  }

  function Total(vs: seq<real>): real { if vs == [] then 0.0 else vs[0] + Total(vs[1..]) }

  lemma {:induction false} TotalAppend(vs: seq<real>, v: real)
    ensures Total(vs + [v]) == Total(vs) + v
  {
    if vs == [] {
      assert [v][1..] == [];
    } else {
      TotalAppend(vs[1..], v);
      assert (vs + [v])[1..] == vs[1..] + [v];
    }
  }

  /** However it is grouped, a sum comes to the total of its terms. */
  lemma {:induction false} SumIsTotal(s: Sum)
    requires SumOk(s)
    ensures SumValue(s) == Total(Terms(s))
  {
    match s
    case One(p) =>
      assert Terms(s)[1..] == [];
    case Plus(t, p) =>
      SumIsTotal(t);
      TotalAppend(Terms(t), ProductValue(p));
    case Minus(t, p) =>
      SumIsTotal(t);
      TotalAppend(Terms(t), -ProductValue(p));
  }

  // ----- numerals -----

  /** The digits are these ten, each worth its place. */
  lemma TenDigits(c: char, v: nat)
    ensures IsDigit(c) && Digit(c) == v as real <==> v < 10 && c == "0123456789"[v]
  {
    if v < 10 { assert "0123456789"[v] as int == '0' as int + v; }
  }

  lemma DigitsJoin(s: string, t: string)
    requires AllDigits(s) && (t == [] || LitOk(t))
    ensures (s == [] || LitOk(s)) && (s + t == [] || LitOk(s + t))
  {
  }

  /** A numeral read in two goes, the first up to somewhere before its point. */
  lemma {:induction false} LitSplit(acc: real, s: string, t: string)
    requires AllDigits(s) && (t == [] || LitOk(t))
    ensures (s == [] || LitOk(s)) && (s + t == [] || LitOk(s + t)) && LitFrom(acc, s + t) == LitFrom(LitFrom(acc, s), t)
    decreases |s|
  {
    hide LitOk;
    DigitsJoin(s, t);
    if s == [] {
      assert s + t == t;
    } else {
      assert (s + t)[1..] == s[1..] + t && (s + t)[0] == s[0];
      LitSplit(acc * 10.0 + Digit(s[0]), s[1..], t);
    }
  }

  /** What makes a numeral decimal: a digit at the end counts once and the digits before it ten
      times as much, a point at the end counts nothing, and a point one digit further to the
      right makes ten times as much. */
  lemma NumeralLaws(s: string, d: char, f: string)
    requires AllDigits(s) && IsDigit(d) && AllDigits(f)
    ensures (s == [] || LitOk(s)) && LitOk(s + [d]) && LitFrom(0.0, s + [d]) == 10.0 * LitFrom(0.0, s) + Digit(d)
    ensures LitOk(s + ['.']) && LitFrom(0.0, s + ['.']) == LitFrom(0.0, s)
    ensures LitOk(s + (['.', d] + f)) && LitOk(s + ([d, '.'] + f))
    ensures 10.0 * LitFrom(0.0, s + (['.', d] + f)) == LitFrom(0.0, s + ([d, '.'] + f))
  {
    LitSplit(0.0, s, [d]);
    LitSplit(0.0, s, ['.']);
    LitSplit(0.0, s, ['.', d] + f);
    LitSplit(0.0, s, [d, '.'] + f);
    var v := LitFrom(0.0, s);
    var t, u, w := ['.', d] + f, [d, '.'] + f, ['.'] + f;
    assert t[1..] == [d] + f && t[1..][1..] == f && u[1..] == w && w[1..] == f;
    assert LitFrom(v, t) == v + FracValue([d] + f);
    assert LitFrom(v, u) == LitFrom(v * 10.0 + Digit(d), w);
  }
}
