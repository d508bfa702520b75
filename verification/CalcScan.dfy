/** The calculator's scanner: characters, the two 64-entry stacks and their tops. */
module CalcScan {
  import opened Calc
  import opened CalcGrammar

  predicate Blank(c: char) { c == ' ' || c == '\t' }

  function Text(t: Token): string {
    match t
    case TNum(lit) => lit
    case TNeg(lit) => ['-'] + lit
    case TOp(op) => [op]
    case TOpen => ['(']
    case TClose => [')']
  }

  /** s is the tokens' text in order, with blanks between tokens as one likes; a number ends
      where no further digit or point follows. */
  predicate Spells(s: string, ts: seq<Token>)
    decreases |s|
  {
    if s == [] then ts == []
    else if Blank(s[0]) then Spells(s[1..], ts)
    else
      ts != [] &&
      var k := |Text(ts[0])|;
      && 0 < k <= |s| && s[..k] == Text(ts[0])
      && ((ts[0].TNum? || ts[0].TNeg?) ==> k == |s| || !NumChar(s[k]))
      && Spells(s[k..], ts[1..])
  }

  // ----- numbers -----

  /** parse_number: reads the longest numeral at position i; `lit` is that numeral. */
  method ParseNumber(s: string, i: nat, ghost lit: string) returns (v: real, j: nat)
    requires LitOk(lit) && i + |lit| <= |s| && s[i..i + |lit|] == lit
    requires i + |lit| == |s| || !NumChar(s[i + |lit|])
    ensures j == i + |lit| && v == LitFrom(0.0, lit)
  {
    hide LitFrom;
    hide Tail;
    v := 0.0;
    var fraction := 0.1;
    var hasDot := false;
    j := i;
    while j < |s| && (IsDigit(s[j]) || (s[j] == '.' && !hasDot))
      invariant i <= j <= i + |lit|
      invariant !hasDot ==> fraction == 0.1 && (lit[j - i..] == [] || LitOk(lit[j - i..])) && LitFrom(0.0, lit) == LitFrom(v, lit[j - i..])
      invariant hasDot ==> AllDigits(lit[j - i..]) && LitFrom(0.0, lit) == Tail(v, fraction, lit[j - i..])
    {
      assert NumChar(s[j]) && j < i + |lit|;
      ghost var rest := lit[j - i..];
      assert s[j] == rest[0] && rest[1..] == lit[j + 1 - i..];
      if s[j] == '.' {
        DotStep(v, rest);
        hasDot := true;
      } else if hasDot {
        FracStep(v, fraction, rest);
        v := v + Digit(s[j]) * fraction;
        fraction := fraction * 0.1;
      } else {
        DigitStep(v, rest);
        v := v * 10.0 + Digit(s[j]);
      }
      j := j + 1;
      assert lit[j - i..] == rest[1..];
    }
    StopsAtEnd(s, i, j, lit, hasDot);
    assert lit[j - i..] == [];
    NothingLeft(v, fraction);
  }

  lemma StopsAtEnd(s: string, i: nat, j: nat, lit: string, hasDot: bool)
    requires LitOk(lit) && i + |lit| <= |s| && s[i..i + |lit|] == lit && i <= j <= i + |lit|
    requires hasDot ==> AllDigits(lit[j - i..])
    requires !(j < |s| && (IsDigit(s[j]) || (s[j] == '.' && !hasDot)))
    ensures j == i + |lit|
  {
    if j < i + |lit| { MoreToRead(s, i, j, lit, hasDot); }
  }

  lemma MoreToRead(s: string, i: nat, j: nat, lit: string, hasDot: bool)
    requires LitOk(lit) && i + |lit| <= |s| && s[i..i + |lit|] == lit && i <= j < i + |lit|
    requires hasDot ==> AllDigits(lit[j - i..])
    ensures IsDigit(s[j]) || (s[j] == '.' && !hasDot)
  {
    assert s[j] == lit[j - i] == lit[j - i..][0];
  }

  /** v plus the digits of s, the first of them worth `fraction`. */
  ghost function Tail(v: real, fraction: real, s: string): real
    requires AllDigits(s)
  {
    v + 10.0 * fraction * FracValue(s)
  }

  lemma FracStep(v: real, fraction: real, s: string)
    requires s != [] && AllDigits(s)
    ensures AllDigits(s[1..]) && Tail(v, fraction, s) == Tail(v + Digit(s[0]) * fraction, fraction * 0.1, s[1..])
  {
    var d, f := Digit(s[0]), FracValue(s[1..]);
    assert 10.0 * fraction * ((d + f) / 10.0) == fraction * (d + f);
  }

  lemma DotStep(v: real, s: string)
    requires LitOk(s) && s[0] == '.'
    ensures AllDigits(s[1..]) && LitFrom(v, s) == Tail(v, 0.1, s[1..])
  {
  }

  lemma DigitStep(v: real, s: string)
    requires LitOk(s) && s[0] != '.'
    ensures IsDigit(s[0]) && (s[1..] == [] || LitOk(s[1..])) && LitFrom(v, s) == LitFrom(v * 10.0 + Digit(s[0]), s[1..])
  {
  }

  lemma NothingLeft(v: real, fraction: real)
    ensures LitFrom(v, []) == v && Tail(v, fraction, []) == v
  {
  }

  /** The switch of apply_op, with its two loops for ^. */
  method Compute(op: char, a: real, b: real) returns (r: real)
    ensures r == Apply(op, a, b)
  {
    r := 0.0;
    if op == '+' {
      r := a + b;
    } else if op == '-' {
      r := a - b;
    } else if op == '*' {
      r := a * b;
    } else if op == '/' {
      r := if b != 0.0 then a / b else 0.0;
    } else if op == '^' {
      var n := Truncate(b);
      if n >= 0 {
        r := PowerLoop(a, n);
      } else {
        r := PowerLoop(a, -n);
        if r != 0.0 { r := 1.0 / r; }
      }
    }
  }

  method PowerLoop(base: real, n: nat) returns (r: real)
    ensures r == Power(base, n)
  {
    r := 1.0;
    var i := 0;
    while i < n
      invariant i <= n && r == Power(base, i)
    {
      r := r * base;
      i := i + 1;
    }
  }

  // ----- the calculator -----

  class Calculator {
    const numStack: array<real>
    var numTop: nat
    const opStack: array<char>
    var opTop: nat

    constructor ()
      ensures Ok() && fresh(numStack) && fresh(opStack)
    {
      numStack := new real[64](_ => 0.0);
      opStack := new char[64](_ => '0');
      numTop, opTop := 0, 0;
    }

    predicate Ok()
      reads this
    {
      numStack.Length == 64 && opStack.Length == 64 && numTop <= 64 && opTop <= 64
    }

    /** The stacks' contents, bottom first. */
    ghost function Contents(): State
      requires Ok()
      reads this, numStack, opStack
    {
      State(numStack[..numTop], opStack[..opTop])
    }

    method NumPush(v: real)
      requires Ok() && numTop < 64
      modifies this`numTop, numStack
      ensures Ok() && Contents() == old(State(Contents().nums + [v], Contents().ops))
    {
      numStack[numTop] := v;
      numTop := numTop + 1;
    }

    method OpPush(op: char)
      requires Ok() && opTop < 64
      modifies this`opTop, opStack
      ensures Ok() && Contents() == old(State(Contents().nums, Contents().ops + [op]))
    {
      opStack[opTop] := op;
      opTop := opTop + 1;
    }

    /** apply_op */
    method ApplyOp()
      requires Ok() && opTop > 0 && numTop >= 2
      modifies this`numTop, this`opTop, numStack
      ensures Ok() && Contents() == ApplyTop(old(Contents()))
    {
      hide Apply;
      opTop := opTop - 1;
      var op := opStack[opTop];
      var b := numStack[numTop - 1];
      var a := numStack[numTop - 2];
      var r := Compute(op, a, b);
      numTop := numTop - 2;
      numStack[numTop] := r;
      numTop := numTop + 1;
    }

    /** Applies operators down to a parenthesis or to one that binds less tightly than p. */
    method ReduceTo(p: nat, ghost depth: nat)
      requires Ok() && Disciplined(Contents(), false, depth)
      modifies this`numTop, this`opTop, numStack
      ensures Ok() && Contents() == Reduce(p, old(Contents())) && Disciplined(Contents(), false, depth)
      ensures !Ready(p, Contents().ops)
    {
      hide Apply;
      hide Disciplined;
      ghost var start := Contents();
      while opTop > 0 && opStack[opTop - 1] != '(' && Prec(opStack[opTop - 1]) >= p
        invariant Ok() && Disciplined(Contents(), false, depth) && Reduce(p, Contents()) == Reduce(p, start)
        decreases opTop
      {
        ApplyKeeps(Contents(), depth);
        ApplyOp();
      }
    }

    /** What the scan keeps before position i: the rest of the text spells the rest of the
        tokens, and running those from the present stacks is running the whole sequence. */
    ghost predicate Scanning(s: string, i: nat, ts: seq<Token>, operand: bool, depth: nat, whole: seq<Token>)
      requires Ok()
      reads this, numStack, opStack
    {
      && i <= |s| && Spells(s[i..], ts) && AllOk(ts) && AllOk(whole)
      && Accepts(ts, operand, depth) && Deepest(ts, depth) <= 15
      && Disciplined(Contents(), operand, depth)
      && Run(Contents(), ts) == Run(State([], []), whole)
    }

    /** The body of the scan loop for one token. */
    method Take(s: string, i: nat, operand: bool, ghost t: Token, ghost depth: nat) returns (i': nat, operand': bool)
      requires Ok() && Disciplined(Contents(), operand, depth) && TokenOk(t) && Fits(t, operand, depth)
      requires DepthAfter(t, depth) <= 15
      requires 0 < |Text(t)| && i + |Text(t)| <= |s| && s[i..i + |Text(t)|] == Text(t) && s[i] == Text(t)[0]
      requires (t.TNum? || t.TNeg?) ==> i + |Text(t)| == |s| || !NumChar(s[i + |Text(t)|])
      modifies this`numTop, this`opTop, numStack, opStack
      ensures Ok() && Contents() == Step(old(Contents()), t)
      ensures i' == i + |Text(t)| && operand' == OperandAfter(t)
    {
      hide Apply;
      hide LitFrom;
      hide LitOk;
      hide Reduce;
      hide Disciplined;
      WhichToken(t, operand, depth);
      StepKeeps(Contents(), t, operand, depth);
      StackBound(Step(Contents(), t), OperandAfter(t), DepthAfter(t, depth));
      if NumChar(s[i]) {
        var v;
        v, i' := ParseNumber(s, i, t.lit);
        NumPush(v);
        operand' := false;
      } else if s[i] == '(' {
        OpPush('(');
        i', operand' := i + 1, true;
      } else if s[i] == ')' {
        ReduceTo(0, depth);
        if opTop > 0 { opTop := opTop - 1; }
        i', operand' := i + 1, false;
      } else if s[i] == '-' && operand {
        assert s[i + 1..i + 1 + |t.lit|] == t.lit;
        var v;
        v, i' := ParseNumber(s, i + 1, t.lit);
        NumPush(-v);
        operand' := false;
      } else {
        ReduceTo(Prec(s[i]), depth);
        OpPush(s[i]);
        i', operand' := i + 1, true;
      }
    }

    /** parse_expression: the text of a sum of products of powers evaluates to its value, each
        level from left to right, and leaves one number and no operator. */
    method ParseExpression(s: string, ghost g: Sum) returns (r: real)
      requires Ok() && SumOk(g) && Nesting(SumTree(g)) <= 15 && Spells(s, SumTokens(g))
      modifies this, numStack, opStack
      ensures Ok() && opTop == 0 && numTop == 1 && r == SumValue(g)
    {
      hide Apply;
      hide LitFrom;
      hide Reduce;
      hide Disciplined;
      hide Step;
      hide Spells;
      hide Accepts;
      hide Deepest;
      hide Wf;
      hide Run;
      hide AllOk;
      hide Fits;
      hide Tokens;
      hide Eval;
      hide Scanning;
      hide SumOk;
      hide SumTree;
      hide SumTokens;
      hide SumValue;
      numTop, opTop := 0, 0;
      var i, operand := 0, true;
      ghost var e := SumTree(g);
      SumTrees(g);
      ghost var ts, depth := Tokens(e), 0;
      ScanStarts(s, e);
      Start(s, e);
      while i < |s|
        invariant Ok() && i <= |s| && Scanning(s, i, ts, operand, depth, Tokens(e))
      {
        i, operand, ts, depth := ScanOne(s, i, operand, ts, depth, Tokens(e));
      }
      AtEnd(s, i, ts, operand, depth, Tokens(e));
      ScanEnds(ts, operand, depth, Contents(), e);
      FinalReduce();
      r := numStack[0];
    }

    lemma Start(s: string, e: Expr)
      requires Ok() && Contents() == State([], []) && Spells(s[0..], Tokens(e)) && AllOk(Tokens(e))
      requires Accepts(Tokens(e), true, 0) && Deepest(Tokens(e), 0) <= 15 && Disciplined(State([], []), true, 0)
      ensures Scanning(s, 0, Tokens(e), true, 0, Tokens(e))
    {
    }

    lemma AtEnd(s: string, i: nat, ts: seq<Token>, operand: bool, depth: nat, whole: seq<Token>)
      requires Ok() && Scanning(s, i, ts, operand, depth, whole) && i == |s|
      ensures Spells([], ts) && AllOk(ts) && AllOk(whole) && Accepts(ts, operand, depth)
      ensures Run(Contents(), ts) == Run(State([], []), whole) && Disciplined(Contents(), operand, depth)
    {
      assert s[i..] == [];
    }

    /** One turn of the scan loop: a blank or a token. */
    method ScanOne(s: string, i: nat, operand: bool, ghost ts: seq<Token>, ghost depth: nat, ghost whole: seq<Token>)
      returns (i': nat, operand': bool, ghost ts': seq<Token>, ghost depth': nat)
      requires Ok() && i < |s| && Scanning(s, i, ts, operand, depth, whole)
      modifies this`numTop, this`opTop, numStack, opStack
      ensures Ok() && i < i' <= |s| && Scanning(s, i', ts', operand', depth', whole)
    {
      hide Apply;
      hide LitFrom;
      hide Reduce;
      hide Disciplined;
      hide Step;
      hide Spells;
      hide Accepts;
      hide Deepest;
      hide Run;
      hide AllOk;
      hide Fits;
      hide TokenOk;
      hide Blank;
      hide NumChar;
      hide DepthAfter;
      hide OperandAfter;
      hide Text;
      if Blank(s[i]) {
        SkipBlank(s, i, ts);
        i', operand', ts', depth' := i + 1, operand, ts, depth;
      } else {
        TokenHere(s, i, ts);
        TokenTaken(Contents(), ts, operand, depth);
        i', operand' := Take(s, i, operand, ts[0], depth);
        ts', depth' := ts[1..], DepthAfter(ts[0], depth);
      }
    }

    /** Applies every operator left at the end of the text. */
    method FinalReduce()
      requires Ok() && Disciplined(Contents(), false, 0)
      modifies this`numTop, this`opTop, numStack
      ensures Ok() && Contents() == Reduce(0, old(Contents()))
    {
      hide Apply;
      hide Disciplined;
      ghost var start := Contents();
      while opTop > 0
        invariant Ok() && Disciplined(Contents(), false, 0) && Reduce(0, Contents()) == Reduce(0, start)
        decreases opTop
      {
        NoParens(Contents());
        ApplyKeeps(Contents(), 0);
        ApplyOp();
      }
    }
  }

  lemma NoParens(s: State)
    requires Disciplined(s, false, 0) && s.ops != []
    ensures Top(s.ops) != '(' && Ready(0, s.ops)
  {
    ParensBound(s.ops);
  }

  lemma ScanStarts(s: string, e: Expr)
    requires Wf(e) && Spells(s, Tokens(e))
    ensures s[0..] == s && AllOk(Tokens(e)) && Accepts(Tokens(e), true, 0) && Deepest(Tokens(e), 0) == Nesting(e)
    ensures Disciplined(State([], []), true, 0)
  {
    TokensOk(e);
    TokensAccepted(e, [], 0);
    assert Tokens(e) + [] == Tokens(e);
  }

  /** What taking the first token does to the scan. */
  lemma TokenTaken(st: State, ts: seq<Token>, operand: bool, depth: nat)
    requires ts != [] && AllOk(ts) && Accepts(ts, operand, depth) && Deepest(ts, depth) <= 15 && Disciplined(st, operand, depth)
    ensures TokenOk(ts[0]) && AllOk(ts[1..]) && Fits(ts[0], operand, depth)
    ensures Accepts(ts[1..], OperandAfter(ts[0]), DepthAfter(ts[0], depth)) && Deepest(ts[1..], DepthAfter(ts[0], depth)) <= 15
    ensures DepthAfter(ts[0], depth) <= 15
    ensures Disciplined(Step(st, ts[0]), OperandAfter(ts[0]), DepthAfter(ts[0], depth))
    ensures Run(st, ts) == Run(Step(st, ts[0]), ts[1..])
  {
    StepKeeps(st, ts[0], operand, depth);
    DeepestFrom(ts[1..], DepthAfter(ts[0], depth));
  }

  lemma ScanEnds(ts: seq<Token>, operand: bool, depth: nat, st: State, e: Expr)
    requires Spells([], ts) && AllOk(ts) && AllOk(Tokens(e)) && Wf(e) && Accepts(ts, operand, depth)
    requires Run(st, ts) == Run(State([], []), Tokens(e))
    ensures !operand && depth == 0 && Reduce(0, st) == State([Eval(e)], [])
  {
    RunsToValue(e, State([], []), 0);
  }

  /** Skipping a blank leaves the tokens to come. */
  lemma SkipBlank(s: string, i: nat, ts: seq<Token>)
    requires i < |s| && Spells(s[i..], ts) && Blank(s[i])
    ensures Spells(s[i + 1..], ts)
  {
    assert s[i..][0] == s[i] && s[i..][1..] == s[i + 1..];
  }

  /** At a character that is no blank a token starts, and its text is there in full. */
  lemma TokenHere(s: string, i: nat, ts: seq<Token>)
    requires i < |s| && Spells(s[i..], ts) && !Blank(s[i])
    ensures ts != []
    ensures var k := |Text(ts[0])|;
            && 0 < k && i + k <= |s| && s[i..i + k] == Text(ts[0]) && s[i] == Text(ts[0])[0]
            && ((ts[0].TNum? || ts[0].TNeg?) ==> i + k == |s| || !NumChar(s[i + k]))
            && Spells(s[i + k..], ts[1..])
  {
    var k := |Text(ts[0])|;
    assert s[i..][0] == s[i];
    assert s[i..][..k] == s[i..i + k] && s[i..][k..] == s[i + k..];
    if i + k < |s| { assert s[i..][k] == s[i + k]; }
    assert s[i..i + k][0] == s[i];
  }

  /** The first token, by its first character and what the scanner expects. */
  lemma WhichToken(t: Token, operand: bool, depth: nat)
    requires TokenOk(t) && Fits(t, operand, depth) && Text(t) != []
    ensures var c := Text(t)[0];
            && (t.TNum? <==> NumChar(c))
            && (t.TOpen? <==> c == '(')
            && (t.TClose? <==> c == ')')
            && (t.TNeg? <==> c == '-' && operand)
            && (t.TOp? <==> IsOp(c) && !(c == '-' && operand))
            && (t.TNeg? ==> Text(t)[1..] == t.lit)
  {
  }

  // ----- known answers -----

  lemma SpellNext(t: Token, rest: string, ts: seq<Token>)
    requires Spells(rest, ts) && Text(t) != [] && !Blank(Text(t)[0])
    requires t.TNum? || t.TNeg? ==> rest == [] || !NumChar(rest[0])
    ensures Spells(Text(t) + rest, [t] + ts)
  {
    var s, k := Text(t) + rest, |Text(t)|;
    assert s[..k] == Text(t) && s[k..] == rest && ([t] + ts)[1..] == ts && s[0] == Text(t)[0];
  }

  /** A space or a tab before a token changes nothing. */
  lemma BlanksSkipped(s: string, ts: seq<Token>)
    requires Spells(s, ts)
    ensures Spells(" " + s, ts) && Spells("\t" + s, ts)
  {
    assert (" " + s)[1..] == s && ("\t" + s)[1..] == s;
  }

  /** Five tokens in a row, one character each. */
  lemma SpellFive(a: Token, b: Token, c: Token, d: Token, e: Token)
    requires |Text(a)| == |Text(b)| == |Text(c)| == |Text(d)| == |Text(e)| == 1
    requires NumChar(Text(a)[0]) && NumChar(Text(c)[0]) && NumChar(Text(e)[0]) && b.TOp? && d.TOp? && IsOp(b.op) && IsOp(d.op)
    ensures Spells(Text(a) + (Text(b) + (Text(c) + (Text(d) + (Text(e) + "")))), [a] + ([b] + ([c] + ([d] + ([e] + [])))))
  {
    hide Spells;
    EmptySpells();
    SpellNext(e, "", []);
    SpellNext(d, Text(e) + "", [e] + []);
    SpellNext(c, Text(d) + (Text(e) + ""), [d] + ([e] + []));
    SpellNext(b, Text(c) + (Text(d) + (Text(e) + "")), [c] + ([d] + ([e] + [])));
    SpellNext(a, Text(b) + (Text(c) + (Text(d) + (Text(e) + ""))), [b] + ([c] + ([d] + ([e] + []))));
  }

  lemma EmptySpells()
    ensures Spells("", [])
  {
  }

  lemma Digit238()
    ensures LitOk("2") && LitFrom(0.0, "2") == 2.0 && LitOk("3") && LitFrom(0.0, "3") == 3.0 && LitOk("8") && LitFrom(0.0, "8") == 8.0
  {
  }

  /** 8-2*3: the product is taken before the difference. */
  lemma ProductFirst() returns (g: Sum)
    ensures SumOk(g) && Nesting(SumTree(g)) == 0 && Spells("8-2*3", SumTokens(g)) && SumValue(g) == 2.0
  {
    hide Spells;
    hide LitOk;
    hide LitFrom;
    Digit238();
    g := Minus(One(Just(Base(Lit("8")))), Times(Just(Base(Lit("2"))), Base(Lit("3"))));
    SpellFive(TNum("8"), TOp('-'), TNum("2"), TOp('*'), TNum("3"));
    assert "8-2*3" == "8" + ("-" + ("2" + ("*" + ("3" + ""))));
    assert SumTokens(g) == [TNum("8")] + ([TOp('-')] + ([TNum("2")] + ([TOp('*')] + ([TNum("3")] + []))));
  }

  /** 2^3^2: the first power is taken first. */
  lemma PowersFromLeft() returns (g: Sum)
    ensures SumOk(g) && Nesting(SumTree(g)) == 0 && Spells("2^3^2", SumTokens(g)) && SumValue(g) == 64.0
  {
    hide Spells;
    hide LitOk;
    hide LitFrom;
    Digit238();
    g := One(Just(Raise(Raise(Base(Lit("2")), Lit("3")), Lit("2"))));
    SpellFive(TNum("2"), TOp('^'), TNum("3"), TOp('^'), TNum("2"));
    assert "2^3^2" == "2" + ("^" + ("3" + ("^" + ("2" + ""))));
    assert SumTokens(g) == [TNum("2")] + ([TOp('^')] + ([TNum("3")] + ([TOp('^')] + ([TNum("2")] + []))));
    assert IntPower(2.0, 3) == 8.0 && IntPower(8.0, 2) == 64.0;
  }

  method KnownAnswers() returns (a: real, b: real)
    ensures a == 2.0 && b == 64.0
  {
    hide Spells;
    var c := new Calculator();
    ghost var g := ProductFirst();
    a := c.ParseExpression("8-2*3", g);
    g := PowersFromLeft();
    b := c.ParseExpression("2^3^2", g);
  }
}
