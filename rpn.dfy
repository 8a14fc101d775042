/**
 * The RPN calculator: a stack machine over single-digit operands and the
 * operators + - * /. The stack is a member of the calculator object and is
 * never cleared; it is modelled as a sequence whose last element is the top.
 * Integers are unbounded here (see README for C++ int overflow).
 */
module Rpn {
  import opened Characters
  import opened Wrappers

  // ---------------------------------------------------------------------
  // Tokens
  // ---------------------------------------------------------------------

  /** isOperator: exactly the one-character strings "+", "-", "*", "/". */
  predicate IsOperator(token: string): (ok: bool)
    ensures ok ==> |token| == 1
  {
    token == "+" || token == "-" || token == "*" || token == "/"
  }

  lemma {:induction false} OperatorIsOneCharacter(token: string)
    ensures IsOperator(token) <==> |token| == 1 && token[0] in {'+', '-', '*', '/'}
  {
    if |token| == 1 && token[0] in {'+', '-', '*', '/'} {
      assert token == [token[0]];
    }
  }

  /** Length of the run of non-space characters at the front of s. */
  function WordLength(s: string): (n: nat)
    ensures n <= |s|
    ensures forall k :: 0 <= k < n ==> !IsSpace(s[k])
    ensures n < |s| ==> IsSpace(s[n])
  {
    if s == [] || IsSpace(s[0]) then 0 else 1 + WordLength(s[1..])
  }

  /** The tokens `ss >> token` extracts one after another: maximal runs of
      non-space characters, so every token is a non-empty word. */
  function Tokens(s: string): (ts: seq<string>)
    ensures forall i :: 0 <= i < |ts| ==> IsWord(ts[i])
    decreases |s|
  {
    if s == [] then []
    else if IsSpace(s[0]) then Tokens(s[1..])
    else
      var n := WordLength(s);
      [s[..n]] + Tokens(s[n..])
  }

  predicate IsWord(t: string)
  {
    |t| > 0 && forall k :: 0 <= k < |t| ==> !IsSpace(t[k])
  }

  /** Tokens separated by single spaces. */
  function Join(ts: seq<string>): string
  {
    if ts == [] then [] else ts[0] + " " + Join(ts[1..])
  }

  /** Splitting re-reads exactly the words that were joined. */
  lemma {:induction false} TokensOfJoin(ts: seq<string>)
    requires forall i :: 0 <= i < |ts| ==> IsWord(ts[i])
    ensures Tokens(Join(ts)) == ts
    decreases |ts|
  {
    if ts != [] {
      var w, rest := ts[0], Join(ts[1..]);
      var s := w + " " + rest;
      assert IsWord(ts[0]);
      WordOfJoin(w, rest);
      assert s[|w|..] == " " + rest;
      assert (" " + rest)[1..] == rest;
      assert Tokens(" " + rest) == Tokens(rest);
      TokensOfJoin(ts[1..]);
    }
  }

  lemma {:induction false} WordOfJoin(w: string, rest: string)
    requires IsWord(w)
    ensures WordLength(w + " " + rest) == |w|
    ensures (w + " " + rest)[..|w|] == w
    decreases |w|
  {
    var s := w + " " + rest;
    if |w| > 1 {
      assert IsWord(w[1..]);
      assert s[1..] == w[1..] + " " + rest;
      WordOfJoin(w[1..], rest);
    } else {
      assert s[1..] == " " + rest;
    }
  }

  // ---------------------------------------------------------------------
  // The operation of one operator
  // ---------------------------------------------------------------------

  function Abs(x: int): nat { if x < 0 then -x else x }

  /** C++ int division: the quotient truncated toward zero (unlike Dafny's
      Euclidean /), so it is never larger than the dividend in magnitude and
      is zero or has the sign of a times b. */
  function CDiv(a: int, b: int): (q: int)
    requires b != 0
    ensures Abs(q) <= Abs(a)
    ensures q == 0 || ((q < 0) <==> ((a < 0) != (b < 0)))
  {
    var m := Abs(a) / Abs(b);
    QuotientAtMost(Abs(a), Abs(b));
    if (a < 0) != (b < 0) then -m else m
  }

  lemma {:induction false} QuotientAtMost(x: nat, y: nat)
    requires y >= 1
    ensures x / y <= x
  {
    var q := x / y;
    QuotientTimesDivisor(x, y);
    TimesAtLeastOne(y, q);
  }

  lemma QuotientTimesDivisor(x: nat, y: nat)
    requires y >= 1
    ensures y * (x / y) <= x
  {
    assert x == y * (x / y) + x % y;
  }

  lemma {:induction false} TimesAtLeastOne(y: nat, q: nat)
    requires y >= 1
    ensures q <= y * q
    decreases y
  {
    if y > 1 {
      TimesAtLeastOne(y - 1, q);
      assert y * q == (y - 1) * q + q;
    }
  }

  /** The remainder left by the truncating quotient has the sign of a and is
      smaller than b in magnitude. */
  lemma {:induction false} CDivRemainder(a: int, b: int)
    requires b != 0
    ensures Abs(a - b * CDiv(a, b)) < Abs(b)
    ensures a - b * CDiv(a, b) == 0 || ((a - b * CDiv(a, b) < 0) <==> (a < 0))
  {
    var m := Abs(a) / Abs(b);
    var r := Abs(a) % Abs(b);
    DivMod(Abs(a), Abs(b));
    var neg := (a < 0) != (b < 0);
    assert CDiv(a, b) == (if neg then -m else m);
    SignedProduct(b, m, neg);
  }

  lemma DivMod(x: nat, y: nat)
    requires y >= 1
    ensures x == y * (x / y) + x % y && 0 <= x % y < y
  {
  }

  /** b times a quotient of sign neg, written through the magnitude of b. */
  lemma SignedProduct(b: int, m: int, neg: bool)
    ensures b * (if neg then -m else m) == (if (b < 0) != neg then -(Abs(b) * m) else Abs(b) * m)
  {
    if b < 0 {
      assert b * m == -(Abs(b) * m);
      assert b * -m == Abs(b) * m;
    } else {
      assert b * -m == -(Abs(b) * m);
    }
  }

  lemma {:induction false} CDivExamples()
    ensures CDiv(-5, 2) == -2 && -5 / 2 == -3
    ensures CDiv(5, -2) == -2 && CDiv(-5, -2) == 2 && CDiv(7, 2) == 3
  {
  }

  /** How evaluation stands: still running, or stopped with an error. */
  datatype Status = Running | TooFewOperands | DivisionByZero | InvalidToken

  /** The stack and the status after some steps. */
  datatype Run = Run(stack: seq<int>, status: Status)

  /** performOperation on a stack: fewer than two entries is an error that
      leaves the stack untouched; otherwise b (the top) and a are popped and
      a op b is pushed, except that b == 0 under "/" is an error after both
      pops. An op that is none of the four pops both and pushes nothing. */
  function Apply(op: string, stack: seq<int>): (r: Run)
    ensures r.status != InvalidToken
    ensures r.status != Running ==> r.stack <= stack
    ensures |stack| >= 2 ==> stack[..|stack| - 2] <= r.stack
  {
    if |stack| < 2 then Run(stack, TooFewOperands)
    else
      var b, a, rest := stack[|stack| - 1], stack[|stack| - 2], stack[..|stack| - 2];
      if op == "+" then Run(rest + [a + b], Running)
      else if op == "-" then Run(rest + [a - b], Running)
      else if op == "*" then Run(rest + [a * b], Running)
      else if op == "/" then
        if b == 0 then Run(rest, DivisionByZero) else Run(rest + [CDiv(a, b)], Running)
      else Run(rest, Running)
  }

  /** With unbounded integers, INT_MIN / -1 yields 2147483648, one past
      the largest int; the C++ division at this point is undefined. */
  lemma DivisionPastIntMax()
    ensures Apply("/", [-2147483648, -1]) == Run([2147483648], Running)
  {
    assert CDiv(-2147483648, -1) == 2147483648;
  }

  /** An operator on two or more operands replaces the top two with one
      value and leaves everything below untouched. */
  lemma {:induction false} ApplyReplacesTopTwo(op: string, stack: seq<int>)
    requires IsOperator(op) && |stack| >= 2
    requires !(op == "/" && stack[|stack| - 1] == 0)
    ensures Apply(op, stack).status == Running
    ensures |Apply(op, stack).stack| == |stack| - 1
    ensures Apply(op, stack).stack[..|stack| - 2] == stack[..|stack| - 2]
  {
  }

  /** The error cases of performOperation, stated both ways. */
  lemma {:induction false} ApplyErrors(op: string, stack: seq<int>)
    requires IsOperator(op)
    ensures Apply(op, stack).status == TooFewOperands <==> |stack| < 2
    ensures Apply(op, stack).status == TooFewOperands ==> Apply(op, stack).stack == stack
    ensures Apply(op, stack).status == DivisionByZero <==> |stack| >= 2 && op == "/" && stack[|stack| - 1] == 0
    ensures Apply(op, stack).status == DivisionByZero ==> Apply(op, stack).stack == stack[..|stack| - 2]
  {
  }

  // ---------------------------------------------------------------------
  // Evaluation of a token sequence
  // ---------------------------------------------------------------------

  /** One token: a one-character digit pushes its value, a one-character
      operator is applied, anything else is an invalid token, which leaves
      the stack alone. */
  function Step(stack: seq<int>, token: string): (r: Run)
    ensures r.status == InvalidToken <==> !(|token| == 1 && (IsDigit(token[0]) || IsOperator(token)))
    ensures r.status == InvalidToken ==> r.stack == stack
  {
    if |token| == 1 && IsDigit(token[0]) then Run(stack + [DigitValue(token[0])], Running)
    else if |token| == 1 && IsOperator(token) then Apply(token, stack)
    else Run(stack, InvalidToken)
  }

  /** The token loop of calculate, stopping at the first error: a run that
      ends without error read only one-digit and one-operator tokens. */
  function Eval(stack: seq<int>, tokens: seq<string>): (r: Run)
    ensures r.status == Running ==>
              forall i :: 0 <= i < |tokens| ==> |tokens[i]| == 1 && (IsDigit(tokens[i][0]) || IsOperator(tokens[i]))
    decreases |tokens|
  {
    if tokens == [] then Run(stack, Running)
    else
      var r := Step(stack, tokens[0]);
      if r.status == Running then Eval(r.stack, tokens[1..]) else r
  }

  /** What calculate reports: the single value left on the stack, or an
      error (printed to standard error in the program). */
  datatype Outcome = Printed(value: int) | Error

  /** A value is printed only when the run had no error and left exactly
      that value on the stack. */
  function Report(r: Run): (o: Outcome)
    ensures o.Printed? ==> r.status == Running && r.stack == [o.value]
    ensures r.status != Running ==> o == Error
  {
    if r.status == Running && |r.stack| == 1 then Printed(r.stack[0]) else Error
  }

  /** Evaluating a + b is evaluating a, then b from where a left off. */
  lemma {:induction false} EvalAppend(stack: seq<int>, a: seq<string>, b: seq<string>)
    ensures Eval(stack, a + b) ==
              if Eval(stack, a).status == Running then Eval(Eval(stack, a).stack, b) else Eval(stack, a)
    decreases |a|
  {
    if a == [] {
      assert a + b == b;
    } else {
      assert (a + b)[0] == a[0] && (a + b)[1..] == a[1..] + b;
      if Step(stack, a[0]).status == Running {
        EvalAppend(Step(stack, a[0]).stack, a[1..], b);
      }
    }
  }

  function DigitCount(tokens: seq<string>): nat
  {
    if tokens == [] then 0
    else (if |tokens[0]| == 1 && IsDigit(tokens[0][0]) then 1 else 0) + DigitCount(tokens[1..])
  }

  function OperatorCount(tokens: seq<string>): nat
  {
    if tokens == [] then 0
    else (if |tokens[0]| == 1 && IsOperator(tokens[0]) then 1 else 0) + OperatorCount(tokens[1..])
  }

  /** After tokens evaluated without error, the depth is the starting depth
      plus the digits minus the operators. */
  lemma {:induction false} EvalDepth(stack: seq<int>, tokens: seq<string>)
    requires Eval(stack, tokens).status == Running
    ensures |Eval(stack, tokens).stack| == |stack| + DigitCount(tokens) - OperatorCount(tokens)
    decreases |tokens|
  {
    if tokens != [] {
      var t := tokens[0];
      if |t| == 1 && IsOperator(t) {
        assert !IsDigit(t[0]) by { OperatorIsOneCharacter(t); }
        ApplyReplacesTopTwoLength(t, stack);
      }
      EvalDepth(Step(stack, t).stack, tokens[1..]);
    }
  }

  lemma {:induction false} ApplyReplacesTopTwoLength(op: string, stack: seq<int>)
    requires IsOperator(op) && Apply(op, stack).status == Running
    ensures |Apply(op, stack).stack| == |stack| - 1
  {
  }

  /** An operator following an error-free prefix fails for lack of operands
      exactly when the depth reached by the prefix is below 2. */
  lemma {:induction false} TooFewOperandsExactly(stack: seq<int>, tokens: seq<string>, k: int)
    requires 0 <= k < |tokens| && IsOperator(tokens[k])
    requires Eval(stack, tokens[..k]).status == Running
    ensures (Eval(stack, tokens[..k + 1]).status == TooFewOperands)
              <==> (|stack| + DigitCount(tokens[..k]) - OperatorCount(tokens[..k]) < 2)
  {
    var op := tokens[k];
    assert tokens[..k + 1] == tokens[..k] + [op];
    EvalAppend(stack, tokens[..k], [op]);
    EvalDepth(stack, tokens[..k]);
    OperatorIsOneCharacter(op);
    assert !IsDigit(op[0]);
    ApplyErrors(op, Eval(stack, tokens[..k]).stack);
    assert [op][1..] == [];
  }

  /** A token that is neither one digit nor one operator, after tokens that
      raised no error, stops the run with InvalidToken and the stack those
      tokens left; calculate then reports an error. */
  lemma {:induction false} InvalidTokenStops(stack: seq<int>, tokens: seq<string>, k: int)
    requires 0 <= k < |tokens| && Eval(stack, tokens[..k]).status == Running
    requires !(|tokens[k]| == 1 && (IsDigit(tokens[k][0]) || IsOperator(tokens[k])))
    ensures Eval(stack, tokens) == Run(Eval(stack, tokens[..k]).stack, InvalidToken)
    ensures Report(Eval(stack, tokens)) == Error
  {
    assert tokens == tokens[..k] + tokens[k..];
    EvalAppend(stack, tokens[..k], tokens[k..]);
  }

  /** Tokens of two characters, or a letter, are invalid tokens. */
  lemma InvalidTokenExamples(stack: seq<int>)
    ensures Step(stack, "12") == Run(stack, InvalidToken)
    ensures Step(stack, "a") == Run(stack, InvalidToken)
    ensures Step(stack, "+-") == Run(stack, InvalidToken)
  {
  }

  /** A run without error prints a value exactly when it leaves one value:
      when the starting depth plus the digits minus the operators is 1.
      Leaving none or two and more reports an error. */
  lemma {:induction false} ReportNeedsOneValue(stack: seq<int>, tokens: seq<string>)
    requires Eval(stack, tokens).status == Running
    ensures Report(Eval(stack, tokens)).Printed? <==>
              |stack| + DigitCount(tokens) - OperatorCount(tokens) == 1
  {
    EvalDepth(stack, tokens);
  }

  // ---------------------------------------------------------------------
  // Partner: arithmetic expressions written in postfix
  // ---------------------------------------------------------------------

  /** An expression over single digits and the four operators. */
  datatype Expr = Num(d: int) | Bin(op: char, left: Expr, right: Expr)

  predicate WellFormedExpr(e: Expr)
  {
    match e
    case Num(d) => 0 <= d <= 9
    case Bin(op, l, r) => op in {'+', '-', '*', '/'} && WellFormedExpr(l) && WellFormedExpr(r)
  }


  /** The value of an expression with C++ int semantics (unbounded), or None
      when some division has a zero divisor. */
  function Value(e: Expr): Option<int>
  {
    match e
    case Num(d) => Some(d)
    case Bin(op, l, r) =>
      if Value(l).None? || Value(r).None? then None else Combine(op, Value(l).value, Value(r).value)
  }

  /** One operator applied to two values; None for a zero divisor. */
  function Combine(op: char, a: int, b: int): Option<int>
  {
    if op == '+' then Some(a + b)
    else if op == '-' then Some(a - b)
    else if op == '*' then Some(a * b)
    else if b == 0 then None
    else Some(CDiv(a, b))
  }

  /** The expression in reverse Polish notation, one token per operand and
      operator. */
  function Postfix(e: Expr): seq<string>
    requires WellFormedExpr(e)
  {
    match e
    case Num(d) => [[('0' as int + d) as char]]
    case Bin(op, l, r) => Postfix(l) + Postfix(r) + [[op]]
  }

  /** Evaluating the postfix form of an expression pushes its value and
      touches nothing below it. */
  lemma {:induction false} EvalPostfix(e: Expr, stack: seq<int>)
    requires WellFormedExpr(e) && Value(e).Some?
    ensures Eval(stack, Postfix(e)) == Run(stack + [Value(e).value], Running)
  {
    match e
    case Num(d) =>
      assert IsDigit(Postfix(e)[0][0]) && DigitValue(Postfix(e)[0][0]) == d;
    case Bin(op, l, r) =>
      EvalPostfix(l, stack);
      EvalPostfix(r, stack + [Value(l).value]);
      EvalOperands(stack, Postfix(l), Postfix(r), [[op]], Value(l).value, Value(r).value);
      ApplyOperator(stack, Value(l).value, Value(r).value, op);
  }

  /** Two token runs that push a and then b, followed by more tokens. */
  lemma {:induction false} EvalOperands(stack: seq<int>, pl: seq<string>, pr: seq<string>, tail: seq<string>, a: int, b: int)
    requires Eval(stack, pl) == Run(stack + [a], Running)
    requires Eval(stack + [a], pr) == Run(stack + [a] + [b], Running)
    ensures Eval(stack, pl + pr + tail) == Eval(stack + [a] + [b], tail)
  {
    EvalAppend(stack, pl, pr);
    EvalAppend(stack, pl + pr, tail);
  }

  /** The operator token of a Bin node combines the two values below it. */
  lemma {:induction false} ApplyOperator(stack: seq<int>, a: int, b: int, op: char)
    requires op in {'+', '-', '*', '/'}
    ensures Eval(stack + [a] + [b], [[op]]) ==
              if Combine(op, a, b).Some? then Run(stack + [Combine(op, a, b).value], Running)
              else Run(stack, DivisionByZero)
  {
    OperatorIsOneCharacter([op]);
    assert !IsDigit(op);
    assert (stack + [a] + [b])[..|stack| + 2 - 2] == stack;
    assert [[op]][1..] == [];
  }

  /** Evaluating the postfix form of an expression with a zero divisor
      stops at that division. */
  lemma {:induction false} EvalPostfixFails(e: Expr, stack: seq<int>)
    requires WellFormedExpr(e) && Value(e).None?
    ensures Eval(stack, Postfix(e)).status == DivisionByZero
  {
    match e
    case Bin(op, l, r) =>
      assert Postfix(e) == Postfix(l) + (Postfix(r) + [[op]]);
      EvalAppend(stack, Postfix(l), Postfix(r) + [[op]]);
      if Value(l).None? {
        EvalPostfixFails(l, stack);
      } else {
        var a := Value(l).value;
        EvalPostfix(l, stack);
        EvalAppend(stack + [a], Postfix(r), [[op]]);
        if Value(r).None? {
          EvalPostfixFails(r, stack + [a]);
        } else {
          EvalPostfix(r, stack + [a]);
          ApplyOperator(stack, a, Value(r).value, op);
        }
      }
  }

  /** Written out with single spaces, an expression makes calculate print
      its value when it has one, and report an error when some divisor is
      zero. */
  lemma {:induction false} CalculatesExpression(e: Expr)
    requires WellFormedExpr(e)
    ensures Value(e).Some? ==> Report(Eval([], Tokens(Join(Postfix(e))))) == Printed(Value(e).value)
    ensures Value(e).None? ==> Report(Eval([], Tokens(Join(Postfix(e))))) == Error
  {
    PostfixWords(e);
    TokensOfJoin(Postfix(e));
    if Value(e).Some? {
      EvalPostfix(e, []);
    } else {
      EvalPostfixFails(e, []);
    }
  }

  lemma {:induction false} PostfixWords(e: Expr)
    requires WellFormedExpr(e)
    ensures forall i :: 0 <= i < |Postfix(e)| ==> IsWord(Postfix(e)[i])
  {
    match e
    case Num(d) =>
    case Bin(op, l, r) =>
      PostfixWords(l);
      PostfixWords(r);
      var p := Postfix(l) + Postfix(r) + [[op]];
      forall i | 0 <= i < |p| ensures IsWord(p[i]) {
        if i < |Postfix(l)| {
          assert p[i] == Postfix(l)[i];
        } else if i < |Postfix(l)| + |Postfix(r)| {
          assert p[i] == Postfix(r)[i - |Postfix(l)|];
        } else {
          assert p[i] == [op];
        }
      }
  }

  // ---------------------------------------------------------------------
  // The calculator object
  // ---------------------------------------------------------------------

  class Calculator {
    /** _stack; its last element is the top. */
    var stack: seq<int>

    constructor ()
      ensures stack == []
    {
      stack := [];
    }

    /** performOperation: ok is false where the program throws. */
    method PerformOperation(op: string) returns (ok: bool)
      modifies this
      ensures stack == Apply(op, old(stack)).stack
      ensures ok <==> Apply(op, old(stack)).status == Running
    {
      if |stack| < 2 {
        return false;
      }
      var b := stack[|stack| - 1];
      stack := stack[..|stack| - 1];
      var a := stack[|stack| - 1];
      stack := stack[..|stack| - 1];
      if op == "+" {
        stack := stack + [a + b];
      } else if op == "-" {
        stack := stack + [a - b];
      } else if op == "*" {
        stack := stack + [a * b];
      } else if op == "/" {
        if b == 0 {
          return false;
        }
        stack := stack + [CDiv(a, b)];
      }
      return true;
    }

    /** calculate: runs the tokens of the expression over the stack as it
        is (it is never cleared), stopping at the first error, and reports
        the single value left, or an error. */
    method Calculate(expression: string) returns (outcome: Outcome)
      modifies this
      ensures stack == Eval(old(stack), Tokens(expression)).stack
      ensures outcome == Report(Eval(old(stack), Tokens(expression)))
    {
      var pos := 0;
      assert expression[0..] == expression;
      while true
        invariant 0 <= pos <= |expression|
        invariant Eval(old(stack), Tokens(expression)) == Eval(stack, Tokens(expression[pos..]))
        decreases |expression| - pos
      {
        var found, token, next := NextToken(expression, pos);
        if !found {
          break;
        }
        pos := next;
        if |token| == 1 && IsDigit(token[0]) {
          stack := stack + [DigitValue(token[0])];
        } else if |token| == 1 && IsOperator(token) {
          var ok := PerformOperation(token);
          if !ok {
            return Error;
          }
        } else {
          return Error;
        }
      }
      if |stack| == 1 {
        return Printed(stack[0]);
      }
      return Error;
    }
  }

  /** `ss >> token`: skips whitespace, then reads the maximal run of
      non-space characters; found is false when only whitespace is left. */
  method NextToken(s: string, pos: int) returns (found: bool, token: string, next: int)
    requires 0 <= pos <= |s|
    ensures pos < next <= |s| || (!found && next == pos)
    ensures found ==> Tokens(s[pos..]) == [token] + Tokens(s[next..])
    ensures !found ==> Tokens(s[pos..]) == []
  {
    var i := pos;
    while i < |s| && IsSpace(s[i])
      invariant pos <= i <= |s|
      invariant Tokens(s[pos..]) == Tokens(s[i..])
    {
      TokensSkipSpace(s, i);
      i := i + 1;
    }
    if i == |s| {
      assert s[i..] == [];
      return false, [], pos;
    }
    var j := i;
    while j < |s| && !IsSpace(s[j])
      invariant i <= j <= |s|
      invariant forall k :: i <= k < j ==> !IsSpace(s[k])
    {
      j := j + 1;
    }
    ReadWord(s, i, j);
    return true, s[i..j], j;
  }

  lemma {:induction false} TokensSkipSpace(s: string, i: int)
    requires 0 <= i < |s| && IsSpace(s[i])
    ensures Tokens(s[i..]) == Tokens(s[i + 1..])
  {
    assert s[i..][1..] == s[i + 1..];
  }

  lemma {:induction false} ReadWord(s: string, i: int, j: int)
    requires 0 <= i < j <= |s|
    requires forall k :: i <= k < j ==> !IsSpace(s[k])
    requires j == |s| || IsSpace(s[j])
    ensures Tokens(s[i..]) == [s[i..j]] + Tokens(s[j..])
  {
    WordLengthIs(s[i..], j - i);
    assert s[i..][..j - i] == s[i..j];
    assert s[i..][j - i..] == s[j..];
  }

  lemma {:induction false} WordLengthIs(s: string, n: int)
    requires 0 <= n <= |s|
    requires forall k :: 0 <= k < n ==> !IsSpace(s[k])
    requires n == |s| || IsSpace(s[n])
    ensures WordLength(s) == n
    decreases n
  {
    if n > 0 {
      WordLengthIs(s[1..], n - 1);
    }
  }
}
