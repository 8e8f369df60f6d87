/** A reference meaning for the postfix strings `LongStack.interpret` reads:
    an expression tree evaluated directly, left operand first, with `long`
    arithmetic, and its postfix spelling. */
module RpnReference {
  import opened Wrappers
  import opened LongText
  import opened LongStacks
  import opened RpnInterpret

  datatype BinOp = Plus | Minus | Times | Divide

  datatype Expr =
    | Num(n: int64)
    | Bin(op: BinOp, left: Expr, right: Expr)

  /** The token that spells an operator. */
  function OpText(o: BinOp): (t: string)
    ensures IsOperator(t)
  {
    if o == Plus then "+" else if o == Minus then "-" else if o == Times then "*" else "/"
  }

  /** One operator on two `long` values: the exact result wrapped to 64 bits,
      the quotient rounded toward zero, and a zero divisor an error naming the
      dividend. */
  function Calc(o: BinOp, a: int64, b: int64): Result<int64, StackError>
  {
    match o
    case Plus => Success(Wrap(a as int + b as int))
    case Minus => Success(Wrap(a as int - b as int))
    case Times => Success(Wrap(a as int * b as int))
    case Divide => if b == 0 then Failure(DivisionByZero(a)) else Success(Wrap(TruncDiv(a, b)))
  }

  /** The value of an expression, or the first error met evaluating the left
      operand before the right. */
  function Eval(e: Expr): Result<int64, StackError>
  {
    match e
    case Num(n) => Success(n)
    case Bin(o, l, r) =>
      match Eval(l)
      case Failure(err) => Failure(err)
      case Success(a) =>
        match Eval(r)
        case Failure(err) => Failure(err)
        case Success(b) => Calc(o, a, b)
  }

  /** A word `trim` and the split on whitespace leave whole: non-empty, no
      whitespace inside, and no character at most a space at either end. */
  predicate IsToken(t: string)
  {
    t != [] && NoSpace(t) && t[0] > ' ' && t[|t| - 1] > ' '
  }

  /** The postfix tokens of an expression: each number as `Long.toString`
      prints it, each operator after its two operands. */
  function Tokens(e: Expr): (w: seq<string>)
    ensures |w| >= 1
    ensures forall t | t in w :: IsToken(t)
  {
    match e
    case Num(n) =>
      LongToStringIsWord(n);
      [LongToString(n)]
    case Bin(o, l, r) => Tokens(l) + Tokens(r) + [OpText(o)]
  }

  // ----- properties -----

  /** `op` on a stack whose top two values are `a` and `b` is `Calc`: it
      replaces them by the result, or pops them and reports the error. */
  lemma OpIsCalc(st: LongStack, o: BinOp, a: int64, b: int64)
    ensures Calc(o, a, b).Success? ==> Op(Push(Push(st, a), b), OpText(o)) == (Push(st, Calc(o, a, b).value), Pass)
    ensures Calc(o, a, b).Failure? ==> Op(Push(Push(st, a), b), OpText(o)).1 == Fail(Calc(o, a, b).error)
  {
    var s := Push(Push(st, a), b);
    var n := |s.items|;
    assert s.items[n - 2] == a && s.items[n - 1] == b;
    assert s.items[..n - 2] == st.items;
    var (st', out) := Op(s, OpText(o));
    if out.Pass? {
      assert st'.items == st.items + [st'.items[n - 2]];
    }
  }

  /** The tokens run one after another: a run over two lists is the run over
      the first, then over the second from where the first left the stack. */
  lemma {:induction false} RunConcat(st: LongStack, t1: seq<string>, t2: seq<string>)
    ensures Run(st, t1 + t2) ==
              if Run(st, t1).Success? then Run(Run(st, t1).value, t2) else Run(st, t1)
    decreases |t1|
  {
    if t1 != [] {
      assert (t1 + t2)[0] == t1[0] && (t1 + t2)[1..] == t1[1..] + t2;
      var t := t1[0];
      if t == [] {
        RunConcat(st, t1[1..], t2);
      } else if ParseLong(t).Some? {
        RunConcat(Push(st, ParseLong(t).value), t1[1..], t2);
      } else if IsOperator(t) && Op(st, t).1.Pass? {
        RunConcat(Op(st, t).0, t1[1..], t2);
      }
    } else {
      assert t1 + t2 == t2;
    }
  }

  /** Running an expression's tokens pushes its value, or fails with the error
      `Eval` meets first. */
  lemma {:induction false} RunExpr(st: LongStack, e: Expr, rest: seq<string>)
    ensures Run(st, Tokens(e) + rest) ==
              if Eval(e).Success? then Run(Push(st, Eval(e).value), rest)
              else Failure(OperationFailed(Eval(e).error))
    decreases e
  {
    match e
    case Num(n) =>
      RunNumber(st, n, rest);
    case Bin(o, l, r) =>
      var tail := [OpText(o)] + rest;
      Regroup(Tokens(l), Tokens(r), OpText(o), rest);
      RunExpr(st, l, Tokens(r) + tail);
      if Eval(l).Success? {
        RunExpr(Push(st, Eval(l).value), r, tail);
        if Eval(r).Success? {
          RunOperator(st, o, Eval(l).value, Eval(r).value, rest);
        }
      }
      EvalBin(o, l, r);
  }

  lemma Regroup(a: seq<string>, b: seq<string>, x: string, rest: seq<string>)
    ensures a + b + [x] + rest == a + (b + ([x] + rest))
  {
  }

  /** `Eval` of an operator node, the first failure winning. */
  lemma EvalBin(o: BinOp, l: Expr, r: Expr)
    ensures Eval(Bin(o, l, r)) ==
              if Eval(l).Failure? then Eval(l)
              else if Eval(r).Failure? then Eval(r)
              else Calc(o, Eval(l).value, Eval(r).value)
  {
  }

  /** A number's token pushes the number. */
  lemma RunNumber(st: LongStack, n: int64, rest: seq<string>)
    ensures Run(st, [LongToString(n)] + rest) == Run(Push(st, n), rest)
  {
    ParseLongToString(n);
    LongToStringIsWord(n);
    assert ([LongToString(n)] + rest)[1..] == rest;
  }

  /** An operator's token on top of its operands is `Calc`. */
  lemma RunOperator(st: LongStack, o: BinOp, a: int64, b: int64, rest: seq<string>)
    ensures Run(Push(Push(st, a), b), [OpText(o)] + rest) ==
              if Calc(o, a, b).Success? then Run(Push(st, Calc(o, a, b).value), rest)
              else Failure(OperationFailed(Calc(o, a, b).error))
  {
    OperatorNotLong(o);
    OpIsCalc(st, o, a, b);
    assert ([OpText(o)] + rest)[1..] == rest;
  }

  /** No operator token reads as a `long`. */
  lemma OperatorNotLong(o: BinOp)
    ensures ParseLong(OpText(o)) == None
  {
    assert !IsNumeral(OpText(o));
  }

  /** `interpret` of an expression's postfix spelling, tokens separated by
      single spaces, is the expression's value; a zero divisor met on the way
      is the failure of `op`. */
  lemma InterpretExpr(e: Expr)
    ensures Interpret(Join(Tokens(e))) ==
              if Eval(e).Success? then Success(Eval(e).value)
              else Failure(OperationFailed(Eval(e).error))
  {
    var w := Tokens(e);
    assert forall k | 0 <= k < |w| :: w[k] in w;
    WordsJoin(w);
    assert IsToken(w[0]) && IsToken(w[|w| - 1]);
    JoinedTrimmed(w);
    RunExpr(Empty(), e, []);
    assert w + [] == w;
    if Eval(e).Success? {
      var v := Eval(e).value;
      assert Push(Empty(), v).items == [v];
    }
  }

  /** Words that do not start or end with a character at most a space join
      to a string `trim` leaves alone. */
  lemma JoinedTrimmed(w: seq<string>)
    requires |w| >= 1 && forall k | 0 <= k < |w| :: w[k] != []
    requires w[0][0] > ' ' && w[|w| - 1][|w[|w| - 1]| - 1] > ' '
    ensures Join(w) != [] && Trim(Join(w)) == Join(w)
  {
    JoinEnds(w);
    TrimKeeps(Join(w));
  }

  /** A string that neither starts nor ends with a character at most a space
      is its own trim. */
  lemma TrimKeeps(s: string)
    requires s != [] && s[0] > ' ' && s[|s| - 1] > ' '
    ensures Trim(s) == s
  {
  }
}
