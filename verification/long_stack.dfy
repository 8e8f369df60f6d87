/** The stack of h3/src/LongStack.java. The source keeps a `LinkedList<Long>`
    with the top at the front; here the stack is a value whose `items` run
    from the bottom to the top, so the top is the last element. */
module LongStacks {
  import opened Wrappers
  import opened LongText

  datatype LongStack = LongStack(items: seq<int64>)

  datatype StackError =
    | EmptyStack                       // `pop` or `tos` on an empty stack
    | Underflow(op: string)            // `op` with fewer than two elements
    | DivisionByZero(dividend: int64)  // `op("/")` with a zero divisor
    | IllegalOperation(op: string)     // `op` with an unknown operator

  // ----- Java `long` arithmetic -----

  const TWO64: int := 0x1_0000_0000_0000_0000

  /** Two's-complement wrap-around: the `long` congruent to `x` modulo 2^64. */
  function Wrap(x: int): (r: int64)
    ensures (r - x) % TWO64 == 0
    ensures MIN64 <= x <= MAX64 ==> r == x
  {
    var m := (x - MIN64) % TWO64;
    assert (m + MIN64 - x) % TWO64 == 0 by {
      assert m == (x - MIN64) - TWO64 * ((x - MIN64) / TWO64);
    }
    m + MIN64
  }

  function Abs(x: int): nat
  {
    if x < 0 then -x else x
  }

  /** Java's integer division: the quotient rounded toward zero. */
  function TruncDiv(a: int, b: int): (q: int)
    requires b != 0
    ensures Abs(a - b * q) < Abs(b)
    ensures a - b * q == 0 || (a - b * q < 0 <==> a < 0)
  {
    var q0 := Abs(a) / Abs(b);
    TruncDivFacts(a, b, q0, Abs(a) % Abs(b));
    if (a < 0) == (b < 0) then q0 else -q0
  }

  lemma TruncDivFacts(a: int, b: int, q0: int, r0: int)
    requires b != 0 && Abs(a) == Abs(b) * q0 + r0 && 0 <= r0 < Abs(b)
    ensures var q := if (a < 0) == (b < 0) then q0 else -q0;
            && Abs(a - b * q) == r0
            && (a - b * q == 0 || (a - b * q < 0 <==> a < 0))
  {
    var q := if (a < 0) == (b < 0) then q0 else -q0;
    if a < 0 {
      if b < 0 {
        assert b * q == -(Abs(b) * q0);
      } else {
        assert b * q == -(Abs(b) * q0);
      }
      assert a - b * q == -r0;
    } else {
      if b < 0 {
        assert b * q == Abs(b) * q0;
      } else {
        assert b * q == Abs(b) * q0;
      }
      assert a - b * q == r0;
    }
  }

  /** The value `op` pushes for `a s b`, or the error it throws: the sum,
      difference and product wrapped to a `long`, and the quotient rounded
      toward zero. */
  function Apply(s: string, a: int64, b: int64): (r: Result<int64, StackError>)
    ensures r.Success? <==> IsOperator(s) && !(s == "/" && b == 0)
    ensures s == "+" ==> r == Success(Wrap(a as int + b as int))
    ensures s == "-" ==> r == Success(Wrap(a as int - b as int))
    ensures s == "*" ==> r == Success(Wrap(a as int * b as int))
    ensures s == "/" && b != 0 ==> r == Success(Wrap(TruncDiv(a, b)))
    ensures s == "/" && b == 0 ==> r == Failure(DivisionByZero(a))
    ensures !IsOperator(s) ==> r == Failure(IllegalOperation(s))
  {
    if s == "+" then Success(Wrap(a + b))
    else if s == "-" then Success(Wrap(a - b))
    else if s == "*" then Success(Wrap(a * b))
    else if s == "/" then
      if b == 0 then Failure(DivisionByZero(a)) else Success(Wrap(TruncDiv(a, b)))
    else Failure(IllegalOperation(s))
  }

  predicate IsOperator(s: string)
  {
    s == "+" || s == "-" || s == "*" || s == "/"
  }

  // ----- the stack operations -----

  /** `new LongStack()`. */
  function Empty(): (st: LongStack)
    ensures StEmpty(st) && st.items == []
  {
    LongStack([])
  }

  /** `stEmpty`: the stack holds nothing, so it prints as the empty string. */
  predicate StEmpty(st: LongStack): (r: bool)
    ensures r <==> ToString(st) == ""
  {
    ToStringEmpty(st);
    |st.items| == 0
  }

  /** `push(a)`. */
  function Push(st: LongStack, a: int64): (r: LongStack)
    ensures !StEmpty(r)
    ensures |r.items| == |st.items| + 1
  {
    LongStack(st.items + [a])
  }

  /** `pop`: the stack without its top, and the top; an empty stack throws. */
  function Pop(st: LongStack): (r: Result<(LongStack, int64), StackError>)
    ensures r.Failure? <==> StEmpty(st)
    ensures r.Failure? ==> r.error == EmptyStack
    ensures r.Success? ==> Push(r.value.0, r.value.1) == st
  {
    if |st.items| == 0 then Failure(EmptyStack)
    else Success((LongStack(st.items[..|st.items| - 1]), st.items[|st.items| - 1]))
  }

  /** `tos`: the top without removing it; an empty stack throws. */
  function Tos(st: LongStack): (r: Result<int64, StackError>)
    ensures r.Failure? <==> StEmpty(st)
    ensures r.Failure? ==> r.error == EmptyStack
    ensures r.Success? ==> Pop(st).Success? && r.value == Pop(st).value.1
  {
    if |st.items| == 0 then Failure(EmptyStack) else Success(st.items[|st.items| - 1])
  }

  /** `op(s)`: with fewer than two elements it throws and leaves the stack
      alone; otherwise it pops `b`, then `a`, and pushes `a s b`, or throws
      with both already popped. The result is the stack after the call and
      whether the call threw. */
  function Op(st: LongStack, s: string): (r: (LongStack, Outcome<StackError>))
    ensures |st.items| < 2 ==> r == (st, Fail(Underflow(s)))
    ensures |st.items| >= 2 ==>
              var n := |st.items|;
              && (r.1.Pass? <==> IsOperator(s) && !(s == "/" && st.items[n - 1] == 0))
              && |r.0.items| == (if r.1.Pass? then n - 1 else n - 2)
              && r.0.items[..n - 2] == st.items[..n - 2]
    ensures |st.items| >= 2 && r.1.Pass? ==>
              r.0.items[|st.items| - 2] == Apply(s, st.items[|st.items| - 2], st.items[|st.items| - 1]).value
    ensures |st.items| >= 2 && r.1.Fail? ==>
              r.1.error == Apply(s, st.items[|st.items| - 2], st.items[|st.items| - 1]).error
  {
    if |st.items| < 2 then (st, Fail(Underflow(s)))
    else
      var (st1, b) := Pop(st).value;
      var (st2, a) := Pop(st1).value;
      match Apply(s, a, b)
      case Success(v) => (Push(st2, v), Pass)
      case Failure(e) => (st2, Fail(e))
  }

  /** `clone`: a stack with the same elements. */
  function Clone(st: LongStack): (r: LongStack)
    ensures Equals(r, st)
  {
    LongStack(st.items)
  }

  /** `equals`: the same elements in the same order, which is the same
      value, and the same printed form. */
  predicate Equals(st: LongStack, other: LongStack): (r: bool)
    ensures r <==> st == other
    ensures r <==> ToString(st) == ToString(other)
  {
    SamePrinted(st, other);
    st.items == other.items
  }

  /** The elements from the bottom to the top, each printed by
      `Long.toString`. */
  function Printed(st: LongStack): (w: seq<string>)
    ensures |w| == |st.items|
  {
    seq(|st.items|, k requires 0 <= k < |st.items| => LongToString(st.items[k]))
  }

  /** `toString`: the printed elements separated by single spaces, so that
      its words are the elements' `Long.toString` forms from the bottom to the
      top, with one space between two of them and none at either end. */
  function ToString(st: LongStack): (s: string)
    ensures Words(s) == Printed(st)
    ensures SingleSpaced(s)
  {
    PrintedWords(st);
    PrintedLayout(st);
    Join(Printed(st))
  }

  /** The printed elements join to a single-spaced string. */
  lemma PrintedLayout(st: LongStack)
    ensures SingleSpaced(Join(Printed(st)))
  {
    var w := Printed(st);
    if w != [] {
      forall k | 0 <= k < |w| ensures w[k] != [] && NoSpace(w[k]) {
        LongToStringIsWord(st.items[k]);
      }
      JoinLayout(w);
    }
  }

  /** The printed elements are words, and joining them splits back. */
  lemma PrintedWords(st: LongStack)
    ensures Words(Join(Printed(st))) == Printed(st)
  {
    var w := Printed(st);
    forall k | 0 <= k < |w| ensures w[k] != [] && NoSpace(w[k]) {
      LongToStringIsWord(st.items[k]);
    }
    WordsJoin(w);
  }

  /** The words and the layout `toString` promises fix its result: any
      single-spaced string whose words are the printed elements is it. */
  lemma ToStringDetermined(st: LongStack, s: string)
    requires Words(s) == Printed(st) && SingleSpaced(s)
    ensures s == ToString(st)
  {
    SpacedIsJoin(s);
  }

  /** Only the empty stack prints as the empty string. */
  lemma ToStringEmpty(st: LongStack)
    ensures ToString(st) == "" <==> |st.items| == 0
  {
    if |st.items| > 0 {
      LongToStringIsWord(st.items[0]);
      assert Printed(st)[0] == LongToString(st.items[0]);
    }
  }

  /** Stacks that print alike hold the same elements: `Long.parseLong` reads
      every printed element back. */
  lemma SamePrinted(st: LongStack, other: LongStack)
    ensures ToString(st) == ToString(other) <==> st.items == other.items
  {
    if ToString(st) == ToString(other) {
      var w, v := Printed(st), Printed(other);
      assert w == v;
      forall k | 0 <= k < |st.items| ensures st.items[k] == other.items[k] {
        ParseLongToString(st.items[k]);
        ParseLongToString(other.items[k]);
        assert w[k] == v[k];
      }
    }
  }

  // ----- properties -----

  /** `push(x)` then `pop()` gives back `x` and the earlier stack. */
  lemma PopPush(st: LongStack, x: int64)
    ensures Pop(Push(st, x)) == Success((st, x))
    ensures Tos(Push(st, x)) == Success(x)
  {
    assert Push(st, x).items[..|st.items|] == st.items;
  }

  /** A successful `op` is `pop`, `pop`, `push` of the result: popping
      after it gives the stack below both operands and `a s b`. */
  lemma OpIsPopPopPush(st: LongStack, s: string)
    requires |st.items| >= 2 && Op(st, s).1.Pass?
    ensures var (st1, b) := Pop(st).value;
            var (st2, a) := Pop(st1).value;
            && Apply(s, a, b).Success?
            && Pop(Op(st, s).0) == Success((st2, Apply(s, a, b).value))
  {
    var (st1, b) := Pop(st).value;
    var (st2, a) := Pop(st1).value;
    PopPush(st2, Apply(s, a, b).value);
  }

  /** A failing `op` on two or more elements has already popped both. */
  lemma OpFailurePops(st: LongStack, s: string)
    requires |st.items| >= 2 && Op(st, s).1.Fail?
    ensures Op(st, s).0 == Pop(Pop(st).value.0).value.0
    ensures Op(st, s).1.error == Apply(s, Pop(Pop(st).value.0).value.1, Pop(st).value.1).error
  {
  }

  /** The source's own checks: 10 and 20 pop back as 20 then 10; 50 + 10
      leaves 60 on top. */
  lemma StackExamples()
    ensures var st := Push(Push(Empty(), 10), 20);
            && Pop(st) == Success((Push(Empty(), 10), 20))
            && Pop(Pop(st).value.0) == Success((Empty(), 10))
    ensures Op(Push(Push(Empty(), 50), 10), "+") == (Push(Empty(), 60), Pass)
  {
    PopPush(Push(Empty(), 10), 20);
    PopPush(Empty(), 10);
  }

  /** Reading the printed stack back with `Long.parseLong` gives its elements. */
  lemma ToStringParses(st: LongStack)
    ensures var w := Words(ToString(st));
            && |w| == |st.items|
            && forall k | 0 <= k < |w| :: ParseLong(w[k]) == Some(st.items[k])
  {
    forall k | 0 <= k < |st.items| ensures ParseLong(LongToString(st.items[k])) == Some(st.items[k]) {
      ParseLongToString(st.items[k]);
    }
  }
}
