/** `LongStack.interpret` of h3/src/LongStack.java: evaluate a string in
    reverse Polish notation on a fresh stack. */
module RpnInterpret {
  import opened Wrappers
  import opened LongText
  import opened LongStacks

  datatype InterpretError =
    | EmptyExpression                  // the string is blank
    | OperationFailed(e: StackError)   // `op` threw
    | InvalidToken(token: string)      // neither a `long` nor an operator
    | RedundantElements                // the stack does not end with exactly one value

  /** A token `interpret` accepts on its own: a `long` or an operator. */
  predicate ValidToken(t: string)
  {
    ParseLong(t).Some? || IsOperator(t)
  }

  /** The change in stack size the tokens make when every step succeeds: one
      up per `long`, one down per operator. */
  function Balance(tokens: seq<string>): int
  {
    if tokens == [] then 0
    else
      var t := tokens[0];
      (if t != [] && ParseLong(t).Some? then 1 else if t != [] && IsOperator(t) then -1 else 0)
      + Balance(tokens[1..])
  }

  /** Some non-empty token is neither a `long` nor an operator. */
  predicate HasInvalid(tokens: seq<string>)
  {
    exists k | 0 <= k < |tokens| :: tokens[k] != [] && !ValidToken(tokens[k])
  }

  /** The `for` loop over the tokens: a `long` is pushed, an operator is
      applied with `op`, an empty token is skipped, anything else throws. */
  function Run(st: LongStack, tokens: seq<string>): (r: Result<LongStack, InterpretError>)
    ensures HasInvalid(tokens) ==> r.Failure?
    ensures r.Success? ==> |r.value.items| == |st.items| + Balance(tokens)
    ensures r.Failure? ==> r.error.InvalidToken? || r.error.OperationFailed?
    ensures r.Failure? && r.error.InvalidToken? ==>
              r.error.token in tokens && r.error.token != [] && !ValidToken(r.error.token)
    decreases |tokens|
  {
    if tokens == [] then Success(st)
    else
      var t := tokens[0];
      InvalidInTail(tokens);
      if t == [] then Run(st, tokens[1..])
      else
        match ParseLong(t)
        case Some(n) => Run(Push(st, n), tokens[1..])
        case None =>
          if IsOperator(t) then
            var (st', out) := Op(st, t);
            if out.Fail? then Failure(OperationFailed(out.error)) else Run(st', tokens[1..])
          else Failure(InvalidToken(t))
  }

  /** An invalid token is the first token or an invalid token of the rest. */
  lemma InvalidInTail(tokens: seq<string>)
    requires tokens != []
    ensures HasInvalid(tokens) <==>
              (tokens[0] != [] && !ValidToken(tokens[0])) || HasInvalid(tokens[1..])
  {
    if HasInvalid(tokens) {
      var k :| 0 <= k < |tokens| && tokens[k] != [] && !ValidToken(tokens[k]);
      if k > 0 {
        assert tokens[1..][k - 1] == tokens[k];
      }
    }
    if HasInvalid(tokens[1..]) {
      var k :| 0 <= k < |tokens[1..]| && tokens[1..][k] != [] && !ValidToken(tokens[1..][k]);
      assert tokens[k + 1] == tokens[1..][k];
    }
  }

  /** `interpret(pol)`: a blank string throws; otherwise the tokens of the
      trimmed string run on an empty stack, which must end holding exactly one
      value, the result. */
  function Interpret(pol: string): (r: Result<int64, InterpretError>)
    ensures Trim(pol) == [] ==> r == Failure(EmptyExpression)
    ensures HasInvalid(Words(Trim(pol))) ==> r.Failure?
    ensures r.Success? ==> Run(Empty(), Words(Trim(pol))) == Success(LongStack([r.value]))
    ensures Trim(pol) != [] ==>
              match Run(Empty(), Words(Trim(pol)))
              case Failure(e) => r == Failure(e)
              case Success(st) =>
                if |st.items| == 1 then r == Success(st.items[0]) else r == Failure(RedundantElements)
  {
    var t := Trim(pol);
    if t == [] then Failure(EmptyExpression)
    else
      match Run(Empty(), Words(t))
      case Failure(e) => Failure(e)
      case Success(st) =>
        if |st.items| != 1 then Failure(RedundantElements)
        else
          OneItem(st);
          Success(Pop(st).value.1)
  }

  lemma OneItem(st: LongStack)
    requires |st.items| == 1
    ensures st == LongStack([st.items[0]])
  {
  }

  // ----- properties -----

  /** The source's own check: "3 4 +" evaluates to 7. */
  lemma InterpretExample()
    ensures Interpret("3 4 +") == Success(7)
  {
    ExampleTrim();
    ExampleWords();
    ExampleRun();
  }

  lemma ExampleTrim()
    ensures Trim("3 4 +") == "3 4 +"
  {
    var pol := "3 4 +";
    assert pol[0] == '3' && pol[|pol| - 1] == '+';
  }

  lemma ExampleWords()
    ensures Words("3 4 +") == ["3", "4", "+"]
  {
    WordsJoin(["3", "4", "+"]);
    assert Join(["3", "4", "+"]) == "3 4 +";
  }

  lemma ExampleRun()
    ensures Run(Empty(), ["3", "4", "+"]) == Success(Push(Empty(), 7))
  {
    var w: seq<string> := ["3", "4", "+"];
    assert w[1..] == ["4", "+"];
    ExampleParses();
    ExampleRunTail();
  }

  lemma ExampleParses()
    ensures ParseLong("3") == Some(3) && ParseLong("4") == Some(4) && ParseLong("+") == None
  {
    assert NumeralValue("3") == 3 && NumeralValue("4") == 4;
  }

  lemma ExampleRunTail()
    ensures Run(Push(Empty(), 3), ["4", "+"]) == Success(Push(Empty(), 7))
  {
    var w: seq<string> := ["4", "+"];
    assert w[1..] == ["+"];
    ExampleParses();
    ExampleAdd();
  }

  lemma ExampleAdd()
    ensures Run(Push(Push(Empty(), 3), 4), ["+"]) == Success(Push(Empty(), 7))
  {
    var w: seq<string> := ["+"];
    assert w[1..] == [];
    ExampleParses();
    var s34 := Push(Push(Empty(), 3), 4);
    assert Op(s34, "+") == (Push(Empty(), 7), Pass);
  }

  /** Running the words of a printed stack on its own prefix rebuilds it. */
  lemma RunPrinted(st: LongStack, n: nat)
    requires n <= |st.items|
    ensures var w := Words(ToString(st));
            |w| == |st.items| && Run(LongStack(st.items[..n]), w[n..]) == Success(st)
  {
    ToStringParses(st);
    RunParsed(st, Words(ToString(st)), n);
  }

  /** Running words that parse, one by one, to the elements after the first
      `n` pushes those elements. */
  lemma {:induction false} RunParsed(st: LongStack, w: seq<string>, n: nat)
    requires n <= |st.items| == |w|
    requires forall k | 0 <= k < |w| :: ParseLong(w[k]) == Some(st.items[k])
    ensures Run(LongStack(st.items[..n]), w[n..]) == Success(st)
    decreases |st.items| - n
  {
    if n == |st.items| {
      assert st.items[..n] == st.items;
    } else {
      assert w[n..][0] == w[n] && w[n..][1..] == w[n + 1..];
      assert ParseLong(w[n]) == Some(st.items[n]);
      assert Push(LongStack(st.items[..n]), st.items[n]) == LongStack(st.items[..n + 1]);
      RunParsed(st, w, n + 1);
    }
  }

  /** `interpret` of a printed stack gives its single element back, and
      rejects a printed stack of two or more elements as redundant. */
  lemma InterpretPrinted(st: LongStack)
    requires |st.items| >= 1
    ensures |st.items| == 1 ==> Interpret(ToString(st)) == Success(st.items[0])
    ensures |st.items| >= 2 ==> Interpret(ToString(st)) == Failure(RedundantElements)
  {
    PrintedTrimmed(st);
    RunAll(st);
  }

  /** The words of a printed stack, run on an empty stack, rebuild it. */
  lemma RunAll(st: LongStack)
    ensures Run(Empty(), Words(ToString(st))) == Success(st)
  {
    RunPrinted(st, 0);
    assert st.items[..0] == [] && Words(ToString(st))[0..] == Words(ToString(st));
  }

  /** A printed stack has nothing for `trim` to remove. */
  lemma PrintedTrimmed(st: LongStack)
    requires |st.items| >= 1
    ensures ToString(st) != [] && Trim(ToString(st)) == ToString(st)
  {
    var n, w, s := |st.items|, Printed(st), ToString(st);
    var first, final := LongToString(st.items[0]), LongToString(st.items[n - 1]);
    assert s != [] && s[0] == first[0] && s[|s| - 1] == final[|final| - 1] by {
      forall k | 0 <= k < n ensures w[k] != [] {
        LongToStringIsWord(st.items[k]);
      }
      JoinEnds(w);
    }
    assert first[0] > ' ' && final[|final| - 1] > ' ' by {
      LongToStringIsWord(st.items[0]);
      LongToStringIsWord(st.items[n - 1]);
    }
  }

  /** A joined word list starts with its first word's first character and
      ends with its last word's last character. */
  lemma {:induction false} JoinEnds(words: seq<string>)
    requires |words| >= 1 && forall k | 0 <= k < |words| :: words[k] != []
    ensures var s := Join(words);
            && s != [] && s[0] == words[0][0] && s[|s| - 1] == words[|words| - 1][|words[|words| - 1]| - 1]
  {
    if |words| > 1 {
      var rest := words[1..];
      assert rest[|rest| - 1] == words[|words| - 1];
      JoinEnds(rest);
    }
  }
}
