/** The input checks `parsePostfix` of h5/src/Node.java runs before it builds
    the tree (`validateInput`): the regular-expression test, blank items,
    parenthesis balance and commas outside parentheses. `s.split("")` is read
    as the characters of `s`, except that the empty string splits into one
    empty item. */
module NodeInput {
  import opened Wrappers
  import opened NodeTree

  /** Why `parsePostfix` throws. */
  datatype ParseError =
    | InvalidInput          // `checkInvalidPattern`: the regular expression matches
    | EmptyNode             // `checkEmptyNodes`: an item is blank after `trim`
    | TooManyClosing        // `checkParenthesesBalance`
    | CommaOutside          // `checkCommaUsage`: a comma at depth 0
    | NoParent              // `handleOpeningParenthesis`: a group after a named node
    | SecondGroup           // a second group of children for one node (corrected parser only)
    | EmptyBeforeComma      // `handleComma`: the node before the comma has no name
    | EmptyBeforeClosing    // `handleClosingParenthesis`: the node before ')' has no name
    | EmptyAtEnd            // `validateFinalNode`: the input ends on a node without a name
    | RootSibling           // `validateRoot`: the root has siblings but no children

  // ----- checkInvalidPattern -----

  /** The characters Java's `.` does not match without `DOTALL`. */
  predicate LineTerminator(c: char)
  {
    c == '\n' || c == '\r' || c == '\U{85}' || c == '\U{2028}' || c == '\U{2029}'
  }

  predicate OpenOpen(s: string, i: int)
  {
    0 <= i && i + 1 < |s| && s[i] == '(' && s[i + 1] == '('
  }

  predicate CloseOpen(s: string, j: int)
  {
    0 <= j && j + 1 < |s| && s[j] == ')' && s[j + 1] == '('
  }

  predicate ClosesAt(s: string, k: int)
  {
    0 <= k < |s| && s[k] == ')'
  }

  /** `s.matches(".*\\(\\(.*\\)\\(.*\\).*\\).*")`: no line terminator, and in
      order "((", ")(", ")" and ")". */
  predicate InvalidPattern(s: string)
  {
    && (forall k | 0 <= k < |s| :: !LineTerminator(s[k]))
    && exists i, j, k, l | 0 <= i && i + 2 <= j && j + 2 <= k < l < |s| ::
         OpenOpen(s, i) && CloseOpen(s, j) && ClosesAt(s, k) && ClosesAt(s, l)
  }

  // ----- checkEmptyNodes -----

  /** Some item of `s.split("")` is empty after `trim`: the input is empty
      (one empty item) or holds a character `trim` removes. */
  predicate Blank(s: string)
  {
    s == [] || exists k | 0 <= k < |s| :: s[k] <= ' '
  }

  // ----- parenthesis depth -----

  function Delta(c: char): int
  {
    if c == '(' then 1 else if c == ')' then -1 else 0
  }

  /** The number of '(' minus the number of ')'. */
  function Depth(s: string): int
  {
    if s == [] then 0 else Delta(s[0]) + Depth(s[1..])
  }

  /** Some prefix closes more parentheses than it opens. */
  predicate Overclosed(s: string)
  {
    exists k | 0 <= k <= |s| :: Depth(s[..k]) < 0
  }

  /** Some comma stands outside every parenthesis. */
  predicate TopLevelComma(s: string)
  {
    exists k | 0 <= k < |s| :: s[k] == ',' && Depth(s[..k]) == 0
  }

  /** `checkParenthesesBalance`'s loop with the counter at `n`: it fails as
      soon as a ')' takes the counter below zero. */
  predicate BalanceScan(s: string, n: int)
  {
    if s == [] then true
    else if s[0] == '(' then BalanceScan(s[1..], n + 1)
    else if s[0] == ')' then n - 1 >= 0 && BalanceScan(s[1..], n - 1)
    else BalanceScan(s[1..], n)
  }

  /** `checkCommaUsage`'s loop with the counter at `n`: it fails on a comma
      met while the counter is zero. */
  predicate CommaScan(s: string, n: int)
  {
    if s == [] then true
    else if s[0] == '(' then CommaScan(s[1..], n + 1)
    else if s[0] == ')' then CommaScan(s[1..], n - 1)
    else if s[0] == ',' then n != 0 && CommaScan(s[1..], n)
    else CommaScan(s[1..], n)
  }

  /** `validateInput`: the four checks in the source's order. */
  function ValidateInput(s: string): (r: Outcome<ParseError>)
    ensures r.Pass? <==> !InvalidPattern(s) && !Blank(s) && !Overclosed(s) && !TopLevelComma(s)
    ensures InvalidPattern(s) ==> r == Fail(InvalidInput)
    ensures !InvalidPattern(s) && Blank(s) ==> r == Fail(EmptyNode)
    ensures !InvalidPattern(s) && !Blank(s) && Overclosed(s) ==> r == Fail(TooManyClosing)
    ensures !InvalidPattern(s) && !Blank(s) && !Overclosed(s) && TopLevelComma(s) ==> r == Fail(CommaOutside)
  {
    BalanceScanSpec(s, 0);
    CommaScanSpec(s, 0);
    if InvalidPattern(s) then Fail(InvalidInput)
    else if Blank(s) then Fail(EmptyNode)
    else if !BalanceScan(s, 0) then Fail(TooManyClosing)
    else if !CommaScan(s, 0) then Fail(CommaOutside)
    else Pass
  }

  // ----- properties -----

  lemma DepthStep(s: string, k: int)
    requires 1 <= k <= |s|
    ensures Depth(s[..k]) == Delta(s[0]) + Depth(s[1..][..k - 1])
  {
    assert s[..k][0] == s[0] && s[..k][1..] == s[1..][..k - 1];
  }

  /** The balance scan from `n >= 0` passes exactly when no prefix takes the
      counter below zero. */
  lemma {:induction false} BalanceScanSpec(s: string, n: int)
    requires n >= 0
    ensures BalanceScan(s, n) <==> forall k | 0 <= k <= |s| :: n + Depth(s[..k]) >= 0
  {
    if s == [] {
      assert s[..0] == [];
    } else if s[0] == ')' && n - 1 < 0 {
      DepthStep(s, 1);
      assert s[1..][..0] == [];
    } else {
      var n' := n + Delta(s[0]);
      BalanceScanSpec(s[1..], n');
      if BalanceScan(s, n) {
        forall k | 0 <= k <= |s| ensures n + Depth(s[..k]) >= 0 {
          if k > 0 {
            DepthStep(s, k);
          } else {
            assert s[..k] == [];
          }
        }
      } else {
        var k' :| 0 <= k' <= |s| - 1 && n' + Depth(s[1..][..k']) < 0;
        DepthStep(s, k' + 1);
      }
    }
  }

  /** The comma scan from `n` passes exactly when no comma stands where the
      counter is zero. */
  lemma {:induction false} CommaScanSpec(s: string, n: int)
    ensures CommaScan(s, n) <==> forall k | 0 <= k < |s| :: s[k] == ',' ==> n + Depth(s[..k]) != 0
  {
    if s != [] {
      assert s[..0] == [];
      if s[0] == ',' && n == 0 {
      } else {
        var n' := n + Delta(s[0]);
        CommaScanSpec(s[1..], n');
        if CommaScan(s, n) {
          forall k | 0 <= k < |s| && s[k] == ',' ensures n + Depth(s[..k]) != 0 {
            if k > 0 {
              DepthStep(s, k);
              assert s[1..][k - 1] == s[k];
            }
          }
        } else {
          var k' :| 0 <= k' < |s| - 1 && s[1..][k'] == ',' && n' + Depth(s[1..][..k']) == 0;
          DepthStep(s, k' + 1);
          assert s[k' + 1] == s[1..][k'];
        }
      }
    }
  }

  lemma {:induction false} DepthConcat(a: string, b: string)
    ensures Depth(a + b) == Depth(a) + Depth(b)
  {
    if a == [] {
      assert a + b == b;
    } else {
      assert (a + b)[0] == a[0] && (a + b)[1..] == a[1..] + b;
      DepthConcat(a[1..], b);
    }
  }

  /** The balance scan over `a + b` is the scan over `a`, then over `b` from
      where `a` left the counter. */
  lemma {:induction false} BalanceConcat(a: string, b: string, n: int)
    ensures BalanceScan(a + b, n) <==> BalanceScan(a, n) && BalanceScan(b, n + Depth(a))
  {
    if a == [] {
      assert a + b == b;
    } else {
      assert (a + b)[0] == a[0] && (a + b)[1..] == a[1..] + b;
      BalanceConcat(a[1..], b, n + Delta(a[0]));
    }
  }

  /** The same for the comma scan. */
  lemma {:induction false} CommaConcat(a: string, b: string, n: int)
    ensures CommaScan(a + b, n) <==> CommaScan(a, n) && CommaScan(b, n + Depth(a))
  {
    if a == [] {
      assert a + b == b;
    } else {
      assert (a + b)[0] == a[0] && (a + b)[1..] == a[1..] + b;
      CommaConcat(a[1..], b, n + Delta(a[0]));
    }
  }

  /** A name moves no counter and passes both scans. */
  lemma {:induction false} NameNeutral(w: string, n: int)
    requires forall k | 0 <= k < |w| :: !Delimiter(w[k])
    ensures Depth(w) == 0 && BalanceScan(w, n) && CommaScan(w, n)
  {
    if w != [] {
      NameNeutral(w[1..], n);
    }
  }

  /** Without a ")(" pair the regular expression cannot match. */
  lemma NoCloseOpenValid(s: string)
    requires forall j | 0 <= j < |s| :: !CloseOpen(s, j)
    ensures !InvalidPattern(s)
  {
  }

  /** The source's rejection rules, each on a small input: the empty string,
      a space, an extra ')', a comma outside parentheses, and two groups of
      children inside one group. */
  lemma RejectsBlank()
    ensures ValidateInput("") == Fail(EmptyNode)
    ensures ValidateInput("A B") == Fail(EmptyNode)
  {
    assert !InvalidPattern("A B") by {
      assert forall j | 0 <= j < 3 :: !CloseOpen("A B", j);
    }
    assert ("A B")[1] == ' ';
  }

  lemma RejectsClosing()
    ensures ValidateInput("A)") == Fail(TooManyClosing)
  {
    var s := "A)";
    assert forall j | 0 <= j < |s| :: !CloseOpen(s, j);
    assert s[..2] == s && Depth(s) == -1;
  }

  lemma RejectsComma()
    ensures ValidateInput("A,B") == Fail(CommaOutside)
  {
    var s := "A,B";
    assert forall j | 0 <= j < |s| :: !CloseOpen(s, j);
    BalanceScanSpec(s, 0);
    assert s[..1] == "A" && Depth("A") == 0;
  }

  lemma RejectsTwoGroups()
    ensures ValidateInput("((A)(B)C)D") == Fail(InvalidInput)
  {
    var s := "((A)(B)C)D";
    assert OpenOpen(s, 0) && CloseOpen(s, 3) && ClosesAt(s, 6) && ClosesAt(s, 8);
  }
}
