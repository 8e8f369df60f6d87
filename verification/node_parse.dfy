/** `parsePostfix` of h5/src/Node.java: validate the input, build the tree by
    recursive descent over the characters, and check the root. The source
    keeps the remaining input in a static list that every call pops from; here
    each call takes the whole input and the position of the next character,
    and returns the position it stopped at. */
module NodeParse {
  import opened Wrappers
  import opened NodeTree
  import opened NodeInput

  /** `AsWritten` runs `handleOpeningParenthesis` as the source does, which
      lets a second group of children replace the first; `SingleGroup` also
      rejects that second group. */
  datatype Mode = AsWritten | SingleGroup

  /** `appendNodeName`: a null name becomes the character, any other name
      gets the character appended. */
  function Append(name: Option<string>, c: char): string
  {
    NameOf(name) + [c]
  }

  /** `buildTree(root, items)` for a root whose name so far is `name` and
      whose first child so far is `child`, reading `s` from `pos`. On success
      the result is the finished node and the position after what it read:
      - '(' builds the first child from a fresh node; it throws if input
        remains and this node already has a name;
      - ',' builds the next sibling from a fresh node and returns; it throws
        if this node has no name;
      - ')' returns; it throws if this node has no name;
      - any other character is appended to the name;
      - at the end of the input it throws if this node has no name. */
  function BuildTree(mode: Mode, s: string, name: Option<string>, child: Node, pos: nat)
    : (r: Result<(Node, nat), ParseError>)
    requires pos <= |s|
    ensures r.Success? ==> pos <= r.value.1 <= |s|
    ensures r.Success? ==> r.value.0.Node? && r.value.0.name.Some?
    decreases |s| - pos
  {
    if pos == |s| then
      if name.None? then Failure(EmptyAtEnd) else Success((Node(name, child, Nil), pos))
    else
      var item := s[pos];
      if item == '(' then
        match BuildTree(mode, s, None, Nil, pos + 1)
        case Failure(e) => Failure(e)
        case Success((first, after)) =>
          if after != |s| && name.Some? then Failure(NoParent)
          else if mode == SingleGroup && child.Node? then Failure(SecondGroup)
          else BuildTree(mode, s, name, first, after)
      else if item == ',' then
        match BuildTree(mode, s, None, Nil, pos + 1)
        case Failure(e) => Failure(e)
        case Success((sibling, after)) =>
          if name.None? then Failure(EmptyBeforeComma) else Success((Node(name, child, sibling), after))
      else if item == ')' then
        if name.None? then Failure(EmptyBeforeClosing) else Success((Node(name, child, Nil), pos + 1))
      else
        BuildTree(mode, s, Some(Append(name, item)), child, pos + 1)
  }

  /** `validateRoot`: a root with siblings but no children throws; a root
      without either returns whether or not it has a name. */
  function ValidateRoot(root: Node): (r: Outcome<ParseError>)
    requires root.Node?
    ensures r.Fail? <==> root.firstChild.Nil? && root.nextSibling.Node?
  {
    if root.firstChild.Nil? && root.nextSibling.Nil? then Pass
    else if root.firstChild.Nil? then Fail(RootSibling)
    else Pass
  }

  /** `parsePostfix(s)`: the input checks, then `buildTree` from a fresh node
      over all of `s`, then `validateRoot`. */
  function ParsePostfix(mode: Mode, s: string): (r: Result<Node, ParseError>)
    ensures Blank(s) ==> r.Failure?
    ensures Overclosed(s) ==> r.Failure?
    ensures TopLevelComma(s) ==> r.Failure?
    ensures r.Success? ==> WellFormed(r.value)
  {
    match ValidateInput(s)
    case Fail(e) => Failure(e)
    case Pass =>
      match BuildTree(mode, s, None, Nil, 0)
      case Failure(e) => Failure(e)
      case Success((root, after)) =>
        BuildNamed(mode, s, None, Nil, 0);
        BuildConsumes(mode, s, None, Nil, 0);
        ReadsAll(s, root, after);
        match ValidateRoot(root)
        case Fail(e) => Failure(e)
        case Pass => Success(root)
  }

  // ----- what a successful build guarantees -----

  /** Characters that `trim` would not remove. */
  predicate Clean(s: string)
  {
    forall k | 0 <= k < |s| :: s[k] > ' '
  }

  /** Built from clean input, every node the build returns is named, and so
      is every node below it. */
  lemma {:induction false} BuildNamed(mode: Mode, s: string, name: Option<string>, child: Node, pos: nat)
    requires pos <= |s| && Clean(s) && Named(child) && (name.Some? ==> ValidName(name.value))
    ensures var r := BuildTree(mode, s, name, child, pos); r.Success? ==> Named(r.value.0)
    decreases |s| - pos
  {
    var r := BuildTree(mode, s, name, child, pos);
    if r.Success? && pos < |s| {
      var item := s[pos];
      if item == '(' {
        BuildNamed(mode, s, None, Nil, pos + 1);
        var (first, after) := BuildTree(mode, s, None, Nil, pos + 1).value;
        BuildNamed(mode, s, name, first, after);
      } else if item == ',' {
        BuildNamed(mode, s, None, Nil, pos + 1);
      } else if item != ')' {
        assert NameChar(item);
        BuildNamed(mode, s, Some(Append(name, item)), child, pos + 1);
      }
    }
  }

  /** Some comma of `s[a..b]` stands outside every parenthesis opened after
      `a`. */
  predicate CommaBetween(s: string, a: int, b: int)
    requires 0 <= a <= b <= |s|
  {
    exists k | a <= k < b :: s[k] == ',' && Depth(s[a..k]) == 0
  }

  /** What a successful build consumed: when it stops before the end of the
      input it has closed one more parenthesis than it opened, and when the
      node it returns has a sibling, it met a comma outside every
      parenthesis it opened. */
  ghost predicate Consumes(mode: Mode, s: string, name: Option<string>, child: Node, pos: nat)
    requires pos <= |s|
  {
    var r := BuildTree(mode, s, name, child, pos);
    r.Success? ==>
      && (r.value.1 < |s| ==> Depth(s[pos..r.value.1]) == -1)
      && (r.value.0.nextSibling.Node? ==> CommaBetween(s, pos, r.value.1))
  }

  lemma {:induction false} BuildConsumes(mode: Mode, s: string, name: Option<string>, child: Node, pos: nat)
    requires pos <= |s|
    ensures Consumes(mode, s, name, child, pos)
    decreases |s| - pos
  {
    if pos == |s| || s[pos] == ')' {
      EndConsumes(mode, s, name, child, pos);
    } else if s[pos] == '(' {
      BuildConsumes(mode, s, None, Nil, pos + 1);
      var inner := BuildTree(mode, s, None, Nil, pos + 1);
      if inner.Success? {
        BuildConsumes(mode, s, name, inner.value.0, inner.value.1);
      }
      OpenConsumes(mode, s, name, child, pos);
    } else if s[pos] == ',' {
      BuildConsumes(mode, s, None, Nil, pos + 1);
      CommaConsumes(mode, s, name, child, pos);
    } else {
      BuildConsumes(mode, s, Some(Append(name, s[pos])), child, pos + 1);
      CharConsumes(mode, s, name, child, pos);
    }
  }

  lemma EndConsumes(mode: Mode, s: string, name: Option<string>, child: Node, pos: nat)
    requires pos == |s| || (pos < |s| && s[pos] == ')')
    ensures Consumes(mode, s, name, child, pos)
  {
    if pos < |s| {
      assert s[pos..pos + 1] == [')'];
    }
  }

  lemma OpenConsumes(mode: Mode, s: string, name: Option<string>, child: Node, pos: nat)
    requires pos < |s| && s[pos] == '('
    requires Consumes(mode, s, None, Nil, pos + 1)
    requires var inner := BuildTree(mode, s, None, Nil, pos + 1);
             inner.Success? ==> Consumes(mode, s, name, inner.value.0, inner.value.1)
    ensures Consumes(mode, s, name, child, pos)
  {
    var r := BuildTree(mode, s, name, child, pos);
    if r.Success? {
      var (first, after1) := BuildTree(mode, s, None, Nil, pos + 1).value;
      assert r == BuildTree(mode, s, name, first, after1);
      GroupConsumed(s, pos, after1, r.value.1, r.value.0.nextSibling.Node?);
    }
  }

  lemma CommaConsumes(mode: Mode, s: string, name: Option<string>, child: Node, pos: nat)
    requires pos < |s| && s[pos] == ','
    requires Consumes(mode, s, None, Nil, pos + 1)
    ensures Consumes(mode, s, name, child, pos)
  {
    var r := BuildTree(mode, s, name, child, pos);
    if r.Success? {
      LeadConsumed(s, pos, r.value.1);
      assert s[pos..pos] == [];
    }
  }

  lemma CharConsumes(mode: Mode, s: string, name: Option<string>, child: Node, pos: nat)
    requires pos < |s| && !Delimiter(s[pos])
    requires Consumes(mode, s, Some(Append(name, s[pos])), child, pos + 1)
    ensures Consumes(mode, s, name, child, pos)
  {
    var r := BuildTree(mode, s, Some(Append(name, s[pos])), child, pos + 1);
    assert BuildTree(mode, s, name, child, pos) == r;
    if r.Success? {
      LeadConsumed(s, pos, r.value.1);
      if r.value.0.nextSibling.Node? {
        LeadComma(s, pos, r.value.1);
      }
    }
  }

  lemma DepthSplit(s: string, a: int, b: int, c: int)
    requires 0 <= a <= b <= c <= |s|
    ensures Depth(s[a..c]) == Depth(s[a..b]) + Depth(s[b..c])
  {
    assert s[a..c] == s[a..b] + s[b..c];
    DepthConcat(s[a..b], s[b..c]);
  }

  /** One character, then what a nested build consumed. */
  lemma LeadConsumed(s: string, pos: int, after: int)
    requires 0 <= pos < after <= |s|
    ensures Depth(s[pos..after]) == Delta(s[pos]) + Depth(s[pos + 1..after])
  {
    DepthSplit(s, pos, pos + 1, after);
    assert s[pos..pos + 1] == [s[pos]];
  }

  lemma LeadComma(s: string, pos: int, after: int)
    requires 0 <= pos < after <= |s| && !Delimiter(s[pos])
    requires CommaBetween(s, pos + 1, after)
    ensures CommaBetween(s, pos, after)
  {
    var k :| pos + 1 <= k < after && s[k] == ',' && Depth(s[pos + 1..k]) == 0;
    LeadConsumed(s, pos, k);
  }

  /** A '(' case: the group the child build consumed, then what the rest of
      the loop consumed. */
  lemma GroupConsumed(s: string, pos: int, after1: int, after: int, sibling: bool)
    requires 0 <= pos < |s| && s[pos] == '('
    requires pos + 1 <= after1 <= after <= |s|
    requires after1 < |s| ==> Depth(s[pos + 1..after1]) == -1
    requires after < |s| ==> Depth(s[after1..after]) == -1
    requires sibling ==> CommaBetween(s, after1, after)
    ensures after < |s| ==> Depth(s[pos..after]) == -1
    ensures sibling ==> CommaBetween(s, pos, after)
  {
    if after < |s| {
      LeadConsumed(s, pos, after);
      DepthSplit(s, pos + 1, after1, after);
    }
    if sibling {
      var k :| after1 <= k < after && s[k] == ',' && Depth(s[after1..k]) == 0;
      LeadConsumed(s, pos, k);
      DepthSplit(s, pos + 1, after1, k);
    }
  }

  /** After the input checks pass, the build reads the whole input and the
      root it returns has no sibling. */
  lemma ReadsAll(s: string, root: Node, after: nat)
    requires ValidateInput(s) == Pass && root.Node? && after <= |s|
    requires after < |s| ==> Depth(s[0..after]) == -1
    requires root.nextSibling.Node? ==> CommaBetween(s, 0, after)
    ensures after == |s| && root.nextSibling.Nil?
  {
  }

  // ----- names -----

  /** Consecutive characters other than delimiters are appended to one name. */
  lemma {:induction false} NamesConcatenate(mode: Mode, s: string, name: Option<string>, child: Node, pos: nat, end: nat)
    requires pos < end <= |s| && forall k | pos <= k < end :: !Delimiter(s[k])
    ensures BuildTree(mode, s, name, child, pos) == BuildTree(mode, s, Some(NameOf(name) + s[pos..end]), child, end)
    decreases end - pos
  {
    if pos + 1 == end {
      assert s[pos..end] == [s[pos]];
    } else {
      var name' := Some(Append(name, s[pos]));
      NamesConcatenate(mode, s, name', child, pos + 1, end);
      assert s[pos..end] == [s[pos]] + s[pos + 1..end];
      assert NameOf(name') + s[pos + 1..end] == NameOf(name) + s[pos..end];
    }
  }

  // ----- the postfix form parses back -----

  /** Text the input checks let through: nothing `trim` removes and no ")("
      pair. */
  predicate Tidy(s: string)
  {
    s == [] || (s[0] > ' ' && !(|s| >= 2 && s[0] == ')' && s[1] == '(') && Tidy(s[1..]))
  }

  lemma {:induction false} TidyMeans(s: string)
    requires Tidy(s)
    ensures Clean(s) && forall j | 0 <= j < |s| :: !CloseOpen(s, j)
  {
    if s != [] {
      TidyMeans(s[1..]);
      forall j | 1 <= j < |s| ensures !CloseOpen(s, j) {
        assert !CloseOpen(s[1..], j - 1);
      }
    }
  }

  lemma {:induction false} Glue(a: string, b: string)
    requires Tidy(a) && Tidy(b)
    requires a != [] && b != [] ==> !(a[|a| - 1] == ')' && b[0] == '(')
    ensures Tidy(a + b)
  {
    if a == [] {
      assert a + b == b;
    } else {
      var s := a + b;
      assert s[0] == a[0] && s[1..] == a[1..] + b;
      if |a| == 1 {
        assert a[1..] + b == b;
      } else {
        assert s[1] == a[1];
        assert a[1..][|a| - 2] == a[|a| - 1];
      }
      Glue(a[1..], b);
    }
  }

  /** The postfix form of a named tree is tidy and ends with a name
      character. */
  lemma {:induction false} PostfixTidy(t: Node)
    requires t.Node? && Named(t)
    ensures var p := Postfix(t); p != [] && Tidy(p) && NameChar(p[|p| - 1])
    decreases t
  {
    var name, g, s := t.name.value, GroupText(t), LedText(t);
    assert Tidy(g) && (g != [] ==> g[|g| - 1] == ')') by {
      if t.firstChild.Node? {
        PostfixTidy(t.firstChild);
        TidyGroup(Postfix(t.firstChild));
      }
    }
    assert Tidy(s) && (s != [] ==> s[0] == ',' && NameChar(s[|s| - 1])) by {
      if t.nextSibling.Node? {
        PostfixTidy(t.nextSibling);
        TidyLed(Postfix(t.nextSibling));
      }
    }
    assert Postfix(t) == g + name + s;
    TidyParts(g, name, s);
  }

  lemma TidyGroup(x: string)
    requires x != [] && Tidy(x) && NameChar(x[|x| - 1])
    ensures var g := "(" + x + ")"; Tidy(g) && g[|g| - 1] == ')'
  {
    Glue("(", x);
    Glue("(" + x, ")");
  }

  lemma TidyLed(x: string)
    requires x != [] && Tidy(x) && NameChar(x[|x| - 1])
    ensures var s := "," + x; Tidy(s) && s != [] && NameChar(s[|s| - 1])
  {
    Glue(",", x);
  }

  /** A group ending in ')' or nothing, a name, then a comma part that is
      empty or ends with a name character. */
  lemma TidyParts(g: string, name: string, s: string)
    requires Tidy(g) && (g != [] ==> g[|g| - 1] == ')')
    requires ValidName(name)
    requires Tidy(s) && (s != [] ==> s[0] == ',' && NameChar(s[|s| - 1]))
    ensures var p := g + name + s; p != [] && Tidy(p) && NameChar(p[|p| - 1])
  {
    assert NameChar(name[0]) && NameChar(name[|name| - 1]);
    NameTidy(name);
    Glue(g, name);
    Glue(g + name, s);
  }

  lemma {:induction false} NameTidy(w: string)
    requires forall k | 0 <= k < |w| :: NameChar(w[k])
    ensures Tidy(w)
  {
    if w != [] {
      NameTidy(w[1..]);
    }
  }

  /** The postfix form of a named tree opens as many parentheses as it
      closes, never closes one it did not open, and has commas only where the
      counter is above zero, except that a root without siblings passes the
      comma scan from zero. */
  lemma {:induction false} PostfixDepth(t: Node, n: int)
    requires t.Node? && Named(t) && n >= 0
    ensures var p := Postfix(t);
            && Depth(p) == 0 && BalanceScan(p, n)
            && (n >= 1 || t.nextSibling.Nil? ==> CommaScan(p, n))
    decreases t
  {
    var name := t.name.value;
    var g := if t.firstChild.Nil? then "" else "(" + Postfix(t.firstChild) + ")";
    var s := if t.nextSibling.Nil? then "" else "," + Postfix(t.nextSibling);
    assert Postfix(t) == g + name + s;
    if t.firstChild.Node? {
      PostfixDepth(t.firstChild, n + 1);
      Wrapped(Postfix(t.firstChild), n);
    }
    NameNeutral(name, n);
    if t.nextSibling.Node? {
      PostfixDepth(t.nextSibling, n);
      Led(Postfix(t.nextSibling), n);
    }
    Parts(g, name, s, n);
  }

  /** A group in parentheses around balanced text. */
  lemma Wrapped(x: string, n: int)
    requires n >= 0 && Depth(x) == 0 && BalanceScan(x, n + 1) && CommaScan(x, n + 1)
    ensures var g := "(" + x + ")"; Depth(g) == 0 && BalanceScan(g, n) && CommaScan(g, n)
  {
    DepthConcat("(" + x, ")");
    DepthConcat("(", x);
    BalanceConcat("(" + x, ")", n);
    BalanceConcat("(", x, n);
    CommaConcat("(" + x, ")", n);
    CommaConcat("(", x, n);
  }

  /** A comma before balanced text. */
  lemma Led(x: string, n: int)
    requires Depth(x) == 0 && BalanceScan(x, n) && (n >= 1 ==> CommaScan(x, n))
    ensures var s := "," + x; Depth(s) == 0 && BalanceScan(s, n) && (n >= 1 ==> CommaScan(s, n))
  {
    DepthConcat(",", x);
    BalanceConcat(",", x, n);
    CommaConcat(",", x, n);
  }

  lemma Parts(g: string, w: string, s: string, n: int)
    requires Depth(g) == 0 && Depth(w) == 0 && Depth(s) == 0
    ensures Depth(g + w + s) == 0
    ensures BalanceScan(g + w + s, n) <==> BalanceScan(g, n) && BalanceScan(w, n) && BalanceScan(s, n)
    ensures CommaScan(g + w + s, n) <==> CommaScan(g, n) && CommaScan(w, n) && CommaScan(s, n)
  {
    DepthConcat(g + w, s);
    DepthConcat(g, w);
    BalanceConcat(g + w, s, n);
    BalanceConcat(g, w, n);
    CommaConcat(g + w, s, n);
    CommaConcat(g, w, n);
  }

  /** The postfix form of a well-formed tree passes every input check. */
  lemma PostfixValid(t: Node)
    requires WellFormed(t)
    ensures ValidateInput(Postfix(t)) == Pass
  {
    var p := Postfix(t);
    PostfixTidy(t);
    TidyMeans(p);
    NoCloseOpenValid(p);
    PostfixDepth(t, 0);
    BalanceScanSpec(p, 0);
    CommaScanSpec(p, 0);
  }

  // ----- the round trip -----

  /** `w` stands in `s` at `pos`. */
  predicate At(s: string, pos: nat, w: string)
  {
    pos + |w| <= |s| && s[pos..pos + |w|] == w
  }

  lemma AtSplit(s: string, pos: nat, a: string, b: string)
    requires At(s, pos, a + b)
    ensures At(s, pos, a) && At(s, pos + |a|, b)
  {
    var ab := s[pos..pos + |a| + |b|];
    assert s[pos..pos + |a|] == ab[..|a|] && s[pos + |a|..pos + |a| + |b|] == ab[|a|..];
  }

  lemma AtChar(s: string, pos: nat, c: char)
    requires At(s, pos, [c])
    ensures s[pos] == c
  {
    assert s[pos..pos + 1][0] == s[pos];
  }

  /** The group of children before a node's name, if any. */
  function GroupText(t: Node): string
    requires t.Node?
  {
    if t.firstChild.Nil? then "" else "(" + Postfix(t.firstChild) + ")"
  }

  /** The comma and siblings after a node's name, if any. */
  function LedText(t: Node): string
    requires t.Node?
  {
    if t.nextSibling.Nil? then "" else "," + Postfix(t.nextSibling)
  }

  /** Where the build stops after reading a node that ends at `end`: there,
      at the end of the input, or just past the ')' that closes its parent. */
  function Stop(s: string, end: nat): nat
    requires end <= |s|
  {
    if end == |s| then end else end + 1
  }

  /** Building from a fresh node at the start of the postfix form of a named
      tree, followed by the end of the input or by the ')' that closes its
      parent's group, gives the tree back and stops past that ')'. */
  lemma {:induction false} BuildPostfix(mode: Mode, s: string, t: Node, pos: nat, last: nat)
    requires t.Node? && Named(t) && At(s, pos, Postfix(t)) && last == pos + |Postfix(t)|
    requires last == |s| || s[last] == ')'
    ensures BuildTree(mode, s, None, Nil, pos) == Success((t, Stop(s, last)))
    decreases t, 1
  {
    if t.firstChild.Node? {
      ChildBuilds(mode, s, t, pos);
    }
    if t.nextSibling.Node? {
      SiblingBuilds(mode, s, t, pos, last);
    }
    Assemble(mode, s, t, pos, last);
  }

  /** The build of a node's children reads their postfix form. */
  lemma {:induction false} ChildBuilds(mode: Mode, s: string, t: Node, pos: nat)
    requires t.Node? && Named(t) && At(s, pos, Postfix(t)) && t.firstChild.Node?
    ensures BuildTree(mode, s, None, Nil, pos + 1)
            == Success((t.firstChild, Stop(s, pos + 1 + |Postfix(t.firstChild)|)))
    decreases t, 0
  {
    ChildLayout(s, t, pos);
    BuildPostfix(mode, s, t.firstChild, pos + 1, pos + 1 + |Postfix(t.firstChild)|);
  }

  /** The build of a node's next sibling reads its postfix form. */
  lemma {:induction false} SiblingBuilds(mode: Mode, s: string, t: Node, pos: nat, last: nat)
    requires t.Node? && Named(t) && At(s, pos, Postfix(t)) && last == pos + |Postfix(t)|
    requires last == |s| || s[last] == ')'
    requires t.nextSibling.Node?
    ensures BuildTree(mode, s, None, Nil, pos + |GroupText(t)| + |t.name.value| + 1)
            == Success((t.nextSibling, Stop(s, last)))
    decreases t, 0
  {
    SiblingLayout(s, t, pos);
    BuildPostfix(mode, s, t.nextSibling, pos + |GroupText(t)| + |t.name.value| + 1, last);
  }

  /** A node's postfix form is its group, its name and what follows it. */
  lemma PostfixParts(s: string, t: Node, pos: nat)
    requires t.Node? && Named(t) && At(s, pos, Postfix(t))
    ensures At(s, pos, GroupText(t))
    ensures At(s, pos + |GroupText(t)|, t.name.value)
    ensures At(s, pos + |GroupText(t)| + |t.name.value|, LedText(t))
    ensures |Postfix(t)| == |GroupText(t)| + |t.name.value| + |LedText(t)|
  {
    var g, name, led := GroupText(t), t.name.value, LedText(t);
    assert Postfix(t) == g + name + led;
    AtSplit(s, pos, g + name, led);
    AtSplit(s, pos, g, name);
  }

  /** The children stand in parentheses at the start of the form. */
  lemma ChildLayout(s: string, t: Node, pos: nat)
    requires t.Node? && Named(t) && At(s, pos, Postfix(t)) && t.firstChild.Node?
    ensures s[pos] == '(' && At(s, pos + 1, Postfix(t.firstChild))
    ensures pos + 1 + |Postfix(t.firstChild)| < |s| && s[pos + 1 + |Postfix(t.firstChild)|] == ')'
    ensures |GroupText(t)| == |Postfix(t.firstChild)| + 2
  {
    PostfixParts(s, t, pos);
    GroupLayout(s, pos, Postfix(t.firstChild));
  }

  /** The siblings follow the name after a comma, up to the end of the form. */
  lemma SiblingLayout(s: string, t: Node, pos: nat)
    requires t.Node? && Named(t) && At(s, pos, Postfix(t)) && t.nextSibling.Node?
    ensures var end := pos + |GroupText(t)| + |t.name.value|;
            && end < |s| && s[end] == ','
            && At(s, end + 1, Postfix(t.nextSibling))
            && end + 1 + |Postfix(t.nextSibling)| == pos + |Postfix(t)|
  {
    var end := pos + |GroupText(t)| + |t.name.value|;
    PostfixParts(s, t, pos);
    AtSplit(s, end, ",", Postfix(t.nextSibling));
    AtChar(s, end, ',');
  }

  lemma GroupLayout(s: string, pos: nat, pc: string)
    requires At(s, pos, "(" + pc + ")")
    ensures s[pos] == '(' && At(s, pos + 1, pc) && s[pos + 1 + |pc|] == ')'
  {
    AtSplit(s, pos, "(" + pc, ")");
    AtSplit(s, pos, "(", pc);
    AtChar(s, pos, '(');
    AtChar(s, pos + 1 + |pc|, ')');
  }

  /** The steps of one node, given what the builds of its child and its
      sibling return: the group, then the name, then the comma or the end. */
  lemma Assemble(mode: Mode, s: string, t: Node, pos: nat, last: nat)
    requires t.Node? && Named(t) && At(s, pos, Postfix(t)) && last == pos + |Postfix(t)|
    requires last == |s| || s[last] == ')'
    requires t.firstChild.Node? ==>
               BuildTree(mode, s, None, Nil, pos + 1)
               == Success((t.firstChild, Stop(s, pos + 1 + |Postfix(t.firstChild)|)))
    requires t.nextSibling.Node? ==>
               BuildTree(mode, s, None, Nil, pos + |GroupText(t)| + |t.name.value| + 1)
               == Success((t.nextSibling, Stop(s, last)))
    ensures BuildTree(mode, s, None, Nil, pos) == Success((t, Stop(s, last)))
  {
    HeadStep(mode, s, t, pos);
    NameStep(mode, s, t, pos);
    TailStep(mode, s, t, pos, last);
  }

  /** Reading the group leaves a fresh node whose first child is the node's. */
  lemma HeadStep(mode: Mode, s: string, t: Node, pos: nat)
    requires t.Node? && Named(t) && At(s, pos, Postfix(t))
    requires t.firstChild.Node? ==>
               BuildTree(mode, s, None, Nil, pos + 1)
               == Success((t.firstChild, Stop(s, pos + 1 + |Postfix(t.firstChild)|)))
    ensures BuildTree(mode, s, None, Nil, pos) == BuildTree(mode, s, None, t.firstChild, pos + |GroupText(t)|)
  {
    if t.firstChild.Node? {
      ChildLayout(s, t, pos);
      OpenStep(mode, s, pos, t.firstChild, pos + |GroupText(t)|);
    }
  }

  /** Reading the name gives the node its name. */
  lemma NameStep(mode: Mode, s: string, t: Node, pos: nat)
    requires t.Node? && Named(t) && At(s, pos, Postfix(t))
    ensures BuildTree(mode, s, None, t.firstChild, pos + |GroupText(t)|)
            == BuildTree(mode, s, t.name, t.firstChild, pos + |GroupText(t)| + |t.name.value|)
  {
    NameLayout(s, t, pos);
    BuildName(mode, s, t, pos + |GroupText(t)|);
  }

  /** After the name, a comma reads the siblings and the end of the form
      finishes the node. */
  lemma TailStep(mode: Mode, s: string, t: Node, pos: nat, last: nat)
    requires t.Node? && Named(t) && At(s, pos, Postfix(t)) && last == pos + |Postfix(t)|
    requires last == |s| || s[last] == ')'
    requires t.nextSibling.Node? ==>
               BuildTree(mode, s, None, Nil, pos + |GroupText(t)| + |t.name.value| + 1)
               == Success((t.nextSibling, Stop(s, last)))
    ensures BuildTree(mode, s, t.name, t.firstChild, pos + |GroupText(t)| + |t.name.value|)
            == Success((t, Stop(s, last)))
  {
    if t.nextSibling.Node? {
      SiblingTail(mode, s, t, pos, last);
    } else {
      LastTail(mode, s, t, pos, last);
    }
  }

  lemma SiblingTail(mode: Mode, s: string, t: Node, pos: nat, last: nat)
    requires t.Node? && Named(t) && At(s, pos, Postfix(t)) && t.nextSibling.Node? && last <= |s|
    requires BuildTree(mode, s, None, Nil, pos + |GroupText(t)| + |t.name.value| + 1)
             == Success((t.nextSibling, Stop(s, last)))
    ensures BuildTree(mode, s, t.name, t.firstChild, pos + |GroupText(t)| + |t.name.value|)
            == Success((t, Stop(s, last)))
  {
    SiblingLayout(s, t, pos);
    SiblingStep(mode, s, t, pos + |GroupText(t)| + |t.name.value|, Stop(s, last));
  }

  lemma LastTail(mode: Mode, s: string, t: Node, pos: nat, last: nat)
    requires t.Node? && Named(t) && At(s, pos, Postfix(t)) && last == pos + |Postfix(t)|
    requires last == |s| || s[last] == ')'
    requires t.nextSibling.Nil?
    ensures BuildTree(mode, s, t.name, t.firstChild, pos + |GroupText(t)| + |t.name.value|)
            == Success((t, Stop(s, last)))
  {
    LastLayout(s, t, pos);
    LastStep(mode, s, t, last);
  }

  /** The name stands after the group. */
  lemma NameLayout(s: string, t: Node, pos: nat)
    requires t.Node? && Named(t) && At(s, pos, Postfix(t))
    ensures At(s, pos + |GroupText(t)|, t.name.value)
  {
    PostfixParts(s, t, pos);
  }

  /** Without siblings the form ends with the name. */
  lemma LastLayout(s: string, t: Node, pos: nat)
    requires t.Node? && Named(t) && At(s, pos, Postfix(t)) && t.nextSibling.Nil?
    ensures pos + |GroupText(t)| + |t.name.value| == pos + |Postfix(t)|
  {
    PostfixParts(s, t, pos);
  }

  /** A '(' whose child build stops at `at` continues with that child. */
  lemma OpenStep(mode: Mode, s: string, pos: nat, c: Node, at: nat)
    requires pos < |s| && s[pos] == '(' && at < |s|
    requires BuildTree(mode, s, None, Nil, pos + 1) == Success((c, at))
    ensures BuildTree(mode, s, None, Nil, pos) == BuildTree(mode, s, None, c, at)
  {
  }

  /** After the children, the name is read whole. */
  lemma BuildName(mode: Mode, s: string, t: Node, at: nat)
    requires t.Node? && Named(t) && At(s, at, t.name.value)
    ensures BuildTree(mode, s, None, t.firstChild, at)
            == BuildTree(mode, s, t.name, t.firstChild, at + |t.name.value|)
  {
    var name := t.name.value;
    var end := at + |name|;
    forall k | at <= k < end ensures !Delimiter(s[k]) {
      assert s[k] == s[at..end][k - at] == name[k - at];
    }
    NamesConcatenate(mode, s, None, t.firstChild, at, end);
    assert NameOf(None) + s[at..end] == name;
  }

  lemma SiblingStep(mode: Mode, s: string, t: Node, end: nat, stop: nat)
    requires t.Node? && t.name.Some? && t.nextSibling.Node?
    requires end < |s| && s[end] == ','
    requires BuildTree(mode, s, None, Nil, end + 1) == Success((t.nextSibling, stop))
    ensures BuildTree(mode, s, t.name, t.firstChild, end) == Success((t, stop))
  {
  }

  lemma LastStep(mode: Mode, s: string, t: Node, end: nat)
    requires t.Node? && t.name.Some? && t.nextSibling.Nil?
    requires end == |s| || (end < |s| && s[end] == ')')
    ensures BuildTree(mode, s, t.name, t.firstChild, end) == Success((t, Stop(s, end)))
  {
  }

  /** `parsePostfix` reads the postfix form of every well-formed tree back
      as that tree. */
  lemma RoundTrip(mode: Mode, t: Node)
    requires WellFormed(t)
    ensures ParsePostfix(mode, Postfix(t)) == Success(t)
  {
    var s := Postfix(t);
    PostfixValid(t);
    assert s[0..|s|] == s;
    BuildPostfix(mode, s, t, 0, |s|);
  }

  /** The source's own example: "(B1,C)A" parses to the tree printed as
      "A(B1,C)". */
  lemma ParseExample(mode: Mode)
    ensures ParsePostfix(mode, "(B1,C)A") == Success(ExampleTree())
    ensures Parenthetic(ParsePostfix(mode, "(B1,C)A").value) == "A(B1,C)"
  {
    ExampleForms();
    RoundTrip(mode, ExampleTree());
  }

  // ----- the printed form -----

  /** The left parenthetic form of a named tree opens as many parentheses as
      it closes, never closes one it did not open, and for a root without
      siblings has every comma inside parentheses. */
  lemma {:induction false} ParentheticBalanced(t: Node, n: int)
    requires t.Node? && Named(t) && n >= 0
    ensures var p := Parenthetic(t);
            && Depth(p) == 0 && BalanceScan(p, n)
            && (n >= 1 || t.nextSibling.Nil? ==> CommaScan(p, n))
    decreases t
  {
    var name := t.name.value;
    var g := if t.firstChild.Nil? then "" else "(" + Parenthetic(t.firstChild) + ")";
    var s := if t.nextSibling.Nil? then "" else "," + Parenthetic(t.nextSibling);
    assert Parenthetic(t) == name + g + s;
    if t.firstChild.Node? {
      ParentheticBalanced(t.firstChild, n + 1);
      Wrapped(Parenthetic(t.firstChild), n);
    }
    NameNeutral(name, n);
    if t.nextSibling.Node? {
      ParentheticBalanced(t.nextSibling, n);
      Led(Parenthetic(t.nextSibling), n);
    }
    Parts(name, g, s, n);
  }

  // ----- a second group of children -----

  /** As written, "(B)A(C)" parses: the second group replaces the first, and
      B is lost. The corrected parser rejects the input. */
  lemma LostGroup()
    ensures ValidateInput("(B)A(C)") == Pass
    ensures ParsePostfix(AsWritten, "(B)A(C)") == Success(Node(Some("A"), Node(Some("C"), Nil, Nil), Nil))
    ensures multiset(NameChars(ParsePostfix(AsWritten, "(B)A(C)").value)) != multiset(Letters("(B)A(C)"))
    ensures ParsePostfix(SingleGroup, "(B)A(C)") == Failure(SecondGroup)
  {
    LostGroupValid();
    LostGroupParses(AsWritten);
    LostGroupParses(SingleGroup);
    LostLetter();
  }

  lemma LostGroupParses(mode: Mode)
    ensures ParsePostfix(mode, "(B)A(C)")
            == if mode == AsWritten then Success(Node(Some("A"), Node(Some("C"), Nil, Nil), Nil))
               else Failure(SecondGroup)
  {
    LostGroupValid();
    LostGroupSteps(mode);
  }

  /** The tree "(B)A(C)" gives as written lacks the letter B. */
  lemma LostLetter()
    ensures multiset(NameChars(Node(Some("A"), Node(Some("C"), Nil, Nil), Nil))) != multiset(Letters("(B)A(C)"))
  {
    assert NameChars(Node(Some("A"), Node(Some("C"), Nil, Nil), Nil)) == "AC";
    assert multiset(Letters("(B)A(C)")) == multiset("BAC") by {
      LostGroupLetters();
    }
    assert multiset("BAC") != multiset("AC") by {
      assert 'B' in multiset("BAC") && 'B' !in multiset("AC");
    }
  }

  lemma LostGroupValid()
    ensures ValidateInput("(B)A(C)") == Pass
  {
    var s := "(B)A(C)";
    assert forall j | 0 <= j < |s| :: !CloseOpen(s, j);
    NoCloseOpenValid(s);
    assert !Blank(s);
    assert BalanceScan(s, 0);
    assert CommaScan(s, 0);
    BalanceScanSpec(s, 0);
    CommaScanSpec(s, 0);
  }

  /** The steps both modes share: B is read as the first group, A as the
      name, and C as the next group, which ends the input. */
  lemma LostGroupSteps(mode: Mode)
    ensures var s := "(B)A(C)";
            && BuildTree(mode, s, None, Nil, 1) == Success((Node(Some("B"), Nil, Nil), 3))
            && BuildTree(mode, s, None, Nil, 5) == Success((Node(Some("C"), Nil, Nil), 7))
            && BuildTree(mode, s, None, Nil, 0) == BuildTree(mode, s, Some("A"), Node(Some("B"), Nil, Nil), 4)
            && BuildTree(mode, s, None, Nil, 0)
               == (if mode == AsWritten then Success((Node(Some("A"), Node(Some("C"), Nil, Nil), Nil), 7))
                   else Failure(SecondGroup))
  {
    assert Append(None, 'B') == "B" && Append(None, 'C') == "C" && Append(None, 'A') == "A";
  }

  lemma LostGroupLetters()
    ensures Letters("(B)A(C)") == "BAC"
  {
    assert Letters(")") == "";
    assert ("C)")[1..] == ")";
    assert Letters("C)") == "C";
    assert ("(C)")[1..] == "C)";
    assert Letters("(C)") == "C";
    assert ("A(C)")[1..] == "(C)";
    assert Letters("A(C)") == "AC";
    assert (")A(C)")[1..] == "A(C)";
    assert Letters(")A(C)") == "AC";
    assert ("B)A(C)")[1..] == ")A(C)";
    assert Letters("B)A(C)") == "BAC";
    assert ("(B)A(C)")[1..] == "B)A(C)";
  }

  /** A successful build keeps every letter it read: the names of the node it
      returns hold its own name, its child's names and the letters it
      consumed, and nothing else. */
  ghost predicate Keeps(s: string, name: Option<string>, child: Node, pos: nat)
    requires pos <= |s|
  {
    var r := BuildTree(SingleGroup, s, name, child, pos);
    r.Success? ==>
      multiset(NameChars(r.value.0))
      == multiset(NameOf(name)) + multiset(NameChars(child)) + multiset(Letters(s[pos..r.value.1]))
  }

  /** With a second group rejected, every build keeps its letters. */
  lemma {:induction false} BuildKeepsLetters(s: string, name: Option<string>, child: Node, pos: nat)
    requires pos <= |s|
    ensures Keeps(s, name, child, pos)
    decreases |s| - pos
  {
    if pos == |s| || s[pos] == ')' {
      EndKeeps(s, name, child, pos);
    } else if s[pos] == '(' {
      BuildKeepsLetters(s, None, Nil, pos + 1);
      var inner := BuildTree(SingleGroup, s, None, Nil, pos + 1);
      if inner.Success? {
        BuildKeepsLetters(s, name, inner.value.0, inner.value.1);
      }
      OpenKeeps(s, name, child, pos);
    } else if s[pos] == ',' {
      BuildKeepsLetters(s, None, Nil, pos + 1);
      CommaKeeps(s, name, child, pos);
    } else {
      BuildKeepsLetters(s, Some(Append(name, s[pos])), child, pos + 1);
      CharKeeps(s, name, child, pos);
    }
  }

  lemma EndKeeps(s: string, name: Option<string>, child: Node, pos: nat)
    requires pos == |s| || (pos < |s| && s[pos] == ')')
    ensures Keeps(s, name, child, pos)
  {
    var r := BuildTree(SingleGroup, s, name, child, pos);
    if r.Success? {
      LoneNames(name, child);
      if pos == |s| {
        assert s[pos..r.value.1] == [];
      } else {
        assert s[pos..r.value.1] == [')'];
      }
    }
  }

  lemma OpenKeeps(s: string, name: Option<string>, child: Node, pos: nat)
    requires pos < |s| && s[pos] == '('
    requires Keeps(s, None, Nil, pos + 1)
    requires var inner := BuildTree(SingleGroup, s, None, Nil, pos + 1);
             inner.Success? ==> Keeps(s, name, inner.value.0, inner.value.1)
    ensures Keeps(s, name, child, pos)
  {
    var r := BuildTree(SingleGroup, s, name, child, pos);
    if r.Success? {
      var (first, after1) := BuildTree(SingleGroup, s, None, Nil, pos + 1).value;
      assert child.Nil? && r == BuildTree(SingleGroup, s, name, first, after1);
      var after := r.value.1;
      GroupLetters(s, pos, after1, after);
      Regroup(multiset(NameChars(r.value.0)), multiset(NameOf(name)), multiset(NameChars(first)),
              multiset(Letters(s[pos + 1..after1])), multiset(Letters(s[after1..after])),
              multiset(Letters(s[pos..after])));
    }
  }

  /** The multiset arithmetic of a '(' step. */
  lemma Regroup(t: multiset<char>, n: multiset<char>, f: multiset<char>, a: multiset<char>, b: multiset<char>, all: multiset<char>)
    requires f == multiset{} + multiset{} + a && t == n + f + b && all == a + b
    ensures t == n + multiset{} + all
  {
  }

  lemma CommaKeeps(s: string, name: Option<string>, child: Node, pos: nat)
    requires pos < |s| && s[pos] == ','
    requires Keeps(s, None, Nil, pos + 1)
    ensures Keeps(s, name, child, pos)
  {
    var r := BuildTree(SingleGroup, s, name, child, pos);
    if r.Success? {
      LeadLetters(s, pos, r.value.1);
    }
  }

  lemma CharKeeps(s: string, name: Option<string>, child: Node, pos: nat)
    requires pos < |s| && !Delimiter(s[pos])
    requires Keeps(s, Some(Append(name, s[pos])), child, pos + 1)
    ensures Keeps(s, name, child, pos)
  {
    var c := s[pos];
    var r := BuildTree(SingleGroup, s, Some(Append(name, c)), child, pos + 1);
    assert BuildTree(SingleGroup, s, name, child, pos) == r;
    if r.Success? {
      var after := r.value.1;
      LeadLetters(s, pos, after);
      Shift(multiset(NameChars(r.value.0)), multiset(NameOf(name)), multiset{c}, multiset(NameChars(child)),
            multiset(Letters(s[pos + 1..after])), multiset(Letters(s[pos..after])));
    }
  }

  /** The multiset arithmetic of a name character: it moves from the
      letters read to the name. */
  lemma Shift(t: multiset<char>, n: multiset<char>, c: multiset<char>, k: multiset<char>, rest: multiset<char>, all: multiset<char>)
    requires t == (n + c) + k + rest && all == c + rest
    ensures t == n + k + all
  {
  }

  lemma LoneNames(name: Option<string>, child: Node)
    ensures multiset(NameChars(Node(name, child, Nil))) == multiset(NameOf(name)) + multiset(NameChars(child))
  {
    assert NameChars(Node(name, child, Nil)) == NameOf(name) + NameChars(child) + [];
  }

  lemma LettersSplit(s: string, a: int, b: int, c: int)
    requires 0 <= a <= b <= c <= |s|
    ensures Letters(s[a..c]) == Letters(s[a..b]) + Letters(s[b..c])
  {
    assert s[a..c] == s[a..b] + s[b..c];
    LettersConcat(s[a..b], s[b..c]);
  }

  lemma LeadLetters(s: string, pos: int, after: int)
    requires 0 <= pos < after <= |s|
    ensures Letters(s[pos..after]) == (if Delimiter(s[pos]) then [] else [s[pos]]) + Letters(s[pos + 1..after])
  {
    LettersSplit(s, pos, pos + 1, after);
    assert s[pos..pos + 1] == [s[pos]];
  }

  lemma GroupLetters(s: string, pos: int, after1: int, after: int)
    requires 0 <= pos < |s| && s[pos] == '('
    requires pos + 1 <= after1 <= after <= |s|
    ensures multiset(Letters(s[pos..after])) == multiset(Letters(s[pos + 1..after1])) + multiset(Letters(s[after1..after]))
  {
    LeadLetters(s, pos, after);
    LettersSplit(s, pos + 1, after1, after);
  }

  /** With a second group rejected, a successful parse keeps every letter of
      the input: the names of the tree hold exactly the input's characters
      other than delimiters. */
  lemma ParseKeepsLetters(s: string)
    requires ParsePostfix(SingleGroup, s).Success?
    ensures multiset(NameChars(ParsePostfix(SingleGroup, s).value)) == multiset(Letters(s))
  {
    var (root, after) := BuildTree(SingleGroup, s, None, Nil, 0).value;
    BuildConsumes(SingleGroup, s, None, Nil, 0);
    ReadsAll(s, root, after);
    BuildKeepsLetters(s, None, Nil, 0);
    assert s[0..|s|] == s;
  }
}
