/** The first-child/next-sibling tree of h5/src/Node.java and its two printed
    forms: the left parenthetic representation the source prints, and the
    postfix form `parsePostfix` reads. */
module NodeTree {
  import opened Wrappers

  /** A node: a name (null until the parser reads its first character), the
      first child and the next sibling; a null reference is `Nil`. */
  datatype Node = Nil | Node(name: Option<string>, firstChild: Node, nextSibling: Node)

  /** The characters the parser treats as structure rather than as names. */
  predicate Delimiter(c: char)
  {
    c == '(' || c == ')' || c == ','
  }

  /** A character a name in accepted input can hold: no delimiter, and
      above the space, since the input checks reject everything `trim`
      removes. */
  predicate NameChar(c: char)
  {
    !Delimiter(c) && c > ' '
  }

  predicate ValidName(w: string)
  {
    w != [] && forall k | 0 <= k < |w| :: NameChar(w[k])
  }

  /** Every node of the tree, siblings and children included, has a non-null
      name made of name characters. */
  predicate Named(t: Node)
    decreases t
  {
    t.Node? ==> t.name.Some? && ValidName(t.name.value) && Named(t.firstChild) && Named(t.nextSibling)
  }

  /** A tree `parsePostfix` can return: a named root without siblings. */
  predicate WellFormed(t: Node)
  {
    t.Node? && Named(t) && t.nextSibling.Nil?
  }

  /** What `StringBuilder.append` writes for a name: "null" for a null one. */
  function NameText(n: Option<string>): string
  {
    if n.Some? then n.value else "null"
  }

  /** The characters a name holds; a null name holds none. */
  function NameOf(n: Option<string>): string
  {
    if n.Some? then n.value else []
  }

  /** The names of the tree in pre-order: a node, its children, its siblings. */
  function NameChars(t: Node): string
    decreases t
  {
    if t.Nil? then [] else NameOf(t.name) + NameChars(t.firstChild) + NameChars(t.nextSibling)
  }

  /** `leftParentheticRepresentation` / `buildParentheticRepresentation`: the
      name, then the children in parentheses if there is a first child, then a
      comma and the siblings if there is a next sibling. */
  function Parenthetic(t: Node): (s: string)
    requires t.Node?
    decreases t
  {
    NameText(t.name)
    + (if t.firstChild.Nil? then "" else "(" + Parenthetic(t.firstChild) + ")")
    + (if t.nextSibling.Nil? then "" else "," + Parenthetic(t.nextSibling))
  }

  /** The postfix form `parsePostfix` reads: the children in parentheses
      before the name, then a comma and the siblings. */
  function Postfix(t: Node): (s: string)
    requires t.Node?
    decreases t
  {
    (if t.firstChild.Nil? then "" else "(" + Postfix(t.firstChild) + ")")
    + NameText(t.name)
    + (if t.nextSibling.Nil? then "" else "," + Postfix(t.nextSibling))
  }

  /** The non-delimiter characters of `s`, in order. */
  function Letters(s: string): string
  {
    if s == [] then []
    else (if Delimiter(s[0]) then [] else [s[0]]) + Letters(s[1..])
  }

  // ----- properties -----

  lemma {:induction false} LettersConcat(a: string, b: string)
    ensures Letters(a + b) == Letters(a) + Letters(b)
  {
    if a != [] {
      assert (a + b)[0] == a[0] && (a + b)[1..] == a[1..] + b;
      LettersConcat(a[1..], b);
    } else {
      assert a + b == b;
    }
  }

  /** A string without delimiters is all letters. */
  lemma {:induction false} LettersOfName(w: string)
    requires forall k | 0 <= k < |w| :: !Delimiter(w[k])
    ensures Letters(w) == w
  {
    if w != [] {
      LettersOfName(w[1..]);
    }
  }

  /** Delimiters around a string add no letters. */
  lemma LettersWrapped(open: string, x: string, close: string)
    requires |open| <= 1 && |close| <= 1
    requires forall k | 0 <= k < |open| :: Delimiter(open[k])
    requires forall k | 0 <= k < |close| :: Delimiter(close[k])
    ensures Letters(open + x + close) == Letters(x)
  {
    LettersConcat(open + x, close);
    LettersConcat(open, x);
  }

  /** The printed form keeps every name, in pre-order, and adds nothing but
      delimiters. */
  lemma {:induction false} ParentheticLetters(t: Node)
    requires t.Node? && Named(t)
    ensures Letters(Parenthetic(t)) == NameChars(t)
    decreases t
  {
    var g := if t.firstChild.Nil? then "" else "(" + Parenthetic(t.firstChild) + ")";
    var s := if t.nextSibling.Nil? then "" else "," + Parenthetic(t.nextSibling);
    if t.firstChild.Node? {
      ParentheticLetters(t.firstChild);
      LettersWrapped("(", Parenthetic(t.firstChild), ")");
    }
    if t.nextSibling.Node? {
      ParentheticLetters(t.nextSibling);
      LettersWrapped(",", Parenthetic(t.nextSibling), "");
      assert "," + Parenthetic(t.nextSibling) + "" == s;
    }
    JoinLetters(t.name.value, g, s, NameChars(t.firstChild), NameChars(t.nextSibling));
  }

  lemma JoinLetters(name: string, g: string, s: string, x: string, y: string)
    requires ValidName(name) && Letters(g) == x && Letters(s) == y
    ensures Letters(name + g + s) == name + x + y
  {
    LettersOfName(name);
    LettersConcat(name + g, s);
    LettersConcat(name, g);
  }

  /** The tree of the source's own example, A(B1,C). */
  function ExampleTree(): Node
  {
    Node(Some("A"), Node(Some("B1"), Nil, Node(Some("C"), Nil, Nil)), Nil)
  }

  /** The example tree prints as "A(B1,C)" and reads from "(B1,C)A". */
  lemma ExampleForms()
    ensures WellFormed(ExampleTree())
    ensures Parenthetic(ExampleTree()) == "A(B1,C)"
    ensures Postfix(ExampleTree()) == "(B1,C)A"
  {
  }
}
