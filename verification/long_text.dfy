/** The text handling h3/src/LongStack.java relies on: Java's `long`,
    `Long.toString`, `Long.parseLong`, `String.trim` and `split("\\s+")`. */
module LongText {
  import opened Wrappers

  const MIN64: int := -0x8000_0000_0000_0000
  const MAX64: int := 0x7FFF_FFFF_FFFF_FFFF

  /** A Java `long`. */
  type int64 = x: int | MIN64 <= x <= MAX64

  // ----- decimal numerals -----

  predicate IsDigit(c: char)
  {
    '0' <= c <= '9'
  }

  function DigitChar(d: nat): (c: char)
    requires d < 10
    ensures IsDigit(c)
  {
    ['0', '1', '2', '3', '4', '5', '6', '7', '8', '9'][d]
  }

  function DigitValue(c: char): (d: nat)
    requires IsDigit(c)
    ensures d < 10
  {
    (c as int - '0' as int)
  }

  predicate AllDigits(s: string)
  {
    forall k | 0 <= k < |s| :: IsDigit(s[k])
  }

  /** The value of a decimal numeral, most significant digit first. */
  function NumeralValue(s: string): nat
    requires AllDigits(s)
  {
    if s == [] then 0 else 10 * NumeralValue(s[..|s| - 1]) + DigitValue(s[|s| - 1])
  }

  /** The decimal numeral of `n` without leading zeros. */
  function Numeral(n: nat): (s: string)
    ensures s != [] && AllDigits(s)
  {
    if n < 10 then [DigitChar(n)] else Numeral(n / 10) + [DigitChar(n % 10)]
  }

  /** `Long.toString(x)`: an optional minus sign, then the numeral of `|x|`. */
  function LongToString(x: int64): (s: string)
  {
    if x < 0 then "-" + Numeral(-(x as int)) else Numeral(x)
  }

  /** `Long.parseLong(s)`: an optional `+` or `-`, one or more ASCII digits,
      and a value that fits a `long`; anything else is a `NumberFormatException`,
      here `None`. */
  function ParseLong(s: string): (r: Option<int64>)
    ensures r.Some? <==> IsNumeral(s) && MIN64 <= SignedValue(s) <= MAX64
    ensures r.Some? ==> r.value == SignedValue(s)
  {
    if s == [] then None
    else
      var negative := s[0] == '-';
      var digits := if s[0] == '-' || s[0] == '+' then s[1..] else s;
      if digits == [] || !AllDigits(digits) then None
      else
        var v: int := if negative then -(NumeralValue(digits) as int) else NumeralValue(digits);
        if MIN64 <= v <= MAX64 then Some(v) else None
  }

  /** An optional sign followed by at least one digit. */
  predicate IsNumeral(s: string)
  {
    |s| >= 1 && AllDigits(s[1..]) && (IsDigit(s[0]) || (|s| >= 2 && (s[0] == '-' || s[0] == '+')))
  }

  /** The value of a signed numeral. */
  function SignedValue(s: string): int
    requires IsNumeral(s)
  {
    if s[0] == '-' then -(NumeralValue(s[1..]) as int)
    else if s[0] == '+' then NumeralValue(s[1..])
    else NumeralValue(s)
  }

  lemma {:induction false} NumeralRoundTrip(n: nat)
    ensures NumeralValue(Numeral(n)) == n
  {
    if n >= 10 {
      var s := Numeral(n);
      NumeralRoundTrip(n / 10);
      assert s[..|s| - 1] == Numeral(n / 10);
    }
  }

  /** `Long.parseLong` reads back what `Long.toString` prints. */
  lemma ParseLongToString(x: int64)
    ensures ParseLong(LongToString(x)) == Some(x)
  {
    if x < 0 {
      NegativeParses(x);
    } else {
      NaturalParses(x);
    }
  }

  lemma NegativeParses(x: int64)
    requires x < 0
    ensures ParseLong(LongToString(x)) == Some(x)
  {
    var n: nat := -(x as int);
    var s, num := LongToString(x), Numeral(n);
    assert s[0] == '-' && s[1..] == num;
    assert NumeralValue(num) == n by {
      NumeralRoundTrip(n);
    }
  }

  lemma NaturalParses(x: int64)
    requires x >= 0
    ensures ParseLong(LongToString(x)) == Some(x)
  {
    var s, num := LongToString(x), Numeral(x);
    NumeralRoundTrip(x);
    assert s == num && IsDigit(num[0]);
  }

  // ----- whitespace -----

  /** A character of the regular-expression class `\s`. */
  predicate IsSpace(c: char)
  {
    c == ' ' || c == '\t' || c == '\n' || c == '\U{B}' || c == '\U{C}' || c == '\r'
  }

  /** `String.trim`: drop every leading and trailing character whose code is
      at most that of the space. The result is the slice of the input that
      starts after the `LeadingBlanks(s)` characters cut off in front;
      everything cut off on either side is at most a space, and what is kept
      starts and ends above it. */
  function Trim(s: string): (t: string)
    ensures LeadingBlanks(s) + |t| <= |s|
    ensures t == s[LeadingBlanks(s)..LeadingBlanks(s) + |t|]
    ensures forall k | 0 <= k < LeadingBlanks(s) :: s[k] <= ' '
    ensures forall k | LeadingBlanks(s) + |t| <= k < |s| :: s[k] <= ' '
    ensures t != [] ==> t[0] > ' ' && t[|t| - 1] > ' '
    ensures s != [] && s[0] > ' ' && s[|s| - 1] > ' ' ==> t == s
  {
    var i := LeadingBlanks(s);
    s[i..KeptEnd(s, i, |s|)]
  }

  /** The number of characters at most a space at the front of `s`. */
  function LeadingBlanks(s: string): (n: nat)
    ensures n <= |s|
    ensures forall k | 0 <= k < n :: s[k] <= ' '
    ensures n < |s| ==> s[n] > ' '
  {
    if s == [] || s[0] > ' ' then 0 else 1 + LeadingBlanks(s[1..])
  }

  /** The end of what `trim` keeps from `s[i..j]`: everything from it to `j`
      is at most a space, and the character before it, when there is one
      after `i`, is above a space. */
  function KeptEnd(s: string, i: nat, j: nat): (n: nat)
    requires i <= j <= |s|
    ensures i <= n <= j
    ensures forall k | n <= k < j :: s[k] <= ' '
    ensures i < n ==> s[n - 1] > ' '
    ensures i < j && s[j - 1] > ' ' ==> n == j
    decreases j
  {
    if j == i || s[j - 1] > ' ' then j else KeptEnd(s, i, j - 1)
  }

  /** The length of the run of non-space characters `s` starts with. */
  function WordLength(s: string): (n: nat)
    ensures n <= |s|
    ensures forall k | 0 <= k < n :: !IsSpace(s[k])
    ensures n < |s| ==> IsSpace(s[n])
  {
    if s == [] || IsSpace(s[0]) then 0 else 1 + WordLength(s[1..])
  }

  /** The tokens of `s.split("\\s+")` that `interpret` does not skip: the
      maximal runs of non-space characters, in order. */
  function Words(s: string): (w: seq<string>)
    ensures forall k | 0 <= k < |w| :: w[k] != [] && NoSpace(w[k])
    decreases |s|
  {
    if s == [] then []
    else if IsSpace(s[0]) then Words(s[1..])
    else
      var n := WordLength(s);
      [s[..n]] + Words(s[n..])
  }

  predicate NoSpace(s: string)
  {
    forall k | 0 <= k < |s| :: !IsSpace(s[k])
  }

  /** The words joined by single spaces. */
  function Join(words: seq<string>): string
  {
    if words == [] then ""
    else if |words| == 1 then words[0]
    else words[0] + " " + Join(words[1..])
  }

  /** Every whitespace character of `s` is a single space standing between
      two other characters: no leading, trailing, repeated or non-space
      whitespace. */
  predicate SingleSpaced(s: string)
  {
    forall k | 0 <= k < |s| :: IsSpace(s[k]) ==>
      s[k] == ' ' && 0 < k < |s| - 1 && !IsSpace(s[k - 1]) && !IsSpace(s[k + 1])
  }

  /** Joining non-empty words without whitespace gives a single-spaced string
      that starts and ends with a character of a word. */
  lemma {:induction false} JoinLayout(words: seq<string>)
    requires |words| >= 1
    requires forall k | 0 <= k < |words| :: words[k] != [] && NoSpace(words[k])
    ensures var s := Join(words);
            s != [] && !IsSpace(s[0]) && !IsSpace(s[|s| - 1]) && SingleSpaced(s)
  {
    var w := words[0];
    if |words| == 1 {
      assert Join(words) == w;
    } else {
      var t := Join(words[1..]);
      JoinLayout(words[1..]);
      var s := w + " " + t;
      assert Join(words) == s;
      forall k | 0 <= k < |s| && IsSpace(s[k])
        ensures s[k] == ' ' && 0 < k < |s| - 1 && !IsSpace(s[k - 1]) && !IsSpace(s[k + 1])
      {
        if k == |w| {
          assert s[k - 1] == w[|w| - 1] && s[k + 1] == t[0];
        } else if k > |w| {
          var j := k - |w| - 1;
          assert s[k] == t[j];
          assert s[k - 1] == (if j == 0 then ' ' else t[j - 1]);
          assert j + 1 < |t|;
          assert s[k + 1] == t[j + 1];
        }
      }
      assert s[0] == w[0] && s[|s| - 1] == t[|t| - 1];
    }
  }

  /** A single-spaced string is its words joined by single spaces, so its
      words fix it. */
  lemma {:induction false} SpacedIsJoin(s: string)
    requires SingleSpaced(s)
    ensures s == Join(Words(s))
    decreases |s|
  {
    if s != [] {
      assert !IsSpace(s[0]);
      var n := WordLength(s);
      if n == |s| {
        assert s[..n] == s && s[n..] == [];
      } else {
        var rest := s[n + 1..];
        assert s[n] == ' ' && n < |s| - 1 && !IsSpace(s[n + 1]);
        forall k | 0 <= k < |rest| && IsSpace(rest[k])
          ensures rest[k] == ' ' && 0 < k < |rest| - 1 && !IsSpace(rest[k - 1]) && !IsSpace(rest[k + 1])
        {
          assert rest[k] == s[n + 1 + k];
          assert k > 0;
          assert rest[k - 1] == s[n + k] && rest[k + 1] == s[n + 2 + k];
        }
        SpacedIsJoin(rest);
        assert s[n..][1..] == rest;
        assert Words(s[n..]) == Words(rest);
        assert Words(rest) != [] by {
          assert rest[0] == s[n + 1];
        }
        assert s == s[..n] + " " + rest;
      }
    }
  }

  /** Splitting undoes joining when no word is empty or holds a space. */
  lemma {:induction false} WordsJoin(words: seq<string>)
    requires forall k | 0 <= k < |words| :: words[k] != [] && NoSpace(words[k])
    ensures Words(Join(words)) == words
  {
    if |words| == 1 {
      WordAlone(words[0], "");
      assert words[0] + "" == words[0];
      assert words[0][|words[0]|..] == [];
    } else if |words| > 1 {
      var w, rest := words[0], Join(words[1..]);
      var s := w + " " + rest;
      assert Join(words) == s;
      WordAlone(w, " " + rest);
      assert s[..|w|] == w;
      assert s[|w|..] == " " + rest;
      assert (" " + rest)[1..] == rest;
      WordsJoin(words[1..]);
      assert words == [w] + words[1..];
    }
  }

  /** A single word is read as itself. */
  lemma WordsOfWord(w: string)
    requires w != [] && NoSpace(w)
    ensures Words(w) == [w]
  {
    WordsJoin([w]);
  }

  /** A whitespace character separates the words before it from those after
      it: `Words` is the list of maximal runs of non-space characters. */
  lemma {:induction false} WordsSplit(a: string, c: char, b: string)
    requires IsSpace(c)
    ensures Words(a + [c] + b) == Words(a) + Words(b)
    decreases |a|
  {
    var s := a + [c] + b;
    if a == [] {
      assert s[1..] == b;
    } else if IsSpace(a[0]) {
      assert s[1..] == a[1..] + [c] + b;
      WordsSplit(a[1..], c, b);
    } else {
      var m := WordLength(a);
      WordLengthExtends(a, [c] + b);
      assert s == a + ([c] + b);
      assert s[..m] == a[..m];
      assert s[m..] == a[m..] + [c] + b;
      WordsSplit(a[m..], c, b);
      assert s[0] == a[0];
      assert Words(s) == [a[..m]] + Words(s[m..]);
      assert Words(a) == [a[..m]] + Words(a[m..]);
    }
  }

  /** The first word of `a` is also the first word of `a + tail` when it ends
      inside `a` or `tail` starts with whitespace. */
  lemma {:induction false} WordLengthExtends(a: string, tail: string)
    requires WordLength(a) < |a| || (tail != [] && IsSpace(tail[0]))
    ensures WordLength(a + tail) == WordLength(a)
    decreases |a|
  {
    if a != [] && !IsSpace(a[0]) {
      assert (a + tail)[1..] == a[1..] + tail;
      WordLengthExtends(a[1..], tail);
    }
  }

  /** A word followed by nothing or by a space is read whole. */
  lemma {:induction false} WordAlone(w: string, tail: string)
    requires w != [] && NoSpace(w)
    requires tail == [] || IsSpace(tail[0])
    ensures WordLength(w + tail) == |w|
    decreases |w|
  {
    if |w| > 1 {
      assert (w + tail)[1..] == w[1..] + tail;
      WordAlone(w[1..], tail);
    } else {
      assert (w + tail)[1..] == tail;
    }
  }

  /** The printed form of a `long` is one word. */
  lemma LongToStringIsWord(x: int64)
    ensures LongToString(x) != [] && NoSpace(LongToString(x))
    ensures LongToString(x)[0] > ' ' && LongToString(x)[|LongToString(x)| - 1] > ' '
  {
    var n: nat := if x < 0 then -(x as int) else x;
    assert AllDigits(Numeral(n));
  }
}
