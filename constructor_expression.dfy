/**
  Detection of a JPQL constructor expression (`SELECT NEW Dto(...)`, section
  4.8 of the Java Persistence 2.1 specification): the keyword SELECT followed
  by whitespace, later the keyword NEW preceded and followed by whitespace,
  a class name, optional whitespace and a parenthesised argument list. The
  parentheses are required: `select new Dto from A a` is not one.
 */
module ConstructorExpression {

  import opened Lexical

  /** A character of a (qualified) class name. */
  predicate IsIdentChar(c: char) {
    IsWordChar(c) || c == '.' || c == '$'
  }

  predicate AllIdentChars(s: string) {
    forall i :: 0 <= i < |s| ==> IsIdentChar(s[i])
  }

  /** `keyword` occurs at index `k` of `s`, in any letter case. */
  predicate KeywordAt(s: string, k: nat, keyword: string) {
    k + |keyword| <= |s| && EqualsIgnoreCase(s[k..k + |keyword|], keyword)
  }

  /** SELECT at index `a`, followed by a whitespace character. */
  predicate SelectAt(s: string, a: nat) {
    KeywordAt(s, a, "select") && a + 6 < |s| && IsWhitespace(s[a + 6])
  }

  predicate NewAt(s: string, b: nat) {
    KeywordAt(s, b, "new")
  }

  /* ---------------------------------------------------------------- specification */

  /** A SELECT and the whitespace after it end at or before index `i`. */
  ghost predicate SelectedBy(s: string, i: nat) {
    exists a :: 0 <= a && a + 7 <= i && SelectAt(s, a)
  }

  /** From index `k` of `s`: `c` whitespace characters, `(` and, somewhere after it, `)`. */
  predicate ArgumentsAt(s: string, k: nat, c: nat) {
    k + c < |s| && RunOf(s, k, k + c, IsWhitespace) && s[k + c] == '(' && ')' in s[k + c + 1..]
  }

  /** An argument list starts at index `k`: optional whitespace, `(` and later `)`. */
  ghost predicate ArgumentList(s: string, k: nat) {
    exists c: nat :: ArgumentsAt(s, k, c)
  }

  /** From index `k`: a class name of `q` characters, then an argument list. */
  ghost predicate CallAt(s: string, k: nat, q: nat) {
    0 < q && RunOf(s, k, k + q, IsIdentChar) && ArgumentList(s, k + q)
  }

  /** A constructor call (class name and argument list) starts at index `k`. */
  ghost predicate ConstructorCall(s: string, k: nat) {
    exists q: nat :: CallAt(s, k, q)
  }

  /** From index `k`: `p` whitespace characters, then a constructor call. */
  ghost predicate TailAt(s: string, k: nat, p: nat) {
    0 < p && RunOf(s, k, k + p, IsWhitespace) && ConstructorCall(s, k + p)
  }

  /** What follows NEW, from index `k`: whitespace, then a constructor call. */
  ghost predicate ConstructorTail(s: string, k: nat) {
    exists p: nat :: TailAt(s, k, p)
  }

  /** NEW at index `b`, after a SELECT and whitespace, and followed by a constructor call. */
  ghost predicate ConstructorAt(s: string, b: nat) {
    0 < b && NewAt(s, b) && SelectedBy(s, b) && IsWhitespace(s[b - 1]) && ConstructorTail(s, b + 3)
  }

  ghost predicate IsConstructorExpression(s: string) {
    exists b :: ConstructorAt(s, b)
  }

  /* ---------------------------------------------------------------- detector */

  /**
    Whether the text from index `k` on (what follows NEW) is a constructor
    call. The three character classes involved (whitespace, name characters,
    `(`) are disjoint, so each run is read greedily.
   */
  function TailMatches(s: string, k: nat): bool
    requires k <= |s|
  {
    var p := SpanFrom(s, k, IsWhitespace);
    0 < p && CallMatches(s, k + p)
  }

  function CallMatches(s: string, k: nat): bool
    requires k <= |s|
  {
    var q := SpanFrom(s, k, IsIdentChar);
    0 < q && ArgumentsMatch(s, k + q)
  }

  function ArgumentsMatch(s: string, k: nat): bool
    requires k <= |s|
  {
    var c := SpanFrom(s, k, IsWhitespace);
    k + c < |s| && s[k + c] == '(' && ContainsFrom(s, k + c + 1, ')')
  }

  /** A NEW at index `i`, after whitespace and a SELECT, with a constructor call after it. */
  predicate CandidateAt(s: string, i: nat, selected: bool) {
    selected && 0 < i && NewAt(s, i) && IsWhitespace(s[i - 1]) && TailMatches(s, i + 3)
  }

  /**
    Scans from index `i` for a NEW that completes a constructor expression;
    `selected` records whether a SELECT with its whitespace ends by `i`.
   */
  function DetectFrom(s: string, i: nat, selected: bool): bool
    decreases |s| - i
  {
    if i >= |s| then false
    else if CandidateAt(s, i, selected) then true
    else DetectFrom(s, i + 1, selected || (i >= 6 && SelectAt(s, i - 6)))
  }

  function HasConstructorExpression(s: string): bool {
    DetectFrom(s, 0, false)
  }

  /* ---------------------------------------------------------------- properties */

  /** An argument list starts with whitespace or `(`, never with a name character. */
  lemma ArgumentListStart(s: string, k: nat)
    requires ArgumentList(s, k)
    ensures k < |s| && !IsIdentChar(s[k])
  {
    var c: nat :| ArgumentsAt(s, k, c);
  }

  /** A constructor call starts with a name character, which is not whitespace. */
  lemma ConstructorCallStart(s: string, k: nat)
    requires ConstructorCall(s, k)
    ensures k < |s| && IsIdentChar(s[k]) && !IsWhitespace(s[k])
  {
    var q: nat :| CallAt(s, k, q);
  }

  lemma ArgumentsMatchComplete(s: string, k: nat)
    requires k <= |s| && ArgumentList(s, k)
    ensures ArgumentsMatch(s, k)
  {
    var c: nat :| ArgumentsAt(s, k, c);
    SpanFromRun(s, k, c, IsWhitespace);
    ContainsFromIff(s, k + c + 1, ')');
  }

  lemma CallMatchesAfterName(s: string, k: nat, q: nat)
    requires k <= |s| && 0 < q && SpanFrom(s, k, IsIdentChar) == q && ArgumentsMatch(s, k + q)
    ensures CallMatches(s, k)
  {
  }

  lemma CallMatchesComplete(s: string, k: nat)
    requires k <= |s| && ConstructorCall(s, k)
    ensures CallMatches(s, k)
  {
    var q: nat :| CallAt(s, k, q);
    ArgumentListStart(s, k + q);
    SpanFromRun(s, k, q, IsIdentChar);
    ArgumentsMatchComplete(s, k + q);
    CallMatchesAfterName(s, k, q);
  }

  lemma TailMatchesAfterGap(s: string, k: nat, p: nat)
    requires k <= |s| && 0 < p && SpanFrom(s, k, IsWhitespace) == p && CallMatches(s, k + p)
    ensures TailMatches(s, k)
  {
  }

  lemma TailMatchesComplete(s: string, k: nat)
    requires k <= |s| && ConstructorTail(s, k)
    ensures TailMatches(s, k)
  {
    var p: nat :| TailAt(s, k, p);
    ConstructorCallStart(s, k + p);
    SpanFromRun(s, k, p, IsWhitespace);
    CallMatchesComplete(s, k + p);
    TailMatchesAfterGap(s, k, p);
  }

  lemma ArgumentsMatchSound(s: string, k: nat)
    requires k <= |s| && ArgumentsMatch(s, k)
    ensures ArgumentList(s, k)
  {
    var c := SpanFrom(s, k, IsWhitespace);
    ContainsFromIff(s, k + c + 1, ')');
    assert ArgumentsAt(s, k, c);
  }

  lemma CallMatchesSound(s: string, k: nat)
    requires k <= |s| && CallMatches(s, k)
    ensures ConstructorCall(s, k)
  {
    var q := SpanFrom(s, k, IsIdentChar);
    ArgumentsMatchSound(s, k + q);
    assert CallAt(s, k, q);
  }

  lemma TailMatchesSound(s: string, k: nat)
    requires k <= |s| && TailMatches(s, k)
    ensures ConstructorTail(s, k)
  {
    var p := SpanFrom(s, k, IsWhitespace);
    CallMatchesSound(s, k + p);
    assert TailAt(s, k, p);
  }

  /** The greedy reading of the text after NEW agrees with its definition. */
  lemma TailMatchesIff(s: string, k: nat)
    requires k <= |s|
    ensures TailMatches(s, k) <==> ConstructorTail(s, k)
  {
    if TailMatches(s, k) {
      TailMatchesSound(s, k);
    }
    if ConstructorTail(s, k) {
      TailMatchesComplete(s, k);
    }
  }

  lemma SelectedByStep(s: string, i: nat)
    ensures SelectedBy(s, i + 1) <==> SelectedBy(s, i) || (i >= 6 && SelectAt(s, i - 6))
  {
    if SelectedBy(s, i + 1) && !SelectedBy(s, i) {
      var a :| 0 <= a && a + 7 <= i + 1 && SelectAt(s, a);
      assert a == i - 6;
    }
  }

  /** The flag the detector carries to index `i + 1`. */
  lemma NextSelected(s: string, i: nat, selected: bool, next: bool)
    requires selected == SelectedBy(s, i) && next == (selected || (i >= 6 && SelectAt(s, i - 6)))
    ensures next == SelectedBy(s, i + 1)
  {
    SelectedByStep(s, i);
  }

  /** Some NEW at index `i` or later completes a constructor expression. */
  ghost predicate ConstructorFrom(s: string, i: nat) {
    exists b :: i <= b && ConstructorAt(s, b)
  }

  lemma ConstructorFromStep(s: string, i: nat)
    ensures ConstructorFrom(s, i) <==> ConstructorAt(s, i) || ConstructorFrom(s, i + 1)
  {
    if ConstructorFrom(s, i) && !ConstructorAt(s, i) {
      var b :| i <= b && ConstructorAt(s, b);
      assert i + 1 <= b;
    }
  }

  /** The check the detector makes at index `i` is the specification's. */
  lemma DetectAtIff(s: string, i: nat, selected: bool)
    requires i < |s| && selected == SelectedBy(s, i)
    ensures ConstructorAt(s, i) <==> CandidateAt(s, i, selected)
  {
    if 0 < i && NewAt(s, i) {
      TailMatchesIff(s, i + 3);
    }
  }

  /** A constructor expression the detector reports from index `i` on is one. */
  lemma {:induction false} DetectFromSound(s: string, i: nat, selected: bool)
    requires selected == SelectedBy(s, i)
    ensures DetectFrom(s, i, selected) ==> ConstructorFrom(s, i)
    decreases |s| - i
  {
    if i < |s| {
      var next := selected || (i >= 6 && SelectAt(s, i - 6));
      SelectedByStep(s, i);
      DetectFromSound(s, i + 1, next);
      if CandidateAt(s, i, selected) {
        DetectAtIff(s, i, selected);
        assert ConstructorAt(s, i);
      } else if DetectFrom(s, i + 1, next) {
        var b :| i + 1 <= b && ConstructorAt(s, b);
        assert i <= b;
      }
    }
  }

  lemma DetectHere(s: string, i: nat, selected: bool)
    requires selected == SelectedBy(s, i) && ConstructorAt(s, i)
    ensures i < |s| && DetectFrom(s, i, selected)
  {
    DetectAtIff(s, i, selected);
  }

  lemma DetectLater(s: string, i: nat, selected: bool, next: bool)
    requires i < |s| && next == (selected || (i >= 6 && SelectAt(s, i - 6)))
    ensures DetectFrom(s, i + 1, next) ==> DetectFrom(s, i, selected)
  {
  }

  /** The flag the detector holds at index `b` when it starts at `i` holding `selected`. */
  ghost function CarriedFlag(s: string, i: nat, selected: bool, b: nat): bool
    decreases b - i
  {
    if b <= i then selected else CarriedFlag(s, i + 1, selected || (i >= 6 && SelectAt(s, i - 6)), b)
  }

  /** Started with the right flag, the detector carries the right flag. */
  lemma {:induction false} CarriedSelected(s: string, i: nat, b: nat)
    requires i <= b
    ensures CarriedFlag(s, i, SelectedBy(s, i), b) == SelectedBy(s, b)
    decreases b - i
  {
    if i < b {
      var next := SelectedBy(s, i) || (i >= 6 && SelectAt(s, i - 6));
      NextSelected(s, i, SelectedBy(s, i), next);
      CarriedSelected(s, i + 1, b);
    }
  }

  /** The detector, reporting at index `b`, reports already when it starts scanning at `i`. */
  lemma {:induction false} DetectFromComplete(s: string, i: nat, selected: bool, b: nat)
    requires i <= b < |s| && DetectFrom(s, b, CarriedFlag(s, i, selected, b))
    ensures DetectFrom(s, i, selected)
    decreases b - i
  {
    if i < b {
      var next := selected || (i >= 6 && SelectAt(s, i - 6));
      DetectLater(s, i, selected, next);
      DetectFromComplete(s, i + 1, next, b);
    }
  }

  /** The detector finds a constructor expression exactly when the text has one. */
  lemma HasConstructorExpressionIff(s: string)
    ensures HasConstructorExpression(s) <==> IsConstructorExpression(s)
  {
    DetectFromSound(s, 0, false);
    if IsConstructorExpression(s) {
      var b :| ConstructorAt(s, b);
      DetectHere(s, b, SelectedBy(s, b));
      CarriedSelected(s, 0, b);
      assert !SelectedBy(s, 0);
      DetectFromComplete(s, 0, false, b);
    }
  }

  /** A constructor expression has an argument list, so a text without `(` has none. */
  lemma ConstructorNeedsParenthesis(s: string)
    requires '(' !in s
    ensures !HasConstructorExpression(s)
  {
    HasConstructorExpressionIff(s);
  }

  /** Text from index `k` that starts with `x`: the characters of `x`, then `y`. */
  lemma DropPrefix(s: string, k: nat, x: string, y: string)
    requires k <= |s| && s[k..] == x + y
    ensures k + |x| <= |s| && s[k..k + |x|] == x && s[k + |x|..] == y
    ensures forall j :: k <= j < k + |x| ==> s[j] == x[j - k]
  {
    assert forall j :: k <= j < k + |x| ==> s[j] == s[k..][j - k];
    assert s[k..k + |x|] == s[k..][..|x|];
    assert s[k + |x|..] == s[k..][|x|..];
  }

  /** Optional whitespace, `(`, any text and `)`, as the text from index `k` on. */
  lemma ArgumentListShape(s: string, k: nat, ws: string, args: string, rest: string)
    requires AllWhitespace(ws)
    requires k <= |s| && s[k..] == ws + ("(" + (args + (")" + rest)))
    ensures ArgumentList(s, k)
  {
    var c := |ws|;
    DropPrefix(s, k, ws, "(" + (args + (")" + rest)));
    DropPrefix(s, k + c, "(", args + (")" + rest));
    DropPrefix(s, k + c + 1, args, ")" + rest);
    DropPrefix(s, k + c + 1 + |args|, ")", rest);
    assert s[k + c + 1..][|args|] == ')';
    assert ArgumentsAt(s, k, c);
  }

  /** A class name followed by an argument list, as the text from index `k` on. */
  lemma ConstructorCallShape(s: string, k: nat, name: string, ws: string, args: string, rest: string)
    requires name != [] && AllIdentChars(name) && AllWhitespace(ws)
    requires k <= |s| && s[k..] == name + (ws + ("(" + (args + (")" + rest))))
    ensures ConstructorCall(s, k)
  {
    var q := |name|;
    DropPrefix(s, k, name, ws + ("(" + (args + (")" + rest))));
    ArgumentListShape(s, k + q, ws, args, rest);
    assert CallAt(s, k, q);
  }

  /** Whitespace and a constructor call, as the text from index `k` on. */
  lemma ConstructorTailShape(s: string, k: nat, gap: string, name: string, ws: string, args: string, rest: string)
    requires gap != [] && AllWhitespace(gap) && name != [] && AllIdentChars(name) && AllWhitespace(ws)
    requires k <= |s| && s[k..] == gap + (name + (ws + ("(" + (args + (")" + rest)))))
    ensures ConstructorTail(s, k)
  {
    var p := |gap|;
    DropPrefix(s, k, gap, name + (ws + ("(" + (args + (")" + rest)))));
    ConstructorCallShape(s, k + p, name, ws, args, rest);
    assert TailAt(s, k, p);
  }

  /** A word equal to `keyword` up to letter case, as the text from index `k` on. */
  lemma KeywordShape(s: string, k: nat, word: string, keyword: string, rest: string)
    requires EqualsIgnoreCase(word, keyword)
    requires k <= |s| && s[k..] == word + rest
    ensures KeywordAt(s, k, keyword)
  {
    DropPrefix(s, k, word, rest);
  }

  /** SELECT and whitespace, as the text from index `a` on. */
  lemma SelectShape(s: string, a: nat, sel: string, gap: string, more: string)
    requires EqualsIgnoreCase(sel, "select") && gap != [] && AllWhitespace(gap)
    requires a <= |s| && s[a..] == sel + (gap + more)
    ensures var b := a + 6 + |gap|;
      SelectAt(s, a) && b <= |s| && IsWhitespace(s[b - 1]) && s[b..] == more
  {
    KeywordShape(s, a, sel, "select", gap + more);
    DropPrefix(s, a, sel, gap + more);
    DropPrefix(s, a + 6, gap, more);
    assert s[a + 6] == gap[0] && s[a + 6 + |gap| - 1] == gap[|gap| - 1];
  }

  /** Where SELECT, whitespace and NEW sit in a text built from those parts. */
  lemma KeywordsShape(s: string, lead: string, sel: string, gap: string, nw: string, tail: string)
    requires EqualsIgnoreCase(sel, "select") && EqualsIgnoreCase(nw, "new") && gap != [] && AllWhitespace(gap)
    requires s == lead + (sel + (gap + (nw + tail)))
    ensures var b := |lead| + 6 + |gap|;
      SelectAt(s, |lead|) && NewAt(s, b) && IsWhitespace(s[b - 1]) && b + 3 <= |s| && s[b + 3..] == tail
  {
    var b := |lead| + 6 + |gap|;
    assert s[0..] == s;
    DropPrefix(s, 0, lead, sel + (gap + (nw + tail)));
    SelectShape(s, |lead|, sel, gap, nw + tail);
    KeywordShape(s, b, nw, "new", tail);
    DropPrefix(s, b, nw, tail);
  }

  lemma ConstructorAtIndex(s: string, a: nat, b: nat)
    requires a + 7 <= b && SelectAt(s, a) && NewAt(s, b) && IsWhitespace(s[b - 1]) && ConstructorTail(s, b + 3)
    ensures HasConstructorExpression(s)
  {
    assert ConstructorAt(s, b);
    HasConstructorExpressionIff(s);
  }

  /** SELECT, whitespace and NEW, followed by a constructor tail, make a constructor expression. */
  lemma SelectNewShape(s: string, lead: string, sel: string, gap: string, nw: string, tail: string)
    requires EqualsIgnoreCase(sel, "select") && EqualsIgnoreCase(nw, "new") && gap != [] && AllWhitespace(gap)
    requires s == lead + (sel + (gap + (nw + tail)))
    requires ConstructorTail(s, |lead| + 6 + |gap| + 3)
    ensures HasConstructorExpression(s)
  {
    KeywordsShape(s, lead, sel, gap, nw, tail);
    ConstructorAtIndex(s, |lead|, |lead| + 6 + |gap|);
  }

  lemma AfterKeywords(lead: string, sel: string, gap: string, nw: string, tail: string)
    ensures var s := lead + (sel + (gap + (nw + tail)));
      |lead| + |sel| + |gap| + |nw| <= |s| && s[|lead| + |sel| + |gap| + |nw|..] == tail
  {
  }

  /**
    The shape of a constructor expression: SELECT (any case), whitespace, NEW
    (any case), whitespace, a class name, optional whitespace and a
    parenthesised argument list, with any text before and after.
   */
  lemma ConstructorShapeDetected(lead: string, sel: string, gap1: string, nw: string, gap2: string,
                                 name: string, ws: string, args: string, rest: string)
    requires EqualsIgnoreCase(sel, "select") && EqualsIgnoreCase(nw, "new")
    requires gap1 != [] && AllWhitespace(gap1) && gap2 != [] && AllWhitespace(gap2)
    requires name != [] && AllIdentChars(name) && AllWhitespace(ws)
    ensures HasConstructorExpression(lead + (sel + (gap1 + (nw + (gap2 + (name + (ws + ("(" + (args + (")" + rest))))))))))
  {
    var tail := gap2 + (name + (ws + ("(" + (args + (")" + rest)))));
    var s := lead + (sel + (gap1 + (nw + tail)));
    AfterKeywords(lead, sel, gap1, nw, tail);
    ConstructorTailShape(s, |lead| + 6 + |gap1| + 3, gap2, name, ws, args, rest);
    SelectNewShape(s, lead, sel, gap1, nw, tail);
  }
}
