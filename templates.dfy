/**
  Templates the scanner reads back token for token. A token sequence is
  separated when no two plain literals touch, every quoted literal is closed,
  and every marker follows a plain literal ending in the word that gives it
  its context and is followed by a literal that does not continue its name or
  number. Rendering a separated sequence and scanning the text gives the
  sequence back: the inverse of the fact that scanning loses no text.
 */
module Templates {

  import opened Wrappers
  import opened Lexical
  import opened Scanner
  import opened ScannerSteps
  import opened Bindings

  /** A non-empty literal of characters that start no marker. */
  predicate PlainLiteral(t: Token) {
    t.Literal? && t.text != [] && forall i :: 0 <= i < |t.text| ==> IsPlain(t.text[i])
  }

  /** A closed quoted literal with no quote inside. */
  predicate QuotedLiteral(t: Token) {
    t.Literal? && |t.text| >= 2 && t.text[0] == '\'' && t.text[|t.text| - 1] == '\''
    && forall i :: 0 < i < |t.text| - 1 ==> t.text[i] != '\''
  }

  /** `text` ends with the keyword `lower` (any case) after a non-word character, then `gap`. */
  predicate KeywordEnding(text: string, lower: string, gap: string) {
    var n := |lower| + |gap|;
    n < |text| && text[|text| - |gap|..] == gap
    && EqualsIgnoreCase(text[|text| - n..|text| - |gap|], lower)
    && !IsWordChar(text[|text| - n - 1])
  }

  /** The end of `text` gives a marker right after it the context `c`. */
  predicate Introduces(text: string, c: Context) {
    match c
    case AfterLike => KeywordEnding(text, "like", " ") || KeywordEnding(text, "like", " (")
    case AfterIn => KeywordEnding(text, "in", " ") || KeywordEnding(text, "in", " (")
    case NoKeyword =>
      |text| >= 2 && text[|text| - 1] == ' ' && !IsWordChar(text[|text| - 2]) && !IsWhitespace(text[|text| - 2])
  }

  /** The marker `t` as the scanner would cut it when the literal `next` follows (or nothing, when `next` is None). */
  predicate MarkerFits(t: Token, next: Option<Token>)
    requires t.Marker?
  {
    (t.leading || t.trailing ==> t.context == AfterLike)
    && (if t.form.Expression? then forall j :: 0 <= j < |t.form.body| ==> t.form.body[j] != '{' && t.form.body[j] != '}'
        else WellFormedForm(t.form))
    && match next
       case None => true
       case Some(u) => (PlainLiteral(u) || QuotedLiteral(u)) && !Continues(t.form, u.text[0])
  }

  /** The token at index `i` fits between its neighbours. */
  predicate FitsAt(ts: seq<Token>, i: nat)
    requires i < |ts|
  {
    match ts[i]
    case Literal(_) =>
      (PlainLiteral(ts[i]) && (i + 1 == |ts| || !PlainLiteral(ts[i + 1]))) || QuotedLiteral(ts[i])
    case Marker(_, _, _, context) =>
      0 < i && PlainLiteral(ts[i - 1]) && Introduces(ts[i - 1].text, context)
      && MarkerFits(ts[i], if i + 1 < |ts| then Some(ts[i + 1]) else None)
  }

  predicate Separated(ts: seq<Token>) {
    forall i :: 0 <= i < |ts| ==> FitsAt(ts, i)
  }

  /** Text made only of characters that start no marker. */
  predicate PlainText(s: string) {
    forall i :: 0 <= i < |s| ==> IsPlain(s[i])
  }

  /** Plain text that may follow a marker: it does not continue the marker's name or number. */
  predicate Follows(s: string) {
    PlainText(s) && (s == [] || !IsWordChar(s[0]))
  }

  /* ---------------------------------------------------------------- proof */

  lemma KeywordEndingContext(before: string, text: string, lower: string, gap: string)
    requires lower == "like" || lower == "in"
    requires gap == " " || gap == " ("
    requires KeywordEnding(text, lower, gap)
    ensures ContextOf(before + text) == if lower == "like" then AfterLike else AfterIn
  {
    var k := |text| - |lower| - |gap|;
    var word := text[k..];
    var prefix := before + text[..k];
    assert before + text == prefix + word;
    assert word[..|lower|] == text[k..|text| - |gap|];
    assert word[|lower|..] == gap;
    assert prefix[|prefix| - 1] == text[k - 1];
    KeywordContext(prefix, word, lower);
  }

  lemma SignEndingContext(before: string, text: string)
    requires Introduces(text, NoKeyword)
    ensures ContextOf(before + text) == NoKeyword
  {
    var k := |text| - 2;
    assert before + text == (before + text[..k]) + text[k..];
    SignContext(before + text[..k], text[k..]);
  }

  /** The context a literal's ending gives does not depend on the text before it. */
  lemma IntroducedContext(before: string, text: string, c: Context)
    requires Introduces(text, c)
    ensures ContextOf(before + text) == c
  {
    match c
    case NoKeyword => SignEndingContext(before, text);
    case AfterLike =>
      if KeywordEnding(text, "like", " ") {
        KeywordEndingContext(before, text, "like", " ");
      } else {
        KeywordEndingContext(before, text, "like", " (");
      }
    case AfterIn =>
      if KeywordEnding(text, "in", " ") {
        KeywordEndingContext(before, text, "in", " ");
      } else {
        KeywordEndingContext(before, text, "in", " (");
      }
  }

  lemma RenderCons(ts: seq<Token>, k: nat)
    requires k < |ts|
    ensures Render(ts[k..]) == TokenText(ts[k]) + Render(ts[k + 1..])
  {
    assert ts[k..][1..] == ts[k + 1..];
  }

  /** The text after token `k` starts with the first character of token `k + 1`. */
  lemma NextChar(ts: seq<Token>, k: nat)
    requires k + 1 < |ts| && TokenText(ts[k + 1]) != []
    ensures Render(ts[k + 1..]) != [] && Render(ts[k + 1..])[0] == TokenText(ts[k + 1])[0]
  {
    RenderCons(ts, k + 1);
  }

  /** The text after token `k` does not start with a character a plain literal could take. */
  lemma AfterPlain(ts: seq<Token>, k: nat)
    requires Separated(ts) && k < |ts| && PlainLiteral(ts[k])
    ensures var rest := Render(ts[k + 1..]); rest == [] || !IsPlain(rest[0])
  {
    if k + 1 < |ts| {
      assert FitsAt(ts, k) && FitsAt(ts, k + 1);
      if ts[k + 1].Marker? {
        MarkerTextStart(ts[k + 1]);
      }
      NextChar(ts, k);
    }
  }

  /** The text after marker `k` starts with its trailing wildcard or the next literal. */
  lemma AfterMarker(ts: seq<Token>, k: nat)
    requires Separated(ts) && k < |ts| && ts[k].Marker?
    ensures var t := ts[k]; var after := Wildcard(t.trailing) + Render(ts[k + 1..]);
      (after == [] || !Continues(t.form, after[0]))
      && (t.trailing <==> t.context == AfterLike && after != [] && after[0] == '%')
  {
    assert FitsAt(ts, k);
    if k + 1 < |ts| {
      NextChar(ts, k);
    }
  }

  lemma ScanMarkerAt(ts: seq<Token>, k: nat, seen: string)
    requires Separated(ts) && 0 < k < |ts| && ts[k].Marker?
    requires |TokenText(ts[k - 1])| <= |seen| && seen[|seen| - |TokenText(ts[k - 1])|..] == TokenText(ts[k - 1])
    ensures TokenizeFrom(seen, TokenText(ts[k]) + Render(ts[k + 1..])) == Cons(ts[k], TokenizeFrom(seen + TokenText(ts[k]), Render(ts[k + 1..])))
  {
    var t := ts[k];
    assert FitsAt(ts, k);
    var prev := TokenText(ts[k - 1]);
    assert seen == seen[..|seen| - |prev|] + prev;
    IntroducedContext(seen[..|seen| - |prev|], prev, t.context);
    AfterMarker(ts, k);
    MarkerStep(seen, t, Render(ts[k + 1..]));
  }

  /** A quoted literal is its body between two quotes. */
  lemma QuotedBody(text: string)
    requires QuotedLiteral(Literal(text))
    ensures var body := text[1..|text| - 1];
      text == ['\''] + body + ['\''] && forall i :: 0 <= i < |body| ==> body[i] != '\''
  {
    var body := text[1..|text| - 1];
    assert forall i :: 0 <= i < |body| ==> body[i] == text[i + 1];
  }

  /** One token of a separated sequence, scanned after text ending with the token before it. */
  lemma ScanOne(ts: seq<Token>, k: nat, seen: string)
    requires Separated(ts) && k < |ts|
    requires 0 < k ==> |TokenText(ts[k - 1])| <= |seen| && seen[|seen| - |TokenText(ts[k - 1])|..] == TokenText(ts[k - 1])
    ensures TokenizeFrom(seen, Render(ts[k..])) == Cons(ts[k], TokenizeFrom(seen + TokenText(ts[k]), Render(ts[k + 1..])))
  {
    var t := ts[k];
    var rest := Render(ts[k + 1..]);
    RenderCons(ts, k);
    assert FitsAt(ts, k);
    if PlainLiteral(t) {
      AfterPlain(ts, k);
      LiteralStep(seen, t.text, rest);
    } else if t.Literal? {
      QuotedBody(t.text);
      QuotedStep(seen, t.text[1..|t.text| - 1], rest);
    } else {
      ScanMarkerAt(ts, k, seen);
    }
  }

  lemma EndsWith(s: string, t: string)
    ensures (s + t)[|s + t| - |t|..] == t
  {
  }

  lemma SliceCons(ts: seq<Token>, k: nat)
    requires k < |ts|
    ensures ts[k..] == [ts[k]] + ts[k + 1..]
  {
  }

  lemma {:induction false} ScanFrom(ts: seq<Token>, k: nat, seen: string)
    requires Separated(ts) && k <= |ts|
    requires 0 < k ==> |TokenText(ts[k - 1])| <= |seen| && seen[|seen| - |TokenText(ts[k - 1])|..] == TokenText(ts[k - 1])
    ensures TokenizeFrom(seen, Render(ts[k..])) == Success(ts[k..])
    decreases |ts| - k
  {
    if k < |ts| {
      var t := ts[k];
      var after := seen + TokenText(t);
      ScanOne(ts, k, seen);
      EndsWith(seen, TokenText(t));
      ScanFrom(ts, k + 1, after);
      ConsTail(t, TokenizeFrom(seen, Render(ts[k..])), TokenizeFrom(after, Render(ts[k + 1..])), ts[k + 1..]);
      SliceCons(ts, k);
    }
  }

  lemma ConsTail(t: Token, whole: Result<seq<Token>, ParseError>, r: Result<seq<Token>, ParseError>, tail: seq<Token>)
    requires whole == Cons(t, r) && r == Success(tail)
    ensures whole == Success([t] + tail)
  {
  }

  lemma KeywordEndingAfter(p: string, w: string, lower: string, gap: string)
    requires KeywordEnding(w, lower, gap)
    ensures KeywordEnding(p + w, lower, gap)
  {
    var text := p + w;
    var n := |lower| + |gap|;
    assert text[|text| - |gap|..] == w[|w| - |gap|..];
    assert text[|text| - n..|text| - |gap|] == w[|w| - n..|w| - |gap|];
    assert text[|text| - n - 1] == w[|w| - n - 1];
  }

  /** A context word keeps its meaning after any text. */
  lemma IntroducesAfter(p: string, w: string, c: Context)
    requires Introduces(w, c)
    ensures Introduces(p + w, c)
  {
    var text := p + w;
    match c
    case NoKeyword =>
      assert text[|text| - 1] == w[|w| - 1] && text[|text| - 2] == w[|w| - 2];
    case AfterLike =>
      if KeywordEnding(w, "like", " ") {
        KeywordEndingAfter(p, w, "like", " ");
      } else {
        KeywordEndingAfter(p, w, "like", " (");
      }
    case AfterIn =>
      if KeywordEnding(w, "in", " ") {
        KeywordEndingAfter(p, w, "in", " ");
      } else {
        KeywordEndingAfter(p, w, "in", " (");
      }
  }

  /** Plain text followed by a context word is a plain literal that gives that context. */
  lemma ClauseLiteral(p: string, w: string, c: Context)
    requires PlainText(p) && PlainText(w) && Introduces(w, c)
    ensures PlainLiteral(Literal(p + w)) && Introduces(p + w, c)
  {
    IntroducesAfter(p, w, c);
    assert forall i :: 0 <= i < |p + w| ==> (p + w)[i] == if i < |p| then p[i] else w[i - |p|];
  }

  /**
    Two separated sequences stay separated one after the other when they meet
    properly: a marker at the end of the first is not continued by the
    literal that starts the second, and two plain literals do not touch.
   */
  lemma SeparatedAppend(a: seq<Token>, b: seq<Token>)
    requires Separated(a) && Separated(b) && a != [] && b != []
    requires a[|a| - 1].Marker? ==>
      (PlainLiteral(b[0]) || QuotedLiteral(b[0])) && !Continues(a[|a| - 1].form, b[0].text[0])
    requires PlainLiteral(a[|a| - 1]) ==> !PlainLiteral(b[0])
    ensures Separated(a + b)
  {
    var ab := a + b;
    var n := |a|;
    assert forall i :: 0 <= i < n ==> ab[i] == a[i];
    assert forall i :: n <= i < |ab| ==> ab[i] == b[i - n];
    forall i | 0 <= i < |ab|
      ensures FitsAt(ab, i)
    {
      if i < n - 1 {
        assert FitsAt(a, i);
      } else if i == n - 1 {
        assert FitsAt(a, i);
        assert FitsAt(b, 0);
      } else {
        assert FitsAt(b, i - n);
      }
    }
  }

  /** Plain text ending in a context word, then a marker that fits at the end, is separated. */
  lemma ClauseSeparated(text: string, m: Token)
    requires PlainLiteral(Literal(text)) && m.Marker? && Introduces(text, m.context) && MarkerFits(m, None)
    ensures Separated([Literal(text), m])
  {
    assert FitsAt([Literal(text), m], 0);
    assert FitsAt([Literal(text), m], 1);
  }

  /** Scanning the text of a separated token sequence gives the sequence back. */
  lemma TokenizeRender(ts: seq<Token>)
    requires Separated(ts)
    ensures Tokenize(Render(ts)) == Success(ts)
  {
    ScanFrom(ts, 0, "");
    assert ts[0..] == ts;
  }
}
