/**
  One scanner step at a time: lemmas that say which token the scanner cuts
  from a template that starts with a given literal run, quoted literal or
  marker, and what keyword context the text before a marker gives. They let
  the scanner be evaluated on concrete templates piece by piece.
 */
module ScannerSteps {

  import opened Wrappers
  import opened Lexical
  import opened Bindings
  import opened Scanner

  /** Once the next token is known, scanning continues after its text. */
  lemma TokenizeStep(seen: string, t: Token, rest: string)
    requires TokenText(t) + rest != [] && NextToken(seen, TokenText(t) + rest) == Success(t)
    ensures TokenizeFrom(seen, TokenText(t) + rest) == Cons(t, TokenizeFrom(seen + TokenText(t), rest))
  {
    var input := TokenText(t) + rest;
    var n := |TokenText(t)|;
    assert input[..n] == TokenText(t) && input[n..] == rest;
  }

  /** A run of characters that cannot start a marker is one literal token. */
  lemma LiteralStep(seen: string, lit: string, rest: string)
    requires lit != [] && forall i :: 0 <= i < |lit| ==> IsPlain(lit[i])
    requires rest == [] || !IsPlain(rest[0])
    ensures TokenizeFrom(seen, lit + rest) == Cons(Literal(lit), TokenizeFrom(seen + lit, rest))
  {
    SpanOfRun(lit, rest, IsPlain);
    assert (lit + rest)[0] == lit[0];
    assert (lit + rest)[..|lit|] == lit;
    TokenizeStep(seen, Literal(lit), rest);
  }

  /** A closed quoted literal is one literal token. */
  lemma QuotedStep(seen: string, body: string, rest: string)
    requires forall i :: 0 <= i < |body| ==> body[i] != '\''
    ensures var lit := ['\''] + body + ['\''];
      TokenizeFrom(seen, lit + rest) == Cons(Literal(lit), TokenizeFrom(seen + lit, rest))
  {
    var lit := ['\''] + body + ['\''];
    var input := lit + rest;
    assert input[1..] == body + (['\''] + rest);
    SpanOfRun(body, ['\''] + rest, IsNotQuote);
    assert input[..|body| + 2] == lit;
    TokenizeStep(seen, Literal(lit), rest);
  }

  /** The character `c` would continue the name or number of `f`. */
  predicate Continues(f: MarkerForm, c: char) {
    match f
    case NamedRef(_) => IsWordChar(c)
    case PositionalRef(_) => IsDigit(c)
    case Expression(_, _) => false
  }

  /** The brace closing an expression whose text has no braces is the first `}`. */
  lemma {:induction false} ClosingBraceFlat(r: string, i: nat, body: string)
    requires i + |body| < |r| && r[i..i + |body|] == body && r[i + |body|] == '}'
    requires forall c <- body :: c != '{' && c != '}'
    ensures ClosingBrace(r, i, 1) == Some(i + |body|)
    decreases |body|
  {
    if body != [] {
      assert r[i] == body[0] && body[0] in body;
      assert r[i + 1..i + |body|] == body[1..];
      assert forall c <- body[1..] :: c in body;
      ClosingBraceFlat(r, i + 1, body[1..]);
    }
  }

  lemma ReadNamedMarker(n: string, after: string)
    requires |n| > 0 && AllWordChars(n)
    requires after == [] || !IsWordChar(after[0])
    ensures StartsMarker(FormText(NamedRef(n)) + after) && ReadMarker(FormText(NamedRef(n)) + after) == Some(NamedRef(n))
  {
    var r := [':'] + (n + after);
    assert FormText(NamedRef(n)) + after == r;
    assert r[1..] == n + after;
    SpanOfRun(n, after, IsWordChar);
    assert r[1..1 + |n|] == n;
  }

  lemma ReadPositionalMarker(d: string, after: string)
    requires |d| > 0 && AllDigits(d)
    requires after == [] || !IsDigit(after[0])
    ensures StartsMarker(FormText(PositionalRef(d)) + after) && ReadMarker(FormText(PositionalRef(d)) + after) == Some(PositionalRef(d))
  {
    var r := ['?'] + (d + after);
    assert FormText(PositionalRef(d)) + after == r;
    assert r[1..] == d + after;
    SpanOfRun(d, after, IsDigit);
    assert r[1..1 + |d|] == d;
  }

  lemma ReadPlainMarker(f: MarkerForm, after: string)
    requires WellFormedForm(f) && !f.Expression?
    requires after == [] || !Continues(f, after[0])
    ensures StartsMarker(FormText(f) + after) && ReadMarker(FormText(f) + after) == Some(f)
  {
    match f
    case NamedRef(n) => ReadNamedMarker(n, after);
    case PositionalRef(d) => ReadPositionalMarker(d, after);
  }

  lemma ReadExpressionMarker(f: MarkerForm, after: string)
    requires f.Expression? && forall c <- f.body :: c != '{' && c != '}'
    ensures StartsMarker(FormText(f) + after) && ReadMarker(FormText(f) + after) == Some(f)
  {
    var r := FormText(f) + after;
    assert r[3..3 + |f.body|] == f.body;
    ClosingBraceFlat(r, 3, f.body);
    assert r[3..3 + |f.body|] == f.body;
  }

  lemma SkipPrefix(w: string, x: string, y: string, rest: string)
    ensures (w + x + y + rest)[|w|..] == x + (y + rest)
    ensures |w + x + y + rest| == |w| + |x| + |y + rest|
  {
    assert w + x + y + rest == w + (x + (y + rest));
  }

  lemma MarkerTextSplit(t: Token, after: string, rest: string)
    requires t.Marker? && after == Wildcard(t.trailing) + rest
    ensures var input := TokenText(t) + rest;
      input[(if t.leading then 1 else 0)..] == FormText(t.form) + after
      && (t.leading ==> input[0] == '%')
      && (if t.leading then 1 else 0) + |FormText(t.form)| + |after| == |input|
  {
    SkipPrefix(Wildcard(t.leading), FormText(t.form), Wildcard(t.trailing), rest);
  }

  /** The marker token the scanner reads when `t`'s text starts the rest of the template. */
  lemma MarkerTokenOf(t: Token, after: string, rest: string, offset: nat)
    requires t.Marker? && after == Wildcard(t.trailing) + rest
    requires StartsMarker(FormText(t.form) + after) && ReadMarker(FormText(t.form) + after) == Some(t.form)
    requires t.leading ==> t.context == AfterLike
    requires t.trailing <==> t.context == AfterLike && after != [] && after[0] == '%'
    ensures var input := TokenText(t) + rest;
      StartsMarker(input[(if t.leading then 1 else 0)..])
      && MarkerToken(t.context, input, t.leading, offset) == Success(t)
  {
    var input := TokenText(t) + rest;
    MarkerTextSplit(t, after, rest);
    var start := if t.leading then 1 else 0;
    var end := start + |FormText(t.form)|;
    assert end < |input| ==> input[end] == after[0] by {
      if end < |input| {
        assert input[start..][|FormText(t.form)|] == after[0];
      }
    }
  }

  /** A marker's text starts with its sigil, or with `%` when it has a leading wildcard. */
  lemma MarkerTextStart(t: Token)
    requires t.Marker?
    ensures var c := TokenText(t)[0]; c == (if t.leading then '%' else FormText(t.form)[0])
    ensures FormText(t.form)[0] == ':' || FormText(t.form)[0] == '?'
  {
    assert TokenText(t) == Wildcard(t.leading) + (FormText(t.form) + Wildcard(t.trailing));
  }

  /** At a special character that starts a marker, the scanner reads a marker token. */
  lemma NextTokenAtMarker(seen: string, input: string, leading: bool)
    requires input != [] && input[0] != '\'' && !IsPlain(input[0])
    requires leading == (input[0] == '%' && ContextOf(seen) == AfterLike && StartsMarker(input[1..]))
    requires StartsMarker(input[(if leading then 1 else 0)..])
    ensures NextToken(seen, input) == MarkerToken(ContextOf(seen), input, leading, |seen|)
  {
  }

  lemma MarkerNextToken(seen: string, t: Token, after: string, rest: string)
    requires t.Marker? && t.context == ContextOf(seen) && after == Wildcard(t.trailing) + rest
    requires StartsMarker(FormText(t.form) + after) && ReadMarker(FormText(t.form) + after) == Some(t.form)
    requires t.leading ==> t.context == AfterLike
    requires t.trailing <==> t.context == AfterLike && after != [] && after[0] == '%'
    ensures TokenText(t) + rest != [] && NextToken(seen, TokenText(t) + rest) == Success(t)
  {
    var input := TokenText(t) + rest;
    MarkerTextSplit(t, after, rest);
    MarkerTextStart(t);
    assert input[0] == TokenText(t)[0];
    assert t.leading == (input[0] == '%' && ContextOf(seen) == AfterLike && StartsMarker(input[1..]));
    MarkerTokenOf(t, after, rest, |seen|);
    NextTokenAtMarker(seen, input, t.leading);
  }

  /**
    A marker token: its form is read in full, a leading `%` is taken only
    after LIKE, and a trailing `%` is taken exactly when it follows LIKE.
   */
  lemma MarkerStep(seen: string, t: Token, rest: string)
    requires t.Marker? && t.context == ContextOf(seen)
    requires t.form.Expression? ==> forall c <- t.form.body :: c != '{' && c != '}'
    requires !t.form.Expression? ==> WellFormedForm(t.form)
    requires var after := Wildcard(t.trailing) + rest; after == [] || !Continues(t.form, after[0])
    requires t.leading ==> t.context == AfterLike
    requires t.trailing <==> t.context == AfterLike && (Wildcard(t.trailing) + rest) != [] && (Wildcard(t.trailing) + rest)[0] == '%'
    ensures TokenizeFrom(seen, TokenText(t) + rest) == Cons(t, TokenizeFrom(seen + TokenText(t), rest))
  {
    var after := Wildcard(t.trailing) + rest;
    if t.form.Expression? {
      ReadExpressionMarker(t.form, after);
    } else {
      ReadPlainMarker(t.form, after);
    }
    MarkerNextToken(seen, t, after, rest);
    TokenizeStep(seen, t, rest);
  }

  /* ---------------------------------------------------------------- contexts */

  /** The context of text that ends in a space and maybe `(`, read off the word before them. */
  lemma ContextOfSpaced(s: string, text: string)
    requires s == text + " " || s == text + " ("
    requires text == [] || !IsWhitespace(text[|text| - 1])
    ensures ContextOf(s) ==
      if EndsWithKeyword(text, "like") then AfterLike
      else if EndsWithKeyword(text, "in") then AfterIn
      else NoKeyword
  {
    var open := if s != [] && s[|s| - 1] == '(' then s[..|s| - 1] else s;
    assert open == text + " ";
    assert open[..|open| - 1] == text;
    assert TrimEnd(open) == TrimEnd(text) == text;
  }

  lemma KeywordGapContext(prefix: string, keyword: string, gap: string, lower: string)
    requires lower == "like" || lower == "in"
    requires EqualsIgnoreCase(keyword, lower)
    requires prefix == [] || !IsWordChar(prefix[|prefix| - 1])
    requires gap == " " || gap == " ("
    ensures ContextOf(prefix + keyword + gap) == if lower == "like" then AfterLike else AfterIn
  {
    var text := prefix + keyword;
    assert prefix + keyword + gap == text + gap;
    assert text[|text| - 1] == keyword[|keyword| - 1];
    ContextOfSpaced(text + gap, text);
    assert text[|text| - |keyword|..] == keyword;
    assert |text| > |keyword| ==> text[|text| - |keyword| - 1] == prefix[|prefix| - 1];
    if lower == "in" {
      assert |text| >= 4 ==> text[|text| - 4..][2] == keyword[0];
    }
  }

  /**
    The text before a marker ends with LIKE or IN (any case) after a
    non-word character, then a space and maybe `(`; `word` is that ending.
   */
  lemma KeywordContext(prefix: string, word: string, lower: string)
    requires lower == "like" || lower == "in"
    requires |lower| < |word| && EqualsIgnoreCase(word[..|lower|], lower)
    requires word[|lower|..] == " " || word[|lower|..] == " ("
    requires prefix == [] || !IsWordChar(prefix[|prefix| - 1])
    ensures ContextOf(prefix + word) == if lower == "like" then AfterLike else AfterIn
  {
    var keyword, gap := word[..|lower|], word[|lower|..];
    assert keyword + gap == word;
    assert prefix + keyword + gap == prefix + word;
    KeywordGapContext(prefix, keyword, gap, lower);
  }

  /** The text before a marker ends with a sign such as `=` or `>` and a space; `word` is that ending. */
  lemma SignContext(prefix: string, word: string)
    requires |word| == 2 && word[1] == ' ' && !IsWordChar(word[0]) && !IsWhitespace(word[0])
    ensures ContextOf(prefix + word) == NoKeyword
  {
    var sign := word[0];
    var text := prefix + [sign];
    assert prefix + word == text + " ";
    ContextOfSpaced(text + " ", text);
    assert |text| >= 4 ==> text[|text| - 4..][3] == sign;
    assert |text| >= 2 ==> text[|text| - 2..][1] == sign;
    assert ToLower(sign) == sign;
  }
}
