/**
  The marker scanner. It walks the raw query template once, left to right, and
  cuts it into literal text and parameter markers:

    `:name`           a named parameter (name of word characters),
    `?3`              a positional parameter,
    `:#{expr}`        a named expression parameter,
    `?#{expr}`        a positional expression parameter,

  each optionally wrapped in `%` wildcards when it follows LIKE. Quoted string
  literals are skipped whole. Every token keeps its raw text, so rendering the
  tokens gives back the template (`TokenizeRendersInput`).
 */
module Scanner {

  import opened Wrappers
  import opened Lexical
  import opened Bindings

  /** The character that opens a marker: `:` for a named one, `?` for a positional one. */
  datatype Sigil = Colon | Question

  datatype MarkerForm =
    | NamedRef(name: string)
    | PositionalRef(digits: string)
    | Expression(sigil: Sigil, body: string)

  /** The keyword that immediately precedes a marker. */
  datatype Context = NoKeyword | AfterLike | AfterIn

  datatype Token =
    | Literal(text: string)
    | Marker(leading: bool, form: MarkerForm, trailing: bool, context: Context)

  function SigilChar(s: Sigil): char {
    match s
    case Colon => ':'
    case Question => '?'
  }

  /** The marker as written, without wildcards. */
  function FormText(f: MarkerForm): string {
    match f
    case NamedRef(n) => [':'] + n
    case PositionalRef(d) => ['?'] + d
    case Expression(s, b) => [SigilChar(s), '#', '{'] + b + ['}']
  }

  function Wildcard(present: bool): string {
    if present then "%" else ""
  }

  function TokenText(t: Token): string {
    match t
    case Literal(text) => text
    case Marker(leading, form, trailing, _) => Wildcard(leading) + FormText(form) + Wildcard(trailing)
  }

  /** The text a token sequence stands for. */
  function Render(ts: seq<Token>): string {
    if ts == [] then "" else TokenText(ts[0]) + Render(ts[1..])
  }

  lemma {:induction false} RenderAppend(a: seq<Token>, b: seq<Token>)
    ensures Render(a + b) == Render(a) + Render(b)
  {
    if a != [] {
      TailOfAppend(a, b);
      RenderAppend(a[1..], b);
      AppendAssociates(TokenText(a[0]), Render(a[1..]), Render(b));
    } else {
      assert a + b == b;
    }
  }

  lemma TailOfAppend(a: seq<Token>, b: seq<Token>)
    requires a != []
    ensures (a + b)[0] == a[0] && (a + b)[1..] == a[1..] + b
  {
  }

  lemma AppendAssociates(x: string, y: string, z: string)
    ensures (x + y) + z == x + (y + z)
  {
  }

  predicate WellFormedForm(f: MarkerForm) {
    match f
    case NamedRef(n) => |n| > 0 && AllWordChars(n)
    case PositionalRef(d) => |d| > 0 && AllDigits(d)
    case Expression(_, _) => true
  }

  /** Wildcards are only recognised after LIKE, and names and numbers are non-empty. */
  predicate WellFormed(t: Token) {
    t.Marker? ==> WellFormedForm(t.form) && ((t.leading || t.trailing) ==> t.context == AfterLike)
  }

  /* ---------------------------------------------------------------- context */

  /** `s` without its trailing whitespace. */
  function TrimEnd(s: string): (t: string)
    ensures |t| <= |s| && t == s[..|t|]
    ensures AllWhitespace(s[|t|..])
    ensures t == [] || !IsWhitespace(t[|t| - 1])
  {
    if s != [] && IsWhitespace(s[|s| - 1]) then TrimEnd(s[..|s| - 1]) else s
  }

  /** `s` ends with the whole word `keyword`, in any letter case. */
  predicate EndsWithKeyword(s: string, keyword: string) {
    |keyword| <= |s|
    && EqualsIgnoreCase(s[|s| - |keyword|..], keyword)
    && (|s| == |keyword| || !IsWordChar(s[|s| - |keyword| - 1]))
  }

  /**
    The context of a marker that follows the raw text `before`: the keyword
    LIKE or IN, then optional whitespace, then an optional opening parenthesis.
   */
  function ContextOf(before: string): Context {
    var open := if before != [] && before[|before| - 1] == '(' then before[..|before| - 1] else before;
    var text := TrimEnd(open);
    if EndsWithKeyword(text, "like") then AfterLike
    else if EndsWithKeyword(text, "in") then AfterIn
    else NoKeyword
  }

  /* ---------------------------------------------------------------- markers */

  predicate IsSpecial(c: char) {
    c == ':' || c == '?' || c == '%' || c == '\''
  }

  predicate IsPlain(c: char) {
    !IsSpecial(c)
  }

  predicate IsNotQuote(c: char) {
    c != '\''
  }

  predicate StartsExpression(r: string) {
    |r| >= 3 && (r[0] == ':' || r[0] == '?') && r[1] == '#' && r[2] == '{'
  }

  predicate StartsMarker(r: string) {
    StartsExpression(r)
    || (|r| >= 2 && r[0] == ':' && IsWordChar(r[1]))
    || (|r| >= 2 && r[0] == '?' && IsDigit(r[1]))
  }

  /**
    The index of the brace that closes an expression, counting nested braces
    from `depth` open ones at index `i`; None when the braces never close.
   */
  function ClosingBrace(r: string, i: nat, depth: nat): (k: Option<nat>)
    requires i <= |r| && depth > 0
    ensures k.Some? ==> i <= k.value < |r| && r[k.value] == '}'
    decreases |r| - i
  {
    if i == |r| then None
    else if r[i] == '}' then (if depth == 1 then Some(i) else ClosingBrace(r, i + 1, depth - 1))
    else if r[i] == '{' then ClosingBrace(r, i + 1, depth + 1)
    else ClosingBrace(r, i + 1, depth)
  }

  /** An expression marker starts at `r` and its braces never close. */
  predicate Unterminated(r: string) {
    StartsExpression(r) && ClosingBrace(r, 3, 1).None?
  }

  /**
    The marker at the start of `r`: a maximal name or number, or an expression
    up to its closing brace. None exactly when the expression is unterminated.
   */
  function ReadMarker(r: string): (f: Option<MarkerForm>)
    requires StartsMarker(r)
    ensures f.None? <==> Unterminated(r)
    ensures f.Some? ==> WellFormedForm(f.value)
    ensures f.Some? ==> |FormText(f.value)| <= |r| && r[..|FormText(f.value)|] == FormText(f.value)
    ensures f.Some? && f.value.NamedRef? ==> |FormText(f.value)| == |r| || !IsWordChar(r[|FormText(f.value)|])
    ensures f.Some? && f.value.PositionalRef? ==> |FormText(f.value)| == |r| || !IsDigit(r[|FormText(f.value)|])
  {
    if StartsExpression(r) then
      match ClosingBrace(r, 3, 1)
      case None => None
      case Some(k) =>
        ExpressionRead(r, k);
        Some(Expression(if r[0] == ':' then Colon else Question, r[3..k]))
    else if r[0] == ':' then
      var n := SpanLength(r[1..], IsWordChar);
      NameRead(r);
      Some(NamedRef(r[1..1 + n]))
    else
      var n := SpanLength(r[1..], IsDigit);
      NumberRead(r);
      Some(PositionalRef(r[1..1 + n]))
  }

  /** An expression marker reads up to the brace that closes it. */
  lemma ExpressionRead(r: string, k: nat)
    requires StartsExpression(r) && 3 <= k < |r| && r[k] == '}'
    ensures var f := Expression(if r[0] == ':' then Colon else Question, r[3..k]);
      |FormText(f)| <= |r| && r[..|FormText(f)|] == FormText(f)
  {
    var f := Expression(if r[0] == ':' then Colon else Question, r[3..k]);
    assert FormText(f) == r[..k + 1];
  }

  /** A name marker reads the longest run of word characters after the colon. */
  lemma NameRead(r: string)
    requires |r| >= 2 && r[0] == ':' && IsWordChar(r[1])
    ensures var n := SpanLength(r[1..], IsWordChar); var f := NamedRef(r[1..1 + n]);
      WellFormedForm(f) && |FormText(f)| <= |r| && r[..|FormText(f)|] == FormText(f)
      && (|FormText(f)| == |r| || !IsWordChar(r[|FormText(f)|]))
  {
    var n := SpanLength(r[1..], IsWordChar);
    assert FormText(NamedRef(r[1..1 + n])) == r[..1 + n];
    assert forall i :: 0 <= i < n ==> r[1..1 + n][i] == r[1..][i] && IsWordChar(r[1..][i]);
  }

  /** A positional marker reads the longest run of digits after the question mark. */
  lemma NumberRead(r: string)
    requires |r| >= 2 && r[0] == '?' && IsDigit(r[1])
    ensures var n := SpanLength(r[1..], IsDigit); var f := PositionalRef(r[1..1 + n]);
      WellFormedForm(f) && |FormText(f)| <= |r| && r[..|FormText(f)|] == FormText(f)
      && (|FormText(f)| == |r| || !IsDigit(r[|FormText(f)|]))
  {
    var n := SpanLength(r[1..], IsDigit);
    assert FormText(PositionalRef(r[1..1 + n])) == r[..1 + n];
    assert forall i :: 0 <= i < n ==> r[1..1 + n][i] == r[1..][i] && IsDigit(r[1..][i]);
  }

  /* ---------------------------------------------------------------- scanning */

  function Cons(t: Token, r: Result<seq<Token>, ParseError>): Result<seq<Token>, ParseError> {
    match r
    case Success(ts) => Success([t] + ts)
    case Failure(e) => Failure(e)
  }

  /** The length of a quoted literal at the start of `r`, or all of `r` when it is never closed. */
  function QuotedLength(r: string): (n: nat)
    requires |r| > 0 && r[0] == '\''
    ensures 1 <= n <= |r|
  {
    var k := SpanLength(r[1..], IsNotQuote);
    if 1 + k < |r| then k + 2 else |r|
  }

  /** A marker's text, wildcards included, is a prefix of the text it was read from. */
  lemma MarkerTextIsPrefix(rest: string, leading: bool, form: MarkerForm, trailing: bool, context: Context)
    requires leading ==> |rest| > 0 && rest[0] == '%'
    requires var start := if leading then 1 else 0;
      start + |FormText(form)| <= |rest| && rest[start..start + |FormText(form)|] == FormText(form)
    requires var end := (if leading then 1 else 0) + |FormText(form)|;
      trailing ==> end < |rest| && rest[end] == '%'
    ensures var text := TokenText(Marker(leading, form, trailing, context));
      |text| <= |rest| && rest[..|text|] == text
  {
    var w1, w2 := Wildcard(leading), Wildcard(trailing);
    var end := |w1| + |FormText(form)|;
    assert rest[..|w1|] == w1;
    PrefixConcat(rest, w1, FormText(form));
    assert end + |w2| <= |rest| && rest[end..end + |w2|] == w2;
    PrefixConcat(rest, w1 + FormText(form), w2);
  }

  /** Two pieces read one after the other at the start of `r` are a prefix of `r`. */
  lemma PrefixConcat(r: string, x: string, y: string)
    requires |x| + |y| <= |r| && r[..|x|] == x && r[|x|..|x| + |y|] == y
    ensures r[..|x + y|] == x + y
  {
    assert r[..|x| + |y|] == r[..|x|] + r[|x|..|x| + |y|];
  }

  /**
    The marker token at the start of `rest`, whose context is `context`; a
    leading wildcard has already been recognised when `leading` holds.
    `offset` is the position of `rest` in the template.
   */
  function MarkerToken(context: Context, rest: string, leading: bool, offset: nat): (r: Result<Token, ParseError>)
    requires leading ==> |rest| > 0 && rest[0] == '%' && context == AfterLike
    requires StartsMarker(rest[(if leading then 1 else 0)..])
    ensures r.Success? ==> 0 < |TokenText(r.value)| <= |rest| && rest[..|TokenText(r.value)|] == TokenText(r.value)
    ensures r.Success? ==> r.value.Marker? && r.value.context == context && WellFormed(r.value)
    ensures r.Failure? ==> r.error == MalformedExpression(offset + (if leading then 1 else 0))
    ensures r.Failure? ==> Unterminated(rest[(if leading then 1 else 0)..])
  {
    var start := if leading then 1 else 0;
    match ReadMarker(rest[start..])
    case None => Failure(MalformedExpression(offset + start))
    case Some(form) =>
      var end := start + |FormText(form)|;
      var trailing := context == AfterLike && end < |rest| && rest[end] == '%';
      assert rest[start..][..|FormText(form)|] == rest[start..end];
      MarkerTextIsPrefix(rest, leading, form, trailing, context);
      Success(Marker(leading, form, trailing, context))
  }

  /**
    The token at the start of `rest`, the part of the template after the raw
    text `seen`: a quoted literal, a run of characters that cannot start a
    marker, a marker with its wildcards, or a lone special character that
    starts no marker.
   */
  function NextToken(seen: string, rest: string): (r: Result<Token, ParseError>)
    requires rest != []
    ensures r.Success? ==> 0 < |TokenText(r.value)| <= |rest| && rest[..|TokenText(r.value)|] == TokenText(r.value)
    ensures r.Success? ==> WellFormed(r.value)
    ensures r.Success? && r.value.Marker? ==> r.value.context == ContextOf(seen)
    ensures r.Failure? ==> r.error.MalformedExpression?
    ensures r.Failure? ==> |seen| <= r.error.offset < |seen| + |rest| && Unterminated(rest[r.error.offset - |seen|..])
  {
    if rest[0] == '\'' then
      Success(Literal(rest[..QuotedLength(rest)]))
    else if IsPlain(rest[0]) then
      Success(Literal(rest[..SpanLength(rest, IsPlain)]))
    else
      var context := ContextOf(seen);
      var leading := rest[0] == '%' && context == AfterLike && StartsMarker(rest[1..]);
      if StartsMarker(rest[(if leading then 1 else 0)..]) then
        MarkerToken(context, rest, leading, |seen|)
      else
        Success(Literal(rest[..1]))
  }

  /** Scans `rest`, the part of the template after the raw text `seen`. */
  function TokenizeFrom(seen: string, rest: string): Result<seq<Token>, ParseError>
    decreases |rest|
  {
    if rest == [] then Success([])
    else
      match NextToken(seen, rest)
      case Failure(e) => Failure(e)
      case Success(t) =>
        var n := |TokenText(t)|;
        Cons(t, TokenizeFrom(seen + rest[..n], rest[n..]))
  }

  function Tokenize(raw: string): Result<seq<Token>, ParseError> {
    TokenizeFrom("", raw)
  }

  /** A token read at the start of `rest` is followed by the scan of the text after it. */
  lemma TokenizeAdvance(seen: string, rest: string)
    requires rest != [] && NextToken(seen, rest).Success?
    ensures var t := NextToken(seen, rest).value; var n := |TokenText(t)|;
      n <= |rest| && TokenizeFrom(seen, rest) == Cons(t, TokenizeFrom(seen + rest[..n], rest[n..]))
  {
  }

  /** A token that cannot be read stops the scan with its error. */
  lemma TokenizeHalt(seen: string, rest: string)
    requires rest != []
    ensures NextToken(seen, rest).Failure? ==> TokenizeFrom(seen, rest) == Failure(NextToken(seen, rest).error)
  {
  }

  lemma RenderPrepend(t: Token, ts: seq<Token>)
    ensures Render([t] + ts) == TokenText(t) + Render(ts)
  {
    assert ([t] + ts)[1..] == ts;
  }

  lemma SplitText(s: string, n: nat)
    requires n <= |s|
    ensures s[..n] + s[n..] == s
  {
  }

  lemma ConsParts(t: Token, r: Result<seq<Token>, ParseError>)
    ensures Cons(t, r).Success? <==> r.Success?
    ensures r.Success? ==> Cons(t, r).value == [t] + r.value
    ensures r.Failure? ==> Cons(t, r).error == r.error
  {
  }

  /* ---------------------------------------------------------------- properties */

  /**
    The scanner loses nothing: the tokens render back to the scanned text, and
    every marker is well formed.
   */
  lemma {:induction false} TokenizeRendersInput(seen: string, rest: string)
    ensures TokenizeFrom(seen, rest).Success? ==> Render(TokenizeFrom(seen, rest).value) == rest
    ensures TokenizeFrom(seen, rest).Success? ==> forall t <- TokenizeFrom(seen, rest).value :: WellFormed(t)
    decreases |rest|
  {
    if rest != [] {
      TokenizeHalt(seen, rest);
      if NextToken(seen, rest).Success? {
        var t := NextToken(seen, rest).value;
        var n := |TokenText(t)|;
        var after := seen + rest[..n];
        TokenizeAdvance(seen, rest);
        ConsParts(t, TokenizeFrom(after, rest[n..]));
        TokenizeRendersInput(after, rest[n..]);
        if TokenizeFrom(after, rest[n..]).Success? {
          RenderPrepend(t, TokenizeFrom(after, rest[n..]).value);
          SplitText(rest, n);
        }
      }
    }
  }

  /** Each marker of `ts` carries the keyword context of the raw text before it. */
  predicate ContextsAgree(seen: string, ts: seq<Token>)
    decreases |ts|
  {
    ts != [] ==>
      (ts[0].Marker? ==> ts[0].context == ContextOf(seen))
      && ContextsAgree(seen + TokenText(ts[0]), ts[1..])
  }

  lemma RenderPrefixStep(seen: string, ts: seq<Token>, i: nat)
    requires 0 < i <= |ts|
    ensures seen + Render(ts[..i]) == (seen + TokenText(ts[0])) + Render(ts[1..][..i - 1])
  {
    assert ts[..i] == [ts[0]] + ts[1..][..i - 1];
    RenderAppend([ts[0]], ts[1..][..i - 1]);
    assert Render([ts[0]]) == TokenText(ts[0]) + Render([]);
  }

  lemma {:induction false} ContextsAgreeAt(seen: string, ts: seq<Token>, i: nat)
    requires ContextsAgree(seen, ts)
    requires i < |ts| && ts[i].Marker?
    ensures ts[i].context == ContextOf(seen + Render(ts[..i]))
    decreases i
  {
    if i == 0 {
      assert seen + Render(ts[..0]) == seen;
    } else {
      ContextsAgreeAt(seen + TokenText(ts[0]), ts[1..], i - 1);
      RenderPrefixStep(seen, ts, i);
    }
  }

  lemma {:induction false} TokenizeContextsAgree(seen: string, rest: string)
    requires TokenizeFrom(seen, rest).Success?
    ensures ContextsAgree(seen, TokenizeFrom(seen, rest).value)
    decreases |rest|
  {
    if rest != [] {
      TokenizeHalt(seen, rest);
      var t := NextToken(seen, rest).value;
      var n := |TokenText(t)|;
      var after := seen + rest[..n];
      TokenizeAdvance(seen, rest);
      ConsParts(t, TokenizeFrom(after, rest[n..]));
      TokenizeContextsAgree(after, rest[n..]);
      var tail := TokenizeFrom(after, rest[n..]).value;
      assert ([t] + tail)[1..] == tail;
    }
  }

  /** Every marker's context is the keyword context of the raw text before it. */
  lemma TokenizeContexts(seen: string, rest: string)
    requires TokenizeFrom(seen, rest).Success?
    ensures var ts := TokenizeFrom(seen, rest).value;
      forall i :: 0 <= i < |ts| && ts[i].Marker? ==> ts[i].context == ContextOf(seen + Render(ts[..i]))
  {
    var ts := TokenizeFrom(seen, rest).value;
    TokenizeContextsAgree(seen, rest);
    forall i | 0 <= i < |ts| && ts[i].Marker?
      ensures ts[i].context == ContextOf(seen + Render(ts[..i]))
    {
      ContextsAgreeAt(seen, ts, i);
    }
  }

  /** The scanner fails only at an expression marker whose braces never close. */
  lemma TokenizeFailsOnlyOnUnterminated(seen: string, rest: string)
    requires TokenizeFrom(seen, rest).Failure?
    ensures var e := TokenizeFrom(seen, rest).error;
      e.MalformedExpression? && |seen| <= e.offset < |seen| + |rest|
      && Unterminated(rest[e.offset - |seen|..])
  {
    TokenizeStops(seen, rest);
    FailedStop(seen, rest, TokenizeFrom(seen, rest));
  }

  lemma FailedStop(seen: string, rest: string, r: Result<seq<Token>, ParseError>)
    requires StopsAtUnterminated(seen, rest, r) && r.Failure?
    ensures r.error.MalformedExpression? && |seen| <= r.error.offset < |seen| + |rest|
    ensures Unterminated(rest[r.error.offset - |seen|..])
  {
  }

  /** `r`, the scan of `rest` after `seen`, fails only at an unterminated expression. */
  predicate StopsAtUnterminated(seen: string, rest: string, r: Result<seq<Token>, ParseError>) {
    r.Failure? ==>
      r.error.MalformedExpression? && |seen| <= r.error.offset < |seen| + |rest|
      && Unterminated(rest[r.error.offset - |seen|..])
  }

  lemma {:induction false} TokenizeStops(seen: string, rest: string)
    ensures StopsAtUnterminated(seen, rest, TokenizeFrom(seen, rest))
    decreases |rest|
  {
    if rest != [] {
      TokenizeHalt(seen, rest);
      if NextToken(seen, rest).Success? {
        var t := NextToken(seen, rest).value;
        var n := |TokenText(t)|;
        var after := seen + rest[..n];
        TokenizeAdvance(seen, rest);
        ConsParts(t, TokenizeFrom(after, rest[n..]));
        TokenizeStops(after, rest[n..]);
        StopShift(seen, rest, n, TokenizeFrom(seen, rest), TokenizeFrom(after, rest[n..]));
      }
    }
  }

  /** A failure found after the first `n` characters of `rest` is a failure of the scan of `rest`. */
  lemma StopShift(seen: string, rest: string, n: nat, whole: Result<seq<Token>, ParseError>, r: Result<seq<Token>, ParseError>)
    requires n <= |rest| && (whole.Failure? ==> r.Failure? && whole.error == r.error)
    requires StopsAtUnterminated(seen + rest[..n], rest[n..], r)
    ensures StopsAtUnterminated(seen, rest, whole)
  {
    if whole.Failure? {
      var k := r.error.offset - |seen|;
      assert rest[n..][k - n..] == rest[k..];
    }
  }
}
