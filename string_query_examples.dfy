/**
  The documented behaviour of query templates, stated over their variable
  parts. Each lemma takes the template of one documented case, with the
  query text around the markers left open (any text that starts no marker
  and does not continue the marker before it), and states the parsed query
  text and the exact list of bindings.
 */
module StringQueryExamples {

  import opened Wrappers
  import opened Lexical
  import opened Bindings
  import opened Scanner
  import opened ScannerSteps
  import opened Templates
  import opened Extractor
  import opened Namer
  import opened Resolver
  import opened Rewriter
  import opened ConstructorExpression
  import opened StringQuery
  import opened ExampleTexts

  /* ---------------------------------------------------------------- general */

  /**
    A separated template parses to the text of its resolved tokens with the
    wildcards dropped and to the bindings collected from their markers.
   */
  lemma ParseTemplate(ts: seq<Token>)
    requires Separated(ts)
    ensures var resolved := ResolvedTokens(ts);
      Parse(Render(ts)) ==
        match Collect(Occurrences(resolved))
        case Success(bs) => Success(ParsedQuery(Rewrite(resolved), bs, HasConstructorExpression(Render(ts))))
        case Failure(e) => Failure(e)
  {
    TokenizeRender(ts);
  }

  /** Without expression markers the tokens are their own resolution. */
  lemma ParseSeparated(ts: seq<Token>)
    requires Separated(ts) && NoExpressions(ts)
    ensures Parse(Render(ts)) ==
      match Collect(Occurrences(ts))
      case Success(bs) => Success(ParsedQuery(Rewrite(ts), bs, HasConstructorExpression(Render(ts))))
      case Failure(e) => Failure(e)
  {
    ParseTemplate(ts);
    ResolveWithoutExpressions(ts, MaxPosition(ts));
  }

  lemma Associative(a: string, b: string, c: string)
    ensures (a + b) + c == a + (b + c)
  {
  }

  lemma RenderOne(t: Token)
    ensures Render([t]) == TokenText(t) && Rewrite([t]) == StrippedText(t)
  {
    assert [t][1..] == [];
    assert Render([t]) == TokenText(t) + Render([]);
    assert Rewrite([t]) == StrippedText(t) + Rewrite([]);
  }

  /** The text and query text of a clause: plain text, a context word, then a marker. */
  lemma ClauseTexts(p: string, w: string, m: Token)
    requires m.Marker?
    ensures Render([Literal(p + w), m]) == p + (w + TokenText(m))
    ensures Rewrite([Literal(p + w), m]) == p + (w + FormText(m.form))
  {
    var ts := [Literal(p + w), m];
    assert ts[1..] == [m] && [m][1..] == [];
    assert Render([m]) == TokenText(m) + Render([]);
    assert Rewrite([m]) == FormText(m.form) + Rewrite([]);
    assert Render(ts) == (p + w) + TokenText(m) && Rewrite(ts) == (p + w) + FormText(m.form);
    Associative(p, w, TokenText(m));
    Associative(p, w, FormText(m.form));
  }

  /** A clause declares the binding of its marker. */
  lemma ClauseOccurrences(text: string, m: Token)
    requires m.Marker? && !m.form.Expression?
    ensures NoExpressions([Literal(text), m]) && Occurrences([Literal(text), m]) == [OccurrenceOf(m)]
  {
    assert [Literal(text), m][1..] == [m] && [m][1..] == [];
    assert Occurrences([m]) == [OccurrenceOf(m)] + Occurrences([]);
  }

  /**
    A clause of a template: plain text `p`, the word `w` that gives the
    marker `m` its context, and `m`.
   */
  lemma Clause(p: string, w: string, m: Token)
    requires m.Marker? && MarkerFits(m, None)
    requires PlainText(p) && PlainText(w) && Introduces(w, m.context)
    ensures PlainLiteral(Literal(p + w)) && Separated([Literal(p + w), m])
  {
    ClauseLiteral(p, w, m.context);
    ClauseSeparated(p + w, m);
  }

  /** Plain text that does not continue a marker, then a word that starts outside a word, does not continue it either. */
  lemma NotContinued(f: MarkerForm, p: string, w: string)
    requires Follows(p) && w != [] && !IsWordChar(w[0])
    ensures !Continues(f, (p + w)[0])
  {
    assert (p + w)[0] == if p == [] then w[0] else p[0];
  }

  /** A further clause after a separated template that ends in a marker or a quoted literal. */
  lemma ClauseAppend(ts: seq<Token>, p: string, w: string, m: Token)
    requires Separated(ts) && ts != [] && !PlainLiteral(ts[|ts| - 1])
    requires m.Marker? && MarkerFits(m, None)
    requires Follows(p) && PlainText(w) && w != [] && !IsWordChar(w[0]) && Introduces(w, m.context)
    ensures Separated(ts + [Literal(p + w), m])
  {
    Clause(p, w, m);
    if ts[|ts| - 1].Marker? {
      NotContinued(ts[|ts| - 1].form, p, w);
    }
    SeparatedAppend(ts, [Literal(p + w), m]);
  }

  /** A further clause adds its text to the template, its text without wildcards to the query, and its binding. */
  lemma ClauseAppendTexts(ts: seq<Token>, p: string, w: string, m: Token)
    requires m.Marker?
    ensures var all := ts + [Literal(p + w), m];
      Render(all) == Render(ts) + (p + (w + TokenText(m)))
      && Rewrite(all) == Rewrite(ts) + (p + (w + FormText(m.form)))
      && (NoExpressions(ts) && !m.form.Expression? ==> NoExpressions(all) && Occurrences(all) == Occurrences(ts) + [OccurrenceOf(m)])
  {
    var c := [Literal(p + w), m];
    RenderAppend(ts, c);
    RewriteAppend(ts, c);
    ClauseTexts(p, w, m);
    if NoExpressions(ts) && !m.form.Expression? {
      ClauseOccurrences(p + w, m);
      OccurrencesAppend(ts, c);
    }
  }

  /** Plain text at the end of a template that ends in a marker or a quoted literal. */
  lemma TextAppend(ts: seq<Token>, q: string)
    requires Separated(ts) && ts != [] && !PlainLiteral(ts[|ts| - 1])
    requires Follows(q) && q != []
    ensures Separated(ts + [Literal(q)])
  {
    var c := [Literal(q)];
    assert FitsAt(c, 0);
    if ts[|ts| - 1].Marker? {
      assert !Continues(ts[|ts| - 1].form, q[0]);
    }
    SeparatedAppend(ts, c);
  }

  /** A quoted literal after a plain literal. */
  lemma QuotedAppend(ts: seq<Token>, q: string)
    requires Separated(ts) && ts != [] && ts[|ts| - 1].Literal? && QuotedLiteral(Literal(q))
    ensures Separated(ts + [Literal(q)])
  {
    var c := [Literal(q)];
    assert FitsAt(c, 0);
    assert !PlainLiteral(Literal(q)) by {
      assert !IsPlain(q[0]);
    }
    SeparatedAppend(ts, c);
  }

  /** A literal adds its text to the template and to the query, and no binding. */
  lemma LiteralTexts(ts: seq<Token>, q: string)
    ensures var all := ts + [Literal(q)];
      Render(all) == Render(ts) + q && Rewrite(all) == Rewrite(ts) + q
      && (NoExpressions(ts) ==> NoExpressions(all) && Occurrences(all) == Occurrences(ts))
  {
    var c := [Literal(q)];
    RenderAppend(ts, c);
    RewriteAppend(ts, c);
    RenderOne(Literal(q));
    if NoExpressions(ts) {
      OccurrencesAppend(ts, c);
      assert c[1..] == [];
    }
  }

  /* ---------------------------------------------------------------- words and markers */

  lemma LikeWord()
    ensures PlainText(" like ") && Introduces(" like ", AfterLike)
  {
  }

  lemma InWord()
    ensures PlainText(" in ") && Introduces(" in ", AfterIn)
  {
  }

  lemma EqualsWord()
    ensures PlainText(" = ") && Introduces(" = ", NoKeyword)
  {
  }

  lemma GreaterWord()
    ensures PlainText(" > ") && Introduces(" > ", NoKeyword)
  {
  }

  /** A named marker that is not continued fits anywhere its context allows. */
  lemma NamedMarker(leading: bool, name: string, trailing: bool, c: Context)
    requires name != [] && AllWordChars(name) && (leading || trailing ==> c == AfterLike)
    ensures var m := Marker(leading, NamedRef(name), trailing, c);
      MarkerFits(m, None) && FormText(m.form) == [':'] + name
      && TokenText(m) == Wildcard(leading) + ([':'] + name) + Wildcard(trailing)
  {
  }

  /** A positional marker that is not continued fits anywhere its context allows. */
  lemma PositionalMarker(leading: bool, digits: string, trailing: bool, c: Context)
    requires digits != [] && AllDigits(digits) && (leading || trailing ==> c == AfterLike)
    ensures var m := Marker(leading, PositionalRef(digits), trailing, c);
      MarkerFits(m, None) && FormText(m.form) == ['?'] + digits
      && TokenText(m) == Wildcard(leading) + (['?'] + digits) + Wildcard(trailing)
  {
  }

  /** Resolving a clause resolves its marker. */
  lemma ResolveClause(x: string, m: Token, base: nat, table: seq<Entry>)
    ensures ResolveFrom([Literal(x), m], base, table) ==
      ([Literal(x), ResolveToken(m, base, table).0], ResolveToken(m, base, table).1)
  {
    var ts := [Literal(x), m];
    var (t, next) := ResolveToken(m, base, table);
    assert ts[1..] == [m] && [m][1..] == [];
    assert ResolveFrom([m], base, table) == ([t] + [], next);
    assert [t] + [] == [t] && [Literal(x)] + [t] == [Literal(x), t];
  }

  /** Registering the first occurrence of a parameter. */
  lemma RegisterFirst(a: Binding)
    ensures Register([], a) == Success([a])
  {
    assert [] + [a] == [a];
  }

  /** Two occurrences of one parameter with different kinds are a conflict. */
  lemma CollectConflict(a: Binding, b: Binding)
    requires a.id == b.id && a.kind != b.kind
    ensures Collect([a, b]) == Failure(ConflictingBinding(a.id, a.kind, b.kind))
  {
    RegisterFirst(a);
    assert IndexOf([a], b.id) == Some(0);
    assert [a, b][1..] == [b] && [b][1..] == [];
    assert CollectFrom([a], [b]) == Failure(ConflictingBinding(a.id, a.kind, b.kind));
  }

  /** A repeated occurrence with the same kind adds nothing. */
  lemma CollectRepeated(a: Binding, b: Binding)
    requires a.id != b.id
    ensures Collect([a, a, b]) == Success([a, b])
  {
    RegisterFirst(a);
    assert IndexOf([a], a.id) == Some(0);
    assert IndexOf([a][1..], b.id) == None;
    assert IndexOf([a], b.id) == None;
    assert [a] + [b] == [a, b];
    assert Register([a], b) == Success([a, b]);
    assert [a, a, b][1..] == [a, b] && [a, b][1..] == [b] && [b][1..] == [];
    assert CollectFrom([a, b], []) == Success([a, b]);
    assert CollectFrom([a], [b]) == Success([a, b]);
    assert CollectFrom([a], [a, b]) == Success([a, b]);
  }

  /** One parameter occurring twice with one kind. */
  lemma CollectTwice(a: Binding)
    ensures Collect([a, a]) == Success([a])
  {
    RegisterFirst(a);
    assert IndexOf([a], a.id) == Some(0);
    assert [a, a][1..] == [a] && [a][1..] == [];
    assert CollectFrom([a], [a]) == Success([a]);
  }

  /* ---------------------------------------------------------------- one, two and three clauses */

  /** A template of one clause. */
  lemma OneClause(p: string, w: string, m: Token)
    requires m.Marker? && !m.form.Expression? && MarkerFits(m, None)
    requires PlainText(p) && PlainText(w) && Introduces(w, m.context)
    ensures var raw := p + (w + TokenText(m));
      Parse(raw) == Success(ParsedQuery(p + (w + FormText(m.form)), [OccurrenceOf(m)], HasConstructorExpression(raw)))
  {
    var ts := [Literal(p + w), m];
    ClauseTexts(p, w, m);
    ClauseOccurrences(p + w, m);
    CollectDistinct([OccurrenceOf(m)]);
    Clause(p, w, m);
    ParseSeparated(ts);
  }

  lemma TwoClausesSeparated(p1: string, w1: string, m1: Token, p2: string, w2: string, m2: Token)
    requires m1.Marker? && MarkerFits(m1, None) && m2.Marker? && MarkerFits(m2, None)
    requires PlainText(p1) && PlainText(w1) && Introduces(w1, m1.context)
    requires Follows(p2) && PlainText(w2) && w2 != [] && !IsWordChar(w2[0]) && Introduces(w2, m2.context)
    ensures Separated([Literal(p1 + w1), m1] + [Literal(p2 + w2), m2])
  {
    Clause(p1, w1, m1);
    ClauseAppend([Literal(p1 + w1), m1], p2, w2, m2);
  }

  lemma TwoClausesTexts(p1: string, w1: string, m1: Token, p2: string, w2: string, m2: Token)
    requires m1.Marker? && m2.Marker?
    ensures var ts := [Literal(p1 + w1), m1] + [Literal(p2 + w2), m2];
      Render(ts) == p1 + (w1 + TokenText(m1)) + p2 + (w2 + TokenText(m2))
      && Rewrite(ts) == p1 + (w1 + FormText(m1.form)) + p2 + (w2 + FormText(m2.form))
      && (!m1.form.Expression? && !m2.form.Expression? ==>
            NoExpressions(ts) && Occurrences(ts) == [OccurrenceOf(m1), OccurrenceOf(m2)])
  {
    var c1 := [Literal(p1 + w1), m1];
    ClauseTexts(p1, w1, m1);
    if !m1.form.Expression? {
      ClauseOccurrences(p1 + w1, m1);
    }
    ClauseAppendTexts(c1, p2, w2, m2);
    Associative(p1 + (w1 + TokenText(m1)), p2, w2 + TokenText(m2));
    Associative(p1 + (w1 + FormText(m1.form)), p2, w2 + FormText(m2.form));
  }

  /** A template of two clauses. */
  lemma TwoClauses(p1: string, w1: string, m1: Token, p2: string, w2: string, m2: Token)
    requires m1.Marker? && !m1.form.Expression? && MarkerFits(m1, None)
    requires m2.Marker? && !m2.form.Expression? && MarkerFits(m2, None)
    requires PlainText(p1) && PlainText(w1) && Introduces(w1, m1.context)
    requires Follows(p2) && PlainText(w2) && w2 != [] && !IsWordChar(w2[0]) && Introduces(w2, m2.context)
    ensures var raw := p1 + (w1 + TokenText(m1)) + p2 + (w2 + TokenText(m2));
      Parse(raw) ==
        match Collect([OccurrenceOf(m1), OccurrenceOf(m2)])
        case Success(bs) => Success(ParsedQuery(p1 + (w1 + FormText(m1.form)) + p2 + (w2 + FormText(m2.form)), bs, HasConstructorExpression(raw)))
        case Failure(e) => Failure(e)
  {
    TwoClausesTexts(p1, w1, m1, p2, w2, m2);
    TwoClausesSeparated(p1, w1, m1, p2, w2, m2);
    ParseSeparated([Literal(p1 + w1), m1] + [Literal(p2 + w2), m2]);
  }

  lemma ThreeClausesSeparated(p1: string, w1: string, m1: Token, p2: string, w2: string, m2: Token, p3: string, w3: string, m3: Token)
    requires m1.Marker? && MarkerFits(m1, None) && m2.Marker? && MarkerFits(m2, None) && m3.Marker? && MarkerFits(m3, None)
    requires PlainText(p1) && PlainText(w1) && Introduces(w1, m1.context)
    requires Follows(p2) && PlainText(w2) && w2 != [] && !IsWordChar(w2[0]) && Introduces(w2, m2.context)
    requires Follows(p3) && PlainText(w3) && w3 != [] && !IsWordChar(w3[0]) && Introduces(w3, m3.context)
    ensures Separated([Literal(p1 + w1), m1] + [Literal(p2 + w2), m2] + [Literal(p3 + w3), m3])
  {
    TwoClausesSeparated(p1, w1, m1, p2, w2, m2);
    ClauseAppend([Literal(p1 + w1), m1] + [Literal(p2 + w2), m2], p3, w3, m3);
  }

  lemma ThreeClausesTexts(p1: string, w1: string, m1: Token, p2: string, w2: string, m2: Token, p3: string, w3: string, m3: Token)
    requires m1.Marker? && m2.Marker? && m3.Marker?
    ensures var ts := [Literal(p1 + w1), m1] + [Literal(p2 + w2), m2] + [Literal(p3 + w3), m3];
      Render(ts) == p1 + (w1 + TokenText(m1)) + p2 + (w2 + TokenText(m2)) + p3 + (w3 + TokenText(m3))
      && Rewrite(ts) == p1 + (w1 + FormText(m1.form)) + p2 + (w2 + FormText(m2.form)) + p3 + (w3 + FormText(m3.form))
      && (!m1.form.Expression? && !m2.form.Expression? && !m3.form.Expression? ==>
            NoExpressions(ts) && Occurrences(ts) == [OccurrenceOf(m1), OccurrenceOf(m2), OccurrenceOf(m3)])
  {
    var c2 := [Literal(p1 + w1), m1] + [Literal(p2 + w2), m2];
    TwoClausesTexts(p1, w1, m1, p2, w2, m2);
    ClauseAppendTexts(c2, p3, w3, m3);
    Associative(p1 + (w1 + TokenText(m1)) + p2 + (w2 + TokenText(m2)), p3, w3 + TokenText(m3));
    Associative(p1 + (w1 + FormText(m1.form)) + p2 + (w2 + FormText(m2.form)), p3, w3 + FormText(m3.form));
  }

  /** A template of three clauses. */
  lemma ThreeClauses(p1: string, w1: string, m1: Token, p2: string, w2: string, m2: Token, p3: string, w3: string, m3: Token)
    requires m1.Marker? && !m1.form.Expression? && MarkerFits(m1, None)
    requires m2.Marker? && !m2.form.Expression? && MarkerFits(m2, None)
    requires m3.Marker? && !m3.form.Expression? && MarkerFits(m3, None)
    requires PlainText(p1) && PlainText(w1) && Introduces(w1, m1.context)
    requires Follows(p2) && PlainText(w2) && w2 != [] && !IsWordChar(w2[0]) && Introduces(w2, m2.context)
    requires Follows(p3) && PlainText(w3) && w3 != [] && !IsWordChar(w3[0]) && Introduces(w3, m3.context)
    ensures var raw := p1 + (w1 + TokenText(m1)) + p2 + (w2 + TokenText(m2)) + p3 + (w3 + TokenText(m3));
      Parse(raw) ==
        match Collect([OccurrenceOf(m1), OccurrenceOf(m2), OccurrenceOf(m3)])
        case Success(bs) => Success(ParsedQuery(
          p1 + (w1 + FormText(m1.form)) + p2 + (w2 + FormText(m2.form)) + p3 + (w3 + FormText(m3.form)),
          bs, HasConstructorExpression(raw)))
        case Failure(e) => Failure(e)
  {
    ThreeClausesTexts(p1, w1, m1, p2, w2, m2, p3, w3, m3);
    ThreeClausesSeparated(p1, w1, m1, p2, w2, m2, p3, w3, m3);
    ParseSeparated([Literal(p1 + w1), m1] + [Literal(p2 + w2), m2] + [Literal(p3 + w3), m3]);
  }
  /* ---------------------------------------------------------------- documented cases */

  /** A marker after LIKE without wildcards is a plain LIKE binding, and the query is the template. */
  lemma PlainLikeBinding(p: string)
    requires PlainText(p)
    ensures var raw := p + " like :firstname";
      Parse(raw) == Success(ParsedQuery(raw, [Binding(Name("firstname"), Like(Plain))], HasConstructorExpression(raw)))
  {
    var m := Marker(false, NamedRef("firstname"), false, AfterLike);
    LikeWord();
    NamedMarker(false, "firstname", false, AfterLike);
    assert " like " + TokenText(m) == " like " + FormText(m.form) == " like :firstname";
    assert OccurrenceOf(m) == Binding(Name("firstname"), Like(Plain));
    OneClause(p, " like ", m);
  }

  /**
    `%?1%` is a CONTAINING and `%?2` an ENDING_WITH binding, in that order;
    the query keeps the markers and drops the wildcards.
   */
  lemma PositionalLikeBindings(p1: string, p2: string)
    requires PlainText(p1) && Follows(p2)
    ensures var raw := p1 + " like %?1%" + p2 + " like %?2";
      Parse(raw) == Success(ParsedQuery(p1 + " like ?1" + p2 + " like ?2",
        [Binding(Position(1), Like(Containing)), Binding(Position(2), Like(EndingWith))],
        HasConstructorExpression(raw)))
  {
    var m1 := Marker(true, PositionalRef("1"), true, AfterLike);
    var m2 := Marker(true, PositionalRef("2"), false, AfterLike);
    LikeWord();
    PositionalMarker(true, "1", true, AfterLike);
    PositionalMarker(true, "2", false, AfterLike);
    assert " like " + TokenText(m1) == " like %?1%" && " like " + FormText(m1.form) == " like ?1";
    assert " like " + TokenText(m2) == " like %?2" && " like " + FormText(m2.form) == " like ?2";
    var b1, b2 := Binding(Position(1), Like(Containing)), Binding(Position(2), Like(EndingWith));
    assert OccurrenceOf(m1) == b1 && OccurrenceOf(m2) == b2;
    CollectDistinct([b1, b2]);
    TwoClauses(p1, " like ", m1, p2, " like ", m2);
  }

  /** `%:firstname` is an ENDING_WITH binding; the query drops the wildcard. */
  lemma NamedLikeBinding(p: string)
    requires PlainText(p)
    ensures var raw := p + " like %:firstname";
      Parse(raw) == Success(ParsedQuery(p + " like :firstname", [Binding(Name("firstname"), Like(EndingWith))],
        HasConstructorExpression(raw)))
  {
    var m := Marker(true, NamedRef("firstname"), false, AfterLike);
    LikeWord();
    NamedMarker(true, "firstname", false, AfterLike);
    assert " like " + TokenText(m) == " like %:firstname" && " like " + FormText(m.form) == " like :firstname";
    assert OccurrenceOf(m) == Binding(Name("firstname"), Like(EndingWith));
    OneClause(p, " like ", m);
  }

  /** A named marker after IN is an IN binding; the query is the template. */
  lemma NamedInBinding(p: string)
    requires PlainText(p)
    ensures var raw := p + " in :ids";
      Parse(raw) == Success(ParsedQuery(raw, [Binding(Name("ids"), In)], HasConstructorExpression(raw)))
  {
    var m := Marker(false, NamedRef("ids"), false, AfterIn);
    InWord();
    NamedMarker(false, "ids", false, AfterIn);
    assert " in " + TokenText(m) == " in " + FormText(m.form) == " in :ids";
    assert OccurrenceOf(m) == Binding(Name("ids"), In);
    OneClause(p, " in ", m);
  }

  /** Two IN markers and a comparison give two IN bindings and a simple one, in order; the query is the template. */
  lemma MultipleNamedInBindings(p1: string, p2: string, p3: string)
    requires PlainText(p1) && Follows(p2) && Follows(p3)
    ensures var raw := p1 + " in :ids" + p2 + " in :names" + p3 + " = :bar";
      Parse(raw) == Success(ParsedQuery(raw,
        [Binding(Name("ids"), In), Binding(Name("names"), In), Binding(Name("bar"), Simple)],
        HasConstructorExpression(raw)))
  {
    var m1 := Marker(false, NamedRef("ids"), false, AfterIn);
    var m2 := Marker(false, NamedRef("names"), false, AfterIn);
    var m3 := Marker(false, NamedRef("bar"), false, NoKeyword);
    InWord();
    EqualsWord();
    NamedMarker(false, "ids", false, AfterIn);
    NamedMarker(false, "names", false, AfterIn);
    NamedMarker(false, "bar", false, NoKeyword);
    assert " in " + TokenText(m1) == " in " + FormText(m1.form) == " in :ids";
    assert " in " + TokenText(m2) == " in " + FormText(m2.form) == " in :names";
    assert " = " + TokenText(m3) == " = " + FormText(m3.form) == " = :bar";
    var b1, b2, b3 := Binding(Name("ids"), In), Binding(Name("names"), In), Binding(Name("bar"), Simple);
    assert OccurrenceOf(m1) == b1 && OccurrenceOf(m2) == b2 && OccurrenceOf(m3) == b3;
    CollectDistinct([b1, b2, b3]);
    ThreeClauses(p1, " in ", m1, p2, " in ", m2, p3, " = ", m3);
  }

  /** A positional marker after IN is an IN binding; the query is the template. */
  lemma PositionalInBinding(p: string)
    requires PlainText(p)
    ensures var raw := p + " in ?1";
      Parse(raw) == Success(ParsedQuery(raw, [Binding(Position(1), In)], HasConstructorExpression(raw)))
  {
    var m := Marker(false, PositionalRef("1"), false, AfterIn);
    InWord();
    PositionalMarker(false, "1", false, AfterIn);
    assert " in " + TokenText(m) == " in " + FormText(m.form) == " in ?1";
    assert OccurrenceOf(m) == Binding(Position(1), In);
    OneClause(p, " in ", m);
  }

  /** Positional IN markers and a comparison give IN, IN and simple bindings, in order; the query is the template. */
  lemma MultiplePositionalInBindings(p1: string, p2: string, p3: string)
    requires PlainText(p1) && Follows(p2) && Follows(p3)
    ensures var raw := p1 + " in ?1" + p2 + " in ?2" + p3 + " = ?3";
      Parse(raw) == Success(ParsedQuery(raw,
        [Binding(Position(1), In), Binding(Position(2), In), Binding(Position(3), Simple)],
        HasConstructorExpression(raw)))
  {
    var m1 := Marker(false, PositionalRef("1"), false, AfterIn);
    var m2 := Marker(false, PositionalRef("2"), false, AfterIn);
    var m3 := Marker(false, PositionalRef("3"), false, NoKeyword);
    InWord();
    EqualsWord();
    PositionalMarker(false, "1", false, AfterIn);
    PositionalMarker(false, "2", false, AfterIn);
    PositionalMarker(false, "3", false, NoKeyword);
    assert " in " + TokenText(m1) == " in " + FormText(m1.form) == " in ?1";
    assert " in " + TokenText(m2) == " in " + FormText(m2.form) == " in ?2";
    assert " = " + TokenText(m3) == " = " + FormText(m3.form) == " = ?3";
    var b1, b2, b3 := Binding(Position(1), In), Binding(Position(2), In), Binding(Position(3), Simple);
    assert OccurrenceOf(m1) == b1 && OccurrenceOf(m2) == b2 && OccurrenceOf(m3) == b3;
    CollectDistinct([b1, b2, b3]);
    ThreeClauses(p1, " in ", m1, p2, " in ", m2, p3, " = ", m3);
  }

  /** Two LIKE markers with different parameters parse, each with its own pattern type. */
  lemma MultipleNamedLikeBindings(p1: string, p2: string)
    requires PlainText(p1) && Follows(p2)
    ensures var raw := p1 + " like %:firstname" + p2 + " like :bar";
      Parse(raw) == Success(ParsedQuery(p1 + " like :firstname" + p2 + " like :bar",
        [Binding(Name("firstname"), Like(EndingWith)), Binding(Name("bar"), Like(Plain))],
        HasConstructorExpression(raw)))
  {
    var m1 := Marker(true, NamedRef("firstname"), false, AfterLike);
    var m2 := Marker(false, NamedRef("bar"), false, AfterLike);
    LikeWord();
    NamedMarker(true, "firstname", false, AfterLike);
    NamedMarker(false, "bar", false, AfterLike);
    assert " like " + TokenText(m1) == " like %:firstname" && " like " + FormText(m1.form) == " like :firstname";
    assert " like " + TokenText(m2) == " like " + FormText(m2.form) == " like :bar";
    var b1, b2 := Binding(Name("firstname"), Like(EndingWith)), Binding(Name("bar"), Like(Plain));
    assert OccurrenceOf(m1) == b1 && OccurrenceOf(m2) == b2;
    CollectDistinct([b1, b2]);
    TwoClauses(p1, " like ", m1, p2, " like ", m2);
  }

  /** `%?1` and then `?1%`: one parameter as ENDING_WITH and as STARTING_WITH is rejected. */
  lemma RepeatedParameterConflict(p1: string, p2: string)
    requires PlainText(p1) && Follows(p2)
    ensures Parse(p1 + " like %?1" + p2 + " like ?1%")
      == Failure(ConflictingBinding(Position(1), Like(EndingWith), Like(StartingWith)))
  {
    var m1 := Marker(true, PositionalRef("1"), false, AfterLike);
    var m2 := Marker(false, PositionalRef("1"), true, AfterLike);
    LikeWord();
    PositionalMarker(true, "1", false, AfterLike);
    PositionalMarker(false, "1", true, AfterLike);
    assert " like " + TokenText(m1) == " like %?1" && " like " + TokenText(m2) == " like ?1%";
    var b1, b2 := Binding(Position(1), Like(EndingWith)), Binding(Position(1), Like(StartingWith));
    assert OccurrenceOf(m1) == b1 && OccurrenceOf(m2) == b2;
    CollectConflict(b1, b2);
    TwoClauses(p1, " like ", m1, p2, " like ", m2);
  }

  /** `?1` and then `%?1`: one parameter as a plain LIKE and as ENDING_WITH is rejected. */
  lemma RepeatedParameterConflictReversed(p1: string, p2: string)
    requires PlainText(p1) && Follows(p2)
    ensures Parse(p1 + " like ?1" + p2 + " like %?1")
      == Failure(ConflictingBinding(Position(1), Like(Plain), Like(EndingWith)))
  {
    var m1 := Marker(false, PositionalRef("1"), false, AfterLike);
    var m2 := Marker(true, PositionalRef("1"), false, AfterLike);
    LikeWord();
    PositionalMarker(false, "1", false, AfterLike);
    PositionalMarker(true, "1", false, AfterLike);
    assert " like " + TokenText(m1) == " like ?1" && " like " + TokenText(m2) == " like %?1";
    var b1, b2 := Binding(Position(1), Like(Plain)), Binding(Position(1), Like(EndingWith));
    assert OccurrenceOf(m1) == b1 && OccurrenceOf(m2) == b2;
    CollectConflict(b1, b2);
    TwoClauses(p1, " like ", m1, p2, " like ", m2);
  }

  /** A marker after `>` is a simple binding. */
  lemma GreaterThanBinding(p: string)
    requires PlainText(p)
    ensures var raw := p + " > ?1";
      Parse(raw) == Success(ParsedQuery(raw, [Binding(Position(1), Simple)], HasConstructorExpression(raw)))
  {
    var m := Marker(false, PositionalRef("1"), false, NoKeyword);
    GreaterWord();
    PositionalMarker(false, "1", false, NoKeyword);
    assert " > " + TokenText(m) == " > " + FormText(m.form) == " > ?1";
    assert OccurrenceOf(m) == Binding(Position(1), Simple);
    OneClause(p, " > ", m);
  }

  lemma InParenthesisWord()
    ensures PlainText(" in (") && Introduces(" in (", AfterIn)
  {
  }

  /** An IN marker inside parentheses is an IN binding, whatever letters its name is written in. */
  lemma InParenthesesBinding(p: string, name: string)
    requires PlainText(p) && name != [] && AllWordChars(name)
    ensures var raw := p + (" in (:" + name + ")");
      Parse(raw) == Success(ParsedQuery(raw, [Binding(Name(name), In)], HasConstructorExpression(raw)))
  {
    var m := Marker(false, NamedRef(name), false, AfterIn);
    var c := [Literal(p + " in ("), m];
    InParenthesisWord();
    NamedMarker(false, name, false, AfterIn);
    assert TokenText(m) == FormText(m.form) == [':'] + name;
    assert " in (" + [':'] == " in (:";
    Associative(" in (", [':'], name);
    Associative(p, " in (:" + name, ")");
    ClauseTexts(p, " in (", m);
    ClauseOccurrences(p + " in (", m);
    LiteralTexts(c, ")");
    Clause(p, " in (", m);
    TextAppend(c, ")");
    CollectDistinct([Binding(Name(name), In)]);
    ParseSeparated(c + [Literal(")")]);
  }

  lemma InParenthesesStatuses(p: string)
    requires PlainText(p)
    ensures var raw := p + " in (:statuses)";
      Parse(raw) == Success(ParsedQuery(raw, [Binding(Name("statuses"), In)], HasConstructorExpression(raw)))
  {
    assert " in (:" + "statuses" + ")" == " in (:statuses)";
    InParenthesesBinding(p, "statuses");
  }

  /**
    Names written with French accents, a Scandinavian letter, Hangul, and a
    mix of ASCII letters, digits and Hangul are each read whole, as one IN binding.
   */
  lemma NonAsciiNamesAreWords()
    ensures AllWordChars("abonnés")
    ensures AllWordChars("øre")
    ensures AllWordChars("생일")
    ensures AllWordChars("ab1babc생일233")
  {
  }

  lemma InParenthesesNonAsciiNames(p: string)
    requires PlainText(p)
    ensures var raw := p + " in (:abonnés)";
      Parse(raw) == Success(ParsedQuery(raw, [Binding(Name("abonnés"), In)], HasConstructorExpression(raw)))
    ensures var raw := p + " in (:øre)";
      Parse(raw) == Success(ParsedQuery(raw, [Binding(Name("øre"), In)], HasConstructorExpression(raw)))
    ensures var raw := p + " in (:생일)";
      Parse(raw) == Success(ParsedQuery(raw, [Binding(Name("생일"), In)], HasConstructorExpression(raw)))
    ensures var raw := p + " in (:ab1babc생일233)";
      Parse(raw) == Success(ParsedQuery(raw, [Binding(Name("ab1babc생일233"), In)], HasConstructorExpression(raw)))
  {
    NonAsciiInClauses();
    NonAsciiNamesAreWords();
    assert Parse(p + " in (:abonnés)") == Success(ParsedQuery(p + " in (:abonnés)", [Binding(Name("abonnés"), In)],
        HasConstructorExpression(p + " in (:abonnés)"))) by {
      InParenthesesBinding(p, "abonnés");
    }
    assert Parse(p + " in (:øre)") == Success(ParsedQuery(p + " in (:øre)", [Binding(Name("øre"), In)],
        HasConstructorExpression(p + " in (:øre)"))) by {
      InParenthesesBinding(p, "øre");
    }
    assert Parse(p + " in (:생일)") == Success(ParsedQuery(p + " in (:생일)", [Binding(Name("생일"), In)],
        HasConstructorExpression(p + " in (:생일)"))) by {
      InParenthesesBinding(p, "생일");
    }
    assert Parse(p + " in (:ab1babc생일233)") == Success(ParsedQuery(p + " in (:ab1babc생일233)", [Binding(Name("ab1babc생일233"), In)],
        HasConstructorExpression(p + " in (:ab1babc생일233)"))) by {
      InParenthesesBinding(p, "ab1babc생일233");
    }
  }

  lemma UpperLikeWord()
    ensures PlainText(" LIKE ") && Introduces(" LIKE ", AfterLike)
  {
  }

  /** The template of the ESCAPE case: two LIKE clauses each followed by an ESCAPE literal, then a comparison. */
  function EscapedTokens(p1: string, p2: string, p3: string, p4: string, m1: Token, m3: Token): seq<Token> {
    [Literal(p1 + " LIKE "), m1] + [Literal(" ESCAPE ")] + [Literal("'~'")]
    + [Literal(p2 + " LIKE "), m1] + [Literal(" ESCAPE ")] + [Literal("'~'")]
    + [Literal(p3 + " = "), m3] + [Literal(p4)]
  }

  lemma EscapedSeparated(p1: string, p2: string, p3: string, p4: string, m1: Token, m3: Token)
    requires PlainText(p1) && Follows(p2) && Follows(p3) && Follows(p4) && p4 != []
    requires m1 == Marker(true, NamedRef("escapedWord"), true, AfterLike)
    requires m3 == Marker(false, NamedRef("word"), false, NoKeyword)
    ensures Separated(EscapedTokens(p1, p2, p3, p4, m1, m3))
  {
    UpperLikeWord();
    EqualsWord();
    NamedMarker(true, "escapedWord", true, AfterLike);
    NamedMarker(false, "word", false, NoKeyword);
    assert !IsPlain('\'');
    var t0 := [Literal(p1 + " LIKE "), m1];
    Clause(p1, " LIKE ", m1);
    var t1 := t0 + [Literal(" ESCAPE ")];
    TextAppend(t0, " ESCAPE ");
    var t2 := t1 + [Literal("'~'")];
    QuotedAppend(t1, "'~'");
    var t3 := t2 + [Literal(p2 + " LIKE "), m1];
    ClauseAppend(t2, p2, " LIKE ", m1);
    var t4 := t3 + [Literal(" ESCAPE ")];
    TextAppend(t3, " ESCAPE ");
    var t5 := t4 + [Literal("'~'")];
    QuotedAppend(t4, "'~'");
    var t6 := t5 + [Literal(p3 + " = "), m3];
    ClauseAppend(t5, p3, " = ", m3);
    TextAppend(t6, p4);
  }

  /** Regrouping the text of the ESCAPE case. */
  lemma EscapedShape(p1: string, p2: string, p3: string, p4: string, a: string, e: string, q: string, b: string)
    ensures (((((((p1 + a) + e) + q) + (p2 + a)) + e) + q) + (p3 + b)) + p4
      == p1 + (a + e + q) + p2 + (a + e + q) + p3 + b + p4
  {
    var k := a + e + q;
    Associative(p1, a, e);
    Associative(p1, a + e, q);
    var x := p1 + k;
    Associative(x, p2, a);
    Associative(x + p2, a, e);
    Associative(x + p2, a + e, q);
    var y := x + p2 + k;
    Associative(y, p3, b);
  }

  /** The two LIKE ... ESCAPE clauses of the ESCAPE template, piece by piece. */
  lemma EscapedLikePieces(p1: string, p2: string, m1: Token)
    requires m1.Marker? && !m1.form.Expression?
    ensures var ts := [Literal(p1 + " LIKE "), m1] + [Literal(" ESCAPE ")] + [Literal("'~'")]
                      + [Literal(p2 + " LIKE "), m1] + [Literal(" ESCAPE ")] + [Literal("'~'")];
      var a, fa := " LIKE " + TokenText(m1), " LIKE " + FormText(m1.form);
      Render(ts) == (((((p1 + a) + " ESCAPE ") + "'~'") + (p2 + a)) + " ESCAPE ") + "'~'"
      && Rewrite(ts) == (((((p1 + fa) + " ESCAPE ") + "'~'") + (p2 + fa)) + " ESCAPE ") + "'~'"
      && NoExpressions(ts) && Occurrences(ts) == [OccurrenceOf(m1), OccurrenceOf(m1)]
  {
    var t0 := [Literal(p1 + " LIKE "), m1];
    ClauseTexts(p1, " LIKE ", m1);
    ClauseOccurrences(p1 + " LIKE ", m1);
    var t1 := t0 + [Literal(" ESCAPE ")];
    LiteralTexts(t0, " ESCAPE ");
    var t2 := t1 + [Literal("'~'")];
    LiteralTexts(t1, "'~'");
    var t3 := t2 + [Literal(p2 + " LIKE "), m1];
    ClauseAppendTexts(t2, p2, " LIKE ", m1);
    var t4 := t3 + [Literal(" ESCAPE ")];
    LiteralTexts(t3, " ESCAPE ");
    LiteralTexts(t4, "'~'");
  }

  /** The ESCAPE template, piece by piece. */
  lemma EscapedPieces(p1: string, p2: string, p3: string, p4: string, m1: Token, m3: Token)
    requires m1.Marker? && !m1.form.Expression? && m3.Marker? && !m3.form.Expression?
    ensures var ts := EscapedTokens(p1, p2, p3, p4, m1, m3);
      var a, b := " LIKE " + TokenText(m1), " = " + TokenText(m3);
      var fa, fb := " LIKE " + FormText(m1.form), " = " + FormText(m3.form);
      Render(ts) == (((((((p1 + a) + " ESCAPE ") + "'~'") + (p2 + a)) + " ESCAPE ") + "'~'") + (p3 + b)) + p4
      && Rewrite(ts) == (((((((p1 + fa) + " ESCAPE ") + "'~'") + (p2 + fa)) + " ESCAPE ") + "'~'") + (p3 + fb)) + p4
      && NoExpressions(ts) && Occurrences(ts) == [OccurrenceOf(m1), OccurrenceOf(m1), OccurrenceOf(m3)]
  {
    var t5 := [Literal(p1 + " LIKE "), m1] + [Literal(" ESCAPE ")] + [Literal("'~'")]
              + [Literal(p2 + " LIKE "), m1] + [Literal(" ESCAPE ")] + [Literal("'~'")];
    EscapedLikePieces(p1, p2, m1);
    var t6 := t5 + [Literal(p3 + " = "), m3];
    ClauseAppendTexts(t5, p3, " = ", m3);
    LiteralTexts(t6, p4);
    assert [OccurrenceOf(m1), OccurrenceOf(m1)] + [OccurrenceOf(m3)] == [OccurrenceOf(m1), OccurrenceOf(m1), OccurrenceOf(m3)];
  }

  /** The texts of the ESCAPE template's markers, as written and without wildcards. */
  lemma EscapedMarkerTexts(m1: Token, m3: Token)
    requires m1 == Marker(true, NamedRef("escapedWord"), true, AfterLike)
    requires m3 == Marker(false, NamedRef("word"), false, NoKeyword)
    ensures " LIKE " + TokenText(m1) + " ESCAPE " + "'~'" == " LIKE %:escapedWord% ESCAPE '~'"
    ensures " LIKE " + FormText(m1.form) + " ESCAPE " + "'~'" == " LIKE :escapedWord ESCAPE '~'"
    ensures " = " + TokenText(m3) == " = " + FormText(m3.form) == " = :word"
  {
    EscapedClauseParts();
    assert TokenText(m1) == "%" + [':'] + "escapedWord" + "%";
    assert TokenText(m3) == "" + [':'] + "word" + "";
  }

  lemma EscapedTexts(p1: string, p2: string, p3: string, p4: string, m1: Token, m3: Token)
    requires m1 == Marker(true, NamedRef("escapedWord"), true, AfterLike)
    requires m3 == Marker(false, NamedRef("word"), false, NoKeyword)
    ensures var ts := EscapedTokens(p1, p2, p3, p4, m1, m3);
      Render(ts) == p1 + " LIKE %:escapedWord% ESCAPE '~'" + p2 + " LIKE %:escapedWord% ESCAPE '~'" + p3 + " = :word" + p4
      && Rewrite(ts) == p1 + " LIKE :escapedWord ESCAPE '~'" + p2 + " LIKE :escapedWord ESCAPE '~'" + p3 + " = :word" + p4
      && NoExpressions(ts) && Occurrences(ts) == [OccurrenceOf(m1), OccurrenceOf(m1), OccurrenceOf(m3)]
  {
    EscapedMarkerTexts(m1, m3);
    EscapedPieces(p1, p2, p3, p4, m1, m3);
    EscapedShape(p1, p2, p3, p4, " LIKE " + TokenText(m1), " ESCAPE ", "'~'", " = " + TokenText(m3));
    EscapedShape(p1, p2, p3, p4, " LIKE " + FormText(m1.form), " ESCAPE ", "'~'", " = " + FormText(m3.form));
  }

  /**
    A parameter used twice with `%...%` and once more as a plain comparison:
    one CONTAINING binding and one simple binding, in order; the quoted
    ESCAPE characters are left alone and the query drops only the wildcards.
   */
  lemma EscapedLikeBindings(p1: string, p2: string, p3: string, p4: string)
    requires PlainText(p1) && Follows(p2) && Follows(p3) && Follows(p4) && p4 != []
    ensures var raw := p1 + " LIKE %:escapedWord% ESCAPE '~'" + p2 + " LIKE %:escapedWord% ESCAPE '~'" + p3 + " = :word" + p4;
      Parse(raw) == Success(ParsedQuery(
        p1 + " LIKE :escapedWord ESCAPE '~'" + p2 + " LIKE :escapedWord ESCAPE '~'" + p3 + " = :word" + p4,
        [Binding(Name("escapedWord"), Like(Containing)), Binding(Name("word"), Simple)],
        HasConstructorExpression(raw)))
  {
    var m1 := Marker(true, NamedRef("escapedWord"), true, AfterLike);
    var m3 := Marker(false, NamedRef("word"), false, NoKeyword);
    var b1, b3 := Binding(Name("escapedWord"), Like(Containing)), Binding(Name("word"), Simple);
    assert OccurrenceOf(m1) == b1 && OccurrenceOf(m3) == b3;
    CollectRepeated(b1, b3);
    EscapedTexts(p1, p2, p3, p4, m1, m3);
    EscapedSeparated(p1, p2, p3, p4, m1, m3);
    ParseSeparated(EscapedTokens(p1, p2, p3, p4, m1, m3));
  }

  /** Two clauses without positional markers resolve clause by clause, numbering from zero. */
  lemma ResolveTwoClauses(p1: string, w1: string, m1: Token, p2: string, w2: string, m2: Token)
    requires m1.Marker? && !m1.form.PositionalRef? && m2.Marker? && !m2.form.PositionalRef?
    ensures var first := ResolveToken(m1, 0, []);
      ResolvedTokens([Literal(p1 + w1), m1] + [Literal(p2 + w2), m2])
        == [Literal(p1 + w1), first.0] + [Literal(p2 + w2), ResolveToken(m2, 0, first.1).0]
  {
    var c1, c2 := [Literal(p1 + w1), m1], [Literal(p2 + w2), m2];
    var ts := c1 + c2;
    MaxPositionWithoutPositional(ts);
    ResolveFromAppend(c1, c2, 0, []);
    ResolveClause(p1 + w1, m1, 0, []);
    ResolveClause(p2 + w2, m2, 0, ResolveToken(m1, 0, []).1);
  }

  /** A template of two clauses whose markers are expressions, named or positional. */
  lemma TwoExpressionClauses(p1: string, w1: string, m1: Token, p2: string, w2: string, m2: Token, n1: Token, n2: Token)
    requires m1.Marker? && m1.form.Expression? && MarkerFits(m1, None)
    requires m2.Marker? && m2.form.Expression? && MarkerFits(m2, None)
    requires PlainText(p1) && PlainText(w1) && Introduces(w1, m1.context)
    requires Follows(p2) && PlainText(w2) && w2 != [] && !IsWordChar(w2[0]) && Introduces(w2, m2.context)
    requires n1 == ResolveToken(m1, 0, []).0 && n2 == ResolveToken(m2, 0, ResolveToken(m1, 0, []).1).0
    requires !n1.form.Expression? && !n2.form.Expression?
    ensures var raw := p1 + (w1 + TokenText(m1)) + p2 + (w2 + TokenText(m2));
      Parse(raw) ==
        match Collect([OccurrenceOf(n1), OccurrenceOf(n2)])
        case Success(bs) => Success(ParsedQuery(p1 + (w1 + FormText(n1.form)) + p2 + (w2 + FormText(n2.form)), bs, HasConstructorExpression(raw)))
        case Failure(e) => Failure(e)
  {
    var ts := [Literal(p1 + w1), m1] + [Literal(p2 + w2), m2];
    TwoClausesSeparated(p1, w1, m1, p2, w2, m2);
    TwoClausesTexts(p1, w1, m1, p2, w2, m2);
    ResolveTwoClauses(p1, w1, m1, p2, w2, m2);
    assert n1.Marker? && n2.Marker?;
    TwoClausesTexts(p1, w1, n1, p2, w2, n2);
    ParseTemplate(ts);
  }

  /** The synthetic names of the first two named expressions. */
  lemma FirstSyntheticNames()
    ensures SyntheticName(1) == "__$synthetic$__1" && SyntheticName(2) == "__$synthetic$__2"
  {
  }

  /**
    Two different expressions with one sigil, in a template without explicit
    positions, are numbered 1 and 2.
   */
  lemma ResolveTwoExpressions(leading: bool, sigil: Sigil, x: string, y: string, trailing: bool, c: Context)
    requires x != y
    ensures var first := ResolveToken(Marker(leading, Expression(sigil, x), trailing, c), 0, []);
      first.0 == Marker(leading, Replacement(Entry(sigil, x, 1), 0), trailing, c)
      && ResolveToken(Marker(leading, Expression(sigil, y), trailing, c), 0, first.1).0
        == Marker(leading, Replacement(Entry(sigil, y, 2), 0), trailing, c)
  {
    var e := Entry(sigil, x, 1);
    assert [] + [e] == [e];
    assert [e][..0] == [];
    assert CountOf([e], sigil) == 1;
  }

  /** The query text of a word followed by the synthetic marker of named expression `n`. */
  lemma SyntheticText(w: string, n: nat, text: string)
    requires n < 10 && text == w + ":__$synthetic$__" + [DigitChar(n)]
    ensures w + FormText(NamedRef(SyntheticName(n))) == text
  {
    assert SyntheticName(n) == SyntheticPrefix + [DigitChar(n)];
    Associative(w, [':'], SyntheticName(n));
    Associative(w + [':'], SyntheticPrefix, [DigitChar(n)]);
    Associative(w, [':'], SyntheticPrefix);
    assert [':'] + SyntheticPrefix == ":__$synthetic$__";
  }

  lemma FirstSyntheticAfterIn()
    ensures " in " + FormText(NamedRef(SyntheticName(1))) == " in :__$synthetic$__1"
  {
    SyntheticText(" in ", 1, " in :__$synthetic$__1");
  }

  lemma SecondSyntheticAfterIn()
    ensures " in " + FormText(NamedRef(SyntheticName(2))) == " in :__$synthetic$__2"
  {
    SyntheticText(" in ", 2, " in :__$synthetic$__2");
  }

  lemma FirstSyntheticAfterEquals()
    ensures " = " + FormText(NamedRef(SyntheticName(1))) == " = :__$synthetic$__1"
  {
    SyntheticText(" = ", 1, " = :__$synthetic$__1");
  }

  /** The query text of a word followed by the positional marker minted for expression `n`. */
  lemma MintedPositionText(w: string, n: nat, text: string)
    requires 0 < n < 10 && text == w + "?" + [DigitChar(n)]
    ensures w + FormText(Replacement(Entry(Question, [], n), 0)) == text
  {
    assert NatToString(0 + n) == [DigitChar(n)];
  }

  /** A minted position marker declares the position it was given. */
  lemma MintedPositionOccurrence(body: string, n: nat, c: Context)
    requires 0 < n < 10
    ensures OccurrenceOf(Marker(false, Replacement(Entry(Question, body, n), 0), false, c))
      == Binding(Position(n), KindOf(c, false, false))
  {
    NatToStringRoundTrip(0 + n);
  }

  /** An expression without braces in its body fits at the end of a template. */
  lemma ExpressionFits(sigil: Sigil, body: string, c: Context)
    requires '{' !in body && '}' !in body
    ensures MarkerFits(Marker(false, Expression(sigil, body), false, c), None)
  {
  }

  /** The template text of a word followed by an expression marker. */
  lemma ExpressionText(w: string, sigil: Sigil, body: string, c: Context, text: string)
    requires text == w + [SigilChar(sigil)] + "#{" + body + "}"
    ensures w + TokenText(Marker(false, Expression(sigil, body), false, c)) == text
  {
    assert TokenText(Marker(false, Expression(sigil, body), false, c)) == [SigilChar(sigil), '#', '{'] + body + ['}'];
    assert [SigilChar(sigil), '#', '{'] == [SigilChar(sigil)] + "#{";
    Associative(w, [SigilChar(sigil), '#', '{'] + body, ['}']);
    Associative(w, [SigilChar(sigil), '#', '{'], body);
    Associative(w, [SigilChar(sigil)], "#{");
  }

  /**
    Two named expressions after IN become the synthetic names 1 and 2 in the
    query, each bound as an IN parameter.
   */
  lemma NamedExpressionsInBindings(p1: string, p2: string)
    requires PlainText(p1) && Follows(p2)
    ensures var raw := p1 + " in :#{#bs}" + p2 + " in :#{#cs}";
      Parse(raw) == Success(ParsedQuery(p1 + " in :__$synthetic$__1" + p2 + " in :__$synthetic$__2",
        [Binding(Name(SyntheticName(1)), In), Binding(Name(SyntheticName(2)), In)],
        HasConstructorExpression(raw)))
  {
    var m1 := Marker(false, Expression(Colon, "#bs"), false, AfterIn);
    var m2 := Marker(false, Expression(Colon, "#cs"), false, AfterIn);
    var n1 := Marker(false, NamedRef(SyntheticName(1)), false, AfterIn);
    var n2 := Marker(false, NamedRef(SyntheticName(2)), false, AfterIn);
    ExpressionText(" in ", Colon, "#bs", AfterIn, " in :#{#bs}");
    ExpressionText(" in ", Colon, "#cs", AfterIn, " in :#{#cs}");
    FirstSyntheticAfterIn();
    SecondSyntheticAfterIn();
    InWord();
    ExpressionFits(Colon, "#bs", AfterIn);
    ExpressionFits(Colon, "#cs", AfterIn);
    ResolveTwoExpressions(false, Colon, "#bs", "#cs", false, AfterIn);
    var b1, b2 := Binding(Name(SyntheticName(1)), In), Binding(Name(SyntheticName(2)), In);
    assert OccurrenceOf(n1) == b1 && OccurrenceOf(n2) == b2;
    CollectDistinct([b1, b2]);
    TwoExpressionClauses(p1, " in ", m1, p2, " in ", m2, n1, n2);
  }

  /**
    Two positional expressions after IN become the positions 1 and 2 in the
    query (the template has no explicit position), each bound as an IN
    parameter.
   */
  lemma PositionalExpressionsInBindings(p1: string, p2: string)
    requires PlainText(p1) && Follows(p2)
    ensures var raw := p1 + " in ?#{#bs}" + p2 + " in ?#{#cs}";
      Parse(raw) == Success(ParsedQuery(p1 + " in ?1" + p2 + " in ?2",
        [Binding(Position(1), In), Binding(Position(2), In)],
        HasConstructorExpression(raw)))
  {
    var m1 := Marker(false, Expression(Question, "#bs"), false, AfterIn);
    var m2 := Marker(false, Expression(Question, "#cs"), false, AfterIn);
    var n1 := Marker(false, Replacement(Entry(Question, "#bs", 1), 0), false, AfterIn);
    var n2 := Marker(false, Replacement(Entry(Question, "#cs", 2), 0), false, AfterIn);
    ExpressionText(" in ", Question, "#bs", AfterIn, " in ?#{#bs}");
    ExpressionText(" in ", Question, "#cs", AfterIn, " in ?#{#cs}");
    MintedPositionText(" in ", 1, " in ?1");
    MintedPositionText(" in ", 2, " in ?2");
    InWord();
    ExpressionFits(Question, "#bs", AfterIn);
    ExpressionFits(Question, "#cs", AfterIn);
    ResolveTwoExpressions(false, Question, "#bs", "#cs", false, AfterIn);
    var b1, b2 := Binding(Position(1), In), Binding(Position(2), In);
    MintedPositionOccurrence("#bs", 1, AfterIn);
    MintedPositionOccurrence("#cs", 2, AfterIn);
    CollectDistinct([b1, b2]);
    TwoExpressionClauses(p1, " in ", m1, p2, " in ", m2, n1, n2);
  }

  /** A repeated expression text is resolved to the marker minted for its first occurrence. */
  lemma ResolveRepeatedExpression(leading: bool, sigil: Sigil, x: string, trailing: bool, c: Context)
    ensures var m := Marker(leading, Expression(sigil, x), trailing, c);
      var first := ResolveToken(m, 0, []);
      first.0 == Marker(leading, Replacement(Entry(sigil, x, 1), 0), trailing, c)
      && ResolveToken(m, 0, first.1).0 == first.0
  {
    var e := Entry(sigil, x, 1);
    assert [] + [e] == [e];
    assert Find([e], sigil, x) == Some(0);
  }

  /**
    The same expression used twice is one parameter: both markers become the
    first synthetic name, bound once as a simple parameter, so the bound name
    occurs in the query.
   */
  lemma IdenticalExpressionsBinding(p1: string, p2: string)
    requires PlainText(p1) && Follows(p2)
    ensures var raw := p1 + " = :#{#exp}" + p2 + " = :#{#exp}";
      Parse(raw) == Success(ParsedQuery(p1 + " = :__$synthetic$__1" + p2 + " = :__$synthetic$__1",
        [Binding(Name(SyntheticName(1)), Simple)],
        HasConstructorExpression(raw)))
  {
    var m := Marker(false, Expression(Colon, "#exp"), false, NoKeyword);
    var n := Marker(false, NamedRef(SyntheticName(1)), false, NoKeyword);
    ExpressionText(" = ", Colon, "#exp", NoKeyword, " = :#{#exp}");
    FirstSyntheticAfterEquals();
    EqualsWord();
    ExpressionFits(Colon, "#exp", NoKeyword);
    ResolveRepeatedExpression(false, Colon, "#exp", false, NoKeyword);
    var b := Binding(Name(SyntheticName(1)), Simple);
    assert OccurrenceOf(n) == b;
    CollectTwice(b);
    TwoExpressionClauses(p1, " = ", m, p2, " = ", m, n, n);
  }

  /* ---------------------------------------------------------------- constructor expressions */

  /** A template without markers parses, and its flag is the detector's verdict. */
  lemma ParsedFlag(raw: string)
    requires ':' !in raw && '?' !in raw
    ensures Parse(raw).Success? && Parse(raw).value.hasConstructorExpression == HasConstructorExpression(raw)
  {
    NoMarkersNoBindings(raw);
    ParseConstructorFlag(raw);
    HasConstructorExpressionIff(raw);
  }

  lemma ExtraSpacesDetected()
    ensures HasConstructorExpression("select  new  Dto(a.foo, a.bar)  from A a")
  {
    ExtraSpacesParts();
    ConstructorShapeDetected("", "select", "  ", "new", "  ", "Dto", "", "a.foo, a.bar", "  from A a");
  }

  /** Extra whitespace around NEW and before FROM. */
  lemma ConstructorExpressionWithExtraSpaces()
    ensures var raw := "select  new  Dto(a.foo, a.bar)  from A a";
      Parse(raw).Success? && Parse(raw).value.hasConstructorExpression
  {
    ExtraSpacesDetected();
    ExtraSpacesHasNoMarkers();
    ParsedFlag("select  new  Dto(a.foo, a.bar)  from A a");
  }

  lemma SpaceBeforeArgumentsDetected()
    ensures HasConstructorExpression("select new Dto (a.foo, a.bar) from A a")
  {
    SpaceBeforeArgumentsParts();
    ConstructorShapeDetected("", "select", " ", "new", " ", "Dto", " ", "a.foo, a.bar", " from A a");
  }

  /** Whitespace between the class name and its argument list. */
  lemma ConstructorExpressionSpaceBeforeArguments()
    ensures var raw := "select new Dto (a.foo, a.bar) from A a";
      Parse(raw).Success? && Parse(raw).value.hasConstructorExpression
  {
    SpaceBeforeArgumentsDetected();
    SpaceBeforeArgumentsHasNoMarkers();
    ParsedFlag("select new Dto (a.foo, a.bar) from A a");
  }

  lemma DefaultConstructorDetected()
    ensures HasConstructorExpression("select new Dto() from A a")
  {
    DefaultConstructorParts();
    ConstructorShapeDetected("", "select", " ", "new", " ", "Dto", "", "", " from A a");
  }

  /** An empty argument list: the default constructor. */
  lemma ConstructorExpressionDefaultConstructor()
    ensures var raw := "select new Dto() from A a";
      Parse(raw).Success? && Parse(raw).value.hasConstructorExpression
  {
    DefaultConstructorDetected();
    DefaultConstructorHasNoMarkers();
    ParsedFlag("select new Dto() from A a");
  }

  /** A plain selection is no constructor expression. */
  lemma PlainSelectionIsNoConstructorExpression()
    ensures var raw := "select a from A a";
      Parse(raw).Success? && !Parse(raw).value.hasConstructorExpression
  {
    ConstructorNeedsParenthesis("select a from A a");
    PlainSelectionHasNoMarkers();
    ParsedFlag("select a from A a");
  }

  /** Without parentheses NEW does not make a constructor expression. */
  lemma NewWithoutArgumentsIsNoConstructorExpression()
    ensures var raw := "select new Dto from A a";
      Parse(raw).Success? && !Parse(raw).value.hasConstructorExpression
  {
    ConstructorNeedsParenthesis("select new Dto from A a");
    NewWithoutArgumentsHasNoMarkers();
    ParsedFlag("select new Dto from A a");
  }

  /* ---------------------------------------------------------------- lookup */

  /**
    Looking up a binding without a name is refused with a message that
    points to the `@Param` annotation.
   */
  lemma MissingNameHintsAtParam()
    ensures var r := Parse("select x from X");
      r.Success? && GetBindingFor(r.value, None) == Failure(MissingName(MissingNameMessage))
      && exists k :: OccursAt(GetBindingFor(r.value, None).error.message, "@Param", k)
  {
    NoMarkersNoBindings("select x from X");
    MissingNameMentionsParam();
  }
}
