/**
  A parsed JPQL query template: the query handed on to JPA, the parameter
  bindings its markers declare (in order of first occurrence), and whether it
  selects through a constructor expression.

  Parsing runs the stages in order: scan the template into literal text and
  markers, replace expression markers by synthetic plain markers, collect
  one binding per parameter (rejecting a parameter used with two kinds), and
  drop the LIKE wildcards from the query text.
 */
module StringQuery {

  import opened Wrappers
  import opened Lexical
  import opened Bindings
  import opened Scanner
  import opened Extractor
  import opened Namer
  import opened Resolver
  import opened Rewriter
  import opened ConstructorExpression

  datatype ParsedQuery = ParsedQuery(query: string, bindings: seq<Binding>, hasConstructorExpression: bool)
  {
    predicate HasParameterBindings() {
      bindings != []
    }
  }

  /** Why a binding lookup by name fails. */
  datatype LookupError = MissingName(message: string) | NotFound(name: string)

  /** The message for a lookup without a name; it points to the `@Param` annotation. */
  const MissingNameMessage: string := "A parameter name is required; annotate query method parameters with @Param"

  /** The tokens of a template after expression markers were given synthetic identifiers. */
  function ResolvedTokens(ts: seq<Token>): seq<Token> {
    Resolve(ts, MaxPosition(ts))
  }

  function Parse(raw: string): Result<ParsedQuery, ParseError> {
    var ts :- Tokenize(raw);
    var resolved := ResolvedTokens(ts);
    var bindings :- Collect(Occurrences(resolved));
    Success(ParsedQuery(Rewrite(resolved), bindings, HasConstructorExpression(raw)))
  }

  /** The binding of the parameter called `name`; a missing or blank name is refused with a hint. */
  function GetBindingFor(q: ParsedQuery, name: Option<string>): (r: Result<Binding, LookupError>)
    ensures name.None? || (name.Some? && AllWhitespace(name.value)) ==> r == Failure(MissingName(MissingNameMessage))
    ensures r.Success? ==> r.value in q.bindings && name.Some? && r.value.id == Name(name.value)
    ensures name.Some? && !AllWhitespace(name.value) && r.Failure? ==>
      r.error == NotFound(name.value) && forall b <- q.bindings :: b.id != Name(name.value)
  {
    if name.None? || AllWhitespace(name.value) then Failure(MissingName(MissingNameMessage))
    else
      match IndexOf(q.bindings, Name(name.value))
      case None => Failure(NotFound(name.value))
      case Some(k) => Success(q.bindings[k])
  }

  /* ---------------------------------------------------------------- properties */

  /** The lookup error for a missing name mentions the `@Param` annotation. */
  lemma MissingNameMentionsParam()
    ensures exists k :: OccursAt(MissingNameMessage, "@Param", k)
  {
    assert OccursAt(MissingNameMessage, "@Param", 68);
  }

  /**
    Parsing fails only on an expression marker whose braces never close, or
    on a parameter whose markers declare two different kinds.
   */
  lemma ParseErrors(raw: string)
    requires Parse(raw).Failure?
    ensures var e := Parse(raw).error;
      (e.MalformedExpression? && e.offset < |raw| && Unterminated(raw[e.offset..]))
      || (e.ConflictingBinding? && e.existing != e.found)
  {
    if Tokenize(raw).Failure? {
      TokenizeFailsOnlyOnUnterminated("", raw);
    } else {
      CollectSpec(Occurrences(ResolvedTokens(Tokenize(raw).value)));
    }
  }

  /** A template without `#` has no expression marker, so it can only fail by a conflict. */
  lemma ParseWithoutHashFailsOnlyByConflict(raw: string)
    requires '#' !in raw && Parse(raw).Failure?
    ensures Parse(raw).error.ConflictingBinding?
  {
    ParseErrors(raw);
  }

  /**
    The bindings of a scanned template: there are bindings exactly when its
    markers are consistent, and they are then the first occurrence of each
    parameter in order; otherwise the error names a real conflict.
   */
  lemma ParseBindings(raw: string)
    requires Tokenize(raw).Success?
    ensures var occ := Occurrences(ResolvedTokens(Tokenize(raw).value));
      (Parse(raw).Success? <==> Consistent(occ))
      && (Parse(raw).Success? ==> Parse(raw).value.bindings == FirstOccurrences(occ))
      && (Parse(raw).Failure? ==> IsConflict(occ, Parse(raw).error))
  {
    CollectSpec(Occurrences(ResolvedTokens(Tokenize(raw).value)));
  }

  /**
    Every marker of the template has its binding, every binding comes from a
    marker, and no parameter is bound twice.
   */
  lemma ParseBindingsCoverMarkers(raw: string)
    requires Parse(raw).Success?
    ensures var resolved := ResolvedTokens(Tokenize(raw).value);
      var bs := Parse(raw).value.bindings;
      DistinctIds(bs)
      && (forall i :: 0 <= i < |resolved| && resolved[i].Marker? ==> OccurrenceOf(resolved[i]) in bs)
      && (forall b <- bs :: exists i :: 0 <= i < |resolved| && resolved[i].Marker? && OccurrenceOf(resolved[i]) == b)
  {
    CollectDeclaresEveryOccurrence(Occurrences(ResolvedTokens(Tokenize(raw).value)));
  }

  /** The query is the scanned template with the marker wildcards removed and nothing else changed. */
  lemma ParseQueryText(raw: string)
    requires Parse(raw).Success?
    ensures var resolved := ResolvedTokens(Tokenize(raw).value);
      Parse(raw).value.query == Render(UndecorateAll(resolved))
      && |Parse(raw).value.query| + DecorationCount(resolved) == |Render(resolved)|
  {
    var resolved := ResolvedTokens(Tokenize(raw).value);
    RewriteIsUndecoratedRender(resolved);
    RewriteLength(resolved);
  }

  lemma {:induction false} CharInRender(ts: seq<Token>, i: nat, c: char)
    requires i < |ts| && c in TokenText(ts[i])
    ensures c in Render(ts)
    decreases i
  {
    if i > 0 {
      assert ts[1..][i - 1] == ts[i];
      CharInRender(ts[1..], i - 1, c);
    }
  }

  /** A marker of a text without `%` and `#` has no wildcards and is no expression. */
  lemma UndecoratedMarker(ts: seq<Token>, i: nat)
    requires i < |ts| && ts[i].Marker? && '%' !in Render(ts) && '#' !in Render(ts)
    ensures !ts[i].leading && !ts[i].trailing && !ts[i].form.Expression?
  {
    if ts[i].leading {
      assert TokenText(ts[i])[0] == '%';
      CharInRender(ts, i, '%');
    }
    if ts[i].trailing {
      assert TokenText(ts[i])[|TokenText(ts[i])| - 1] == '%';
      CharInRender(ts, i, '%');
    }
    if ts[i].form.Expression? {
      assert TokenText(ts[i])[1] == '#';
      CharInRender(ts, i, '#');
    }
  }

  /**
    When no marker carries a `%` wildcard and none is an expression, the query
    is the template, unchanged; a `%` or `#` elsewhere in the text is kept.
   */
  lemma ParseKeepsUndecoratedTemplate(raw: string)
    requires Parse(raw).Success?
    requires NoDecorations(Tokenize(raw).value) && NoExpressions(Tokenize(raw).value)
    ensures Parse(raw).value.query == raw
  {
    var ts := Tokenize(raw).value;
    TokenizeRendersInput("", raw);
    ResolveWithoutExpressions(ts, MaxPosition(ts));
    RewriteWithoutDecorations(ts);
  }

  /** Without wildcards and expressions the query is the template, unchanged. */
  lemma ParseKeepsPlainTemplate(raw: string)
    requires '%' !in raw && '#' !in raw && Parse(raw).Success?
    ensures Parse(raw).value.query == raw
  {
    var ts := Tokenize(raw).value;
    forall i | 0 <= i < |ts| && ts[i].Marker?
      ensures !ts[i].leading && !ts[i].trailing && !ts[i].form.Expression?
    {
      TokenizeRendersInput("", raw);
      UndecoratedMarker(ts, i);
    }
    ParseKeepsUndecoratedTemplate(raw);
  }

  /**
    Every name bound appears in the query as a `:name` marker; this holds for
    the synthetic names of expression markers too.
   */
  lemma BindingNamesOccurInQuery(raw: string, b: Binding)
    requires Parse(raw).Success? && b in Parse(raw).value.bindings && b.id.Name?
    ensures exists k :: OccursAt(Parse(raw).value.query, [':'] + b.id.name, k)
  {
    var resolved := ResolvedTokens(Tokenize(raw).value);
    ParseBindingsCoverMarkers(raw);
    var i :| 0 <= i < |resolved| && resolved[i].Marker? && OccurrenceOf(resolved[i]) == b;
    assert resolved[i].form.NamedRef?;
    TokenTextSurvives(resolved, i);
  }

  /** A query has parameter bindings exactly when its template has a marker. */
  lemma HasParameterBindingsIff(raw: string)
    requires Parse(raw).Success?
    ensures Parse(raw).value.HasParameterBindings() <==>
      exists i :: 0 <= i < |Tokenize(raw).value| && Tokenize(raw).value[i].Marker?
  {
    var ts := Tokenize(raw).value;
    var resolved := ResolvedTokens(ts);
    var occ := Occurrences(resolved);
    ParseBindings(raw);
    FirstOccurrencesEmptyIff(occ);
    OccurrencesEmptyIff(resolved);
    assert forall i :: 0 <= i < |ts| ==> (resolved[i].Marker? <==> ts[i].Marker?);
  }

  /** A template without `:` and `?` parses, to itself and no bindings. */
  lemma NoMarkersNoBindings(raw: string)
    requires ':' !in raw && '?' !in raw
    ensures Parse(raw).Success? && !Parse(raw).value.HasParameterBindings()
    ensures Parse(raw).value.query == raw
  {
    if Tokenize(raw).Failure? {
      TokenizeFailsOnlyOnUnterminated("", raw);
    } else {
      var ts := Tokenize(raw).value;
      TokenizeRendersInput("", raw);
      forall i | 0 <= i < |ts|
        ensures !ts[i].Marker?
      {
        if ts[i].Marker? {
          var text := TokenText(ts[i]);
          var at := if ts[i].leading then 1 else 0;
          assert text[at] == ':' || text[at] == '?';
          CharInRender(ts, i, text[at]);
        }
      }
      var resolved := ResolvedTokens(ts);
      assert resolved == ts;
      OccurrencesEmptyIff(resolved);
      ParseKeepsUndecoratedTemplate(raw);
    }
  }

  /** The constructor-expression flag follows the definition of a constructor expression. */
  lemma ParseConstructorFlag(raw: string)
    requires Parse(raw).Success?
    ensures Parse(raw).value.hasConstructorExpression <==> IsConstructorExpression(raw)
  {
    HasConstructorExpressionIff(raw);
  }
}
