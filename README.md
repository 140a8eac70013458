# StringQuery: a verified model of the JPQL query-template parser

Spring Data JPA lets a repository method carry a hand-written JPQL query. Before
the query goes to the persistence provider, a `StringQuery` object parses it once:

- it finds the parameter markers: named `:name`, positional `?1`, and SpEL
  expressions `:#{...}` / `?#{...}`;
- it classifies each marker as a simple, `IN` or `LIKE` binding, where a
  `LIKE` binding's `%` wildcards give its like-type (starting-with, ending-with,
  containing);
- it removes the `%` decorations from the query text and replaces every SpEL
  expression by a synthetic parameter name;
- it rejects a parameter that is bound in two incompatible ways;
- it reports whether the query selects through a constructor expression
  (`select new Dto(...)`).

The behaviour is fixed by the unit tests in
`src/test/java/org/springframework/data/jpa/repository/query/StringQueryUnitTests.java`.
StringQuery.java is not part of this model: the parser is modelled from the
behaviour those tests pin down and from the library's documented design. Each
test is stated as a lemma over the model's `Parse`.

The modules follow the parser's stages:

| module | what it models |
|---|---|
| `Wrappers` | `Option` and `Result` |
| `Bindings` | identifiers (name or position), like-types, binding kinds, bindings, parse errors |
| `Lexical` | character classes, case-insensitive comparison, digit strings |
| `Scanner` | `Tokenize`: splits the template into literals and markers. Each token keeps its raw text, so rendering the tokens gives back the input. Each marker records whether it follows `like`, `in` or neither. |
| `ScannerSteps` | one-token steps of the scanner, used to evaluate concrete queries |
| `Templates` | `Separated` token lists, the templates the scanner reads back unchanged |
| `Namer` | `Resolve`: replaces each SpEL marker by a synthetic marker, and identical expression text gets the same one |
| `Extractor` | `Occurrences`: the binding each marker asks for |
| `Resolver` | `Collect`: keeps the first occurrence of each identifier and rejects conflicting repeats |
| `Rewriter` | `Rewrite`: the query text without `%` decorations |
| `ConstructorExpression` | a one-pass detector for `select ... new Name(...)`, proved equal to a declarative definition |
| `StringQuery` | `Parse`, `ParsedQuery` with `HasParameterBindings`, and `GetBindingFor` |
| `ExampleTexts`, `StringQueryExamples` | the unit tests, stated as lemmas |

The example lemmas speak about whole families of queries, not one string. The
part before the first clause (`p`, `p1`) is any plain text, and the text between
clauses (`p2`, ...) is any text that can follow a marker. The unit test's exact
strings are instances of these families.

## Model

| member | source | states |
|---|---|---|
| StringQueryExamples.PlainLikeBinding | src/test/java/org/springframework/data/jpa/repository/query/StringQueryUnitTests.java:43-58 | `... like :firstname` parses to the unchanged query text with exactly one binding: the name `firstname` with like-type plain |
| StringQueryExamples.PositionalLikeBindings | src/test/java/org/springframework/data/jpa/repository/query/StringQueryUnitTests.java:60-80 | `like %?1%` and `like %?2` give a containing binding for position 1 and an ending-with binding for position 2; the query keeps `like ?1` and `like ?2` |
| StringQueryExamples.NamedLikeBinding | src/test/java/org/springframework/data/jpa/repository/query/StringQueryUnitTests.java:82-97 | `like %:firstname` gives one ending-with binding named `firstname`; the `%` disappears from the query |
| StringQueryExamples.NamedInBinding | src/test/java/org/springframework/data/jpa/repository/query/StringQueryUnitTests.java:99-112 | `in :ids` gives one `IN` binding named `ids`; the query text is unchanged |
| StringQueryExamples.MultipleNamedInBindings | src/test/java/org/springframework/data/jpa/repository/query/StringQueryUnitTests.java:114-129 | `in :ids`, `in :names` and `= :bar` give two `IN` bindings and one simple binding, in order, and the query text is unchanged |
| StringQueryExamples.PositionalInBinding | src/test/java/org/springframework/data/jpa/repository/query/StringQueryUnitTests.java:131-144 | `in ?1` gives one `IN` binding for position 1 |
| StringQueryExamples.MultiplePositionalInBindings | src/test/java/org/springframework/data/jpa/repository/query/StringQueryUnitTests.java:146-161 | `in ?1`, `in ?2` and `= ?3` give two `IN` bindings and one simple binding, in order |
| StringQueryExamples.MultipleNamedLikeBindings | src/test/java/org/springframework/data/jpa/repository/query/StringQueryUnitTests.java:163-166 | `like %:firstname` followed by `like :bar` parses successfully, to an ending-with binding and a plain like binding |
| StringQueryExamples.RepeatedParameterConflict | src/test/java/org/springframework/data/jpa/repository/query/StringQueryUnitTests.java:168-171 | `like %?1` followed by `like ?1%` fails with a conflict on position 1 between ending-with and starting-with |
| StringQueryExamples.GreaterThanBinding | src/test/java/org/springframework/data/jpa/repository/query/StringQueryUnitTests.java:173-181 | `> ?1` gives one simple binding for position 1 |
| StringQueryExamples.EscapedLikeBindings | src/test/java/org/springframework/data/jpa/repository/query/StringQueryUnitTests.java:183-196 | two `LIKE %:escapedWord%` clauses and `= :word` give exactly two bindings: containing `escapedWord`, then simple `word`. The query loses the `%` signs and keeps the `ESCAPE '~'` literals |
| StringQueryExamples.InParenthesesBinding | src/test/java/org/springframework/data/jpa/repository/query/StringQueryUnitTests.java:198-207 | `in (:name)` gives one `IN` binding for any name made of word characters |
| StringQueryExamples.InParenthesesStatuses | src/test/java/org/springframework/data/jpa/repository/query/StringQueryUnitTests.java:198-207 | `in (:statuses)` gives one `IN` binding named `statuses` |
| StringQueryExamples.InParenthesesNonAsciiNames | src/test/java/org/springframework/data/jpa/repository/query/StringQueryUnitTests.java:220-262 | the names `abonnés`, `øre`, `생일` and `ab1babc생일233` after `in (` are each read whole, and each template gives exactly one `IN` binding with that name and the query unchanged |
| StringQueryExamples.RepeatedParameterConflictReversed | src/test/java/org/springframework/data/jpa/repository/query/StringQueryUnitTests.java:264-267 | `like ?1` followed by `like %?1` fails with a conflict on position 1 between a plain like binding and an ending-with one |
| StringQueryExamples.NamedExpressionsInBindings | src/test/java/org/springframework/data/jpa/repository/query/StringQueryUnitTests.java:269-276 | `in :#{#bs}` and `in :#{#cs}` become the synthetic names `__$synthetic$__1` and `__$synthetic$__2`, each an `IN` binding, and the query text names them |
| StringQueryExamples.PositionalExpressionsInBindings | src/test/java/org/springframework/data/jpa/repository/query/StringQueryUnitTests.java:278-285 | `in ?#{#bs}` and `in ?#{#cs}` become positional `IN` bindings 1 and 2, and the query text uses `?1` and `?2` |
| StringQueryExamples.ConstructorExpressionWithExtraSpaces | src/test/java/org/springframework/data/jpa/repository/query/StringQueryUnitTests.java:287-293 | `select  new  Dto(a.foo, a.bar)  from A a` has a constructor expression |
| StringQueryExamples.ConstructorExpressionSpaceBeforeArguments | src/test/java/org/springframework/data/jpa/repository/query/StringQueryUnitTests.java:287-293 | `select new Dto (a.foo, a.bar) from A a` has a constructor expression |
| StringQueryExamples.PlainSelectionIsNoConstructorExpression | src/test/java/org/springframework/data/jpa/repository/query/StringQueryUnitTests.java:287-293 | `select a from A a` has no constructor expression |
| StringQueryExamples.ConstructorExpressionDefaultConstructor | src/test/java/org/springframework/data/jpa/repository/query/StringQueryUnitTests.java:298-304 | `select new Dto() from A a` has a constructor expression |
| StringQueryExamples.NewWithoutArgumentsIsNoConstructorExpression | src/test/java/org/springframework/data/jpa/repository/query/StringQueryUnitTests.java:298-304 | `select new Dto from A a` has none, because the parentheses are required |
| StringQueryExamples.IdenticalExpressionsBinding | src/test/java/org/springframework/data/jpa/repository/query/StringQueryUnitTests.java:306-318 | two identical `:#{#exp}` markers become the same synthetic name and give one binding, whose name occurs in the query text |
| StringQueryExamples.MissingNameHintsAtParam | src/test/java/org/springframework/data/jpa/repository/query/StringQueryUnitTests.java:209-218 | looking up a binding with no name on a parsed query fails with a message that mentions `@Param` |
| StringQuery.GetBindingFor | src/test/java/org/springframework/data/jpa/repository/query/StringQueryUnitTests.java:209-218 | a missing or blank name fails with the `@Param` hint. Success means the binding is in the query and has that name. Any other failure means no binding has that name |
| StringQuery.MissingNameMentionsParam | src/test/java/org/springframework/data/jpa/repository/query/StringQueryUnitTests.java:209-218 | the missing-name message contains `@Param` |
| StringQuery.ParseErrors | src/test/java/org/springframework/data/jpa/repository/query/StringQueryUnitTests.java:168-171 | parsing fails only for one of two reasons: an unterminated SpEL marker at the reported offset, or a conflict between two different binding kinds |
| StringQuery.ParseWithoutHashFailsOnlyByConflict | src/test/java/org/springframework/data/jpa/repository/query/StringQueryUnitTests.java:264-267 | a template without `#` can only be rejected for conflicting bindings |
| StringQuery.ParseBindings | src/test/java/org/springframework/data/jpa/repository/query/StringQueryUnitTests.java:163-171 | parsing succeeds exactly when the marker occurrences are consistent. The bindings are then the first occurrence of each identifier, in order; a failure names a real conflict |
| StringQuery.ParseBindingsCoverMarkers | src/test/java/org/springframework/data/jpa/repository/query/StringQueryUnitTests.java:183-196 | the bindings have distinct identifiers; every marker's binding is among them, and every binding comes from some marker |
| StringQuery.ParseQueryText | src/test/java/org/springframework/data/jpa/repository/query/StringQueryUnitTests.java:82-97 | the parsed query text is the tokens rendered again, each marker without its `%` decorations and with SpEL markers renamed |
| StringQuery.ParseKeepsUndecoratedTemplate | src/test/java/org/springframework/data/jpa/repository/query/StringQueryUnitTests.java:99-161 | when no marker carries a `%` wildcard and none is a SpEL expression, the query string is the template unchanged, including any `%` or `#` in its literal text |
| StringQuery.ParseKeepsPlainTemplate | src/test/java/org/springframework/data/jpa/repository/query/StringQueryUnitTests.java:99-161 | a template without `%` and `#` is returned unchanged as the query string |
| StringQuery.BindingNamesOccurInQuery | src/test/java/org/springframework/data/jpa/repository/query/StringQueryUnitTests.java:306-318 | every named binding of a parsed query occurs as `:name` in the query text |
| StringQuery.HasParameterBindingsIff | src/test/java/org/springframework/data/jpa/repository/query/StringQueryUnitTests.java:43-58 | a parsed query has parameter bindings exactly when the template has a marker |
| StringQuery.NoMarkersNoBindings | src/test/java/org/springframework/data/jpa/repository/query/StringQueryUnitTests.java:209-218 | a template without `:` and `?` always parses, to itself as the query and no bindings |
| StringQuery.ParseConstructorFlag | src/test/java/org/springframework/data/jpa/repository/query/StringQueryUnitTests.java:287-304 | the parsed flag is true exactly when the template contains a constructor expression |
| Scanner.TokenizeRendersInput | src/test/java/org/springframework/data/jpa/repository/query/StringQueryUnitTests.java:43-58 | a successful tokenization renders back to its input, and every token is well formed |
| Scanner.TokenizeContexts | src/test/java/org/springframework/data/jpa/repository/query/StringQueryUnitTests.java:99-129 | each marker's context (`like`, `in`, or neither) is the context of the text before it |
| Scanner.TokenizeFailsOnlyOnUnterminated | src/test/java/org/springframework/data/jpa/repository/query/StringQueryUnitTests.java:269-285 | tokenization fails only at an offset inside the input where an unterminated SpEL marker starts |
| Scanner.ReadMarker | src/test/java/org/springframework/data/jpa/repository/query/StringQueryUnitTests.java:220-262 | reading a marker fails exactly on an unterminated SpEL marker. Otherwise the marker is well formed and its text is a prefix of the input. A name or number stops only where the word or digit run ends |
| Scanner.NextToken | src/test/java/org/springframework/data/jpa/repository/query/StringQueryUnitTests.java:183-196 | the next token is a non-empty prefix of the input and well formed, and a marker's context is that of the text already read; a failure is an unterminated SpEL marker |
| Scanner.RenderAppend | src/test/java/org/springframework/data/jpa/repository/query/StringQueryUnitTests.java:43-58 | supporting lemma for the unchanged query text of these lines: rendering distributes over concatenation of token lists |
| Scanner.TrimEnd | src/test/java/org/springframework/data/jpa/repository/query/StringQueryUnitTests.java:198-207 | supporting function for recognising `in (` before a marker: the result is a prefix of the input, only whitespace was removed, and it does not end in whitespace |
| Templates.TokenizeRender | src/test/java/org/springframework/data/jpa/repository/query/StringQueryUnitTests.java:43-58 | tokenizing the rendering of a separated token list gives back exactly that list (the round trip) |
| Templates.SeparatedAppend | src/test/java/org/springframework/data/jpa/repository/query/StringQueryUnitTests.java:114-161 | supporting lemma for the templates with several clauses: two separated token lists joined at a clean boundary stay separated |
| Bindings.LikeTypeOf | src/test/java/org/springframework/data/jpa/repository/query/StringQueryUnitTests.java:60-97 | `%` on both sides means containing, leading only means ending-with, trailing only means starting-with, and none means plain |
| Extractor.KindOf | src/test/java/org/springframework/data/jpa/repository/query/StringQueryUnitTests.java:99-181 | a marker is a like binding exactly after `like`, an `IN` binding exactly after `in`, and simple otherwise |
| Extractor.Occurrences | src/test/java/org/springframework/data/jpa/repository/query/StringQueryUnitTests.java:114-161 | every occurrence comes from a marker, and every marker's occurrence is listed |
| Extractor.MaxPosition | src/test/java/org/springframework/data/jpa/repository/query/StringQueryUnitTests.java:278-285 | the greatest explicit `?N` position of the template, or 0 when it has none: an upper bound that is itself one of the positions |
| Namer.Find | src/test/java/org/springframework/data/jpa/repository/query/StringQueryUnitTests.java:306-318 | finds the first table entry with the given sigil and expression text, or reports that there is none |
| Namer.Resolve | src/test/java/org/springframework/data/jpa/repository/query/StringQueryUnitTests.java:269-285 | leaves no SpEL marker and keeps every other token. Each SpEL marker keeps its decorations and context and becomes the replacement numbered by `ExpressionNumber`: `:#{…}` becomes `:__$synthetic$__N` and `?#{…}` becomes `?` followed by the base plus N. N is one more than the number of distinct texts of the same sigil that appear before the marker's own text first does |
| Namer.ResolveNumbering | src/test/java/org/springframework/data/jpa/repository/query/StringQueryUnitTests.java:269-285 | the numbering statement for one marker: the resolved form equals the replacement of the entry with the marker's sigil, text and `ExpressionNumber` |
| Namer.MirrorsPrefix | src/test/java/org/springframework/data/jpa/repository/query/StringQueryUnitTests.java:306-318 | after any prefix of the template, the naming table holds exactly the SpEL texts of that prefix, and its count per sigil is the number of distinct texts of that sigil |
| Namer.ResolveWithoutExpressions | src/test/java/org/springframework/data/jpa/repository/query/StringQueryUnitTests.java:99-161 | a template without SpEL markers is not changed |
| Namer.ResolveTokenSpec | src/test/java/org/springframework/data/jpa/repository/query/StringQueryUnitTests.java:306-318 | one step of naming: the table only grows; a SpEL marker becomes the replacement of its table entry, and any other token is untouched |
| Namer.ReplacementInjective | src/test/java/org/springframework/data/jpa/repository/query/StringQueryUnitTests.java:269-285 | different table entries get different synthetic markers |
| Namer.SameExpressionSameMarker | src/test/java/org/springframework/data/jpa/repository/query/StringQueryUnitTests.java:306-318 | two SpEL markers get the same synthetic marker exactly when their text is the same |
| Namer.ReplacementIsFresh | src/test/java/org/springframework/data/jpa/repository/query/StringQueryUnitTests.java:269-285 | a synthetic identifier never equals a well-formed user-written identifier when the position base is large enough |
| Namer.SyntheticIdentifiersAreFresh | src/test/java/org/springframework/data/jpa/repository/query/StringQueryUnitTests.java:269-285 | a resolved SpEL marker never takes the identifier of a user-written marker in the same template |
| Resolver.IndexOf | src/test/java/org/springframework/data/jpa/repository/query/StringQueryUnitTests.java:168-171 | finds a binding with the given identifier, or reports that none has it |
| Resolver.RegisterSpec | src/test/java/org/springframework/data/jpa/repository/query/StringQueryUnitTests.java:168-171 | adding one occurrence succeeds exactly when it keeps the occurrences consistent, yields the first-occurrence table, and otherwise reports a real conflict |
| Resolver.CollectSpec | src/test/java/org/springframework/data/jpa/repository/query/StringQueryUnitTests.java:163-171 | collecting succeeds exactly when no identifier is used with two kinds. It then yields the first occurrence of each identifier; a failure names a conflicting pair |
| Resolver.CollectDistinct | src/test/java/org/springframework/data/jpa/repository/query/StringQueryUnitTests.java:114-161 | occurrences with distinct identifiers are collected unchanged |
| Resolver.CollectDeclaresEveryOccurrence | src/test/java/org/springframework/data/jpa/repository/query/StringQueryUnitTests.java:183-196 | the collected bindings have distinct identifiers and hold the same bindings as the occurrences |
| Rewriter.RewriteAppend | src/test/java/org/springframework/data/jpa/repository/query/StringQueryUnitTests.java:183-196 | supporting lemma for the query text with several decorated clauses: rewriting distributes over concatenation of token lists |
| Resolver.FirstOccurrencesEmptyIff | src/test/java/org/springframework/data/jpa/repository/query/StringQueryUnitTests.java:43-58 | supporting lemma for `hasParameterBindings`: the first-occurrence table is empty exactly when there are no occurrences |
| Rewriter.RewriteIsUndecoratedRender | src/test/java/org/springframework/data/jpa/repository/query/StringQueryUnitTests.java:82-97 | the rewritten query is the rendering of the tokens with every `%` decoration dropped |
| Rewriter.RewriteWithoutDecorations | src/test/java/org/springframework/data/jpa/repository/query/StringQueryUnitTests.java:99-161 | without decorations the rewritten query is the template itself |
| Rewriter.RewriteLength | src/test/java/org/springframework/data/jpa/repository/query/StringQueryUnitTests.java:60-97 | the rewritten query is shorter than the template by exactly the number of `%` decorations |
| Rewriter.TokenTextSurvives | src/test/java/org/springframework/data/jpa/repository/query/StringQueryUnitTests.java:306-318 | each token's undecorated text occurs in the rewritten query where that token was |
| ConstructorExpression.HasConstructorExpressionIff | src/test/java/org/springframework/data/jpa/repository/query/StringQueryUnitTests.java:287-304 | the one-pass detector answers true exactly when some `new` after a `select` is followed by whitespace, a name, optional whitespace and a parenthesised argument list |
| ConstructorExpression.TailMatchesIff | src/test/java/org/springframework/data/jpa/repository/query/StringQueryUnitTests.java:298-304 | the scanning matcher for the text after `new` agrees with its declarative definition |
| ConstructorExpression.ConstructorNeedsParenthesis | src/test/java/org/springframework/data/jpa/repository/query/StringQueryUnitTests.java:298-304 | a query without `(` never has a constructor expression |
| ConstructorExpression.ConstructorShapeDetected | src/test/java/org/springframework/data/jpa/repository/query/StringQueryUnitTests.java:287-304 | every query of the form `select`, whitespace, `new`, whitespace, a name, optional whitespace and `(...)` is detected, in any letter case and with any text around it |
| Lexical.NatToStringInjective | src/test/java/org/springframework/data/jpa/repository/query/StringQueryUnitTests.java:269-285 | supporting lemma for distinct synthetic names: distinct numbers print differently |
| Lexical.SpanLength | src/test/java/org/springframework/data/jpa/repository/query/StringQueryUnitTests.java:220-262 | supporting function for reading a name whole: the span is the longest prefix whose characters all satisfy the predicate |

## Left out

- Evaluating SpEL expressions is left out. The model only renames them; their values are bound at query execution, outside the parser.
- Unicode: a word character is an ASCII letter, a digit, `_`, or any code point from U+00C0 on, except U+00D7 and U+00F7. This approximates the Unicode letter classes of the original pattern. The accented, Scandinavian and Hangul test names fall inside it. There is no case folding beyond ASCII.
- Whitespace is the ASCII space, tab, line feed and carriage return. Form feed and other Unicode separators are not modelled.
- The `Like` binding kind records no escape character. An `ESCAPE` clause passes through as literal text, and the escape character is not kept with the binding.
- The exact text of error messages is not modelled. A conflict is a `ConflictingBinding` value; the missing-name message is a constant that mentions `@Param`.
- The conflict rule is that one identifier must always carry the same binding kind (simple, `IN`, or like with one like-type). The tests show only like-type clashes; the model extends the same rule to every kind.
- SpEL numbering: synthetic names count separately for `:#{` and `?#{`. Synthetic positions continue after the greatest explicit `?N`. The tests fix only the first two synthetic names of each kind; `Namer.Resolve` states the numbering for every template.
- Quoted literals are skipped, so markers inside `'...'` are not parameters. An unterminated quote keeps the rest as literal text. An unterminated `#{` is an error, reported as `MalformedExpression`.
- The JUnit machinery, the Hamcrest matchers and the Java class hierarchy of parameter bindings are not modelled. `LikeParameterBinding` and `InParameterBinding` are collapsed into the `BindingKind` variant. `getParameterBindings` is the `bindings` field and `getQueryString` is the `query` field.
- StringQueryExamples: each test is stated over a family of queries. The text around the clauses is a parameter restricted to plain text. The test's literal query is one member of the family, but it is not restated character by character.
- ConstructorExpression.HasConstructorExpressionIff: a constructor's name may contain letters, digits, `_`, `$` and `.`; the argument list is any text up to a `)`. Nested parentheses and the JPQL grammar are not checked.
