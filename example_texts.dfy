/**
  The query templates of the documented constructor-expression cases, cut
  into the parts the constructor-expression shape names. These are plain
  facts about string literals, kept apart from the parser's definitions so
  that checking them involves nothing but the characters.
 */
module ExampleTexts {

  lemma ExtraSpacesParts()
    ensures "select  new  Dto(a.foo, a.bar)  from A a"
      == "" + ("select" + ("  " + ("new" + ("  " + ("Dto" + ("" + ("(" + ("a.foo, a.bar" + (")" + "  from A a")))))))))
  {
  }

  lemma SpaceBeforeArgumentsParts()
    ensures "select new Dto (a.foo, a.bar) from A a"
      == "" + ("select" + (" " + ("new" + (" " + ("Dto" + (" " + ("(" + ("a.foo, a.bar" + (")" + " from A a")))))))))
  {
  }

  lemma DefaultConstructorParts()
    ensures "select new Dto() from A a"
      == "" + ("select" + (" " + ("new" + (" " + ("Dto" + ("" + ("(" + ("" + (")" + " from A a")))))))))
  {
  }

  // None of the constructor-expression templates holds a parameter marker.

  lemma ExtraSpacesHasNoMarkers()
    ensures ':' !in "select  new  Dto(a.foo, a.bar)  from A a" && '?' !in "select  new  Dto(a.foo, a.bar)  from A a"
  {
  }

  lemma SpaceBeforeArgumentsHasNoMarkers()
    ensures ':' !in "select new Dto (a.foo, a.bar) from A a" && '?' !in "select new Dto (a.foo, a.bar) from A a"
  {
  }

  lemma DefaultConstructorHasNoMarkers()
    ensures ':' !in "select new Dto() from A a" && '?' !in "select new Dto() from A a"
  {
  }

  lemma PlainSelectionHasNoMarkers()
    ensures ':' !in "select a from A a" && '?' !in "select a from A a"
  {
  }

  lemma NewWithoutArgumentsHasNoMarkers()
    ensures ':' !in "select new Dto from A a" && '?' !in "select new Dto from A a"
  {
  }

  /** The clauses of the ESCAPE template, cut at their markers. */
  lemma EscapedClauseParts()
    ensures " LIKE %:escapedWord% ESCAPE '~'" == " LIKE " + ("%" + [':'] + "escapedWord" + "%") + " ESCAPE " + "'~'"
    ensures " LIKE :escapedWord ESCAPE '~'" == " LIKE " + ([':'] + "escapedWord") + " ESCAPE " + "'~'"
    ensures " = :word" == " = " + ("" + [':'] + "word" + "") == " = " + ([':'] + "word")
  {
  }

  // The IN clauses of the tests with names outside ASCII, put together from their parts.

  lemma NonAsciiInClauses()
    ensures " in (:" + "abonnés" + ")" == " in (:abonnés)"
    ensures " in (:" + "øre" + ")" == " in (:øre)"
    ensures " in (:" + "생일" + ")" == " in (:생일)"
    ensures " in (:" + "ab1babc생일233" + ")" == " in (:ab1babc생일233)"
  {
  }
}
