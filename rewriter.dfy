/**
  The query rewriter. The query handed on to JPA is the template with the `%`
  wildcards around LIKE markers removed (they are recorded in the binding's
  pattern type instead); literal text and the markers themselves are kept.
 */
module Rewriter {

  import opened Lexical
  import opened Scanner

  /** What a token contributes to the rewritten query: literals verbatim, markers without wildcards. */
  function StrippedText(t: Token): string {
    match t
    case Literal(text) => text
    case Marker(_, form, _, _) => FormText(form)
  }

  function Rewrite(ts: seq<Token>): string {
    if ts == [] then "" else StrippedText(ts[0]) + Rewrite(ts[1..])
  }

  /* ---------------------------------------------------------------- specification */

  /** The token with its wildcards dropped. */
  function Undecorated(t: Token): Token {
    if t.Marker? then t.(leading := false, trailing := false) else t
  }

  function UndecorateAll(ts: seq<Token>): (us: seq<Token>)
    ensures |us| == |ts|
  {
    if ts == [] then [] else [Undecorated(ts[0])] + UndecorateAll(ts[1..])
  }

  predicate NoDecorations(ts: seq<Token>) {
    forall i :: 0 <= i < |ts| && ts[i].Marker? ==> !ts[i].leading && !ts[i].trailing
  }

  /** The number of `%` wildcards attached to markers. */
  function DecorationCount(ts: seq<Token>): nat {
    if ts == [] then 0
    else
      (if ts[0].Marker? && ts[0].leading then 1 else 0)
      + (if ts[0].Marker? && ts[0].trailing then 1 else 0)
      + DecorationCount(ts[1..])
  }

  /* ---------------------------------------------------------------- properties */

  lemma {:induction false} RewriteAppend(a: seq<Token>, b: seq<Token>)
    ensures Rewrite(a + b) == Rewrite(a) + Rewrite(b)
  {
    if a != [] {
      assert (a + b)[1..] == a[1..] + b;
      RewriteAppend(a[1..], b);
    } else {
      assert a + b == b;
    }
  }

  /**
    The rewritten query is exactly the template the tokens render, with the
    wildcards of the markers taken out and nothing else changed.
   */
  lemma {:induction false} RewriteIsUndecoratedRender(ts: seq<Token>)
    ensures Rewrite(ts) == Render(UndecorateAll(ts))
  {
    if ts != [] {
      RewriteIsUndecoratedRender(ts[1..]);
      var us := UndecorateAll(ts);
      assert us[1..] == UndecorateAll(ts[1..]);
    }
  }

  /** Without wildcards the query is returned unchanged. */
  lemma {:induction false} RewriteWithoutDecorations(ts: seq<Token>)
    requires NoDecorations(ts)
    ensures Rewrite(ts) == Render(ts)
  {
    if ts != [] {
      assert NoDecorations(ts[1..]) by {
        assert forall i :: 0 <= i < |ts| - 1 ==> ts[1..][i] == ts[i + 1];
      }
      RewriteWithoutDecorations(ts[1..]);
    }
  }

  /** Each wildcard removed shortens the query by one character, and nothing else does. */
  lemma {:induction false} RewriteLength(ts: seq<Token>)
    ensures |Rewrite(ts)| + DecorationCount(ts) == |Render(ts)|
  {
    if ts != [] {
      RewriteLength(ts[1..]);
    }
  }

  /**
    Every token's text survives the rewrite, in place: it follows the
    rewrite of the tokens before it.
   */
  lemma TokenTextSurvives(ts: seq<Token>, i: nat)
    requires i < |ts|
    ensures OccursAt(Rewrite(ts), StrippedText(ts[i]), |Rewrite(ts[..i])|)
  {
    assert ts == ts[..i] + ([ts[i]] + ts[i + 1..]);
    RewriteAppend(ts[..i], [ts[i]] + ts[i + 1..]);
    RewriteAppend([ts[i]], ts[i + 1..]);
    assert Rewrite([ts[i]]) == StrippedText(ts[i]) + Rewrite([]);
  }
}
