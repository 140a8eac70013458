/**
  The binding extractor: the identifier and the binding kind each marker
  declares, read off the marker and the keyword before it.
 */
module Extractor {

  import opened Lexical
  import opened Bindings
  import opened Scanner

  /** The parameter a plain (non-expression) marker refers to. */
  function IdOf(f: MarkerForm): Identifier
    requires !f.Expression?
  {
    match f
    case NamedRef(n) => Name(n)
    case PositionalRef(d) => Position(DigitsValue(d))
  }

  /**
    The kind of binding a marker declares: after LIKE a LIKE binding whose
    pattern type follows the wildcards, after IN an IN binding, otherwise a
    simple binding (comparisons such as `=` or `>` included).
   */
  function KindOf(context: Context, leading: bool, trailing: bool): (k: BindingKind)
    ensures k.Like? <==> context == AfterLike
    ensures k.Like? ==> k.likeType == LikeTypeOf(leading, trailing)
    ensures k == In <==> context == AfterIn
    ensures k == Simple <==> context == NoKeyword
  {
    match context
    case AfterLike => Like(LikeTypeOf(leading, trailing))
    case AfterIn => In
    case NoKeyword => Simple
  }

  predicate IsExpressionMarker(t: Token) {
    t.Marker? && t.form.Expression?
  }

  predicate NoExpressions(ts: seq<Token>) {
    forall i :: 0 <= i < |ts| ==> !IsExpressionMarker(ts[i])
  }

  function OccurrenceOf(t: Token): Binding
    requires t.Marker? && !t.form.Expression?
  {
    Binding(IdOf(t.form), KindOf(t.context, t.leading, t.trailing))
  }

  /** The binding each marker declares, in the order the markers occur. */
  function Occurrences(ts: seq<Token>): (occ: seq<Binding>)
    requires NoExpressions(ts)
    ensures forall b <- occ :: exists i :: 0 <= i < |ts| && ts[i].Marker? && OccurrenceOf(ts[i]) == b
    ensures forall i :: 0 <= i < |ts| && ts[i].Marker? ==> OccurrenceOf(ts[i]) in occ
  {
    if ts == [] then []
    else
      var rest := Occurrences(ts[1..]);
      assert forall i :: 0 <= i < |ts[1..]| ==> ts[1..][i] == ts[i + 1];
      if ts[0].Marker? then [OccurrenceOf(ts[0])] + rest else rest
  }

  /** Markers declare bindings exactly when there are markers. */
  lemma {:induction false} OccurrencesEmptyIff(ts: seq<Token>)
    requires NoExpressions(ts)
    ensures Occurrences(ts) == [] <==> forall i :: 0 <= i < |ts| ==> !ts[i].Marker?
  {
    if ts != [] {
      assert forall i :: 0 <= i < |ts| - 1 ==> ts[1..][i] == ts[i + 1];
      OccurrencesEmptyIff(ts[1..]);
    }
  }

  /** The occurrences of two token sequences one after the other. */
  lemma {:induction false} OccurrencesAppend(a: seq<Token>, b: seq<Token>)
    requires NoExpressions(a) && NoExpressions(b)
    ensures NoExpressions(a + b) && Occurrences(a + b) == Occurrences(a) + Occurrences(b)
  {
    var ab := a + b;
    assert NoExpressions(ab) by {
      forall i | 0 <= i < |ab|
        ensures !IsExpressionMarker(ab[i])
      {
        if i >= |a| {
          assert ab[i] == b[i - |a|];
        }
      }
    }
    if a == [] {
      assert ab == b;
    } else {
      assert ab[0] == a[0] && ab[1..] == a[1..] + b;
      OccurrencesAppend(a[1..], b);
    }
  }

  /** The greatest position an explicit `?N` marker names, 0 when there is none. */
  function MaxPosition(ts: seq<Token>): (m: nat)
    ensures forall i :: 0 <= i < |ts| && ts[i].Marker? && ts[i].form.PositionalRef? ==>
      DigitsValue(ts[i].form.digits) <= m
    ensures m == 0 || exists i :: 0 <= i < |ts| && ts[i].Marker? && ts[i].form.PositionalRef?
                                 && DigitsValue(ts[i].form.digits) == m
  {
    if ts == [] then 0
    else
      var rest := MaxPosition(ts[1..]);
      assert forall i :: 0 < i < |ts| ==> ts[i] == ts[1..][i - 1];
      if ts[0].Marker? && ts[0].form.PositionalRef? && DigitsValue(ts[0].form.digits) > rest
      then DigitsValue(ts[0].form.digits)
      else rest
  }

  /** Without positional markers the greatest position is 0. */
  lemma {:induction false} MaxPositionWithoutPositional(ts: seq<Token>)
    requires forall i :: 0 <= i < |ts| ==> !(ts[i].Marker? && ts[i].form.PositionalRef?)
    ensures MaxPosition(ts) == 0
  {
    if ts != [] {
      assert forall i :: 0 <= i < |ts| - 1 ==> ts[1..][i] == ts[i + 1];
      MaxPositionWithoutPositional(ts[1..]);
    }
  }
}
