/**
  The parameter bindings a query template declares. The class hierarchy of the
  source (a plain binding, an IN binding, a LIKE binding carrying a pattern
  type) becomes one closed variant.
 */
module Bindings {

  /** A parameter is bound either by name (`:name`) or by position (`?3`). */
  datatype Identifier = Name(name: string) | Position(position: nat)

  /**
    The pattern type of a LIKE binding: `Plain` is the LIKE type (no wildcard
    decoration), the others say where the `%` wildcards stood.
   */
  datatype LikeType = Plain | StartingWith | EndingWith | Containing

  datatype BindingKind = Simple | In | Like(likeType: LikeType)

  datatype Binding = Binding(id: Identifier, kind: BindingKind)

  datatype ParseError =
    | MalformedExpression(offset: nat)
    | ConflictingBinding(id: Identifier, existing: BindingKind, found: BindingKind)

  /**
    The pattern type implied by `%` before and/or after a marker: `%x%`
    contains, `%x` ends with, `x%` starts with, `x` is a plain LIKE.
   */
  function LikeTypeOf(leading: bool, trailing: bool): (t: LikeType)
    ensures t == Containing <==> leading && trailing
    ensures t == EndingWith <==> leading && !trailing
    ensures t == StartingWith <==> !leading && trailing
    ensures t == Plain <==> !leading && !trailing
  {
    if leading && trailing then Containing
    else if leading then EndingWith
    else if trailing then StartingWith
    else Plain
  }
}
