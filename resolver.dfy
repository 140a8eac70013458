/**
  The conflict resolver. The first occurrence of a parameter fixes its binding
  kind; a later occurrence with the same kind adds nothing, one with another
  kind (a different wildcard shape, say) is rejected.
 */
module Resolver {

  import opened Wrappers
  import opened Bindings

  /** The index of the binding for `id`, if there is one. */
  function IndexOf(bs: seq<Binding>, id: Identifier): (k: Option<nat>)
    ensures k.Some? ==> k.value < |bs| && bs[k.value].id == id
    ensures k.None? ==> forall i :: 0 <= i < |bs| ==> bs[i].id != id
  {
    if bs == [] then None
    else if bs[0].id == id then Some(0)
    else
      match IndexOf(bs[1..], id)
      case None => None
      case Some(k) => Some(k + 1)
  }

  /** Records one occurrence in the table of bindings, or reports the conflict. */
  function Register(bs: seq<Binding>, b: Binding): Result<seq<Binding>, ParseError> {
    match IndexOf(bs, b.id)
    case None => Success(bs + [b])
    case Some(k) =>
      if bs[k].kind == b.kind then Success(bs)
      else Failure(ConflictingBinding(b.id, bs[k].kind, b.kind))
  }

  function CollectFrom(bs: seq<Binding>, occ: seq<Binding>): Result<seq<Binding>, ParseError>
    decreases |occ|
  {
    if occ == [] then Success(bs)
    else
      var next :- Register(bs, occ[0]);
      CollectFrom(next, occ[1..])
  }

  /** The bindings of a template, from the occurrences of its markers in order. */
  function Collect(occ: seq<Binding>): Result<seq<Binding>, ParseError> {
    CollectFrom([], occ)
  }

  /* ---------------------------------------------------------------- specification */

  /** Every two occurrences of one parameter declare the same kind. */
  predicate Consistent(occ: seq<Binding>) {
    forall i, j :: 0 <= i < j < |occ| && occ[i].id == occ[j].id ==> occ[i].kind == occ[j].kind
  }

  predicate DistinctIds(bs: seq<Binding>) {
    forall k, l :: 0 <= k < l < |bs| ==> bs[k].id != bs[l].id
  }

  /** An occurrence of the same parameter comes before index `n`. */
  predicate SeenBefore(occ: seq<Binding>, n: nat, id: Identifier)
    requires n <= |occ|
  {
    exists i :: 0 <= i < n && occ[i].id == id
  }

  /** The occurrences that are the first of their parameter, in order. */
  function FirstOccurrences(occ: seq<Binding>): seq<Binding> {
    if occ == [] then []
    else
      var n := |occ| - 1;
      if SeenBefore(occ, n, occ[n].id) then FirstOccurrences(occ[..n])
      else FirstOccurrences(occ[..n]) + [occ[n]]
  }

  /** Each first occurrence is an occurrence. */
  lemma {:induction false} FirstOccurrencesAreOccurrences(occ: seq<Binding>)
    ensures forall b <- FirstOccurrences(occ) :: b in occ
  {
    if occ != [] {
      var n := |occ| - 1;
      FirstOccurrencesAreOccurrences(occ[..n]);
      assert forall b <- occ[..n] :: b in occ;
    }
  }

  /** Every occurrence's parameter has a first occurrence. */
  lemma {:induction false} FirstOccurrencesCover(occ: seq<Binding>, i: nat)
    requires i < |occ|
    ensures exists b <- FirstOccurrences(occ) :: b.id == occ[i].id
  {
    var n := |occ| - 1;
    var prev := FirstOccurrences(occ[..n]);
    if i < n {
      FirstOccurrencesCover(occ[..n], i);
      assert occ[..n][i] == occ[i];
    } else if SeenBefore(occ, n, occ[n].id) {
      var j :| 0 <= j < n && occ[j].id == occ[n].id;
      FirstOccurrencesCover(occ[..n], j);
      assert occ[..n][j] == occ[j];
    } else {
      assert FirstOccurrences(occ)[|prev|] == occ[n];
    }
  }

  /** The first occurrences name pairwise distinct parameters. */
  lemma {:induction false} FirstOccurrencesDistinct(occ: seq<Binding>)
    ensures DistinctIds(FirstOccurrences(occ))
  {
    if occ != [] {
      var n := |occ| - 1;
      var prev := FirstOccurrences(occ[..n]);
      FirstOccurrencesDistinct(occ[..n]);
      if !SeenBefore(occ, n, occ[n].id) {
        FirstOccurrencesAreOccurrences(occ[..n]);
        var fo := prev + [occ[n]];
        forall k | 0 <= k < |prev|
          ensures prev[k].id != occ[n].id
        {
          assert prev[k] in occ[..n];
          var j :| 0 <= j < n && occ[..n][j] == prev[k];
          assert occ[j] == prev[k];
        }
        assert FirstOccurrences(occ) == fo;
        forall k, l | 0 <= k < l < |fo|
          ensures fo[k].id != fo[l].id
        {
          if l == |prev| {
            assert fo[k] == prev[k] && fo[l] == occ[n];
          } else {
            assert fo[k] == prev[k] && fo[l] == prev[l];
            assert prev[k].id != prev[l].id;
          }
        }
      } else {
        assert FirstOccurrences(occ) == prev;
      }
    }
  }

  /** When no parameter occurs twice, every occurrence is a first occurrence. */
  lemma {:induction false} FirstOccurrencesOfDistinct(occ: seq<Binding>)
    requires DistinctIds(occ)
    ensures FirstOccurrences(occ) == occ
  {
    if occ != [] {
      var n := |occ| - 1;
      assert DistinctIds(occ[..n]);
      FirstOccurrencesOfDistinct(occ[..n]);
      assert !SeenBefore(occ, n, occ[n].id);
      assert occ[..n] + [occ[n]] == occ;
    }
  }

  /** There is a first occurrence exactly when there is an occurrence. */
  lemma FirstOccurrencesEmptyIff(occ: seq<Binding>)
    ensures FirstOccurrences(occ) == [] <==> occ == []
  {
    if occ != [] {
      FirstOccurrencesCover(occ, 0);
    }
  }

  /** `e` reports two occurrences of one parameter with different kinds, in the order they occur. */
  predicate IsConflict(occ: seq<Binding>, e: ParseError) {
    e.ConflictingBinding? && e.existing != e.found
    && exists i, j :: 0 <= i < j < |occ| && occ[i] == Binding(e.id, e.existing) && occ[j] == Binding(e.id, e.found)
  }

  lemma FirstOccurrencesSnoc(done: seq<Binding>, x: Binding)
    ensures FirstOccurrences(done + [x]) ==
      if SeenBefore(done + [x], |done|, x.id) then FirstOccurrences(done) else FirstOccurrences(done) + [x]
  {
    var occ := done + [x];
    assert occ[|done|] == x;
    assert occ[..|done|] == done;
  }

  /** Registering one more occurrence against the first occurrences so far. */
  lemma RegisterSpec(done: seq<Binding>, x: Binding)
    requires Consistent(done)
    ensures var r := Register(FirstOccurrences(done), x);
      (r.Success? <==> Consistent(done + [x]))
      && (r.Success? ==> r.value == FirstOccurrences(done + [x]))
      && (r.Failure? ==> IsConflict(done + [x], r.error))
  {
    var occ := done + [x];
    var n := |done|;
    var fo := FirstOccurrences(done);
    FirstOccurrencesSnoc(done, x);
    assert occ[n] == x;
    assert forall i :: 0 <= i < n ==> occ[i] == done[i];
    match IndexOf(fo, x.id)
    case None =>
      forall i | 0 <= i < n
        ensures done[i].id != x.id
      {
        FirstOccurrencesCover(done, i);
      }
      assert !SeenBefore(occ, n, x.id);
    case Some(k) =>
      FirstOccurrencesAreOccurrences(done);
      assert fo[k] in done;
      var m :| 0 <= m < n && done[m] == fo[k];
      assert SeenBefore(occ, n, x.id) by {
        assert occ[m].id == x.id;
      }
      if fo[k].kind == x.kind {
        forall i, j | 0 <= i < j < |occ| && occ[i].id == occ[j].id
          ensures occ[i].kind == occ[j].kind
        {
          if j == n {
            if i != m {
              assert done[i].id == done[m].id;
              if i < m {
                assert done[i].kind == done[m].kind;
              } else {
                assert done[m].kind == done[i].kind;
              }
            }
          } else {
            assert done[i].id == done[j].id;
          }
        }
      } else {
        assert occ[m] == Binding(x.id, fo[k].kind);
        assert occ[n] == Binding(x.id, x.kind);
        assert !Consistent(occ) by {
          assert occ[m].id == occ[n].id && occ[m].kind != occ[n].kind;
        }
      }
  }

  lemma {:induction false} CollectFromSpec(done: seq<Binding>, rest: seq<Binding>)
    requires Consistent(done)
    ensures var r := CollectFrom(FirstOccurrences(done), rest);
      (r.Success? <==> Consistent(done + rest))
      && (r.Success? ==> r.value == FirstOccurrences(done + rest))
      && (r.Failure? ==> IsConflict(done + rest, r.error))
    decreases |rest|
  {
    if rest == [] {
      assert done + rest == done;
    } else {
      var x := rest[0];
      assert done + rest == (done + [x]) + rest[1..];
      RegisterSpec(done, x);
      var occ := done + rest;
      assert forall i :: 0 <= i < |done + [x]| ==> (done + [x])[i] == occ[i];
      match Register(FirstOccurrences(done), x)
      case Failure(e) =>
        assert CollectFrom(FirstOccurrences(done), rest) == Failure(e);
        var i, j :| 0 <= i < j < |done + [x]| && (done + [x])[i] == Binding(e.id, e.existing)
          && (done + [x])[j] == Binding(e.id, e.found);
        assert occ[i] == Binding(e.id, e.existing) && occ[j] == Binding(e.id, e.found);
        assert IsConflict(occ, e);
        assert !Consistent(occ);
      case Success(next) =>
        assert CollectFrom(FirstOccurrences(done), rest) == CollectFrom(next, rest[1..]);
        assert next == FirstOccurrences(done + [x]) && Consistent(done + [x]);
        CollectFromSpec(done + [x], rest[1..]);
    }
  }

  /**
    The bindings of a template: they exist exactly when every parameter is
    used with one kind throughout, and are then the first occurrences; a
    failure names a parameter met with two different kinds, first and later.
   */
  lemma CollectSpec(occ: seq<Binding>)
    ensures Collect(occ).Success? <==> Consistent(occ)
    ensures Collect(occ).Success? ==> Collect(occ).value == FirstOccurrences(occ)
    ensures Collect(occ).Failure? ==> IsConflict(occ, Collect(occ).error)
  {
    var none: seq<Binding> := [];
    assert none + occ == occ;
    assert FirstOccurrences(none) == none && Consistent(none);
    CollectFromSpec(none, occ);
  }

  /** Parameters that each occur once are bound in the order they occur. */
  lemma CollectDistinct(occ: seq<Binding>)
    requires DistinctIds(occ)
    ensures Collect(occ) == Success(occ)
  {
    CollectSpec(occ);
    FirstOccurrencesOfDistinct(occ);
  }

  /**
    Collected bindings name distinct parameters, and every occurrence is one
    of them exactly, kind included.
   */
  lemma CollectDeclaresEveryOccurrence(occ: seq<Binding>)
    requires Collect(occ).Success?
    ensures DistinctIds(Collect(occ).value)
    ensures forall b <- occ :: b in Collect(occ).value
    ensures forall b <- Collect(occ).value :: b in occ
  {
    CollectSpec(occ);
    FirstOccurrencesDistinct(occ);
    FirstOccurrencesAreOccurrences(occ);
    var fo := FirstOccurrences(occ);
    forall b | b in occ
      ensures b in fo
    {
      var i :| 0 <= i < |occ| && occ[i] == b;
      FirstOccurrencesCover(occ, i);
      var c :| c in fo && c.id == b.id;
      var m :| 0 <= m < |occ| && occ[m] == c;
      assert c.kind == b.kind by {
        if m < i {
          assert occ[m].kind == occ[i].kind;
        } else if i < m {
          assert occ[i].kind == occ[m].kind;
        }
      }
    }
  }
}
