/**
  The synthetic namer. Expression markers (`:#{expr}`, `?#{expr}`) are
  replaced by plain markers the query layer understands: a named expression
  becomes `:__$synthetic$__N`, a positional one `?K`, where K continues after
  the greatest explicit position. Numbers are handed out per sigil in order of
  first appearance, and a repeated expression text reuses the marker first
  minted for it.
 */
module Namer {

  import opened Wrappers
  import opened Lexical
  import opened Bindings
  import opened Scanner
  import opened Extractor

  const SyntheticPrefix: string := "__$synthetic$__"

  function SyntheticName(n: nat): string {
    SyntheticPrefix + NatToString(n)
  }

  /** An expression seen so far: its sigil, its text, and its number among the expressions of that sigil. */
  datatype Entry = Entry(sigil: Sigil, body: string, number: nat)

  /** The plain marker that stands for an expression, `base` being the greatest explicit position. */
  function Replacement(e: Entry, base: nat): MarkerForm {
    match e.sigil
    case Colon => NamedRef(SyntheticName(e.number))
    case Question => PositionalRef(NatToString(base + e.number))
  }

  /** The number of entries of the given sigil. */
  function CountOf(table: seq<Entry>, sigil: Sigil): nat {
    if table == [] then 0
    else CountOf(table[..|table| - 1], sigil) + (if table[|table| - 1].sigil == sigil then 1 else 0)
  }

  /** The index of the entry for an expression text, if it has been seen. */
  function Find(table: seq<Entry>, sigil: Sigil, body: string): (k: Option<nat>)
    ensures k.Some? ==> k.value < |table| && table[k.value].sigil == sigil && table[k.value].body == body
    ensures k.Some? ==> forall i :: 0 <= i < k.value ==> !(table[i].sigil == sigil && table[i].body == body)
    ensures k.None? ==> forall i :: 0 <= i < |table| ==> !(table[i].sigil == sigil && table[i].body == body)
  {
    if table == [] then None
    else if table[0].sigil == sigil && table[0].body == body then Some(0)
    else
      match Find(table[1..], sigil, body)
      case None => None
      case Some(k) => Some(k + 1)
  }

  /**
    No expression text is entered twice, and the entry at index i is numbered
    one more than the entries of its sigil before it.
   */
  ghost predicate ValidTable(table: seq<Entry>) {
    (forall i, j :: 0 <= i < j < |table| ==> !(table[i].sigil == table[j].sigil && table[i].body == table[j].body))
    && (forall i :: 0 <= i < |table| ==> table[i].number == CountOf(table[..i], table[i].sigil) + 1)
  }

  /** The replacement for one token, and the table after it. */
  function ResolveToken(t: Token, base: nat, table: seq<Entry>): (Token, seq<Entry>) {
    match t
    case Marker(leading, Expression(sigil, body), trailing, context) =>
      (match Find(table, sigil, body)
       case Some(k) => (Marker(leading, Replacement(table[k], base), trailing, context), table)
       case None =>
         var e := Entry(sigil, body, CountOf(table, sigil) + 1);
         (Marker(leading, Replacement(e, base), trailing, context), table + [e]))
    case _ => (t, table)
  }

  function ResolveFrom(ts: seq<Token>, base: nat, table: seq<Entry>): (seq<Token>, seq<Entry>)
    decreases |ts|
  {
    if ts == [] then ([], table)
    else
      var (t, next) := ResolveToken(ts[0], base, table);
      var (rest, final) := ResolveFrom(ts[1..], base, next);
      ([t] + rest, final)
  }

  /**
    The tokens with every expression marker replaced by a synthetic plain
    marker that keeps its wildcards and context; all other tokens unchanged.
   */
  function Resolve(ts: seq<Token>, base: nat): (r: seq<Token>)
    ensures |r| == |ts| && NoExpressions(r)
    ensures forall i :: 0 <= i < |ts| && !IsExpressionMarker(ts[i]) ==> r[i] == ts[i]
    ensures forall i :: 0 <= i < |ts| && IsExpressionMarker(ts[i]) ==>
      r[i].Marker? && r[i].leading == ts[i].leading && r[i].trailing == ts[i].trailing && r[i].context == ts[i].context
    ensures forall i :: 0 <= i < |ts| && IsExpressionMarker(ts[i]) ==>
      r[i].form == Replacement(Entry(ts[i].form.sigil, ts[i].form.body, ExpressionNumber(ts, i)), base)
  {
    ResolveFromSpec(ts, base, []);
    forall i | 0 <= i < |ts| && IsExpressionMarker(ts[i])
      ensures ResolveFrom(ts, base, []).0[i].Marker? && ResolveFrom(ts, base, []).0[i].form ==
        Replacement(Entry(ts[i].form.sigil, ts[i].form.body, ExpressionNumber(ts, i)), base)
    {
      ResolveNumbering(ts, base, i);
    }
    ResolveFrom(ts, base, []).0
  }

  /* ---------------------------------------------------------------- properties */

  /** A template without expression markers is left as it is. */
  lemma ResolveWithoutExpressions(ts: seq<Token>, base: nat)
    requires NoExpressions(ts)
    ensures Resolve(ts, base) == ts
  {
    var r := Resolve(ts, base);
    assert forall i :: 0 <= i < |ts| ==> r[i] == ts[i];
  }

  /** Resolution runs left to right: the second part is resolved against the table the first part leaves. */
  lemma {:induction false} ResolveFromAppend(a: seq<Token>, b: seq<Token>, base: nat, table: seq<Entry>)
    ensures ResolveFrom(a + b, base, table) ==
      (ResolveFrom(a, base, table).0 + ResolveFrom(b, base, ResolveFrom(a, base, table).1).0,
       ResolveFrom(b, base, ResolveFrom(a, base, table).1).1)
    decreases |a|
  {
    if a == [] {
      assert a + b == b;
      assert [] + ResolveFrom(b, base, table).0 == ResolveFrom(b, base, table).0;
    } else {
      assert (a + b)[0] == a[0] && (a + b)[1..] == a[1..] + b;
      var (t, next) := ResolveToken(a[0], base, table);
      ResolveFromAppend(a[1..], b, base, next);
      assert [t] + (ResolveFrom(a[1..], base, next).0 + ResolveFrom(b, base, ResolveFrom(a[1..], base, next).1).0)
        == ([t] + ResolveFrom(a[1..], base, next).0) + ResolveFrom(b, base, ResolveFrom(a[1..], base, next).1).0;
    }
  }

  /** An entry found in a table is found at the same index in any extension of it. */
  lemma FindInExtension(table: seq<Entry>, big: seq<Entry>, sigil: Sigil, body: string)
    requires |table| <= |big| && big[..|table|] == table
    requires Find(table, sigil, body).Some?
    ensures Find(big, sigil, body) == Find(table, sigil, body)
  {
    var k := Find(table, sigil, body).value;
    assert big[k] == table[k];
  }

  lemma {:induction false} CountOfPrefixes(table: seq<Entry>, i: nat, j: nat, sigil: Sigil)
    requires i < j <= |table| && table[i].sigil == sigil
    ensures CountOf(table[..j], sigil) > CountOf(table[..i], sigil)
    decreases j
  {
    assert table[..j][..j - 1] == table[..j - 1];
    if j - 1 > i {
      CountOfPrefixes(table, i, j - 1, sigil);
    } else {
      assert table[..j][j - 1] == table[i];
    }
  }

  /** Distinct entries of a valid table stand for distinct plain markers. */
  lemma ReplacementInjective(table: seq<Entry>, base: nat, i: nat, j: nat)
    requires ValidTable(table) && i < |table| && j < |table|
    requires Replacement(table[i], base) == Replacement(table[j], base)
    ensures i == j
  {
    var a, b := table[i], table[j];
    if a.sigil == Colon {
      assert b.sigil == Colon;
      assert SyntheticName(a.number)[|SyntheticPrefix|..] == NatToString(a.number);
      assert SyntheticName(b.number)[|SyntheticPrefix|..] == NatToString(b.number);
      NatToStringInjective(a.number, b.number);
    } else {
      assert b.sigil == Question;
      NatToStringInjective(base + a.number, base + b.number);
    }
    if i < j {
      CountOfPrefixes(table, i, j, a.sigil);
    } else if j < i {
      CountOfPrefixes(table, j, i, a.sigil);
    }
  }

  lemma ResolveTokenSpec(t: Token, base: nat, table: seq<Entry>)
    requires ValidTable(table)
    ensures var (t', next) := ResolveToken(t, base, table);
      ValidTable(next) && |table| <= |next| && next[..|table|] == table
      && (!IsExpressionMarker(t) ==> t' == t && next == table)
      && (IsExpressionMarker(t) ==>
            Find(next, t.form.sigil, t.form.body).Some?
            && t' == Marker(t.leading, Replacement(next[Find(next, t.form.sigil, t.form.body).value], base), t.trailing, t.context))
  {
    if IsExpressionMarker(t) && Find(table, t.form.sigil, t.form.body).None? {
      EnterNew(table, Entry(t.form.sigil, t.form.body, CountOf(table, t.form.sigil) + 1));
    }
  }

  /** Entering an unseen text, numbered after the entries of its sigil, keeps the table valid. */
  lemma EnterNew(table: seq<Entry>, e: Entry)
    requires ValidTable(table) && Find(table, e.sigil, e.body).None?
    requires e.number == CountOf(table, e.sigil) + 1
    ensures var next := table + [e];
      ValidTable(next) && next[..|table|] == table && Find(next, e.sigil, e.body) == Some(|table|)
  {
    var next := table + [e];
    assert next[..|table|] == table;
    assert next[|table|] == e;
    assert Find(next, e.sigil, e.body) == Some(|table|);
    EnteredNumbers(table, e);
  }

  lemma EnteredNumbers(table: seq<Entry>, e: Entry)
    requires ValidTable(table) && e.number == CountOf(table, e.sigil) + 1
    ensures var next := table + [e];
      forall i :: 0 <= i < |next| ==> next[i].number == CountOf(next[..i], next[i].sigil) + 1
  {
    var next := table + [e];
    forall i | 0 <= i < |next|
      ensures next[i].number == CountOf(next[..i], next[i].sigil) + 1
    {
      if i < |table| {
        assert next[..i] == table[..i];
      } else {
        assert next[..i] == table;
      }
    }
  }

  /**
    `out` is what `t` resolves to against the table `final`: itself unless it
    is an expression marker, else the replacement of its text's entry.
   */
  ghost predicate ResolvedAs(t: Token, out: Token, final: seq<Entry>, base: nat) {
    (!IsExpressionMarker(t) ==> out == t)
    && (IsExpressionMarker(t) ==>
          Find(final, t.form.sigil, t.form.body).Some?
          && out == Marker(t.leading, Replacement(final[Find(final, t.form.sigil, t.form.body).value], base), t.trailing, t.context))
  }

  lemma ResolvedAsInExtension(t: Token, out: Token, table: seq<Entry>, final: seq<Entry>, base: nat)
    requires |table| <= |final| && final[..|table|] == table
    requires ResolvedAs(t, out, table, base)
    ensures ResolvedAs(t, out, final, base)
  {
    if IsExpressionMarker(t) {
      FindInExtension(table, final, t.form.sigil, t.form.body);
    }
  }

  /**
    Resolving from a valid table: other tokens are kept, and each expression
    marker becomes the replacement of the entry its text has in the final table.
   */
  lemma {:induction false} ResolveFromSpec(ts: seq<Token>, base: nat, table: seq<Entry>)
    requires ValidTable(table)
    ensures var (out, final) := ResolveFrom(ts, base, table);
      ValidTable(final) && |table| <= |final| && final[..|table|] == table && |out| == |ts|
      && forall i :: 0 <= i < |ts| ==> ResolvedAs(ts[i], out[i], final, base)
    decreases |ts|
  {
    if ts != [] {
      var (t, next) := ResolveToken(ts[0], base, table);
      ResolveTokenSpec(ts[0], base, table);
      ResolveFromSpec(ts[1..], base, next);
      var (rest, final) := ResolveFrom(ts[1..], base, next);
      var out := [t] + rest;
      assert ResolveFrom(ts, base, table) == (out, final);
      assert final[..|next|][..|table|] == final[..|table|];
      assert ResolvedAs(ts[0], t, next, base);
      ResolvedAsInExtension(ts[0], t, next, final, base);
      forall i | 0 < i < |ts|
        ensures ResolvedAs(ts[i], out[i], final, base)
      {
        assert out[i] == rest[i - 1] && ts[i] == ts[1..][i - 1];
      }
    }
  }

  /**
    Two expression markers get the same synthetic marker exactly when they have
    the same sigil and the same expression text.
   */
  lemma SameExpressionSameMarker(ts: seq<Token>, base: nat, i: nat, j: nat)
    requires i < |ts| && j < |ts| && IsExpressionMarker(ts[i]) && IsExpressionMarker(ts[j])
    ensures Resolve(ts, base)[i].form == Resolve(ts, base)[j].form <==> ts[i].form == ts[j].form
  {
    ResolveFromSpec(ts, base, []);
    var final := ResolveFrom(ts, base, []).1;
    var ki := Find(final, ts[i].form.sigil, ts[i].form.body).value;
    var kj := Find(final, ts[j].form.sigil, ts[j].form.body).value;
    if Replacement(final[ki], base) == Replacement(final[kj], base) {
      ReplacementInjective(final, base, ki, kj);
    }
  }

  lemma ReplacementIsFresh(e: Entry, base: nat, f: MarkerForm)
    requires e.number >= 1 && !f.Expression? && WellFormedForm(f)
    requires f.PositionalRef? ==> DigitsValue(f.digits) <= base
    ensures IdOf(Replacement(e, base)) != IdOf(f)
  {
    match e.sigil
    case Colon =>
      var name := SyntheticName(e.number);
      assert name[2] == '$' && !IsWordChar(name[2]);
    case Question =>
      NatToStringRoundTrip(base + e.number);
  }

  /**
    A synthetic marker never names a parameter an explicit marker names: a
    synthetic name contains `$`, which no written name can, and a synthetic
    position lies above every explicit one.
   */
  lemma SyntheticIdentifiersAreFresh(ts: seq<Token>, i: nat, j: nat)
    requires i < |ts| && j < |ts| && IsExpressionMarker(ts[i])
    requires ts[j].Marker? && !ts[j].form.Expression? && WellFormedForm(ts[j].form)
    ensures IdOf(Resolve(ts, MaxPosition(ts))[i].form) != IdOf(ts[j].form)
  {
    var base := MaxPosition(ts);
    ResolveFromSpec(ts, base, []);
    var final := ResolveFrom(ts, base, []).1;
    var e := final[Find(final, ts[i].form.sigil, ts[i].form.body).value];
    assert Resolve(ts, base)[i].form == Replacement(e, base);
    ReplacementIsFresh(e, base, ts[j].form);
  }

  /* ---------------------------------------------------------------- numbering in order of appearance */

  /** The expression texts of the given sigil that occur in `ts`. */
  ghost function SeenTexts(ts: seq<Token>, sigil: Sigil): set<string> {
    set j | 0 <= j < |ts| && IsExpressionMarker(ts[j]) && ts[j].form.sigil == sigil :: ts[j].form.body
  }

  /** The first index from `j` on whose marker has the form of `ts[i]`, none before `j` having it. */
  ghost function FirstFrom(ts: seq<Token>, i: nat, j: nat): (f: nat)
    requires j <= i < |ts| && ts[i].Marker?
    requires forall k :: 0 <= k < j ==> !(ts[k].Marker? && ts[k].form == ts[i].form)
    ensures j <= f <= i && ts[f].Marker? && ts[f].form == ts[i].form
    ensures forall k :: 0 <= k < f ==> !(ts[k].Marker? && ts[k].form == ts[i].form)
    decreases i - j
  {
    if ts[j].Marker? && ts[j].form == ts[i].form then j else FirstFrom(ts, i, j + 1)
  }

  /** Where the text of the expression marker `ts[i]` first appears. */
  ghost function FirstIndex(ts: seq<Token>, i: nat): nat
    requires i < |ts| && IsExpressionMarker(ts[i])
  {
    FirstFrom(ts, i, 0)
  }

  /**
    The number the expression marker `ts[i]` is given: one more than the count
    of distinct texts of its sigil that appear before its own text first does.
   */
  ghost function ExpressionNumber(ts: seq<Token>, i: nat): nat
    requires i < |ts| && IsExpressionMarker(ts[i])
  {
    |SeenTexts(ts[..FirstIndex(ts, i)], ts[i].form.sigil)| + 1
  }

  /** The table mirrors the tokens read: it holds exactly their expression texts, counted per sigil. */
  ghost predicate Mirrors(table: seq<Entry>, seen: seq<Token>) {
    (forall sigil, body :: Find(table, sigil, body).Some? <==> body in SeenTexts(seen, sigil))
    && (forall sigil :: CountOf(table, sigil) == |SeenTexts(seen, sigil)|)
  }

  lemma SeenTextsSnoc(seen: seq<Token>, t: Token, sigil: Sigil)
    ensures SeenTexts(seen + [t], sigil) ==
      SeenTexts(seen, sigil) + (if IsExpressionMarker(t) && t.form.sigil == sigil then {t.form.body} else {})
  {
    var all := seen + [t];
    assert forall j :: 0 <= j < |seen| ==> all[j] == seen[j];
    assert all[|seen|] == t;
  }

  lemma FindSnoc(table: seq<Entry>, e: Entry, sigil: Sigil, body: string)
    ensures Find(table + [e], sigil, body).Some? <==>
      Find(table, sigil, body).Some? || (e.sigil == sigil && e.body == body)
  {
    var big := table + [e];
    assert forall j :: 0 <= j < |table| ==> big[j] == table[j];
    assert big[|table|] == e;
  }

  lemma CountOfSnoc(table: seq<Entry>, e: Entry, sigil: Sigil)
    ensures CountOf(table + [e], sigil) == CountOf(table, sigil) + (if e.sigil == sigil then 1 else 0)
  {
    assert (table + [e])[..|table|] == table;
  }

  /** A token that brings no new expression text leaves the table a mirror. */
  lemma MirrorsKeep(table: seq<Entry>, seen: seq<Token>, t: Token)
    requires Mirrors(table, seen)
    requires IsExpressionMarker(t) ==> t.form.body in SeenTexts(seen, t.form.sigil)
    ensures Mirrors(table, seen + [t])
  {
    forall sigil
      ensures SeenTexts(seen + [t], sigil) == SeenTexts(seen, sigil)
    {
      SeenTextsSnoc(seen, t, sigil);
    }
  }

  /** A new expression text, entered at the end of the table, keeps it a mirror. */
  lemma MirrorsGrow(table: seq<Entry>, seen: seq<Token>, t: Token, e: Entry)
    requires Mirrors(table, seen) && IsExpressionMarker(t)
    requires e.sigil == t.form.sigil && e.body == t.form.body && e.body !in SeenTexts(seen, e.sigil)
    ensures Mirrors(table + [e], seen + [t])
  {
    forall sigil, body
      ensures Find(table + [e], sigil, body).Some? <==> body in SeenTexts(seen + [t], sigil)
    {
      FindSnoc(table, e, sigil, body);
      SeenTextsSnoc(seen, t, sigil);
    }
    forall sigil
      ensures CountOf(table + [e], sigil) == |SeenTexts(seen + [t], sigil)|
    {
      CountOfSnoc(table, e, sigil);
      SeenTextsSnoc(seen, t, sigil);
    }
  }

  /** Resolving one more token keeps the table a mirror of the tokens read. */
  lemma MirrorsStep(table: seq<Entry>, seen: seq<Token>, t: Token, base: nat)
    requires Mirrors(table, seen)
    ensures Mirrors(ResolveToken(t, base, table).1, seen + [t])
  {
    if IsExpressionMarker(t) && Find(table, t.form.sigil, t.form.body).None? {
      var e := Entry(t.form.sigil, t.form.body, CountOf(table, t.form.sigil) + 1);
      MirrorsGrow(table, seen, t, e);
    } else {
      MirrorsKeep(table, seen, t);
    }
  }

  /** The table after a prefix of the template mirrors that prefix. */
  lemma {:induction false} MirrorsPrefix(ts: seq<Token>, base: nat, k: nat)
    requires k <= |ts|
    ensures Mirrors(ResolveFrom(ts[..k], base, []).1, ts[..k])
    decreases k
  {
    if k == 0 {
      assert ts[..0] == [];
      forall sigil ensures SeenTexts([], sigil) == {} { }
    } else {
      var table := ResolveFrom(ts[..k - 1], base, []).1;
      MirrorsPrefix(ts, base, k - 1);
      MirrorsStep(table, ts[..k - 1], ts[k - 1], base);
      ResolveFromPrefixStep(ts, base, k - 1);
      assert ts[..k - 1] + [ts[k - 1]] == ts[..k];
    }
  }

  /** The table after `k + 1` tokens is the table after `k` tokens, updated by token `k`. */
  lemma ResolveFromPrefixStep(ts: seq<Token>, base: nat, k: nat)
    requires k < |ts|
    ensures ResolveFrom(ts[..k + 1], base, []).1 ==
      ResolveToken(ts[k], base, ResolveFrom(ts[..k], base, []).1).1
  {
    var table := ResolveFrom(ts[..k], base, []).1;
    ResolveFromAppend(ts[..k], [ts[k]], base, []);
    assert ts[..k] + [ts[k]] == ts[..k + 1];
    assert [ts[k]][1..] == [];
  }

  /** The table after a prefix of the template is a prefix of the final table. */
  lemma FinalTableExtends(ts: seq<Token>, base: nat, k: nat)
    requires k <= |ts|
    ensures var table := ResolveFrom(ts[..k], base, []).1;
      var final := ResolveFrom(ts, base, []).1;
      |table| <= |final| && final[..|table|] == table
  {
    var table := ResolveFrom(ts[..k], base, []).1;
    ResolveFromSpec(ts[..k], base, []);
    ResolveFromAppend(ts[..k], ts[k..], base, []);
    assert ts[..k] + ts[k..] == ts;
    ResolveFromSpec(ts[k..], base, table);
  }

  /**
    Every expression marker becomes the synthetic marker numbered by the
    order in which distinct texts of its sigil first appear.
   */
  lemma ResolveNumbering(ts: seq<Token>, base: nat, i: nat)
    requires i < |ts| && IsExpressionMarker(ts[i])
    ensures var out := ResolveFrom(ts, base, []).0;
      |out| == |ts| && out[i].Marker?
      && out[i].form == Replacement(Entry(ts[i].form.sigil, ts[i].form.body, ExpressionNumber(ts, i)), base)
  {
    var f := FirstIndex(ts, i);
    var sigil, body := ts[i].form.sigil, ts[i].form.body;
    var table := ResolveFrom(ts[..f], base, []).1;
    MirrorsPrefix(ts, base, f);
    forall j | 0 <= j < f && IsExpressionMarker(ts[..f][j]) && ts[..f][j].form.sigil == sigil
      ensures ts[..f][j].form.body != body
    {
      assert ts[..f][j] == ts[j];
    }
    assert body !in SeenTexts(ts[..f], sigil);
    var e := Entry(sigil, body, CountOf(table, sigil) + 1);
    ResolveFromPrefixStep(ts, base, f);
    var next := ResolveFrom(ts[..f + 1], base, []).1;
    assert next == table + [e];
    assert Find(next, sigil, body) == Some(|table|) by {
      assert next[|table|] == e;
    }
    FinalTableExtends(ts, base, f + 1);
    var final := ResolveFrom(ts, base, []).1;
    FindInExtension(next, final, sigil, body);
    ResolveFromSpec(ts, base, []);
    assert final[|table|] == e;
    assert ResolvedAs(ts[i], ResolveFrom(ts, base, []).0[i], final, base);
  }
}
