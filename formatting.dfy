/**
 * MeasureFormat: renders a measure as text. The options merge user entries
 * over two default tables; the unit is normalised (`unitReducer`), sorted
 * (`unitSorterFactory`) and folded into a string term by term
 * (`toStringReducer`), recursing into nested measures. `Intl.NumberFormat`
 * and the collator's `Intl.Collator`s are foreign and come in as parameters.
 */
module Formatting {
  import opened Values
  import opened UnitAlgebra
  import opened Collation
  import opened UnitObjects

  /** A plain JavaScript object of string entries. */
  type Table = map<string, string>

  /** `MeasureFormat.exponentDefaults`: superscript glyphs; `'0'` and `'+'` have none. */
  const ExponentDefaults: Table := map[
    "1" := "¹", "2" := "²", "3" := "³", "4" := "⁴", "5" := "⁵",
    "6" := "⁶", "7" := "⁷", "8" := "⁸", "9" := "⁹",
    "-" := "⁻", "^" := ""]

  /** `MeasureFormat.operatorDefaults`. */
  const OperatorDefaults: Table := map[
    "compoundSeparator" := "-", "divisionOperator" := "/", "groupLeft" := "(",
    "groupRight" := ")", "productOperator" := "⋅", "valueUnitDelimiter" := " "]

  /**
   * The options a formatter works with: the two merged tables, the number
   * formatter built from `locales` and `numberFormatOptions`, and the
   * collators of its MeasureUnitCollator.
   */
  datatype Options = Options(exponent: Table, operator: Table, number: Num -> string, order: Collators)

  /** Every entry the formatter reads is present, as the merge guarantees. */
  predicate Valid(o: Options) {
    OperatorDefaults.Keys <= o.operator.Keys && "^" in o.exponent
  }

  /** `Object.assign({}, defaults, user)`: user entries override, key by key. */
  function Assign(defaults: Table, user: Table): (r: Table)
    ensures r.Keys == defaults.Keys + user.Keys
    ensures forall k :: k in user ==> r[k] == user[k]
    ensures forall k :: k in defaults && k !in user ==> r[k] == defaults[k]
  {
    defaults + user
  }

  /**
   * `new MeasureFormat(options)`: the user's `exponent` and `operator`
   * entries (empty when absent) over the defaults.
   */
  function NewOptions(exponent: Table, operator: Table, number: Num -> string, order: Collators): (o: Options)
    ensures Valid(o)
    ensures o.exponent.Keys == ExponentDefaults.Keys + exponent.Keys
    ensures o.operator.Keys == OperatorDefaults.Keys + operator.Keys
    ensures forall k :: k in OperatorDefaults && k !in operator ==> o.operator[k] == OperatorDefaults[k]
    ensures forall k :: k in ExponentDefaults && k !in exponent ==> o.exponent[k] == ExponentDefaults[k]
    ensures forall k :: k in operator ==> o.operator[k] == operator[k]
    ensures forall k :: k in exponent ==> o.exponent[k] == exponent[k]
  {
    Options(Assign(ExponentDefaults, exponent), Assign(OperatorDefaults, operator), number, order)
  }

  /** `table[key]` where an absent entry reads as `undefined`, which `join('')` renders as `''`. */
  function Get(table: Table, key: string): string {
    if key in table then table[key] else ""
  }

  // Decimal notation of integers, as `Number.prototype.toString` writes them.

  function DigitChar(d: nat): (c: char)
    requires d < 10
    ensures '0' <= c <= '9' && c as int - '0' as int == d
  {
    "0123456789"[d]
  }

  function NatString(n: nat): (s: string)
    ensures s != [] && forall k :: 0 <= k < |s| ==> '0' <= s[k] <= '9'
  {
    if n < 10 then [DigitChar(n)] else NatString(n / 10) + [DigitChar(n % 10)]
  }

  function IntString(e: int): string {
    if e < 0 then "-" + NatString(-e) else NatString(e)
  }

  /** Reads back a string of decimal digits. */
  function ParseNat(s: string): nat
    requires forall k :: 0 <= k < |s| ==> '0' <= s[k] <= '9'
  {
    if s == [] then 0 else ParseNat(s[..|s| - 1]) * 10 + (s[|s| - 1] as int - '0' as int)
  }

  /** The decimal notation names the number it was written for. */
  lemma {:induction false} NatStringRoundTrip(n: nat)
    ensures ParseNat(NatString(n)) == n
  {
    if n >= 10 {
      NatStringRoundTrip(n / 10);
      var s := NatString(n);
      assert s[..|s| - 1] == NatString(n / 10);
    }
  }

  /** `s.split('').map(c => table[c]).join('')` */
  function Glyphs(table: Table, s: string): (g: string)
    ensures s == [] ==> g == ""
  {
    if s == [] then "" else Glyphs(table, s[..|s| - 1]) + Get(table, [s[|s| - 1]])
  }

  lemma {:induction false} GlyphsAppend(table: Table, a: string, b: string)
    ensures Glyphs(table, a + b) == Glyphs(table, a) + Glyphs(table, b)
    decreases |b|
  {
    if b != [] {
      var b' := b[..|b| - 1];
      assert (a + b)[..|a + b| - 1] == a + b';
      assert (a + b)[|a + b| - 1] == b[|b| - 1];
      GlyphsAppend(table, a, b');
      assert Glyphs(table, b) == Glyphs(table, b') + Get(table, [b[|b| - 1]]);
      assert Glyphs(table, a + b) == Glyphs(table, a + b') + Get(table, [b[|b| - 1]]);
    } else {
      assert a + b == a;
    }
  }

  /** A digit the table does not map contributes nothing to the glyphs. */
  lemma UnmappedDigitVanishes(table: Table, a: string, c: char, b: string)
    requires [c] !in table
    ensures Glyphs(table, a + [c] + b) == Glyphs(table, a) + Glyphs(table, b)
  {
    var ac := a + [c];
    GlyphsAppend(table, ac, b);
    assert ac[..|ac| - 1] == a;
    assert Glyphs(table, ac) == Glyphs(table, a) + Get(table, [c]);
  }

  /** With the default table, which maps no `'0'`, exponent 10 shows as a superscript one alone. */
  lemma TenShowsAsOne()
    ensures Glyphs(ExponentDefaults, NatString(10)) == ExponentDefaults["1"]
  {
    assert NatString(10) == "1" + ['0'] + "";
    UnmappedDigitVanishes(ExponentDefaults, "1", '0', "");
    assert Glyphs(ExponentDefaults, "1") == ExponentDefaults["1"] by {
      assert "1"[..0] == [];
    }
  }

  /** A negative exponent's glyphs are the minus glyph followed by those of its magnitude. */
  lemma SignedGlyphs(table: Table, e: int)
    requires e < 0
    ensures Glyphs(table, IntString(e)) == Get(table, "-") + Glyphs(table, NatString(-e))
  {
    GlyphsAppend(table, "-", NatString(-e));
    assert Glyphs(table, "-") == Get(table, "-") by {
      assert "-"[..0] == [];
    }
  }

  /** `name` and a nonempty `power`, joined with `exponent['^']`. */
  function WithPower(o: Options, name: string, power: string): string
    requires Valid(o)
  {
    if power != "" then name + o.exponent["^"] + power else name
  }

  /**
   * `formatUnitOfMeasure(t)`: every character of the signed exponent is
   * looked up, so a negative exponent carries the minus glyph; exponent 1
   * gives the bare name.
   */
  function FormatUnitOfMeasure(o: Options, t: Term): (s: string)
    requires Valid(o)
  {
    WithPower(o, t.name, if t.exp == 1 then "" else Glyphs(o.exponent, IntString(t.exp)))
  }

  function Abs(e: int): nat {
    if e < 0 then -e else e
  }

  /** The operator `toStringReducer` appends before a term with exponent `e`. */
  function OperatorFor(o: Options, e: int): string
    requires Valid(o)
  {
    if e < 0 then o.operator["divisionOperator"] else o.operator["productOperator"]
  }

  /** The group a nested measure renders as: `(value-unit)` with the default operators. */
  function Group(o: Options, m: Measure): string
    requires Valid(o)
    decreases UnitDepth(m.unit), 3
  {
    o.operator["groupLeft"] + o.number(m.value) + o.operator["compoundSeparator"] +
    FormatMeasureUnit(o, m.unit) + o.operator["groupRight"]
  }

  /**
   * `toStringReducer(result, each)`. The exponent is `each.exp || 1`. A
   * nested measure replaces the accumulator by its group. A nonempty
   * accumulator then gets the division or product operator, and the name
   * follows with the glyphs of the exponent's magnitude (none for 1).
   */
  function ToStringReducer(o: Options, result: string, each: Term): string
    requires Valid(o)
    decreases TermDepth(each), 0
  {
    var exponent := if each.exp == 0 then 1 else each.exp;
    var grouped := if each.measure.Some? then Group(o, each.measure.value) else result;
    var operated := if grouped != "" then grouped + OperatorFor(o, exponent) else grouped;
    var power := if Abs(exponent) == 1 then "" else Glyphs(o.exponent, NatString(Abs(exponent)));
    operated + WithPower(o, each.name, power)
  }

  /** `ts.reduce(toStringReducer, '')` */
  function FoldTerms(o: Options, ts: seq<Term>): string
    requires Valid(o)
    decreases ListDepth(ts), 1, |ts|
  {
    if ts == [] then ""
    else
      ListDepthPrefix(ts);
      ListDepthBound(ts, |ts| - 1);
      ToStringReducer(o, FoldTerms(o, ts[..|ts| - 1]), ts[|ts| - 1])
  }

  /** The list `formatMeasureUnit` folds: the unit reduced, then sorted. */
  function NormalForm(c: Collators, u: Unit): (ts: seq<Term>)
    ensures ListDepth(ts) <= UnitDepth(u)
  {
    NormalFormDepth(c, u);
    SortTerms(c, Reduce(AsList(u)))
  }

  /** `formatMeasureUnit(u)` */
  function FormatMeasureUnit(o: Options, u: Unit): string
    requires Valid(o)
    decreases UnitDepth(u), 2
  {
    FoldTerms(o, NormalForm(o.order, u))
  }

  /** `formatMeasure(m)`: the formatted value and the formatted unit, joined by `valueUnitDelimiter`. */
  function FormatMeasure(o: Options, m: Measure): string
    requires Valid(o)
  {
    o.number(m.value) + o.operator["valueUnitDelimiter"] + FormatMeasureUnit(o, m.unit)
  }

  lemma ListDepthPrefix(ts: seq<Term>)
    requires ts != []
    ensures ListDepth(ts[..|ts| - 1]) <= ListDepth(ts)
  {
    var p := ts[..|ts| - 1];
    forall t | t in p
      ensures TermDepth(t) <= ListDepth(ts)
    {
      var k :| 0 <= k < |p| && p[k] == t;
      ListDepthBound(ts, k);
    }
    ListDepthAtMost(p, ListDepth(ts));
  }

  lemma NormalFormDepth(c: Collators, u: Unit)
    ensures ListDepth(SortTerms(c, Reduce(AsList(u)))) <= UnitDepth(u)
  {
    var S := SortTerms(c, Reduce(AsList(u)));
    forall t | t in S
      ensures TermDepth(t) <= UnitDepth(u)
    {
      assert t in multiset(S);
      ReducedDepth(u, t);
    }
    ListDepthAtMost(S, UnitDepth(u));
  }

  lemma ReducedDepth(u: Unit, t: Term)
    requires t in Reduce(AsList(u))
    ensures TermDepth(t) <= UnitDepth(u)
  {
    ReduceKeepsMeasures(AsList(u));
    var y :| y in AsList(u) && y.measure == t.measure;
    TermDepthBound(u, y);
  }

  /** `each.exp || 1`: an exponent 0 renders exactly like exponent 1. */
  lemma ZeroExponentRendersAsOne(o: Options, result: string, name: string, measure: Option<Measure>)
    requires Valid(o)
    ensures ToStringReducer(o, result, Term(name, 0, measure)) == ToStringReducer(o, result, Term(name, 1, measure))
  {
  }

  /** The first term gets no operator, so the sign of its exponent is lost. */
  lemma LeadingSignLost(o: Options, name: string, e: int)
    requires Valid(o)
    ensures ToStringReducer(o, "", Term(name, e, None)) == ToStringReducer(o, "", Term(name, -e, None))
  {
  }

  /** A term with a nested measure discards whatever was rendered before it. */
  lemma NestedDiscardsPrefix(o: Options, r1: string, r2: string, each: Term)
    requires Valid(o) && each.measure.Some?
    ensures ToStringReducer(o, r1, each) == ToStringReducer(o, r2, each)
  {
  }

  /**
   * After a nonempty accumulator a plain term adds the division operator
   * when its exponent is negative and the product operator otherwise, then
   * renders as it would on its own.
   */
  lemma AppendsOperator(o: Options, result: string, each: Term)
    requires Valid(o) && each.measure.None? && result != ""
    ensures ToStringReducer(o, result, each) == result + OperatorFor(o, each.exp) + ToStringReducer(o, "", each)
  {
  }

  /**
   * A term with a nested measure renders as the group, an operator (always,
   * unless the group is empty), and then the term as it would render alone
   * without the measure.
   */
  lemma NestedRendersGroup(o: Options, result: string, each: Term)
    requires Valid(o) && each.measure.Some?
    ensures var g := Group(o, each.measure.value);
      ToStringReducer(o, result, each) ==
      g + (if g != "" then OperatorFor(o, each.exp) else "") + ToStringReducer(o, "", Term(each.name, each.exp, None))
  {
  }

  /** With the default `groupLeft` the group is never empty, so the operator always follows it. */
  lemma GroupNeverEmpty(o: Options, m: Measure)
    requires Valid(o) && o.operator["groupLeft"] == "("
    ensures Group(o, m) != "" && Group(o, m)[0] == '('
  {
  }

  /** formatUnitOfMeasure and the reducer agree on a lone plain term with a positive exponent. */
  lemma UnitOfMeasurePositive(o: Options, t: Term)
    requires Valid(o) && t.measure.None? && t.exp > 0
    ensures FormatUnitOfMeasure(o, t) == ToStringReducer(o, "", t)
  {
    if t.exp > 1 {
      assert IntString(t.exp) == NatString(Abs(t.exp));
    }
  }

  /**
   * For a negative exponent formatUnitOfMeasure keeps the minus glyph, which
   * the reducer drops (and the reducer drops the power of -1 altogether).
   */
  lemma UnitOfMeasureNegative(o: Options, t: Term)
    requires Valid(o) && t.measure.None? && t.exp < 0
    ensures FormatUnitOfMeasure(o, t) == WithPower(o, t.name, Get(o.exponent, "-") + Glyphs(o.exponent, NatString(-t.exp)))
    ensures ToStringReducer(o, "", t) ==
      WithPower(o, t.name, if t.exp == -1 then "" else Glyphs(o.exponent, NatString(-t.exp)))
  {
    SignedGlyphs(o.exponent, t.exp);
    var rendered := WithPower(o, t.name, if Abs(t.exp) == 1 then "" else Glyphs(o.exponent, NatString(Abs(t.exp))));
    assert ToStringReducer(o, "", t) == "" + rendered;
    assert "" + rendered == rendered;
  }

  /** formatMeasureUnit looks only at the merged list: merging first changes nothing. */
  lemma FormatIgnoresMerging(o: Options, u: Unit)
    requires Valid(o)
    ensures FormatMeasureUnit(o, Multiple(Reduce(AsList(u)))) == FormatMeasureUnit(o, u)
  {
    ReduceIdempotent(AsList(u));
  }

  /** For a consistent collator, formatting the list formatMeasureUnit folds gives the same text. */
  lemma FormatOfNormalForm(o: Options, u: Unit)
    requires Valid(o) && Antisymmetric(o.order)
    ensures FormatMeasureUnit(o, Multiple(NormalForm(o.order, u))) == FormatMeasureUnit(o, u)
  {
    var R := Reduce(AsList(u));
    var S := SortTerms(o.order, R);
    ReduceNormalises(AsList(u));
    SortKeepsNamesDistinct(o.order, R);
    ReduceOfDistinct(S);
    SortTermsIdempotent(o.order, R);
  }

  lemma {:induction false} SortKeepsNamesDistinct(c: Collators, s: seq<Term>)
    requires NamesDistinct(s)
    ensures NamesDistinct(SortTerms(c, s))
    ensures forall n :: n in Names(SortTerms(c, s)) <==> n in Names(s)
  {
    if s != [] {
      var init := s[..|s| - 1];
      SortKeepsNamesDistinct(c, init);
      InsertBackNames(c, SortTerms(c, init), s[|s| - 1]);
      assert Names(s) == Names(init) + [s[|s| - 1].name];
    }
  }

  lemma {:induction false} InsertBackNames(c: Collators, s: seq<Term>, x: Term)
    requires NamesDistinct(s) && x.name !in Names(s)
    ensures NamesDistinct(InsertBack(c, s, x))
    ensures forall n :: n in Names(InsertBack(c, s, x)) <==> n in Names(s) || n == x.name
  {
    if s != [] && UnitOrder(c, s[|s| - 1], x) > 0 {
      var init, last := s[..|s| - 1], s[|s| - 1];
      assert Names(s) == Names(init) + [last.name];
      InsertBackNames(c, init, x);
      var r := InsertBack(c, init, x);
      assert Names(r + [last]) == Names(r) + [last.name];
      assert last.name !in Names(init);
      assert last.name !in Names(r);
      forall i, j | 0 <= i < j < |r + [last]|
        ensures (r + [last])[i].name != (r + [last])[j].name
      {
        if j == |r| {
          assert Names(r)[i] == r[i].name;
        }
      }
    } else {
      assert Names(s + [x]) == Names(s) + [x.name];
    }
  }
}
