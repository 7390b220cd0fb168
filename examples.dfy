/**
 * The worked examples of the library's documentation and the constructions
 * its tests make, stated over the model. `Intl.NumberFormat` and
 * `Intl.Collator` are foreign, so each example names the few answers of
 * theirs it relies on.
 */
module Examples {
  import opened Values
  import opened UnitAlgebra
  import opened Construction
  import opened Collation
  import opened Formatting

  function Num(r: real): Js {
    Number(Finite(r))
  }

  /** `{name, exp}` */
  function Named(name: string, exp: real): Js {
    Obj(Some(name), Num(exp), Undefined, Undefined, Undefined)
  }

  /** `{value, unit}` */
  function MeasureOf(unit: Js, value: real): Js {
    Obj(None, Undefined, Undefined, unit, Num(value))
  }

  /** `{name, measure}` */
  function Scaled(name: string, measure: Js): Js {
    Obj(Some(name), Undefined, measure, Undefined, Undefined)
  }

  const Torque: Js := MeasureOf(Arr([Str("kilogram"), Named("meter", 2.0), Named("second", -2.0)]), 500.0)

  const Bag: Js := MeasureOf(Scaled("bag", MeasureOf(Str("kernel"), 80000.0)), 5.0)

  const Fantasia: Js := MeasureOf(Arr([Scaled("bucket", MeasureOf(Str("gallon"), 2.0)), Named("second", -1.0)]), 2000.0)

  /** `reduce` one more step. */
  lemma FoldSnoc(o: Options, s: seq<Term>, t: Term)
    requires Valid(o)
    ensures FoldTerms(o, s + [t]) == ToStringReducer(o, FoldTerms(o, s), t)
  {
    assert (s + [t])[..|s|] == s;
  }

  lemma OneGlyph(table: Table, c: char)
    ensures Glyphs(table, [c]) == Get(table, [c])
  {
    assert [c][..0] == [];
  }

  const TorqueTerms: seq<Term> := [Term("kilogram", 1, None), Term("meter", 2, None), Term("second", -2, None)]

  /** The array conversion, one element further to the left. */
  lemma NewTermsCons(x: Js, from: nat, t: Term, rest: seq<Term>)
    requires x.Arr? && from < |x.items|
    requires NewTerm(x.items[from]) == Ok(t) && NewTerms(x, from + 1) == Ok(rest)
    ensures NewTerms(x, from) == Ok([t] + rest)
  {
  }

  lemma TorqueConstructed()
    ensures NewMeasure(Torque) == Ok(Measure(Finite(500.0), Multiple(TorqueTerms)))
  {
    var u := UnitProp(Torque);
    var ts := TorqueTerms;
    assert NewTerms(u, 3) == Ok([]);
    assert NewTerm(u.items[2]) == Ok(ts[2]) by {
      assert (-2.0).Floor == -2;
    }
    NewTermsCons(u, 2, ts[2], []);
    assert [ts[2]] + [] == [ts[2]];
    assert NewTerm(u.items[1]) == Ok(ts[1]) by {
      assert (2.0).Floor == 2;
    }
    NewTermsCons(u, 1, ts[1], [ts[2]]);
    assert [ts[1]] + [ts[2]] == [ts[1], ts[2]];
    assert NewTerm(u.items[0]) == Ok(ts[0]);
    NewTermsCons(u, 0, ts[0], [ts[1], ts[2]]);
    assert [ts[0]] + [ts[1], ts[2]] == ts;
  }

  lemma SortOne(c: Collators, a: Term)
    ensures SortTerms(c, [a]) == [a]
  {
    SortTermsSnoc(c, [a], 0);
    assert [a][..0] == [] && [a][..1] == [a];
  }

  lemma SortTwo(c: Collators, a: Term, b: Term)
    requires UnitOrder(c, a, b) <= 0
    ensures SortTerms(c, [a, b]) == [a, b]
  {
    var s := [a, b];
    SortOne(c, a);
    InsertBackStops(c, [a], b);
    assert [a][..1] + [b] + [a][1..] == [a, b];
    SortTermsSnoc(c, s, 1);
    assert s[..1] == [a] && s[..2] == s;
  }

  lemma SortThree(c: Collators, a: Term, b: Term, d: Term)
    requires UnitOrder(c, a, b) <= 0 && UnitOrder(c, b, d) <= 0
    ensures SortTerms(c, [a, b, d]) == [a, b, d]
  {
    var s := [a, b, d];
    SortTwo(c, a, b);
    InsertBackStops(c, [a, b], d);
    assert [a, b][..2] + [d] + [a, b][2..] == [a, b, d];
    SortTermsSnoc(c, s, 2);
    assert s[..2] == [a, b] && s[..3] == s;
  }

  lemma FoldOne(o: Options, a: Term)
    requires Valid(o)
    ensures FoldTerms(o, [a]) == ToStringReducer(o, "", a)
  {
    FoldSnoc(o, [], a);
    assert [] + [a] == [a];
  }

  lemma FoldTwo(o: Options, a: Term, b: Term)
    requires Valid(o)
    ensures FoldTerms(o, [a, b]) == ToStringReducer(o, ToStringReducer(o, "", a), b)
  {
    FoldOne(o, a);
    FoldSnoc(o, [a], b);
    assert [a] + [b] == [a, b];
  }

  lemma FoldThree(o: Options, a: Term, b: Term, d: Term)
    requires Valid(o)
    ensures FoldTerms(o, [a, b, d]) == ToStringReducer(o, ToStringReducer(o, ToStringReducer(o, "", a), b), d)
  {
    FoldTwo(o, a, b);
    FoldSnoc(o, [a, b], d);
    assert [a, b] + [d] == [a, b, d];
  }

  /** A plain term of exponent 1 or -1 renders as its name, after the operator when something precedes it. */
  lemma StepPlain(o: Options, result: string, t: Term)
    requires Valid(o) && t.measure.None? && (t.exp == 1 || t.exp == -1)
    ensures ToStringReducer(o, result, t) == (if result == "" then "" else result + OperatorFor(o, t.exp)) + t.name
  {
  }

  /** The power 2 is written with the one glyph of '2'. */
  lemma SquareGlyph(o: Options)
    requires "2" in o.exponent
    ensures Glyphs(o.exponent, NatString(2)) == o.exponent["2"]
  {
    assert NatString(2) == ['2'];
    OneGlyph(o.exponent, '2');
  }

  /** A plain squared term renders with the power glyph of 2. */
  lemma StepSquare(o: Options, result: string, t: Term)
    requires Valid(o) && t.measure.None? && (t.exp == 2 || t.exp == -2) && "2" in o.exponent && o.exponent["2"] != ""
    ensures ToStringReducer(o, result, t) ==
      (if result == "" then "" else result + OperatorFor(o, t.exp)) + (t.name + o.exponent["^"] + o.exponent["2"])
  {
    SquareGlyph(o);
  }

  /** A term with a nested measure of exponent 1 renders as the group, the product operator and its name. */
  lemma StepGrouped(o: Options, result: string, t: Term)
    requires Valid(o) && t.measure.Some? && t.exp == 1 && o.operator["groupLeft"] == "("
    ensures ToStringReducer(o, result, t) == Group(o, t.measure.value) + o.operator["productOperator"] + t.name
  {
    GroupNeverEmpty(o, t.measure.value);
  }

  /** A group around the text of the nested unit. */
  lemma GroupText(o: Options, m: Measure, text: string)
    requires Valid(o) && FormatMeasureUnit(o, m.unit) == text
    ensures Group(o, m) == o.operator["groupLeft"] + o.number(m.value) + o.operator["compoundSeparator"] + text + o.operator["groupRight"]
  {
  }

  /** The text of a unit is the fold of its normal form. */
  lemma FormatText(o: Options, u: Unit, ts: seq<Term>)
    requires Valid(o) && NormalForm(o.order, u) == ts
    ensures FormatMeasureUnit(o, u) == FoldTerms(o, ts)
  {
  }

  lemma NormalOne(c: Collators, t: Term)
    ensures NormalForm(c, Single(t)) == [t]
  {
    ReduceOfDistinct([t]);
    SortOne(c, t);
  }

  /** A list with distinct names, already in order, is its own normal form. */
  lemma NormalOfSorted(c: Collators, ts: seq<Term>)
    requires NamesDistinct(ts) && SortTerms(c, ts) == ts
    ensures NormalForm(c, Multiple(ts)) == ts
  {
    ReduceOfDistinct(ts);
  }

  lemma NormalTwo(c: Collators, a: Term, b: Term)
    requires a.name != b.name && c.name(a.name, b.name) < 0
    ensures NormalForm(c, Multiple([a, b])) == [a, b]
  {
    SortTwo(c, a, b);
    NormalOfSorted(c, [a, b]);
  }

  lemma NormalThree(c: Collators, a: Term, b: Term, d: Term)
    requires a.name != b.name && a.name != d.name && b.name != d.name
    requires c.name(a.name, b.name) < 0 && c.name(b.name, d.name) < 0
    ensures NormalForm(c, Multiple([a, b, d])) == [a, b, d]
  {
    SortThree(c, a, b, d);
    NormalOfSorted(c, [a, b, d]);
  }

  /** A lone plain term of exponent 1 renders as its name. */
  lemma SingleName(o: Options, t: Term)
    requires Valid(o) && t.measure.None? && t.exp == 1
    ensures FormatMeasureUnit(o, Single(t)) == t.name
  {
    NormalOne(o.order, t);
    FormatText(o, Single(t), [t]);
    FoldOne(o, t);
    StepPlain(o, "", t);
  }

  /** The group of a measure whose unit is a lone plain name. */
  lemma GroupedName(o: Options, value: Num, name: string)
    requires Valid(o)
    ensures Group(o, Measure(value, Single(Term(name, 1, None)))) ==
      o.operator["groupLeft"] + o.number(value) + o.operator["compoundSeparator"] + name + o.operator["groupRight"]
  {
    SingleName(o, Term(name, 1, None));
    GroupText(o, Measure(value, Single(Term(name, 1, None))), name);
  }

  /** A lone term with a nested measure renders as the group, the product operator and its name. */
  lemma SingleGrouped(o: Options, t: Term)
    requires Valid(o) && t.measure.Some? && t.exp == 1 && o.operator["groupLeft"] == "("
    ensures FormatMeasureUnit(o, Single(t)) == Group(o, t.measure.value) + o.operator["productOperator"] + t.name
  {
    NormalOne(o.order, t);
    FormatText(o, Single(t), [t]);
    FoldOne(o, t);
    StepGrouped(o, "", t);
  }

  /** With names in alphabetical order the torque's terms are already merged and sorted. */
  lemma TorqueNormal(c: Collators)
    requires c.name("kilogram", "meter") < 0 && c.name("meter", "second") < 0
    ensures NormalForm(c, Multiple(TorqueTerms)) == TorqueTerms
  {
    NormalThree(c, Term("kilogram", 1, None), Term("meter", 2, None), Term("second", -2, None));
  }

  /** A named term, a squared term and a term over a square, all plain. */
  lemma ProductOverSquare(o: Options, a: Term, b: Term, d: Term)
    requires Valid(o) && "2" in o.exponent && o.exponent["2"] != "" && a.name != ""
    requires a == Term(a.name, 1, None) && b == Term(b.name, 2, None) && d == Term(d.name, -2, None)
    ensures FoldTerms(o, [a, b, d]) ==
      a.name + o.operator["productOperator"] + (b.name + o.exponent["^"] + o.exponent["2"]) +
      o.operator["divisionOperator"] + (d.name + o.exponent["^"] + o.exponent["2"])
  {
    FoldThree(o, a, b, d);
    StepPlain(o, "", a);
    var r1 := ToStringReducer(o, a.name, b);
    StepSquare(o, a.name, b);
    StepSquare(o, r1, d);
  }

  lemma TorqueText(o: Options)
    requires Valid(o) && "2" in o.exponent && o.exponent["^"] == "^" && o.exponent["2"] == "²"
    requires o.operator["productOperator"] == "⋅" && o.operator["divisionOperator"] == "/"
    ensures FoldTerms(o, TorqueTerms) == "kilogram⋅meter^²/second^²"
  {
    assert "kilogram" + "⋅" + ("meter" + "^" + "²") + "/" + ("second" + "^" + "²") == "kilogram⋅meter^²/second^²";
    ProductOverSquare(o, Term("kilogram", 1, None), Term("meter", 2, None), Term("second", -2, None));
  }

  /** `{'exponent': {'^': '^'}}` over the defaults. */
  lemma TorqueOptions(number: Num -> string, order: Collators)
    ensures var o := NewOptions(map["^" := "^"], map[], number, order);
      "2" in o.exponent && o.exponent["^"] == "^" && o.exponent["2"] == "²" &&
      o.operator["productOperator"] == "⋅" && o.operator["divisionOperator"] == "/" &&
      o.operator["valueUnitDelimiter"] == " " && o.order == order && o.number == number
  {
    assert ExponentDefaults + map["^" := "^"] == ExponentDefaults["^" := "^"];
    assert OperatorDefaults + map[] == OperatorDefaults;
    DefaultOperators();
  }

  lemma DefaultOperators()
    ensures OperatorDefaults["productOperator"] == "⋅" && OperatorDefaults["divisionOperator"] == "/" &&
      OperatorDefaults["groupLeft"] == "(" && OperatorDefaults["groupRight"] == ")" &&
      OperatorDefaults["compoundSeparator"] == "-" && OperatorDefaults["valueUnitDelimiter"] == " "
  {
  }

  lemma TorqueFormatted(number: Num -> string, order: Collators)
    requires order.name("kilogram", "meter") < 0 && order.name("meter", "second") < 0
    ensures FormatMeasureUnit(NewOptions(map["^" := "^"], map[], number, order), Multiple(TorqueTerms)) ==
      "kilogram⋅meter^²/second^²"
  {
    var o := NewOptions(map["^" := "^"], map[], number, order);
    TorqueOptions(number, order);
    TorqueNormal(order);
    FormatText(o, Multiple(TorqueTerms), TorqueTerms);
    TorqueText(o);
  }

  /** A constructed measure's caption: its number, the delimiter and the text of its unit. */
  lemma CaptionOf(o: Options, x: Js, m: Measure, text: string)
    requires Valid(o) && NewMeasure(x) == Ok(m) && FormatMeasureUnit(o, m.unit) == text
    ensures FormatMeasure(o, NewMeasure(x).value) == o.number(m.value) + o.operator["valueUnitDelimiter"] + text
  {
  }

  lemma TorqueJoin()
    ensures "500" + " " + "kilogram⋅meter^²/second^²" == "500 kilogram⋅meter^²/second^²"
  {
  }

  /** "500 kilogram⋅meter^²/second^²", with `{'exponent': {'^': '^'}}`. */
  lemma TorqueCaption(number: Num -> string, order: Collators)
    requires number(Finite(500.0)) == "500"
    requires order.name("kilogram", "meter") < 0 && order.name("meter", "second") < 0
    ensures NewMeasure(Torque).Ok?
    ensures FormatMeasure(NewOptions(map["^" := "^"], map[], number, order), NewMeasure(Torque).value) ==
      "500 kilogram⋅meter^²/second^²"
  {
    var o := NewOptions(map["^" := "^"], map[], number, order);
    TorqueConstructed();
    TorqueFormatted(number, order);
    CaptionOf(o, Torque, Measure(Finite(500.0), Multiple(TorqueTerms)), "kilogram⋅meter^²/second^²");
    TorqueOptions(number, order);
    TorqueJoin();
  }

  const Kernels: Measure := Measure(Finite(80000.0), Single(Term("kernel", 1, None)))

  lemma BagConstructed()
    ensures NewMeasure(Bag) == Ok(Measure(Finite(5.0), Single(Term("bag", 1, Some(Kernels)))))
  {
  }

  lemma KernelGroup(o: Options)
    requires Valid(o) && o.number(Finite(80000.0)) == "80,000"
    requires o.operator["groupLeft"] == "(" && o.operator["groupRight"] == ")" && o.operator["compoundSeparator"] == "-"
    ensures Group(o, Kernels) == "(80,000-kernel)"
  {
    assert "(" + "80,000" + "-" + "kernel" + ")" == "(80,000-kernel)";
    GroupedName(o, Finite(80000.0), "kernel");
  }

  lemma BagFormatted(o: Options)
    requires Valid(o) && o.number(Finite(80000.0)) == "80,000"
    requires o.operator["productOperator"] == " " && o.operator["groupLeft"] == "(" &&
      o.operator["groupRight"] == ")" && o.operator["compoundSeparator"] == "-"
    ensures FormatMeasureUnit(o, Single(Term("bag", 1, Some(Kernels)))) == "(80,000-kernel) bag"
  {
    KernelGroup(o);
    SingleGrouped(o, Term("bag", 1, Some(Kernels)));
    assert "(80,000-kernel)" + " " + "bag" == "(80,000-kernel) bag";
  }

  /** `{'operator': {'productOperator': ' '}}` over the defaults. */
  lemma BagOptions(number: Num -> string, order: Collators)
    ensures NewOptions(map[], map["productOperator" := " "], number, order) ==
      Options(ExponentDefaults, OperatorDefaults["productOperator" := " "], number, order)
  {
    assert ExponentDefaults + map[] == ExponentDefaults;
    assert OperatorDefaults + map["productOperator" := " "] == OperatorDefaults["productOperator" := " "];
  }

  lemma BagJoin()
    ensures "5" + " " + "(80,000-kernel) bag" == "5 (80,000-kernel) bag"
  {
  }

  /** "5 (80,000-kernel) bag", with `{'operator': {'productOperator': ' '}}`. */
  lemma BagCaption(number: Num -> string, order: Collators)
    requires number(Finite(5.0)) == "5" && number(Finite(80000.0)) == "80,000"
    ensures NewMeasure(Bag).Ok?
    ensures FormatMeasure(NewOptions(map[], map["productOperator" := " "], number, order), NewMeasure(Bag).value) ==
      "5 (80,000-kernel) bag"
  {
    var o := NewOptions(map[], map["productOperator" := " "], number, order);
    BagConstructed();
    BagOptions(number, order);
    DefaultOperators();
    BagFormatted(o);
    CaptionOf(o, Bag, Measure(Finite(5.0), Single(Term("bag", 1, Some(Kernels)))), "(80,000-kernel) bag");
    BagJoin();
  }

  const Gallons: Measure := Measure(Finite(2.0), Single(Term("gallon", 1, None)))

  const FantasiaTerms: seq<Term> := [Term("bucket", 1, Some(Gallons)), Term("second", -1, None)]

  lemma FantasiaConstructed()
    ensures NewMeasure(Fantasia) == Ok(Measure(Finite(2000.0), Multiple(FantasiaTerms)))
  {
    var u := UnitProp(Fantasia);
    var ts := FantasiaTerms;
    assert NewTerms(u, 2) == Ok([]);
    assert NewTerm(u.items[1]) == Ok(ts[1]) by {
      assert (-1.0).Floor == -1;
    }
    NewTermsCons(u, 1, ts[1], []);
    assert [ts[1]] + [] == [ts[1]];
    assert NewTerm(u.items[0]) == Ok(ts[0]);
    NewTermsCons(u, 0, ts[0], [ts[1]]);
    assert [ts[0]] + [ts[1]] == ts;
  }

  lemma GallonGroup(o: Options)
    requires Valid(o) && o.number(Finite(2.0)) == "2"
    requires o.operator["groupLeft"] == "(" && o.operator["groupRight"] == ")" && o.operator["compoundSeparator"] == "-"
    ensures Group(o, Gallons) == "(2-gallon)"
  {
    assert "(" + "2" + "-" + "gallon" + ")" == "(2-gallon)";
    GroupedName(o, Finite(2.0), "gallon");
  }

  /** A term with a nested measure followed by a plain term divided by. */
  lemma GroupedOver(o: Options, a: Term, b: Term)
    requires Valid(o) && o.operator["groupLeft"] == "("
    requires a.measure.Some? && a.exp == 1 && b == Term(b.name, -1, None)
    ensures FoldTerms(o, [a, b]) ==
      Group(o, a.measure.value) + o.operator["productOperator"] + a.name + o.operator["divisionOperator"] + b.name
  {
    FoldTwo(o, a, b);
    GroupNeverEmpty(o, a.measure.value);
    StepGrouped(o, "", a);
    StepPlain(o, ToStringReducer(o, "", a), b);
  }

  lemma FantasiaText(o: Options)
    requires Valid(o) && o.number(Finite(2.0)) == "2"
    requires o.operator["productOperator"] == "⋅" && o.operator["divisionOperator"] == "/" &&
      o.operator["groupLeft"] == "(" && o.operator["groupRight"] == ")" && o.operator["compoundSeparator"] == "-"
    ensures FoldTerms(o, FantasiaTerms) == "(2-gallon)⋅bucket/second"
  {
    assert "(2-gallon)" + "⋅" + "bucket" + "/" + "second" == "(2-gallon)⋅bucket/second";
    GallonGroup(o);
    GroupedOver(o, Term("bucket", 1, Some(Gallons)), Term("second", -1, None));
  }

  lemma FantasiaFormatted(o: Options)
    requires Valid(o) && o.number(Finite(2.0)) == "2"
    requires o.operator["productOperator"] == "⋅" && o.operator["divisionOperator"] == "/" &&
      o.operator["groupLeft"] == "(" && o.operator["groupRight"] == ")" && o.operator["compoundSeparator"] == "-"
    requires o.order.name("bucket", "second") < 0
    ensures FormatMeasureUnit(o, Multiple(FantasiaTerms)) == "(2-gallon)⋅bucket/second"
  {
    NormalTwo(o.order, Term("bucket", 1, Some(Gallons)), Term("second", -1, None));
    FormatText(o, Multiple(FantasiaTerms), FantasiaTerms);
    FantasiaText(o);
  }

  lemma DefaultOptions(number: Num -> string, order: Collators)
    ensures NewOptions(map[], map[], number, order) == Options(ExponentDefaults, OperatorDefaults, number, order)
  {
    assert ExponentDefaults + map[] == ExponentDefaults;
    assert OperatorDefaults + map[] == OperatorDefaults;
  }

  lemma FantasiaJoin()
    ensures "2000" + " " + "(2-gallon)⋅bucket/second" == "2000 (2-gallon)⋅bucket/second"
  {
  }

  /** "2000 (2-gallon)⋅bucket/second", with grouping off in the number format. */
  lemma FantasiaCaption(number: Num -> string, order: Collators)
    requires number(Finite(2000.0)) == "2000" && number(Finite(2.0)) == "2"
    requires order.name("bucket", "second") < 0
    ensures NewMeasure(Fantasia).Ok?
    ensures FormatMeasure(NewOptions(map[], map[], number, order), NewMeasure(Fantasia).value) ==
      "2000 (2-gallon)⋅bucket/second"
  {
    var o := NewOptions(map[], map[], number, order);
    FantasiaConstructed();
    DefaultOptions(number, order);
    DefaultOperators();
    FantasiaFormatted(o);
    CaptionOf(o, Fantasia, Measure(Finite(2000.0), Multiple(FantasiaTerms)), "(2-gallon)⋅bucket/second");
    FantasiaJoin();
  }

  /** A string unit becomes a single term of that name. */
  lemma StringUnit()
    ensures NewMeasure(MeasureOf(Str("gallon"), 5.0)) == Ok(Measure(Finite(5.0), Single(Term("gallon", 1, None))))
  {
  }

  /** An object unit keeps its nested measure, itself constructed. */
  lemma ObjectUnit()
    ensures var m := NewMeasure(MeasureOf(Scaled("bucket", MeasureOf(Str("gallon"), 5.0)), 2000.0));
      m.Ok? && m.value.unit.Single? && m.value.unit.term.name == "bucket" &&
      m.value.unit.term.measure.Some? && m.value.unit.term.measure.value.unit == Single(Term("gallon", 1, None))
  {
  }

  /** An array unit is converted element by element, in order. */
  lemma ArrayUnit()
    ensures var m := NewMeasure(MeasureOf(Arr([Scaled("bucket", MeasureOf(Str("gallon"), 5.0)), Named("second", -1.0)]), 2000.0));
      m.Ok? && m.value.unit.Multiple? && |m.value.unit.terms| == 2 &&
      m.value.unit.terms[0].name == "bucket" && m.value.unit.terms[1] == Term("second", -1, None)
  {
  }
}
