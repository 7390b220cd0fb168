/**
 * The constructors of Measure and Measure.UnitOfMeasure, which normalise a
 * loosely typed JavaScript value into a measure, and the canonical
 * serialisation (`toJSON`) that turns a measure back into such a value.
 */
module Construction {
  import opened Values

  /**
   * A JavaScript value as the constructors read it. An object is reduced to
   * the five properties they look at; an absent property is `Undefined`.
   */
  datatype Js =
    | Undefined
    | Null
    | Bool(b: bool)
    | Number(n: Num)
    | Str(s: string)
    | Arr(items: seq<Js>)
    | Obj(name: Option<string>, exp: Js, measure: Js, unit: Js, value: Js)

  /** The two TypeErrors the constructors throw, and the one input shape the model rejects. */
  datatype TypeError =
    | InvalidValue(value: Js)
    | InvalidExponent(exp: Js)
    | PrimitiveMeasure(measure: Js)

  /** `!x` in JavaScript. */
  predicate Falsy(x: Js) {
    match x
    case Undefined => true
    case Null => true
    case Bool(b) => !b
    case Number(n) => n == Finite(0.0) || n == NaN
    case Str(s) => s == ""
    case _ => false
  }

  /** `x || y` in JavaScript. */
  function Or(x: Js, y: Js): (r: Js)
    ensures Falsy(x) ==> r == y
    ensures !Falsy(x) ==> r == x
  {
    if Falsy(x) then y else x
  }

  /** `typeof(x) === 'object' && x !== null` */
  predicate IsObject(x: Js) {
    x.Arr? || x.Obj?
  }

  /** `Number.isInteger(x)` */
  predicate IsInteger(x: Js) {
    x.Number? && x.n.Finite? && x.n.r == x.n.r.Floor as real
  }

  function NameOf(x: Js): string {
    if x.Obj? && x.name.Some? then x.name.value else ""
  }

  // The properties the constructors read; an array has none of them.

  function UnitProp(x: Js): Js { if x.Obj? then x.unit else Undefined }

  function ValueProp(x: Js): Js { if x.Obj? then x.value else Undefined }

  /** `new Measure.UnitOfMeasure(x)`. */
  function NewTerm(x: Js): (r: Result<Term, TypeError>)
    decreases x, 0
    ensures x.Str? ==> r == Ok(Term(x.s, 1, None))
    ensures !x.Str? && !IsObject(x) ==> r == Ok(Term("", 1, None))
    ensures r.Ok? && IsObject(x) ==> r.value.name == NameOf(x) && r.value.exp != 0
    ensures x.Obj? && !IsInteger(Or(x.exp, Number(Finite(1.0)))) ==> r.Err?
    ensures r.Ok? && x.Obj? && Falsy(x.exp) ==> r.value.exp == 1
    ensures r.Ok? && x.Obj? && !Falsy(x.exp) ==> x.exp == Number(Finite(r.value.exp as real))
    ensures r.Ok? && x.Obj? ==> (r.value.measure.None? <==> Falsy(x.measure))
    ensures r.Ok? && x.Obj? && !Falsy(x.measure) ==> NewMeasure(x.measure) == Ok(r.value.measure.value)
    ensures x.Arr? ==> r == Ok(Term("", 1, None))
    ensures x.Obj? ==>
      (r.Ok? <==> (Falsy(x.measure) || (IsObject(x.measure) && NewMeasure(x.measure).Ok?)) &&
                  IsInteger(Or(x.exp, Number(Finite(1.0)))))
  {
    if x.Str? then Ok(Term(x.s, 1, None))
    else if !IsObject(x) then Ok(Term("", 1, None))
    else
      var m := if x.Obj? then x.measure else Undefined;
      var e := Or(if x.Obj? then x.exp else Undefined, Number(Finite(1.0)));
      var measure: Result<Option<Measure>, TypeError> :=
        if Falsy(m) then Ok(None)
        else if IsObject(m) then
          match NewMeasure(m)
          case Ok(inner) => Ok(Some(inner))
          case Err(err) => Err(err)
        else Err(PrimitiveMeasure(m));
      if measure.Err? then Err(measure.error)
      else if !IsInteger(e) then Err(InvalidExponent(e))
      else Ok(Term(NameOf(x), e.n.r.Floor, measure.value))
  }

  /** `unit.map(uom => new Measure.UnitOfMeasure(uom))` from position `from` on; the first throw wins. */
  function NewTerms(x: Js, from: nat): (r: Result<seq<Term>, TypeError>)
    requires x.Arr? && from <= |x.items|
    decreases x, |x.items| - from
    ensures r.Ok? ==> |r.value| == |x.items| - from
    ensures r.Ok? ==> forall k :: from <= k < |x.items| ==> NewTerm(x.items[k]) == Ok(r.value[k - from])
    ensures r.Ok? <==> forall k :: from <= k < |x.items| ==> NewTerm(x.items[k]).Ok?
  {
    if from == |x.items| then Ok([])
    else
      match NewTerm(x.items[from])
      case Err(err) => Err(err)
      case Ok(t) =>
        match NewTerms(x, from + 1)
        case Err(err) => Err(err)
        case Ok(ts) => Ok([t] + ts)
  }

  /**
   * The unit of `new Measure(x)` converts without a throw: it is falsy, an
   * array whose every element converts, or a single term that converts.
   */
  predicate UnitConverts(u: Js)
    decreases u, 1
  {
    if Falsy(u) then true
    else if u.Arr? then forall k :: 0 <= k < |u.items| ==> NewTerm(u.items[k]).Ok?
    else NewTerm(u).Ok?
  }

  /**
   * `new Measure(x)`: the unit defaults to `''` and the value to `0.0` when
   * absent or falsy; an array unit is converted element by element, any
   * other unit becomes a single term; the value must then be a number.
   */
  function NewMeasure(x: Js): (r: Result<Measure, TypeError>)
    decreases x, 0
    ensures r.Ok? ==> Or(ValueProp(x), Number(Finite(0.0))).Number?
    ensures r.Ok? && Falsy(ValueProp(x)) ==> r.value.value == Finite(0.0)
    ensures r.Ok? && !Falsy(ValueProp(x)) ==> Number(r.value.value) == ValueProp(x)
    ensures r.Ok? && UnitProp(x).Arr? ==>
      r.value.unit.Multiple? && |r.value.unit.terms| == |UnitProp(x).items| &&
      forall k :: 0 <= k < |UnitProp(x).items| ==> NewTerm(UnitProp(x).items[k]) == Ok(r.value.unit.terms[k])
    ensures r.Ok? && Falsy(UnitProp(x)) ==> r.value.unit == Single(Term("", 1, None))
    ensures r.Ok? && !Falsy(UnitProp(x)) && !UnitProp(x).Arr? ==>
      r.value.unit.Single? && NewTerm(UnitProp(x)) == Ok(r.value.unit.term)
    ensures r.Ok? <==> (x.Obj? ==> UnitConverts(x.unit)) && Or(ValueProp(x), Number(Finite(0.0))).Number?
    ensures (x.Obj? ==> UnitConverts(x.unit)) && !Or(ValueProp(x), Number(Finite(0.0))).Number? ==>
      r == Err(InvalidValue(Or(ValueProp(x), Number(Finite(0.0)))))
  {
    var u := if x.Obj? then x.unit else Undefined;
    var v := Or(ValueProp(x), Number(Finite(0.0)));
    var unit: Result<Unit, TypeError> :=
      if Falsy(u) then Ok(Single(Term("", 1, None)))
      else if u.Arr? then
        match NewTerms(u, 0)
        case Ok(ts) => Ok(Multiple(ts))
        case Err(err) => Err(err)
      else
        match NewTerm(u)
        case Ok(t) => Ok(Single(t))
        case Err(err) => Err(err);
    if unit.Err? then Err(unit.error)
    else if !v.Number? then Err(InvalidValue(v))
    else Ok(Measure(v.n, unit.value))
  }

  /**
   * `UnitOfMeasure.toJSON`, as JSON serialisation applies it: the bare name
   * for exponent 1 without a nested measure, otherwise an object that leaves
   * out an exponent of 1 and an absent measure.
   */
  function TermToJson(t: Term): (r: Js)
    decreases t, 1
    ensures r.Str? <==> t.exp == 1 && t.measure.None?
    ensures r.Str? ==> r.s == t.name
    ensures r.Obj? ==> r.name == Some(t.name) && r.unit == Undefined && r.value == Undefined
    ensures r.Obj? ==> (r.exp == Undefined <==> t.exp == 1)
    ensures r.Obj? ==> (r.measure == Undefined <==> t.measure.None?)
  {
    if t.exp == 1 && t.measure.None? then Str(t.name)
    else
      Obj(Some(t.name),
          if t.exp == 1 then Undefined else Number(Finite(t.exp as real)),
          if t.measure.None? then Undefined else MeasureToJson(t.measure.value),
          Undefined, Undefined)
  }

  function UnitToJson(u: Unit): (r: Js)
    decreases u, 1
    ensures u.Multiple? ==> r.Arr? && |r.items| == |u.terms|
  {
    match u
    case Single(t) => TermToJson(t)
    case Multiple(ts) => Arr(seq(|ts|, k requires 0 <= k < |ts| => TermToJson(ts[k])))
  }

  /** `Measure.toJSON`: `{unit, value}` with every term serialised by TermToJson. */
  function MeasureToJson(m: Measure): (r: Js)
    decreases m, 1
    ensures r.Obj? && r.name.None? && r.exp == Undefined && r.measure == Undefined
    ensures r.value == Number(m.value)
  {
    Obj(None, Undefined, Undefined, UnitToJson(m.unit), Number(m.value))
  }

  /**
   * The measures that survive a serialisation round trip: no value is NaN
   * (it would come back as 0) and no exponent is 0 (it would come back as 1).
   */
  predicate TermRoundTrips(t: Term) {
    t.exp != 0 && (t.measure.Some? ==> MeasureRoundTrips(t.measure.value))
  }

  predicate MeasureRoundTrips(m: Measure) {
    m.value != NaN &&
    match m.unit
    case Single(t) => TermRoundTrips(t)
    case Multiple(ts) => forall k :: 0 <= k < |ts| ==> TermRoundTrips(ts[k])
  }

  lemma {:induction false} TermRoundTrip(t: Term)
    requires TermRoundTrips(t)
    ensures NewTerm(TermToJson(t)) == Ok(t)
    decreases t, 0
  {
    var j := TermToJson(t);
    if !j.Str? {
      if t.measure.Some? {
        MeasureRoundTrip(t.measure.value);
      }
      assert (t.exp as real).Floor == t.exp;
    }
  }

  lemma {:induction false} TermsRoundTrip(ts: seq<Term>, from: nat)
    requires from <= |ts|
    requires forall k :: 0 <= k < |ts| ==> TermRoundTrips(ts[k])
    ensures NewTerms(UnitToJson(Multiple(ts)), from) == Ok(ts[from..])
    decreases ts, |ts| - from
  {
    if from < |ts| {
      TermRoundTrip(ts[from]);
      TermsRoundTrip(ts, from + 1);
      assert ts[from..] == [ts[from]] + ts[from + 1..];
    }
  }

  /** Serialising a measure and constructing from the result gives the measure back. */
  lemma {:induction false} MeasureRoundTrip(m: Measure)
    requires MeasureRoundTrips(m)
    ensures NewMeasure(MeasureToJson(m)) == Ok(m)
    decreases m, 0
  {
    match m.unit
    case Single(t) =>
      TermRoundTrip(t);
    case Multiple(ts) =>
      TermsRoundTrip(ts, 0);
      assert ts[0..] == ts;
  }

  /** An exponent 0 (which the reducer can produce) serialises to `{exp: 0, ...}` and comes back as 1. */
  lemma ZeroExponentComesBackAsOne(name: string)
    ensures NewTerm(TermToJson(Term(name, 0, None))) == Ok(Term(name, 1, None))
  {
  }

  /** A NaN value serialises as NaN, which is falsy, and comes back as 0. */
  lemma NaNValueComesBackAsZero(u: Unit)
    requires MeasureRoundTrips(Measure(Finite(0.0), u))
    ensures NewMeasure(MeasureToJson(Measure(NaN, u))) == Ok(Measure(Finite(0.0), u))
  {
    MeasureRoundTrip(Measure(Finite(0.0), u));
  }
}
