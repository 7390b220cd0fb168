/**
 * The MeasureFormat object: the constructor fixes the merged options and a
 * collator; formatMeasureUnit runs `unitReducer` over the caller's own terms
 * (writing merged exponents into them), sorts the array the reduction
 * returns and folds it into text.
 */
module FormatterObjects {
  import opened Values
  import opened UnitObjects
  import UnitAlgebra
  import Collation
  import Formatting

  class MeasureFormat {
    const options: Formatting.Options
    const measureUnitCollator: Collation.MeasureUnitCollator

    /** The formatter's collator sorts with the collators its options name. */
    ghost predicate Valid() {
      Formatting.Valid(options) && measureUnitCollator.Order() == options.order
    }

    /**
     * `new MeasureFormat(options)`: the user's `exponent` and `operator`
     * entries over the defaults; `number` is the `Intl.NumberFormat` built
     * from `locales` and `numberFormatOptions`, and `order` the collators of
     * the new MeasureUnitCollator.
     */
    constructor (exponent: Formatting.Table, operator: Formatting.Table, number: Num -> string, order: Collation.Collators)
      ensures Valid()
      ensures options == Formatting.NewOptions(exponent, operator, number, order)
    {
      options := Formatting.NewOptions(exponent, operator, number, order);
      measureUnitCollator := new Collation.MeasureUnitCollator(order.name, order.exponent);
    }

    /**
     * `formatMeasureUnit(u)`. The reducer runs over the caller's own terms,
     * so the first term of each name is rewritten as UnitObjects.ReduceUnits
     * states; a term the merge drops keeps its exponent. The text is that of
     * the unit as it was.
     */
    method FormatMeasureUnit(u: UnitRef) returns (s: string)
      requires Valid()
      modifies set t | t in Elements(u)
      ensures Distinct(old(Elements(u))) ==> s == Formatting.FormatMeasureUnit(options, old(UnitValue(u)))
      ensures forall t :: t in old(Elements(u)) && t !in FirstOfEachName(old(Elements(u)), Names(old(TermsOf(Elements(u))))) ==>
        t.exp == old(t.exp)
      ensures u.Many? ==> u.list[..] == old(u.list[..])
    {
      ghost var lv := UnitValue(u);
      var unitList := if u.Many? then u.list[..] else [u.term];
      assert unitList == Elements(u) && TermsOf(unitList) == AsList(lv);
      ghost var N := Names(AsList(lv));
      var reduced := ReduceUnits(unitList);
      assert reduced == FirstOfEachName(unitList, N) && old(Elements(u)) == unitList;
      ghost var R := TermsOf(reduced);
      assert Distinct(unitList) ==> R == UnitAlgebra.Reduce(AsList(lv));
      s := SortAndFold(reduced, R);
    }

    /** `.sort(unitSorterFactory()).reduce(toStringReducer, '')` on the reduced terms. */
    method SortAndFold(reduced: seq<UnitOfMeasure>, ghost R: seq<Term>) returns (s: string)
      requires Valid() && TermsOf(reduced) == R
      ensures s == Formatting.FoldTerms(options, Collation.SortTerms(options.order, R))
    {
      var sorted := SortedCopy(reduced, R);
      s := Formatting.FoldTerms(options, TermsOf(sorted[..]));
    }

    /** `.sort(unitSorterFactory())` on the array the reduction returned, which is the formatter's own. */
    method SortedCopy(reduced: seq<UnitOfMeasure>, ghost R: seq<Term>) returns (sorted: array<UnitOfMeasure>)
      requires Valid() && TermsOf(reduced) == R
      ensures fresh(sorted) && TermsOf(sorted[..]) == Collation.SortTerms(options.order, R)
    {
      sorted := new UnitOfMeasure[|reduced|](k requires 0 <= k < |reduced| => reduced[k]);
      assert sorted[..] == reduced;
      measureUnitCollator.SortUnits(sorted);
    }

    /** `formatMeasure(m)` for a measure whose unit is `u`; as in FormatMeasureUnit, a term the merge drops keeps its exponent. */
    method FormatMeasure(value: Num, u: UnitRef) returns (s: string)
      requires Valid()
      modifies set t | t in Elements(u)
      ensures Distinct(old(Elements(u))) ==> s == Formatting.FormatMeasure(options, Measure(value, old(UnitValue(u))))
      ensures forall t :: t in old(Elements(u)) && t !in FirstOfEachName(old(Elements(u)), Names(old(TermsOf(Elements(u))))) ==>
        t.exp == old(t.exp)
    {
      var unit := FormatMeasureUnit(u);
      s := options.number(value) + options.operator["valueUnitDelimiter"] + unit;
    }
  }
}
