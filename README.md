# ValueMeasure in Dafny

A model of ValueMeasure's core, a small JavaScript library of measures with compound units. It has three classes:

- **Measure / Measure.UnitOfMeasure** — a measure is a numeric `value` and a `unit`. The unit is one term or an array of terms. Each term has a `name`, an integer exponent `exp`, and an optional nested `measure`, for example the 80,000 kernels in one bag.
  - The constructors normalise loosely typed input.
  - `toJSON` gives the canonical serialisation.
  - `unitReducer` merges terms with the same name by adding their exponents into the first of them, in place.
  - `productOfUnits` and `quotientOfUnits` are built from the reducer and from exponent negation.
- **MeasureUnitCollator** — `compare` orders two unit expressions:
  - lists of different lengths are ordered by length;
  - otherwise both argument arrays are sorted in place by (name, exponent) and compared position by position: name, exponent, presence of a nested measure, then the nested unit recursively.
  - `canAddOrSubtract` is `compare == 0`.
- **MeasureFormat** — renders a measure as text. The unit is reduced, sorted and folded term by term into a string, recursing into nested measures. The operator strings and the digit-to-superscript glyph table can be configured.

The model follows `dist/ValueMeasure.js`, the bundle the tests load. The `src/` copies differ in `inverseMapper` (mutating) and `divideBy`; these are modelled separately.

Files, each one module:

| file | module | what it holds |
|---|---|---|
| values.dfy | Values | numbers, terms, units, measures; nesting depth |
| algebra.dfy | UnitAlgebra | `unitReducer` as a left fold on values; an independent reference definition `Merged`; negation, product and quotient |
| construction.dfy | Construction | the two constructors from a JavaScript value, `toJSON` back, the round trips |
| objects.dfy | UnitObjects | term objects with a mutable `exp`; the reducer, the mappers, product, quotient and `divideBy` as methods that update them in place |
| collation.dfy | Collation | the sorter and `compare` on values; class `MeasureUnitCollator`, whose `compare` sorts the caller's arrays in place |
| formatting.dfy | Formatting | option merging, `formatUnitOfMeasure`, `toStringReducer`, `formatMeasureUnit` and `formatMeasure` on values |
| formatter_objects.dfy | FormatterObjects | class `MeasureFormat`, whose `formatMeasureUnit` runs the reducer over the caller's term objects |
| examples.dfy | Examples | the three documented examples and the test cases, end to end |

The two `Intl.Collator`s and `Intl.NumberFormat` are foreign code. The model takes them as function parameters and assumes nothing about them, except where a lemma's `requires` says so: antisymmetry, or the specific answers a documented example relies on.

## Model

| member | source | states |
|---|---|---|
| Values.Clamp | dist/ValueMeasure.js:24 | `Math.max(-1, Math.min(x, +1))` is the sign of `x` |
| UnitAlgebra.LastIndexOfName | dist/ValueMeasure.js:248-254 | the index search returns the last term with that name, or -1 exactly when no term has it |
| UnitAlgebra.ReduceIsMerged | dist/ValueMeasure.js:245-260 | folding `unitReducer` from `[]` equals the reference definition: one term per distinct name, in first-occurrence order, holding that name's first term with the summed exponent |
| UnitAlgebra.ReduceNormalises | src/Measure.js:118-133 | the reduced list has pairwise-distinct names in first-occurrence order, no more terms than the input, the same set of names, each name's exponent equal to the sum over the input, and the nested measure of the name's first term |
| UnitAlgebra.ReduceNames | dist/ValueMeasure.js:245-260 | the reduced names are the input names deduplicated in first-occurrence order, and they are distinct |
| UnitAlgebra.ReduceKeepsMeasures | dist/ValueMeasure.js:255-258 | every nested measure in the result comes from an input term; the reducer never creates one |
| UnitAlgebra.ReducePreservesSums | dist/ValueMeasure.js:245-260 | for every name, the exponent sum is unchanged by reduction |
| UnitAlgebra.ReduceOfDistinct | dist/ValueMeasure.js:239-240 | reducing a list whose names are already distinct changes nothing |
| UnitAlgebra.ReduceIdempotent | dist/ValueMeasure.js:239-240 | reducing twice is reducing once |
| UnitAlgebra.SumExpInvert | dist/ValueMeasure.js:219-227 | inverting negates every name's exponent sum |
| UnitAlgebra.InvertTwice | src/Measure.js:98-102 | inverting twice restores the terms |
| UnitAlgebra.ProductSums | dist/ValueMeasure.js:228-234 | the product has distinct names, and each name's exponent is left sum plus right sum; a single term or a list works on either side |
| UnitAlgebra.QuotientSecondReduceIsNoOp | dist/ValueMeasure.js:235-242 | the trailing second `reduce` of `quotientOfUnits` changes nothing |
| UnitAlgebra.QuotientSums | dist/ValueMeasure.js:235-242 | the quotient has distinct names, covers exactly the names of both sides, and each name's exponent is left sum minus right sum |
| UnitAlgebra.QuotientNames | dist/ValueMeasure.js:235-242 | the quotient's names are those of left then right, deduplicated in first-occurrence order |
| UnitAlgebra.QuotientOfSelf | dist/ValueMeasure.js:235-260 | `quotientOfUnits(A, A)` keeps every name of A, each with exponent 0; nothing is eliminated |
| Construction.Or | dist/ValueMeasure.js:199-200 | `x \|\| y` is `y` exactly when `x` is falsy (undefined, null, false, 0, NaN, '') |
| Construction.NewTerm | dist/ValueMeasure.js:301-318 | a string gives that name with exponent 1 and no measure. Another primitive gives the default term. An object gives its name and `exp \|\| 1`, so 0 becomes 1 and a falsy exponent gives 1. A non-integer exponent throws a TypeError. A nested measure is present exactly when `measure` is truthy, and is that object passed through `new Measure`. An object converts exactly when its nested measure is falsy or an object that converts, and `exp \|\| 1` is an integer; an array gives the default term |
| Construction.NewTerms | dist/ValueMeasure.js:204-205 | an array unit is converted element by element, in order and with the same length, and converts exactly when every element does |
| Construction.NewMeasure | dist/ValueMeasure.js:193-210 | the value is taken when truthy, and 0.0 when absent or falsy (0, NaN). A non-number value throws. An array unit maps element-wise. A falsy unit becomes the default term `''`. Any other unit is wrapped as a single term. The constructor succeeds exactly when the unit converts and `value \|\| 0.0` is a number; when only the value is wrong it throws the invalid-value TypeError |
| Construction.TermToJson | dist/ValueMeasure.js:321-348 | the bare name exactly when exp is 1 and there is no measure; otherwise an object with the name that leaves out exp exactly when it is 1 and measure exactly when it is absent |
| Construction.UnitToJson | dist/ValueMeasure.js:280-283 | an array unit serialises to an array of the same length |
| Construction.MeasureToJson | dist/ValueMeasure.js:263-286 | a measure serialises to an object `{unit, value}` carrying its value and no term properties |
| Construction.TermRoundTrip | src/Measure.js:194-222 | reconstructing a term from its `toJSON` output gives the term back whenever its exponent is nonzero, at every nesting level |
| Construction.TermsRoundTrip | dist/ValueMeasure.js:282-283 | a serialised term array reconstructs to the same list |
| Construction.MeasureRoundTrip | dist/ValueMeasure.js:263-286 | `new Measure(m.toJSON())` gives back `m` whenever the value is not NaN and no exponent is 0 |
| Construction.ZeroExponentComesBackAsOne | dist/ValueMeasure.js:312 | a term with exponent 0 comes back from its JSON with exponent 1 |
| Construction.NaNValueComesBackAsZero | dist/ValueMeasure.js:200 | a NaN value comes back from its JSON as 0 |
| UnitObjects.UnitOfMeasure.constructor | dist/ValueMeasure.js:301-318 | a term object holds exactly the term the constructor normalised |
| UnitObjects.UnitReducer | dist/ValueMeasure.js:245-260 | one call: when a kept term has the name, its `exp` grows in place by `each.exp` and the same array comes back; otherwise `each` is appended. The names stay distinct. Names and measures are constant fields, so no call can change them |
| UnitObjects.ReduceStepNames | dist/ValueMeasure.js:255-258 | one reducer step keeps names distinct and appends the name only when it is new |
| UnitObjects.ReduceUnits | dist/ValueMeasure.js:231-232 | `.reduce(unitReducer, [])` over term objects returns, for each name in first-occurrence order, the input's first object of that name (`FirstOfEachName`). A list whose names are already distinct comes back as it is. Every object not kept keeps its exponent. For distinct objects the kept objects hold the value-level reduction, so the merged exponents are written into them |
| UnitObjects.InverseUnitMapper | dist/ValueMeasure.js:219-227 | returns a fresh term with the exponent negated and the same name and measure; the input is not modified |
| UnitObjects.InvertUnits | dist/ValueMeasure.js:238 | `[].concat(r).map(inverseUnitMapper)` gives fresh, distinct objects holding the negated terms |
| UnitObjects.ProductOfUnits | dist/ValueMeasure.js:228-234 | the result is the first object of each name in `[].concat(l, r)`, so a name of the left side keeps left's own object. Its names are distinct, and every object of either side that is not kept keeps its exponent. For distinct objects it holds the value-level product |
| UnitObjects.QuotientOfUnits | dist/ValueMeasure.js:235-242 | the result is the first object of each name in left followed by fresh inverted copies of right. A name of the left side keeps left's own first object of that name; any other name keeps a fresh copy. Names are distinct. A left object not kept keeps its exponent. Only left's objects may change, so an object of right that is not also on the left is untouched. For distinct left objects it holds the value-level quotient |
| UnitObjects.ProductReduced | dist/ValueMeasure.js:239-240 | `productOfUnits(l, x).reduce(unitReducer, [])`: the second reduce returns the product's own objects and changes none, so the result is the first object of each name in `l` followed by `x`; for distinct objects it holds the value-level product |
| UnitObjects.QuotientOfUnitsBySelf | dist/ValueMeasure.js:235-242 | `quotientOfUnits(A, A)` returns A's own first object of each name and no fresh copy; for distinct objects each returned object has exponent 0 |
| UnitObjects.KeptIsFirstOfEachName | dist/ValueMeasure.js:245-260 | step by step the reducer keeps an object exactly when its name is new, which is the first object of each name |
| UnitObjects.InverseMapper | src/Measure.js:98-102 | negates `each.exp` in place and returns the same object |
| UnitObjects.InvertInPlace | src/Measure.js:111 | `r.map(inverseMapper)` returns an array of the caller's own objects. Each object is negated once per occurrence, so an object listed twice comes back as it was; for distinct objects each one is negated. Every other object keeps its exponent |
| UnitObjects.NegatedOnce | src/Measure.js:111 | when no object is listed twice, negating once per occurrence is the value-level inversion |
| UnitObjects.DivideByAsWritten | src/Measure.js:109-115 | every call throws. A single right-hand term has no `.map` (TypeError). An array's objects are first negated in place, each once per occurrence (so one listed twice is restored), then the unbound `multiplyBy` throws a ReferenceError |
| UnitObjects.InvertRight | src/Measure.js:111 | the first line of the intended `divideBy`: `r`'s own objects are returned and names do not change; an object of `l` only keeps its exponent; each object of `r` is negated once per occurrence in `r`; for distinct objects, `r`'s objects are negated and `l`'s unit is unchanged |
| UnitObjects.DivideBy | src/Measure.js:109-115 | the intended `divideBy`: the result is the first object of each name in `l` followed by `r`, with distinct names. A dropped object of the left side only keeps its exponent; for distinct objects a dropped object of the right side stays negated, and per name the exponent is left minus right |
| Collation.SortTerms | dist/ValueMeasure.js:28-29 | sorting keeps the same terms (a permutation) |
| Collation.UnitOrderFlips | dist/ValueMeasure.js:102-112 | with antisymmetric collators, `unitSorter(a, b)` and `unitSorter(b, a)` have opposite signs |
| Collation.SortTermsSorted | dist/ValueMeasure.js:102-112 | the sorted list is in ascending name order, then ascending exponent among equal names, not the "power descending" the doc comments claim |
| Collation.SortTermsOfSorted | dist/ValueMeasure.js:28-29 | an already sorted list keeps its order: the sort is stable and moves nothing needlessly |
| Collation.SortTermsIdempotent | dist/ValueMeasure.js:28-29 | sorting twice is sorting once |
| Collation.CompareByLists | dist/ValueMeasure.js:22-23 | a single term compares exactly as a one-element list |
| Collation.CompareByLength | dist/ValueMeasure.js:24-25 | lists of different lengths compare as -1 or +1 by length, and are never addable |
| Collation.PositionStep | dist/ValueMeasure.js:30-82 | the first position with a nonzero comparison decides the result; a zero moves to the next position |
| Collation.PositionsReflexive | src/MeasureCollator.js:30-82 | with reflexive collators, a list compared position by position with itself gives 0 |
| Collation.CompareReflexive | src/MeasureCollator.js:20-85 | with reflexive collators, `compare(X, X) == 0` and `canAddOrSubtract(X, X)`, nested units included |
| Collation.PositionsAntisymmetric | dist/ValueMeasure.js:30-82 | with antisymmetric collators, swapping the lists flips the sign at every position, nested units included |
| Collation.CompareAntisymmetric | dist/ValueMeasure.js:211-216 | with antisymmetric collators, `compare(l, r)` and `compare(r, l)` have opposite signs, and `canAddOrSubtract` is symmetric |
| Collation.CompareIgnoresNestedValues | src/MeasureCollator.js:48-57 | zeroing every nested measure's value changes no comparison: the value tie-break reads an undefined property and its outcome is never used |
| Collation.PositionsErased | dist/ValueMeasure.js:48-57 | position-wise comparison ignores nested values |
| Collation.SortErased | dist/ValueMeasure.js:102-112 | the sort order does not depend on nested measures |
| Collation.MeasureUnitCollator.constructor | dist/ValueMeasure.js:12-19 | the collator uses the two given `Intl.Collator`s |
| Collation.MeasureUnitCollator.SortUnits | dist/ValueMeasure.js:28-29 | `.sort(unitSorterFactory())` permutes the caller's array in place into the stable sort of its terms |
| Collation.Listed | dist/ValueMeasure.js:22-23 | an array is used as it is, the caller's own; a single term is wrapped in a fresh one-element array |
| Collation.MeasureUnitCollator.UnitAt | dist/ValueMeasure.js:32-81 | one position's chain (name, then exponent, then measure presence with absent first, then recursive compare of the nested units) equals the value-level comparison |
| Collation.MeasureUnitCollator.PositionsOf | dist/ValueMeasure.js:30-82 | the loop with `break` returns the value-level position-wise comparison |
| Collation.MeasureUnitCollator.SortPair | dist/ValueMeasure.js:27-29 | both arrays are permuted in place into their stable sorts, unless they are one aliased array and the collators are not antisymmetric |
| Collation.MeasureUnitCollator.CompareLists | dist/ValueMeasure.js:24-84 | on arrays: the result is the value-level comparison. Different lengths leave both arrays untouched; equal lengths sort both in place |
| Collation.MeasureUnitCollator.Compare | src/MeasureCollator.js:20-85 | `compare(l, r)` equals the value-level comparison of the units as they were. The caller's arrays are only permuted: left untouched when the lengths differ, sorted in place when they match |
| Collation.CanAddOrSubtractUnits | dist/ValueMeasure.js:211-216 | `canAddOrSubtract(l, r)` is true exactly when the collator's `compare(l, r)` is 0. Like `compare`, it leaves the caller's arrays untouched when the lengths differ and sorts them in place when they match |
| Formatting.Assign | src/MeasureFormat.js:24-26 | `Object.assign({}, defaults, user)`: the user's entries override, key by key; missing keys keep the defaults |
| Formatting.NewOptions | dist/ValueMeasure.js:376-391 | the merged tables hold every default key, and each entry is the user's value where given and the default otherwise |
| Formatting.NatStringRoundTrip | dist/ValueMeasure.js:456 | the decimal digits `toString` writes read back as the number |
| Formatting.GlyphsAppend | dist/ValueMeasure.js:456-464 | the glyphs of a digit string are the glyphs of its digits, concatenated |
| Formatting.UnmappedDigitVanishes | src/MeasureFormat.js:102-110 | a digit missing from the exponent table contributes nothing |
| Formatting.TenShowsAsOne | src/MeasureFormat.js:128-143 | with the default table, which has no `'0'` entry, exponent 10 shows as `¹` alone |
| Formatting.SignedGlyphs | dist/ValueMeasure.js:414-422 | a negative exponent's glyphs are the `'-'` glyph followed by those of its magnitude |
| Formatting.ZeroExponentRendersAsOne | src/MeasureFormat.js:82 | a term with exponent 0 renders exactly like exponent 1 (`each.exp \|\| 1`) |
| Formatting.LeadingSignLost | src/MeasureFormat.js:95-101 | the first term gets no operator, so a leading `x^-e` renders like `x^e` |
| Formatting.AppendsOperator | src/MeasureFormat.js:95-101 | after a nonempty accumulator, a plain term appends `divisionOperator` for a negative exponent and `productOperator` otherwise, then its own text |
| Formatting.NestedDiscardsPrefix | src/MeasureFormat.js:85-94 | a term with a nested measure renders the same whatever was rendered before it; earlier terms are discarded |
| Formatting.NestedRendersGroup | dist/ValueMeasure.js:439-472 | a nested term renders as its group `(value-unit)`, the operator and then its own name and power |
| Formatting.GroupNeverEmpty | dist/ValueMeasure.js:441-447 | with the default `groupLeft`, a group is never empty and starts with `(`, so an operator always follows it |
| Formatting.UnitOfMeasurePositive | dist/ValueMeasure.js:412-427 | for a positive exponent, `formatUnitOfMeasure` and the reducer render a plain term alike |
| Formatting.UnitOfMeasureNegative | src/MeasureFormat.js:58-73 | for a negative exponent, `formatUnitOfMeasure` keeps the `'-'` glyph (`⁻` by default) and the reducer drops it |
| Formatting.FormatIgnoresMerging | dist/ValueMeasure.js:401-411 | formatting an already reduced unit gives the same text |
| Formatting.FormatOfNormalForm | dist/ValueMeasure.js:401-411 | with antisymmetric collators, formatting the reduced and sorted unit gives the same text |
| Formatting.SortKeepsNamesDistinct | dist/ValueMeasure.js:408 | sorting a reduced list keeps its names distinct and the same |
| FormatterObjects.MeasureFormat.constructor | dist/ValueMeasure.js:376-391 | the formatter holds the merged options and a collator with the options' collators |
| FormatterObjects.MeasureFormat.SortedCopy | dist/ValueMeasure.js:408 | the reducer's fresh result array is sorted in place into the stable sort of its terms |
| FormatterObjects.MeasureFormat.FormatMeasureUnit | dist/ValueMeasure.js:401-411 | for distinct term objects, the text is that of the unit as it was. The caller's array keeps its order, and a term the merge drops keeps its exponent |
| FormatterObjects.MeasureFormat.FormatMeasure | dist/ValueMeasure.js:392-400 | for distinct term objects, `number(value) + valueUnitDelimiter` followed by the text of the unit as it was; a term the merge drops keeps its exponent |
| Examples.StepPlain | dist/ValueMeasure.js:449-472 | a term with exponent ±1 appends its operator (when the accumulator is nonempty) and its bare name |
| Examples.StepGrouped | dist/ValueMeasure.js:439-472 | a nested term with exponent 1 renders as its group, the product operator and its name |
| Examples.CaptionOf | dist/ValueMeasure.js:392-400 | a constructed measure's caption is the number, the delimiter and the unit's text |
| Examples.NormalOfSorted | dist/ValueMeasure.js:405-408 | a unit whose names are distinct and already sorted is its own normal form |
| Examples.DefaultOperators | dist/ValueMeasure.js:498-506 | the default operators are `⋅`, `/`, `(`, `)`, `-` and a space |
| Examples.TorqueConstructed | dist/ValueMeasure.js:147-162 | the torque input constructs to kilogram, meter², second⁻² with value 500, in order |
| Examples.TorqueOptions | dist/ValueMeasure.js:163 | `{exponent: {'^': '^'}}` merges to a `'^'` separator over the default glyphs and operators |
| Examples.TorqueText | dist/ValueMeasure.js:430-475 | the torque terms fold to `kilogram⋅meter^²/second^²` |
| Examples.TorqueFormatted | dist/ValueMeasure.js:401-411 | the torque unit formats as `kilogram⋅meter^²/second^²` when the name collator orders the three names alphabetically |
| Examples.TorqueCaption | dist/ValueMeasure.js:146-164 | the torque example renders `500 kilogram⋅meter^²/second^²` |
| Examples.BagConstructed | dist/ValueMeasure.js:131-143 | the bag input constructs to one term, bag, scaled by 80000 kernel, with value 5 |
| Examples.BagOptions | dist/ValueMeasure.js:144 | `{operator: {productOperator: ' '}}` merges to the defaults with a space as product operator |
| Examples.KernelGroup | dist/ValueMeasure.js:441-447 | the nested kernel measure renders as `(80,000-kernel)` |
| Examples.BagFormatted | dist/ValueMeasure.js:401-411 | the bag unit formats as `(80,000-kernel) bag` |
| Examples.BagCaption | dist/ValueMeasure.js:130-145 | the bag example renders `5 (80,000-kernel) bag` |
| Examples.FantasiaConstructed | dist/ValueMeasure.js:166-184 | the fantasia input constructs to bucket scaled by 2 gallon, then second⁻¹, with value 2000 |
| Examples.DefaultOptions | dist/ValueMeasure.js:185 | options without `exponent` or `operator` merge to the two default tables |
| Examples.GallonGroup | dist/ValueMeasure.js:441-447 | the nested gallon measure renders as `(2-gallon)` |
| Examples.FantasiaText | dist/ValueMeasure.js:430-475 | the fantasia terms fold to `(2-gallon)⋅bucket/second` |
| Examples.FantasiaFormatted | dist/ValueMeasure.js:401-411 | the fantasia unit formats as `(2-gallon)⋅bucket/second` |
| Examples.FantasiaCaption | dist/ValueMeasure.js:165-186 | the fantasia example renders `2000 (2-gallon)⋅bucket/second` |
| Examples.StringUnit | test/Measure.test.js:5-10 | a string unit constructs to a term named `gallon` |
| Examples.ObjectUnit | test/Measure.test.js:15-29 | an object unit keeps its name `bucket`, and its nested measure's unit is named `gallon` |
| Examples.ArrayUnit | test/Measure.test.js:34-56 | an array unit keeps its elements in order: bucket (scaled by gallon), then second |

## Left out

- `Intl.Collator` and `Intl.NumberFormat`: these are foreign code and appear as function parameters. The locale and option resolution that builds them (dist/ValueMeasure.js:14-18, 381-388) is not modelled.
  - The results about comparison and sorting assume only what each `requires` states: reflexive or antisymmetric collators.
  - The documented examples assume the specific collator and number-format answers each lemma names, such as `number(80000) == "80,000"`.
- Floating point: a value is a real, plus `NaN` and the infinities. Only "falsy becomes 0", "non-number throws" and the exact value kept are modelled.
- Construction.NewTerm: a truthy primitive nested `measure` (say `measure: 5`) is rejected with an error. The source would keep the primitive as the term's measure, which nothing downstream can use.
- Construction.NewTerm: a name is a string or absent. A non-string truthy `name` is not modelled.
- JSON key order, `JSON.stringify` itself and the dead `hasOwnProperty('toJSON')` branches of `Measure.toJSON`. `toJSON` lives on the prototype, so those branches never run; the model gives what serialisation yields.
- Nested measures inside a term are held as values, and `name` and `measure` are constant fields of a term object: outside the constructor the modelled code writes only `exp`. The nested measure's own term objects are not modelled as objects, so the in-place updates below that reach into them, and aliasing between nested measures, are not captured.
- Collation.MeasureUnitCollator.Compare: the recursive `this.compare(leftUnit.measure.unit, rightUnit.measure.unit)` (dist/ValueMeasure.js:47) sorts the nested unit arrays in place. The model states the comparison's result on values and the in-place sort only of the two top-level arrays.
- Collation.MeasureUnitCollator.UnitAt: the same recursive call sorts both terms' nested unit arrays in place. UnitAt states the position's comparison only; the nested arrays' new order is not modelled.
- FormatterObjects.MeasureFormat.FormatMeasureUnit: for a term with a nested measure, `toStringReducer` calls `formatMeasureUnit(each.measure.unit)` (dist/ValueMeasure.js:445), which runs the reducer over the nested unit's own term objects and writes merged exponents into them. The model renders the nested unit from its value and does not capture that write.
- Exponents are mathematical integers. The source holds them in JavaScript doubles: `+=` in `unitReducer` rounds once a sum passes 2^53, and `exp.toString()` writes exponential notation (`1e+21`) once the magnitude reaches 10^21, which the digit-to-glyph table would then render differently. Neither is modelled.
- UnitObjects.ReduceUnits: which objects are kept, and that dropped objects keep their exponents, is stated for every input. The kept objects' new exponents are stated only when the input holds no object twice; an object listed twice would receive its own exponent again.
- UnitObjects.ProductOfUnits, UnitObjects.ProductReduced, UnitObjects.QuotientOfUnits, UnitObjects.QuotientOfUnitsBySelf, UnitObjects.DivideBy: the same restriction on the exponents applies to the objects of both sides.
- FormatterObjects.MeasureFormat.FormatMeasureUnit, FormatterObjects.MeasureFormat.FormatMeasure: state the text only for distinct term objects. An object listed more than once has its exponent added into itself once per extra occurrence, so `[a, a, a]` with exponent 1 renders exponent 4, not the value-level 3; that text is not stated. They state that dropped terms keep their exponents but not the merged exponents written into the kept terms; UnitObjects.ReduceUnits states those.
- Collation.MeasureUnitCollator.Compare: when both arguments are the same array and the collators are not antisymmetric, the result and the final order are not stated.
- Collation.CanAddOrSubtractUnits: the same restriction; when both arguments are the same array and the collators are not antisymmetric, neither the answer nor the array's final order is stated.
- `Array.prototype.sort` is modelled as a stable insertion sort, which ECMAScript 2019 and later require sort to match for a consistent comparator. The engine's own algorithm is not modelled.
- Module wiring (`module.exports`, the commented-out `require`s, the unresolved `MeasureCollator` and `MeasureUnitCollator` names in `src/`) and the `Symbol.toStringTag` getters.
- The `MeasureUnitCollator` constructor's `locales` option: it only selects the `Intl.Collator`s, which are parameters here.

## Findings

| source | as written | input that shows it | evidently intended | confidence | as-written member | corrected member |
|---|---|---|---|---|---|---|
| src/Measure.js:109-115 | `divideBy` calls `rightMeasureUnitList.map`, which a single term lacks, and then an unqualified `multiplyBy` that no binding provides, so every call throws | `divideBy(a, b)` for any term `b` (TypeError), or for any array `b` (ReferenceError, after `b`'s exponents were negated in place) | `[].concat(r).map(inverseMapper)` followed by `Measure.multiplyBy` and the reducer: per name, left minus right exponent | high, from reading; not executed | UnitObjects.DivideByAsWritten | UnitObjects.DivideBy |

## Notes on the source

- The code sorts names ascending, then exponents ascending; the doc comments on the sorters say "power descending". The model follows the code.
- The model proves all three captions given in the doc comments of `dist/ValueMeasure.js`: torque (Examples.TorqueCaption), bag (Examples.BagCaption) and fantasia (Examples.FantasiaCaption).
- The comparator's final tie-break on nested values is dead (Collation.CompareIgnoresNestedValues): it reads `value` from terms, which have none, and its result is never copied into `comparison`.
- `formatMeasureUnit` merges repeated names by writing into the caller's term objects; only the reducer's fresh result array is sorted.
