/**
 * MeasureUnitCollator: the per-term sort order (`unitSorterFactory`) and the
 * comparison of two unit expressions (`compare`), on values. The class
 * MeasureUnitCollator at the end runs `compare` as the source does, sorting
 * the caller's arrays in place, and is proved to agree with CompareUnits.
 */
module Collation {
  import opened Values
  import opened UnitObjects

  /**
   * The two `Intl.Collator`s of a collator: `nameCollator` (base sensitivity)
   * and `exponentCollator` (numeric collation of the exponents' strings).
   * They are foreign, so they are parameters; nothing is assumed about them
   * beyond what a lemma states in its requires.
   */
  datatype Collators = Collators(name: (string, string) -> int, exponent: (int, int) -> int)

  /** Every value compares equal to itself. */
  ghost predicate Reflexive(c: Collators) {
    (forall s :: c.name(s, s) == 0) && (forall e :: c.exponent(e, e) == 0)
  }

  /** Swapping the arguments flips the sign of the answer (as for any consistent comparator). */
  ghost predicate Antisymmetric(c: Collators) {
    (forall a, b :: Clamp(c.name(a, b)) == -Clamp(c.name(b, a))) &&
    (forall a, b :: Clamp(c.exponent(a, b)) == -Clamp(c.exponent(b, a)))
  }

  lemma AntisymmetricIsReflexive(c: Collators)
    requires Antisymmetric(c)
    ensures Reflexive(c)
  {
    forall s ensures c.name(s, s) == 0 {
      assert Clamp(c.name(s, s)) == -Clamp(c.name(s, s));
    }
    forall e ensures c.exponent(e, e) == 0 {
      assert Clamp(c.exponent(e, e)) == -Clamp(c.exponent(e, e));
    }
  }

  /** `unitSorter(a, b)`: the name order, and on a tie the exponent order. */
  function UnitOrder(c: Collators, a: Term, b: Term): int {
    var order := c.name(a.name, b.name);
    if order == 0 then c.exponent(a.exp, b.exp) else order
  }

  /**
   * Sorted by `unitSorter`: names ascending, and exponents ascending among
   * equal names.
   */
  ghost predicate Sorted(c: Collators, s: seq<Term>) {
    forall i :: 0 < i < |s| ==> UnitOrder(c, s[i - 1], s[i]) <= 0
  }

  /** One step of a stable insertion sort: `x` goes after every element that does not follow it. */
  function InsertBack(c: Collators, s: seq<Term>, x: Term): (r: seq<Term>)
    ensures multiset(r) == multiset(s) + multiset{x}
  {
    if s == [] || UnitOrder(c, s[|s| - 1], x) <= 0 then s + [x]
    else
      var init, last := s[..|s| - 1], s[|s| - 1];
      assert s == init + [last];
      InsertBack(c, init, x) + [last]
  }

  /**
   * `list.sort(unitSorter)`: a stable sort. For a consistent comparator every
   * stable sort gives this result; insertion sort stands for the engine's.
   */
  function SortTerms(c: Collators, s: seq<Term>): (r: seq<Term>)
    ensures multiset(r) == multiset(s)
    ensures |r| == |s|
  {
    if s == [] then []
    else
      var init, last := s[..|s| - 1], s[|s| - 1];
      assert s == init + [last];
      InsertBack(c, SortTerms(c, init), last)
  }

  lemma {:induction false} InsertBackSorted(c: Collators, s: seq<Term>, x: Term)
    requires Antisymmetric(c) && Sorted(c, s)
    ensures Sorted(c, InsertBack(c, s, x))
    ensures |InsertBack(c, s, x)| == |s| + 1
    ensures s != [] && UnitOrder(c, s[|s| - 1], x) > 0 ==>
      InsertBack(c, s, x)[|s|] == s[|s| - 1]
  {
    if s != [] && UnitOrder(c, s[|s| - 1], x) > 0 {
      var init, last := s[..|s| - 1], s[|s| - 1];
      InsertBackSorted(c, init, x);
      var r := InsertBack(c, init, x);
      // the element before `last` is either `x` (which precedes `last`) or init's last
      var before := r[|r| - 1];
      if init != [] && UnitOrder(c, init[|init| - 1], x) > 0 {
        assert before == init[|init| - 1];
      } else {
        assert before == x;
        UnitOrderFlips(c, last, x);
      }
      assert UnitOrder(c, before, last) <= 0;
    }
  }

  lemma UnitOrderFlips(c: Collators, a: Term, b: Term)
    requires Antisymmetric(c)
    ensures Clamp(UnitOrder(c, a, b)) == -Clamp(UnitOrder(c, b, a))
  {
    assert Clamp(c.name(a.name, b.name)) == -Clamp(c.name(b.name, a.name));
    assert Clamp(c.exponent(a.exp, b.exp)) == -Clamp(c.exponent(b.exp, a.exp));
  }

  /** Sorting leaves names ascending and, among equal names, exponents ascending. */
  lemma {:induction false} SortTermsSorted(c: Collators, s: seq<Term>)
    requires Antisymmetric(c)
    ensures Sorted(c, SortTerms(c, s))
  {
    if s != [] {
      SortTermsSorted(c, s[..|s| - 1]);
      InsertBackSorted(c, SortTerms(c, s[..|s| - 1]), s[|s| - 1]);
    }
  }

  /** A sorted list is left as it is, so sorting twice is sorting once. */
  lemma {:induction false} SortTermsOfSorted(c: Collators, s: seq<Term>)
    requires Sorted(c, s)
    ensures SortTerms(c, s) == s
  {
    if s != [] {
      var init, last := s[..|s| - 1], s[|s| - 1];
      SortedInit(c, s);
      SortTermsOfSorted(c, init);
      assert s == init + [last];
    }
  }

  lemma SortedInit(c: Collators, s: seq<Term>)
    requires Sorted(c, s) && s != []
    ensures Sorted(c, s[..|s| - 1])
    ensures |s| > 1 ==> UnitOrder(c, s[..|s| - 1][|s| - 2], s[|s| - 1]) <= 0
  {
    var init := s[..|s| - 1];
    forall i | 0 < i < |init|
      ensures UnitOrder(c, init[i - 1], init[i]) <= 0
    {
      assert init[i - 1] == s[i - 1] && init[i] == s[i];
    }
  }

  lemma SortTermsIdempotent(c: Collators, s: seq<Term>)
    requires Antisymmetric(c)
    ensures SortTerms(c, SortTerms(c, s)) == SortTerms(c, s)
  {
    SortTermsSorted(c, s);
    SortTermsOfSorted(c, SortTerms(c, s));
  }

  /**
   * `compare(left, right)`: a scalar is a one-element list; lists of
   * different lengths are ordered by length alone; otherwise both are sorted
   * and compared position by position.
   */
  function CompareUnits(c: Collators, l: Unit, r: Unit): int
    decreases UnitDepth(l), 1, 0
  {
    var L, R := AsList(l), AsList(r);
    var comparison := Clamp(|L| - |R|);
    if comparison != 0 then comparison
    else
      var Ls := SortTerms(c, L);
      SortedDepth(c, l);
      ComparePositions(c, Ls, SortTerms(c, R), 0)
  }

  lemma SortedDepth(c: Collators, l: Unit)
    ensures ListDepth(SortTerms(c, AsList(l))) <= UnitDepth(l)
  {
    var Ls := SortTerms(c, AsList(l));
    forall t | t in Ls
      ensures TermDepth(t) <= UnitDepth(l)
    {
      assert t in multiset(Ls);
      TermDepthBound(l, t);
    }
    ListDepthAtMost(Ls, UnitDepth(l));
  }

  /**
   * The loop of `compare` from position `i` on: the first nonzero among name,
   * exponent, presence of a nested measure and the nested units' comparison
   * decides. The tie-break on nested values reads `value` of the terms (which
   * they do not have) and its outcome is never stored, so it is absent here.
   */
  function ComparePositions(c: Collators, L: seq<Term>, R: seq<Term>, i: nat): int
    requires |L| == |R| && i <= |L|
    decreases ListDepth(L), 0, |L| - i
  {
    if i == |L| then 0
    else
      var a, b := L[i], R[i];
      var byName := c.name(a.name, b.name);
      if byName != 0 then byName
      else
        var byExp := c.exponent(a.exp, b.exp);
        if byExp != 0 then byExp
        else if a.measure.None? && b.measure.Some? then -1
        else if a.measure.Some? && b.measure.None? then 1
        else if a.measure.Some? then
          ListDepthBound(L, i);
          var nested := CompareUnits(c, a.measure.value.unit, b.measure.value.unit);
          if nested != 0 then nested else ComparePositions(c, L, R, i + 1)
        else ComparePositions(c, L, R, i + 1)
  }

  /** `Measure.canAddOrSubtract(l, r)`, given the collators of a default-constructed collator. */
  function CanAddOrSubtract(c: Collators, l: Unit, r: Unit): bool {
    CompareUnits(c, l, r) == 0
  }

  /** Lists of different lengths are ordered by length, whatever they hold. */
  lemma CompareByLength(c: Collators, l: Unit, r: Unit)
    requires |AsList(l)| != |AsList(r)|
    ensures CompareUnits(c, l, r) == (if |AsList(l)| < |AsList(r)| then -1 else 1)
    ensures !CanAddOrSubtract(c, l, r)
  {
  }

  lemma {:induction false} PositionsReflexive(c: Collators, S: seq<Term>, i: nat)
    requires Reflexive(c) && i <= |S|
    ensures ComparePositions(c, S, S, i) == 0
    decreases ListDepth(S), 0, |S| - i
  {
    if i < |S| {
      var a := S[i];
      if a.measure.Some? {
        ListDepthBound(S, i);
        CompareReflexive(c, a.measure.value.unit);
      }
      PositionsReflexive(c, S, i + 1);
    }
  }

  /** `compare(X, X) == 0` for collators that are reflexive, so every unit can be added to itself. */
  lemma {:induction false} CompareReflexive(c: Collators, u: Unit)
    requires Reflexive(c)
    ensures CompareUnits(c, u, u) == 0
    ensures CanAddOrSubtract(c, u, u)
    decreases UnitDepth(u), 1, 0
  {
    SortedDepth(c, u);
    PositionsReflexive(c, SortTerms(c, AsList(u)), 0);
  }

  lemma {:induction false} PositionsAntisymmetric(c: Collators, L: seq<Term>, R: seq<Term>, i: nat)
    requires Antisymmetric(c) && |L| == |R| && i <= |L|
    ensures Clamp(ComparePositions(c, L, R, i)) == -Clamp(ComparePositions(c, R, L, i))
    decreases ListDepth(L), 0, |L| - i
  {
    if i < |L| {
      var a, b := L[i], R[i];
      assert Clamp(c.name(a.name, b.name)) == -Clamp(c.name(b.name, a.name));
      assert Clamp(c.exponent(a.exp, b.exp)) == -Clamp(c.exponent(b.exp, a.exp));
      if a.measure.Some? && b.measure.Some? {
        ListDepthBound(L, i);
        CompareAntisymmetric(c, a.measure.value.unit, b.measure.value.unit);
      }
      PositionsAntisymmetric(c, L, R, i + 1);
    }
  }

  /** Swapping the arguments of `compare` flips the sign, so compatibility is symmetric. */
  lemma {:induction false} CompareAntisymmetric(c: Collators, l: Unit, r: Unit)
    requires Antisymmetric(c)
    ensures Clamp(CompareUnits(c, l, r)) == -Clamp(CompareUnits(c, r, l))
    ensures CanAddOrSubtract(c, l, r) == CanAddOrSubtract(c, r, l)
    decreases UnitDepth(l), 1, 0
  {
    if |AsList(l)| == |AsList(r)| {
      SortedDepth(c, l);
      PositionsAntisymmetric(c, SortTerms(c, AsList(l)), SortTerms(c, AsList(r)), 0);
    }
  }

  // The nested values do not take part in the comparison: erasing them
  // (setting every nested measure's value to 0) changes no answer.

  function EraseTerm(t: Term): (r: Term)
    decreases t, 1
    ensures r.name == t.name && r.exp == t.exp && r.measure.Some? == t.measure.Some?
  {
    match t.measure
    case None => t
    case Some(m) => t.(measure := Some(Measure(Finite(0.0), EraseUnit(m.unit))))
  }

  function EraseUnit(u: Unit): Unit
    decreases u, 1
  {
    match u
    case Single(t) => Single(EraseTerm(t))
    case Multiple(ts) => Multiple(EraseList(ts))
  }

  function EraseList(ts: seq<Term>): (r: seq<Term>)
    decreases ts, 0
    ensures |r| == |ts|
    ensures forall k :: 0 <= k < |ts| ==> r[k] == EraseTerm(ts[k])
  {
    seq(|ts|, k requires 0 <= k < |ts| => EraseTerm(ts[k]))
  }

  lemma EraseListAppend(a: seq<Term>, b: seq<Term>)
    ensures EraseList(a + b) == EraseList(a) + EraseList(b)
  {
  }

  lemma {:induction false} InsertBackErased(c: Collators, s: seq<Term>, x: Term)
    ensures InsertBack(c, EraseList(s), EraseTerm(x)) == EraseList(InsertBack(c, s, x))
  {
    if s != [] && UnitOrder(c, s[|s| - 1], x) > 0 {
      InsertBackErased(c, s[..|s| - 1], x);
      InsertBackErasedShift(c, s, x);
    } else {
      InsertBackErasedEnd(c, s, x);
    }
  }

  /** InsertBackErased when `x` goes last. */
  lemma InsertBackErasedEnd(c: Collators, s: seq<Term>, x: Term)
    requires s == [] || UnitOrder(c, s[|s| - 1], x) <= 0
    ensures InsertBack(c, EraseList(s), EraseTerm(x)) == EraseList(InsertBack(c, s, x))
  {
    EraseListAppend(s, [x]);
    assert EraseList([x]) == [EraseTerm(x)];
  }

  /** InsertBackErased when `x` goes before the last element: both sides move that element past it. */
  lemma InsertBackErasedShift(c: Collators, s: seq<Term>, x: Term)
    requires s != [] && UnitOrder(c, s[|s| - 1], x) > 0
    ensures InsertBack(c, EraseList(s), EraseTerm(x)) ==
      InsertBack(c, EraseList(s[..|s| - 1]), EraseTerm(x)) + [EraseTerm(s[|s| - 1])]
    ensures EraseList(InsertBack(c, s, x)) ==
      EraseList(InsertBack(c, s[..|s| - 1], x)) + [EraseTerm(s[|s| - 1])]
  {
    var init, last := s[..|s| - 1], s[|s| - 1];
    var es := EraseList(s);
    assert es[..|es| - 1] == EraseList(init);
    EraseListAppend(InsertBack(c, init, x), [last]);
    assert EraseList([last]) == [EraseTerm(last)];
  }

  lemma {:induction false} SortErased(c: Collators, s: seq<Term>)
    ensures SortTerms(c, EraseList(s)) == EraseList(SortTerms(c, s))
  {
    if s != [] {
      var init := s[..|s| - 1];
      assert EraseList(s)[..|s| - 1] == EraseList(init);
      SortErased(c, init);
      InsertBackErased(c, SortTerms(c, init), s[|s| - 1]);
    }
  }

  lemma {:induction false} PositionsErased(c: Collators, L: seq<Term>, R: seq<Term>, i: nat)
    requires |L| == |R| && i <= |L|
    ensures ComparePositions(c, EraseList(L), EraseList(R), i) == ComparePositions(c, L, R, i)
    decreases ListDepth(L), 0, |L| - i
  {
    if i < |L| {
      var a, b := L[i], R[i];
      var ea, eb := EraseList(L)[i], EraseList(R)[i];
      assert ea == EraseTerm(a) && eb == EraseTerm(b);
      if a.measure.Some? && b.measure.Some? {
        ListDepthBound(L, i);
        CompareIgnoresNestedValues(c, a.measure.value.unit, b.measure.value.unit);
        assert ea.measure.value.unit == EraseUnit(a.measure.value.unit);
        assert eb.measure.value.unit == EraseUnit(b.measure.value.unit);
      }
      PositionsErased(c, L, R, i + 1);
    }
  }

  /** Nested measure values never affect `compare`: "2-gallon bucket" and "5-gallon bucket" compare equal. */
  lemma {:induction false} CompareIgnoresNestedValues(c: Collators, l: Unit, r: Unit)
    ensures CompareUnits(c, EraseUnit(l), EraseUnit(r)) == CompareUnits(c, l, r)
    decreases UnitDepth(l), 1, 0
  {
    var L, R := AsList(l), AsList(r);
    AsListErased(l);
    AsListErased(r);
    if |L| == |R| {
      var SL, SR := SortTerms(c, L), SortTerms(c, R);
      SortErased(c, L);
      SortErased(c, R);
      SortedDepth(c, l);
      PositionsErased(c, SL, SR, 0);
      assert CompareUnits(c, EraseUnit(l), EraseUnit(r)) ==
        ComparePositions(c, EraseList(SL), EraseList(SR), 0);
    }
  }

  lemma AsListErased(u: Unit)
    ensures AsList(EraseUnit(u)) == EraseList(AsList(u))
  {
  }

  /**
   * `InsertBack` seen from where the insertion stops: `x` lands at `j` when
   * every element from `j` on follows it and the one before `j` does not.
   */
  lemma {:induction false} InsertBackAt(c: Collators, s: seq<Term>, x: Term, j: nat)
    requires j <= |s|
    requires j == 0 || UnitOrder(c, s[j - 1], x) <= 0
    requires forall k :: j <= k < |s| ==> UnitOrder(c, s[k], x) > 0
    ensures InsertBack(c, s, x) == s[..j] + [x] + s[j..]
    decreases |s|
  {
    if j == |s| {
      InsertBackStops(c, s, x);
    } else {
      InsertBackShifts(c, s, x);
      InsertBackAtInit(c, s, x, j);
      InsertBackAt(c, s[..|s| - 1], x, j);
      SplitBeforeLast(s, j);
    }
  }

  lemma InsertBackStops(c: Collators, s: seq<Term>, x: Term)
    requires s == [] || UnitOrder(c, s[|s| - 1], x) <= 0
    ensures InsertBack(c, s, x) == s[..|s|] + [x] + s[|s|..]
  {
    assert s[..|s|] == s && s[|s|..] == [];
  }

  lemma InsertBackShifts(c: Collators, s: seq<Term>, x: Term)
    requires s != [] && UnitOrder(c, s[|s| - 1], x) > 0
    ensures InsertBack(c, s, x) == InsertBack(c, s[..|s| - 1], x) + [s[|s| - 1]]
  {
  }

  lemma SplitBeforeLast(s: seq<Term>, j: nat)
    requires j < |s|
    ensures s[..j] == s[..|s| - 1][..j]
    ensures s[j..] == s[..|s| - 1][j..] + [s[|s| - 1]]
  {
  }

  lemma InsertBackAtInit(c: Collators, s: seq<Term>, x: Term, j: nat)
    requires j < |s|
    requires j == 0 || UnitOrder(c, s[j - 1], x) <= 0
    requires forall k :: j <= k < |s| ==> UnitOrder(c, s[k], x) > 0
    ensures UnitOrder(c, s[|s| - 1], x) > 0
    ensures j == 0 || UnitOrder(c, s[..|s| - 1][j - 1], x) <= 0
    ensures forall k :: j <= k < |s| - 1 ==> UnitOrder(c, s[k], x) > 0
  {
  }

  lemma SortTermsSnoc(c: Collators, X: seq<Term>, i: nat)
    requires i < |X|
    ensures SortTerms(c, X[..i + 1]) == InsertBack(c, SortTerms(c, X[..i]), X[i])
  {
    assert X[..i + 1][..i] == X[..i];
  }

  /**
   * A MeasureUnitCollator instance. `new Intl.Collator(locales, options)` is
   * foreign, so the constructor takes the two collators it would build.
   */
  class MeasureUnitCollator {
    const nameCollator: (string, string) -> int
    const exponentCollator: (int, int) -> int

    constructor (name: (string, string) -> int, exponent: (int, int) -> int)
      ensures Order() == Collators(name, exponent)
    {
      nameCollator, exponentCollator := name, exponent;
    }

    function Order(): Collators {
      Collators(nameCollator, exponentCollator)
    }

    /**
     * One pass of the insertion: the element at `i` moves back, by swaps,
     * past every element of the sorted prefix `a[..i]` that follows it. `V`
     * holds the terms of `a` before, `W` after.
     */
    method InsertAt(a: array<UnitOfMeasure>, i: nat, ghost V: seq<Term>) returns (ghost W: seq<Term>)
      requires i < a.Length && TermsOf(a[..]) == V
      modifies a
      ensures multiset(a[..]) == multiset(old(a[..]))
      ensures TermsOf(a[..]) == W
      ensures W[..i + 1] == InsertBack(Order(), V[..i], V[i]) && W[i + 1..] == V[i + 1..]
    {
      var j;
      j, W := ShiftBack(a, i, V);
      InsertBackAt(Order(), V[..i], V[i], j);
      InsertedPrefix(V, i, j, W);
    }

    /**
     * The swaps of one pass: the element at `i` ends at `j`, after the
     * elements before `j`, which do not follow it, and before those from `j`
     * to `i`, which do.
     */
    method ShiftBack(a: array<UnitOfMeasure>, i: nat, ghost V: seq<Term>) returns (j: nat, ghost W: seq<Term>)
      requires i < a.Length && TermsOf(a[..]) == V
      modifies a
      ensures j <= i
      ensures multiset(a[..]) == multiset(old(a[..]))
      ensures TermsOf(a[..]) == W && W == V[..j] + [V[i]] + V[j..i] + V[i + 1..]
      ensures j == 0 || UnitOrder(Order(), V[j - 1], V[i]) <= 0
      ensures forall k :: j <= k < i ==> UnitOrder(Order(), V[k], V[i]) > 0
    {
      W := V;
      j := i;
      while j > 0 && UnitOrder(Order(), a[j - 1].Value(), a[j].Value()) > 0
        invariant j <= i
        invariant multiset(a[..]) == multiset(old(a[..]))
        invariant TermsOf(a[..]) == W
        invariant W == V[..j] + [V[i]] + V[j..i] + V[i + 1..]
        invariant forall k :: j <= k < i ==> UnitOrder(Order(), V[k], V[i]) > 0
      {
        SwapBack(V, i, j, W);
        FollowsOneMore(Order(), V, i, j);
        W := Swap(a, j, W);
        j := j - 1;
      }
      if j > 0 {
        Shifted(V, i, j, W);
      }
    }

    /** Exchanges `a[j - 1]` and `a[j]`; `V` holds the terms of `a` before, `W` after. */
    method Swap(a: array<UnitOfMeasure>, j: nat, ghost V: seq<Term>) returns (ghost W: seq<Term>)
      requires 0 < j < a.Length && TermsOf(a[..]) == V
      modifies a
      ensures multiset(a[..]) == multiset(old(a[..]))
      ensures W == V[j - 1 := V[j]][j := V[j - 1]] && TermsOf(a[..]) == W
    {
      a[j - 1], a[j] := a[j], a[j - 1];
      W := V[j - 1 := V[j]][j := V[j - 1]];
    }

    /**
     * `list.sort(this.unitSorterFactory())` on an array: the array is
     * rearranged in place (the term objects themselves are untouched) into
     * the stable sorted order SortTerms.
     */
    method SortUnits(a: array<UnitOfMeasure>)
      modifies a
      ensures multiset(a[..]) == multiset(old(a[..]))
      ensures TermsOf(a[..]) == SortTerms(Order(), old(TermsOf(a[..])))
    {
      ghost var X := TermsOf(a[..]);
      ghost var W := X;
      for i := 0 to a.Length
        invariant multiset(a[..]) == multiset(old(a[..]))
        invariant TermsOf(a[..]) == W
        invariant W[..i] == SortTerms(Order(), X[..i]) && W[i..] == X[i..]
      {
        ghost var V := W;
        W := InsertAt(a, i, W);
        SortedPrefixGrows(Order(), X, V, W, i);
      }
      assert W == W[..a.Length] && X == X[..a.Length];
    }

    /**
     * `compare(left, right)`. A single term is wrapped in a new one-element
     * array. Lists of different lengths are ordered by length; otherwise both
     * arrays are sorted in place (the caller's arrays among them) and compared
     * position by position. When both sides are the same array it is sorted
     * twice, which gives the same order only for a consistent comparator.
     */
    method Compare(left: UnitRef, right: UnitRef) returns (comparison: int)
      modifies (if left.Many? then {left.list} else {}), (if right.Many? then {right.list} else {})
      ensures !Aliased(left, right) || Antisymmetric(Order()) ==>
        comparison == CompareUnits(Order(), old(UnitValue(left)), old(UnitValue(right)))
      ensures left.Many? ==> multiset(left.list[..]) == multiset(old(left.list[..]))
      ensures right.Many? ==> multiset(right.list[..]) == multiset(old(right.list[..]))
      ensures |old(Elements(left))| != |old(Elements(right))| ==>
        (left.Many? ==> left.list[..] == old(left.list[..])) && (right.Many? ==> right.list[..] == old(right.list[..]))
      ensures |old(Elements(left))| == |old(Elements(right))| && (!Aliased(left, right) || Antisymmetric(Order())) ==>
        (left.Many? ==> TermsOf(left.list[..]) == SortTerms(Order(), old(TermsOf(left.list[..])))) &&
        (right.Many? ==> TermsOf(right.list[..]) == SortTerms(Order(), old(TermsOf(right.list[..]))))
    {
      ghost var lv, rv := UnitValue(left), UnitValue(right);
      var L := Listed(left);
      ghost var L0 := L[..];
      var R := Listed(right);
      assert L[..] == L0;
      ghost var X, Y := TermsOf(L[..]), TermsOf(R[..]);
      assert X == AsList(lv) && Y == AsList(rv);
      assert L == R ==> Aliased(left, right);
      comparison := CompareLists(L, R, X, Y);
      CompareByLists(Order(), lv, rv);
      assert left.Many? ==> L == left.list;
      assert right.Many? ==> R == right.list;
    }

    /** The body of `compare` once both sides are arrays. */
    method CompareLists(L: array<UnitOfMeasure>, R: array<UnitOfMeasure>, ghost X: seq<Term>, ghost Y: seq<Term>)
      returns (comparison: int)
      requires TermsOf(L[..]) == X && TermsOf(R[..]) == Y
      modifies L, R
      ensures L != R || Antisymmetric(Order()) ==> comparison == CompareUnits(Order(), Multiple(X), Multiple(Y))
      ensures multiset(L[..]) == multiset(old(L[..])) && multiset(R[..]) == multiset(old(R[..]))
      ensures L.Length != R.Length ==> L[..] == old(L[..]) && R[..] == old(R[..])
      ensures L.Length == R.Length && (L != R || Antisymmetric(Order())) ==>
        TermsOf(L[..]) == SortTerms(Order(), X) && TermsOf(R[..]) == SortTerms(Order(), Y)
    {
      comparison := Clamp(L.Length - R.Length);
      if comparison == 0 {
        SortPair(L, R, X, Y);
        ghost var Ls, Rs, L2, R2 := TermsOf(L[..]), TermsOf(R[..]), L[..], R[..];
        comparison := PositionsOf(L, R, Ls, Rs);
        assert L[..] == L2 && TermsOf(L[..]) == Ls;
        assert R[..] == R2 && TermsOf(R[..]) == Rs;
      }
    }

    /** The two `sort` calls of `compare`; `L` and `R` may be the same array. */
    method SortPair(L: array<UnitOfMeasure>, R: array<UnitOfMeasure>, ghost X: seq<Term>, ghost Y: seq<Term>)
      requires TermsOf(L[..]) == X && TermsOf(R[..]) == Y
      modifies L, R
      ensures multiset(L[..]) == multiset(old(L[..])) && multiset(R[..]) == multiset(old(R[..]))
      ensures L != R || Antisymmetric(Order()) ==>
        TermsOf(L[..]) == SortTerms(Order(), X) && TermsOf(R[..]) == SortTerms(Order(), Y)
    {
      ghost var R0 := R[..];
      SortUnits(L);
      ghost var Ls, L1, Y1 := TermsOf(L[..]), L[..], TermsOf(R[..]);
      assert L != R ==> R[..] == R0 && Y1 == Y;
      SortUnits(R);
      assert TermsOf(R[..]) == SortTerms(Order(), Y1);
      if L != R {
        assert L[..] == L1;
        assert TermsOf(L[..]) == Ls;
      } else if Antisymmetric(Order()) {
        SortTermsIdempotent(Order(), X);
      }
    }

    /** The loop of `compare` over the positions of two sorted arrays of equal length. */
    method PositionsOf(L: array<UnitOfMeasure>, R: array<UnitOfMeasure>, ghost Ls: seq<Term>, ghost Rs: seq<Term>)
      returns (comparison: int)
      requires L.Length == R.Length && TermsOf(L[..]) == Ls && TermsOf(R[..]) == Rs
      ensures comparison == ComparePositions(Order(), Ls, Rs, 0)
    {
      comparison := 0;
      var i := 0;
      while i < L.Length
        invariant i <= L.Length
        invariant ComparePositions(Order(), Ls, Rs, i) == ComparePositions(Order(), Ls, Rs, 0)
      {
        var sub := UnitAt(L[i], R[i]);
        PositionStep(Order(), Ls, Rs, i);
        if sub != 0 {
          comparison := sub;
          return;
        }
        i := i + 1;
      }
    }

    /**
     * One position of `compare`'s loop: name, then exponent, then whether
     * only one side has a nested measure, then the nested units. The
     * tie-break that follows reads `value` of the two terms, which they do
     * not have, so it always yields 0.
     */
    method UnitAt(l: UnitOfMeasure, r: UnitOfMeasure) returns (sub: int)
      ensures sub == ComparePositions(Order(), [l.Value()], [r.Value()], 0)
    {
      sub := nameCollator(l.name, r.name);
      if sub == 0 {
        sub := exponentCollator(l.exp, r.exp);
        if sub == 0 {
          if l.measure.None? && r.measure.Some? {
            sub := -1;
          } else if l.measure.Some? && r.measure.None? {
            sub := 1;
          }
          if sub == 0 && l.measure.Some? && r.measure.Some? {
            sub := CompareUnits(Order(), l.measure.value.unit, r.measure.value.unit);
          }
        }
      }
    }
  }

  /** The two sides are one and the same array. */
  predicate Aliased(left: UnitRef, right: UnitRef) {
    left.Many? && right.Many? && left.list == right.list
  }

  /** `Array.isArray(u) ? u : [u]` */
  method Listed(u: UnitRef) returns (a: array<UnitOfMeasure>)
    ensures u.Many? ==> a == u.list
    ensures u.One? ==> fresh(a) && a[..] == [u.term]
    ensures TermsOf(a[..]) == AsList(UnitValue(u))
  {
    if u.Many? {
      a := u.list;
    } else {
      a := new UnitOfMeasure[1](_ => u.term);
      assert a[..] == [u.term];
    }
  }

  /** `compare` looks only at the list of terms, whether or not it was written as an array. */
  lemma CompareByLists(c: Collators, l: Unit, r: Unit)
    ensures CompareUnits(c, l, r) == CompareUnits(c, Multiple(AsList(l)), Multiple(AsList(r)))
  {
  }

  /** One position of ComparePositions decides, or hands over to the next. */
  lemma PositionStep(c: Collators, L: seq<Term>, R: seq<Term>, i: nat)
    requires |L| == |R| && i < |L|
    ensures var s := ComparePositions(c, [L[i]], [R[i]], 0);
      ComparePositions(c, L, R, i) == if s != 0 then s else ComparePositions(c, L, R, i + 1)
  {
  }

  lemma SwapBack(V: seq<Term>, i: nat, j: nat, W: seq<Term>)
    requires 0 < j <= i < |V| && |W| == |V|
    requires W == V[..j] + [V[i]] + V[j..i] + V[i + 1..]
    ensures W[j - 1] == V[j - 1] && W[j] == V[i]
    ensures W[j - 1 := W[j]][j := W[j - 1]] == V[..j - 1] + [V[i]] + V[j - 1..i] + V[i + 1..]
  {
    Shifted(V, i, j, W);
  }

  lemma FollowsOneMore(c: Collators, V: seq<Term>, i: nat, j: nat)
    requires 0 < j <= i < |V|
    requires UnitOrder(c, V[j - 1], V[i]) > 0
    requires forall k :: j <= k < i ==> UnitOrder(c, V[k], V[i]) > 0
    ensures forall k :: j - 1 <= k < i ==> UnitOrder(c, V[k], V[i]) > 0
  {
  }

  lemma Shifted(V: seq<Term>, i: nat, j: nat, W: seq<Term>)
    requires 0 < j <= i < |V| && |W| == |V|
    requires W == V[..j] + [V[i]] + V[j..i] + V[i + 1..]
    ensures W[j - 1] == V[j - 1] && W[j] == V[i]
  {
  }

  lemma InsertedPrefix(V: seq<Term>, i: nat, j: nat, W: seq<Term>)
    requires j <= i < |V|
    requires W == V[..j] + [V[i]] + V[j..i] + V[i + 1..]
    ensures W[..i + 1] == V[..i][..j] + [V[i]] + V[..i][j..]
    ensures W[i + 1..] == V[i + 1..]
  {
  }

  lemma SortedPrefixGrows(c: Collators, X: seq<Term>, V: seq<Term>, W: seq<Term>, i: nat)
    requires i < |X| == |V| == |W|
    requires V[..i] == SortTerms(c, X[..i]) && V[i..] == X[i..]
    requires W[..i + 1] == InsertBack(c, V[..i], V[i]) && W[i + 1..] == V[i + 1..]
    ensures W[..i + 1] == SortTerms(c, X[..i + 1]) && W[i + 1..] == X[i + 1..]
  {
    assert V[i] == X[i];
    SortTermsSnoc(c, X, i);
  }

  /**
   * `Measure.canAddOrSubtract(left, right)`: a new collator's `compare` gives
   * 0. Like `compare`, it sorts the caller's arrays in place when the lengths
   * agree and leaves them as they were otherwise.
   */
  method CanAddOrSubtractUnits(c: Collators, left: UnitRef, right: UnitRef) returns (b: bool)
    modifies (if left.Many? then {left.list} else {}), (if right.Many? then {right.list} else {})
    ensures !Aliased(left, right) || Antisymmetric(c) ==>
      b == CanAddOrSubtract(c, old(UnitValue(left)), old(UnitValue(right)))
    ensures left.Many? ==> multiset(left.list[..]) == multiset(old(left.list[..]))
    ensures right.Many? ==> multiset(right.list[..]) == multiset(old(right.list[..]))
    ensures |old(Elements(left))| != |old(Elements(right))| ==>
      (left.Many? ==> left.list[..] == old(left.list[..])) && (right.Many? ==> right.list[..] == old(right.list[..]))
    ensures |old(Elements(left))| == |old(Elements(right))| && (!Aliased(left, right) || Antisymmetric(c)) ==>
      (left.Many? ==> TermsOf(left.list[..]) == SortTerms(c, old(TermsOf(left.list[..])))) &&
      (right.Many? ==> TermsOf(right.list[..]) == SortTerms(c, old(TermsOf(right.list[..]))))
  {
    ghost var lv, rv, L, R := UnitValue(left), UnitValue(right), Elements(left), Elements(right);
    var collator := new MeasureUnitCollator(c.name, c.exponent);
    assert Elements(left) == L && Elements(right) == R;
    assert UnitValue(left) == lv && UnitValue(right) == rv;
    var comparison := collator.Compare(left, right);
    b := comparison == 0;
  }
}
