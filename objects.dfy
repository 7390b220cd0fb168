/**
 * The unit algebra of Measure over term OBJECTS, as the source runs it:
 * `unitReducer` adds exponents into the terms it keeps, in place, and the
 * src copy's `inverseMapper` negates the caller's terms in place. Each method
 * is proved to compute the value-level function of module UnitAlgebra.
 */
module UnitObjects {
  import opened Values
  import opened UnitAlgebra

  /**
   * A `Measure.UnitOfMeasure` instance. Outside its constructor the modelled
   * code writes only `exp`, so `name` and `measure` are constant fields. The
   * nested measure is held as a value, although the recursive `compare` and
   * `formatMeasureUnit` do sort and merge the nested unit's own term objects
   * in place; that nested mutation is not part of this model.
   */
  class UnitOfMeasure {
    const name: string
    var exp: int
    const measure: Option<Measure>

    /** The object holding `t`; `new Measure.UnitOfMeasure(x)` is Construction.NewTerm(x) stored here. */
    constructor (t: Term)
      ensures Value() == t
    {
      name, measure := t.name, t.measure;
      exp := t.exp;
    }

    function Value(): Term
      reads this
    {
      Term(name, exp, measure)
    }
  }

  /** The terms the objects hold right now. */
  function TermsOf(s: seq<UnitOfMeasure>): (ts: seq<Term>)
    reads s
    ensures |ts| == |s|
    ensures forall k :: 0 <= k < |s| ==> ts[k] == s[k].Value()
  {
    seq(|s|, k requires 0 <= k < |s| reads s => s[k].Value())
  }

  /** No object occurs twice. */
  predicate Distinct(s: seq<UnitOfMeasure>) {
    forall i, j :: 0 <= i < j < |s| ==> s[i] != s[j]
  }

  lemma NamesDistinctObjects(s: seq<UnitOfMeasure>)
    requires NamesDistinct(TermsOf(s))
    ensures Distinct(s)
  {
    forall i, j | 0 <= i < j < |s|
      ensures s[i] != s[j]
    {
      assert TermsOf(s)[i].name != TermsOf(s)[j].name;
    }
  }

  /** The `unit` of a Measure instance: one term object, or an array of them. */
  datatype UnitRef = One(term: UnitOfMeasure) | Many(list: array<UnitOfMeasure>)

  function Elements(u: UnitRef): (s: seq<UnitOfMeasure>)
    reads if u.Many? then {u.list} else {}
  {
    match u
    case One(t) => [t]
    case Many(a) => a[..]
  }

  /** The unit expression `u` holds right now. */
  function UnitValue(u: UnitRef): (v: Unit)
    reads if u.Many? then {u.list} else {}, set t | t in Elements(u)
    ensures AsList(v) == TermsOf(Elements(u))
  {
    match u
    case One(t) => Single(t.Value())
    case Many(a) => Multiple(TermsOf(a[..]))
  }

  /**
   * `Measure.unitReducer(result, each)`: `each` is pushed when no term of
   * `result` has its name; otherwise its exponent is added, in place, into the
   * (last) term of that name, and `each` is dropped. `result` is always an
   * accumulator this reducer built, so its names are distinct.
   */
  method UnitReducer(result: seq<UnitOfMeasure>, each: UnitOfMeasure) returns (r: seq<UnitOfMeasure>)
    requires NamesDistinct(TermsOf(result))
    modifies set u | u in result
    ensures TermsOf(r) == ReduceStep(old(TermsOf(result)), old(each.Value()))
    ensures NamesDistinct(TermsOf(r))
    ensures Names(TermsOf(r)) == if each.name in old(Names(TermsOf(result))) then old(Names(TermsOf(result)))
                                  else old(Names(TermsOf(result))) + [each.name]
    ensures each.name in old(Names(TermsOf(result))) ==> r == result
    ensures each.name !in old(Names(TermsOf(result))) ==> r == result + [each]
  {
    var index := LastIndexOfName(TermsOf(result), each.name);
    if index < 0 {
      r := result + [each];
    } else {
      result[index].exp := result[index].exp + each.exp;
      r := result;
      assert TermsOf(r) == ReduceStep(old(TermsOf(result)), old(each.Value()));
    }
    ReduceStepNames(old(TermsOf(result)), old(each.Value()));
  }

  lemma ReduceStepNames(acc: seq<Term>, each: Term)
    requires NamesDistinct(acc)
    ensures NamesDistinct(ReduceStep(acc, each))
    ensures Names(ReduceStep(acc, each)) == if each.name in Names(acc) then Names(acc) else Names(acc) + [each.name]
  {
  }


  lemma ReduceStepDedup(acc: seq<Term>, each: Term, N: seq<string>, i: nat)
    requires i < |N| && each.name == N[i]
    requires NamesDistinct(acc) && Names(acc) == Dedup(N[..i])
    ensures NamesDistinct(ReduceStep(acc, each)) && Names(ReduceStep(acc, each)) == Dedup(N[..i + 1])
  {
    ReduceStepNames(acc, each);
    DedupSnoc(N[..i], N[i]);
    assert N[..i + 1] == N[..i] + [N[i]];
  }

  lemma ReducePrefixStep(X: seq<Term>, i: nat)
    requires i < |X|
    ensures Reduce(X[..i + 1]) == ReduceStep(Reduce(X[..i]), X[i])
  {
    assert X[..i + 1][..i] == X[..i];
  }

  lemma ReduceStepInvariant(acc: seq<Term>, each: Term, N: seq<string>, X: seq<Term>, i: nat, d: bool)
    requires i < |N| && each.name == N[i] && i < |X|
    requires NamesDistinct(acc) && Names(acc) == Dedup(N[..i])
    requires d ==> acc == Reduce(X[..i]) && each == X[i]
    ensures NamesDistinct(ReduceStep(acc, each)) && Names(ReduceStep(acc, each)) == Dedup(N[..i + 1])
    ensures d ==> ReduceStep(acc, each) == Reduce(X[..i + 1])
  {
    ReduceStepDedup(acc, each, N, i);
    if d {
      ReducePrefixStep(X, i);
    }
  }

  /**
   * The objects `unitReducer` keeps from `ts`, whose names are `N`: for each
   * name, once and in order of first occurrence, the object it first occurs at.
   */
  function FirstOfEachName(ts: seq<UnitOfMeasure>, N: seq<string>): seq<UnitOfMeasure>
    requires |ts| == |N|
  {
    var d := Dedup(N);
    seq(|d|, k requires 0 <= k < |d| => ts[FirstIndex(N, d[k])])
  }

  /** The objects the reducer keeps, one step at a time: an object is kept when its name is new. */
  function Kept(ts: seq<UnitOfMeasure>, N: seq<string>): seq<UnitOfMeasure>
    requires |ts| == |N|
  {
    if ts == [] then []
    else
      var i := |ts| - 1;
      var r := Kept(ts[..i], N[..i]);
      if N[i] in N[..i] then r else r + [ts[i]]
  }

  /** Step by step, the reducer keeps the first object of each name. */
  lemma {:induction false} KeptIsFirstOfEachName(ts: seq<UnitOfMeasure>, N: seq<string>)
    requires |ts| == |N|
    ensures Kept(ts, N) == FirstOfEachName(ts, N)
  {
    if ts != [] {
      var i := |ts| - 1;
      KeptIsFirstOfEachName(ts[..i], N[..i]);
      KeptStep(ts, N, i, Kept(ts[..i], N[..i]), Kept(ts, N));
      assert ts[..i + 1] == ts && N[..i + 1] == N;
    }
  }

  /** `FirstIndex` is the one position holding the name with no earlier occurrence. */
  lemma FirstIndexUnique(ns: seq<string>, n: string, k: nat)
    requires k < |ns| && ns[k] == n && n !in ns[..k]
    ensures FirstIndex(ns, n) == k
  {
  }

  /** A name of the left part of a list first occurs where it first occurs in that part. */
  lemma FirstIndexAppend(a: seq<string>, b: seq<string>, n: string)
    requires n in a
    ensures FirstIndex(a + b, n) == FirstIndex(a, n)
  {
    var k := FirstIndex(a, n);
    assert (a + b)[..k] == a[..k];
    FirstIndexUnique(a + b, n, k);
  }

  /** A name absent from the left part first occurs in the right part. */
  lemma FirstIndexPastPrefix(a: seq<string>, b: seq<string>, n: string)
    requires n !in a && n in b
    ensures FirstIndex(a + b, n) >= |a|
  {
  }

  /** One reducer step keeps the new object exactly when its name is new. */
  lemma KeptStep(ts: seq<UnitOfMeasure>, N: seq<string>, i: nat, r: seq<UnitOfMeasure>, r': seq<UnitOfMeasure>)
    requires i < |ts| == |N| && r == FirstOfEachName(ts[..i], N[..i])
    requires N[i] in N[..i] ==> r' == r
    requires N[i] !in N[..i] ==> r' == r + [ts[i]]
    ensures r' == FirstOfEachName(ts[..i + 1], N[..i + 1])
  {
    var T, M := ts[..i + 1], N[..i + 1];
    assert M == N[..i] + [N[i]];
    DedupSnoc(N[..i], N[i]);
    var D := Dedup(N[..i]);
    var F := FirstOfEachName(T, M);
    forall k | 0 <= k < |D|
      ensures F[k] == r[k]
    {
      FirstIndexAppend(N[..i], [N[i]], D[k]);
      assert T[FirstIndex(N[..i], D[k])] == ts[..i][FirstIndex(N[..i], D[k])];
    }
    if N[i] !in N[..i] {
      FirstIndexUnique(M, N[i], i);
      assert F[|D|] == ts[i];
    }
  }

  lemma {:induction false} DedupOfDistinct(ns: seq<string>)
    requires forall i, j :: 0 <= i < j < |ns| ==> ns[i] != ns[j]
    ensures Dedup(ns) == ns
  {
    if ns != [] {
      var init := ns[..|ns| - 1];
      assert ns == init + [ns[|ns| - 1]];
      DedupOfDistinct(init);
    }
  }

  /** A list whose names are distinct keeps every object. */
  lemma FirstOfDistinctNames(ts: seq<UnitOfMeasure>, N: seq<string>)
    requires |ts| == |N| && forall i, j :: 0 <= i < j < |N| ==> N[i] != N[j]
    ensures FirstOfEachName(ts, N) == ts
  {
    DedupOfDistinct(N);
    forall k | 0 <= k < |N|
      ensures FirstIndex(N, N[k]) == k
    {
      FirstIndexUnique(N, N[k], k);
    }
  }

  lemma KeptSnoc(ts: seq<UnitOfMeasure>, N: seq<string>, i: nat)
    requires i < |ts| == |N|
    ensures Kept(ts[..i + 1], N[..i + 1]) ==
      if N[i] in N[..i] then Kept(ts[..i], N[..i]) else Kept(ts[..i], N[..i]) + [ts[i]]
  {
    assert ts[..i + 1][..i] == ts[..i] && N[..i + 1][..i] == N[..i];
  }

  /** What the whole reduction keeps: the first object of each name, or every object when the names are distinct. */
  lemma KeptWhole(ts: seq<UnitOfMeasure>, X: seq<Term>)
    requires |ts| == |X|
    ensures Kept(ts[..|ts|], Names(X)[..|ts|]) == FirstOfEachName(ts, Names(X))
    ensures NamesDistinct(X) ==> FirstOfEachName(ts, Names(X)) == ts
  {
    assert ts[..|ts|] == ts && Names(X)[..|ts|] == Names(X);
    KeptIsFirstOfEachName(ts, Names(X));
    if NamesDistinct(X) {
      FirstOfDistinctNames(ts, Names(X));
    }
  }

  lemma LaterNotKept(ts: seq<UnitOfMeasure>, i: nat, r: seq<UnitOfMeasure>)
    requires Distinct(ts) && i < |ts|
    requires forall j :: i <= j < |ts| ==> ts[j] !in r
    ensures forall j :: i + 1 <= j < |ts| ==> ts[j] !in r + [ts[i]]
  {
  }

  /**
   * What `list.reduce(Measure.unitReducer, [])` has built after the first `i`
   * objects of `ts` (whose names are `N` and first terms `X`): the reducer's
   * accumulator `r` holds `acc`, the kept objects of `ts[..i]`.
   */
  ghost predicate ReducedUpTo(ts: seq<UnitOfMeasure>, i: nat, r: seq<UnitOfMeasure>, acc: seq<Term>,
                              N: seq<string>, X: seq<Term>, d: bool)
    reads r
  {
    && i <= |ts| == |N| == |X| && N == Names(X) && d == Distinct(ts)
    && (forall u :: u in r ==> u in ts)
    && TermsOf(r) == acc
    && NamesDistinct(acc) && Names(acc) == Dedup(N[..i])
    && (d ==> forall j :: i <= j < |ts| ==> ts[j] !in r)
    && (d ==> acc == Reduce(X[..i]))
    && r == Kept(ts[..i], N[..i])
  }

  /** What the whole reduction has built, read off ReducedUpTo at the end of the list. */
  lemma ReducedAll(ts: seq<UnitOfMeasure>, r: seq<UnitOfMeasure>, acc: seq<Term>, N: seq<string>, X: seq<Term>, d: bool)
    requires ReducedUpTo(ts, |ts|, r, acc, N, X, d)
    ensures TermsOf(r) == acc && NamesDistinct(acc) && Names(acc) == Dedup(N)
    ensures forall u :: u in r ==> u in ts
    ensures d ==> acc == Reduce(X)
    ensures r == FirstOfEachName(ts, N)
    ensures NamesDistinct(X) ==> r == ts
  {
    assert N[..|ts|] == N && X[..|ts|] == X;
    KeptWhole(ts, X);
  }

  /** One step of `list.reduce(Measure.unitReducer, [])`: the reducer applied to `ts[i]`. */
  method ReduceUnitsStep(ts: seq<UnitOfMeasure>, i: nat, r: seq<UnitOfMeasure>, ghost acc: seq<Term>,
                         ghost N: seq<string>, ghost X: seq<Term>, ghost d: bool)
    returns (r': seq<UnitOfMeasure>, ghost acc': seq<Term>)
    requires ReducedUpTo(ts, i, r, acc, N, X, d) && i < |ts|
    requires ts[i].name == N[i] && (d ==> ts[i].Value() == X[i])
    modifies set u | u in r
    ensures r' == r || r' == r + [ts[i]]
    ensures ReducedUpTo(ts, i + 1, r', acc', N, X, d)
  {
    ghost var each := ts[i].Value();
    if d {
      LaterNotKept(ts, i, r);
    }
    ReduceStepInvariant(acc, each, N, X, i, d);
    ghost var isNew := N[i] !in N[..i];
    assert isNew <==> each.name !in Names(TermsOf(r));
    KeptSnoc(ts, N, i);
    r' := UnitReducer(r, ts[i]);
    acc' := ReduceStep(acc, each);
  }

  /**
   * `list.reduce(Measure.unitReducer, [])`. The result is the input's first
   * object of each name, in order of first occurrence; only those objects
   * change, and only in their exponents. A list whose names are already
   * distinct comes back as it is. When no object occurs twice in the input,
   * the kept objects hold exactly UnitAlgebra.Reduce of the input's terms:
   * the merged exponents are written into them.
   */
  method ReduceUnits(ts: seq<UnitOfMeasure>) returns (r: seq<UnitOfMeasure>)
    modifies set u | u in ts
    ensures NamesDistinct(TermsOf(r))
    ensures Names(TermsOf(r)) == Dedup(Names(old(TermsOf(ts))))
    ensures forall u :: u in r ==> u in ts
    ensures forall u :: u in ts && u !in r ==> u.exp == old(u.exp)
    ensures Distinct(ts) ==> TermsOf(r) == Reduce(old(TermsOf(ts)))
    ensures r == FirstOfEachName(ts, Names(old(TermsOf(ts))))
    ensures NamesDistinct(old(TermsOf(ts))) ==> r == ts
  {
    ghost var N := Names(old(TermsOf(ts)));
    ghost var X := old(TermsOf(ts));
    ghost var acc: seq<Term> := [];
    ghost var d := Distinct(ts);
    r := [];
    for i := 0 to |ts|
      invariant ReducedUpTo(ts, i, r, acc, N, X, d)
      invariant forall u :: u in ts && u !in r ==> u.exp == old(u.exp)
    {
      assert d ==> ts[i] !in r;
      r, acc := ReduceUnitsStep(ts, i, r, acc, N, X, d);
    }
    ReducedAll(ts, r, acc, N, X, d);
  }

  /** `Measure.inverseUnitMapper` (dist): a fresh term with the exponent negated; `each` is untouched. */
  method InverseUnitMapper(each: UnitOfMeasure) returns (r: UnitOfMeasure)
    ensures fresh(r)
    ensures r.Value() == Negate(each.Value())
  {
    r := new UnitOfMeasure(Negate(each.Value()));
  }

  /** `[].concat(list).map(Measure.inverseUnitMapper)` (dist): a new array of new terms. */
  method InvertUnits(ts: seq<UnitOfMeasure>) returns (a: array<UnitOfMeasure>)
    ensures fresh(a)
    ensures TermsOf(a[..]) == Invert(TermsOf(ts))
    ensures forall u :: u in a[..] ==> fresh(u)
    ensures Distinct(a[..])
  {
    var r: seq<UnitOfMeasure> := [];
    for i := 0 to |ts|
      invariant |r| == i
      invariant forall k :: 0 <= k < i ==> r[k].Value() == Negate(ts[k].Value())
      invariant forall u :: u in r ==> fresh(u)
      invariant Distinct(r)
    {
      var inverted := InverseUnitMapper(ts[i]);
      r := r + [inverted];
    }
    a := new UnitOfMeasure[|r|](k requires 0 <= k < |r| => r[k]);
    assert a[..] == r;
  }

  lemma DistinctAppend(a: seq<UnitOfMeasure>, b: seq<UnitOfMeasure>)
    requires Distinct(a) && Distinct(b)
    requires forall u :: u in a ==> u !in b
    ensures Distinct(a + b)
  {
    forall i, j | 0 <= i < j < |a + b|
      ensures (a + b)[i] != (a + b)[j]
    {
      if j >= |a| && i < |a| {
        assert (a + b)[i] in a && (a + b)[j] in b;
      }
    }
  }

  lemma DistinctParts(a: seq<UnitOfMeasure>, b: seq<UnitOfMeasure>)
    requires Distinct(a + b)
    ensures Distinct(a) && Distinct(b)
    ensures forall u :: u in a ==> u !in b
  {
    forall i, j | 0 <= i < j < |a|
      ensures a[i] != a[j]
    {
      assert a[i] == (a + b)[i] && a[j] == (a + b)[j];
    }
    forall i, j | 0 <= i < j < |b|
      ensures b[i] != b[j]
    {
      assert b[i] == (a + b)[|a| + i] && b[j] == (a + b)[|a| + j];
    }
    forall i, j | 0 <= i < |a| && 0 <= j < |b|
      ensures a[i] != b[j]
    {
      assert a[i] == (a + b)[i] && b[j] == (a + b)[|a| + j];
    }
  }

  lemma TermsOfAppend(a: seq<UnitOfMeasure>, b: seq<UnitOfMeasure>)
    ensures TermsOf(a + b) == TermsOf(a) + TermsOf(b)
  {
  }

  /** Names read from objects whose names no call has changed. */
  twostate lemma NamesUnchanged(S: seq<UnitOfMeasure>)
    ensures Names(TermsOf(S)) == old(Names(TermsOf(S)))
  {
  }

  lemma QuotientUnfolds(l: Unit, r: Unit)
    ensures Quotient(l, r) == Reduce(Reduce(AsList(l) + Invert(AsList(r))))
  {
  }

  /** `[].concat(l, r)`: the term objects of both sides, left first. */
  function Concat(left: UnitRef, right: UnitRef): seq<UnitOfMeasure>
    reads (if left.Many? then {left.list} else {}), (if right.Many? then {right.list} else {})
  {
    Elements(left) + Elements(right)
  }

  /**
   * Where the objects kept from `L + I` come from: a name of `L` keeps `L`'s
   * first object of that name, any other name an object of `I`.
   */
  lemma KeptOfConcat(L: seq<UnitOfMeasure>, I: seq<UnitOfMeasure>, NL: seq<string>, NI: seq<string>)
    requires |L| == |NL| && |I| == |NI|
    ensures |FirstOfEachName(L + I, NL + NI)| == |Dedup(NL + NI)|
    ensures forall k :: 0 <= k < |Dedup(NL + NI)| && Dedup(NL + NI)[k] in NL ==>
      FirstOfEachName(L + I, NL + NI)[k] == L[FirstIndex(NL, Dedup(NL + NI)[k])]
    ensures forall k :: 0 <= k < |Dedup(NL + NI)| && Dedup(NL + NI)[k] !in NL ==>
      FirstOfEachName(L + I, NL + NI)[k] in I
  {
    var D := Dedup(NL + NI);
    forall k | 0 <= k < |D|
      ensures D[k] in NL ==> FirstOfEachName(L + I, NL + NI)[k] == L[FirstIndex(NL, D[k])]
      ensures D[k] !in NL ==> FirstOfEachName(L + I, NL + NI)[k] in I
    {
      var j := FirstIndex(NL + NI, D[k]);
      if D[k] in NL {
        FirstIndexAppend(NL, NI, D[k]);
      } else {
        FirstIndexPastPrefix(NL, NI, D[k]);
        assert (L + I)[j] == I[j - |L|];
      }
    }
  }

  /**
   * `Measure.productOfUnits(l, r)` (and src `multiplyBy`, the same code):
   * `[].concat(l, r)` reduced by the reducer. The result is the first object
   * of each name in `[].concat(l, r)`, holding that name's merged exponent;
   * every other object of either side keeps its exponent.
   */
  method ProductOfUnits(left: UnitRef, right: UnitRef) returns (r: seq<UnitOfMeasure>)
    modifies set u | u in Concat(left, right)
    ensures r == FirstOfEachName(old(Concat(left, right)), Names(old(TermsOf(Concat(left, right)))))
    ensures NamesDistinct(TermsOf(r))
    ensures Names(TermsOf(r)) == Dedup(Names(old(TermsOf(Concat(left, right)))))
    ensures forall u :: u in r ==> u in old(Concat(left, right))
    ensures forall u :: u in old(Concat(left, right)) && u !in r ==> u.exp == old(u.exp)
    ensures Distinct(old(Concat(left, right))) ==>
      TermsOf(r) == Product(old(UnitValue(left)), old(UnitValue(right)))
  {
    var units := Elements(left) + Elements(right);
    TermsOfAppend(Elements(left), Elements(right));
    r := ReduceUnits(units);
  }

  /**
   * `Measure.productOfUnits(l, r).reduce(Measure.unitReducer, [])`, the
   * common tail of quotientOfUnits and divideBy: the second reduce meets
   * distinct names only, so it returns the product's objects and changes none.
   */
  method ProductReduced(left: UnitRef, right: UnitRef) returns (r: seq<UnitOfMeasure>)
    modifies set u | u in Concat(left, right)
    ensures r == FirstOfEachName(old(Concat(left, right)), Names(old(TermsOf(Concat(left, right)))))
    ensures NamesDistinct(TermsOf(r))
    ensures Names(TermsOf(r)) == Dedup(Names(old(TermsOf(Concat(left, right)))))
    ensures forall u :: u in r ==> u in old(Concat(left, right))
    ensures forall u :: u in old(Concat(left, right)) && u !in r ==> u.exp == old(u.exp)
    ensures Distinct(old(Concat(left, right))) ==>
      TermsOf(r) == Product(old(UnitValue(left)), old(UnitValue(right)))
  {
    var units := ProductOfUnits(left, right);
    r := ReduceOfDistinctUnits(units, old(Concat(left, right)));
  }

  lemma NamesOfInvert(ts: seq<Term>)
    ensures Names(Invert(ts)) == Names(ts)
  {
  }

  /**
   * `Measure.quotientOfUnits(l, r)` (dist): the right side is inverted into
   * fresh terms, multiplied onto the left and reduced once more. The result
   * has one object per name of either side, in order of first occurrence: for
   * a name of the left side it is the left side's own first object of that
   * name, which receives the merged exponent; for any other name, a fresh
   * inverted copy. Only left's objects change, and only the kept ones, in
   * their exponents; an object of the right side that is not also on the left
   * is untouched. In particular `quotientOfUnits(A, A)` returns A's own
   * objects with exponent 0.
   */
  method QuotientOfUnits(left: UnitRef, right: UnitRef) returns (r: seq<UnitOfMeasure>, ghost inverted: seq<UnitOfMeasure>)
    modifies set u | u in Elements(left)
    ensures forall u :: u in inverted ==> fresh(u)
    ensures Names(TermsOf(inverted)) == Names(old(TermsOf(Elements(right))))
    ensures r == FirstOfEachName(old(Elements(left)) + inverted,
                                 Names(old(TermsOf(Elements(left)))) + Names(old(TermsOf(Elements(right)))))
    ensures Names(TermsOf(r)) == Dedup(Names(old(TermsOf(Elements(left)))) + Names(old(TermsOf(Elements(right)))))
    ensures forall k :: 0 <= k < |r| && Names(TermsOf(r))[k] in Names(old(TermsOf(Elements(left)))) ==>
      r[k] == old(Elements(left))[FirstIndex(Names(old(TermsOf(Elements(left)))), Names(TermsOf(r))[k])]
    ensures forall k :: 0 <= k < |r| && Names(TermsOf(r))[k] !in Names(old(TermsOf(Elements(left)))) ==>
      r[k] in inverted
    ensures NamesDistinct(TermsOf(r))
    ensures forall u :: u in old(Elements(left)) && u !in r ==> u.exp == old(u.exp)
    ensures Distinct(old(Elements(left))) ==>
      TermsOf(r) == Quotient(old(UnitValue(left)), old(UnitValue(right)))
  {
    ghost var lv, rv := UnitValue(left), UnitValue(right);
    ghost var L := Elements(left);
    ghost var NL, NR := Names(TermsOf(L)), Names(TermsOf(Elements(right)));
    var invertedList := InvertUnits(Elements(right));
    inverted := invertedList[..];
    assert UnitValue(left) == lv && Elements(left) == L && TermsOf(L) == old(TermsOf(L));
    NamesOfInvert(TermsOf(Elements(right)));
    ghost var d := Distinct(L);
    if d {
      DistinctAppend(L, inverted);
    }
    TermsOfAppend(L, inverted);
    NamesAppend(TermsOf(L), TermsOf(inverted));
    assert Concat(left, Many(invertedList)) == L + inverted;
    assert Names(TermsOf(L + inverted)) == NL + NR;
    label product:
    r := ProductReduced(left, Many(invertedList));
    NamesUnchanged@product(inverted);
    KeptOfConcat(L, inverted, NL, NR);
    if d {
      QuotientSecondReduceIsNoOp(lv, rv);
    }
  }

  /**
   * The trailing `.reduce(Measure.unitReducer, [])` of quotientOfUnits, on the
   * product's result, whose names are already distinct: it returns the same
   * objects and changes none of them, nor any other object of `S`.
   */
  method ReduceOfDistinctUnits(ts: seq<UnitOfMeasure>, ghost S: seq<UnitOfMeasure>) returns (r: seq<UnitOfMeasure>)
    requires NamesDistinct(TermsOf(ts))
    requires forall u :: u in ts ==> u in S
    modifies set u | u in ts
    ensures r == ts
    ensures TermsOf(r) == old(TermsOf(ts))
    ensures forall u :: u in S ==> u.exp == old(u.exp)
  {
    ghost var X := TermsOf(ts);
    NamesDistinctObjects(ts);
    r := ReduceUnits(ts);
    ReduceOfDistinct(X);
  }

  /**
   * `quotientOfUnits(A, A)`: every object of the result is A's own first
   * object of its name, and (for distinct objects) each is left with
   * exponent 0; no fresh inverted copy survives.
   */
  method QuotientOfUnitsBySelf(a: UnitRef) returns (r: seq<UnitOfMeasure>)
    modifies set u | u in Elements(a)
    ensures Names(TermsOf(r)) == Dedup(Names(old(TermsOf(Elements(a)))))
    ensures forall u :: u in r ==> u in old(Elements(a))
    ensures Distinct(old(Elements(a))) ==> forall u :: u in r ==> u.exp == 0
  {
    ghost var av, A, NA := UnitValue(a), Elements(a), Names(TermsOf(Elements(a)));
    ghost var inverted;
    r, inverted := QuotientOfUnits(a, a);
    DedupOfCovered(NA, NA);
    forall k | 0 <= k < |r|
      ensures r[k] in A
    {
      assert Names(TermsOf(r))[k] in NA;
    }
    if Distinct(A) {
      QuotientOfSelf(av);
      forall u | u in r
        ensures u.exp == 0
      {
        var k :| 0 <= k < |r| && r[k] == u;
        assert TermsOf(r)[k].exp == 0;
      }
    }
  }

  /** `Measure.inverseMapper` (src): negates `each.exp` in place and returns `each` itself. */
  method InverseMapper(each: UnitOfMeasure) returns (r: UnitOfMeasure)
    modifies each
    ensures r == each
    ensures each.Value() == Negate(old(each.Value()))
  {
    each.exp := each.exp * -1;
    r := each;
  }

  /** An exponent negated `n` times in a row. */
  function NegatedTimes(e: int, n: nat): int {
    if n % 2 == 1 then -e else e
  }

  /**
   * After the first `i` objects of `ts` were negated one by one, each object
   * has been negated once per occurrence in `ts[..i]`; `X` holds the terms as
   * they were before.
   */
  ghost predicate NegatedUpTo(ts: seq<UnitOfMeasure>, i: nat, X: seq<Term>)
    requires i <= |ts| == |X|
    reads set u | u in ts
  {
    forall k :: 0 <= k < |ts| ==> ts[k].exp == NegatedTimes(X[k].exp, multiset(ts[..i])[ts[k]])
  }

  /** One step of `map(inverseMapper)`: the object at `i` is negated, once more if it occurred before. */
  method NegateNext(ts: seq<UnitOfMeasure>, i: nat, ghost X: seq<Term>) returns (same: UnitOfMeasure)
    requires i < |ts| == |X| && NegatedUpTo(ts, i, X)
    modifies ts[i]
    ensures same == ts[i] && NegatedUpTo(ts, i + 1, X)
  {
    ghost var M := multiset(ts[..i]);
    assert multiset(ts[..i + 1]) == M + multiset{ts[i]} by {
      assert ts[..i + 1] == ts[..i] + [ts[i]];
    }
    label before:
    same := InverseMapper(ts[i]);
    forall k | 0 <= k < |ts| ensures ts[k].exp == NegatedTimes(X[k].exp, multiset(ts[..i + 1])[ts[k]]) {
      assert old@before(ts[k].exp) == NegatedTimes(X[k].exp, M[ts[k]]);
    }
  }

  /** The loop of `map(inverseMapper)`: every object is negated once per occurrence, and the same objects come back in order. */
  method NegateEach(ts: seq<UnitOfMeasure>, ghost X: seq<Term>) returns (r: seq<UnitOfMeasure>)
    requires |ts| == |X| && NegatedUpTo(ts, 0, X)
    modifies set u | u in ts
    ensures r == ts && NegatedUpTo(ts, |ts|, X)
  {
    r := [];
    for i := 0 to |ts|
      invariant r == ts[..i]
      invariant NegatedUpTo(ts, i, X)
    {
      var same := NegateNext(ts, i, X);
      r := r + [same];
    }
  }

  /** Objects negated once per occurrence, when none occurs twice: every one is negated once. */
  lemma NegatedOnce(ts: seq<UnitOfMeasure>, X: seq<Term>)
    requires |ts| == |X| && NegatedUpTo(ts, |ts|, X) && Distinct(ts)
    requires forall k :: 0 <= k < |ts| ==> X[k].name == ts[k].name && X[k].measure == ts[k].measure
    ensures forall k :: 0 <= k < |ts| ==> ts[k].exp == -X[k].exp
    ensures TermsOf(ts) == Invert(X)
  {
    assert ts[..|ts|] == ts;
    forall k | 0 <= k < |ts| ensures ts[k].exp == -X[k].exp {
      DistinctOccursOnce(ts, k);
    }
  }

  lemma {:induction false} DistinctOccursOnce(ts: seq<UnitOfMeasure>, k: nat)
    requires Distinct(ts) && k < |ts|
    ensures multiset(ts)[ts[k]] == 1
  {
    var i := |ts| - 1;
    assert ts == ts[..i] + [ts[i]];
    if k < i {
      DistinctOccursOnce(ts[..i], k);
    } else {
      assert ts[i] !in ts[..i];
    }
  }

  /**
   * `list.map(Measure.inverseMapper)` (src): the caller's terms are negated in
   * place and the same objects are returned. An object listed more than once
   * is negated once per occurrence, so it ends up negated exactly when it
   * occurs an odd number of times. Any other object of `S` is left as it was.
   */
  method InvertInPlace(ts: seq<UnitOfMeasure>, ghost S: seq<UnitOfMeasure>) returns (a: array<UnitOfMeasure>)
    modifies set u | u in ts
    ensures fresh(a) && a[..] == ts
    ensures Distinct(ts) ==> TermsOf(ts) == Invert(old(TermsOf(ts)))
    ensures Distinct(ts) ==> forall u :: u in ts ==> u.exp == -old(u.exp)
    ensures NegatedUpTo(ts, |ts|, old(TermsOf(ts)))
    ensures forall u :: u in S && u !in ts ==> u.exp == old(u.exp)
  {
    ghost var X := TermsOf(ts);
    var r := NegateEach(ts, X);
    if Distinct(ts) {
      NegatedOnce(ts, X);
    }
    a := new UnitOfMeasure[|r|](k requires 0 <= k < |r| => r[k]);
    assert a[..] == r;
  }

  datatype JsError = TypeError(message: string) | ReferenceError(message: string)

  /**
   * `Measure.divideBy(l, r)` (src) as written: `r.map` is not a function when
   * `r` is a single term; otherwise `r`'s terms are negated in place (each
   * object once per occurrence) and then the unqualified call
   * `multiplyBy(...)` names no binding in scope, so every call throws.
   */
  method DivideByAsWritten(left: UnitRef, right: UnitRef) returns (r: Result<seq<UnitOfMeasure>, JsError>)
    modifies set u | u in Elements(right)
    ensures r.Err?
    ensures right.One? ==> r.error.TypeError? && unchanged(right.term)
    ensures right.Many? ==> r.error.ReferenceError?
    ensures right.Many? && Distinct(old(Elements(right))) ==>
      TermsOf(Elements(right)) == Invert(old(TermsOf(Elements(right))))
    ensures right.Many? ==> NegatedUpTo(Elements(right), |Elements(right)|, old(TermsOf(Elements(right))))
  {
    if right.One? {
      return Err(TypeError("rightMeasureUnitList.map is not a function"));
    }
    var _ := InvertInPlace(Elements(right), Elements(right));
    return Err(ReferenceError("multiplyBy is not defined"));
  }

  /**
   * The first line of the intended `divideBy`: `r`'s terms negated in place
   * by `[].concat(r).map(inverseMapper)`, seen together with `l`. The
   * array returned holds `r`'s own objects; names do not change, and an object
   * of `l` only keeps its exponent, and each object of `r` is negated once
   * per occurrence in `r`. When no object occurs twice in `l ++ r`, `r`'s
   * objects hold the inverted terms and `l`'s are untouched.
   */
  method InvertRight(left: UnitRef, right: UnitRef) returns (invertedList: array<UnitOfMeasure>)
    modifies set u | u in Elements(right)
    ensures fresh(invertedList)
    ensures Concat(left, Many(invertedList)) == old(Elements(left) + Elements(right))
    ensures Names(TermsOf(Elements(left) + Elements(right))) == old(Names(TermsOf(Elements(left) + Elements(right))))
    ensures forall u :: u in old(Elements(left)) && u !in old(Elements(right)) ==> u.exp == old(u.exp)
    ensures Distinct(old(Elements(left) + Elements(right))) ==>
      UnitValue(left) == old(UnitValue(left)) &&
      UnitValue(Many(invertedList)) == Multiple(Invert(AsList(old(UnitValue(right)))))
    ensures Distinct(old(Elements(left) + Elements(right))) ==>
      forall u :: u in old(Elements(right)) ==> u.exp == -old(u.exp)
    ensures NegatedUpTo(old(Elements(right)), |old(Elements(right))|, old(TermsOf(Elements(right))))
  {
    ghost var lv, rv := UnitValue(left), UnitValue(right);
    var L, R := Elements(left), Elements(right);
    ghost var d := Distinct(L + R);
    if d {
      DistinctParts(L, R);
    }
    label invert:
    invertedList := InvertInPlace(R, L + R);
    assert d ==> UnitValue(left) == lv;
    assert d ==> UnitValue(Many(invertedList)) == Multiple(Invert(AsList(rv)));
    assert Concat(left, Many(invertedList)) == L + R;
    NamesUnchanged@invert(L + R);
  }

  /**
   * `Measure.divideBy(l, r)` (src) as evidently intended: `[].concat(r)`
   * mapped through the in-place inverse mapper, then `Measure.multiplyBy`
   * and the reducer. The result is the first object of each name in
   * `l ++ r`; every name and measure is left as it was; an object of `l` only
   * that is dropped keeps its exponent, one of `r` that is dropped stays
   * negated. Per name, the exponent is left minus right.
   */
  method DivideBy(left: UnitRef, right: UnitRef) returns (r: seq<UnitOfMeasure>)
    modifies set u | u in Elements(left) + Elements(right)
    ensures r == FirstOfEachName(old(Elements(left) + Elements(right)),
                                 Names(old(TermsOf(Elements(left) + Elements(right)))))
    ensures NamesDistinct(TermsOf(r))
    ensures forall u :: u in r ==> u in old(Elements(left) + Elements(right))
    ensures forall u :: u in old(Elements(left)) && u !in old(Elements(right)) && u !in r ==> u.exp == old(u.exp)
    ensures Distinct(old(Elements(left) + Elements(right))) ==>
      forall u :: u in old(Elements(right)) && u !in r ==> u.exp == -old(u.exp)
    ensures Distinct(old(Elements(left) + Elements(right))) ==>
      TermsOf(r) == Quotient(old(UnitValue(left)), old(UnitValue(right)))
  {
    ghost var lv, rv := UnitValue(left), UnitValue(right);
    ghost var L, R := Elements(left), Elements(right);
    ghost var d := Distinct(L + R);
    var invertedList := InvertRight(left, right);
    label product:
    r := ProductReduced(left, Many(invertedList));
    forall u: UnitOfMeasure | u in L + R
      ensures u !in r ==> u.exp == old@product(u.exp)
      ensures d && u in R && u !in r ==> u.exp == -old(u.exp)
    {
    }
    if d {
      QuotientSecondReduceIsNoOp(lv, rv);
    }
  }
}
