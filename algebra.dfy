/**
 * The unit algebra of Measure, on values: `unitReducer`, the inverse mapper,
 * `productOfUnits` and `quotientOfUnits`. The in-place versions over term
 * objects are in module UnitObjects and are proved equal to these.
 */
module UnitAlgebra {
  import opened Values

  /**
   * The index search inside `unitReducer`: the position of the LAST term of
   * `acc` named `n`, or -1 when there is none.
   */
  function LastIndexOfName(acc: seq<Term>, n: string): (k: int)
    ensures -1 <= k < |acc|
    ensures 0 <= k ==> acc[k].name == n && forall j :: k < j < |acc| ==> acc[j].name != n
    ensures k < 0 ==> forall j :: 0 <= j < |acc| ==> acc[j].name != n
  {
    if acc == [] then -1
    else if acc[|acc| - 1].name == n then |acc| - 1
    else LastIndexOfName(acc[..|acc| - 1], n)
  }

  /**
   * One call of `unitReducer(result, each)`: `each` is appended when no term of
   * `result` has its name; otherwise its exponent is added into that term and
   * `each` (with its measure) is dropped.
   */
  function ReduceStep(acc: seq<Term>, each: Term): seq<Term> {
    var k := LastIndexOfName(acc, each.name);
    if k < 0 then acc + [each]
    else acc[k := acc[k].(exp := acc[k].exp + each.exp)]
  }

  /** `ts.reduce(unitReducer, [])`, a left fold. */
  function Reduce(ts: seq<Term>): seq<Term> {
    if ts == [] then []
    else ReduceStep(Reduce(ts[..|ts| - 1]), ts[|ts| - 1])
  }

  /** The names of `ns`, each once, in order of first occurrence. */
  function Dedup(ns: seq<string>): (d: seq<string>)
    ensures forall x :: x in d <==> x in ns
    ensures forall i, j :: 0 <= i < j < |d| ==> d[i] != d[j]
    ensures |d| <= |ns|
  {
    if ns == [] then []
    else
      var init, last := ns[..|ns| - 1], ns[|ns| - 1];
      assert ns == init + [last];
      if last in init then Dedup(init) else Dedup(init) + [last]
  }

  /** The position of the first occurrence of `n` in `ns`. */
  function FirstIndex(ns: seq<string>, n: string): (k: nat)
    requires n in ns
    ensures k < |ns| && ns[k] == n && n !in ns[..k]
  {
    if ns[0] == n then 0
    else
      var k := 1 + FirstIndex(ns[1..], n);
      assert ns[..k] == [ns[0]] + ns[1..][..k - 1];
      k
  }

  /**
   * Reference definition of what reducing a term list gives: one term per
   * distinct name, in order of first occurrence, which is the first occurring
   * term (its measure included) with the sum of all exponents of that name.
   */
  function Merged(ts: seq<Term>): (r: seq<Term>)
    ensures |r| == |Dedup(Names(ts))|
    ensures forall k :: 0 <= k < |r| ==> r[k] == MergedAt(ts, Dedup(Names(ts))[k])
  {
    var d := Dedup(Names(ts));
    seq(|d|, k requires 0 <= k < |d| => MergedAt(ts, d[k]))
  }

  /** The entry of `Merged(ts)` for the name `n`. */
  function MergedAt(ts: seq<Term>, n: string): Term
    requires n in Names(ts)
  {
    ts[FirstIndex(Names(ts), n)].(exp := SumExp(ts, n))
  }

  lemma SumExpAbsent(ts: seq<Term>, n: string)
    requires n !in Names(ts)
    ensures SumExp(ts, n) == 0
  {
    if ts != [] {
      assert Names(ts[..|ts| - 1]) == Names(ts)[..|ts| - 1];
      SumExpAbsent(ts[..|ts| - 1], n);
    }
  }

  lemma SumExpOfDistinct(ts: seq<Term>, k: nat)
    requires NamesDistinct(ts) && k < |ts|
    ensures SumExp(ts, ts[k].name) == ts[k].exp
  {
    var init := ts[..|ts| - 1];
    if k == |ts| - 1 {
      assert ts[k].name !in Names(init);
      SumExpAbsent(init, ts[k].name);
    } else {
      SumExpOfDistinct(init, k);
    }
  }

  lemma {:induction false} SumExpAppend(a: seq<Term>, b: seq<Term>, n: string)
    ensures SumExp(a + b, n) == SumExp(a, n) + SumExp(b, n)
  {
    if b != [] {
      var binit := b[..|b| - 1];
      assert (a + b)[..|a + b| - 1] == a + binit;
      SumExpAppend(a, binit, n);
    } else {
      assert a + b == a;
    }
  }

  lemma FirstIndexOfPrefix(ns: seq<string>, m: string, n: string)
    requires n in ns
    ensures FirstIndex(ns + [m], n) == FirstIndex(ns, n)
  {
    if ns[0] != n {
      assert (ns + [m])[1..] == ns[1..] + [m];
      FirstIndexOfPrefix(ns[1..], m, n);
    }
  }

  lemma SumExpSnoc(p: seq<Term>, t: Term, n: string)
    ensures SumExp(p + [t], n) == SumExp(p, n) + (if t.name == n then t.exp else 0)
  {
    assert (p + [t])[..|p|] == p;
  }

  lemma MergedNames(ts: seq<Term>)
    ensures Names(Merged(ts)) == Dedup(Names(ts))
  {
  }

  lemma MergedAtSnoc(p: seq<Term>, t: Term, n: string)
    requires n in Names(p)
    ensures Names(p + [t]) == Names(p) + [t.name]
    ensures MergedAt(p + [t], n) ==
      MergedAt(p, n).(exp := MergedAt(p, n).exp + (if t.name == n then t.exp else 0))
  {
    assert Names(p + [t]) == Names(p) + [t.name];
    FirstIndexOfPrefix(Names(p), t.name, n);
    SumExpSnoc(p, t, n);
  }

  /** The induction step of ReduceIsMerged when `t`'s name is already present. */
  lemma MergedStepPresent(p: seq<Term>, t: Term)
    requires t.name in Names(p)
    ensures Merged(p + [t]) == ReduceStep(Merged(p), t)
  {
    var d, M := Dedup(Names(p)), Merged(p);
    MergedNames(p);
    var S := ReduceStep(M, t);
    ReduceStepPresent(M, t);
    NamesAppend(p, [t]);
    DedupSnoc(Names(p), t.name);
    assert |Merged(p + [t])| == |S|;
    forall j | 0 <= j < |d|
      ensures Merged(p + [t])[j] == S[j]
    {
      MergedStepPresentAt(p, t, j);
    }
  }

  /** `ReduceStep` on terms with distinct names, one of them `t`'s, updates that term alone. */
  lemma ReduceStepPresent(M: seq<Term>, t: Term)
    requires t.name in Names(M)
    requires forall i, j :: 0 <= i < j < |M| ==> Names(M)[i] != Names(M)[j]
    ensures |ReduceStep(M, t)| == |M|
    ensures forall j :: 0 <= j < |M| ==>
      ReduceStep(M, t)[j] == if Names(M)[j] == t.name then M[j].(exp := M[j].exp + t.exp) else M[j]
  {
    var k := LastIndexOfName(M, t.name);
    assert k >= 0;
  }

  lemma DedupSnoc(ns: seq<string>, n: string)
    ensures Dedup(ns + [n]) == if n in ns then Dedup(ns) else Dedup(ns) + [n]
  {
    assert (ns + [n])[..|ns|] == ns;
  }

  /** One entry of MergedStepPresent. */
  lemma MergedStepPresentAt(p: seq<Term>, t: Term, j: nat)
    requires t.name in Names(p) && j < |Dedup(Names(p))|
    ensures |Merged(p + [t])| == |Dedup(Names(p))|
    ensures Merged(p + [t])[j] ==
      if Dedup(Names(p))[j] == t.name then Merged(p)[j].(exp := Merged(p)[j].exp + t.exp)
      else Merged(p)[j]
  {
    NamesAppend(p, [t]);
    DedupSnoc(Names(p), t.name);
    MergedAtSnoc(p, t, Dedup(Names(p))[j]);
  }

  /** The induction step of ReduceIsMerged when `t`'s name is new. */
  lemma MergedStepAbsent(p: seq<Term>, t: Term)
    requires t.name !in Names(p)
    ensures Merged(p + [t]) == ReduceStep(Merged(p), t)
  {
    var d, M := Dedup(Names(p)), Merged(p);
    MergedNames(p);
    assert t.name !in d;
    assert ReduceStep(M, t) == M + [t];
    MergedStepAbsentLast(p, t);
    var R := Merged(p + [t]);
    forall j | 0 <= j < |R|
      ensures R[j] == (M + [t])[j]
    {
      if j < |d| {
        MergedStepAbsentAt(p, t, j);
      }
    }
  }

  /** An old entry of MergedStepAbsent: unchanged. */
  lemma MergedStepAbsentAt(p: seq<Term>, t: Term, j: nat)
    requires t.name !in Names(p) && j < |Dedup(Names(p))|
    ensures |Merged(p + [t])| == |Dedup(Names(p))| + 1
    ensures Merged(p + [t])[j] == Merged(p)[j]
  {
    NamesAppend(p, [t]);
    DedupSnoc(Names(p), t.name);
    MergedAtSnoc(p, t, Dedup(Names(p))[j]);
  }

  /** The new last entry of MergedStepAbsent: the term itself. */
  lemma MergedStepAbsentLast(p: seq<Term>, t: Term)
    requires t.name !in Names(p)
    ensures |Merged(p + [t])| == |Dedup(Names(p))| + 1
    ensures Merged(p + [t])[|Dedup(Names(p))|] == t
  {
    NamesAppend(p, [t]);
    DedupSnoc(Names(p), t.name);
    SumExpAbsent(p, t.name);
    SumExpSnoc(p, t, t.name);
    FirstIndexOfNew(Names(p), t.name);
  }

  lemma FirstIndexOfNew(ns: seq<string>, n: string)
    requires n !in ns
    ensures FirstIndex(ns + [n], n) == |ns|
  {
  }

  /** Reducing a term list merges it by name: `Reduce` agrees with `Merged` on every input. */
  lemma {:induction false} ReduceIsMerged(ts: seq<Term>)
    ensures Reduce(ts) == Merged(ts)
  {
    if ts != [] {
      var p, t := ts[..|ts| - 1], ts[|ts| - 1];
      assert ts == p + [t];
      ReduceIsMerged(p);
      if t.name in Names(p) {
        MergedStepPresent(p, t);
      } else {
        MergedStepAbsent(p, t);
      }
    }
  }

  /** The names of a reduced list are the input's names, each once, in order of first occurrence. */
  lemma ReduceNames(ts: seq<Term>)
    ensures Names(Reduce(ts)) == Dedup(Names(ts))
    ensures NamesDistinct(Reduce(ts))
  {
    ReduceIsMerged(ts);
    MergedNames(ts);
  }

  /**
   * What the reducer promises ("combine and eliminate units"): names become
   * pairwise distinct, no name is lost (a name whose exponents cancel stays with
   * exponent 0), each name carries the sum of its exponents and the measure of
   * its first occurrence, names keep first-occurrence order, and the list never grows.
   */
  lemma ReduceNormalises(ts: seq<Term>)
    ensures NamesDistinct(Reduce(ts))
    ensures Names(Reduce(ts)) == Dedup(Names(ts))
    ensures |Reduce(ts)| <= |ts|
    ensures forall n :: n in Names(Reduce(ts)) <==> n in Names(ts)
    ensures forall k :: 0 <= k < |Reduce(ts)| ==> Reduce(ts)[k].exp == SumExp(ts, Reduce(ts)[k].name)
    ensures forall k :: 0 <= k < |Reduce(ts)| ==>
      Reduce(ts)[k].measure == ts[FirstIndex(Names(ts), Reduce(ts)[k].name)].measure
  {
    ReduceIsMerged(ts);
  }

  /** The reducer never invents a nested measure: each one it keeps comes from an input term. */
  lemma ReduceKeepsMeasures(ts: seq<Term>)
    ensures forall x :: x in Reduce(ts) ==> exists y :: y in ts && y.measure == x.measure
  {
    ReduceNormalises(ts);
    forall x | x in Reduce(ts)
      ensures exists y :: y in ts && y.measure == x.measure
    {
      var k :| 0 <= k < |Reduce(ts)| && Reduce(ts)[k] == x;
      var y := ts[FirstIndex(Names(ts), x.name)];
      assert y in ts;
    }
  }

  /** Reducing keeps, for every name, the total exponent of that name. */
  lemma ReducePreservesSums(ts: seq<Term>, n: string)
    ensures SumExp(Reduce(ts), n) == SumExp(ts, n)
  {
    ReduceNames(ts);
    ReduceIsMerged(ts);
    var R, d := Reduce(ts), Dedup(Names(ts));
    if n in Names(ts) {
      assert n in d;
      var k :| 0 <= k < |d| && d[k] == n;
      assert R[k] == MergedAt(ts, n);
      SumExpOfDistinct(R, k);
    } else {
      SumExpAbsent(R, n);
      SumExpAbsent(ts, n);
    }
  }

  /** A list whose names are already distinct comes back unchanged. */
  lemma {:induction false} ReduceOfDistinct(ts: seq<Term>)
    requires NamesDistinct(ts)
    ensures Reduce(ts) == ts
  {
    if ts != [] {
      var p := ts[..|ts| - 1];
      ReduceOfDistinct(p);
      assert ts == p + [ts[|ts| - 1]];
    }
  }

  lemma ReduceIdempotent(ts: seq<Term>)
    ensures Reduce(Reduce(ts)) == Reduce(ts)
  {
    ReduceNames(ts);
    ReduceOfDistinct(Reduce(ts));
  }

  /** `inverseUnitMapper`: the same name and measure with the exponent negated. */
  function Negate(t: Term): Term {
    t.(exp := -t.exp)
  }

  function Invert(ts: seq<Term>): (r: seq<Term>)
    ensures |r| == |ts|
    ensures forall k :: 0 <= k < |ts| ==> r[k] == Negate(ts[k])
  {
    seq(|ts|, k requires 0 <= k < |ts| => Negate(ts[k]))
  }

  lemma {:induction false} SumExpInvert(ts: seq<Term>, n: string)
    ensures SumExp(Invert(ts), n) == -SumExp(ts, n)
  {
    if ts != [] {
      var p := ts[..|ts| - 1];
      assert Invert(ts)[..|ts| - 1] == Invert(p);
      SumExpInvert(p, n);
    }
  }

  /** Inverting twice gives back the terms (the in-place mapper applied twice restores its input). */
  lemma InvertTwice(ts: seq<Term>)
    ensures Invert(Invert(ts)) == ts
  {
  }

  /** `productOfUnits(l, r)`: `[].concat(l, r)` flattens one level, then the reducer runs. */
  function Product(l: Unit, r: Unit): seq<Term> {
    Reduce(AsList(l) + AsList(r))
  }

  /**
   * `quotientOfUnits(l, r)`: the right side is inverted term by term, multiplied
   * onto the left, and reduced once more.
   */
  function Quotient(l: Unit, r: Unit): seq<Term> {
    Reduce(Product(l, Multiple(Invert(AsList(r)))))
  }

  /** The product adds exponents name by name and leaves distinct names. */
  lemma ProductSums(l: Unit, r: Unit)
    ensures NamesDistinct(Product(l, r))
    ensures forall n :: SumExp(Product(l, r), n) == SumExp(AsList(l), n) + SumExp(AsList(r), n)
  {
    ReduceNames(AsList(l) + AsList(r));
    forall n: string
      ensures SumExp(Product(l, r), n) == SumExp(AsList(l), n) + SumExp(AsList(r), n)
    {
      ReducePreservesSums(AsList(l) + AsList(r), n);
      SumExpAppend(AsList(l), AsList(r), n);
    }
  }

  /** The trailing `.reduce(unitReducer, [])` of quotientOfUnits changes nothing. */
  lemma QuotientSecondReduceIsNoOp(l: Unit, r: Unit)
    ensures Quotient(l, r) == Product(l, Multiple(Invert(AsList(r))))
  {
    ReduceIdempotent(AsList(l) + Invert(AsList(r)));
  }

  /** The exponent sum of one name in a quotient: left minus right. */
  lemma QuotientSumAt(l: Unit, r: Unit, n: string)
    ensures SumExp(Quotient(l, r), n) == SumExp(AsList(l), n) - SumExp(AsList(r), n)
  {
    var L, R := AsList(l), AsList(r);
    QuotientSecondReduceIsNoOp(l, r);
    assert Quotient(l, r) == Reduce(L + Invert(R));
    ReducePreservesSums(L + Invert(R), n);
    SumExpAppend(L, Invert(R), n);
    SumExpInvert(R, n);
  }

  lemma NamesAppend(a: seq<Term>, b: seq<Term>)
    ensures Names(a + b) == Names(a) + Names(b)
  {
  }

  /**
   * The quotient subtracts exponents name by name: for every name, its exponent
   * in the result is the left sum minus the right sum, and no name is lost.
   */
  lemma QuotientSums(l: Unit, r: Unit)
    ensures NamesDistinct(Quotient(l, r))
    ensures forall n :: SumExp(Quotient(l, r), n) == SumExp(AsList(l), n) - SumExp(AsList(r), n)
    ensures forall n :: n in Names(Quotient(l, r)) <==> n in Names(AsList(l)) || n in Names(AsList(r))
  {
    QuotientNames(l, r);
    forall n: string
      ensures SumExp(Quotient(l, r), n) == SumExp(AsList(l), n) - SumExp(AsList(r), n)
    {
      QuotientSumAt(l, r, n);
    }
  }

  /** The names of a quotient: those of either side, each once. */
  lemma QuotientNames(l: Unit, r: Unit)
    ensures NamesDistinct(Quotient(l, r))
    ensures Names(Quotient(l, r)) == Dedup(Names(AsList(l)) + Names(AsList(r)))
  {
    var L, R := AsList(l), AsList(r);
    var P := L + Invert(R);
    QuotientSecondReduceIsNoOp(l, r);
    assert Quotient(l, r) == Reduce(P);
    ReduceNames(P);
    NamesAppend(L, Invert(R));
    assert Names(Invert(R)) == Names(R);
  }


  lemma {:induction false} DedupOfCovered(ns: seq<string>, ms: seq<string>)
    requires forall m :: m in ms ==> m in ns
    ensures Dedup(ns + ms) == Dedup(ns)
  {
    if ms != [] {
      var minit := ms[..|ms| - 1];
      assert (ns + ms)[..|ns + ms| - 1] == ns + minit;
      DedupOfCovered(ns, minit);
    } else {
      assert ns + ms == ns;
    }
  }

  /**
   * `quotientOfUnits(A, A)` eliminates nothing: it keeps every name of A, in
   * first-occurrence order, each with exponent 0.
   */
  lemma QuotientOfSelf(a: Unit)
    ensures Names(Quotient(a, a)) == Dedup(Names(AsList(a)))
    ensures forall k :: 0 <= k < |Quotient(a, a)| ==> Quotient(a, a)[k].exp == 0
  {
    var Q := Quotient(a, a);
    QuotientNames(a, a);
    DedupOfCovered(Names(AsList(a)), Names(AsList(a)));
    forall k | 0 <= k < |Q|
      ensures Q[k].exp == 0
    {
      SumExpOfDistinct(Q, k);
      QuotientSumAt(a, a, Q[k].name);
    }
  }

}
