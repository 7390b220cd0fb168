/**
 * Values of the unit model: numbers, unit terms, unit expressions and measures,
 * as the constructors of Measure and Measure.UnitOfMeasure leave them.
 */
module Values {

  datatype Option<+T> = None | Some(value: T)

  datatype Result<+T, +E> = Ok(value: T) | Err(error: E)

  /** A JavaScript number. Every finite value, including -0, is a `Finite` real. */
  datatype Num = Finite(r: real) | Infinity(positive: bool) | NaN

  /** One factor of a compound unit: `name` raised to `exp`, optionally scaled by a nested measure. */
  datatype Term = Term(name: string, exp: int, measure: Option<Measure>)

  /** The `unit` of a measure: a single term or an array of terms. */
  datatype Unit = Single(term: Term) | Multiple(terms: seq<Term>)

  datatype Measure = Measure(value: Num, unit: Unit)

  /** `Array.isArray(u) ? u : [u]`: every entry point treats a single term as a one-element list. */
  function AsList(u: Unit): (ts: seq<Term>)
    ensures u.Single? ==> ts == [u.term]
    ensures u.Multiple? ==> ts == u.terms
  {
    match u
    case Single(t) => [t]
    case Multiple(ts) => ts
  }

  function Names(ts: seq<Term>): (ns: seq<string>)
    ensures |ns| == |ts|
    ensures forall k :: 0 <= k < |ts| ==> ns[k] == ts[k].name
  {
    seq(|ts|, k requires 0 <= k < |ts| => ts[k].name)
  }

  predicate NamesDistinct(ts: seq<Term>) {
    forall i, j :: 0 <= i < j < |ts| ==> ts[i].name != ts[j].name
  }

  /** The sum of the exponents of the terms named `n` (0 when there is none). */
  function SumExp(ts: seq<Term>, n: string): int {
    if ts == [] then 0
    else SumExp(ts[..|ts| - 1], n) + (if ts[|ts| - 1].name == n then ts[|ts| - 1].exp else 0)
  }

  /** `Math.max(-1, Math.min(x, +1))` */
  function Clamp(x: int): (s: int)
    ensures x < 0 ==> s == -1
    ensures x == 0 ==> s == 0
    ensures x > 0 ==> s == 1
  {
    if x < 0 then -1 else if x > 0 then 1 else 0
  }

  // Nesting depth of measures inside terms; it bounds the recursion of the
  // comparator and of the formatter, which recurse into nested measures of
  // terms that have been merged and re-sorted, not into syntactic sub-terms.

  function MaxOf(s: seq<nat>): (m: nat)
    ensures forall k :: 0 <= k < |s| ==> s[k] <= m
  {
    if s == [] then 0
    else
      var rest := MaxOf(s[1..]);
      if s[0] > rest then s[0] else rest
  }

  function TermDepth(t: Term): nat {
    match t.measure
    case None => 0
    case Some(m) => 1 + UnitDepth(m.unit)
  }

  function ListDepth(ts: seq<Term>): nat {
    MaxOf(seq(|ts|, k requires 0 <= k < |ts| => TermDepth(ts[k])))
  }

  function UnitDepth(u: Unit): nat {
    match u
    case Single(t) => TermDepth(t)
    case Multiple(ts) => ListDepth(ts)
  }

  lemma MaxOfAtMost(s: seq<nat>, b: nat)
    requires forall k :: 0 <= k < |s| ==> s[k] <= b
    ensures MaxOf(s) <= b
  {
    if s != [] {
      MaxOfAtMost(s[1..], b);
    }
  }

  lemma ListDepthBound(ts: seq<Term>, k: nat)
    requires k < |ts|
    ensures TermDepth(ts[k]) <= ListDepth(ts)
  {
    var ds := seq(|ts|, j requires 0 <= j < |ts| => TermDepth(ts[j]));
    assert ds[k] == TermDepth(ts[k]);
  }

  /** A list whose terms are all no deeper than `b` is no deeper than `b`. */
  lemma ListDepthAtMost(ts: seq<Term>, b: nat)
    requires forall t :: t in ts ==> TermDepth(t) <= b
    ensures ListDepth(ts) <= b
  {
    var ds := seq(|ts|, j requires 0 <= j < |ts| => TermDepth(ts[j]));
    assert forall k :: 0 <= k < |ds| ==> ds[k] == TermDepth(ts[k]) && ts[k] in ts;
    MaxOfAtMost(ds, b);
  }

  lemma TermDepthBound(u: Unit, t: Term)
    requires t in AsList(u)
    ensures TermDepth(t) <= UnitDepth(u)
  {
    if u.Multiple? {
      var k :| 0 <= k < |u.terms| && u.terms[k] == t;
      ListDepthBound(u.terms, k);
    }
  }
}
