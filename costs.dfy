/** Travel costs between cities, and the extended numbers that insertion
    deltas are computed in.

    A scenario of n cities is modelled by the indices 0 .. n-1 and a cost
    matrix m, where m[a][b] is the directed cost of travelling from city a to
    city b (City.costTo).  A cost is a non-negative amount or "unreachable",
    which the solver represents by positive infinity. */
module Costs {

  datatype Option<T> = None | Some(value: T)

  /** A directed edge cost: finite and non-negative, or unreachable. */
  datatype Cost = Fin(v: nat) | Inf

  /** `a <= b` between costs, with Inf above every finite cost. */
  predicate Le(a: Cost, b: Cost) {
    b.Inf? || (a.Fin? && a.v <= b.v)
  }

  /** `a < b` between costs; Inf is not below Inf. */
  predicate Lt(a: Cost, b: Cost) {
    a.Fin? && (b.Inf? || a.v < b.v)
  }

  lemma LeTrans(a: Cost, b: Cost, c: Cost)
    requires Le(a, b) && Le(b, c)
    ensures Le(a, c)
  {
  }

  lemma LtLeTrans(a: Cost, b: Cost, c: Cost)
    requires Lt(a, b) && Le(b, c)
    ensures Lt(a, c)
  {
  }

  /** Sum of two costs: unreachable as soon as one of them is. */
  function Add(a: Cost, b: Cost): (r: Cost)
    ensures r.Inf? <==> a.Inf? || b.Inf?
    ensures r.Fin? ==> r.v == a.v + b.v
  {
    if a.Fin? && b.Fin? then Fin(a.v + b.v) else Inf
  }

  /** The values a difference of costs can take in floating point:
      finite - inf is -inf, inf - finite is inf and inf - inf is nan. */
  datatype Ext = NegInf | Num(x: int) | PosInf | NaN

  /** Floating-point `a <= b`: false whenever either side is nan. */
  predicate ExtLe(a: Ext, b: Ext) {
    !a.NaN? && !b.NaN? && (a.NegInf? || b.PosInf? || (a.Num? && b.Num? && a.x <= b.x))
  }

  /** Floating-point `<=` is transitive. */
  lemma ExtLeTrans(a: Ext, b: Ext, c: Ext)
    requires ExtLe(a, b) && ExtLe(b, c)
    ensures ExtLe(a, c)
  {
  }

  /** Floating-point `a < b`. */
  predicate ExtLt(a: Ext, b: Ext) {
    ExtLe(a, b) && a != b
  }

  /** The increase `ab + bc - ac` of a tour when the edge a->c is replaced by
      the two edges a->b and b->c, computed as floats are. */
  function Delta(ab: Cost, bc: Cost, ac: Cost): (r: Ext)
    ensures r.NaN? <==> ac.Inf? && (ab.Inf? || bc.Inf?)
    ensures r.NegInf? <==> ac.Inf? && ab.Fin? && bc.Fin?
    ensures r.PosInf? <==> ac.Fin? && (ab.Inf? || bc.Inf?)
    ensures r.Num? ==> r.x == ab.v + bc.v - ac.v
  {
    var s := Add(ab, bc);
    if ac.Inf? then (if s.Inf? then NaN else NegInf)
    else if s.Inf? then PosInf
    else Num(s.v - ac.v)
  }

  /** m is an n-by-n cost matrix. */
  predicate IsMatrix(m: seq<seq<Cost>>, n: nat) {
    |m| == n && forall a :: 0 <= a < n ==> |m[a]| == n
  }

  /** Every city named in s is one of the n cities of the scenario. */
  predicate InRange(s: seq<nat>, n: nat) {
    forall i :: 0 <= i < |s| ==> s[i] < n
  }
}
