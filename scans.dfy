/** The three running-minimum scans the solver performs.  Each one walks a
    list once, keeping the position of the best value seen so far (None
    before the first update) and comparing every value with that best one,
    or with infinity while there is none:

    - with `<=` over costs (findClosestCity), it ends on the LAST position
      holding the minimum;
    - with `<` over costs (the route scan of addClosestCityToRoute and the
      best-tour scan of nearest_insertion_all), it ends on the FIRST position
      holding the minimum, and moves only if that minimum is finite;
    - with `<=` over float deltas (findCheapestInsertion and the edge scan of
      addCheapestCityToRoute), nan never compares, so it ends on the last
      position holding the minimum of the values that are not nan.

    Each scan is defined on a list by its value on the list without its last
    element, as the loops compute it; the lemmas state the position it ends
    on outright. */
module Scans {
  import opened Costs

  /* ------------------------------------------------------------------ */
  /* `<=` over costs                                                     */

  /** The scan of findClosestCity: replace the best so far whenever a value
      is `<=` it (everything is `<=` the initial infinity). */
  function LastMin(xs: seq<Cost>): (r: Option<nat>)
    ensures r.None? <==> xs == []
    ensures r.Some? ==> r.value < |xs|
    decreases |xs|, 1
  {
    if xs == [] then None else LastMinLast(xs)
  }

  /** The scan of a non-empty list: the scan of all but its last value,
      then the last value compared with the best one. */
  function LastMinLast(xs: seq<Cost>): (r: Option<nat>)
    requires xs != []
    ensures r.Some? && r.value < |xs|
    decreases |xs|, 0
  {
    var k := LastMin(xs[..|xs| - 1]);
    var best := if k.None? then Inf else xs[k.value];
    if Le(xs[|xs| - 1], best) then Some(|xs| - 1) else k
  }

  /** One more step of the scan over a prefix of xs. */
  lemma LastMinStep(xs: seq<Cost>, i: nat)
    requires i < |xs|
    ensures var k := LastMin(xs[..i]);
            LastMin(xs[..i + 1]) == if Le(xs[i], if k.None? then Inf else xs[k.value]) then Some(i) else k
  {
    assert xs[..i + 1][..i] == xs[..i];
  }

  /** k is the last position of a minimum of xs. */
  predicate IsLastMin(xs: seq<Cost>, k: nat) {
    && k < |xs|
    && (forall j :: 0 <= j < |xs| ==> Le(xs[k], xs[j]))
    && (forall j :: k < j < |xs| ==> Lt(xs[k], xs[j]))
  }

  lemma {:induction false} LastMinIsLast(xs: seq<Cost>)
    requires xs != []
    ensures IsLastMin(xs, LastMin(xs).value)
    decreases |xs|
  {
    var i := |xs| - 1;
    var pre := xs[..i];
    assert forall j :: 0 <= j < i ==> xs[j] == pre[j];
    if pre != [] {
      LastMinIsLast(pre);
      var k := LastMin(pre).value;
      if Le(xs[i], xs[k]) {
        forall j | 0 <= j < i ensures Le(xs[i], xs[j]) {
          LeTrans(xs[i], xs[k], xs[j]);
        }
      }
    }
  }

  /* ------------------------------------------------------------------ */
  /* `<` over costs                                                      */

  /** The scan of addClosestCityToRoute over the route: replace the best so
      far only when a value is strictly below it. */
  function FirstFiniteMin(xs: seq<Cost>): (r: Option<nat>)
    ensures r.Some? ==> r.value < |xs| && xs[r.value].Fin?
    decreases |xs|, 1
  {
    if xs == [] then None else FirstFiniteMinLast(xs)
  }

  /** The scan of a non-empty list: the scan of all but its last value,
      then the last value compared with the best one. */
  function FirstFiniteMinLast(xs: seq<Cost>): (r: Option<nat>)
    requires xs != []
    ensures r.Some? ==> r.value < |xs| && xs[r.value].Fin?
    decreases |xs|, 0
  {
    var k := FirstFiniteMin(xs[..|xs| - 1]);
    var best := if k.None? then Inf else xs[k.value];
    if Lt(xs[|xs| - 1], best) then Some(|xs| - 1) else k
  }

  /** One more step of the scan over a prefix of xs. */
  lemma FirstFiniteMinStep(xs: seq<Cost>, i: nat)
    requires i < |xs|
    ensures var k := FirstFiniteMin(xs[..i]);
            FirstFiniteMin(xs[..i + 1]) == if Lt(xs[i], if k.None? then Inf else xs[k.value]) then Some(i) else k
  {
    assert xs[..i + 1][..i] == xs[..i];
  }

  /** k is the first position of a minimum of xs, and that minimum is finite. */
  predicate IsFirstFiniteMin(xs: seq<Cost>, k: nat) {
    && k < |xs|
    && xs[k].Fin?
    && (forall j :: 0 <= j < |xs| ==> Le(xs[k], xs[j]))
    && (forall j :: 0 <= j < k ==> Lt(xs[k], xs[j]))
  }

  lemma {:induction false} FirstFiniteMinIsFirst(xs: seq<Cost>)
    ensures FirstFiniteMin(xs).None? <==> forall j :: 0 <= j < |xs| ==> xs[j].Inf?
    ensures FirstFiniteMin(xs).Some? ==> IsFirstFiniteMin(xs, FirstFiniteMin(xs).value)
    decreases |xs|
  {
    if xs != [] {
      var i := |xs| - 1;
      var pre := xs[..i];
      assert forall j :: 0 <= j < i ==> xs[j] == pre[j];
      FirstFiniteMinIsFirst(pre);
      var k := FirstFiniteMin(pre);
      if k.Some? && Lt(xs[i], xs[k.value]) {
        forall j | 0 <= j < i ensures Lt(xs[i], xs[j]) {
          LtLeTrans(xs[i], xs[k.value], xs[j]);
        }
      }
    }
  }

  /* ------------------------------------------------------------------ */
  /* `<=` over float deltas                                              */

  /** The scan of findCheapestInsertion: replace the best so far whenever a
      value is `<=` it (every value but nan is `<=` the initial infinity). */
  function LastMinExt(xs: seq<Ext>): (r: Option<nat>)
    ensures r.Some? ==> r.value < |xs| && !xs[r.value].NaN?
    decreases |xs|, 1
  {
    if xs == [] then None else LastMinExtLast(xs)
  }

  /** The scan of a non-empty list: the scan of all but its last value,
      then the last value compared with the best one. */
  function LastMinExtLast(xs: seq<Ext>): (r: Option<nat>)
    requires xs != []
    ensures r.Some? ==> r.value < |xs| && !xs[r.value].NaN?
    decreases |xs|, 0
  {
    var k := LastMinExt(xs[..|xs| - 1]);
    var best := if k.None? then PosInf else xs[k.value];
    if ExtLe(xs[|xs| - 1], best) then Some(|xs| - 1) else k
  }

  /** One more step of the scan over a prefix of xs. */
  lemma LastMinExtStep(xs: seq<Ext>, i: nat)
    requires i < |xs|
    ensures var k := LastMinExt(xs[..i]);
            LastMinExt(xs[..i + 1]) == if ExtLe(xs[i], if k.None? then PosInf else xs[k.value]) then Some(i) else k
  {
    assert xs[..i + 1][..i] == xs[..i];
  }

  /** k is the last position of a minimum of the values of xs that are not
      nan. */
  predicate IsLastMinExt(xs: seq<Ext>, k: nat) {
    && k < |xs|
    && !xs[k].NaN?
    && (forall j :: 0 <= j < |xs| && !xs[j].NaN? ==> ExtLe(xs[k], xs[j]))
    && (forall j :: k < j < |xs| && !xs[j].NaN? ==> ExtLt(xs[k], xs[j]))
  }

  lemma {:induction false} LastMinExtIsLast(xs: seq<Ext>)
    ensures LastMinExt(xs).None? <==> forall j :: 0 <= j < |xs| ==> xs[j].NaN?
    ensures LastMinExt(xs).Some? ==> IsLastMinExt(xs, LastMinExt(xs).value)
    decreases |xs|
  {
    if xs != [] {
      var i := |xs| - 1;
      var pre := xs[..i];
      assert forall j :: 0 <= j < i ==> xs[j] == pre[j];
      LastMinExtIsLast(pre);
      var k := LastMinExt(pre);
      if k.Some? && ExtLe(xs[i], xs[k.value]) {
        forall j | 0 <= j < i && !xs[j].NaN? ensures ExtLe(xs[i], xs[j]) {
          ExtLeTrans(xs[i], xs[k.value], xs[j]);
        }
      }
    }
  }
}
