/** The nearest-rank percentile and the separation gate, over exact reals. */
module Percentiles {
  import opened Sorting

  predicate AtMost(x: real, y: real) {
    x <= y
  }

  /** How many samples are at most `v`. */
  function CountLe(values: seq<real>, v: real): nat {
    if values == [] then 0 else (if values[0] <= v then 1 else 0) + CountLe(values[1..], v)
  }

  function Ceil(x: real): int {
    -((-x).Floor)
  }

  /** `max(0, min(n - 1, ceil(q * n) - 1))`. */
  function RankIndex(n: nat, q: real): (r: nat)
    requires n > 0
    ensures r < n
  {
    var r := Ceil(q * (n as real)) - 1;
    var capped := if r < n - 1 then r else n - 1;
    if capped < 0 then 0 else capped
  }

  function Percentile(values: seq<real>, q: real): real {
    if values == [] then 0.0
    else
      SortElements(values, AtMost);
      Sort(values, AtMost)[RankIndex(|values|, q)]
  }

  // ----- counting in the sorted sample

  lemma {:induction false} CountInserted(x: real, s: seq<real>, v: real)
    ensures CountLe(Insert(x, s, AtMost), v) == (if x <= v then 1 else 0) + CountLe(s, v)
  {
    if s == [] || AtMost(x, s[0]) {
      assert ([x] + s)[1..] == s;
    } else {
      CountInserted(x, s[1..], v);
      assert ([s[0]] + Insert(x, s[1..], AtMost))[1..] == Insert(x, s[1..], AtMost);
    }
  }

  lemma {:induction false} CountSorted(values: seq<real>, v: real)
    ensures CountLe(Sort(values, AtMost), v) == CountLe(values, v)
  {
    if values != [] {
      CountSorted(values[1..], v);
      CountInserted(values[0], Sort(values[1..], AtMost), v);
    }
  }

  lemma {:induction false} CountBound(s: seq<real>, v: real)
    ensures CountLe(s, v) <= |s|
  {
    if s != [] { CountBound(s[1..], v); }
  }

  /** In a sorted sample more than `k` values are at most `v` exactly when the
      value at position `k` is. */
  lemma {:induction false} CountAtPosition(s: seq<real>, k: nat, v: real)
    requires Sorted(s, AtMost) && k < |s|
    ensures s[k] <= v <==> CountLe(s, v) > k
  {
    CountBound(s[1..], v);
    if k == 0 {
      if s[0] > v { NoneAtMost(s, v); }
    } else {
      assert AtMost(s[0], s[k]);
      assert Sorted(s[1..], AtMost);
      CountAtPosition(s[1..], k - 1, v);
      if s[0] > v { NoneAtMost(s, v); }
    }
  }

  lemma {:induction false} NoneAtMost(s: seq<real>, v: real)
    requires Sorted(s, AtMost) && s != [] && s[0] > v
    ensures CountLe(s, v) == 0
  {
    if |s| > 1 {
      assert AtMost(s[0], s[1]);
      assert Sorted(s[1..], AtMost);
      NoneAtMost(s[1..], v);
    }
  }

  lemma SortedSample(values: seq<real>)
    ensures Sorted(Sort(values, AtMost), AtMost) && |Sort(values, AtMost)| == |values|
  {
    assert TotalPreorder(AtMost);
    SortSorted(values, AtMost);
    SortElements(values, AtMost);
  }

  // ----- what the percentile means

  /** For 0 < q <= 1 a threshold `t` is at least the percentile exactly when at
      least `q * n` samples are at most `t`. */
  lemma PercentileThreshold(values: seq<real>, q: real, t: real)
    requires values != [] && 0.0 < q <= 1.0
    ensures Percentile(values, q) <= t <==> CountLe(values, t) as real >= q * (|values| as real)
  {
    hide Sort, CountLe, Ceil, RankIndex;
    var k := RankIndex(|values|, q);
    SortedSample(values);
    CountSorted(values, t);
    CountAtPosition(Sort(values, AtMost), k, t);
    CeilRank(|values|, q, CountLe(values, t));
  }

  /** The rank is the least count that reaches `q * n`. */
  lemma CeilRank(n: nat, q: real, count: nat)
    requires n > 0 && 0.0 < q <= 1.0
    ensures count > RankIndex(n, q) <==> count as real >= q * (n as real)
  {
    var p := q * (n as real);
    RankProduct(n as real, q);
    assert 0.0 < p <= n as real;
    assert RankIndex(n, q) == Ceil(p) - 1;
  }

  lemma RankProduct(n: real, q: real)
    requires n > 0.0 && 0.0 < q <= 1.0
    ensures 0.0 < q * n <= n
  {
    assert (1.0 - q) * n >= 0.0;
  }

  /** The percentile is the least sample value that at least `q * n` samples do not
      exceed. */
  lemma PercentileIsLeast(values: seq<real>, q: real)
    requires values != [] && 0.0 < q <= 1.0
    ensures var p := Percentile(values, q);
            && p in values
            && CountLe(values, p) as real >= q * (|values| as real)
            && forall v :: v in values && CountLe(values, v) as real >= q * (|values| as real) ==> p <= v
  {
    hide Sort, CountLe, RankIndex;
    var p := Percentile(values, q);
    SortElements(values, AtMost);
    assert p in multiset(Sort(values, AtMost));
    PercentileThreshold(values, q, p);
    forall v | v in values && CountLe(values, v) as real >= q * (|values| as real) ensures p <= v {
      PercentileThreshold(values, q, v);
    }
  }

  /** The rank is clamped: any q <= 0 gives the minimum, any q >= 1 the maximum. */
  lemma PercentileClamped(values: seq<real>, q: real)
    requires values != []
    ensures q <= 0.0 ==> forall v :: v in values ==> Percentile(values, q) <= v
    ensures q >= 1.0 ==> forall v :: v in values ==> v <= Percentile(values, q)
  {
    hide Sort;
    SortedSample(values);
    SortElements(values, AtMost);
    var s, n := Sort(values, AtMost), |values| as real;
    if q <= 0.0 { assert q * n <= 0.0; assert RankIndex(|values|, q) == 0; }
    if q >= 1.0 { assert (q - 1.0) * n >= 0.0; assert q * n >= n; assert RankIndex(|values|, q) == |values| - 1; }
    forall v | v in values ensures exists i :: 0 <= i < |s| && s[i] == v { assert v in multiset(s); }
    assert forall i :: 0 <= i < |s| ==> AtMost(s[0], s[i]) && AtMost(s[i], s[|s| - 1]);
  }

  // ----- the separation gate

  /** `benign_p95 < malicious_p5`, strictly. */
  predicate GateSeparation(benign: seq<real>, critical: seq<real>) {
    Percentile(benign, 0.95) < Percentile(critical, 0.05)
  }

  /** `t` keeps at least 95% of the benign scores below or at it and strictly more
      than 95% of the attack scores above it. */
  ghost predicate Separates(t: real, benign: seq<real>, critical: seq<real>) {
    && CountLe(benign, t) as real >= 0.95 * (|benign| as real)
    && (|critical| - CountLe(critical, t)) as real > 0.95 * (|critical| as real)
  }

  /** An empty list of scores counts as one score of zero. */
  ghost function OrZero(scores: seq<real>): seq<real> {
    if scores == [] then [0.0] else scores
  }

  lemma PercentileOrZero(scores: seq<real>, q: real)
    ensures Percentile(scores, q) == Percentile(OrZero(scores), q)
  {
    assert Sort([0.0], AtMost) == [0.0] by { assert [0.0][1..] == []; }
  }

  /** The gate passes, for any two lists, exactly when one threshold separates the two
      populations. */
  lemma GateSeparationMeaning(benign: seq<real>, critical: seq<real>)
    ensures GateSeparation(benign, critical) <==> exists t :: Separates(t, OrZero(benign), OrZero(critical))
  {
    hide Percentile, CountLe;
    var b, c := OrZero(benign), OrZero(critical);
    PercentileOrZero(benign, 0.95);
    PercentileOrZero(critical, 0.05);
    var p := Percentile(b, 0.95);
    SeparatesMeaning(p, b, c);
    if GateSeparation(benign, critical) {
      assert Separates(p, b, c);
    }
    if t :| Separates(t, b, c) {
      SeparatesMeaning(t, b, c);
    }
  }

  /** Without attack scores the gate fails as long as no benign score is negative. */
  lemma NoAttacksFailsGate(benign: seq<real>)
    requires forall v :: v in benign ==> v >= 0.0
    ensures !GateSeparation(benign, [])
  {
    if benign != [] {
      hide Percentile, CountLe;
      PercentileIsLeast(benign, 0.95);
      assert Percentile([], 0.05) == 0.0 by { NoScores(0.05); }
    }
  }

  lemma NoScores(q: real)
    ensures Percentile([], q) == 0.0
  {}

  lemma SeparatesMeaning(t: real, benign: seq<real>, critical: seq<real>)
    requires benign != [] && critical != []
    ensures Separates(t, benign, critical) <==> Percentile(benign, 0.95) <= t < Percentile(critical, 0.05)
  {
    hide Percentile, CountLe;
    PercentileThreshold(benign, 0.95, t);
    PercentileThreshold(critical, 0.05, t);
    var m, c := |critical| as real, CountLe(critical, t) as real;
    assert m - 0.05 * m == 0.95 * m;
  }
}
