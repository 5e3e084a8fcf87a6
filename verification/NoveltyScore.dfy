/** From a novelty verdict to a calibration row: the score of a fact, with the
    novelty entries weighted by the maturity of the observation history, and the
    part of a fact that a row of the benign corpus shows. */
module NoveltyScore {
  import opened Options

  type Url = string

  /** What the novelty check of one diff reports for one of the two sets. */
  datatype News = News(seen: bool, url: Url)
  datatype Novelty = Novelty(inPackage: News, globally: News)

  /** One entry of a breakdown; `params` is "" for an empty parameter set. */
  datatype Entry = Entry(rule: string, severity: string, weight: int, params: string, file: string, line: Option<nat>)

  /** What a text alone contributes: the entries listed before the novelty entries
      (rules, coverage gaps, source buckets) and those after them (declared
      signals, which carry no weight). */
  datatype Findings = Findings(before: seq<Entry>, after: seq<Entry>)

  /** The configured novelty weights. */
  datatype Weights = Weights(globally: real, inPackage: real)

  // ----- weights

  const MATURITY_THRESHOLD := 50

  /** How far the history is trusted: not at all when it is empty. */
  function Maturity(count: int): real {
    if count <= 0 then 0.0
    else if count >= MATURITY_THRESHOLD then 1.0
    else count as real / MATURITY_THRESHOLD as real
  }

  /** Python's `int`: towards zero. */
  function Truncated(x: real): int {
    if x >= 0.0 then x.Floor else -(-x).Floor
  }

  function NoveltyWeight(raw: real, count: int): int {
    Truncated(raw * Maturity(count))
  }

  function WeightSum(entries: seq<Entry>): int {
    if entries == [] then 0 else WeightSum(entries[..|entries| - 1]) + entries[|entries| - 1].weight
  }

  // ----- the score of a fact

  function GlobalEntries(weights: Weights, n: News, count: int): seq<Entry> {
    var w := NoveltyWeight(weights.globally, count);
    if n.seen && w > 0 then
      [Entry("NOVELTY", if weights.globally > 10.0 then "HIGH" else "MEDIUM", w, "", "", None)]
    else []
  }

  function PackageEntries(weights: Weights, n: News, count: int): seq<Entry> {
    var w := NoveltyWeight(weights.inPackage, count);
    if n.seen && w > 0 then [Entry("NOVELTY", "MEDIUM", w, "", "", None)] else []
  }

  function Breakdown(f: Findings, n: Novelty, weights: Weights, count: int): seq<Entry> {
    f.before + GlobalEntries(weights, n.globally, count) + PackageEntries(weights, n.inPackage, count) + f.after
  }

  function Clamped(base: int): int {
    if base < 0 then 0 else if base > 100 then 100 else base
  }

  function Score(f: Findings, n: Novelty, weights: Weights, count: int): int {
    Clamped(WeightSum(f.before + GlobalEntries(weights, n.globally, count)
                      + PackageEntries(weights, n.inPackage, count)))
  }

  /** The declared signals carry no weight. */
  ghost predicate Weightless(entries: seq<Entry>) {
    forall i :: 0 <= i < |entries| ==> entries[i].weight == 0
  }

  lemma WeightSnoc(entries: seq<Entry>, e: Entry)
    ensures WeightSum(entries + [e]) == WeightSum(entries) + e.weight
  {
    assert (entries + [e])[..|entries|] == entries;
  }

  /** The score and the breakdown of one diff. */
  method CalculateScore(f: Findings, n: Novelty, weights: Weights, count: int)
    returns (score: int, breakdown: seq<Entry>)
    ensures score == Score(f, n, weights, count)
    ensures breakdown == Breakdown(f, n, weights, count)
  {
    hide WeightSum, NoveltyWeight;
    var base := 0;
    breakdown := [];
    assert WeightSum([]) == 0 by { WeightNone(); }
    for i := 0 to |f.before|
      invariant breakdown == f.before[..i] && base == WeightSum(breakdown)
    {
      WeightSnoc(breakdown, f.before[i]);
      base := base + f.before[i].weight;
      breakdown := breakdown + [f.before[i]];
    }
    if n.globally.seen {
      var w := NoveltyWeight(weights.globally, count);
      if w > 0 {
        var e := Entry("NOVELTY", if weights.globally > 10.0 then "HIGH" else "MEDIUM", w, "", "", None);
        WeightSnoc(breakdown, e);
        base := base + w;
        breakdown := breakdown + [e];
      }
    }
    assert breakdown == f.before + GlobalEntries(weights, n.globally, count);
    if n.inPackage.seen {
      var w := NoveltyWeight(weights.inPackage, count);
      if w > 0 {
        var e := Entry("NOVELTY", "MEDIUM", w, "", "", None);
        WeightSnoc(breakdown, e);
        base := base + w;
        breakdown := breakdown + [e];
      }
    }
    assert breakdown == f.before + GlobalEntries(weights, n.globally, count)
                        + PackageEntries(weights, n.inPackage, count);
    breakdown := breakdown + f.after;
    score := if base < 0 then 0 else if base > 100 then 100 else base;
  }

  lemma WeightNone()
    ensures WeightSum([]) == 0
  {}

  lemma {:induction false} WeightlessSum(entries: seq<Entry>, more: seq<Entry>)
    requires Weightless(more)
    ensures WeightSum(entries + more) == WeightSum(entries)
  {
    if more == [] {
      assert entries + more == entries;
    } else {
      var init := more[..|more| - 1];
      WeightlessSum(entries, init);
      WeightSnoc(entries + init, more[|more| - 1]);
      assert entries + init + [more[|more| - 1]] == entries + more;
    }
  }

  /** The score is the clamped sum of the weights the breakdown shows. */
  lemma ScoreIsBreakdownSum(f: Findings, n: Novelty, weights: Weights, count: int)
    requires Weightless(f.after)
    ensures Score(f, n, weights, count) == Clamped(WeightSum(Breakdown(f, n, weights, count)))
  {
    hide GlobalEntries, PackageEntries, WeightSum;
    WeightlessSum(f.before + GlobalEntries(weights, n.globally, count) + PackageEntries(weights, n.inPackage, count),
                  f.after);
  }

  /** A score lies between 0 and 100 and is the sum of the weights wherever that does. */
  lemma ScoreRange(f: Findings, n: Novelty, weights: Weights, count: int)
    ensures var sum := WeightSum(f.before + GlobalEntries(weights, n.globally, count)
                                 + PackageEntries(weights, n.inPackage, count));
            var score := Score(f, n, weights, count);
            && 0 <= score <= 100
            && (0 <= sum <= 100 ==> score == sum) && (sum < 0 ==> score == 0) && (sum > 100 ==> score == 100)
  {
    hide WeightSum;
  }

  /** The novelty weight grows with the history up to 50 observations: it is the
      whole part of that share of the configured weight. */
  lemma NoveltyWeightMeaning(raw: real, count: int)
    ensures raw < 0.0 || count <= 0 ==> NoveltyWeight(raw, count) <= 0
    ensures raw >= 0.0 && count >= 50 ==>
              NoveltyWeight(raw, count) as real <= raw < NoveltyWeight(raw, count) as real + 1.0
    ensures raw >= 0.0 && 0 < count < 50 ==>
              var w := NoveltyWeight(raw, count) as real; 50.0 * w <= raw * (count as real) < 50.0 * w + 50.0
  {
    if 0 < count < 50 {
      var share := raw * (count as real / 50.0);
      assert 50.0 * share == raw * (count as real);
      if raw >= 0.0 { assert share >= 0.0; }
      if raw < 0.0 { assert share <= 0.0; }
    }
    assert raw * 1.0 == raw && raw * 0.0 == 0.0;
  }

  /** Which novelty entries a breakdown has between the findings and the declared
      signals: the global one first, each only if it is seen and weighs something. */
  lemma BreakdownMeaning(f: Findings, n: Novelty, weights: Weights, count: int)
    ensures var b, g, p := Breakdown(f, n, weights, count), NoveltyWeight(weights.globally, count),
                           NoveltyWeight(weights.inPackage, count);
            var global, own := n.globally.seen && g > 0, n.inPackage.seen && p > 0;
            var severity := if weights.globally > 10.0 then "HIGH" else "MEDIUM";
            exists middle ::
              && b == f.before + middle + f.after
              && |middle| == (if global then 1 else 0) + (if own then 1 else 0)
              && (global ==> middle[0] == Entry("NOVELTY", severity, g, "", "", None))
              && (own ==> middle[|middle| - 1] == Entry("NOVELTY", "MEDIUM", p, "", "", None))
  {
    hide NoveltyWeight;
    var middle := GlobalEntries(weights, n.globally, count) + PackageEntries(weights, n.inPackage, count);
    assert Breakdown(f, n, weights, count) == f.before + middle + f.after;
  }

  /** With an empty history no configured weight counts. */
  lemma ColdWeight(raw: real, count: int)
    requires count <= 0
    ensures NoveltyWeight(raw, count) == 0
  {
    assert raw * 0.0 == 0.0;
  }

  /** Two verdicts that agree on the package give one breakdown exactly when the
      global novelty weighs nothing or both say the same about it; the first new
      URL itself never shows. */
  lemma SameBreakdownIff(f: Findings, own: News, a: News, b: News, weights: Weights, count: int)
    ensures Breakdown(f, Novelty(own, a), weights, count) == Breakdown(f, Novelty(own, b), weights, count)
       <==> NoveltyWeight(weights.globally, count) <= 0 || (a.seen <==> b.seen)
  {
    hide NoveltyWeight;
    var x, y := Breakdown(f, Novelty(own, a), weights, count), Breakdown(f, Novelty(own, b), weights, count);
    if NoveltyWeight(weights.globally, count) > 0 && a.seen != b.seen {
      assert |x| != |y|;
    }
  }
}
