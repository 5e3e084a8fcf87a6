/** Which diffs a sampled scan covers and what its rows show, told from the corpus as
    one long list: the walk over all packages, not package by package. */
module CalibrationWalk {
  import opened CalibrationPlan
  import opened CalibrationScan
  import opened NoveltyScore
  import opened Options

  /** A diff of the walk with the package it belongs to. */
  datatype Stop = Stop(pkg: Package, diff: Diff)

  function StopsOf(pkg: Package, diffs: seq<Diff>): (r: seq<Stop>)
    ensures |r| == |diffs| && forall i :: 0 <= i < |diffs| ==> r[i] == Stop(pkg, diffs[i])
  {
    seq(|diffs|, i requires 0 <= i < |diffs| => Stop(pkg, diffs[i]))
  }

  /** The diffs of the first `n` packages, one after the other. */
  function Whole(groups: seq<Group>, n: nat): seq<Stop>
    requires n <= |groups|
  {
    if n == 0 then [] else Whole(groups, n - 1) + StopsOf(groups[n - 1].pkg, groups[n - 1].diffs)
  }

  /** The diffs a plan covers, task after task. */
  function Planned(plan: seq<Task>, n: nat): seq<Stop>
    requires n <= |plan|
  {
    if n == 0 then [] else Planned(plan, n - 1) + StopsOf(plan[n - 1].pkg, plan[n - 1].diffs)
  }

  /** The stops of the first `n` that the rule keeps by their position, counted from one. */
  ghost function Kept(whole: seq<Stop>, keep: int -> bool, n: nat): seq<Stop>
    requires n <= |whole|
  {
    if n == 0 then [] else Kept(whole, keep, n - 1) + if keep(n) then [whole[n - 1]] else []
  }

  // ----- the sampled packages are the sampled walk

  lemma {:induction false} KeptPrefix(a: seq<Stop>, b: seq<Stop>, keep: int -> bool, n: nat)
    requires n <= |a|
    ensures Kept(a + b, keep, n) == Kept(a, keep, n)
  {
    if n > 0 { KeptPrefix(a, b, keep, n - 1); }
  }

  /** Inside a package the position goes on from the packages before. */
  lemma {:induction false} KeptInside(before: seq<Stop>, pkg: Package, diffs: seq<Diff>, keep: int -> bool, d: nat)
    requires d <= |diffs|
    ensures Kept(before + StopsOf(pkg, diffs), keep, |before| + d)
         == Kept(before, keep, |before|) + StopsOf(pkg, Thin(diffs, d, |before|, keep))
  {
    var whole := before + StopsOf(pkg, diffs);
    if d == 0 {
      KeptPrefix(before, StopsOf(pkg, diffs), keep, |before|);
      assert StopsOf(pkg, Thin(diffs, 0, |before|, keep)) == [];
    } else {
      KeptInside(before, pkg, diffs, keep, d - 1);
      var thin, rest := Thin(diffs, d, |before|, keep), Thin(diffs, d - 1, |before|, keep);
      assert whole[|before| + d - 1] == Stop(pkg, diffs[d - 1]);
      if keep(|before| + d) {
        assert StopsOf(pkg, thin) == StopsOf(pkg, rest) + [Stop(pkg, diffs[d - 1])];
      }
    }
  }

  lemma {:induction false} WholeLength(groups: seq<Group>, k: nat)
    requires k <= |groups|
    ensures |Whole(groups, k)| == Position(groups, k)
  {
    if k > 0 { WholeLength(groups, k - 1); }
  }

  lemma KeptStep(groups: seq<Group>, keep: int -> bool, k: nat)
    requires k < |groups|
    ensures var a, b := Whole(groups, k), Whole(groups, k + 1);
            Kept(b, keep, |b|) == Kept(a, keep, |a|) + StopsOf(groups[k].pkg, Selected(groups, k, keep))
  {
    hide Kept, Thin, Position;
    WholeLength(groups, k);
    KeptInside(Whole(groups, k), groups[k].pkg, groups[k].diffs, keep, |groups[k].diffs|);
  }

  lemma {:induction false} PlannedPrefix(a: seq<Task>, b: seq<Task>, n: nat)
    requires n <= |a|
    ensures Planned(a + b, n) == Planned(a, n)
  {
    if n > 0 { PlannedPrefix(a, b, n - 1); }
  }

  /** Each planned task covers at least one diff, and together they cover the kept
      ones, in order. */
  lemma {:induction false} PlanCoversKept(s: Scanner, groups: seq<Group>, keep: int -> bool, k: nat)
    requires k <= |groups|
    ensures var plan, whole := Plan(s, groups, keep, k), Whole(groups, k);
            && Planned(plan, |plan|) == Kept(whole, keep, |whole|)
            && forall t :: t in plan ==> t.diffs != []
  {
    hide Kept, Selected, PlannedBefore, Whole;
    if k == 0 {
      NothingKept(groups, keep);
    } else {
      PlanCoversKept(s, groups, keep, k - 1);
      KeptStep(groups, keep, k - 1);
      var diffs := Selected(groups, k - 1, keep);
      if diffs != [] {
        PlannedPrefix(Plan(s, groups, keep, k - 1),
                      [Task(groups[k - 1].pkg, diffs, PlannedBefore(s, groups, keep, k - 1))],
                      |Plan(s, groups, keep, k - 1)|);
      } else {
        assert Plan(s, groups, keep, k) == Plan(s, groups, keep, k - 1);
        assert StopsOf(groups[k - 1].pkg, diffs) == [];
      }
    }
  }

  lemma NothingKept(groups: seq<Group>, keep: int -> bool)
    ensures Whole(groups, 0) == [] && Kept([], keep, 0) == []
  {}

  // ----- what a row shows

  /** The row of a stop: its package, path and changed lines, and, place by place, what
      the findings on its text list. Nothing of the scan's history is in it. */
  ghost predicate Shows(s: Scanner, stop: Stop, row: Row) {
    var f := s.findings(stop.pkg, stop.diff.text);
    && row.pkg == stop.pkg && row.path == stop.diff.path && row.lines == s.lines(stop.diff.text)
    && |row.entries| == |f.before| + |f.after|
    && (forall i :: 0 <= i < |f.before| ==> ShowsEntry(f.before[i], s.location, row.entries[i]))
    && (forall i :: 0 <= i < |f.after| ==> ShowsEntry(f.after[i], s.location, row.entries[|f.before| + i]))
    && 0 <= row.score <= 100
    && (0 <= WeightSum(f.before) <= 100 ==> row.score == WeightSum(f.before))
    && (WeightSum(f.before) < 0 ==> row.score == 0)
    && (WeightSum(f.before) > 100 ==> row.score == 100)
  }

  ghost predicate ShowsEntry(e: Entry, location: bool, shown: RowEntry) {
    && shown.rule == e.rule && shown.severity == e.severity && shown.weight == e.weight && shown.params == e.params
    && (location ==> shown.place == Some(Place(e.file, e.line)))
    && (!location ==> shown.place == None)
  }

  lemma ColdRowShows(s: Scanner, pkg: Package, diffs: seq<Diff>, i: nat, global: set<Url>)
    requires i < |diffs|
    ensures Shows(s, Stop(pkg, diffs[i]), DiffRow(s, pkg, diffs, i, global))
  {
    ColdWeight(s.weights.globally, 0);
    ColdWeight(s.weights.inPackage, 0);
    hide NoveltyWeight, Verdict, WeightSum;
    var f := s.findings(pkg, diffs[i].text);
    var fact := DiffFact(s, pkg, diffs, i, global);
    assert fact.breakdown == f.before + f.after;
    assert f.before + [] + [] == f.before;
  }

  /** The rows of the serial walk are those of the kept stops, in the order of the walk. */
  lemma {:induction false} SerialRowsShow(s: Scanner, groups: seq<Group>, keep: int -> bool, k: nat)
    requires k <= |groups|
    ensures var whole, rows := Whole(groups, k), SerialRows(s, groups, keep, k);
            var kept := Kept(whole, keep, |whole|);
            |rows| == |kept| && forall i :: 0 <= i < |rows| ==> Shows(s, kept[i], rows[i])
  {
    hide Kept, Selected, ScannedBefore, Whole, Shows, PackageRows;
    if k == 0 {
      NothingKept(groups, keep);
    } else {
      SerialRowsShow(s, groups, keep, k - 1);
      KeptStep(groups, keep, k - 1);
      var pkg, diffs := groups[k - 1].pkg, Selected(groups, k - 1, keep);
      var global := ScannedBefore(s, groups, keep, k - 1);
      TaskRowsShow(s, pkg, diffs, global);
      hide TaskRows;
    }
  }

  lemma TaskRowsShow(s: Scanner, pkg: Package, diffs: seq<Diff>, global: set<Url>)
    ensures var rows := TaskRows(s, Task(pkg, diffs, global));
            |rows| == |diffs| && forall i :: 0 <= i < |rows| ==> Shows(s, StopsOf(pkg, diffs)[i], rows[i])
  {
    hide Shows, PackageRows, DiffRow;
    PackageRowsAt(s, pkg, diffs, |diffs|, global, 0);
    forall i | 0 <= i < |diffs| ensures Shows(s, StopsOf(pkg, diffs)[i], TaskRows(s, Task(pkg, diffs, global))[i]) {
      ColdRowShows(s, pkg, diffs, i, global);
    }
  }

  // ----- sampling

  /** The step from one kept position to the next. */
  function Stride(sample: int): (m: nat)
    ensures m >= 1 && (sample <= 1 ==> m == 1) && (sample > 1 ==> m == sample)
  {
    if sample <= 1 then 1 else sample
  }

  /** Where the kept stop number `j` stands in the walk. */
  function Nth(j: nat, m: nat): (i: int)
    requires m >= 1
  {
    (j + 1) * m - 1
  }

  lemma DivStep(n: nat, m: nat)
    requires n > 0 && m > 0
    ensures n / m == (n - 1) / m + if n % m == 0 then 1 else 0
    ensures n % m == 0 ==> (n / m) * m == n
  {
    var q, r := (n - 1) / m, (n - 1) % m;
    assert n - 1 == q * m + r && 0 <= r < m;
    if r == m - 1 {
      Quotient(n, m, q + 1, 0);
    } else {
      Quotient(n, m, q, r + 1);
    }
  }

  lemma Quotient(n: nat, m: nat, q: nat, r: nat)
    requires m > 0 && r < m && n == q * m + r
    ensures n / m == q && n % m == r
  {
    assert n == (n / m) * m + n % m;
    OneQuotient(n / m, n % m, q, r, m);
  }

  lemma OneQuotient(p: nat, t: nat, q: nat, r: nat, m: nat)
    requires t < m && r < m && p * m + t == q * m + r
    ensures p == q && t == r
  {
    if p > q { AtLeast(p - q, m); Distribute(p, q, m); }
    if p < q { AtLeast(q - p, m); Distribute(q, p, m); }
  }

  lemma AtLeast(a: int, m: nat)
    requires a >= 1
    ensures a * m >= m
  {
    assert a * m == (a - 1) * m + m;
  }

  lemma Distribute(p: int, q: int, m: nat)
    ensures (p - q) * m == p * m - q * m
  {}

  lemma NthLast(n: nat, m: nat)
    requires n > 0 && m >= 1 && n % m == 0 && n / m == (n - 1) / m + 1
    ensures Nth((n - 1) / m, m) == n - 1
  {
    DivStep(n, m);
  }

  /** Sampling every `m`-th stop, the kept ones are those at positions m, 2m, 3m, ... */
  lemma {:induction false} KeptAt(whole: seq<Stop>, keep: int -> bool, sample: int, n: nat)
    requires n <= |whole| && forall i: int :: keep(i) <==> sample <= 1 || i % sample == 0
    ensures var m := Stride(sample);
            && |Kept(whole, keep, n)| == n / m
            && forall j :: 0 <= j < n / m ==> 0 <= Nth(j, m) < n && Kept(whole, keep, n)[j] == whole[Nth(j, m)]
  {
    var m := Stride(sample);
    if n == 0 {
      Quotient(0, m, 0, 0);
    } else {
      KeptAt(whole, keep, sample, n - 1);
      DivStep(n, m);
      assert keep(n) <==> n % m == 0;
      hide Nth;
      if n % m == 0 { NthLast(n, m); }
    }
  }

  /** The serial scan with sample `m` has one row for each `m`-th diff of the whole walk
      and shows nothing but what that diff's text gives. */
  lemma SerialScanSamplesTheWalk(s: Scanner, groups: seq<Group>, keep: int -> bool, sample: int)
    requires forall i: int :: keep(i) <==> sample <= 1 || i % sample == 0
    ensures var whole, rows, m := Whole(groups, |groups|), SerialRows(s, groups, keep, |groups|), Stride(sample);
            && |rows| == |whole| / m
            && forall j :: 0 <= j < |rows| ==> 0 <= Nth(j, m) < |whole| && Shows(s, whole[Nth(j, m)], rows[j])
  {
    hide SerialRows, Kept, Whole, Shows, Stride, Nth;
    var whole := Whole(groups, |groups|);
    KeptAt(whole, keep, sample, |whole|);
    SerialRowsShow(s, groups, keep, |groups|);
  }

  /** The tasks of the plan, put one after the other, cover the same diffs. */
  lemma PlanSamplesTheWalk(s: Scanner, groups: seq<Group>, keep: int -> bool, sample: int)
    requires forall i: int :: keep(i) <==> sample <= 1 || i % sample == 0
    ensures var plan, whole, m := Plan(s, groups, keep, |groups|), Whole(groups, |groups|), Stride(sample);
            var planned := Planned(plan, |plan|);
            && |planned| == |whole| / m
            && (forall j :: 0 <= j < |planned| ==>
                  0 <= Nth(j, m) < |whole| && planned[j] == whole[Nth(j, m)])
            && forall t :: t in plan ==> t.diffs != []
  {
    hide Plan, Planned, Kept, Whole, Stride, Nth;
    var whole := Whole(groups, |groups|);
    KeptAt(whole, keep, sample, |whole|);
    PlanCoversKept(s, groups, keep, |groups|);
  }

  /** The rule the scans are given. */
  lemma SamplingRule(sample: int, i: int)
    ensures EveryNth(sample)(i) <==> sample <= 1 || i % sample == 0
  {}
}
