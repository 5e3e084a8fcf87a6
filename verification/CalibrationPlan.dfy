/** What the planned scan, each package alone from its precomputed prefix, keeps of
    the serial walk.

    The two record different URLs: the walk leaves out declared URLs (an
    `url=` line, an install hook) and reads line-bounded text, the plan pass does
    neither. So the prefix of a task need not be the walk's global set, and the
    novelty in a fact can differ. The rows agree all the same, because the corpus
    scans report an empty history, under which novelty weighs nothing. */
module CalibrationPlan {
  import opened CalibrationScan
  import opened NoveltyScore

  /** The rows of the first `n` tasks, in plan order. */
  function FlatRows(s: Scanner, plan: seq<Task>, n: nat, count: int := 0): seq<Row>
    requires n <= |plan|
  {
    if n == 0 then [] else FlatRows(s, plan, n - 1, count) + TaskRows(s, plan[n - 1], count)
  }

  function ParallelRows(s: Scanner, groups: seq<Group>, keep: int -> bool, count: int := 0): seq<Row> {
    var plan := Plan(s, groups, keep, |groups|);
    FlatRows(s, plan, |plan|, count)
  }

  /** The fact and the row of diff `i` of package `k` if the packages before it had
      recorded `before`. */
  ghost function FactFrom(s: Scanner, groups: seq<Group>, keep: int -> bool, k: nat, i: nat, before: set<Url>,
                          count: int := 0): Fact
    requires k < |groups| && i < |Selected(groups, k, keep)|
  {
    DiffFact(s, groups[k].pkg, Selected(groups, k, keep), i, before, count)
  }

  ghost function RowFrom(s: Scanner, groups: seq<Group>, keep: int -> bool, k: nat, i: nat, before: set<Url>,
                         count: int := 0): Row
    requires k < |groups| && i < |Selected(groups, k, keep)|
  {
    DiffRow(s, groups[k].pkg, Selected(groups, k, keep), i, before, count)
  }

  /** The global news in that fact. */
  ghost function GlobalNews(s: Scanner, groups: seq<Group>, keep: int -> bool, k: nat, i: nat, before: set<Url>): News
    requires k < |groups| && i < |Selected(groups, k, keep)|
  {
    var diffs := Selected(groups, k, keep);
    NewsOf(s.ScanScored(groups[k].pkg, diffs[i].text), s.normalize, before + ScanUrls(s, groups[k].pkg, diffs, i))
  }

  /** For every sampled diff, what the packages before it recorded in the walk and
      what they recorded in the plan make the same URL the first new one. */
  ghost predicate InStep(s: Scanner, groups: seq<Group>, keep: int -> bool) {
    forall k: nat, i: nat | k < |groups| && i < |Selected(groups, k, keep)| :: NewsMatches(s, groups, keep, k, i)
  }

  ghost predicate NewsMatches(s: Scanner, groups: seq<Group>, keep: int -> bool, k: nat, i: nat)
    requires k < |groups| && i < |Selected(groups, k, keep)|
  {
    GlobalNews(s, groups, keep, k, i, ScannedBefore(s, groups, keep, k))
    == GlobalNews(s, groups, keep, k, i, PlannedBefore(s, groups, keep, k))
  }

  /** Weaker: both make some URL new, or none. */
  ghost predicate SeenInStep(s: Scanner, groups: seq<Group>, keep: int -> bool) {
    forall k: nat, i: nat | k < |groups| && i < |Selected(groups, k, keep)| :: SeenMatches(s, groups, keep, k, i)
  }

  ghost predicate SeenMatches(s: Scanner, groups: seq<Group>, keep: int -> bool, k: nat, i: nat)
    requires k < |groups| && i < |Selected(groups, k, keep)|
  {
    GlobalNews(s, groups, keep, k, i, ScannedBefore(s, groups, keep, k)).seen
    == GlobalNews(s, groups, keep, k, i, PlannedBefore(s, groups, keep, k)).seen
  }

  /** The diff's fact, or its row, is the same in both scans. */
  ghost predicate FactMatches(s: Scanner, groups: seq<Group>, keep: int -> bool, k: nat, i: nat, count: int := 0)
    requires k < |groups| && i < |Selected(groups, k, keep)|
  {
    FactFrom(s, groups, keep, k, i, ScannedBefore(s, groups, keep, k), count)
    == FactFrom(s, groups, keep, k, i, PlannedBefore(s, groups, keep, k), count)
  }

  ghost predicate RowMatches(s: Scanner, groups: seq<Group>, keep: int -> bool, k: nat, i: nat, count: int := 0)
    requires k < |groups| && i < |Selected(groups, k, keep)|
  {
    RowFrom(s, groups, keep, k, i, ScannedBefore(s, groups, keep, k), count)
    == RowFrom(s, groups, keep, k, i, PlannedBefore(s, groups, keep, k), count)
  }

  // ----- one diff from two global sets

  lemma SameFactIff(s: Scanner, groups: seq<Group>, keep: int -> bool, k: nat, i: nat, a: set<Url>, b: set<Url>,
                    count: int)
    requires k < |groups| && i < |Selected(groups, k, keep)|
    ensures FactFrom(s, groups, keep, k, i, a, count) == FactFrom(s, groups, keep, k, i, b, count)
       <==> GlobalNews(s, groups, keep, k, i, a) == GlobalNews(s, groups, keep, k, i, b)
  {
    hide Selected, NewsOf, ScanUrls, Score, Breakdown;
  }

  lemma SameShownIff(a: seq<Entry>, b: seq<Entry>, location: bool)
    requires a == b || |a| != |b|
    ensures ShownEntries(a, location) == ShownEntries(b, location) <==> a == b
  {
    assert |ShownEntries(a, location)| == |a| && |ShownEntries(b, location)| == |b|;
  }

  /** A row shows whether anything is globally new, if that weighs anything, and no
      more of the novelty verdict. */
  lemma SameRowIff(s: Scanner, groups: seq<Group>, keep: int -> bool, k: nat, i: nat, a: set<Url>, b: set<Url>,
                   count: int)
    requires k < |groups| && i < |Selected(groups, k, keep)|
    ensures RowFrom(s, groups, keep, k, i, a, count) == RowFrom(s, groups, keep, k, i, b, count)
       <==> NoveltyWeight(s.weights.globally, count) <= 0
            || GlobalNews(s, groups, keep, k, i, a).seen == GlobalNews(s, groups, keep, k, i, b).seen
  {
    var pkg, diffs := groups[k].pkg, Selected(groups, k, keep);
    var own := ScanUrls(s, pkg, diffs, i);
    var f := s.findings(pkg, diffs[i].text);
    var mine := Verdict(s, pkg, diffs[i].text, own, a + own).inPackage;
    var x, y := GlobalNews(s, groups, keep, k, i, a), GlobalNews(s, groups, keep, k, i, b);
    SameBreakdownIff(f, mine, x, y, s.weights, count);
    SameScore(f, mine, x, y, s.weights, count);
    var p, q := FactFrom(s, groups, keep, k, i, a, count), FactFrom(s, groups, keep, k, i, b, count);
    hide Selected, NewsOf, ScanUrls, Score, NoveltyWeight;
    assert p.breakdown == Breakdown(f, Novelty(mine, x), s.weights, count);
    assert q.breakdown == Breakdown(f, Novelty(mine, y), s.weights, count);
    BreakdownLength(f, mine, x, y, s.weights, count);
    hide Breakdown, ShownEntries;
    SameShownIff(p.breakdown, q.breakdown, s.location);
  }

  lemma SameScore(f: Findings, own: News, a: News, b: News, weights: Weights, count: int)
    ensures NoveltyWeight(weights.globally, count) <= 0 || a.seen == b.seen ==>
              Score(f, Novelty(own, a), weights, count) == Score(f, Novelty(own, b), weights, count)
  {
    hide NoveltyWeight, WeightSum;
  }

  lemma BreakdownLength(f: Findings, own: News, a: News, b: News, weights: Weights, count: int)
    ensures var x, y := Breakdown(f, Novelty(own, a), weights, count), Breakdown(f, Novelty(own, b), weights, count);
            x == y || |x| != |y|
  {
    hide NoveltyWeight;
  }

  // ----- the two walks as sequences of package results

  lemma {:induction false} PackageRowsAt(s: Scanner, pkg: Package, diffs: seq<Diff>, n: nat, global: set<Url>,
                                         count: int)
    requires n <= |diffs|
    ensures |PackageRows(s, pkg, diffs, n, global, count)| == n
    ensures forall i :: 0 <= i < n ==>
              PackageRows(s, pkg, diffs, n, global, count)[i] == DiffRow(s, pkg, diffs, i, global, count)
  {
    hide DiffRow;
    if n > 0 { PackageRowsAt(s, pkg, diffs, n - 1, global, count); }
  }

  lemma {:induction false} FlatRowsPrefix(s: Scanner, a: seq<Task>, b: seq<Task>, n: nat, count: int)
    requires n <= |a| && a <= b
    ensures FlatRows(s, b, n, count) == FlatRows(s, a, n, count)
  {
    hide TaskRows;
    if n > 0 { FlatRowsPrefix(s, a, b, n - 1, count); }
  }

  /** One more package adds the rows of its task, from the planned prefix. */
  lemma PlanStep(s: Scanner, groups: seq<Group>, keep: int -> bool, k: nat, count: int)
    requires k < |groups|
    ensures var a, b := Plan(s, groups, keep, k), Plan(s, groups, keep, k + 1);
            FlatRows(s, b, |b|, count)
            == FlatRows(s, a, |a|, count)
               + TaskRows(s, Task(groups[k].pkg, Selected(groups, k, keep), PlannedBefore(s, groups, keep, k)), count)
  {
    hide Thin, ScanUrls, DiffRow, PlannedBefore;
    var a, b := Plan(s, groups, keep, k), Plan(s, groups, keep, k + 1);
    FlatRowsPrefix(s, a, b, |a|, count);
    if Selected(groups, k, keep) == [] {
      assert a == b;
    } else {
      assert b[|a|] == Task(groups[k].pkg, Selected(groups, k, keep), PlannedBefore(s, groups, keep, k));
    }
  }

  /** Each diff of package `k` gets one row from both prefixes. */
  ghost predicate RowsMatchIn(s: Scanner, groups: seq<Group>, keep: int -> bool, k: nat, count: int)
    requires k < |groups|
  {
    forall i: nat | i < |Selected(groups, k, keep)| :: RowMatches(s, groups, keep, k, i, count)
  }

  /** The rows of a package in the walk and in the scan of its task. */
  lemma PackageRowsMatch(s: Scanner, groups: seq<Group>, keep: int -> bool, k: nat, count: int)
    requires k < |groups|
    ensures var pkg, diffs := groups[k].pkg, Selected(groups, k, keep);
            var x := TaskRows(s, Task(pkg, diffs, ScannedBefore(s, groups, keep, k)), count);
            var y := TaskRows(s, Task(pkg, diffs, PlannedBefore(s, groups, keep, k)), count);
            |x| == |y| && (x == y <==> RowsMatchIn(s, groups, keep, k, count))
  {
    hide Thin, Selected, ScannedBefore, PlannedBefore, PackageRows, DiffRow;
    var pkg, diffs := groups[k].pkg, Selected(groups, k, keep);
    var a, b := ScannedBefore(s, groups, keep, k), PlannedBefore(s, groups, keep, k);
    PackageRowsAt(s, pkg, diffs, |diffs|, a, count);
    PackageRowsAt(s, pkg, diffs, |diffs|, b, count);
    var x, y := TaskRows(s, Task(pkg, diffs, a), count), TaskRows(s, Task(pkg, diffs, b), count);
    if x == y {
      forall i: nat | i < |diffs|
        ensures RowMatches(s, groups, keep, k, i, count)
      {
        assert x[i] == y[i];
      }
    }
    if RowsMatchIn(s, groups, keep, k, count) {
      forall i: nat | i < |diffs| ensures x[i] == y[i] {
        assert RowMatches(s, groups, keep, k, i, count);
      }
    }
  }

  /** Nothing shifts: both scans have one row a sampled diff in the same order, so
      they agree exactly when each diff's two rows do. */
  lemma {:induction false} RowsMatchUpTo(s: Scanner, groups: seq<Group>, keep: int -> bool, n: nat, count: int)
    requires n <= |groups|
    ensures var plan := Plan(s, groups, keep, n);
            var flat, serial := FlatRows(s, plan, |plan|, count), SerialRows(s, groups, keep, n, count);
            |flat| == |serial| && (flat == serial <==> forall k: nat | k < n :: RowsMatchIn(s, groups, keep, k, count))
  {
    hide Thin, Plan, PackageRows, Selected, RowsMatchIn, TaskRows, PlannedBefore, ScannedBefore;
    if n == 0 {
      RowsMatchStart(s, groups, keep, count);
    } else {
      RowsMatchUpTo(s, groups, keep, n - 1, count);
      PlanStep(s, groups, keep, n - 1, count);
      PackageRowsMatch(s, groups, keep, n - 1, count);
      hide FlatRows;
      var plan0, plan1 := Plan(s, groups, keep, n - 1), Plan(s, groups, keep, n);
      var f0, f1 := FlatRows(s, plan0, |plan0|, count), FlatRows(s, plan1, |plan1|, count);
      var s0, s1 := SerialRows(s, groups, keep, n - 1, count), SerialRows(s, groups, keep, n, count);
      assert f1[..|f0|] == f0 && s1[..|s0|] == s0;
      assert f1 == f0 + f1[|f0|..] && s1 == s0 + s1[|s0|..];
    }
  }

  lemma RowsMatchStart(s: Scanner, groups: seq<Group>, keep: int -> bool, count: int)
    ensures Plan(s, groups, keep, 0) == [] && FlatRows(s, [], 0, count) == []
    ensures SerialRows(s, groups, keep, 0, count) == []
  {}

  /** The rows of the parallel scan are the rows of the serial walk, at any
      observation count, exactly when global novelty weighs nothing or every diff
      is told the same about it: whether some URL is new. */
  lemma RowsMatchIff(s: Scanner, groups: seq<Group>, keep: int -> bool, count: int)
    ensures ParallelRows(s, groups, keep, count) == SerialRows(s, groups, keep, |groups|, count)
       <==> NoveltyWeight(s.weights.globally, count) <= 0 || SeenInStep(s, groups, keep)
  {
    hide Plan, FlatRows, SerialRows, Selected, ScannedBefore, PlannedBefore, RowMatches, SeenMatches, NoveltyWeight;
    RowsMatchUpTo(s, groups, keep, |groups|, count);
    forall k: nat, i: nat | k < |groups| && i < |Selected(groups, k, keep)|
      ensures RowMatches(s, groups, keep, k, i, count)
         <==> NoveltyWeight(s.weights.globally, count) <= 0 || SeenMatches(s, groups, keep, k, i)
    {
      RowMatchIff(s, groups, keep, k, i, count);
    }
    if forall k: nat | k < |groups| :: RowsMatchIn(s, groups, keep, k, count) {
      forall k: nat, i: nat | k < |groups| && i < |Selected(groups, k, keep)|
        ensures RowMatches(s, groups, keep, k, i, count)
      {
        assert RowsMatchIn(s, groups, keep, k, count);
      }
    }
  }

  lemma RowMatchIff(s: Scanner, groups: seq<Group>, keep: int -> bool, k: nat, i: nat, count: int)
    requires k < |groups| && i < |Selected(groups, k, keep)|
    ensures RowMatches(s, groups, keep, k, i, count)
       <==> NoveltyWeight(s.weights.globally, count) <= 0 || SeenMatches(s, groups, keep, k, i)
  {
    hide Selected, ScannedBefore, PlannedBefore, RowFrom, GlobalNews, NoveltyWeight;
    SameRowIff(s, groups, keep, k, i, ScannedBefore(s, groups, keep, k), PlannedBefore(s, groups, keep, k), count);
  }

  /** The rows the corpus scans make: parallel and serial agree on every corpus, for
      every sampling rule, because both report an empty history. */
  lemma CorpusRowsAreSerial(s: Scanner, groups: seq<Group>, keep: int -> bool)
    ensures ParallelRows(s, groups, keep) == SerialRows(s, groups, keep, |groups|)
  {
    hide ParallelRows, SerialRows, SeenInStep;
    ColdWeight(s.weights.globally, 0);
    RowsMatchIff(s, groups, keep, 0);
  }

  /** The facts behind the rows show the whole verdict: they agree, at any count,
      exactly when no diff's first new URL depends on which record was kept. */
  lemma FactsMatchIff(s: Scanner, groups: seq<Group>, keep: int -> bool, count: int)
    ensures (forall k: nat, i: nat | k < |groups| && i < |Selected(groups, k, keep)| ::
               FactMatches(s, groups, keep, k, i, count))
       <==> InStep(s, groups, keep)
  {
    hide Selected, FactMatches, NewsMatches;
    forall k: nat, i: nat | k < |groups| && i < |Selected(groups, k, keep)|
      ensures FactMatches(s, groups, keep, k, i, count) <==> NewsMatches(s, groups, keep, k, i)
    {
      FactMatchIff(s, groups, keep, k, i, count);
    }
  }

  lemma FactMatchIff(s: Scanner, groups: seq<Group>, keep: int -> bool, k: nat, i: nat, count: int)
    requires k < |groups| && i < |Selected(groups, k, keep)|
    ensures FactMatches(s, groups, keep, k, i, count) <==> NewsMatches(s, groups, keep, k, i)
  {
    hide Selected, ScannedBefore, PlannedBefore, FactFrom, GlobalNews;
    SameFactIff(s, groups, keep, k, i, ScannedBefore(s, groups, keep, k), PlannedBefore(s, groups, keep, k), count);
  }

  // ----- when the condition holds

  /** A verdict says whether any URL is new and names the first new one. */
  lemma {:induction false} NewsMeaning(urls: seq<Url>, normalize: Url -> Url, known: set<Url>)
    ensures NewsOf(urls, normalize, known).seen <==> exists u :: u in urls && normalize(u) !in known
    ensures "" !in urls ==> NewsOf(urls, normalize, known).url == FirstNew(urls, normalize, known)
  {
    NewsFromMeaning(urls, normalize, known, News(false, ""));
  }

  /** The first URL whose normal form is not known, "" when there is none. */
  ghost function FirstNew(urls: seq<Url>, normalize: Url -> Url, known: set<Url>): Url {
    if urls == [] then ""
    else if normalize(urls[0]) !in known then urls[0]
    else FirstNew(urls[1..], normalize, known)
  }

  lemma {:induction false} NewsFromMeaning(urls: seq<Url>, normalize: Url -> Url, known: set<Url>, n: News)
    ensures var r := NewsFrom(urls, normalize, known, n);
            && (r.seen <==> n.seen || exists u :: u in urls && normalize(u) !in known)
            && (n.url != "" ==> r.url == n.url)
            && ("" !in urls && n.url == "" ==> r.url == FirstNew(urls, normalize, known))
  {
    if urls != [] {
      assert urls == [urls[0]] + urls[1..];
      if normalize(urls[0]) in known {
        NewsFromMeaning(urls[1..], normalize, known, n);
      } else {
        var first := if n.url == "" then urls[0] else n.url;
        NewsFromMeaning(urls[1..], normalize, known + {normalize(urls[0])}, News(true, first));
        assert urls[0] in urls;
      }
    }
  }

  lemma {:induction false} FirstNewMeaning(urls: seq<Url>, normalize: Url -> Url, known: set<Url>)
    requires "" !in urls
    ensures FirstNew(urls, normalize, known) == "" <==> forall u :: u in urls ==> normalize(u) in known
    ensures FirstNew(urls, normalize, known) != "" ==>
              FirstNew(urls, normalize, known) in urls && normalize(FirstNew(urls, normalize, known)) !in known
  {
    if urls != [] {
      assert urls == [urls[0]] + urls[1..];
      if normalize(urls[0]) in known {
        FirstNewMeaning(urls[1..], normalize, known);
      } else {
        assert urls[0] in urls;
      }
    }
  }

  /** Position `i` of the added URLs counts: neither declared nor acknowledged. */
  ghost predicate Counts(s: Scanner, pkg: Package, x: Extraction, i: nat)
    requires i < |x.added|
  {
    x.added[i] !in x.declared && !s.acked(pkg, x.added[i])
  }

  /** The first unknown URL among those a rule keeps is the first that it keeps and
      that is unknown. */
  lemma {:induction false} FirstKept(added: seq<Url>, p: Url -> bool, normalize: Url -> Url, known: set<Url>)
    returns (i: nat)
    requires FirstNew(Keep(added, p), normalize, known) != ""
    ensures var url := FirstNew(Keep(added, p), normalize, known);
            && i < |added| && added[i] == url && p(url) && normalize(url) !in known
            && forall j :: 0 <= j < i && p(added[j]) ==> normalize(added[j]) in known
  {
    var kept, rest := Keep(added, p), Keep(added[1..], p);
    assert if p(added[0]) then kept[0] == added[0] && kept[1..] == rest else kept == rest;
    if p(added[0]) && normalize(added[0]) !in known {
      i := 0;
    } else {
      i := FirstKept(added[1..], p, normalize, known);
      assert forall j :: 0 < j < i + 1 ==> added[j] == added[1..][j - 1];
      i := i + 1;
    }
  }

  /** What the scanner makes of a diff, told from the URLs of its bounded text: it
      records the normal form of each that counts; the global verdict is whether one
      of them is unknown, and names the first such one. */
  lemma VerdictMeaning(s: Scanner, pkg: Package, text: Text, own: set<Url>, global: set<Url>)
    ensures var x := s.extract(s.bound(text));
            var news := Verdict(s, pkg, text, own, global).globally;
            && (forall y :: y in Norms(s.ScanScored(pkg, text), s.normalize)
                  <==> exists i :: 0 <= i < |x.added| && Counts(s, pkg, x, i) && s.normalize(x.added[i]) == y)
            && (news.seen <==> exists i ::
                  0 <= i < |x.added| && Counts(s, pkg, x, i) && s.normalize(x.added[i]) !in global)
            && ("" !in x.added && news.seen ==>
                  exists i :: && 0 <= i < |x.added| && x.added[i] == news.url && Counts(s, pkg, x, i)
                              && s.normalize(news.url) !in global
                              && forall j :: 0 <= j < i && Counts(s, pkg, x, j) ==> s.normalize(x.added[j]) in global)
  {
    var x := s.extract(s.bound(text));
    var urls := s.ScanScored(pkg, text);
    KeepMembers(x.added, u => u !in x.declared && !s.acked(pkg, u));
    NewsMeaning(urls, s.normalize, global);
    forall u ensures u in urls <==> exists i :: 0 <= i < |x.added| && x.added[i] == u && Counts(s, pkg, x, i) {
      if u in urls { var i :| 0 <= i < |x.added| && x.added[i] == u; assert Counts(s, pkg, x, i); }
    }
    hide Keep, NewsOf;
    if "" !in x.added && NewsOf(urls, s.normalize, global).seen {
      FirstNewMeaning(urls, s.normalize, global);
      var i := FirstKept(x.added, u => u !in x.declared && !s.acked(pkg, u), s.normalize, global);
    }
  }

  /** What the plan pass records for a diff, told from the URLs of its whole text. */
  lemma PlanRecordMeaning(s: Scanner, pkg: Package, text: Text)
    ensures var added := s.extract(text).added;
            forall y :: y in Norms(s.PlanScored(pkg, text), s.normalize)
              <==> exists u :: u in added && !s.acked(pkg, u) && s.normalize(u) == y
  {
    KeepMembers(s.extract(text).added, u => !s.acked(pkg, u));
  }

  /** The package's verdict is the same question asked of the package's own set. */
  lemma OwnVerdict(s: Scanner, pkg: Package, text: Text, own: set<Url>, global: set<Url>)
    ensures Verdict(s, pkg, text, own, global).inPackage == Verdict(s, pkg, text, global, own).globally
  {}

  lemma {:induction false} FirstNewLarger(urls: seq<Url>, normalize: Url -> Url, small: set<Url>, large: set<Url>)
    requires small <= large && "" !in urls
    ensures FirstNew(urls, normalize, small) == FirstNew(urls, normalize, large)
       <==> FirstNew(urls, normalize, small) == "" || normalize(FirstNew(urls, normalize, small)) !in large
  {
    FirstNewMeaning(urls, normalize, small);
    FirstNewMeaning(urls, normalize, large);
    if urls != [] && normalize(urls[0]) in small {
      assert urls == [urls[0]] + urls[1..];
      FirstNewLarger(urls[1..], normalize, small, large);
    }
  }

  /** Nothing is cut from the sampled diffs, and no URL is the empty string. */
  ghost predicate PlainCorpus(s: Scanner, groups: seq<Group>, keep: int -> bool) {
    forall k: nat, i: nat | k < |groups| && i < |Selected(groups, k, keep)| ::
      var text := Selected(groups, k, keep)[i].text;
      s.bound(text) == text && "" !in s.ScanScored(groups[k].pkg, text)
  }

  /** The first globally new URL of a diff in the serial walk, "" if none. */
  ghost function FirstNewOf(s: Scanner, groups: seq<Group>, keep: int -> bool, k: nat, i: nat): Url
    requires k < |groups| && i < |Selected(groups, k, keep)|
  {
    var diffs := Selected(groups, k, keep);
    FirstNew(s.ScanScored(groups[k].pkg, diffs[i].text), s.normalize,
             ScannedBefore(s, groups, keep, k) + ScanUrls(s, groups[k].pkg, diffs, i))
  }

  /** No diff's first new URL was recorded by the plan for an earlier package,
      where it can only have been a declared one. */
  ghost predicate NoPhantom(s: Scanner, groups: seq<Group>, keep: int -> bool) {
    forall k: nat, i: nat | k < |groups| && i < |Selected(groups, k, keep)| :: NotPhantom(s, groups, keep, k, i)
  }

  ghost predicate NotPhantom(s: Scanner, groups: seq<Group>, keep: int -> bool, k: nat, i: nat)
    requires k < |groups| && i < |Selected(groups, k, keep)|
  {
    FirstNewOf(s, groups, keep, k, i) == ""
    || s.normalize(FirstNewOf(s, groups, keep, k, i)) !in PlannedBefore(s, groups, keep, k)
  }

  /** A diff with a new URL in the walk keeps one that neither the planned prefix
      nor its package's earlier diffs recorded. */
  ghost predicate NotSilenced(s: Scanner, groups: seq<Group>, keep: int -> bool, k: nat, i: nat)
    requires k < |groups| && i < |Selected(groups, k, keep)|
  {
    var diffs := Selected(groups, k, keep);
    FirstNewOf(s, groups, keep, k, i) == ""
    || exists u :: u in s.ScanScored(groups[k].pkg, diffs[i].text)
                   && s.normalize(u) !in PlannedBefore(s, groups, keep, k) + ScanUrls(s, groups[k].pkg, diffs, i)
  }

  /** On uncut diffs the rows of a scan with some history agree exactly when the
      prefix silences no diff that the walk finds new. */
  lemma WarmRowsMatchIff(s: Scanner, groups: seq<Group>, keep: int -> bool, count: int)
    requires PlainCorpus(s, groups, keep) && NoveltyWeight(s.weights.globally, count) > 0
    ensures ParallelRows(s, groups, keep, count) == SerialRows(s, groups, keep, |groups|, count)
       <==> forall k: nat, i: nat | k < |groups| && i < |Selected(groups, k, keep)| ::
              NotSilenced(s, groups, keep, k, i)
  {
    hide ParallelRows, SerialRows, Selected, SeenMatches, NotSilenced, NoveltyWeight;
    RowsMatchIff(s, groups, keep, count);
    forall k: nat, i: nat | k < |groups| && i < |Selected(groups, k, keep)|
      ensures SeenMatches(s, groups, keep, k, i) <==> NotSilenced(s, groups, keep, k, i)
    {
      SameNews(s, groups, keep, k, i);
    }
  }

  lemma {:induction false} KeepMembers<T>(a: seq<T>, p: T -> bool)
    ensures forall x :: x in Keep(a, p) <==> x in a && p(x)
  {
    if a != [] {
      KeepMembers(a[1..], p);
      assert a == [a[0]] + a[1..];
    }
  }

  lemma ScoredIsPlanned(s: Scanner, pkg: Package, text: Text)
    requires s.bound(text) == text
    ensures Norms(s.ScanScored(pkg, text), s.normalize) <= Norms(s.PlanScored(pkg, text), s.normalize)
  {
    var x := s.extract(text);
    KeepMembers(x.added, u => u !in x.declared && !s.acked(pkg, u));
    KeepMembers(x.added, u => !s.acked(pkg, u));
  }

  lemma {:induction false} UrlsPlanned(s: Scanner, pkg: Package, diffs: seq<Diff>, n: nat)
    requires n <= |diffs| && forall i :: 0 <= i < |diffs| ==> s.bound(diffs[i].text) == diffs[i].text
    ensures ScanUrls(s, pkg, diffs, n) <= PlanUrls(s, pkg, diffs, n)
  {
    hide Norms;
    if n > 0 {
      UrlsPlanned(s, pkg, diffs, n - 1);
      ScoredIsPlanned(s, pkg, diffs[n - 1].text);
    }
  }

  /** On uncut diffs the prefix can only be too large. */
  lemma {:induction false} PrefixCoversWalk(s: Scanner, groups: seq<Group>, keep: int -> bool, k: nat)
    requires PlainCorpus(s, groups, keep) && k <= |groups|
    ensures ScannedBefore(s, groups, keep, k) <= PlannedBefore(s, groups, keep, k)
  {
    if k > 0 {
      hide ScanUrls, PlanUrls, Thin;
      PrefixCoversWalk(s, groups, keep, k - 1);
      var diffs := Selected(groups, k - 1, keep);
      UrlsPlanned(s, groups[k - 1].pkg, diffs, |diffs|);
    }
  }

  /** On uncut diffs the two scans agree exactly when no first new URL is a
      phantom: one a caller can look up in the URLs of the corpus. */
  lemma InStepIffNoPhantom(s: Scanner, groups: seq<Group>, keep: int -> bool)
    requires PlainCorpus(s, groups, keep)
    ensures InStep(s, groups, keep) <==> NoPhantom(s, groups, keep)
  {
    hide Selected, NewsMatches, FirstNewOf, PlannedBefore;
    forall k: nat, i: nat | k < |groups| && i < |Selected(groups, k, keep)|
      ensures NewsMatches(s, groups, keep, k, i) <==> NotPhantom(s, groups, keep, k, i)
    {
      SameNews(s, groups, keep, k, i);
    }
  }

  lemma SameNews(s: Scanner, groups: seq<Group>, keep: int -> bool, k: nat, i: nat)
    requires PlainCorpus(s, groups, keep) && k < |groups| && i < |Selected(groups, k, keep)|
    ensures NewsMatches(s, groups, keep, k, i) <==> NotPhantom(s, groups, keep, k, i)
    ensures SeenMatches(s, groups, keep, k, i) <==> NotSilenced(s, groups, keep, k, i)
  {
    hide Selected, ScannedBefore, PlannedBefore, NewsOf, FirstNew, Norms;
    var diffs := Selected(groups, k, keep);
    var urls := s.ScanScored(groups[k].pkg, diffs[i].text);
    var own := ScanUrls(s, groups[k].pkg, diffs, i);
    var a, b := ScannedBefore(s, groups, keep, k), PlannedBefore(s, groups, keep, k);
    PrefixCoversWalk(s, groups, keep, k);
    NewsMeaning(urls, s.normalize, a + own);
    NewsMeaning(urls, s.normalize, b + own);
    FirstNewMeaning(urls, s.normalize, a + own);
    FirstNewMeaning(urls, s.normalize, b + own);
    FirstNewLarger(urls, s.normalize, a + own, b + own);
  }

  // ----- when the prefix is the serial state

  /** Some sampled diff of the first `n` packages has a scored URL of this normal form. */
  ghost predicate WalkRecords(s: Scanner, groups: seq<Group>, keep: int -> bool, n: nat, x: Url)
    requires n <= |groups|
  {
    exists k: nat, i: nat | k < n && i < |Selected(groups, k, keep)| ::
      HasUrl(s.ScanScored(groups[k].pkg, Selected(groups, k, keep)[i].text), s.normalize, x)
  }

  /** The same of an added URL that is not acknowledged. */
  ghost predicate PlanRecords(s: Scanner, groups: seq<Group>, keep: int -> bool, n: nat, x: Url)
    requires n <= |groups|
  {
    exists k: nat, i: nat | k < n && i < |Selected(groups, k, keep)| ::
      HasUrl(s.PlanScored(groups[k].pkg, Selected(groups, k, keep)[i].text), s.normalize, x)
  }

  ghost predicate HasUrl(urls: seq<Url>, normalize: Url -> Url, x: Url) {
    exists u :: u in urls && normalize(u) == x
  }

  lemma {:induction false} ScanUrlsMembers(s: Scanner, pkg: Package, diffs: seq<Diff>, n: nat, x: Url)
    requires n <= |diffs|
    ensures x in ScanUrls(s, pkg, diffs, n)
       <==> exists i: nat | i < n :: HasUrl(s.ScanScored(pkg, diffs[i].text), s.normalize, x)
  {
    hide Keep;
    if n > 0 { ScanUrlsMembers(s, pkg, diffs, n - 1, x); }
  }

  lemma {:induction false} PlanUrlsMembers(s: Scanner, pkg: Package, diffs: seq<Diff>, n: nat, x: Url)
    requires n <= |diffs|
    ensures x in PlanUrls(s, pkg, diffs, n)
       <==> exists i: nat | i < n :: HasUrl(s.PlanScored(pkg, diffs[i].text), s.normalize, x)
  {
    hide Keep;
    if n > 0 { PlanUrlsMembers(s, pkg, diffs, n - 1, x); }
  }

  lemma {:induction false} ScannedBeforeMembers(s: Scanner, groups: seq<Group>, keep: int -> bool, n: nat, x: Url)
    requires n <= |groups|
    ensures x in ScannedBefore(s, groups, keep, n) <==> WalkRecords(s, groups, keep, n, x)
  {
    hide Selected, HasUrl, Keep, ScanUrls;
    if n > 0 {
      ScannedBeforeMembers(s, groups, keep, n - 1, x);
      var diffs := Selected(groups, n - 1, keep);
      ScanUrlsMembers(s, groups[n - 1].pkg, diffs, |diffs|, x);
    }
  }

  lemma {:induction false} PlannedBeforeMembers(s: Scanner, groups: seq<Group>, keep: int -> bool, n: nat, x: Url)
    requires n <= |groups|
    ensures x in PlannedBefore(s, groups, keep, n) <==> PlanRecords(s, groups, keep, n, x)
  {
    hide Selected, HasUrl, Keep, PlanUrls;
    if n > 0 {
      PlannedBeforeMembers(s, groups, keep, n - 1, x);
      var diffs := Selected(groups, n - 1, keep);
      PlanUrlsMembers(s, groups[n - 1].pkg, diffs, |diffs|, x);
    }
  }

  /** Every added, unacknowledged URL of a sampled diff of package `j` is scored, in
      its normal form, by some sampled diff of the packages up to `j`. */
  ghost predicate AddedAreScored(s: Scanner, groups: seq<Group>, keep: int -> bool, j: nat)
    requires j < |groups|
  {
    forall i: nat, u | i < |Selected(groups, j, keep)|
                       && u in s.PlanScored(groups[j].pkg, Selected(groups, j, keep)[i].text) ::
      WalkRecords(s, groups, keep, j + 1, s.normalize(u))
  }

  /** Every scored URL of package `j` is, in its normal form, added and
      unacknowledged in some sampled diff up to `j`: it is not an artefact of a cut line. */
  ghost predicate ScoredAreAdded(s: Scanner, groups: seq<Group>, keep: int -> bool, j: nat)
    requires j < |groups|
  {
    forall i: nat, u | i < |Selected(groups, j, keep)|
                       && u in s.ScanScored(groups[j].pkg, Selected(groups, j, keep)[i].text) ::
      PlanRecords(s, groups, keep, j + 1, s.normalize(u))
  }

  lemma RecordsGrow(s: Scanner, groups: seq<Group>, keep: int -> bool, m: nat, n: nat, x: Url)
    requires m <= n <= |groups|
    ensures WalkRecords(s, groups, keep, m, x) ==> WalkRecords(s, groups, keep, n, x)
    ensures PlanRecords(s, groups, keep, m, x) ==> PlanRecords(s, groups, keep, n, x)
  {
    hide Selected, HasUrl, Keep;
  }

  lemma RecordsAt(s: Scanner, groups: seq<Group>, keep: int -> bool, j: nat, i: nat, u: Url)
    requires j < |groups| && i < |Selected(groups, j, keep)|
    ensures u in s.ScanScored(groups[j].pkg, Selected(groups, j, keep)[i].text) ==>
              WalkRecords(s, groups, keep, j + 1, s.normalize(u))
    ensures u in s.PlanScored(groups[j].pkg, Selected(groups, j, keep)[i].text) ==>
              PlanRecords(s, groups, keep, j + 1, s.normalize(u))
  {
    hide Selected, Keep;
    var text := Selected(groups, j, keep)[i].text;
    if u in s.ScanScored(groups[j].pkg, text) {
      assert HasUrl(s.ScanScored(groups[j].pkg, text), s.normalize, s.normalize(u));
    }
    if u in s.PlanScored(groups[j].pkg, text) {
      assert HasUrl(s.PlanScored(groups[j].pkg, text), s.normalize, s.normalize(u));
    }
  }

  /** What is recorded before `n` is scored, if that holds package by package. */
  lemma PlannedIsScanned(s: Scanner, groups: seq<Group>, keep: int -> bool, n: nat, x: Url)
    requires n <= |groups| && forall j: nat | j < n :: AddedAreScored(s, groups, keep, j)
    requires PlanRecords(s, groups, keep, n, x)
    ensures WalkRecords(s, groups, keep, n, x)
  {
    hide Selected, Keep, WalkRecords;
    var k: nat, i: nat :| k < n && i < |Selected(groups, k, keep)|
      && HasUrl(s.PlanScored(groups[k].pkg, Selected(groups, k, keep)[i].text), s.normalize, x);
    assert AddedAreScored(s, groups, keep, k);
    RecordsGrow(s, groups, keep, k + 1, n, x);
  }

  lemma ScannedIsPlanned(s: Scanner, groups: seq<Group>, keep: int -> bool, n: nat, x: Url)
    requires n <= |groups| && forall j: nat | j < n :: ScoredAreAdded(s, groups, keep, j)
    requires WalkRecords(s, groups, keep, n, x)
    ensures PlanRecords(s, groups, keep, n, x)
  {
    hide Selected, Keep, PlanRecords;
    var k: nat, i: nat :| k < n && i < |Selected(groups, k, keep)|
      && HasUrl(s.ScanScored(groups[k].pkg, Selected(groups, k, keep)[i].text), s.normalize, x);
    assert ScoredAreAdded(s, groups, keep, k);
    RecordsGrow(s, groups, keep, k + 1, n, x);
  }

  /** The prefixes of the first `n` packages and of what follows them are the serial
      global sets. */
  ghost predicate PrefixesMatch(s: Scanner, groups: seq<Group>, keep: int -> bool, n: nat)
    requires n <= |groups|
  {
    forall k: nat | k <= n :: PlannedBefore(s, groups, keep, k) == ScannedBefore(s, groups, keep, k)
  }

  lemma MatchMeansCovered(s: Scanner, groups: seq<Group>, keep: int -> bool, n: nat, j: nat)
    requires j < n <= |groups| && PrefixesMatch(s, groups, keep, n)
    ensures AddedAreScored(s, groups, keep, j) && ScoredAreAdded(s, groups, keep, j)
  {
    hide Selected, ScannedBefore, PlannedBefore, WalkRecords, PlanRecords, Keep;
    assert PlannedBefore(s, groups, keep, j + 1) == ScannedBefore(s, groups, keep, j + 1);
    forall i: nat, u | i < |Selected(groups, j, keep)|
                       && u in s.PlanScored(groups[j].pkg, Selected(groups, j, keep)[i].text)
      ensures WalkRecords(s, groups, keep, j + 1, s.normalize(u))
    {
      RecordsAt(s, groups, keep, j, i, u);
      PlannedBeforeMembers(s, groups, keep, j + 1, s.normalize(u));
      ScannedBeforeMembers(s, groups, keep, j + 1, s.normalize(u));
    }
    forall i: nat, u | i < |Selected(groups, j, keep)|
                       && u in s.ScanScored(groups[j].pkg, Selected(groups, j, keep)[i].text)
      ensures PlanRecords(s, groups, keep, j + 1, s.normalize(u))
    {
      RecordsAt(s, groups, keep, j, i, u);
      PlannedBeforeMembers(s, groups, keep, j + 1, s.normalize(u));
      ScannedBeforeMembers(s, groups, keep, j + 1, s.normalize(u));
    }
  }

  /** The plan's prefix is the serial global set on entry to each of the packages
      `0..n`, on any corpus, exactly when in each package before `n` every added
      URL is scored by then and every scored one is added by then. With
      `n == |groups| - 1` these are the prefixes that tasks are given. */
  lemma PrefixIsSerialState(s: Scanner, groups: seq<Group>, keep: int -> bool, n: nat)
    requires n <= |groups|
    ensures PrefixesMatch(s, groups, keep, n)
       <==> forall j: nat | j < n :: AddedAreScored(s, groups, keep, j) && ScoredAreAdded(s, groups, keep, j)
  {
    hide ScannedBefore, PlannedBefore, AddedAreScored, ScoredAreAdded, WalkRecords, PlanRecords;
    if PrefixesMatch(s, groups, keep, n) {
      forall j: nat | j < n ensures AddedAreScored(s, groups, keep, j) && ScoredAreAdded(s, groups, keep, j) {
        MatchMeansCovered(s, groups, keep, n, j);
      }
    }
    if forall j: nat | j < n :: AddedAreScored(s, groups, keep, j) && ScoredAreAdded(s, groups, keep, j) {
      forall k: nat | k <= n ensures PlannedBefore(s, groups, keep, k) == ScannedBefore(s, groups, keep, k) {
        forall x ensures x in PlannedBefore(s, groups, keep, k) <==> x in ScannedBefore(s, groups, keep, k) {
          PlannedBeforeMembers(s, groups, keep, k, x);
          ScannedBeforeMembers(s, groups, keep, k, x);
          if PlanRecords(s, groups, keep, k, x) { PlannedIsScanned(s, groups, keep, k, x); }
          if WalkRecords(s, groups, keep, k, x) { ScannedIsPlanned(s, groups, keep, k, x); }
        }
      }
    }
  }

  /** No line of a sampled diff is cut. */
  ghost predicate Uncut(s: Scanner, groups: seq<Group>, keep: int -> bool) {
    forall k: nat, i: nat | k < |groups| && i < |Selected(groups, k, keep)| ::
      s.bound(Selected(groups, k, keep)[i].text) == Selected(groups, k, keep)[i].text
  }

  lemma UncutScoredAreAdded(s: Scanner, groups: seq<Group>, keep: int -> bool, j: nat)
    requires Uncut(s, groups, keep) && j < |groups|
    ensures ScoredAreAdded(s, groups, keep, j)
  {
    hide Selected, PlanRecords;
    forall i: nat, u | i < |Selected(groups, j, keep)|
                       && u in s.ScanScored(groups[j].pkg, Selected(groups, j, keep)[i].text)
      ensures PlanRecords(s, groups, keep, j + 1, s.normalize(u))
    {
      var x := s.extract(Selected(groups, j, keep)[i].text);
      KeepMembers(x.added, u => u !in x.declared && !s.acked(groups[j].pkg, u));
      KeepMembers(x.added, u => !s.acked(groups[j].pkg, u));
      RecordsAt(s, groups, keep, j, i, u);
    }
  }

  /** On uncut diffs one half is left: every added, unacknowledged URL has been
      scored by the time the next package starts. */
  lemma UncutPrefixIsSerialState(s: Scanner, groups: seq<Group>, keep: int -> bool, n: nat)
    requires Uncut(s, groups, keep) && n <= |groups|
    ensures PrefixesMatch(s, groups, keep, n) <==> forall j: nat | j < n :: AddedAreScored(s, groups, keep, j)
  {
    hide PrefixesMatch, AddedAreScored, ScoredAreAdded, Uncut;
    PrefixIsSerialState(s, groups, keep, n);
    forall j: nat | j < n ensures ScoredAreAdded(s, groups, keep, j) { UncutScoredAreAdded(s, groups, keep, j); }
  }

  // ----- a corpus where the prefix is not the serial state

  /** Two packages of one diff each: the first names a URL on its `url=` line,
      the second fetches it. */
  const PHANTOM_SCANNER: Scanner :=
    Scanner((t: Text) => Extraction(["u"], if t == "url=u" then {"u"} else {}),
            (t: Text) => t, (p: Package, u: Url) => false, (u: Url) => u,
            (p: Package, t: Text) => Findings([], []), (t: Text) => 1, Weights(15.0, 5.0), false)

  const PHANTOM_CORPUS: seq<Group> :=
    [Group("aaa", [Diff(["aaa.diff"], "url=u")]), Group("bbb", [Diff(["bbb.diff"], "source=u")])]

  /** The prefix of the second task holds a URL the walk has not recorded. */
  lemma PhantomPrefix()
    ensures Corpus(PHANTOM_CORPUS)
    ensures PlannedBefore(PHANTOM_SCANNER, PHANTOM_CORPUS, EveryNth(1), 1) == {"u"}
    ensures ScannedBefore(PHANTOM_SCANNER, PHANTOM_CORPUS, EveryNth(1), 1) == {}
  {
    PhantomSets();
    assert PHANTOM_CORPUS[0].pkg[0] != PHANTOM_CORPUS[1].pkg[0];
  }

  /** The walk's fact reports the fetched URL as globally new, the task's fact does
      not; yet the corpus rows are equal. */
  lemma PhantomBreaksFacts()
    ensures Selected(PHANTOM_CORPUS, 1, EveryNth(1)) == PHANTOM_CORPUS[1].diffs
    ensures !FactMatches(PHANTOM_SCANNER, PHANTOM_CORPUS, EveryNth(1), 1, 0)
    ensures ParallelRows(PHANTOM_SCANNER, PHANTOM_CORPUS, EveryNth(1))
         == SerialRows(PHANTOM_SCANNER, PHANTOM_CORPUS, EveryNth(1), 2)
  {
    PhantomSets();
    hide Selected, FactMatches, GlobalNews, ScannedBefore, PlannedBefore, ParallelRows, SerialRows;
    FactMatchIff(PHANTOM_SCANNER, PHANTOM_CORPUS, EveryNth(1), 1, 0, 0);
    CorpusRowsAreSerial(PHANTOM_SCANNER, PHANTOM_CORPUS, EveryNth(1));
  }

  /** With a full history the rows would differ as well. */
  lemma PhantomBreaksWarmRows()
    ensures ParallelRows(PHANTOM_SCANNER, PHANTOM_CORPUS, EveryNth(1), MATURITY_THRESHOLD)
         != SerialRows(PHANTOM_SCANNER, PHANTOM_CORPUS, EveryNth(1), 2, MATURITY_THRESHOLD)
  {
    PhantomSets();
    hide Selected, GlobalNews, ScannedBefore, PlannedBefore, ParallelRows, SerialRows;
    assert NoveltyWeight(15.0, MATURITY_THRESHOLD) == 15;
    assert !SeenMatches(PHANTOM_SCANNER, PHANTOM_CORPUS, EveryNth(1), 1, 0);
    RowsMatchIff(PHANTOM_SCANNER, PHANTOM_CORPUS, EveryNth(1), MATURITY_THRESHOLD);
  }

  lemma PhantomSets()
    ensures var s, groups, keep := PHANTOM_SCANNER, PHANTOM_CORPUS, EveryNth(1);
            && Selected(groups, 1, keep) == groups[1].diffs
            && ScannedBefore(s, groups, keep, 1) == {} && PlannedBefore(s, groups, keep, 1) == {"u"}
            && GlobalNews(s, groups, keep, 1, 0, ScannedBefore(s, groups, keep, 1)) == News(true, "u")
            && GlobalNews(s, groups, keep, 1, 0, PlannedBefore(s, groups, keep, 1)) == News(false, "")
  {
    var s, groups, keep := PHANTOM_SCANNER, PHANTOM_CORPUS, EveryNth(1);
    assert keep(1) && keep(2);
    assert Position(groups, 0) == 0 && Position(groups, 1) == 1;
    assert Thin(groups[0].diffs, 0, 0, keep) == [] && Thin(groups[1].diffs, 0, 1, keep) == [];
    assert Selected(groups, 0, keep) == groups[0].diffs;
    assert Selected(groups, 1, keep) == groups[1].diffs;
    assert s.ScanScored("aaa", "url=u") == [];
    assert s.PlanScored("aaa", "url=u") == ["u"];
    assert s.ScanScored("bbb", "source=u") == ["u"];
    assert ScannedBefore(s, groups, keep, 0) == {} && PlannedBefore(s, groups, keep, 0) == {};
    assert ScanUrls(s, "aaa", groups[0].diffs, 0) == {} && PlanUrls(s, "aaa", groups[0].diffs, 0) == {};
    assert ScannedBefore(s, groups, keep, 1) == {};
    assert Norms(["u"], s.normalize) == {"u"} by { assert "u" in ["u"]; assert s.normalize("u") == "u"; }
    assert PlanUrls(s, "aaa", groups[0].diffs, 1) == {"u"};
    assert PlannedBefore(s, groups, keep, 1) == {"u"};
    assert ScanUrls(s, "bbb", groups[1].diffs, 0) == {};
    assert NewsFrom(["u"][1..], s.normalize, {"u"}, News(true, "u")) == News(true, "u");
    assert {"u"} + {} == {"u"} && NewsOf(["u"], s.normalize, {"u"}) == News(false, "");
    assert NewsFrom(["u"][1..], s.normalize, {"u"}, News(false, "")) == News(false, "");
  }
}
