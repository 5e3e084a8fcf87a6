/** The calibration replay: the serial walk with shared novelty state, the plan
    that precomputes each package's global prefix, and the scan of one task.

    The per-diff scanner is kept down to what carries state between diffs, the URLs
    it scores and the two novelty sets, and to what is made of them: a fact with
    the novelty verdict, its score and breakdown, and the row that shows a part of
    the fact. Every scan passes an observation count, 0 unless told otherwise. */
module CalibrationScan {
  import opened NoveltyScore
  import opened Options

  type Text = string
  type Package = string
  type Path = seq<string>

  /** No package has this name: file names hold no NUL character. */
  const GLOBAL_URL_KEY: string := "\0__global__"

  datatype Extraction = Extraction(added: seq<Url>, declared: set<Url>)

  /** The parts of the pipeline that are parameters here. `bound` cuts over-long
      lines, `extract` reads the URLs of a (capped) diff, `acked` is the package's
      acknowledgement list, `findings` is what everything but novelty makes of a
      text, `lines` counts its changed lines; rows show places if `location`. */
  datatype Scanner = Scanner(
    extract: Text -> Extraction,
    bound: Text -> Text,
    acked: (Package, Url) -> bool,
    normalize: Url -> Url,
    findings: (Package, Text) -> Findings,
    lines: Text -> nat,
    weights: Weights,
    location: bool)
  {
    /** The URLs the per-diff scanner records: declared ones are left out, and
        the text is line-bounded first. */
    function ScanScored(pkg: Package, text: Text): seq<Url> {
      var x := extract(bound(text));
      Keep(x.added, u => u !in x.declared && !acked(pkg, u))
    }

    /** The URLs the plan records: neither of those two steps is taken. */
    function PlanScored(pkg: Package, text: Text): seq<Url> {
      Keep(extract(text).added, u => !acked(pkg, u))
    }
  }

  datatype Diff = Diff(path: Path, text: Text)
  /** One package of the corpus with its diffs in replay order. */
  datatype Group = Group(pkg: Package, diffs: seq<Diff>)

  /** What a scan reports for a diff. The novelty verdict is a part of it. */
  datatype Fact = Fact(pkg: Package, novelty: Novelty, count: int, score: int, breakdown: seq<Entry>)

  /** What a row shows of a breakdown entry and of a fact. */
  datatype Place = Place(file: string, line: Option<nat>)
  datatype RowEntry = RowEntry(rule: string, severity: string, weight: int, params: string, place: Option<Place>)
  datatype Row = Row(pkg: Package, path: Path, score: int, lines: nat, entries: seq<RowEntry>)

  datatype Task = Task(pkg: Package, diffs: seq<Diff>, prefix: set<Url>)

  function Keep<T>(s: seq<T>, p: T -> bool): seq<T> {
    if s == [] then [] else (if p(s[0]) then [s[0]] else []) + Keep(s[1..], p)
  }

  function Norms(urls: seq<Url>, normalize: Url -> Url): set<Url> {
    set u | u in urls :: normalize(u)
  }

  /** Novelty of `urls` against a growing set: whether any is new, and the first
      new one (an empty string never sticks). */
  function NewsFrom(urls: seq<Url>, normalize: Url -> Url, known: set<Url>, n: News): News {
    if urls == [] then n
    else if normalize(urls[0]) in known then NewsFrom(urls[1..], normalize, known, n)
    else NewsFrom(urls[1..], normalize, known + {normalize(urls[0])},
                  News(true, if n.url == "" then urls[0] else n.url))
  }

  function NewsOf(urls: seq<Url>, normalize: Url -> Url, known: set<Url>): News {
    NewsFrom(urls, normalize, known, News(false, ""))
  }

  /** The novelty verdict on one diff, given the two sets on entry. */
  function Verdict(s: Scanner, pkg: Package, text: Text, own: set<Url>, global: set<Url>): Novelty {
    var urls := s.ScanScored(pkg, text);
    Novelty(NewsOf(urls, s.normalize, own), NewsOf(urls, s.normalize, global))
  }

  function FactOf(s: Scanner, pkg: Package, text: Text, novelty: Novelty, count: int): Fact {
    var f := s.findings(pkg, text);
    Fact(pkg, novelty, count, Score(f, novelty, s.weights, count), Breakdown(f, novelty, s.weights, count))
  }

  function ShownEntry(e: Entry, location: bool): RowEntry {
    RowEntry(e.rule, e.severity, e.weight, e.params, if location then Some(Place(e.file, e.line)) else None)
  }

  function ShownEntries(breakdown: seq<Entry>, location: bool): seq<RowEntry> {
    seq(|breakdown|, i requires 0 <= i < |breakdown| => ShownEntry(breakdown[i], location))
  }

  /** The row of a diff: a part of its fact. */
  function BenignRow(s: Scanner, pkg: Package, path: Path, text: Text, fact: Fact): Row {
    Row(pkg, path, fact.score, s.lines(text), ShownEntries(fact.breakdown, s.location))
  }

  function Get(seen: map<Package, set<Url>>, key: Package): set<Url> {
    if key in seen then seen[key] else {}
  }

  /** Both sets of a package's diff grow by the same URLs. */
  function Recorded(seen: map<Package, set<Url>>, pkg: Package, urls: set<Url>): (r: map<Package, set<Url>>)
    requires pkg != GLOBAL_URL_KEY
    ensures Get(r, pkg) == Get(seen, pkg) + urls
    ensures Get(r, GLOBAL_URL_KEY) == Get(seen, GLOBAL_URL_KEY) + urls
    ensures forall k :: k in r <==> k in seen || k == pkg || k == GLOBAL_URL_KEY
    ensures forall k :: k in seen && k != pkg && k != GLOBAL_URL_KEY ==> r[k] == seen[k]
  {
    seen[pkg := Get(seen, pkg) + urls][GLOBAL_URL_KEY := Get(seen, GLOBAL_URL_KEY) + urls]
  }

  /** The shared dictionary of novelty sets, updated in place by every diff. */
  class NoveltyState {
    var seen: map<Package, set<Url>>

    constructor (seen: map<Package, set<Url>>)
      ensures this.seen == seen
    {
      this.seen := seen;
    }
  }

  /** One diff: the reported fact depends on the two sets on entry, and each set
      grows by exactly the normalised URLs the scanner scores. */
  method ScanDiff(s: Scanner, text: Text, pkg: Package, state: NoveltyState, count: int := 0) returns (fact: Fact)
    requires pkg != GLOBAL_URL_KEY
    modifies state
    ensures var novelty := Verdict(s, pkg, text, old(Get(state.seen, pkg)), old(Get(state.seen, GLOBAL_URL_KEY)));
            fact == FactOf(s, pkg, text, novelty, count)
    ensures state.seen == Recorded(old(state.seen), pkg, Norms(s.ScanScored(pkg, text), s.normalize))
  {
    var urls := s.ScanScored(pkg, text);
    var pkgSet := Get(state.seen, pkg);
    var globalSet := Get(state.seen, GLOBAL_URL_KEY);
    var inPackage, globally := News(false, ""), News(false, "");
    var i := 0;
    while i < |urls|
      invariant 0 <= i <= |urls|
      invariant NewsFrom(urls[i..], s.normalize, pkgSet, inPackage)
                == NewsOf(urls, s.normalize, old(Get(state.seen, pkg)))
      invariant NewsFrom(urls[i..], s.normalize, globalSet, globally)
             == NewsOf(urls, s.normalize, old(Get(state.seen, GLOBAL_URL_KEY)))
      invariant pkgSet == old(Get(state.seen, pkg)) + Norms(urls[..i], s.normalize)
      invariant globalSet == old(Get(state.seen, GLOBAL_URL_KEY)) + Norms(urls[..i], s.normalize)
      invariant state.seen == old(state.seen)
    {
      var n := s.normalize(urls[i]);
      assert urls[i..][1..] == urls[i + 1..];
      NormsSnoc(urls, i, s.normalize);
      if n !in pkgSet {
        inPackage := News(true, if inPackage.url == "" then urls[i] else inPackage.url);
        pkgSet := pkgSet + {n};
      }
      if n !in globalSet {
        globally := News(true, if globally.url == "" then urls[i] else globally.url);
        globalSet := globalSet + {n};
      }
      i := i + 1;
    }
    assert urls[..i] == urls;
    state.seen := state.seen[pkg := pkgSet][GLOBAL_URL_KEY := globalSet];
    var novelty := Novelty(inPackage, globally);
    var score, breakdown := CalculateScore(s.findings(pkg, text), novelty, s.weights, count);
    fact := Fact(pkg, novelty, count, score, breakdown);
  }

  // ----- the replay as functions of the corpus

  /** The sampling rule, asked of the position of a diff in the whole walk,
      counted from one. */
  function EveryNth(sample: int): int -> bool {
    (index: int) => sample <= 1 || index % sample == 0
  }

  /** The first `n` diffs thinned by the sampling rule, `start` diffs having gone
      before them in the walk. */
  function Thin(diffs: seq<Diff>, n: nat, start: nat, keep: int -> bool): seq<Diff>
    requires n <= |diffs|
  {
    if n == 0 then []
    else Thin(diffs, n - 1, start, keep) + if keep(start + n) then [diffs[n - 1]] else []
  }

  /** How many diffs the walk has passed on reaching package `k`. */
  function Position(groups: seq<Group>, k: nat): nat
    requires k <= |groups|
  {
    if k == 0 then 0 else Position(groups, k - 1) + |groups[k - 1].diffs|
  }

  function Selected(groups: seq<Group>, k: nat, keep: int -> bool): seq<Diff>
    requires k < |groups|
  {
    Thin(groups[k].diffs, |groups[k].diffs|, Position(groups, k), keep)
  }

  /** What the scanner records over the first `n` diffs of a package. */
  function ScanUrls(s: Scanner, pkg: Package, diffs: seq<Diff>, n: nat): set<Url>
    requires n <= |diffs|
  {
    if n == 0 then {}
    else ScanUrls(s, pkg, diffs, n - 1) + Norms(s.ScanScored(pkg, diffs[n - 1].text), s.normalize)
  }

  /** What the plan pass records over the first `n` diffs of a package. */
  function PlanUrls(s: Scanner, pkg: Package, diffs: seq<Diff>, n: nat): set<Url>
    requires n <= |diffs|
  {
    if n == 0 then {}
    else PlanUrls(s, pkg, diffs, n - 1) + Norms(s.PlanScored(pkg, diffs[n - 1].text), s.normalize)
  }

  function AllScanUrls(s: Scanner, pkg: Package, diffs: seq<Diff>): set<Url> {
    ScanUrls(s, pkg, diffs, |diffs|)
  }

  function AllPlanUrls(s: Scanner, pkg: Package, diffs: seq<Diff>): set<Url> {
    PlanUrls(s, pkg, diffs, |diffs|)
  }

  function ScannedBefore(s: Scanner, groups: seq<Group>, keep: int -> bool, k: nat): set<Url>
    requires k <= |groups|
  {
    if k == 0 then {}
    else
      ScannedBefore(s, groups, keep, k - 1) + AllScanUrls(s, groups[k - 1].pkg, Selected(groups, k - 1, keep))
  }

  function PlannedBefore(s: Scanner, groups: seq<Group>, keep: int -> bool, k: nat): set<Url>
    requires k <= |groups|
  {
    if k == 0 then {}
    else
      PlannedBefore(s, groups, keep, k - 1) + AllPlanUrls(s, groups[k - 1].pkg, Selected(groups, k - 1, keep))
  }

  /** The fact of diff `i` of a package whose replay starts from `global`. */
  function DiffFact(s: Scanner, pkg: Package, diffs: seq<Diff>, i: nat, global: set<Url>, count: int := 0): Fact
    requires i < |diffs|
  {
    var own := ScanUrls(s, pkg, diffs, i);
    FactOf(s, pkg, diffs[i].text, Verdict(s, pkg, diffs[i].text, own, global + own), count)
  }

  /** The row of diff `i`. */
  function DiffRow(s: Scanner, pkg: Package, diffs: seq<Diff>, i: nat, global: set<Url>, count: int := 0): Row
    requires i < |diffs|
  {
    BenignRow(s, pkg, diffs[i].path, diffs[i].text, DiffFact(s, pkg, diffs, i, global, count))
  }

  function PackageRows(s: Scanner, pkg: Package, diffs: seq<Diff>, n: nat, global: set<Url>, count: int := 0): seq<Row>
    requires n <= |diffs|
  {
    if n == 0 then []
    else PackageRows(s, pkg, diffs, n - 1, global, count) + [DiffRow(s, pkg, diffs, n - 1, global, count)]
  }

  function TaskRows(s: Scanner, task: Task, count: int := 0): seq<Row> {
    PackageRows(s, task.pkg, task.diffs, |task.diffs|, task.prefix, count)
  }

  /** The serial walk over the first `k` packages. */
  function SerialRows(s: Scanner, groups: seq<Group>, keep: int -> bool, k: nat, count: int := 0): seq<Row>
    requires k <= |groups|
  {
    if k == 0 then []
    else
      SerialRows(s, groups, keep, k - 1, count)
      + TaskRows(s, Task(groups[k - 1].pkg, Selected(groups, k - 1, keep), ScannedBefore(s, groups, keep, k - 1)),
                 count)
  }

  /** The plan of the first `k` packages. */
  function Plan(s: Scanner, groups: seq<Group>, keep: int -> bool, k: nat): seq<Task>
    requires k <= |groups|
  {
    if k == 0 then []
    else
      var diffs := Selected(groups, k - 1, keep);
      Plan(s, groups, keep, k - 1)
      + if diffs == [] then [] else [Task(groups[k - 1].pkg, diffs, PlannedBefore(s, groups, keep, k - 1))]
  }

  /** The corpus as the walk sees it: packages in sorted order, each once. */
  ghost predicate Corpus(groups: seq<Group>) {
    && (forall i, j :: 0 <= i < j < |groups| ==> groups[i].pkg != groups[j].pkg)
    && (forall i :: 0 <= i < |groups| ==> groups[i].pkg != GLOBAL_URL_KEY)
  }

  // ----- the three walks

  lemma {:induction false} ThinPrefix(diffs: seq<Diff>, d: nat, n: nat, start: nat, keep: int -> bool)
    requires d <= n <= |diffs|
    ensures Thin(diffs, d, start, keep) <= Thin(diffs, n, start, keep)
    decreases n
  {
    if d < n { ThinPrefix(diffs, d, n - 1, start, keep); }
  }

  lemma ThinStart(diffs: seq<Diff>, start: nat, keep: int -> bool)
    ensures Thin(diffs, 0, start, keep) == []
  {}

  lemma ThinStep(diffs: seq<Diff>, d: nat, start: nat, keep: int -> bool)
    requires d < |diffs|
    ensures |Thin(diffs, d, start, keep)| <= |Thin(diffs, |diffs|, start, keep)|
    ensures keep(start + d + 1) ==>
              && Thin(diffs, d + 1, start, keep) == Thin(diffs, d, start, keep) + [diffs[d]]
              && |Thin(diffs, d, start, keep)| < |Thin(diffs, |diffs|, start, keep)|
              && Thin(diffs, |diffs|, start, keep)[|Thin(diffs, d, start, keep)|] == diffs[d]
    ensures !keep(start + d + 1) ==> Thin(diffs, d + 1, start, keep) == Thin(diffs, d, start, keep)
  {
    ThinPrefix(diffs, d, |diffs|, start, keep);
    ThinPrefix(diffs, d + 1, |diffs|, start, keep);
  }

  lemma NormsSnoc(urls: seq<Url>, i: nat, normalize: Url -> Url)
    requires i < |urls|
    ensures Norms(urls[..i + 1], normalize) == Norms(urls[..i], normalize) + {normalize(urls[i])}
  {
    assert urls[..i + 1] == urls[..i] + [urls[i]];
    var a, b := Norms(urls[..i + 1], normalize), Norms(urls[..i], normalize) + {normalize(urls[i])};
    forall x ensures x in a <==> x in b {
      if x in a { var u :| u in urls[..i + 1] && normalize(u) == x; assert u in urls[..i] || u == urls[i]; }
      if x in b && x != normalize(urls[i]) { var u :| u in urls[..i] && normalize(u) == x; assert u in urls[..i + 1]; }
      assert urls[i] in urls[..i + 1];
    }
  }

  /** The dictionary after the first `m` diffs of a package entered with `global`. */
  ghost predicate AtDiff(s: Scanner, pkg: Package, diffs: seq<Diff>, m: nat, global: set<Url>,
                         seen: map<Package, set<Url>>) {
    && m <= |diffs|
    && Get(seen, pkg) == ScanUrls(s, pkg, diffs, m)
    && Get(seen, GLOBAL_URL_KEY) == global + ScanUrls(s, pkg, diffs, m)
  }

  lemma Entered(s: Scanner, pkg: Package, diffs: seq<Diff>, global: set<Url>, seen: map<Package, set<Url>>)
    requires Get(seen, pkg) == {} && Get(seen, GLOBAL_URL_KEY) == global
    ensures AtDiff(s, pkg, diffs, 0, global, seen)
    ensures PackageRows(s, pkg, diffs, 0, global) == []
  {
    assert global + {} == global;
  }

  lemma Advance(s: Scanner, pkg: Package, diffs: seq<Diff>, m: nat, global: set<Url>, seen: map<Package, set<Url>>)
    requires m < |diffs| && pkg != GLOBAL_URL_KEY
    requires AtDiff(s, pkg, diffs, m, global, seen)
    ensures var urls := Norms(s.ScanScored(pkg, diffs[m].text), s.normalize);
            AtDiff(s, pkg, diffs, m + 1, global, Recorded(seen, pkg, urls))
    ensures PackageRows(s, pkg, diffs, m + 1, global)
         == PackageRows(s, pkg, diffs, m, global)
            + [BenignRow(s, pkg, diffs[m].path, diffs[m].text,
                         FactOf(s, pkg, diffs[m].text,
                                Verdict(s, pkg, diffs[m].text, Get(seen, pkg), Get(seen, GLOBAL_URL_KEY)), 0))]
  {
    var own, added := ScanUrls(s, pkg, diffs, m), Norms(s.ScanScored(pkg, diffs[m].text), s.normalize);
    assert (global + own) + added == global + (own + added);
  }

  lemma Left(s: Scanner, pkg: Package, diffs: seq<Diff>, global: set<Url>, seen: map<Package, set<Url>>)
    requires AtDiff(s, pkg, diffs, |diffs|, global, seen)
    ensures Get(seen, GLOBAL_URL_KEY) == global + AllScanUrls(s, pkg, diffs)
  {}

  lemma Leaves(s: Scanner, pkg: Package, diffs: seq<Diff>, global: set<Url>, seen: map<Package, set<Url>>)
    requires AtDiff(s, pkg, diffs, |diffs|, global, seen)
    ensures Get(seen, pkg) == AllScanUrls(s, pkg, diffs)
  {}

  /** Diff `m` of a package: scan it and make its row. */
  method ReplayDiff(s: Scanner, diff: Diff, pkg: Package, state: NoveltyState,
                       ghost diffs: seq<Diff>, ghost m: nat, ghost global: set<Url>)
    returns (row: Row)
    requires pkg != GLOBAL_URL_KEY
    requires AtDiff(s, pkg, diffs, m, global, state.seen) && m < |diffs| && diffs[m] == diff
    modifies state
    ensures AtDiff(s, pkg, diffs, m + 1, global, state.seen)
    ensures PackageRows(s, pkg, diffs, m + 1, global) == PackageRows(s, pkg, diffs, m, global) + [row]
    ensures forall k :: k in state.seen <==> k in old(state.seen) || k == pkg || k == GLOBAL_URL_KEY
  {
    Advance(s, pkg, diffs, m, global, state.seen);
    var fact := ScanDiff(s, diff.text, pkg, state);
    row := BenignRow(s, pkg, diff.path, diff.text, fact);
  }

  /** The inner loop of the serial walk: the diffs of one package. */
  method ReplayPackage(s: Scanner, pkg: Package, diffs: seq<Diff>, start: nat, keep: int -> bool, state: NoveltyState)
    returns (rows: seq<Row>, index: nat)
    requires pkg != GLOBAL_URL_KEY && pkg !in state.seen
    modifies state
    ensures index == start + |diffs|
    ensures rows == TaskRows(s, Task(pkg, Thin(diffs, |diffs|, start, keep), old(Get(state.seen, GLOBAL_URL_KEY))))
    ensures Get(state.seen, GLOBAL_URL_KEY)
         == old(Get(state.seen, GLOBAL_URL_KEY)) + AllScanUrls(s, pkg, Thin(diffs, |diffs|, start, keep))
    ensures forall k :: k in state.seen ==> k in old(state.seen) || k == pkg || k == GLOBAL_URL_KEY
  {
    hide Norms, Verdict, FactOf, BenignRow, ScanUrls, PackageRows, AtDiff, Thin;
    rows, index := [], start;
    ghost var global, all := Get(state.seen, GLOBAL_URL_KEY), Thin(diffs, |diffs|, start, keep);
    ghost var done: seq<Diff> := [];
    Entered(s, pkg, all, global, state.seen);
    ThinStart(diffs, start, keep);
    var d := 0;
    while d < |diffs|
      invariant 0 <= d <= |diffs| && index == start + d
      invariant done == Thin(diffs, d, start, keep) && |done| <= |all|
      invariant rows == PackageRows(s, pkg, all, |done|, global)
      invariant AtDiff(s, pkg, all, |done|, global, state.seen)
      invariant forall k :: k in state.seen ==> k in old(state.seen) || k == pkg || k == GLOBAL_URL_KEY
    {
      ThinStep(diffs, d, start, keep);
      index := index + 1;
      if keep(index) {
        var row := ReplayDiff(s, diffs[d], pkg, state, all, |done|, global);
        rows := rows + [row];
        done := done + [diffs[d]];
      }
      d := d + 1;
    }
    Left(s, pkg, all, global, state.seen);
  }

  /** The single-process walk, one dictionary of sets for the whole corpus. */
  method ScanCorpusSerial(s: Scanner, groups: seq<Group>, keep: int -> bool) returns (rows: seq<Row>)
    requires Corpus(groups)
    ensures rows == SerialRows(s, groups, keep, |groups|)
  {
    hide Norms, Verdict, FactOf, BenignRow, NewsOf, NewsFrom, Keep, ScanUrls, Thin, PackageRows;
    var state := new NoveltyState(map[]);
    rows := [];
    var index := 0;
    var g := 0;
    while g < |groups|
      invariant 0 <= g <= |groups| && index == Position(groups, g)
      invariant fresh(state)
      invariant forall k :: g <= k < |groups| ==> groups[k].pkg !in state.seen
      invariant Get(state.seen, GLOBAL_URL_KEY) == ScannedBefore(s, groups, keep, g)
      invariant rows == SerialRows(s, groups, keep, g)
    {
      var mine;
      mine, index := ReplayPackage(s, groups[g].pkg, groups[g].diffs, index, keep, state);
      rows := rows + mine;
      g := g + 1;
    }
  }

  /** The inner loop of the plan pass: what one package selects and adds. */
  method SelectPackage(s: Scanner, pkg: Package, diffs: seq<Diff>, start: nat, keep: int -> bool)
    returns (selected: seq<Diff>, additions: set<Url>, index: nat)
    ensures index == start + |diffs|
    ensures selected == Thin(diffs, |diffs|, start, keep)
    ensures additions == AllPlanUrls(s, pkg, selected)
  {
    hide Norms, Keep;
    selected, additions, index := [], {}, start;
    ghost var all := Thin(diffs, |diffs|, start, keep);
    var d := 0;
    while d < |diffs|
      invariant 0 <= d <= |diffs| && index == start + d
      invariant selected == Thin(diffs, d, start, keep) && |selected| <= |all|
      invariant additions == PlanUrls(s, pkg, all, |selected|)
    {
      ThinStep(diffs, d, start, keep);
      index := index + 1;
      if keep(index) {
        selected := selected + [diffs[d]];
        additions := additions + Norms(s.PlanScored(pkg, diffs[d].text), s.normalize);
      }
      d := d + 1;
    }
  }

  /** The plan pass: the sampled diffs of every package with the URLs recorded
      for the packages before it. A package with no sampled diff gets no task. */
  method BenignPlan(s: Scanner, groups: seq<Group>, keep: int -> bool) returns (plan: seq<Task>)
    ensures plan == Plan(s, groups, keep, |groups|)
  {
    hide Norms, Verdict, FactOf, BenignRow, NewsOf, NewsFrom, Keep, PlanUrls, Thin;
    plan := [];
    var globalSeen: set<Url> := {};
    var index := 0;
    var g := 0;
    while g < |groups|
      invariant 0 <= g <= |groups| && index == Position(groups, g)
      invariant globalSeen == PlannedBefore(s, groups, keep, g)
      invariant plan == Plan(s, groups, keep, g)
    {
      var selected, additions;
      selected, additions, index := SelectPackage(s, groups[g].pkg, groups[g].diffs, index, keep);
      if selected != [] {
        plan := plan + [Task(groups[g].pkg, selected, globalSeen)];
      }
      globalSeen := globalSeen + additions;
      g := g + 1;
    }
  }

  /** The dictionary a task ends with. */
  function Leftover(s: Scanner, task: Task): map<Package, set<Url>> {
    var mine := AllScanUrls(s, task.pkg, task.diffs);
    map[task.pkg := mine, GLOBAL_URL_KEY := task.prefix + mine]
  }

  /** One task: fresh package set, the global set starting at the prefix. */
  method ScanTask(s: Scanner, task: Task) returns (rows: seq<Row>, state: NoveltyState)
    requires task.pkg != GLOBAL_URL_KEY
    ensures rows == TaskRows(s, task)
    ensures fresh(state)
    ensures state.seen == Leftover(s, task)
  {
    hide Norms, Verdict, FactOf, BenignRow, ScanUrls, PackageRows, AtDiff;
    state := new NoveltyState(map[task.pkg := {}, GLOBAL_URL_KEY := task.prefix]);
    rows := [];
    Entered(s, task.pkg, task.diffs, task.prefix, state.seen);
    var d := 0;
    while d < |task.diffs|
      invariant 0 <= d <= |task.diffs|
      invariant fresh(state)
      invariant AtDiff(s, task.pkg, task.diffs, d, task.prefix, state.seen)
      invariant forall k :: k in state.seen <==> k == task.pkg || k == GLOBAL_URL_KEY
      invariant rows == PackageRows(s, task.pkg, task.diffs, d, task.prefix)
    {
      var row := ReplayDiff(s, task.diffs[d], task.pkg, state, task.diffs, d, task.prefix);
      rows := rows + [row];
      d := d + 1;
    }
    Left(s, task.pkg, task.diffs, task.prefix, state.seen);
    Leaves(s, task.pkg, task.diffs, task.prefix, state.seen);
    assert state.seen.Keys == Leftover(s, task).Keys;
  }
}
