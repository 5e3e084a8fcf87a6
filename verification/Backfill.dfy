/** The H104 backfill: one transaction over a watcher database that attaches a
    finding to the latest analysis of every package whose stored recipe has it. */
module Backfill {
  import opened Options

  type RuleId = string
  const H104: RuleId := "H104"

  // ----- the tables

  /** One entry of a stored score breakdown; anything but an object raises. */
  datatype Entry = Rule(id: RuleId) | NotAnEntry
  /** A stored fact: none, text that is not JSON, JSON that is not an object, or an
      object with its breakdown. */
  datatype Fact = Absent | Unreadable | NotAnObject | Object(breakdown: seq<Entry>)

  datatype History = History(id: nat, packageId: nat, fact: Fact)
  datatype Triggered = Triggered(historyId: nat, ruleId: RuleId)
  datatype Snapshot = Snapshot(package: string, text: string)

  datatype Tables = Tables(packages: map<nat, string>, history: seq<History>, triggered: seq<Triggered>)

  /** What the detector says of a recipe text. */
  datatype Verdict = Blank | Unparseable | Clean | Hit

  datatype Stats = Stats(scanned: nat, hits: nat, inserted: nat, existing: nat,
                         factsUpdated: nat, noAnalysis: nat, unparseable: nat)

  const ZERO := Stats(0, 0, 0, 0, 0, 0, 0)

  // ----- queries

  /** The row of the largest history id whose package has this name, among the
      first `n` rows. */
  function Latest(t: Tables, name: string, n: nat): (r: Option<nat>)
    requires n <= |t.history|
    ensures r.Some? ==> r.value < n && Named(t, r.value, name)
  {
    if n == 0 then None
    else
      var best := Latest(t, name, n - 1);
      var newer := best.None? || t.history[best.value].id < t.history[n - 1].id;
      if Named(t, n - 1, name) && newer then Some(n - 1) else best
  }

  predicate Named(t: Tables, i: nat, name: string)
    requires i < |t.history|
  {
    t.history[i].packageId in t.packages && t.packages[t.history[i].packageId] == name
  }

  function LatestOf(t: Tables, name: string): (r: Option<nat>)
    ensures r.Some? ==> r.value < |t.history| && Named(t, r.value, name)
  {
    Latest(t, name, |t.history|)
  }

  predicate Flagged(t: Tables, id: nat) {
    Triggered(id, H104) in t.triggered
  }

  /** `any(entry.get("rule_id") == "H104" ...)`: none when an entry raises first. */
  function HasH104(b: seq<Entry>): Option<bool> {
    if b == [] then Some(false)
    else if b[0].NotAnEntry? then None
    else if b[0].id == H104 then Some(true)
    else HasH104(b[1..])
  }

  // ----- one recipe

  datatype Outcome = Next(tables: Tables, stats: Stats) | Raised

  function Inserted(t: Tables, i: nat): Tables
    requires i < |t.history|
  {
    t.(triggered := t.triggered + [Triggered(t.history[i].id, H104)])
  }

  /** The fact patch after an insertion into history row `i`. */
  function PatchFact(t: Tables, st: Stats, i: nat): Outcome
    requires i < |t.history|
  {
    match t.history[i].fact
    case Absent => Next(t, st)
    case Unreadable => Next(t, st)
    case NotAnObject => Raised
    case Object(b) =>
      match HasH104(b)
      case None => Raised
      case Some(true) => Next(t, st)
      case Some(false) =>
        Next(t.(history := t.history[i := t.history[i].(fact := Object(b + [Rule(H104)]))]),
             st.(factsUpdated := st.factsUpdated + 1))
  }

  function Step(t: Tables, st: Stats, row: Snapshot, detect: string -> Verdict, dryRun: bool,
                updateFacts: bool): Outcome {
    var st := st.(scanned := st.scanned + 1);
    match detect(row.text)
    case Blank => Next(t, st)
    case Unparseable => Next(t, st.(unparseable := st.unparseable + 1))
    case Clean => Next(t, st)
    case Hit =>
      var st := st.(hits := st.hits + 1);
      var latest := LatestOf(t, row.package);
      if latest.None? then Next(t, st.(noAnalysis := st.noAnalysis + 1))
      else if Flagged(t, t.history[latest.value].id) then Next(t, st.(existing := st.existing + 1))
      else
        var st := st.(inserted := st.inserted + 1);
        if dryRun then Next(t, st)
        else if updateFacts then PatchFact(Inserted(t, latest.value), st, latest.value)
        else Next(Inserted(t, latest.value), st)
  }

  /** The first `n` recipes. */
  function Run(t: Tables, rows: seq<Snapshot>, n: nat, detect: string -> Verdict, dryRun: bool,
               updateFacts: bool): Outcome
    requires n <= |rows|
  {
    if n == 0 then Next(t, ZERO)
    else match Run(t, rows, n - 1, detect, dryRun, updateFacts)
      case Raised => Raised
      case Next(t1, st1) => Step(t1, st1, rows[n - 1], detect, dryRun, updateFacts)
  }

  /** A connection: what is committed, and what its transaction has written. */
  class Connection {
    var committed: Tables
    var pending: Tables

    constructor (tables: Tables)
      ensures committed == tables && pending == tables
    {
      committed, pending := tables, tables;
    }

    /** The whole pass: committed unless it is a dry run or something raises; in
        those two cases the tables are as before. */
    method Backfill(rows: seq<Snapshot>, detect: string -> Verdict, dryRun: bool, updateFacts: bool)
      returns (r: Option<Stats>)
      requires pending == committed
      modifies this
      ensures var run := Run(old(committed), rows, |rows|, detect, dryRun, updateFacts);
              && r == (if run.Raised? then None else Some(run.stats))
              && committed == (if run.Raised? || dryRun then old(committed) else run.tables)
              && pending == committed
    {
      hide LatestOf, Flagged, HasH104;
      var stats := ZERO;
      var i := 0;
      while i < |rows|
        invariant 0 <= i <= |rows|
        invariant committed == old(committed)
        invariant Run(old(committed), rows, i, detect, dryRun, updateFacts) == Next(pending, stats)
        decreases |rows| - i
      {
        var row := rows[i];
        i := i + 1;
        stats := stats.(scanned := stats.scanned + 1);
        var finding := detect(row.text);
        if finding == Unparseable {
          stats := stats.(unparseable := stats.unparseable + 1);
        }
        if finding != Hit { continue; }
        stats := stats.(hits := stats.hits + 1);
        var latest := LatestOf(pending, row.package);
        if latest.None? {
          stats := stats.(noAnalysis := stats.noAnalysis + 1);
          continue;
        }
        var history := pending.history[latest.value];
        if Flagged(pending, history.id) {
          stats := stats.(existing := stats.existing + 1);
          continue;
        }
        stats := stats.(inserted := stats.inserted + 1);
        if dryRun { continue; }
        pending := pending.(triggered := pending.triggered + [Triggered(history.id, H104)]);
        if !updateFacts || history.fact.Absent? || history.fact.Unreadable? { continue; }
        var known := if history.fact.Object? then HasH104(history.fact.breakdown) else None;
        if known.None? {
          RaisedStays(old(committed), rows, i, |rows|, detect, dryRun, updateFacts);
          pending := committed;
          return None;
        }
        if !known.value {
          var patched := Object(history.fact.breakdown + [Rule(H104)]);
          pending := pending.(history := pending.history[latest.value := history.(fact := patched)]);
          stats := stats.(factsUpdated := stats.factsUpdated + 1);
        }
      }
      if dryRun {
        pending := committed;
      } else {
        committed := pending;
      }
      r := Some(stats);
    }
  }

  lemma {:induction false} RaisedStays(t: Tables, rows: seq<Snapshot>, n: nat, m: nat, detect: string -> Verdict,
                                       dryRun: bool, updateFacts: bool)
    requires n <= m <= |rows| && Run(t, rows, n, detect, dryRun, updateFacts).Raised?
    ensures Run(t, rows, m, detect, dryRun, updateFacts).Raised?
    decreases m
  {
    if n < m { RaisedStays(t, rows, n, m - 1, detect, dryRun, updateFacts); }
  }

  // ----- what every run keeps

  /** Every recipe with the finding is counted exactly once: without an analysis,
      already flagged, or inserted. */
  ghost predicate Balanced(st: Stats) {
    st.hits == st.noAnalysis + st.existing + st.inserted
  }

  lemma {:induction false} CountsBalance(t: Tables, rows: seq<Snapshot>, n: nat, detect: string -> Verdict,
                                         dryRun: bool, updateFacts: bool)
    requires n <= |rows| && Run(t, rows, n, detect, dryRun, updateFacts).Next?
    ensures var st := Run(t, rows, n, detect, dryRun, updateFacts).stats;
            Balanced(st) && st.scanned == n && st.factsUpdated <= st.inserted
  {
    hide LatestOf, HasH104, Flagged;
    if n > 0 { CountsBalance(t, rows, n - 1, detect, dryRun, updateFacts); }
  }

  /** What a pass may change: rules are only added at the end, facts only change
      inside their row, everything a query looks at stays. */
  ghost predicate Grown(a: Tables, b: Tables) {
    && b.packages == a.packages
    && |b.history| == |a.history|
    && (forall i :: 0 <= i < |a.history| ==>
        b.history[i].id == a.history[i].id && b.history[i].packageId == a.history[i].packageId)
    && a.triggered <= b.triggered
    && forall j :: |a.triggered| <= j < |b.triggered| ==> b.triggered[j].ruleId == H104
  }

  lemma {:induction false} LatestSame(a: Tables, b: Tables, name: string, n: nat)
    requires Grown(a, b) && n <= |a.history|
    ensures Latest(a, name, n) == Latest(b, name, n)
  {
    if n > 0 { LatestSame(a, b, name, n - 1); }
  }

  lemma StepGrows(t: Tables, st: Stats, row: Snapshot, detect: string -> Verdict, dryRun: bool, updateFacts: bool)
    requires Step(t, st, row, detect, dryRun, updateFacts).Next?
    ensures var r := Step(t, st, row, detect, dryRun, updateFacts);
            && Grown(t, r.tables)
            && |r.tables.triggered| == |t.triggered| + (if dryRun then 0 else r.stats.inserted - st.inserted)
            && (dryRun ==> r.tables == t)
  {
    hide LatestOf, HasH104, Flagged;
  }

  /** The tables only grow, by one rule row for each insertion. */
  lemma {:induction false} RunGrows(t: Tables, rows: seq<Snapshot>, n: nat, detect: string -> Verdict, dryRun: bool,
                                    updateFacts: bool)
    requires n <= |rows| && Run(t, rows, n, detect, dryRun, updateFacts).Next?
    ensures var r := Run(t, rows, n, detect, dryRun, updateFacts);
            && Grown(t, r.tables)
            && |r.tables.triggered| == |t.triggered| + (if dryRun then 0 else r.stats.inserted)
            && (dryRun ==> r.tables == t)
  {
    hide Step;
    if n > 0 {
      RunGrows(t, rows, n - 1, detect, dryRun, updateFacts);
      var a := Run(t, rows, n - 1, detect, dryRun, updateFacts);
      StepGrows(a.tables, a.stats, rows[n - 1], detect, dryRun, updateFacts);
    }
  }

  // ----- idempotence

  /** The recipe needs nothing more: no finding, no analysis, or flagged already. */
  ghost predicate Settled(t: Tables, row: Snapshot, detect: string -> Verdict) {
    var latest := LatestOf(t, row.package);
    detect(row.text) == Hit && latest.Some? ==> Flagged(t, t.history[latest.value].id)
  }

  lemma SettledStays(a: Tables, b: Tables, row: Snapshot, detect: string -> Verdict)
    requires Grown(a, b) && Settled(a, row, detect)
    ensures Settled(b, row, detect)
  {
    LatestSame(a, b, row.package, |a.history|);
  }

  lemma StepSettles(t: Tables, st: Stats, row: Snapshot, detect: string -> Verdict, updateFacts: bool)
    requires Step(t, st, row, detect, false, updateFacts).Next?
    ensures Settled(Step(t, st, row, detect, false, updateFacts).tables, row, detect)
  {
    var r := Step(t, st, row, detect, false, updateFacts);
    StepGrows(t, st, row, detect, false, updateFacts);
    LatestSame(t, r.tables, row.package, |t.history|);
    hide HasH104, Latest;
    if detect(row.text) == Hit && LatestOf(t, row.package).Some? {
      var i := LatestOf(t, row.package).value;
      if !Flagged(t, t.history[i].id) {
        var added := Inserted(t, i);
        assert added.triggered[|t.triggered|] == Triggered(t.history[i].id, H104);
        assert r.tables.triggered == added.triggered;
      }
    }
  }

  /** After a real pass every recipe in it is settled. */
  lemma {:induction false} RunSettles(t: Tables, rows: seq<Snapshot>, n: nat, detect: string -> Verdict,
                                      updateFacts: bool)
    requires n <= |rows| && Run(t, rows, n, detect, false, updateFacts).Next?
    ensures forall i :: 0 <= i < n ==> Settled(Run(t, rows, n, detect, false, updateFacts).tables, rows[i], detect)
  {
    hide Step, Settled, Grown;
    if n > 0 {
      RunSettles(t, rows, n - 1, detect, updateFacts);
      var a := Run(t, rows, n - 1, detect, false, updateFacts);
      var b := Run(t, rows, n, detect, false, updateFacts);
      StepGrows(a.tables, a.stats, rows[n - 1], detect, false, updateFacts);
      StepSettles(a.tables, a.stats, rows[n - 1], detect, updateFacts);
      forall i | 0 <= i < n - 1 ensures Settled(b.tables, rows[i], detect) {
        SettledStays(a.tables, b.tables, rows[i], detect);
      }
    }
  }

  /** The two passes see each recipe alike, an insertion of the first being an
      existing row of the second. */
  ghost predicate SecondOf(first: Stats, second: Stats) {
    && second.inserted == 0 && second.factsUpdated == 0
    && second.existing == first.existing + first.inserted
    && second.scanned == first.scanned && second.hits == first.hits
    && second.noAnalysis == first.noAnalysis && second.unparseable == first.unparseable
  }

  lemma SecondStep(a: Tables, st: Stats, b: Tables, st2: Stats, row: Snapshot, detect: string -> Verdict,
                   updateFacts: bool, dry2: bool, update2: bool)
    requires Grown(a, b) && Settled(b, row, detect) && SecondOf(st, st2)
    requires Step(a, st, row, detect, false, updateFacts).Next?
    ensures var r2 := Step(b, st2, row, detect, dry2, update2);
            r2.Next? && r2.tables == b && SecondOf(Step(a, st, row, detect, false, updateFacts).stats, r2.stats)
  {
    LatestSame(a, b, row.package, |a.history|);
    hide Latest, HasH104, Flagged;
  }

  lemma {:induction false} SecondRun(t: Tables, b: Tables, rows: seq<Snapshot>, n: nat, detect: string -> Verdict,
                                     updateFacts: bool, dry2: bool, update2: bool)
    requires n <= |rows| && Run(t, rows, n, detect, false, updateFacts).Next?
    requires Grown(Run(t, rows, n, detect, false, updateFacts).tables, b)
    requires forall i :: 0 <= i < n ==> Settled(b, rows[i], detect)
    ensures var r2 := Run(b, rows, n, detect, dry2, update2);
            r2.Next? && r2.tables == b && SecondOf(Run(t, rows, n, detect, false, updateFacts).stats, r2.stats)
  {
    hide Step, Settled;
    if n > 0 {
      var a := Run(t, rows, n - 1, detect, false, updateFacts);
      StepGrows(a.tables, a.stats, rows[n - 1], detect, false, updateFacts);
      GrownTransitive(a.tables, Run(t, rows, n, detect, false, updateFacts).tables, b);
      SecondRun(t, b, rows, n - 1, detect, updateFacts, dry2, update2);
      var a2 := Run(b, rows, n - 1, detect, dry2, update2);
      SecondStep(a.tables, a.stats, b, a2.stats, rows[n - 1], detect, updateFacts, dry2, update2);
    }
  }

  lemma GrownTransitive(a: Tables, b: Tables, c: Tables)
    requires Grown(a, b) && Grown(b, c)
    ensures Grown(a, c)
  {
    assert forall j :: |a.triggered| <= j < |b.triggered| ==> c.triggered[j] == b.triggered[j];
  }

  /** Running again over a committed pass inserts nothing, changes no table and
      reports what was inserted as existing, with whatever options. */
  lemma BackfillIdempotent(t: Tables, rows: seq<Snapshot>, detect: string -> Verdict, updateFacts: bool, dry2: bool,
                           update2: bool)
    requires Run(t, rows, |rows|, detect, false, updateFacts).Next?
    ensures var first := Run(t, rows, |rows|, detect, false, updateFacts);
            var second := Run(first.tables, rows, |rows|, detect, dry2, update2);
            second.Next? && second.tables == first.tables && SecondOf(first.stats, second.stats)
  {
    hide Run;
    var first := Run(t, rows, |rows|, detect, false, updateFacts);
    RunSettles(t, rows, |rows|, detect, updateFacts);
    SecondRun(t, first.tables, rows, |rows|, detect, updateFacts, dry2, update2);
  }

  // ----- exactly what a pass does

  /** The join: the row's package exists and has this name. */
  ghost predicate BelongsTo(t: Tables, row: History, name: string) {
    exists id :: id in t.packages && id == row.packageId && t.packages[id] == name
  }

  /** The query finds a row when the package has one, and then the newest. */
  lemma {:induction false} LatestIsNewest(t: Tables, name: string, n: nat)
    requires n <= |t.history|
    ensures Latest(t, name, n).None? <==> forall i :: 0 <= i < n ==> !BelongsTo(t, t.history[i], name)
    ensures Latest(t, name, n).Some? ==>
              var k := Latest(t, name, n).value;
              && BelongsTo(t, t.history[k], name)
              && forall i :: 0 <= i < n && BelongsTo(t, t.history[i], name) ==> t.history[i].id <= t.history[k].id
  {
    if n > 0 { LatestIsNewest(t, name, n - 1); }
  }

  /** Row `i` is the latest analysis of a package with the finding. */
  ghost predicate Wanted(t: Tables, rows: seq<Snapshot>, n: nat, detect: string -> Verdict, i: nat)
    requires n <= |rows|
  {
    exists k :: 0 <= k < n && WantedBy(t, rows[k], detect, i)
  }

  ghost predicate WantedBy(t: Tables, row: Snapshot, detect: string -> Verdict, i: nat) {
    detect(row.text) == Hit && LatestOf(t, row.package) == Some(i)
  }

  /** The pass has to write to row `i`. */
  ghost predicate Due(t: Tables, rows: seq<Snapshot>, n: nat, detect: string -> Verdict, i: nat)
    requires n <= |rows| && i < |t.history|
  {
    Wanted(t, rows, n, detect, i) && !Flagged(t, t.history[i].id)
  }

  /** A fact whose patch raises: no object, or an entry that is none before any entry
      for the rule. */
  ghost predicate Unpatchable(f: Fact) {
    || f.NotAnObject?
    || (f.Object? && exists i :: BadFirst(f.breakdown, i))
  }

  ghost predicate BadFirst(b: seq<Entry>, i: int) {
    0 <= i < |b| && b[i].NotAnEntry? && forall j :: 0 <= j < i ==> b[j] != Rule("H104")
  }

  /** The rule's entry is appended when all entries are those of other rules. */
  ghost function Patched(f: Fact): Fact {
    if f.Object? && (forall j :: 0 <= j < |f.breakdown| ==> f.breakdown[j].Rule? && f.breakdown[j] != Rule("H104"))
    then Object(f.breakdown + [Rule("H104")])
    else f
  }

  lemma {:induction false} HasH104Meaning(b: seq<Entry>)
    ensures HasH104(b) == None <==> exists i :: BadFirst(b, i)
    ensures HasH104(b) == Some(false) <==> forall j :: 0 <= j < |b| ==> b[j].Rule? && b[j] != Rule("H104")
  {
    if b != [] {
      HasH104Meaning(b[1..]);
      if b[0].NotAnEntry? { assert BadFirst(b, 0); }
      if i :| BadFirst(b[1..], i) && b[0] != Rule("H104") {
        assert forall j :: 0 < j < i + 1 ==> b[j] == b[1..][j - 1];
        assert BadFirst(b, i + 1);
      }
      if i :| BadFirst(b, i) && i > 0 {
        assert b[0] != Rule("H104");
        assert forall j :: 0 <= j < i - 1 ==> b[1..][j] == b[j + 1];
        assert BadFirst(b[1..], i - 1);
      }
      if HasH104(b) == Some(false) {
        forall j | 0 <= j < |b| ensures b[j].Rule? && b[j] != Rule("H104") {
          if j > 0 { assert b[1..][j - 1] == b[j]; }
        }
      }
    }
  }

  ghost predicate DistinctIds(t: Tables) {
    forall i, j :: 0 <= i < j < |t.history| ==> t.history[i].id != t.history[j].id
  }

  /** Flag and fact of row `i` after the first `n` recipes. */
  ghost predicate RowEffect(t: Tables, u: Tables, rows: seq<Snapshot>, n: nat, detect: string -> Verdict,
                            updateFacts: bool, i: nat)
    requires n <= |rows| && i < |t.history| == |u.history|
  {
    && (Flagged(u, t.history[i].id) <==> Flagged(t, t.history[i].id) || Wanted(t, rows, n, detect, i))
    && u.history[i].fact
       == if updateFacts && Due(t, rows, n, detect, i) then Patched(t.history[i].fact) else t.history[i].fact
  }

  /** What the first `n` recipes have written: the flags and facts of the due rows,
      and rule rows for nothing else. */
  ghost predicate Effect(t: Tables, u: Tables, rows: seq<Snapshot>, n: nat, detect: string -> Verdict,
                         updateFacts: bool)
    requires n <= |rows|
  {
    && Grown(t, u)
    && (forall i :: 0 <= i < |t.history| ==> RowEffect(t, u, rows, n, detect, updateFacts, i))
    && (forall j :: |t.triggered| <= j < |u.triggered| ==> IdOf(t, u.triggered[j].historyId))
  }

  ghost predicate IdOf(t: Tables, id: nat) {
    exists i :: 0 <= i < |t.history| && t.history[i].id == id
  }

  lemma WantedStep(t: Tables, rows: seq<Snapshot>, n: nat, detect: string -> Verdict, i: nat)
    requires n < |rows|
    ensures Wanted(t, rows, n + 1, detect, i) <==> Wanted(t, rows, n, detect, i) || WantedBy(t, rows[n], detect, i)
  {
    hide WantedBy;
  }

  /** The tables once row `i` has its flag. */
  function Written(u: Tables, i: nat, updateFacts: bool): Tables
    requires i < |u.history|
  {
    var f := u.history[i].fact;
    Inserted(u, i).(history := if updateFacts && f.Object? && HasH104(f.breakdown) == Some(false)
                               then u.history[i := u.history[i].(fact := Object(f.breakdown + [Rule(H104)]))]
                               else u.history)
  }

  /** A recipe writes to the latest row when it is not flagged, or raises there. */
  lemma StepWrites(u: Tables, st: Stats, row: Snapshot, detect: string -> Verdict, updateFacts: bool)
    ensures var r, latest := Step(u, st, row, detect, false, updateFacts), LatestOf(u, row.package);
            if detect(row.text) == Hit && latest.Some? && !Flagged(u, u.history[latest.value].id) then
              && (r.Raised? <==> updateFacts && Unpatchable(u.history[latest.value].fact))
              && (r.Next? ==> r.tables == Written(u, latest.value, updateFacts))
            else r.Next? && r.tables == u
  {
    var latest := LatestOf(u, row.package);
    if latest.Some? && u.history[latest.value].fact.Object? { HasH104Meaning(u.history[latest.value].fact.breakdown); }
    hide LatestOf, HasH104, Flagged, BadFirst;
  }

  lemma WrittenFlags(u: Tables, i: nat, updateFacts: bool, id: nat)
    requires i < |u.history|
    ensures Flagged(Written(u, i, updateFacts), id) <==> Flagged(u, id) || id == u.history[i].id
  {}

  /** Writing row `i` gives every row its effect of one more recipe. */
  lemma WrittenRow(t: Tables, u: Tables, rows: seq<Snapshot>, n: nat, detect: string -> Verdict, updateFacts: bool,
                   i: nat, k: nat)
    requires n < |rows| && DistinctIds(t) && Grown(t, u) && i < |t.history| && k < |t.history|
    requires RowEffect(t, u, rows, n, detect, updateFacts, k)
    requires WantedBy(t, rows[n], detect, i) && !Flagged(u, t.history[i].id)
    ensures RowEffect(t, Written(u, i, updateFacts), rows, n + 1, detect, updateFacts, k)
  {
    WantedStep(t, rows, n, detect, k);
    WrittenFlags(u, i, updateFacts, t.history[k].id);
    if u.history[i].fact.Object? { HasH104Meaning(u.history[i].fact.breakdown); }
    hide Wanted, LatestOf, Flagged, HasH104, BadFirst;
    if k != i { assert t.history[k].id != t.history[i].id; }
  }

  lemma UnwrittenRow(t: Tables, u: Tables, rows: seq<Snapshot>, n: nat, detect: string -> Verdict, updateFacts: bool,
                     k: nat)
    requires n < |rows| && Grown(t, u) && k < |t.history|
    requires RowEffect(t, u, rows, n, detect, updateFacts, k)
    requires WantedBy(t, rows[n], detect, k) ==> Flagged(u, t.history[k].id)
    ensures RowEffect(t, u, rows, n + 1, detect, updateFacts, k)
  {
    WantedStep(t, rows, n, detect, k);
    hide Wanted, WantedBy, Flagged, HasH104;
  }

  lemma WrittenEffect(t: Tables, u: Tables, rows: seq<Snapshot>, n: nat, detect: string -> Verdict, updateFacts: bool,
                      i: nat)
    requires n < |rows| && DistinctIds(t) && Effect(t, u, rows, n, detect, updateFacts) && i < |t.history|
    requires WantedBy(t, rows[n], detect, i) && !Flagged(u, t.history[i].id)
    ensures Effect(t, Written(u, i, updateFacts), rows, n + 1, detect, updateFacts)
  {
    hide WantedBy, RowEffect, DistinctIds, HasH104, Flagged;
    var v := Written(u, i, updateFacts);
    assert Grown(u, v);
    GrownTransitive(t, u, v);
    var m := n + 1;
    forall k | 0 <= k < |t.history| ensures RowEffect(t, v, rows, m, detect, updateFacts, k) {
      WrittenRow(t, u, rows, n, detect, updateFacts, i, k);
    }
    forall j | |t.triggered| <= j < |v.triggered| ensures IdOf(t, v.triggered[j].historyId) {
      if j < |u.triggered| { assert v.triggered[j] == u.triggered[j]; }
    }
  }

  /** Some due row raises when it is patched. */
  ghost predicate Raises(t: Tables, rows: seq<Snapshot>, n: nat, detect: string -> Verdict)
    requires n <= |rows|
  {
    exists i :: 0 <= i < |t.history| && Due(t, rows, n, detect, i) && Unpatchable(t.history[i].fact)
  }

  lemma EffectStep(t: Tables, u: Tables, st: Stats, rows: seq<Snapshot>, n: nat, detect: string -> Verdict,
                   updateFacts: bool)
    requires n < |rows| && DistinctIds(t) && Effect(t, u, rows, n, detect, updateFacts)
    requires updateFacts ==> !Raises(t, rows, n, detect)
    ensures var r := Step(u, st, rows[n], detect, false, updateFacts);
            && (r.Next? ==> Effect(t, r.tables, rows, n + 1, detect, updateFacts))
            && (r.Raised? <==> updateFacts && Raises(t, rows, n + 1, detect))
  {
    hide Step, Wanted, RowEffect, Effect, DistinctIds, HasH104, Raises, Unpatchable;
    var row := rows[n];
    var latest := LatestOf(t, row.package);
    EffectGrown(t, u, rows, n, detect, updateFacts);
    LatestSame(t, u, row.package, |t.history|);
    assert LatestOf(u, row.package) == latest;
    hide LatestOf;
    StepWrites(u, st, row, detect, updateFacts);
    if detect(row.text) == Hit && latest.Some? && !Flagged(u, t.history[latest.value].id) {
      WrittenEffect(t, u, rows, n, detect, updateFacts, latest.value);
      RaisesAt(t, u, rows, n, detect, updateFacts, latest.value);
    } else {
      UnwrittenEffect(t, u, rows, n, detect, updateFacts);
    }
  }

  lemma EffectGrown(t: Tables, u: Tables, rows: seq<Snapshot>, n: nat, detect: string -> Verdict, updateFacts: bool)
    requires n <= |rows| && Effect(t, u, rows, n, detect, updateFacts)
    ensures Grown(t, u)
  {}

  lemma UnwrittenEffect(t: Tables, u: Tables, rows: seq<Snapshot>, n: nat, detect: string -> Verdict, updateFacts: bool)
    requires n < |rows| && Effect(t, u, rows, n, detect, updateFacts)
    requires forall k :: 0 <= k < |t.history| && WantedBy(t, rows[n], detect, k) ==> Flagged(u, t.history[k].id)
    ensures Effect(t, u, rows, n + 1, detect, updateFacts)
    ensures Raises(t, rows, n + 1, detect) <==> Raises(t, rows, n, detect)
  {
    hide Wanted, WantedBy, Flagged, HasH104, Unpatchable;
    var m := n + 1;
    forall k | 0 <= k < |t.history|
      ensures RowEffect(t, u, rows, m, detect, updateFacts, k)
      ensures Due(t, rows, m, detect, k) <==> Due(t, rows, n, detect, k)
    {
      WantedStep(t, rows, n, detect, k);
      assert RowEffect(t, u, rows, n, detect, updateFacts, k);
      UnwrittenRow(t, u, rows, n, detect, updateFacts, k);
    }
  }

  lemma RaisesAt(t: Tables, u: Tables, rows: seq<Snapshot>, n: nat, detect: string -> Verdict, updateFacts: bool,
                 i: nat)
    requires n < |rows| && i < |t.history| && Effect(t, u, rows, n, detect, updateFacts)
    requires WantedBy(t, rows[n], detect, i) && !Flagged(u, t.history[i].id)
    requires updateFacts ==> !Raises(t, rows, n, detect)
    ensures u.history[i].fact == t.history[i].fact
    ensures updateFacts ==> (Raises(t, rows, n + 1, detect) <==> Unpatchable(t.history[i].fact))
  {
    hide Wanted, Flagged, HasH104, Unpatchable, LatestOf;
    assert RowEffect(t, u, rows, n, detect, updateFacts, i);
    forall k | 0 <= k < |t.history|
      ensures Wanted(t, rows, n + 1, detect, k) <==> Wanted(t, rows, n, detect, k) || k == i
    {
      WantedStep(t, rows, n, detect, k);
    }
    if updateFacts && Unpatchable(t.history[i].fact) {
      assert Due(t, rows, n + 1, detect, i);
    }
    if Raises(t, rows, n + 1, detect) {
      var k :| 0 <= k < |t.history| && Due(t, rows, n + 1, detect, k) && Unpatchable(t.history[k].fact);
      if updateFacts && k != i { assert Due(t, rows, n, detect, k); }
    }
  }

  /** Exactly what a real pass does, to every row: it flags the latest analysis of
      each package with the finding and patches the fact of those not flagged
      before; it raises exactly when one of these facts cannot be patched. */
  lemma {:induction false} BackfillEffect(t: Tables, rows: seq<Snapshot>, n: nat, detect: string -> Verdict,
                                          updateFacts: bool)
    requires DistinctIds(t) && n <= |rows|
    ensures var r := Run(t, rows, n, detect, false, updateFacts);
            && (r.Raised? <==> updateFacts && Raises(t, rows, n, detect))
            && (r.Next? ==> Effect(t, r.tables, rows, n, detect, updateFacts))
  {
    hide Step, DistinctIds, Effect, Raises;
    if n == 0 {
      NoEffect(t, rows, detect, updateFacts);
    } else {
      BackfillEffect(t, rows, n - 1, detect, updateFacts);
      var r := Run(t, rows, n - 1, detect, false, updateFacts);
      if r.Next? {
        EffectStep(t, r.tables, r.stats, rows, n - 1, detect, updateFacts);
      } else {
        RaisesLater(t, rows, n - 1, detect);
      }
    }
  }

  lemma NoEffect(t: Tables, rows: seq<Snapshot>, detect: string -> Verdict, updateFacts: bool)
    ensures Effect(t, t, rows, 0, detect, updateFacts) && !Raises(t, rows, 0, detect)
  {
    assert t.triggered <= t.triggered;
  }

  lemma RaisesLater(t: Tables, rows: seq<Snapshot>, n: nat, detect: string -> Verdict)
    requires n < |rows| && Raises(t, rows, n, detect)
    ensures Raises(t, rows, n + 1, detect)
  {
    hide Wanted, Flagged, Unpatchable;
    var i :| 0 <= i < |t.history| && Due(t, rows, n, detect, i) && Unpatchable(t.history[i].fact);
    WantedStep(t, rows, n, detect, i);
    assert Due(t, rows, n + 1, detect, i);
  }

  // ----- what the counts count

  /** The recipes among the first `n` with some property. */
  ghost function Those(rows: seq<Snapshot>, n: nat, p: Snapshot -> bool): set<nat>
    requires n <= |rows|
  {
    set k: nat | k < n && p(rows[k])
  }

  lemma ThoseStep(rows: seq<Snapshot>, n: nat, p: Snapshot -> bool)
    requires n < |rows|
    ensures |Those(rows, n + 1, p)| == |Those(rows, n, p)| + if p(rows[n]) then 1 else 0
  {
    if p(rows[n]) {
      assert Those(rows, n + 1, p) == Those(rows, n, p) + {n};
    } else {
      assert Those(rows, n + 1, p) == Those(rows, n, p);
    }
  }

  /** The package of a recipe has no analysis. */
  ghost predicate Unanalysed(t: Tables, row: Snapshot) {
    forall i :: 0 <= i < |t.history| ==> !BelongsTo(t, t.history[i], row.package)
  }

  /** Each count is the number of recipes it names; every hit is one of the three. */
  lemma {:induction false} CountsMean(t: Tables, rows: seq<Snapshot>, n: nat, detect: string -> Verdict, dryRun: bool,
                                      updateFacts: bool)
    requires n <= |rows| && Run(t, rows, n, detect, dryRun, updateFacts).Next?
    ensures var st := Run(t, rows, n, detect, dryRun, updateFacts).stats;
            && st.scanned == n
            && st.hits == |Those(rows, n, (r: Snapshot) => detect(r.text) == Hit)|
            && st.unparseable == |Those(rows, n, (r: Snapshot) => detect(r.text) == Unparseable)|
            && st.noAnalysis == |Those(rows, n, (r: Snapshot) => detect(r.text) == Hit && Unanalysed(t, r))|
            && st.hits == st.noAnalysis + st.existing + st.inserted
  {
    hide Run, Those, Unanalysed, Balanced;
    if n == 0 {
      NothingCounted(t, rows, detect, dryRun, updateFacts);
    } else {
      RunBefore(t, rows, n, detect, dryRun, updateFacts);
      CountsMean(t, rows, n - 1, detect, dryRun, updateFacts);
      var a := Run(t, rows, n - 1, detect, dryRun, updateFacts);
      RunGrows(t, rows, n - 1, detect, dryRun, updateFacts);
      StepCounts(t, a.tables, a.stats, rows[n - 1], detect, dryRun, updateFacts);
      ThoseStep(rows, n - 1, (r: Snapshot) => detect(r.text) == Hit);
      ThoseStep(rows, n - 1, (r: Snapshot) => detect(r.text) == Unparseable);
      ThoseStep(rows, n - 1, (r: Snapshot) => detect(r.text) == Hit && Unanalysed(t, r));
    }
  }

  lemma NothingCounted(t: Tables, rows: seq<Snapshot>, detect: string -> Verdict, dryRun: bool, updateFacts: bool)
    ensures Run(t, rows, 0, detect, dryRun, updateFacts) == Next(t, ZERO)
    ensures forall p: Snapshot -> bool :: Those(rows, 0, p) == {}
  {}

  lemma RunBefore(t: Tables, rows: seq<Snapshot>, n: nat, detect: string -> Verdict, dryRun: bool, updateFacts: bool)
    requires 0 < n <= |rows| && Run(t, rows, n, detect, dryRun, updateFacts).Next?
    ensures var a := Run(t, rows, n - 1, detect, dryRun, updateFacts);
            && a.Next?
            && Run(t, rows, n, detect, dryRun, updateFacts)
               == Step(a.tables, a.stats, rows[n - 1], detect, dryRun, updateFacts)
  {}

  lemma StepCounts(t: Tables, u: Tables, st: Stats, row: Snapshot, detect: string -> Verdict, dryRun: bool,
                   updateFacts: bool)
    requires Grown(t, u) && Step(u, st, row, detect, dryRun, updateFacts).Next?
    ensures var after := Step(u, st, row, detect, dryRun, updateFacts).stats;
            && after.scanned == st.scanned + 1
            && after.hits == st.hits + (if detect(row.text) == Hit then 1 else 0)
            && after.unparseable == st.unparseable + (if detect(row.text) == Unparseable then 1 else 0)
            && after.noAnalysis == st.noAnalysis + (if detect(row.text) == Hit && Unanalysed(t, row) then 1 else 0)
            && after.hits - st.hits == after.noAnalysis - st.noAnalysis + after.existing - st.existing
                                       + after.inserted - st.inserted
  {
    LatestSame(t, u, row.package, |t.history|);
    LatestIsNewest(t, row.package, |t.history|);
    hide Latest, HasH104, Flagged;
  }

  /** The history rows whose fact differs. */
  ghost function Changed(t: Tables, u: Tables): set<nat>
    requires |t.history| == |u.history|
  {
    set i: nat | i < |t.history| && u.history[i].fact != t.history[i].fact
  }

  lemma StepPatches(u: Tables, st: Stats, row: Snapshot, detect: string -> Verdict, updateFacts: bool)
    requires Step(u, st, row, detect, false, updateFacts).Next?
    ensures var r, latest := Step(u, st, row, detect, false, updateFacts), LatestOf(u, row.package);
            if detect(row.text) == Hit && latest.Some? && !Flagged(u, u.history[latest.value].id) then
              r.stats.factsUpdated - st.factsUpdated
              == if r.tables.history[latest.value].fact != u.history[latest.value].fact then 1 else 0
            else r.stats.factsUpdated == st.factsUpdated
  {
    var latest := LatestOf(u, row.package);
    if latest.Some? && u.history[latest.value].fact.Object? {
      var b := u.history[latest.value].fact.breakdown;
      assert |b + [Rule(H104)]| != |b|;
    }
    hide LatestOf, HasH104, Flagged;
  }

  /** An unflagged row has its first fact still. */
  lemma UnflaggedUnchanged(t: Tables, u: Tables, rows: seq<Snapshot>, n: nat, detect: string -> Verdict,
                           updateFacts: bool, i: nat)
    requires n <= |rows| && Effect(t, u, rows, n, detect, updateFacts) && i < |t.history|
    requires !Flagged(u, t.history[i].id)
    ensures u.history[i].fact == t.history[i].fact
  {
    hide Wanted, Flagged, HasH104;
    assert RowEffect(t, u, rows, n, detect, updateFacts, i);
  }

  lemma ChangedByOne(t: Tables, u: Tables, i: nat, updateFacts: bool)
    requires |t.history| == |u.history| && i < |t.history| && u.history[i].fact == t.history[i].fact
    ensures var v := Written(u, i, updateFacts);
            |Changed(t, v)| == |Changed(t, u)| + if v.history[i].fact != u.history[i].fact then 1 else 0
  {
    var v := Written(u, i, updateFacts);
    if v.history[i].fact != u.history[i].fact {
      assert Changed(t, v) == Changed(t, u) + {i};
    } else {
      assert Changed(t, v) == Changed(t, u);
    }
  }

  /** A real pass counts as patched exactly the rows whose fact it changed. */
  lemma {:induction false} PatchesCounted(t: Tables, rows: seq<Snapshot>, n: nat, detect: string -> Verdict,
                                          updateFacts: bool)
    requires DistinctIds(t) && n <= |rows| && Run(t, rows, n, detect, false, updateFacts).Next?
    ensures var r := Run(t, rows, n, detect, false, updateFacts);
            |r.tables.history| == |t.history| && r.stats.factsUpdated == |Changed(t, r.tables)|
  {
    hide Run, Step, DistinctIds, Effect, Changed, Flagged, LatestOf;
    if n == 0 {
      NothingCounted(t, rows, detect, false, updateFacts);
      NothingChanged(t);
    } else {
      RunBefore(t, rows, n, detect, false, updateFacts);
      PatchesCounted(t, rows, n - 1, detect, updateFacts);
      BackfillEffect(t, rows, n - 1, detect, updateFacts);
      var a, row := Run(t, rows, n - 1, detect, false, updateFacts), rows[n - 1];
      StepWrites(a.tables, a.stats, row, detect, updateFacts);
      StepPatches(a.tables, a.stats, row, detect, updateFacts);
      EffectGrown(t, a.tables, rows, n - 1, detect, updateFacts);
      var latest := LatestOf(a.tables, row.package);
      if detect(row.text) == Hit && latest.Some? && !Flagged(a.tables, a.tables.history[latest.value].id) {
        UnflaggedUnchanged(t, a.tables, rows, n - 1, detect, updateFacts, latest.value);
        ChangedByOne(t, a.tables, latest.value, updateFacts);
      }
    }
  }

  lemma NothingChanged(t: Tables)
    ensures Changed(t, t) == {}
  {}

  // ----- the dry run

  /** The snapshot table's primary key, and the history table's. */
  ghost predicate Keyed(t: Tables, rows: seq<Snapshot>) {
    && (forall i, j :: 0 <= i < j < |rows| ==> rows[i].package != rows[j].package)
    && (forall i, j :: 0 <= i < j < |t.history| ==> t.history[i].id != t.history[j].id)
  }

  /** What the pass over the first `n` recipes has added is about their packages. */
  ghost predicate OnlyEarlier(t: Tables, b: Tables, rows: seq<Snapshot>, n: nat)
    requires n <= |rows|
  {
    && Grown(t, b)
    && forall j :: |t.triggered| <= j < |b.triggered| ==> About(t, b.triggered[j].historyId, rows, n)
  }

  /** `id` is an analysis of the package of one of the first `n` recipes. */
  ghost predicate About(t: Tables, id: nat, rows: seq<Snapshot>, n: nat)
    requires n <= |rows|
  {
    exists k, i :: 0 <= k < n && 0 <= i < |t.history| && id == t.history[i].id && Named(t, i, rows[k].package)
  }

  lemma NotAboutLater(t: Tables, i: nat, rows: seq<Snapshot>, n: nat)
    requires Keyed(t, rows) && n < |rows| && i < |t.history| && Named(t, i, rows[n].package)
    ensures !About(t, t.history[i].id, rows, n)
  {}

  lemma OnlyEarlierStep(t: Tables, b: Tables, st: Stats, rows: seq<Snapshot>, n: nat, detect: string -> Verdict,
                        updateFacts: bool)
    requires n < |rows| && OnlyEarlier(t, b, rows, n)
    requires Step(b, st, rows[n], detect, false, updateFacts).Next?
    ensures OnlyEarlier(t, Step(b, st, rows[n], detect, false, updateFacts).tables, rows, n + 1)
  {
    var c := Step(b, st, rows[n], detect, false, updateFacts).tables;
    StepGrows(b, st, rows[n], detect, false, updateFacts);
    GrownTransitive(t, b, c);
    forall j | |t.triggered| <= j < |c.triggered|
      ensures About(t, c.triggered[j].historyId, rows, n + 1)
    {
      if j < |b.triggered| {
        assert c.triggered[j] == b.triggered[j];
        assert About(t, b.triggered[j].historyId, rows, n);
      } else {
        AddedByStep(b, st, rows[n], detect, updateFacts, j);
        var i := LatestOf(b, rows[n].package).value;
        assert Named(t, i, rows[n].package) && c.triggered[j].historyId == t.history[i].id;
      }
    }
  }

  lemma AddedByStep(b: Tables, st: Stats, row: Snapshot, detect: string -> Verdict, updateFacts: bool, j: nat)
    requires Step(b, st, row, detect, false, updateFacts).Next?
    requires |b.triggered| <= j < |Step(b, st, row, detect, false, updateFacts).tables.triggered|
    ensures LatestOf(b, row.package).Some?
    ensures Step(b, st, row, detect, false, updateFacts).tables.triggered[j].historyId
              == b.history[LatestOf(b, row.package).value].id
  {
    hide LatestOf, HasH104, Flagged;
  }

  /** A recipe is flagged for the real pass exactly when it was before the pass. */
  lemma SameFlag(t: Tables, b: Tables, rows: seq<Snapshot>, n: nat)
    requires Keyed(t, rows) && n < |rows| && OnlyEarlier(t, b, rows, n)
    ensures LatestOf(b, rows[n].package) == LatestOf(t, rows[n].package)
    ensures LatestOf(t, rows[n].package).Some? ==>
              var id := t.history[LatestOf(t, rows[n].package).value].id;
              Flagged(b, id) <==> Flagged(t, id)
  {
    LatestSame(t, b, rows[n].package, |t.history|);
    hide Latest;
    if LatestOf(t, rows[n].package).Some? {
      var m := LatestOf(t, rows[n].package).value;
      var id := t.history[m].id;
      if Flagged(b, id) {
        var j :| 0 <= j < |b.triggered| && b.triggered[j] == Triggered(id, H104);
        NotAboutLater(t, m, rows, n);
        assert t.triggered[j] == b.triggered[j];
      }
      if Flagged(t, id) {
        var j :| 0 <= j < |t.triggered| && t.triggered[j] == Triggered(id, H104);
        assert b.triggered[j] == Triggered(id, H104);
      }
    }
  }

  lemma {:induction false} DryRunFollows(t: Tables, rows: seq<Snapshot>, n: nat, detect: string -> Verdict,
                                         updateFacts: bool)
    requires Keyed(t, rows) && n <= |rows| && Run(t, rows, n, detect, false, updateFacts).Next?
    ensures var actual, dry := Run(t, rows, n, detect, false, updateFacts), Run(t, rows, n, detect, true, updateFacts);
            && dry.Next? && dry.tables == t && dry.stats == actual.stats.(factsUpdated := 0)
            && OnlyEarlier(t, actual.tables, rows, n)
  {
    if n == 0 {
      assert t.triggered <= t.triggered;
    } else {
      DryRunFollows(t, rows, n - 1, detect, updateFacts);
      var actual := Run(t, rows, n - 1, detect, false, updateFacts);
      OnlyEarlierStep(t, actual.tables, actual.stats, rows, n - 1, detect, updateFacts);
      SameFlag(t, actual.tables, rows, n - 1);
      DryStep(t, actual.tables, actual.stats, rows[n - 1], detect, updateFacts);
    }
  }

  lemma DryStep(t: Tables, b: Tables, st: Stats, row: Snapshot, detect: string -> Verdict, updateFacts: bool)
    requires Grown(t, b) && Step(b, st, row, detect, false, updateFacts).Next?
    requires LatestOf(b, row.package) == LatestOf(t, row.package)
    requires LatestOf(t, row.package).Some? ==>
               var id := t.history[LatestOf(t, row.package).value].id; Flagged(b, id) <==> Flagged(t, id)
    ensures Step(t, st.(factsUpdated := 0), row, detect, true, updateFacts)
         == Next(t, Step(b, st, row, detect, false, updateFacts).stats.(factsUpdated := 0))
  {
    hide LatestOf, HasH104, Flagged;
  }

  /** With the tables' primary keys, a dry run reports the counts of the real run
      that completes, except for the facts it did not patch, and changes nothing. */
  lemma DryRunPredicts(t: Tables, rows: seq<Snapshot>, detect: string -> Verdict, updateFacts: bool)
    requires Keyed(t, rows) && Run(t, rows, |rows|, detect, false, updateFacts).Next?
    ensures var actual := Run(t, rows, |rows|, detect, false, updateFacts);
            Run(t, rows, |rows|, detect, true, updateFacts) == Next(t, actual.stats.(factsUpdated := 0))
  {
    hide Run;
    DryRunFollows(t, rows, |rows|, detect, updateFacts);
  }

  /** Without the key on package names the prediction can be too high: two
      snapshots of one package are counted twice by the dry run. */
  lemma DryRunOvercountsDuplicates()
    ensures var t := Tables(map[1 := "p"], [History(10, 1, Absent)], []);
            var rows := [Snapshot("p", "x"), Snapshot("p", "x")];
            var detect := (text: string) => Hit;
            && Run(t, rows, 2, detect, true, true).stats.inserted == 2
            && Run(t, rows, 2, detect, false, true).stats.inserted == 1
  {
    var t := Tables(map[1 := "p"], [History(10, 1, Absent)], []);
    var rows := [Snapshot("p", "x"), Snapshot("p", "x")];
    var detect := (text: string) => Hit;
    assert LatestOf(t, "p") == Some(0) by { assert Latest(t, "p", 0) == None; }
    assert Run(t, rows, 0, detect, true, true) == Next(t, ZERO);
    assert Run(t, rows, 0, detect, false, true) == Next(t, ZERO);
    assert Run(t, rows, 1, detect, true, true) == Next(t, Stats(1, 1, 1, 0, 0, 0, 0));
    var t1 := Inserted(t, 0);
    assert Run(t, rows, 1, detect, false, true) == Next(t1, Stats(1, 1, 1, 0, 0, 0, 0));
    assert LatestOf(t1, "p") == Some(0) by { assert Latest(t1, "p", 0) == None; }
    assert t1.triggered[0] == Triggered(10, H104);
  }
}
