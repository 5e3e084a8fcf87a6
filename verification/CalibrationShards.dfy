/** The sharded scan and its merge.

    A plan's tasks are independent, so what matters is where each task's rows end
    up: shard `I/N` keeps the tasks at plan positions `I mod N` with their
    positions, and the merge sorts stably on position whatever order the
    artifacts are read in. */
module CalibrationShards {
  import opened Sorting
  import opened CalibrationScan
  import opened CalibrationPlan

  // ----- tasks, shards and artifacts, for rows of any kind

  function Residue(i: nat, total: nat): nat
    requires total > 0
    ensures Residue(i, total) < total
  {
    i % total
  }

  /** The rows of each task of one shard, with the task's plan position, for the
      first `n` tasks; `results[i]` are the rows of task `i`. */
  function ShardOf<R>(results: seq<seq<R>>, index: nat, total: nat, n: nat): seq<(nat, seq<R>)>
    requires total > 0 && n <= |results|
  {
    if n == 0 then []
    else
      ShardOf(results, index, total, n - 1)
      + if Residue(n - 1, total) == index then [(n - 1, results[n - 1])] else []
  }

  function Tag<R>(i: nat, rows: seq<R>, n: nat): seq<(nat, R)>
    requires n <= |rows|
  {
    if n == 0 then [] else Tag(i, rows, n - 1) + [(i, rows[n - 1])]
  }

  /** All rows of one artifact, each with its task's position. */
  function Pairs<R>(tasks: seq<(nat, seq<R>)>, n: nat): seq<(nat, R)>
    requires n <= |tasks|
  {
    if n == 0 then [] else Pairs(tasks, n - 1) + Tag(tasks[n - 1].0, tasks[n - 1].1, |tasks[n - 1].1|)
  }

  function AllPairs<R>(artifacts: seq<seq<(nat, seq<R>)>>, n: nat): seq<(nat, R)>
    requires n <= |artifacts|
  {
    if n == 0 then [] else AllPairs(artifacts, n - 1) + Pairs(artifacts[n - 1], |artifacts[n - 1]|)
  }

  predicate ByIndex<R>(a: (nat, R), b: (nat, R)) {
    a.0 <= b.0
  }

  function Seconds<R>(pairs: seq<(nat, R)>, n: nat): seq<R>
    requires n <= |pairs|
  {
    if n == 0 then [] else Seconds(pairs, n - 1) + [pairs[n - 1].1]
  }

  function Merged<R>(artifacts: seq<seq<(nat, seq<R>)>>): seq<R> {
    var sorted := Sort(AllPairs(artifacts, |artifacts|), ByIndex);
    Seconds(sorted, |sorted|)
  }

  /** The rows of the tasks whose shard is among `shards`, in plan order. */
  function Covered<R>(results: seq<seq<R>>, shards: seq<nat>, total: nat, n: nat): seq<(nat, R)>
    requires total > 0 && n <= |results|
  {
    if n == 0 then []
    else
      Covered(results, shards, total, n - 1)
      + if Residue(n - 1, total) in shards then Tag(n - 1, results[n - 1], |results[n - 1]|) else []
  }

  function Flatten<R>(results: seq<seq<R>>, n: nat): seq<R>
    requires n <= |results|
  {
    if n == 0 then [] else Flatten(results, n - 1) + results[n - 1]
  }

  /** The artifacts of the listed shards, in the order the files are read. */
  ghost predicate ArtifactsOf<R>(artifacts: seq<seq<(nat, seq<R>)>>, results: seq<seq<R>>, shards: seq<nat>,
                                 total: nat) {
    && total > 0
    && |artifacts| == |shards|
    && (forall i, j :: 0 <= i < j < |shards| ==> shards[i] != shards[j])
    && forall i :: 0 <= i < |shards| ==> artifacts[i] == ShardOf(results, shards[i], total, |results|)
  }

  // ----- every task belongs to exactly one shard

  lemma {:induction false} ShardMembers<R>(results: seq<seq<R>>, index: nat, total: nat, n: nat)
    requires total > 0 && n <= |results|
    ensures var shard := ShardOf(results, index, total, n);
            forall t :: t in shard ==> t.0 < n && t.1 == results[t.0] && Residue(t.0, total) == index
    ensures var shard := ShardOf(results, index, total, n);
            forall i, j :: 0 <= i < j < |shard| ==> shard[i].0 < shard[j].0
    ensures var shard := ShardOf(results, index, total, n);
            forall i: nat :: i < n && Residue(i, total) == index ==> exists j :: 0 <= j < |shard| && shard[j].0 == i
  {
    hide Residue;
    if n > 0 {
      ShardMembers(results, index, total, n - 1);
      var a, b := ShardOf(results, index, total, n - 1), ShardOf(results, index, total, n);
      forall i | 0 <= i < |a| ensures a[i].0 < n - 1 {
        var t := a[i];
        assert t in a;
      }
      forall i: nat | i < n && Residue(i, total) == index ensures exists j :: 0 <= j < |b| && b[j].0 == i {
        if i < n - 1 {
          var j :| 0 <= j < |a| && a[j].0 == i;
          assert b[j].0 == i;
        } else {
          assert b[|a|].0 == i;
        }
      }
    }
  }

  /** Shard `index` of `total` holds the tasks whose position leaves that remainder, each
      with its rows, in the order of the plan, and holds all of them. */
  lemma ShardIsRemainder<R>(results: seq<seq<R>>, index: nat, total: nat)
    requires total > 0
    ensures var shard := ShardOf(results, index, total, |results|);
            && (forall t :: t in shard ==> t.0 < |results| && t.1 == results[t.0] && t.0 % total == index)
            && (forall i, j :: 0 <= i < j < |shard| ==> shard[i].0 < shard[j].0)
            && forall i: nat :: i < |results| && i % total == index ==> exists j :: 0 <= j < |shard| && shard[j].0 == i
  {
    ShardMembers(results, index, total, |results|);
    hide ShardOf, Residue;
    var shard := ShardOf(results, index, total, |results|);
    forall t | t in shard ensures t.0 % total == index { ResidueIs(t.0, total); }
    forall i: nat | i < |results| && i % total == index ensures exists j :: 0 <= j < |shard| && shard[j].0 == i {
      ResidueIs(i, total);
    }
  }

  /** Entry `j` of shard `index` is task `i`. */
  ghost predicate HoldsTask<R>(results: seq<seq<R>>, total: nat, index: nat, j: nat, i: nat)
    requires total > 0
  {
    j < |ShardOf(results, index, total, |results|)| && ShardOf(results, index, total, |results|)[j].0 == i
  }

  /** The `total` shards partition the plan: each task is in exactly one of them,
      once, with its rows. */
  lemma ShardsPartition<R>(results: seq<seq<R>>, total: nat, i: nat)
    requires total > 0 && i < |results|
    ensures exists index: nat, j: nat ::
              && index < total
              && HoldsTask(results, total, index, j, i)
              && ShardOf(results, index, total, |results|)[j].1 == results[i]
              && forall other: nat, m: nat :: HoldsTask(results, total, other, m, i) ==> other == index && m == j
  {
    hide Residue, ShardOf;
    var index := Residue(i, total);
    ShardMembers(results, index, total, |results|);
    var shard := ShardOf(results, index, total, |results|);
    var j: nat :| j < |shard| && shard[j].0 == i;
    assert shard[j] in shard;
    forall other: nat, m: nat | HoldsTask(results, total, other, m, i) ensures other == index && m == j {
      ShardMembers(results, other, total, |results|);
      var so := ShardOf(results, other, total, |results|);
      assert so[m] in so;
    }
    assert HoldsTask(results, total, index, j, i);
  }

  // ----- what the sort sees

  lemma IndexOrder<R(!new)>()
    ensures TotalPreorder<(nat, R)>(ByIndex)
  {}

  lemma {:induction false} TiesTag<R(!new)>(i: nat, rows: seq<R>, n: nat, k: (nat, R))
    requires n <= |rows|
    ensures Ties(Tag(i, rows, n), k, ByIndex) == if i == k.0 then Tag(i, rows, n) else []
  {
    if n > 0 {
      TiesTag(i, rows, n - 1, k);
      var last := [(i, rows[n - 1])];
      TiesConcat(Tag(i, rows, n - 1), last, k, ByIndex);
      assert Ties(last, k, ByIndex) == if i == k.0 then last else [] by { assert last[1..] == []; }
    }
  }

  /** What one shard contributes to position `k.0`. */
  lemma {:induction false} TiesShard<R(!new)>(results: seq<seq<R>>, index: nat, total: nat, n: nat, k: (nat, R))
    requires total > 0 && n <= |results|
    ensures var shard := ShardOf(results, index, total, n);
            Ties(Pairs(shard, |shard|), k, ByIndex)
            == if k.0 < n && Residue(k.0, total) == index then Tag(k.0, results[k.0], |results[k.0]|) else []
  {
    hide Residue, Ties, Tag;
    if n == 0 {
      NoTies(k);
    } else {
      TiesShard(results, index, total, n - 1, k);
      PairsStep(results, index, total, n - 1);
      hide ShardOf, Pairs;
      var a := ShardOf(results, index, total, n - 1);
      NoTies(k);
      TiesConcat(Pairs(a, |a|), Tag(n - 1, results[n - 1], |results[n - 1]|), k, ByIndex);
      TiesConcat(Pairs(a, |a|), [], k, ByIndex);
      TiesTag(n - 1, results[n - 1], |results[n - 1]|, k);
    }
  }

  /** One more task adds its rows to the shard it belongs to. */
  lemma PairsStep<R>(results: seq<seq<R>>, index: nat, total: nat, n: nat)
    requires total > 0 && n < |results|
    ensures var a, b := ShardOf(results, index, total, n), ShardOf(results, index, total, n + 1);
            Pairs(b, |b|) == Pairs(a, |a|) + if Residue(n, total) == index then Tag(n, results[n], |results[n]|) else []
  {
    hide Residue, Tag;
    var a, b := ShardOf(results, index, total, n), ShardOf(results, index, total, n + 1);
    if Residue(n, total) == index {
      PairsPrefix(a, b, |a|);
    } else {
      assert b == a;
    }
  }

  lemma NoTies<R(!new)>(k: (nat, R))
    ensures Ties([], k, ByIndex) == []
  {}

  lemma {:induction false} PairsPrefix<R>(a: seq<(nat, seq<R>)>, b: seq<(nat, seq<R>)>, n: nat)
    requires n <= |a| && a <= b
    ensures Pairs(b, n) == Pairs(a, n)
  {
    hide Tag;
    if n > 0 { PairsPrefix(a, b, n - 1); }
  }

  /** What the first `m` artifacts together contribute to position `k.0`. */
  lemma {:induction false} TiesArtifacts<R(!new)>(artifacts: seq<seq<(nat, seq<R>)>>, results: seq<seq<R>>,
                                                  shards: seq<nat>, total: nat, m: nat, k: (nat, R))
    requires ArtifactsOf(artifacts, results, shards, total) && m <= |shards|
    ensures Ties(AllPairs(artifacts, m), k, ByIndex)
         == if k.0 < |results| && Residue(k.0, total) in shards[..m] then Tag(k.0, results[k.0], |results[k.0]|) else []
  {
    hide Residue, Ties, Tag, ShardOf, Pairs;
    if m == 0 {
      NoTies(k);
    } else {
      TiesArtifacts(artifacts, results, shards, total, m - 1, k);
      TiesShard(results, shards[m - 1], total, |results|, k);
      var last := artifacts[m - 1];
      TiesConcat(AllPairs(artifacts, m - 1), Pairs(last, |last|), k, ByIndex);
      assert shards[..m] == shards[..m - 1] + [shards[m - 1]];
      assert shards[m - 1] !in shards[..m - 1];
    }
  }

  lemma CoveredStep<R>(results: seq<seq<R>>, shards: seq<nat>, total: nat, n: nat)
    requires total > 0 && n < |results|
    ensures Covered(results, shards, total, 0) == []
    ensures Covered(results, shards, total, n + 1)
         == Covered(results, shards, total, n)
            + if Residue(n, total) in shards then Tag(n, results[n], |results[n]|) else []
  {
    hide Residue, Tag;
  }

  lemma {:induction false} TiesCovered<R(!new)>(results: seq<seq<R>>, shards: seq<nat>, total: nat, n: nat, k: (nat, R))
    requires total > 0 && n <= |results|
    ensures Ties(Covered(results, shards, total, n), k, ByIndex)
         == if k.0 < n && Residue(k.0, total) in shards then Tag(k.0, results[k.0], |results[k.0]|) else []
  {
    hide Residue, Ties, Tag;
    if n == 0 {
      NoTies(k);
    } else {
      TiesCovered(results, shards, total, n - 1, k);
      CoveredStep(results, shards, total, n - 1);
      hide Covered;
      var tagged := Tag(n - 1, results[n - 1], |results[n - 1]|);
      NoTies(k);
      TiesConcat(Covered(results, shards, total, n - 1), tagged, k, ByIndex);
      TiesConcat(Covered(results, shards, total, n - 1), [], k, ByIndex);
      TiesTag(n - 1, results[n - 1], |results[n - 1]|, k);
    }
  }

  lemma {:induction false} TagShape<R>(i: nat, rows: seq<R>, n: nat)
    requires n <= |rows|
    ensures |Tag(i, rows, n)| == n
    ensures forall j :: 0 <= j < n ==> Tag(i, rows, n)[j] == (i, rows[j])
  {
    if n > 0 { TagShape(i, rows, n - 1); }
  }

  lemma {:induction false} CoveredSorted<R(!new)>(results: seq<seq<R>>, shards: seq<nat>, total: nat, n: nat)
    requires total > 0 && n <= |results|
    ensures Sorted(Covered(results, shards, total, n), ByIndex)
    ensures forall j :: 0 <= j < |Covered(results, shards, total, n)| ==> Covered(results, shards, total, n)[j].0 < n
  {
    hide Residue, Tag;
    if n > 0 {
      CoveredSorted(results, shards, total, n - 1);
      TagShape(n - 1, results[n - 1], |results[n - 1]|);
    }
  }

  /** Merging the artifacts of any set of shards, read in any order, gives the
      rows of exactly their tasks, in plan order and in order within a task. */
  lemma MergeIsPlanOrder<R(!new)>(artifacts: seq<seq<(nat, seq<R>)>>, results: seq<seq<R>>, shards: seq<nat>,
                                  total: nat)
    requires ArtifactsOf(artifacts, results, shards, total)
    ensures Sort(AllPairs(artifacts, |artifacts|), ByIndex) == Covered(results, shards, total, |results|)
  {
    hide Residue, Tag, ShardOf, Pairs, AllPairs, Covered, Ties, Sort;
    var all, target := AllPairs(artifacts, |artifacts|), Covered(results, shards, total, |results|);
    IndexOrder<R>();
    CoveredSorted(results, shards, total, |results|);
    assert shards[..|shards|] == shards;
    forall k ensures Ties(all, k, ByIndex) == Ties(target, k, ByIndex) {
      TiesArtifacts(artifacts, results, shards, total, |shards|, k);
      TiesCovered(results, shards, total, |results|, k);
    }
    SortIs(all, target, ByIndex);
  }

  lemma {:induction false} SecondsConcat<R>(a: seq<(nat, R)>, b: seq<(nat, R)>, n: nat)
    requires n <= |b|
    ensures Seconds(a + b, |a| + n) == Seconds(a, |a|) + Seconds(b, n)
    decreases n
  {
    if n == 0 {
      SecondsPrefix(a, b, |a|);
    } else {
      SecondsConcat(a, b, n - 1);
    }
  }

  lemma {:induction false} SecondsPrefix<R>(a: seq<(nat, R)>, b: seq<(nat, R)>, n: nat)
    requires n <= |a|
    ensures Seconds(a + b, n) == Seconds(a, n)
  {
    if n > 0 { SecondsPrefix(a, b, n - 1); }
  }

  lemma {:induction false} SecondsTag<R>(i: nat, rows: seq<R>, n: nat, pairs: seq<(nat, R)>)
    requires n <= |rows| && n <= |pairs| && forall j :: 0 <= j < n ==> pairs[j] == (i, rows[j])
    ensures Seconds(pairs, n) == rows[..n]
  {
    if n > 0 {
      SecondsTag(i, rows, n - 1, pairs);
      assert rows[..n] == rows[..n - 1] + [rows[n - 1]];
    }
  }

  lemma {:induction false} AllCovered<R(!new)>(results: seq<seq<R>>, shards: seq<nat>, total: nat, n: nat)
    requires total > 0 && n <= |results| && forall index: nat :: index < total ==> index in shards
    ensures var c := Covered(results, shards, total, n);
            Seconds(c, |c|) == Flatten(results, n)
  {
    hide Residue, Tag;
    if n > 0 {
      AllCovered(results, shards, total, n - 1);
      var rows := results[n - 1];
      var tagged := Tag(n - 1, rows, |rows|);
      TagShape(n - 1, rows, |rows|);
      SecondsConcat(Covered(results, shards, total, n - 1), tagged, |tagged|);
      SecondsTag(n - 1, rows, |rows|, tagged);
      assert rows[..|rows|] == rows;
    }
  }

  /** All shards merged, in any file order: exactly the unsharded rows. */
  lemma MergeRestoresWholeScan<R(!new)>(artifacts: seq<seq<(nat, seq<R>)>>, results: seq<seq<R>>, shards: seq<nat>,
                                        total: nat)
    requires ArtifactsOf(artifacts, results, shards, total)
    requires forall index: nat :: index < total ==> index in shards
    ensures Merged(artifacts) == Flatten(results, |results|)
  {
    hide Residue, Tag, ShardOf, Pairs, AllPairs, Covered, Sort, Seconds, Flatten;
    MergeIsPlanOrder(artifacts, results, shards, total);
    AllCovered(results, shards, total, |results|);
  }

  // ----- the artifact's paths

  /** A path by its components; an absolute one starts with "/". */
  predicate Absolute(path: Path) {
    path != [] && path[0] == "/"
  }

  function Join(base: Path, path: Path): Path {
    if Absolute(path) then path else base + path
  }

  /** A row as the artifact stores it: relative to the corpus when it is below it. */
  function JsonRow(row: Row, corpus: Path): Row {
    if corpus <= row.path then row.(path := row.path[|corpus|..]) else row
  }

  function Reroot(row: Row, corpus: Path): Row {
    row.(path := Join(corpus, row.path))
  }

  function JsonRows(rows: seq<Row>, corpus: Path): seq<Row> {
    seq(|rows|, i requires 0 <= i < |rows| => JsonRow(rows[i], corpus))
  }

  function RerootAll(rows: seq<Row>, corpus: Path): seq<Row> {
    seq(|rows|, i requires 0 <= i < |rows| => Reroot(rows[i], corpus))
  }

  /** `path` is found by walking `corpus`. */
  ghost predicate Below(corpus: Path, path: Path) {
    corpus <= path && !Absolute(path[|corpus|..])
  }

  /** Stored and read back, a path moves from one checkout of the corpus to the
      other; on the same checkout the row is unchanged. */
  lemma PathRoundTrip(row: Row, here: Path, there: Path)
    requires Below(here, row.path)
    ensures Reroot(JsonRow(row, here), there) == row.(path := there + row.path[|here|..])
    ensures Reroot(JsonRow(row, here), here) == row
  {
    assert here + row.path[|here|..] == row.path;
  }

  /** A path outside the corpus is stored as it is, and stays where it is if absolute;
      whatever the path, nothing else of the row changes. */
  lemma OtherPathsStay(row: Row, here: Path, there: Path)
    ensures !(here <= row.path) ==> JsonRow(row, here) == row
    ensures row.path != [] && row.path[0] == "/" ==> Reroot(row, there) == row
    ensures Reroot(JsonRow(row, here), there) == row.(path := Reroot(JsonRow(row, here), there).path)
  {}

  // ----- scanning a shard and merging the files

  /** The rows of every task of a plan. */
  function Results(s: Scanner, plan: seq<Task>, corpus: Path, n: nat): (r: seq<seq<Row>>)
    requires n <= |plan|
    ensures |r| == n
    ensures forall i :: 0 <= i < n ==> r[i] == JsonRows(TaskRows(s, plan[i]), corpus)
  {
    if n == 0 then [] else Results(s, plan, corpus, n - 1) + [JsonRows(TaskRows(s, plan[n - 1]), corpus)]
  }

  /** Scan one slice of the plan and keep each task's position beside its rows. */
  method ScanShard(s: Scanner, plan: seq<Task>, corpus: Path, index: nat, total: nat)
    returns (artifact: seq<(nat, seq<Row>)>)
    requires total > 0
    requires forall t :: t in plan ==> t.pkg != GLOBAL_URL_KEY
    ensures artifact == ShardOf(Results(s, plan, corpus, |plan|), index, total, |plan|)
  {
    hide Residue, TaskRows, JsonRows;
    artifact := [];
    ghost var results := Results(s, plan, corpus, |plan|);
    var i := 0;
    while i < |plan|
      invariant 0 <= i <= |plan|
      invariant artifact == ShardOf(results, index, total, i)
    {
      if i % total == index {
        var rows, _ := ScanTask(s, plan[i]);
        artifact := artifact + [(i, JsonRows(rows, corpus))];
      }
      ResidueIs(i, total);
      i := i + 1;
    }
  }

  lemma ResidueIs(i: nat, total: nat)
    requires total > 0
    ensures Residue(i, total) == i % total
  {}

  /** Concatenate the artifacts in file order, sort stably on position, and root
      the paths at this job's corpus. */
  method MergeShardRows(artifacts: seq<seq<(nat, seq<Row>)>>, corpus: Path) returns (rows: seq<Row>)
    ensures rows == RerootAll(Merged(artifacts), corpus)
  {
    hide Tag, Sort;
    var pairs: seq<(nat, Row)> := [];
    var a := 0;
    while a < |artifacts|
      invariant 0 <= a <= |artifacts|
      invariant pairs == AllPairs(artifacts, a)
    {
      var data := artifacts[a];
      var t := 0;
      while t < |data|
        invariant 0 <= t <= |data|
        invariant pairs == AllPairs(artifacts, a) + Pairs(data, t)
      {
        pairs := pairs + Tag(data[t].0, data[t].1, |data[t].1|);
        t := t + 1;
      }
      a := a + 1;
    }
    pairs := Sort(pairs, ByIndex);
    rows := [];
    var i := 0;
    while i < |pairs|
      invariant 0 <= i <= |pairs|
      invariant rows == RerootAll(Seconds(pairs, i), corpus)
    {
      rows := rows + [Reroot(pairs[i].1, corpus)];
      i := i + 1;
    }
  }

  function Trimmed(path: Path, corpus: Path): Path {
    if corpus <= path then path[|corpus|..] else path
  }

  /** `rows` as another checkout of the corpus would give them. */
  function Moved(rows: seq<Row>, here: Path, there: Path): (r: seq<Row>)
    ensures |r| == |rows|
    ensures forall i :: 0 <= i < |rows| ==> r[i] == rows[i].(path := there + Trimmed(rows[i].path, here))
  {
    seq(|rows|, i requires 0 <= i < |rows| => rows[i].(path := there + Trimmed(rows[i].path, here)))
  }

  lemma ArtifactMovesRows(rows: seq<Row>, here: Path, there: Path)
    requires forall r :: r in rows ==> Below(here, r.path)
    ensures RerootAll(JsonRows(rows, here), there) == Moved(rows, here, there)
  {
    hide Absolute;
    forall i | 0 <= i < |rows| ensures RerootAll(JsonRows(rows, here), there)[i] == Moved(rows, here, there)[i] {
      assert rows[i] in rows;
      PathRoundTrip(rows[i], here, there);
    }
  }

  lemma ConcatRows(a: seq<Row>, b: seq<Row>, here: Path, there: Path)
    ensures RerootAll(a + b, there) == RerootAll(a, there) + RerootAll(b, there)
    ensures Moved(a + b, here, there) == Moved(a, here, there) + Moved(b, here, there)
  {
    hide Reroot, Trimmed;
  }

  lemma {:induction false} FlatIsFlatten(s: Scanner, plan: seq<Task>, here: Path, there: Path, n: nat)
    requires n <= |plan|
    requires forall t, d :: t in plan && d in t.diffs ==> Below(here, d.path)
    ensures RerootAll(Flatten(Results(s, plan, here, |plan|), n), there) == Moved(FlatRows(s, plan, n), here, there)
    ensures forall r :: r in FlatRows(s, plan, n) ==> Below(here, r.path)
  {
    hide TaskRows, Below, Results, JsonRows, Trimmed, Reroot;
    if n > 0 {
      FlatIsFlatten(s, plan, here, there, n - 1);
      assert plan[n - 1] in plan;
      TaskPaths(s, plan[n - 1], here);
      var rows := TaskRows(s, plan[n - 1]);
      ArtifactMovesRows(rows, here, there);
      ConcatRows(Flatten(Results(s, plan, here, |plan|), n - 1), JsonRows(rows, here), here, there);
      ConcatRows(FlatRows(s, plan, n - 1), rows, here, there);
    }
  }

  lemma TaskPaths(s: Scanner, task: Task, here: Path)
    requires forall d :: d in task.diffs ==> Below(here, d.path)
    ensures forall r :: r in TaskRows(s, task) ==> Below(here, r.path)
  {
    hide PackageRows, DiffFact, Absolute, Below;
    PackageRowsAt(s, task.pkg, task.diffs, |task.diffs|, task.prefix, 0);
    forall r | r in TaskRows(s, task) ensures Below(here, r.path) {
      var i :| 0 <= i < |task.diffs| && r == TaskRows(s, task)[i];
      assert r.path == task.diffs[i].path;
    }
  }

  /** From the corpus to the merged rows: every shard of the plan scanned on one
      checkout and merged on another, in any file order, gives the rows of the
      unsharded scan with only the checkout prefix of their paths replaced. */
  lemma ShardedScanIsWholeScan(s: Scanner, plan: seq<Task>, here: Path, there: Path,
                                        artifacts: seq<seq<(nat, seq<Row>)>>, shards: seq<nat>, total: nat)
    requires forall t, d :: t in plan && d in t.diffs ==> Below(here, d.path)
    requires ArtifactsOf(artifacts, Results(s, plan, here, |plan|), shards, total)
    requires forall index: nat :: index < total ==> index in shards
    ensures var whole := FlatRows(s, plan, |plan|);
            && RerootAll(Merged(artifacts), there) == Moved(whole, here, there)
            && (here == there ==> RerootAll(Merged(artifacts), there) == whole)
  {
    hide TaskRows, Flatten, Merged, FlatRows, Absolute, JsonRow, Reroot;
    MergeRestoresWholeScan(artifacts, Results(s, plan, here, |plan|), shards, total);
    FlatIsFlatten(s, plan, here, there, |plan|);
    var whole := FlatRows(s, plan, |plan|);
    if here == there {
      forall i | 0 <= i < |whole| ensures Moved(whole, here, there)[i] == whole[i] {
        assert whole[i] in whole;
        assert there + Trimmed(whole[i].path, here) == whole[i].path;
      }
    }
  }
}
