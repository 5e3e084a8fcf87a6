/** The pool applied to the scan tasks of a plan, and what the whole parallel or
    sharded scan yields. */
module PooledScan {
  import opened CalibrationPlan
  import opened CalibrationScan
  import opened CalibrationShards
  import opened NoveltyScore
  import opened WorkerPool

  /** What a worker process keeps: the rules, configuration and row format its
      initialiser sets, and whatever the last task left behind, such as the novelty
      dictionary it filled. */
  datatype Worker = Worker(settings: Scanner, leftover: map<Package, set<Url>>)

  /** A scan task on a worker: the settings are read and kept, the dictionary is new. */
  function ScanWork(plan: seq<Task>): Work<Worker, seq<Row>> {
    (i: nat, m: Worker) =>
      if i < |plan| then (TaskRows(m.settings, plan[i]), Worker(m.settings, Leftover(m.settings, plan[i]))) else ([], m)
  }

  /** A worker process: it runs one task after another. */
  class Process {
    var settings: Scanner
    var state: NoveltyState

    constructor (settings: Scanner)
      ensures this.settings == settings && fresh(state)
    {
      this.settings := settings;
      state := new NoveltyState(map[]);
    }

    ghost function Memory(): Worker
      reads this, state
    {
      Worker(settings, state.seen)
    }

    /** The rows of a task and the memory after it, whatever was in the memory before. */
    method ScanPackageTask(task: Task) returns (rows: seq<Row>)
      requires task.pkg != GLOBAL_URL_KEY
      modifies this
      ensures (rows, Memory()) == ScanWork([task])(0, old(Memory()))
    {
      hide TaskRows, Leftover;
      rows, state := ScanTask(settings, task);
    }
  }

  function TaskResults(s: Scanner, plan: seq<Task>): seq<seq<Row>> {
    seq(|plan|, i requires 0 <= i < |plan| => TaskRows(s, plan[i]))
  }

  /** Initialised workers answer every task with its own rows and stay initialised,
      whatever earlier tasks left behind. */
  lemma ScanTasksAreIsolated(s: Scanner, plan: seq<Task>)
    ensures Isolated(ScanWork(plan), TaskResults(s, plan), (m: Worker) => m.settings == s)
  {
    hide TaskRows, Leftover;
  }

  lemma {:induction false} FlattenTasks(s: Scanner, plan: seq<Task>, n: nat)
    requires n <= |plan|
    ensures Flatten(TaskResults(s, plan), n) == FlatRows(s, plan, n)
  {
    hide TaskRows;
    if n > 0 { FlattenTasks(s, plan, n - 1); }
  }

  /** End to end: on every corpus, every schedule of the pool over the plan, with any
      number of workers, gives the rows of the serial walk. */
  lemma EveryScheduleIsSerial(s: Scanner, groups: seq<Group>, keep: int -> bool,
                              workers: seq<Worker>, states: seq<Pool<Worker, seq<Row>>>)
    requires forall w :: 0 <= w < |workers| ==> workers[w].settings == s
    requires var plan := Plan(s, groups, keep, |groups|);
             Run(ScanWork(plan), |plan|, workers, states) && Finished(|plan|, states[|states| - 1])
    ensures var n, done := |Plan(s, groups, keep, |groups|)|, states[|states| - 1].done;
            && (forall i: nat :: i < n ==> i in done)
            && Flatten(Collect(done, n), |Collect(done, n)|) == SerialRows(s, groups, keep, |groups|)
  {
    hide Plan, SerialRows, FlatRows, TaskRows, Collect, Flatten, Run, Finished, Isolated, ScanWork;
    var plan := Plan(s, groups, keep, |groups|);
    ScanTasksAreIsolated(s, plan);
    EveryScheduleYieldsResults(ScanWork(plan), TaskResults(s, plan), (m: Worker) => m.settings == s, workers, states);
    FlattenTasks(s, plan, |plan|);
    CorpusRowsAreSerial(s, groups, keep);
  }

  /** End to end for shards: on every corpus, all shards scanned and merged on one
      checkout give the rows of the serial walk. */
  lemma ShardedScanIsSerial(s: Scanner, groups: seq<Group>, keep: int -> bool, corpus: Path,
                            artifacts: seq<seq<(nat, seq<Row>)>>, shards: seq<nat>, total: nat)
    requires var plan := Plan(s, groups, keep, |groups|);
             && (forall t, d :: t in plan && d in t.diffs ==> Below(corpus, d.path))
             && ArtifactsOf(artifacts, Results(s, plan, corpus, |plan|), shards, total)
    requires forall index: nat :: index < total ==> index in shards
    ensures RerootAll(Merged(artifacts), corpus) == SerialRows(s, groups, keep, |groups|)
  {
    hide Plan, SerialRows, FlatRows, Merged, ArtifactsOf, Below;
    var plan := Plan(s, groups, keep, |groups|);
    ShardedScanIsWholeScan(s, plan, corpus, corpus, artifacts, shards, total);
    CorpusRowsAreSerial(s, groups, keep);
  }
}
