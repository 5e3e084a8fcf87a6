/** The process pool behind a parallel scan, as a state machine: workers take
    tasks in submission order, finish them in any order, and the results are
    read back in submission order. A worker keeps a memory from one task to the
    next, and `work` says what a task yields and leaves behind in it. */
module WorkerPool {

  /** `next` tasks are handed out; `running` maps a task to the worker busy with it. */
  datatype Pool<W, R> = Pool(next: nat, running: map<nat, nat>, memory: seq<W>, done: map<nat, R>)

  /** The work on task `i` by a worker with some memory. */
  type Work<!W, R> = (nat, W) -> (R, W)

  /** An idle worker takes the next task. */
  ghost predicate Starts<W, R>(tasks: nat, a: Pool<W, R>, b: Pool<W, R>, w: nat) {
    && w < |a.memory| && a.next < tasks
    && (forall i :: i in a.running ==> a.running[i] != w)
    && b == a.(next := a.next + 1, running := a.running[a.next := w])
  }

  /** A worker hands back what its work on the task yields and is idle again. */
  ghost predicate Finishes<W, R>(work: Work<W, R>, a: Pool<W, R>, b: Pool<W, R>, i: nat) {
    && i in a.running && a.running[i] < |a.memory|
    && var w := a.running[i];
       var (result, memory) := work(i, a.memory[w]);
       b == Pool(a.next, a.running - {i}, a.memory[w := memory], a.done[i := result])
  }

  ghost predicate Step<W, R>(work: Work<W, R>, tasks: nat, a: Pool<W, R>, b: Pool<W, R>) {
    (exists w: nat :: Starts(tasks, a, b, w)) || (exists i: nat :: Finishes(work, a, b, i))
  }

  ghost predicate CanStep<W(!new), R(!new)>(work: Work<W, R>, tasks: nat, a: Pool<W, R>) {
    exists b :: Step(work, tasks, a, b)
  }

  /** A run of a pool whose workers start with these memories. */
  ghost predicate Run<W, R>(work: Work<W, R>, tasks: nat, memory: seq<W>, states: seq<Pool<W, R>>) {
    && states != []
    && states[0] == Pool(0, map[], memory, map[])
    && forall i :: 0 <= i < |states| - 1 ==> Step(work, tasks, states[i], states[i + 1])
  }

  ghost predicate Finished<W, R>(tasks: nat, p: Pool<W, R>) {
    p.next == tasks && p.running == map[]
  }

  /** A memory that is good yields each task's own result and stays good. */
  ghost predicate Isolated<W(!new), R>(work: Work<W, R>, results: seq<R>, good: W -> bool) {
    forall i: nat, m | i < |results| && good(m) :: work(i, m).0 == results[i] && good(work(i, m).1)
  }

  /** No task is lost, run twice or answered with another task's result. */
  ghost predicate Consistent<W, R>(results: seq<R>, good: W -> bool, p: Pool<W, R>) {
    && p.next <= |results|
    && (forall i: nat :: i < p.next <==> i in p.running || i in p.done)
    && (forall i :: i in p.running ==> i !in p.done && p.running[i] < |p.memory|)
    && (forall i :: i in p.done && i < |results| ==> p.done[i] == results[i])
    && (forall w :: 0 <= w < |p.memory| ==> good(p.memory[w]))
  }

  /** Steps still to take: two for a waiting task, one for a running one. */
  ghost function Remaining<W, R>(tasks: nat, p: Pool<W, R>): int {
    2 * (tasks - p.next) + |p.running|
  }

  lemma StartKeepsConsistent<W, R>(results: seq<R>, good: W -> bool, a: Pool<W, R>, b: Pool<W, R>, w: nat)
    requires Consistent(results, good, a) && Starts(|results|, a, b, w)
    ensures Consistent(results, good, b) && Remaining(|results|, b) < Remaining(|results|, a)
  {
    AddOne(a.running, a.next, w);
    assert a.next !in a.running && a.next !in a.done;
  }

  lemma AddOne(m: map<nat, nat>, k: nat, v: nat)
    requires k !in m
    ensures |m[k := v]| == |m| + 1
  {
    assert m[k := v].Keys == m.Keys + {k};
  }

  lemma DropOne(m: map<nat, nat>, k: nat)
    requires k in m
    ensures |m - {k}| == |m| - 1
  {
    assert (m - {k}).Keys == m.Keys - {k};
  }

  lemma FinishKeepsConsistent<W(!new), R>(work: Work<W, R>, results: seq<R>, good: W -> bool,
                                          a: Pool<W, R>, b: Pool<W, R>, i: nat)
    requires Isolated(work, results, good)
    requires Consistent(results, good, a) && Finishes(work, a, b, i)
    ensures Consistent(results, good, b) && Remaining(|results|, b) < Remaining(|results|, a)
  {
    assert good(a.memory[a.running[i]]);
    DropOne(a.running, i);
  }

  lemma StepKeepsConsistent<W(!new), R>(work: Work<W, R>, results: seq<R>, good: W -> bool,
                                        a: Pool<W, R>, b: Pool<W, R>)
    requires Isolated(work, results, good)
    requires Consistent(results, good, a) && Step(work, |results|, a, b)
    ensures Consistent(results, good, b)
    ensures Remaining(|results|, b) < Remaining(|results|, a)
  {
    hide Consistent, Starts, Finishes, Remaining, Isolated;
    if w: nat :| Starts(|results|, a, b, w) {
      StartKeepsConsistent(results, good, a, b, w);
    } else {
      var i: nat :| Finishes(work, a, b, i);
      FinishKeepsConsistent(work, results, good, a, b, i);
    }
  }

  lemma {:induction false} RunKeepsConsistent<W(!new), R>(work: Work<W, R>, results: seq<R>, good: W -> bool,
                                                          memory: seq<W>, states: seq<Pool<W, R>>)
    requires Isolated(work, results, good) && forall w :: 0 <= w < |memory| ==> good(memory[w])
    requires Run(work, |results|, memory, states)
    ensures Consistent(results, good, states[|states| - 1])
    ensures |states[|states| - 1].memory| == |memory|
    ensures Remaining(|results|, states[|states| - 1]) + |states| - 1 <= 2 * |results|
    decreases |states|
  {
    if |states| > 1 {
      hide Isolated, Consistent, Remaining;
      var n := |states| - 1;
      RunKeepsConsistent(work, results, good, memory, states[..n]);
      assert Step(work, |results|, states[n - 1], states[n]);
      StepKeepsConsistent(work, results, good, states[n - 1], states[n]);
    }
  }

  function Collect<R>(done: map<nat, R>, n: nat): seq<R>
    requires forall i: nat :: i < n ==> i in done
  {
    if n == 0 then [] else Collect(done, n - 1) + [done[n - 1]]
  }

  lemma {:induction false} CollectIs<R>(done: map<nat, R>, results: seq<R>, n: nat)
    requires n <= |results| && forall i: nat :: i < n ==> i in done && done[i] == results[i]
    ensures Collect(done, n) == results[..n]
  {
    if n > 0 {
      CollectIs(done, results, n - 1);
      assert results[..n] == results[..n - 1] + [results[n - 1]];
    }
  }

  /** Whatever the schedule, the number of workers and what earlier tasks leave in
      their memories, a finished run yields every task's own result in plan order. */
  lemma EveryScheduleYieldsResults<W(!new), R>(work: Work<W, R>, results: seq<R>, good: W -> bool,
                                               memory: seq<W>, states: seq<Pool<W, R>>)
    requires Isolated(work, results, good) && forall w :: 0 <= w < |memory| ==> good(memory[w])
    requires Run(work, |results|, memory, states) && Finished(|results|, states[|states| - 1])
    ensures var done := states[|states| - 1].done;
            && (forall i: nat :: i < |results| ==> i in done)
            && Collect(done, |results|) == results
  {
    hide Isolated;
    RunKeepsConsistent(work, results, good, memory, states);
    var done := states[|states| - 1].done;
    CollectIs(done, results, |results|);
    assert results[..|results|] == results;
  }

  /** With at least one worker no run gets stuck, and none is longer than two
      steps a task. */
  lemma EveryRunFinishes<W(!new), R(!new)>(work: Work<W, R>, results: seq<R>, good: W -> bool,
                                           memory: seq<W>, states: seq<Pool<W, R>>)
    requires Isolated(work, results, good) && forall w :: 0 <= w < |memory| ==> good(memory[w])
    requires memory != [] && Run(work, |results|, memory, states)
    ensures |states| <= 2 * |results| + 1
    ensures !Finished(|results|, states[|states| - 1]) ==> CanStep(work, |results|, states[|states| - 1])
  {
    hide Isolated;
    RunKeepsConsistent(work, results, good, memory, states);
    var a := states[|states| - 1];
    if a.running != map[] {
      var i :| i in a.running;
      var w := a.running[i];
      var (result, kept) := work(i, a.memory[w]);
      var b := Pool(a.next, a.running - {i}, a.memory[w := kept], a.done[i := result]);
      assert Finishes(work, a, b, i);
      assert Step(work, |results|, a, b);
    } else if a.next < |results| {
      var b := a.(next := a.next + 1, running := a.running[a.next := 0]);
      assert Starts(|results|, a, b, 0);
      assert Step(work, |results|, a, b);
    }
  }
}
