/** `mapWithConcurrency`: workers that pull the next index and write their result, in any interleaving. */
module WorkerPool {
  import opened Wrappers

  datatype Worker = Ready | Running(index: nat) | Done

  /** `calls` records the indices the mapper was called with, in order. */
  datatype Pool<+R> = Pool(nextIndex: nat, workers: seq<Worker>, results: seq<Option<R>>, calls: seq<nat>)

  /** A worker takes the next index (and calls the mapper, or stops), or its call returns. */
  datatype Action = Pull(w: nat) | Finish(w: nat)

  function WorkerCount(concurrency: int, n: nat): nat {
    if concurrency <= 0 then 0 else if concurrency < n then concurrency else n
  }

  function Start<R>(n: nat, concurrency: int): Pool<R> {
    Pool(0, seq(WorkerCount(concurrency, n), _ => Ready), seq(n, _ => None), [])
  }

  function Step<V, R>(values: seq<V>, mapper: V -> R, p: Pool<R>, a: Action): Option<Pool<R>> {
    if a.w >= |p.workers| then None
    else match a
      case Pull(w) =>
        if p.workers[w] != Ready then None
        else if p.nextIndex >= |values| then Some(p.(nextIndex := p.nextIndex + 1, workers := p.workers[w := Done]))
        else Some(p.(nextIndex := p.nextIndex + 1, workers := p.workers[w := Running(p.nextIndex)],
                     calls := p.calls + [p.nextIndex]))
      case Finish(w) =>
        if !p.workers[w].Running? || p.workers[w].index >= |values| || p.workers[w].index >= |p.results| then None
        else
          var index := p.workers[w].index;
          Some(p.(results := p.results[index := Some(mapper(values[index]))], workers := p.workers[w := Ready]))
  }

  function Exec<V, R>(values: seq<V>, mapper: V -> R, p: Pool<R>, run: seq<Action>): Option<Pool<R>>
    decreases |run|
  {
    if run == [] then Some(p)
    else
      var next := Step(values, mapper, p, run[0]);
      if next.None? then None else Exec(values, mapper, next.value, run[1..])
  }

  ghost function Started(p: Pool, n: nat): nat {
    if p.nextIndex < n then p.nextIndex else n
  }

  /** The indices pulled so far were each called once, in order; each is running in one worker or has its result. */
  ghost predicate Inv<V, R>(values: seq<V>, mapper: V -> R, concurrency: int, p: Pool<R>) {
    && |p.workers| == WorkerCount(concurrency, |values|) && |p.results| == |values|
    && |p.calls| == Started(p, |values|) && (forall k | 0 <= k < |p.calls| :: p.calls[k] == k)
    && (forall w | 0 <= w < |p.workers| && p.workers[w].Running? :: p.workers[w].index < Started(p, |values|))
    && (forall v, w | 0 <= v < w < |p.workers| && p.workers[v].Running? :: p.workers[v] != p.workers[w])
    && (forall i | 0 <= i < |values| && p.results[i].Some? :: p.results[i] == Some(mapper(values[i])))
    && (forall i | 0 <= i < Started(p, |values|) :: p.results[i].Some? || exists w :: RunningAt(p, w, i))
    && (forall w | 0 <= w < |p.workers| && p.workers[w].Done? :: p.nextIndex >= |values|)
  }

  ghost predicate RunningAt(p: Pool, w: int, i: nat) {
    0 <= w < |p.workers| && p.workers[w] == Running(i)
  }

  lemma {:induction false} StepKeepsInv<V, R>(values: seq<V>, mapper: V -> R, concurrency: int, p: Pool<R>, a: Action)
    requires Inv(values, mapper, concurrency, p) && Step(values, mapper, p, a).Some?
    ensures Inv(values, mapper, concurrency, Step(values, mapper, p, a).value)
  {
    var q := Step(values, mapper, p, a).value;
    forall i | 0 <= i < Started(q, |values|) ensures q.results[i].Some? || exists w :: RunningAt(q, w, i) {
      if i < Started(p, |values|) {
        if p.results[i].None? {
          var w :| RunningAt(p, w, i);
          assert w == a.w || RunningAt(q, w, i);
        }
      } else {
        assert RunningAt(q, a.w, i);
      }
    }
  }

  lemma {:induction false} RunKeepsInv<V, R>(
      values: seq<V>, mapper: V -> R, concurrency: int, p: Pool<R>, run: seq<Action>)
    requires Inv(values, mapper, concurrency, p) && Exec(values, mapper, p, run).Some?
    ensures Inv(values, mapper, concurrency, Exec(values, mapper, p, run).value)
    decreases |run|
  {
    if run != [] {
      StepKeepsInv(values, mapper, concurrency, p, run[0]);
      RunKeepsInv(values, mapper, concurrency, Step(values, mapper, p, run[0]).value, run[1..]);
    }
  }

  // ---------------------------------------------------------------- termination and progress

  ghost function Weight(workers: seq<Worker>): nat {
    if workers == [] then 0
    else (match workers[0] case Ready => 1 case Running(_) => 2 case Done => 0) + Weight(workers[1..])
  }

  lemma {:induction false} WeightOfUpdate(workers: seq<Worker>, w: nat, to: Worker)
    requires w < |workers|
    ensures Weight(workers[w := to]) + Weight([workers[w]]) == Weight(workers) + Weight([to])
  {
    if w > 0 {
      assert workers[w := to][0] == workers[0] && workers[w := to][1..] == workers[1..][w - 1 := to];
      WeightOfUpdate(workers[1..], w - 1, to);
    } else {
      assert workers[w := to][1..] == workers[1..];
    }
  }

  /** Steps left: two for each index not yet pulled, and what the workers still owe. */
  ghost function StepsLeft(p: Pool, n: nat): nat {
    2 * (n - Started(p, n)) + Weight(p.workers)
  }

  /** Every step brings the end one step closer, and until every worker has stopped one can take a step. */
  lemma {:induction false} EveryStepCounts<V, R>(
      values: seq<V>, mapper: V -> R, concurrency: int, p: Pool<R>, a: Action)
    requires Inv(values, mapper, concurrency, p) && Step(values, mapper, p, a).Some?
    ensures StepsLeft(Step(values, mapper, p, a).value, |values|) + 1 == StepsLeft(p, |values|)
  {
    var q := Step(values, mapper, p, a).value;
    WeightOfUpdate(p.workers, a.w, q.workers[a.w]);
    assert Weight([]) == 0;
  }

  lemma {:induction false} RunIsBounded<V, R>(
      values: seq<V>, mapper: V -> R, concurrency: int, p: Pool<R>, run: seq<Action>)
    requires Inv(values, mapper, concurrency, p) && Exec(values, mapper, p, run).Some?
    ensures StepsLeft(Exec(values, mapper, p, run).value, |values|) + |run| == StepsLeft(p, |values|)
    decreases |run|
  {
    if run != [] {
      StepKeepsInv(values, mapper, concurrency, p, run[0]);
      EveryStepCounts(values, mapper, concurrency, p, run[0]);
      RunIsBounded(values, mapper, concurrency, Step(values, mapper, p, run[0]).value, run[1..]);
    }
  }

  lemma {:induction false} WeightZero(workers: seq<Worker>)
    ensures Weight(workers) == 0 <==> forall w | 0 <= w < |workers| :: workers[w].Done?
  {
    if workers != [] {
      WeightZero(workers[1..]);
      assert (forall w | 0 <= w < |workers| :: workers[w].Done?) <==>
             workers[0].Done? && forall w | 0 <= w < |workers[1..]| :: workers[1..][w].Done? by {
        assert forall w | 0 < w < |workers| :: workers[w] == workers[1..][w - 1];
        assert forall w | 0 <= w < |workers[1..]| :: workers[1..][w] == workers[w + 1];
      }
    }
  }

  ghost predicate AllDone(p: Pool) {
    forall w | 0 <= w < |p.workers| :: p.workers[w].Done?
  }

  /** All results are in their places. */
  ghost predicate Mapped<V, R>(values: seq<V>, mapper: V -> R, p: Pool<R>) {
    |p.results| == |values| && forall i | 0 <= i < |values| :: p.results[i] == Some(mapper(values[i]))
  }

  /**
   In every interleaving: no index is mapped twice and no more calls are in flight than `concurrency`, or than
   there are values; the run
   takes at most two steps an index and one a worker, and can always go on until every worker has stopped.
   */
  lemma {:induction false} EveryRunIsOrderly<V, R>(values: seq<V>, mapper: V -> R, concurrency: int, run: seq<Action>)
    requires Exec(values, mapper, Start(|values|, concurrency), run).Some?
    ensures var p := Exec(values, mapper, Start(|values|, concurrency), run).value;
      && (forall j, k | 0 <= j < k < |p.calls| :: p.calls[j] != p.calls[k])
      && |p.workers| == (if concurrency <= 0 then 0 else if concurrency <= |values| then concurrency else |values|)
      && |run| <= 2 * |values| + |p.workers|
      && (AllDone(p) || exists a :: Step(values, mapper, p, a).Some?)
  {
    var start := Start<R>(|values|, concurrency);
    assert Inv(values, mapper, concurrency, start);
    RunKeepsInv(values, mapper, concurrency, start, run);
    RunIsBounded(values, mapper, concurrency, start, run);
    WeightOfReady(start.workers);
    var p := Exec(values, mapper, start, run).value;
    if !AllDone(p) {
      var w :| 0 <= w < |p.workers| && !p.workers[w].Done?;
      if p.workers[w].Ready? {
        assert Step(values, mapper, p, Pull(w)).Some?;
      } else {
        assert Step(values, mapper, p, Finish(w)).Some?;
      }
    }
  }

  lemma {:induction false} WeightOfReady(workers: seq<Worker>)
    requires forall w | 0 <= w < |workers| :: workers[w] == Ready
    ensures Weight(workers) == |workers|
  {
    if workers != [] { WeightOfReady(workers[1..]); }
  }

  /** When every worker has stopped, all results are in place and every index was mapped, given any worker at all. */
  lemma {:induction false} FinishedRunIsComplete<V, R>(
      values: seq<V>, mapper: V -> R, concurrency: int, run: seq<Action>)
    requires Exec(values, mapper, Start(|values|, concurrency), run).Some?
    requires AllDone(Exec(values, mapper, Start(|values|, concurrency), run).value)
    ensures var p := Exec(values, mapper, Start(|values|, concurrency), run).value;
      && (Mapped(values, mapper, p) <==> values == [] || concurrency >= 1)
      && (concurrency >= 1 ==> p.calls == seq(|values|, i => i))
  {
    var start := Start<R>(|values|, concurrency);
    assert Inv(values, mapper, concurrency, start);
    RunKeepsInv(values, mapper, concurrency, start, run);
    var p := Exec(values, mapper, start, run).value;
    if concurrency >= 1 && values != [] {
      assert p.workers[0].Done?;
      assert forall i | 0 <= i < |values| :: p.results[i].Some? by {
        forall i | 0 <= i < |values| ensures p.results[i].Some? {
          assert p.results[i].Some? || exists w :: RunningAt(p, w, i);
        }
      }
    }
    if concurrency < 1 && values != [] {
      NoWorkersNoRun(values, mapper, start, run);
      assert p.results[0] == None;
    }
  }

  lemma {:induction false} NoWorkersNoRun<V, R>(values: seq<V>, mapper: V -> R, p: Pool<R>, run: seq<Action>)
    requires p.workers == [] && Exec(values, mapper, p, run).Some?
    ensures Exec(values, mapper, p, run).value == p
  {}

  // ---------------------------------------------------------------- all workers at once

  ghost function Pulls(n: nat): seq<Action> {
    if n == 0 then [] else Pulls(n - 1) + [Pull(n - 1)]
  }

  lemma {:induction false} ExecOneMore<V, R>(
      values: seq<V>, mapper: V -> R, p: Pool<R>, run: seq<Action>, a: Action)
    requires Exec(values, mapper, p, run).Some?
    ensures Exec(values, mapper, p, run + [a]) == Step(values, mapper, Exec(values, mapper, p, run).value, a)
    decreases |run|
  {
    if run == [] {
      assert run + [a] == [a] && [a][1..] == [];
      if Step(values, mapper, p, a).Some? { assert Exec(values, mapper, p, [a]) == Step(values, mapper, p, a); }
    } else {
      assert (run + [a])[0] == run[0] && (run + [a])[1..] == run[1..] + [a];
      ExecOneMore(values, mapper, Step(values, mapper, p, run[0]).value, run[1..], a);
    }
  }

  /** The first `n` workers run the first `n` indices, the others have yet to start. */
  ghost predicate Pulled(p: Pool, m: nat, n: nat) {
    && |p.workers| == m && p.nextIndex == n
    && (forall w | 0 <= w < m :: p.workers[w] == if w < n then Running(w) else Ready)
  }

  lemma {:induction false} FirstPulls<V, R>(values: seq<V>, mapper: V -> R, concurrency: int, n: nat)
    requires n <= concurrency && n <= |values|
    ensures var r := Exec(values, mapper, Start<R>(|values|, concurrency), Pulls(n));
      r.Some? && Pulled(r.value, WorkerCount(concurrency, |values|), n)
  {
    if n > 0 {
      FirstPulls(values, mapper, concurrency, n - 1);
      ExecOneMore(values, mapper, Start<R>(|values|, concurrency), Pulls(n - 1), Pull(n - 1));
    }
  }

  /** As many calls as that can be in flight together: in some run every worker is running an index of its own. */
  lemma {:induction false} AllWorkersRun<V, R>(values: seq<V>, mapper: V -> R, concurrency: nat)
    ensures exists run :: var r := Exec(values, mapper, Start<R>(|values|, concurrency), run);
      && r.Some? && |r.value.workers| == (if concurrency <= |values| then concurrency else |values|)
      && forall w | 0 <= w < |r.value.workers| :: r.value.workers[w] == Running(w)
  {
    var n := if concurrency <= |values| then concurrency else |values|;
    FirstPulls<V, R>(values, mapper, concurrency, n);
    assert Exec(values, mapper, Start<R>(|values|, concurrency), Pulls(n)).Some?;
  }
}
