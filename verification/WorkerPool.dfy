/** The bounded worker pool of backup.ts (throttleSettled): async workers that share one index. A step of
    the machine runs from one await to the next, so claiming and storing are atomic. */
module WorkerPool {
  import opened Common

  datatype Outcome<+T> = Fulfilled(value: T) | Rejected(reason: string)

  /** `busy` maps each worker that awaits a task to the task's index; `claimedBy[i]` is the worker that took
      index i, so |claimedBy| is nextIdx; `settled` logs which task ended how, in order of time. */
  datatype Pool<T> = Pool(
    n: nat,
    workers: nat,
    claimedBy: seq<nat>,
    busy: map<nat, nat>,
    results: seq<Option<Outcome<T>>>,
    settled: seq<(nat, Outcome<T>)>)

  function Min(a: nat, b: nat): nat { if a < b then a else b }

  /** The top of a worker's loop: take the next index, or return. */
  function Claim<T>(p: Pool<T>, w: nat): Pool<T> {
    if |p.claimedBy| < p.n then p.(claimedBy := p.claimedBy + [w], busy := p.busy[w := |p.claimedBy|]) else p
  }

  /** Array.from runs each worker up to its first await. */
  function Spawn<T>(p: Pool<T>, w: nat): Pool<T>
    requires w <= p.workers
    decreases p.workers - w
  {
    if w == p.workers then p else Spawn(Claim(p, w), w + 1)
  }

  function Start<T>(n: nat, limit: nat): Pool<T> {
    Spawn(Pool(n, Min(limit, n), [], map[], seq(n, _ => None), []), 0)
  }

  /** The task that worker `w` awaits ends: its result is stored in the task's place, and the worker goes on. */
  function Settle<T>(p: Pool<T>, w: nat, outcome: Outcome<T>): Pool<T>
    requires w in p.busy && p.busy[w] < |p.results|
  {
    var i := p.busy[w];
    Claim(p.(busy := p.busy - {w}, results := p.results[i := Some(outcome)], settled := p.settled + [(i, outcome)]), w)
  }

  predicate Finished<T>(p: Pool<T>) { p.busy == map[] }

  /** Every index below nextIdx is in flight at the one worker that claimed it, or has its result. */
  ghost predicate Inv<T>(p: Pool<T>) {
    && |p.results| == p.n && |p.claimedBy| <= p.n && p.workers <= p.n
    && (forall i :: 0 <= i < |p.claimedBy| ==> p.claimedBy[i] < p.workers)
    && (forall w :: w in p.busy ==> p.busy[w] < |p.claimedBy| && p.claimedBy[p.busy[w]] == w && p.results[p.busy[w]].None?)
    && (forall i :: 0 <= i < |p.claimedBy| && p.results[i].None? ==>
          p.claimedBy[i] in p.busy && p.busy[p.claimedBy[i]] == i)
    && (forall i :: |p.claimedBy| <= i < p.n ==> p.results[i].None?)
    && (forall k :: 0 <= k < |p.settled| ==> p.settled[k].0 < p.n && p.results[p.settled[k].0] == Some(p.settled[k].1))
    && |p.settled| == CountSome(p.results)
  }

  /** No worker has returned while an index is unclaimed. */
  ghost predicate NoIdleWorker<T>(p: Pool<T>) {
    |p.claimedBy| < p.n ==> forall w :: 0 <= w < p.workers ==> w in p.busy
  }

  function CountSome<T>(s: seq<Option<T>>): nat {
    if s == [] then 0 else CountSome(s[..|s| - 1]) + if s[|s| - 1].Some? then 1 else 0
  }

  lemma {:induction false} CountBounds<T>(s: seq<Option<T>>)
    ensures CountSome(s) <= |s|
    ensures CountSome(s) == |s| <==> forall i :: 0 <= i < |s| ==> s[i].Some?
    ensures (forall i :: 0 <= i < |s| ==> s[i].None?) ==> CountSome(s) == 0
    decreases |s|
  {
    if s != [] { CountBounds(s[..|s| - 1]); }
  }

  lemma {:induction false} CountUpdate<T>(s: seq<Option<T>>, i: nat, v: T)
    requires i < |s| && s[i].None?
    ensures CountSome(s[i := Some(v)]) == CountSome(s) + 1
    decreases |s|
  {
    var k := |s| - 1;
    if i < k {
      CountUpdate(s[..k], i, v);
      assert s[i := Some(v)][..k] == s[..k][i := Some(v)];
    } else {
      assert s[i := Some(v)][..k] == s[..k];
    }
  }

  /** The first `w` workers are each busy with the task of their own number. */
  ghost predicate EachOwn(busy: map<nat, nat>, w: nat) {
    forall v: nat :: (v in busy <==> v < w) && (v in busy ==> busy[v] == v)
  }

  lemma {:induction false} SpawnClaims<T>(p: Pool<T>, w: nat)
    requires w <= p.workers <= p.n && |p.results| == p.n && p.settled == []
    requires |p.claimedBy| == w && (forall i :: 0 <= i < w ==> p.claimedBy[i] == i)
    requires EachOwn(p.busy, w)
    requires forall i :: 0 <= i < p.n ==> p.results[i].None?
    ensures var q := Spawn(p, w);
            q.n == p.n && q.workers == p.workers && q.results == p.results && q.settled == [] &&
            |q.claimedBy| == p.workers && (forall i :: 0 <= i < p.workers ==> q.claimedBy[i] == i) &&
            EachOwn(q.busy, p.workers)
    decreases p.workers - w
  {
    if w < p.workers {
      SpawnClaims(Claim(p, w), w + 1);
    }
  }

  lemma StartHolds<T>(n: nat, limit: nat)
    ensures var p := Start<T>(n, limit);
            p.n == n && p.workers == Min(limit, n) && |p.claimedBy| == p.workers && p.settled == [] &&
            Inv(p) && NoIdleWorker(p) &&
            forall i :: 0 <= i < n ==> p.results[i].None?
  {
    var p: Pool<T> := Pool(n, Min(limit, n), [], map[], seq(n, _ => None), []);
    SpawnClaims(p, 0);
    CountBounds(p.results);
  }

  lemma SettleKeepsInv<T>(p: Pool<T>, w: nat, outcome: Outcome<T>)
    requires Inv(p) && NoIdleWorker(p) && w in p.busy
    ensures var q := Settle(p, w, outcome);
            Inv(q) && NoIdleWorker(q) && q.n == p.n && q.workers == p.workers && |q.settled| == |p.settled| + 1
  {
    CountUpdate(p.results, p.busy[w], outcome);
  }

  function Below(n: nat): (s: set<nat>)
    ensures |s| == n && forall w: nat :: w in s <==> w < n
  {
    if n == 0 then {} else Below(n - 1) + {n - 1}
  }

  lemma SubsetSize<T>(a: set<T>, b: set<T>)
    requires a <= b
    ensures |a| <= |b|
  {
    assert b == a + (b - a);
  }

  /** Never more than `workers` tasks are in flight. */
  lemma InFlightIsBounded<T>(p: Pool<T>)
    requires Inv(p)
    ensures |p.busy| <= p.workers
  {
    forall w | w in p.busy
      ensures w in Below(p.workers)
    {
      assert p.claimedBy[p.busy[w]] == w;
    }
    SubsetSize(p.busy.Keys, Below(p.workers));
    assert |p.busy| == |p.busy.Keys|;
  }

  lemma NonEmptyMap(m: map<nat, nat>)
    requires m != map[]
    ensures exists w :: w in m
  {
    if forall w :: w !in m.Keys { NoElements(m.Keys); }
  }

  lemma MissingResultIsPending<T>(p: Pool<T>)
    requires Inv(p) && NoIdleWorker(p) && p.workers > 0 && |p.settled| < p.n
    ensures !Finished(p)
  {
    CountBounds(p.results);
    var i :| 0 <= i < p.n && p.results[i].None?;
    assert (if i < |p.claimedBy| then p.claimedBy[i] else 0) in p.busy;
  }

  lemma PendingIsMissing<T>(p: Pool<T>)
    requires Inv(p) && !Finished(p)
    ensures |p.settled| < p.n
  {
    NonEmptyMap(p.busy);
    var w :| w in p.busy;
    assert p.results[p.busy[w]].None?;
    CountBounds(p.results);
  }

  /** A pool is finished exactly when every task has its result; until then some task is in flight. */
  lemma FinishedIffAllSettled<T>(p: Pool<T>)
    requires Inv(p) && NoIdleWorker(p) && (p.n > 0 ==> p.workers > 0)
    ensures |p.settled| <= p.n
    ensures Finished(p) <==> |p.settled| == p.n
    ensures Finished(p) ==> forall i :: 0 <= i < p.n ==> p.results[i].Some?
  {
    CountBounds(p.results);
    if |p.settled| < p.n {
      MissingResultIsPending(p);
    } else if !Finished(p) {
      PendingIsMissing(p);
    }
  }

  /** A schedule: which worker's task ends next, and how. */
  ghost predicate IsRun<T>(states: seq<Pool<T>>, steps: seq<(nat, Outcome<T>)>, n: nat, limit: nat) {
    |states| == |steps| + 1 && states[0] == Start(n, limit) &&
    forall k :: 0 <= k < |steps| ==>
      steps[k].0 in states[k].busy && states[k].busy[steps[k].0] < |states[k].results| &&
      states[k + 1] == Settle(states[k], steps[k].0, steps[k].1)
  }

  lemma {:induction false} RunHolds<T>(states: seq<Pool<T>>, steps: seq<(nat, Outcome<T>)>, n: nat, limit: nat, k: nat)
    requires IsRun(states, steps, n, limit) && k < |states|
    ensures Inv(states[k]) && NoIdleWorker(states[k]) && states[k].n == n && states[k].workers == Min(limit, n)
    ensures |states[k].settled| == k
    decreases k
  {
    StartHolds<T>(n, limit);
    if k > 0 {
      RunHolds(states, steps, n, limit, k - 1);
      SettleKeepsInv(states[k - 1], steps[k - 1].0, steps[k - 1].1);
    }
  }

  /** A claim is never taken back or repeated: the indices are handed out in order, each to one worker. */
  lemma {:induction false} ClaimsNeverChange<T>(states: seq<Pool<T>>, steps: seq<(nat, Outcome<T>)>, n: nat, limit: nat,
                                                a: nat, b: nat)
    requires IsRun(states, steps, n, limit) && a <= b < |states|
    ensures states[a].claimedBy <= states[b].claimedBy
    decreases b
  {
    if a < b {
      ClaimsNeverChange(states, steps, n, limit, a, b - 1);
      assert states[b] == Settle(states[b - 1], steps[b - 1].0, steps[b - 1].1);
    }
  }

  /** Under every schedule and every pattern of rejections: at most min(limit, n) tasks in flight, no worker
      idle while an index is unclaimed, and after exactly n completions, never more, every result is in. */
  lemma PoolIsCorrect<T>(states: seq<Pool<T>>, steps: seq<(nat, Outcome<T>)>, n: nat, limit: nat)
    requires IsRun(states, steps, n, limit) && limit >= 1
    ensures |steps| <= n
    ensures forall k :: 0 <= k < |states| ==> |states[k].busy| <= Min(limit, n) && NoIdleWorker(states[k])
    ensures var end := states[|steps|];
            (Finished(end) <==> |steps| == n) &&
            (Finished(end) ==> forall i :: 0 <= i < n ==>
              i < |end.results| && end.results[i].Some? && (i, end.results[i].value) in end.settled)
  {
    forall k | 0 <= k < |states|
      ensures |states[k].busy| <= Min(limit, n) && NoIdleWorker(states[k])
    {
      RunHolds(states, steps, n, limit, k);
      InFlightIsBounded(states[k]);
    }
    var end := states[|steps|];
    RunHolds(states, steps, n, limit, |steps|);
    FinishedIffAllSettled(end);
    forall i | 0 <= i < n && Finished(end)
      ensures (i, end.results[i].value) in end.settled
    {
      ResultWasLogged(states, steps, n, limit, |steps|, i);
    }
  }

  lemma SettleLogs<T>(p: Pool<T>, w: nat, outcome: Outcome<T>, i: nat)
    requires w in p.busy && p.busy[w] < |p.results| && i < |p.results|
    ensures var q := Settle(p, w, outcome);
            if p.busy[w] == i then q.results[i] == Some(outcome) && (i, outcome) in q.settled
            else q.results[i] == p.results[i] && forall entry :: entry in p.settled ==> entry in q.settled
  {
    var logged := p.settled + [(p.busy[w], outcome)];
    assert logged[|p.settled|] == (p.busy[w], outcome);
  }

  lemma {:induction false} ResultWasLogged<T>(states: seq<Pool<T>>, steps: seq<(nat, Outcome<T>)>, n: nat, limit: nat,
                                              k: nat, i: nat)
    requires IsRun(states, steps, n, limit) && k < |states| && i < n
    requires |states[k].results| == n && states[k].results[i].Some?
    ensures (i, states[k].results[i].value) in states[k].settled
    decreases k
  {
    RunHolds(states, steps, n, limit, k);
    StartHolds<T>(n, limit);
    if k > 0 {
      RunHolds(states, steps, n, limit, k - 1);
      var before, worker, outcome := states[k - 1], steps[k - 1].0, steps[k - 1].1;
      SettleLogs(before, worker, outcome, i);
      if before.busy[worker] != i { ResultWasLogged(states, steps, n, limit, k - 1, i); }
    }
  }

  predicate IsRejected<T>(r: Option<Outcome<T>>) { r.Some? && r.value.Rejected? }

  function FailureText(reason: string, labels: seq<string>, i: nat): string {
    (if i < |labels| then labels[i] else "task-" + NatText(i + 1)) + ": " + reason
  }

  /** The labelled reasons of the rejected tasks, in task order. */
  function FailureLines<T>(results: seq<Option<Outcome<T>>>, labels: seq<string>): seq<string> {
    if results == [] then []
    else
      var k := |results| - 1;
      FailureLines(results[..k], labels) +
      if IsRejected(results[k]) then [FailureText(results[k].value.reason, labels, k)] else []
  }

  method CollectSettledFailures<T>(results: seq<Option<Outcome<T>>>, labels: seq<string>) returns (failures: seq<string>)
    ensures failures == FailureLines(results, labels)
  {
    failures := [];
    var i := 0;
    while i < |results|
      invariant 0 <= i <= |results|
      invariant failures == FailureLines(results[..i], labels)
    {
      assert results[..i + 1][..i] == results[..i];
      if IsRejected(results[i]) {
        failures := failures + [FailureText(results[i].value.reason, labels, i)];
      }
      i := i + 1;
    }
    assert results[..|results|] == results;
  }

  /** `tasks` are the numbers of the rejected tasks, in order. */
  ghost predicate AreRejected<T>(results: seq<Option<Outcome<T>>>, tasks: seq<nat>) {
    && (forall k :: 0 <= k < |tasks| ==> tasks[k] < |results| && IsRejected(results[tasks[k]]))
    && (forall j, k :: 0 <= j < k < |tasks| ==> tasks[j] < tasks[k])
    && (forall i :: 0 <= i < |results| && IsRejected(results[i]) ==> i in tasks)
  }

  lemma AreRejectedExtends<T>(results: seq<Option<Outcome<T>>>, tasks: seq<nat>)
    requires results != [] && AreRejected(results[..|results| - 1], tasks)
    ensures AreRejected(results, tasks + if IsRejected(results[|results| - 1]) then [|results| - 1] else [])
  {
    var k := |results| - 1;
    var all := tasks + if IsRejected(results[k]) then [k] else [];
    assert forall i :: 0 <= i < k ==> results[..k][i] == results[i];
    forall i | 0 <= i < |results| && IsRejected(results[i])
      ensures i in all
    {
      if i == k { assert all[|tasks|] == k; }
    }
  }

  /** One line for each of the tasks, in their order. */
  ghost predicate LinesOf<T>(results: seq<Option<Outcome<T>>>, labels: seq<string>, tasks: seq<nat>, lines: seq<string>) {
    AreRejected(results, tasks) && |lines| == |tasks| &&
    forall k :: 0 <= k < |tasks| ==> lines[k] == FailureText(results[tasks[k]].value.reason, labels, tasks[k])
  }

  lemma LinesExtend<T>(results: seq<Option<Outcome<T>>>, labels: seq<string>, tasks: seq<nat>, lines: seq<string>)
    requires results != [] && LinesOf(results[..|results| - 1], labels, tasks, lines)
    ensures var k := |results| - 1;
            if IsRejected(results[k])
            then LinesOf(results, labels, tasks + [k], lines + [FailureText(results[k].value.reason, labels, k)])
            else LinesOf(results, labels, tasks, lines)
  {
    AreRejectedExtends(results, tasks);
    assert tasks + [] == tasks;
  }

  lemma {:induction false} LinesOfRejected<T>(results: seq<Option<Outcome<T>>>, labels: seq<string>)
    returns (tasks: seq<nat>)
    ensures LinesOf(results, labels, tasks, FailureLines(results, labels))
    decreases |results|
  {
    tasks := [];
    if results != [] {
      var k := |results| - 1;
      tasks := LinesOfRejected(results[..k], labels);
      LinesExtend(results, labels, tasks, FailureLines(results[..k], labels));
      if IsRejected(results[k]) {
        tasks := tasks + [k];
      } else {
        assert FailureLines(results, labels) == FailureLines(results[..k], labels);
      }
    }
  }

  /** The failure list has just one line for each rejected task, in order: its label, or its number counted from one
      where labels run out, and its reason. */
  lemma FailureLinesComplete<T>(results: seq<Option<Outcome<T>>>, labels: seq<string>) returns (tasks: seq<nat>)
    ensures AreRejected(results, tasks) && |FailureLines(results, labels)| == |tasks|
    ensures forall k :: 0 <= k < |tasks| ==>
              FailureLines(results, labels)[k] ==
              (if tasks[k] < |labels| then labels[tasks[k]] else "task-" + NatText(tasks[k] + 1)) + ": " +
              results[tasks[k]].value.reason
  {
    tasks := LinesOfRejected(results, labels);
  }
}
