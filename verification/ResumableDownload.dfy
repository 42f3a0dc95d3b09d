/** The resumable R2 download of `backup create` in one session directory: five concurrent downloads, a manifest on
    disk, and a process that may crash at any point, also inside a write. The object with index i has its own file. */
module ResumableDownload {
  import opened Common
  import opened WorkerPool

  datatype FileState = Absent | Partial | Full

  datatype Manifest = Manifest(done: seq<bool>, completedCount: nat)

  /** A manifest that is missing or was torn by a crash reads as None, and is skipped by later runs. */
  datatype Disk = Disk(manifest: Option<Manifest>, files: seq<FileState>)

  /** A running process: its manifest object, the count that downloadedCount started from, the objects that were
      pending at the start, how the task of each pending object ended, and the pool. A task ends in a synchronous tail;
      its worker stores the result and goes on at a later microtask, so other tails may come between. */
  datatype Session = Session(
    manifest: Manifest, base: nat, pending: seq<nat>, ended: seq<Option<Outcome<()>>>, pool: Pool<()>)

  datatype World = World(disk: Disk, session: Option<Session>)

  const CONCURRENCY: nat := 5

  /** The objects still pending, in manifest order. */
  function PendingOf(done: seq<bool>): (pending: seq<nat>)
    ensures forall k :: 0 <= k < |pending| ==> pending[k] < |done| && !done[pending[k]]
    ensures forall i :: 0 <= i < |done| && !done[i] ==> i in pending
    ensures forall j, k :: 0 <= j < k < |pending| ==> pending[j] < pending[k]
  {
    if done == [] then []
    else
      var k := |done| - 1;
      assert done == done[..k] + [done[k]];
      PendingOf(done[..k]) + if done[k] then [] else [k]
  }

  function StartSession(m: Manifest): Session {
    var pending := PendingOf(m.done);
    Session(m, m.completedCount, pending, seq(|pending|, _ => None), Start(|pending|, CONCURRENCY))
  }

  /** The manifest of a fresh download. */
  function FreshManifest(n: nat): Manifest { Manifest(seq(n, _ => false), 0) }

  /** A fresh download has just written its first manifest and started. */
  function FreshWorld(n: nat): World {
    World(Disk(Some(FreshManifest(n)), seq(n, _ => Absent)), Some(StartSession(FreshManifest(n))))
  }

  /** How far the synchronous tail of a download gets before it fails or the process dies. */
  datatype Fault = BeforeFile | InsideFile | BeforeManifest | InsideManifest

  /** Marking one object done in the process's manifest; completedCount takes the number of starts so far. */
  function Marked(s: Session, i: nat): Manifest
    requires i < |s.manifest.done|
  {
    Manifest(s.manifest.done[i := true], s.base + |s.pool.claimedBy|)
  }

  function FaultyDisk(d: Disk, i: nat, f: Fault): Disk
    requires i < |d.files|
  {
    match f
    case BeforeFile => d
    case InsideFile => d.(files := d.files[i := Partial])
    case BeforeManifest => d.(files := d.files[i := Full])
    case InsideManifest => Disk(None, d.files[i := Full])
  }

  datatype Step =
    | Finish(worker: nat)                     // a download arrives and its tail runs to the end
    | Fail(worker: nat, fault: Fault)         // the download or its tail throws
    | Wake(worker: nat)                       // the worker stores the outcome and claims its next task
    | Crash
    | CrashInside(worker: nat, fault: Fault)  // the process dies inside a tail
    | End
    | Resume

  predicate HasTask(w: World, worker: nat) {
    w.session.Some? &&
    var s := w.session.value;
    worker in s.pool.busy &&
    var k := s.pool.busy[worker];
    k < |s.pool.results| && k < |s.pending| && k < |s.ended| &&
    s.pending[k] < |s.manifest.done| && s.pending[k] < |w.disk.files|
  }

  /** The worker's download has not ended yet. */
  predicate Awaits(w: World, worker: nat) {
    HasTask(w, worker) && w.session.value.ended[w.session.value.pool.busy[worker]].None?
  }

  /** The object that the worker downloads. */
  function Awaited(w: World, worker: nat): nat
    requires HasTask(w, worker)
  {
    w.session.value.pending[w.session.value.pool.busy[worker]]
  }

  predicate MarksMemory(f: Fault) { f.BeforeManifest? || f.InsideManifest? }

  /** The process after one of its downloads ended: `marked` when it got as far as marking the object done. */
  function AfterTail(w: World, worker: nat, marked: bool, outcome: Outcome<()>): Session
    requires HasTask(w, worker)
  {
    var s := w.session.value;
    s.(manifest := if marked then Marked(s, Awaited(w, worker)) else s.manifest,
       ended := s.ended[s.pool.busy[worker] := Some(outcome)])
  }

  predicate Enabled(w: World, step: Step) {
    match step
    case Finish(worker) => Awaits(w, worker)
    case Fail(worker, _) => Awaits(w, worker)
    case Wake(worker) => HasTask(w, worker) && !Awaits(w, worker)
    case Crash => w.session.Some?
    case CrashInside(worker, _) => Awaits(w, worker)
    case End => w.session.Some? && Finished(w.session.value.pool)
    case Resume => w.session.None? && w.disk.manifest.Some? && PendingOf(w.disk.manifest.value.done) != []
  }

  function Woken(s: Session, worker: nat): Session
    requires worker in s.pool.busy && s.pool.busy[worker] < |s.pool.results| && s.pool.busy[worker] < |s.ended|
    requires s.ended[s.pool.busy[worker]].Some?
  {
    s.(pool := Settle(s.pool, worker, s.ended[s.pool.busy[worker]].value))
  }

  function Apply(w: World, step: Step): World
    requires Enabled(w, step)
  {
    match step
    case Finish(worker) =>
      var s := AfterTail(w, worker, true, Fulfilled(()));
      World(Disk(Some(s.manifest), w.disk.files[Awaited(w, worker) := Full]), Some(s))
    case Fail(worker, fault) =>
      World(FaultyDisk(w.disk, Awaited(w, worker), fault),
            Some(AfterTail(w, worker, MarksMemory(fault), Rejected(""))))
    case Wake(worker) => w.(session := Some(Woken(w.session.value, worker)))
    case Crash => w.(session := None)
    case CrashInside(worker, fault) => World(FaultyDisk(w.disk, Awaited(w, worker), fault), None)
    case End => w.(session := None)
    case Resume => w.(session := Some(StartSession(w.disk.manifest.value)))
  }

  function CountTrue(s: seq<bool>): nat {
    if s == [] then 0 else CountTrue(s[..|s| - 1]) + if s[|s| - 1] then 1 else 0
  }

  lemma {:induction false} CountMark(s: seq<bool>, i: nat)
    requires i < |s| && !s[i]
    ensures CountTrue(s[i := true]) == CountTrue(s) + 1
    decreases |s|
  {
    var k := |s| - 1;
    if i < k {
      CountMark(s[..k], i);
      assert s[i := true][..k] == s[..k][i := true];
    } else {
      assert s[i := true][..k] == s[..k];
    }
  }

  lemma {:induction false} CountAtMost(s: seq<bool>)
    ensures CountTrue(s) <= |s|
    decreases |s|
  {
    if s != [] { CountAtMost(s[..|s| - 1]); }
  }

  /** Distinct objects that are not done leave room for no more than the others. */
  lemma {:induction false} UndoneLeaveRoom(done: seq<bool>, undone: seq<nat>)
    requires Distinct(undone)
    requires forall k :: 0 <= k < |undone| ==> undone[k] < |done| && !done[undone[k]]
    ensures CountTrue(done) + |undone| <= |done|
    decreases |undone|
  {
    if undone == [] {
      CountAtMost(done);
    } else {
      var k := |undone| - 1;
      CountMark(done, undone[k]);
      UndoneLeaveRoom(done[undone[k] := true], undone[..k]);
    }
  }

  lemma {:induction false} PendingAndDone(done: seq<bool>)
    ensures |PendingOf(done)| + CountTrue(done) == |done|
    decreases |done|
  {
    if done != [] { PendingAndDone(done[..|done| - 1]); }
  }

  /** Whatever a manifest calls done has its whole file, and the counter is no less than the done objects. */
  predicate Truthful(m: Manifest, files: seq<FileState>) {
    |m.done| == |files| && (forall i :: 0 <= i < |m.done| && m.done[i] ==> files[i] == Full) &&
    m.completedCount >= CountTrue(m.done)
  }

  predicate Extends(a: seq<bool>, b: seq<bool>) {
    |a| == |b| && forall i :: 0 <= i < |a| && a[i] ==> b[i]
  }

  /** The process's manifest agrees with its tasks: what was not pending or whose task was fulfilled is done, and
      nothing is done before its task has ended. */
  ghost predicate TracksTasks(s: Session) {
    && |s.pending| == |s.ended| && Distinct(s.pending)
    && (forall k :: 0 <= k < |s.pending| ==> s.pending[k] < |s.manifest.done|)
    && (forall i :: 0 <= i < |s.manifest.done| && i !in s.pending ==> s.manifest.done[i])
    && (forall k :: 0 <= k < |s.pending| && s.manifest.done[s.pending[k]] ==> s.ended[k].Some?)
    && (forall k :: 0 <= k < |s.pending| && s.ended[k].Some? && s.ended[k].value.Fulfilled? ==>
          s.manifest.done[s.pending[k]])
    && s.base + |s.pending| >= |s.manifest.done|
  }

  /** The pool lags behind the tasks: what it has stored has ended so, and what it has not claimed has not ended. */
  ghost predicate PoolLags(s: Session) {
    && s.pool.n == |s.ended| && WorkerPool.Inv(s.pool) && NoIdleWorker(s.pool)
    && s.pool.workers == Min(CONCURRENCY, s.pool.n)
    && (forall k :: 0 <= k < |s.ended| && s.pool.results[k].Some? ==> s.ended[k] == s.pool.results[k])
    && (forall k :: |s.pool.claimedBy| <= k < |s.ended| ==> s.ended[k].None?)
  }

  predicate NoRejection(s: Session) {
    forall k :: 0 <= k < |s.ended| ==> !IsRejected(s.ended[k])
  }

  /** What is on disk agrees with the process, and is up to date unless something failed. */
  ghost predicate DiskFollows(s: Session, d: Disk) {
    && Truthful(s.manifest, d.files)
    && (d.manifest.Some? ==> Extends(d.manifest.value.done, s.manifest.done))
    && (NoRejection(s) ==> d.manifest == Some(s.manifest))
  }

  ghost predicate SessionInv(s: Session, d: Disk) {
    TracksTasks(s) && PoolLags(s) && DiskFollows(s, d)
  }

  ghost predicate Inv(w: World) {
    && (w.disk.manifest.Some? ==> Truthful(w.disk.manifest.value, w.disk.files))
    && (w.session.Some? ==> SessionInv(w.session.value, w.disk))
  }

  lemma SessionStarts(m: Manifest, files: seq<FileState>)
    requires Truthful(m, files)
    ensures SessionInv(StartSession(m), Disk(Some(m), files))
  {
    StartHolds<()>(|PendingOf(m.done)|, CONCURRENCY);
    PendingAndDone(m.done);
  }

  lemma {:induction false} NoneTrue(n: nat)
    ensures CountTrue(seq(n, _ => false)) == 0
    decreases n
  {
    if n > 0 {
      NoneTrue(n - 1);
      assert seq(n, _ => false)[..n - 1] == seq(n - 1, _ => false);
    }
  }

  lemma FreshHolds(n: nat)
    ensures Inv(FreshWorld(n))
  {
    NoneTrue(n);
    SessionStarts(FreshManifest(n), seq(n, _ => Absent));
  }

  lemma TailKeepsTracking(w: World, worker: nat, marked: bool, outcome: Outcome<()>)
    requires w.session.Some? && TracksTasks(w.session.value) && Awaits(w, worker) && (outcome.Fulfilled? ==> marked)
    ensures TracksTasks(AfterTail(w, worker, marked, outcome))
  {
  }

  lemma TailKeepsPool(w: World, worker: nat, marked: bool, outcome: Outcome<()>)
    requires w.session.Some? && PoolLags(w.session.value) && Awaits(w, worker)
    ensures PoolLags(AfterTail(w, worker, marked, outcome))
  {
    var s := w.session.value;
    var k := s.pool.busy[worker];
    assert s.pool.results[k].None? && k < |s.pool.claimedBy|;
  }

  /** The objects not claimed yet are not done, so the number of starts bounds the number of done objects. */
  lemma StartsCoverDone(s: Session)
    requires TracksTasks(s) && PoolLags(s)
    ensures s.base + |s.pool.claimedBy| >= CountTrue(s.manifest.done)
  {
    var c := |s.pool.claimedBy|;
    var unclaimed := s.pending[c..];
    forall k | 0 <= k < |unclaimed|
      ensures unclaimed[k] < |s.manifest.done| && !s.manifest.done[unclaimed[k]]
    {
      assert unclaimed[k] == s.pending[c + k] && s.ended[c + k].None?;
    }
    UndoneLeaveRoom(s.manifest.done, unclaimed);
  }

  /** After a tail that got as far as the manifest, its object is done, with its file, and the count is high enough. */
  lemma TailIsTruthful(w: World, worker: nat, outcome: Outcome<()>, files: seq<FileState>)
    requires Inv(w) && Awaits(w, worker) && files == w.disk.files[Awaited(w, worker) := Full]
    ensures Truthful(AfterTail(w, worker, true, outcome).manifest, files)
  {
    var after := AfterTail(w, worker, true, outcome);
    if outcome.Rejected? {
      var fulfilled := AfterTail(w, worker, true, Fulfilled(()));
      TailKeepsTracking(w, worker, true, Fulfilled(()));
      TailKeepsPool(w, worker, true, Fulfilled(()));
      StartsCoverDone(fulfilled);
    } else {
      TailKeepsTracking(w, worker, true, outcome);
      TailKeepsPool(w, worker, true, outcome);
      StartsCoverDone(after);
    }
  }

  lemma FinishKeepsInv(w: World, worker: nat)
    requires Inv(w) && Awaits(w, worker)
    ensures Inv(Apply(w, Finish(worker)))
  {
    TailKeepsTracking(w, worker, true, Fulfilled(()));
    TailKeepsPool(w, worker, true, Fulfilled(()));
    TailIsTruthful(w, worker, Fulfilled(()), w.disk.files[Awaited(w, worker) := Full]);
  }

  /** An object whose download has not ended is not marked done, so tearing its file breaks no promise. */
  lemma FaultKeepsDisk(w: World, worker: nat, fault: Fault)
    requires Inv(w) && Awaits(w, worker)
    ensures var d := FaultyDisk(w.disk, Awaited(w, worker), fault);
            (d.manifest.Some? ==> Truthful(d.manifest.value, d.files)) && Truthful(w.session.value.manifest, d.files)
  {
    assert !w.session.value.manifest.done[Awaited(w, worker)];
  }

  lemma RejectionShows(w: World, worker: nat, marked: bool)
    requires Awaits(w, worker)
    ensures !NoRejection(AfterTail(w, worker, marked, Rejected("")))
  {
    var k := w.session.value.pool.busy[worker];
    assert IsRejected(AfterTail(w, worker, marked, Rejected("")).ended[k]);
  }

  lemma FailureFollows(w: World, worker: nat, fault: Fault)
    requires Inv(w) && Awaits(w, worker)
    ensures DiskFollows(AfterTail(w, worker, MarksMemory(fault), Rejected("")),
                        FaultyDisk(w.disk, Awaited(w, worker), fault))
  {
    FaultKeepsDisk(w, worker, fault);
    RejectionShows(w, worker, MarksMemory(fault));
    if MarksMemory(fault) {
      TailIsTruthful(w, worker, Rejected(""), w.disk.files[Awaited(w, worker) := Full]);
    }
  }

  lemma FailKeepsInv(w: World, worker: nat, fault: Fault)
    requires Inv(w) && Awaits(w, worker)
    ensures Inv(Apply(w, Fail(worker, fault)))
  {
    TailKeepsTracking(w, worker, MarksMemory(fault), Rejected(""));
    TailKeepsPool(w, worker, MarksMemory(fault), Rejected(""));
    FaultKeepsDisk(w, worker, fault);
    FailureFollows(w, worker, fault);
  }

  lemma WakeKeepsInv(w: World, worker: nat)
    requires Inv(w) && Enabled(w, Wake(worker))
    ensures Inv(Apply(w, Wake(worker)))
  {
    var s := w.session.value;
    WakeKeepsPool(s, worker);
  }

  lemma WakeKeepsPool(s: Session, worker: nat)
    requires PoolLags(s) && worker in s.pool.busy && s.ended[s.pool.busy[worker]].Some?
    ensures PoolLags(Woken(s, worker))
  {
    SettleKeepsInv(s.pool, worker, s.ended[s.pool.busy[worker]].value);
  }

  lemma StepKeepsInv(w: World, step: Step)
    requires Inv(w) && Enabled(w, step)
    ensures Inv(Apply(w, step))
  {
    match step
    case Finish(worker) => FinishKeepsInv(w, worker);
    case Fail(worker, fault) => FailKeepsInv(w, worker, fault);
    case Wake(worker) => WakeKeepsInv(w, worker);
    case Crash =>
    case CrashInside(worker, fault) => FaultKeepsDisk(w, worker, fault);
    case End =>
    case Resume => SessionStarts(w.disk.manifest.value, w.disk.files);
  }

  /** A step of the running process itself: a task ends or a worker goes on. */
  predicate IsWork(step: Step) { step.Finish? || step.Fail? || step.Wake? }

  /** How many such steps the session has made. */
  function Work(s: Session): nat { CountSome(s.ended) + |s.pool.settled| }

  lemma WorkAdds(w: World, step: Step)
    requires Inv(w) && Enabled(w, step) && IsWork(step)
    ensures var after := Apply(w, step).session;
            after.Some? && Work(after.value) == Work(w.session.value) + 1 && after.value.pending == w.session.value.pending
  {
    var s := w.session.value;
    match step
    case Finish(worker) => CountUpdate(s.ended, s.pool.busy[worker], Fulfilled(()));
    case Fail(worker, _) => CountUpdate(s.ended, s.pool.busy[worker], Rejected(""));
    case Wake(worker) => SettleKeepsInv(s.pool, worker, s.ended[s.pool.busy[worker]].value);
  }

  /** A session makes at most two steps for each pending object, and is finished when it has made them all. */
  lemma WorkIsBounded(s: Session)
    requires PoolLags(s)
    ensures Work(s) <= 2 * |s.ended| && (Work(s) == 2 * |s.ended| <==> Finished(s.pool))
  {
    CountBounds(s.ended);
    CountBounds(s.pool.results);
    FinishedIffAllSettled(s.pool);
  }

  /** Until then some task can end or some worker go on: nothing has to fail for the session to advance. */
  lemma SomethingCanRun(w: World) returns (step: Step)
    requires Inv(w) && w.session.Some? && !Finished(w.session.value.pool)
    ensures Enabled(w, step) && (step.Finish? || step.Wake?)
  {
    var s := w.session.value;
    NonEmptyMap(s.pool.busy);
    var worker :| worker in s.pool.busy;
    assert HasTask(w, worker);
    step := if Awaits(w, worker) then Finish(worker) else Wake(worker);
  }

  lemma FinishedSessionIsDone(s: Session, d: Disk)
    requires SessionInv(s, d) && Finished(s.pool) && NoRejection(s)
    ensures forall i :: 0 <= i < |s.manifest.done| ==> s.manifest.done[i]
    ensures d.manifest == Some(s.manifest)
  {
    FinishedIffAllSettled(s.pool);
    forall i | 0 <= i < |s.manifest.done| && i in s.pending
      ensures s.manifest.done[i]
    {
      var k :| 0 <= k < |s.pending| && s.pending[k] == i;
      assert s.pool.results[k].Some? && !IsRejected(s.ended[k]);
    }
  }

  /** The process `work` steps into a session with these pending objects. */
  ghost predicate InSession(w: World, pending: seq<nat>, work: nat) {
    Inv(w) && w.session.Some? && w.session.value.pending == pending && Work(w.session.value) == work
  }

  predicate Unrejected(w: World) { w.session.Some? && NoRejection(w.session.value) }

  lemma SessionBegins(w: World, m: Manifest)
    requires Inv(w) && w.session == Some(StartSession(m))
    ensures InSession(w, PendingOf(m.done), 0) && Unrejected(w)
  {
    StartHolds<()>(|PendingOf(m.done)|, CONCURRENCY);
    CountBounds(w.session.value.ended);
  }

  predicate IsWorkStep(before: World, step: Step, after: World) {
    IsWork(step) && Enabled(before, step) && after == Apply(before, step)
  }

  lemma SessionStep(before: World, step: Step, after: World, pending: seq<nat>, work: nat)
    requires InSession(before, pending, work) && IsWorkStep(before, step, after)
    ensures InSession(after, pending, work + 1)
  {
    StepKeepsInv(before, step);
    WorkAdds(before, step);
  }

  ghost predicate IsWorkRun(states: seq<World>, steps: seq<Step>) {
    |states| == |steps| + 1 && forall k :: 0 <= k < |steps| ==> IsWorkStep(states[k], steps[k], states[k + 1])
  }

  /** The steps of one session, from its start. */
  ghost predicate IsSession(states: seq<World>, steps: seq<Step>, m: Manifest) {
    IsWorkRun(states, steps) && Inv(states[0]) && states[0].session == Some(StartSession(m))
  }

  lemma {:induction false} SessionAdvances(states: seq<World>, steps: seq<Step>, pending: seq<nat>, k: nat)
    requires IsWorkRun(states, steps) && InSession(states[0], pending, 0) && k <= |steps|
    ensures InSession(states[k], pending, k)
    decreases k
  {
    if k > 0 {
      SessionAdvances(states, steps, pending, k - 1);
      SessionStep(states[k - 1], steps[k - 1], states[k], pending, k - 1);
    }
  }

  predicate NoFailure(steps: seq<Step>) {
    forall k :: 0 <= k < |steps| ==> !steps[k].Fail?
  }

  lemma CleanStep(before: World, step: Step, after: World)
    requires Unrejected(before) && IsWorkStep(before, step, after) && !step.Fail?
    ensures Unrejected(after)
  {
  }

  lemma {:induction false} CleanSessionAdvances(states: seq<World>, steps: seq<Step>, k: nat)
    requires IsWorkRun(states, steps) && Unrejected(states[0]) && k <= |steps| && NoFailure(steps)
    ensures Unrejected(states[k])
    decreases k
  {
    if k > 0 {
      CleanSessionAdvances(states, steps, k - 1);
      CleanStep(states[k - 1], steps[k - 1], states[k]);
    }
  }

  /** A session ends after exactly two steps for each pending object, in any order, failures included. If no download
      fails, every object is then done, on disk and in the manifest. */
  lemma SessionEnds(states: seq<World>, steps: seq<Step>, m: Manifest)
    requires IsSession(states, steps, m)
    ensures var end := states[|steps|];
            |steps| <= 2 * |PendingOf(m.done)| && end.session.Some? &&
            (|steps| == 2 * |PendingOf(m.done)| <==> Finished(end.session.value.pool))
    ensures var end := states[|steps|];
            Finished(end.session.value.pool) && NoFailure(steps) ==>
              forall i :: 0 <= i < |end.disk.files| ==> PersistedDone(end, i) && end.disk.files[i] == Full
  {
    SessionBegins(states[0], m);
    SessionAdvances(states, steps, PendingOf(m.done), |steps|);
    if NoFailure(steps) { CleanSessionAdvances(states, steps, |steps|); }
    SessionEndsSo(states[|steps|], PendingOf(m.done), |steps|, NoFailure(steps));
  }

  lemma SessionEndsSo(w: World, pending: seq<nat>, work: nat, clean: bool)
    requires InSession(w, pending, work) && (clean ==> Unrejected(w))
    ensures work <= 2 * |pending| && (work == 2 * |pending| <==> Finished(w.session.value.pool))
    ensures Finished(w.session.value.pool) && clean ==>
              forall i :: 0 <= i < |w.disk.files| ==> PersistedDone(w, i) && w.disk.files[i] == Full
  {
    WorkIsBounded(w.session.value);
    if Finished(w.session.value.pool) && clean { FinishedSessionIsDone(w.session.value, w.disk); }
  }

  predicate PersistedDone(w: World, i: nat) {
    w.disk.manifest.Some? && i < |w.disk.manifest.value.done| && w.disk.manifest.value.done[i]
  }

  /** The step starts a download of object `i`: a resumed pool claims it at once, a worker when it goes on. */
  predicate StartsDownload(w: World, step: Step, i: nat)
    requires Enabled(w, step)
  {
    var after := Apply(w, step).session;
    var claimedBefore := if step.Resume? || w.session.None? then 0 else |w.session.value.pool.claimedBy|;
    after.Some? && Claims(after.value, claimedBefore, i)
  }

  /** Object `i` is among those claimed since `claimedBefore` claims had been made. */
  predicate Claims(s: Session, claimedBefore: nat, i: nat) {
    exists k :: claimedBefore <= k < |s.pool.claimedBy| && k < |s.pending| && s.pending[k] == i
  }

  /** Whoever can still act on the directory knows that `i` is done. */
  predicate Remembers(w: World, i: nat) {
    (w.session.Some? ==> i < |w.session.value.manifest.done| && w.session.value.manifest.done[i]) &&
    (w.disk.manifest.Some? ==> PersistedDone(w, i))
  }

  lemma PersistedIsRemembered(w: World, i: nat)
    requires Inv(w) && PersistedDone(w, i)
    ensures Remembers(w, i)
  {
  }

  lemma TailRemembers(w: World, worker: nat, marked: bool, outcome: Outcome<()>, i: nat)
    requires HasTask(w, worker) && i < |w.session.value.manifest.done| && w.session.value.manifest.done[i]
    ensures var m := AfterTail(w, worker, marked, outcome).manifest; i < |m.done| && m.done[i]
  {
  }

  lemma StepRemembers(w: World, step: Step, i: nat)
    requires Enabled(w, step) && Remembers(w, i)
    ensures Remembers(Apply(w, step), i)
  {
    match step
    case Finish(worker) => TailRemembers(w, worker, true, Fulfilled(()), i);
    case Fail(worker, fault) => TailRemembers(w, worker, MarksMemory(fault), Rejected(""), i);
    case Wake(worker) =>
    case Crash =>
    case CrashInside(worker, fault) =>
    case End =>
    case Resume =>
  }

  lemma UnclaimedIsNotDone(s: Session, k: nat)
    requires TracksTasks(s) && PoolLags(s) && |s.pool.claimedBy| <= k < |s.pending|
    ensures !s.manifest.done[s.pending[k]]
  {
  }

  lemma PendingIsNotDone(m: Manifest, k: nat)
    requires k < |PendingOf(m.done)|
    ensures PendingOf(m.done)[k] < |m.done| && !m.done[PendingOf(m.done)[k]]
  {
  }

  lemma StepDoesNotRestart(w: World, step: Step, i: nat)
    requires Inv(w) && Enabled(w, step) && Remembers(w, i)
    ensures !StartsDownload(w, step, i)
  {
    match step
    case Finish(worker) =>
    case Fail(worker, fault) =>
    case Wake(worker) =>
      forall k | |w.session.value.pool.claimedBy| <= k < |w.session.value.pending| {
        UnclaimedIsNotDone(w.session.value, k);
      }
    case Crash =>
    case CrashInside(worker, fault) =>
    case End =>
    case Resume =>
      var m := w.disk.manifest.value;
      forall k | 0 <= k < |PendingOf(m.done)| { PendingIsNotDone(m, k); }
  }

  /** A session whose tasks have all ended without a failure leaves every object done, on disk and in the manifest. */
  lemma CleanSessionCompletes(w: World)
    requires Inv(w) && w.session.Some? && Finished(w.session.value.pool) && NoRejection(w.session.value)
    ensures forall i :: 0 <= i < |w.disk.files| ==> PersistedDone(w, i) && w.disk.files[i] == Full
  {
    FinishedSessionIsDone(w.session.value, w.disk);
  }

  lemma TwoObjects()
    ensures PendingOf([false, false]) == [0, 1] && CountTrue([true, false]) == 1
  {
    PendingAndDone([true, false]);
    var none, first := [false, false], [true, false];
    assert none[..1] == [false] && [false][..0] == [];
    assert PendingOf([false]) == PendingOf([]) + [0] == [0];
    assert first[..1] == [true] && [true][..0] == [];
    assert PendingOf([true]) == PendingOf([]) + [] == [];
    assert PendingOf(first) == [] + [1];
  }

  /** completedCount is only an upper bound: after the first of two concurrent downloads it already says two. */
  lemma CompletedCountOvershoots() returns (worker: nat)
    ensures Enabled(FreshWorld(2), Finish(worker))
    ensures var m := Apply(FreshWorld(2), Finish(worker)).disk.manifest.value;
            m.completedCount == 2 && CountTrue(m.done) == 1
  {
    var s := FreshWorld(2).session.value;
    TwoObjects();
    assert s.manifest.done == [false, false];
    StartHolds<()>(2, CONCURRENCY);
    worker := s.pool.claimedBy[0];
    assert s.pool.results[0].None?;
    assert Marked(s, 0).done == [true, false];
  }
}
