/** Any sequence of runs of `backup create`: each starts a fresh session directory or, when the user agrees, resumes one
    whose manifest can be read and has pending objects. Directories are numbered in the order of their creation. */
module DownloadRuns {
  import opened Common
  import opened WorkerPool
  import opened ResumableDownload

  /** A running process and the directory it works in. */
  datatype Active = Active(dir: nat, session: Session)

  datatype Host = Host(dirs: seq<Disk>, active: Option<Active>)

  datatype HostStep =
    | Fresh(n: nat, torn: bool)   // a listing of n objects; `torn` when the process dies inside the first manifest write
    | ResumeDir(dir: nat)
    | Within(step: Step)          // a step of the running process in its directory

  /** A directory with the process that works in it, if any. */
  function View(h: Host, d: nat): World
    requires d < |h.dirs|
  {
    World(h.dirs[d], if h.active.Some? && h.active.value.dir == d then Some(h.active.value.session) else None)
  }

  function WithView(h: Host, d: nat, w: World): Host
    requires d < |h.dirs|
  {
    Host(h.dirs[d := w.disk], if w.session.Some? then Some(Active(d, w.session.value)) else None)
  }

  function DirOf(h: Host, step: HostStep): nat
    requires step.Within? ==> h.active.Some?
  {
    match step
    case Fresh(_, _) => |h.dirs|
    case ResumeDir(d) => d
    case Within(_) => h.active.value.dir
  }

  predicate HostEnabled(h: Host, step: HostStep) {
    match step
    case Fresh(n, _) => h.active.None? && n > 0
    case ResumeDir(d) => h.active.None? && d < |h.dirs| && Enabled(View(h, d), Resume)
    case Within(s) =>
      h.active.Some? && h.active.value.dir < |h.dirs| && !s.Resume? && Enabled(View(h, h.active.value.dir), s)
  }

  function HostApply(h: Host, step: HostStep): Host
    requires HostEnabled(h, step)
  {
    match step
    case Fresh(n, torn) =>
      var w := FreshWorld(n);
      if torn then Host(h.dirs + [Disk(None, w.disk.files)], None)
      else Host(h.dirs + [w.disk], Some(Active(|h.dirs|, w.session.value)))
    case ResumeDir(d) => WithView(h, d, Apply(View(h, d), Resume))
    case Within(s) => WithView(h, h.active.value.dir, Apply(View(h, h.active.value.dir), s))
  }

  predicate IsHostStep(before: Host, step: HostStep, after: Host) {
    HostEnabled(before, step) && after == HostApply(before, step)
  }

  ghost predicate HostInv(h: Host) {
    (h.active.Some? ==> h.active.value.dir < |h.dirs|) &&
    forall d :: 0 <= d < |h.dirs| ==> ResumableDownload.Inv(View(h, d))
  }

  /** The step of a directory that a step of the host amounts to, if it concerns the directory at all. */
  function StepIn(step: HostStep): Step
    requires !step.Fresh?
  {
    if step.ResumeDir? then Resume else step.step
  }

  /** A step changes one directory; all others keep what is on disk and have no process. */
  lemma StepViews(before: Host, step: HostStep, after: Host, d: nat)
    requires IsHostStep(before, step, after) && d < |before.dirs|
    ensures d < |after.dirs|
    ensures !step.Fresh? && DirOf(before, step) == d ==>
              Enabled(View(before, d), StepIn(step)) && View(after, d) == Apply(View(before, d), StepIn(step))
    ensures step.Fresh? || DirOf(before, step) != d ==> View(after, d) == View(before, d) && View(before, d).session.None?
  {
  }

  lemma HostStepKeepsInv(before: Host, step: HostStep, after: Host)
    requires HostInv(before) && IsHostStep(before, step, after)
    ensures HostInv(after)
  {
    forall d | 0 <= d < |after.dirs|
      ensures ResumableDownload.Inv(View(after, d))
    {
      if d < |before.dirs| {
        StepViews(before, step, after, d);
        if !step.Fresh? && DirOf(before, step) == d {
          ResumableDownload.StepKeepsInv(View(before, d), StepIn(step));
        }
      } else {
        FreshHolds(step.n);
      }
    }
  }

  ghost predicate IsContinuation(h: Host, hosts: seq<Host>, steps: seq<HostStep>) {
    |hosts| == |steps| + 1 && hosts[0] == h &&
    forall k :: 0 <= k < |steps| ==> IsHostStep(hosts[k], steps[k], hosts[k + 1])
  }

  /** Runs start with no session directory. */
  ghost predicate IsRun(hosts: seq<Host>, steps: seq<HostStep>) {
    IsContinuation(Host([], None), hosts, steps)
  }

  lemma {:induction false} RunKeepsInv(hosts: seq<Host>, steps: seq<HostStep>, k: nat)
    requires IsRun(hosts, steps) && k < |hosts|
    ensures HostInv(hosts[k])
    decreases k
  {
    if k > 0 {
      RunKeepsInv(hosts, steps, k - 1);
      HostStepKeepsInv(hosts[k - 1], steps[k - 1], hosts[k]);
    }
  }

  lemma {:induction false} DirectoriesStay(hosts: seq<Host>, steps: seq<HostStep>, a: nat, b: nat)
    requires IsRun(hosts, steps) && a <= b < |hosts|
    ensures |hosts[a].dirs| <= |hosts[b].dirs|
    decreases b
  {
    if a < b {
      DirectoriesStay(hosts, steps, a, b - 1);
      assert IsHostStep(hosts[b - 1], steps[b - 1], hosts[b]);
    }
  }

  predicate DoneIn(h: Host, d: nat, i: nat) {
    d < |h.dirs| && PersistedDone(View(h, d), i)
  }

  predicate Readable(h: Host, d: nat) {
    d < |h.dirs| && h.dirs[d].manifest.Some?
  }

  predicate RemembersIn(h: Host, d: nat, i: nat) {
    d < |h.dirs| && Remembers(View(h, d), i)
  }

  /** In every run, an object that a manifest on disk calls done has its whole file in that directory, and the persisted
      count is at least the number of done objects. */
  lemma DoneMeansDownloaded(hosts: seq<Host>, steps: seq<HostStep>, k: nat, d: nat, i: nat)
    requires IsRun(hosts, steps) && k < |hosts| && DoneIn(hosts[k], d, i)
    ensures var disk := hosts[k].dirs[d];
            i < |disk.files| && disk.files[i] == Full &&
            disk.manifest.value.completedCount >= CountTrue(disk.manifest.value.done)
  {
    RunKeepsInv(hosts, steps, k);
    assert ResumableDownload.Inv(View(hosts[k], d));
  }

  lemma StepRemembersIn(before: Host, step: HostStep, after: Host, d: nat, i: nat)
    requires IsHostStep(before, step, after) && RemembersIn(before, d, i)
    ensures RemembersIn(after, d, i)
  {
    StepViews(before, step, after, d);
    if !step.Fresh? && DirOf(before, step) == d { StepRemembers(View(before, d), StepIn(step), i); }
  }

  lemma {:induction false} DoneIsRemembered(hosts: seq<Host>, steps: seq<HostStep>, a: nat, b: nat, d: nat, i: nat)
    requires IsRun(hosts, steps) && a <= b < |hosts| && DoneIn(hosts[a], d, i)
    ensures RemembersIn(hosts[b], d, i)
    decreases b
  {
    if a < b {
      DoneIsRemembered(hosts, steps, a, b - 1, d, i);
      StepRemembersIn(hosts[b - 1], steps[b - 1], hosts[b], d, i);
    } else {
      RunKeepsInv(hosts, steps, a);
      PersistedIsRemembered(View(hosts[a], d), i);
    }
  }

  /** The step writes the directory's manifest, whole. */
  predicate WritesManifest(h: Host, step: HostStep, d: nat) {
    step.Within? && h.active.Some? && h.active.value.dir == d && step.step.Finish?
  }

  /** The step leaves the directory's manifest torn: its write fails or the process dies inside it. */
  predicate TearsManifest(h: Host, step: HostStep, d: nat) {
    step.Within? && h.active.Some? && h.active.value.dir == d &&
    (step.step.Fail? || step.step.CrashInside?) && step.step.fault.InsideManifest?
  }

  lemma ReadableAfter(before: Host, step: HostStep, after: Host, d: nat)
    requires IsHostStep(before, step, after) && d < |before.dirs|
    ensures TearsManifest(before, step, d) ==> !Readable(after, d)
    ensures WritesManifest(before, step, d) ==> Readable(after, d)
    ensures !TearsManifest(before, step, d) && !WritesManifest(before, step, d) ==>
              (Readable(after, d) <==> Readable(before, d))
  {
    StepViews(before, step, after, d);
  }

  /** Step `c` tore the directory's manifest, and no step before `b` wrote it again. */
  ghost predicate LatestWriteTorn(hosts: seq<Host>, steps: seq<HostStep>, a: nat, b: nat, d: nat)
    requires |hosts| == |steps| + 1 && b <= |steps|
  {
    exists c :: a <= c < b && TearsManifest(hosts[c], steps[c], d) &&
      forall e :: c < e < b ==> !WritesManifest(hosts[e], steps[e], d)
  }

  lemma TornStep(hosts: seq<Host>, steps: seq<HostStep>, a: nat, b: nat, d: nat)
    requires |hosts| == |steps| + 1 && a <= b < |steps|
    ensures LatestWriteTorn(hosts, steps, a, b + 1, d) <==>
            TearsManifest(hosts[b], steps[b], d) ||
            (LatestWriteTorn(hosts, steps, a, b, d) && !WritesManifest(hosts[b], steps[b], d))
  {
    if LatestWriteTorn(hosts, steps, a, b, d) && !WritesManifest(hosts[b], steps[b], d) {
      var c :| a <= c < b && TearsManifest(hosts[c], steps[c], d) &&
               forall e :: c < e < b ==> !WritesManifest(hosts[e], steps[e], d);
      assert forall e :: c < e < b + 1 ==> !WritesManifest(hosts[e], steps[e], d);
    }
  }

  /** What step `k` does to the readability of a directory's manifest. */
  ghost predicate StepReads(hosts: seq<Host>, steps: seq<HostStep>, k: nat, d: nat)
    requires |hosts| == |steps| + 1 && k < |steps|
  {
    Readable(hosts[k + 1], d) <==>
    !TearsManifest(hosts[k], steps[k], d) && (WritesManifest(hosts[k], steps[k], d) || Readable(hosts[k], d))
  }

  /** LatestWriteTorn, step by step. */
  ghost predicate TornBy(hosts: seq<Host>, steps: seq<HostStep>, a: nat, b: nat, d: nat)
    requires |hosts| == |steps| + 1 && b <= |steps|
  {
    a < b && (TearsManifest(hosts[b - 1], steps[b - 1], d) ||
              (TornBy(hosts, steps, a, b - 1, d) && !WritesManifest(hosts[b - 1], steps[b - 1], d)))
  }

  lemma {:induction false} TornByIff(hosts: seq<Host>, steps: seq<HostStep>, a: nat, b: nat, d: nat)
    requires |hosts| == |steps| + 1 && a <= b <= |steps|
    ensures TornBy(hosts, steps, a, b, d) <==> LatestWriteTorn(hosts, steps, a, b, d)
    decreases b
  {
    if a < b {
      TornByIff(hosts, steps, a, b - 1, d);
      TornStep(hosts, steps, a, b - 1, d);
    }
  }

  lemma {:induction false} ReadableUnlessTornBy(hosts: seq<Host>, steps: seq<HostStep>, a: nat, b: nat, d: nat)
    requires |hosts| == |steps| + 1 && a <= b <= |steps| && Readable(hosts[a], d)
    requires forall k :: a <= k < b ==> StepReads(hosts, steps, k, d)
    ensures Readable(hosts[b], d) <==> !TornBy(hosts, steps, a, b, d)
    decreases b
  {
    if a < b {
      ReadableUnlessTornBy(hosts, steps, a, b - 1, d);
      assert StepReads(hosts, steps, b - 1, d);
    }
  }

  lemma ReadableUnlessTorn(hosts: seq<Host>, steps: seq<HostStep>, a: nat, b: nat, d: nat)
    requires IsRun(hosts, steps) && a <= b <= |steps| && Readable(hosts[a], d)
    ensures Readable(hosts[b], d) <==> !LatestWriteTorn(hosts, steps, a, b, d)
  {
    forall k | a <= k < b
      ensures StepReads(hosts, steps, k, d)
    {
      DirectoriesStay(hosts, steps, a, k);
      ReadableAfter(hosts[k], steps[k], hosts[k + 1], d);
    }
    ReadableUnlessTornBy(hosts, steps, a, b, d);
    TornByIff(hosts, steps, a, b, d);
  }

  /** Exactly when done reverts: an object that a manifest once called done is missing from it later if and only if the
      latest write of that manifest was torn. Whatever process is at work in the directory still knows it is done. */
  lemma DoneRevertsIffTorn(hosts: seq<Host>, steps: seq<HostStep>, a: nat, b: nat, d: nat, i: nat)
    requires IsRun(hosts, steps) && a <= b < |hosts| && DoneIn(hosts[a], d, i)
    ensures DoneIn(hosts[b], d, i) <==> !LatestWriteTorn(hosts, steps, a, b, d)
    ensures RemembersIn(hosts[b], d, i)
  {
    DoneIsRemembered(hosts, steps, a, b, d, i);
    ReadableUnlessTorn(hosts, steps, a, b, d);
  }

  /** The step starts a download of object `i` of directory `d`. */
  predicate StartsIn(before: Host, step: HostStep, after: Host, d: nat, i: nat) {
    after.active.Some? && after.active.value.dir == d &&
    Claims(after.active.value.session,
           if step.Within? && before.active.Some? then |before.active.value.session.pool.claimedBy| else 0, i)
  }

  /** In its own directory a done object is never downloaded again, torn manifest or not. */
  lemma DoneIsNeverRestarted(hosts: seq<Host>, steps: seq<HostStep>, a: nat, b: nat, d: nat, i: nat)
    requires IsRun(hosts, steps) && a <= b < |steps| && DoneIn(hosts[a], d, i)
    ensures !StartsIn(hosts[b], steps[b], hosts[b + 1], d, i)
  {
    DoneIsRemembered(hosts, steps, a, b, d, i);
    RunKeepsInv(hosts, steps, b);
    assert IsHostStep(hosts[b], steps[b], hosts[b + 1]);
    NotRestartedIn(hosts[b], steps[b], hosts[b + 1], d, i);
  }

  lemma NotRestartedIn(before: Host, step: HostStep, after: Host, d: nat, i: nat)
    requires HostInv(before) && IsHostStep(before, step, after) && RemembersIn(before, d, i)
    ensures !StartsIn(before, step, after, d, i)
  {
    StepViews(before, step, after, d);
    if !step.Fresh? && DirOf(before, step) == d {
      assert ResumableDownload.Inv(View(before, d));
      StepDoesNotRestart(View(before, d), StepIn(step), i);
    }
  }

  /** Nothing reads the manifest and no process is at work. */
  predicate Abandoned(h: Host, d: nat) {
    d < |h.dirs| && !Readable(h, d) && View(h, d).session.None?
  }

  /** Once the process with a torn manifest is gone, no later run returns to the directory: what was done there is
      downloaded again elsewhere. */
  lemma {:induction false} TornIsAbandoned(hosts: seq<Host>, steps: seq<HostStep>, a: nat, b: nat, d: nat)
    requires IsRun(hosts, steps) && a <= b < |hosts| && Abandoned(hosts[a], d)
    ensures Abandoned(hosts[b], d) && !HostEnabled(hosts[b], ResumeDir(d))
    decreases b
  {
    if a < b {
      TornIsAbandoned(hosts, steps, a, b - 1, d);
      StepViews(hosts[b - 1], steps[b - 1], hosts[b], d);
    }
  }

  predicate SomePendingIn(h: Host, d: nat) {
    d < |h.dirs| && exists i :: 0 <= i < |h.dirs[d].files| && !DoneIn(h, d, i)
  }

  /** So when no process is running, the next one can go on from what the directory has done if and only if the latest
      write of its manifest was not torn and some object is still pending. */
  lemma ResumableIff(hosts: seq<Host>, steps: seq<HostStep>, a: nat, b: nat, d: nat)
    requires IsRun(hosts, steps) && a <= b < |hosts| && Readable(hosts[a], d) && hosts[b].active.None?
    ensures HostEnabled(hosts[b], ResumeDir(d)) <==>
            !LatestWriteTorn(hosts, steps, a, b, d) && SomePendingIn(hosts[b], d)
  {
    ReadableUnlessTorn(hosts, steps, a, b, d);
    RunKeepsInv(hosts, steps, b);
    if Readable(hosts[b], d) {
      assert ResumableDownload.Inv(View(hosts[b], d));
      OfferedIff(hosts[b], d, hosts[b].dirs[d].manifest.value.done);
    }
  }

  lemma OfferedIff(h: Host, d: nat, done: seq<bool>)
    requires Readable(h, d) && h.active.None? && done == h.dirs[d].manifest.value.done && |done| == |h.dirs[d].files|
    ensures HostEnabled(h, ResumeDir(d)) <==> SomePendingIn(h, d)
  {
    assert forall i :: 0 <= i < |done| ==> (DoneIn(h, d, i) <==> done[i]);
    SomePending(done);
    assert HostEnabled(h, ResumeDir(d)) <==> PendingOf(done) != [];
  }

  lemma SomePending(done: seq<bool>)
    ensures PendingOf(done) != [] <==> exists i :: 0 <= i < |done| && !done[i]
  {
    if PendingOf(done) != [] { assert !done[PendingOf(done)[0]]; }
  }

  /** No process is at work in the directory, and none will be offered it: its manifest is unreadable, or nothing is
      pending in it. */
  predicate Spent(h: Host, d: nat) {
    d < |h.dirs| && View(h, d).session.None? && !Enabled(View(h, d), Resume)
  }

  lemma SpentStays(before: Host, step: HostStep, after: Host, d: nat)
    requires IsHostStep(before, step, after) && Spent(before, d)
    ensures Spent(after, d)
  {
    StepViews(before, step, after, d);
  }

  lemma {:induction false} SpentForGood(h: Host, hosts: seq<Host>, steps: seq<HostStep>, d: nat, k: nat)
    requires IsContinuation(h, hosts, steps) && Spent(h, d) && k < |hosts|
    ensures Spent(hosts[k], d)
    decreases k
  {
    if k > 0 {
      SpentForGood(h, hosts, steps, d, k - 1);
      SpentStays(hosts[k - 1], steps[k - 1], hosts[k], d);
    }
  }

  predicate AtWorkIn(h: Host, d: nat) {
    h.active.Some? && h.active.value.dir == d
  }

  /** However things go on from here, no process works in the directory. */
  ghost predicate NeverReturns(h: Host, d: nat) {
    forall hosts, steps :: IsContinuation(h, hosts, steps) ==> NeverAtWork(hosts, d)
  }

  predicate NeverAtWork(hosts: seq<Host>, d: nat) {
    forall k :: 0 <= k < |hosts| ==> !AtWorkIn(hosts[k], d)
  }

  lemma NeverReturnsIffSpent(h: Host, d: nat)
    requires d < |h.dirs| && h.active.None?
    ensures NeverReturns(h, d) <==> !HostEnabled(h, ResumeDir(d))
  {
    if HostEnabled(h, ResumeDir(d)) {
      var hosts, steps := [h, HostApply(h, ResumeDir(d))], [ResumeDir(d)];
      assert IsContinuation(h, hosts, steps) && AtWorkIn(hosts[1], d);
    } else {
      forall hosts, steps | IsContinuation(h, hosts, steps)
        ensures NeverAtWork(hosts, d)
      {
        forall k | 0 <= k < |hosts| { SpentForGood(h, hosts, steps, d, k); }
      }
    }
  }

  /** Exactly when a directory is left for good once no process is at work: when the latest write of its manifest was
      torn, or when nothing is pending in it. Whatever it has done is then downloaded again by the next run. */
  lemma NeverReturnsIff(hosts: seq<Host>, steps: seq<HostStep>, a: nat, b: nat, d: nat)
    requires IsRun(hosts, steps) && a <= b < |hosts| && Readable(hosts[a], d) && hosts[b].active.None?
    ensures NeverReturns(hosts[b], d) <==> LatestWriteTorn(hosts, steps, a, b, d) || !SomePendingIn(hosts[b], d)
  {
    DirectoriesStay(hosts, steps, a, b);
    ResumableIff(hosts, steps, a, b, d);
    NeverReturnsIffSpent(hosts[b], d);
  }

  /** Two downloads, the first completed, the process dead inside the manifest write of the second, and the next run:
      the first object was done, its manifest is unreadable, no directory can be resumed, and it is downloaded again. */
  lemma TornManifestLosesDone(n: nat) returns (hosts: seq<Host>, steps: seq<HostStep>)
    requires n >= 2
    ensures IsRun(hosts, steps) && |steps| == 4 && steps[3] == Fresh(n, false)
    ensures DoneIn(hosts[2], 0, 0) && !Readable(hosts[3], 0) && !HostEnabled(hosts[3], ResumeDir(0))
    ensures |hosts[3].dirs| == 1 && StartsIn(hosts[3], steps[3], hosts[4], 1, 0)
  {
    var empty := Host([], None);
    var started := HostApply(empty, Fresh(n, false));
    var first, second := TwoWorkers(n);
    var finish, die := Within(Finish(first)), Within(CrashInside(second, InsideManifest));
    FirstIsDone(n, first, second);
    var finished := HostApply(started, finish);
    var dead := HostApply(finished, die);
    var again := HostApply(dead, Fresh(n, false));
    hosts, steps := [empty, started, finished, dead, again], [Fresh(n, false), finish, die, Fresh(n, false)];
    FreshClaims(n);
  }

  /** The workers that a fresh session gives its first two objects to. */
  lemma TwoWorkers(n: nat) returns (first: nat, second: nat)
    requires n >= 2
    ensures var s := FreshWorld(n).session.value;
            first in s.pool.busy && s.pool.busy[first] == 0 && second in s.pool.busy && s.pool.busy[second] == 1
  {
    FreshPending(n);
    StartHolds<()>(n, CONCURRENCY);
    var s := FreshWorld(n).session.value;
    first, second := s.pool.claimedBy[0], s.pool.claimedBy[1];
  }

  lemma {:induction false} AllPending(done: seq<bool>)
    requires forall i :: 0 <= i < |done| ==> !done[i]
    ensures |PendingOf(done)| == |done| && forall i :: 0 <= i < |done| ==> PendingOf(done)[i] == i
    decreases |done|
  {
    if done != [] { AllPending(done[..|done| - 1]); }
  }

  lemma FreshPending(n: nat)
    ensures var s := FreshWorld(n).session.value;
            |s.pending| == n && s.pool.n == n && |s.ended| == n && forall i :: 0 <= i < n ==> s.pending[i] == i
  {
    AllPending(FreshManifest(n).done);
    StartHolds<()>(n, CONCURRENCY);
  }

  lemma FirstIsDone(n: nat, first: nat, second: nat)
    requires n >= 2
    requires var s := FreshWorld(n).session.value;
             first in s.pool.busy && s.pool.busy[first] == 0 && second in s.pool.busy && s.pool.busy[second] == 1
    ensures var w := FreshWorld(n);
            Enabled(w, Finish(first)) && PersistedDone(Apply(w, Finish(first)), 0) &&
            Enabled(Apply(w, Finish(first)), CrashInside(second, InsideManifest))
  {
    FreshPending(n);
    StartHolds<()>(n, CONCURRENCY);
  }

  lemma FreshClaims(n: nat)
    requires n > 0
    ensures Claims(FreshWorld(n).session.value, 0, 0)
  {
    FreshPending(n);
    StartHolds<()>(n, CONCURRENCY);
    assert FreshWorld(n).session.value.pending[0] == 0;
  }

  /** The step is one of a process whose downloads succeed. */
  predicate IsClean(step: HostStep) {
    step.Within? && (step.step.Finish? || step.step.Wake?)
  }

  predicate AllClean(steps: seq<HostStep>) {
    forall k :: 0 <= k < |steps| ==> IsClean(steps[k])
  }

  /** A process at work in directory `d` without a failed download so far. */
  ghost predicate CleanAt(h: Host, d: nat) {
    HostInv(h) && AtWorkIn(h, d) && Unrejected(View(h, d))
  }

  /** No directory and no object more or less. */
  predicate SameShape(a: Host, b: Host, d: nat) {
    d < |a.dirs| == |b.dirs| && |a.dirs[d].files| == |b.dirs[d].files|
  }

  lemma CleanHostStep(h: Host, d: nat) returns (step: HostStep)
    requires CleanAt(h, d) && !Finished(h.active.value.session.pool)
    ensures HostEnabled(h, step) && IsClean(step) && CleanAt(HostApply(h, step), d)
    ensures var s, after := h.active.value.session, HostApply(h, step).active.value.session;
            Work(after) == Work(s) + 1 && |after.ended| == |s.ended| && PoolLags(after)
    ensures SameShape(h, HostApply(h, step), d)
  {
    var w := View(h, d);
    assert ResumableDownload.Inv(w);
    var inner := SomethingCanRun(w);
    step := Within(inner);
    var after := HostApply(h, step);
    HostStepKeepsInv(h, step, after);
    StepViews(h, step, after, d);
    WorkAdds(w, inner);
    CleanStep(w, inner, Apply(w, inner));
    assert ResumableDownload.Inv(View(after, d));
  }

  lemma ExtendContinuation(h: Host, step: HostStep, hosts: seq<Host>, steps: seq<HostStep>)
    requires HostEnabled(h, step) && IsContinuation(HostApply(h, step), hosts, steps)
    ensures IsContinuation(h, [h] + hosts, [step] + steps)
  {
    var all, every := [h] + hosts, [step] + steps;
    forall k | 0 <= k < |every|
      ensures IsHostStep(all[k], every[k], all[k + 1])
    {
      if k > 0 { assert IsHostStep(hosts[k - 1], steps[k - 1], hosts[k]); }
    }
  }

  /** Downloads that keep succeeding bring the process to the end of its session. */
  lemma {:induction false} CleanToTheEnd(h: Host, d: nat) returns (hosts: seq<Host>, steps: seq<HostStep>)
    requires CleanAt(h, d) && PoolLags(h.active.value.session)
    ensures IsContinuation(h, hosts, steps) && AllClean(steps)
    ensures var end := hosts[|steps|];
            CleanAt(end, d) && Finished(end.active.value.session.pool) && SameShape(h, end, d)
    decreases 2 * |h.active.value.session.ended| - Work(h.active.value.session)
  {
    var s := h.active.value.session;
    WorkIsBounded(s);
    if Finished(s.pool) {
      hosts, steps := [h], [];
    } else {
      var step := CleanHostStep(h, d);
      WorkIsBounded(HostApply(h, step).active.value.session);
      var later, more := CleanToTheEnd(HostApply(h, step), d);
      ExtendContinuation(h, step, later, more);
      hosts, steps := [h] + later, [step] + more;
      assert hosts[|steps|] == later[|more|];
    }
  }

  /** A session that ends without a failure leaves every object of its directory done, on disk and in the manifest. */
  lemma CleanSessionCompletes(hosts: seq<Host>, steps: seq<HostStep>, k: nat)
    requires IsRun(hosts, steps) && k < |hosts| && hosts[k].active.Some?
    requires var s := hosts[k].active.value.session; Finished(s.pool) && NoRejection(s)
    ensures var d := hosts[k].active.value.dir;
            d < |hosts[k].dirs| &&
            forall i :: 0 <= i < |hosts[k].dirs[d].files| ==> DoneIn(hosts[k], d, i) && hosts[k].dirs[d].files[i] == Full
  {
    RunKeepsInv(hosts, steps, k);
    var w := View(hosts[k], hosts[k].active.value.dir);
    assert ResumableDownload.Inv(w);
    ResumableDownload.CleanSessionCompletes(w);
  }

  lemma FreshIsClean(n: nat)
    requires n > 0
    ensures var h := HostApply(Host([], None), Fresh(n, false));
            CleanAt(h, 0) && PoolLags(h.active.value.session)
  {
    FreshHolds(n);
    var h := HostApply(Host([], None), Fresh(n, false));
    SessionBegins(View(h, 0), FreshManifest(n));
  }

  lemma AllDoneAtEnd(h: Host, d: nat)
    requires CleanAt(h, d) && Finished(h.active.value.session.pool)
    ensures AllDone(h, d)
  {
    assert ResumableDownload.Inv(View(h, d));
    FinishedSessionIsDone(h.active.value.session, h.dirs[d]);
  }

  /** The manifest can be read and calls every object done. */
  predicate AllDone(h: Host, d: nat) {
    Readable(h, d) && var done := h.dirs[d].manifest.value.done;
    |done| == |h.dirs[d].files| && forall i :: 0 <= i < |done| ==> done[i]
  }

  lemma AllDoneIsSpent(h: Host, d: nat)
    requires AllDone(h, d)
    ensures !HostEnabled(h, ResumeDir(d)) && forall i :: 0 <= i < |h.dirs[d].files| ==> DoneIn(h, d, i)
  {
    SomePending(h.dirs[d].manifest.value.done);
  }

  lemma AppendStep(h: Host, hosts: seq<Host>, steps: seq<HostStep>, step: HostStep)
    requires IsContinuation(h, hosts, steps) && HostEnabled(hosts[|steps|], step)
    ensures IsContinuation(h, hosts + [HostApply(hosts[|steps|], step)], steps + [step])
  {
    var all, every := hosts + [HostApply(hosts[|steps|], step)], steps + [step];
    forall k | 0 <= k < |every|
      ensures IsHostStep(all[k], every[k], all[k + 1])
    {
      if k < |steps| { assert IsHostStep(hosts[k], steps[k], hosts[k + 1]); }
    }
  }

  /** A session of `n` objects in a first directory, all downloaded. */
  lemma WholeSession(n: nat) returns (hosts: seq<Host>, steps: seq<HostStep>)
    requires n > 0
    ensures IsRun(hosts, steps) && steps != [] && steps[0] == Fresh(n, false) && AllClean(steps[1..])
    ensures var end := hosts[|steps|];
            |end.dirs| == 1 && |end.dirs[0].files| == n && AllDone(end, 0) && HostEnabled(end, Within(End))
  {
    var empty := Host([], None);
    var started := HostApply(empty, Fresh(n, false));
    FreshIsClean(n);
    var later, clean := CleanToTheEnd(started, 0);
    ExtendContinuation(empty, Fresh(n, false), later, clean);
    hosts, steps := [empty] + later, [Fresh(n, false)] + clean;
    assert steps[1..] == clean && hosts[|steps|] == later[|clean|];
    AllDoneAtEnd(later[|clean|], 0);
  }

  /** Without any fault in the directory: every object is downloaded, the process ends before the archive is made, and
      the next run, which is not offered a directory without pending objects, downloads them again. */
  lemma CompleteIsDownloadedAgain(n: nat) returns (hosts: seq<Host>, steps: seq<HostStep>)
    requires n > 0
    ensures IsRun(hosts, steps) && |steps| >= 3
    ensures steps[0] == Fresh(n, false) && AllClean(steps[1..|steps| - 2])
    ensures steps[|steps| - 2] == Within(End) && steps[|steps| - 1] == Fresh(n, false)
    ensures var h := hosts[|steps| - 1];
            |h.dirs| == 1 && (forall i :: 0 <= i < n ==> DoneIn(h, 0, i)) && !HostEnabled(h, ResumeDir(0)) &&
            StartsIn(h, steps[|steps| - 1], hosts[|steps|], 1, 0)
  {
    var session, work := WholeSession(n);
    var end := session[|work|];
    var left := HostApply(end, Within(End));
    AppendStep(Host([], None), session, work, Within(End));
    AllDoneIsSpent(left, 0);
    var again := HostApply(left, Fresh(n, false));
    AppendStep(Host([], None), session + [left], work + [Within(End)], Fresh(n, false));
    FreshClaims(n);
    hosts, steps := session + [left] + [again], work + [Within(End)] + [Fresh(n, false)];
    assert steps[1..|steps| - 2] == work[1..];
  }

  /** At most five downloads are in flight. */
  lemma DownloadsAreThrottled(hosts: seq<Host>, steps: seq<HostStep>, k: nat)
    requires IsRun(hosts, steps) && k < |hosts| && hosts[k].active.Some?
    ensures |hosts[k].active.value.session.pool.busy| <= 5
  {
    RunKeepsInv(hosts, steps, k);
    var d := hosts[k].active.value.dir;
    assert ResumableDownload.Inv(View(hosts[k], d));
    InFlightIsBounded(hosts[k].active.value.session.pool);
  }
}
