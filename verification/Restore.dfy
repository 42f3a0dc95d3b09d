/** `backup restore`: internal databases first, then orphans are wiped, then every stage restores its items
    with a bounded pool. A call may fail and then leave its own target in any state. */
module Restore {
  import opened Common
  import opened WorkerPool

  type Tables = string

  datatype DoType = Auth | Database

  /** The server finds a Durable Object by its type and its name. */
  datatype DoKey = DoKey(kind: DoType, name: string)

  datatype Entry = Entry(name: string, tables: Tables)

  /** `files` are the extracted storage files by path, when storage is restored at all. */
  datatype Backup = Backup(
    control: Tables, auth: Tables, shards: seq<Entry>, databases: seq<Entry>, namespaces: seq<Entry>,
    files: Option<seq<Entry>>)

  /** The target. A wiped or absent Durable Object has no entry. */
  datatype Target = Target(
    control: Tables, auth: Tables, dos: map<DoKey, Tables>, namespaces: map<string, Tables>, storage: map<string, Tables>)

  datatype Stage = Shards | Databases | Namespaces | Uploads

  /** One restoring call: where it writes, and what. */
  datatype Item =
    | DoItem(key: DoKey, tables: Tables)
    | NamespaceItem(name: string, tables: Tables)
    | FileItem(name: string, tables: Tables)

  datatype Phase =
    | Control
    | AuthDatabase
    | Enumerate
    | Wiping(orphans: seq<DoKey>, next: nat, failed: bool)
    | Restoring(stage: Stage, pool: Pool<()>)
    | WipeStorage
    | Complete
    | Failed

  datatype State = State(target: Target, phase: Phase, anyFailure: bool)

  function NamesOf(entries: seq<Entry>): set<string> {
    set i | 0 <= i < |entries| :: entries[i].name
  }

  function BackupNames(b: Backup): set<string> {
    NamesOf(b.shards) + NamesOf(b.databases)
  }

  predicate DistinctNames(entries: seq<Entry>) {
    forall i, j :: 0 <= i < j < |entries| ==> entries[i].name != entries[j].name
  }

  /** Object keys and file paths are unique. */
  predicate WellFormed(b: Backup) {
    DistinctNames(b.shards) && DistinctNames(b.databases) && DistinctNames(b.namespaces) &&
    (b.files.Some? ==> DistinctNames(b.files.value))
  }

  function EntriesOf(b: Backup, stage: Stage): seq<Entry> {
    match stage
    case Shards => b.shards
    case Databases => b.databases
    case Namespaces => b.namespaces
    case Uploads => if b.files.Some? then b.files.value else []
  }

  function LimitOf(stage: Stage): nat {
    match stage
    case Shards => 10
    case Databases => 10
    case Namespaces => 4
    case Uploads => 5
  }

  function ItemOf(stage: Stage, e: Entry): Item {
    match stage
    case Shards => DoItem(DoKey(Auth, e.name), e.tables)
    case Databases => DoItem(DoKey(Database, e.name), e.tables)
    case Namespaces => NamespaceItem(e.name, e.tables)
    case Uploads => FileItem(e.name, e.tables)
  }

  function Put(t: Target, item: Item): Target {
    match item
    case DoItem(key, tables) => t.(dos := t.dos[key := tables])
    case NamespaceItem(name, tables) => t.(namespaces := t.namespaces[name := tables])
    case FileItem(name, tables) => t.(storage := t.storage[name := tables])
  }

  function Drop(t: Target, item: Item): Target {
    match item
    case DoItem(key, _) => t.(dos := t.dos - {key})
    case NamespaceItem(name, _) => t.(namespaces := t.namespaces - {name})
    case FileItem(name, _) => t.(storage := t.storage - {name})
  }

  predicate InPlace(t: Target, item: Item) {
    match item
    case DoItem(key, tables) => key in t.dos && t.dos[key] == tables
    case NamespaceItem(name, tables) => name in t.namespaces && t.namespaces[name] == tables
    case FileItem(name, tables) => name in t.storage && t.storage[name] == tables
  }

  /** How a call ends: applied, or refused with the place it writes holding `left` (None: nothing there). */
  datatype Call = Applied | Refused(left: Option<Tables>)

  function CallItem(t: Target, item: Item, call: Call): Target {
    match call
    case Applied => Put(t, item)
    case Refused(None) => Drop(t, item)
    case Refused(Some(left)) =>
      Put(t, match item
             case DoItem(key, _) => DoItem(key, left)
             case NamespaceItem(name, _) => NamespaceItem(name, left)
             case FileItem(name, _) => FileItem(name, left))
  }

  function StartStage(b: Backup, stage: Stage): Phase {
    Restoring(stage, Start(|EntriesOf(b, stage)|, LimitOf(stage)))
  }

  /** What follows a stage without failures. */
  function AfterStage(b: Backup, stage: Stage): Phase {
    match stage
    case Shards => StartStage(b, Databases)
    case Databases => StartStage(b, Namespaces)
    case Namespaces => if b.files.Some? then WipeStorage else Complete
    case Uploads => Complete
  }

  datatype Step =
    | Single(call: Call)                      // one of the sequential calls: control, auth, storage wipe
    | List(listed: seq<DoKey>)                // the answer of /list-dos
    | ListFails
    | WipeNext(call: Call)
    | WipesEnd
    | TaskEnds(worker: nat, call: Call)
    | StageEnds

  predicate AnyRejected(p: Pool<()>) {
    exists k :: 0 <= k < |p.results| && IsRejected(p.results[k])
  }

  function Listed(listed: seq<DoKey>): set<DoKey> {
    set i | 0 <= i < |listed| :: listed[i]
  }

  predicate Enabled(b: Backup, s: State, step: Step) {
    match step
    case Single(_) => s.phase.Control? || s.phase.AuthDatabase? || s.phase.WipeStorage?
    case List(listed) => s.phase.Enumerate? && Listed(listed) == s.target.dos.Keys
    case ListFails => s.phase.Enumerate?
    case WipeNext(_) => s.phase.Wiping? && s.phase.next < |s.phase.orphans|
    case WipesEnd => s.phase.Wiping? && s.phase.next == |s.phase.orphans|
    case TaskEnds(worker, _) =>
      s.phase.Restoring? && worker in s.phase.pool.busy && s.phase.pool.busy[worker] < |s.phase.pool.results| &&
      s.phase.pool.busy[worker] < |EntriesOf(b, s.phase.stage)|
    case StageEnds => s.phase.Restoring? && Finished(s.phase.pool)
  }

  function Orphans(b: Backup, listed: seq<DoKey>): seq<DoKey> {
    if listed == [] then []
    else (if listed[0].name in BackupNames(b) then [] else [listed[0]]) + Orphans(b, listed[1..])
  }

  function Next(b: Backup, s: State, step: Step): State
    requires Enabled(b, s, step)
  {
    match step
    case Single(Applied) =>
      if s.phase.Control? then s.(target := s.target.(control := b.control), phase := AuthDatabase)
      else if s.phase.AuthDatabase? then s.(target := s.target.(auth := b.auth), phase := Enumerate)
      else s.(target := s.target.(storage := map[]), phase := StartStage(b, Uploads))
    case Single(Refused(_)) => s.(phase := Failed, anyFailure := true) // the run ends, so what is left does not matter
    case List(listed) => s.(phase := Wiping(Orphans(b, listed), 0, false))
    case ListFails => s.(phase := Failed, anyFailure := true)
    case WipeNext(call) =>
      var key := s.phase.orphans[s.phase.next];
      var item := DoItem(key, "");
      if call.Applied? then s.(target := Drop(s.target, item), phase := s.phase.(next := s.phase.next + 1))
      else s.(target := CallItem(s.target, item, call),
              phase := s.phase.(next := s.phase.next + 1, failed := true), anyFailure := true)
    case WipesEnd => if s.phase.failed then s.(phase := Failed) else s.(phase := StartStage(b, Shards))
    case TaskEnds(worker, call) =>
      var item := ItemOf(s.phase.stage, EntriesOf(b, s.phase.stage)[s.phase.pool.busy[worker]]);
      var outcome := if call.Applied? then Fulfilled(()) else Rejected("");
      State(CallItem(s.target, item, call), Restoring(s.phase.stage, Settle(s.phase.pool, worker, outcome)),
            s.anyFailure || !call.Applied?)
    case StageEnds =>
      if AnyRejected(s.phase.pool) then s.(phase := Failed) else s.(phase := AfterStage(b, s.phase.stage))
  }

  predicate IsBackupKey(b: Backup, key: DoKey) {
    key.name in NamesOf(if key.kind == Auth then b.shards else b.databases)
  }

  /** A Durable Object that shares its name, but not its type, with one in the backup: the orphan check
      compares names only, so nothing ever wipes or restores it. */
  predicate IsAlias(b: Backup, key: DoKey) {
    key.name in BackupNames(b) && !IsBackupKey(b, key)
  }

  ghost predicate AliasesKept(b: Backup, before: Target, t: Target) {
    forall key :: key in before.dos && IsAlias(b, key) ==> key in t.dos && t.dos[key] == before.dos[key]
  }

  ghost predicate NoOrphans(b: Backup, before: Target, t: Target) {
    forall key :: key in t.dos ==> key.name in BackupNames(b) && (key in before.dos || IsBackupKey(b, key))
  }

  /** `stage` is over when `current` runs. */
  predicate ComesBefore(stage: Stage, current: Stage) {
    match current
    case Shards => false
    case Databases => stage.Shards?
    case Namespaces => stage.Shards? || stage.Databases?
    case Uploads => !stage.Uploads?
  }

  ghost predicate StageInPlace(b: Backup, t: Target, stage: Stage) {
    forall i :: 0 <= i < |EntriesOf(b, stage)| ==> InPlace(t, ItemOf(stage, EntriesOf(b, stage)[i]))
  }

  ghost predicate EarlierInPlace(b: Backup, t: Target, current: Stage) {
    forall stage :: ComesBefore(stage, current) ==> StageInPlace(b, t, stage)
  }

  /** The pool of a stage, and that its fulfilled items are in place. */
  ghost predicate PoolTracks(b: Backup, t: Target, stage: Stage, p: Pool<()>) {
    && WorkerPool.Inv(p) && NoIdleWorker(p) && p.n == |EntriesOf(b, stage)| && p.workers == Min(LimitOf(stage), p.n)
    && forall i :: 0 <= i < p.n && p.results[i].Some? && p.results[i].value.Fulfilled? ==>
         InPlace(t, ItemOf(stage, EntriesOf(b, stage)[i]))
  }

  ghost predicate StorageOnlyFiles(b: Backup, t: Target) {
    forall name :: name in t.storage ==> name in NamesOf(EntriesOf(b, Uploads))
  }

  /** The run can no longer complete. */
  predicate Doomed(phase: Phase) {
    phase.Failed? || (phase.Wiping? && phase.failed) || (phase.Restoring? && AnyRejected(phase.pool))
  }

  ghost predicate Internals(b: Backup, t: Target) { t.control == b.control && t.auth == b.auth }

  ghost predicate PhaseInv(b: Backup, before: Target, t: Target, phase: Phase) {
    match phase
    case Control => t.dos == before.dos
    case AuthDatabase => t.dos == before.dos && t.control == b.control
    case Enumerate => t.dos == before.dos && Internals(b, t)
    case Wiping(orphans, next, failed) =>
      Internals(b, t) && next <= |orphans| &&
      (forall k :: 0 <= k < |orphans| ==> orphans[k].name !in BackupNames(b)) &&
      (!failed ==> forall key :: key in t.dos ==>
        key in before.dos && (key.name in BackupNames(b) || key in orphans[next..]))
    case Restoring(stage, p) =>
      Internals(b, t) && NoOrphans(b, before, t) && PoolTracks(b, t, stage, p) && EarlierInPlace(b, t, stage) &&
      (stage.Uploads? ==> b.files.Some? && StorageOnlyFiles(b, t))
    case WipeStorage => Internals(b, t) && NoOrphans(b, before, t) && EarlierInPlace(b, t, Uploads) && b.files.Some?
    case Complete =>
      Internals(b, t) && NoOrphans(b, before, t) && EarlierInPlace(b, t, Uploads) &&
      (b.files.Some? ==> StageInPlace(b, t, Uploads) && StorageOnlyFiles(b, t))
    case Failed => true
  }

  ghost predicate Inv(b: Backup, before: Target, s: State) {
    && (s.anyFailure <==> Doomed(s.phase))
    && AliasesKept(b, before, s.target)
    && PhaseInv(b, before, s.target, s.phase)
  }

  lemma {:induction false} OrphansAreListed(b: Backup, listed: seq<DoKey>)
    ensures forall key :: key in Orphans(b, listed) <==> key in listed && key.name !in BackupNames(b)
    decreases |listed|
  {
    if listed != [] { OrphansAreListed(b, listed[1..]); }
  }

  /** A call touches its own place only. */
  lemma CallKeepsOthers(t: Target, item: Item, call: Call, other: Item)
    requires InPlace(t, other)
    requires item.DoItem? && other.DoItem? ==> item.key != other.key
    requires item.NamespaceItem? && other.NamespaceItem? ==> item.name != other.name
    requires item.FileItem? && other.FileItem? ==> item.name != other.name
    ensures InPlace(CallItem(t, item, call), other)
  {
  }

  /** Items of the backup have places of their own. */
  lemma StageKeepsOthers(b: Backup, t: Target, stage: Stage, i: nat, call: Call, other: Stage, j: nat)
    requires WellFormed(b) && i < |EntriesOf(b, stage)| && j < |EntriesOf(b, other)| && (stage != other || i != j)
    requires InPlace(t, ItemOf(other, EntriesOf(b, other)[j]))
    ensures InPlace(CallItem(t, ItemOf(stage, EntriesOf(b, stage)[i]), call), ItemOf(other, EntriesOf(b, other)[j]))
  {
    CallKeepsOthers(t, ItemOf(stage, EntriesOf(b, stage)[i]), call, ItemOf(other, EntriesOf(b, other)[j]));
  }

  lemma TaskKeepsPool(b: Backup, t: Target, stage: Stage, p: Pool<()>, worker: nat, call: Call)
    requires WellFormed(b) && PoolTracks(b, t, stage, p) && worker in p.busy
    ensures var item := ItemOf(stage, EntriesOf(b, stage)[p.busy[worker]]);
            var outcome := if call.Applied? then Fulfilled(()) else Rejected("");
            PoolTracks(b, CallItem(t, item, call), stage, Settle(p, worker, outcome))
  {
    var i := p.busy[worker];
    var item := ItemOf(stage, EntriesOf(b, stage)[i]);
    var outcome := if call.Applied? then Fulfilled(()) else Rejected("");
    SettleKeepsInv(p, worker, outcome);
    var q := Settle(p, worker, outcome);
    forall j | 0 <= j < q.n && q.results[j].Some? && q.results[j].value.Fulfilled?
      ensures InPlace(CallItem(t, item, call), ItemOf(stage, EntriesOf(b, stage)[j]))
    {
      if j != i { StageKeepsOthers(b, t, stage, i, call, stage, j); }
    }
  }

  lemma TaskKeepsEarlier(b: Backup, t: Target, stage: Stage, i: nat, call: Call)
    requires WellFormed(b) && EarlierInPlace(b, t, stage) && i < |EntriesOf(b, stage)|
    ensures EarlierInPlace(b, CallItem(t, ItemOf(stage, EntriesOf(b, stage)[i]), call), stage)
  {
    forall other, j | ComesBefore(other, stage) && 0 <= j < |EntriesOf(b, other)|
      ensures InPlace(CallItem(t, ItemOf(stage, EntriesOf(b, stage)[i]), call), ItemOf(other, EntriesOf(b, other)[j]))
    {
      StageKeepsOthers(b, t, stage, i, call, other, j);
    }
  }

  /** A restoring call writes no alias and adds no orphan. */
  lemma TaskKeepsKeys(b: Backup, before: Target, t: Target, stage: Stage, i: nat, call: Call)
    requires i < |EntriesOf(b, stage)| && AliasesKept(b, before, t) && NoOrphans(b, before, t)
    ensures var after := CallItem(t, ItemOf(stage, EntriesOf(b, stage)[i]), call);
            AliasesKept(b, before, after) && NoOrphans(b, before, after)
  {
    var item := ItemOf(stage, EntriesOf(b, stage)[i]);
    if item.DoItem? {
      assert EntriesOf(b, stage)[i].name in NamesOf(EntriesOf(b, stage));
      assert IsBackupKey(b, item.key) && item.key.name in BackupNames(b);
      CallKeepsKeys(b, before, t, item, call);
    } else {
      assert CallItem(t, item, call).dos == t.dos;
    }
  }

  lemma CallKeepsKeys(b: Backup, before: Target, t: Target, item: Item, call: Call)
    requires item.DoItem? && IsBackupKey(b, item.key) && item.key.name in BackupNames(b)
    requires AliasesKept(b, before, t) && NoOrphans(b, before, t)
    ensures var after := CallItem(t, item, call); AliasesKept(b, before, after) && NoOrphans(b, before, after)
  {
    var after := CallItem(t, item, call);
    assert forall key :: key != item.key ==> (key in after.dos <==> key in t.dos);
    assert forall key :: key != item.key && key in t.dos ==> after.dos[key] == t.dos[key];
  }

  lemma TaskKeepsRest(b: Backup, t: Target, stage: Stage, i: nat, call: Call)
    requires i < |EntriesOf(b, stage)|
    ensures var after := CallItem(t, ItemOf(stage, EntriesOf(b, stage)[i]), call);
            after.control == t.control && after.auth == t.auth &&
            (stage.Uploads? && StorageOnlyFiles(b, t) ==> StorageOnlyFiles(b, after))
  {
    assert EntriesOf(b, stage)[i].name in NamesOf(EntriesOf(b, stage));
  }

  lemma TaskKeepsInv(b: Backup, before: Target, s: State, worker: nat, call: Call)
    requires WellFormed(b) && Inv(b, before, s) && Enabled(b, s, TaskEnds(worker, call))
    ensures Inv(b, before, Next(b, s, TaskEnds(worker, call)))
  {
    var stage, p := s.phase.stage, s.phase.pool;
    TaskKeepsPool(b, s.target, stage, p, worker, call);
    TaskKeepsEarlier(b, s.target, stage, p.busy[worker], call);
    TaskKeepsKeys(b, before, s.target, stage, p.busy[worker], call);
    TaskKeepsRest(b, s.target, stage, p.busy[worker], call);
    TaskKeepsDoom(p, worker, call);
  }

  lemma TaskKeepsDoom(p: Pool<()>, worker: nat, call: Call)
    requires WorkerPool.Inv(p) && NoIdleWorker(p) && worker in p.busy
    ensures var q := Settle(p, worker, if call.Applied? then Fulfilled(()) else Rejected(""));
            AnyRejected(q) <==> AnyRejected(p) || call.Refused?
  {
    var q := Settle(p, worker, if call.Applied? then Fulfilled(()) else Rejected(""));
    if AnyRejected(p) {
      var k :| 0 <= k < |p.results| && IsRejected(p.results[k]);
      assert IsRejected(q.results[k]);
    } else if call.Refused? {
      assert IsRejected(q.results[p.busy[worker]]);
    } else {
      assert forall k :: 0 <= k < |p.results| ==> !IsRejected(q.results[k]);
    }
  }

  lemma StageStarts(b: Backup, t: Target, stage: Stage)
    ensures PoolTracks(b, t, stage, Start(|EntriesOf(b, stage)|, LimitOf(stage)))
    ensures !AnyRejected(Start<()>(|EntriesOf(b, stage)|, LimitOf(stage)))
  {
    StartHolds<()>(|EntriesOf(b, stage)|, LimitOf(stage));
  }

  lemma FinishedStageIsInPlace(b: Backup, t: Target, stage: Stage, p: Pool<()>)
    requires PoolTracks(b, t, stage, p) && Finished(p) && !AnyRejected(p)
    ensures StageInPlace(b, t, stage)
  {
    FinishedIffAllSettled(p);
    forall i | 0 <= i < p.n
      ensures InPlace(t, ItemOf(stage, EntriesOf(b, stage)[i]))
    {
      assert p.results[i].Some? && !IsRejected(p.results[i]);
    }
  }

  lemma StageEndKeepsInv(b: Backup, before: Target, s: State)
    requires WellFormed(b) && Inv(b, before, s) && Enabled(b, s, StageEnds)
    ensures Inv(b, before, Next(b, s, StageEnds))
  {
    var stage, p := s.phase.stage, s.phase.pool;
    if !AnyRejected(p) {
      FinishedStageIsInPlace(b, s.target, stage, p);
      if stage.Shards? { StageStarts(b, s.target, Databases); }
      if stage.Databases? { StageStarts(b, s.target, Namespaces); }
    }
  }

  lemma WipeKeepsInv(b: Backup, before: Target, s: State, call: Call)
    requires Inv(b, before, s) && Enabled(b, s, WipeNext(call))
    ensures Inv(b, before, Next(b, s, WipeNext(call)))
  {
    var orphans, next := s.phase.orphans, s.phase.next;
    assert orphans[next].name !in BackupNames(b);
    assert orphans[next..] == [orphans[next]] + orphans[next + 1..];
  }

  lemma ListKeepsInv(b: Backup, before: Target, s: State, listed: seq<DoKey>)
    requires Inv(b, before, s) && Enabled(b, s, List(listed))
    ensures Inv(b, before, Next(b, s, List(listed)))
  {
    var orphans := Orphans(b, listed);
    OrphansAreListed(b, listed);
    assert orphans[0..] == orphans;
    forall key | key in s.target.dos
      ensures key in listed
    {
      assert key in Listed(listed);
    }
  }

  lemma StepKeepsInv(b: Backup, before: Target, s: State, step: Step)
    requires WellFormed(b) && Inv(b, before, s) && Enabled(b, s, step)
    ensures Inv(b, before, Next(b, s, step))
  {
    match step
    case Single(call) => if s.phase.WipeStorage? { StageStarts(b, s.target.(storage := map[]), Uploads); }
    case List(listed) => ListKeepsInv(b, before, s, listed);
    case ListFails =>
    case WipeNext(call) => WipeKeepsInv(b, before, s, call);
    case WipesEnd => StageStarts(b, s.target, Shards);
    case TaskEnds(worker, call) => TaskKeepsInv(b, before, s, worker, call);
    case StageEnds => StageEndKeepsInv(b, before, s);
  }

  ghost predicate IsRun(b: Backup, before: Target, states: seq<State>, steps: seq<Step>) {
    |states| == |steps| + 1 && states[0] == State(before, Control, false) &&
    forall k :: 0 <= k < |steps| ==> Enabled(b, states[k], steps[k]) && states[k + 1] == Next(b, states[k], steps[k])
  }

  lemma {:induction false} RunKeepsInv(b: Backup, before: Target, states: seq<State>, steps: seq<Step>, k: nat)
    requires WellFormed(b) && IsRun(b, before, states, steps) && k < |states|
    ensures Inv(b, before, states[k])
    decreases k
  {
    if k > 0 {
      RunKeepsInv(b, before, states, steps, k - 1);
      StepKeepsInv(b, before, states[k - 1], steps[k - 1]);
    }
  }

  ghost predicate SameAt(a: map<string, Tables>, b: map<string, Tables>, name: string) {
    (name in a <==> name in b) && (name in a ==> a[name] == b[name])
  }

  /** What the backup does not speak of stays: namespaces of other names, and storage when none is restored. */
  ghost predicate OthersKept(b: Backup, before: Target, t: Target) {
    (forall name :: name !in NamesOf(b.namespaces) ==> SameAt(t.namespaces, before.namespaces, name)) &&
    (b.files.None? ==> t.storage == before.storage)
  }

  lemma TaskKeepsOthers(b: Backup, before: Target, t: Target, stage: Stage, i: nat, call: Call)
    requires OthersKept(b, before, t) && i < |EntriesOf(b, stage)|
    ensures OthersKept(b, before, CallItem(t, ItemOf(stage, EntriesOf(b, stage)[i]), call))
  {
    assert EntriesOf(b, stage)[i].name in NamesOf(EntriesOf(b, stage));
  }

  lemma StepKeepsOthers(b: Backup, before: Target, s: State, step: Step)
    requires Inv(b, before, s) && Enabled(b, s, step) && OthersKept(b, before, s.target)
    ensures OthersKept(b, before, Next(b, s, step).target)
  {
    if step.TaskEnds? {
      TaskKeepsOthers(b, before, s.target, s.phase.stage, s.phase.pool.busy[step.worker], step.call);
    }
  }

  lemma {:induction false} RunKeepsOthers(b: Backup, before: Target, states: seq<State>, steps: seq<Step>, k: nat)
    requires WellFormed(b) && IsRun(b, before, states, steps) && k < |states|
    ensures OthersKept(b, before, states[k].target)
    decreases k
  {
    if k > 0 {
      RunKeepsOthers(b, before, states, steps, k - 1);
      RunKeepsInv(b, before, states, steps, k - 1);
      StepKeepsOthers(b, before, states[k - 1], steps[k - 1]);
    }
  }

  /** The backup holds this very object, an auth shard or a database. */
  ghost predicate HasObject(b: Backup, key: DoKey) {
    (exists i :: 0 <= i < |b.shards| && key == DoKey(Auth, b.shards[i].name)) ||
    (exists i :: 0 <= i < |b.databases| && key == DoKey(Database, b.databases[i].name))
  }

  /** The backup holds an object of this name, of either type. */
  ghost predicate HasName(b: Backup, name: string) {
    HasObject(b, DoKey(Auth, name)) || HasObject(b, DoKey(Database, name))
  }

  lemma ObjectsByName(b: Backup, key: DoKey)
    ensures IsBackupKey(b, key) <==> HasObject(b, key)
    ensures key.name in BackupNames(b) <==> HasName(b, key.name)
  {
    NameIsListed(b.shards, key.name);
    NameIsListed(b.databases, key.name);
  }

  lemma NameIsListed(entries: seq<Entry>, name: string)
    ensures name in NamesOf(entries) <==> exists i :: 0 <= i < |entries| && entries[i].name == name
  {
  }

  /** The internal databases and every Durable Object of the backup have their tables. */
  ghost predicate ObjectsRestored(b: Backup, t: Target) {
    && t.control == b.control && t.auth == b.auth
    && (forall i :: 0 <= i < |b.shards| ==>
          var key := DoKey(Auth, b.shards[i].name); key in t.dos && t.dos[key] == b.shards[i].tables)
    && (forall i :: 0 <= i < |b.databases| ==>
          var key := DoKey(Database, b.databases[i].name); key in t.dos && t.dos[key] == b.databases[i].tables)
  }

  /** Every namespace of the backup has its tables, and the others are as before. */
  ghost predicate NamespacesRestored(b: Backup, before: Target, t: Target) {
    && (forall i :: 0 <= i < |b.namespaces| ==>
          b.namespaces[i].name in t.namespaces && t.namespaces[b.namespaces[i].name] == b.namespaces[i].tables)
    && (forall name :: (forall i :: 0 <= i < |b.namespaces| ==> b.namespaces[i].name != name) ==>
          SameAt(t.namespaces, before.namespaces, name))
  }

  /** Storage holds just the backup's files, or is as before when the backup restores none. */
  ghost predicate StorageRestored(b: Backup, before: Target, t: Target) {
    match b.files
    case Some(files) =>
      (forall i :: 0 <= i < |files| ==> files[i].name in t.storage && t.storage[files[i].name] == files[i].tables) &&
      (forall name :: name in t.storage ==> exists i :: 0 <= i < |files| && files[i].name == name)
    case None => t.storage == before.storage
  }

  lemma ObjectsAreRestored(b: Backup, t: Target)
    requires Internals(b, t) && StageInPlace(b, t, Shards) && StageInPlace(b, t, Databases)
    ensures ObjectsRestored(b, t)
  {
    forall i | 0 <= i < |b.shards|
      ensures var key := DoKey(Auth, b.shards[i].name); key in t.dos && t.dos[key] == b.shards[i].tables
    {
      assert InPlace(t, ItemOf(Shards, EntriesOf(b, Shards)[i]));
    }
    forall i | 0 <= i < |b.databases|
      ensures var key := DoKey(Database, b.databases[i].name); key in t.dos && t.dos[key] == b.databases[i].tables
    {
      assert InPlace(t, ItemOf(Databases, EntriesOf(b, Databases)[i]));
    }
  }

  lemma NamespacesAreRestored(b: Backup, before: Target, t: Target)
    requires StageInPlace(b, t, Namespaces) && OthersKept(b, before, t)
    ensures NamespacesRestored(b, before, t)
  {
    forall i | 0 <= i < |b.namespaces|
      ensures b.namespaces[i].name in t.namespaces && t.namespaces[b.namespaces[i].name] == b.namespaces[i].tables
    {
      assert InPlace(t, ItemOf(Namespaces, EntriesOf(b, Namespaces)[i]));
    }
    forall name | forall i :: 0 <= i < |b.namespaces| ==> b.namespaces[i].name != name
      ensures SameAt(t.namespaces, before.namespaces, name)
    {
      NameIsListed(b.namespaces, name);
    }
  }

  lemma StorageIsRestored(b: Backup, before: Target, t: Target)
    requires b.files.Some? ==> StageInPlace(b, t, Uploads) && StorageOnlyFiles(b, t)
    requires OthersKept(b, before, t)
    ensures StorageRestored(b, before, t)
  {
    if b.files.Some? {
      var files := b.files.value;
      forall i | 0 <= i < |files|
        ensures files[i].name in t.storage && t.storage[files[i].name] == files[i].tables
      {
        assert InPlace(t, ItemOf(Uploads, EntriesOf(b, Uploads)[i]));
      }
      forall name | name in t.storage
        ensures exists i :: 0 <= i < |files| && files[i].name == name
      {
        NameIsListed(files, name);
      }
    }
  }

  /** From any target and in any completion order, a run that completes had no failed call, restored everything that
      the backup holds and nothing else, and left exactly its Durable Objects if and only if the target held no object
      with the name but not the type of one. */
  lemma CompleteMeansRestored(b: Backup, before: Target, states: seq<State>, steps: seq<Step>)
    requires WellFormed(b) && IsRun(b, before, states, steps) && states[|steps|].phase.Complete?
    ensures var t := states[|steps|].target;
            !states[|steps|].anyFailure &&
            ObjectsRestored(b, t) && NamespacesRestored(b, before, t) && StorageRestored(b, before, t) &&
            ((forall key :: key in t.dos <==> HasObject(b, key)) <==>
             (forall key :: key in before.dos && HasName(b, key.name) ==> HasObject(b, key)))
  {
    RunKeepsInv(b, before, states, steps, |steps|);
    RunKeepsOthers(b, before, states, steps, |steps|);
    var t := states[|steps|].target;
    assert StageInPlace(b, t, Shards) && StageInPlace(b, t, Databases) && StageInPlace(b, t, Namespaces);
    ObjectsAreRestored(b, t);
    NamespacesAreRestored(b, before, t);
    StorageIsRestored(b, before, t);
    ExactUnlessAlias(b, before, t);
  }

  lemma ExactUnlessAlias(b: Backup, before: Target, t: Target)
    requires StageInPlace(b, t, Shards) && StageInPlace(b, t, Databases)
    requires NoOrphans(b, before, t) && AliasesKept(b, before, t)
    ensures (forall key :: key in t.dos <==> HasObject(b, key)) <==>
            (forall key :: key in before.dos && HasName(b, key.name) ==> HasObject(b, key))
  {
    forall key
      ensures IsBackupKey(b, key) <==> HasObject(b, key)
      ensures key.name in BackupNames(b) <==> HasName(b, key.name)
    {
      ObjectsByName(b, key);
    }
    forall key | IsBackupKey(b, key)
      ensures key in t.dos
    {
      BackupKeyInPlace(b, t, key);
    }
  }

  lemma BackupKeyInPlace(b: Backup, t: Target, key: DoKey)
    requires StageInPlace(b, t, Shards) && StageInPlace(b, t, Databases) && IsBackupKey(b, key)
    ensures key in t.dos
  {
    var stage := if key.kind == Auth then Shards else Databases;
    var entries := EntriesOf(b, stage);
    var i :| 0 <= i < |entries| && entries[i].name == key.name;
    assert InPlace(t, ItemOf(stage, entries[i]));
  }

  /** Any failed call, wherever it happens, prevents completion for good. */
  lemma {:induction false} FailureIsFinal(b: Backup, before: Target, states: seq<State>, steps: seq<Step>, k: nat)
    requires WellFormed(b) && IsRun(b, before, states, steps) && k < |states| && states[k].anyFailure
    ensures !states[|steps|].phase.Complete?
    decreases |states| - k
  {
    if k < |steps| {
      assert states[k + 1] == Next(b, states[k], steps[k]);
      FailureIsFinal(b, before, states, steps, k + 1);
    } else {
      RunKeepsInv(b, before, states, steps, k);
    }
  }

  /** The most steps a run can still make from the start of a stage: a completion for each item, and the stages' ends. */
  function StepsFrom(b: Backup, stage: Stage): nat
    decreases match stage case Shards => 3 case Databases => 2 case Namespaces => 1 case Uploads => 0
  {
    |EntriesOf(b, stage)| + 1 +
    match stage
    case Shards => StepsFrom(b, Databases)
    case Databases => StepsFrom(b, Namespaces)
    case Namespaces => if b.files.Some? then 1 + StepsFrom(b, Uploads) else 0
    case Uploads => 0
  }

  /** The most steps a run can still make, when /list-dos lists at most `listing` objects. */
  function StepsLeft(b: Backup, phase: Phase, listing: nat): int {
    match phase
    case Control => 4 + listing + StepsFrom(b, Shards)
    case AuthDatabase => 3 + listing + StepsFrom(b, Shards)
    case Enumerate => 2 + listing + StepsFrom(b, Shards)
    case Wiping(orphans, next, _) => |orphans| - next + 1 + StepsFrom(b, Shards)
    case Restoring(stage, p) => StepsFrom(b, stage) - |p.settled|
    case WipeStorage => 1 + StepsFrom(b, Uploads)
    case Complete => 0
    case Failed => 0
  }

  /** The part of the invariant that counting steps needs. */
  ghost predicate Counted(b: Backup, phase: Phase) {
    (phase.Wiping? ==> phase.next <= |phase.orphans|) &&
    (phase.Restoring? ==> PoolCounted(phase.pool, |EntriesOf(b, phase.stage)|))
  }

  ghost predicate PoolCounted(p: Pool<()>, n: nat) {
    WorkerPool.Inv(p) && NoIdleWorker(p) && p.n == n && (n > 0 ==> p.workers > 0)
  }

  lemma InvIsCounted(b: Backup, before: Target, s: State)
    requires Inv(b, before, s)
    ensures Counted(b, s.phase)
  {
  }

  lemma CountedIsPositive(b: Backup, phase: Phase, listing: nat)
    requires Counted(b, phase)
    ensures StepsLeft(b, phase, listing) >= 0
  {
    if phase.Restoring? { FinishedIffAllSettled(phase.pool); }
  }

  lemma {:induction false} OrphansAreFewer(b: Backup, listed: seq<DoKey>)
    ensures |Orphans(b, listed)| <= |listed|
    decreases |listed|
  {
    if listed != [] { OrphansAreFewer(b, listed[1..]); }
  }

  lemma StartCost(b: Backup, stage: Stage, listing: nat)
    ensures StepsLeft(b, StartStage(b, stage), listing) == StepsFrom(b, stage)
  {
    StartHolds<()>(|EntriesOf(b, stage)|, LimitOf(stage));
  }

  lemma AfterStageCost(b: Backup, stage: Stage, listing: nat)
    ensures StepsLeft(b, AfterStage(b, stage), listing) + |EntriesOf(b, stage)| < StepsFrom(b, stage)
  {
    match stage
    case Shards => StartCost(b, Databases, listing);
    case Databases => StartCost(b, Namespaces, listing);
    case Namespaces =>
    case Uploads =>
  }

  lemma StageSpends(b: Backup, s: State, step: Step, listing: nat)
    requires Counted(b, s.phase) && Enabled(b, s, step) && s.phase.Restoring?
    ensures StepsLeft(b, Next(b, s, step).phase, listing) < StepsLeft(b, s.phase, listing)
  {
    var stage, p := s.phase.stage, s.phase.pool;
    FinishedIffAllSettled(p);
    if step.TaskEnds? {
      SettleKeepsInv(p, step.worker, if step.call.Applied? then Fulfilled(()) else Rejected(""));
    } else {
      AfterStageCost(b, stage, listing);
      PositiveFrom(b, stage);
    }
  }

  lemma PositiveFrom(b: Backup, stage: Stage)
    ensures StepsFrom(b, stage) > |EntriesOf(b, stage)|
  {
  }

  /** Every step, failed or not, brings the run closer to its end. */
  lemma StepSpends(b: Backup, s: State, step: Step, listing: nat)
    requires Counted(b, s.phase) && Enabled(b, s, step) && (step.List? ==> |step.listed| <= listing)
    ensures StepsLeft(b, Next(b, s, step).phase, listing) < StepsLeft(b, s.phase, listing)
  {
    PositiveFrom(b, Shards);
    PositiveFrom(b, Uploads);
    match step
    case Single(call) => StartCost(b, Uploads, listing);
    case List(listed) => OrphansAreFewer(b, listed);
    case ListFails =>
    case WipeNext(call) =>
    case WipesEnd => StartCost(b, Shards, listing);
    case TaskEnds(worker, call) => StageSpends(b, s, step, listing);
    case StageEnds => StageSpends(b, s, step, listing);
  }

  lemma {:induction false} RunSpends(b: Backup, before: Target, states: seq<State>, steps: seq<Step>, listing: nat, k: nat)
    requires WellFormed(b) && IsRun(b, before, states, steps) && k <= |steps|
    requires forall j :: 0 <= j < |steps| && steps[j].List? ==> |steps[j].listed| <= listing
    ensures StepsLeft(b, states[k].phase, listing) + k <= StepsLeft(b, Control, listing)
    decreases k
  {
    if k > 0 {
      RunSpends(b, before, states, steps, listing, k - 1);
      RunKeepsInv(b, before, states, steps, k - 1);
      InvIsCounted(b, before, states[k - 1]);
      StepSpends(b, states[k - 1], steps[k - 1], listing);
    }
  }

  /** Every run ends: one step for each call, and nine for the phases. */
  lemma RunIsBounded(b: Backup, before: Target, states: seq<State>, steps: seq<Step>, listing: nat)
    requires WellFormed(b) && IsRun(b, before, states, steps)
    requires forall k :: 0 <= k < |steps| && steps[k].List? ==> |steps[k].listed| <= listing
    ensures |steps| <= 9 + listing + |b.shards| + |b.databases| + |b.namespaces| +
                       if b.files.Some? then |b.files.value| else 0
  {
    RunSpends(b, before, states, steps, listing, |steps|);
    RunKeepsInv(b, before, states, steps, |steps|);
    InvIsCounted(b, before, states[|steps|]);
    CountedIsPositive(b, states[|steps|].phase, listing);
    assert StepsFrom(b, Shards) <= 5 + |b.shards| + |b.databases| + |b.namespaces| + |EntriesOf(b, Uploads)| by {
      assert StepsFrom(b, Uploads) == |EntriesOf(b, Uploads)| + 1;
      assert StepsFrom(b, Namespaces) <= |b.namespaces| + 2 + StepsFrom(b, Uploads);
      assert StepsFrom(b, Databases) == |b.databases| + 1 + StepsFrom(b, Namespaces);
    }
  }

  lemma {:induction false} ListAll(keys: set<DoKey>) returns (listed: seq<DoKey>)
    ensures |listed| == |keys| && Listed(listed) == keys
    decreases |keys|
  {
    if keys == {} {
      listed := [];
    } else {
      var key := SomeKey(keys);
      var others := ListAll(keys - {key});
      listed := others + [key];
      ListOneMore(others, key);
    }
  }

  lemma SomeKey(keys: set<DoKey>) returns (key: DoKey)
    requires keys != {}
    ensures key in keys
  {
    if forall k :: k !in keys { NoElements(keys); }
    key :| key in keys;
  }

  lemma ListOneMore(others: seq<DoKey>, key: DoKey)
    ensures Listed(others + [key]) == Listed(others) + {key}
  {
    var listed := others + [key];
    forall k: DoKey
      ensures k in Listed(listed) <==> k in Listed(others) || k == key
    {
      assert k in Listed(listed) <==> k in listed;
      assert k in Listed(others) <==> k in others;
    }
  }

  predicate Over(phase: Phase) { phase.Complete? || phase.Failed? }

  /** While no call has failed, some call can succeed, and the run is no more doomed after it. */
  lemma CanSucceed(b: Backup, s: State) returns (step: Step)
    requires Counted(b, s.phase) && !Over(s.phase) && !Doomed(s.phase)
    ensures Enabled(b, s, step) && !Doomed(Next(b, s, step).phase)
    ensures step.List? ==> |step.listed| == |s.target.dos.Keys|
  {
    match s.phase
    case Control => step := Single(Applied);
    case AuthDatabase => step := Single(Applied);
    case WipeStorage =>
      step := Single(Applied);
      StageStarts(b, s.target.(storage := map[]), Uploads);
    case Enumerate =>
      var listed := ListAll(s.target.dos.Keys);
      step := List(listed);
    case Wiping(orphans, next, failed) =>
      step := if next < |orphans| then WipeNext(Applied) else WipesEnd;
      StageStarts(b, s.target, Shards);
    case Restoring(stage, p) => step := CanSucceedInStage(b, s);
  }

  lemma CanSucceedInStage(b: Backup, s: State) returns (step: Step)
    requires Counted(b, s.phase) && s.phase.Restoring? && !Doomed(s.phase)
    ensures Enabled(b, s, step) && !Doomed(Next(b, s, step).phase) && !step.List?
  {
    var p := s.phase.pool;
    if Finished(p) {
      step := StageEnds;
      if s.phase.stage.Shards? { StageStarts(b, s.target, Databases); }
      if s.phase.stage.Databases? { StageStarts(b, s.target, Namespaces); }
    } else {
      NonEmptyMap(p.busy);
      var worker :| worker in p.busy;
      step := TaskEnds(worker, Applied);
      assert !AnyRejected(Settle(p, worker, Fulfilled(())));
    }
  }

  lemma ExtendRun(b: Backup, before: Target, states: seq<State>, steps: seq<Step>, step: Step)
    requires IsRun(b, before, states, steps) && Enabled(b, states[|steps|], step)
    ensures IsRun(b, before, states + [Next(b, states[|steps|], step)], steps + [step])
  {
  }

  /** A run in which no call has failed can always be continued to completion. */
  lemma {:induction false} CanComplete(b: Backup, before: Target, states: seq<State>, steps: seq<Step>)
    returns (allStates: seq<State>, allSteps: seq<Step>)
    requires WellFormed(b) && IsRun(b, before, states, steps) && !states[|steps|].anyFailure
    ensures IsRun(b, before, allStates, allSteps) && steps <= allSteps && allStates[|allSteps|].phase.Complete?
    decreases StepsLeft(b, states[|steps|].phase, |before.dos.Keys|)
  {
    var s := states[|steps|];
    RunKeepsInv(b, before, states, steps, |steps|);
    if Over(s.phase) {
      allStates, allSteps := states, steps;
    } else {
      InvIsCounted(b, before, s);
      var step := CanSucceed(b, s);
      if step.List? { ListsBefore(b, before, s); }
      StepSpends(b, s, step, |before.dos.Keys|);
      CountedIsPositive(b, s.phase, |before.dos.Keys|);
      ExtendRun(b, before, states, steps, step);
      StepKeepsInv(b, before, s, step);
      allStates, allSteps := CanComplete(b, before, states + [Next(b, s, step)], steps + [step]);
    }
  }

  lemma ListsBefore(b: Backup, before: Target, s: State)
    requires Inv(b, before, s) && s.phase.Enumerate?
    ensures s.target.dos == before.dos
  {
  }

  /** So completion does not mean that only the backup's objects are left: from every target with an alias some run
      completes, and the alias is still there. */
  lemma AliasSurvives(b: Backup, before: Target, key: DoKey) returns (states: seq<State>, steps: seq<Step>)
    requires WellFormed(b) && key in before.dos && IsAlias(b, key)
    ensures IsRun(b, before, states, steps) && states[|steps|].phase.Complete?
    ensures !IsBackupKey(b, key) && key in states[|steps|].target.dos
    ensures states[|steps|].target.dos[key] == before.dos[key]
  {
    states, steps := CanComplete(b, before, [State(before, Control, false)], []);
    RunKeepsInv(b, before, states, steps, |steps|);
  }

  /** A backup of one database object and a target holding an auth object of the same name are such a case. */
  lemma AliasExists(t: Target, name: string, tables: Tables)
    requires t.dos == map[DoKey(Auth, name) := tables]
    ensures var b := Backup(t.control, t.auth, [], [Entry(name, tables)], [], None);
            WellFormed(b) && DoKey(Auth, name) in t.dos && IsAlias(b, DoKey(Auth, name))
  {
    var b := Backup(t.control, t.auth, [], [Entry(name, tables)], [], None);
    assert b.databases[0].name in NamesOf(b.databases);
  }

  /** At most ten objects are restored at a time, four namespaces, and five files. */
  lemma StagesAreThrottled(b: Backup, before: Target, states: seq<State>, steps: seq<Step>, k: nat)
    requires WellFormed(b) && IsRun(b, before, states, steps) && k < |states| && states[k].phase.Restoring?
    ensures |states[k].phase.pool.busy| <= match states[k].phase.stage
                                            case Shards => 10
                                            case Databases => 10
                                            case Namespaces => 4
                                            case Uploads => 5
  {
    RunKeepsInv(b, before, states, steps, k);
    InFlightIsBounded(states[k].phase.pool);
  }
}
