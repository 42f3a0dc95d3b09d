/** What the sealed shapes are for: an abstract executor with snapshots and first-writer-wins commits.
    The executor is an assumption; the validator's write sets are what make it safe. */
module CommitModel {
  import opened Common
  import opened Transact

  datatype Key = Key(table: string, id: string)

  type Rows = map<Key, Value>

  /** The row that an operation writes, when it names one. */
  function WrittenKey(o: Operation): Option<Key> {
    if !o.table.Str? then None
    else if IsOp(o, "insert") then
      if o.data.Obj? && FieldOf(o.data.fields, "id").Str? then Some(Key(o.table.s, FieldOf(o.data.fields, "id").s)) else None
    else if (IsOp(o, "update") || IsOp(o, "delete")) && o.id.Str? then Some(Key(o.table.s, o.id.s))
    else None
  }

  predicate Writes(ops: seq<Operation>, k: Key) {
    exists i :: 0 <= i < |ops| && WrittenKey(ops[i]) == Some(k)
  }

  /** The key that a negative expectation relies on: its own missing row, or its fence row. */
  predicate ReliesOn(ops: seq<Operation>, index: nat, k: Key)
    requires index < |ops|
  {
    var o := ops[index];
    IsNegative(o) &&
    ((o.table == Str(k.table) && o.id == Str(k.id) && ExactIdSelfSealingInsert(ops, o)) ||
     (ParsedFence(o.fencedBy).Some? && ParsedFence(o.fencedBy).value.table == k.table &&
      ParsedFence(o.fencedBy).value.id == k.id && ActualChangingRevisionFence(ops, index, o.fencedBy)))
  }

  lemma ReliedKeyIsWritten(ops: seq<Operation>, index: nat, k: Key)
    requires index < |ops| && ReliesOn(ops, index, k)
    ensures Writes(ops, k)
  {
    var o := ops[index];
    if o.table == Str(k.table) && o.id == Str(k.id) && ExactIdSelfSealingInsert(ops, o) {
      var i :| 0 <= i < |ops| && InsertsRow(ops[i], o.table, o.id);
      assert WrittenKey(ops[i]) == Some(k);
    } else {
      var fence := ParsedFence(o.fencedBy).value;
      var expected := EqualityValue(FindGuard(ops[..index], fence).value, fence.field);
      var i :| 0 <= i < index && ChangesRevision(ops[..index][i], fence, expected);
      assert WrittenKey(ops[i]) == Some(k);
    }
  }

  lemma WritersWrite(ops: seq<Operation>)
    ensures (exists k :: Writes(ops, k)) ==> WritesSomething(ops)
  {
    if k :| Writes(ops, k) {
      var i :| 0 <= i < |ops| && WrittenKey(ops[i]) == Some(k);
      assert ops[i].op == Str("insert") || ops[i].op == Str("update") || ops[i].op == Str("delete");
    }
  }

  /** Every accepted transaction that inserts, updates or deletes anything, one that writes some key in particular,
      has for each expectation of absence a written key that the expectation relies on. */
  lemma AcceptedIsCovered(ops: seq<Operation>, index: nat) returns (k: Key)
    requires Accepted(ops) && index < |ops| && ExpectsAbsence(ops[index])
    requires WritesSomething(ops) || exists written :: Writes(ops, written)
    ensures ReliesOn(ops, index, k) && Writes(ops, k)
  {
    var o := ops[index];
    WritersWrite(ops);
    AcceptedSpelledOut(ops);
    SealedSpelledOut(ops, index);
    if ExactIdSelfSealingInsert(ops, o) {
      k := Key(o.table.s, o.id.s);
    } else {
      var fence := ParsedFence(o.fencedBy).value;
      k := Key(fence.table, fence.id);
    }
    ReliedKeyIsWritten(ops, index, k);
  }

  datatype Txn = Txn(ops: seq<Operation>, snapshot: nat, commit: Option<nat>)

  /** Committed states so far, the version that last wrote each key, and all transactions begun. */
  datatype Store = Store(history: seq<Rows>, lastWrite: map<Key, nat>, txns: seq<Txn>)

  datatype Step = Begin(ops: seq<Operation>) | Commit(txn: nat, written: set<Key>, rows: Rows)

  function Version(s: Store): int { |s.history| - 1 }

  function LastWrite(s: Store, k: Key): nat {
    if k in s.lastWrite then s.lastWrite[k] else 0
  }

  predicate SameRow(a: Rows, b: Rows, k: Key) {
    (k in a <==> k in b) && (k in a ==> a[k] == b[k])
  }

  /** A negative expectation of one row by its id alone. */
  predicate ExpectsMissing(o: Operation, k: Key) {
    IsNegative(o) && o.table == Str(k.table) && o.id == Str(k.id) && o.where == Undefined
  }

  /** The expectations of missing rows hold in the transaction's snapshot. */
  ghost predicate ChecksPass(ops: seq<Operation>, rows: Rows) {
    forall i, k :: 0 <= i < |ops| && ExpectsMissing(ops[i], k) ==> k !in rows
  }

  /** First writer wins: nothing the transaction writes was written after its snapshot. */
  ghost predicate CanCommit(s: Store, i: nat, written: set<Key>)
    requires i < |s.txns| && 0 <= s.txns[i].snapshot < |s.history|
  {
    s.txns[i].commit.None? && ChecksPass(s.txns[i].ops, s.history[s.txns[i].snapshot]) &&
    (forall k :: Writes(s.txns[i].ops, k) ==> k in written) &&
    forall k :: k in written ==> LastWrite(s, k) <= s.txns[i].snapshot
  }

  ghost predicate Next(s: Store, step: Step, s': Store) {
    s.history != [] &&
    match step
    case Begin(ops) =>
      Accepted(ops) && s' == s.(txns := s.txns + [Txn(ops, Version(s), None)])
    case Commit(i, written, rows) =>
      i < |s.txns| && s.txns[i].snapshot < |s.history| && CanCommit(s, i, written) &&
      (forall k :: k !in written ==> SameRow(s.history[Version(s)], rows, k)) &&
      s' == Store(s.history + [rows], s.lastWrite + map k | k in written :: |s.history|,
                  s.txns[i := s.txns[i].(commit := Some(|s.history|))])
  }

  ghost predicate Init(s: Store) {
    |s.history| == 1 && s.lastWrite == map[] && s.txns == []
  }

  /** A key not written since a version still has that version's row. */
  ghost predicate RowsStable(s: Store) {
    forall v, k :: 0 <= v < |s.history| && LastWrite(s, k) <= v ==> SameRow(s.history[v], s.history[Version(s)], k)
  }

  ghost predicate Overlap(a: Txn, b: Txn)
    requires a.commit.Some? && b.commit.Some?
  {
    a.snapshot < b.commit.value && b.snapshot < a.commit.value
  }

  ghost predicate TxnsOrderly(s: Store) {
    && (forall t :: t in s.txns ==> t.snapshot < |s.history| && Accepted(t.ops))
    && (forall t :: t in s.txns && t.commit.Some? ==> t.snapshot < t.commit.value < |s.history|)
    && (forall t, k :: t in s.txns && t.commit.Some? && Writes(t.ops, k) ==> LastWrite(s, k) >= t.commit.value)
  }

  ghost predicate WritersSerial(s: Store) {
    forall i, j, k | 0 <= i < j < |s.txns| && s.txns[i].commit.Some? && s.txns[j].commit.Some? ::
      Writes(s.txns[i].ops, k) && Writes(s.txns[j].ops, k) ==> !Overlap(s.txns[i], s.txns[j])
  }

  ghost predicate Inv(s: Store) {
    s.history != [] && (forall k :: k in s.lastWrite ==> s.lastWrite[k] < |s.history|) &&
    RowsStable(s) && TxnsOrderly(s) && WritersSerial(s)
  }

  lemma LastWriteAfter(s: Store, i: nat, written: set<Key>, rows: Rows, s': Store, k: Key)
    requires Next(s, Commit(i, written, rows), s')
    ensures LastWrite(s', k) == if k in written then |s.history| else LastWrite(s, k)
  {
  }

  lemma RowsStayStable(s: Store, i: nat, written: set<Key>, rows: Rows, s': Store)
    requires Inv(s) && Next(s, Commit(i, written, rows), s')
    ensures RowsStable(s')
  {
    forall v, k | 0 <= v < |s'.history| && LastWrite(s', k) <= v
      ensures SameRow(s'.history[v], s'.history[Version(s')], k)
    {
      LastWriteAfter(s, i, written, rows, s', k);
      if v < |s.history| {
        assert SameRow(s.history[v], s.history[Version(s)], k);
      }
    }
  }

  lemma WritersStaySerial(s: Store, i: nat, written: set<Key>, rows: Rows, s': Store)
    requires Inv(s) && Next(s, Commit(i, written, rows), s')
    ensures WritersSerial(s')
  {
    var t := s.txns[i];
    forall j, k | 0 <= j < |s.txns| && j != i && s.txns[j].commit.Some? && Writes(s.txns[j].ops, k) && Writes(t.ops, k)
      ensures !Overlap(s'.txns[i], s'.txns[j]) && !Overlap(s'.txns[j], s'.txns[i])
    {
      assert LastWrite(s, k) <= t.snapshot;
    }
  }

  lemma TxnsStayOrderly(s: Store, i: nat, written: set<Key>, rows: Rows, s': Store)
    requires Inv(s) && Next(s, Commit(i, written, rows), s')
    ensures TxnsOrderly(s')
  {
    forall t | t in s'.txns
      ensures t == s'.txns[i] || t in s.txns
    {
    }
    forall t, k | t in s'.txns && t.commit.Some? && Writes(t.ops, k)
      ensures LastWrite(s', k) >= t.commit.value
    {
      LastWriteAfter(s, i, written, rows, s', k);
      if t == s'.txns[i] { assert Writes(s.txns[i].ops, k); }
    }
  }

  lemma BeginKeepsInv(s: Store, ops: seq<Operation>, s': Store)
    requires Inv(s) && Next(s, Begin(ops), s')
    ensures Inv(s')
  {
    assert forall k :: LastWrite(s', k) == LastWrite(s, k);
  }

  lemma StepKeepsInv(s: Store, step: Step, s': Store)
    requires Inv(s) && Next(s, step, s')
    ensures Inv(s')
  {
    match step
    case Begin(ops) => BeginKeepsInv(s, ops, s');
    case Commit(i, written, rows) =>
      RowsStayStable(s, i, written, rows, s');
      WritersStaySerial(s, i, written, rows, s');
      TxnsStayOrderly(s, i, written, rows, s');
  }

  ghost predicate IsRun(states: seq<Store>, steps: seq<Step>) {
    |states| == |steps| + 1 && Init(states[0]) &&
    forall n :: 0 <= n < |steps| ==> Next(states[n], steps[n], states[n + 1])
  }

  lemma {:induction false} RunKeepsInv(states: seq<Store>, steps: seq<Step>, n: nat)
    requires IsRun(states, steps) && n < |states|
    ensures Inv(states[n])
    decreases n
  {
    if n > 0 {
      RunKeepsInv(states, steps, n - 1);
      StepKeepsInv(states[n - 1], steps[n - 1], states[n]);
    }
  }

  /** In every run, two overlapping accepted transactions that rely on the same id or fence never both commit. */
  lemma OverlappingReliersNeverBothCommit(states: seq<Store>, steps: seq<Step>, n: nat,
                                          i: nat, j: nat, p: nat, q: nat, k: Key)
    requires IsRun(states, steps) && n < |states| && i < j < |states[n].txns|
    requires p < |states[n].txns[i].ops| && ReliesOn(states[n].txns[i].ops, p, k)
    requires q < |states[n].txns[j].ops| && ReliesOn(states[n].txns[j].ops, q, k)
    ensures var a, b := states[n].txns[i], states[n].txns[j];
            !(a.commit.Some? && b.commit.Some? && Overlap(a, b))
  {
    RunKeepsInv(states, steps, n);
    ReliedKeyIsWritten(states[n].txns[i].ops, p, k);
    ReliedKeyIsWritten(states[n].txns[j].ops, q, k);
  }

  /** Step `n` commits a transaction whose operation `p` is a negative expectation relying on `k`. */
  ghost predicate CommitsRelier(states: seq<Store>, steps: seq<Step>, n: nat, p: nat, k: Key) {
    IsRun(states, steps) && n < |steps| && steps[n].Commit? && steps[n].txn < |states[n].txns| &&
    var t := states[n].txns[steps[n].txn];
    p < |t.ops| && ReliesOn(t.ops, p, k)
  }

  /** No phantom: when a transaction with an exact-id seal commits, the row it expected missing is missing
      then as well, not only in its snapshot. */
  lemma ExpectedMissingAtCommit(states: seq<Store>, steps: seq<Step>, n: nat, p: nat, k: Key)
    requires CommitsRelier(states, steps, n, p, k)
    requires ExpectsMissing(states[n].txns[steps[n].txn].ops[p], k)
    ensures states[n].history != [] && k !in states[n].history[Version(states[n])]
  {
    ReliedRowUnmovedAtCommit(states, steps, n, p, k);
    assert Next(states[n], steps[n], states[n + 1]);
  }

  /** The row relied on, a fence row in particular, is at commit still the row of the snapshot. */
  lemma ReliedRowUnmovedAtCommit(states: seq<Store>, steps: seq<Step>, n: nat, p: nat, k: Key)
    requires CommitsRelier(states, steps, n, p, k)
    ensures var s := states[n]; var t := s.txns[steps[n].txn];
            t.snapshot < |s.history| && SameRow(s.history[t.snapshot], s.history[Version(s)], k)
  {
    RunKeepsInv(states, steps, n);
    var s := states[n];
    var t := s.txns[steps[n].txn];
    ReliedKeyIsWritten(t.ops, p, k);
    assert Next(s, steps[n], states[n + 1]);
    assert LastWrite(s, k) <= t.snapshot;
  }

  /** Rows by key that an expectation with a condition looks for. */
  type Selection = iset<(Key, Value)>

  ghost predicate NoneSelected(rows: Rows, selected: Selection) {
    forall k :: k in rows ==> (k, rows[k]) !in selected
  }

  /** The discipline that a fence stands for: a commit after which some row is selected, and none was before, has
      written the fence row. */
  ghost predicate FenceKept(s: Store, step: Step, fence: Key, selected: Selection) {
    s.history != [] && step.Commit? &&
    NoneSelected(s.history[Version(s)], selected) && !NoneSelected(step.rows, selected) ==>
      fence in step.written
  }

  /** A version without selected rows that is no older than the last write of the fence row speaks for the present. */
  ghost predicate FenceSpeaks(s: Store, fence: Key, selected: Selection) {
    s.history != [] &&
    forall v :: 0 <= v < |s.history| && LastWrite(s, fence) <= v && NoneSelected(s.history[v], selected) ==>
      NoneSelected(s.history[Version(s)], selected)
  }

  lemma FenceStillSpeaks(s: Store, step: Step, s': Store, fence: Key, selected: Selection)
    requires FenceSpeaks(s, fence, selected) && Next(s, step, s') && FenceKept(s, step, fence, selected)
    ensures FenceSpeaks(s', fence, selected)
  {
    if step.Commit? {
      LastWriteAfter(s, step.txn, step.written, step.rows, s', fence);
      forall v | 0 <= v < |s.history| && LastWrite(s', fence) <= v && NoneSelected(s'.history[v], selected)
        ensures NoneSelected(s'.history[Version(s')], selected)
      {
        assert s'.history[v] == s.history[v] && fence !in step.written;
      }
    }
  }

  lemma {:induction false} FenceSpeaksInRun(states: seq<Store>, steps: seq<Step>, n: nat, fence: Key, selected: Selection)
    requires IsRun(states, steps) && n < |states|
    requires forall m :: 0 <= m < n ==> FenceKept(states[m], steps[m], fence, selected)
    ensures FenceSpeaks(states[n], fence, selected)
    decreases n
  {
    if n > 0 {
      FenceSpeaksInRun(states, steps, n - 1, fence, selected);
      assert Next(states[n - 1], steps[n - 1], states[n]);
      FenceStillSpeaks(states[n - 1], steps[n - 1], states[n], fence, selected);
    }
  }

  /** What a fence is for: if every commit that makes a row match an expectation's condition writes the fence row, an
      expectation relying on the fence that held in the snapshot still holds when its transaction commits. */
  lemma FencedExpectationHoldsAtCommit(states: seq<Store>, steps: seq<Step>, n: nat, p: nat, fence: Key, selected: Selection)
    requires CommitsRelier(states, steps, n, p, fence)
    requires forall m :: 0 <= m < n ==> FenceKept(states[m], steps[m], fence, selected)
    requires var s := states[n]; var t := s.txns[steps[n].txn];
             t.snapshot < |s.history| ==> NoneSelected(s.history[t.snapshot], selected)
    ensures states[n].history != [] && NoneSelected(states[n].history[Version(states[n])], selected)
  {
    var s := states[n];
    var t := s.txns[steps[n].txn];
    ReliedKeyIsWritten(t.ops, p, fence);
    assert Next(s, steps[n], states[n + 1]);
    assert LastWrite(s, fence) <= t.snapshot;
    FenceSpeaksInRun(states, steps, n, fence, selected);
  }
}
