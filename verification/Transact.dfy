/** The transaction-shape validator of transact.ts: which negative expectations are sealed. */
module Transact {
  import opened Common

  /** JavaScript numbers up to Object.is, which tells -0 from 0 and identifies NaN with itself. */
  datatype Num = Fin(value: real) | NegZero | NaN | PosInf | NegInf

  /** Values as they arrive from JSON.parse or a caller. */
  datatype Value =
    | Undefined
    | Null
    | Bool(b: bool)
    | Number(n: Num)
    | Str(s: string)
    | Arr(items: seq<Value>)
    | Obj(fields: map<string, Value>)

  datatype Operation = Operation(
    table: Value, op: Value, id: Value, data: Value, where: Value, existence: Value, fencedBy: Value)

  datatype Fence = Fence(table: string, id: string, field: string)

  function FieldOf(o: map<string, Value>, name: string): Value {
    if name in o then o[name] else Undefined
  }

  predicate IsRevisionScalar(v: Value) {
    v.Null? || v.Str? || v.Bool? || (v.Number? && (v.n.Fin? || v.n.NegZero?))
  }

  predicate IsOp(o: Operation, name: string) { o.op == Str(name) }

  predicate IsWrite(o: Operation) {
    IsOp(o, "insert") || IsOp(o, "update") || IsOp(o, "delete")
  }

  predicate IsNegative(o: Operation) {
    IsOp(o, "expect") && o.existence == Bool(false)
  }

  predicate InsertsRow(o: Operation, table: Value, id: Value) {
    IsOp(o, "insert") && o.table == table && o.data.Obj? && FieldOf(o.data.fields, "id") == id
  }

  predicate ExactIdSelfSealingInsert(ops: seq<Operation>, negative: Operation) {
    negative.table.Str? && negative.id.Str? && negative.id.s != "" &&
    exists i :: 0 <= i < |ops| && InsertsRow(ops[i], negative.table, negative.id)
  }

  function ParsedFence(v: Value): Option<Fence> {
    if !v.Obj? then None
    else
      var table, id, field := FieldOf(v.fields, "table"), FieldOf(v.fields, "id"), FieldOf(v.fields, "field");
      if !table.Str? || table.s == "" || !id.Str? || id.s == "" || !field.Str? || field.s == "" || field.s == "id"
      then None
      else Some(Fence(table.s, id.s, field.s))
  }

  predicate IsEquality(condition: Value, field: string) {
    condition.Arr? && |condition.items| == 3 && condition.items[0] == Str(field) && condition.items[1] == Str("==")
  }

  /** The value of the first `field == value` condition. */
  function FirstEquality(conditions: seq<Value>, field: string): Value {
    if conditions == [] then Undefined
    else if IsEquality(conditions[0], field) then conditions[0].items[2]
    else FirstEquality(conditions[1..], field)
  }

  function EqualityValue(o: Operation, field: string): Value {
    if o.where.Arr? then FirstEquality(o.where.items, field) else Undefined
  }

  method FindEqualityValue(o: Operation, field: string) returns (v: Value)
    ensures v == EqualityValue(o, field)
  {
    if !o.where.Arr? {
      return Undefined;
    }
    var i := 0;
    while i < |o.where.items|
      invariant 0 <= i <= |o.where.items|
      invariant FirstEquality(o.where.items, field) == FirstEquality(o.where.items[i..], field)
    {
      var condition := o.where.items[i];
      if condition.Arr? && |condition.items| == 3 && condition.items[0] == Str(field) && condition.items[1] == Str("==") {
        return condition.items[2];
      }
      i := i + 1;
    }
    return Undefined;
  }

  /** A positive expectation that pins the fence row's revision to a scalar. */
  predicate IsGuard(o: Operation, fence: Fence) {
    IsOp(o, "expect") && o.existence == Bool(true) && o.table == Str(fence.table) && o.id == Str(fence.id) &&
    IsRevisionScalar(EqualityValue(o, fence.field))
  }

  /** An update of the fence row that sets its revision to a scalar. */
  predicate SetsRevision(o: Operation, fence: Fence) {
    IsOp(o, "update") && o.table == Str(fence.table) && o.id == Str(fence.id) &&
    o.data.Obj? && fence.field in o.data.fields && IsRevisionScalar(o.data.fields[fence.field])
  }

  /** ... and to something other than `expected`, in the sense of Object.is. */
  predicate ChangesRevision(o: Operation, fence: Fence, expected: Value) {
    SetsRevision(o, fence) && o.data.fields[fence.field] != expected
  }

  function FindGuard(preceding: seq<Operation>, fence: Fence): (g: Option<Operation>)
    ensures g.Some? ==> g.value in preceding && IsGuard(g.value, fence)
    ensures g.None? <==> forall i :: 0 <= i < |preceding| ==> !IsGuard(preceding[i], fence)
  {
    if preceding == [] then None
    else if IsGuard(preceding[0], fence) then Some(preceding[0])
    else
      var g := FindGuard(preceding[1..], fence);
      assert g.None? ==> forall i :: 1 <= i < |preceding| ==> preceding[i] == preceding[1..][i - 1];
      g
  }

  /** The first guard pins the revision, and some preceding update changes it. */
  predicate FenceHolds(preceding: seq<Operation>, fence: Fence) {
    var guard := FindGuard(preceding, fence);
    guard.Some? &&
    exists i :: 0 <= i < |preceding| && ChangesRevision(preceding[i], fence, EqualityValue(guard.value, fence.field))
  }

  predicate ActualChangingRevisionFence(ops: seq<Operation>, negativeIndex: nat, v: Value)
    requires negativeIndex <= |ops|
  {
    var fence := ParsedFence(v);
    fence.Some? && FenceHolds(ops[..negativeIndex], fence.value)
  }

  predicate HasWrite(ops: seq<Operation>) {
    exists i :: 0 <= i < |ops| && IsWrite(ops[i])
  }

  predicate Sealed(ops: seq<Operation>, index: nat)
    requires index < |ops|
  {
    ExactIdSelfSealingInsert(ops, ops[index]) || ActualChangingRevisionFence(ops, index, ops[index].fencedBy)
  }

  /** What the validator decides: a transaction that writes has every negative expectation sealed. */
  predicate Accepted(ops: seq<Operation>) {
    HasWrite(ops) ==> forall i :: 0 <= i < |ops| && IsNegative(ops[i]) ==> Sealed(ops, i)
  }

  const UNSAFE_NEGATIVE_EXPECTATION_MESSAGE: string :=
    "Unsafe transaction shape: expect exists:false in a write transaction requires an exact-ID " +
    "self-sealing insert or an explicit actual-changing revision fence."

  // The verdict in terms of the operations' own fields.

  ghost predicate WritesSomething(ops: seq<Operation>) {
    exists i :: 0 <= i < |ops| && (ops[i].op == Str("insert") || ops[i].op == Str("update") || ops[i].op == Str("delete"))
  }

  ghost predicate ExpectsAbsence(o: Operation) {
    o.op == Str("expect") && o.existence == Bool(false)
  }

  /** Some operation inserts the row with the expectation's own table and id. */
  ghost predicate SealedByInsert(ops: seq<Operation>, index: nat)
    requires index < |ops|
  {
    var o := ops[index];
    o.table.Str? && o.id.Str? && o.id != Str("") &&
    exists i :: 0 <= i < |ops| && ops[i].op == Str("insert") && ops[i].table == o.table &&
      ops[i].data.Obj? && "id" in ops[i].data.fields && ops[i].data.fields["id"] == o.id
  }

  ghost predicate IsScalar(v: Value) {
    match v
    case Null => true
    case Str(_) => true
    case Bool(_) => true
    case Number(n) => n != NaN && n != PosInf && n != NegInf
    case _ => false
  }

  /** The condition is [field, "==", ...]. */
  ghost predicate ComparesField(condition: Value, field: Value) {
    condition.Arr? && |condition.items| == 3 && condition.items[0] == field && condition.items[1] == Str("==")
  }

  /** The first comparison of the field in the operation's conditions is with `v`. */
  ghost predicate Compares(o: Operation, field: Value, v: Value) {
    o.where.Arr? &&
    exists c :: 0 <= c < |o.where.items| && ComparesField(o.where.items[c], field) && o.where.items[c].items[2] == v &&
      forall e :: 0 <= e < c ==> !ComparesField(o.where.items[e], field)
  }

  /** An expectation that the fence row exists with the revision `v`. */
  ghost predicate Pins(o: Operation, table: Value, id: Value, field: Value, v: Value) {
    o.op == Str("expect") && o.existence == Bool(true) && o.table == table && o.id == id &&
    Compares(o, field, v) && IsScalar(v)
  }

  /** An update of the fence row to a revision other than `v`. */
  ghost predicate MovesOn(o: Operation, table: Value, id: Value, field: Value, v: Value) {
    o.op == Str("update") && o.table == table && o.id == id && field.Str? && o.data.Obj? && field.s in o.data.fields &&
    IsScalar(o.data.fields[field.s]) && o.data.fields[field.s] != v
  }

  /** The first expectation before `index` that pins the fence's revision pins some `v`, and an update before `index`
      moves the revision on. */
  ghost predicate FenceMoved(ops: seq<Operation>, index: nat, table: Value, id: Value, field: Value)
    requires index <= |ops|
  {
    exists g, v :: 0 <= g < index && Pins(ops[g], table, id, field, v) &&
      (forall h, w :: 0 <= h < g ==> !Pins(ops[h], table, id, field, w)) &&
      exists u :: 0 <= u < index && MovesOn(ops[u], table, id, field, v)
  }

  /** The expectation names a fence that is pinned and moved before it. */
  ghost predicate SealedByFence(ops: seq<Operation>, index: nat)
    requires index < |ops|
  {
    ops[index].fencedBy.Obj? &&
    var f := ops[index].fencedBy.fields;
    "table" in f && "id" in f && "field" in f &&
    var table, id, field := f["table"], f["id"], f["field"];
    table.Str? && id.Str? && field.Str? && table != Str("") && id != Str("") && field != Str("") && field != Str("id") &&
    FenceMoved(ops, index, table, id, field)
  }

  /** Nothing is written, or every expectation of absence is sealed by an insert or by a fence. */
  ghost predicate IsSafeShape(ops: seq<Operation>) {
    WritesSomething(ops) ==>
      forall i :: 0 <= i < |ops| && ExpectsAbsence(ops[i]) ==> SealedByInsert(ops, i) || SealedByFence(ops, i)
  }

  lemma {:induction false} FirstComparison(conditions: seq<Value>, field: string) returns (c: nat)
    ensures c <= |conditions|
    ensures forall e :: 0 <= e < c ==> !ComparesField(conditions[e], Str(field))
    ensures if c < |conditions|
            then ComparesField(conditions[c], Str(field)) && FirstEquality(conditions, field) == conditions[c].items[2]
            else FirstEquality(conditions, field) == Undefined
    decreases |conditions|
  {
    if conditions == [] || IsEquality(conditions[0], field) {
      c := 0;
    } else {
      c := FirstComparison(conditions[1..], field);
      c := c + 1;
      assert forall e :: 1 <= e < c ==> conditions[e] == conditions[1..][e - 1];
    }
  }

  lemma ComparedValue(o: Operation, field: string, v: Value)
    ensures v != Undefined ==> (Compares(o, Str(field), v) <==> EqualityValue(o, field) == v)
    ensures IsScalar(v) <==> IsRevisionScalar(v)
  {
    if o.where.Arr? { var c := FirstComparison(o.where.items, field); }
  }

  lemma GuardsPin(o: Operation, fence: Fence, v: Value)
    ensures Pins(o, Str(fence.table), Str(fence.id), Str(fence.field), v) <==>
            IsGuard(o, fence) && EqualityValue(o, fence.field) == v
    ensures MovesOn(o, Str(fence.table), Str(fence.id), Str(fence.field), v) <==> ChangesRevision(o, fence, v)
  {
    ComparedValue(o, fence.field, v);
    if fence.field in (if o.data.Obj? then o.data.fields else map[]) {
      ComparedValue(o, fence.field, o.data.fields[fence.field]);
    }
  }

  lemma {:induction false} FirstGuard(preceding: seq<Operation>, fence: Fence) returns (g: nat)
    requires FindGuard(preceding, fence).Some?
    ensures g < |preceding| && FindGuard(preceding, fence) == Some(preceding[g]) && IsGuard(preceding[g], fence)
    ensures forall h :: 0 <= h < g ==> !IsGuard(preceding[h], fence)
    decreases |preceding|
  {
    if IsGuard(preceding[0], fence) {
      g := 0;
    } else {
      g := FirstGuard(preceding[1..], fence);
      g := g + 1;
      assert forall h :: 1 <= h < g ==> preceding[h] == preceding[1..][h - 1];
    }
  }

  lemma HeldFenceMoved(ops: seq<Operation>, index: nat, fence: Fence)
    requires index <= |ops| && FenceHolds(ops[..index], fence)
    ensures FenceMoved(ops, index, Str(fence.table), Str(fence.id), Str(fence.field))
  {
    var g := FirstGuard(ops[..index], fence);
    var v := EqualityValue(ops[g], fence.field);
    var u :| 0 <= u < index && ChangesRevision(ops[..index][u], fence, v);
    GuardsPin(ops[g], fence, v);
    GuardsPin(ops[u], fence, v);
    forall h, w | 0 <= h < g
      ensures !Pins(ops[h], Str(fence.table), Str(fence.id), Str(fence.field), w)
    {
      GuardsPin(ops[h], fence, w);
      assert !IsGuard(ops[..index][h], fence);
    }
  }

  lemma MovedFenceHolds(ops: seq<Operation>, index: nat, fence: Fence)
    requires index <= |ops| && FenceMoved(ops, index, Str(fence.table), Str(fence.id), Str(fence.field))
    ensures FenceHolds(ops[..index], fence)
  {
    var table, id, field := Str(fence.table), Str(fence.id), Str(fence.field);
    var g, v :| 0 <= g < index && Pins(ops[g], table, id, field, v) &&
                (forall h, w :: 0 <= h < g ==> !Pins(ops[h], table, id, field, w)) &&
                exists u :: 0 <= u < index && MovesOn(ops[u], table, id, field, v);
    var u :| 0 <= u < index && MovesOn(ops[u], table, id, field, v);
    GuardsPin(ops[g], fence, v);
    GuardsPin(ops[u], fence, v);
    assert IsGuard(ops[..index][g], fence);
    var first := FirstGuard(ops[..index], fence);
    if first < g { GuardsPin(ops[first], fence, EqualityValue(ops[first], fence.field)); }
    assert ops[..index][u] == ops[u];
  }

  lemma SealedSpelledOut(ops: seq<Operation>, index: nat)
    requires index < |ops|
    ensures ExactIdSelfSealingInsert(ops, ops[index]) <==> SealedByInsert(ops, index)
    ensures ActualChangingRevisionFence(ops, index, ops[index].fencedBy) <==> SealedByFence(ops, index)
  {
    var o := ops[index];
    if o.table.Str? && o.id.Str? && o.id.s != "" {
      assert forall i :: 0 <= i < |ops| ==>
               (InsertsRow(ops[i], o.table, o.id) <==>
                ops[i].op == Str("insert") && ops[i].table == o.table && ops[i].data.Obj? &&
                "id" in ops[i].data.fields && ops[i].data.fields["id"] == o.id);
    }
    var fence := ParsedFence(o.fencedBy);
    if fence.Some? {
      if FenceHolds(ops[..index], fence.value) { HeldFenceMoved(ops, index, fence.value); }
      if FenceMoved(ops, index, Str(fence.value.table), Str(fence.value.id), Str(fence.value.field)) {
        MovedFenceHolds(ops, index, fence.value);
      }
    }
  }

  lemma AcceptedSpelledOut(ops: seq<Operation>)
    ensures Accepted(ops) <==> IsSafeShape(ops)
  {
    forall i | 0 <= i < |ops|
      ensures IsNegative(ops[i]) <==> ExpectsAbsence(ops[i])
      ensures Sealed(ops, i) <==> SealedByInsert(ops, i) || SealedByFence(ops, i)
    {
      SealedSpelledOut(ops, i);
    }
  }

  method ValidateNegativeTransactExpectations(ops: seq<Operation>) returns (r: Option<string>)
    ensures r == if Accepted(ops) then None else Some(UNSAFE_NEGATIVE_EXPECTATION_MESSAGE)
    ensures r.None? <==> IsSafeShape(ops)
  {
    AcceptedSpelledOut(ops);
    if !HasWrite(ops) {
      return None;
    }
    var index := 0;
    while index < |ops|
      invariant 0 <= index <= |ops|
      invariant forall i :: 0 <= i < index && IsNegative(ops[i]) ==> Sealed(ops, i)
    {
      var operation := ops[index];
      if IsNegative(operation)
         && !ExactIdSelfSealingInsert(ops, operation)
         && !ActualChangingRevisionFence(ops, index, operation.fencedBy)
      {
        return Some(UNSAFE_NEGATIVE_EXPECTATION_MESSAGE);
      }
      index := index + 1;
    }
    return None;
  }

  /** The order-free reading of a fence: some guard precedes, and some preceding update departs from it. */
  predicate SomeGuardAndChange(preceding: seq<Operation>, fence: Fence) {
    exists i, j :: 0 <= i < |preceding| && 0 <= j < |preceding| && IsGuard(preceding[i], fence) &&
      ChangesRevision(preceding[j], fence, EqualityValue(preceding[i], fence.field))
  }

  predicate GuardsAgree(preceding: seq<Operation>, fence: Fence) {
    forall i, j | 0 <= i < |preceding| && 0 <= j < |preceding| &&
                  IsGuard(preceding[i], fence) && IsGuard(preceding[j], fence) ::
      EqualityValue(preceding[i], fence.field) == EqualityValue(preceding[j], fence.field)
  }

  /** The code looks only at the first guard. That is at least as strict as the order-free reading, and
      differs from it exactly when every revision set is the first guard's while guards disagree. */
  lemma FirstGuardVersusSomeGuard(preceding: seq<Operation>, fence: Fence)
    ensures FenceHolds(preceding, fence) ==> SomeGuardAndChange(preceding, fence)
    ensures GuardsAgree(preceding, fence) ==> (FenceHolds(preceding, fence) <==> SomeGuardAndChange(preceding, fence))
    ensures SomeGuardAndChange(preceding, fence) && !FenceHolds(preceding, fence) <==>
            !GuardsAgree(preceding, fence) &&
            (exists i :: 0 <= i < |preceding| && SetsRevision(preceding[i], fence)) &&
            (forall i :: 0 <= i < |preceding| && SetsRevision(preceding[i], fence) ==>
              FindGuard(preceding, fence).Some? &&
              preceding[i].data.fields[fence.field] == EqualityValue(FindGuard(preceding, fence).value, fence.field))
  {
  }

  /** An operation on the fence row with the revision pinned by a guard or set by an update. */
  function GuardOf(fence: Fence, revision: Value): Operation {
    Operation(Str(fence.table), Str("expect"), Str(fence.id), Undefined,
              Arr([Arr([Str(fence.field), Str("=="), revision])]), Bool(true), Undefined)
  }

  function UpdateOf(fence: Fence, revision: Value): Operation {
    Operation(Str(fence.table), Str("update"), Str(fence.id), Obj(map[fence.field := revision]), Undefined,
              Undefined, Undefined)
  }

  lemma GuardPins(fence: Fence, revision: Value)
    requires IsRevisionScalar(revision)
    ensures IsGuard(GuardOf(fence, revision), fence) && EqualityValue(GuardOf(fence, revision), fence.field) == revision
  {
    var conditions := GuardOf(fence, revision).where.items;
    assert IsEquality(conditions[0], fence.field);
  }

  /** Two guards on one fence that disagree, and an update to the first one's revision: the order-free reading accepts
      the fence, the code does not. */
  lemma DisagreeingGuardsDiffer(fence: Fence, first: Value, second: Value)
    requires IsRevisionScalar(first) && IsRevisionScalar(second) && first != second
    ensures var preceding := [GuardOf(fence, first), GuardOf(fence, second), UpdateOf(fence, first)];
            SomeGuardAndChange(preceding, fence) && !FenceHolds(preceding, fence)
  {
    var preceding := [GuardOf(fence, first), GuardOf(fence, second), UpdateOf(fence, first)];
    GuardPins(fence, first);
    GuardPins(fence, second);
    assert FindGuard(preceding, fence) == Some(GuardOf(fence, first));
    assert IsGuard(preceding[1], fence) && ChangesRevision(preceding[2], fence, second);
  }

  lemma {:induction false} GuardSurvives(before: seq<Operation>, o: Operation, after: seq<Operation>, fence: Fence)
    requires !IsGuard(o, fence)
    ensures FindGuard(before + [o] + after, fence) == FindGuard(before + after, fence)
    decreases |before|
  {
    if before == [] {
      assert ([o] + after)[1..] == after && [] + [o] + after == [o] + after && [] + after == after;
    } else {
      assert (before + [o] + after)[1..] == before[1..] + [o] + after;
      assert (before + after)[1..] == before[1..] + after;
      GuardSurvives(before[1..], o, after, fence);
    }
  }

  lemma FenceSurvives(before: seq<Operation>, o: Operation, after: seq<Operation>, fence: Fence)
    requires IsNegative(o) && FenceHolds(before + [o] + after, fence)
    ensures FenceHolds(before + after, fence)
  {
    GuardSurvives(before, o, after, fence);
    var all, kept := before + [o] + after, before + after;
    var expected := EqualityValue(FindGuard(all, fence).value, fence.field);
    var i :| 0 <= i < |all| && ChangesRevision(all[i], fence, expected);
    assert i != |before|;
    assert kept[if i < |before| then i else i - 1] == all[i];
  }

  /** Dropping a negative expectation never makes an accepted transaction unsafe. */
  lemma DroppingNegativeKeepsAccepted(before: seq<Operation>, o: Operation, after: seq<Operation>)
    requires IsNegative(o) && Accepted(before + [o] + after)
    ensures Accepted(before + after)
  {
    var all, kept := before + [o] + after, before + after;
    if HasWrite(kept) {
      var w :| 0 <= w < |kept| && IsWrite(kept[w]);
      assert all[if w < |before| then w else w + 1] == kept[w];
      forall i | 0 <= i < |kept| && IsNegative(kept[i])
        ensures Sealed(kept, i)
      {
        SealSurvives(before, o, after, i);
      }
    }
  }

  lemma SealSurvives(before: seq<Operation>, o: Operation, after: seq<Operation>, i: nat)
    requires IsNegative(o) && i < |before + after|
    requires var j := if i < |before| then i else i + 1; Sealed(before + [o] + after, j)
    ensures Sealed(before + after, i)
  {
    var all, kept := before + [o] + after, before + after;
    var j := if i < |before| then i else i + 1;
    assert all[j] == kept[i];
    if ExactIdSelfSealingInsert(all, all[j]) {
      var k :| 0 <= k < |all| && InsertsRow(all[k], all[j].table, all[j].id);
      assert k != |before|;
      assert kept[if k < |before| then k else k - 1] == all[k];
    } else if i < |before| {
      assert all[..j] == kept[..i];
    } else {
      var rest := after[..i - |before|];
      assert all[..j] == before + [o] + rest && kept[..i] == before + rest;
      FenceSurvives(before, o, rest, ParsedFence(all[j].fencedBy).value);
    }
  }

  predicate NoNegative(ops: seq<Operation>) {
    forall i :: 0 <= i < |ops| ==> !IsNegative(ops[i])
  }

  predicate AllSealed(ops: seq<Operation>) {
    forall i :: 0 <= i < |ops| && IsNegative(ops[i]) ==> Sealed(ops, i)
  }

  /** A seal depends on what precedes and on any insert, so appending keeps it. */
  lemma SealStays(ops: seq<Operation>, more: seq<Operation>, i: nat)
    requires i < |ops| && Sealed(ops, i)
    ensures Sealed(ops + more, i)
  {
    var all := ops + more;
    assert all[i] == ops[i] && all[..i] == ops[..i];
    if ExactIdSelfSealingInsert(ops, ops[i]) {
      var k :| 0 <= k < |ops| && InsertsRow(ops[k], ops[i].table, ops[i].id);
      assert all[k] == ops[k];
    }
  }

  /** Only an insert can seal what was not sealed. */
  lemma NoSealWithoutInsert(ops: seq<Operation>, o: Operation, i: nat)
    requires i < |ops| && !Sealed(ops, i) && !IsOp(o, "insert")
    ensures !Sealed(ops + [o], i)
  {
    var all := ops + [o];
    assert all[i] == ops[i] && all[..i] == ops[..i];
    assert forall k :: 0 <= k < |ops| ==> all[k] == ops[k];
  }

  /** Other operations may follow a transaction whatever they are, if and only if its negative expectations are all
      sealed already. Being accepted is not enough: a transaction that does not write is accepted unsealed. */
  lemma AppendingIsSafeIff(ops: seq<Operation>)
    ensures (forall more :: NoNegative(more) ==> Accepted(ops + more)) <==> AllSealed(ops)
    ensures HasWrite(ops) ==> (AllSealed(ops) <==> Accepted(ops))
  {
    if AllSealed(ops) {
      forall more | NoNegative(more)
        ensures Accepted(ops + more)
      {
        AppendingKeepsSealed(ops, more);
      }
    } else {
      var i :| 0 <= i < |ops| && IsNegative(ops[i]) && !Sealed(ops, i);
      var o := Operation(Undefined, Str("delete"), Undefined, Undefined, Undefined, Undefined, Undefined);
      NoSealWithoutInsert(ops, o, i);
      assert IsWrite((ops + [o])[|ops|]) && (ops + [o])[i] == ops[i];
      assert NoNegative([o]) && !Accepted(ops + [o]);
    }
  }

  lemma AppendingKeepsSealed(ops: seq<Operation>, more: seq<Operation>)
    requires AllSealed(ops) && NoNegative(more)
    ensures Accepted(ops + more)
  {
    var all := ops + more;
    forall i | 0 <= i < |all| && IsNegative(all[i])
      ensures Sealed(all, i)
    {
      assert i < |ops| && all[i] == ops[i];
      SealStays(ops, more, i);
    }
  }

  /** A transaction that already writes stays accepted when operations other than negative expectations follow. */
  lemma AppendingKeepsAccepted(ops: seq<Operation>, more: seq<Operation>)
    requires HasWrite(ops) && Accepted(ops) && NoNegative(more)
    ensures Accepted(ops + more)
  {
    AppendingKeepsSealed(ops, more);
  }

  /** Without an earlier write this fails: a lone unsealed expectation is accepted until a write is appended. */
  lemma AppendedWriteCanUnseal(negative: Operation, write: Operation)
    requires IsNegative(negative) && negative.id == Undefined && negative.fencedBy == Undefined && IsWrite(write)
    ensures Accepted([negative]) && !Accepted([negative, write])
  {
    var ops := [negative, write];
    assert IsWrite(ops[1]) && IsNegative(ops[0]) && !Sealed(ops, 0);
  }
}
