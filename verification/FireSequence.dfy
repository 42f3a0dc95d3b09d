/** How the next and the previous fire time fit together, and that iterating the next one
    enumerates a schedule. */
module FireSequence {
  import opened Common
  import opened Calendar
  import opened FireTime

  /** What the two searches answer at one reference time. */
  ghost predicate AreAnswers(s: Schedule, from: int, next: Result<int>, previous: Result<int>) {
    Finite(from) && IsAnswer(FireTimes(s), from, 1, next) && IsAnswer(FireTimes(s), from, -1, previous)
  }

  lemma FireTimeIsFinite(s: Schedule, t: int)
    requires t in FireTimes(s)
    ensures Finite(t) && t % MS_PER_MINUTE == 0
  {
  }

  /** Asking backwards at the next fire time gives that time again. */
  lemma PreviousOfNextIsNext(s: Schedule, from: int, next: Result<int>, previous: Result<int>)
    requires Finite(from) && IsAnswer(FireTimes(s), from, 1, next) && next.Ok?
    requires IsAnswer(FireTimes(s), next.value, -1, previous)
    ensures Finite(next.value) && previous == next
  {
    FireTimeIsFinite(s, next.value);
    NearestOfMember(FireTimes(s), next.value, previous);
  }

  lemma NearestOfMember(fires: iset<int>, t: int, previous: Result<int>)
    requires t in fires && IsAnswer(fires, t, -1, previous)
    ensures previous == Ok(t)
  {
    assert Accepts(-1, t, t);
  }

  /** Asking backwards one millisecond before the next fire time gives the reference time's own answer. */
  lemma PreviousJustBeforeNext(s: Schedule, from: int, next: Result<int>, previous: Result<int>, before: Result<int>)
    requires AreAnswers(s, from, next, previous) && next.Ok?
    requires IsAnswer(FireTimes(s), next.value - 1, -1, before)
    ensures Finite(next.value - 1) && before.Ok? == previous.Ok? && (before.Ok? ==> before == previous)
  {
    FireTimeIsFinite(s, next.value);
    SameAnswerBefore(FireTimes(s), from, next.value, before);
    AnswersAgree(FireTimes(s), from, -1, previous, before);
  }

  lemma SameAnswerBefore(fires: iset<int>, from: int, next: int, before: Result<int>)
    requires Nearest(fires, from, 1, next) && IsAnswer(fires, next - 1, -1, before)
    ensures IsAnswer(fires, from, -1, before)
  {
    assert forall u :: u in fires ==> (Accepts(-1, next - 1, u) <==> Accepts(-1, from, u));
  }

  function Latest(from: int, times: seq<int>): int {
    if times == [] then from else times[|times| - 1]
  }

  /** `times` results from asking for the next fire time again and again, starting at `from`. */
  ghost predicate IteratesNext(fires: iset<int>, from: int, times: seq<int>) {
    times == [] ||
    var k := |times| - 1;
    IteratesNext(fires, from, times[..k]) && Nearest(fires, Latest(from, times[..k]), 1, times[k])
  }

  /** Iteration visits exactly the matching minutes up to its last result, once each and in order. */
  lemma {:induction false} IterationEnumerates(fires: iset<int>, from: int, times: seq<int>)
    requires IteratesNext(fires, from, times)
    ensures from <= Latest(from, times)
    ensures forall i, j :: 0 <= i < j < |times| ==> times[i] < times[j]
    ensures forall u :: u in times <==> u in fires && from < u <= Latest(from, times)
    decreases |times|
  {
    if times != [] {
      var k := |times| - 1;
      var shorter, last := times[..k], Latest(from, times[..k]);
      IterationEnumerates(fires, from, shorter);
      assert times == shorter + [times[k]];
      OneMoreMember(fires, from, shorter, last, times[k]);
      OneMoreInOrder(shorter, last, times[k]);
    }
  }

  lemma OneMoreMember(fires: iset<int>, from: int, times: seq<int>, last: int, t: int)
    requires from <= last && Nearest(fires, last, 1, t)
    requires forall u :: u in times <==> u in fires && from < u <= last
    ensures forall u :: u in times + [t] <==> u in fires && from < u <= t
  {
    forall u
      ensures u in times + [t] <==> u in fires && from < u <= t
    {
      assert u in times + [t] <==> u in times || u == t;
      assert u in fires && last < u ==> t <= u;
    }
  }

  lemma OneMoreInOrder(times: seq<int>, last: int, t: int)
    requires last < t && forall i, j :: 0 <= i < j < |times| ==> times[i] < times[j]
    requires forall u :: u in times ==> u <= last
    ensures forall i, j :: 0 <= i < j < |times + [t]| ==> (times + [t])[i] < (times + [t])[j]
  {
    assert forall i :: 0 <= i < |times| ==> times[i] in times;
  }

  /** The last fire time between `from` and `u`, if there is any. */
  lemma LastBetween(fires: iset<int>, from: int, u: int) returns (last: Option<int>)
    requires from < u
    ensures last.None? ==> forall v :: v in fires && from < v ==> u <= v
    ensures last.Some? ==> last.value in fires && from < last.value < u
    ensures last.Some? ==> forall v :: v in fires && last.value < v ==> u <= v
    decreases u - from
  {
    last := None;
    if later :| later in fires && from < later < u {
      last := LastBetween(fires, later, u);
      if last.None? { last := Some(later); }
    }
  }

  /** Iteration gets to every later fire time: none is ever out of reach. */
  lemma {:induction false} IterationReaches(fires: iset<int>, from: int, u: int) returns (times: seq<int>)
    requires u in fires && from < u
    ensures IteratesNext(fires, from, times) && times != [] && Latest(from, times) == u
    decreases u - from
  {
    var last := LastBetween(fires, from, u);
    var before: seq<int> := [];
    if last.Some? { before := IterationReaches(fires, from, last.value); }
    times := before + [u];
    var k := |times| - 1;
    assert times[..k] == before && times[k] == u;
    assert Nearest(fires, Latest(from, before), 1, u);
    assert IteratesNext(fires, from, times[..k]);
  }

  function MinuteFloor(t: int): int { t - t % MS_PER_MINUTE }

  /** Day, hour and minute depend only on the count of whole minutes. */
  lemma PartsOfMinute(t: int, m: int)
    requires m == t / MS_PER_MINUTE
    ensures DayOf(t) == m / 1440 && HourOf(t) == m % 1440 / 60 && MinuteOf(t) == m % 60
  {
    var r := t % MS_PER_MINUTE;
    DivideBy(t, MS_PER_DAY, m / 1440, MS_PER_MINUTE * (m % 1440) + r);
    DivideBy(t, MS_PER_HOUR, m / 60, MS_PER_MINUTE * (m % 60) + r);
    DivideBy(t % MS_PER_DAY, MS_PER_HOUR, m % 1440 / 60, MS_PER_MINUTE * (m % 1440 % 60) + r);
    DivideBy(t % MS_PER_HOUR, MS_PER_MINUTE, m % 60, r);
  }

  lemma FloorOfMinute(t: int)
    ensures MinuteFloor(t) / MS_PER_MINUTE == t / MS_PER_MINUTE && MinuteFloor(t) % MS_PER_MINUTE == 0
    ensures Finite(t) ==> Finite(MinuteFloor(t))
  {
    DivideBy(MinuteFloor(t), MS_PER_MINUTE, t / MS_PER_MINUTE, 0);
  }

  lemma FloorMatches(s: Schedule, t: int)
    requires Finite(t)
    ensures MatchesCron(t, s) <==> MinuteFloor(t) in FireTimes(s)
  {
    FloorOfMinute(t);
    PartsOfMinute(t, t / MS_PER_MINUTE);
    PartsOfMinute(MinuteFloor(t), t / MS_PER_MINUTE);
  }

  lemma WholeMinuteBelow(u: int, t: int)
    requires u % MS_PER_MINUTE == 0 && u <= t
    ensures u <= MinuteFloor(t)
  {
    assert u == MS_PER_MINUTE * (u / MS_PER_MINUTE);
    assert MinuteFloor(t) == MS_PER_MINUTE * (t / MS_PER_MINUTE);
  }

  /** A time matches the schedule exactly when its own minute is the previous fire time. */
  lemma MatchesIffPreviousIsOwnMinute(s: Schedule, t: int)
    requires Finite(t)
    ensures MatchesCron(t, s) <==> Nearest(FireTimes(s), t, -1, MinuteFloor(t))
  {
    FloorMatches(s, t);
    forall u | u in FireTimes(s) && u <= t
      ensures u <= MinuteFloor(t)
    {
      WholeMinuteBelow(u, t);
    }
  }

  /** Between the two answers the schedule matches exactly during the previous fire time's minute. */
  lemma MatchesOnlyPreviousMinute(s: Schedule, from: int, next: Result<int>, previous: Result<int>, t: int)
    requires AreAnswers(s, from, next, previous) && Finite(t)
    requires previous.Ok? ==> previous.value <= t
    requires next.Ok? ==> t < next.value
    ensures MatchesCron(t, s) <==> previous.Ok? && t < previous.value + MS_PER_MINUTE
  {
    FloorMatches(s, t);
    var u := MinuteFloor(t);
    if u in FireTimes(s) {
      FloorOfMinute(t);
      assert Accepts(1, from, u) || Accepts(-1, from, u);
      assert previous.Ok?;
      assert u <= previous.value;
    } else if previous.Ok? {
      assert previous.value in FireTimes(s);
      if t < previous.value + MS_PER_MINUTE { OwnMinute(previous.value, t); }
    }
  }

  lemma OwnMinute(u: int, t: int)
    requires u % MS_PER_MINUTE == 0 && u <= t < u + MS_PER_MINUTE
    ensures MinuteFloor(t) == u
  {
    DivideBy(t, MS_PER_MINUTE, u / MS_PER_MINUTE, t - u);
  }
}
