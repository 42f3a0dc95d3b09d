/** getNextAlarm: the earliest next fire time over several schedules, and everyone who fires then. */
module NextAlarm {
  import opened Common
  import opened Calendar
  import opened FireTime
  import opened CalendarSearch

  datatype ScheduledFunction = ScheduledFunction(name: string, schedule: Schedule)

  datatype Alarm = Alarm(time: int, functions: seq<string>)

  /** Names of the functions whose next fire time is `time`, in their listed order. */
  ghost function FiringAt(schedules: seq<ScheduledFunction>, next: seq<int>, time: int): seq<string>
    requires |next| == |schedules|
  {
    if schedules == [] then []
    else
      var k := |schedules| - 1;
      FiringAt(schedules[..k], next[..k], time) + if next[k] == time then [schedules[k].name] else []
  }

  /** Each of the first |next| schedules fires next at the time listed for it. */
  ghost predicate AreNext(fires: seq<iset<int>>, from: int, next: seq<int>) {
    |next| <= |fires| &&
    forall i :: 0 <= i < |next| ==> Nearest(fires[i], from, 1, next[i])
  }

  ghost function FiresOf(schedules: seq<ScheduledFunction>): (fires: seq<iset<int>>)
    ensures |fires| == |schedules|
  {
    seq(|schedules|, i requires 0 <= i < |schedules| => FireTimes(schedules[i].schedule))
  }

  /** `alarm` is the least of the next fire times, with all the functions that attain it. */
  ghost predicate IsEarliest(schedules: seq<ScheduledFunction>, next: seq<int>, alarm: Option<Alarm>)
    requires |next| == |schedules|
  {
    if schedules == [] then alarm.None?
    else alarm.Some? && alarm.value.time in next && (forall i :: 0 <= i < |next| ==> alarm.value.time <= next[i]) &&
         alarm.value.functions == FiringAt(schedules, next, alarm.value.time)
  }

  /** What the loop knows after the first |next| schedules. */
  ghost predicate SoFar(schedules: seq<ScheduledFunction>, from: int, next: seq<int>, alarm: Option<Alarm>) {
    |next| <= |schedules| && AreNext(FiresOf(schedules), from, next) && IsEarliest(schedules[..|next|], next, alarm)
  }

  /** Without schedules there is no alarm. Otherwise the call fails when the reference time is not finite or some
      schedule has no next fire time, else it reports the earliest one and who fires then. */
  method GetNextAlarm(schedules: seq<ScheduledFunction>, from: int) returns (r: Result<Option<Alarm>>, ghost next: seq<int>)
    requires forall i :: 0 <= i < |schedules| ==> InRange(schedules[i].schedule)
    ensures r.Ok? ==> |next| == |schedules| && AreNext(FiresOf(schedules), from, next)
    ensures r.Ok? ==> IsEarliest(schedules, next, r.value) && (schedules == [] || Finite(from))
    ensures r.Err? ==> schedules != []
    ensures r.Err? && Finite(from) ==> exists i :: 0 <= i < |schedules| && NoneFrom(FiresOf(schedules)[i], from, 1)
    ensures r.Err? && !Finite(from) ==> r == Err(NOT_FINITE)
  {
    next := [];
    if |schedules| == 0 {
      return Ok(None), next;
    }
    var alarm: Option<Alarm> := None;
    var i := 0;
    while i < |schedules|
      invariant 0 <= i <= |schedules| && |next| == i && (i > 0 ==> Finite(from))
      invariant SoFar(schedules, from, next, alarm)
    {
      var nextTime := NextOf(schedules, i, from);
      if nextTime.Err? {
        return Err(nextTime.message), next;
      }
      ghost var before := alarm;
      alarm := Consider(schedules[..i], next, alarm, schedules[i], nextTime.value);
      SoFarExtends(schedules, from, next, before, nextTime.value, alarm);
      next := next + [nextTime.value];
      i := i + 1;
    }
    assert schedules[..|schedules|] == schedules;
    return Ok(alarm), next;
  }

  lemma AnswersExtend(fires: seq<iset<int>>, from: int, next: seq<int>, t: int)
    requires |next| < |fires| && AreNext(fires, from, next) && Nearest(fires[|next|], from, 1, t)
    ensures AreNext(fires, from, next + [t])
  {
  }

  lemma SoFarExtends(schedules: seq<ScheduledFunction>, from: int, next: seq<int>, before: Option<Alarm>,
                     t: int, after: Option<Alarm>)
    requires |next| < |schedules| && SoFar(schedules, from, next, before)
    requires Nearest(FiresOf(schedules)[|next|], from, 1, t)
    requires IsEarliest(schedules[..|next|] + [schedules[|next|]], next + [t], after)
    ensures SoFar(schedules, from, next + [t], after)
  {
    var k := |next|;
    var extended := next + [t];
    PrefixGrows(schedules, k);
    AnswersExtend(FiresOf(schedules), from, next, t);
    assert |extended| == k + 1 && schedules[..|extended|] == schedules[..k] + [schedules[k]];
  }

  method NextOf(schedules: seq<ScheduledFunction>, i: nat, from: int) returns (r: Result<int>)
    requires i < |schedules| && InRange(schedules[i].schedule)
    ensures if Finite(from) then IsAnswer(FiresOf(schedules)[i], from, 1, r) else r == Err(NOT_FINITE)
  {
    r := GetNextFireTime(schedules[i].schedule, from);
  }

  /** The loop body: a strictly earlier time starts a new list, an equal one joins it. */
  method Consider(ghost prior: seq<ScheduledFunction>, ghost next: seq<int>, before: Option<Alarm>,
                  added: ScheduledFunction, nextTime: int) returns (after: Option<Alarm>)
    requires |next| == |prior| && IsEarliest(prior, next, before)
    ensures IsEarliest(prior + [added], next + [nextTime], after)
  {
    after := before;
    if before.None? || nextTime < before.value.time {
      after := Some(Alarm(nextTime, [added.name]));
    } else if nextTime == before.value.time {
      after := Some(Alarm(nextTime, before.value.functions + [added.name]));
    }
    EarliestExtends(prior, next, before, added, nextTime, after);
  }

  lemma EarliestExtends(prior: seq<ScheduledFunction>, next: seq<int>, before: Option<Alarm>,
                        added: ScheduledFunction, t: int, after: Option<Alarm>)
    requires |next| == |prior| && IsEarliest(prior, next, before)
    requires after == if before.None? || t < before.value.time then Some(Alarm(t, [added.name]))
                      else if t == before.value.time then Some(Alarm(t, before.value.functions + [added.name]))
                      else before
    ensures IsEarliest(prior + [added], next + [t], after)
  {
    LeastExtends(next, if before.Some? then Some(before.value.time) else None, t, after.value.time);
    FiringExtends(prior, next, added, t, after.value.time);
    if before.None? || t < before.value.time { NobodyFires(prior, next, t); }
  }

  lemma LeastExtends(next: seq<int>, before: Option<int>, t: int, after: int)
    requires if before.None? then next == [] else forall i :: 0 <= i < |next| ==> before.value <= next[i]
    requires before.Some? ==> before.value in next
    requires after == if before.None? || t < before.value then t else before.value
    ensures after in next + [t] && forall i :: 0 <= i < |next + [t]| ==> after <= (next + [t])[i]
  {
    assert (next + [t])[|next|] == t;
  }

  lemma FiringExtends(prior: seq<ScheduledFunction>, next: seq<int>, added: ScheduledFunction, t: int, time: int)
    requires |next| == |prior|
    ensures FiringAt(prior + [added], next + [t], time) ==
            FiringAt(prior, next, time) + if t == time then [added.name] else []
  {
    assert (prior + [added])[..|prior|] == prior && (next + [t])[..|next|] == next;
  }

  lemma {:induction false} NobodyFires(schedules: seq<ScheduledFunction>, next: seq<int>, time: int)
    requires |next| == |schedules| && forall i :: 0 <= i < |next| ==> next[i] != time
    ensures FiringAt(schedules, next, time) == []
    decreases |schedules|
  {
    if schedules != [] {
      var k := |schedules| - 1;
      NobodyFires(schedules[..k], next[..k], time);
    }
  }
}
