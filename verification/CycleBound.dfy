/** Why one 400-year cycle is enough: every fire time has an equivalent one cycle away. */
module CycleBound {
  import opened Calendar
  import opened FireTime

  lemma LaterParts(t: int, cycles: int, later: int)
    requires later == t + MS_PER_CYCLE * cycles
    ensures DayOf(later) == DayOf(t) + DAYS_PER_CYCLE * cycles
    ensures HourOf(later) == HourOf(t) && MinuteOf(later) == MinuteOf(t)
    ensures later % MS_PER_MINUTE == t % MS_PER_MINUTE
  {
    var days := DAYS_PER_CYCLE * cycles;
    assert later == t + MS_PER_DAY * days;
    DayShift(t, days);
  }

  lemma DayShift(t: int, days: int)
    ensures var later := t + MS_PER_DAY * days;
            DayOf(later) == DayOf(t) + days && later % MS_PER_DAY == t % MS_PER_DAY &&
            later % MS_PER_HOUR == t % MS_PER_HOUR && later % MS_PER_MINUTE == t % MS_PER_MINUTE
  {
    var later := t + MS_PER_DAY * days;
    assert later / MS_PER_DAY == t / MS_PER_DAY + days;
    assert later / MS_PER_HOUR == t / MS_PER_HOUR + 24 * days;
    assert later / MS_PER_MINUTE == t / MS_PER_MINUTE + 1440 * days;
  }

  lemma DateRepeats(t: int, cycles: int, later: int)
    requires later == t + MS_PER_CYCLE * cycles
    ensures DateOf(later) == DateOf(t).(year := DateOf(t).year + YEARS_PER_CYCLE * cycles)
  {
    LaterParts(t, cycles, later);
    DatesRepeat(DayOf(t), DateOf(t), cycles, DayOf(later));
  }

  /** Fire times repeat every 400 years, in both directions and in the unbounded calendar. */
  lemma FireTimesRepeat(s: Schedule, t: int, cycles: int, later: int)
    requires later == t + MS_PER_CYCLE * cycles
    ensures IsFireTime(s, later) == IsFireTime(s, t)
  {
    LaterParts(t, cycles, later);
    DateRepeats(t, cycles, later);
    WeekdaysRepeat(DayOf(t), cycles, DayOf(later));
  }

  /** Any candidate can be brought within one cycle of the reference time. */
  lemma {:induction false} NearbyCandidate(s: Schedule, from: int, direction: Direction, u: int) returns (v: int)
    requires Finite(from) && Candidate(s, from, direction, u)
    ensures Candidate(s, from, direction, v)
    ensures NoLater(direction, v, u)
    ensures Ahead(direction, from, v) <= MS_PER_CYCLE
    decreases Ahead(direction, from, u)
  {
    if Ahead(direction, from, u) <= MS_PER_CYCLE {
      v := u;
    } else {
      var back: Direction := if direction == 1 then -1 else 1;
      var nearer := u + MS_PER_CYCLE * back;
      FireTimesRepeat(s, u, back, nearer);
      v := NearbyCandidate(s, from, direction, nearer);
    }
  }

  lemma YearsAreMonotone(a: int, b: int)
    requires a <= b
    ensures DateOf(a).year <= DateOf(b).year
  {
    if DateOf(b).year < DateOf(a).year { DatesInTimeOrder(b, a); }
  }

  /** So some candidate lies in the calendar years that the search scans: the reference year and the
      400 after it in the direction, the last of which may be needed. */
  lemma CandidateWithinCycle(s: Schedule, from: int, direction: Direction, u: int) returns (v: int)
    requires Finite(from) && Candidate(s, from, direction, u)
    ensures Candidate(s, from, direction, v)
    ensures 0 <= Ahead(direction, DateOf(from).year, DateOf(v).year) <= YEARS_PER_CYCLE
  {
    v := NearbyCandidate(s, from, direction, u);
    YearsWithinCycle(direction, from, v);
  }

  lemma YearsWithinCycle(direction: Direction, from: int, v: int)
    requires 0 <= Ahead(direction, from, v) <= MS_PER_CYCLE
    ensures 0 <= Ahead(direction, DateOf(from).year, DateOf(v).year) <= YEARS_PER_CYCLE
  {
    if direction == 1 {
      YearsAreMonotone(from, v);
      CycleEdge(from, v, 1);
    } else {
      YearsAreMonotone(v, from);
      CycleEdge(v, from, 1);
    }
  }

  lemma CycleEdge(a: int, b: int, cycles: int)
    requires b <= a + MS_PER_CYCLE && cycles == 1
    ensures DateOf(b).year <= DateOf(a).year + YEARS_PER_CYCLE
  {
    var edge := a + MS_PER_CYCLE;
    DateRepeats(a, cycles, edge);
    YearsAreMonotone(b, edge);
  }
}
