/** Whole cron expressions: parsing into a schedule, and normalization of white space. */
module CronExpression {
  import opened Common
  import Calendar
  import opened Utf8
  import opened CronText
  import opened CronField
  import opened FireTime
  import opened Satisfiability

  const MAX_MANAGED_CRON_UTF8_BYTES: int := 256

  /** The schedule of an expression, or the first error. */
  function ParseCron(expression: string): Result<Schedule> {
    ParseFields(Words(Trim(expression)))
  }

  function ParseFields(fields: seq<string>): Result<Schedule> {
    if |fields| != 5 then Err("Invalid cron expression")
    else Combine(FieldValues(fields[4], 1, 7), FieldValues(fields[0], 0, 59), FieldValues(fields[1], 0, 23),
                 FieldValues(fields[2], 1, 31), FieldValues(fields[3], 1, 12))
  }

  /** Weekdays are checked before the other fields; they are written 1 (Sunday) to 7 and stored 0 to 6. */
  function Combine(weekdays: Result<set<int>>, minutes: Result<set<int>>, hours: Result<set<int>>,
                   days: Result<set<int>>, months: Result<set<int>>): Result<Schedule>
  {
    if weekdays.Err? then Err(weekdays.message)
    else if minutes.Err? then Err(minutes.message)
    else if hours.Err? then Err(hours.message)
    else if days.Err? then Err(days.message)
    else if months.Err? then Err(months.message)
    else Ok(Schedule(minutes.value, hours.value, days.value, months.value, ShiftDown(weekdays.value)))
  }

  function ShiftDown(weekdays: set<int>): set<int> {
    set day | day in weekdays :: day - 1
  }

  lemma ShiftedMembers(weekdays: set<int>, w: int)
    ensures w in ShiftDown(weekdays) <==> w + 1 in weekdays
  {
    if w + 1 in weekdays { assert w == (w + 1) - 1; }
  }

  /** Every parsed schedule is in range with no empty field. */
  lemma ParsedScheduleIsComplete(expression: string)
    requires ParseCron(expression).Ok?
    ensures IsParsed(ParseCron(expression).value)
  {
    var fields := Words(Trim(expression));
    FieldInRange(fields[0], 0, 59);
    FieldInRange(fields[1], 0, 23);
    FieldInRange(fields[2], 1, 31);
    FieldInRange(fields[3], 1, 12);
    FieldInRange(fields[4], 1, 7);
    WeekdaysInRange(FieldValues(fields[4], 1, 7).value);
  }

  lemma WeekdaysInRange(weekdays: set<int>)
    requires weekdays != {} && forall v :: v in weekdays ==> 1 <= v <= 7
    ensures ShiftDown(weekdays) != {} && forall v :: v in ShiftDown(weekdays) ==> 0 <= v <= 6
  {
    HasElement(weekdays);
    var w :| w in weekdays;
    ShiftedMembers(weekdays, w - 1);
  }

  /** Some segment of the field denotes the value. */
  predicate FieldContains(field: string, min: int, max: int, v: int) {
    exists part :: part in SplitOn(field, ',') && Denotes(part, min, max, v)
  }

  lemma CombinedMatches(weekdays: Result<set<int>>, minutes: Result<set<int>>, hours: Result<set<int>>,
                        days: Result<set<int>>, months: Result<set<int>>, t: int)
    requires Combine(weekdays, minutes, hours, days, months).Ok?
    ensures weekdays.Ok? && minutes.Ok? && hours.Ok? && days.Ok? && months.Ok?
    ensures MatchesCron(t, Combine(weekdays, minutes, hours, days, months).value) <==>
            MinuteOf(t) in minutes.value && HourOf(t) in hours.value && DateOf(t).day in days.value &&
            DateOf(t).month in months.value && Calendar.Weekday(DayOf(t)) + 1 in weekdays.value
  {
    ShiftedMembers(weekdays.value, Calendar.Weekday(DayOf(t)));
  }

  /** Every field of the expression lists the matching component; weekdays are numbered from 1 on Sunday. */
  ghost predicate FieldsList(fields: seq<string>, minute: int, hour: int, day: int, month: int, weekday: int)
    requires |fields| == 5
  {
    && FieldContains(fields[0], 0, 59, minute)
    && FieldContains(fields[1], 0, 23, hour)
    && FieldContains(fields[2], 1, 31, day)
    && FieldContains(fields[3], 1, 12, month)
    && FieldContains(fields[4], 1, 7, weekday)
  }

  lemma MembersAreListed(fields: seq<string>, minute: int, hour: int, day: int, month: int, weekday: int)
    requires |fields| == 5 && ParseFields(fields).Ok?
    ensures FieldsList(fields, minute, hour, day, month, weekday) <==>
            minute in FieldValues(fields[0], 0, 59).value && hour in FieldValues(fields[1], 0, 23).value &&
            day in FieldValues(fields[2], 1, 31).value && month in FieldValues(fields[3], 1, 12).value &&
            weekday in FieldValues(fields[4], 1, 7).value
  {
    FieldContainsIff(fields[0], 0, 59, minute);
    FieldContainsIff(fields[1], 0, 23, hour);
    FieldContainsIff(fields[2], 1, 31, day);
    FieldContainsIff(fields[3], 1, 12, month);
    FieldContainsIff(fields[4], 1, 7, weekday);
  }

  /** An accepted expression matches a time exactly when each of its five fields lists that component of the time. */
  lemma MatchesIffFieldsList(expression: string, t: int)
    requires ParseCron(expression).Ok?
    ensures var fields := Words(Trim(expression));
            |fields| == 5 &&
            (MatchesCron(t, ParseCron(expression).value) <==>
             FieldsList(fields, MinuteOf(t), HourOf(t), DateOf(t).day, DateOf(t).month, Calendar.Weekday(DayOf(t)) + 1))
  {
    var fields := Words(Trim(expression));
    MembersAreListed(fields, MinuteOf(t), HourOf(t), DateOf(t).day, DateOf(t).month, Calendar.Weekday(DayOf(t)) + 1);
    CombinedMatches(FieldValues(fields[4], 1, 7), FieldValues(fields[0], 0, 59), FieldValues(fields[1], 0, 23),
                    FieldValues(fields[2], 1, 31), FieldValues(fields[3], 1, 12), t);
  }

  lemma FieldContainsIff(field: string, min: int, max: int, v: int)
    requires FieldValues(field, min, max).Ok?
    ensures v in FieldValues(field, min, max).value <==> FieldContains(field, min, max, v)
  {
    FieldDenotes(field, min, max, v);
  }

  predicate WireBound(s: string) {
    1 <= Utf8ByteLength(s) <= MAX_MANAGED_CRON_UTF8_BYTES
  }

  function NormalizeCronExpression(expression: string): Result<string> {
    if !WireBound(expression) then Err("Cron expression must encode to 1-256 UTF-8 bytes.")
    else
      var parsed := ParseCron(expression);
      if parsed.Err? then Err(parsed.message)
      else
        var normalized := JoinWords(Words(Trim(expression)));
        if !WireBound(normalized) then Err("Normalized cron expression must encode to 1-256 UTF-8 bytes.")
        else Ok(normalized)
  }

  lemma SameFields(a: string, b: string)
    requires Words(Trim(a)) == Words(Trim(b))
    ensures ParseCron(a) == ParseCron(b)
  {
  }

  lemma ParsedHasText(expression: string)
    requires ParseCron(expression).Ok?
    ensures Trim(expression) != ""
  {
  }

  lemma JoinedFields(expression: string)
    requires Trim(expression) != ""
    ensures var normalized := JoinWords(Words(Trim(expression)));
            Words(Trim(normalized)) == Words(Trim(expression)) &&
            1 <= Utf8ByteLength(normalized) <= Utf8ByteLength(expression)
  {
    var trimmed := Trim(expression);
    TrimTrims(expression);
    WordsOfTrimmed(trimmed);
    WordsOfJoin(Words(trimmed));
    TrimOfTrimmed(JoinWords(Words(trimmed)));
  }

  lemma NormalizedText(expression: string)
    requires ParseCron(expression).Ok?
    ensures var normalized := JoinWords(Words(Trim(expression)));
            ParseCron(normalized) == ParseCron(expression) &&
            1 <= Utf8ByteLength(normalized) <= Utf8ByteLength(expression) &&
            JoinWords(Words(Trim(normalized))) == normalized
  {
    ParsedHasText(expression);
    JoinedFields(expression);
    SameFields(JoinWords(Words(Trim(expression))), expression);
  }

  /** The fields in the order in which they are checked, weekdays first. */
  function CheckedFields(fields: seq<string>): (checked: seq<Result<set<int>>>)
    requires |fields| == 5
    ensures |checked| == 5
  {
    [FieldValues(fields[4], 1, 7), FieldValues(fields[0], 0, 59), FieldValues(fields[1], 0, 23),
     FieldValues(fields[2], 1, 31), FieldValues(fields[3], 1, 12)]
  }

  /** An expression of five fields is rejected with the error of the first field that has one, in the order checked. */
  lemma FirstErrorIsReported(fields: seq<string>, k: nat)
    requires |fields| == 5 && k < 5 && CheckedFields(fields)[k].Err?
    requires forall j :: 0 <= j < k ==> CheckedFields(fields)[j].Ok?
    ensures ParseFields(fields) == Err(CheckedFields(fields)[k].message)
  {
    var checked := CheckedFields(fields);
    assert k > 0 ==> checked[0].Ok?;
    assert k > 1 ==> checked[1].Ok?;
    assert k > 2 ==> checked[2].Ok?;
    assert k > 3 ==> checked[3].Ok?;
  }

  /** White space between and around the fields does not matter. */
  lemma LayoutIsIrrelevant(before: string, fields: seq<string>, gaps: seq<string>, after: string)
    requires |fields| == |gaps| + 1 && IsGap(before) && IsGap(after)
    requires forall i :: 0 <= i < |fields| ==> IsField(fields[i])
    requires forall i :: 0 <= i < |gaps| ==> gaps[i] != "" && IsGap(gaps[i])
    ensures ParseCron(before + Spaced(fields, gaps) + after) == ParseFields(fields)
  {
    WordsOfLayout(before, fields, gaps, after);
  }

  lemma JoinOfFive(words: seq<string>)
    requires |words| == 5
    ensures JoinWords(words) == words[0] + " " + (words[1] + " " + (words[2] + " " + (words[3] + " " + words[4])))
  {
    var a, b, c := words[1..], words[2..], words[3..];
    assert a[1..] == b && b[1..] == c && c[1..] == [words[4]];
    assert JoinWords(c) == words[3] + " " + words[4];
    assert JoinWords(b) == words[2] + " " + JoinWords(c);
  }

  /** Normalization accepts exactly the parsable expressions of at most 256 bytes, so its second bound check
      cannot fail. It gives the five fields joined by single spaces, which keeps the schedule, never lengthens the
      text, and has nothing left to do after. */
  lemma NormalizeKeepsSchedule(expression: string)
    ensures var n, fields := NormalizeCronExpression(expression), Words(Trim(expression));
            (n.Ok? <==> 1 <= Utf8ByteLength(expression) <= 256 && ParseCron(expression).Ok?) &&
            (n.Ok? ==> |fields| == 5 &&
                       n.value == fields[0] + " " + (fields[1] + " " + (fields[2] + " " + (fields[3] + " " + fields[4])))) &&
            (n.Ok? ==> ParseCron(n.value) == ParseCron(expression) &&
                       Utf8ByteLength(n.value) <= Utf8ByteLength(expression) &&
                       NormalizeCronExpression(n.value) == n)
  {
    if ParseCron(expression).Ok? {
      NormalizedText(expression);
      NormalizedFields(expression);
    }
  }

  lemma NormalizedFields(expression: string)
    requires ParseCron(expression).Ok?
    ensures var fields := Words(Trim(expression));
            |fields| == 5 &&
            JoinWords(fields) == fields[0] + " " + (fields[1] + " " + (fields[2] + " " + (fields[3] + " " + fields[4])))
  {
    JoinOfFive(Words(Trim(expression)));
  }
}
