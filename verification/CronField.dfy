/** One numeric cron field: its grammar, the values it denotes, and the loop that collects them. */
module CronField {
  import opened Common
  import opened CronText

  /** The captures of the segment pattern: a star, a number or a range, then an optional step. */
  datatype Base = Star | Single(digits: string) | Range(first: string, last: string)
  datatype Segment = Segment(base: Base, step: Option<string>)

  predicate IsDigit(c: char) { '0' <= c <= '9' }

  predicate IsDigits(s: string) {
    s != "" && forall i :: 0 <= i < |s| ==> IsDigit(s[i])
  }

  function MatchBase(s: string): Option<Base> {
    if s == "*" then Some(Star)
    else
      var ends := SplitOn(s, '-');
      if |ends| == 1 && IsDigits(s) then Some(Single(s))
      else if |ends| == 2 && IsDigits(ends[0]) && IsDigits(ends[1]) then Some(Range(ends[0], ends[1]))
      else None
  }

  /** The match of a whole segment against (*, N or N-N) followed by an optional /N. */
  function MatchSegment(part: string): Option<Segment> {
    var pieces := SplitOn(part, '/');
    var base := MatchBase(pieces[0]);
    if base.None? then None
    else if |pieces| == 1 then Some(Segment(base.value, None))
    else if |pieces| == 2 && IsDigits(pieces[1]) then Some(Segment(base.value, Some(pieces[1])))
    else None
  }

  predicate WellFormed(seg: Segment) {
    (match seg.base
     case Star => true
     case Single(d) => IsDigits(d)
     case Range(a, b) => IsDigits(a) && IsDigits(b)) &&
    (seg.step.Some? ==> IsDigits(seg.step.value))
  }

  function BaseText(base: Base): string {
    match base
    case Star => "*"
    case Single(d) => d
    case Range(a, b) => a + "-" + b
  }

  function SegmentText(seg: Segment): string {
    BaseText(seg.base) + if seg.step.Some? then "/" + seg.step.value else ""
  }

  lemma SplitShape(s: string, c: char)
    ensures |SplitOn(s, c)| == 1 ==> s == SplitOn(s, c)[0]
    ensures |SplitOn(s, c)| == 2 ==> s == SplitOn(s, c)[0] + [c] + SplitOn(s, c)[1]
  {
    var k := RunUntil(s, c);
    if k < |s| {
      var rest := s[k + 1..];
      var j := RunUntil(rest, c);
      assert s == s[..k] + [c] + rest;
      if j == |rest| { assert rest[..j] == rest; }
    }
  }

  lemma {:induction false} SplitFirst(a: string, c: char, rest: string)
    requires c !in a
    ensures SplitOn(a + [c] + rest, c) == [a] + SplitOn(rest, c)
    ensures SplitOn(a, c) == [a]
  {
    RunUpTo(a, c, [c] + rest);
    RunUpTo(a, c, "");
    assert a + "" == a && a + ([c] + rest) == a + [c] + rest;
    var s := a + [c] + rest;
    assert s[..|a|] == a && s[|a| + 1..] == rest;
  }

  lemma {:induction false} RunUpTo(a: string, c: char, rest: string)
    requires c !in a && (rest != "" ==> rest[0] == c)
    ensures RunUntil(a + rest, c) == |a|
    decreases |a|
  {
    if a == "" {
      assert a + rest == rest;
    } else {
      assert (a + rest)[1..] == a[1..] + rest;
      RunUpTo(a[1..], c, rest);
    }
  }

  /** The grammar read backwards: a segment matches exactly the text it prints. */
  lemma MatchInvertsText(part: string, seg: Segment)
    ensures MatchSegment(part) == Some(seg) <==> WellFormed(seg) && part == SegmentText(seg)
  {
    if WellFormed(seg) { TextMatches(seg); }
    if MatchSegment(part).Some? { MatchedText(part); }
  }

  lemma MatchedText(part: string)
    requires MatchSegment(part).Some?
    ensures var seg := MatchSegment(part).value; WellFormed(seg) && part == SegmentText(seg)
  {
    SplitShape(part, '/');
    MatchedBase(SplitOn(part, '/')[0]);
  }

  lemma MatchedBase(s: string)
    requires MatchBase(s).Some?
    ensures WellFormed(Segment(MatchBase(s).value, None)) && s == BaseText(MatchBase(s).value)
  {
    SplitShape(s, '-');
  }

  lemma TextMatches(seg: Segment)
    requires WellFormed(seg)
    ensures MatchSegment(SegmentText(seg)) == Some(seg)
  {
    var base := BaseText(seg.base);
    BaseMatches(seg.base);
    if seg.step.Some? {
      SplitAtSlash(base, seg.step.value);
    } else {
      SplitFirst(base, '/', "");
      assert SegmentText(seg) == base;
    }
  }

  lemma SplitAtSlash(base: string, step: string)
    requires '/' !in base && '/' !in step
    ensures SplitOn(base + ("/" + step), '/') == [base, step]
  {
    assert base + ("/" + step) == base + ['/'] + step;
    SplitFirst(base, '/', step);
    SplitFirst(step, '/', "");
  }

  lemma BaseMatches(base: Base)
    requires WellFormed(Segment(base, None))
    ensures MatchBase(BaseText(base)) == Some(base) && '/' !in BaseText(base)
  {
    match base
    case Star =>
    case Single(d) => SplitFirst(d, '-', "");
    case Range(a, b) =>
      SplitFirst(a, '-', b);
      SplitFirst(b, '-', "");
      assert BaseText(base) == a + ['-'] + b;
  }

  function Number(digits: string): nat
    requires forall i :: 0 <= i < |digits| ==> IsDigit(digits[i])
  {
    if digits == "" then 0
    else
      assert IsDigit(digits[|digits| - 1]);
      10 * Number(digits[..|digits| - 1]) + (digits[|digits| - 1] as int - '0' as int)
  }

  function PowerOfTwo(n: nat): nat { if n == 0 then 1 else 2 * PowerOfTwo(n - 1) }

  /** Number() rounds values from here on to Infinity, which is not an integer. */
  predicate Overflows(n: nat) { n >= PowerOfTwo(1024) - PowerOfTwo(970) }

  datatype Progression = Progression(start: int, end: int, step: int)

  predicate InProgression(p: Progression, v: int)
    requires p.step > 0
  {
    p.start <= v <= p.end && (v - p.start) % p.step == 0
  }

  function CheckedValue(digits: string, min: int, max: int): Result<int>
    requires IsDigits(digits)
  {
    var value := Number(digits);
    if min <= value <= max then Ok(value) else Err("Invalid cron value")
  }

  /** The start, end and step that a trimmed segment stands for. */
  function ParseSegment(part: string, min: int, max: int): (r: Result<Progression>)
    ensures r.Ok? ==> r.value.step > 0
  {
    if part == "" then Err("Invalid empty cron field segment")
    else
      var m := MatchSegment(part);
      if m.None? then Err("Unsupported cron field")
      else
        var step := if m.value.step.None? then 1 else Number(m.value.step.value);
        if step <= 0 || Overflows(step) then Err("Invalid cron step")
        else match m.value.base
          case Star => Ok(Progression(min, max, step))
          case Range(rawStart, rawEnd) =>
            var start := CheckedValue(rawStart, min, max);
            var end := CheckedValue(rawEnd, min, max);
            if start.Err? then Err(start.message)
            else if end.Err? then Err(end.message)
            else if start.value > end.value then Err("Invalid cron range")
            else Ok(Progression(start.value, end.value, step))
          case Single(digits) =>
            var start := CheckedValue(digits, min, max);
            if start.Err? then Err(start.message)
            else Ok(Progression(start.value, if m.value.step.None? then start.value else max, step))
  }

  function ValuesOf(p: Progression): set<int>
    requires p.step > 0
  {
    set v | p.start <= v <= p.end && InProgression(p, v)
  }

  function SegmentValues(part: string, min: int, max: int): Result<set<int>> {
    var p := ParseSegment(Trim(part), min, max);
    if p.Err? then Err(p.message) else Ok(ValuesOf(p.value))
  }

  function AllSegments(parts: seq<string>, min: int, max: int): (segments: seq<Result<set<int>>>)
    ensures |segments| == |parts|
  {
    if parts == [] then [] else [SegmentValues(parts[0], min, max)] + AllSegments(parts[1..], min, max)
  }

  lemma {:induction false} SegmentAt(parts: seq<string>, i: nat, min: int, max: int)
    requires i < |parts|
    ensures AllSegments(parts, min, max)[i] == SegmentValues(parts[i], min, max)
    decreases |parts|
  {
    if i > 0 { SegmentAt(parts[1..], i - 1, min, max); }
  }

  /** The union of the first `k` results, or the first error. */
  function Collect(results: seq<Result<set<int>>>, k: nat): Result<set<int>>
    requires k <= |results|
  {
    if k == 0 then Ok({})
    else
      var before := Collect(results, k - 1);
      if before.Err? then before
      else if results[k - 1].Err? then results[k - 1]
      else Ok(before.value + results[k - 1].value)
  }

  /** What a field denotes. */
  function FieldValues(field: string, min: int, max: int): Result<set<int>> {
    var parts := SplitOn(field, ',');
    Collect(AllSegments(parts, min, max), |parts|)
  }

  /** Collecting the values by stepping through each segment. */
  method ParseCronField(field: string, min: int, max: int) returns (r: Result<set<int>>)
    ensures r == FieldValues(field, min, max)
  {
    var parts := SplitOn(field, ',');
    ghost var segments := AllSegments(parts, min, max);
    r := Ok({});
    var i := 0;
    while i < |parts|
      invariant 0 <= i <= |parts|
      invariant r.Ok? && r == Collect(segments, i)
    {
      r := CollectSegment(r.value, parts, i, min, max, segments);
      if r.Err? {
        ErrorStays(segments, i + 1);
        return;
      }
      i := i + 1;
    }
  }

  /** The loop body: one more segment's values, or its error. */
  method CollectSegment(values: set<int>, parts: seq<string>, i: nat, min: int, max: int,
                        ghost segments: seq<Result<set<int>>>)
    returns (r: Result<set<int>>)
    requires segments == AllSegments(parts, min, max) && i < |segments| && Collect(segments, i) == Ok(values)
    ensures r == Collect(segments, i + 1)
  {
    SegmentAt(parts, i, min, max);
    var parsed := ParseSegment(Trim(parts[i]), min, max);
    if parsed.Err? {
      return Err(parsed.message);
    }
    var all := AddProgression(values, parsed.value);
    return Ok(all);
  }

  lemma {:induction false} ErrorStays(results: seq<Result<set<int>>>, k: nat)
    requires k <= |results| && Collect(results, k).Err?
    ensures Collect(results, |results|) == Collect(results, k)
    decreases |results| - k
  {
    if k < |results| { ErrorStays(results, k + 1); }
  }

  method AddProgression(values: set<int>, p: Progression) returns (all: set<int>)
    requires p.step > 0
    ensures all == values + ValuesOf(p)
  {
    all := values;
    var value := p.start;
    while value <= p.end
      invariant p.start <= value && (value - p.start) % p.step == 0
      invariant all == values + set v | p.start <= v <= p.end && InProgression(p, v) && v < value
      decreases p.end - value
    {
      StepsToNext(p, value);
      all := all + {value};
      value := value + p.step;
    }
  }

  lemma StepsToNext(p: Progression, value: int)
    requires p.step > 0 && p.start <= value && (value - p.start) % p.step == 0
    ensures (value + p.step - p.start) % p.step == 0
    ensures forall v :: InProgression(p, v) && v < value + p.step ==> v <= value
  {
    var q := (value - p.start) / p.step;
    assert value - p.start == p.step * q;
    assert value + p.step - p.start == p.step * (q + 1);
    MultipleModulo(p.step, q + 1);
    forall v | InProgression(p, v) && v < value + p.step
      ensures v <= value
    {
      var k := (v - p.start) / p.step;
      assert v - p.start == p.step * k;
      NextMultiple(p.step, q, k);
    }
  }

  lemma MultipleModulo(d: int, q: int)
    requires d > 0
    ensures d * q % d == 0
  {
    DivideBy(d * q, d, q, 0);
  }

  lemma NextMultiple(d: int, q: int, k: int)
    requires d > 0 && d * k < d * (q + 1)
    ensures d * k <= d * q
  {
    if k > q { Scale(d, q + 1, k); } else { Scale(d, k, q); }
  }

  lemma Scale(d: int, a: int, b: int)
    requires d > 0 && a <= b
    ensures d * a <= d * b
  {
  }

  predicate Denotes(part: string, min: int, max: int, v: int) {
    var p := ParseSegment(Trim(part), min, max);
    p.Ok? && InProgression(p.value, v)
  }

  lemma SegmentDenotes(part: string, min: int, max: int, v: int)
    requires SegmentValues(part, min, max).Ok?
    ensures v in SegmentValues(part, min, max).value <==> Denotes(part, min, max, v)
  {
  }

  lemma {:induction false} CollectMembers(results: seq<Result<set<int>>>, k: nat, v: int)
    requires k <= |results| && Collect(results, k).Ok?
    ensures forall i :: 0 <= i < k ==> results[i].Ok?
    ensures v in Collect(results, k).value <==> exists i :: 0 <= i < k && results[i].Ok? && v in results[i].value
    decreases k
  {
    if k > 0 { CollectMembers(results, k - 1, v); }
  }

  /** A value is in the field exactly when one of its comma-separated segments lists it. */
  lemma FieldDenotes(field: string, min: int, max: int, v: int)
    requires FieldValues(field, min, max).Ok?
    ensures v in FieldValues(field, min, max).value <==>
            exists part :: part in SplitOn(field, ',') && Denotes(part, min, max, v)
  {
    var parts := SplitOn(field, ',');
    var segments := AllSegments(parts, min, max);
    CollectMembers(segments, |parts|, v);
    if v in FieldValues(field, min, max).value {
      var i :| 0 <= i < |parts| && segments[i].Ok? && v in segments[i].value;
      SegmentAt(parts, i, min, max);
      SegmentDenotes(parts[i], min, max, v);
    }
    if part :| part in parts && Denotes(part, min, max, v) {
      var i :| 0 <= i < |parts| && parts[i] == part;
      SegmentAt(parts, i, min, max);
      SegmentDenotes(parts[i], min, max, v);
    }
  }

  lemma SegmentInRange(part: string, min: int, max: int)
    requires min <= max && ParseSegment(part, min, max).Ok?
    ensures var p := ParseSegment(part, min, max).value; min <= p.start <= p.end <= max
  {
  }

  lemma StartIsDenoted(part: string, min: int, max: int)
    requires min <= max && ParseSegment(Trim(part), min, max).Ok?
    ensures Denotes(part, min, max, ParseSegment(Trim(part), min, max).value.start)
  {
    SegmentInRange(Trim(part), min, max);
  }

  lemma DenotedInRange(part: string, min: int, max: int, v: int)
    requires min <= max && Denotes(part, min, max, v)
    ensures min <= v <= max
  {
    SegmentInRange(Trim(part), min, max);
  }

  /** A parsed field is never empty and stays within its bounds. */
  lemma FieldInRange(field: string, min: int, max: int)
    requires min <= max && FieldValues(field, min, max).Ok?
    ensures FieldValues(field, min, max).value != {}
    ensures forall v :: v in FieldValues(field, min, max).value ==> min <= v <= max
  {
    var parts := SplitOn(field, ',');
    CollectMembers(AllSegments(parts, min, max), |parts|, 0);
    SegmentAt(parts, 0, min, max);
    assert AllSegments(parts, min, max)[0].Ok?;
    StartIsDenoted(parts[0], min, max);
    FieldDenotes(field, min, max, ParseSegment(Trim(parts[0]), min, max).value.start);
    forall v | v in FieldValues(field, min, max).value
      ensures min <= v <= max
    {
      FieldDenotes(field, min, max, v);
      var part :| part in parts && Denotes(part, min, max, v);
      DenotedInRange(part, min, max, v);
    }
  }

  function Nth(start: int, step: int, k: nat): int { start + step * k }

  /** `v` is one of start, start + step, start + 2 * step, ... up to `end`. */
  ghost predicate IsStepUpTo(start: int, end: int, step: int, v: int) {
    v <= end && exists k: nat :: Nth(start, step, k) == v
  }

  lemma ProgressionIsSteps(p: Progression, v: int)
    requires p.step > 0
    ensures InProgression(p, v) <==> IsStepUpTo(p.start, p.end, p.step, v)
  {
    if InProgression(p, v) {
      var k := (v - p.start) / p.step;
      assert v - p.start == p.step * k;
      ProductBound(p.step, k);
      assert Nth(p.start, p.step, k) == v;
    }
    if IsStepUpTo(p.start, p.end, p.step, v) {
      var k: nat :| Nth(p.start, p.step, k) == v;
      ProductBound(p.step, k);
      DivideBy(v - p.start, p.step, k, 0);
    }
  }

  function StepOf(seg: Segment): nat
    requires WellFormed(seg)
  {
    if seg.step.Some? then Number(seg.step.value) else 1
  }

  predicate Within(digits: string, min: int, max: int)
    requires IsDigits(digits)
  {
    min <= Number(digits) <= max
  }

  /** Which values a well-formed segment stands for: a star runs over the whole field, a lone number is itself,
      a number with a step runs on to the end of the field, and a range to its own end. */
  ghost predicate StandsFor(seg: Segment, min: int, max: int, v: int)
    requires WellFormed(seg)
  {
    var step := StepOf(seg);
    0 < step && !Overflows(step) &&
    match seg.base
    case Star => IsStepUpTo(min, max, step, v)
    case Single(d) => Within(d, min, max) && if seg.step.None? then v == Number(d) else IsStepUpTo(Number(d), max, step, v)
    case Range(a, b) =>
      Within(a, min, max) && Within(b, min, max) && Number(a) <= Number(b) && IsStepUpTo(Number(a), Number(b), step, v)
  }

  lemma DigitsHaveNoSpace(d: string)
    requires IsDigits(d)
    ensures NoSpaces(d) && d != ""
  {
  }

  lemma SegmentIsTrimmed(seg: Segment)
    requires WellFormed(seg)
    ensures SegmentText(seg) != "" && Trim(SegmentText(seg)) == SegmentText(seg)
  {
    BaseIsWord(seg.base);
    if seg.step.Some? {
      DigitsHaveNoSpace(seg.step.value);
      assert NoSpaces("/" + seg.step.value);
    }
    TrimOfTrimmed(SegmentText(seg));
  }

  lemma BaseIsWord(base: Base)
    requires WellFormed(Segment(base, None))
    ensures IsWord(BaseText(base))
  {
    match base
    case Star =>
    case Single(d) => DigitsHaveNoSpace(d);
    case Range(a, b) =>
      DigitsHaveNoSpace(a);
      DigitsHaveNoSpace(b);
  }

  /** The text of a segment denotes exactly the values that its grammar lists. */
  lemma SegmentTextDenotes(seg: Segment, min: int, max: int, v: int)
    requires WellFormed(seg) && min <= max
    ensures Denotes(SegmentText(seg), min, max, v) <==> StandsFor(seg, min, max, v)
  {
    SegmentIsTrimmed(seg);
    TextMatches(seg);
    var p := ParseSegment(SegmentText(seg), min, max);
    if p.Ok? {
      ProgressionIsSteps(p.value, v);
      if seg.base.Single? && seg.step.None? { OnlyItself(Number(seg.base.digits), v); }
    }
  }

  lemma OnlyItself(n: int, v: int)
    ensures IsStepUpTo(n, n, 1, v) <==> v == n
  {
    assert Nth(n, 1, 0) == n;
  }

  function Zeros(k: nat): string { seq(k, _ => '0') }

  /** The digits are the number in decimal, with any number of leading zeros. */
  ghost predicate IsDecimal(digits: string, n: nat) {
    exists k: nat :: digits == Zeros(k) + NatText(n)
  }

  lemma NumberOfMore(digits: string, c: char)
    requires IsDigit(c) && forall i :: 0 <= i < |digits| ==> IsDigit(digits[i])
    ensures IsDigits(digits + [c]) && Number(digits + [c]) == 10 * Number(digits) + (c as int - '0' as int)
  {
    assert (digits + [c])[..|digits|] == digits;
  }

  lemma {:induction false} ZerosRead(k: nat)
    ensures (forall i :: 0 <= i < k ==> IsDigit(Zeros(k)[i])) && Number(Zeros(k)) == 0
    decreases k
  {
    if k > 0 {
      ZerosRead(k - 1);
      assert Zeros(k) == Zeros(k - 1) + ['0'];
      NumberOfMore(Zeros(k - 1), '0');
    }
  }

  lemma DigitChar(d: nat)
    requires d < 10
    ensures IsDigit(DIGITS[d]) && DIGITS[d] as int - '0' as int == d
  {
  }

  lemma DigitText(d: nat)
    requires d < 10
    ensures NatText(d) == [DIGITS[d]]
    ensures IsDigit(DIGITS[d]) && DIGITS[d] as int - '0' as int == d
  {
    DigitChar(d);
    assert d % 10 == d;
  }

  lemma LastDigit(n: nat)
    requires n >= 10
    ensures NatText(n) == NatText(n / 10) + [DIGITS[n % 10]]
  {
  }

  lemma {:induction false} DecimalReads(k: nat, n: nat)
    ensures IsDigits(Zeros(k) + NatText(n)) && Number(Zeros(k) + NatText(n)) == n
    decreases n
  {
    if n < 10 {
      DigitText(n);
      ZerosRead(k);
      NumberOfMore(Zeros(k), NatText(n)[0]);
    } else {
      LastDigit(n);
      DigitText(n % 10);
      DecimalReads(k, n / 10);
      MoreReads(k, n / 10, DIGITS[n % 10]);
    }
  }

  lemma MoreReads(k: nat, n: nat, c: char)
    requires IsDigit(c) && IsDigits(Zeros(k) + NatText(n)) && Number(Zeros(k) + NatText(n)) == n
    ensures IsDigits(Zeros(k) + (NatText(n) + [c]))
    ensures Number(Zeros(k) + (NatText(n) + [c])) == 10 * n + (c as int - '0' as int)
  {
    NumberOfMore(Zeros(k) + NatText(n), c);
    assert Zeros(k) + NatText(n) + [c] == Zeros(k) + (NatText(n) + [c]);
  }

  lemma {:induction false} DigitsAreDecimal(digits: string, n: nat) returns (k: nat)
    requires IsDigits(digits) && Number(digits) == n
    ensures digits == Zeros(k) + NatText(n)
    decreases |digits|
  {
    var j := |digits| - 1;
    if j == 0 {
      k := 0;
      assert digits == [digits[0]] && IsDigit(digits[0]);
      SingleDigit(digits[0]);
    } else {
      var before, c := digits[..j], digits[j];
      LastOf(digits);
      assert IsDigit(c) && IsDigits(before);
      var m := Number(before);
      k := DigitsAreDecimal(before, m);
      NumberOfMore(before, c);
      DigitOf(c);
      k := OneMoreDigit(k, m, c as int - '0' as int);
    }
  }

  lemma SingleDigit(c: char)
    requires IsDigit(c)
    ensures IsDigits([c]) && Number([c]) == c as int - '0' as int && [c] == Zeros(0) + NatText(c as int - '0' as int)
  {
    NumberOfMore("", c);
    assert "" + [c] == [c];
    OneDigit(c);
    assert Zeros(0) + [c] == [c];
  }

  lemma LastOf(s: string)
    requires s != ""
    ensures s == s[..|s| - 1] + [s[|s| - 1]]
  {
  }

  lemma DigitOf(c: char)
    requires IsDigit(c)
    ensures DIGITS[c as int - '0' as int] == c
  {
  }

  lemma OneDigit(c: char)
    requires IsDigit(c)
    ensures NatText(c as int - '0' as int) == [c]
  {
    DigitOf(c);
    DigitText(c as int - '0' as int);
  }

  lemma OneMoreDigit(k: nat, n: nat, d: nat) returns (j: nat)
    requires d < 10
    ensures Zeros(k) + NatText(n) + [DIGITS[d]] == Zeros(j) + NatText(10 * n + d)
  {
    if n == 0 {
      j := k + 1;
      DigitText(d);
      DigitText(0);
      OneMoreZero(k);
    } else {
      j := k;
      TextOfMore(n, d);
      Regroup(Zeros(k), NatText(n), [DIGITS[d]]);
    }
  }

  lemma OneMoreZero(k: nat)
    ensures Zeros(k) + ['0'] == Zeros(k + 1)
  {
  }

  lemma Regroup(a: string, b: string, c: string)
    ensures a + b + c == a + (b + c)
  {
  }

  lemma TextOfMore(n: nat, d: nat)
    requires n > 0 && d < 10
    ensures NatText(10 * n + d) == NatText(n) + [DIGITS[d]]
  {
    DivideBy(10 * n + d, 10, n, d);
    LastDigit(10 * n + d);
  }

  /** Digits are read in decimal: they have a value exactly when they are its decimal text, leading zeros aside. */
  lemma NumberReadsDecimal(digits: string, n: nat)
    ensures IsDigits(digits) && Number(digits) == n <==> IsDecimal(digits, n)
  {
    if IsDigits(digits) { var k := DigitsAreDecimal(digits, Number(digits)); }
    if k: nat :| digits == Zeros(k) + NatText(n) { DecimalReads(k, n); }
  }

  lemma {:induction false} PowersGrow(n: nat)
    ensures PowerOfTwo(n) > n
    decreases n
  {
    if n > 0 { PowersGrow(n - 1); }
  }

  lemma {:induction false} PowersInOrder(a: nat, b: nat)
    requires a <= b
    ensures PowerOfTwo(a) <= PowerOfTwo(b)
    decreases b
  {
    if a < b { PowersInOrder(a, b - 1); }
  }

  /** Only astronomic steps overflow; no step that a field has room for does. */
  lemma OnlyHugeOverflows(n: nat)
    ensures Overflows(n) ==> n >= PowerOfTwo(1023)
    ensures PowerOfTwo(1024) <= n ==> Overflows(n)
    ensures n <= 1023 ==> !Overflows(n)
  {
    PowersInOrder(970, 1023);
    PowersGrow(1023);
    assert PowerOfTwo(1024) == 2 * PowerOfTwo(1023);
  }

  lemma OneByOne(start: int, end: int, v: int)
    ensures IsStepUpTo(start, end, 1, v) <==> start <= v <= end
  {
    if start <= v { assert Nth(start, 1, v - start) == v; }
  }

  /** The text of a base, alone and with a step, denotes what the grammar says. */
  lemma TextMeans(base: Base, step: string, min: int, max: int, v: int)
    requires WellFormed(Segment(base, Some(step))) && min <= max
    ensures Denotes(BaseText(base), min, max, v) <==> StandsFor(Segment(base, None), min, max, v)
    ensures Denotes(BaseText(base) + "/" + step, min, max, v) <==> StandsFor(Segment(base, Some(step)), min, max, v)
  {
    assert SegmentText(Segment(base, None)) == BaseText(base);
    assert BaseText(base) + ("/" + step) == BaseText(base) + "/" + step;
    SegmentTextDenotes(Segment(base, None), min, max, v);
    SegmentTextDenotes(Segment(base, Some(step)), min, max, v);
  }

  /** A star means the whole field, and with a step every n-th value of it. */
  lemma StarMeans(step: string, n: nat, min: int, max: int, v: int)
    requires IsDecimal(step, n) && min <= max
    ensures Denotes("*", min, max, v) <==> min <= v <= max
    ensures Denotes("*/" + step, min, max, v) <==> 0 < n && !Overflows(n) && IsStepUpTo(min, max, n, v)
  {
    NumberReadsDecimal(step, n);
    StarStands(step, min, max, v);
    TextMeans(Star, step, min, max, v);
    assert "*" + "/" + step == "*/" + step;
  }

  lemma StarStands(step: string, min: int, max: int, v: int)
    requires IsDigits(step)
    ensures StandsFor(Segment(Star, None), min, max, v) <==> min <= v <= max
    ensures StandsFor(Segment(Star, Some(step)), min, max, v) <==>
            0 < Number(step) && !Overflows(Number(step)) && IsStepUpTo(min, max, Number(step), v)
  {
    OnlyHugeOverflows(1);
    OneByOne(min, max, v);
  }

  /** A number means itself, and with a step every n-th value from it to the end of the field. */
  lemma NumberMeans(first: string, x: nat, step: string, n: nat, min: int, max: int, v: int)
    requires IsDecimal(first, x) && IsDecimal(step, n) && min <= max
    ensures Denotes(first, min, max, v) <==> min <= x <= max && v == x
    ensures Denotes(first + "/" + step, min, max, v) <==>
            0 < n && !Overflows(n) && min <= x <= max && IsStepUpTo(x, max, n, v)
  {
    NumberReadsDecimal(first, x);
    NumberReadsDecimal(step, n);
    SingleStands(first, step, min, max, v);
    TextMeans(Single(first), step, min, max, v);
  }

  lemma SingleStands(first: string, step: string, min: int, max: int, v: int)
    requires IsDigits(first) && IsDigits(step)
    ensures StandsFor(Segment(Single(first), None), min, max, v) <==> min <= Number(first) <= max && v == Number(first)
    ensures StandsFor(Segment(Single(first), Some(step)), min, max, v) <==>
            0 < Number(step) && !Overflows(Number(step)) && min <= Number(first) <= max &&
            IsStepUpTo(Number(first), max, Number(step), v)
  {
    OnlyHugeOverflows(1);
  }

  /** A range means every value from its first to its last number, or every n-th of them. */
  lemma RangeMeans(first: string, x: nat, last: string, y: nat, step: string, n: nat, min: int, max: int, v: int)
    requires IsDecimal(first, x) && IsDecimal(last, y) && IsDecimal(step, n) && min <= max
    ensures Denotes(first + "-" + last, min, max, v) <==> min <= x <= v <= y <= max
    ensures Denotes(first + "-" + last + "/" + step, min, max, v) <==>
            0 < n && !Overflows(n) && min <= x <= y <= max && IsStepUpTo(x, y, n, v)
  {
    NumberReadsDecimal(first, x);
    NumberReadsDecimal(last, y);
    NumberReadsDecimal(step, n);
    RangeStands(first, last, None, min, max, v);
    RangeStands(first, last, Some(step), min, max, v);
    OnlyHugeOverflows(1);
    OneByOne(x, y, v);
    TextMeans(Range(first, last), step, min, max, v);
  }

  lemma RangeStands(first: string, last: string, step: Option<string>, min: int, max: int, v: int)
    requires WellFormed(Segment(Range(first, last), step))
    ensures var x, y, n := Number(first), Number(last), StepOf(Segment(Range(first, last), step));
            StandsFor(Segment(Range(first, last), step), min, max, v) <==>
            0 < n && !Overflows(n) && min <= x <= y <= max && IsStepUpTo(x, y, n, v)
  {
  }
}
