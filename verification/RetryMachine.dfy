/** HTTPClient.do of the Go SDK: which replies are retried, how often and how long, against any server.
    Durations are int64 nanoseconds with wrap-around. */
module RetryMachine {
  import opened Common

  const SECOND: int := 1_000_000_000
  const MILLISECOND: int := 1_000_000
  const MAX_RETRIES: int := 3

  datatype Body = Empty | Array | Object | Garbage

  /** What one send meets: a transport error, a body that cannot be read, or a complete response.
      `retryAfter` is the Retry-After header when it parses as an int64. */
  datatype Reply =
    | TransportError(retryable: bool)
    | ReadError
    | Response(status: int, retryAfter: Option<int>, body: Body)

  /** One round of the adversary: the reply, the random number for jitter, and whether the context is
      cancelled during the wait that may follow. */
  datatype Round = Round(reply: Reply, random: real, cancelled: bool)

  datatype Outcome = Nil | Items | Value | DecodeError | HttpError(status: int) | NetworkError | ReadFailure | Cancelled

  function Wrap64(n: int): int {
    (n + 0x8000_0000_0000_0000) % 0x1_0000_0000_0000_0000 - 0x8000_0000_0000_0000
  }

  function Truncate(x: real): int {
    if x >= 0.0 then x.Floor else -((-x).Floor)
  }

  function Jitter(baseDelay: int, random: real): int {
    Truncate(baseDelay as real * 0.25 * random)
  }

  /** The base delay of a positive Retry-After, after wrap-around. */
  function HeaderDelay(seconds: int): int { Wrap64(seconds * SECOND) }

  function Capped(delay: int): int {
    if delay > 10 * SECOND then 10 * SECOND else delay
  }

  function ParseRetryAfterDelay(header: Option<int>, attempt: nat, random: real): int {
    var backoff := [1, 2, 4, 8][if attempt < 4 then attempt else 3] * 1000 * MILLISECOND;
    var baseDelay := if header.Some? && header.value > 0 then HeaderDelay(header.value) else backoff;
    Capped(Wrap64(baseDelay + Jitter(baseDelay, random)))
  }

  function Upper(s: string): string {
    seq(|s|, i requires 0 <= i < |s| => if 'a' <= s[i] <= 'z' then (s[i] as int - 32) as char else s[i])
  }

  predicate IsIdempotentMethod(verb: string) {
    Upper(verb) in ["GET", "PUT", "DELETE", "HEAD", "OPTIONS"]
  }

  /** The replies after which the loop waits and goes round again. */
  predicate Retries(verb: string, attempt: nat, reply: Reply) {
    match reply
    case TransportError(retryable) => attempt < 2 && IsIdempotentMethod(verb) && retryable
    case ReadError => false
    case Response(status, _, _) => status == 429 && attempt < MAX_RETRIES
  }

  function Wait(attempt: nat, round: Round): int {
    match round.reply
    case TransportError(_) => 50 * (attempt + 1) * MILLISECOND
    case ReadError => 0
    case Response(_, header, _) => ParseRetryAfterDelay(header, attempt, round.random)
  }

  /** The answer that the last reply leads to. */
  function Answer(reply: Reply): Outcome {
    match reply
    case TransportError(_) => NetworkError
    case ReadError => ReadFailure
    case Response(status, _, body) =>
      if status >= 400 then HttpError(status)
      else if body.Empty? || status == 204 then Nil
      else if body.Array? then Items
      else if body.Object? then Value
      else DecodeError
  }

  /** Time spent in the waits after the first `n` rounds; a negative duration does not wait. */
  function Waited(server: nat -> Round, n: nat): int {
    if n == 0 then 0
    else Waited(server, n - 1) + var w := Wait(n - 1, server(n - 1)); if w > 0 then w else 0
  }

  lemma OneWaitIsBounded(attempt: nat, round: Round)
    requires attempt < 4
    ensures Wait(attempt, round) <= 10 * SECOND
  {
  }

  lemma {:induction false} WaitsAreBounded(server: nat -> Round, n: nat)
    requires n <= 3
    ensures 0 <= Waited(server, n) <= n * 10 * SECOND
    decreases n
  {
    if n > 0 {
      WaitsAreBounded(server, n - 1);
      OneWaitIsBounded(n - 1, server(n - 1));
    }
  }

  /** What a call does: the rounds before the last are retried and not cancelled; the last one decides. */
  ghost predicate IsCall(verb: string, server: nat -> Round, sends: nat, waits: nat, outcome: Outcome) {
    1 <= sends <= 4 &&
    (forall i :: 0 <= i < sends - 1 ==> Retries(verb, i, server(i).reply) && !server(i).cancelled) &&
    if Retries(verb, sends - 1, server(sends - 1).reply)
    then server(sends - 1).cancelled && outcome == Cancelled && waits == sends
    else outcome == Answer(server(sends - 1).reply) && waits == sends - 1
  }

  /** Against any server: between one and four sends, and the code after the loop is never reached. */
  method Do(verb: string, server: nat -> Round) returns (outcome: Outcome, sends: nat, waits: nat)
    ensures IsCall(verb, server, sends, waits, outcome)
  {
    var attempt := 0;
    sends, waits := 0, 0;
    while attempt <= MAX_RETRIES
      invariant 0 <= attempt <= MAX_RETRIES && sends == attempt && waits == attempt
      invariant forall i :: 0 <= i < attempt ==> Retries(verb, i, server(i).reply) && !server(i).cancelled
      decreases MAX_RETRIES - attempt
    {
      var round := server(attempt);
      sends := sends + 1;
      match round.reply {
        case TransportError(retryable) =>
          if attempt < 2 && IsIdempotentMethod(verb) && retryable {
            waits := waits + 1;
            if round.cancelled {
              return Cancelled, sends, waits;
            }
          } else {
            return NetworkError, sends, waits;
          }
        case ReadError =>
          return ReadFailure, sends, waits;
        case Response(status, _, body) =>
          if status == 429 && attempt < MAX_RETRIES {
            waits := waits + 1;
            if round.cancelled {
              return Cancelled, sends, waits;
            }
          } else if status >= 400 {
            return HttpError(status), sends, waits;
          } else if body.Empty? || status == 204 {
            return Nil, sends, waits;
          } else if body.Array? {
            return Items, sends, waits;
          } else if body.Object? {
            return Value, sends, waits;
          } else {
            return DecodeError, sends, waits;
          }
      }
      attempt := attempt + 1;
    }
    assert false; // the last attempt always returns
  }

  /** At most four sends and thirty seconds of waiting. */
  lemma CallIsBounded(verb: string, server: nat -> Round, sends: nat, waits: nat, outcome: Outcome)
    requires IsCall(verb, server, sends, waits, outcome)
    ensures 1 <= sends <= 4 && waits <= 3 && Waited(server, waits) <= 30 * SECOND
  {
    WaitsAreBounded(server, waits);
  }

  /** A reply after which the server may have executed the request, if 429 means it has not. */
  predicate MayHaveExecuted(reply: Reply) {
    !(reply.Response? && reply.status == 429)
  }

  /** A method that is not idempotent is never sent again after a transport error: every send but the last
      was answered 429, so the request is executed at most once. */
  lemma NonIdempotentExecutesAtMostOnce(verb: string, server: nat -> Round, sends: nat, waits: nat, outcome: Outcome)
    requires IsCall(verb, server, sends, waits, outcome) && !IsIdempotentMethod(verb)
    ensures forall i :: 0 <= i < sends && MayHaveExecuted(server(i).reply) ==> i == sends - 1
  {
    forall i | 0 <= i < sends - 1
      ensures !MayHaveExecuted(server(i).reply)
    {
      assert Retries(verb, i, server(i).reply);
    }
  }

  /** POST and PATCH, in any mixture of upper and lower case, and likewise every verb outside the five. */
  lemma PostAndPatchAreNotIdempotent(verb: string)
    ensures Upper(verb) == "POST" || Upper(verb) == "PATCH" ==> !IsIdempotentMethod(verb)
    ensures IsIdempotentMethod(verb) ==> IsIdempotentMethod(Upper(verb))
  {
    if IsIdempotentMethod(verb) { assert Upper(Upper(verb)) == Upper(verb); }
  }

  /** What honouring a header would mean: wait as long as it says, up to the cap of ten seconds. */
  function Requested(seconds: int): int { Capped(seconds * SECOND) }

  ghost predicate AlwaysHonoured(seconds: int, attempt: nat) {
    forall random: real :: 0.0 <= random < 1.0 ==>
      ParseRetryAfterDelay(Some(seconds), attempt, random) >= Requested(seconds)
  }

  const INT64_LIMIT: int := 0x8000_0000_0000_0000

  lemma ScaledDown(q: real, r: real)
    requires q > 0.0 && 0.0 <= r < 1.0
    ensures 0.0 <= q * r < q
  {
    assert q - q * r == q * (1.0 - r);
  }

  lemma FloorBelowQuarter(x: real, base: int)
    requires 0.0 <= x < base as real * 0.25
    ensures 0 <= Truncate(x) && 4 * Truncate(x) < base
  {
    var n := x.Floor;
    assert n as real <= x;
    assert (4 * n) as real == 4.0 * (n as real);
  }

  /** Jitter is less than a quarter of a positive base. */
  lemma JitterBelowQuarter(base: int, random: real)
    requires base > 0 && 0.0 <= random < 1.0
    ensures 0 <= Jitter(base, random) && 4 * Jitter(base, random) < base
  {
    ScaledDown(base as real * 0.25, random);
    FloorBelowQuarter(base as real * 0.25 * random, base);
  }

  lemma Quotient(q: real, x: real) returns (r: real)
    requires 0.0 <= x < q
    ensures 0.0 <= r < 1.0 && q * r == x
  {
    r := x / q;
    assert q * r == x;
    assert q * (1.0 - r) == q - x;
  }

  /** Some random number makes the jitter exactly `jitter`. */
  lemma RandomFor(base: int, jitter: int) returns (random: real)
    requires base > 0 && 0 <= 4 * jitter < base
    ensures 0.0 <= random < 1.0 && Jitter(base, random) == jitter
  {
    assert (4 * jitter) as real == 4.0 * (jitter as real);
    random := Quotient(base as real * 0.25, jitter as real);
  }

  lemma NoWrap(n: int)
    requires -INT64_LIMIT <= n < INT64_LIMIT
    ensures Wrap64(n) == n
  {
  }

  lemma WrapRange(n: int)
    ensures -INT64_LIMIT <= Wrap64(n) < INT64_LIMIT
  {
  }

  /** Exactly when a Retry-After header is honoured whatever the jitter: its base delay did not wrap below what it
      asks for, and a quarter more still fits into an int64. */
  lemma HonouredIff(seconds: int, attempt: nat)
    requires seconds > 0
    ensures AlwaysHonoured(seconds, attempt) <==>
            HeaderDelay(seconds) >= Requested(seconds) && 5 * HeaderDelay(seconds) <= 4 * INT64_LIMIT
  {
    WrapRange(seconds * SECOND);
    if HeaderDelay(seconds) < Requested(seconds) {
      PlainDelay(seconds, attempt);
    } else if 5 * HeaderDelay(seconds) > 4 * INT64_LIMIT {
      OverflowingDelay(seconds, attempt);
    } else {
      forall random: real | 0.0 <= random < 1.0
        ensures ParseRetryAfterDelay(Some(seconds), attempt, random) >= Requested(seconds)
      {
        FittingDelay(seconds, attempt, random);
      }
    }
  }

  lemma FittingDelay(seconds: int, attempt: nat, random: real)
    requires seconds > 0 && 0.0 <= random < 1.0
    requires HeaderDelay(seconds) >= Requested(seconds) && 5 * HeaderDelay(seconds) <= 4 * INT64_LIMIT
    ensures ParseRetryAfterDelay(Some(seconds), attempt, random) >= Requested(seconds)
  {
    var base := HeaderDelay(seconds);
    JitterBelowQuarter(base, random);
    NoWrap(base + Jitter(base, random));
  }

  /** Without jitter the delay is the base, capped. */
  lemma PlainDelay(seconds: int, attempt: nat)
    requires seconds > 0 && HeaderDelay(seconds) < Requested(seconds)
    ensures !AlwaysHonoured(seconds, attempt)
  {
    var base := HeaderDelay(seconds);
    WrapRange(seconds * SECOND);
    assert Jitter(base, 0.0) == 0;
    NoWrap(base);
    assert ParseRetryAfterDelay(Some(seconds), attempt, 0.0) == Capped(base);
  }

  /** With enough jitter the delay wraps to the least int64. */
  lemma OverflowingDelay(seconds: int, attempt: nat)
    requires seconds > 0 && 5 * HeaderDelay(seconds) > 4 * INT64_LIMIT
    ensures !AlwaysHonoured(seconds, attempt)
  {
    var base := HeaderDelay(seconds);
    WrapRange(seconds * SECOND);
    var random := RandomFor(base, INT64_LIMIT - base);
    assert ParseRetryAfterDelay(Some(seconds), attempt, random) == Capped(-INT64_LIMIT);
  }

  /** As long as the header in nanoseconds fits into an int64, that is a bound on the header itself: about 234 years. */
  lemma HonouredUpTo(seconds: int, attempt: nat)
    requires 0 < seconds <= 9_223_372_036
    ensures AlwaysHonoured(seconds, attempt) <==> seconds <= 7_378_697_629
  {
    NoWrap(seconds * SECOND);
    HonouredIff(seconds, attempt);
  }

  /** Beyond it a huge Retry-After can even give a negative delay. */
  lemma HugeRetryAfterOverflows()
    ensures ParseRetryAfterDelay(Some(10_000_000_000), 0, 0.0) < 0
  {
  }

  /** The verb is one of the five, in any mixture of upper and lower case. */
  predicate SpellsOne(verb: string) {
    exists name :: name in ["GET", "PUT", "DELETE", "HEAD", "OPTIONS"] && Spells(verb, name)
  }

  predicate Spells(verb: string, name: string) {
    |verb| == |name| && forall i :: 0 <= i < |name| ==> verb[i] == name[i] || verb[i] as int == name[i] as int + 32
  }

  predicate IsCapitals(name: string) {
    forall i :: 0 <= i < |name| ==> 'A' <= name[i] <= 'Z'
  }

  lemma UpperSpells(verb: string, name: string)
    requires IsCapitals(name)
    ensures Upper(verb) == name <==> Spells(verb, name)
  {
    var upper := Upper(verb);
    if upper == name {
      forall i | 0 <= i < |name|
        ensures verb[i] == name[i] || verb[i] as int == name[i] as int + 32
      {
        assert upper[i] == name[i];
      }
    }
    if Spells(verb, name) { assert forall i :: 0 <= i < |name| ==> upper[i] == name[i]; }
  }

  lemma IdempotentIff(verb: string)
    ensures IsIdempotentMethod(verb) <==> SpellsOne(verb)
  {
    var names := ["GET", "PUT", "DELETE", "HEAD", "OPTIONS"];
    forall name | name in names
      ensures Upper(verb) == name <==> Spells(verb, name)
    {
      UpperSpells(verb, name);
    }
    assert IsIdempotentMethod(verb) <==> Upper(verb) in names;
  }

  /** Exactly when a request is sent again after its send `i`: at most twice after a transport error worth retrying, and
      then only with GET, PUT, DELETE, HEAD or OPTIONS, and at most three times after 429 with any method, unless the
      context is cancelled during the wait. */
  lemma SentAgainIff(verb: string, server: nat -> Round, sends: nat, waits: nat, outcome: Outcome, i: nat)
    requires IsCall(verb, server, sends, waits, outcome) && i < sends
    ensures i + 1 < sends <==>
            !server(i).cancelled &&
            match server(i).reply
            case TransportError(retryable) => i < 2 && retryable && SpellsOne(verb)
            case ReadError => false
            case Response(status, _, _) => i < 3 && status == 429
  {
    IdempotentIff(verb);
    if i + 1 < sends { assert Retries(verb, i, server(i).reply); }
  }

  /** What a call that was not cancelled returns: statuses from 400 are errors, an empty body or 204 is nothing, and
      any other body is decoded. */
  lemma OutcomeByReply(verb: string, server: nat -> Round, sends: nat, waits: nat, outcome: Outcome)
    requires IsCall(verb, server, sends, waits, outcome) && outcome != Cancelled
    ensures outcome == NetworkError <==> server(sends - 1).reply.TransportError?
    ensures outcome == ReadFailure <==> server(sends - 1).reply == ReadError
    ensures match server(sends - 1).reply
            case TransportError(_) => true
            case ReadError => true
            case Response(status, _, body) =>
              (outcome == HttpError(status) <==> 400 <= status) &&
              (outcome == Nil <==> status < 400 && (body == Empty || status == 204)) &&
              (outcome == Items <==> status < 400 && status != 204 && body == Array) &&
              (outcome == Value <==> status < 400 && status != 204 && body == Object) &&
              (outcome == DecodeError <==> status < 400 && status != 204 && body == Garbage)
  {
  }

  /** The seconds that a reply of 429 asks for: its positive header, or else 1, 2, 4 and 8 in turn. */
  function AskedSeconds(header: Option<int>, attempt: nat): int
    requires attempt < 4
  {
    if header.Some? && header.value > 0 then header.value else [1, 2, 4, 8][attempt]
  }

  /** Waits after 429 last as long as asked for, or up to a quarter longer, but no longer than ten seconds; after a
      transport error they last 50 and then 100 milliseconds. */
  lemma WaitsAsAsked(attempt: nat, round: Round)
    requires attempt < 4 && 0.0 <= round.random < 1.0
    ensures round.reply.TransportError? ==> Wait(attempt, round) == 50_000_000 * (attempt + 1)
    ensures round.reply.Response? && AskedSeconds(round.reply.retryAfter, attempt) <= 7_378_697_629 ==>
              var asked, wait := AskedSeconds(round.reply.retryAfter, attempt) * 1_000_000_000, Wait(attempt, round);
              4 * wait < 5 * asked && wait <= 10_000_000_000 && (wait >= asked || wait == 10_000_000_000)
  {
    if round.reply.Response? {
      var seconds := AskedSeconds(round.reply.retryAfter, attempt);
      if seconds <= 7_378_697_629 { DelayAsAsked(round.reply.retryAfter, attempt, round.random, seconds); }
    }
  }

  lemma DelayAsAsked(header: Option<int>, attempt: nat, random: real, seconds: int)
    requires attempt < 4 && 0.0 <= random < 1.0
    requires seconds == AskedSeconds(header, attempt) && seconds <= 7_378_697_629
    ensures var asked, wait := seconds * SECOND, ParseRetryAfterDelay(header, attempt, random);
            4 * wait < 5 * asked && wait <= 10 * SECOND && (wait >= asked || wait == 10 * SECOND)
  {
    var base := seconds * SECOND;
    NoWrap(base);
    JitterBelowQuarter(base, random);
    NoWrap(base + Jitter(base, random));
    assert ParseRetryAfterDelay(header, attempt, random) == Capped(base + Jitter(base, random));
  }
}
