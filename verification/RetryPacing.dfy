/** The public EIDR provider: bounded retries with exact accounting, and requests spaced by a minimum interval. */
module RetryPacing {
  import opened Prelude
  import opened EidrBackfill
  import opened EidrBackfillRun

  /** One HTTP exchange, as the attempt loop classifies it. */
  datatype Response =
    | Missing
    | Alias
    | Body(xml: Xml)
    | TooManyRequests(retryAfter: Option<real>)
    | ServerError(retryAfter: Option<real>)
    | NetworkFailure
    | Refused {
    /** 429, 5xx and network errors are retried; every other failure closes the lookup. */
    predicate Retryable() { TooManyRequests? || ServerError? || NetworkFailure? }

    predicate Answers() { Missing? || Alias? || Body? }
  }

  datatype ProviderError = Exhausted | ClosedByResponse

  /** The rate-limited responses among the first `n` attempts. */
  function RateLimited(respond: nat -> Response, n: nat): nat {
    if n == 0 then 0 else RateLimited(respond, n - 1) + (if respond(n).TooManyRequests? then 1 else 0)
  }

  lemma RateLimitedStep(respond: nat -> Response, n: nat)
    ensures RateLimited(respond, 0) == 0
    ensures n > 0 ==>
              RateLimited(respond, n) == RateLimited(respond, n - 1) + (if respond(n).TooManyRequests? then 1 else 0)
  {
  }

  lemma {:induction false} RateLimitedBound(respond: nat -> Response, n: nat)
    ensures RateLimited(respond, n) <= n
  {
    if n > 0 {
      RateLimitedBound(respond, n - 1);
    }
  }

  /** The attempts among the first `n` that were answered by 429. */
  ghost function RateLimitedAttempts(respond: nat -> Response, n: nat): set<nat> {
    set k: nat | 1 <= k <= n && respond(k).TooManyRequests?
  }

  lemma {:induction false} RateLimitedIsCount(respond: nat -> Response, n: nat)
    ensures RateLimited(respond, n) == |RateLimitedAttempts(respond, n)|
  {
    if n == 0 {
      assert RateLimitedAttempts(respond, 0) == {};
    } else {
      RateLimitedIsCount(respond, n - 1);
      assert RateLimitedAttempts(respond, n)
          == RateLimitedAttempts(respond, n - 1) + (if respond(n).TooManyRequests? then {n} else {});
    }
  }

  /** Attempt `n` is the first whose response is not retried. */
  ghost predicate SettlesAt(respond: nat -> Response, n: nat) {
    n >= 1 && !respond(n).Retryable() && forall k :: 1 <= k < n ==> respond(k).Retryable()
  }

  lemma SettlesHere(respond: nat -> Response, n: nat)
    requires n >= 1 && !respond(n).Retryable() && forall k :: 1 <= k < n ==> respond(k).Retryable()
    ensures SettlesAt(respond, n) && forall m: nat :: SettlesAt(respond, m) ==> m == n
  {
  }

  lemma NotSettledYet(respond: nat -> Response, n: nat)
    requires forall k :: 1 <= k <= n ==> respond(k).Retryable()
    ensures forall m: nat :: m <= n ==> !SettlesAt(respond, m)
  {
  }

  function ResultOf(id: string, response: Response, attempts: nat, retries: nat, rateLimits: nat): LookupResult {
    LookupResult(id, if response.Body? then Found else NotFound, if response.Body? then Some(response.xml) else None,
                 attempts, retries, rateLimits)
  }

  /** Consecutive requests are at least `interval` apart. */
  ghost predicate Spaced(stamps: seq<real>, interval: real) {
    forall i :: 0 <= i < |stamps| - 1 ==> stamps[i + 1] - stamps[i] >= interval
  }

  /** Hence `n` requests take at least `n - 1` intervals. */
  lemma {:induction false} SpacedSpan(stamps: seq<real>, interval: real)
    requires Spaced(stamps, interval) && stamps != []
    ensures stamps[|stamps| - 1] - stamps[0] >= (|stamps| - 1) as real * interval
    decreases |stamps|
  {
    var n := |stamps| - 1;
    if n > 0 {
      assert Spaced(stamps[..n], interval) by {
        forall i | 0 <= i < n - 1
          ensures stamps[..n][i + 1] - stamps[..n][i] >= interval
        {
          assert stamps[i + 1] - stamps[i] >= interval;
        }
      }
      SpacedSpan(stamps[..n], interval);
      assert stamps[n - 1 + 1] - stamps[n - 1] >= interval;
      assert n as real * interval == (n - 1) as real * interval + interval;
    }
  }

  class EidrPublicProvider {
    const interval: real
    const maxAttempts: nat
    const initialBackoff: real
    const maxBackoff: real
    const maxRetryAfter: real
    var clock: real
    var lastRequestAt: Option<real>
    ghost var stamps: seq<real>

    ghost predicate Valid()
      reads this
    {
      && interval >= 0.0 && maxAttempts >= 1
      && 0.0 < initialBackoff <= maxBackoff && maxRetryAfter >= 0.0
      && Spaced(stamps, interval)
      && lastRequestAt == (if stamps == [] then None else Some(stamps[|stamps| - 1]))
      && (lastRequestAt.Some? ==> lastRequestAt.value <= clock)
    }

    constructor (interval: real, maxAttempts: nat, initialBackoff: real, maxBackoff: real, maxRetryAfter: real,
                 start: real)
      requires interval >= 0.0 && maxAttempts >= 1 && 0.0 < initialBackoff <= maxBackoff && maxRetryAfter >= 0.0
      ensures Valid() && stamps == [] && this.interval == interval && this.maxAttempts == maxAttempts
    {
      this.interval, this.maxAttempts := interval, maxAttempts;
      this.initialBackoff, this.maxBackoff, this.maxRetryAfter := initialBackoff, maxBackoff, maxRetryAfter;
      clock, lastRequestAt, stamps := start, None, [];
    }

    /** Any amount of time may pass before a reading of the monotonic clock. */
    method ReadClock() returns (now: real)
      modifies this`clock
      ensures now == clock >= old(clock)
    {
      var elapsed: real :| elapsed >= 0.0;
      clock := clock + elapsed;
      now := clock;
    }

    /** A sleep takes at least the requested time. */
    method Sleep(duration: real)
      requires duration >= 0.0
      modifies this`clock
      ensures clock >= old(clock) + duration
    {
      var extra: real :| extra >= 0.0;
      clock := clock + duration + extra;
    }

    /** `_throttle`: records one request, no sooner than the interval after the last. */
    method Throttle()
      requires Valid()
      modifies this`clock, this`lastRequestAt, this`stamps
      ensures Valid() && |stamps| == |old(stamps)| + 1 && stamps[..|old(stamps)|] == old(stamps)
      ensures stamps[|old(stamps)|] >= old(clock)
    {
      var now := ReadClock();
      if lastRequestAt.Some? {
        var remaining := interval - (now - lastRequestAt.value);
        if remaining > 0.0 {
          Sleep(remaining);
        }
      }
      var stamp := ReadClock();
      ghost var before := stamps;
      stamps := stamps + [stamp];
      lastRequestAt := Some(stamp);
      assert Spaced(stamps, interval) by {
        forall i | 0 <= i < |stamps| - 1
          ensures stamps[i + 1] - stamps[i] >= interval
        {
          if i < |before| - 1 {
            assert before[i + 1] - before[i] >= interval;
          }
        }
      }
    }

    static function Doubled(backoff: real, times: nat): (r: real)
      requires backoff > 0.0
      ensures r >= backoff
    {
      if times == 0 then backoff else Doubled(backoff, times - 1) * 2.0
    }

    /** `_retry_delay`: Retry-After clamped to its bound, otherwise capped exponential backoff. */
    function RetryDelay(retryAfter: Option<real>, attempt: nat): (delay: real)
      requires attempt >= 1 && initialBackoff > 0.0 && maxBackoff > 0.0 && maxRetryAfter >= 0.0
      ensures 0.0 <= delay
      ensures retryAfter.Some? ==>
                delay <= maxRetryAfter && (0.0 <= retryAfter.value <= maxRetryAfter ==> delay == retryAfter.value)
      ensures retryAfter.None? ==> delay <= maxBackoff && (delay == maxBackoff || delay >= initialBackoff)
    {
      match retryAfter
      case Some(seconds) =>
        var clamped := if seconds < 0.0 then 0.0 else seconds;
        if clamped > maxRetryAfter then maxRetryAfter else clamped
      case None =>
        var backoff := Doubled(initialBackoff, attempt - 1);
        if backoff > maxBackoff then maxBackoff else backoff
    }

    /** Without Retry-After the first wait is the initial backoff, and each later wait doubles the one before, up to
        the cap. */
    lemma BackoffDoubles(attempt: nat)
      requires attempt >= 1 && 0.0 < initialBackoff <= maxBackoff && maxRetryAfter >= 0.0
      ensures RetryDelay(None, 1) == initialBackoff
      ensures var doubled := 2.0 * RetryDelay(None, attempt);
              RetryDelay(None, attempt + 1) == if doubled > maxBackoff then maxBackoff else doubled
    {
      assert Doubled(initialBackoff, attempt) == Doubled(initialBackoff, attempt - 1) * 2.0;
    }

    /** The wait that the response to attempt `k` asks for. */
    function WaitAfter(response: Response, k: nat): (wait: real)
      requires k >= 1 && 0.0 < initialBackoff <= maxBackoff && maxRetryAfter >= 0.0
      ensures wait >= 0.0
      ensures response == NetworkFailure ==> wait == RetryDelay(None, k)
      ensures forall after :: response == TooManyRequests(after) || response == ServerError(after) ==>
                wait == RetryDelay(after, k)
    {
      RetryDelay(if response.TooManyRequests? || response.ServerError? then response.retryAfter else None, k)
    }

    /** From request `first` on, each request was sent after the wait its predecessor's response asked for. */
    ghost predicate Waited(sent: seq<real>, respond: nat -> Response, first: nat)
      requires 0.0 < initialBackoff <= maxBackoff && maxRetryAfter >= 0.0
    {
      forall k :: 1 <= k < |sent| - first ==> sent[first + k] - sent[first + k - 1] >= WaitAfter(respond(k), k)
    }

    lemma NothingWaited(sent: seq<real>, respond: nat -> Response)
      requires 0.0 < initialBackoff <= maxBackoff && maxRetryAfter >= 0.0
      ensures Waited(sent, respond, |sent|)
    {
    }

    lemma NextWaited(before: seq<real>, after: seq<real>, respond: nat -> Response, first: nat)
      requires 0.0 < initialBackoff <= maxBackoff && maxRetryAfter >= 0.0
      requires first <= |before| && |after| == |before| + 1 && after[..|before|] == before
      requires Waited(before, respond, first)
      requires var k := |before| - first;
               k >= 1 ==> after[first + k] - before[first + k - 1] >= WaitAfter(respond(k), k)
      ensures Waited(after, respond, first)
    {
      hide WaitAfter;
      forall k | 1 <= k < |after| - first
        ensures after[first + k] - after[first + k - 1] >= WaitAfter(respond(k), k)
      {
        assert after[first + k - 1] == before[first + k - 1];
        assert first + k < |before| ==> after[first + k] == before[first + k];
      }
    }

    /** `_lookup_one`: it answers exactly if the first response that is not retried comes within the attempt bound
        and is an answer.  Then there is one retry per extra attempt and every 429 met is counted; each attempt is
        one paced request. */
    method LookupOne(id: string, respond: nat -> Response) returns (r: Result<LookupResult, ProviderError>)
      requires Valid()
      modifies this`clock, this`lastRequestAt, this`stamps
      ensures Valid() && |old(stamps)| <= |stamps| <= |old(stamps)| + maxAttempts
              && stamps[..|old(stamps)|] == old(stamps)
      ensures Waited(stamps, respond, |old(stamps)|)
      ensures r.Ok? <==> exists n: nat :: SettlesAt(respond, n) && n <= maxAttempts && respond(n).Answers()
      ensures r.Ok? ==>
                var n := r.value.attempts;
                && 1 <= n <= maxAttempts && SettlesAt(respond, n)
                && r.value.id == id && r.value.retries == n - 1 && r.value.rateLimits <= r.value.retries
                && r.value.rateLimits == |RateLimitedAttempts(respond, n - 1)|
                && (match respond(n)
                    case Body(xml) => r.value.status == Found && r.value.xml == Some(xml)
                    case Missing | Alias => r.value.status == NotFound && r.value.xml == None
                    case _ => false)
                && |stamps| == |old(stamps)| + n
      ensures r == Err(Exhausted) <==> forall k :: 1 <= k <= maxAttempts ==>
                respond(k).TooManyRequests? || respond(k).ServerError? || respond(k).NetworkFailure?
      ensures r == Err(ClosedByResponse) <==> exists n: nat ::
                SettlesAt(respond, n) && n <= maxAttempts && respond(n).Refused?
    {
      hide Spaced, WaitAfter, Waited, SettlesAt, RateLimited, RateLimitedAttempts;
      NothingWaited(stamps, respond);
      RateLimitedStep(respond, 0);
      var retries, rateLimits := 0, 0;
      var attempt := 1;
      while true
        invariant 1 <= attempt <= maxAttempts
        invariant Valid() && |stamps| == |old(stamps)| + attempt - 1 && stamps[..|old(stamps)|] == old(stamps)
        invariant Waited(stamps, respond, |old(stamps)|)
        invariant attempt > 1 ==> clock >= stamps[|stamps| - 1] + WaitAfter(respond(attempt - 1), attempt - 1)
        invariant retries == attempt - 1 && rateLimits == RateLimited(respond, attempt - 1)
        invariant forall k :: 1 <= k < attempt ==> respond(k).Retryable()
        decreases maxAttempts + 1 - attempt
      {
        ghost var before := stamps;
        Throttle();
        NextWaited(before, stamps, respond, |old(stamps)|);
        var response := respond(attempt);
        if response.Answers() {
          RateLimitedBound(respond, attempt - 1);
          RateLimitedIsCount(respond, attempt - 1);
          SettlesHere(respond, attempt);
          return Ok(ResultOf(id, response, attempt, retries, rateLimits));
        }
        if response.Refused? {
          SettlesHere(respond, attempt);
          return Err(ClosedByResponse);
        }
        if response.TooManyRequests? {
          rateLimits := rateLimits + 1;
        }
        RateLimitedStep(respond, attempt);
        if attempt == maxAttempts {
          NotSettledYet(respond, attempt);
          return Err(Exhausted);
        }
        retries := retries + 1;
        var delay := WaitAfter(response, attempt);
        Sleep(delay);
        attempt := attempt + 1;
      }
    }

    /** `lookup_exact`: one lookup after another; a batch that answers meets the run batch's retry equation, and its
        requests are spaced throughout. */
    method LookupExact(ids: seq<string>, respond: nat -> nat -> Response)
      returns (r: Result<seq<LookupResult>, ProviderError>)
      requires Valid()
      modifies this`clock, this`lastRequestAt, this`stamps
      ensures Valid() && |stamps| <= |old(stamps)| + |ids| * maxAttempts && |old(stamps)| <= |stamps|
      ensures r.Ok? ==> |r.value| == |ids| && Balanced(r.value)
      ensures r.Ok? ==> forall i :: 0 <= i < |ids| ==>
                r.value[i].id == ids[i] && r.value[i].retries == r.value[i].attempts - 1
      ensures r.Ok? ==> |stamps| - |old(stamps)| == Attempts(r.value)
    {
      var results: seq<LookupResult> := [];
      var i := 0;
      while i < |ids|
        invariant 0 <= i <= |ids| && Valid() && |results| == i
        invariant |old(stamps)| <= |stamps| <= |old(stamps)| + i * maxAttempts
        invariant forall k :: 0 <= k < i ==> results[k].id == ids[k] && results[k].retries == results[k].attempts - 1
        invariant |stamps| - |old(stamps)| == Attempts(results)
      {
        var one := LookupOne(ids[i], respond(i));
        assert (i + 1) * maxAttempts == i * maxAttempts + maxAttempts;
        if one.Err? {
          MoreRequestsAllowed(i + 1, |ids|, maxAttempts);
          return Err(one.error);
        }
        AttemptsSnoc(results, one.value);
        results := results + [one.value];
        i := i + 1;
      }
      OneRetryPerExtraAttempt(results);
      return Ok(results);
    }
  }

  lemma MoreRequestsAllowed(a: nat, b: nat, n: nat)
    requires a <= b
    ensures a * n <= b * n
  {
    if a < b {
      MulStep(n, b, a);
    }
  }

  lemma {:induction false} AttemptsSnoc(results: seq<LookupResult>, one: LookupResult)
    ensures Attempts(results + [one]) == Attempts(results) + one.attempts
    decreases |results|
  {
    if results == [] {
      assert [] + [one] == [one];
    } else {
      AttemptsSnoc(results[1..], one);
      assert (results + [one])[1..] == results[1..] + [one];
    }
  }
}
