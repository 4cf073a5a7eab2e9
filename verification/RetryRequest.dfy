/** Requests to the remote source: retries with doubling delays, then the same again on a fallback. */
module RetryRequest {
  import opened Basics

  /** How one call of the function to retry ends. */
  datatype Attempt = Success(value: string) | Failure(code: Option<string>, status: Option<int>)

  datatype Outcome = Outcome(last: Attempt, attempts: nat, waited: nat)

  predicate Retryable(a: Attempt) {
    a.Failure?
    && (a.code == Some("ECONNRESET") || a.code == Some("ETIMEDOUT")
        || a.status == Some(429) || (a.status.Some? && 500 <= a.status.value < 600))
  }

  /** `fn(at)`, `fn(at + 1)`, ... are what successive calls give. */
  function RetryRequest(fn: nat -> Attempt, at: nat, retries: int, delay: nat): (o: Outcome)
    ensures o.attempts >= 1
    decreases Max(retries, 0)
  {
    var e := fn(at);
    if retries > 0 && Retryable(e) then
      var rest := RetryRequest(fn, at + 1, retries - 1, delay * 2);
      Outcome(rest.last, rest.attempts + 1, rest.waited + delay)
    else Outcome(e, 1, 0)
  }

  /** delay + 2 * delay + 4 * delay + ..., n times. */
  function WaitedFor(delay: nat, n: nat): nat {
    delay * (Pow2(n) - 1)
  }

  lemma WaitedStep(delay: nat, n: nat)
    ensures WaitedFor(delay, 0) == 0
    ensures WaitedFor(delay, n + 1) == delay + WaitedFor(delay * 2, n)
  {
    var p := Pow2(n);
    assert delay * (2 * p - 1) == delay + (delay * 2) * (p - 1);
  }

  ghost predicate AllRetryable(fn: nat -> Attempt, from: nat, to: nat) {
    forall k: nat :: from <= k < to ==> Retryable(fn(k))
  }

  /** Call `n` is the first from `at` on that is not a retryable failure. */
  ghost predicate SettlesFirst(fn: nat -> Attempt, at: nat, n: nat) {
    at <= n && !Retryable(fn(n)) && AllRetryable(fn, at, n)
  }

  /**
   * At most retries + 1 attempts; the outcome is that of the last one, all before it failed retryably,
   * and the time waited is delay * (2^(attempts - 1) - 1).
   */
  lemma {:induction false} RetriesAreBounded(fn: nat -> Attempt, at: nat, retries: int, delay: nat)
    ensures var o := RetryRequest(fn, at, retries, delay);
            && o.attempts <= Max(retries, 0) + 1
            && o.last == fn(at + o.attempts - 1)
            && AllRetryable(fn, at, at + o.attempts - 1)
            && (Retryable(o.last) ==> o.attempts == Max(retries, 0) + 1)
            && o.waited == WaitedFor(delay, o.attempts - 1)
    decreases Max(retries, 0)
  {
    hide WaitedFor, Retryable;
    WaitedStep(delay, 0);
    if retries > 0 && Retryable(fn(at)) {
      var rest := RetryRequest(fn, at + 1, retries - 1, delay * 2);
      RetriesAreBounded(fn, at + 1, retries - 1, delay * 2);
      WaitedStep(delay, rest.attempts - 1);
    }
  }

  lemma WaitGrows(delay: nat, m: nat, n: nat)
    requires m < n
    ensures WaitedFor(delay, m) <= WaitedFor(delay, n)
    ensures delay > 0 ==> WaitedFor(delay, m) < WaitedFor(delay, n)
  {
    Pow2Grows(m, n);
    hide Pow2;
    ProductGrows(delay, Pow2(m) - 1, Pow2(n) - 1);
  }

  lemma ProductGrows(d: nat, p: nat, q: nat)
    requires p < q
    ensures d * p <= d * q
    ensures d > 0 ==> d * p < d * q
  {
  }

  /**
   * The wait is at most delay * (2^retries - 1), and exactly that if and only if every attempt but the last
   * is retried.
   */
  lemma WaitIsBounded(fn: nat -> Attempt, at: nat, retries: nat, delay: nat)
    ensures var o := RetryRequest(fn, at, retries, delay);
            && o.waited <= WaitedFor(delay, retries)
            && (delay > 0 ==> (o.waited == WaitedFor(delay, retries) <==> AllRetryable(fn, at, at + retries)))
  {
    var o := RetryRequest(fn, at, retries, delay);
    RetriesAreBounded(fn, at, retries, delay);
    hide RetryRequest, WaitedFor, Retryable;
    if o.attempts - 1 < retries {
      WaitGrows(delay, o.attempts - 1, retries);
      assert !Retryable(fn(at + o.attempts - 1));
    }
  }

  /** The first settled call is returned if at most `retries` calls come before it, and otherwise a failure. */
  lemma ReturnsFirstSettled(fn: nat -> Attempt, at: nat, retries: nat, delay: nat, n: nat)
    requires SettlesFirst(fn, at, n)
    ensures var o := RetryRequest(fn, at, retries, delay);
            if n - at <= retries then o.last == fn(n) && o.attempts == n - at + 1
            else Retryable(o.last) && o.attempts == retries + 1
  {
    var o := RetryRequest(fn, at, retries, delay);
    RetriesAreBounded(fn, at, retries, delay);
    hide RetryRequest, WaitedFor, Retryable;
    assert at + o.attempts - 1 < n ==> Retryable(fn(at + o.attempts - 1));
  }

  /** What is tried again: a lost or timed-out connection, too many requests, and server errors; nothing else. */
  lemma RetriesIff(fn: nat -> Attempt, at: nat, retries: int, delay: nat)
    requires retries > 0
    ensures RetryRequest(fn, at, retries, delay).attempts > 1 <==>
            match fn(at)
            case Success(_) => false
            case Failure(code, status) =>
              || code == Some("ECONNRESET") || code == Some("ETIMEDOUT") || status == Some(429)
              || (status.Some? && 500 <= status.value <= 599)
  {
  }

  // ----- requests with a fallback

  /** How one HTTP request ends; an error without a response has no status. */
  datatype Http = Response(data: string) | HttpError(status: Option<int>)

  /** makeRequest turns every error into one with a status, 500 if there was none. */
  function MakeRequest(h: Http): Attempt {
    match h
    case Response(data) => Success(data)
    case HttpError(status) => Failure(None, Some(if status.Some? && status.value != 0 then status.value else 500))
  }

  const RETRIES := 3
  const DELAY := 1000

  /** What was done and what comes out of it. */
  datatype Execution = Execution(last: Attempt, primary: Outcome, fallback: Option<Outcome>)

  function Requests(source: nat -> Http): nat -> Attempt {
    (k: nat) => MakeRequest(source(k))
  }

  /** One round of attempts on a source. */
  function Round(source: nat -> Http): Outcome {
    RetryRequest(Requests(source), 0, RETRIES, DELAY)
  }

  /** An error of the fallback is thrown on with its status, or with 500. */
  function Reported(a: Attempt): Attempt {
    match a
    case Success(_) => a
    case Failure(_, status) => Failure(None, Some(if status.Some? && status.value != 0 then status.value else 500))
  }

  function ExecuteWithFallback(primary: nat -> Http, fallback: nat -> Http): Execution {
    var p := Round(primary);
    if p.last.Success? || p.last.status == Some(404) then Execution(p.last, p, None)
    else
      var f := Round(fallback);
      Execution(Reported(f.last), p, Some(f))
  }

  function Attempts(e: Execution): nat {
    e.primary.attempts + if e.fallback.Some? then e.fallback.value.attempts else 0
  }

  function Waited(e: Execution): nat {
    e.primary.waited + if e.fallback.Some? then e.fallback.value.waited else 0
  }

  lemma RoundIsBounded(source: nat -> Http)
    ensures Round(source).attempts <= RETRIES + 1 && Round(source).waited <= 7 * DELAY
  {
    assert WaitedFor(DELAY, RETRIES) == 7 * DELAY by { assert Pow2(2) == 4; }
    hide RetryRequest, WaitedFor;
    RetriesAreBounded(Requests(source), 0, RETRIES, DELAY);
    WaitIsBounded(Requests(source), 0, RETRIES, DELAY);
  }

  /** No request is made more than eight times, nor waited for longer than fourteen seconds. */
  lemma FallbackIsBounded(primary: nat -> Http, fallback: nat -> Http)
    ensures var e := ExecuteWithFallback(primary, fallback);
            Attempts(e) <= 8 && Waited(e) <= 14_000
  {
    RoundIsBounded(primary);
    RoundIsBounded(fallback);
    hide Round;
  }

  /** Which answers settle a request: all but 429, 5xx and errors without a response. */
  predicate Settled(h: Http) {
    h.Response? || (h.status.Some? && h.status.value != 0 && h.status.value != 429 && !(500 <= h.status.value < 600))
  }

  ghost predicate NoneSettled(source: nat -> Http, n: nat) {
    forall k: nat :: k < n ==> !Settled(source(k))
  }

  /** Errors lose their code on the way, so that a dropped connection is retried as a 500. */
  lemma SettledIsNotRetryable(h: Http)
    ensures Settled(h) <==> !Retryable(MakeRequest(h))
  {
  }

  lemma NoneSettledIsRetryable(source: nat -> Http, n: nat)
    requires NoneSettled(source, n)
    ensures AllRetryable(Requests(source), 0, n)
  {
    forall k: nat | k < n ensures Retryable(Requests(source)(k)) {
      SettledIsNotRetryable(source(k));
    }
  }

  lemma RoundSettles(source: nat -> Http, n: nat)
    requires n <= 3 && NoneSettled(source, n) && Settled(source(n))
    ensures Round(source).attempts == n + 1 && Round(source).last == MakeRequest(source(n))
  {
    NoneSettledIsRetryable(source, n);
    SettledIsNotRetryable(source(n));
    hide RetryRequest;
    ReturnsFirstSettled(Requests(source), 0, RETRIES, DELAY, n);
  }

  lemma RoundGivesUp(source: nat -> Http)
    requires NoneSettled(source, 4)
    ensures Round(source).attempts == 4
    ensures Round(source).last == MakeRequest(source(3)) && Retryable(Round(source).last)
  {
    hide RetryRequest, WaitedFor;
    RetriesAreBounded(Requests(source), 0, RETRIES, DELAY);
    SettledIsNotRetryable(source(Round(source).attempts - 1));
  }

  /** What comes out for the answer of a source: the data, or a failure with its status, 500 if it has none. */
  predicate PassesOn(h: Http, a: Attempt) {
    match h
    case Response(data) => a == Success(data)
    case HttpError(None) => a == Failure(None, Some(500))
    case HttpError(Some(status)) => a == Failure(None, Some(if status == 0 then 500 else status))
  }

  /**
   * If the primary settles within its four attempts, the fallback is asked exactly when it settles with
   * an error other than 404; a response and a 404 are passed on as they are.
   */
  lemma FallbackIffOtherError(primary: nat -> Http, fallback: nat -> Http, n: nat)
    requires n <= 3 && NoneSettled(primary, n) && Settled(primary(n))
    ensures var e := ExecuteWithFallback(primary, fallback);
            && e.primary.attempts == n + 1
            && (e.fallback.Some? <==> primary(n).HttpError? && primary(n).status != Some(404))
            && (e.fallback.None? ==> PassesOn(primary(n), e.last))
  {
    RoundSettles(primary, n);
    hide Round, NoneSettled;
  }

  /** The primary never settles, or settles with an error other than 404. */
  ghost predicate NoAnswer(primary: nat -> Http) {
    || NoneSettled(primary, 4)
    || exists m: nat :: m <= 3 && NoneSettled(primary, m) && Settled(primary(m))
                        && primary(m).HttpError? && primary(m).status != Some(404)
  }

  lemma FallbackIsAsked(primary: nat -> Http, fallback: nat -> Http)
    requires NoAnswer(primary)
    ensures var e, f := ExecuteWithFallback(primary, fallback), Round(fallback);
            && e.fallback == Some(f)
            && e.last == Reported(f.last)
  {
    if NoneSettled(primary, 4) {
      RoundGivesUp(primary);
    } else {
      var m: nat :| m <= 3 && NoneSettled(primary, m) && Settled(primary(m))
                    && primary(m).HttpError? && primary(m).status != Some(404);
      RoundSettles(primary, m);
    }
    hide Round, NoneSettled, NoAnswer;
  }

  lemma ReportPassesOn(h: Http)
    ensures PassesOn(h, Reported(MakeRequest(h)))
  {
  }

  /**
   * Whenever the fallback is asked, it decides: its first settled answer is the outcome, be it data or an
   * error, and if it never settles, a failure with the status of its last answer.
   */
  lemma FallbackDecides(primary: nat -> Http, fallback: nat -> Http)
    requires NoAnswer(primary)
    ensures var e := ExecuteWithFallback(primary, fallback);
            && e.fallback.Some?
            && (forall n: nat :: n <= 3 && NoneSettled(fallback, n) && Settled(fallback(n)) ==>
                  e.fallback.value.attempts == n + 1 && PassesOn(fallback(n), e.last))
            && (NoneSettled(fallback, 4) ==> e.fallback.value.attempts == 4 && PassesOn(fallback(3), e.last))
  {
    hide *;
    FallbackIsAsked(primary, fallback);
    forall n: nat | n <= 3 && NoneSettled(fallback, n) && Settled(fallback(n))
      ensures Round(fallback).attempts == n + 1 && PassesOn(fallback(n), Reported(Round(fallback).last))
    {
      RoundSettles(fallback, n);
      ReportPassesOn(fallback(n));
    }
    if NoneSettled(fallback, 4) {
      RoundGivesUp(fallback);
      ReportPassesOn(fallback(3));
    }
  }
}
