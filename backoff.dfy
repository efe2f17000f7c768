/**
 * The request counting and rate-limit back-off of TwitterClient in
 * mcp_server/twitter_client.py.
 *
 * Every outbound operation first bumps a request counter and pauses
 * briefly on every 100th request. When Twitter answers TooManyRequests the
 * client waits 60 * 2^retry seconds, or gives up once the retry count has
 * reached the maximum. The pauses themselves are not modelled: the model
 * returns whether to pause and how long to wait.
 */
module Backoff {

  /** A pause happens on every request whose number is a multiple of this. */
  const PauseEvery: nat := 100
  /** Length in seconds of that pause. */
  const PauseSeconds: nat := 2
  /** Wait in seconds before the first retry; each further retry doubles it. */
  const BaseWaitSeconds: nat := 60
  const DefaultMaxRetries: int := 3

  class TwitterClient {
    /** Number of requests issued so far. */
    var requestCount: nat
    /** Number of pauses taken so far. */
    ghost var pauses: nat

    /** Exactly one pause has been taken per completed hundred requests. */
    ghost predicate Valid()
      reads this
    {
      pauses == requestCount / PauseEvery
    }

    constructor ()
      ensures Valid()
      ensures requestCount == 0 && pauses == 0
    {
      requestCount := 0;
      pauses := 0;
    }

    /**
     * Counts one more request and says how many seconds to pause before
     * issuing it: PauseSeconds for exactly the 100th, 200th, ... requests,
     * and no pause for the others.
     */
    method RateLimitCheck() returns (pauseSeconds: nat)
      requires Valid()
      modifies this
      ensures Valid()
      ensures requestCount == old(requestCount) + 1
      ensures pauseSeconds == PauseSeconds <==> requestCount % PauseEvery == 0
      ensures pauseSeconds == 0 <==> requestCount % PauseEvery != 0
      ensures pauses == old(pauses) + (if pauseSeconds > 0 then 1 else 0)
    {
      requestCount := requestCount + 1;
      QuotientStep(requestCount - 1);
      if requestCount % PauseEvery == 0 {
        pauseSeconds := PauseSeconds;
        pauses := pauses + 1;
      } else {
        pauseSeconds := 0;
      }
    }
  }

  /** One more request completes another hundred exactly when its number is a multiple of 100. */
  lemma QuotientStep(c: nat)
    ensures (c + 1) / PauseEvery == c / PauseEvery + (if (c + 1) % PauseEvery == 0 then 1 else 0)
  {
    var q, r := c / PauseEvery, c % PauseEvery;
    assert c == q * PauseEvery + r;
    if r + 1 == PauseEvery {
      assert c + 1 == (q + 1) * PauseEvery;
    } else {
      assert c + 1 == q * PauseEvery + (r + 1);
    }
  }

  /** The error raised when the retries are used up. */
  datatype RateLimitError = MaxRetriesExceeded

  datatype Result<T> = Ok(value: T) | Err(error: RateLimitError)

  function Pow2(n: nat): (r: nat)
    ensures r >= 1
  {
    if n == 0 then 1 else 2 * Pow2(n - 1)
  }

  /**
   * The decision of _handle_rate_limit: give up once `retryCount` has
   * reached `maxRetries`, otherwise wait 60 * 2^retryCount seconds.
   */
  function WaitTime(retryCount: nat := 0, maxRetries: int := DefaultMaxRetries): (r: Result<nat>)
    ensures r.Err? <==> retryCount >= maxRetries
    ensures r.Ok? ==> r.value >= BaseWaitSeconds
    ensures retryCount == 0 && maxRetries > 0 ==> r == Ok(BaseWaitSeconds)
  {
    if retryCount >= maxRetries then Err(MaxRetriesExceeded)
    else Ok(BaseWaitSeconds * Pow2(retryCount))
  }

  /** Each retry waits twice as long as the one before it. */
  lemma WaitDoubles(retryCount: nat, maxRetries: int)
    requires retryCount + 1 < maxRetries
    ensures WaitTime(retryCount + 1, maxRetries).Ok? && WaitTime(retryCount, maxRetries).Ok?
    ensures WaitTime(retryCount + 1, maxRetries).value == 2 * WaitTime(retryCount, maxRetries).value
  {
  }

  /** The wait grows strictly with the retry count. */
  lemma {:induction false} WaitIncreases(i: nat, j: nat, maxRetries: int)
    requires i < j < maxRetries
    ensures WaitTime(i, maxRetries).Ok? && WaitTime(j, maxRetries).Ok?
    ensures WaitTime(i, maxRetries).value < WaitTime(j, maxRetries).value
  {
    if i + 1 < j {
      WaitIncreases(i, j - 1, maxRetries);
    }
    WaitDoubles(j - 1, maxRetries);
  }

  /** With the default limit the waits are 1, 2 and 4 minutes, and the fourth rate limit gives up. */
  lemma DefaultSchedule()
    ensures WaitTime(0) == Ok(60) && WaitTime(1) == Ok(120) && WaitTime(2) == Ok(240)
    ensures WaitTime(3) == Err(MaxRetriesExceeded)
  {
    assert Pow2(2) == 4;
  }

  /**
   * Where create_tweet and search_tweets stand after a number of
   * consecutive TooManyRequests answers: still retrying, or given up (the
   * error propagates), with `waited` the seconds spent in back-off waits
   * in all. The request counter bump and the possible 2-second pause of
   * each re-entry are not part of it.
   */
  datatype RetryState = Retrying(waited: nat) | GaveUp(waited: nat)

  /**
   * Handling one more TooManyRequests answer with retry count `retryCount`
   * and the default maximum: an operation that gave up stays given up; a
   * retrying one gives up exactly when the retries are used up, and
   * otherwise waits 60 * 2^retryCount seconds more.
   */
  function HandleOnce(s: RetryState, retryCount: nat): (r: RetryState)
    ensures s.GaveUp? ==> r == s
    ensures s.Retrying? && retryCount >= DefaultMaxRetries ==> r == GaveUp(s.waited)
    ensures s.Retrying? && retryCount < DefaultMaxRetries ==>
      r == Retrying(s.waited + BaseWaitSeconds * Pow2(retryCount))
  {
    match s
    case GaveUp(w) => GaveUp(w)
    case Retrying(w) =>
      match WaitTime(retryCount)
      case Ok(d) => Retrying(w + d)
      case Err(_) => GaveUp(w)
  }

  /**
   * As written: the retry re-enters the operation from the start, so every
   * TooManyRequests answer is handled with the default retry count 0.
   */
  function AsWrittenAfter(answers: nat): (r: RetryState)
    ensures r.Retrying?
  {
    if answers == 0 then Retrying(0) else HandleOnce(AsWrittenAfter(answers - 1), 0)
  }

  /** As written, the operation never gives up: it waits another minute on every answer. */
  lemma {:induction false} AsWrittenNeverGivesUp(answers: nat)
    ensures AsWrittenAfter(answers) == Retrying(BaseWaitSeconds * answers)
  {
    if answers > 0 {
      AsWrittenNeverGivesUp(answers - 1);
    }
  }

  /** As intended: the k-th consecutive TooManyRequests answer is handled with retry count k - 1. */
  function CorrectedAfter(answers: nat): (r: RetryState)
    ensures r.GaveUp? <==> answers > DefaultMaxRetries
  {
    if answers == 0 then Retrying(0) else HandleOnce(CorrectedAfter(answers - 1), answers - 1)
  }

  /**
   * As intended, the operation waits 60, 120 and 240 seconds and gives up
   * on the fourth consecutive answer, having spent 420 seconds in back-off waits.
   */
  lemma {:induction false} CorrectedGivesUp(answers: nat)
    ensures answers <= 3 ==> CorrectedAfter(answers) == Retrying(BaseWaitSeconds * (Pow2(answers) - 1))
    ensures answers > 3 ==> CorrectedAfter(answers) == GaveUp(420)
  {
    if answers > 0 {
      CorrectedGivesUp(answers - 1);
    }
  }
}
