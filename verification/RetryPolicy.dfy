/**
 * The retry policy shared by the sidecar request and the conditional GET.
 *
 * A server is a script: what the n-th physical request of a loop meets. `Run` is the policy as a
 * function of that script; the lemmas below it say what the policy does without unfolding it.
 */
module RetryPolicy {
  import opened Prelude

  const BACKOFF_MAX_DELAY := 60.0

  /** The Retry-After header: absent or empty, a number of seconds, or text that is not a number. */
  datatype RetryAfter = NoHeader | Seconds(s: real) | Unreadable

  datatype Event<+T> = NetworkFailure | Reply(status: nat, retryAfter: RetryAfter, content: T)

  datatype LastError = NoAttempts | HttpError(status: nat) | Network

  datatype FetchError = Refused(status: nat) | Exhausted(attempts: int, last: LastError) | Unparsable {
    /** `FetchError.status_code` */
    function StatusCode(): Option<nat> {
      match this
      case Refused(s) => Some(s)
      case Exhausted(_, HttpError(s)) => Some(s)
      case _ => None
    }
  }

  datatype Outcome<+T> = Got(reply: Event<T>) | GaveUp(error: FetchError)

  datatype Trace<+T> = Trace(outcome: Outcome<T>, requests: nat, sleeps: seq<real>)

  datatype Verdict = Accept | Refuse(status: nat) | Retry(error: LastError, explicit: Option<real>)

  function RMin(a: real, b: real): real {
    if b < a then b else a
  }

  function ExplicitDelay(header: RetryAfter): Option<real> {
    if header.Seconds? then Some(RMin(header.s, BACKOFF_MAX_DELAY)) else None
  }

  function Judge<T>(e: Event<T>): Verdict {
    match e
    case NetworkFailure => Retry(Network, None)
    case Reply(status, header, _) =>
      if status < 400 then Accept
      else if status < 500 && status != 429 then Refuse(status)
      else Retry(HttpError(status), if status == 429 then ExplicitDelay(header) else None)
  }

  function Delay(attempt: nat, explicit: Option<real>): real {
    explicit.GetOr(RMin(Pow2(attempt) as real, BACKOFF_MAX_DELAY))
  }

  function Run<T>(script: nat -> Event<T>, maxAttempts: int, attempt: nat, last: LastError): Trace<T>
    decreases maxAttempts - attempt
  {
    if attempt >= maxAttempts then Trace(GaveUp(Exhausted(maxAttempts, last)), 0, [])
    else
      match Judge(script(attempt))
      case Accept => Trace(Got(script(attempt)), 1, [])
      case Refuse(status) => Trace(GaveUp(Refused(status)), 1, [])
      case Retry(error, explicit) =>
        if attempt + 1 >= maxAttempts then Trace(GaveUp(Exhausted(maxAttempts, error)), 1, [])
        else
          var rest := Run(script, maxAttempts, attempt + 1, error);
          Trace(rest.outcome, rest.requests + 1, [Delay(attempt, explicit)] + rest.sleeps)
  }

  function Policy<T>(script: nat -> Event<T>, maxAttempts: int): Trace<T> {
    Run(script, maxAttempts, 0, NoAttempts)
  }

  // ---------------------------------------------------------------- what the policy does

  ghost predicate AllRetry<T>(script: nat -> Event<T>, lo: nat, hi: nat) {
    forall i: nat :: lo <= i < hi ==> Judge(script(i)).Retry?
  }

  ghost predicate SleepsFollowBackoff<T>(script: nat -> Event<T>, from: nat, sleeps: seq<real>) {
    forall i: nat :: i < |sleeps| && Judge(script(from + i)).Retry? ==>
      sleeps[i] == Delay(from + i, Judge(script(from + i)).explicit)
  }

  /** The first answer that is not retried decides, and decides at once. */
  lemma {:induction false} FirstDecisiveAnswerWins<T>(
    script: nat -> Event<T>, maxAttempts: int, attempt: nat, last: LastError, k: nat)
    requires attempt <= k < maxAttempts && AllRetry(script, attempt, k) && !Judge(script(k)).Retry?
    ensures var t := Run(script, maxAttempts, attempt, last);
            && t.requests == k - attempt + 1 && |t.sleeps| == k - attempt
            && SleepsFollowBackoff(script, attempt, t.sleeps)
            && t.outcome == (if Judge(script(k)).Accept? then Got(script(k)) else GaveUp(Refused(Judge(script(k)).status)))
    decreases k - attempt
  {
    if attempt < k {
      var error := Judge(script(attempt)).error;
      FirstDecisiveAnswerWins(script, maxAttempts, attempt + 1, error, k);
      var rest := Run(script, maxAttempts, attempt + 1, error);
      var t := Run(script, maxAttempts, attempt, last);
      forall i: nat | i < |t.sleeps| && Judge(script(attempt + i)).Retry?
        ensures t.sleeps[i] == Delay(attempt + i, Judge(script(attempt + i)).explicit)
      {
        if i > 0 {
          assert t.sleeps[i] == rest.sleeps[i - 1];
          assert attempt + 1 + (i - 1) == attempt + i;
        }
      }
    }
  }

  /** With nothing but retryable answers: exactly the allowed attempts, one sleep fewer. */
  lemma {:induction false} ExhaustionSpendsEveryAttempt<T>(
    script: nat -> Event<T>, maxAttempts: int, attempt: nat, last: LastError)
    requires attempt < maxAttempts && AllRetry(script, attempt, maxAttempts)
    ensures var t := Run(script, maxAttempts, attempt, last);
            && t.requests == maxAttempts - attempt && |t.sleeps| == maxAttempts - attempt - 1
            && SleepsFollowBackoff(script, attempt, t.sleeps)
            && t.outcome == GaveUp(Exhausted(maxAttempts, Judge(script(maxAttempts - 1)).error))
    decreases maxAttempts - attempt
  {
    if attempt + 1 < maxAttempts {
      var error := Judge(script(attempt)).error;
      ExhaustionSpendsEveryAttempt(script, maxAttempts, attempt + 1, error);
      var rest := Run(script, maxAttempts, attempt + 1, error);
      var t := Run(script, maxAttempts, attempt, last);
      forall i: nat | i < |t.sleeps| && Judge(script(attempt + i)).Retry?
        ensures t.sleeps[i] == Delay(attempt + i, Judge(script(attempt + i)).explicit)
      {
        if i > 0 {
          assert t.sleeps[i] == rest.sleeps[i - 1];
          assert attempt + 1 + (i - 1) == attempt + i;
        }
      }
    }
  }

  /**
   * The policy, event by event. Network failures, 5xx and 429 are retried; the first other answer ends
   * the loop, accepted below 400 and refused from 400 to 499. Before it one sleep per retried event: what
   * Retry-After asks on a 429 with a number of seconds, else 2^i seconds, and never more than 60.
   */
  lemma FirstAnswerDecides<T>(script: nat -> Event<T>, maxAttempts: int, k: nat)
    requires k < maxAttempts
    requires forall i: nat :: i < k ==> script(i).NetworkFailure? || script(i).status >= 500 || script(i).status == 429
    requires script(k).Reply? && script(k).status < 500 && script(k).status != 429
    ensures var t := Policy(script, maxAttempts);
            && t.outcome == (if script(k).status < 400 then Got(script(k)) else GaveUp(Refused(script(k).status)))
            && t.requests == k + 1 && |t.sleeps| == k
            && forall i: nat :: i < k ==>
                 t.sleeps[i] == if script(i).Reply? && script(i).status == 429 && script(i).retryAfter.Seconds?
                                then (if script(i).retryAfter.s < 60.0 then script(i).retryAfter.s else 60.0)
                                else (if Pow2(i) < 60 then Pow2(i) as real else 60.0)
  {
    FirstDecisiveAnswerWins(script, maxAttempts, 0, NoAttempts, k);
  }

  /** Only events that are retried: every allowed attempt is spent, none when none is allowed. */
  lemma RetriesRunOut<T>(script: nat -> Event<T>, maxAttempts: int)
    requires forall i: nat :: i < maxAttempts ==>
               script(i).NetworkFailure? || script(i).status >= 500 || script(i).status == 429
    ensures var t := Policy(script, maxAttempts);
            && t.requests == (if maxAttempts > 0 then maxAttempts else 0)
            && |t.sleeps| == (if maxAttempts > 0 then maxAttempts - 1 else 0)
            && (forall i: nat :: i < |t.sleeps| ==>
                  t.sleeps[i] == if script(i).Reply? && script(i).status == 429 && script(i).retryAfter.Seconds?
                                 then (if script(i).retryAfter.s < 60.0 then script(i).retryAfter.s else 60.0)
                                 else (if Pow2(i) < 60 then Pow2(i) as real else 60.0))
            && t.outcome == GaveUp(Exhausted(maxAttempts,
                 if maxAttempts <= 0 then NoAttempts
                 else if script(maxAttempts - 1).NetworkFailure? then Network
                 else HttpError(script(maxAttempts - 1).status)))
            && t.outcome.error.StatusCode() ==
                 (if maxAttempts > 0 && script(maxAttempts - 1).Reply? then Some(script(maxAttempts - 1).status) else None)
  {
    if maxAttempts > 0 {
      ExhaustionSpendsEveryAttempt(script, maxAttempts, 0, NoAttempts);
    }
  }

  lemma {:induction false} NoSleepExceedsTheCap<T>(
    script: nat -> Event<T>, maxAttempts: int, attempt: nat, last: LastError)
    ensures forall d :: d in Run(script, maxAttempts, attempt, last).sleeps ==> d <= 60.0
    decreases maxAttempts - attempt
  {
    if attempt < maxAttempts && Judge(script(attempt)).Retry? && attempt + 1 < maxAttempts {
      NoSleepExceedsTheCap(script, maxAttempts, attempt + 1, Judge(script(attempt)).error);
    }
  }

  /** Attempts run out on a status only if that status is one that is retried. */
  lemma {:induction false} RunOutStatusIsRetried<T>(
    script: nat -> Event<T>, maxAttempts: int, attempt: nat, last: LastError)
    requires last.HttpError? ==> last.status >= 500 || last.status == 429
    ensures var o := Run(script, maxAttempts, attempt, last).outcome;
            o.GaveUp? && o.error.Exhausted? && o.error.last.HttpError? ==>
              o.error.last.status >= 500 || o.error.last.status == 429
    decreases maxAttempts - attempt
  {
    if attempt < maxAttempts && Judge(script(attempt)).Retry? && attempt + 1 < maxAttempts {
      RunOutStatusIsRetried(script, maxAttempts, attempt + 1, Judge(script(attempt)).error);
    }
  }

  /** An accepted reply is one of the script's replies. */
  lemma {:induction false} AcceptedReplyIsScripted<T>(
    script: nat -> Event<T>, maxAttempts: int, attempt: nat, last: LastError) returns (k: nat)
    requires Run(script, maxAttempts, attempt, last).outcome.Got?
    ensures Run(script, maxAttempts, attempt, last).outcome == Got(script(k)) && Judge(script(k)).Accept?
    decreases maxAttempts - attempt
  {
    if Judge(script(attempt)).Accept? {
      k := attempt;
    } else {
      k := AcceptedReplyIsScripted(script, maxAttempts, attempt + 1, Judge(script(attempt)).error);
    }
  }

  /** A status code carried by a failure was answered by the server. */
  lemma {:induction false} FailureStatusIsScripted<T>(
    script: nat -> Event<T>, maxAttempts: int, attempt: nat, last: LastError) returns (k: nat)
    requires !last.HttpError?
    requires var o := Run(script, maxAttempts, attempt, last).outcome; o.GaveUp? && o.error.StatusCode().Some?
    ensures script(k).Reply? && Run(script, maxAttempts, attempt, last).outcome.error.StatusCode() == Some(script(k).status)
    decreases maxAttempts - attempt
  {
    var e := script(attempt);
    if Judge(e).Retry? && attempt + 1 < maxAttempts && !Judge(e).error.HttpError? {
      k := FailureStatusIsScripted(script, maxAttempts, attempt + 1, Judge(e).error);
    } else if Judge(e).Retry? && attempt + 1 < maxAttempts {
      k := FailureStatusAfter(script, maxAttempts, attempt + 1, attempt);
    } else {
      k := attempt;
    }
  }

  lemma {:induction false} FailureStatusAfter<T>(
    script: nat -> Event<T>, maxAttempts: int, attempt: nat, prior: nat) returns (k: nat)
    requires Judge(script(prior)).Retry?
    requires var o := Run(script, maxAttempts, attempt, Judge(script(prior)).error).outcome;
             o.GaveUp? && o.error.StatusCode().Some?
    ensures script(k).Reply?
    ensures Run(script, maxAttempts, attempt, Judge(script(prior)).error).outcome.error.StatusCode() == Some(script(k).status)
    decreases maxAttempts - attempt
  {
    if attempt >= maxAttempts {
      k := prior;
    } else if Judge(script(attempt)).Retry? && attempt + 1 < maxAttempts {
      k := FailureStatusAfter(script, maxAttempts, attempt + 1, attempt);
    } else {
      k := attempt;
    }
  }

  // ---------------------------------------------------------------- _retry_request

  /** The whole trace, given what was already spent and what is still to come. */
  function Then<T>(requests: nat, sleeps: seq<real>, rest: Trace<T>): Trace<T> {
    Trace(rest.outcome, requests + rest.requests, sleeps + rest.sleeps)
  }

  lemma OneMoreAttempt<T>(
    script: nat -> Event<T>, maxAttempts: int, attempt: nat, last: LastError, requests: nat, sleeps: seq<real>)
    requires attempt + 1 < maxAttempts && Judge(script(attempt)).Retry?
    ensures var v := Judge(script(attempt));
            Then(requests, sleeps, Run(script, maxAttempts, attempt, last))
            == Then(requests + 1, sleeps + [Delay(attempt, v.explicit)], Run(script, maxAttempts, attempt + 1, v.error))
  {
    var v := Judge(script(attempt));
    var rest := Run(script, maxAttempts, attempt + 1, v.error);
    assert sleeps + ([Delay(attempt, v.explicit)] + rest.sleeps) == (sleeps + [Delay(attempt, v.explicit)]) + rest.sleeps;
  }

  lemma LastAttempt<T>(
    script: nat -> Event<T>, maxAttempts: int, attempt: nat, last: LastError, requests: nat, sleeps: seq<real>)
    requires attempt < maxAttempts && (Judge(script(attempt)).Retry? ==> attempt + 1 == maxAttempts)
    ensures var v := Judge(script(attempt));
            var outcome := if v.Accept? then Got(script(attempt))
                           else if v.Refuse? then GaveUp(Refused(v.status))
                           else GaveUp(Exhausted(maxAttempts, v.error));
            Then(requests, sleeps, Run(script, maxAttempts, attempt, last)) == Trace(outcome, requests + 1, sleeps)
  {
    assert sleeps + [] == sleeps;
  }

  method RetryRequest<T>(script: nat -> Event<T>, httpRetries: int)
    returns (outcome: Outcome<T>, requests: nat, sleeps: seq<real>)
    ensures Trace(outcome, requests, sleeps) == Policy(script, httpRetries)
  {
    var lastError := NoAttempts;
    requests, sleeps := 0, [];
    var attempt: nat := 0;
    while attempt < httpRetries
      invariant attempt <= httpRetries || attempt == 0
      invariant Policy(script, httpRetries) == Then(requests, sleeps, Run(script, httpRetries, attempt, lastError))
      decreases httpRetries - attempt
    {
      var explicitDelay: Option<real> := None;
      var event := script(attempt);
      if Judge(event).Retry? && attempt + 1 < httpRetries {
        OneMoreAttempt(script, httpRetries, attempt, lastError, requests, sleeps);
      } else {
        LastAttempt(script, httpRetries, attempt, lastError, requests, sleeps);
      }
      requests := requests + 1;
      if event.NetworkFailure? {
        lastError := Network;
      } else {
        var status := event.status;
        if status < 400 {
          return Got(event), requests, sleeps;
        }
        if status < 500 && status != 429 {
          return GaveUp(Refused(status)), requests, sleeps;
        }
        lastError := HttpError(status);
        if status == 429 && event.retryAfter.Seconds? {
          explicitDelay := Some(RMin(event.retryAfter.s, BACKOFF_MAX_DELAY));
        }
      }
      if attempt >= httpRetries - 1 {
        return GaveUp(Exhausted(httpRetries, lastError)), requests, sleeps;
      }
      var delay := if explicitDelay.Some? then explicitDelay.value
                   else RMin(Pow2(attempt) as real, BACKOFF_MAX_DELAY);
      sleeps := sleeps + [delay];
      attempt := attempt + 1;
    }
    outcome := GaveUp(Exhausted(httpRetries, lastError));
  }
}
