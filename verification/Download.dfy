/**
 * The conditional GET: retry loop, streaming into `<target>.tmp`, then an atomic replace.
 */
module Download {
  import opened Prelude
  import opened RetryPolicy

  /** Conditional request headers. */
  datatype Headers = Headers(ifNoneMatch: Option<string>, ifModifiedSince: Option<string>)

  /**
   * What follows a status line: validators, and the chunks that arrive before the end of the
   * body or, when `broken`, before the connection fails.
   */
  datatype Response = Response(etag: Option<string>, lastModified: Option<string>, chunks: seq<Bytes>, broken: bool)

  datatype GetOutcome =
    | NotModified(etag: Option<string>, lastModified: Option<string>)
    | Downloaded(size: nat, sha256: Digest, etag: Option<string>, lastModified: Option<string>)
    | GetFailed(error: FetchError)

  /** A body that breaks off while it is streamed counts as a network failure. */
  function Settled(e: Event<Response>): Event<Response> {
    if e.Reply? && e.status < 400 && e.status != 304 && e.content.broken then NetworkFailure else e
  }

  function SettledScript(script: nat -> Event<Response>): nat -> Event<Response> {
    (n: nat) => Settled(script(n))
  }

  function GetTrace(script: nat -> Event<Response>, httpRetries: int): Trace<Response> {
    Policy(SettledScript(script), httpRetries)
  }

  /** The body that ends up in the target file, if one does. */
  function BodyOf(outcome: Outcome<Response>): Option<Bytes> {
    if outcome.Got? && outcome.reply.Reply? && outcome.reply.status != 304
    then Some(Concat(outcome.reply.content.chunks)) else None
  }

  function GetOutcomeOf(outcome: Outcome<Response>, sha256: Bytes -> Digest): GetOutcome {
    match outcome
    case GaveUp(error) => GetFailed(error)
    case Got(NetworkFailure) => GetFailed(Unparsable)
    case Got(Reply(status, _, r)) =>
      if status == 304 then NotModified(r.etag, r.lastModified)
      else
        var body := Concat(r.chunks);
        Downloaded(|body|, sha256(body), r.etag, r.lastModified)
  }

  /** The cache directory: target files, their `.tmp` neighbours, and every content the targets have had. */
  class CacheDir {
    var target: map<Url, Bytes>
    var tmp: map<Url, Bytes>
    ghost var history: seq<map<Url, Bytes>>

    constructor ()
      ensures target == map[] && tmp == map[] && history == []
    {
      target, tmp, history := map[], map[], [];
    }

    /** `tmp.open("wb")` */
    method OpenTmp(name: Url)
      modifies this
      ensures tmp == old(tmp)[name := []] && target == old(target)
      ensures history == old(history) + [target]
    {
      tmp := tmp[name := []];
      history := history + [target];
    }

    method Append(name: Url, chunk: Bytes)
      requires name in tmp
      modifies this
      ensures tmp == old(tmp)[name := old(tmp)[name] + chunk] && target == old(target)
      ensures history == old(history) + [target]
    {
      tmp := tmp[name := tmp[name] + chunk];
      history := history + [target];
    }

    /** `os.replace(tmp, target)` */
    method Replace(name: Url)
      requires name in tmp
      modifies this
      ensures target == old(target)[name := old(tmp)[name]] && tmp == old(tmp) - {name}
      ensures history == old(history) + [target]
    {
      target := target[name := tmp[name]];
      tmp := tmp - {name};
      history := history + [target];
    }

    /** `tmp.unlink(missing_ok=True)` */
    method Unlink(name: Url)
      modifies this
      ensures tmp == old(tmp) - {name} && target == old(target)
      ensures history == old(history) + [target]
    {
      tmp := tmp - {name};
      history := history + [target];
    }
  }

  /** Since `was`, the history only grew, and every target content in it is the old one or the new one. */
  ghost predicate OnlyOldOrNew(was: seq<map<Url, Bytes>>, now: seq<map<Url, Bytes>>, before: map<Url, Bytes>, after: map<Url, Bytes>) {
    && |was| <= |now| && now[..|was|] == was
    && forall i :: |was| <= i < |now| ==> now[i] == before || now[i] == after
  }

  lemma HistoryGrows(
    was: seq<map<Url, Bytes>>, mid: seq<map<Url, Bytes>>, now: seq<map<Url, Bytes>>,
    before: map<Url, Bytes>, after: map<Url, Bytes>)
    requires OnlyOldOrNew(was, mid, before, before) && OnlyOldOrNew(mid, now, before, after)
    ensures OnlyOldOrNew(was, now, before, after)
  {
    assert now[..|was|] == mid[..|was|];
    assert forall i :: |was| <= i < |mid| ==> now[i] == now[..|mid|][i];
  }

  lemma {:induction false} ConcatSnoc(chunks: seq<Bytes>, i: nat)
    requires i < |chunks|
    ensures Concat(chunks[..i + 1]) == Concat(chunks[..i]) + chunks[i]
  {
    assert chunks[..i + 1][..i] == chunks[..i];
  }

  /** Stream the chunks of one response into the tmp file, hashing as they pass. */
  method StreamBody(dir: CacheDir, name: Url, chunks: seq<Bytes>) returns (size: nat, hashed: Bytes)
    modifies dir
    ensures hashed == Concat(chunks) && size == |hashed|
    ensures dir.target == old(dir.target) && dir.tmp == old(dir.tmp)[name := hashed]
    ensures OnlyOldOrNew(old(dir.history), dir.history, dir.target, dir.target)
  {
    size, hashed := 0, [];
    dir.OpenTmp(name);
    for i := 0 to |chunks|
      invariant hashed == Concat(chunks[..i]) && size == |hashed|
      invariant dir.target == old(dir.target) && dir.tmp == old(dir.tmp)[name := hashed]
      invariant OnlyOldOrNew(old(dir.history), dir.history, dir.target, dir.target)
    {
      ConcatSnoc(chunks, i);
      hashed := hashed + chunks[i];
      size := size + |chunks[i]|;
      dir.Append(name, chunks[i]);
    }
    assert chunks[..|chunks|] == chunks;
  }

  /** How one pass through the loop body ends: with a result, or with an error worth a retry. */
  datatype Step = Done(outcome: GetOutcome) | Retryable(error: LastError, explicit: Option<real>)

  function StepOf(e: Event<Response>, sha256: Bytes -> Digest): Step {
    match Judge(Settled(e))
    case Accept => Done(GetOutcomeOf(Got(e), sha256))
    case Refuse(status) => Done(GetFailed(Refused(status)))
    case Retry(error, explicit) => Retryable(error, explicit)
  }

  /** The tmp file of `name` is gone, or is still the one found at the start. */
  ghost predicate NoNewTmp(was: map<Url, Bytes>, now: map<Url, Bytes>, name: Url) {
    name in now ==> name in was && now[name] == was[name]
  }

  /** One physical request. */
  method Attempt(dir: CacheDir, name: Url, event: Event<Response>, sha256: Bytes -> Digest) returns (step: Step)
    modifies dir
    ensures step == StepOf(event, sha256)
    ensures dir.target == (if step.Done? && step.outcome.Downloaded?
                           then old(dir.target)[name := Concat(event.content.chunks)] else old(dir.target))
    ensures OnlyOldOrNew(old(dir.history), dir.history, old(dir.target), dir.target)
    ensures NoNewTmp(old(dir.tmp), dir.tmp, name)
  {
    if event.NetworkFailure? {
      dir.Unlink(name);
      return Retryable(Network, None);
    }
    var status := event.status;
    if status == 304 {
      return Done(NotModified(event.content.etag, event.content.lastModified));
    }
    if status >= 400 {
      if status < 500 && status != 429 {
        return Done(GetFailed(Refused(status)));
      }
      var explicitDelay := None;
      if status == 429 && event.retryAfter.Seconds? {
        explicitDelay := Some(RMin(event.retryAfter.s, BACKOFF_MAX_DELAY));
      }
      return Retryable(HttpError(status), explicitDelay);
    }
    var size, hashed := StreamBody(dir, name, event.content.chunks);
    if event.content.broken {
      dir.Unlink(name);
      return Retryable(Network, None);
    }
    dir.Replace(name);
    return Done(Downloaded(size, sha256(hashed), event.content.etag, event.content.lastModified));
  }

  /** The clean-up after the last attempt. */
  method GiveUp(dir: CacheDir, name: Url, httpRetries: int, lastError: LastError) returns (outcome: GetOutcome)
    modifies dir
    ensures outcome == GetFailed(Exhausted(httpRetries, lastError)) && dir.target == old(dir.target)
    ensures OnlyOldOrNew(old(dir.history), dir.history, dir.target, dir.target)
    ensures dir.tmp == old(dir.tmp) - {name}
  {
    dir.Unlink(name);
    return GetFailed(Exhausted(httpRetries, lastError));
  }

  /** The loop ended as the trace says, and left the target files as the trace says. */
  ghost predicate EndsAs(
    t: Trace<Response>, sha256: Bytes -> Digest, name: Url, before: map<Url, Bytes>,
    outcome: GetOutcome, requests: nat, sleeps: seq<real>, after: map<Url, Bytes>)
  {
    && outcome == GetOutcomeOf(t.outcome, sha256) && requests == t.requests && sleeps == t.sleeps
    && after == (if BodyOf(t.outcome).Some? then before[name := BodyOf(t.outcome).value] else before)
  }

  /** The reported size and hash are those of the body now in the target. */
  lemma ReportDescribesTarget(
    t: Trace<Response>, sha256: Bytes -> Digest, name: Url, before: map<Url, Bytes>,
    outcome: GetOutcome, requests: nat, sleeps: seq<real>, after: map<Url, Bytes>)
    requires EndsAs(t, sha256, name, before, outcome, requests, sleeps, after)
    ensures outcome.Downloaded? <==> BodyOf(t.outcome).Some? && t.outcome.Got?
    ensures outcome.Downloaded? ==>
              name in after && outcome.size == |after[name]| && outcome.sha256 == sha256(after[name])
    ensures !outcome.Downloaded? ==> after == before
  {
  }

  /** What one attempt's step means for the whole trace. */
  lemma StepInTrace(
    script: nat -> Event<Response>, sha256: Bytes -> Digest, httpRetries: int, attempt: nat, last: LastError,
    requests: nat, sleeps: seq<real>)
    requires attempt < httpRetries
    ensures var settled := SettledScript(script);
            var t := Then(requests, sleeps, Run(settled, httpRetries, attempt, last));
            match StepOf(script(attempt), sha256)
            case Done(outcome) =>
              && t.requests == requests + 1 && t.sleeps == sleeps && GetOutcomeOf(t.outcome, sha256) == outcome
              && BodyOf(t.outcome) == (if outcome.Downloaded? then Some(Concat(script(attempt).content.chunks)) else None)
            case Retryable(error, explicit) =>
              if attempt + 1 < httpRetries
              then t == Then(requests + 1, sleeps + [Delay(attempt, explicit)], Run(settled, httpRetries, attempt + 1, error))
              else t == Trace(GaveUp(Exhausted(httpRetries, error)), requests + 1, sleeps)
  {
    var settled := SettledScript(script);
    if Judge(settled(attempt)).Retry? && attempt + 1 < httpRetries {
      OneMoreAttempt(settled, httpRetries, attempt, last, requests, sleeps);
    } else {
      LastAttempt(settled, httpRetries, attempt, last, requests, sleeps);
    }
  }

  /**
   * The loop makes the requests and sleeps of the shared policy on the settled script, and a
   * reader of the target file sees the old content or the complete body at every moment.
   */
  method ConditionalGet(
    dir: CacheDir, name: Url, script: nat -> Event<Response>, sha256: Bytes -> Digest, httpRetries: int)
    returns (outcome: GetOutcome, requests: nat, sleeps: seq<real>)
    modifies dir
    ensures EndsAs(GetTrace(script, httpRetries), sha256, name, old(dir.target), outcome, requests, sleeps, dir.target)
    ensures OnlyOldOrNew(old(dir.history), dir.history, old(dir.target), dir.target)
    ensures NoNewTmp(old(dir.tmp), dir.tmp, name)
  {
    hide StepOf, Judge, Delay, OnlyOldOrNew;
    HistoryStarts(dir.history, dir.target);
    ghost var t := GetTrace(script, httpRetries);
    var lastError := NoAttempts;
    requests, sleeps := 0, [];
    var attempt: nat := 0;
    while attempt < httpRetries
      invariant t == Then(requests, sleeps, Run(SettledScript(script), httpRetries, attempt, lastError))
      invariant dir.target == old(dir.target)
      invariant OnlyOldOrNew(old(dir.history), dir.history, old(dir.target), dir.target)
      invariant NoNewTmp(old(dir.tmp), dir.tmp, name)
      decreases httpRetries - attempt
    {
      StepInTrace(script, sha256, httpRetries, attempt, lastError, requests, sleeps);
      ghost var mid := dir.history;
      var step := Attempt(dir, name, script(attempt), sha256);
      HistoryGrows(old(dir.history), mid, dir.history, old(dir.target), dir.target);
      requests := requests + 1;
      if step.Done? {
        return step.outcome, requests, sleeps;
      }
      lastError := step.error;
      if attempt >= httpRetries - 1 {
        break;
      }
      sleeps := sleeps + [Delay(attempt, step.explicit)];
      attempt := attempt + 1;
    }
    ghost var last := dir.history;
    outcome := GiveUp(dir, name, httpRetries, lastError);
    HistoryGrows(old(dir.history), last, dir.history, old(dir.target), dir.target);
  }

  /**
   * The conditional GET, event by event: a body that breaks off is retried like a network failure; a
   * 304, a complete body and a refusal end the loop, and only a complete body reaches the target.
   */
  lemma GetAnswerDecides(script: nat -> Event<Response>, sha256: Bytes -> Digest, httpRetries: int, k: nat)
    requires k < httpRetries
    requires forall i: nat :: i < k ==>
               || script(i).NetworkFailure? || script(i).status >= 500 || script(i).status == 429
               || (script(i).status < 400 && script(i).status != 304 && script(i).content.broken)
    requires script(k).Reply? && script(k).status < 500 && script(k).status != 429
    requires script(k).status < 400 && script(k).status != 304 ==> !script(k).content.broken
    ensures var t, reply := GetTrace(script, httpRetries), script(k);
            && t.requests == k + 1 && |t.sleeps| == k
            && (forall i: nat :: i < k ==>
                  t.sleeps[i] == if script(i).Reply? && script(i).status == 429 && script(i).retryAfter.Seconds?
                                 then (if script(i).retryAfter.s < 60.0 then script(i).retryAfter.s else 60.0)
                                 else (if Pow2(i) < 60 then Pow2(i) as real else 60.0))
            && GetOutcomeOf(t.outcome, sha256) ==
                 (if reply.status >= 400 then GetFailed(Refused(reply.status))
                  else if reply.status == 304 then NotModified(reply.content.etag, reply.content.lastModified)
                  else Downloaded(|Concat(reply.content.chunks)|, sha256(Concat(reply.content.chunks)),
                                  reply.content.etag, reply.content.lastModified))
            && BodyOf(t.outcome) ==
                 (if reply.status < 400 && reply.status != 304 then Some(Concat(reply.content.chunks)) else None)
  {
    var settled := SettledScript(script);
    assert forall i: nat :: i <= k ==> settled(i) == Settled(script(i));
    FirstAnswerDecides(settled, httpRetries, k);
  }

  /** Only failures worth a retry: every allowed attempt is spent, and the target is left alone. */
  lemma GetRetriesRunOut(script: nat -> Event<Response>, sha256: Bytes -> Digest, httpRetries: int)
    requires forall i: nat :: i < httpRetries ==>
               || script(i).NetworkFailure? || script(i).status >= 500 || script(i).status == 429
               || (script(i).status < 400 && script(i).status != 304 && script(i).content.broken)
    ensures var t := GetTrace(script, httpRetries);
            && t.requests == (if httpRetries > 0 then httpRetries else 0)
            && |t.sleeps| == (if httpRetries > 0 then httpRetries - 1 else 0)
            && BodyOf(t.outcome) == None
            && GetOutcomeOf(t.outcome, sha256) == GetFailed(Exhausted(httpRetries,
                 if httpRetries <= 0 then NoAttempts
                 else if script(httpRetries - 1).Reply? && script(httpRetries - 1).status >= 400
                 then HttpError(script(httpRetries - 1).status) else Network))
  {
    var settled := SettledScript(script);
    assert forall i: nat :: i < httpRetries ==> settled(i) == Settled(script(i));
    RetriesRunOut(settled, httpRetries);
  }

  /** `Concat` is the chunks one after another. */
  lemma {:induction false} ConcatIsAllChunks(a: seq<Bytes>, b: seq<Bytes>, chunk: Bytes)
    ensures Concat([]) == [] && Concat([chunk]) == chunk && Concat(a + b) == Concat(a) + Concat(b)
    decreases |b|
  {
    assert [chunk][..0] == [];
    assert [] + chunk == chunk;
    if b == [] {
      assert a + b == a;
    } else {
      ConcatIsAllChunks(a, b[..|b| - 1], chunk);
      assert (a + b)[..|a + b| - 1] == a + b[..|b| - 1];
    }
  }

  lemma HistoryStarts(history: seq<map<Url, Bytes>>, target: map<Url, Bytes>)
    ensures OnlyOldOrNew(history, history, target, target)
  {
  }
}
