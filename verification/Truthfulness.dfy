/**
 * Exactly when change detection can be trusted. A truthful server may omit validators and lose its
 * sidecar; it only never says something false. Against such servers a row is safe when no validator
 * that it remembers speaks of a body other than the applied one, and a download leaves it safe
 * exactly when what COALESCE keeps does not.
 */
module Truthfulness {
  import opened Prelude
  import opened Tables
  import opened Database
  import opened RetryPolicy
  import opened Download
  import opened Fetcher
  import opened SyncState
  import opened Orchestrator
  import opened History
  import opened ChangeDetection
  import opened Refinement
  import opened Scenarios

  // ---------------------------------------------------------------- truthful servers

  /** A date that was parsed from a header and is formatted again reads as the same instant. */
  ghost predicate DatesReadBack(env: Env) {
    forall d :: ReadsBack(env, d)
  }

  predicate ReadsBack(env: Env, date: int) {
    env.formatDate(date) != "" && env.parseDate(env.formatDate(date)) == Some(date)
  }

  /** The body that conditional headers name. A date counts only without an entity tag (section 6 of RFC 7232). */
  predicate HeadersName(world: World, h: Headers, body: Bytes) {
    if h.ifNoneMatch.Some? then world.named(h.ifNoneMatch.value) == body
    else h.ifModifiedSince.Some? && world.dated(h.ifModifiedSince.value) == body
  }

  predicate DateNames(env: Env, world: World, date: Option<int>, body: Bytes) {
    date.Some? && world.dated(env.formatDate(date.value)) == body
  }

  /** A sidecar that yields a digest yields that of the body. It may be missing, fail or be unreadable. */
  ghost predicate TruthfulSidecar(world: World, source: Source, server: Server, body: Bytes) {
    forall n: nat :: Truthy(source.md5Url) && server.sidecar(n).Reply? && server.sidecar(n).status < 400 ==>
      server.sidecar(n).content.Some? ==> server.sidecar(n).content.value == world.md5(body)
  }

  /**
   * A 200 carries the current body, and any entity tag it sends names that body. A 304 is sent only
   * when the headers name the current body, and its validators name that body too.
   */
  ghost predicate TruthfulReply(env: Env, world: World, h: Headers, e: Event<Response>, body: Bytes) {
    e.Reply? && e.status < 400 && (e.status == 304 || !e.content.broken) ==>
      && (Truthy(e.content.etag) ==> Names(world, e.content.etag, body))
      && (e.status != 304 ==> Concat(e.content.chunks) == body)
      && (e.status == 304 ==>
            && HeadersName(world, h, body)
            && (h.ifNoneMatch.None? && DateOf(env, e.content.lastModified).Some? ==>
                  DateNames(env, world, DateOf(env, e.content.lastModified), body)))
  }

  ghost predicate Truthful(env: Env, world: World, v: Visit, body: Bytes) {
    && v.source.format != Format.Md5
    && TruthfulSidecar(world, v.source, v.server, body)
    && forall h: Headers, n: nat :: TruthfulReply(env, world, h, v.server.main(h)(n), body)
  }

  /** The servers of the refinement theorem are truthful. */
  lemma HonestIsTruthful(env: Env, world: World, v: Visit, body: Bytes)
    requires Honest(world, v, body)
    ensures Truthful(env, world, v, body)
  {
    forall h: Headers, n: nat
      ensures TruthfulReply(env, world, h, v.server.main(h)(n), body)
    {
      assert HonestReply(world, h, v.server.main(h)(n), body);
    }
  }

  // ---------------------------------------------------------------- safe rows

  predicate IsApplied(data: Data, url: Url, body: Bytes) {
    url in data.applied && data.applied[url] == body
  }

  /** A validator in the row speaks of `body`: the digest, or the headers that will be sent. */
  predicate Remembers(env: Env, world: World, data: Data, url: Url, body: Bytes) {
    || ValidatorsOf(data.files, url).md5 == Some(world.md5(body))
    || HeadersName(world, HeadersFor(PreviousOf(env, data.files, url)), body)
  }

  ghost predicate Safe(env: Env, world: World, data: Data, url: Url) {
    forall body :: Remembers(env, world, data, url, body) ==> IsApplied(data, url, body)
  }

  /** A visit that neither raises nor ends in ERROR leaves `body` applied. */
  predicate AppliesIfClean(env: Env, data: Data, v: Visit, runId: nat, body: Bytes) {
    var visited := VisitSource(env, data, v, runId);
    visited.outcome.Returned? && visited.outcome.status != Error ==> IsApplied(visited.data, v.source.url, body)
  }

  // ---------------------------------------------------------------- what a truthful server's answers mean

  lemma TruthfulSidecarFound(env: Env, world: World, v: Visit, body: Bytes)
    requires TruthfulSidecar(world, v.source, v.server, body)
    ensures var s := AskSidecar(env, v.source, v.server); s.Found? ==> s.md5 == world.md5(body)
  {
    if Truthy(v.source.md5Url) {
      var outcome := Policy(v.server.sidecar, env.httpRetries).outcome;
      if outcome.Got? {
        var k := AcceptedReplyIsScripted(v.server.sidecar, env.httpRetries, 0, NoAttempts);
      }
    }
  }

  lemma TruthfulGet(env: Env, world: World, v: Visit, previous: Option<Previous>, body: Bytes)
    requires Truthful(env, world, v, body) && MainTrace(env, previous, v.server).outcome.Got?
    ensures var reply := MainTrace(env, previous, v.server).outcome.reply;
            && reply.Reply? && reply.status < 400
            && TruthfulReply(env, world, HeadersFor(previous), reply, body)
            && (reply.status != 304 ==> !reply.content.broken)
  {
    var h := HeadersFor(previous);
    var k := AcceptedReplyIsScripted(SettledScript(v.server.main(h)), env.httpRetries, 0, NoAttempts);
    assert TruthfulReply(env, world, h, v.server.main(h)(k), body);
  }

  /** The response that ended the GET. */
  function Answer(env: Env, data: Data, v: Visit): Event<Response> {
    var t := MainTrace(env, PreviousOf(env, data.files, v.source.url), v.server);
    if t.outcome.Got? then t.outcome.reply else NetworkFailure
  }

  /** The visit was not rolled back and downloaded a body. */
  predicate Downloads(env: Env, data: Data, v: Visit, runId: nat) {
    VisitSource(env, data, v, runId).outcome.Returned? && BodyIn(env, data, v).Some?
  }

  // ---------------------------------------------------------------- one visit

  /** What a visit does to the row and to the applied body, case by case. */
  lemma VisitCases(env: Env, data: Data, v: Visit, runId: nat)
    ensures var visited, url := VisitSource(env, data, v, runId), v.source.url;
            var kept, now := ValidatorsOf(data.files, url), ValidatorsOf(visited.data.files, url);
            var r, body := FetchIn(env, data, v), BodyIn(env, data, v);
            && (visited.outcome.Raised? ==> visited.data == data)
            && (visited.outcome.Returned? ==> visited.outcome.status == r.status && now == PayloadFor(env, r, kept))
            && (body.None? ==> visited.data.applied == data.applied)
            && (visited.outcome.Returned? && body.Some? && v.source.format != Format.Md5 ==>
                  if r.status == Unchanged then visited.data.applied == data.applied
                  else IsApplied(visited.data, url, body.value))
  {
    hide FetchedBody, UpsertAll, PayloadFor, Policy, SidecarOf;
    ResultDescribesBody(env, v.source, PreviousOf(env, data.files, v.source.url), v.server);
    assert FetchIn(env, data, v).url == v.source.url;
  }

  /** With a body, it is the current one, and it is applied unless the visit is rolled back. */
  lemma TruthfulDownload(env: Env, world: World, data: Data, v: Visit, runId: nat, body: Bytes)
    requires HashesAreInjective(env, world) && Truthful(env, world, v, body) && ShaDescribesApplied(env, data)
    requires Downloads(env, data, v, runId)
    ensures BodyIn(env, data, v) == Some(body) && IsApplied(VisitSource(env, data, v, runId).data, v.source.url, body)
  {
    var url := v.source.url;
    var previous := PreviousOf(env, data.files, url);
    ResultDescribesBody(env, v.source, previous, v.server);
    TruthfulGet(env, world, v, previous, body);
    VisitCases(env, data, v, runId);
    hide VisitSource, Policy, PayloadFor;
    assert BodyIn(env, data, v) == Some(body);
    assert ValidatorsOf(data.files, url).sha256 == if url in data.applied then Some(env.sha256(data.applied[url])) else None;
  }

  /** Without a body and without an error, a remembered validator named the current body. */
  lemma NoBodyMeansRemembered(env: Env, world: World, data: Data, v: Visit, runId: nat, body: Bytes)
    requires Truthful(env, world, v, body)
    requires BodyIn(env, data, v).None? && FetchIn(env, data, v).status != Error
    ensures Remembers(env, world, data, v.source.url, body)
  {
    var previous := PreviousOf(env, data.files, v.source.url);
    TruthfulSidecarFound(env, world, v, body);
    if MainTrace(env, previous, v.server).outcome.Got? {
      TruthfulGet(env, world, v, previous, body);
    }
    hide Policy;
  }

  /** Sufficient: on a safe row, no truthful server can pass its body off as the applied one. */
  lemma SafeRowAppliesCurrentBody(env: Env, world: World, data: Data, v: Visit, runId: nat, body: Bytes)
    requires HashesAreInjective(env, world) && Truthful(env, world, v, body) && ShaDescribesApplied(env, data)
    requires Safe(env, world, data, v.source.url)
    ensures AppliesIfClean(env, data, v, runId, body)
  {
    hide VisitSource, FetchedBody, Truthful, Remembers, FetchOf;
    VisitCases(env, data, v, runId);
    if Downloads(env, data, v, runId) {
      TruthfulDownload(env, world, data, v, runId, body);
    } else if VisitSource(env, data, v, runId).outcome.Returned? && FetchIn(env, data, v).status != Error {
      NoBodyMeansRemembered(env, world, data, v, runId, body);
    }
  }

  /** Necessary: a remembered validator of another body has a truthful server that is then reported UNCHANGED. */
  lemma UnsafeRowCanMislead(env: Env, world: World, data: Data, url: Url, body: Bytes, runId: nat) returns (v: Visit)
    requires env.httpRetries >= 1
    requires Remembers(env, world, data, url, body) && !IsApplied(data, url, body)
    ensures v.source.url == url && Truthful(env, world, v, body)
    ensures var visited := VisitSource(env, data, v, runId);
            visited.outcome == Returned(Unchanged) && !IsApplied(visited.data, url, body)
  {
    var digest := ValidatorsOf(data.files, url).md5 == Some(world.md5(body));
    var source := Source("ripencc", "core", Delegated, url, if digest then Some("md5") else None);
    var sidecar: Event<Option<Digest>> := Reply(200, NoHeader, Some(world.md5(body)));
    var server := Server(
      (n: nat) => sidecar,
      (h: Headers) => (n: nat) => if HeadersName(world, h, body) then NOT_MODIFIED else Ok(None, body));
    v := Visiting(source, server, []);
    ConcatOne(body);
    var previous := PreviousOf(env, data.files, url);
    if digest {
      SidecarAnswers(env, source, server);
    } else {
      FirstAnswerCounts(env, previous, server);
    }
    hide Policy, UpsertAll;
    VisitCases(env, data, v, runId);
  }

  /** A row is safe exactly when no truthful server can mislead the next visit. */
  lemma SafeIffNoServerMisleads(env: Env, world: World, data: Data, url: Url, runId: nat)
    requires env.httpRetries >= 1 && HashesAreInjective(env, world) && ShaDescribesApplied(env, data)
    ensures Safe(env, world, data, url) <==>
            forall v: Visit, body: Bytes :: v.source.url == url && Truthful(env, world, v, body) ==> AppliesIfClean(env, data, v, runId, body)
  {
    hide Truthful, VisitSource, Remembers;
    if Safe(env, world, data, url) {
      forall v: Visit, body: Bytes | v.source.url == url && Truthful(env, world, v, body)
        ensures AppliesIfClean(env, data, v, runId, body)
      {
        SafeRowAppliesCurrentBody(env, world, data, v, runId, body);
      }
    } else {
      var body :| Remembers(env, world, data, url, body) && !IsApplied(data, url, body);
      var v := UnsafeRowCanMislead(env, world, data, url, body, runId);
      assert !AppliesIfClean(env, data, v, runId, body);
    }
  }

  // ---------------------------------------------------------------- what a visit leaves remembered

  /**
   * The download replaced, or rightly kept, every validator that will be used: a digest unless the
   * sidecar was found, an entity tag unless the response sent one, and without a tag the date.
   */
  ghost predicate Complete(env: Env, world: World, data: Data, v: Visit)
    requires BodyIn(env, data, v).Some? && Answer(env, data, v).Reply?
  {
    var kept, body := ValidatorsOf(data.files, v.source.url), BodyIn(env, data, v).value;
    var sent := Answer(env, data, v).content;
    && (AskSidecar(env, v.source, v.server).Found? || forall b :: kept.md5 == Some(world.md5(b)) ==> b == body)
    && (Truthy(sent.etag) ||
        if sent.etag.None? && Truthy(kept.etag) then world.named(kept.etag.value) == body
        else
          var date := Coalesce(DateOf(env, sent.lastModified), kept.lastModified);
          date.None? || DateNames(env, world, date, body))
  }

  lemma DownloadHasAnswer(env: Env, data: Data, v: Visit)
    requires BodyIn(env, data, v).Some?
    ensures Answer(env, data, v).Reply?
    ensures !AskSidecar(env, v.source, v.server).SidecarFailed?
    ensures FetchIn(env, data, v).tierUsed == Some(3)
    ensures FetchIn(env, data, v).etag == Answer(env, data, v).content.etag
    ensures FetchIn(env, data, v).lastModified == Answer(env, data, v).content.lastModified
    ensures FetchIn(env, data, v).md5Sidecar == AskSidecar(env, v.source, v.server).Md5()
    ensures FetchIn(env, data, v).status != Error
  {
    ResultDescribesBody(env, v.source, PreviousOf(env, data.files, v.source.url), v.server);
  }

  /** The conditional headers are a function of the row's validators. */
  function HeadersOf(env: Env, v: Validators): Headers {
    Headers(if Truthy(v.etag) then v.etag else None,
            if v.lastModified.Some? && env.formatDate(v.lastModified.value) != ""
            then Some(env.formatDate(v.lastModified.value)) else None)
  }

  lemma HeadersAreOfTheRow(env: Env, data: Data, url: Url)
    ensures HeadersFor(PreviousOf(env, data.files, url)) == HeadersOf(env, ValidatorsOf(data.files, url))
  {
  }

  /** The row after a download: what was found or sent, else what was kept. */
  lemma DownloadedRow(env: Env, world: World, data: Data, v: Visit, runId: nat, body: Bytes)
    requires HashesAreInjective(env, world) && Truthful(env, world, v, body) && ShaDescribesApplied(env, data)
    requires Downloads(env, data, v, runId)
    ensures var url, after := v.source.url, VisitSource(env, data, v, runId).data;
            var sidecar := AskSidecar(env, v.source, v.server);
            var kept, now := ValidatorsOf(data.files, url), ValidatorsOf(after.files, url);
            && Answer(env, data, v).Reply? && BodyIn(env, data, v) == Some(body) && IsApplied(after, url, body)
            && (sidecar.Found? ==> sidecar.md5 == world.md5(body))
            && var sent := Answer(env, data, v).content;
               && (Truthy(sent.etag) ==> Names(world, sent.etag, body))
               && now.md5 == Coalesce(sidecar.Md5(), kept.md5)
               && now.etag == Coalesce(sent.etag, kept.etag)
               && now.lastModified == Coalesce(DateOf(env, sent.lastModified), kept.lastModified)
  {
    DownloadHasAnswer(env, data, v);
    TruthfulDownload(env, world, data, v, runId, body);
    VisitCases(env, data, v, runId);
    TruthfulSidecarFound(env, world, v, body);
    TruthfulGet(env, world, v, PreviousOf(env, data.files, v.source.url), body);
    hide VisitSource, FetchOf, FetchedBody, Truthful, MainTrace, AskSidecar;
  }

  /** The body that headers name, if they name one. */
  function NamedBy(world: World, h: Headers): Option<Bytes> {
    if h.ifNoneMatch.Some? then Some(world.named(h.ifNoneMatch.value))
    else if h.ifModifiedSince.Some? then Some(world.dated(h.ifModifiedSince.value)) else None
  }

  lemma SafeIffRowNames(env: Env, world: World, data: Data, url: Url, body: Bytes)
    requires IsApplied(data, url, body)
    ensures var row := ValidatorsOf(data.files, url);
            Safe(env, world, data, url) <==>
              && (forall b :: row.md5 == Some(world.md5(b)) ==> b == body)
              && NamedBy(world, HeadersOf(env, row)) in {None, Some(body)}
  {
    HeadersAreOfTheRow(env, data, url);
    hide HeadersOf, HeadersFor, PreviousOf, ValidatorsOf;
    var row := ValidatorsOf(data.files, url);
    if Safe(env, world, data, url) {
      forall b | row.md5 == Some(world.md5(b))
        ensures b == body
      {
        assert Remembers(env, world, data, url, b);
      }
      var named := NamedBy(world, HeadersOf(env, row));
      if named.Some? {
        assert Remembers(env, world, data, url, named.value);
      }
    }
  }

  /** A download leaves the row safe exactly when it is complete. */
  lemma DownloadLeavesSafeIff(env: Env, world: World, data: Data, v: Visit, runId: nat, body: Bytes)
    requires HashesAreInjective(env, world) && DatesReadBack(env)
    requires Truthful(env, world, v, body) && ShaDescribesApplied(env, data)
    requires Downloads(env, data, v, runId)
    ensures Answer(env, data, v).Reply?
    ensures Safe(env, world, VisitSource(env, data, v, runId).data, v.source.url) <==> Complete(env, world, data, v)
  {
    hide VisitSource, FetchOf, FetchedBody, Truthful, MainTrace, AskSidecar, Safe, ShaDescribesApplied, ValidatorsOf, Answer;
    var url, after := v.source.url, VisitSource(env, data, v, runId).data;
    DownloadedRow(env, world, data, v, runId, body);
    SafeIffRowNames(env, world, after, url, body);
    var kept, now, sent := ValidatorsOf(data.files, url), ValidatorsOf(after.files, url), Answer(env, data, v).content;
    if now.lastModified.Some? {
      assert ReadsBack(env, now.lastModified.value);
    }
    if AskSidecar(env, v.source, v.server).Found? {
      assert now.md5 == Some(world.md5(body));
    }
  }

  /** A 304 may rename the applied body, but the headers still name the body they named. */
  lemma NotModifiedKeepsTheName(env: Env, world: World, data: Data, v: Visit, body: Bytes)
    requires DatesReadBack(env) && Truthful(env, world, v, body) && FetchIn(env, data, v).tierUsed == Some(2)
    ensures var kept := ValidatorsOf(data.files, v.source.url);
            var now := PayloadFor(env, FetchIn(env, data, v), kept);
            && now.md5 == kept.md5
            && forall b :: HeadersName(world, HeadersOf(env, now), b) <==> HeadersName(world, HeadersOf(env, kept), b)
  {
    var previous := PreviousOf(env, data.files, v.source.url);
    assert MainTrace(env, previous, v.server).outcome.Got?;
    TruthfulGet(env, world, v, previous, body);
    HeadersAreOfTheRow(env, data, v.source.url);
    var kept, sent := ValidatorsOf(data.files, v.source.url), Answer(env, data, v).content;
    hide Policy, AskSidecar;
    var now := PayloadFor(env, FetchIn(env, data, v), kept);
    if kept.lastModified.Some? {
      assert ReadsBack(env, kept.lastModified.value);
    }
    if now.lastModified.Some? {
      assert ReadsBack(env, now.lastModified.value);
    }
    assert now.etag == if Truthy(sent.etag) then sent.etag else kept.etag;
    assert now.lastModified == Coalesce(DateOf(env, sent.lastModified), kept.lastModified);
  }

  /** A visit that downloads nothing keeps a row safe, and cannot make it safe. */
  lemma NoDownloadKeepsSafety(env: Env, world: World, data: Data, v: Visit, runId: nat, body: Bytes)
    requires DatesReadBack(env) && Truthful(env, world, v, body) && !Downloads(env, data, v, runId)
    ensures Safe(env, world, VisitSource(env, data, v, runId).data, v.source.url) <==> Safe(env, world, data, v.source.url)
  {
    var url, visited, r := v.source.url, VisitSource(env, data, v, runId), FetchIn(env, data, v);
    var kept, now := ValidatorsOf(data.files, url), ValidatorsOf(visited.data.files, url);
    VisitCases(env, data, v, runId);
    ResultDescribesBody(env, v.source, PreviousOf(env, data.files, url), v.server);
    if visited.outcome.Returned? {
      HeadersAreOfTheRow(env, data, url);
      HeadersAreOfTheRow(env, visited.data, url);
      if r.tierUsed == Some(2) {
        NotModifiedKeepsTheName(env, world, data, v, body);
      } else {
        hide VisitSource, MainTrace;
        assert now == kept;
      }
      hide VisitSource, FetchOf, FetchedBody, HeadersName, HeadersOf, PayloadFor, Truthful;
      assert forall b :: Remembers(env, world, visited.data, url, b) <==> Remembers(env, world, data, url, b);
      assert forall b :: IsApplied(visited.data, url, b) <==> IsApplied(data, url, b);
    }
  }

  /** One truthful visit, exactly: the last download decides. */
  lemma SafeAfterVisitIff(env: Env, world: World, data: Data, v: Visit, runId: nat, body: Bytes)
    requires HashesAreInjective(env, world) && DatesReadBack(env)
    requires Truthful(env, world, v, body) && ShaDescribesApplied(env, data)
    ensures Downloads(env, data, v, runId) ==> Answer(env, data, v).Reply?
    ensures Safe(env, world, VisitSource(env, data, v, runId).data, v.source.url) <==>
            if Downloads(env, data, v, runId) then Complete(env, world, data, v) else Safe(env, world, data, v.source.url)
  {
    hide *;
    if Downloads(env, data, v, runId) {
      DownloadLeavesSafeIff(env, world, data, v, runId, body);
    } else {
      NoDownloadKeepsSafety(env, world, data, v, runId, body);
    }
  }

  // ---------------------------------------------------------------- whole histories

  ghost predicate TruthfulTo(env: Env, world: World, visits: seq<Visit>, url: Url) {
    && ParsedVisits(visits)
    && forall k :: 0 <= k < |visits| && visits[k].source.url == url ==> exists body :: Truthful(env, world, visits[k], body)
  }

  /** Was the last download of `url` complete? Without one, `start` answers. */
  ghost predicate LastComplete(
    env: Env, world: World, data: Data, visits: seq<Visit>, runId: nat, url: Url, start: bool)
    decreases |visits|
  {
    if visits == [] then start
    else
      var init, last := visits[..|visits| - 1], visits[|visits| - 1];
      var before := VisitAll(env, data, init, runId).data;
      if last.source.url == url && Downloads(env, before, last, runId)
      then DownloadHasAnswer(env, before, last); Complete(env, world, before, last)
      else LastComplete(env, world, data, init, runId, url, start)
  }

  ghost predicate LastCompleteInHistory(env: Env, world: World, runs: seq<Run>, grace: nat, url: Url)
    requires grace >= 1
  {
    if runs == [] then true
    else
      var init, last := runs[..|runs| - 1], runs[|runs| - 1];
      var start := LastCompleteInHistory(env, world, init, grace, url);
      if last.Winner?
      then LastComplete(env, world, After(env, EMPTY_STORE, init, grace).data, last.visits, last.id, url, start)
      else start
  }

  lemma SafeFrame(env: Env, world: World, data: Data, v: Visit, runId: nat, url: Url)
    requires v.source.url != url
    ensures Safe(env, world, VisitSource(env, data, v, runId).data, url) <==> Safe(env, world, data, url)
  {
    VisitFrame(env, data, v, runId, url);
    hide VisitSource, HeadersName, HeadersFor;
    var after := VisitSource(env, data, v, runId).data;
    assert forall b :: Remembers(env, world, after, url, b) <==> Remembers(env, world, data, url, b);
    assert forall b :: IsApplied(after, url, b) <==> IsApplied(data, url, b);
  }

  lemma {:induction false} SafeAfterVisitsIff(
    env: Env, world: World, data: Data, visits: seq<Visit>, runId: nat, url: Url)
    requires HashesAreInjective(env, world) && DatesReadBack(env)
    requires TruthfulTo(env, world, visits, url) && ShaDescribesApplied(env, data)
    ensures Safe(env, world, VisitAll(env, data, visits, runId).data, url) <==>
            LastComplete(env, world, data, visits, runId, url, Safe(env, world, data, url))
    decreases |visits|
  {
    hide VisitSource, Safe, Truthful, Complete, Downloads, ShaDescribesApplied, HashesAreInjective, DatesReadBack;
    if visits != [] {
      var init, last := visits[..|visits| - 1], visits[|visits| - 1];
      SafeAfterVisitsIff(env, world, data, init, runId, url);
      VisitsKeepSha(env, data, init, runId);
      var before := VisitAll(env, data, init, runId).data;
      if last.source.url == url {
        var body :| Truthful(env, world, last, body);
        SafeAfterVisitIff(env, world, before, last, runId, body);
      } else {
        SafeFrame(env, world, before, last, runId, url);
      }
    }
  }

  ghost predicate TruthfulHistory(env: Env, world: World, runs: seq<Run>, url: Url) {
    forall i :: 0 <= i < |runs| && runs[i].Winner? ==> TruthfulTo(env, world, runs[i].visits, url)
  }

  lemma SameFilesSameSafety(env: Env, world: World, a: Data, b: Data, url: Url)
    requires a.files == b.files && a.applied == b.applied
    ensures Safe(env, world, a, url) <==> Safe(env, world, b, url)
  {
    hide HeadersName, HeadersFor;
    assert forall x :: Remembers(env, world, a, url, x) <==> Remembers(env, world, b, url, x);
    assert forall x :: IsApplied(a, url, x) <==> IsApplied(b, url, x);
  }

  /** After any history of truthful visits the row is safe exactly when the last download was complete. */
  lemma {:induction false} SafeAfterHistoryIff(env: Env, world: World, runs: seq<Run>, grace: nat, url: Url)
    requires grace >= 1 && HashesAreInjective(env, world) && DatesReadBack(env)
    requires TruthfulHistory(env, world, runs, url)
    ensures Safe(env, world, After(env, EMPTY_STORE, runs, grace).data, url)
            <==> LastCompleteInHistory(env, world, runs, grace, url)
  {
    hide Apply, VisitAll, Safe, HashesAreInjective, DatesReadBack, ShaDescribesApplied, LastComplete;
    if runs == [] {
      NothingIsRemembered(env, world, url);
    } else {
      var init, last := runs[..|runs| - 1], runs[|runs| - 1];
      SafeAfterHistoryIff(env, world, init, grace, url);
      ShaInvariantOverHistory(env, init, grace);
      var store := After(env, EMPTY_STORE, init, grace);
      RunEndsWithItsVisits(env, store, last, grace);
      var visited := if last.Winner? then VisitAll(env, store.data, last.visits, last.id).data else store.data;
      SameFilesSameSafety(env, world, After(env, EMPTY_STORE, runs, grace).data, visited, url);
      if last.Winner? {
        SafeAfterVisitsIff(env, world, store.data, last.visits, last.id, url);
      }
    }
  }

  lemma NothingIsRemembered(env: Env, world: World, url: Url)
    ensures Safe(env, world, EMPTY_STORE.data, url)
  {
  }

  /**
   * The exact strength of three-tier detection. After any history of truthful visits, "every truthful
   * server's current body is applied by the next clean visit" holds exactly when the last download
   * of the URL was complete, or there was none.
   */
  lemma DetectionIsSoundIff(env: Env, world: World, runs: seq<Run>, grace: nat, url: Url, runId: nat)
    requires grace >= 1 && env.httpRetries >= 1 && HashesAreInjective(env, world) && DatesReadBack(env)
    requires TruthfulHistory(env, world, runs, url)
    ensures var data := After(env, EMPTY_STORE, runs, grace).data;
            (forall v: Visit, body: Bytes :: v.source.url == url && Truthful(env, world, v, body) ==>
               AppliesIfClean(env, data, v, runId, body))
            <==> LastCompleteInHistory(env, world, runs, grace, url)
  {
    SafeAfterHistoryIff(env, world, runs, grace, url);
    ShaInvariantOverHistory(env, runs, grace);
    SafeIffNoServerMisleads(env, world, After(env, EMPTY_STORE, runs, grace).data, url, runId);
  }
}
