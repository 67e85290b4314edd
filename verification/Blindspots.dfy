/**
 * Servers that break one assumption of the refinement, and what the program then believes.
 * COALESCE keeps a validator that a 200 response or a missing sidecar leaves out, so the row can
 * come to describe two bodies at once.
 */
module Blindspots {
  import opened Prelude
  import opened Tables
  import opened Database
  import opened RetryPolicy
  import opened Download
  import opened Fetcher
  import opened SyncState
  import opened Orchestrator
  import opened Scenarios

  function Next(env: Env, data: Data, v: Visit): Data {
    VisitSource(env, data, v, 1).data
  }

  /** The server goes A, then B without an ETag, then back to A: the third visit reports UNCHANGED over B. */
  lemma OmittedEtagGoesUnnoticed(env: Env, a: Bytes, b: Bytes)
    requires env.httpRetries >= 1 && env.sha256(a) != env.sha256(b)
    ensures var source := SourceWith(None);
            var d1 := Next(env, EMPTY_STORE.data, Visiting(source, Conditional("a", a), []));
            var d2 := Next(env, d1, Visiting(source, Always(NO_SIDECAR, Ok(None, b)), []));
            var third := VisitSource(env, d2, Visiting(source, Conditional("a", a), []), 1);
            third.outcome == Returned(Unchanged) && "u" in third.data.applied && third.data.applied["u"] == b
  {
    var source := SourceWith(None);
    var v1, v2 := Visiting(source, Conditional("a", a), []), Visiting(source, Always(NO_SIDECAR, Ok(None, b)), []);
    DownloadRecorded(env, EMPTY_STORE.data, v1, 1, a, Some("a"), []);
    var d1 := Next(env, EMPTY_STORE.data, v1);
    DownloadRecorded(env, d1, v2, 1, b, None, []);
    var d2 := Next(env, d1, v2);
    FirstAnswerCounts(env, PreviousOf(env, d2.files, "u"), v1.server);
  }

  /** The sidecar disappears for one download: its old digest then closes tier 1 over the new body. */
  lemma MissingSidecarGoesUnnoticed(env: Env, a: Bytes, b: Bytes, digest: Digest)
    requires env.httpRetries >= 1 && env.sha256(a) != env.sha256(b)
    ensures var source := SourceWith(Some("u.md5"));
            var sidecar: Event<Option<Digest>> := Reply(200, NoHeader, Some(digest));
            var d1 := Next(env, EMPTY_STORE.data, Visiting(source, Always(sidecar, Ok(Some("a"), a)), []));
            var d2 := Next(env, d1, Visiting(source, Always(NO_SIDECAR, Ok(Some("b"), b)), []));
            var third := VisitSource(env, d2, Visiting(source, Always(sidecar, Ok(Some("a"), a)), []), 1);
            third.outcome == Returned(Unchanged) && "u" in third.data.applied && third.data.applied["u"] == b
  {
    var source := SourceWith(Some("u.md5"));
    var sidecar: Event<Option<Digest>> := Reply(200, NoHeader, Some(digest));
    var v1 := Visiting(source, Always(sidecar, Ok(Some("a"), a)), []);
    var v2 := Visiting(source, Always(NO_SIDECAR, Ok(Some("b"), b)), []);
    SidecarAnswers(env, source, v1.server);
    SidecarAnswers(env, source, v2.server);
    DownloadRecorded(env, EMPTY_STORE.data, v1, 1, a, Some("a"), []);
    DownloadRecorded(env, Next(env, EMPTY_STORE.data, v1), v2, 1, b, Some("b"), []);
  }

  /**
   * The body is never checked against its sidecar: whatever it hashes to, the sidecar's digest is
   * recorded for it, and the next fetch that meets the same sidecar closes at tier 1. The recorded
   * digest is that of the body exactly when the sidecar already told the truth.
   */
  lemma SidecarDigestIsNotChecked(
    env: Env, data: Data, v: Visit, runId: nat, later: Visit, md5: Bytes -> Digest)
    requires VisitSource(env, data, v, runId).outcome.Returned? && BodyIn(env, data, v).Some?
    requires AskSidecar(env, v.source, v.server).Found?
    requires later.source.url == v.source.url && AskSidecar(env, later.source, later.server) == AskSidecar(env, v.source, v.server)
    ensures var after := VisitSource(env, data, v, runId).data;
            var recorded := ValidatorsOf(after.files, v.source.url).md5;
            && recorded == AskSidecar(env, v.source, v.server).Md5()
            && (recorded == Some(md5(BodyIn(env, data, v).value))
                <==> AskSidecar(env, v.source, v.server).md5 == md5(BodyIn(env, data, v).value))
            && FetchIn(env, after, later).tierUsed == Some(1)
  {
    hide Policy, SidecarOf, UpsertAll;
    ResultDescribesBody(env, v.source, PreviousOf(env, data.files, v.source.url), v.server);
  }
}
