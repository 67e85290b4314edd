/**
 * `sync_file`: what one fetch reads from its row and writes back to it.
 */
module SyncState {
  import opened Prelude
  import opened Database
  import opened Fetcher

  /** `_http_date_to_datetime`: empty or unreadable dates become NULL. */
  function DateOf(env: Env, header: Option<string>): Option<int> {
    if Truthy(header) then env.parseDate(header.value) else None
  }

  function PreviousOf(env: Env, files: map<Url, SyncFile>, url: Url): Option<Previous> {
    if url !in files then None
    else
      var row := files[url];
      Some(Previous(row.md5, row.etag,
                    if row.lastModified.Some? then Some(env.formatDate(row.lastModified.value)) else None,
                    row.sha256))
  }

  /** The validator columns of a row. */
  datatype Validators = Validators(
    md5: Option<Digest>, etag: Option<string>, lastModified: Option<int>, sha256: Option<Digest>, size: Option<nat>)

  const NO_VALIDATORS := Validators(None, None, None, None, None)

  function ValidatorsOf(files: map<Url, SyncFile>, url: Url): Validators {
    if url !in files then NO_VALIDATORS
    else
      var row := files[url];
      Validators(row.md5, row.etag, row.lastModified, row.sha256, row.size)
  }

  /** `_payload_for_status` */
  function PayloadFor(env: Env, r: FetchResult, kept: Validators): Validators {
    if r.status == Error then kept
    else if r.status == Unchanged && r.tierUsed == Some(2) then
      kept.(etag := Coalesce(r.etag, kept.etag),
            lastModified := Coalesce(DateOf(env, r.lastModified), kept.lastModified))
    else
      Validators(
        Coalesce(r.md5Sidecar, kept.md5),
        Coalesce(r.etag, kept.etag),
        Coalesce(DateOf(env, r.lastModified), kept.lastModified),
        Coalesce(r.sha256, kept.sha256),
        Coalesce(r.size, kept.size))
  }

  /** The files after `write_result`. `last_parsed_at` is not among the written columns. */
  function Written(env: Env, files: map<Url, SyncFile>, source: Source, r: FetchResult, runId: nat, now: nat): map<Url, SyncFile> {
    var v := PayloadFor(env, r, ValidatorsOf(files, r.url));
    files[r.url := SyncFile(
      source.rir, source.tier, source.format, runId, r.status, now,
      v.md5, v.etag, v.lastModified, v.sha256, v.size,
      if r.url in files then files[r.url].lastParsedAt else None)]
  }

  /** The files after `mark_parsed`: a no-op when the row is missing. */
  function Parsed(files: map<Url, SyncFile>, url: Url, now: nat): map<Url, SyncFile> {
    if url in files then files[url := files[url].(lastParsedAt := Some(now))] else files
  }

  method ReadPreviousState(db: Db, env: Env, url: Url) returns (previous: Option<Previous>)
    ensures previous == PreviousOf(env, db.files, url)
  {
    if url !in db.files {
      return None;
    }
    var row := db.files[url];
    var lastModified: Option<string> := None;
    if row.lastModified.Some? {
      lastModified := Some(env.formatDate(row.lastModified.value));
    }
    return Some(Previous(row.md5, row.etag, lastModified, row.sha256));
  }

  method WriteResult(db: Db, env: Env, source: Source, result: FetchResult, runId: nat, now: nat)
    modifies db`files
    ensures db.files == Written(env, old(db.files), source, result, runId, now)
  {
    var kept := ValidatorsOf(db.files, result.url);
    var v := PayloadFor(env, result, kept);
    var parsedAt: Option<nat> := None;
    if result.url in db.files {
      parsedAt := db.files[result.url].lastParsedAt;
    }
    db.files := db.files[result.url := SyncFile(
      source.rir, source.tier, source.format, runId, result.status, now,
      v.md5, v.etag, v.lastModified, v.sha256, v.size, parsedAt)];
  }

  method MarkParsed(db: Db, url: Url, now: nat)
    modifies db`files
    ensures db.files == Parsed(old(db.files), url, now)
  {
    if url in db.files {
      db.files := db.files[url := db.files[url].(lastParsedAt := Some(now))];
    }
  }

  /**
   * `write_result` column by column. An error keeps every validator, a 304 keeps digest, hash and
   * size, and any other outcome replaces what the fetch brought; dates that do not parse bring nothing.
   */
  lemma WrittenByColumn(env: Env, files: map<Url, SyncFile>, source: Source, r: FetchResult, runId: nat, now: nat)
    ensures var after, kept := Written(env, files, source, r, runId, now), ValidatorsOf(files, r.url);
            var date := if r.lastModified.None? || r.lastModified.value == "" then None else env.parseDate(r.lastModified.value);
            var notModified := r.status == Unchanged && r.tierUsed == Some(2);
            && after.Keys == files.Keys + {r.url}
            && (forall u :: u in files && u != r.url ==> after[u] == files[u])
            && var row := after[r.url];
               && row.rir == source.rir && row.tier == source.tier && row.kind == source.format
               && row.lastRunId == runId && row.lastStatus == r.status && row.lastFetchedAt == now
               && row.lastParsedAt == (if r.url in files then files[r.url].lastParsedAt else None)
               && row.md5 == (if r.status == Error || notModified || r.md5Sidecar.None? then kept.md5 else r.md5Sidecar)
               && row.sha256 == (if r.status == Error || notModified || r.sha256.None? then kept.sha256 else r.sha256)
               && row.size == (if r.status == Error || notModified || r.size.None? then kept.size else r.size)
               && row.etag == (if r.status == Error || r.etag.None? then kept.etag else r.etag)
               && row.lastModified == (if r.status == Error || date.None? then kept.lastModified else date)
  {
  }

  /** Before its first fetch a URL has no validators; afterwards they are the columns of its row. */
  lemma ValidatorsAreColumns(files: map<Url, SyncFile>, url: Url)
    ensures var v := ValidatorsOf(files, url);
            if url in files
            then v.md5 == files[url].md5 && v.etag == files[url].etag && v.lastModified == files[url].lastModified
                 && v.sha256 == files[url].sha256 && v.size == files[url].size
            else v == Validators(None, None, None, None, None)
  {
  }

  /** Reading back what was just written gives the validators that were kept or replaced. */
  lemma WriteThenRead(env: Env, files: map<Url, SyncFile>, source: Source, r: FetchResult, runId: nat, now: nat)
    requires r.url == source.url
    ensures var p := PreviousOf(env, Written(env, files, source, r, runId, now), source.url);
            var v := PayloadFor(env, r, ValidatorsOf(files, source.url));
            p == Some(Previous(v.md5, v.etag,
                               if v.lastModified.Some? then Some(env.formatDate(v.lastModified.value)) else None, v.sha256))
    ensures forall u :: u != source.url ==>
              PreviousOf(env, Written(env, files, source, r, runId, now), u) == PreviousOf(env, files, u)
  {
  }
}
