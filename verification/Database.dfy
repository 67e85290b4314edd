/**
 * The mutable database that one sync transaction works on, and its value-level image.
 *
 * `applied` records, per source URL, the body that ETL applied last. The program does not
 * store it; it is the ghost yardstick for `sync_file.last_sha256`. `cache` is the `rdap_cache` table.
 */
module Database {
  import opened Prelude
  import opened Tables
  import RdapCache

  datatype FetchStatus = New | Updated | Unchanged | Error

  /** `sources.Format`; `Md5` is in the catalogue's enumeration but has no ETL. */
  datatype Format = Delegated | Rpsl | RpslGz | RpslSplitGz | Md5

  /** One row of `sync_file`. Instants are opaque numbers. */
  datatype SyncFile = SyncFile(
    rir: string, tier: string, kind: Format,
    lastRunId: nat, lastStatus: FetchStatus, lastFetchedAt: nat,
    md5: Option<Digest>, etag: Option<string>, lastModified: Option<int>,
    sha256: Option<Digest>, size: Option<nat>,
    lastParsedAt: Option<nat>)

  datatype RunStatus = Running | Success | Failed

  type Runs = map<nat, RunStatus>

  /** Everything a savepoint protects, apart from `sync_run`. */
  datatype Data = Data(files: map<Url, SyncFile>, rows: Rows, applied: map<Url, Bytes>)

  datatype Store = Store(runs: Runs, data: Data)

  const EMPTY_STORE := Store(map[], Data(map[], map[], map[]))

  function Successes(runs: Runs): set<nat> {
    set id | id in runs && runs[id] == Success
  }

  class Db {
    var runs: Runs
    var files: map<Url, SyncFile>
    var rows: Rows
    var cache: RdapCache.Entries
    ghost var applied: map<Url, Bytes>

    constructor ()
      ensures State() == EMPTY_STORE && cache == map[]
    {
      runs, files, rows, cache, applied := map[], map[], map[], map[], map[];
    }

    ghost function Contents(): Data
      reads this
    {
      Data(files, rows, applied)
    }

    ghost function State(): Store
      reads this
    {
      Store(runs, Contents())
    }
  }
}
