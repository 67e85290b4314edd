/**
 * Stale-row garbage collection: the choice of the threshold run, then mark and clear table by table.
 */
module Gc {
  import opened Prelude
  import opened Tables
  import opened Database
  import RdapCache

  const GC_TABLES: seq<Table> := [
    IpAllocation, AsnAllocation, Inetnum, Inet6num, AutNum, Organisation,
    Role, Route, Route6, AsBlock, Mntner, Person, AsSet
  ]

  lemma GcCoversEveryTable(table: Table)
    ensures table in GC_TABLES
  {
    assert GC_TABLES[0] == IpAllocation && GC_TABLES[1] == AsnAllocation && GC_TABLES[2] == Inetnum;
    assert GC_TABLES[3] == Inet6num && GC_TABLES[4] == AutNum && GC_TABLES[5] == Organisation;
    assert GC_TABLES[6] == Role && GC_TABLES[7] == Route && GC_TABLES[8] == Route6;
    assert GC_TABLES[9] == AsBlock && GC_TABLES[10] == Mntner && GC_TABLES[11] == Person && GC_TABLES[12] == AsSet;
  }

  // ---------------------------------------------------------------- threshold

  lemma {:induction false} MaxExists(s: set<nat>) returns (m: nat)
    requires s != {}
    ensures m in s && forall x :: x in s ==> x <= m
  {
    m :| m in s;
    var rest := s - {m};
    if rest != {} {
      var top := MaxExists(rest);
      assert s == rest + {m};
      if top > m {
        m := top;
      }
    }
  }

  lemma HasMax(s: set<nat>)
    requires s != {}
    ensures exists m :: m in s && forall x :: x in s ==> x <= m
  {
    var m := MaxExists(s);
  }

  function Max(s: set<nat>): (m: nat)
    requires s != {}
    ensures m in s && forall x :: x in s ==> x <= m
  {
    HasMax(s);
    var m :| m in s && forall x :: x in s ==> x <= m;
    m
  }

  /** `ORDER BY id DESC OFFSET offset LIMIT 1` over a set of run ids. */
  function NthLargest(s: set<nat>, offset: nat): Option<nat> {
    if s == {} then None
    else if offset == 0 then Some(Max(s))
    else NthLargest(s - {Max(s)}, offset - 1)
  }

  function Above(s: set<nat>, bound: nat): set<nat> {
    set x | x in s && x > bound
  }

  lemma {:induction false} NthLargestByCounting(s: set<nat>, offset: nat)
    ensures NthLargest(s, offset).None? <==> |s| <= offset
    ensures NthLargest(s, offset).Some? ==>
              NthLargest(s, offset).value in s && |Above(s, NthLargest(s, offset).value)| == offset
  {
    if s != {} {
      var m := Max(s);
      if offset == 0 {
        assert Above(s, m) == {};
      } else {
        NthLargestByCounting(s - {m}, offset - 1);
        if NthLargest(s, offset).Some? {
          var t := NthLargest(s, offset).value;
          assert t != m && t < m;
          assert Above(s, t) == Above(s - {m}, t) + {m};
        }
      }
    }
  }

  lemma SubsetSize<T>(a: set<T>, b: set<T>)
    requires a <= b
    ensures |a| <= |b|
  {
    assert b == a + (b - a);
  }

  /** N-th largest versus counting: below the threshold exactly when N successes lie above. */
  lemma BelowThresholdIffCount(s: set<nat>, grace: nat, seen: nat)
    requires grace >= 1 && NthLargest(s, grace - 1).Some?
    ensures seen < NthLargest(s, grace - 1).value <==> |Above(s, seen)| >= grace
  {
    NthLargestByCounting(s, grace - 1);
    var t := NthLargest(s, grace - 1).value;
    if seen < t {
      SubsetSize(Above(s, t) + {t}, Above(s, seen));
    } else {
      SubsetSize(Above(s, seen), Above(s, t));
    }
  }

  lemma ThresholdNeverDecreases(s: set<nat>, later: set<nat>, grace: nat)
    requires grace >= 1 && s <= later
    requires NthLargest(s, grace - 1).Some?
    ensures NthLargest(later, grace - 1).Some?
    ensures NthLargest(s, grace - 1).value <= NthLargest(later, grace - 1).value
  {
    NthLargestByCounting(s, grace - 1);
    NthLargestByCounting(later, grace - 1);
    SubsetSize(s, later);
    var t, u := NthLargest(s, grace - 1).value, NthLargest(later, grace - 1).value;
    if u < t {
      SubsetSize(Above(s, t), Above(later, t));
      SubsetSize(Above(s, t) + {t}, Above(later, u));
    }
  }

  // ---------------------------------------------------------------- the effect on rows

  function GcRow(row: TableRow, threshold: nat): TableRow {
    row.(stale := row.lastSeen < threshold)
  }

  function Swept(rows: Rows, threshold: nat): Rows {
    map id | id in rows :: GcRow(rows[id], threshold)
  }

  function AfterGc(rows: Rows, successes: set<nat>, grace: nat): Rows
    requires grace >= 1
  {
    match NthLargest(successes, grace - 1)
    case None => rows
    case Some(threshold) => Swept(rows, threshold)
  }

  function ToMark(rows: Rows, table: Table, threshold: nat): set<RowId> {
    set id | id in rows && id.table == table && rows[id].lastSeen < threshold && !rows[id].stale
  }

  function ToClear(rows: Rows, table: Table, threshold: nat): set<RowId> {
    set id | id in rows && id.table == table && rows[id].lastSeen >= threshold && rows[id].stale
  }

  function StaleIds(rows: Rows, table: Table): set<RowId> {
    set id | id in rows && id.table == table && rows[id].stale
  }

  /** The threshold reads as a count: stale exactly when N successful runs came after the last sighting. */
  lemma StaleIffGraceRunsPassed(rows: Rows, successes: set<nat>, grace: nat, id: RowId)
    requires grace >= 1 && |successes| >= grace
    requires id in rows
    ensures AfterGc(rows, successes, grace)[id].stale <==> |Above(successes, rows[id].lastSeen)| >= grace
  {
    NthLargestByCounting(successes, grace - 1);
    BelowThresholdIffCount(successes, grace, rows[id].lastSeen);
  }

  lemma BootstrapChangesNothing(rows: Rows, successes: set<nat>, grace: nat)
    requires grace >= 1 && |successes| < grace
    ensures AfterGc(rows, successes, grace) == rows
  {
    NthLargestByCounting(successes, grace - 1);
  }

  lemma ExchangeSize<T>(before: set<T>, after: set<T>, added: set<T>, removed: set<T>)
    requires removed <= before && added !! before && after == before - removed + added
    ensures |after| == |before| + |added| - |removed|
  {
    assert before == (before - removed) + removed;
  }

  lemma StaleIdsAfterSweep(rows: Rows, threshold: nat, table: Table)
    ensures StaleIds(Swept(rows, threshold), table)
         == StaleIds(rows, table) - ToClear(rows, table, threshold) + ToMark(rows, table, threshold)
  {
  }

  /** Stale after = stale before + marked - cleared, for every table. */
  lemma StaleIsConserved(rows: Rows, threshold: nat, table: Table)
    ensures |StaleIds(Swept(rows, threshold), table)|
         == |StaleIds(rows, table)| + |ToMark(rows, table, threshold)| - |ToClear(rows, table, threshold)|
  {
    StaleIdsAfterSweep(rows, threshold, table);
    ExchangeSize(StaleIds(rows, table), StaleIds(Swept(rows, threshold), table),
                 ToMark(rows, table, threshold), ToClear(rows, table, threshold));
  }

  /** A second GC with the same runs changes no flag and counts nothing. */
  lemma GcIsIdempotent(rows: Rows, successes: set<nat>, grace: nat)
    requires grace >= 1
    ensures var once := AfterGc(rows, successes, grace);
            && AfterGc(once, successes, grace) == once
            && forall t, table :: NthLargest(successes, grace - 1) == Some(t) ==>
                 ToMark(once, table, t) == {} && ToClear(once, table, t) == {}
  {
    var once := AfterGc(rows, successes, grace);
    if NthLargest(successes, grace - 1).Some? {
      var t := NthLargest(successes, grace - 1).value;
      forall table: Table
        ensures ToMark(once, table, t) == {} && ToClear(once, table, t) == {}
      {
        assert forall id :: id in once && id.table == table ==> once[id].stale == (once[id].lastSeen < t);
      }
    }
  }

  // ---------------------------------------------------------------- run_gc

  datatype GcStats = GcStats(
    graceRuns: nat, threshold: Option<nat>, marked: map<Table, nat>, cleared: map<Table, nat>, rdapCacheDeleted: nat)

  /** `UPDATE table SET is_stale = TRUE WHERE last_seen_run < threshold AND is_stale = FALSE` */
  method MarkStale(db: Db, table: Table, threshold: nat) returns (rowcount: nat)
    modifies db`rows
    ensures rowcount == |ToMark(old(db.rows), table, threshold)|
    ensures db.rows.Keys == old(db.rows).Keys
    ensures forall id :: id in db.rows ==>
              db.rows[id] == if id in ToMark(old(db.rows), table, threshold)
                             then old(db.rows)[id].(stale := true) else old(db.rows)[id]
  {
    var hit := ToMark(db.rows, table, threshold);
    db.rows := map id | id in db.rows :: if id in hit then db.rows[id].(stale := true) else db.rows[id];
    rowcount := |hit|;
  }

  /** `UPDATE table SET is_stale = FALSE WHERE last_seen_run >= threshold AND is_stale = TRUE` */
  method ClearStale(db: Db, table: Table, threshold: nat) returns (rowcount: nat)
    modifies db`rows
    ensures rowcount == |ToClear(old(db.rows), table, threshold)|
    ensures db.rows.Keys == old(db.rows).Keys
    ensures forall id :: id in db.rows ==>
              db.rows[id] == if id in ToClear(old(db.rows), table, threshold)
                             then old(db.rows)[id].(stale := false) else old(db.rows)[id]
  {
    var hit := ToClear(db.rows, table, threshold);
    db.rows := map id | id in db.rows :: if id in hit then db.rows[id].(stale := false) else db.rows[id];
    rowcount := |hit|;
  }

  /** The rows after the passes over `done`. */
  ghost function SweptOn(rows: Rows, done: seq<Table>, threshold: nat): Rows {
    map id | id in rows :: if id.table in done then GcRow(rows[id], threshold) else rows[id]
  }

  ghost predicate CountsAre(marked: map<Table, nat>, cleared: map<Table, nat>, rows: Rows, done: seq<Table>, threshold: nat) {
    && (forall t :: t in marked ==> t in done && marked[t] > 0)
    && (forall t :: t in cleared ==> t in done && cleared[t] > 0)
    && (forall t :: t in done ==>
          && CountOf(marked, t) == |ToMark(rows, t, threshold)|
          && CountOf(cleared, t) == |ToClear(rows, t, threshold)|)
  }

  lemma SweptOneMore(rows: Rows, done: seq<Table>, table: Table, threshold: nat)
    requires table !in done
    ensures SweptOn(SweptOn(rows, done, threshold), [table], threshold) == SweptOn(rows, done + [table], threshold)
    ensures ToMark(SweptOn(rows, done, threshold), table, threshold) == ToMark(rows, table, threshold)
    ensures ToClear(SweptOn(rows, done, threshold), table, threshold) == ToClear(rows, table, threshold)
  {
    var mid := SweptOn(rows, done, threshold);
    assert forall id :: id in rows && id.table == table ==> mid[id] == rows[id];
  }

  lemma ClearAfterMark(before: Rows, marked: Rows, after: Rows, table: Table, threshold: nat)
    requires marked.Keys == before.Keys && after.Keys == before.Keys
    requires forall id :: id in before ==>
               marked[id] == if id in ToMark(before, table, threshold) then before[id].(stale := true) else before[id]
    requires forall id :: id in before ==>
               after[id] == if id in ToClear(marked, table, threshold) then marked[id].(stale := false) else marked[id]
    ensures after == SweptOn(before, [table], threshold)
  {
    var swept := SweptOn(before, [table], threshold);
    forall id | id in before
      ensures after[id] == swept[id]
    {
    }
  }

  /** One turn of the loop: mark, then clear. */
  method SweepTable(db: Db, table: Table, threshold: nat) returns (markCount: nat, clearCount: nat)
    modifies db`rows
    ensures db.rows == SweptOn(old(db.rows), [table], threshold)
    ensures markCount == |ToMark(old(db.rows), table, threshold)|
    ensures clearCount == |ToClear(old(db.rows), table, threshold)|
  {
    ghost var before := db.rows;
    markCount := MarkStale(db, table, threshold);
    assert ToClear(db.rows, table, threshold) == ToClear(before, table, threshold);
    ghost var marked := db.rows;
    clearCount := ClearStale(db, table, threshold);
    ClearAfterMark(before, marked, db.rows, table, threshold);
  }

  function Noted(counts: map<Table, nat>, table: Table, rowcount: nat): map<Table, nat> {
    if rowcount > 0 then counts[table := rowcount] else counts
  }

  lemma CountedOneMore(marked: map<Table, nat>, cleared: map<Table, nat>, rows: Rows, done: seq<Table>, table: Table, threshold: nat)
    requires CountsAre(marked, cleared, rows, done, threshold) && table !in done
    ensures CountsAre(Noted(marked, table, |ToMark(rows, table, threshold)|),
                      Noted(cleared, table, |ToClear(rows, table, threshold)|), rows, done + [table], threshold)
  {
  }

  method SweepTables(db: Db, tables: seq<Table>, threshold: nat)
    returns (marked: map<Table, nat>, cleared: map<Table, nat>)
    requires forall i, j :: 0 <= i < j < |tables| ==> tables[i] != tables[j]
    modifies db`rows
    ensures db.rows == SweptOn(old(db.rows), tables, threshold)
    ensures CountsAre(marked, cleared, old(db.rows), tables, threshold)
  {
    ghost var before := db.rows;
    marked, cleared := map[], map[];
    for i := 0 to |tables|
      invariant db.rows == SweptOn(before, tables[..i], threshold)
      invariant CountsAre(marked, cleared, before, tables[..i], threshold)
    {
      assert tables[..i + 1] == tables[..i] + [tables[i]];
      SweptOneMore(before, tables[..i], tables[i], threshold);
      CountedOneMore(marked, cleared, before, tables[..i], tables[i], threshold);
      var markCount, clearCount := SweepTable(db, tables[i], threshold);
      marked := Noted(marked, tables[i], markCount);
      cleared := Noted(cleared, tables[i], clearCount);
    }
    assert tables[..|tables|] == tables;
  }

  /** The cache after GC: cleaned, unless in bootstrap. */
  function CacheAfterGc(cache: RdapCache.Entries, successes: set<nat>, grace: nat, now: int): RdapCache.Entries
    requires grace >= 1
  {
    if NthLargest(successes, grace - 1).Some? then RdapCache.Cleaned(cache, now) else cache
  }

  lemma CleanedSize(cache: RdapCache.Entries, now: int)
    ensures RdapCache.Cleaned(cache, now).Keys <= cache.Keys
    ensures |RdapCache.Cleaned(cache, now)| <= |cache|
  {
    SubsetSize(RdapCache.Cleaned(cache, now).Keys, cache.Keys);
  }

  /** What a GC reports of rows and cache entries, given what it started from. */
  ghost predicate Reports(
    stats: GcStats, grace: nat, successes: set<nat>, rows: Rows, cache: RdapCache.Entries, now: int)
    requires grace >= 1
  {
    && stats.graceRuns == grace
    && stats.threshold == NthLargest(successes, grace - 1)
    && stats.rdapCacheDeleted == |cache| - |CacheAfterGc(cache, successes, grace, now)|
    && if stats.threshold.Some? then CountsAre(stats.marked, stats.cleared, rows, GC_TABLES, stats.threshold.value)
       else stats.marked == map[] && stats.cleared == map[]
  }

  method RunGc(db: Db, graceRuns: nat, now: int) returns (stats: GcStats)
    requires graceRuns >= 1
    modifies db`rows, db`cache
    ensures Reports(stats, graceRuns, Successes(db.runs), old(db.rows), old(db.cache), now)
    ensures db.rows == AfterGc(old(db.rows), Successes(db.runs), graceRuns)
    ensures db.cache == CacheAfterGc(old(db.cache), Successes(db.runs), graceRuns, now)
    ensures forall k :: k in db.cache <==>
              k in old(db.cache) && (stats.threshold.None? || old(db.cache)[k].expiresAt >= now - 604800)
    ensures forall k :: k in db.cache ==> db.cache[k] == old(db.cache)[k]
  {
    var thresholdRow := NthLargest(Successes(db.runs), graceRuns - 1);
    if thresholdRow.None? {
      return GcStats(graceRuns, None, map[], map[], 0);
    }
    var threshold := thresholdRow.value;
    ghost var before := db.rows;
    var marked, cleared := SweepTables(db, GC_TABLES, threshold);
    forall table { GcCoversEveryTable(table); }
    assert SweptOn(before, GC_TABLES, threshold) == Swept(before, threshold);
    CleanedSize(db.cache, now);
    var rdapDeleted := |db.cache| - |RdapCache.Cleaned(db.cache, now)|;
    db.cache := RdapCache.Cleaned(db.cache, now);
    return GcStats(graceRuns, Some(threshold), marked, cleared, rdapDeleted);
  }
}
