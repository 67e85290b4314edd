/**
 * Batched RPSL ETL: per-table buffers, a flush when a buffer reaches the batch size, a final flush.
 */
module RpslEtl {
  import opened Prelude
  import opened Tables
  import opened Database
  import opened Gc
  import opened Orchestrator
  import opened RpslParser

  const UPSERT_ORDER: seq<Table> := [
    Mntner, Person, Organisation, Role, Inetnum, Inet6num, AutNum, Route, Route6, AsBlock, AsSet
  ]

  /** `_OBJECT_TYPE_TO_TABLE` */
  function TableOf(objType: string): Option<Table> {
    match objType
    case "inetnum" => Some(Inetnum)
    case "inet6num" => Some(Inet6num)
    case "aut-num" => Some(AutNum)
    case "organisation" => Some(Organisation)
    case "route" => Some(Route)
    case "route6" => Some(Route6)
    case "as-block" => Some(AsBlock)
    case "role" => Some(Role)
    case "mntner" => Some(Mntner)
    case "person" => Some(Person)
    case "as-set" => Some(AsSet)
    case _ => None
  }

  predicate Loaded(t: Table) {
    t != IpAllocation && t != AsnAllocation
  }

  lemma EveryObjectTableIsFlushed(objType: string)
    ensures TableOf(objType).Some? ==> Loaded(TableOf(objType).value)
  {
  }

  lemma UpsertOrderIsComplete(t: Table)
    ensures Loaded(t) <==> t in UPSERT_ORDER
  {
    assert UPSERT_ORDER[0] == Mntner && UPSERT_ORDER[1] == Person && UPSERT_ORDER[2] == Organisation;
    assert UPSERT_ORDER[3] == Role && UPSERT_ORDER[4] == Inetnum && UPSERT_ORDER[5] == Inet6num;
    assert UPSERT_ORDER[6] == AutNum && UPSERT_ORDER[7] == Route && UPSERT_ORDER[8] == Route6;
    assert UPSERT_ORDER[9] == AsBlock && UPSERT_ORDER[10] == AsSet;
  }

  /** The mapper of a table: the rows of an object, none for an object it rejects. */
  type Mapper = (Table, RpslObject) -> seq<(Key, Payload)>

  datatype Kind = NoType | UnknownType | Rejected | Good(table: Table, writes: seq<Write>)

  function Addressed(table: Table, rows: seq<(Key, Payload)>): (ws: seq<Write>)
    ensures |ws| == |rows| && forall j :: 0 <= j < |rows| ==> ws[j] == Write(RowId(table, rows[j].0), rows[j].1)
    ensures forall w :: w in ws ==> w.id.table == table
  {
    if rows == [] then []
    else Addressed(table, rows[..|rows| - 1]) + [Write(RowId(table, rows[|rows| - 1].0), rows[|rows| - 1].1)]
  }

  /** What becomes of one object. */
  function KindOf(mapper: Mapper, obj: RpslObject): Kind {
    if obj == [] then NoType
    else
      match TableOf(obj[0].key)
      case None => UnknownType
      case Some(table) =>
        var rows := mapper(table, obj);
        if rows == [] then Rejected else Good(table, Addressed(table, rows))
  }

  function WritesOfKind(kind: Kind): seq<Write> {
    if kind.Good? then kind.writes else []
  }

  /** The RPSL class that a table holds. The delegated tables hold none. */
  function ClassOf(t: Table): string
    requires Loaded(t)
  {
    match t
    case Inetnum => "inetnum"
    case Inet6num => "inet6num"
    case AutNum => "aut-num"
    case Organisation => "organisation"
    case Role => "role"
    case Route => "route"
    case Route6 => "route6"
    case AsBlock => "as-block"
    case Mntner => "mntner"
    case Person => "person"
    case AsSet => "as-set"
  }

  /** The object's type, its first key, is the class of the table. */
  predicate IsOfClass(obj: RpslObject, t: Table) {
    Loaded(t) && obj != [] && obj[0].key == ClassOf(t)
  }

  /** An object goes to the table of its class with the rows of that table's mapper, or is skipped. */
  lemma ObjectGoesToItsClass(mapper: Mapper, obj: RpslObject)
    ensures KindOf(mapper, obj).NoType? <==> obj == []
    ensures KindOf(mapper, obj).UnknownType? <==> obj != [] && forall t :: !IsOfClass(obj, t)
    ensures forall t :: IsOfClass(obj, t) ==>
              var rows, kind := mapper(t, obj), KindOf(mapper, obj);
              && (rows == [] <==> kind.Rejected?)
              && (rows != [] <==> kind.Good?)
              && (rows != [] ==>
                    && kind.table == t && |kind.writes| == |rows|
                    && forall j :: 0 <= j < |rows| ==> kind.writes[j] == Write(RowId(t, rows[j].0), rows[j].1))
  {
    if obj != [] && TableOf(obj[0].key).Some? {
      var t := TableOf(obj[0].key).value;
      assert IsOfClass(obj, t);
    }
    forall t | IsOfClass(obj, t)
      ensures TableOf(obj[0].key) == Some(t)
    {
    }
  }

  /** The rows of the stream, in stream order. */
  function AllWrites(mapper: Mapper, objs: seq<RpslObject>): seq<Write> {
    if objs == [] then []
    else AllWrites(mapper, objs[..|objs| - 1]) + WritesOfKind(KindOf(mapper, objs[|objs| - 1]))
  }

  // ---------------------------------------------------------------- what ends up where

  /** Object `i` is of the class of `t`, and its `j`-th row has this key and payload. */
  predicate Maps(mapper: Mapper, objs: seq<RpslObject>, i: int, t: Table, j: int, w: Write) {
    && 0 <= i < |objs| && IsOfClass(objs[i], t) && 0 <= j < |mapper(t, objs[i])|
    && w == Write(RowId(t, mapper(t, objs[i])[j].0), mapper(t, objs[i])[j].1)
  }

  ghost predicate IsMapped(mapper: Mapper, objs: seq<RpslObject>, w: Write) {
    exists i, t, j :: Maps(mapper, objs, i, t, j, w)
  }

  lemma MappedByLastOrBefore(mapper: Mapper, init: seq<RpslObject>, obj: RpslObject, w: Write)
    ensures IsMapped(mapper, init + [obj], w) <==> IsMapped(mapper, init, w) || exists t, j :: Maps(mapper, [obj], 0, t, j, w)
  {
    hide IsOfClass;
    var objs, n := init + [obj], |init|;
    if i, t, j :| Maps(mapper, objs, i, t, j, w) {
      assert if i == n then Maps(mapper, [obj], 0, t, j, w) else Maps(mapper, init, i, t, j, w);
    }
    if i, t, j :| Maps(mapper, init, i, t, j, w) {
      assert Maps(mapper, objs, i, t, j, w);
    }
    if t, j :| Maps(mapper, [obj], 0, t, j, w) {
      assert Maps(mapper, objs, n, t, j, w);
    }
  }

  /** The writes of a stream are the rows of its objects, each in the table of the object's class. */
  lemma {:induction false} WritesAreMapped(mapper: Mapper, objs: seq<RpslObject>, w: Write)
    ensures w in AllWrites(mapper, objs) <==> IsMapped(mapper, objs, w)
  {
    if objs != [] {
      hide KindOf, WritesOfKind, AllWrites, Maps, IsMapped;
      var init, obj := objs[..|objs| - 1], objs[|objs| - 1];
      assert objs == init + [obj];
      WritesAreMapped(mapper, init, w);
      LastObjectMaps(mapper, obj, w);
      AllWritesOneMore(mapper, init, obj);
      MappedByLastOrBefore(mapper, init, obj, w);
    }
  }

  lemma LastObjectMaps(mapper: Mapper, obj: RpslObject, w: Write)
    ensures w in WritesOfKind(KindOf(mapper, obj)) <==> exists t, j :: Maps(mapper, [obj], 0, t, j, w)
  {
    ObjectGoesToItsClass(mapper, obj);
    var kind := KindOf(mapper, obj);
    hide KindOf;
    if w in WritesOfKind(kind) {
      var t :| IsOfClass(obj, t);
      var j :| 0 <= j < |kind.writes| && kind.writes[j] == w;
      assert Maps(mapper, [obj], 0, t, j, w);
    }
    if t, j :| Maps(mapper, [obj], 0, t, j, w) {
      assert kind.writes[j] == w;
    }
  }

  /** No row of the stream after this one has its key. */
  ghost predicate IsLastRow(mapper: Mapper, objs: seq<RpslObject>, i: int, t: Table, j: int, w: Write) {
    && Maps(mapper, objs, i, t, j, w)
    && forall k, u, l, v :: Maps(mapper, objs, k, u, l, v) && v.id == w.id ==> k < i || (k == i && l <= j)
  }

  /** The last object writes the row last, or not at all. */
  lemma LastObjectsWrite(mapper: Mapper, objs: seq<RpslObject>, i: int, t: Table, j: int, w: Write)
    requires IsLastRow(mapper, objs, i, t, j, w)
    ensures var n := |objs| - 1;
            LastWrite(WritesOfKind(KindOf(mapper, objs[n])), w.id) == if i == n then Some(w.payload) else None
  {
    var n := |objs| - 1;
    var kind := KindOf(mapper, objs[n]);
    var writes := WritesOfKind(kind);
    LastWriteIsAWrite(writes, w.id);
    ObjectGoesToItsClass(mapper, objs[n]);
    hide KindOf, IsOfClass, LastWrite;
    forall l | 0 <= l < |writes| && writes[l].id == w.id
      ensures i == n && l <= j
    {
      var u :| IsOfClass(objs[n], u);
      assert Maps(mapper, objs, n, u, l, writes[l]);
    }
    if i == n {
      assert writes[j] == w;
      LastWriteIsLast(writes, j);
    }
  }

  lemma EarlierLastRow(mapper: Mapper, objs: seq<RpslObject>, i: int, t: Table, j: int, w: Write)
    requires IsLastRow(mapper, objs, i, t, j, w) && i < |objs| - 1
    ensures IsLastRow(mapper, objs[..|objs| - 1], i, t, j, w)
  {
    hide IsOfClass;
    var init := objs[..|objs| - 1];
    assert forall k, u, l, v :: Maps(mapper, init, k, u, l, v) ==> Maps(mapper, objs, k, u, l, v);
  }

  lemma {:induction false} LastRowIsLastWrite(mapper: Mapper, objs: seq<RpslObject>, i: int, t: Table, j: int, w: Write)
    requires IsLastRow(mapper, objs, i, t, j, w)
    ensures LastWrite(AllWrites(mapper, objs), w.id) == Some(w.payload)
    decreases |objs|
  {
    hide KindOf, Maps, LastWrite;
    HasObjects(mapper, objs, i, t, j, w);
    var n := |objs| - 1;
    LastObjectsWrite(mapper, objs, i, t, j, w);
    LastWriteConcat(AllWrites(mapper, objs[..n]), WritesOfKind(KindOf(mapper, objs[n])), w.id);
    if i < n {
      EarlierLastRow(mapper, objs, i, t, j, w);
      LastRowIsLastWrite(mapper, objs[..n], i, t, j, w);
    }
  }

  lemma HasObjects(mapper: Mapper, objs: seq<RpslObject>, i: int, t: Table, j: int, w: Write)
    requires Maps(mapper, objs, i, t, j, w)
    ensures 0 <= i < |objs|
  {
  }

  /** After the ETL: every mapped row is there, seen in this run, with its last payload, and no other row changed. */
  ghost predicate RowsOfTheirClass(mapper: Mapper, objs: seq<RpslObject>, before: Rows, after: Rows, run: nat) {
    && (forall i, t, j, w :: Maps(mapper, objs, i, t, j, w) ==> w.id in after && after[w.id].lastSeen == run)
    && (forall i, t, j, w :: IsLastRow(mapper, objs, i, t, j, w) ==> after[w.id].payload == w.payload)
    && (forall id :: id in before || id in after ==>
          || (exists i, t, j, w :: Maps(mapper, objs, i, t, j, w) && w.id == id && id in after && after[id].payload == w.payload)
          || (id in before && id in after && after[id] == before[id]))
  }

  lemma EtlRowsAreOfTheirClass(mapper: Mapper, objs: seq<RpslObject>, before: Rows, run: nat)
    ensures RowsOfTheirClass(mapper, objs, before, UpsertAll(before, AllWrites(mapper, objs), run), run)
  {
    hide AllWrites, UpsertAll, Maps;
    var all := AllWrites(mapper, objs);
    var after := UpsertAll(before, all, run);
    forall i, t, j, w | Maps(mapper, objs, i, t, j, w)
      ensures w.id in after && after[w.id].lastSeen == run
    {
      WritesAreMapped(mapper, objs, w);
      UpsertAllIsLastWins(before, all, run, w.id);
      LastWriteIsAWrite(all, w.id);
    }
    forall i, t, j, w | IsLastRow(mapper, objs, i, t, j, w)
      ensures after[w.id].payload == w.payload
    {
      LastRowIsLastWrite(mapper, objs, i, t, j, w);
      UpsertAllIsLastWins(before, all, run, w.id);
    }
    forall id | id in before || id in after
      ensures (exists i, t, j, w :: Maps(mapper, objs, i, t, j, w) && w.id == id && id in after && after[id].payload == w.payload)
           || (id in before && id in after && after[id] == before[id])
    {
      UpsertAllIsLastWins(before, all, run, id);
      if Touches(all, id) {
        var w := LastWriteFound(all, id);
        WritesAreMapped(mapper, objs, w);
      }
    }
  }

  // ---------------------------------------------------------------- batching

  /** The batches flushed so far for one table, and its buffer. */
  datatype Buffering = Buffering(flushed: seq<seq<Write>>, pending: seq<Write>)

  function Extended(b: Buffering, rows: seq<Write>, batchSize: nat): Buffering {
    var full := b.pending + rows;
    if |full| >= batchSize then Buffering(b.flushed + [full], []) else Buffering(b.flushed, full)
  }

  function Buffered(mapper: Mapper, objs: seq<RpslObject>, table: Table, batchSize: nat): Buffering {
    if objs == [] then Buffering([], [])
    else
      var b, kind := Buffered(mapper, objs[..|objs| - 1], table, batchSize), KindOf(mapper, objs[|objs| - 1]);
      if kind.Good? && kind.table == table then Extended(b, kind.writes, batchSize) else b
  }

  /** All flushes of one table: at the threshold, and what is left at the end. */
  function Flushes(b: Buffering): seq<seq<Write>> {
    if b.pending == [] then b.flushed else b.flushed + [b.pending]
  }

  ghost predicate SomeDuplicate(batches: seq<seq<Write>>) {
    exists i :: 0 <= i < |batches| && DuplicateKeys(batches[i])
  }

  /** PostgreSQL refuses to touch one row twice in one statement. */
  ghost predicate SomeFlushFails(mapper: Mapper, objs: seq<RpslObject>, batchSize: nat) {
    exists t :: Loaded(t) && SomeDuplicate(Flushes(Buffered(mapper, objs, t, batchSize)))
  }

  /** The ETL of a stream as the orchestrator sees it. */
  ghost function RpslLoad(mapper: Mapper, objs: seq<RpslObject>, batchSize: nat): Load {
    if SomeFlushFails(mapper, objs, batchSize) then Raises else Loads(AllWrites(mapper, objs))
  }

  // ---------------------------------------------------------------- statistics

  datatype Skips = Skips(seen: nat, unknown: nat, malformed: nat)

  function Skipped(s: Skips, kind: Kind): Skips {
    var t := s.(seen := s.seen + 1);
    match kind
    case UnknownType => t.(unknown := t.unknown + 1)
    case NoType => t.(malformed := t.malformed + 1)
    case Rejected => t.(malformed := t.malformed + 1)
    case Good(_, _) => t
  }

  function SkipsOf(mapper: Mapper, objs: seq<RpslObject>): Skips {
    if objs == [] then Skips(0, 0, 0)
    else Skipped(SkipsOf(mapper, objs[..|objs| - 1]), KindOf(mapper, objs[|objs| - 1]))
  }

  function GoodCount(mapper: Mapper, objs: seq<RpslObject>): nat {
    if objs == [] then 0
    else GoodCount(mapper, objs[..|objs| - 1]) + if KindOf(mapper, objs[|objs| - 1]).Good? then 1 else 0
  }

  /** Seen = unknown + malformed + mapped. */
  lemma {:induction false} SeenAddsUp(mapper: Mapper, objs: seq<RpslObject>)
    ensures var s := SkipsOf(mapper, objs);
            s.seen == |objs| && s.seen == s.unknown + s.malformed + GoodCount(mapper, objs)
  {
    if objs != [] {
      SeenAddsUp(mapper, objs[..|objs| - 1]);
    }
  }

  function CountIf(objs: seq<RpslObject>, p: RpslObject -> bool): nat {
    if objs == [] then 0 else CountIf(objs[..|objs| - 1], p) + if p(objs[|objs| - 1]) then 1 else 0
  }

  /** Unknown counts the objects of a class without a table; malformed those without a key or that their mapper rejects. */
  lemma {:induction false} SkipsByObject(mapper: Mapper, objs: seq<RpslObject>)
    ensures var s := SkipsOf(mapper, objs);
            && s.seen == |objs|
            && s.unknown == CountIf(objs, o => o != [] && forall t :: !IsOfClass(o, t))
            && s.malformed == CountIf(objs, o => o == [] || exists t :: IsOfClass(o, t) && mapper(t, o) == [])
  {
    if objs != [] {
      SkipsByObject(mapper, objs[..|objs| - 1]);
      ObjectGoesToItsClass(mapper, objs[|objs| - 1]);
    }
  }

  /** `objects_by_type` after one more object: objects without a key have no type. */
  function Typed(byType: map<string, nat>, obj: RpslObject): map<string, nat> {
    if obj == [] then byType
    else byType[obj[0].key := 1 + if obj[0].key in byType then byType[obj[0].key] else 0]
  }

  function ByType(objs: seq<RpslObject>): map<string, nat> {
    if objs == [] then map[] else Typed(ByType(objs[..|objs| - 1]), objs[|objs| - 1])
  }

  /** How many objects have this first key. */
  function OfType(objs: seq<RpslObject>, key: string): nat {
    if objs == [] then 0
    else
      var last := objs[|objs| - 1];
      OfType(objs[..|objs| - 1], key) + if last != [] && last[0].key == key then 1 else 0
  }

  function Keyless(objs: seq<RpslObject>): nat {
    if objs == [] then 0 else Keyless(objs[..|objs| - 1]) + if objs[|objs| - 1] == [] then 1 else 0
  }

  ghost function Total(counts: map<string, nat>): nat {
    if counts == map[] then 0
    else
      var k :| k in counts;
      counts[k] + Total(counts - {k})
  }

  lemma {:induction false} TotalTakesOut(counts: map<string, nat>, k: string)
    requires k in counts
    ensures Total(counts) == counts[k] + Total(counts - {k})
    decreases |counts|
  {
    var j :| j in counts && Total(counts) == counts[j] + Total(counts - {j});
    if j != k {
      TotalTakesOut(counts - {j}, k);
      assert (counts - {j}) - {k} == (counts - {k}) - {j};
      TotalTakesOut(counts - {k}, j);
    }
  }

  lemma TotalOneMore(byType: map<string, nat>, obj: RpslObject)
    ensures Total(Typed(byType, obj)) == Total(byType) + if obj == [] then 0 else 1
  {
    if obj != [] {
      var k, after := obj[0].key, Typed(byType, obj);
      TotalTakesOut(after, k);
      if k in byType {
        TotalTakesOut(byType, k);
        assert after - {k} == byType - {k};
      } else {
        assert after - {k} == byType;
      }
    }
  }

  /** The documented invariant: seen = the counts of all types + the objects without a key. */
  lemma {:induction false} ByTypeAddsUp(objs: seq<RpslObject>)
    ensures |objs| == Total(ByType(objs)) + Keyless(objs)
    ensures forall key :: (if key in ByType(objs) then ByType(objs)[key] else 0) == OfType(objs, key)
    ensures forall key :: key in ByType(objs) ==> ByType(objs)[key] > 0
  {
    if objs != [] {
      ByTypeAddsUp(objs[..|objs| - 1]);
      TotalOneMore(ByType(objs[..|objs| - 1]), objs[|objs| - 1]);
    }
  }

  class RpslEtlStats {
    var objectsSeen: nat
    var objectsByType: map<string, nat>
    var skippedUnknownType: nat
    var skippedMalformed: nat
    var inserted: map<Table, nat>
    var updated: map<Table, nat>

    constructor ()
      ensures Counts() == Skips(0, 0, 0) && objectsByType == map[] && inserted == map[] && updated == map[]
    {
      objectsSeen, skippedUnknownType, skippedMalformed := 0, 0, 0;
      objectsByType, inserted, updated := map[], map[], map[];
    }

    function Counts(): Skips
      reads this
    {
      Skips(objectsSeen, skippedUnknownType, skippedMalformed)
    }
  }

  lemma {:induction false} ForTableOfOneTable(ws: seq<Write>, table: Table)
    requires forall w :: w in ws ==> w.id.table == table
    ensures ForTable(ws, table) == ws && forall t :: t != table ==> ForTable(ws, t) == []
  {
    if ws != [] {
      ForTableOfOneTable(ws[..|ws| - 1], table);
      assert ws[|ws| - 1] in ws && ws == ws[..|ws| - 1] + [ws[|ws| - 1]];
    }
  }

  lemma TalliedAfterFlush(
    inserted: map<Table, nat>, updated: map<Table, nat>, before: Rows, now: Rows, written: seq<Write>,
    table: Table, batch: seq<Write>, run: nat)
    requires Tallied(inserted, updated, before, now, written)
    requires !DuplicateKeys(batch) && forall w :: w in batch ==> w.id.table == table
    ensures Inserts(now, batch) <= |batch|
    ensures Tallied(Bumped(inserted, table, Inserts(now, batch)), Bumped(updated, table, |batch| - Inserts(now, batch)),
                    before, UpsertAll(now, batch, run), written + batch)
  {
    hide UpsertAll, Inserts, DuplicateKeys, ForTable;
    InsertsIsGrowth(now, batch, run, table);
    var i, u := Bumped(inserted, table, Inserts(now, batch)), Bumped(updated, table, |batch| - Inserts(now, batch));
    forall t
      ensures CountOf(i, t) + |TableIds(before, t)| == |TableIds(UpsertAll(now, batch, run), t)|
      ensures CountOf(i, t) + CountOf(u, t) == |ForTable(written + batch, t)|
    {
      ForTableSize(written, batch, table, t);
      assert CountOf(inserted, t) + |TableIds(before, t)| == |TableIds(now, t)|;
    }
  }

  lemma ForTableSize(written: seq<Write>, batch: seq<Write>, table: Table, t: Table)
    requires forall w :: w in batch ==> w.id.table == table
    ensures |ForTable(written + batch, t)| == |ForTable(written, t)| + if t == table then |batch| else 0
  {
    ForTableConcat(written, batch, t);
    ForTableOfOneTable(batch, table);
  }

  // ---------------------------------------------------------------- _flush_table

  method FlushTable(db: Db, table: Table, batch: seq<Write>, stats: RpslEtlStats, runId: nat) returns (ok: bool)
    requires forall w :: w in batch ==> w.id.table == table
    modifies db`rows, stats`inserted, stats`updated
    ensures ok <==> !DuplicateKeys(batch)
    ensures !ok ==> db.rows == old(db.rows)
    ensures ok ==>
              && Inserts(old(db.rows), batch) <= |batch|
              && db.rows == UpsertAll(old(db.rows), batch, runId)
              && stats.inserted == Bumped(old(stats.inserted), table, Inserts(old(db.rows), batch))
              && stats.updated == Bumped(old(stats.updated), table, |batch| - Inserts(old(db.rows), batch))
  {
    if DuplicateKeys(batch) {
      return false;
    }
    InsertsIsGrowth(db.rows, batch, runId, table);
    var inserted := Inserts(db.rows, batch);
    db.rows := UpsertAll(db.rows, batch, runId);
    stats.inserted := Bumped(stats.inserted, table, inserted);
    stats.updated := Bumped(stats.updated, table, |batch| - inserted);
    return true;
  }

  // ---------------------------------------------------------------- the loop invariant

  type Buffers = map<Table, seq<Write>>

  function Buffer(buffers: Buffers, t: Table): seq<Write> {
    if t in buffers then buffers[t] else []
  }

  ghost predicate NoFailureYet(mapper: Mapper, objs: seq<RpslObject>, batchSize: nat) {
    forall t :: Loaded(t) ==> !SomeDuplicate(Buffered(mapper, objs, t, batchSize).flushed)
  }

  ghost predicate BuffersAre(mapper: Mapper, objs: seq<RpslObject>, batchSize: nat, buffers: Buffers) {
    forall t :: Buffer(buffers, t) == Buffered(mapper, objs, t, batchSize).pending
  }

  /** What was written and what is buffered are, table by table, the rows of the stream so far. */
  ghost predicate NothingLost(all: seq<Write>, written: seq<Write>, buffers: Buffers) {
    forall t ::
      && ForTable(written, t) + Buffer(buffers, t) == ForTable(all, t)
      && forall w :: w in Buffer(buffers, t) ==> w.id.table == t
  }

  lemma BufferOneMore(mapper: Mapper, objs: seq<RpslObject>, obj: RpslObject, batchSize: nat, t: Table)
    ensures var b, kind := Buffered(mapper, objs, t, batchSize), KindOf(mapper, obj);
            Buffered(mapper, objs + [obj], t, batchSize)
            == if kind.Good? && kind.table == t then Extended(b, kind.writes, batchSize) else b
  {
    assert (objs + [obj])[..|objs|] == objs;
  }

  lemma AllWritesOneMore(mapper: Mapper, objs: seq<RpslObject>, obj: RpslObject)
    ensures AllWrites(mapper, objs + [obj]) == AllWrites(mapper, objs) + WritesOfKind(KindOf(mapper, obj))
    ensures SkipsOf(mapper, objs + [obj]) == Skipped(SkipsOf(mapper, objs), KindOf(mapper, obj))
    ensures ByType(objs + [obj]) == Typed(ByType(objs), obj)
  {
    assert (objs + [obj])[..|objs|] == objs;
  }

  lemma BufferGains(all: seq<Write>, written: seq<Write>, buffers: Buffers, table: Table, rows: seq<Write>)
    requires NothingLost(all, written, buffers)
    requires forall w :: w in rows ==> w.id.table == table
    ensures NothingLost(all + rows, written, buffers[table := Buffer(buffers, table) + rows])
  {
    hide ForTable;
    var gained := buffers[table := Buffer(buffers, table) + rows];
    forall t
      ensures ForTable(written, t) + Buffer(gained, t) == ForTable(all + rows, t)
      ensures forall w :: w in Buffer(gained, t) ==> w.id.table == t
    {
      ForTableOfOneTable(rows, table);
      ForTableConcat(all, rows, t);
      Regroup(ForTable(written, t), Buffer(buffers, t), ForTable(rows, t));
      assert Buffer(gained, t) == Buffer(buffers, t) + ForTable(rows, t);
    }
  }

  lemma Regroup<T>(a: seq<T>, b: seq<T>, c: seq<T>)
    ensures a + (b + c) == (a + b) + c
  {
  }

  lemma BufferDrains(all: seq<Write>, written: seq<Write>, buffers: Buffers, table: Table)
    requires NothingLost(all, written, buffers)
    ensures NothingLost(all, written + Buffer(buffers, table), buffers[table := []])
  {
    var batch, drained := Buffer(buffers, table), buffers[table := []];
    ForTableOfOneTable(batch, table);
    hide ForTable;
    forall t
      ensures ForTable(written + batch, t) + Buffer(drained, t) == ForTable(all, t)
      ensures forall w :: w in Buffer(drained, t) ==> w.id.table == t
    {
      ForTableConcat(written, batch, t);
      if t == table {
        assert ForTable(written, t) + batch + [] == ForTable(written, t) + batch;
      } else {
        assert ForTable(written, t) + [] + Buffer(buffers, t) == ForTable(written, t) + Buffer(buffers, t);
      }
    }
  }

  /** A batch that was flushed stays flushed. */
  lemma {:induction false} FlushedIsPrefix(mapper: Mapper, objs: seq<RpslObject>, n: nat, t: Table, batchSize: nat)
    requires n <= |objs|
    ensures Buffered(mapper, objs[..n], t, batchSize).flushed <= Buffered(mapper, objs, t, batchSize).flushed
    decreases |objs|
  {
    if n == |objs| {
      assert objs[..n] == objs;
    } else {
      var init := objs[..|objs| - 1];
      FlushedIsPrefix(mapper, init, n, t, batchSize);
      assert init[..n] == objs[..n];
    }
  }

  lemma EarlyFailureIsFailure(mapper: Mapper, objs: seq<RpslObject>, n: nat, t: Table, batchSize: nat)
    requires n <= |objs| && Loaded(t) && SomeDuplicate(Buffered(mapper, objs[..n], t, batchSize).flushed)
    ensures SomeFlushFails(mapper, objs, batchSize)
  {
    FlushedIsPrefix(mapper, objs, n, t, batchSize);
    var early, all := Buffered(mapper, objs[..n], t, batchSize).flushed, Buffered(mapper, objs, t, batchSize);
    var i :| 0 <= i < |early| && DuplicateKeys(early[i]);
    assert Flushes(all)[i] == early[i];
    assert SomeDuplicate(Flushes(all));
  }

  // ---------------------------------------------------------------- apply_rpsl_etl

  /** The whole state of the object loop after some objects. */
  ghost predicate LoopState(
    mapper: Mapper, objs: seq<RpslObject>, batchSize: nat, buffers: Buffers, before: Rows, now: Rows,
    written: seq<Write>, run: nat)
  {
    && BuffersAre(mapper, objs, batchSize, buffers)
    && NoFailureYet(mapper, objs, batchSize)
    && NothingLost(AllWrites(mapper, objs), written, buffers)
    && now == UpsertAll(before, written, run)
  }

  lemma GoodWritesAreForTheirTable(mapper: Mapper, obj: RpslObject)
    ensures var kind := KindOf(mapper, obj);
            kind.Good? ==> Loaded(kind.table) && forall w :: w in kind.writes ==> w.id.table == kind.table
  {
  }

  /** One object whose rows only go to the buffer, or that has none. */
  lemma ObjectBuffered(
    mapper: Mapper, objs: seq<RpslObject>, obj: RpslObject, batchSize: nat, buffers: Buffers, before: Rows, now: Rows,
    written: seq<Write>, run: nat)
    requires LoopState(mapper, objs, batchSize, buffers, before, now, written, run)
    requires var kind := KindOf(mapper, obj); kind.Good? ==> |Buffer(buffers, kind.table) + kind.writes| < batchSize
    ensures var kind := KindOf(mapper, obj);
            LoopState(mapper, objs + [obj], batchSize,
                      if kind.Good? then buffers[kind.table := Buffer(buffers, kind.table) + kind.writes] else buffers,
                      before, now, written, run)
  {
    hide KindOf, AllWrites, Buffered, UpsertAll, NothingLost, SomeDuplicate, SkipsOf;
    var kind := KindOf(mapper, obj);
    AllWritesOneMore(mapper, objs, obj);
    GoodWritesAreForTheirTable(mapper, obj);
    forall t {
      BufferOneMore(mapper, objs, obj, batchSize, t);
    }
    if kind.Good? {
      BufferGains(AllWrites(mapper, objs), written, buffers, kind.table, kind.writes);
    } else {
      assert AllWrites(mapper, objs) + [] == AllWrites(mapper, objs);
    }
  }

  /** One object that fills its buffer: the flush fails, or the buffer is written out. */
  lemma ObjectFlushed(
    mapper: Mapper, objs: seq<RpslObject>, obj: RpslObject, batchSize: nat, buffers: Buffers, before: Rows, now: Rows,
    written: seq<Write>, run: nat)
    requires LoopState(mapper, objs, batchSize, buffers, before, now, written, run)
    requires var kind := KindOf(mapper, obj); kind.Good? && |Buffer(buffers, kind.table) + kind.writes| >= batchSize
    ensures var kind := KindOf(mapper, obj);
            var batch := Buffer(buffers, kind.table) + kind.writes;
            if DuplicateKeys(batch)
            then SomeDuplicate(Buffered(mapper, objs + [obj], kind.table, batchSize).flushed)
            else LoopState(mapper, objs + [obj], batchSize, buffers[kind.table := []], before,
                           UpsertAll(now, batch, run), written + batch, run)
  {
    hide KindOf, AllWrites, Buffered, UpsertAll, NothingLost, DuplicateKeys, SkipsOf;
    var kind := KindOf(mapper, obj);
    GoodWritesAreForTheirTable(mapper, obj);
    var table, batch := kind.table, Buffer(buffers, kind.table) + kind.writes;
    AllWritesOneMore(mapper, objs, obj);
    forall t {
      BufferOneMore(mapper, objs, obj, batchSize, t);
    }
    var was := Buffered(mapper, objs, table, batchSize).flushed;
    var flushed := Buffered(mapper, objs + [obj], table, batchSize).flushed;
    assert flushed == was + [batch] && flushed[|was|] == batch;
    if !DuplicateKeys(batch) {
      BufferGains(AllWrites(mapper, objs), written, buffers, table, kind.writes);
      var gained := buffers[table := batch];
      BufferDrains(AllWrites(mapper, objs + [obj]), written, gained, table);
      assert gained[table := []] == buffers[table := []];
      UpsertAllConcat(before, written, batch, run);
      assert !SomeDuplicate(flushed) by {
        assert forall i :: 0 <= i < |was| ==> flushed[i] == was[i];
      }
    }
  }

  /** The loop body: count the object, buffer its rows, flush the buffer if it is full. */
  method TakeObject(
    db: Db, mapper: Mapper, ghost objs: seq<RpslObject>, obj: RpslObject, batchSize: nat, buffers: Buffers,
    stats: RpslEtlStats, ghost before: Rows, ghost written: seq<Write>, runId: nat)
    returns (ok: bool, buffers': Buffers, ghost written': seq<Write>)
    requires LoopState(mapper, objs, batchSize, buffers, before, db.rows, written, runId)
    requires Tallied(stats.inserted, stats.updated, before, db.rows, written)
    requires stats.Counts() == SkipsOf(mapper, objs) && stats.objectsByType == ByType(objs)
    modifies db`rows, stats
    ensures ok ==>
              && LoopState(mapper, objs + [obj], batchSize, buffers', before, db.rows, written', runId)
              && Tallied(stats.inserted, stats.updated, before, db.rows, written')
              && stats.Counts() == SkipsOf(mapper, objs + [obj]) && stats.objectsByType == ByType(objs + [obj])
    ensures !ok ==> exists t :: Loaded(t) && SomeDuplicate(Buffered(mapper, objs + [obj], t, batchSize).flushed)
  {
    ok, buffers', written' := true, buffers, written;
    var kind := KindOf(mapper, obj);
    GoodWritesAreForTheirTable(mapper, obj);
    AllWritesOneMore(mapper, objs, obj);
    hide KindOf, AllWrites, Buffered, UpsertAll, LoopState, Tallied, SomeDuplicate, SkipsOf, DuplicateKeys, Inserts, ByType;
    stats.objectsSeen := stats.objectsSeen + 1;
    stats.objectsByType := Typed(stats.objectsByType, obj);
    if kind.NoType? || kind.Rejected? {
      stats.skippedMalformed := stats.skippedMalformed + 1;
    } else if kind.UnknownType? {
      stats.skippedUnknownType := stats.skippedUnknownType + 1;
    } else {
      var batch := Buffer(buffers, kind.table) + kind.writes;
      if |batch| >= batchSize {
        ObjectFlushed(mapper, objs, obj, batchSize, buffers, before, db.rows, written, runId);
        BatchIsForItsTable(mapper, objs, batchSize, buffers, before, db.rows, written, runId, kind.table);
        if !DuplicateKeys(batch) {
          TalliedAfterFlush(stats.inserted, stats.updated, before, db.rows, written, kind.table, batch, runId);
        }
        ok := FlushTable(db, kind.table, batch, stats, runId);
        buffers', written' := buffers[kind.table := []], written + batch;
        return;
      }
    }
    ObjectBuffered(mapper, objs, obj, batchSize, buffers, before, db.rows, written, runId);
    if kind.Good? {
      buffers' := buffers[kind.table := Buffer(buffers, kind.table) + kind.writes];
    }
  }

  lemma BatchIsForItsTable(
    mapper: Mapper, objs: seq<RpslObject>, batchSize: nat, buffers: Buffers, before: Rows, now: Rows,
    written: seq<Write>, run: nat, t: Table)
    requires LoopState(mapper, objs, batchSize, buffers, before, now, written, run)
    ensures forall w :: w in Buffer(buffers, t) ==> w.id.table == t
  {
  }

  lemma NothingReadYet(mapper: Mapper, batchSize: nat, before: Rows, run: nat)
    ensures LoopState(mapper, [], batchSize, map[], before, before, [], run)
    ensures Tallied(map[], map[], before, before, [])
    ensures SkipsOf(mapper, []) == Skips(0, 0, 0)
  {
  }

  method ApplyRpslEtl(db: Db, mapper: Mapper, objs: seq<RpslObject>, batchSize: nat, stats: RpslEtlStats, runId: nat)
    returns (ok: bool)
    requires batchSize >= 1
    requires stats.Counts() == Skips(0, 0, 0) && stats.objectsByType == map[]
    requires stats.inserted == map[] && stats.updated == map[]
    modifies db`rows, stats
    ensures ok <==> RpslLoad(mapper, objs, batchSize).Loads?
    ensures ok ==>
              && db.rows == UpsertAll(old(db.rows), AllWrites(mapper, objs), runId)
              && stats.Counts() == SkipsOf(mapper, objs) && stats.objectsByType == ByType(objs)
              && Tallied(stats.inserted, stats.updated, old(db.rows), db.rows, AllWrites(mapper, objs))
              && RowsOfTheirClass(mapper, objs, old(db.rows), db.rows, runId)
              && stats.objectsSeen == |objs|
              && stats.skippedUnknownType == CountIf(objs, o => o != [] && forall t :: !IsOfClass(o, t))
              && stats.skippedMalformed == CountIf(objs, o => o == [] || exists t :: IsOfClass(o, t) && mapper(t, o) == [])
  {
    var buffers: Buffers := map[];
    ghost var before, written: seq<Write> := db.rows, [];
    NothingReadYet(mapper, batchSize, before, runId);
    assert objs[..0] == [];
    hide AllWrites, Buffered, UpsertAll, LoopState, Tallied, SomeDuplicate, SkipsOf, DuplicateKeys, SomeFlushFails;
    for n := 0 to |objs|
      invariant LoopState(mapper, objs[..n], batchSize, buffers, before, db.rows, written, runId)
      invariant Tallied(stats.inserted, stats.updated, before, db.rows, written)
      invariant stats.Counts() == SkipsOf(mapper, objs[..n]) && stats.objectsByType == ByType(objs[..n])
    {
      assert objs[..n + 1] == objs[..n] + [objs[n]];
      ok, buffers, written := TakeObject(db, mapper, objs[..n], objs[n], batchSize, buffers, stats, before, written, runId);
      if !ok {
        ghost var t :| Loaded(t) && SomeDuplicate(Buffered(mapper, objs[..n + 1], t, batchSize).flushed);
        EarlyFailureIsFailure(mapper, objs, n + 1, t, batchSize);
        return;
      }
    }
    assert objs[..|objs|] == objs;
    ok, written := FlushRest(db, mapper, objs, batchSize, buffers, stats, before, written, runId);
    if ok {
      SamePerTableSameRows(before, written, AllWrites(mapper, objs), runId);
      SameTally(stats.inserted, stats.updated, before, db.rows, written, AllWrites(mapper, objs));
      EtlRowsAreOfTheirClass(mapper, objs, before, runId);
      SkipsByObject(mapper, objs);
    }
  }

  lemma SameTally(
    inserted: map<Table, nat>, updated: map<Table, nat>, before: Rows, now: Rows, a: seq<Write>, b: seq<Write>)
    requires Tallied(inserted, updated, before, now, a) && forall t :: ForTable(a, t) == ForTable(b, t)
    ensures Tallied(inserted, updated, before, now, b)
  {
  }

  /** The final flush, in the canonical order. */
  method FlushRest(
    db: Db, ghost mapper: Mapper, ghost objs: seq<RpslObject>, ghost batchSize: nat, full: Buffers, stats: RpslEtlStats,
    ghost before: Rows, ghost start: seq<Write>, runId: nat)
    returns (ok: bool, ghost written: seq<Write>)
    requires LoopState(mapper, objs, batchSize, full, before, db.rows, start, runId)
    requires Tallied(stats.inserted, stats.updated, before, db.rows, start)
    modifies db`rows, stats`inserted, stats`updated
    ensures ok <==> !SomeFlushFails(mapper, objs, batchSize)
    ensures ok ==>
              && (forall t :: ForTable(written, t) == ForTable(AllWrites(mapper, objs), t))
              && db.rows == UpsertAll(before, written, runId)
              && Tallied(stats.inserted, stats.updated, before, db.rows, written)
  {
    var buffers := full;
    written := start;
    hide AllWrites, Buffered, UpsertAll, NothingLost, Tallied, DuplicateKeys, Inserts, SomeFlushFails, NoFailureYet;
    assert UPSERT_ORDER[..0] == [];
    for i := 0 to |UPSERT_ORDER|
      invariant NothingLost(AllWrites(mapper, objs), written, buffers)
      invariant Drained(full, buffers, UPSERT_ORDER[..i])
      invariant db.rows == UpsertAll(before, written, runId)
      invariant Tallied(stats.inserted, stats.updated, before, db.rows, written)
    {
      var table := UPSERT_ORDER[i];
      UpsertOrderDistinct(i);
      DrainedOneMore(full, buffers, UPSERT_ORDER[..i], table);
      assert UPSERT_ORDER[..i + 1] == UPSERT_ORDER[..i] + [table];
      var batch := Buffer(buffers, table);
      if batch != [] {
        BufferIsForItsTable(AllWrites(mapper, objs), written, buffers, table);
        if !DuplicateKeys(batch) {
          TalliedAfterFlush(stats.inserted, stats.updated, before, db.rows, written, table, batch, runId);
          BufferDrains(AllWrites(mapper, objs), written, buffers, table);
          UpsertAllConcat(before, written, batch, runId);
        }
        ok := FlushTable(db, table, batch, stats, runId);
        if !ok {
          RestFails(mapper, objs, batchSize, full, table);
          return;
        }
        written := written + batch;
        buffers := buffers[table := []];
      }
    }
    ok := true;
    assert UPSERT_ORDER[..|UPSERT_ORDER|] == UPSERT_ORDER;
    RestSucceeds(mapper, objs, batchSize, full, buffers);
    RestIsEverything(mapper, objs, written, full, buffers);
  }

  lemma UpsertOrderDistinct(i: nat)
    requires i < |UPSERT_ORDER|
    ensures UPSERT_ORDER[i] !in UPSERT_ORDER[..i]
  {
  }

  /** The buffers of the tables in `done` were written out without a duplicate; the others are as they were. */
  ghost predicate Drained(full: Buffers, buffers: Buffers, done: seq<Table>) {
    forall t ::
      && Buffer(buffers, t) == (if t in done then [] else Buffer(full, t))
      && (t in done ==> !DuplicateKeys(Buffer(full, t)))
  }

  lemma DrainedOneMore(full: Buffers, buffers: Buffers, done: seq<Table>, table: Table)
    requires Drained(full, buffers, done) && table !in done
    ensures Buffer(buffers, table) == Buffer(full, table)
    ensures !DuplicateKeys(Buffer(full, table)) ==> Drained(full, buffers[table := []], done + [table])
    ensures Buffer(full, table) == [] ==> Drained(full, buffers, done + [table])
  {
    assert Buffer(buffers, table) == [] ==> !DuplicateKeys(Buffer(buffers, table));
  }

  lemma BufferIsForItsTable(all: seq<Write>, written: seq<Write>, buffers: Buffers, t: Table)
    requires NothingLost(all, written, buffers)
    ensures forall w :: w in Buffer(buffers, t) ==> w.id.table == t
  {
  }

  lemma RestIsEverything(mapper: Mapper, objs: seq<RpslObject>, written: seq<Write>, full: Buffers, buffers: Buffers)
    requires NothingLost(AllWrites(mapper, objs), written, buffers) && Drained(full, buffers, UPSERT_ORDER)
    ensures forall t :: ForTable(written, t) == ForTable(AllWrites(mapper, objs), t)
  {
    hide AllWrites, ForTable, DuplicateKeys;
    forall t
      ensures ForTable(written, t) == ForTable(AllWrites(mapper, objs), t)
    {
      UpsertOrderIsComplete(t);
      AllWritesAreLoaded(mapper, objs, t);
    }
  }

  lemma {:induction false} AllWritesAreLoaded(mapper: Mapper, objs: seq<RpslObject>, t: Table)
    ensures !Loaded(t) ==> ForTable(AllWrites(mapper, objs), t) == []
  {
    if objs != [] {
      var init, obj := objs[..|objs| - 1], objs[|objs| - 1];
      AllWritesAreLoaded(mapper, init, t);
      var writes := WritesOfKind(KindOf(mapper, obj));
      ForTableConcat(AllWrites(mapper, init), writes, t);
      if KindOf(mapper, obj).Good? {
        EveryObjectTableIsFlushed(obj[0].key);
        ForTableOfOneTable(writes, KindOf(mapper, obj).table);
      }
    }
  }

  lemma RestFails(mapper: Mapper, objs: seq<RpslObject>, batchSize: nat, full: Buffers, table: Table)
    requires BuffersAre(mapper, objs, batchSize, full) && table in UPSERT_ORDER
    requires DuplicateKeys(Buffer(full, table))
    ensures SomeFlushFails(mapper, objs, batchSize)
  {
    UpsertOrderIsComplete(table);
    var b := Buffered(mapper, objs, table, batchSize);
    assert Flushes(b)[|b.flushed|] == b.pending;
    assert SomeDuplicate(Flushes(b));
  }

  lemma RestSucceeds(mapper: Mapper, objs: seq<RpslObject>, batchSize: nat, full: Buffers, buffers: Buffers)
    requires BuffersAre(mapper, objs, batchSize, full) && NoFailureYet(mapper, objs, batchSize)
    requires Drained(full, buffers, UPSERT_ORDER)
    ensures !SomeFlushFails(mapper, objs, batchSize)
  {
    hide Buffered, DuplicateKeys;
    forall t | Loaded(t)
      ensures !SomeDuplicate(Flushes(Buffered(mapper, objs, t, batchSize)))
    {
      UpsertOrderIsComplete(t);
      var b := Buffered(mapper, objs, t, batchSize);
      assert !DuplicateKeys(b.pending);
      assert forall i :: 0 <= i < |b.flushed| ==> Flushes(b)[i] == b.flushed[i];
    }
  }

  // ---------------------------------------------------------------- when a flush can fail

  function Flattened(batches: seq<seq<Write>>): seq<Write> {
    if batches == [] then [] else Flattened(batches[..|batches| - 1]) + batches[|batches| - 1]
  }

  /** A buffer is flushed as soon as it reaches the batch size, and not before. */
  lemma {:induction false} FlushedAtTheThreshold(mapper: Mapper, objs: seq<RpslObject>, t: Table, batchSize: nat)
    requires batchSize >= 1
    ensures var b := Buffered(mapper, objs, t, batchSize);
            |b.pending| < batchSize && forall i :: 0 <= i < |b.flushed| ==> |b.flushed[i]| >= batchSize
  {
    if objs != [] {
      FlushedAtTheThreshold(mapper, objs[..|objs| - 1], t, batchSize);
      hide KindOf;
    }
  }

  /** Batching only cuts the rows of a table into pieces; with a large batch size it does not even cut. */
  lemma {:induction false} BatchesArePieces(mapper: Mapper, objs: seq<RpslObject>, t: Table, batchSize: nat)
    ensures var b := Buffered(mapper, objs, t, batchSize);
            && Flattened(b.flushed) + b.pending == ForTable(AllWrites(mapper, objs), t)
            && (|AllWrites(mapper, objs)| < batchSize ==> b.flushed == [])
  {
    if objs != [] {
      var init, obj := objs[..|objs| - 1], objs[|objs| - 1];
      BatchesArePieces(mapper, init, t, batchSize);
      var b, kind := Buffered(mapper, init, t, batchSize), KindOf(mapper, obj);
      var rows := WritesOfKind(kind);
      GoodWritesAreForTheirTable(mapper, obj);
      hide KindOf;
      ForTableConcat(AllWrites(mapper, init), rows, t);
      ForTableOfKind(kind, t);
      ForTableNotLonger(AllWrites(mapper, init), t);
      PieceAdded(b, ForTable(rows, t), batchSize);
      Regroup(Flattened(b.flushed), b.pending, ForTable(rows, t));
    }
  }

  lemma ForTableOfKind(kind: Kind, t: Table)
    requires kind.Good? ==> forall w :: w in kind.writes ==> w.id.table == kind.table
    ensures ForTable(WritesOfKind(kind), t) == if kind.Good? && kind.table == t then kind.writes else []
  {
    if kind.Good? {
      ForTableOfOneTable(kind.writes, kind.table);
    }
  }

  lemma {:induction false} ForTableNotLonger(ws: seq<Write>, t: Table)
    ensures |ForTable(ws, t)| <= |ws|
  {
    if ws != [] {
      ForTableNotLonger(ws[..|ws| - 1], t);
    }
  }

  lemma PieceAdded(b: Buffering, rows: seq<Write>, batchSize: nat)
    ensures var c := Extended(b, rows, batchSize);
            Flattened(c.flushed) + c.pending == Flattened(b.flushed) + (b.pending + rows)
  {
    var full := b.pending + rows;
    assert (b.flushed + [full])[..|b.flushed|] == b.flushed;
  }

  lemma {:induction false} PieceOfDistinct(batches: seq<seq<Write>>, rest: seq<Write>)
    requires !DuplicateKeys(Flattened(batches) + rest)
    ensures !SomeDuplicate(batches) && !DuplicateKeys(rest)
  {
    var all := Flattened(batches) + rest;
    assert forall i :: 0 <= i < |rest| ==> rest[i] == all[|Flattened(batches)| + i];
    if batches != [] {
      var init, last := batches[..|batches| - 1], batches[|batches| - 1];
      assert all == Flattened(init) + (last + rest);
      PieceOfDistinct(init, last + rest);
      assert forall i :: 0 <= i < |last| ==> last[i] == (last + rest)[i];
      assert forall i :: 0 <= i < |init| ==> batches[i] == init[i];
    }
  }

  lemma {:induction false} DistinctIffPerTable(ws: seq<Write>)
    ensures DuplicateKeys(ws) <==> exists t :: DuplicateKeys(ForTable(ws, t))
  {
    if ws != [] {
      var init, last := ws[..|ws| - 1], ws[|ws| - 1];
      DistinctIffPerTable(init);
      DuplicateOfLast(init, last);
      assert ws == init + [last];
      if DuplicateKeys(ws) {
        var t := last.id.table;
        if DuplicateKeys(init) {
          t :| DuplicateKeys(ForTable(init, t));
        }
        DuplicateInTable(init, last, t);
      } else {
        forall t
          ensures !DuplicateKeys(ForTable(ws, t))
        {
          DuplicateInTable(init, last, t);
        }
      }
    }
  }

  lemma DuplicateInTable(init: seq<Write>, last: Write, t: Table)
    ensures DuplicateKeys(ForTable(init + [last], t)) <==>
              DuplicateKeys(ForTable(init, t)) || (t == last.id.table && exists w :: w in init && w.id == last.id)
  {
    assert (init + [last])[..|init|] == init;
    KeysOfTable(init, t);
    DuplicateOfLast(ForTable(init, t), last);
    hide DuplicateKeys;
    assert t == last.id.table ==>
        ((exists w :: w in ForTable(init, t) && w.id == last.id) <==> exists w :: w in init && w.id == last.id);
  }

  lemma DuplicateOfLast(init: seq<Write>, last: Write)
    ensures DuplicateKeys(init + [last]) <==> DuplicateKeys(init) || exists w :: w in init && w.id == last.id
  {
    var all := init + [last];
    assert forall i :: 0 <= i < |init| ==> all[i] == init[i];
    assert all[|init|] == last;
    if w :| w in init && w.id == last.id {
      var i :| 0 <= i < |init| && init[i] == w;
      assert all[i].id == all[|init|].id;
    }
    if DuplicateKeys(init) {
      var i, j :| 0 <= i < j < |init| && init[i].id == init[j].id;
      assert all[i].id == all[j].id;
    }
  }

  lemma {:induction false} KeysOfTable(ws: seq<Write>, t: Table)
    ensures forall w :: w in ForTable(ws, t) <==> w in ws && w.id.table == t
  {
    if ws != [] {
      KeysOfTable(ws[..|ws| - 1], t);
      assert ws == ws[..|ws| - 1] + [ws[|ws| - 1]];
    }
  }

  /** A failing flush needs a repeated key in the stream; without a threshold flush every repeated key fails. */
  lemma FailureNeedsARepeatedKey(mapper: Mapper, objs: seq<RpslObject>, batchSize: nat)
    ensures SomeFlushFails(mapper, objs, batchSize) ==> DuplicateKeys(AllWrites(mapper, objs))
    ensures |AllWrites(mapper, objs)| < batchSize ==>
              (SomeFlushFails(mapper, objs, batchSize) <==> DuplicateKeys(AllWrites(mapper, objs)))
  {
    var all := AllWrites(mapper, objs);
    DistinctIffPerTable(all);
    hide AllWrites, Buffered, DuplicateKeys, ForTable, SomeDuplicate, Flushes;
    if SomeFlushFails(mapper, objs, batchSize) {
      var t :| Loaded(t) && SomeDuplicate(Flushes(Buffered(mapper, objs, t, batchSize)));
      TableFailsIff(mapper, objs, t, batchSize);
    } else if DuplicateKeys(all) {
      var t :| DuplicateKeys(ForTable(all, t));
      TableFailsIff(mapper, objs, t, batchSize);
    }
  }

  lemma TableFailsIff(mapper: Mapper, objs: seq<RpslObject>, t: Table, batchSize: nat)
    ensures var all, flushes := AllWrites(mapper, objs), Flushes(Buffered(mapper, objs, t, batchSize));
            && (SomeDuplicate(flushes) ==> DuplicateKeys(ForTable(all, t)))
            && (|all| < batchSize && DuplicateKeys(ForTable(all, t)) ==> Loaded(t) && SomeDuplicate(flushes))
  {
    var all, b := AllWrites(mapper, objs), Buffered(mapper, objs, t, batchSize);
    BatchesArePieces(mapper, objs, t, batchSize);
    AllWritesAreLoaded(mapper, objs, t);
    hide AllWrites, Buffered, ForTable;
    if !DuplicateKeys(ForTable(all, t)) {
      PieceOfDistinct(b.flushed, b.pending);
      assert forall i :: 0 <= i < |b.flushed| ==> Flushes(b)[i] == b.flushed[i];
    } else if |all| < batchSize {
      assert Flattened(b.flushed) + b.pending == b.pending;
      assert Loaded(t);
      assert b.pending == ForTable(all, t) && b.pending != [];
      assert Flushes(b)[0] == b.pending;
      assert SomeDuplicate(Flushes(b));
    }
  }
}
