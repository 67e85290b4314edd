/**
 * The database tables that ETL writes and the upsert it writes them with.
 *
 * All tables share one map keyed by (table, natural key). `INSERT ... ON CONFLICT DO UPDATE`
 * sets the payload and `last_seen_run`, and leaves `first_seen_run` and `is_stale` alone.
 */
module Tables {
  import opened Prelude

  datatype Value = Null | Num(n: int) | Text(s: string) | List(items: seq<string>)

  type Key = seq<Value>
  type Payload = seq<Value>

  /** The tables with a `last_seen_run` column. */
  datatype Table =
    | IpAllocation | AsnAllocation | Inetnum | Inet6num | AutNum | Organisation
    | Role | Route | Route6 | AsBlock | Mntner | Person | AsSet

  datatype RowId = RowId(table: Table, key: Key)

  datatype TableRow = TableRow(payload: Payload, firstSeen: nat, lastSeen: nat, stale: bool)

  type Rows = map<RowId, TableRow>

  datatype Write = Write(id: RowId, payload: Payload)

  function Upserted(rows: Rows, w: Write, run: nat): TableRow {
    if w.id in rows
    then rows[w.id].(payload := w.payload, lastSeen := run)
    else TableRow(w.payload, run, run, false)
  }

  function Upsert(rows: Rows, w: Write, run: nat): Rows {
    rows[w.id := Upserted(rows, w, run)]
  }

  /** One-row-at-a-time upsert, in order. */
  function UpsertAll(rows: Rows, ws: seq<Write>, run: nat): Rows {
    if ws == [] then rows
    else Upsert(UpsertAll(rows, ws[..|ws| - 1], run), ws[|ws| - 1], run)
  }

  /** The payload of the last write to `id`, if there is one. */
  function LastWrite(ws: seq<Write>, id: RowId): Option<Payload> {
    if ws == [] then None
    else if ws[|ws| - 1].id == id then Some(ws[|ws| - 1].payload)
    else LastWrite(ws[..|ws| - 1], id)
  }

  predicate Touches(ws: seq<Write>, id: RowId) {
    LastWrite(ws, id).Some?
  }

  /** The row that `id` holds after upserting `ws`, in closed form: last write wins. */
  function RowAfter(rows: Rows, ws: seq<Write>, run: nat, id: RowId): Option<TableRow> {
    match LastWrite(ws, id)
    case None => if id in rows then Some(rows[id]) else None
    case Some(p) =>
      if id in rows then Some(TableRow(p, rows[id].firstSeen, run, rows[id].stale)) else Some(TableRow(p, run, run, false))
  }

  function At(rows: Rows, id: RowId): Option<TableRow> {
    if id in rows then Some(rows[id]) else None
  }

  lemma {:induction false} UpsertAllIsLastWins(rows: Rows, ws: seq<Write>, run: nat, id: RowId)
    ensures At(UpsertAll(rows, ws, run), id) == RowAfter(rows, ws, run, id)
  {
    if ws != [] {
      UpsertAllIsLastWins(rows, ws[..|ws| - 1], run, id);
    }
  }

  /** Two write sequences with the same last write to every row have the same effect. */
  lemma SameLastWritesSameRows(rows: Rows, a: seq<Write>, b: seq<Write>, run: nat)
    requires forall id :: LastWrite(a, id) == LastWrite(b, id)
    ensures UpsertAll(rows, a, run) == UpsertAll(rows, b, run)
  {
    var x, y := UpsertAll(rows, a, run), UpsertAll(rows, b, run);
    forall id
      ensures At(x, id) == At(y, id)
    {
      UpsertAllIsLastWins(rows, a, run, id);
      UpsertAllIsLastWins(rows, b, run, id);
    }
    assert forall id :: id in x <==> At(x, id).Some?;
    assert forall id :: id in y <==> At(y, id).Some?;
    assert x.Keys == y.Keys;
    assert forall id :: id in x ==> x[id] == At(x, id).value && y[id] == At(y, id).value;
  }

  lemma {:induction false} UpsertAllConcat(rows: Rows, a: seq<Write>, b: seq<Write>, run: nat)
    ensures UpsertAll(rows, a + b, run) == UpsertAll(UpsertAll(rows, a, run), b, run)
  {
    if b == [] {
      assert a + b == a;
    } else {
      UpsertAllConcat(rows, a, b[..|b| - 1], run);
      assert (a + b)[..|a + b| - 1] == a + b[..|b| - 1];
    }
  }

  lemma {:induction false} LastWriteConcat(a: seq<Write>, b: seq<Write>, id: RowId)
    ensures LastWrite(a + b, id) == if LastWrite(b, id).Some? then LastWrite(b, id) else LastWrite(a, id)
  {
    if b == [] {
      assert a + b == a;
    } else {
      LastWriteConcat(a, b[..|b| - 1], id);
      assert (a + b)[..|a + b| - 1] == a + b[..|b| - 1];
    }
  }

  lemma {:induction false} LastWriteIsAWrite(ws: seq<Write>, id: RowId)
    ensures Touches(ws, id) <==> exists i :: 0 <= i < |ws| && ws[i].id == id
  {
    if ws != [] {
      var init := ws[..|ws| - 1];
      LastWriteIsAWrite(init, id);
      if i :| 0 <= i < |ws| && ws[i].id == id {
        assert i < |ws| - 1 ==> init[i].id == id;
      }
      if ws[|ws| - 1].id != id && Touches(ws, id) {
        var i :| 0 <= i < |init| && init[i].id == id;
        assert ws[i].id == id;
      }
    }
  }

  lemma {:induction false} LastWriteFound(ws: seq<Write>, id: RowId) returns (w: Write)
    requires Touches(ws, id)
    ensures w in ws && w.id == id && LastWrite(ws, id) == Some(w.payload)
  {
    if ws[|ws| - 1].id == id {
      w := ws[|ws| - 1];
    } else {
      w := LastWriteFound(ws[..|ws| - 1], id);
    }
  }

  /** The last write to a row is the one after which no other goes to it. */
  lemma {:induction false} LastWriteIsLast(ws: seq<Write>, i: nat)
    requires i < |ws| && forall j :: i < j < |ws| ==> ws[j].id != ws[i].id
    ensures LastWrite(ws, ws[i].id) == Some(ws[i].payload)
  {
    if i < |ws| - 1 {
      LastWriteIsLast(ws[..|ws| - 1], i);
    }
  }

  /** The writes that go to one table, in order. */
  function ForTable(ws: seq<Write>, table: Table): seq<Write> {
    if ws == [] then []
    else
      var init := ForTable(ws[..|ws| - 1], table);
      if ws[|ws| - 1].id.table == table then init + [ws[|ws| - 1]] else init
  }

  lemma {:induction false} ForTableConcat(a: seq<Write>, b: seq<Write>, table: Table)
    ensures ForTable(a + b, table) == ForTable(a, table) + ForTable(b, table)
  {
    if b == [] {
      assert a + b == a;
    } else {
      ForTableConcat(a, b[..|b| - 1], table);
      assert (a + b)[..|a + b| - 1] == a + b[..|b| - 1];
    }
  }

  lemma {:induction false} ForTableKeepsLastWrite(ws: seq<Write>, id: RowId)
    ensures LastWrite(ForTable(ws, id.table), id) == LastWrite(ws, id)
  {
    if ws != [] {
      var init := ws[..|ws| - 1];
      ForTableKeepsLastWrite(init, id);
      var f := ForTable(ws, id.table);
      if ws[|ws| - 1].id.table == id.table {
        assert f[..|f| - 1] == ForTable(init, id.table);
      }
    }
  }

  /** Interleavings of per-table write sequences all have the same effect. */
  lemma SamePerTableSameRows(rows: Rows, a: seq<Write>, b: seq<Write>, run: nat)
    requires forall t :: ForTable(a, t) == ForTable(b, t)
    ensures UpsertAll(rows, a, run) == UpsertAll(rows, b, run)
  {
    forall id
      ensures LastWrite(a, id) == LastWrite(b, id)
    {
      ForTableKeepsLastWrite(a, id);
      ForTableKeepsLastWrite(b, id);
    }
    SameLastWritesSameRows(rows, a, b, run);
  }

  // ---------------------------------------------------------------- flush

  predicate DuplicateKeys(batch: seq<Write>) {
    exists i, j :: 0 <= i < j < |batch| && batch[i].id == batch[j].id
  }

  /** How many of the writes insert a new row (the `xmax = 0` rows of RETURNING). */
  function Inserts(rows: Rows, batch: seq<Write>): nat {
    if batch == [] then 0
    else Inserts(rows, batch[..|batch| - 1]) + if batch[|batch| - 1].id in rows then 0 else 1
  }

  /** Ids of one table. */
  function TableIds(rows: Rows, table: Table): set<RowId> {
    set id | id in rows && id.table == table
  }

  lemma NewKeyBeforeLast(rows: Rows, init: seq<Write>, run: nat, id: RowId)
    requires forall i :: 0 <= i < |init| ==> init[i].id != id
    ensures id in UpsertAll(rows, init, run) <==> id in rows
  {
    UpsertAllIsLastWins(rows, init, run, id);
    LastWriteIsAWrite(init, id);
  }

  lemma UpsertGrowsBy(rows: Rows, w: Write, run: nat)
    ensures forall t :: |TableIds(Upsert(rows, w, run), t)|
                     == |TableIds(rows, t)| + if t == w.id.table && w.id !in rows then 1 else 0
    ensures forall t :: t != w.id.table ==> TableIds(Upsert(rows, w, run), t) == TableIds(rows, t)
  {
    hide Upserted;
    forall t
      ensures |TableIds(Upsert(rows, w, run), t)| == |TableIds(rows, t)| + if t == w.id.table && w.id !in rows then 1 else 0
      ensures t != w.id.table ==> TableIds(Upsert(rows, w, run), t) == TableIds(rows, t)
    {
      var before, after := TableIds(rows, t), TableIds(Upsert(rows, w, run), t);
      if t == w.id.table && w.id !in rows {
        assert after == before + {w.id};
      } else {
        assert after == before;
      }
    }
  }

  /** Without duplicates, the inserted count of a flush is the growth of the table's key set. */
  lemma {:induction false} InsertsIsGrowth(rows: Rows, batch: seq<Write>, run: nat, table: Table)
    requires !DuplicateKeys(batch)
    requires forall w :: w in batch ==> w.id.table == table
    ensures |TableIds(UpsertAll(rows, batch, run), table)| == |TableIds(rows, table)| + Inserts(rows, batch)
    ensures Inserts(rows, batch) <= |batch|
    ensures forall t :: t != table ==> TableIds(UpsertAll(rows, batch, run), t) == TableIds(rows, t)
  {
    if batch != [] {
      var init, last := batch[..|batch| - 1], batch[|batch| - 1];
      assert last in batch && forall i :: 0 <= i < |init| ==> init[i] == batch[i] && batch[i].id != last.id;
      NewKeyBeforeLast(rows, init, run, last.id);
      hide DuplicateKeys, Upserted;
      InsertsIsGrowth(rows, init, run, table);
      UpsertGrowsBy(UpsertAll(rows, init, run), last, run);
    }
  }

  // ---------------------------------------------------------------- inserted and updated counts

  function CountOf(counts: map<Table, nat>, table: Table): nat {
    if table in counts then counts[table] else 0
  }

  /** Inserted is the growth of every table's key set; inserted plus updated is the rows written to it. */
  ghost predicate Tallied(inserted: map<Table, nat>, updated: map<Table, nat>, before: Rows, now: Rows, written: seq<Write>) {
    forall t ::
      && CountOf(inserted, t) + |TableIds(before, t)| == |TableIds(now, t)|
      && CountOf(inserted, t) + CountOf(updated, t) == |ForTable(written, t)|
  }

  function Bumped(counts: map<Table, nat>, table: Table, n: nat): map<Table, nat> {
    counts[table := CountOf(counts, table) + n]
  }

  /** The counts of upserting one row at a time. */
  datatype EtlSums = EtlSums(inserted: map<Table, nat>, updated: map<Table, nat>)

  const NO_SUMS := EtlSums(map[], map[])

  function SumsOf(rows: Rows, ws: seq<Write>, run: nat): EtlSums {
    if ws == [] then NO_SUMS
    else
      var init, last := ws[..|ws| - 1], ws[|ws| - 1];
      var sums := SumsOf(rows, init, run);
      if last.id in UpsertAll(rows, init, run)
      then sums.(updated := Bumped(sums.updated, last.id.table, 1))
      else sums.(inserted := Bumped(sums.inserted, last.id.table, 1))
  }

  lemma {:induction false} SumsAreTallied(rows: Rows, ws: seq<Write>, run: nat)
    ensures var sums := SumsOf(rows, ws, run);
            Tallied(sums.inserted, sums.updated, rows, UpsertAll(rows, ws, run), ws)
  {
    if ws != [] {
      var init, last := ws[..|ws| - 1], ws[|ws| - 1];
      SumsAreTallied(rows, init, run);
      UpsertGrowsBy(UpsertAll(rows, init, run), last, run);
    }
  }

  /** Counts of two sources added up. */
  function Summed(a: map<Table, nat>, b: map<Table, nat>): map<Table, nat> {
    map t | t in a.Keys + b.Keys :: CountOf(a, t) + CountOf(b, t)
  }

  lemma TalliedInSequence(a: EtlSums, b: EtlSums, before: Rows, mid: Rows, now: Rows, first: seq<Write>, second: seq<Write>)
    requires Tallied(a.inserted, a.updated, before, mid, first) && Tallied(b.inserted, b.updated, mid, now, second)
    ensures Tallied(Summed(a.inserted, b.inserted), Summed(a.updated, b.updated), before, now, first + second)
  {
    hide ForTable;
    var i, u := Summed(a.inserted, b.inserted), Summed(a.updated, b.updated);
    forall t
      ensures CountOf(i, t) + |TableIds(before, t)| == |TableIds(now, t)|
      ensures CountOf(i, t) + CountOf(u, t) == |ForTable(first + second, t)|
    {
      ForTableConcat(first, second, t);
      assert CountOf(i, t) == CountOf(a.inserted, t) + CountOf(b.inserted, t);
      assert CountOf(u, t) == CountOf(a.updated, t) + CountOf(b.updated, t);
      assert CountOf(a.inserted, t) + |TableIds(before, t)| == |TableIds(mid, t)|;
      assert CountOf(b.inserted, t) + |TableIds(mid, t)| == |TableIds(now, t)|;
    }
  }

  lemma NothingTallied(rows: Rows)
    ensures Tallied(map[], map[], rows, rows, [])
  {
  }
}
