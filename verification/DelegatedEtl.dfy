/**
 * ETL of delegated records: partition into address and ASN rows, one upsert for each family of rows.
 */
module DelegatedEtl {
  import opened Prelude
  import opened Tables
  import opened Database
  import opened Orchestrator
  import opened Decimal
  import opened Bits
  import opened AddressBlocks
  import opened RpslMappers

  datatype DelegatedRecord = DelegatedRecord(
    registry: string, cc: Option<string>, kind: string, start: string, value: int, status: string,
    date: Option<int>, opaqueId: Option<string>, extensions: Option<string>)

  datatype Mapping = Invalid | Row(write: Write)

  function Maybe(s: Option<string>): Value {
    if s.Some? then Text(s.value) else Null
  }

  /** The columns that are copied. A date is a day number. */
  function Rest(rec: DelegatedRecord): Payload {
    [Text(rec.status), if rec.date.Some? then Num(rec.date.value) else Null, Maybe(rec.opaqueId), Maybe(rec.extensions)]
  }

  /** The address range of a record: a count of IPv4 addresses, or an IPv6 prefix length. */
  function IpRange(lib: AddressLib, rec: DelegatedRecord): Option<Range> {
    if rec.kind == "ipv4" then
      var start := lib.v4(rec.start);
      if start.None? || rec.value < 0 then None else Some(Range(start.value, start.value + rec.value))
    else
      var start := lib.v6(rec.start);
      if start.None? || rec.value > 128 then None else Some(Range(start.value, start.value + Pow2(128 - rec.value)))
  }

  /**
   * `_record_to_ip_row`. Invalid for an address that does not parse, an IPv6 length above 128, and a
   * negative IPv4 count, whose range PostgreSQL refuses.
   */
  function IpRow(lib: AddressLib, rec: DelegatedRecord): Mapping {
    var range := IpRange(lib, rec);
    if range.None? then Invalid
    else
      var family, prefix := if rec.kind == "ipv4" then 4 else 6,
                            if rec.kind == "ipv4" then V4PrefixLength(rec.value) else Some(rec.value);
      Row(Write(RowId(IpAllocation, [Text(rec.registry), Num(family), Num(range.value.lower), Num(rec.value)]),
                [Maybe(rec.cc), Num(range.value.lower), Num(range.value.upper),
                 if prefix.Some? then Num(prefix.value) else Null] + Rest(rec)))
  }

  /** An IPv6 record is a CIDR block of the length it states exactly when its start is aligned: nothing masks it. */
  lemma V6RecordIsCidrIffAligned(lib: AddressLib, rec: DelegatedRecord)
    requires rec.kind == "ipv6" && IpRange(lib, rec).Some?
    ensures var range, size := IpRange(lib, rec).value, Pow2(128 - rec.value);
            IsBlock(range, 128 - rec.value) <==> range.lower % size == 0
  {
    hide Pow2;
    BlockIffAligned(IpRange(lib, rec).value, 128 - rec.value);
  }

  /** The prefix length in the row. */
  function StoredPrefix(lib: AddressLib, rec: DelegatedRecord): Value
    requires IpRow(lib, rec).Row?
  {
    IpRow(lib, rec).write.payload[3]
  }

  /**
   * An IPv4 record with a prefix length p stored beside its range is a block of that length exactly
   * when its start is aligned; without one it is no CIDR block at all.
   */
  lemma V4RecordIsCidrIffAligned(lib: AddressLib, rec: DelegatedRecord)
    requires rec.kind == "ipv4" && IpRow(lib, rec).Row?
    ensures var range := IpRange(lib, rec).value;
            && (StoredPrefix(lib, rec) == Null ==> !IsCidr(range))
            && (StoredPrefix(lib, rec) != Null ==>
                  && rec.value > 0 && StoredPrefix(lib, rec).Num? && StoredPrefix(lib, rec).n <= 32
                  && (IsBlock(range, 32 - StoredPrefix(lib, rec).n) <==> range.lower % rec.value == 0)
                  && (IsCidr(range) <==> range.lower % rec.value == 0))
  {
    hide Pow2, IsBlock;
    var range := IpRange(lib, rec).value;
    V4PrefixIsExact(rec.value);
    CidrIffAligned(range);
    if V4PrefixLength(rec.value).Some? {
      BlockIffAligned(range, 32 - V4PrefixLength(rec.value).value);
    }
  }

  /** 256 addresses from 0.0.0.1 on: stored as a /24, which they are not. */
  lemma {:induction false} UnalignedRecordGetsAPrefix(lib: AddressLib, rec: DelegatedRecord)
    requires rec.kind == "ipv4" && rec.start == "0.0.0.1" && lib.v4("0.0.0.1") == Some(1) && rec.value == 256
    ensures IpRow(lib, rec).Row? && StoredPrefix(lib, rec) == Num(24) && !IsCidr(IpRange(lib, rec).value)
  {
    PrefixOf256();
    hide V4PrefixLength, IsCidr;
    V4RecordIsCidrIffAligned(lib, rec);
  }

  lemma PrefixOf256()
    ensures V4PrefixLength(256) == Some(24)
  {
    PowerHasItsBitLength(256, 8) by {
      assert Pow2(4) == 16;
      Pow2Sum(4, 4);
    }
    AndPredecessor(256);
  }

  /** `_record_to_asn_row` */
  function AsnRow(rec: DelegatedRecord): Mapping {
    var start := PyInt(rec.start);
    if start.None? || rec.value < 0 then Invalid
    else
      Row(Write(RowId(AsnAllocation, [Text(rec.registry), Num(start.value), Num(rec.value)]),
                [Maybe(rec.cc), Num(start.value), Num(start.value + rec.value)] + Rest(rec)))
  }

  /**
   * The rows of a record, column by column. An IPv4 record covers exactly its count of addresses, an
   * IPv6 record 2^(128 - length), an ASN record exactly its count of ASNs.
   */
  lemma RowsByColumn(lib: AddressLib, rec: DelegatedRecord)
    ensures rec.kind == "ipv4" ==>
              && (IpRow(lib, rec).Row? <==> lib.v4(rec.start).Some? && rec.value >= 0)
              && (IpRow(lib, rec).Row? ==>
                    var w, start := IpRow(lib, rec).write, lib.v4(rec.start).value;
                    && w.id == RowId(IpAllocation, [Text(rec.registry), Num(4), Num(start), Num(rec.value)])
                    && |w.payload| == 8 && w.payload[1] == Num(start) && w.payload[2] == Num(start + rec.value)
                    && CommonColumns(rec, w.payload[0], w.payload[4..]))
    ensures rec.kind == "ipv6" ==>
              && (IpRow(lib, rec).Row? <==> lib.v6(rec.start).Some? && rec.value <= 128)
              && (IpRow(lib, rec).Row? ==>
                    var w, start := IpRow(lib, rec).write, lib.v6(rec.start).value;
                    && w.id == RowId(IpAllocation, [Text(rec.registry), Num(6), Num(start), Num(rec.value)])
                    && |w.payload| == 8 && w.payload[1] == Num(start) && w.payload[2] == Num(start + Pow2(128 - rec.value))
                    && w.payload[3] == Num(rec.value)
                    && CommonColumns(rec, w.payload[0], w.payload[4..]))
    ensures rec.kind == "asn" ==>
              && (AsnRow(rec).Row? <==> PyInt(rec.start).Some? && rec.value >= 0)
              && (AsnRow(rec).Row? ==>
                    var w, start := AsnRow(rec).write, PyInt(rec.start).value;
                    && w.id == RowId(AsnAllocation, [Text(rec.registry), Num(start), Num(rec.value)])
                    && |w.payload| == 7 && w.payload[1] == Num(start) && w.payload[2] == Num(start + rec.value)
                    && CommonColumns(rec, w.payload[0], w.payload[3..]))
  {
    hide PyInt, Pow2, V4PrefixLength;
  }

  predicate CommonColumns(rec: DelegatedRecord, cc: Value, rest: Payload) {
    && cc == (if rec.cc.Some? then Text(rec.cc.value) else Null)
    && rest == [Text(rec.status),
                if rec.date.Some? then Num(rec.date.value) else Null,
                if rec.opaqueId.Some? then Text(rec.opaqueId.value) else Null,
                if rec.extensions.Some? then Text(rec.extensions.value) else Null]
  }

  predicate IsIp(rec: DelegatedRecord) {
    rec.kind == "ipv4" || rec.kind == "ipv6"
  }

  /** The address rows, or the ASN rows; None when one of their records is invalid. */
  function RowsOf(lib: AddressLib, records: seq<DelegatedRecord>, ip: bool): Option<seq<Write>> {
    if records == [] then Some([])
    else WithRecord(lib, RowsOf(lib, records[..|records| - 1], ip), records[|records| - 1], ip)
  }

  function WithRecord(lib: AddressLib, rows: Option<seq<Write>>, rec: DelegatedRecord, ip: bool): Option<seq<Write>> {
    var row := if ip && IsIp(rec) then Some(IpRow(lib, rec))
               else if !ip && !IsIp(rec) && rec.kind == "asn" then Some(AsnRow(rec)) else None;
    if rows.None? || row.None? then rows
    else if row.value.Row? then Some(rows.value + [row.value.write]) else None
  }

  datatype Family = Addresses | Asns | Others

  function FamilyOf(rec: DelegatedRecord): Family {
    if IsIp(rec) then Addresses else if rec.kind == "asn" then Asns else Others
  }

  /** How many records are of a family. */
  function OfFamily(records: seq<DelegatedRecord>, family: Family): nat {
    if records == [] then 0
    else OfFamily(records[..|records| - 1], family) + if FamilyOf(records[|records| - 1]) == family then 1 else 0
  }

  /** The ETL of the records as the orchestrator sees it. */
  function DelegatedLoad(lib: AddressLib, records: seq<DelegatedRecord>): Load {
    var ips, asns := RowsOf(lib, records, true), RowsOf(lib, records, false);
    if ips.None? || asns.None? || DuplicateKeys(ips.value) || DuplicateKeys(asns.value) then Raises
    else Loads(ips.value + asns.value)
  }

  lemma RowsOneMore(lib: AddressLib, records: seq<DelegatedRecord>, ip: bool)
    requires records != []
    ensures RowsOf(lib, records, ip) == WithRecord(lib, RowsOf(lib, records[..|records| - 1], ip), records[|records| - 1], ip)
  {
  }

  predicate AddressRow(lib: AddressLib, rec: DelegatedRecord, w: Write) {
    (rec.kind == "ipv4" || rec.kind == "ipv6") && IpRow(lib, rec) == Row(w)
  }

  predicate InvalidAddress(lib: AddressLib, rec: DelegatedRecord) {
    (rec.kind == "ipv4" || rec.kind == "ipv6") && IpRow(lib, rec).Invalid?
  }

  predicate AsnRecordRow(rec: DelegatedRecord, w: Write) {
    rec.kind == "asn" && AsnRow(rec) == Row(w)
  }

  predicate InvalidAsn(rec: DelegatedRecord) {
    rec.kind == "asn" && AsnRow(rec).Invalid?
  }

  lemma LastRecordRows(lib: AddressLib, rows: Option<seq<Write>>, rec: DelegatedRecord, w: Write)
    ensures var ips, asns := WithRecord(lib, rows, rec, true), WithRecord(lib, rows, rec, false);
            && (ips.None? <==> rows.None? || InvalidAddress(lib, rec))
            && (ips.Some? ==> (w in ips.value <==> w in rows.value || AddressRow(lib, rec, w)))
            && (asns.None? <==> rows.None? || InvalidAsn(rec))
            && (asns.Some? ==> (w in asns.value <==> w in rows.value || AsnRecordRow(rec, w)))
  {
    hide IpRow, AsnRow;
  }

  lemma MembersOf<T>(s: seq<T>)
    requires s != []
    ensures forall x :: x in s <==> x in s[..|s| - 1] || x == s[|s| - 1]
  {
    assert s == s[..|s| - 1] + [s[|s| - 1]];
  }

  /** The address rows are those of the ipv4 and ipv6 records, and one that is invalid spoils them all. */
  lemma {:induction false} AddressRowsByKind(lib: AddressLib, records: seq<DelegatedRecord>, w: Write)
    ensures var rows := RowsOf(lib, records, true);
            && (rows.None? <==> exists rec :: rec in records && InvalidAddress(lib, rec))
            && (rows.Some? ==> (w in rows.value <==> exists rec :: rec in records && AddressRow(lib, rec, w)))
  {
    if records != [] {
      hide AddressRow, InvalidAddress, RowsOf, WithRecord;
      RowsOneMore(lib, records, true);
      AddressRowsByKind(lib, records[..|records| - 1], w);
      LastRecordRows(lib, RowsOf(lib, records[..|records| - 1], true), records[|records| - 1], w);
      MembersOf(records);
    }
  }

  /** The ASN rows are those of the asn records, and one that is invalid spoils them all. */
  lemma {:induction false} AsnRowsByKind(lib: AddressLib, records: seq<DelegatedRecord>, w: Write)
    ensures var rows := RowsOf(lib, records, false);
            && (rows.None? <==> exists rec :: rec in records && InvalidAsn(rec))
            && (rows.Some? ==> (w in rows.value <==> exists rec :: rec in records && AsnRecordRow(rec, w)))
  {
    if records != [] {
      hide AsnRecordRow, InvalidAsn, RowsOf, WithRecord;
      RowsOneMore(lib, records, false);
      AsnRowsByKind(lib, records[..|records| - 1], w);
      LastRecordRows(lib, RowsOf(lib, records[..|records| - 1], false), records[|records| - 1], w);
      MembersOf(records);
    }
  }

  datatype EtlStats = EtlStats(
    recordsSeen: nat, ipRecords: nat, asnRecords: nat, skipped: nat,
    ipInserted: nat, ipUpdated: nat, asnInserted: nat, asnUpdated: nat)

  lemma {:induction false} RowsGoToTheirTable(lib: AddressLib, records: seq<DelegatedRecord>, ip: bool)
    ensures RowsOf(lib, records, ip).Some? ==>
              forall w :: w in RowsOf(lib, records, ip).value ==> w.id.table == if ip then IpAllocation else AsnAllocation
  {
    if records != [] {
      RowsGoToTheirTable(lib, records[..|records| - 1], ip);
    }
  }

  /** The records sorted into rows, and those left out; not valid from the first invalid record on. */
  datatype Parts = Parts(valid: bool, ips: seq<Write>, asns: seq<Write>, skipped: nat)

  function Placed(lib: AddressLib, parts: Parts, rec: DelegatedRecord): Parts {
    match FamilyOf(rec)
    case Addresses =>
      if IpRow(lib, rec).Row? then parts.(ips := parts.ips + [IpRow(lib, rec).write]) else parts.(valid := false)
    case Asns =>
      if AsnRow(rec).Row? then parts.(asns := parts.asns + [AsnRow(rec).write]) else parts.(valid := false)
    case Others => parts.(skipped := parts.skipped + 1)
  }

  function PartsOf(lib: AddressLib, records: seq<DelegatedRecord>): Parts {
    if records == [] then Parts(true, [], [], 0)
    else Placed(lib, PartsOf(lib, records[..|records| - 1]), records[|records| - 1])
  }

  lemma {:induction false} PartsAreRows(lib: AddressLib, records: seq<DelegatedRecord>)
    ensures var p, ips, asns := PartsOf(lib, records), RowsOf(lib, records, true), RowsOf(lib, records, false);
            && (p.valid <==> ips.Some? && asns.Some?)
            && (p.valid ==> ips.value == p.ips && asns.value == p.asns)
            && p.skipped == OfFamily(records, Others)
            && (p.valid ==> |p.ips| == OfFamily(records, Addresses) && |p.asns| == OfFamily(records, Asns))
            && (p.valid ==> |p.ips| + |p.asns| + p.skipped == |records|)
  {
    if records != [] {
      hide IpRow, AsnRow;
      PartsAreRows(lib, records[..|records| - 1]);
    }
  }

  lemma OneMorePart(lib: AddressLib, records: seq<DelegatedRecord>, i: nat)
    requires i < |records|
    ensures PartsOf(lib, records[..i + 1]) == Placed(lib, PartsOf(lib, records[..i]), records[i])
  {
    assert records[..i + 1][..i] == records[..i];
  }

  /** The partition of the records into address rows and ASN rows. */
  method Partition(lib: AddressLib, records: seq<DelegatedRecord>)
    returns (valid: bool, ipRows: seq<Write>, asnRows: seq<Write>, seen: nat, skipped: nat)
    ensures Parts(valid, ipRows, asnRows, skipped) == PartsOf(lib, records) && seen == |records|
  {
    valid, ipRows, asnRows, seen, skipped := true, [], [], 0, 0;
    for i := 0 to |records|
      invariant Parts(valid, ipRows, asnRows, skipped) == PartsOf(lib, records[..i]) && seen == i
    {
      OneMorePart(lib, records, i);
      hide PartsOf, IpRow, AsnRow;
      var rec := records[i];
      seen := seen + 1;
      if rec.kind == "ipv4" || rec.kind == "ipv6" {
        var row := IpRow(lib, rec);
        if row.Row? {
          ipRows := ipRows + [row.write];
        } else {
          valid := false;
        }
      } else if rec.kind == "asn" {
        var row := AsnRow(rec);
        if row.Row? {
          asnRows := asnRows + [row.write];
        } else {
          valid := false;
        }
      } else {
        skipped := skipped + 1;
      }
    }
    assert records[..|records|] == records;
  }

  /** The upsert of one family of rows; it fails exactly on a repeated key. */
  method UpsertRows(db: Db, rows: seq<Write>, ghost table: Table, runId: nat)
    returns (ok: bool, inserted: nat, updated: nat)
    requires forall w :: w in rows ==> w.id.table == table
    modifies db`rows
    ensures ok <==> !DuplicateKeys(rows)
    ensures ok ==>
              && db.rows == UpsertAll(old(db.rows), rows, runId) && inserted + updated == |rows|
              && |TableIds(db.rows, table)| == |TableIds(old(db.rows), table)| + inserted
              && forall t :: t != table ==> TableIds(db.rows, t) == TableIds(old(db.rows), t)
  {
    inserted, updated := 0, 0;
    if DuplicateKeys(rows) {
      return false, 0, 0;
    }
    hide DuplicateKeys, Inserts;
    InsertsIsGrowth(db.rows, rows, runId, table);
    inserted := Inserts(db.rows, rows);
    updated := |rows| - inserted;
    db.rows := UpsertAll(db.rows, rows, runId);
    ok := true;
  }

  /** `apply_delegated_etl`; on failure the rows are whatever was upserted before it, and the caller rolls back. */
  method ApplyDelegatedEtl(db: Db, lib: AddressLib, records: seq<DelegatedRecord>, runId: nat)
    returns (ok: bool, stats: EtlStats)
    modifies db`rows
    ensures ok <==> DelegatedLoad(lib, records).Loads?
    ensures ok ==>
              && db.rows == UpsertAll(old(db.rows), DelegatedLoad(lib, records).writes, runId)
              && stats.recordsSeen == |records|
              && stats.ipRecords == OfFamily(records, Addresses)
              && stats.asnRecords == OfFamily(records, Asns)
              && stats.skipped == OfFamily(records, Others)
              && stats.ipRecords + stats.asnRecords + stats.skipped == |records|
              && stats.ipInserted + stats.ipUpdated == stats.ipRecords
              && stats.asnInserted + stats.asnUpdated == stats.asnRecords
              && |TableIds(db.rows, IpAllocation)| == |TableIds(old(db.rows), IpAllocation)| + stats.ipInserted
              && |TableIds(db.rows, AsnAllocation)| == |TableIds(old(db.rows), AsnAllocation)| + stats.asnInserted
  {
    stats := EtlStats(0, 0, 0, 0, 0, 0, 0, 0);
    var valid, ipRows, asnRows, seen, skipped := Partition(lib, records);
    PartsAreRows(lib, records);
    if !valid {
      return false, stats;
    }
    RowsGoToTheirTable(lib, records, true);
    RowsGoToTheirTable(lib, records, false);
    hide RowsOf, OfFamily, DuplicateKeys, PartsOf;
    ghost var start := db.rows;
    var ipInserted, ipUpdated, asnInserted, asnUpdated;
    ok, ipInserted, ipUpdated := UpsertRows(db, ipRows, IpAllocation, runId);
    if !ok {
      return;
    }
    ok, asnInserted, asnUpdated := UpsertRows(db, asnRows, AsnAllocation, runId);
    if !ok {
      return;
    }
    UpsertAllConcat(start, ipRows, asnRows, runId);
    return true, EtlStats(seen, |ipRows|, |asnRows|, skipped, ipInserted, ipUpdated, asnInserted, asnUpdated);
  }
}
