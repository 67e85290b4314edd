/**
 * Address ranges: prefix arithmetic of delegated IPv4 counts and RDAP spans, IPv6 CIDR blocks, and
 * the most specific row of a lookup.
 */
module AddressBlocks {
  import opened Prelude
  import opened Bits

  // ---------------------------------------------------------------- delegated IPv4 counts

  /** `_record_to_ip_row`: the prefix length of a count, when the count is a power of two. */
  function V4PrefixLength(value: int): Option<int> {
    if value > 0 && BitAnd(value, value - 1) == 0 then Some(32 - BitLength(value) + 1) else None
  }

  /** A prefix is stored exactly for powers of two; it names a block of that many addresses. */
  lemma V4PrefixIsExact(value: int)
    ensures V4PrefixLength(value).Some? <==> value > 0 && IsPow2(value)
    ensures V4PrefixLength(value).Some? ==>
              var p := V4PrefixLength(value).value;
              p <= 32 && Pow2(32 - p) == value && (0 <= p <==> value <= Pow2(32))
  {
    hide Pow2;
    if value > 0 {
      AndTestIsPow2(value);
      AndPredecessor(value);
      BitLengthBounds(value);
      Pow2AtMost(BitLength(value) - 1, 32);
    }
  }

  // ---------------------------------------------------------------- RDAP IPv6 spans

  /** `_normalize_rdap_ip`: the value reported for a span of `span` IPv6 addresses. */
  function RdapV6Value(span: int): int {
    128 - if span > 1 then BitLength(span - 1) else 0
  }

  lemma TightestCover(span: nat)
    requires span >= 1
    ensures var bits := if span > 1 then BitLength(span - 1) else 0;
            && span <= Pow2(bits)
            && (forall w: nat :: w < bits ==> Pow2(w) < span)
            && (Pow2(bits) == span <==> IsPow2(span))
  {
    var bits := if span > 1 then BitLength(span - 1) else 0;
    if span > 1 {
      BitLengthBounds(span - 1);
    }
    assert bits > 0 ==> Pow2(bits - 1) < span;
    hide BitLength, Pow2;
    forall w: nat | w < bits
      ensures Pow2(w) < span
    {
      Pow2AtMost(w, bits - 1);
    }
    if k: nat :| span == Pow2(k) {
      if bits > 0 {
        Pow2AtMost(k, bits - 1);
      }
      Pow2AtMost(bits, k);
      Pow2AtMost(k, bits);
    }
  }

  /** Spans of 1..2^128 addresses: the tightest power of two that covers, exact precisely for powers of two. */
  lemma RdapValueIsTightest(span: nat)
    requires 1 <= span <= Pow2(128)
    ensures var v := RdapV6Value(span);
            && 0 <= v <= 128
            && span <= Pow2(128 - v)
            && (forall w: nat :: w < 128 - v ==> Pow2(w) < span)
            && (Pow2(128 - v) == span <==> IsPow2(span))
  {
    hide Pow2;
    CoverFits(span, 128);
    TightestCover(span);
  }

  lemma CoverFits(span: nat, total: nat)
    requires 1 <= span <= Pow2(total)
    ensures (if span > 1 then BitLength(span - 1) else 0) <= total
  {
    TightestCover(span);
  }

  /** The value 0, promised for blocks that are not aligned, is reported exactly for spans of more than half the space. */
  lemma RdapValueIsZeroIff(span: nat)
    requires 1 <= span <= Pow2(128)
    ensures RdapV6Value(span) == 0 <==> span > Pow2(127)
  {
    hide Pow2;
    RdapValueIsTightest(span);
    var v := RdapV6Value(span);
    if v == 0 {
      assert Pow2(127) < span;
    } else {
      Pow2AtMost(128 - v, 127);
    }
  }

  /** A span of nothing, or of less when the ends are swapped, gives 128 like a single address. */
  lemma RdapValueIsFullIff(span: int)
    requires span <= Pow2(128)
    ensures RdapV6Value(span) == 128 <==> span <= 1
  {
    hide Pow2;
    if span > 1 {
      BitLengthBounds(span - 1);
    }
  }

  // ---------------------------------------------------------------- CIDR blocks

  /** A half-open range of addresses. */
  datatype Range = Range(lower: nat, upper: nat) {
    predicate Covers(ip: nat) {
      lower <= ip < upper
    }

    function Width(): int {
      upper - lower
    }

    predicate Inside(outer: Range) {
      outer.lower <= lower && upper <= outer.upper
    }
  }

  /** `IPv6Network(..., strict=False)`: host bits cleared, `2^(128 - length)` addresses. */
  function CidrBlock(address: nat, length: nat): Range
    requires length <= 128
  {
    var size := Pow2(128 - length);
    Euclid(address, size);
    Range(address - address % size, address - address % size + size)
  }

  /** A block of `2^host` addresses that starts at a multiple of its size. */
  ghost predicate IsBlock(r: Range, host: nat) {
    r.Width() == Pow2(host) && exists k: nat :: r.lower == Times(k, Pow2(host))
  }

  /** Multiplication, kept apart from linear arithmetic. */
  function Times(a: nat, b: nat): nat {
    a * b
  }

  lemma TimesGrows(a: nat, b: nat, m: nat)
    requires a <= b
    ensures Times(a, m) <= Times(b, m)
  {
    assert b * m == a * m + (b - a) * m;
  }

  lemma TimesSuccessor(a: nat, m: nat)
    ensures Times(a + 1, m) == Times(a, m) + m
  {
  }

  lemma TimesMonotone(a: nat, b: nat, m: nat)
    requires m > 0
    ensures a <= b <==> Times(a, m) <= Times(b, m)
    ensures Times(a + 1, m) == Times(a, m) + m
  {
    hide Times;
    TimesSuccessor(a, m);
    TimesSuccessor(b, m);
    if a <= b {
      TimesGrows(a, b, m);
    } else {
      TimesGrows(b + 1, a, m);
    }
  }

  lemma Euclid(a: nat, m: nat)
    requires m > 0
    ensures a - a % m == Times(a / m, m) && a % m < m
  {
  }

  /** Aligned to its size, within the address space, and the written address is in it. */
  lemma BlockIsAlignedAndContains(address: nat, length: nat)
    requires length <= 128 && address < Pow2(128)
    ensures var r := CidrBlock(address, length);
            IsBlock(r, 128 - length) && r.Covers(address) && r.upper <= Pow2(128)
  {
    hide Pow2, Times;
    var size := Pow2(128 - length);
    Euclid(address, size);
    var k := address / size;
    assert CidrBlock(address, length).lower == Times(k, size);
    Pow2Sum(length, 128 - length);
    assert Pow2(128) == Times(Pow2(length), size) by { hide Pow2; PlainTimes(Pow2(length), size); }
    TimesMonotone(Pow2(length), k, size);
    TimesMonotone(k + 1, Pow2(length), size);
    TimesMonotone(k, k, size);
  }

  lemma PlainTimes(a: nat, b: nat)
    ensures Times(a, b) == a * b
  {
  }

  /** Of two blocks with a common address, the smaller lies inside the larger. */
  lemma BlocksNested(r: Range, small: nat, s: Range, large: nat, ip: nat)
    requires IsBlock(r, small) && IsBlock(s, large) && small <= large
    requires r.Covers(ip) && s.Covers(ip)
    ensures r.Inside(s)
  {
    hide Pow2;
    var m, n := Pow2(small), Pow2(large - small);
    Pow2Sum(small, large - small);
    var i: nat :| r.lower == Times(i, m);
    var j: nat :| s.lower == Times(j, Pow2(large));
    var lo, hi := InSmallerUnits(j, m, n);
    hide Times;
    InsideByMultiples(r, s, i, lo, hi, m, ip);
  }

  /** The ends of the j-th block of `m * n` addresses, counted in units of `m`. */
  lemma InSmallerUnits(j: nat, m: nat, n: nat) returns (lo: nat, hi: nat)
    ensures Times(j, m * n) == Times(lo, m) && Times(j, m * n) + m * n == Times(hi, m)
  {
    lo, hi := j * n, j * n + n;
    assert j * (m * n) == (j * n) * m;
    assert (j * n + n) * m == (j * n) * m + n * m;
  }

  /** A block of one unit that meets a range of whole units lies inside it. */
  lemma InsideByMultiples(r: Range, s: Range, i: nat, lo: nat, hi: nat, m: nat, ip: nat)
    requires m > 0 && r.lower == Times(i, m) && r.Width() == m
    requires s.lower == Times(lo, m) && s.upper == Times(hi, m)
    requires r.Covers(ip) && s.Covers(ip)
    ensures r.Inside(s)
  {
    hide Times;
    TimesMonotone(i, i, m);
    TimesMonotone(i + 1, lo, m);
    TimesMonotone(lo, i, m);
    TimesMonotone(hi, i, m);
    TimesMonotone(i + 1, hi, m);
  }

  /** Any two blocks are nested or disjoint. */
  lemma BlocksNestedOrDisjoint(r: Range, a: nat, s: Range, b: nat)
    requires IsBlock(r, a) && IsBlock(s, b)
    ensures r.Inside(s) || s.Inside(r) || forall ip: nat :: !(r.Covers(ip) && s.Covers(ip))
  {
    if ip: nat :| r.Covers(ip) && s.Covers(ip) {
      if a <= b {
        BlocksNested(r, a, s, b, ip);
      } else {
        BlocksNested(s, b, r, a, ip);
      }
    }
  }

  ghost predicate IsCidr(r: Range) {
    exists host :: IsBlock(r, host)
  }

  lemma MultipleHasNoRemainder(k: nat, m: nat)
    requires m > 0
    ensures Times(k, m) % m == 0
  {
    hide Times;
    Euclid(Times(k, m), m);
    var q := Times(k, m) / m;
    if q < k {
      TimesMonotone(q + 1, k, m);
      TimesMonotone(q, q, m);
    } else {
      TimesMonotone(k, q, m);
    }
  }

  /** A range is the block of its size exactly when that size divides its start. */
  lemma BlockIffAligned(r: Range, host: nat)
    requires r.Width() == Pow2(host)
    ensures IsBlock(r, host) <==> r.lower % Pow2(host) == 0
  {
    hide Pow2;
    var size := Pow2(host);
    Euclid(r.lower, size);
    if k: nat :| r.lower == Times(k, size) {
      MultipleHasNoRemainder(k, size);
    }
  }

  /** A range is a CIDR block exactly when its width is a power of two that divides its start. */
  lemma CidrIffAligned(r: Range)
    ensures IsCidr(r) <==> r.Width() > 0 && IsPow2(r.Width()) && r.lower % r.Width() == 0
  {
    hide Pow2;
    if host :| IsBlock(r, host) {
      BlockIffAligned(r, host);
    }
    if r.Width() > 0 && IsPow2(r.Width()) {
      var host: nat :| r.Width() == Pow2(host);
      BlockIffAligned(r, host);
    }
  }

  // ---------------------------------------------------------------- RDAP ranges

  /** What the comment beside the code promises: the length of a CIDR block, and 0 for any other range. */
  ghost predicate RdapValueAsPromised(r: Range, value: int) {
    if IsCidr(r) then forall host: nat :: IsBlock(r, host) ==> value == 128 - host else value == 0
  }

  /** The value for the addresses from `start` to `end`, both included, whichever is larger. */
  function RdapV6ValueOf(start: nat, end: nat): int {
    RdapV6Value(end - start + 1)
  }

  /** The reported value names the range as a block exactly when the range is one. */
  lemma RdapValueNamesTheBlockIff(start: nat, end: nat)
    requires start <= end < Pow2(128)
    ensures var v := RdapV6ValueOf(start, end);
            0 <= v <= 128 && (IsBlock(Range(start, end + 1), 128 - v) <==> IsCidr(Range(start, end + 1)))
  {
    hide Pow2;
    var r, span := Range(start, end + 1), end - start + 1;
    RdapValueIsTightest(span);
    if host: nat :| IsBlock(r, host) {
      assert IsPow2(span);
      assert r.Width() == Pow2(128 - RdapV6ValueOf(start, end));
      CidrIffAligned(r);
      BlockIffAligned(r, 128 - RdapV6ValueOf(start, end));
    }
  }

  /** The comment's promise is kept exactly for CIDR blocks and for ranges of more than half the space. */
  lemma RdapValueAsPromisedIff(start: nat, end: nat)
    requires start < Pow2(128) && end < Pow2(128)
    ensures RdapValueAsPromised(Range(start, end + 1), RdapV6ValueOf(start, end))
            <==> IsCidr(Range(start, end + 1)) || end - start + 1 > Pow2(127)
  {
    hide Pow2;
    var r, v := Range(start, end + 1), RdapV6ValueOf(start, end);
    RdapValueIsFullIff(end - start + 1);
    if start <= end {
      RdapValueIsZeroIff(end - start + 1);
      RdapValueNamesTheBlockIff(start, end);
      forall host: nat | IsBlock(r, host)
        ensures v == 128 - host
      {
        Pow2AtMost(host, 128 - v);
        Pow2AtMost(128 - v, host);
      }
    }
  }

  /** Three addresses, and two that are not aligned: the length of a block that they are not. */
  lemma RdapSurprises()
    ensures RdapV6ValueOf(0, 2) == 126 && !IsCidr(Range(0, 3))
    ensures RdapV6ValueOf(1, 2) == 127 && !IsCidr(Range(1, 3))
  {
    assert BitLength(2) == 1 + BitLength(1);
    CidrIffAligned(Range(0, 3));
    CidrIffAligned(Range(1, 3));
    if k: nat :| 3 == Pow2(k) {
      Pow2AtMost(k, 1);
      Pow2AtMost(2, k);
    }
  }

  // ---------------------------------------------------------------- lookup

  datatype RangeRow = RangeRow(range: Range, stale: bool)

  predicate Visible(row: RangeRow, ip: nat, includeStale: bool) {
    row.range.Covers(ip) && (!row.stale || includeStale)
  }

  /** `WHERE range @> ip AND (is_stale = FALSE OR :include_stale) ORDER BY width ASC LIMIT 1` */
  function Lookup(rows: seq<RangeRow>, ip: nat, includeStale: bool): Option<RangeRow> {
    if rows == [] then None
    else
      var best, last := Lookup(rows[..|rows| - 1], ip, includeStale), rows[|rows| - 1];
      if !Visible(last, ip, includeStale) then best
      else if best.Some? && best.value.range.Width() <= last.range.Width() then best
      else Some(last)
  }

  /**
   * A row is found exactly when one covers the address and is live or stale rows are asked for; the
   * row found is such a row, and none of them is narrower.
   */
  lemma {:induction false} LookupIsLeastWidth(rows: seq<RangeRow>, ip: nat, includeStale: bool)
    ensures var found := Lookup(rows, ip, includeStale);
            && (found.Some? <==>
                  exists i :: 0 <= i < |rows| && rows[i].range.lower <= ip < rows[i].range.upper && (includeStale || !rows[i].stale))
            && (found.Some? ==>
                  && found.value in rows
                  && found.value.range.lower <= ip < found.value.range.upper && (includeStale || !found.value.stale)
                  && forall i :: 0 <= i < |rows| && rows[i].range.lower <= ip < rows[i].range.upper && (includeStale || !rows[i].stale) ==>
                       found.value.range.upper - found.value.range.lower <= rows[i].range.upper - rows[i].range.lower)
  {
    if rows != [] {
      var init := rows[..|rows| - 1];
      LookupIsLeastWidth(init, ip, includeStale);
      assert forall i :: 0 <= i < |init| ==> init[i] == rows[i];
      assert rows[|rows| - 1] in rows;
      var last := rows[|rows| - 1];
      assert Visible(last, ip, includeStale) <==> last.range.lower <= ip < last.range.upper && (includeStale || !last.stale);
      if i :| 0 <= i < |init| && Visible(init[i], ip, includeStale) {
        assert rows[i] == init[i];
      }
    }
  }

  ghost predicate AllCidr(rows: seq<RangeRow>) {
    forall row :: row in rows ==> IsCidr(row.range)
  }

  /** On CIDR rows the least width is the longest prefix: the row lies inside every other row that may be shown. */
  lemma LookupIsLongestPrefixMatch(rows: seq<RangeRow>, ip: nat, includeStale: bool, other: RangeRow)
    requires AllCidr(rows) && other in rows
    requires other.range.lower <= ip < other.range.upper && (includeStale || !other.stale)
    ensures var found := Lookup(rows, ip, includeStale);
            && found.Some? && found.value.range.lower <= ip < found.value.range.upper
            && (includeStale || !found.value.stale)
            && other.range.lower <= found.value.range.lower && found.value.range.upper <= other.range.upper
  {
    LookupIsLeastWidth(rows, ip, includeStale);
    hide Lookup, Pow2;
    var found := Lookup(rows, ip, includeStale).value;
    assert IsCidr(found.range) && IsCidr(other.range);
    var a :| IsBlock(found.range, a);
    var b :| IsBlock(other.range, b);
    Pow2AtMost(a, b);
    BlocksNested(found.range, a, other.range, b, ip);
  }

  lemma LookupLast(rows: seq<RangeRow>, last: RangeRow, ip: nat, includeStale: bool)
    ensures Lookup([], ip, includeStale) == None
    ensures var best := Lookup(rows, ip, includeStale);
            Lookup(rows + [last], ip, includeStale) ==
              if !Visible(last, ip, includeStale) || (best.Some? && best.value.range.Width() <= last.range.Width()) then best
              else Some(last)
  {
    assert (rows + [last])[..|rows|] == rows;
  }

  /** A stale row is passed over for a wider live one, unless stale rows are asked for. */
  lemma StaleRowsAreHidden()
    ensures var wide, narrow := RangeRow(Range(0, 256), false), RangeRow(Range(0, 16), true);
            Lookup([wide, narrow], 7, false) == Some(wide) && Lookup([wide, narrow], 7, true) == Some(narrow)
  {
    var wide, narrow := RangeRow(Range(0, 256), false), RangeRow(Range(0, 16), true);
    LookupLast([], wide, 7, false);
    LookupLast([], wide, 7, true);
    LookupLast([wide], narrow, 7, false);
    LookupLast([wide], narrow, 7, true);
    assert [] + [wide] == [wide] && [wide] + [narrow] == [wide, narrow];
  }

  /** Ranges that are no CIDR blocks may overlap in part; the least width is then inside nothing. */
  lemma PartialOverlap()
    ensures var a, b := RangeRow(Range(0, 10), false), RangeRow(Range(5, 16), false);
            Lookup([a, b], 7, false) == Some(a) && !a.range.Inside(b.range)
  {
    var a, b := RangeRow(Range(0, 10), false), RangeRow(Range(5, 16), false);
    assert [a, b][..1] == [a] && [a][..0] == [];
    assert Lookup([a], 7, false) == Some(a);
  }
}
