/**
 * RPSL objects to table rows: routes, `inet6num` CIDR blocks and `inetnum` ranges.
 *
 * The address parser of the standard library is a parameter; what it returns is trusted.
 */
module RpslMappers {
  import opened Prelude
  import opened Tables
  import opened PyText
  import opened Decimal
  import opened RpslParser
  import opened AddressBlocks

  /** `ipaddress`: address texts to numbers, and which IPv4 network texts it accepts. */
  datatype AddressLib = AddressLib(v4: string -> Option<nat>, v6: string -> Option<nat>, isV4Network: string -> bool)

  ghost predicate SoundLib(lib: AddressLib) {
    forall s :: lib.v6(s).Some? ==> lib.v6(s).value < Pow2(128)
  }

  function FirstOr(obj: RpslObject, key: string, default: string): string {
    if Values(obj, key) == [] then default else Values(obj, key)[0]
  }

  // ---------------------------------------------------------------- IPv4 prefixes of routes

  function Ints(parts: seq<string>): Option<seq<string>> {
    if parts == [] then Some([])
    else
      var init, last := Ints(parts[..|parts| - 1]), PyInt(parts[|parts| - 1]);
      if init.None? || last.None? then None else Some(init.value + [StrInt(last.value)])
  }

  /** `_canonicalize_v4_prefix` */
  function CanonicalizeV4Prefix(prefix: string): string {
    var slash := IndexOf(prefix, '/');
    var octets := Ints(Split(prefix[..slash], '.'));
    if octets.None? || |octets.value| != 4 then prefix
    else Join(octets.value, '.') + prefix[slash..]
  }

  predicate DigitOctets(octets: seq<string>) {
    |octets| == 4 && forall i :: 0 <= i < 4 ==> Digits(octets[i])
  }

  predicate Suffix(s: string) {
    s == "" || s[0] == '/'
  }

  function Canonical(octets: seq<string>): (r: seq<string>)
    requires forall i :: 0 <= i < |octets| ==> Digits(octets[i])
    ensures |r| == |octets| && forall i :: 0 <= i < |r| ==> Digits(r[i]) && r[i] == Str(DigitsValue(octets[i]))
  {
    if octets == [] then []
    else Canonical(octets[..|octets| - 1]) + [Str(DigitsValue(octets[|octets| - 1]))]
  }

  lemma {:induction false} IntsOfDigits(octets: seq<string>)
    requires forall i :: 0 <= i < |octets| ==> Digits(octets[i])
    ensures Ints(octets) == Some(Canonical(octets))
  {
    if octets != [] {
      IntsOfDigits(octets[..|octets| - 1]);
      PyIntOfDigits(octets[|octets| - 1]);
    }
  }

  lemma {:induction false} JoinHasNo(parts: seq<string>, sep: char, c: char)
    requires |parts| >= 1 && sep != c && forall i :: 0 <= i < |parts| ==> c !in parts[i]
    ensures c !in Join(parts, sep)
  {
    if |parts| > 1 {
      JoinHasNo(parts[1..], sep, c);
    }
  }

  lemma SlashAfter(addr: string, suffix: string)
    requires '/' !in addr && Suffix(suffix)
    ensures var p := addr + suffix;
            IndexOf(p, '/') == |addr| && p[..|addr|] == addr && p[|addr|..] == suffix
  {
    var p := addr + suffix;
    assert forall k :: 0 <= k < |addr| ==> p[k] == addr[k] && addr[k] in addr;
    assert suffix != "" ==> p[|addr|] == '/';
  }

  /** On four octets of digits the address is rewritten octet by octet and the suffix is kept. */
  lemma CanonicalPrefix(octets: seq<string>, suffix: string)
    requires DigitOctets(octets) && Suffix(suffix)
    ensures CanonicalizeV4Prefix(Join(octets, '.') + suffix) == Join(Canonical(octets), '.') + suffix
  {
    hide Join, Split, IndexOf;
    assert forall i :: 0 <= i < 4 ==> '/' !in octets[i] && '.' !in octets[i];
    JoinHasNo(octets, '.', '/');
    SlashAfter(Join(octets, '.'), suffix);
    SplitJoin(octets, '.');
    IntsOfDigits(octets);
  }

  /** The rewritten octets have the same numbers and no leading zeros. */
  lemma CanonicalOctets(octets: seq<string>, i: nat)
    requires DigitOctets(octets) && i < 4
    ensures DigitsValue(Canonical(octets)[i]) == DigitsValue(octets[i]) && Minimal(Canonical(octets)[i])
  {
    StrReadsBack(DigitsValue(octets[i]));
  }

  /** The integers that `_canonicalize_v4_prefix` writes: no dots, no slashes, and they read back. */
  lemma {:induction false} IntsAreFixed(parts: seq<string>)
    requires Ints(parts).Some?
    ensures var written := Ints(parts).value;
            && |written| == |parts| && Ints(written) == Some(written)
            && forall i :: 0 <= i < |written| ==> '.' !in written[i] && '/' !in written[i]
  {
    if parts != [] {
      var init, last := parts[..|parts| - 1], parts[|parts| - 1];
      IntsAreFixed(init);
      var n := PyInt(last).value;
      PyIntOfStrInt(n);
      hide PyInt, StrInt;
      StrIntHasOnlyDigits(n);
      IntsOneMore(Ints(init).value, StrInt(n));
    }
  }

  lemma IntsOneMore(written: seq<string>, last: string)
    requires Ints(written) == Some(written) && PyInt(last).Some? && StrInt(PyInt(last).value) == last
    ensures Ints(written + [last]) == Some(written + [last])
  {
    hide PyInt, StrInt;
    assert (written + [last])[..|written|] == written;
  }

  lemma StrIntHasOnlyDigits(n: int)
    ensures '.' !in StrInt(n) && '/' !in StrInt(n)
  {
  }

  /** Canonicalising twice is canonicalising once, for every text. */
  lemma CanonicalizeIsIdempotent(prefix: string)
    ensures CanonicalizeV4Prefix(CanonicalizeV4Prefix(prefix)) == CanonicalizeV4Prefix(prefix)
  {
    hide Join, Split, IndexOf, Ints;
    var slash := IndexOf(prefix, '/');
    var octets := Ints(Split(prefix[..slash], '.'));
    if octets.Some? && |octets.value| == 4 {
      IntsAreFixed(Split(prefix[..slash], '.'));
      JoinHasNo(octets.value, '.', '/');
      SlashAfter(Join(octets.value, '.'), prefix[slash..]);
      SplitJoin(octets.value, '.');
    }
  }

  /** Same canonical text exactly when the octets are the same numbers. */
  lemma SameCanonicalIffSameNumbers(a: seq<string>, b: seq<string>)
    requires DigitOctets(a) && DigitOctets(b)
    ensures Canonical(a) == Canonical(b) <==> forall i :: 0 <= i < 4 ==> DigitsValue(a[i]) == DigitsValue(b[i])
  {
    forall i | 0 <= i < 4
      ensures Canonical(a)[i] == Canonical(b)[i] <==> DigitsValue(a[i]) == DigitsValue(b[i])
    {
      CanonicalOctets(a, i);
      CanonicalOctets(b, i);
    }
  }

  /** Anything that is not four integers between dots before the first slash is left as it is. */
  lemma OtherTextsAreLeft(address: string, suffix: string)
    requires '/' !in address && (suffix == "" || suffix[0] == '/')
    requires |Split(address, '.')| != 4 || exists i :: 0 <= i < 4 && PyInt(Split(address, '.')[i]).None?
    ensures CanonicalizeV4Prefix(address + suffix) == address + suffix
  {
    SlashAfter(address, suffix);
    IntsNeedEveryPart(Split(address, '.'));
    hide Split, PyInt;
  }

  lemma {:induction false} IntsNeedEveryPart(parts: seq<string>)
    ensures Ints(parts).Some? ==> |Ints(parts).value| == |parts| && forall i :: 0 <= i < |parts| ==> PyInt(parts[i]).Some?
  {
    hide PyInt, StrInt;
    if parts != [] {
      IntsNeedEveryPart(parts[..|parts| - 1]);
    }
  }

  // ---------------------------------------------------------------- routes

  datatype Mapped = Mapped(key: Key, payload: Payload)

  function NonBlank(origins: seq<string>): (r: seq<string>)
    ensures forall i :: 0 <= i < |r| ==> r[i] != ""
  {
    if origins == [] then []
    else
      var init, last := NonBlank(origins[..|origins| - 1]), Strip(origins[|origins| - 1]);
      if last == "" then init else init + [last]
  }

  function RoutePrefix(obj: RpslObject): string {
    CanonicalizeV4Prefix(Strip(FirstOr(obj, "route", "")))
  }

  function RouteRow(obj: RpslObject, rir: string, prefix: string, origin: string): Mapped {
    Mapped([Text(rir), Text(prefix), Text(origin)],
           [TextOf(Values(obj, "descr")), TextOf(Values(obj, "org")), ListOf(Values(obj, "mnt-by")), TextOf(Values(obj, "source"))])
  }

  function TextOf(values: seq<string>): Value {
    if values == [] then Null else Text(values[0])
  }

  function ListOf(values: seq<string>): Value {
    if values == [] then Null else List(values)
  }

  function RouteRows(obj: RpslObject, rir: string, prefix: string, origins: seq<string>): (rows: seq<Mapped>)
    ensures |rows| == |origins| && forall i :: 0 <= i < |rows| ==> rows[i] == RouteRow(obj, rir, prefix, origins[i])
  {
    if origins == [] then []
    else RouteRows(obj, rir, prefix, origins[..|origins| - 1]) + [RouteRow(obj, rir, prefix, origins[|origins| - 1])]
  }

  lemma OneMoreOrigin(obj: RpslObject, rir: string, prefix: string, origins: seq<string>, i: nat)
    requires i < |origins|
    ensures var rows := RouteRows(obj, rir, prefix, NonBlank(origins[..i]));
            RouteRows(obj, rir, prefix, NonBlank(origins[..i + 1]))
            == if Strip(origins[i]) == "" then rows else rows + [RouteRow(obj, rir, prefix, Strip(origins[i]))]
  {
    hide Strip, RouteRow;
    assert origins[..i + 1][..i] == origins[..i];
    var kept := NonBlank(origins[..i]);
    assert (kept + [Strip(origins[i])])[..|kept|] == kept;
  }

  /** One row per origin that is not blank; none for a prefix that is no IPv4 network. */
  method ToRouteRows(lib: AddressLib, obj: RpslObject, rir: string) returns (rows: seq<Mapped>)
    ensures rows == if lib.isV4Network(RoutePrefix(obj))
                    then RouteRows(obj, rir, RoutePrefix(obj), NonBlank(Values(obj, "origin"))) else []
  {
    var prefix := CanonicalizeV4Prefix(Strip(FirstOr(obj, "route", "")));
    if !lib.isV4Network(prefix) {
      return [];
    }
    var origins := Values(obj, "origin");
    if origins == [] {
      return [];
    }
    rows := [];
    hide CanonicalizeV4Prefix, FirstOr, Values, Strip, RouteRow;
    for i := 0 to |origins|
      invariant rows == RouteRows(obj, rir, prefix, NonBlank(origins[..i]))
    {
      OneMoreOrigin(obj, rir, prefix, origins, i);
      var origin := Strip(origins[i]);
      if origin == "" {
        continue;
      }
      rows := rows + [RouteRow(obj, rir, prefix, origin)];
    }
    assert origins[..|origins|] == origins;
  }

  /** The rows, column by column: one per origin that is not blank, in the order of the origins. */
  lemma RouteRowsByColumn(obj: RpslObject, rir: string, prefix: string, origins: seq<string>, i: nat)
    requires i < |RouteRows(obj, rir, prefix, NonBlank(origins))|
    ensures var rows, descr, org, mntBy, source := RouteRows(obj, rir, prefix, NonBlank(origins)),
              Values(obj, "descr"), Values(obj, "org"), Values(obj, "mnt-by"), Values(obj, "source");
            && |rows| == |NonBlank(origins)|
            && rows[i].key == [Text(rir), Text(prefix), Text(NonBlank(origins)[i])]
            && rows[i].payload ==
                 [if descr == [] then Null else Text(descr[0]), if org == [] then Null else Text(org[0]),
                  if mntBy == [] then Null else List(mntBy), if source == [] then Null else Text(source[0])]
  {
    hide Values, NonBlank;
  }

  /** The origins that are kept: stripped, those that are blank left out, in order. */
  lemma {:induction false} NonBlankOrigins(a: seq<string>, b: seq<string>, origin: string)
    ensures NonBlank(a + b) == NonBlank(a) + NonBlank(b)
    ensures NonBlank([origin]) == if Strip(origin) == "" then [] else [Strip(origin)]
    decreases |b|
  {
    hide Strip;
    assert [origin][..0] == [];
    assert NonBlank([]) == [];
    if b == [] {
      assert a + b == a;
    } else {
      NonBlankOrigins(a, b[..|b| - 1], origin);
      assert (a + b)[..|a + b| - 1] == a + b[..|b| - 1];
    }
  }

  function Keys(rows: seq<Mapped>): seq<Key> {
    seq(|rows|, i requires 0 <= i < |rows| => rows[i].key)
  }

  /** Routes that differ only in the zero padding of their octets get the same keys. */
  lemma ZeroPaddingKeepsKeys(
    a: RpslObject, b: RpslObject, octetsA: seq<string>, octetsB: seq<string>, suffix: string, rir: string)
    requires DigitOctets(octetsA) && DigitOctets(octetsB) && Suffix(suffix)
    requires forall i :: 0 <= i < 4 ==> DigitsValue(octetsA[i]) == DigitsValue(octetsB[i])
    requires Strip(FirstOr(a, "route", "")) == Join(octetsA, '.') + suffix
    requires Strip(FirstOr(b, "route", "")) == Join(octetsB, '.') + suffix
    requires Values(a, "origin") == Values(b, "origin")
    ensures RoutePrefix(a) == RoutePrefix(b)
    ensures var origins := NonBlank(Values(a, "origin"));
            Keys(RouteRows(a, rir, RoutePrefix(a), origins)) == Keys(RouteRows(b, rir, RoutePrefix(b), origins))
  {
    hide CanonicalizeV4Prefix, Join, Strip, FirstOr, Values, NonBlank, Canonical, DigitsValue;
    CanonicalPrefix(octetsA, suffix);
    CanonicalPrefix(octetsB, suffix);
    SameCanonicalIffSameNumbers(octetsA, octetsB);
  }

  // ---------------------------------------------------------------- inet6num

  datatype Cidr = Cidr(start: nat, length: nat)

  /** `_parse_cidr_v6` */
  function ParseCidrV6(lib: AddressLib, s: string): Option<Cidr> {
    if '/' !in s then None
    else
      var parts := Split(Strip(s), '/');
      if |parts| != 2 || !Digits(parts[1]) || DigitsValue(parts[1]) > 128 || lib.v6(parts[0]).None? then None
      else
        var length := DigitsValue(parts[1]);
        Some(Cidr(CidrBlock(lib.v6(parts[0]).value, length).lower, length))
  }

  /** `_to_inet6num_row`: the range stored for the object. */
  function Inet6numRange(lib: AddressLib, obj: RpslObject): Option<Range> {
    var parsed := ParseCidrV6(lib, FirstOr(obj, "inet6num", ""));
    if parsed.None? || parsed.value.length > 128 then None
    else Some(Range(parsed.value.start, parsed.value.start + Pow2(128 - parsed.value.length)))
  }

  /** Every stored `inet6num` range is a CIDR block that contains the written address. */
  lemma Inet6numIsACidrBlock(lib: AddressLib, obj: RpslObject)
    requires SoundLib(lib) && Inet6numRange(lib, obj).Some?
    ensures var parts := Split(Strip(FirstOr(obj, "inet6num", "")), '/');
            && |parts| == 2 && Digits(parts[1]) && DigitsValue(parts[1]) <= 128 && lib.v6(parts[0]).Some?
            && IsBlock(Inet6numRange(lib, obj).value, 128 - DigitsValue(parts[1]))
            && Inet6numRange(lib, obj).value.Covers(lib.v6(parts[0]).value)
            && Inet6numRange(lib, obj).value.upper <= Pow2(128)
  {
    hide Pow2, Split, Strip, DigitsValue, FirstOr, Digits, IsBlock;
    var parts := Split(Strip(FirstOr(obj, "inet6num", "")), '/');
    BlockIsAlignedAndContains(lib.v6(parts[0]).value, DigitsValue(parts[1]));
  }

  /** One slash: accepted exactly when a length of decimal digits up to 128 follows an address that parses. */
  lemma Inet6numAcceptedIff(lib: AddressLib, obj: RpslObject, address: string, length: string)
    requires Values(obj, "inet6num") != [] && Strip(Values(obj, "inet6num")[0]) == address + "/" + length
    requires '/' !in address && '/' !in length
    ensures Inet6numRange(lib, obj).Some? <==>
              && lib.v6(address).Some? && length != "" && (forall c :: c in length ==> '0' <= c <= '9')
              && DigitsValue(length) <= 128
  {
    hide Strip, Split, DigitsValue, Values, Pow2;
    StripKeepsSlash(Values(obj, "inet6num")[0], address, length);
    SplitsInTwo(address, length);
    DigitsByMembers(length);
  }

  lemma DigitsByMembers(s: string)
    ensures Digits(s) <==> s != "" && forall c :: c in s ==> '0' <= c <= '9'
  {
    if forall c :: c in s ==> '0' <= c <= '9' {
      assert forall i :: 0 <= i < |s| ==> s[i] in s;
    }
  }

  lemma SplitsInTwo(a: string, b: string)
    requires '/' !in a && '/' !in b
    ensures Split(a + "/" + b, '/') == [a, b]
  {
    hide Split;
    SplitAtFirst(a, b, '/');
    SplitNowhere(b, '/');
  }

  lemma SplitsInMore(a: string, b: string, c: string)
    requires '/' !in a && '/' !in b
    ensures |Split(a + "/" + b + "/" + c, '/')| > 2
  {
    hide Split;
    SplitAtFirst(a, b + "/" + c, '/');
    SplitAtFirst(b, c, '/');
    assert a + "/" + b + "/" + c == a + "/" + (b + "/" + c);
  }

  lemma StripKeepsSlash(text: string, address: string, length: string)
    requires Strip(text) == address + "/" + length
    ensures '/' in text
  {
    var before, after := StripTakesOff(text);
    hide Strip;
    assert text[|before| + |address|] == '/';
  }

  /** No slash, or more than one: rejected. */
  lemma Inet6numNeedsOneSlash(lib: AddressLib, obj: RpslObject, a: string, b: string, c: string)
    requires Values(obj, "inet6num") == [] || '/' !in Values(obj, "inet6num")[0]
             || (Strip(Values(obj, "inet6num")[0]) == a + "/" + b + "/" + c && '/' !in a && '/' !in b)
    ensures Inet6numRange(lib, obj) == None
  {
    hide Strip, Split, DigitsValue, Values, Pow2;
    if Values(obj, "inet6num") != [] && '/' in Values(obj, "inet6num")[0] {
      SplitsInMore(a, b, c);
    }
  }

  /** Lookups over rows mapped from `inet6num` objects are longest-prefix matches. */
  lemma Inet6numLookupIsLongestPrefix(
    lib: AddressLib, objs: seq<RpslObject>, rows: seq<RangeRow>, ip: nat, includeStale: bool, other: RangeRow)
    requires SoundLib(lib) && |rows| == |objs|
    requires forall i :: 0 <= i < |rows| ==> Inet6numRange(lib, objs[i]) == Some(rows[i].range)
    requires other in rows && other.range.lower <= ip < other.range.upper && (includeStale || !other.stale)
    ensures var found := Lookup(rows, ip, includeStale);
            && found.Some? && found.value.range.lower <= ip < found.value.range.upper
            && (includeStale || !found.value.stale)
            && other.range.lower <= found.value.range.lower && found.value.range.upper <= other.range.upper
  {
    hide Inet6numRange, Lookup, Split, Strip, FirstOr, Digits, DigitsValue, Pow2;
    forall row | row in rows
      ensures IsCidr(row.range)
    {
      var i :| 0 <= i < |rows| && rows[i] == row;
      Inet6numIsACidrBlock(lib, objs[i]);
    }
    LookupIsLongestPrefixMatch(rows, ip, includeStale, other);
  }

  // ---------------------------------------------------------------- inetnum

  predicate StartsAt(s: string, sep: string, k: nat) {
    k <= |s| && sep <= s[k..]
  }

  /** The first place where `sep` starts, or the length. */
  function Find(s: string, sep: string): (i: nat)
    requires sep != ""
    ensures i <= |s| && (i < |s| ==> StartsAt(s, sep, i)) && forall k: nat :: k < i ==> !StartsAt(s, sep, k)
  {
    if s == "" || sep <= s then 0
    else
      var i := 1 + Find(s[1..], sep);
      assert forall k: nat :: 1 <= k <= |s| ==> StartsAt(s, sep, k) == StartsAt(s[1..], sep, k - 1) by {
        assert forall k: nat :: 1 <= k <= |s| ==> s[k..] == s[1..][k - 1..];
      }
      i
  }

  /** `_parse_inetnum_range` */
  function InetnumRange(lib: AddressLib, s: string): Option<Range> {
    var i := Find(s, " - ");
    if i == |s| then None
    else
      var start, end := lib.v4(Strip(s[..i])), lib.v4(Strip(s[i + 3..]));
      if start.None? || end.None? || end.value < start.value then None
      else Some(Range(start.value, end.value + 1))
  }

  /** A blank, a dash and a blank at this place. */
  predicate SeparatorAt(s: string, k: nat) {
    k + 3 <= |s| && s[k] == ' ' && s[k + 1] == '-' && s[k + 2] == ' '
  }

  lemma SeparatorStarts(s: string, k: nat)
    requires k <= |s|
    ensures StartsAt(s, " - ", k) <==> SeparatorAt(s, k)
  {
    assert s[k..] == s[k..] && forall j: nat :: k + j < |s| ==> s[k..][j] == s[k + j];
  }

  /** Without the separator a range is rejected. */
  lemma InetnumNeedsSeparator(lib: AddressLib, s: string)
    requires forall k: nat :: !SeparatorAt(s, k)
    ensures InetnumRange(lib, s) == None
  {
    SeparatorStarts(s, Find(s, " - "));
  }

  /** Accepted exactly when both ends parse in order; the range then covers precisely the written addresses. */
  lemma InetnumCoversWhatIsWritten(lib: AddressLib, left: string, right: string)
    requires forall k: nat :: k < |left| ==> !SeparatorAt(left + " - " + right, k)
    ensures var r := InetnumRange(lib, left + " - " + right);
            var start, end := lib.v4(Strip(left)), lib.v4(Strip(right));
            && (r.Some? <==> start.Some? && end.Some? && start.value <= end.value)
            && (r.Some? ==> forall ip: nat :: r.value.Covers(ip) <==> start.value <= ip <= end.value)
  {
    hide Strip;
    var s := left + " - " + right;
    assert s[|left|..] == " - " + right;
    assert StartsAt(s, " - ", |left|);
    forall k: nat | k < |left|
      ensures !StartsAt(s, " - ", k)
    {
      SeparatorStarts(s, k);
    }
    assert Find(s, " - ") == |left|;
    assert s[..|left|] == left && s[|left| + 3..] == right;
  }

  // ---------------------------------------------------------------- as-block

  const ASN_MAX: nat := 0xFFFF_FFFF

  /** `s[:2].upper() == "AS"`; the long s has the capital S as well. */
  predicate StartsWithAs(s: string) {
    |s| >= 2 && (s[0] == 'A' || s[0] == 'a') && (s[1] == 'S' || s[1] == 's' || s[1] == '\U{017F}')
  }

  /** `_parse_asn` */
  function ParseAsn(s: string): Option<nat> {
    var t := Strip(s);
    var n := PyInt(if StartsWithAs(t) then t[2..] else t);
    if n.Some? && 0 <= n.value <= ASN_MAX then Some(n.value) else None
  }

  datatype AsnBlock = AsnBlock(start: nat, end: nat, range: Range)

  /** The bounds and the range that `_to_as_block_row` stores for the object. */
  function AsBlockOf(obj: RpslObject): Option<AsnBlock> {
    var s := FirstOr(obj, "as-block", "");
    var i := Find(s, " - ");
    if i == |s| then None
    else
      var start, end := ParseAsn(s[..i]), ParseAsn(s[i + 3..]);
      if start.None? || end.None? || end.value < start.value then None
      else Some(AsnBlock(start.value, end.value, Range(start.value, end.value + 1)))
  }

  /** The ways to write an ASN: an optional `AS` in any case, between blanks. */
  predicate AsnPrefix(prefix: string) {
    prefix == "" || (|prefix| == 2 && prefix[0] in {'A', 'a'} && prefix[1] in {'S', 's', '\U{017F}'})
  }

  /** An integer literal, with any sign, zeros and underscores, after the prefix. */
  datatype AsnText = AsnText(before: string, prefix: string, gap: string, sign: string, body: string, after: string) {
    predicate WellFormed() {
      && AllSpace(before) && AsnPrefix(prefix) && AllSpace(gap) && (prefix == "" ==> gap == "")
      && Sign(sign) && IntBody(body) && AllSpace(after)
    }

    function Text(): string {
      before + (prefix + (gap + (sign + body))) + after
    }

    function Value(): int {
      SignedValue(sign, body)
    }
  }

  /** A stripped text, and what is left of it without the prefix. */
  predicate ReadsAs(core: string, literal: string) {
    && core != "" && !IsSpace(core[0]) && !IsSpace(core[|core| - 1])
    && (if StartsWithAs(core) then core[2..] else core) == literal
  }

  lemma NumberReadsAsItself(sign: string, body: string)
    requires Sign(sign) && IntBody(body)
    ensures ReadsAs(sign + body, sign + body)
  {
    LiteralEnds(sign, body);
    hide IntBody, Sign, IsSpace;
  }

  lemma PrefixComesOff(prefix: string, gap: string, number: string)
    requires |prefix| == 2 && StartsWithAs(prefix) && number != "" && !IsSpace(number[|number| - 1])
    ensures ReadsAs(prefix + (gap + number), gap + number)
  {
    EndsOfConcat(gap, number);
    EndsOfConcat(prefix, gap + number);
  }

  lemma {:induction false} AsnCore(prefix: string, gap: string, sign: string, body: string)
    requires AsnPrefix(prefix) && (prefix == "" ==> gap == "") && Sign(sign) && IntBody(body)
    ensures ReadsAs(prefix + (gap + (sign + body)), gap + (sign + body))
  {
    hide ReadsAs, IntBody, IsSpace;
    NumberReadsAsItself(sign, body);
    if prefix == "" {
      NothingAdded(sign + body);
    } else {
      LiteralEnds(sign, body);
      PrefixComesOff(prefix, gap, sign + body);
    }
  }

  lemma {:induction false} CoreStrips(before: string, core: string, after: string, literal: string)
    requires AllSpace(before) && ReadsAs(core, literal) && AllSpace(after)
    ensures Strip(before + core + after) == core
  {
    hide Strip, AllSpace;
    StripPadding(before, core, after);
  }

  lemma {:induction false} AsnStrips(t: AsnText)
    requires t.WellFormed()
    ensures Strip(t.Text()) == t.prefix + (t.gap + (t.sign + t.body))
  {
    hide Strip, AllSpace, StartsWithAs, AsnPrefix, IntBody, ReadsAs;
    AsnCore(t.prefix, t.gap, t.sign, t.body);
    CoreStrips(t.before, t.prefix + (t.gap + (t.sign + t.body)), t.after, t.gap + (t.sign + t.body));
  }

  lemma {:induction false} LiteralReads(gap: string, sign: string, body: string)
    requires AllSpace(gap) && Sign(sign) && IntBody(body)
    ensures PyInt(gap + (sign + body)) == Some(SignedValue(sign, body))
  {
    hide PyInt, SignedValue;
    NothingIsSpace();
    PyIntOfLiteral(gap, sign, body, "");
    NothingAdded(gap + (sign + body));
  }

  lemma NothingIsSpace()
    ensures AllSpace("")
  {
  }

  /** Every way to write an ASN reads as its number, and numbers outside 32 bits are refused. */
  lemma AsnReadsBack(t: AsnText)
    requires t.WellFormed()
    ensures ParseAsn(t.Text()) == if 0 <= t.Value() <= 4294967295 then Some(t.Value()) else None
  {
    hide Strip, PyInt, SignedValue, AllSpace, StartsWithAs, AsnPrefix, IntBody;
    AsnCore(t.prefix, t.gap, t.sign, t.body);
    AsnStrips(t);
    LiteralReads(t.gap, t.sign, t.body);
    hide AsnText.Text;
  }

  lemma AsnCoreSplits(core: string, prefix: string, gap: string, sign: string, body: string, rest: string)
    requires core == prefix + (gap + (sign + body) + rest)
    requires core != "" && !IsSpace(core[0]) && !IsSpace(core[|core| - 1])
    requires AllSpace(gap) && AllSpace(rest)
    ensures rest == "" && (prefix == "" ==> gap == "")
  {
    EndsOfConcat(prefix + (gap + (sign + body)), rest);
    EndsOfConcat(gap, sign + body + rest);
    assert core == (prefix + (gap + (sign + body))) + rest;
    assert prefix == "" ==> core == gap + (sign + body + rest);
  }

  lemma EndsOfConcat(a: string, b: string)
    ensures b != "" ==> (a + b)[|a + b| - 1] == b[|b| - 1]
    ensures a != "" ==> (a + b)[0] == a[0]
  {
  }

  /** And nothing else reads as an ASN. */
  lemma AsnTextsAreAll(s: string) returns (t: AsnText)
    requires ParseAsn(s).Some?
    ensures t.WellFormed() && t.Text() == s && Some(t.Value()) == ParseAsn(s)
  {
    hide Strip, PyInt, SignedValue, AllSpace, IntBody;
    var before, after := StripTakesOff(s);
    var core := Strip(s);
    var prefix := if StartsWithAs(core) then core[..2] else "";
    var literal := if StartsWithAs(core) then core[2..] else core;
    assert core == prefix + literal;
    assert AsnPrefix(prefix);
    hide StartsWithAs, AsnPrefix;
    var gap, sign, body, rest := PyIntReadsLiterals(literal);
    LiteralEnds(sign, body);
    AsnCoreSplits(core, prefix, gap, sign, body, rest);
    assert literal == gap + (sign + body);
    t := AsnText(before, prefix, gap, sign, body, after);
    AsnReadsBack(t);
  }

  /** A minus sign is followed by a digit, so the text does not look like a range. */
  lemma AsnDashes(t: AsnText, k: nat)
    requires t.WellFormed() && k < |t.Text()| && t.Text()[k] == '-'
    ensures k + 1 < |t.Text()| && t.Text()[k + 1] != ' '
  {
    var text, head := t.Text(), t.before + t.prefix + t.gap;
    assert text == head + t.sign + t.body + t.after;
    assert '-' !in t.before && '-' !in t.prefix && '-' !in t.gap && '-' !in t.body && '-' !in t.after;
    assert k == |head| && |t.sign| == 1;
    assert text[k + 1] == t.body[0];
  }

  lemma AsnIsNoRange(t: AsnText, right: string, k: nat)
    requires t.WellFormed() && k < |t.Text()|
    ensures !StartsAt(t.Text() + " - " + right, " - ", k)
  {
    var left, s := t.Text(), t.Text() + " - " + right;
    hide AsnText.Text, AsnText.WellFormed;
    assert s[|left|] == ' ';
    assert s[k..][1] == s[k + 1] && s[k..][2] == s[k + 2];
    if k + 1 < |left| && left[k + 1] == '-' {
      AsnDashes(t, k + 1);
      assert s[k + 2] == left[k + 2];
    }
  }

  /**
   * However its bounds are written, an `as-block` is accepted exactly when they are in order and
   * fit in 32 bits, and its range then covers precisely the ASNs between them.
   */
  lemma AsBlockCoversWhatIsWritten(obj: RpslObject, start: AsnText, end: AsnText)
    requires start.WellFormed() && end.WellFormed()
    requires FirstOr(obj, "as-block", "") == start.Text() + " - " + end.Text()
    ensures AsBlockOf(obj).Some? <==> 0 <= start.Value() <= end.Value() <= 4294967295
    ensures AsBlockOf(obj).Some? ==>
              && AsBlockOf(obj).value.start == start.Value() && AsBlockOf(obj).value.end == end.Value()
              && forall asn: nat :: AsBlockOf(obj).value.range.Covers(asn) <==> start.Value() <= asn <= end.Value()
  {
    var left, right := start.Text(), end.Text();
    hide ParseAsn, AsnText.Text, AsnText.WellFormed, AsnText.Value;
    var s := left + " - " + right;
    assert s[|left|..] == " - " + right;
    assert StartsAt(s, " - ", |left|);
    forall k: nat | k < |left|
      ensures !StartsAt(s, " - ", k)
    {
      AsnIsNoRange(start, right, k);
    }
    assert Find(s, " - ") == |left|;
    assert s[..|left|] == left && s[|left| + 3..] == right;
    AsnReadsBack(start);
    AsnReadsBack(end);
  }

  lemma SeparatorSplits(s: string, i: nat)
    requires i < |s| && StartsAt(s, " - ", i)
    ensures i + 3 <= |s| && s == s[..i] + " - " + s[i + 3..]
  {
    assert s[i..][..3] == " - ";
  }

  /** And every accepted text is of that form. */
  lemma AsBlockTextsAreAll(obj: RpslObject) returns (start: AsnText, end: AsnText)
    requires AsBlockOf(obj).Some?
    ensures start.WellFormed() && end.WellFormed()
    ensures FirstOr(obj, "as-block", "") == start.Text() + " - " + end.Text()
  {
    hide FirstOr, ParseAsn, AsnText.WellFormed, AsnText.Text;
    var s := FirstOr(obj, "as-block", "");
    var i := Find(s, " - ");
    SeparatorSplits(s, i);
    start := AsnTextsAreAll(s[..i]);
    end := AsnTextsAreAll(s[i + 3..]);
  }
}
