// The tracked files as Git lists them: one record for each, sorted here by path.
module IndexEntries {
  import opened Options
  import opened Utf8
  import opened TextOffsets
  import opened Lines
  import opened NulRecords
  import opened Decimals

  const BLANK: Byte := ' ' as int
  const TAB: Byte := '\t' as int
  const ZERO: Byte := '0' as int

  // The header and path bytes of a record.
  datatype Raw = Raw(mode: seq<Byte>, oid: seq<Byte>, stage: Byte, path: seq<Byte>)

  datatype Entry = Entry(mode: seq<Byte>, oid: seq<Byte>, path: Text)

  // Decodes and validates path bytes.
  type PathDecoder = seq<Byte> -> Option<Text>

  predicate IsHex(b: Byte) {
    IsDigit(b) || 'a' as int <= b <= 'f' as int
  }

  predicate IsOid(oid: seq<Byte>) {
    (|oid| == 40 || |oid| == 64) && forall k | 0 <= k < |oid| :: IsHex(oid[k])
  }

  predicate IsRaw(x: Raw) {
    && |x.mode| == 6 && IsDigits(x.mode) && IsOid(x.oid)
    && ZERO <= x.stage <= '3' as int && x.path != []
  }

  // The printer of one record.
  function PrintRaw(x: Raw): seq<Byte> {
    x.mode + [BLANK] + x.oid + [BLANK, x.stage, TAB] + x.path
  }

  function FirstTab(r: seq<Byte>): (t: nat)
    ensures t <= |r| && (t < |r| ==> r[t] == TAB) && TAB !in r[..t]
  {
    if r == [] || r[0] == TAB then 0 else FirstTab(r[1..]) + 1
  }

  // The header has a mode, an identity of one of two lengths and a stage.
  function ParseRecord(r: seq<Byte>): Option<Raw> {
    var tab := FirstTab(r);
    if tab == 0 || tab >= |r| - 1 then None
    else
      var header := r[..tab];
      var n := |header|;
      if n < 10 || !IsDigits(header[..6]) || header[6] != BLANK || header[n - 2] != BLANK
         || !(ZERO <= header[n - 1] <= '3' as int) || !IsOid(header[7..n - 2])
      then None
      else Some(Raw(header[..6], header[7..n - 2], header[n - 1], r[tab + 1..]))
  }

  lemma ParseRecordInvertsPrint(r: seq<Byte>, x: Raw)
    ensures ParseRecord(r) == Some(x) <==> IsRaw(x) && PrintRaw(x) == r
  {
    if ParseRecord(r) == Some(x) {
      ParsedPrintsBack(r, x);
    }
    if IsRaw(x) && PrintRaw(x) == r {
      PrintedParses(x);
    }
  }

  lemma ParsedPrintsBack(r: seq<Byte>, x: Raw)
    requires ParseRecord(r) == Some(x)
    ensures IsRaw(x) && PrintRaw(x) == r
  {
    hide FirstTab, IsOid, IsDigits;
    var tab := FirstTab(r);
    var header := r[..tab];
    var n := |header|;
    assert header == header[..6] + [header[6]] + header[7..n - 2] + [header[n - 2], header[n - 1]];
    assert r == header + [TAB] + r[tab + 1..];
  }

  lemma PrintedParses(x: Raw)
    requires IsRaw(x)
    ensures ParseRecord(PrintRaw(x)) == Some(x)
  {
    hide IsOid, IsDigits, FirstTab;
    var header := x.mode + [BLANK] + x.oid + [BLANK, x.stage];
    NoTabInHeader(x);
    FirstTabAfter(header, x.path);
    assert PrintRaw(x) == header + [TAB] + x.path;
    assert PrintRaw(x)[..|header|] == header && PrintRaw(x)[|header| + 1..] == x.path;
    var n := |header|;
    assert |x.oid| == 40 || |x.oid| == 64 by { OidLength(x.oid); }
    assert header[..6] == x.mode && header[7..n - 2] == x.oid && header[n - 2] == BLANK && header[n - 1] == x.stage;
  }

  lemma OidLength(oid: seq<Byte>)
    requires IsOid(oid)
    ensures |oid| == 40 || |oid| == 64
  {
  }

  lemma NoTabInHeader(x: Raw)
    requires IsRaw(x)
    ensures TAB !in x.mode + [BLANK] + x.oid + [BLANK, x.stage]
  {
    assert TAB !in x.mode && TAB !in x.oid;
  }

  lemma {:induction false} FirstTabAfter(header: seq<Byte>, rest: seq<Byte>)
    requires TAB !in header
    ensures FirstTab(header + [TAB] + rest) == |header|
  {
    if header != [] {
      FirstTabAfter(header[1..], rest);
      assert (header + [TAB] + rest)[1..] == header[1..] + [TAB] + rest;
    }
  }

  // ----- which records are accepted

  predicate IsZeroOid(oid: seq<Byte>) {
    forall k | 0 <= k < |oid| :: oid[k] == ZERO
  }

  const MODES: set<seq<Byte>> := {
    ['1' as int, '0' as int, '0' as int, '6' as int, '4' as int, '4' as int],
    ['1' as int, '0' as int, '0' as int, '7' as int, '5' as int, '5' as int]
  }

  predicate Trackable(x: Raw, decode: PathDecoder) {
    x.stage == ZERO && !IsZeroOid(x.oid) && x.mode in MODES && decode(x.path).Some?
  }

  predicate RecordOk(r: seq<Byte>, decode: PathDecoder) {
    ParseRecord(r).Some? && Trackable(ParseRecord(r).value, decode)
  }

  function EntryOf(r: seq<Byte>, decode: PathDecoder): Entry
    requires RecordOk(r, decode)
  {
    var x := ParseRecord(r).value;
    Entry(x.mode, x.oid, decode(x.path).value)
  }

  // A nonempty list of records for stage-zero files with different paths.
  ghost predicate Acceptable(rs: seq<seq<Byte>>, decode: PathDecoder) {
    rs != [] && PrefixOk(rs, decode)
  }

  ghost predicate PrefixOk(rs: seq<seq<Byte>>, decode: PathDecoder) {
    && (forall k | 0 <= k < |rs| :: RecordOk(rs[k], decode))
    && forall j, k | 0 <= j < k < |rs| :: EntryOf(rs[j], decode).path != EntryOf(rs[k], decode).path
  }

  // The same entries, strictly sorted by path.
  ghost predicate SortedListing(rs: seq<seq<Byte>>, decode: PathDecoder, entries: seq<Entry>)
    requires PrefixOk(rs, decode)
  {
    && |entries| == |rs| && StrictlySorted(entries)
    && forall e :: e in entries <==> exists k | 0 <= k < |rs| :: e == EntryOf(rs[k], decode)
  }

  // ----- sorting

  // The order of JavaScript strings.
  predicate Less(a: Text, b: Text) {
    b != [] && (a == [] || a[0] < b[0] || (a[0] == b[0] && Less(a[1..], b[1..])))
  }

  ghost predicate StrictlySorted(es: seq<Entry>) {
    forall j, k | 0 <= j < k < |es| :: Less(es[j].path, es[k].path)
  }

  lemma {:induction false} LessIsTransitive(a: Text, b: Text, c: Text)
    requires Less(a, b) && Less(b, c)
    ensures Less(a, c)
  {
    if a != [] && a[0] == b[0] == c[0] {
      LessIsTransitive(a[1..], b[1..], c[1..]);
    }
  }

  lemma {:induction false} LessIsTotal(a: Text, b: Text)
    ensures a != b ==> Less(a, b) || Less(b, a)
    ensures !(Less(a, b) && Less(b, a)) && (Less(a, b) ==> a != b)
  {
    if a != [] && b != [] && a[0] == b[0] {
      LessIsTotal(a[1..], b[1..]);
      assert a == [a[0]] + a[1..] && b == [b[0]] + b[1..];
    }
  }

  function InsertEntry(e: Entry, es: seq<Entry>): seq<Entry> {
    if es == [] || Less(e.path, es[0].path) then [e] + es else [es[0]] + InsertEntry(e, es[1..])
  }

  // The library sort.
  function SortByPath(es: seq<Entry>): seq<Entry> {
    if es == [] then [] else InsertEntry(es[|es| - 1], SortByPath(es[..|es| - 1]))
  }

  lemma {:induction false} InsertKeeps(e: Entry, es: seq<Entry>)
    ensures |InsertEntry(e, es)| == |es| + 1
    ensures forall x :: x in InsertEntry(e, es) <==> x == e || x in es
  {
    if es != [] && !Less(e.path, es[0].path) {
      InsertKeeps(e, es[1..]);
      assert es == [es[0]] + es[1..];
    }
  }

  lemma {:induction false} InsertSorts(e: Entry, es: seq<Entry>)
    requires StrictlySorted(es) && forall x | x in es :: x.path != e.path
    ensures StrictlySorted(InsertEntry(e, es))
  {
    if es != [] && Less(e.path, es[0].path) {
      forall k | 0 < k < |es| ensures Less(e.path, es[k].path) {
        LessIsTransitive(e.path, es[0].path, es[k].path);
      }
    } else if es != [] {
      InsertSorts(e, es[1..]);
      InsertKeeps(e, es[1..]);
      LessIsTotal(e.path, es[0].path);
      var rest := InsertEntry(e, es[1..]);
      forall k | 0 <= k < |rest| ensures Less(es[0].path, rest[k].path) {
        assert rest[k] in rest;
      }
    }
  }

  lemma {:induction false} SortKeeps(es: seq<Entry>)
    ensures |SortByPath(es)| == |es| && forall x :: x in SortByPath(es) <==> x in es
  {
    if es != [] {
      var front, last := es[..|es| - 1], es[|es| - 1];
      SortKeeps(front);
      InsertKeeps(last, SortByPath(front));
      assert es == front + [last];
    }
  }

  lemma {:induction false} SortSorts(es: seq<Entry>)
    requires forall j, k | 0 <= j < k < |es| :: es[j].path != es[k].path
    ensures StrictlySorted(SortByPath(es))
  {
    if es != [] {
      var front, last := es[..|es| - 1], es[|es| - 1];
      SortSorts(front);
      SortKeeps(front);
      hide StrictlySorted;
      forall x | x in SortByPath(front) ensures x.path != last.path {
        var k :| 0 <= k < |front| && front[k] == x;
        assert es[k] == x && es[|es| - 1] == last;
      }
      InsertSorts(last, SortByPath(front));
    }
  }

  // A strictly sorted list is determined by its members.
  lemma {:induction false} SortedIsDetermined(a: seq<Entry>, b: seq<Entry>)
    requires StrictlySorted(a) && StrictlySorted(b) && forall x :: x in a <==> x in b
    ensures a == b
  {
    if b != [] {
      assert b[0] in b;
    }
    if a != [] {
      assert a[0] in a;
      SameHead(a, b);
      RestMembers(a, b);
      SortedIsDetermined(a[1..], b[1..]);
      assert a == [a[0]] + a[1..] && b == [b[0]] + b[1..];
    }
  }

  lemma SameHead(a: seq<Entry>, b: seq<Entry>)
    requires StrictlySorted(a) && StrictlySorted(b) && a != [] && b != [] && a[0] in b && b[0] in a
    ensures a[0] == b[0]
  {
    LessIsTotal(a[0].path, b[0].path);
  }

  lemma RestMembers(a: seq<Entry>, b: seq<Entry>)
    requires StrictlySorted(a) && StrictlySorted(b) && a != [] && b != [] && a[0] == b[0]
    requires forall x :: x in a <==> x in b
    ensures forall x :: x in a[1..] <==> x in b[1..]
  {
    forall x ensures x in a[1..] <==> x in a && x != a[0] {
      HeadIsAlone(a, x);
    }
    forall x ensures x in b[1..] <==> x in b && x != b[0] {
      HeadIsAlone(b, x);
    }
  }

  lemma HeadIsAlone(a: seq<Entry>, x: Entry)
    requires StrictlySorted(a) && a != []
    ensures x in a[1..] <==> x in a && x != a[0]
  {
    assert a == [a[0]] + a[1..];
    if x in a[1..] {
      var k :| 0 <= k < |a[1..]| && a[1..][k] == x;
      assert Less(a[0].path, a[k + 1].path);
      LessIsTotal(a[0].path, x.path);
    }
  }

  // ----- the parser

  function Entries(rs: seq<seq<Byte>>, decode: PathDecoder): (es: seq<Entry>)
    requires forall k | 0 <= k < |rs| :: RecordOk(rs[k], decode)
    ensures |es| == |rs| && forall k | 0 <= k < |rs| :: es[k] == EntryOf(rs[k], decode)
  {
    if rs == [] then [] else Entries(rs[..|rs| - 1], decode) + [EntryOf(rs[|rs| - 1], decode)]
  }

  // The records decide: the listing is refused, or returned sorted.
  ghost predicate Outcome(rs: seq<seq<Byte>>, decode: PathDecoder, result: Option<seq<Entry>>) {
    match result
    case None => !Acceptable(rs, decode)
    case Some(entries) => Acceptable(rs, decode) && SortedListing(rs, decode, entries)
  }

  // What the parser answers: accepted bytes are printed records, and these decide.
  ghost predicate ParsesTo(bytes: seq<Byte>, decode: PathDecoder, result: Option<seq<Entry>>) {
    && (forall rs | AllRecords(rs) && Print(rs) == bytes :: Outcome(rs, decode, result))
    && (result.Some? ==> exists rs :: AllRecords(rs) && Print(rs) == bytes)
  }

  method ParseIndexEntries(bytes: seq<Byte>, decode: PathDecoder) returns (result: Option<seq<Entry>>)
    ensures ParsesTo(bytes, decode, result)
  {
    hide AllRecords, Print, PrefixOk, RecordOk, EntryOf, SortedListing;
    var parsed := ParseNulRecords(bytes, true);
    if parsed.None? {
      return None;
    }
    var records := parsed.value;
    if |records| == 0 {
      return None;
    }
    var entries: seq<Entry> := [];
    var paths: set<Text> := {};
    NothingRejected(decode);
    for n := 0 to |records|
      invariant PrefixOk(records[..n], decode)
      invariant Gathered(records[..n], decode, entries, paths)
    {
      var r := records[n];
      assert records[..n + 1] == records[..n] + [r];
      if !RecordOk(r, decode) || EntryOf(r, decode).path in paths {
        NotAcceptable(records, n, decode, entries, paths);
        return None;
      }
      OneMoreEntry(records[..n], r, decode, entries, paths);
      paths := paths + {EntryOf(r, decode).path};
      entries := entries + [EntryOf(r, decode)];
    }
    assert records[..|records|] == records;
    ListingSorted(records, decode, entries, paths);
    result := Some(SortByPath(entries));
  }

  ghost predicate Gathered(rs: seq<seq<Byte>>, decode: PathDecoder, entries: seq<Entry>, paths: set<Text>) {
    && PrefixOk(rs, decode) && entries == Entries(rs, decode)
    && forall p :: p in paths <==> exists k | 0 <= k < |rs| :: EntryOf(rs[k], decode).path == p
  }

  lemma NothingRejected(decode: PathDecoder)
    ensures PrefixOk([], decode) && Gathered([], decode, [], {})
  {
  }

  lemma NotAcceptable(records: seq<seq<Byte>>, n: nat, decode: PathDecoder, entries: seq<Entry>, paths: set<Text>)
    requires n < |records| && Gathered(records[..n], decode, entries, paths)
    requires !RecordOk(records[n], decode) || EntryOf(records[n], decode).path in paths
    ensures !Acceptable(records, decode)
  {
    hide RecordOk, EntryOf;
    if RecordOk(records[n], decode) {
      var k :| 0 <= k < n && EntryOf(records[..n][k], decode).path == EntryOf(records[n], decode).path;
      assert records[..n][k] == records[k];
    }
  }

  lemma OneMoreEntry(rs: seq<seq<Byte>>, r: seq<Byte>, decode: PathDecoder, entries: seq<Entry>, paths: set<Text>)
    requires Gathered(rs, decode, entries, paths) && RecordOk(r, decode) && EntryOf(r, decode).path !in paths
    ensures Gathered(rs + [r], decode, entries + [EntryOf(r, decode)], paths + {EntryOf(r, decode).path})
  {
    hide RecordOk, EntryOf;
    var now := rs + [r];
    assert now[..|now| - 1] == rs;
    forall p
      ensures p in paths + {EntryOf(r, decode).path} <==> exists k | 0 <= k < |now| :: EntryOf(now[k], decode).path == p
    {
      if p == EntryOf(r, decode).path {
        assert EntryOf(now[|rs|], decode).path == p;
      }
      if p in paths {
        var k :| 0 <= k < |rs| && EntryOf(rs[k], decode).path == p;
        assert EntryOf(now[k], decode).path == p;
      }
    }
  }

  lemma ListingSorted(rs: seq<seq<Byte>>, decode: PathDecoder, entries: seq<Entry>, paths: set<Text>)
    requires Gathered(rs, decode, entries, paths)
    ensures SortedListing(rs, decode, SortByPath(entries))
  {
    hide RecordOk, EntryOf;
    SortKeeps(entries);
    SortSorts(entries);
  }

  // Stage-zero entries with different paths.
  ghost predicate Listable(xs: seq<Raw>, decode: PathDecoder) {
    && xs != []
    && (forall k | 0 <= k < |xs| :: IsRaw(xs[k]) && 0 !in xs[k].path && Trackable(xs[k], decode))
    && forall j, k | 0 <= j < k < |xs| :: decode(xs[j].path) != decode(xs[k].path)
  }

  function PrintAll(xs: seq<Raw>): (rs: seq<seq<Byte>>)
    ensures |rs| == |xs| && forall k | 0 <= k < |xs| :: rs[k] == PrintRaw(xs[k])
  {
    seq(|xs|, k requires 0 <= k < |xs| => PrintRaw(xs[k]))
  }

  function Decoded(x: Raw, decode: PathDecoder): Option<Entry> {
    match decode(x.path)
    case None => None
    case Some(path) => Some(Entry(x.mode, x.oid, path))
  }

  // What such entries print is accepted, and read back as exactly those entries, sorted
  // by path whatever their order was.
  lemma PrintedListingIsRead(xs: seq<Raw>, decode: PathDecoder, result: Option<seq<Entry>>)
    requires Listable(xs, decode) && ParsesTo(Print(PrintAll(xs)), decode, result)
    ensures result.Some? && |result.value| == |xs| && StrictlySorted(result.value)
    ensures forall e :: e in result.value <==> exists k | 0 <= k < |xs| :: Decoded(xs[k], decode) == Some(e)
  {
    var rs := PrintAll(xs);
    PrintedAreRecords(xs, decode, rs);
    hide IsRaw, PrintRaw, Trackable, RecordOk, EntryOf, Decoded, AllRecords, Print, Listable, StrictlySorted;
    assert Outcome(rs, decode, result);
    forall e ensures e in result.value <==> exists k | 0 <= k < |xs| :: Decoded(xs[k], decode) == Some(e) {
      if e in result.value {
        var k :| 0 <= k < |rs| && e == EntryOf(rs[k], decode);
        assert Decoded(xs[k], decode) == Some(e);
      }
      if k :| 0 <= k < |xs| && Decoded(xs[k], decode) == Some(e) {
        assert e == EntryOf(rs[k], decode);
      }
    }
  }

  lemma PrintedAreRecords(xs: seq<Raw>, decode: PathDecoder, rs: seq<seq<Byte>>)
    requires Listable(xs, decode) && rs == PrintAll(xs)
    ensures AllRecords(rs) && Acceptable(rs, decode)
    ensures forall k | 0 <= k < |xs| ::
              RecordOk(rs[k], decode) && Decoded(xs[k], decode) == Some(EntryOf(rs[k], decode))
  {
    hide IsRaw, PrintRaw, ParseRecord, IsRecord;
    forall k | 0 <= k < |xs| ensures IsRecord(rs[k]) {
      PrintedIsRecord(xs[k]);
    }
    forall k | 0 <= k < |xs| ensures RecordOk(rs[k], decode) && ParseRecord(rs[k]) == Some(xs[k]) {
      ParseRecordInvertsPrint(rs[k], xs[k]);
    }
  }

  lemma PrintedIsRecord(x: Raw)
    requires IsRaw(x) && 0 !in x.path
    ensures IsRecord(PrintRaw(x))
  {
    assert 0 !in x.mode && 0 !in x.oid;
  }
}
