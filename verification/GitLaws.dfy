// The formats of Git once more, byte by byte: what a listing of tracked files is, in which
// order it is returned, and what the answers about blobs are; and that these are the
// formats of `IndexEntries` and `BatchCheck`.
module GitLaws {
  import opened Options
  import opened Utf8
  import opened TextOffsets
  import opened Lines
  import opened NulRecords
  import opened Decimals
  import opened IndexEntries
  import BatchCheck

  // ----- one record

  // 100644 or 100755, 40 or 64 hexadecimal digits that are not all zero, and a path.
  datatype File = File(mode: seq<Byte>, oid: seq<Byte>, path: seq<Byte>)

  predicate FileOk(f: File, decode: PathDecoder) {
    && (f.mode == [49, 48, 48, 54, 52, 52] || f.mode == [49, 48, 48, 55, 53, 53])
    && (|f.oid| == 40 || |f.oid| == 64)
    && (forall k | 0 <= k < |f.oid| :: 48 <= f.oid[k] <= 57 || 97 <= f.oid[k] <= 102)
    && (exists k :: 0 <= k < |f.oid| && f.oid[k] != 48)
    && f.path != [] && decode(f.path).Some?
  }

  // The mode, a space, the identity, a space, a zero digit, a tab, the path.
  function FileRecord(f: File): seq<Byte> {
    f.mode + [32] + f.oid + [32, 48, 9] + f.path
  }

  function RawOf(f: File): Raw {
    Raw(f.mode, f.oid, 48, f.path)
  }

  lemma ModesAgree(mode: seq<Byte>)
    ensures mode in MODES <==> mode == [49, 48, 48, 54, 52, 52] || mode == [49, 48, 48, 55, 53, 53]
  {
  }

  lemma FileIsTrackable(f: File, decode: PathDecoder)
    ensures FileOk(f, decode) <==> IsRaw(RawOf(f)) && Trackable(RawOf(f), decode)
  {
    ModesAgree(f.mode);
    assert IsDigits([49, 48, 48, 54, 52, 52]) && IsDigits([49, 48, 48, 55, 53, 53]);
    hide MODES;
  }

  lemma RecordIsPrinted(f: File)
    ensures FileRecord(f) == PrintRaw(RawOf(f))
  {
  }

  // A record is accepted exactly if it is the record of some file with a readable path, and
  // read as that file.
  lemma RecordIsFile(r: seq<Byte>, decode: PathDecoder)
    ensures RecordOk(r, decode) <==> exists f :: FileOk(f, decode) && FileRecord(f) == r
    ensures forall f | FileOk(f, decode) && FileRecord(f) == r ::
              RecordOk(r, decode) && EntryOf(r, decode) == Entry(f.mode, f.oid, decode(f.path).value)
  {
    hide FileOk, FileRecord, PrintRaw, IsRaw, ParseRecord;
    if RecordOk(r, decode) {
      var x := ParseRecord(r).value;
      ParseRecordInvertsPrint(r, x);
      var f := File(x.mode, x.oid, x.path);
      assert RawOf(f) == x;
      FileIsTrackable(f, decode);
      RecordIsPrinted(f);
    }
    forall f | FileOk(f, decode) && FileRecord(f) == r
      ensures RecordOk(r, decode) && decode(f.path).Some?
      ensures EntryOf(r, decode) == Entry(f.mode, f.oid, decode(f.path).value)
    {
      FileDecodes(f, decode);
      FileIsTrackable(f, decode);
      RecordIsPrinted(f);
      ParseRecordInvertsPrint(r, RawOf(f));
    }
  }

  // ----- the order

  // Before the first difference, if there is one, or the shorter of the two.
  ghost predicate Precedes(a: Text, b: Text) {
    exists n: nat :: FirstDifference(a, b, n)
  }

  predicate FirstDifference(a: Text, b: Text, n: nat) {
    && n <= |a| && n < |b| && a[..n] == b[..n]
    && (n == |a| || a[n] < b[n])
  }

  lemma {:induction false} LessIsPrecedes(a: Text, b: Text)
    ensures Less(a, b) <==> Precedes(a, b)
  {
    if a == [] || b == [] || a[0] != b[0] {
      assert b != [] ==> (FirstDifference(a, b, 0) <==> a == [] || a[0] < b[0]);
      forall n: nat | FirstDifference(a, b, n) ensures n == 0 {
        if n > 0 {
          SameStart(a, b, n);
        }
      }
    } else {
      LessIsPrecedes(a[1..], b[1..]);
      if n: nat :| FirstDifference(a[1..], b[1..], n) {
        var m := n + 1;
        assert a[..m] == [a[0]] + a[1..][..n] && b[..m] == [b[0]] + b[1..][..n];
        assert FirstDifference(a, b, m);
      }
      if m: nat :| FirstDifference(a, b, m) {
        assert m > 0;
        assert a[1..][..m - 1] == a[..m][1..] && b[1..][..m - 1] == b[..m][1..];
        assert FirstDifference(a[1..], b[1..], m - 1);
      }
    }
  }

  lemma SameStart(a: Text, b: Text, n: nat)
    requires FirstDifference(a, b, n) && n > 0
    ensures a != [] && b != [] && a[0] == b[0]
  {
    assert a[..n][0] == a[0] && b[..n][0] == b[0];
  }

  // ----- the listing

  // Each record ends in a zero byte.
  function Listing(files: seq<File>): seq<Byte> {
    if files == [] then [] else FileRecord(files[0]) + [0] + Listing(files[1..])
  }

  // Files with paths without zero bytes that are read as different paths.
  ghost predicate FilesOk(files: seq<File>, decode: PathDecoder) {
    && (forall k | 0 <= k < |files| :: FileOk(files[k], decode) && 0 !in files[k].path)
    && forall j, k | 0 <= j < k < |files| :: decode(files[j].path) != decode(files[k].path)
  }

  function Records(files: seq<File>): (rs: seq<seq<Byte>>)
    ensures |rs| == |files| && forall k | 0 <= k < |rs| :: rs[k] == FileRecord(files[k])
  {
    seq(|files|, k requires 0 <= k < |files| => FileRecord(files[k]))
  }

  lemma {:induction false} ListingIsPrint(files: seq<File>)
    ensures Listing(files) == Print(Records(files))
  {
    hide FileRecord;
    if files != [] {
      ListingIsPrint(files[1..]);
      assert Records(files)[1..] == Records(files[1..]);
    }
  }

  lemma NoZeroInRecord(f: File, decode: PathDecoder)
    requires FileOk(f, decode)
    ensures IsRecord(FileRecord(f)) <==> 0 !in f.path
  {
    assert 0 !in f.mode && 0 !in f.oid;
    assert |FileRecord(f)| > 0;
    if 0 in f.path {
      var k :| 0 <= k < |f.path| && f.path[k] == 0;
      assert FileRecord(f)[|f.mode| + |f.oid| + 4 + k] == 0;
    }
  }

  lemma RecordsAcceptable(files: seq<File>, decode: PathDecoder)
    requires files != [] && FilesOk(files, decode)
    ensures AllRecords(Records(files)) && Acceptable(Records(files), decode)
    ensures forall k | 0 <= k < |files| ::
              && RecordOk(Records(files)[k], decode)
              && EntryOf(Records(files)[k], decode)
                 == Entry(files[k].mode, files[k].oid, decode(files[k].path).value)
  {
    var rs := Records(files);
    hide FileRecord, RecordOk, EntryOf, IsRecord;
    forall k | 0 <= k < |files|
      ensures IsRecord(rs[k]) && RecordOk(rs[k], decode)
      ensures EntryOf(rs[k], decode) == Entry(files[k].mode, files[k].oid, decode(files[k].path).value)
    {
      NoZeroInRecord(files[k], decode);
      RecordIsFile(rs[k], decode);
    }
    hide FileOk;
  }

  lemma {:induction false} AcceptableIsFiles(rs: seq<seq<Byte>>, decode: PathDecoder) returns (files: seq<File>)
    requires AllRecords(rs) && forall k | 0 <= k < |rs| :: RecordOk(rs[k], decode)
    ensures |files| == |rs| && Records(files) == rs
    ensures forall k | 0 <= k < |files| :: FileOk(files[k], decode) && 0 !in files[k].path
    ensures forall k | 0 <= k < |files| :: decode(files[k].path) == Some(EntryOf(rs[k], decode).path)
  {
    hide FileRecord, RecordOk, EntryOf, FileOk, IsRecord;
    if rs == [] {
      files := [];
    } else {
      var n := |rs| - 1;
      files := AcceptableIsFiles(rs[..n], decode);
      RecordIsFile(rs[n], decode);
      var f :| FileOk(f, decode) && FileRecord(f) == rs[n];
      NoZeroInRecord(f, decode);
      assert IsRecord(rs[n]);
      FileDecodes(f, decode);
      var longer := files + [f];
      assert Records(longer) == Records(files) + [rs[n]] == rs;
      files := longer;
    }
  }

  lemma FileDecodes(f: File, decode: PathDecoder)
    requires FileOk(f, decode)
    ensures decode(f.path).Some?
  {
  }

  ghost predicate ReturnsFiles(files: seq<File>, decode: PathDecoder, entries: seq<Entry>) {
    && |entries| == |files|
    && (forall e :: e in entries <==> exists k: nat :: EntryIs(files, decode, k, e))
    && forall j, k | 0 <= j < k < |entries| :: Precedes(entries[j].path, entries[k].path)
  }

  predicate EntryIs(files: seq<File>, decode: PathDecoder, k: nat, e: Entry) {
    k < |files| && e.mode == files[k].mode && e.oid == files[k].oid && decode(files[k].path) == Some(e.path)
  }

  // The listings that are read are exactly those of files with different paths; they are
  // returned in the order of the paths.
  lemma ListingIsRead(bytes: seq<Byte>, decode: PathDecoder, result: Option<seq<Entry>>)
    requires ParsesTo(bytes, decode, result)
    ensures result.Some? <==> exists files :: files != [] && FilesOk(files, decode) && Listing(files) == bytes
    ensures forall files | files != [] && FilesOk(files, decode) && Listing(files) == bytes ::
              result.Some? && ReturnsFiles(files, decode, result.value)
  {
    forall files | files != [] && FilesOk(files, decode) && Listing(files) == bytes
      ensures result.Some? && ReturnsFiles(files, decode, result.value)
    {
      ListedIsReturned(files, bytes, decode, result);
    }
    hide FilesOk, ReturnsFiles, Listing, Acceptable, SortedListing;
    if result.Some? {
      var rs :| AllRecords(rs) && Print(rs) == bytes;
      assert Outcome(rs, decode, result);
      var files := ReadIsListed(rs, decode);
    }
  }

  lemma ReadIsListed(rs: seq<seq<Byte>>, decode: PathDecoder) returns (files: seq<File>)
    requires AllRecords(rs) && Acceptable(rs, decode)
    ensures files != [] && FilesOk(files, decode) && Listing(files) == Print(rs)
  {
    hide RecordOk, EntryOf, FileOk, IsRecord, FileRecord;
    files := AcceptableIsFiles(rs, decode);
    ListingIsPrint(files);
    forall j, k | 0 <= j < k < |files| ensures decode(files[j].path) != decode(files[k].path) {
      assert EntryOf(rs[j], decode).path != EntryOf(rs[k], decode).path;
      FileDecodes(files[j], decode);
    }
  }

  lemma ListedIsReturned(files: seq<File>, bytes: seq<Byte>, decode: PathDecoder, result: Option<seq<Entry>>)
    requires ParsesTo(bytes, decode, result) && files != [] && FilesOk(files, decode) && Listing(files) == bytes
    ensures result.Some? && ReturnsFiles(files, decode, result.value)
  {
    var rs := Records(files);
    ListingIsPrint(files);
    RecordsAcceptable(files, decode);
    FilesDecode(files, decode);
    hide FileRecord, RecordOk, EntryOf, FilesOk, IsRecord, Print, Listing, AllRecords, PrefixOk, Precedes;
    hide StrictlySorted;
    assert Outcome(rs, decode, result);
    SortedPrecede(result.value);
    RecordsAreEntries(files, rs, decode, result.value);
  }

  lemma FilesDecode(files: seq<File>, decode: PathDecoder)
    requires FilesOk(files, decode)
    ensures forall k | 0 <= k < |files| :: decode(files[k].path).Some?
  {
  }

  lemma SortedPrecede(entries: seq<Entry>)
    requires StrictlySorted(entries)
    ensures forall j, k | 0 <= j < k < |entries| :: Precedes(entries[j].path, entries[k].path)
  {
    forall j, k | 0 <= j < k < |entries| ensures Precedes(entries[j].path, entries[k].path) {
      LessIsPrecedes(entries[j].path, entries[k].path);
    }
  }

  lemma RecordsAreEntries(files: seq<File>, rs: seq<seq<Byte>>, decode: PathDecoder, entries: seq<Entry>)
    requires |rs| == |files| && forall k | 0 <= k < |files| ::
               && decode(files[k].path).Some? && RecordOk(rs[k], decode)
               && EntryOf(rs[k], decode) == Entry(files[k].mode, files[k].oid, decode(files[k].path).value)
    requires forall e :: e in entries <==> exists k | 0 <= k < |rs| :: e == EntryOf(rs[k], decode)
    ensures forall e :: e in entries <==> exists k: nat :: EntryIs(files, decode, k, e)
  {
    hide RecordOk, EntryOf;
    forall e ensures e in entries <==> exists k: nat :: EntryIs(files, decode, k, e) {
      if e in entries {
        var k :| 0 <= k < |rs| && e == EntryOf(rs[k], decode);
        assert EntryIs(files, decode, k, e);
      }
      if k: nat :| EntryIs(files, decode, k, e) {
        assert e == EntryOf(rs[k], decode);
      }
    }
  }

  // ----- blobs

  // The identity, the word blob between spaces, the size in digits.
  function SizeLine(oid: seq<Byte>, size: nat): seq<Byte> {
    oid + [32, 98, 108, 111, 98, 32] + Dec(size)
  }

  function SizeLines(oids: seq<seq<Byte>>, sizes: seq<nat>): seq<Byte>
    requires |sizes| == |oids|
  {
    if oids == [] then [] else SizeLine(oids[0], sizes[0]) + [10] + SizeLines(oids[1..], sizes[1..])
  }

  lemma {:induction false} CheckIsLines(oids: seq<seq<Byte>>, sizes: seq<nat>)
    requires |sizes| == |oids|
    ensures BatchCheck.PrintCheck(oids, sizes) == SizeLines(oids, sizes)
  {
    if oids != [] {
      CheckIsLines(oids[1..], sizes[1..]);
    }
  }

  // An answer of sizes is one line for each identity, with numbers below 2^53.
  lemma AnswersAreLines(bytes: seq<Byte>, oids: seq<seq<Byte>>, sizes: seq<nat>)
    ensures BatchCheck.Answers(bytes, oids, sizes)
      <==> |sizes| == |oids| && (forall k | 0 <= k < |sizes| :: sizes[k] <= 9007199254740991)
           && SizeLines(oids, sizes) == bytes
  {
    if |sizes| == |oids| {
      CheckIsLines(oids, sizes);
    }
  }

  lemma BodyIsFramed(oid: seq<Byte>, body: seq<Byte>)
    ensures BatchCheck.PrintBody(oid, body) == SizeLine(oid, |body|) + [10] + body + [10]
  {
  }

  // Each line takes its identity, 6 bytes, at most 16 digits and a line feed.
  function Room(oids: seq<seq<Byte>>): nat {
    if oids == [] then 0 else Room(oids[..|oids| - 1]) + |oids[|oids| - 1]| + 23
  }

  lemma {:induction false} LongestIsRoom(oids: seq<seq<Byte>>)
    ensures BatchCheck.LongestAnswer(oids) == Room(oids)
  {
    if oids != [] {
      LongestIsRoom(oids[..|oids| - 1]);
      SafeIntegersAreShort(MAX_SAFE_INTEGER);
    }
  }

  // Digit by digit: a number prints its quotient by ten, if that is not zero, and then the
  // code of its last digit.
  lemma DigitsByTen(n: nat, d: nat)
    requires d <= 9
    ensures Dec(d) == [48 + d] && (n > 0 ==> Dec(10 * n + d) == Dec(n) + [48 + d])
  {
  }

  // Sums are refused above 2^53 - 1 and above the longest buffer.
  lemma SumsAreChecked(total: nat, amount: nat, maxLength: nat)
    ensures BatchCheck.CheckedBatchBytes(total, amount, maxLength)
      == if total + amount <= 9007199254740991 && total + amount <= maxLength then Some(total + amount) else None
  {
  }
}
