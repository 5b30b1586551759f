// The text gate over all tracked files, from their bytes to its findings.
module RepositoryScan {
  import opened Options
  import opened Utf8
  import opened TextOffsets
  import opened TextDecoder
  import opened Mojibake
  import opened TextScan
  import opened MojibakeExceptions

  datatype File = File(path: string, bytes: seq<Byte>)

  // The finding for a signature that no exception covers.
  datatype Txt006 = Txt006(path: string, found: Found, byteOffset: nat, codePointOffset: nat)

  predicate DistinctPaths(files: seq<File>) {
    forall a, b | 0 <= a < b < |files| :: files[a].path != files[b].path
  }

  predicate Scanned(files: seq<File>, binary: set<string>, j: nat) {
    j < |files| && files[j].path !in binary && TextOf(files[j].bytes).Some?
  }

  // The decoded text in UTF-16 units.
  function TextUnits(bytes: seq<Byte>): seq<Unit>
    requires TextOf(bytes).Some?
  {
    Units(TextOf(bytes).value)
  }

  // The list of occurrences of every file, empty where the file is not scanned.
  ghost predicate OccurrencesOf(files: seq<File>, binary: set<string>, hash: seq<Unit> -> nat, occ: seq<seq<Found>>) {
    && |occ| <= |files|
    && forall j: nat | j < |occ| ::
         if Scanned(files, binary, j) then Exhaustive(TextUnits(files[j].bytes), hash, occ[j]) else occ[j] == []
  }

  function Total(occ: seq<seq<Found>>): nat {
    if occ == [] then 0 else Total(occ[..|occ| - 1]) + |occ[|occ| - 1]|
  }

  ghost predicate UsedBy(files: seq<File>, excs: seq<Exc>, occ: seq<seq<Found>>, i: nat, j: nat)
    requires |occ| <= |files| && i < |excs|
  {
    j < |occ| && files[j].path == excs[i].path && CoversSome(excs[i], occ[j])
  }

  ghost predicate UsedSomewhere(files: seq<File>, excs: seq<Exc>, occ: seq<seq<Found>>, i: nat)
    requires |occ| <= |files| && i < |excs|
  {
    exists j: nat :: UsedBy(files, excs, occ, i, j)
  }

  // Some exception that takes part covers the occurrence.
  ghost predicate Excused(excs: seq<Exc>, selected: set<string>, binary: set<string>, path: string, f: Found) {
    exists i: nat :: TakesPart(excs, selected, binary, i) && excs[i].path == path && Covers(excs[i], f)
  }

  // The finding has the offsets of its occurrence: the size of what precedes it in the
  // file, and the characters before it.
  predicate OffsetsIn(file: File, u: Txt006) {
    && TextOf(file.bytes).Some? && u.found.index <= |TextUnits(file.bytes)|
    && u.byteOffset == ByteBase(file.bytes) + Utf8Length(TextUnits(file.bytes)[..u.found.index])
    && u.codePointOffset == CharCount(TextUnits(file.bytes)[..u.found.index])
  }

  predicate FoundIn(files: seq<File>, occ: seq<seq<Found>>, u: Txt006, j: nat) {
    |occ| <= |files| && j < |occ| && files[j].path == u.path && u.found in occ[j] && OffsetsIn(files[j], u)
  }

  // Where the account stands after the files of `occ`.
  ghost predicate Balanced(files: seq<File>, excs: seq<Exc>, selected: set<string>, binary: set<string>,
                           occ: seq<seq<Found>>, txt006: seq<Txt006>, used: set<nat>)
    requires |occ| <= |files|
  {
    && |txt006| + |used| == Total(occ)
    && (forall i: nat :: i in used
                         <==> TakesPart(excs, selected, binary, i) && UsedSomewhere(files, excs, occ, i))
    && forall u :: u in txt006
                   <==> !Excused(excs, selected, binary, u.path, u.found) && exists j: nat :: FoundIn(files, occ, u, j)
  }

  ghost predicate Explained(files: seq<File>, excs: seq<Exc>, selected: set<string>, binary: set<string>,
                            occ: seq<seq<Found>>, failures: map<nat, Reason>)
    requires |occ| <= |files|
  {
    forall i: nat, j: nat
      | TakesPart(excs, selected, binary, i) && j < |occ| && files[j].path == excs[i].path
        && !CoversSome(excs[i], occ[j]) ::
      (if i in failures then failures[i] else NoMatchingFinding) == WhyUnused(excs[i], occ[j])
  }

  // The findings of one file: every occurrence that is not suppressed, each once.
  ghost predicate Unsuppressed(file: File, found: seq<Found>, suppressed: set<nat>, txt006: seq<Txt006>) {
    && |txt006| + |suppressed| == |found|
    && forall u :: u in txt006 <==> u.path == file.path && OffsetsIn(file, u) && NotIn(found, suppressed, u.found)
  }

  predicate NotIn(found: seq<Found>, suppressed: set<nat>, f: Found) {
    exists k: nat | k < |found| :: k !in suppressed && found[k] == f
  }

  method ReportUnsuppressed(file: File, found: seq<Found>, located: seq<Occurrence>, suppressed: set<nat>)
    returns (txt006: seq<Txt006>)
    requires TextOf(file.bytes).Some? && |located| == |found|
    requires forall k | 0 <= k < |found| :: Locates(TextUnits(file.bytes), ByteBase(file.bytes), found[k], located[k])
    requires forall k | k in suppressed :: k < |found|
    ensures Unsuppressed(file, found, suppressed, txt006)
  {
    hide TextUnits, Utf8Length, CharCount, OffsetsIn, Locates;
    txt006 := [];
    ghost var seen: set<nat> := {};
    assert found[..|found|] == found;
    for k := 0 to |found|
      invariant seen == set j: nat | j < k && j in suppressed
      invariant |txt006| + |seen| == k
      invariant forall u :: u in txt006
                  <==> u.path == file.path && OffsetsIn(file, u) && NotIn(found[..k], suppressed, u.found)
    {
      var u := Txt006(file.path, found[k], located[k].byteOffset, located[k].codePointOffset);
      OffsetsAreLocated(file, found[k], located[k]);
      NotInOneMore(found, suppressed, k);
      if k in suppressed {
        seen := seen + {k};
      } else {
        txt006 := txt006 + [u];
      }
    }
    assert seen == suppressed;
  }

  lemma NotInOneMore(found: seq<Found>, suppressed: set<nat>, k: nat)
    requires k < |found|
    ensures forall f :: NotIn(found[..k + 1], suppressed, f)
                        <==> NotIn(found[..k], suppressed, f) || (k !in suppressed && f == found[k])
  {
    forall f
      ensures NotIn(found[..k + 1], suppressed, f)
              <==> NotIn(found[..k], suppressed, f) || (k !in suppressed && f == found[k])
    {
      if NotIn(found[..k], suppressed, f) {
        var j: nat :| j < k && j !in suppressed && found[..k][j] == f;
        assert found[..k + 1][j] == f;
      }
      if k !in suppressed && f == found[k] {
        assert found[..k + 1][k] == f;
      }
      if NotIn(found[..k + 1], suppressed, f) {
        var j: nat :| j < k + 1 && j !in suppressed && found[..k + 1][j] == f;
        assert j < k ==> found[..k][j] == f;
      }
    }
  }

  // The offsets a resolved occurrence has are those of the finding, and no others are.
  lemma OffsetsAreLocated(file: File, f: Found, o: Occurrence)
    requires TextOf(file.bytes).Some? && Locates(TextUnits(file.bytes), ByteBase(file.bytes), f, o)
    ensures forall u: Txt006 | u.found == f ::
              OffsetsIn(file, u) <==> u.byteOffset == o.byteOffset && u.codePointOffset == o.codePointOffset
  {
    hide Utf8Length, CharCount, TextUnits;
  }

  // The account of one file, in terms of the policy instead of the file's list.
  ghost predicate FileAccount(excs: seq<Exc>, selected: set<string>, binary: set<string>, path: string,
                              found: seq<Found>, suppressed: set<nat>, used: set<nat>, failures: map<nat, Reason>)
  {
    && |suppressed| == |used|
    && (forall k: nat :: k in suppressed <==> k < |found| && Excused(excs, selected, binary, path, found[k]))
    && (forall i: nat :: i in used
          <==> TakesPart(excs, selected, binary, i) && excs[i].path == path && CoversSome(excs[i], found))
    && (forall i: nat | TakesPart(excs, selected, binary, i) && excs[i].path == path && !CoversSome(excs[i], found) ::
          i in failures && failures[i] == WhyUnused(excs[i], found))
    && forall i | i in failures :: TakesPart(excs, selected, binary, i) && excs[i].path == path
  }

  lemma AccountOfFile(list: seq<Indexed>, excs: seq<Exc>, selected: set<string>, binary: set<string>, path: string,
                      found: seq<Found>, suppressed: set<nat>, used: set<nat>, failures: map<nat, Reason>)
    requires Serves(list, excs, selected, binary, path) && Accounted(list, found, suppressed, used, failures)
    ensures FileAccount(excs, selected, binary, path, found, suppressed, used, failures)
  {
    hide Covers, CoversSome, WhyUnused, HasTwin, TargetOk, Separate;
    forall k: nat ensures k in suppressed <==> k < |found| && Excused(excs, selected, binary, path, found[k]) {
      if k < |found| && Excused(excs, selected, binary, path, found[k]) {
        var i: nat :| TakesPart(excs, selected, binary, i) && excs[i].path == path && Covers(excs[i], found[k]);
        assert Indexed(excs[i], i) in list;
      }
      if k in suppressed {
        var x :| x in list && Covers(x.exc, found[k]);
        assert x == Indexed(excs[x.index], x.index);
      }
    }
    forall i: nat
      ensures i in used <==> TakesPart(excs, selected, binary, i) && excs[i].path == path && CoversSome(excs[i], found)
    {
      if i in used {
        var x :| x in list && x.index == i && CoversSome(x.exc, found);
        assert x == Indexed(excs[i], i);
      }
      if TakesPart(excs, selected, binary, i) && excs[i].path == path && CoversSome(excs[i], found) {
        assert Indexed(excs[i], i) in list;
      }
    }
    forall i | i in failures ensures TakesPart(excs, selected, binary, i) && excs[i].path == path {
      var x :| x in list && x.index == i;
      assert x == Indexed(excs[i], i);
    }
    forall i: nat | TakesPart(excs, selected, binary, i) && excs[i].path == path && !CoversSome(excs[i], found)
      ensures i in failures && failures[i] == WhyUnused(excs[i], found)
    {
      assert Indexed(excs[i], i) in list;
    }
  }

  lemma BalanceFile(files: seq<File>, excs: seq<Exc>, selected: set<string>, binary: set<string>,
                    occ: seq<seq<Found>>, txt006: seq<Txt006>, used: set<nat>,
                    found: seq<Found>, suppressed: set<nat>, more: seq<Txt006>, moreUsed: set<nat>,
                    moreFailures: map<nat, Reason>)
    requires |occ| < |files| && DistinctPaths(files)
    requires Balanced(files, excs, selected, binary, occ, txt006, used)
    requires FileAccount(excs, selected, binary, files[|occ|].path, found, suppressed, moreUsed, moreFailures)
    requires Unsuppressed(files[|occ|], found, suppressed, more)
    ensures Balanced(files, excs, selected, binary, occ + [found], txt006 + more, used + moreUsed)
  {
    hide Covers, CoversSome, WhyUnused, HasTwin, TargetOk, Excused, OffsetsIn, Unsuppressed, FileAccount, TakesPart;
    var n, now := |occ|, occ + [found];
    assert now[..n] == occ;
    AccountSizes(excs, selected, binary, files[n].path, found, suppressed, moreUsed, moreFailures, files[n], more);
    BalanceUsed(files, excs, selected, binary, occ, txt006, used, found, suppressed, moreUsed, moreFailures);
    DisjointUnion(used, moreUsed);
    forall u
      ensures u in txt006 + more
              <==> !Excused(excs, selected, binary, u.path, u.found) && exists j: nat :: FoundIn(files, now, u, j)
    {
      FoundInOneMore(files, occ, found, u);
      ReportedHere(files[n], excs, selected, binary, found, suppressed, more, moreUsed, moreFailures, u);
    }
  }

  lemma AccountSizes(excs: seq<Exc>, selected: set<string>, binary: set<string>, path: string, found: seq<Found>,
                     suppressed: set<nat>, used: set<nat>, failures: map<nat, Reason>, file: File, more: seq<Txt006>)
    requires FileAccount(excs, selected, binary, path, found, suppressed, used, failures)
    requires Unsuppressed(file, found, suppressed, more)
    ensures |more| + |used| == |found|
  {
  }

  // Which exceptions are used with one more file; none of them was used before.
  lemma BalanceUsed(files: seq<File>, excs: seq<Exc>, selected: set<string>, binary: set<string>,
                    occ: seq<seq<Found>>, txt006: seq<Txt006>, used: set<nat>,
                    found: seq<Found>, suppressed: set<nat>, moreUsed: set<nat>, moreFailures: map<nat, Reason>)
    requires |occ| < |files| && DistinctPaths(files)
    requires Balanced(files, excs, selected, binary, occ, txt006, used)
    requires FileAccount(excs, selected, binary, files[|occ|].path, found, suppressed, moreUsed, moreFailures)
    ensures used !! moreUsed
    ensures forall i: nat :: i in used + moreUsed
                             <==> TakesPart(excs, selected, binary, i) && UsedSomewhere(files, excs, occ + [found], i)
  {
    hide Covers, CoversSome, WhyUnused, HasTwin, TargetOk, Excused, OffsetsIn, FoundIn;
    var n, now := |occ|, occ + [found];
    assert now[..n] == occ;
    forall i | i in used ensures i !in moreUsed {
      var j: nat :| UsedBy(files, excs, occ, i, j);
    }
    forall i: nat
      ensures i in used + moreUsed <==> TakesPart(excs, selected, binary, i) && UsedSomewhere(files, excs, now, i)
    {
      if i in used {
        var j: nat :| UsedBy(files, excs, occ, i, j);
        assert UsedBy(files, excs, now, i, j);
      }
      if i in moreUsed {
        assert UsedBy(files, excs, now, i, n);
      }
      if TakesPart(excs, selected, binary, i) && UsedSomewhere(files, excs, now, i) {
        var j: nat :| UsedBy(files, excs, now, i, j);
        assert j < n ==> UsedBy(files, excs, occ, i, j);
      }
    }
  }

  // The findings of a file are its occurrences that nothing excuses.
  lemma ReportedHere(file: File, excs: seq<Exc>, selected: set<string>, binary: set<string>, found: seq<Found>,
                     suppressed: set<nat>, more: seq<Txt006>, used: set<nat>, failures: map<nat, Reason>, u: Txt006)
    requires FileAccount(excs, selected, binary, file.path, found, suppressed, used, failures)
    requires Unsuppressed(file, found, suppressed, more)
    ensures u in more <==> && u.path == file.path && u.found in found && OffsetsIn(file, u)
                           && !Excused(excs, selected, binary, u.path, u.found)
  {
    hide CoversSome, WhyUnused, TakesPart, Excused, OffsetsIn;
    if u in more {
      var k: nat :| k < |found| && k !in suppressed && found[k] == u.found;
    }
    if u.path == file.path && u.found in found && !Excused(excs, selected, binary, u.path, u.found) {
      var k: nat :| k < |found| && found[k] == u.found;
      assert k !in suppressed;
    }
  }

  lemma DisjointUnion(a: set<nat>, b: set<nat>)
    requires a !! b
    ensures |a + b| == |a| + |b|
  {
  }

  lemma FoundInOneMore(files: seq<File>, occ: seq<seq<Found>>, found: seq<Found>, u: Txt006)
    requires |occ| < |files|
    ensures (exists j: nat :: FoundIn(files, occ + [found], u, j))
            <==> (exists j: nat :: FoundIn(files, occ, u, j))
                 || (files[|occ|].path == u.path && u.found in found && OffsetsIn(files[|occ|], u))
  {
    hide OffsetsIn;
    var n, now := |occ|, occ + [found];
    if j: nat :| FoundIn(files, occ, u, j) {
      assert FoundIn(files, now, u, j);
    }
    if files[n].path == u.path && u.found in found && OffsetsIn(files[n], u) {
      assert FoundIn(files, now, u, n);
    }
    if j: nat :| FoundIn(files, now, u, j) {
      assert j < n ==> FoundIn(files, occ, u, j);
    }
  }

  // Failures are recorded for exceptions of files already seen only.
  ghost predicate FailuresSeen(files: seq<File>, excs: seq<Exc>, n: nat, failures: map<nat, Reason>)
    requires n <= |files|
  {
    forall i | i in failures :: i < |excs| && exists j: nat | j < n :: files[j].path == excs[i].path
  }

  lemma ExplainFile(files: seq<File>, excs: seq<Exc>, selected: set<string>, binary: set<string>,
                    occ: seq<seq<Found>>, failures: map<nat, Reason>,
                    found: seq<Found>, suppressed: set<nat>, moreUsed: set<nat>, more: map<nat, Reason>)
    requires |occ| < |files| && DistinctPaths(files)
    requires Explained(files, excs, selected, binary, occ, failures) && FailuresSeen(files, excs, |occ|, failures)
    requires FileAccount(excs, selected, binary, files[|occ|].path, found, suppressed, moreUsed, more)
    ensures Explained(files, excs, selected, binary, occ + [found], failures + more)
    ensures FailuresSeen(files, excs, |occ| + 1, failures + more)
  {
    hide Covers, CoversSome, WhyUnused, HasTwin, TargetOk, Excused;
    var n, now := |occ|, occ + [found];
    assert now[..n] == occ;
  }

  lemma ExplainSkipped(files: seq<File>, excs: seq<Exc>, selected: set<string>, binary: set<string>,
                       occ: seq<seq<Found>>, failures: map<nat, Reason>)
    requires |occ| < |files| && DistinctPaths(files)
    requires Explained(files, excs, selected, binary, occ, failures) && FailuresSeen(files, excs, |occ|, failures)
    ensures Explained(files, excs, selected, binary, occ + [[]], failures)
    ensures FailuresSeen(files, excs, |occ| + 1, failures)
  {
    hide Covers, HasTwin, TargetOk, Excused;
    var n, now := |occ|, occ + [[]];
    assert now[..n] == occ && now[n] == [];
  }

  lemma BalanceSkipped(files: seq<File>, excs: seq<Exc>, selected: set<string>, binary: set<string>,
                       occ: seq<seq<Found>>, txt006: seq<Txt006>, used: set<nat>)
    requires |occ| < |files|
    requires Balanced(files, excs, selected, binary, occ, txt006, used)
    ensures Balanced(files, excs, selected, binary, occ + [[]], txt006, used)
  {
    hide Covers, HasTwin, TargetOk, Excused;
    var n, now := |occ|, occ + [[]];
    assert now[..n] == occ && now[n] == [];
    forall u
      ensures u in txt006
              <==> !Excused(excs, selected, binary, u.path, u.found) && exists j: nat :: FoundIn(files, now, u, j)
    {
      FoundInOneMore(files, occ, [], u);
    }
    forall i: nat
      ensures i in used <==> TakesPart(excs, selected, binary, i) && UsedSomewhere(files, excs, now, i)
    {
      if TakesPart(excs, selected, binary, i) {
        if j: nat :| UsedBy(files, excs, now, i, j) {
          assert UsedBy(files, excs, occ, i, j);
        }
        if j: nat :| UsedBy(files, excs, occ, i, j) {
          assert UsedBy(files, excs, now, i, j);
        }
      }
    }
  }

  // ----- findings about one file alone

  datatype Place = Place(byteOffset: nat, codePointOffset: nat)

  // What TXT001 to TXT005 say of a file: where it is undecodable, whether it starts with a
  // mark, its flagged characters, and where a final line feed is missing.
  datatype FileReport = FileReport(
    path: string,
    invalid: Option<Place>,
    mark: bool,
    characters: seq<CharFinding>,
    noFinalLf: Option<Place>)

  ghost predicate Describes(file: File, r: FileReport) {
    && r.path == file.path && r.mark == HasBom(file.bytes)
    && match TextOf(file.bytes)
       case None =>
         && r.invalid.Some? && InvalidAt(file.bytes, r.invalid.value.byteOffset, r.invalid.value.codePointOffset)
         && r.characters == [] && r.noFinalLf == MissingLf(file.bytes, 0)
       case Some(cs) =>
         && r.invalid.None? && r.characters == Expected(cs, ByteBase(file.bytes))
         && r.noFinalLf == MissingLf(file.bytes, |cs|)
  }

  // A nonempty file must end in a line feed; otherwise the finding is at its end.
  function MissingLf(bytes: seq<Byte>, count: nat): Option<Place> {
    if bytes != [] && bytes[|bytes| - 1] != LF then Some(Place(|bytes|, count)) else None
  }

  method DescribeFile(file: File) returns (r: FileReport)
    ensures Describes(file, r)
  {
    hide TextOf, InvalidAt, WellFormed, Units, Expected, HasBom;
    TextIsDecoded(file.bytes);
    match TextOf(file.bytes) {
      case None =>
        var byteOffset, codePointOffset := InvalidUtf8Finding(file.bytes);
        r := FileReport(file.path, Some(Place(byteOffset, codePointOffset)), HasBom(file.bytes), [],
                        MissingLf(file.bytes, 0));
      case Some(cs) =>
        var characters := ScanCharacters(Units(cs), ByteBase(file.bytes), cs);
        r := FileReport(file.path, None, HasBom(file.bytes), characters, MissingLf(file.bytes, |cs|));
    }
  }

  // The files that are not declared binary, in order.
  function TextFiles(files: seq<File>, binary: set<string>): seq<File> {
    if files == [] then []
    else
      TextFiles(files[..|files| - 1], binary)
      + if files[|files| - 1].path in binary then [] else [files[|files| - 1]]
  }

  lemma TextFilesNext(files: seq<File>, binary: set<string>, n: nat)
    requires n < |files|
    ensures TextFiles(files[..n + 1], binary)
            == if files[n].path in binary then TextFiles(files[..n], binary)
               else TextFiles(files[..n], binary) + [files[n]]
  {
    assert files[..n + 1][..n] == files[..n];
  }

  // Exactly one report for each of them.
  ghost predicate EachDescribed(files: seq<File>, reports: seq<FileReport>) {
    |reports| == |files| && forall k | 0 <= k < |files| :: Describes(files[k], reports[k])
  }

  lemma OneMoreDescribed(files: seq<File>, reports: seq<FileReport>, file: File, r: FileReport)
    requires EachDescribed(files, reports) && Describes(file, r)
    ensures EachDescribed(files + [file], reports + [r])
  {
    hide Describes;
  }

  // The occurrences of one decoded file, against the exceptions for it.
  method ScanFile(file: File, list: seq<Indexed>, hash: seq<Unit> -> nat,
                  ghost excs: seq<Exc>, ghost selected: set<string>, ghost binary: set<string>)
    returns (txt006: seq<Txt006>, used: set<nat>, failures: map<nat, Reason>,
             ghost found: seq<Found>, ghost suppressed: set<nat>)
    requires TextOf(file.bytes).Some? && Serves(list, excs, selected, binary, file.path)
    ensures Exhaustive(TextUnits(file.bytes), hash, found)
    ensures FileAccount(excs, selected, binary, file.path, found, suppressed, used, failures)
    ensures Unsuppressed(file, found, suppressed, txt006)
  {
    hide FileAccount, Serves, Exhaustive, Accounted, Separate, KeysAreUnique, Unsuppressed, Locates, ByteBase, TextOf,
         TextUnits;
    ListIsSeparate(list, excs, selected, binary, file.path);
    var occurrences, located := LocateOccurrences(TextUnits(file.bytes), ByteBase(file.bytes), hash);
    ExhaustiveKeysAreUnique(TextUnits(file.bytes), hash, occurrences);
    var covered;
    covered, used, failures := ApplyExceptions(list, occurrences);
    AccountOfFile(list, excs, selected, binary, file.path, occurrences, covered, used, failures);
    SuppressedAreFound(excs, selected, binary, file.path, occurrences, covered, used, failures);
    txt006 := ReportUnsuppressed(file, occurrences, located, covered);
    found, suppressed := occurrences, covered;
  }

  // The text gate over all files. Its lists are one sorted list in the end.
  method ScanRepository(files: seq<File>, binary: set<string>, excs: seq<Exc>, hash: seq<Unit> -> nat)
    returns (reports: seq<FileReport>, txt006: seq<Txt006>, txt007: seq<PolicyFinding>,
             ghost occ: seq<seq<Found>>, ghost used: set<nat>)
    requires DistinctPaths(files)
    ensures |occ| == |files| && OccurrencesOf(files, binary, hash, occ)
    ensures Balanced(files, excs, Paths(files), binary, occ, txt006, used)
    ensures PolicyReported(files, excs, binary, occ, used, txt007)
    ensures EachDescribed(TextFiles(files, binary), reports)
  {
    hide Balanced, Explained, FailuresSeen, FileAccount, Serves, Exhaustive, TakesPart, ListFor, EachDescribed,
         Describes, Unsuppressed, TextOf, TextUnits, TextFiles, Faulty, NoRepeats, PolicyReported, DistinctPaths;
    var selected := Paths(files);
    var policy, byPath, valid := PrepareGlobalExceptions(excs, selected, binary);
    var failures: map<nat, Reason> := map[];
    var usedNow: set<nat> := {};
    reports, txt006, occ := [], [], [];
    assert files[..|files|] == files;
    NothingScanned(files, excs, selected, binary);
    for n := 0 to |files|
      invariant |occ| == n && OccurrencesOf(files, binary, hash, occ)
      invariant Balanced(files, excs, selected, binary, occ, txt006, usedNow)
      invariant Explained(files, excs, selected, binary, occ, failures) && FailuresSeen(files, excs, n, failures)
      invariant EachDescribed(TextFiles(files[..n], binary), reports)
    {
      var file := files[n];
      TextFilesNext(files, binary, n);
      if file.path !in binary {
        var report := DescribeFile(file);
        OneMoreDescribed(TextFiles(files[..n], binary), reports, file, report);
        reports := reports + [report];
      }
      if file.path in binary || TextOf(file.bytes).None? {
        ExplainSkipped(files, excs, selected, binary, occ, failures);
        BalanceSkipped(files, excs, selected, binary, occ, txt006, usedNow);
        occ := occ + [[]];
        continue;
      }
      var more, u, f, found, suppressed := ScanFile(file, ListFor(byPath, file.path), hash, excs, selected, binary);
      BalanceFile(files, excs, selected, binary, occ, txt006, usedNow, found, suppressed, more, u, f);
      ExplainFile(files, excs, selected, binary, occ, failures, found, suppressed, u, f);
      txt006, usedNow, failures, occ := txt006 + more, usedNow + u, failures + f, occ + [found];
    }
    var unused := ReportUnused(valid, usedNow, failures);
    PolicyIsReported(files, excs, binary, occ, txt006, usedNow, failures, policy, valid, unused);
    txt007, used := policy + unused, usedNow;
  }

  function Paths(files: seq<File>): set<string> {
    set f | f in files :: f.path
  }

  lemma NothingScanned(files: seq<File>, excs: seq<Exc>, selected: set<string>, binary: set<string>)
    ensures Balanced(files, excs, selected, binary, [], [], {}) && Explained(files, excs, selected, binary, [], map[])
    ensures FailuresSeen(files, excs, 0, map[]) && EachDescribed(TextFiles([], binary), [])
  {
  }

  lemma ListIsSeparate(list: seq<Indexed>, excs: seq<Exc>, selected: set<string>, binary: set<string>, path: string)
    requires Serves(list, excs, selected, binary, path)
    ensures Separate(list)
  {
  }

  lemma SuppressedAreFound(excs: seq<Exc>, selected: set<string>, binary: set<string>, path: string, found: seq<Found>,
                           suppressed: set<nat>, used: set<nat>, failures: map<nat, Reason>)
    requires FileAccount(excs, selected, binary, path, found, suppressed, used, failures)
    ensures forall k | k in suppressed :: k < |found|
  {
  }

  function UnusedFinding(i: nat, failures: map<nat, Reason>): PolicyFinding {
    PolicyFinding(i, if i in failures then failures[i] else NoMatchingFinding)
  }

  predicate IsUnused(x: Indexed, used: set<nat>, failures: map<nat, Reason>, f: PolicyFinding) {
    x.index !in used && f == UnusedFinding(x.index, failures)
  }

  // Every exception that takes part and is unused is reported, with the reason that
  // its failed application left behind.
  method ReportUnused(valid: seq<Indexed>, used: set<nat>, failures: map<nat, Reason>)
    returns (unused: seq<PolicyFinding>)
    requires forall a, b | 0 <= a < b < |valid| :: valid[a].index < valid[b].index
    ensures NoRepeats(unused)
    ensures forall f :: f in unused
                        <==> exists x | x in valid :: IsUnused(x, used, failures, f)
  {
    unused := [];
    for n := 0 to |valid|
      invariant NoRepeats(unused)
      invariant forall f, m | f in unused && n <= m < |valid| :: f.index < valid[m].index
      invariant forall f :: f in unused <==> exists m | 0 <= m < n :: IsUnused(valid[m], used, failures, f)
    {
      if valid[n].index !in used {
        unused := unused + [UnusedFinding(valid[n].index, failures)];
      }
    }
  }

  // The exception takes part, is unused, and its file gives this reason for it.
  ghost predicate UnusedFor(files: seq<File>, excs: seq<Exc>, binary: set<string>, occ: seq<seq<Found>>, used: set<nat>,
                            f: PolicyFinding, j: nat)
  {
    && TakesPart(excs, Paths(files), binary, f.index) && f.index !in used
    && j < |files| && j < |occ| && files[j].path == excs[f.index].path
    && f.reason == WhyUnused(excs[f.index], occ[j])
  }

  // The policy findings are exactly the faults of the policy and the unused exceptions,
  // these with the reason that the occurrences of their file give; none is repeated.
  ghost predicate PolicyReported(files: seq<File>, excs: seq<Exc>, binary: set<string>, occ: seq<seq<Found>>,
                                 used: set<nat>, txt007: seq<PolicyFinding>)
  {
    && NoRepeats(txt007)
    && (txt007 == [] <==> forall i: nat | i < |excs| :: TakesPart(excs, Paths(files), binary, i) && i in used)
    && forall f :: f in txt007
                   <==> Faulty(excs, Paths(files), binary, f)
                        || exists j: nat :: UnusedFor(files, excs, binary, occ, used, f, j)
  }

  lemma PolicyIsReported(files: seq<File>, excs: seq<Exc>, binary: set<string>, occ: seq<seq<Found>>,
                         txt006: seq<Txt006>, used: set<nat>, failures: map<nat, Reason>,
                         policy: seq<PolicyFinding>, valid: seq<Indexed>, unused: seq<PolicyFinding>)
    requires |occ| == |files| && DistinctPaths(files) && Balanced(files, excs, Paths(files), binary, occ, txt006, used)
    requires Explained(files, excs, Paths(files), binary, occ, failures)
    requires policy == [] <==> forall i: nat | i < |excs| :: TakesPart(excs, Paths(files), binary, i)
    requires forall f :: f in policy <==> Faulty(excs, Paths(files), binary, f)
    requires NoRepeats(policy) && NoRepeats(unused)
    requires forall x :: x in valid <==> TakesPart(excs, Paths(files), binary, x.index) && x.exc == excs[x.index]
    requires forall f :: f in unused
                         <==> exists x | x in valid :: IsUnused(x, used, failures, f)
    ensures PolicyReported(files, excs, binary, occ, used, policy + unused)
  {
    hide WhyUnused, HasTwin, TargetOk, CoversSome, Faulty, Explained, Balanced;
    forall f ensures f in unused <==> exists j: nat :: UnusedFor(files, excs, binary, occ, used, f, j) {
      if x :| x in valid && IsUnused(x, used, failures, f) {
        var j := FileOf(files, excs, binary, x.index);
        ReasonIsGiven(files, excs, binary, occ, txt006, used, failures, x.index, j);
        assert UnusedFor(files, excs, binary, occ, used, f, j);
      }
      if j: nat :| UnusedFor(files, excs, binary, occ, used, f, j) {
        ReasonIsGiven(files, excs, binary, occ, txt006, used, failures, f.index, j);
        assert IsUnused(Indexed(excs[f.index], f.index), used, failures, f);
      }
    }
    NothingReported(files, excs, binary, used, policy, valid, unused, failures);
    forall f | f in unused ensures f !in policy {
      var j: nat :| UnusedFor(files, excs, binary, occ, used, f, j);
      UnusedIsNoFault(files, excs, binary, occ, used, f, j);
    }
    RepeatsApart(policy, unused);
  }

  lemma UnusedIsNoFault(files: seq<File>, excs: seq<Exc>, binary: set<string>, occ: seq<seq<Found>>, used: set<nat>,
                        f: PolicyFinding, j: nat)
    requires UnusedFor(files, excs, binary, occ, used, f, j)
    ensures !Faulty(excs, Paths(files), binary, f)
  {
    hide HasTwin, TargetOk;
  }

  lemma RepeatsApart(a: seq<PolicyFinding>, b: seq<PolicyFinding>)
    requires NoRepeats(a) && NoRepeats(b) && forall f | f in b :: f !in a
    ensures NoRepeats(a + b)
  {
    forall i, j | 0 <= i < j < |a + b| ensures (a + b)[i] != (a + b)[j] {
      if i < |a| <= j {
        assert b[j - |a|] in b && a[i] in a;
      }
    }
  }

  lemma FileOf(files: seq<File>, excs: seq<Exc>, binary: set<string>, i: nat) returns (j: nat)
    requires TakesPart(excs, Paths(files), binary, i)
    ensures j < |files| && files[j].path == excs[i].path
  {
    hide HasTwin;
    var file :| file in files && file.path == excs[i].path;
    j :| j < |files| && files[j] == file;
  }

  lemma ReasonIsGiven(files: seq<File>, excs: seq<Exc>, binary: set<string>, occ: seq<seq<Found>>,
                      txt006: seq<Txt006>, used: set<nat>, failures: map<nat, Reason>, i: nat, j: nat)
    requires |occ| == |files| && Balanced(files, excs, Paths(files), binary, occ, txt006, used)
    requires Explained(files, excs, Paths(files), binary, occ, failures)
    requires TakesPart(excs, Paths(files), binary, i) && i !in used && j < |files| && files[j].path == excs[i].path
    ensures UnusedFinding(i, failures) == PolicyFinding(i, WhyUnused(excs[i], occ[j]))
  {
    hide WhyUnused, HasTwin, TargetOk, CoversSome, Excused, OffsetsIn;
    assert !UsedBy(files, excs, occ, i, j);
  }

  lemma NothingReported(files: seq<File>, excs: seq<Exc>, binary: set<string>, used: set<nat>,
                        policy: seq<PolicyFinding>, valid: seq<Indexed>, unused: seq<PolicyFinding>,
                        failures: map<nat, Reason>)
    requires policy == [] <==> forall i: nat | i < |excs| :: TakesPart(excs, Paths(files), binary, i)
    requires forall x :: x in valid <==> TakesPart(excs, Paths(files), binary, x.index) && x.exc == excs[x.index]
    requires forall f :: f in unused
                         <==> exists x | x in valid :: IsUnused(x, used, failures, f)
    ensures policy + unused == []
            <==> forall i: nat | i < |excs| :: TakesPart(excs, Paths(files), binary, i) && i in used
  {
    hide HasTwin, TargetOk;
    if policy + unused == [] {
      forall i: nat | i < |excs| ensures TakesPart(excs, Paths(files), binary, i) && i in used {
        assert policy == [];
        assert Indexed(excs[i], i) in valid;
        assert UnusedFinding(i, failures) !in unused;
        assert i !in used ==> IsUnused(Indexed(excs[i], i), used, failures, UnusedFinding(i, failures));
      }
    }
    if unused != [] {
      assert unused[0] in unused;
    }
  }

  // ----- what the gate promises

  // A description of a match is true exactly when the search reports it.
  lemma TruthfulIsFound(text: seq<Unit>, hash: seq<Unit> -> nat, found: seq<Found>, f: Found)
    requires Exhaustive(text, hash, found)
    ensures f in found <==> Truthful(text, hash, f)
  {
    if Truthful(text, hash, f) {
      assert Hit(text, f.sig, f.index);
      assert Reported(found, f.sig, f.index);
    }
  }

  // An occurrence of a signature in a scanned file is reported unless an exception of
  // the policy covers it.
  lemma ReportedUnlessExcused(files: seq<File>, binary: set<string>, excs: seq<Exc>, hash: seq<Unit> -> nat,
                              occ: seq<seq<Found>>, used: set<nat>, txt006: seq<Txt006>, j: nat, u: Txt006)
    requires |occ| == |files| && OccurrencesOf(files, binary, hash, occ) && DistinctPaths(files)
    requires Balanced(files, excs, Paths(files), binary, occ, txt006, used)
    requires Scanned(files, binary, j) && u.path == files[j].path && OffsetsIn(files[j], u)
    ensures u in txt006
            <==> Truthful(TextUnits(files[j].bytes), hash, u.found)
                 && !Excused(excs, Paths(files), binary, u.path, u.found)
  {
    hide Excused, Exhaustive, OffsetsIn, TextUnits;
    TruthfulIsFound(TextUnits(files[j].bytes), hash, occ[j], u.found);
    assert u.found in occ[j] ==> FoundIn(files, occ, u, j);
    if i: nat :| FoundIn(files, occ, u, i) {
      assert i == j;
    }
  }

  // Every reported occurrence lies in a scanned file, and its offsets point at the bytes
  // and number the characters of its signature there.
  lemma ReportsPointAtSignatures(files: seq<File>, binary: set<string>, excs: seq<Exc>, hash: seq<Unit> -> nat,
                                 occ: seq<seq<Found>>, used: set<nat>, txt006: seq<Txt006>, u: Txt006)
    returns (j: nat)
    requires |occ| == |files| && OccurrencesOf(files, binary, hash, occ)
    requires Balanced(files, excs, Paths(files), binary, occ, txt006, used) && u in txt006
    ensures Scanned(files, binary, j) && files[j].path == u.path
    ensures SignatureAt(files[j].bytes, TextOf(files[j].bytes).value, u.found.sig, u.byteOffset, u.codePointOffset)
  {
    hide Balanced, OccurrencesOf, Decodes, Utf8Length, CharCount, TextOf, ByteBase, Truthful, SignatureAt;
    j := FileOfReport(files, binary, excs, hash, occ, used, txt006, u);
    var bytes := files[j].bytes;
    TextIsDecoded(bytes);
    OffsetsPointAtSignature(bytes, ByteBase(bytes), TextOf(bytes).value, hash, u.found);
  }

  lemma FileOfReport(files: seq<File>, binary: set<string>, excs: seq<Exc>, hash: seq<Unit> -> nat,
                     occ: seq<seq<Found>>, used: set<nat>, txt006: seq<Txt006>, u: Txt006)
    returns (j: nat)
    requires |occ| == |files| && OccurrencesOf(files, binary, hash, occ)
    requires Balanced(files, excs, Paths(files), binary, occ, txt006, used) && u in txt006
    ensures Scanned(files, binary, j) && files[j].path == u.path && OffsetsIn(files[j], u)
    ensures Truthful(TextUnits(files[j].bytes), hash, u.found)
  {
    hide Excused, OffsetsIn, TextUnits, Truthful;
    j :| FoundIn(files, occ, u, j);
  }

  // A clean repository: as many occurrences as exceptions, and each exception takes
  // part and covers an occurrence of its own.
  lemma CleanMeansPaired(files: seq<File>, binary: set<string>, excs: seq<Exc>, hash: seq<Unit> -> nat,
                         occ: seq<seq<Found>>, used: set<nat>, txt006: seq<Txt006>, txt007: seq<PolicyFinding>)
    requires |occ| == |files| && OccurrencesOf(files, binary, hash, occ)
    requires Balanced(files, excs, Paths(files), binary, occ, txt006, used)
    requires PolicyReported(files, excs, binary, occ, used, txt007)
    requires txt006 == [] && txt007 == []
    ensures Total(occ) == |excs|
    ensures forall i: nat | i < |excs| :: TakesPart(excs, Paths(files), binary, i) && UsedSomewhere(files, excs, occ, i)
    ensures forall j: nat, f | j < |occ| && f in occ[j] :: Excused(excs, Paths(files), binary, files[j].path, f)
  {
    hide CoversSome, HasTwin, TargetOk, Covers, Exhaustive;
    AllBelow(used, |excs|);
    forall i: nat | i < |excs|
      ensures TakesPart(excs, Paths(files), binary, i) && UsedSomewhere(files, excs, occ, i)
    {
      assert i in used;
    }
    forall j: nat, f | j < |occ| && f in occ[j] ensures Excused(excs, Paths(files), binary, files[j].path, f) {
      var u := ReportOf(files, binary, hash, occ, j, f);
      assert u !in txt006;
    }
  }

  // The finding that an occurrence gets when nothing covers it.
  lemma ReportOf(files: seq<File>, binary: set<string>, hash: seq<Unit> -> nat, occ: seq<seq<Found>>, j: nat, f: Found)
    returns (u: Txt006)
    requires |occ| == |files| && OccurrencesOf(files, binary, hash, occ) && j < |occ| && f in occ[j]
    ensures u.path == files[j].path && u.found == f && FoundIn(files, occ, u, j)
  {
    hide MatchAt;
    var text := TextUnits(files[j].bytes);
    assert Truthful(text, hash, f);
    u := Txt006(files[j].path, f, ByteBase(files[j].bytes) + Utf8Length(text[..f.index]), CharCount(text[..f.index]));
  }

  lemma {:induction false} AllBelow(s: set<nat>, n: nat)
    requires forall i: nat :: i in s <==> i < n
    ensures |s| == n
  {
    if n > 0 {
      AllBelow(s - {n - 1}, n - 1);
    } else {
      assert s == {};
    }
  }
}
