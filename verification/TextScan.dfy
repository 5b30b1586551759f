// Mojibake findings, from the bytes of a file to offsets into them.
module TextScan {
  import opened Utf8
  import opened TextOffsets
  import opened Mojibake

  // The occurrence object `o` belongs to the entry `f`.
  ghost predicate Locates(text: seq<Unit>, byteBase: nat, f: Found, o: Occurrence)
    reads o
  {
    o.utf16Index == f.index && Resolved(text, byteBase, o)
  }

  // Finds every occurrence and resolves all offsets in one pass. The resolver cannot
  // fail here.
  method LocateOccurrences(text: seq<Unit>, byteBase: nat, hash: seq<Unit> -> nat)
    returns (found: seq<Found>, located: seq<Occurrence>)
    ensures Exhaustive(text, hash, found) && |located| == |found|
    ensures forall i | 0 <= i < |found| :: Locates(text, byteBase, found[i], located[i])
  {
    found := FindOccurrences(text, hash);
    hide Exhaustive, IsBoundary, Utf8Length, CharCount;
    located := [];
    for i := 0 to |found|
      invariant |located| == i && forall j | 0 <= j < i :: located[j].utf16Index == found[j].index
      invariant forall j | 0 <= j < i :: fresh(located[j])
    {
      var o := new Occurrence(found[i].index);
      located := located + [o];
    }
    FoundAreBoundaries(text, hash, found);
    forall o | o in located ensures IsBoundary(text, o.utf16Index) {
      var j :| 0 <= j < |located| && located[j] == o;
      assert IsBoundary(text, found[j].index);
    }
    var ok := ResolveSignatureOffsets(text, byteBase, located);
    assert ok;
    forall i | 0 <= i < |found| ensures Locates(text, byteBase, found[i], located[i]) {
      assert located[i] in located;
    }
  }

  lemma FoundAreBoundaries(text: seq<Unit>, hash: seq<Unit> -> nat, found: seq<Found>)
    requires Exhaustive(text, hash, found)
    ensures forall i | 0 <= i < |found| :: IsBoundary(text, found[i].index)
  {
    SignaturesAreSearchable();
    hide IsBoundary, Searchable;
    forall i | 0 <= i < |found| ensures IsBoundary(text, found[i].index) {
      assert found[i] in found && Truthful(text, hash, found[i]);
      OccurrenceIsBoundary(text, SIGNATURES[found[i].sig], found[i].index);
    }
  }

  // The bytes at `byteOffset` encode the signature, and the characters from number
  // `codePointOffset` on spell it.
  ghost predicate SignatureAt(bytes: seq<Byte>, cs: seq<Scalar>, sig: nat, byteOffset: nat, codePointOffset: nat) {
    sig < |SIGNATURES|
    && var s, n := SIGNATURES[sig], codePointOffset;
       && n + |s| <= |cs| && (forall j | 0 <= j < |s| :: cs[n + j] == s[j])
       && byteOffset + |EncodeAll(cs[n..n + |s|])| <= |bytes|
       && bytes[byteOffset..][..|EncodeAll(cs[n..n + |s|])|] == EncodeAll(cs[n..n + |s|])
  }

  // The sizes of what precedes a match are the place of its signature.
  lemma OffsetsPointAtSignature(bytes: seq<Byte>, byteBase: nat, cs: seq<Scalar>, hash: seq<Unit> -> nat, f: Found)
    requires Decodes(bytes, byteBase, cs) && Truthful(Units(cs), hash, f)
    ensures SignatureAt(bytes, cs, f.sig, byteBase + Utf8Length(Units(cs)[..f.index]), CharCount(Units(cs)[..f.index]))
  {
    SignaturesAreSearchable();
    hide Decodes, EncodeAll, Encode, Units, Searchable, MatchAt, IsBoundary, Utf8Length, CharCount;
    var n := OccurrencePointsAtBytes(bytes, byteBase, cs, SIGNATURES[f.sig], f.index);
    assert n == CharCount(Units(cs)[..f.index]);
  }

  // The offsets of a finding point at the bytes, and number the characters, that make
  // up its signature.
  lemma FindingPointsAtSignature(bytes: seq<Byte>, byteBase: nat, cs: seq<Scalar>, hash: seq<Unit> -> nat,
                                 f: Found, o: Occurrence)
    requires Decodes(bytes, byteBase, cs) && Truthful(Units(cs), hash, f) && Locates(Units(cs), byteBase, f, o)
    ensures SignatureAt(bytes, cs, f.sig, o.byteOffset, o.codePointOffset)
  {
    hide Decodes, Units, MatchAt, IsBoundary, Utf8Length, CharCount, SignatureAt;
    OffsetsPointAtSignature(bytes, byteBase, cs, hash, f);
  }
}
