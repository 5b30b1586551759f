// The decoder in front of the scanner: whole characters only, a leading mark dropped.
module TextDecoder {
  import opened Options
  import opened Utf8
  import opened TextOffsets

  function DecodeAll(bytes: seq<Byte>): Option<seq<Scalar>>
    decreases |bytes|
  {
    if bytes == [] then Some([])
    else
      var n := LengthFrom(bytes[0]);
      if n > |bytes| || !Utf8Char(bytes[..n]) then None
      else
        match DecodeAll(bytes[n..])
        case None => None
        case Some(rest) => Some([Decode(bytes[..n])] + rest)
  }

  // Decoding inverts encoding, and nothing else decodes.
  lemma {:induction false} DecodeAllInverts(bytes: seq<Byte>, cs: seq<Scalar>)
    ensures DecodeAll(bytes) == Some(cs) <==> EncodeAll(cs) == bytes
    decreases |bytes|
  {
    if DecodeAll(bytes) == Some(cs) {
      DecodedEncodes(bytes, cs);
    }
    if EncodeAll(cs) == bytes {
      EncodedDecodes(cs);
    }
  }

  lemma {:induction false} DecodedEncodes(bytes: seq<Byte>, cs: seq<Scalar>)
    requires DecodeAll(bytes) == Some(cs)
    ensures EncodeAll(cs) == bytes
    decreases |bytes|
  {
    hide Utf8Char, Encode, Decode, LengthFrom;
    if bytes != [] {
      var n := LengthFrom(bytes[0]);
      DecodedEncodes(bytes[n..], cs[1..]);
      assert bytes == bytes[..n] + bytes[n..];
    }
  }

  lemma {:induction false} EncodedDecodes(cs: seq<Scalar>)
    ensures DecodeAll(EncodeAll(cs)) == Some(cs)
  {
    if cs != [] {
      EncodingIsUtf8Char(cs[0]);
      LengthOfEncoding(cs[0]);
      hide Utf8Char, Encode, Decode, LengthFrom;
      EncodedDecodes(cs[1..]);
      var first, rest := Encode(cs[0]), EncodeAll(cs[1..]);
      assert (first + rest)[0] == first[0];
      assert (first + rest)[..|first|] == first && (first + rest)[|first|..] == rest;
      assert [cs[0]] + cs[1..] == cs;
    }
  }

  lemma LengthOfEncoding(c: Scalar)
    ensures Encode(c) != [] && LengthFrom(Encode(c)[0]) == |Encode(c)|
  {
    EncodingIsUtf8Char(c);
  }

  // Where the offsets of a file start.
  function ByteBase(bytes: seq<Byte>): nat {
    if HasBom(bytes) then 3 else 0
  }

  // The characters of a file, if it is well-formed UTF-8.
  function TextOf(bytes: seq<Byte>): Option<seq<Scalar>> {
    DecodeAll(bytes[ByteBase(bytes)..])
  }

  lemma TextIsDecoded(bytes: seq<Byte>)
    ensures forall cs :: TextOf(bytes) == Some(cs) <==> Decodes(bytes, ByteBase(bytes), cs)
    ensures TextOf(bytes).Some? <==> WellFormed(bytes)
  {
    forall cs ensures TextOf(bytes) == Some(cs) <==> Decodes(bytes, ByteBase(bytes), cs) {
      DecodeAllInverts(bytes[ByteBase(bytes)..], cs);
    }
    hide Decodes, WellFormed, TextOf;
    DecodesExactlyWellFormed(bytes);
    forall base, cs | Decodes(bytes, base, cs) ensures base == ByteBase(bytes) {
      BaseOfDecoded(bytes, base, cs);
    }
    if TextOf(bytes).Some? {
      assert Decodes(bytes, ByteBase(bytes), TextOf(bytes).value);
    }
  }

  lemma BaseOfDecoded(bytes: seq<Byte>, base: nat, cs: seq<Scalar>)
    requires Decodes(bytes, base, cs)
    ensures base == ByteBase(bytes)
  {
  }
}
