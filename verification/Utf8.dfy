// UTF-8 as RFC 3629 defines it, and the hand-written validator of the text gate.
module Utf8 {
  import opened Options

  type Byte = x: int | 0 <= x < 0x100
  type Scalar = x: int | 0 <= x < 0xD800 || 0xE000 <= x < 0x110000

  // Section 3 of RFC 3629: the octets of one character number, six bits a tail byte.
  function Encode(c: Scalar): (bs: seq<Byte>)
    ensures 1 <= |bs| <= 4
  {
    var c1 := c / 0x40;
    var c2 := c1 / 0x40;
    var c3 := c2 / 0x40;
    if c < 0x80 then [c]
    else if c < 0x800 then [0xC0 + c1, 0x80 + c % 0x40]
    else if c < 0x10000 then [0xE0 + c2, 0x80 + c1 % 0x40, 0x80 + c % 0x40]
    else [0xF0 + c3, 0x80 + c2 % 0x40, 0x80 + c1 % 0x40, 0x80 + c % 0x40]
  }

  function EncodeAll(cs: seq<Scalar>): seq<Byte> {
    if cs == [] then [] else Encode(cs[0]) + EncodeAll(cs[1..])
  }

  ghost predicate WellFormed(bs: seq<Byte>) {
    exists cs :: EncodeAll(cs) == bs
  }

  // ----- Section 4 of RFC 3629: the grammar of one UTF8-char

  predicate Tail(b: Byte) {
    0x80 <= b <= 0xBF
  }

  predicate SecondOf3(first: Byte, second: Byte) {
    || (first == 0xE0 && 0xA0 <= second <= 0xBF)
    || (0xE1 <= first <= 0xEC && Tail(second))
    || (first == 0xED && 0x80 <= second <= 0x9F)
    || (0xEE <= first <= 0xEF && Tail(second))
  }

  predicate SecondOf4(first: Byte, second: Byte) {
    || (first == 0xF0 && 0x90 <= second <= 0xBF)
    || (0xF1 <= first <= 0xF3 && Tail(second))
    || (first == 0xF4 && 0x80 <= second <= 0x8F)
  }

  predicate Utf8Char(bs: seq<Byte>) {
    || (|bs| == 1 && bs[0] <= 0x7F)
    || (|bs| == 2 && 0xC2 <= bs[0] <= 0xDF && Tail(bs[1]))
    || (|bs| == 3 && SecondOf3(bs[0], bs[1]) && Tail(bs[2]))
    || (|bs| == 4 && SecondOf4(bs[0], bs[1]) && Tail(bs[2]) && Tail(bs[3]))
  }

  function Decode(bs: seq<Byte>): (c: Scalar)
    requires Utf8Char(bs)
    ensures Encode(c) == bs
  {
    if |bs| == 1 then bs[0]
    else if |bs| == 2 then Decode2(bs)
    else if |bs| == 3 then Decode3(bs)
    else Decode4(bs)
  }

  // The low six bits of a tail byte, put behind the bits read so far.
  function Shift(bits: nat, tail: Byte): (c: nat)
    requires Tail(tail)
    ensures c / 0x40 == bits && 0x80 + c % 0x40 == tail
  {
    bits * 0x40 + (tail - 0x80)
  }

  function Decode2(bs: seq<Byte>): (c: Scalar)
    requires |bs| == 2 && Utf8Char(bs)
    ensures Encode(c) == bs
  {
    Shift(bs[0] - 0xC0, bs[1])
  }

  function Decode3(bs: seq<Byte>): (c: Scalar)
    requires |bs| == 3 && Utf8Char(bs)
    ensures Encode(c) == bs
  {
    var c1 := Shift(bs[0] - 0xE0, bs[1]);
    assert 0x20 <= c1 < 0x360 || 0x380 <= c1 < 0x400;
    Shift(c1, bs[2])
  }

  function Decode4(bs: seq<Byte>): (c: Scalar)
    requires |bs| == 4 && Utf8Char(bs)
    ensures Encode(c) == bs
  {
    var c2 := Shift(bs[0] - 0xF0, bs[1]);
    assert 0x10 <= c2 < 0x110;
    var c1 := Shift(c2, bs[2]);
    assert 0x400 <= c1 < 0x4400;
    Shift(c1, bs[3])
  }

  // The grammar and the encoding define the same characters.
  lemma EncodingIsUtf8Char(c: Scalar)
    ensures Utf8Char(Encode(c)) && Decode(Encode(c)) == c
  {
    var bs := Encode(c);
    var c1 := c / 0x40;
    var c2 := c1 / 0x40;
    assert c == c1 * 0x40 + c % 0x40 && c1 == c2 * 0x40 + c1 % 0x40 && c2 == c2 / 0x40 * 0x40 + c2 % 0x40;
  }

  // ----- unique decoding

  // The first byte alone fixes the length of a character.
  function LengthFrom(first: Byte): (n: nat)
    ensures n <= 4
  {
    if first <= 0x7F then 1
    else if first < 0xC2 then 0
    else if first <= 0xDF then 2
    else if first <= 0xEF then 3
    else if first <= 0xF4 then 4
    else 0
  }

  // No character's encoding starts another's.
  lemma PrefixFree(c: Scalar, d: Scalar, xs: seq<Byte>, ys: seq<Byte>)
    requires Encode(c) + xs <= Encode(d) + ys
    ensures c == d && xs <= ys
  {
    EncodingIsUtf8Char(c);
    EncodingIsUtf8Char(d);
    assert (Encode(c) + xs)[0] == (Encode(d) + ys)[0];
    EqualLengthParts(Encode(c), xs, Encode(d), ys);
  }

  lemma EqualLengthParts(p: seq<Byte>, xs: seq<Byte>, q: seq<Byte>, ys: seq<Byte>)
    requires p + xs <= q + ys && |p| == |q|
    ensures p == q && xs <= ys
  {
    assert p == (p + xs)[..|p|] == (q + ys)[..|p|] == q;
    assert xs == (p + xs)[|p|..] && ys == (q + ys)[|p|..];
  }

  // Text whose bytes start another text's bytes starts that text.
  lemma {:induction false} DecodingIsUnique(cs: seq<Scalar>, ds: seq<Scalar>)
    requires EncodeAll(cs) <= EncodeAll(ds)
    ensures cs <= ds
  {
    if cs != [] {
      assert ds != [];
      PrefixFree(cs[0], ds[0], EncodeAll(cs[1..]), EncodeAll(ds[1..]));
      DecodingIsUnique(cs[1..], ds[1..]);
      assert cs == [cs[0]] + cs[1..] && ds == [ds[0]] + ds[1..];
    }
  }

  lemma {:induction false} EncodeAllAppend(cs: seq<Scalar>, ds: seq<Scalar>)
    ensures EncodeAll(cs + ds) == EncodeAll(cs) + EncodeAll(ds)
  {
    hide Encode;
    if cs == [] {
      assert cs + ds == ds;
    } else {
      EncodeAllAppend(cs[1..], ds);
      assert (cs + ds)[0] == cs[0] && (cs + ds)[1..] == cs[1..] + ds;
      Associates(Encode(cs[0]), EncodeAll(cs[1..]), EncodeAll(ds));
    }
  }

  lemma Associates(a: seq<Byte>, b: seq<Byte>, c: seq<Byte>)
    ensures a + (b + c) == (a + b) + c
  {
  }

  lemma EncodeAllOne(c: Scalar)
    ensures EncodeAll([c]) == Encode(c)
  {
    assert [c][1..] == [];
  }

  // ----- the validator

  // A character of `n` bytes stands at `i`.
  predicate CharAt(bytes: seq<Byte>, i: nat, n: nat) {
    i + n <= |bytes| && Utf8Char(bytes[i..i + n])
  }

  function SecondMin(first: Byte): Byte {
    if first == 0xE0 then 0xA0 else if first == 0xF0 then 0x90 else 0x80
  }

  function SecondMax(first: Byte): Byte {
    if first == 0xED then 0x9F else if first == 0xF4 then 0x8F else 0xBF
  }

  // The grammar, read off the first byte: how long the character must be, and what
  // its second byte may be.
  lemma GrammarByFirstByte(bytes: seq<Byte>, i: nat, n: nat)
    requires i < |bytes|
    ensures CharAt(bytes, i, n) <==>
      && 0 < n == LengthFrom(bytes[i]) && i + n <= |bytes|
      && (n > 1 ==> SecondMin(bytes[i]) <= bytes[i + 1] <= SecondMax(bytes[i]))
      && (forall o | i + 2 <= o < i + n :: Tail(bytes[o]))
  {
    if i + n <= |bytes| {
      var bs := bytes[i..i + n];
      assert n > 0 ==> bs[0] == bytes[i];
      assert n > 1 ==> bs[1] == bytes[i + 1];
      assert n > 2 ==> bs[2] == bytes[i + 2];
      assert n > 3 ==> bs[3] == bytes[i + 3];
    }
  }

  // After a well-formed prefix, the text goes on exactly with one UTF8-char.
  lemma StuckMeansMalformed(bytes: seq<Byte>, i: nat, k: nat, cs: seq<Scalar>)
    requires i < k <= |bytes| && EncodeAll(cs) == bytes[..i] && WellFormed(bytes[..k])
    ensures exists n :: CharAt(bytes, i, n)
  {
    var ds :| EncodeAll(ds) == bytes[..k];
    DecodingIsUnique(cs, ds);
    assert ds == cs + ds[|cs|..];
    EncodeAllAppend(cs, ds[|cs|..]);
    var c := ds[|cs|];
    EncodingIsUtf8Char(c);
    var n := |Encode(c)|;
    assert bytes[..k] == bytes[..i] + EncodeAll(ds[|cs|..]);
    assert bytes[i..i + n] == bytes[..k][i..i + n] == Encode(c);
    assert CharAt(bytes, i, n);
  }

  lemma GoOn(bytes: seq<Byte>, i: nat, n: nat, cs: seq<Scalar>) returns (ds: seq<Scalar>)
    requires i <= |bytes| && EncodeAll(cs) == bytes[..i] && CharAt(bytes, i, n)
    ensures EncodeAll(ds) == bytes[..i + n]
  {
    ds := cs + [Decode(bytes[i..i + n])];
    EncodeAllAppend(cs, [Decode(bytes[i..i + n])]);
    EncodeAllOne(Decode(bytes[i..i + n]));
    assert bytes[..i] + bytes[i..i + n] == bytes[..i + n];
  }

  lemma Empty()
    ensures EncodeAll([]) == []
  {
  }

  lemma Finished(bytes: seq<Byte>, cs: seq<Scalar>)
    requires EncodeAll(cs) == bytes[..|bytes|]
    ensures WellFormed(bytes) && FirstInvalid(bytes, -1)
  {
    assert bytes[..|bytes|] == bytes;
  }

  // -1 exactly for well-formed text; otherwise the end of the longest well-formed prefix.
  ghost predicate FirstInvalid(bytes: seq<Byte>, r: int) {
    if r == -1 then
      WellFormed(bytes)
    else
      && 0 <= r < |bytes| && WellFormed(bytes[..r])
      && forall k | r < k <= |bytes| :: !WellFormed(bytes[..k])
  }

  method FirstInvalidUtf8Offset(bytes: seq<Byte>) returns (r: int)
    ensures FirstInvalid(bytes, r)
    ensures r == -1 <==> WellFormed(bytes)
  {
    hide Utf8Char, EncodeAll, FirstInvalid, WellFormed, CharAt;
    var index := 0;
    ghost var cs: seq<Scalar> := [];
    Empty();
    while index < |bytes|
      invariant index <= |bytes| && EncodeAll(cs) == bytes[..index]
    {
      var first := bytes[index];
      forall n ensures CharAt(bytes, index, n) <==>
        && 0 < n == LengthFrom(first) && index + n <= |bytes|
        && (n > 1 ==> SecondMin(first) <= bytes[index + 1] <= SecondMax(first))
        && (forall o | index + 2 <= o < index + n :: Tail(bytes[o]))
      {
        GrammarByFirstByte(bytes, index, n);
      }
      if first <= 0x7F {
        cs := GoOn(bytes, index, 1, cs);
        index := index + 1;
        continue;
      }
      var length;
      var secondMin, secondMax := 0x80, 0xBF;
      if 0xC2 <= first <= 0xDF {
        length := 2;
      } else if first == 0xE0 {
        length, secondMin := 3, 0xA0;
      } else if 0xE1 <= first <= 0xEC {
        length := 3;
      } else if first == 0xED {
        length, secondMax := 3, 0x9F;
      } else if 0xEE <= first <= 0xEF {
        length := 3;
      } else if first == 0xF0 {
        length, secondMin := 4, 0x90;
      } else if 0xF1 <= first <= 0xF3 {
        length := 4;
      } else if first == 0xF4 {
        length, secondMax := 4, 0x8F;
      } else {
        Stuck(bytes, index, cs);
        return index;
      }
      if index + length > |bytes| || bytes[index + 1] < secondMin || bytes[index + 1] > secondMax {
        Stuck(bytes, index, cs);
        return index;
      }
      for offset := 2 to length
        invariant forall o | index + 2 <= o < index + offset :: Tail(bytes[o])
      {
        if bytes[index + offset] < 0x80 || bytes[index + offset] > 0xBF {
          Stuck(bytes, index, cs);
          return index;
        }
      }
      cs := GoOn(bytes, index, length, cs);
      index := index + length;
    }
    Finished(bytes, cs);
    return -1;
  }

  lemma Stuck(bytes: seq<Byte>, i: nat, cs: seq<Scalar>)
    requires i < |bytes| && EncodeAll(cs) == bytes[..i]
    requires forall n :: !CharAt(bytes, i, n)
    ensures FirstInvalid(bytes, i) && !WellFormed(bytes)
  {
    forall k | i < k <= |bytes| ensures !WellFormed(bytes[..k]) {
      if WellFormed(bytes[..k]) {
        StuckMeansMalformed(bytes, i, k, cs);
      }
    }
    assert bytes[..|bytes|] == bytes;
  }

  lemma CountStep(prefix: seq<Byte>, index: nat, cs: seq<Scalar>) returns (width: nat)
    requires index < |prefix| && prefix[index..] == EncodeAll(cs)
    ensures cs != [] && width == LengthFrom(prefix[index]) > 0 && index + width <= |prefix|
    ensures prefix[index + width..] == EncodeAll(cs[1..])
  {
    var c := cs[0];
    EncodingIsUtf8Char(c);
    width := |Encode(c)|;
    assert prefix[index] == prefix[index..][0] == Encode(c)[0];
    assert prefix[index + width..] == prefix[index..][width..];
  }

  lemma SameText(cs: seq<Scalar>, ds: seq<Scalar>)
    requires EncodeAll(cs) == EncodeAll(ds)
    ensures cs == ds
  {
    DecodingIsUnique(cs, ds);
    DecodingIsUnique(ds, cs);
  }

  // The number of scalars of a slice; nothing if the slice is not well formed, where
  // the original throws.
  method ValidUtf8PrefixScalarCount(bytes: seq<Byte>, start: nat, end: nat) returns (count: Option<nat>)
    requires start <= end <= |bytes|
    ensures count.Some? <==> WellFormed(bytes[start..end])
    ensures forall cs | EncodeAll(cs) == bytes[start..end] :: count == Some(|cs|)
  {
    var prefix := bytes[start..end];
    var invalid := FirstInvalidUtf8Offset(prefix);
    if invalid != -1 {
      return None;
    }
    ghost var cs := ScalarsOf(prefix);
    var n := CountScalars(prefix, cs);
    hide EncodeAll;
    forall ds | EncodeAll(ds) == prefix ensures |ds| == n {
      SameText(cs, ds);
    }
    return Some(n);
  }

  lemma ScalarsOf(bytes: seq<Byte>) returns (cs: seq<Scalar>)
    requires WellFormed(bytes)
    ensures EncodeAll(cs) == bytes
  {
    cs :| EncodeAll(cs) == bytes;
  }

  // The count by first bytes.
  method CountScalars(prefix: seq<Byte>, ghost cs: seq<Scalar>) returns (n: nat)
    requires EncodeAll(cs) == prefix
    ensures n == |cs|
  {
    hide EncodeAll, Encode;
    n := 0;
    var index := 0;
    assert cs[0..] == cs && prefix[0..] == prefix;
    while index < |prefix|
      invariant index <= |prefix| && n <= |cs| && prefix[index..] == EncodeAll(cs[n..])
      decreases |prefix| - index
    {
      ghost var width := CountStep(prefix, index, cs[n..]);
      assert cs[n..][1..] == cs[n + 1..];
      var first := prefix[index];
      if first <= 0x7F {
        index := index + 1;
      } else if first <= 0xDF {
        index := index + 2;
      } else if first <= 0xEF {
        index := index + 3;
      } else {
        index := index + 4;
      }
      n := n + 1;
    }
    NothingLeft(cs[n..]);
  }

  lemma NothingLeft(cs: seq<Scalar>)
    requires EncodeAll(cs) == []
    ensures cs == []
  {
  }

  // ----- the byte order mark

  const BOM: seq<Byte> := [0xEF, 0xBB, 0xBF]

  predicate HasBom(bytes: seq<Byte>) {
    |bytes| >= 3 && bytes[..3] == BOM
  }

  lemma BomIsFeff()
    ensures Encode(0xFEFF) == BOM && EncodeAll([0xFEFF]) == BOM
  {
    EncodeAllOne(0xFEFF);
  }

  // Of well-formed text with a leading mark, the rest is well formed and one
  // character shorter.
  lemma DropBom(bytes: seq<Byte>, cs: seq<Scalar>)
    requires HasBom(bytes) && EncodeAll(cs) == bytes
    ensures cs != [] && cs[0] == 0xFEFF && EncodeAll(cs[1..]) == bytes[3..]
  {
    BomIsFeff();
    hide Encode;
    assert BOM <= bytes;
    DecodingIsUnique([0xFEFF], cs);
    assert bytes == BOM + EncodeAll(cs[1..]);
  }

  // The part before the first invalid byte includes a leading mark, and without it
  // is still well formed, so its scalars can be counted.
  lemma PrefixAfterBom(bytes: seq<Byte>, r: nat)
    requires FirstInvalid(bytes, r) && HasBom(bytes)
    ensures 3 <= r && WellFormed(bytes[3..r])
  {
    BomIsFeff();
    hide Encode;
    assert EncodeAll([0xFEFF]) == bytes[..3];
    assert WellFormed(bytes[..3]);
    var cs :| EncodeAll(cs) == bytes[..r];
    DropBom(bytes[..r], cs);
    assert bytes[..r][3..] == bytes[3..r];
  }

  lemma DropBomOfPrefix(bytes: seq<Byte>, r: nat, cs: seq<Scalar>)
    requires HasBom(bytes) && 3 <= r <= |bytes| && EncodeAll(cs) == bytes[..r]
    ensures cs != [] && EncodeAll(cs[1..]) == bytes[3..r]
  {
    assert bytes[..r][..3] == bytes[..3];
    DropBom(bytes[..r], cs);
    assert bytes[..r][3..] == bytes[3..r];
  }

  // The finding for undecodable bytes: the offset of the first invalid byte and the
  // number of characters before it, a leading mark not counted.
  ghost predicate InvalidAt(bytes: seq<Byte>, byteOffset: nat, codePointOffset: nat) {
    && FirstInvalid(bytes, byteOffset)
    && exists cs :: EncodeAll(cs) == bytes[..byteOffset] && codePointOffset == if HasBom(bytes) then |cs| - 1 else |cs|
  }

  lemma CountIsInvalidAt(bytes: seq<Byte>, r: nat, cs: seq<Scalar>)
    requires FirstInvalid(bytes, r) && (HasBom(bytes) ==> 3 <= r)
    requires EncodeAll(cs) == bytes[(if HasBom(bytes) then 3 else 0)..r]
    ensures InvalidAt(bytes, r, |cs|)
  {
    var all :| EncodeAll(all) == bytes[..r];
    hide EncodeAll, FirstInvalid;
    if HasBom(bytes) {
      DropBomOfPrefix(bytes, r, all);
      SameText(all[1..], cs);
    } else {
      assert bytes[0..r] == bytes[..r];
    }
  }

  method InvalidUtf8Finding(bytes: seq<Byte>) returns (byteOffset: nat, codePointOffset: nat)
    ensures !WellFormed(bytes) ==> InvalidAt(bytes, byteOffset, codePointOffset)
  {
    hide InvalidAt;
    var invalid := FirstInvalidUtf8Offset(bytes);
    byteOffset := if invalid < 0 then 0 else invalid;
    var hasBom := HasBom(bytes);
    if hasBom && !WellFormed(bytes) {
      PrefixAfterBom(bytes, byteOffset);
    }
    var prefixStart := if hasBom && byteOffset >= 3 then 3 else 0;
    Empty();
    assert bytes[0..byteOffset] == bytes[..byteOffset];
    var count := ValidUtf8PrefixScalarCount(bytes, prefixStart, byteOffset);
    codePointOffset := count.value;
    ghost var cs :| EncodeAll(cs) == bytes[prefixStart..byteOffset];
    if !WellFormed(bytes) {
      CountIsInvalidAt(bytes, byteOffset, cs);
    }
  }
}
