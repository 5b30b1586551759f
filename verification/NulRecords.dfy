// Records that each end in a zero byte.
module NulRecords {
  import opened Options
  import opened Utf8

  predicate IsRecord(r: seq<Byte>) {
    r != [] && 0 !in r
  }

  ghost predicate AllRecords(rs: seq<seq<Byte>>) {
    forall k | 0 <= k < |rs| :: IsRecord(rs[k])
  }

  // The printer.
  function Print(rs: seq<seq<Byte>>): seq<Byte> {
    if rs == [] then [] else rs[0] + [0] + Print(rs[1..])
  }

  lemma {:induction false} PrintAppend(rs: seq<seq<Byte>>, ss: seq<seq<Byte>>)
    ensures Print(rs + ss) == Print(rs) + Print(ss)
  {
    if rs == [] {
      assert rs + ss == ss;
    } else {
      PrintAppend(rs[1..], ss);
      assert (rs + ss)[0] == rs[0] && (rs + ss)[1..] == rs[1..] + ss;
      assert rs[0] + [0] + (Print(rs[1..]) + Print(ss)) == (rs[0] + [0] + Print(rs[1..])) + Print(ss);
    }
  }

  lemma PrintOne(r: seq<Byte>)
    ensures Print([r]) == r + [0]
  {
    assert [r][1..] == [] && Print([]) == [];
  }

  // Records that print a beginning of what others print are a beginning of them.
  lemma {:induction false} PrintIsInjective(rs: seq<seq<Byte>>, ss: seq<seq<Byte>>)
    requires AllRecords(rs) && AllRecords(ss) && Print(rs) <= Print(ss)
    ensures rs <= ss
  {
    if rs != [] {
      assert IsRecord(rs[0]) && Print(rs)[0] == rs[0][0];
      if ss != [] {
        assert IsRecord(ss[0]);
        SameFirst(rs[0], Print(rs[1..]), ss[0], Print(ss[1..]));
        PrintIsInjective(rs[1..], ss[1..]);
        assert rs == [rs[0]] + rs[1..] && ss == [ss[0]] + ss[1..];
      }
    }
  }

  lemma SameFirst(r: seq<Byte>, xs: seq<Byte>, s: seq<Byte>, ys: seq<Byte>)
    requires 0 !in r && 0 !in s && r + [0] + xs <= s + [0] + ys
    ensures r == s && xs <= ys
  {
    var a, b := r + [0] + xs, s + [0] + ys;
    assert a[|r|] == 0 && b[|r|] == 0;
    assert |s| < |a| ==> b[|s|] == 0 && a[|s|] == 0;
    assert |s| <= |r|;
    assert |r| <= |s|;
    assert r == a[..|r|] == b[..|r|] == s;
    assert xs == a[|r| + 1..] && ys == b[|r| + 1..];
  }

  // Accepts exactly what records print, and returns them.
  method ParseNulRecords(bytes: seq<Byte>, allowEmpty: bool) returns (result: Option<seq<seq<Byte>>>)
    ensures forall rs :: result == Some(rs) <==> AllRecords(rs) && Print(rs) == bytes && (rs != [] || allowEmpty)
  {
    if |bytes| == 0 {
      PrintsNothing(bytes);
      return if allowEmpty then Some([]) else None;
    }
    if bytes[|bytes| - 1] != 0 {
      EndsInZero(bytes);
      return None;
    }
    hide Print, AllRecords;
    var records: seq<seq<Byte>> := [];
    var start := 0;
    NothingPrinted();
    for index := 0 to |bytes|
      invariant 0 <= start <= index && (index == start || bytes[index - 1] != 0)
      invariant AllRecords(records) && Print(records) == bytes[..start]
      invariant 0 !in bytes[start..index]
    {
      if bytes[index] != 0 {
        assert bytes[start..index + 1] == bytes[start..index] + [bytes[index]];
        continue;
      }
      if index == start {
        EmptyRecord(bytes, records, start);
        return None;
      }
      OneMoreRecord(bytes, records, start, index);
      records := records + [bytes[start..index]];
      start := index + 1;
    }
    if start != |bytes| {
      return None;
    }
    assert bytes[..start] == bytes;
    OnlyOne(records, bytes);
    return Some(records);
  }

  lemma NothingPrinted()
    ensures AllRecords([]) && Print([]) == []
  {
  }

  lemma PrintsNothing(bytes: seq<Byte>)
    requires bytes == []
    ensures forall rs :: AllRecords(rs) && Print(rs) == bytes <==> rs == []
  {
  }

  lemma {:induction false} PrintEnds(rs: seq<seq<Byte>>)
    requires rs != []
    ensures Print(rs) != [] && Print(rs)[|Print(rs)| - 1] == 0
  {
    if |rs| > 1 {
      PrintEnds(rs[1..]);
    }
  }

  lemma EndsInZero(bytes: seq<Byte>)
    requires bytes != [] && bytes[|bytes| - 1] != 0
    ensures forall rs :: !(AllRecords(rs) && Print(rs) == bytes)
  {
    forall rs ensures !(AllRecords(rs) && Print(rs) == bytes) {
      if rs != [] {
        PrintEnds(rs);
      }
    }
  }

  lemma OneMoreRecord(bytes: seq<Byte>, records: seq<seq<Byte>>, start: nat, index: nat)
    requires start < index < |bytes| && bytes[index] == 0 && 0 !in bytes[start..index]
    requires AllRecords(records) && Print(records) == bytes[..start]
    ensures AllRecords(records + [bytes[start..index]]) && Print(records + [bytes[start..index]]) == bytes[..index + 1]
  {
    hide Print;
    PrintAppend(records, [bytes[start..index]]);
    PrintOne(bytes[start..index]);
    assert bytes[..start] + (bytes[start..index] + [0]) == bytes[..index + 1];
  }

  lemma EmptyRecord(bytes: seq<Byte>, records: seq<seq<Byte>>, start: nat)
    requires start < |bytes| && bytes[start] == 0 && AllRecords(records) && Print(records) == bytes[..start]
    ensures forall rs :: !(AllRecords(rs) && Print(rs) == bytes)
  {
    forall rs ensures !(AllRecords(rs) && Print(rs) == bytes) {
      if AllRecords(rs) && Print(rs) == bytes {
        PrintIsInjective(records, rs);
        var n := |records|;
        assert rs == records + rs[n..];
        PrintAppend(records, rs[n..]);
        assert bytes == bytes[..start] + bytes[start..];
        NextIsEmpty(rs[n..], bytes[start..]);
      }
    }
  }

  lemma NextIsEmpty(rs: seq<seq<Byte>>, rest: seq<Byte>)
    requires Print(rs) == rest && rest != [] && rest[0] == 0
    ensures !AllRecords(rs)
  {
    assert rs != [] && Print(rs)[0] == if rs[0] == [] then 0 else rs[0][0];
    assert !IsRecord(rs[0]);
  }

  lemma OnlyOne(records: seq<seq<Byte>>, bytes: seq<Byte>)
    requires AllRecords(records) && Print(records) == bytes
    ensures forall rs :: AllRecords(rs) && Print(rs) == bytes <==> rs == records
  {
    forall rs | AllRecords(rs) && Print(rs) == bytes ensures rs == records {
      PrintIsInjective(rs, records);
      PrintIsInjective(records, rs);
    }
  }
}
