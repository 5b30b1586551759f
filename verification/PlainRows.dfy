// What a batch of rows must be and what its tables hold, spelled out row kind by row kind
// with the numbers of the calendar; and that both are what `ProcessTables` says.
module PlainRows {
  import opened ProcessTables

  // Twenty digits: year, month, day, hour, minute, second and six digits of a second, of
  // an instant of the calendar.
  ghost predicate Instant(birth: nat) {
    exists year, month, day, hour, minute, second, rest ::
      && 1 <= year <= 9999 && 1 <= month <= 12 && 1 <= day <= 31 && CalendarDay(year, month, day)
      && 0 <= hour <= 23 && 0 <= minute <= 59 && 0 <= second <= 59 && 0 <= rest <= 999999
      && Digits(year, month, day, hour, minute, second, rest) == birth
  }

  function Digits(year: int, month: int, day: int, hour: int, minute: int, second: int, rest: int): int {
    (((((year * 100 + month) * 100 + day) * 100 + hour) * 100 + minute) * 100 + second) * 1000000 + rest
  }

  predicate CalendarDay(year: int, month: int, day: int) {
    && (month == 4 || month == 6 || month == 9 || month == 11 ==> day <= 30)
    && (month == 2 ==> day <= 29)
    && (month == 2 && day == 29 ==> year % 400 == 0 || (year % 4 == 0 && year % 100 != 0))
  }

  // Nothing unreadable, and no number 0 where an id is due.
  ghost predicate WellFormed(batch: multiset<Row>) {
    && Broken !in batch
    && (forall p, a | Ps(p, a) in batch :: p > 0)
    && (forall f, p, a | At(f, p, a) in batch :: p > 0 && !a.Malformed?)
    && (forall w | EarlySelf(w) in batch :: w > 0)
    && (forall w | LateSelf(w) in batch :: w > 0)
    && (forall w, a | Early(w, a) in batch :: Instant(a.birth))
    && (forall w, a | Late(w, a) in batch :: Instant(a.birth))
  }

  // No two rows that disagree.
  ghost predicate Agreeing(batch: multiset<Row>) {
    && (forall p, a, b | Ps(p, a) in batch && Ps(p, b) in batch :: a == b)
    && (forall f, p, a, b | At(f, p, a) in batch && At(f, p, b) in batch :: a == b)
    && (forall v, w | EarlySelf(v) in batch && EarlySelf(w) in batch :: v == w)
    && (forall v, w | LateSelf(v) in batch && LateSelf(w) in batch :: v == w)
    && (forall w, a, b | Early(w, a) in batch && Early(w, b) in batch :: a == b)
    && (forall w, a, b | Late(w, a) in batch && Late(w, b) in batch :: a == b)
  }

  // An endpoint is read at most once in its phase, for a listed row.
  ghost predicate Readable(batch: multiset<Row>) {
    && WellFormed(batch) && Agreeing(batch)
    && (forall f, p, a | At(f, p, a) in batch :: batch[At(f, p, a)] == 1)
    && (forall f, p, a | At(f, p, a) in batch :: exists b :: Ps(p, b) in batch)
  }

  // The tables list the rows of the batch and nothing else.
  ghost predicate Lists(batch: multiset<Row>, t: Tables) {
    && (forall p, a :: Ps(p, a) in batch <==> p in t.ps && t.ps[p] == a)
    && (forall p, a :: At(Pre, p, a) in batch <==> p in t.pre && t.pre[p] == a)
    && (forall p, a :: At(Post, p, a) in batch <==> p in t.post && t.post[p] == a)
    && (forall w, a :: Early(w, a) in batch <==> w in t.early && t.early[w] == a)
    && (forall w, a :: Late(w, a) in batch <==> w in t.late && t.late[w] == a)
    && (forall w :: EarlySelf(w) in batch <==> w > 0 && w == t.earlySelf)
    && (forall w :: LateSelf(w) in batch <==> w > 0 && w == t.lateSelf)
  }

  lemma Quotients(n: nat)
    ensures n / 100000000 == n / 1000000 / 100
    ensures n / 10000000000 == n / 1000000 / 100 / 100
    ensures n / 1000000000000 == n / 1000000 / 100 / 100 / 100
    ensures n / 100000000000000 == n / 1000000 / 100 / 100 / 100 / 100
    ensures n / 10000000000000000 == n / 1000000 / 100 / 100 / 100 / 100 / 100
  {
  }

  lemma Peel(a: int, b: int)
    requires 0 <= b < 100
    ensures (a * 100 + b) / 100 == a && (a * 100 + b) % 100 == b
  {
  }

  lemma Regroup(n: int)
    ensures n == n / 100 * 100 + n % 100
  {
  }

  lemma DigitsOf(birth: nat)
    ensures Digits(birth / 10000000000000000, birth / 100000000000000 % 100, birth / 1000000000000 % 100,
                   birth / 10000000000 % 100, birth / 100000000 % 100, birth / 1000000 % 100, birth % 1000000) == birth
  {
    Quotients(birth);
    var a := birth / 1000000;
    Regroup(a);
    Regroup(a / 100);
    Regroup(a / 100 / 100);
    Regroup(a / 100 / 100 / 100);
    Regroup(a / 100 / 100 / 100 / 100);
  }

  lemma FieldsOf(year: int, month: int, day: int, hour: int, minute: int, second: int, rest: int, birth: nat)
    requires Digits(year, month, day, hour, minute, second, rest) == birth
    requires 0 <= month < 100 && 0 <= day < 100 && 0 <= hour < 100 && 0 <= minute < 100 && 0 <= second < 100
    requires 0 <= rest < 1000000
    ensures birth / 10000000000000000 == year && birth / 100000000000000 % 100 == month
    ensures birth / 1000000000000 % 100 == day && birth / 10000000000 % 100 == hour
    ensures birth / 100000000 % 100 == minute && birth / 1000000 % 100 == second
  {
    Quotients(birth);
    Peel((((year * 100 + month) * 100 + day) * 100 + hour) * 100 + minute, second);
    Peel(((year * 100 + month) * 100 + day) * 100 + hour, minute);
    Peel((year * 100 + month) * 100 + day, hour);
    Peel(year * 100 + month, day);
    Peel(year, month);
  }

  lemma TimestampsAgree(birth: nat)
    ensures ValidTimestamp(birth) <==> Instant(birth)
  {
    DigitsOf(birth);
    hide Digits;
    if year, month, day, hour, minute, second, rest :|
      && 1 <= year <= 9999 && 1 <= month <= 12 && 1 <= day <= 31 && CalendarDay(year, month, day)
      && 0 <= hour <= 23 && 0 <= minute <= 59 && 0 <= second <= 59 && 0 <= rest <= 999999
      && Digits(year, month, day, hour, minute, second, rest) == birth {
      FieldsOf(year, month, day, hour, minute, second, rest, birth);
    }
  }

  lemma WellFormedIsOk(batch: multiset<Row>, r: Row)
    requires WellFormed(batch) && r in batch
    ensures RowOk(r)
  {
    if r.Early? || r.Late? {
      TimestampsAgree(r.row.birth);
    }
    hide ValidTimestamp, Instant;
  }

  lemma OkIsWellFormed(batch: multiset<Row>)
    requires forall r | r in batch :: RowOk(r)
    ensures WellFormed(batch)
  {
    forall birth: nat | ValidTimestamp(birth) ensures Instant(birth) {
      TimestampsAgree(birth);
    }
    hide ValidTimestamp, Instant;
  }

  lemma RowsAreWellFormed(batch: multiset<Row>)
    ensures WellFormed(batch) <==> forall r | r in batch :: RowOk(r)
  {
    if WellFormed(batch) {
      forall r | r in batch ensures RowOk(r) {
        WellFormedIsOk(batch, r);
      }
    }
    if forall r | r in batch :: RowOk(r) {
      OkIsWellFormed(batch);
    }
  }

  lemma RowsAreAgreeing(batch: multiset<Row>)
    ensures Agreeing(batch) <==> forall r, s | r in batch && s in batch :: Compatible(r, s)
  {
    if Agreeing(batch) {
      forall r, s | r in batch && s in batch ensures Compatible(r, s) {
        AgreeingPair(batch, r, s);
      }
    }
    if forall r, s | r in batch && s in batch :: Compatible(r, s) {
      CompatibleRowsAgree(batch);
    }
  }

  lemma AgreeingPair(batch: multiset<Row>, r: Row, s: Row)
    requires Agreeing(batch) && r in batch && s in batch
    ensures Compatible(r, s)
  {
  }

  lemma CompatibleRowsAgree(batch: multiset<Row>)
    requires forall r, s | r in batch && s in batch :: Compatible(r, s)
    ensures Agreeing(batch)
  {
    forall p, a, b | Ps(p, a) in batch && Ps(p, b) in batch ensures a == b {
      assert Compatible(Ps(p, a), Ps(p, b));
    }
    forall f, p, a, b | At(f, p, a) in batch && At(f, p, b) in batch ensures a == b {
      assert Compatible(At(f, p, a), At(f, p, b));
    }
    forall w, a, b | Early(w, a) in batch && Early(w, b) in batch ensures a == b {
      assert Compatible(Early(w, a), Early(w, b));
    }
    forall w, a, b | Late(w, a) in batch && Late(w, b) in batch ensures a == b {
      assert Compatible(Late(w, a), Late(w, b));
    }
    forall v, w | EarlySelf(v) in batch && EarlySelf(w) in batch ensures v == w {
      assert Compatible(EarlySelf(v), EarlySelf(w));
    }
    forall v, w | LateSelf(v) in batch && LateSelf(w) in batch ensures v == w {
      assert Compatible(LateSelf(v), LateSelf(w));
    }
  }

  lemma BatchesAgree(batch: multiset<Row>)
    ensures Readable(batch) <==> Consistent(batch)
  {
    RowsAreWellFormed(batch);
    RowsAreAgreeing(batch);
    hide WellFormed, Agreeing, RowOk, Compatible;
    if Readable(batch) {
      forall r | r in batch && r.At? ensures batch[r] == 1 && Listed(batch, r.pid) {
        assert At(r.phase, r.pid, r.state) in batch;
      }
    }
  }

  lemma TablesAgree(batch: multiset<Row>, t: Tables)
    ensures Lists(batch, t) <==> Tabulates(batch, t)
  {
    if Tabulates(batch, t) {
      assert forall r | IsRecord(r) :: r in batch <==> Holds(t, r);
    }
  }
}
