// The records the ownership classifier reads, and what it means for a whole
// batch of records to be consistent. Process ids are canonical decimals, so they
// are numbers here; a UTC creation time is the number written by its 20 digits
// (yyyyMMddHHmmssffffff), whose numeric order is its string order.
module ProcessTables {

  datatype Phase = Pre | Post

  type Pos = n: nat | n > 0 witness 1

  datatype Endpoint =
    | Live(parent: nat, start: nat, win: Pos)
    | Dead
    | Missing
    | Transition
    | Malformed

  datatype PsRow = PsRow(parent: nat, win: nat, dead: bool)

  datatype WinRow = WinRow(parent: nat, name: string, birth: nat)

  // One classifier input line. `Broken` is any line no pattern admits, or whose
  // field count or field syntax is refused.
  datatype Row =
    | Blank
    | PsHeader
    | Ps(pid: nat, ps: PsRow)
    | At(phase: Phase, pid: nat, state: Endpoint)
    | EarlySelf(win: nat)
    | Early(win: nat, row: WinRow)
    | LateSelf(win: nat)
    | Late(win: nat, row: WinRow)
    | Broken

  // `earlySelf` and `lateSelf` are 0 until an enumerator identity is read.
  datatype Tables = Tables(
    ps: map<nat, PsRow>,
    pre: map<nat, Endpoint>,
    post: map<nat, Endpoint>,
    early: map<nat, WinRow>,
    late: map<nat, WinRow>,
    earlySelf: nat,
    lateSelf: nat)

  const NO_TABLES := Tables(map[], map[], map[], map[], map[], 0, 0)

  function DaysIn(year: nat, month: nat): nat {
    if month == 2 then
      if year % 4 == 0 && (year % 100 != 0 || year % 400 == 0) then 29 else 28
    else if month in {4, 6, 9, 11} then 30
    else 31
  }

  // A 20-digit string that names an instant of the Gregorian calendar.
  predicate ValidTimestamp(birth: nat) {
    var year := birth / 10000000000000000;
    var month := birth / 100000000000000 % 100;
    var day := birth / 1000000000000 % 100;
    && 0 < year < 10000
    && 1 <= month <= 12
    && 1 <= day <= DaysIn(year, month)
    && birth / 10000000000 % 100 < 24
    && birth / 100000000 % 100 < 60
    && birth / 1000000 % 100 < 60
  }

  // The row is acceptable on its own.
  predicate RowOk(r: Row) {
    match r
    case Blank => true
    case PsHeader => true
    case Ps(pid, _) => pid > 0
    case At(_, pid, state) => pid > 0 && !state.Malformed?
    case EarlySelf(win) => win > 0
    case LateSelf(win) => win > 0
    case Early(_, row) => ValidTimestamp(row.birth)
    case Late(_, row) => ValidTimestamp(row.birth)
    case Broken => false
  }

  // Two rows about one subject say the same thing.
  predicate Compatible(r: Row, s: Row) {
    match r
    case Ps(pid, _) => s.Ps? && s.pid == pid ==> s == r
    case At(phase, pid, _) => s.At? && s.phase == phase && s.pid == pid ==> s == r
    case EarlySelf(win) => s.EarlySelf? ==> s == r
    case LateSelf(win) => s.LateSelf? ==> s == r
    case Early(win, _) => s.Early? && s.win == win ==> s == r
    case Late(win, _) => s.Late? && s.win == win ==> s == r
    case _ => true
  }

  ghost predicate Listed(batch: multiset<Row>, pid: nat) {
    exists row :: Ps(pid, row) in batch
  }

  // What a whole batch must satisfy, whatever the order of its rows: rows may be
  // repeated if they agree, except endpoint reads, which appear once.
  ghost predicate Consistent(batch: multiset<Row>) {
    && (forall r | r in batch :: RowOk(r))
    && (forall r, s | r in batch && s in batch :: Compatible(r, s))
    && (forall r | r in batch && r.At? :: batch[r] == 1 && Listed(batch, r.pid))
  }

  predicate IsRecord(r: Row) {
    !r.Blank? && !r.PsHeader? && !r.Broken?
  }

  // The tables say what the row says.
  predicate Holds(t: Tables, r: Row) {
    match r
    case Ps(p, row) => p in t.ps && t.ps[p] == row
    case At(Pre, p, s) => p in t.pre && t.pre[p] == s
    case At(Post, p, s) => p in t.post && t.post[p] == s
    case EarlySelf(w) => w != 0 && w == t.earlySelf
    case LateSelf(w) => w != 0 && w == t.lateSelf
    case Early(w, row) => w in t.early && t.early[w] == row
    case Late(w, row) => w in t.late && t.late[w] == row
    case _ => false
  }

  // `t` holds exactly what the batch says.
  ghost predicate Tabulates(batch: multiset<Row>, t: Tables) {
    forall r | IsRecord(r) :: r in batch <==> Holds(t, r)
  }

  // The collector writes the process table before any endpoint read.
  ghost predicate PsFirst(rows: seq<Row>) {
    forall i, j | 0 <= i < j < |rows| && rows[j].Ps? :: !rows[i].At?
  }

  // The tables depend on what the rows say, not on their order.
  lemma TablesUnique(batch: multiset<Row>, t: Tables, u: Tables)
    requires Tabulates(batch, t) && Tabulates(batch, u)
    ensures t == u
  {
    SamePs(batch, t, u);
    SameEndpoints(batch, t, u);
    SameSnapshots(batch, t, u);
    if t.earlySelf != 0 { assert EarlySelf(t.earlySelf) in batch; }
    if u.earlySelf != 0 { assert EarlySelf(u.earlySelf) in batch; }
    if t.lateSelf != 0 { assert LateSelf(t.lateSelf) in batch; }
    if u.lateSelf != 0 { assert LateSelf(u.lateSelf) in batch; }
  }

  lemma SamePs(batch: multiset<Row>, t: Tables, u: Tables)
    requires Tabulates(batch, t) && Tabulates(batch, u)
    ensures t.ps == u.ps
  {
    forall p | p in t.ps ensures Holds(u, Ps(p, t.ps[p])) { assert Ps(p, t.ps[p]) in batch; }
    forall p | p in u.ps ensures Holds(t, Ps(p, u.ps[p])) { assert Ps(p, u.ps[p]) in batch; }
  }

  lemma SameEndpoints(batch: multiset<Row>, t: Tables, u: Tables)
    requires Tabulates(batch, t) && Tabulates(batch, u)
    ensures t.pre == u.pre && t.post == u.post
  {
    forall p | p in t.pre ensures Holds(u, At(Pre, p, t.pre[p])) { assert At(Pre, p, t.pre[p]) in batch; }
    forall p | p in u.pre ensures Holds(t, At(Pre, p, u.pre[p])) { assert At(Pre, p, u.pre[p]) in batch; }
    forall p | p in t.post ensures Holds(u, At(Post, p, t.post[p])) { assert At(Post, p, t.post[p]) in batch; }
    forall p | p in u.post ensures Holds(t, At(Post, p, u.post[p])) { assert At(Post, p, u.post[p]) in batch; }
  }

  lemma SameSnapshots(batch: multiset<Row>, t: Tables, u: Tables)
    requires Tabulates(batch, t) && Tabulates(batch, u)
    ensures t.early == u.early && t.late == u.late
  {
    forall w | w in t.early ensures Holds(u, Early(w, t.early[w])) { assert Early(w, t.early[w]) in batch; }
    forall w | w in u.early ensures Holds(t, Early(w, u.early[w])) { assert Early(w, u.early[w]) in batch; }
    forall w | w in t.late ensures Holds(u, Late(w, t.late[w])) { assert Late(w, t.late[w]) in batch; }
    forall w | w in u.late ensures Holds(t, Late(w, u.late[w])) { assert Late(w, u.late[w]) in batch; }
  }

  // ----- reading one row at a time

  datatype Reading = Reading(tables: Tables, failed: bool)

  // The row is refused by the tables read so far.
  predicate Refuses(t: Tables, r: Row) {
    match r
    case Ps(p, row) => p in t.ps && t.ps[p] != row
    case At(Pre, p, _) => p !in t.ps || p in t.pre
    case At(Post, p, _) => p !in t.ps || p in t.post
    case EarlySelf(w) => t.earlySelf != 0 && t.earlySelf != w
    case LateSelf(w) => t.lateSelf != 0 && t.lateSelf != w
    case Early(w, row) => w in t.early && t.early[w] != row
    case Late(w, row) => w in t.late && t.late[w] != row
    case _ => false
  }

  function Store(t: Tables, r: Row): Tables {
    match r
    case Ps(p, row) => t.(ps := t.ps[p := row])
    case At(Pre, p, s) => t.(pre := t.pre[p := s])
    case At(Post, p, s) => t.(post := t.post[p := s])
    case EarlySelf(w) => t.(earlySelf := w)
    case LateSelf(w) => t.(lateSelf := w)
    case Early(w, row) => t.(early := t.early[w := row])
    case Late(w, row) => t.(late := t.late[w := row])
    case _ => t
  }

  lemma StoreAddsOne(t: Tables, r: Row, s: Row)
    requires RowOk(r) && !Refuses(t, r) && IsRecord(s)
    ensures Holds(Store(t, r), s) <==> Holds(t, s) || s == r
  {
    match r {
      case Ps(p, row) => assert Store(t, r) == t.(ps := t.ps[p := row]);
      case At(Pre, p, e) => assert Store(t, r) == t.(pre := t.pre[p := e]);
      case At(Post, p, e) => assert Store(t, r) == t.(post := t.post[p := e]);
      case Early(w, row) => assert Store(t, r) == t.(early := t.early[w := row]);
      case Late(w, row) => assert Store(t, r) == t.(late := t.late[w := row]);
      case _ =>
    }
  }

  // An admitted row keeps the tables equal to what has been read.
  lemma StoreIsFaithful(batch: multiset<Row>, t: Tables, r: Row)
    requires Consistent(batch) && Tabulates(batch, t)
    requires RowOk(r) && !Refuses(t, r)
    ensures Consistent(batch + multiset{r}) && Tabulates(batch + multiset{r}, Store(t, r))
  {
    hide Compatible, Holds, Listed, Store;
    var more := batch + multiset{r};
    assert forall s :: s in more <==> s in batch || s == r;
    forall s | IsRecord(s) ensures s in more <==> Holds(Store(t, r), s) {
      StoreAddsOne(t, r, s);
    }
    forall s | s in batch ensures Compatible(r, s) && Compatible(s, r) {
      AgreesWithStored(batch, t, r, s);
    }
    CompatibleWithItself(r);
    forall s | s in more && s.At? ensures more[s] == 1 && Listed(more, s.pid) {
      EndpointStaysSingle(batch, t, r, s);
    }
  }

  lemma CompatibleWithItself(r: Row)
    ensures Compatible(r, r)
  {
  }

  lemma AgreesWithStored(batch: multiset<Row>, t: Tables, r: Row, s: Row)
    requires Consistent(batch) && Tabulates(batch, t) && RowOk(r) && !Refuses(t, r) && s in batch
    ensures Compatible(r, s) && Compatible(s, r)
  {
    assert IsRecord(s) ==> Holds(t, s);
  }

  lemma EndpointStaysSingle(batch: multiset<Row>, t: Tables, r: Row, s: Row)
    requires Consistent(batch) && Tabulates(batch, t) && RowOk(r) && !Refuses(t, r)
    requires s in batch + multiset{r} && s.At?
    ensures (batch + multiset{r})[s] == 1 && Listed(batch + multiset{r}, s.pid)
  {
    var more := batch + multiset{r};
    if s in batch {
      var row :| Ps(s.pid, row) in batch;
      assert Ps(s.pid, row) in more;
      assert IsRecord(s) && Holds(t, s);
    } else {
      assert Holds(t, Ps(s.pid, t.ps[s.pid]));
      assert Ps(s.pid, t.ps[s.pid]) in more;
    }
  }

  // What the tables already say about the subject of `r`.
  function Stored(t: Tables, r: Row): Row {
    match r
    case Ps(p, _) => if p in t.ps then Ps(p, t.ps[p]) else Blank
    case At(Pre, p, _) => if p in t.pre then At(Pre, p, t.pre[p]) else Blank
    case At(Post, p, _) => if p in t.post then At(Post, p, t.post[p]) else Blank
    case EarlySelf(_) => if t.earlySelf != 0 then EarlySelf(t.earlySelf) else Blank
    case LateSelf(_) => if t.lateSelf != 0 then LateSelf(t.lateSelf) else Blank
    case Early(w, _) => if w in t.early then Early(w, t.early[w]) else Blank
    case Late(w, _) => if w in t.late then Late(w, t.late[w]) else Blank
    case _ => Blank
  }

  lemma RefusedByStored(t: Tables, r: Row)
    requires Refuses(t, r) && (r.At? ==> r.pid in t.ps)
    ensures IsRecord(Stored(t, r)) && Holds(t, Stored(t, r))
    ensures !Compatible(r, Stored(t, r)) || (r.At? && Stored(t, r) == r)
  {
  }

  // A refused row shows that no order of the rows could have been accepted.
  lemma RefusalIsJustified(rows: seq<Row>, i: nat, t: Tables)
    requires i < |rows| && PsFirst(rows)
    requires Tabulates(multiset(rows[..i]), t)
    requires !RowOk(rows[i]) || Refuses(t, rows[i])
    ensures !Consistent(multiset(rows))
  {
    var r := rows[i];
    var before, after := multiset(rows[..i]), multiset(rows[i + 1..]);
    assert rows == rows[..i] + [r] + rows[i + 1..];
    assert multiset(rows) == before + multiset{r} + after;
    if RowOk(r) {
      if r.At? && r.pid !in t.ps {
        UnlistedForGood(rows, i, t);
      } else {
        RefusedByStored(t, r);
        assert Stored(t, r) in before;
        assert Stored(t, r) == r ==> multiset(rows)[r] >= 2;
      }
    }
  }

  lemma UnlistedForGood(rows: seq<Row>, i: nat, t: Tables)
    requires i < |rows| && PsFirst(rows) && rows[i].At?
    requires Tabulates(multiset(rows[..i]), t) && rows[i].pid !in t.ps
    ensures !Listed(multiset(rows), rows[i].pid)
  {
    var before, after := multiset(rows[..i]), multiset(rows[i + 1..]);
    assert rows == rows[..i] + [rows[i]] + rows[i + 1..];
    assert multiset(rows) == before + multiset{rows[i]} + after;
    forall row ensures Ps(rows[i].pid, row) !in multiset(rows) {
      assert !Holds(t, Ps(rows[i].pid, row));
      assert forall s | s in rows[i + 1..] :: !s.Ps?;
    }
  }

  // Consistent rows always have tables, so what is said about "the tables of a
  // batch" is about exactly one thing.
  lemma TablesExist(rows: seq<Row>) returns (t: Tables)
    requires PsFirst(rows) && Consistent(multiset(rows))
    ensures Tabulates(multiset(rows), t)
  {
    t := NO_TABLES;
    for i := 0 to |rows|
      invariant Consistent(multiset(rows[..i])) && Tabulates(multiset(rows[..i]), t)
    {
      assert rows[..i + 1] == rows[..i] + [rows[i]];
      if !RowOk(rows[i]) || Refuses(t, rows[i]) {
        RefusalIsJustified(rows, i, t);
      }
      StoreIsFaithful(multiset(rows[..i]), t, rows[i]);
      t := Store(t, rows[i]);
    }
    assert rows[..|rows|] == rows;
  }
}
