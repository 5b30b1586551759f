// What the ownership decision means, stated without any traversal order, and the
// safety properties of that meaning.
module Ownership {
  import opened Options
  import opened Chains
  import opened ProcessTables

  // The runner's logical pid, the logical pid of the shell that enumerates, and the
  // identity the runner was pinned to by an earlier sample.
  datatype Runner = Runner(pid: nat, enumOwner: nat, pinnedWin: Option<nat>, pinnedBirth: Option<nat>)

  // ----- certification of one logical row

  predicate LiveAt(endpoints: map<nat, Endpoint>, p: nat) {
    p in endpoints && endpoints[p].Live?
  }

  // The Windows id the early endpoint read mapped the row to; 0 when there is none.
  function Anchor(t: Tables, p: nat): nat {
    if LiveAt(t.pre, p) then t.pre[p].win else 0
  }

  predicate Certified(t: Tables, w: nat) {
    w in t.late && w in t.early && t.early[w] == t.late[w]
  }

  predicate Settled(t: Tables, p: nat) {
    && p in t.ps && !t.ps[p].dead
    && LiveAt(t.pre, p) && LiveAt(t.post, p)
    && t.pre[p].parent == t.post[p].parent == t.ps[p].parent
    && t.pre[p].win == t.post[p].win
  }

  predicate Stable(r: Runner, t: Tables, p: nat) {
    && Settled(t, p)
    && (Anchor(t, p) == t.ps[p].win || (p != r.pid && p != r.enumOwner && Certified(t, Anchor(t, p))))
  }

  predicate MissingPost(r: Runner, t: Tables, p: nat) {
    && p in t.ps && p != r.pid && p != r.enumOwner && !t.ps[p].dead
    && LiveAt(t.pre, p) && p in t.post && t.post[p].Missing?
    && t.pre[p].parent == t.ps[p].parent && t.pre[p].win == t.ps[p].win
    && Certified(t, Anchor(t, p))
  }

  // The walk from `start` may pass through row `p`.
  predicate Passable(r: Runner, t: Tables, start: nat, p: nat) {
    Stable(r, t, p) || (start != r.enumOwner && MissingPost(r, t, p))
  }

  predicate RowContinuous(r: Runner, t: Tables, p: nat) {
    && p in t.pre && p in t.post
    && (Stable(r, t, p) ==> Certified(t, Anchor(t, p)))
  }

  predicate Continuous(r: Runner, t: Tables) {
    && Stable(r, t, r.pid)
    && r.enumOwner > 0 && Stable(r, t, r.enumOwner)
    && t.earlySelf > 0 && t.earlySelf in t.early
    && t.lateSelf > 0 && t.lateSelf in t.late
    && forall p | p in t.ps :: RowContinuous(r, t, p)
  }

  function RunnerWin(r: Runner, t: Tables): nat
    requires Continuous(r, t)
  {
    t.ps[r.pid].win
  }

  // When the runner's Windows process was created.
  function Created(r: Runner, t: Tables): nat
    requires Continuous(r, t)
  {
    assert RowContinuous(r, t, r.pid);
    t.late[t.ps[r.pid].win].birth
  }

  // Two samples may never disagree on who the runner is.
  predicate PinHolds(r: Runner, t: Tables)
    requires Continuous(r, t)
  {
    || (r.pinnedWin.None? && r.pinnedBirth.None?)
    || (r.pinnedWin == Some(RunnerWin(r, t)) && r.pinnedBirth == Some(Created(r, t)))
  }

  // ----- the logical (MSYS) tree

  function LogicalStep(r: Runner, t: Tables, start: nat): map<nat, nat> {
    map p | p in t.ps && Passable(r, t, start, p) && p != r.pid :: t.ps[p].parent
  }

  // The row reaches the runner over certified rows only.
  ghost predicate Hits(r: Runner, t: Tables, p: nat) {
    p in t.ps && Ends(LogicalStep(r, t, p), p, r.pid)
  }

  ghost function Roots(r: Runner, t: Tables): set<nat> {
    set p | p in t.ps && Hits(r, t, p) :: Anchor(t, p)
  }

  // Some sampled parent edge says the row may belong to the runner.
  predicate MayDescend(t: Tables, p: nat, s: set<nat>)
    requires p in t.ps
  {
    || t.ps[p].parent in s
    || (LiveAt(t.pre, p) && t.pre[p].parent in s)
    || (LiveAt(t.post, p) && t.post[p].parent in s)
  }

  ghost predicate ClosedUnderEdges(r: Runner, t: Tables, s: set<nat>) {
    r.pid in s && forall p | p in t.ps && MayDescend(t, p, s) :: p in s
  }

  // The least set that holds the runner and is closed under sampled parent edges.
  ghost function Possible(r: Runner, t: Tables): set<nat> {
    set p | p in t.ps.Keys + {r.pid} && forall s: set<nat> | ClosedUnderEdges(r, t, s) :: p in s
  }

  lemma PossibleIsLeast(r: Runner, t: Tables, s: set<nat>)
    requires ClosedUnderEdges(r, t, s)
    ensures ClosedUnderEdges(r, t, Possible(r, t)) && Possible(r, t) <= s
  {
    var least := Possible(r, t);
    forall p | p in t.ps && MayDescend(t, p, least) ensures p in least {
      forall s: set<nat> | ClosedUnderEdges(r, t, s) ensures p in s {
        assert least <= s;
        assert MayDescend(t, p, s);
      }
    }
  }

  // Windows ids a row was ever mapped to by one of its three reads.
  function MappedWins(t: Tables, p: nat): set<nat> {
    (if p in t.ps then {t.ps[p].win} else {})
    + (if LiveAt(t.pre, p) then {t.pre[p].win} else {})
    + (if LiveAt(t.post, p) then {t.post[p].win} else {})
  }

  ghost function Uncertain(r: Runner, t: Tables, possible: set<nat>, roots: set<nat>): set<nat> {
    set p, w | p in possible && w in MappedWins(t, p) && w > 0 && w !in roots :: w
  }

  // The enumerating shell's own path to the runner, which owns no counted process.
  function BookStep(r: Runner, t: Tables, roots: set<nat>): map<nat, nat> {
    map p | p in t.ps && p != r.pid && Stable(r, t, p) && t.ps[p].win in roots :: t.ps[p].parent
  }

  ghost function Book(r: Runner, t: Tables, roots: set<nat>): set<nat> {
    set p | p in t.ps && p in BookStep(r, t, roots) && Visits(BookStep(r, t, roots), r.enumOwner, p) :: t.ps[p].win
  }

  // ----- the Windows tree

  // Parent edges of the late snapshot. A parent born after its child holds a
  // recycled pid, so that edge is not ancestry.
  function Chrono(t: Tables): map<nat, nat> {
    map w | w in t.late && 0 < t.late[w].parent && t.late[w].parent in t.late
            && t.late[t.late[w].parent].birth <= t.late[w].birth :: t.late[w].parent
  }

  function ChronoUpTo(t: Tables, stops: set<nat>): map<nat, nat> {
    map w | w in Chrono(t) && w !in stops :: Chrono(t)[w]
  }

  // `e` is the first member of `stops` on the ancestry of `w`.
  ghost predicate FirstStop(t: Tables, stops: set<nat>, w: nat, e: nat) {
    e in stops && w in t.late && Ends(ChronoUpTo(t, stops), w, e)
  }

  ghost predicate Owned(t: Tables, roots: set<nat>, book: set<nat>, w: nat) {
    exists e :: FirstStop(t, roots + book, w, e) && e in roots && e !in book
  }

  ghost predicate Bookkeeping(t: Tables, roots: set<nat>, book: set<nat>, w: nat) {
    exists e :: FirstStop(t, roots + book, w, e) && e in book
  }

  function Lower(c: char): char {
    if 'A' <= c <= 'Z' then c - 'A' + 'a' else c
  }

  function LowerAll(s: string): (l: string)
    ensures |l| == |s| && forall i | 0 <= i < |s| :: l[i] == Lower(s[i])
  {
    if s == [] then [] else [Lower(s[0])] + LowerAll(s[1..])
  }

  predicate IsNode(row: WinRow) {
    LowerAll(row.name) == "node.exe"
  }

  // A node process that could belong to the runner, with nothing to certify either way.
  ghost predicate Ambiguous(t: Tables, roots: set<nat>, book: set<nat>, uncertain: set<nat>, w: nat) {
    && w in t.late && IsNode(t.late[w])
    && !Owned(t, roots, book, w) && !Bookkeeping(t, roots, book, w)
    && exists u :: u in uncertain && u !in roots + book && Visits(ChronoUpTo(t, roots + book), w, u)
  }

  // ----- the decision

  // The walk over every late process no older than the runner ends, undisputed.
  ghost predicate WindowsTreeOk(t: Tables, created: nat, roots: set<nat>, book: set<nat>, uncertain: set<nat>) {
    forall w | w in t.late && created <= t.late[w].birth ::
      !Cycles(ChronoUpTo(t, roots + book), w) && !Ambiguous(t, roots, book, uncertain, w)
  }

  ghost predicate LogicalTreeOk(r: Runner, t: Tables) {
    && (forall p | p in t.ps :: !Cycles(LogicalStep(r, t, p), p))
    && r.enumOwner in t.ps && t.ps[r.enumOwner].win in Roots(r, t)
  }

  ghost predicate RootsAreYounger(t: Tables, created: nat, roots: set<nat>) {
    forall w | w in roots && w in t.late :: created <= t.late[w].birth
  }

  ghost predicate Accepts(r: Runner, t: Tables) {
    && Continuous(r, t)
    && PinHolds(r, t)
    && LogicalTreeOk(r, t)
    && var roots := Roots(r, t);
    && RootsAreYounger(t, Created(r, t), roots)
    && WindowsTreeOk(t, Created(r, t), roots, Book(r, t, roots), Uncertain(r, t, Possible(r, t), roots))
  }

  // The late processes the runner owns, without itself and the snapshot's own process.
  ghost function OwnedWins(r: Runner, t: Tables): set<nat>
    requires Continuous(r, t)
  {
    var roots := Roots(r, t);
    set w | w in t.late && Owned(t, roots, Book(r, t, roots), w) && w != RunnerWin(r, t) && w != t.lateSelf
  }

  // ----- lemmas about the two trees

  lemma HitIsCertified(r: Runner, t: Tables, p: nat)
    requires Continuous(r, t) && Hits(r, t, p)
    ensures Passable(r, t, p, p) && Certified(t, Anchor(t, p)) && Anchor(t, p) in t.late
  {
    if p != r.pid {
      var step := LogicalStep(r, t, p);
      var xs :| ChainFromTo(step, xs, p, r.pid);
      assert xs[0] in step;
    }
    assert RowContinuous(r, t, p);
  }

  lemma {:induction false} BirthsNeverRise(t: Tables, xs: seq<nat>, i: nat, j: nat)
    requires Chain(Chrono(t), xs) && i <= j < |xs| && xs[0] in t.late
    ensures xs[i] in t.late && xs[j] in t.late && t.late[xs[j]].birth <= t.late[xs[i]].birth
    decreases j
  {
    if i < j {
      BirthsNeverRise(t, xs, i, j - 1);
      assert xs[j - 1] in Chrono(t) && xs[j] == Chrono(t)[xs[j - 1]];
    } else if j > 0 {
      BirthsNeverRise(t, xs, j - 1, j - 1);
      assert xs[j - 1] in Chrono(t) && xs[j] == Chrono(t)[xs[j - 1]];
    }
  }

  // A walk that stops early is a walk on the whole tree that meets no stop before its end.
  lemma UpToChain(t: Tables, stops: set<nat>, xs: seq<nat>)
    requires Chain(ChronoUpTo(t, stops), xs)
    ensures Chain(Chrono(t), xs) && forall i | 0 <= i < |xs| - 1 :: xs[i] !in stops
  {
    ChainInLargerMap(ChronoUpTo(t, stops), Chrono(t), xs);
  }

  // ----- soundness

  lemma OwnedAncestry(t: Tables, roots: set<nat>, book: set<nat>, w: nat) returns (xs: seq<nat>, e: nat)
    requires Owned(t, roots, book, w)
    ensures ChainFromTo(Chrono(t), xs, w, e) && e in roots
    ensures forall i | 0 <= i < |xs| :: xs[i] in t.late && xs[i] !in book
    ensures forall i, j | 0 <= i <= j < |xs| :: t.late[xs[j]].birth <= t.late[xs[i]].birth
  {
    e :| FirstStop(t, roots + book, w, e) && e in roots && e !in book;
    xs :| ChainFromTo(ChronoUpTo(t, roots + book), xs, w, e);
    UpToChain(t, roots + book, xs);
    forall i, j | 0 <= i <= j < |xs|
      ensures xs[i] in t.late && xs[j] in t.late && t.late[xs[j]].birth <= t.late[xs[i]].birth
    {
      BirthsNeverRise(t, xs, i, j);
    }
    forall i | 0 <= i < |xs| ensures xs[i] !in book {
      if i < |xs| - 1 {
        assert xs[i] !in roots + book;
      }
    }
  }

  lemma RootOrigin(r: Runner, t: Tables, w: nat) returns (p: nat)
    requires Continuous(r, t) && w in Roots(r, t)
    ensures Hits(r, t, p) && Anchor(t, p) == w && Certified(t, w)
  {
    p :| p in t.ps && Hits(r, t, p) && Anchor(t, p) == w;
    HitIsCertified(r, t, p);
  }

  // The evidence that makes an output process count: a finite ancestry, ever older,
  // free of bookkeeping, up to a process that is the same in both snapshots, is no
  // older than the runner, and is what the early read mapped a row to that reaches
  // the runner over certified rows.
  ghost predicate OwnershipEvidence(r: Runner, t: Tables, book: set<nat>, w: nat, xs: seq<nat>, p: nat)
    requires Continuous(r, t)
  {
    && ChainFromTo(Chrono(t), xs, w, Anchor(t, p))
    && (forall i | 0 <= i < |xs| :: xs[i] in t.late && xs[i] !in book)
    && (forall i, j | 0 <= i <= j < |xs| :: t.late[xs[j]].birth <= t.late[xs[i]].birth)
    && Certified(t, Anchor(t, p)) && Created(r, t) <= t.late[Anchor(t, p)].birth
    && Hits(r, t, p)
  }

  lemma OwnershipIsSound(r: Runner, t: Tables, w: nat) returns (xs: seq<nat>, p: nat)
    requires Accepts(r, t)
    requires Owned(t, Roots(r, t), Book(r, t, Roots(r, t)), w)
    ensures OwnershipEvidence(r, t, Book(r, t, Roots(r, t)), w, xs, p)
    ensures Created(r, t) <= t.late[w].birth
  {
    var roots := Roots(r, t);
    var e;
    xs, e := OwnedAncestry(t, roots, Book(r, t, roots), w);
    p := RootOrigin(r, t, e);
    assert t.late[xs[|xs| - 1]].birth <= t.late[xs[0]].birth;
  }

  // ----- late evidence

  // The samples agree on the process table, the early endpoint reads and the late
  // snapshot; the late endpoint reads and the early snapshot may differ at will.
  ghost predicate SameCountedTables(r1: Runner, t1: Tables, r2: Runner, t2: Tables) {
    && r1.pid == r2.pid && r1.enumOwner == r2.enumOwner
    && t1.ps == t2.ps && t1.pre == t2.pre && t1.late == t2.late && t1.lateSelf == t2.lateSelf
  }

  function PsParents(t: Tables): map<nat, nat> {
    map p | p in t.ps :: t.ps[p].parent
  }

  lemma {:induction false} PsChainIsPossible(r: Runner, t: Tables, xs: seq<nat>, k: nat)
    requires Chain(PsParents(t), xs) && k < |xs| && xs[|xs| - 1] == r.pid
    ensures xs[k] in Possible(r, t)
    decreases |xs| - k
  {
    PossibleIsLeast(r, t, t.ps.Keys + {r.pid});
    if k < |xs| - 1 {
      PsChainIsPossible(r, t, xs, k + 1);
      assert MayDescend(t, xs[k], Possible(r, t));
    }
  }

  // Possible ownership ignores which rows were certified, so a row that reached the
  // runner in one sample is possibly owned in the other.
  lemma HitStaysPossible(r1: Runner, t1: Tables, r2: Runner, t2: Tables, p: nat)
    requires SameCountedTables(r1, t1, r2, t2) && Hits(r1, t1, p)
    ensures p in Possible(r2, t2)
  {
    var step := LogicalStep(r1, t1, p);
    var xs :| ChainFromTo(step, xs, p, r1.pid);
    ChainInLargerMap(step, PsParents(t2), xs);
    PsChainIsPossible(r2, t2, xs, 0);
  }

  // A root of one sample is a root of the other, or suspicious there.
  lemma RootStaysSuspicious(r1: Runner, t1: Tables, r2: Runner, t2: Tables, w: nat)
    requires Continuous(r1, t1) && SameCountedTables(r1, t1, r2, t2)
    requires w in Roots(r1, t1)
    ensures w in Roots(r2, t2) || w in Uncertain(r2, t2, Possible(r2, t2), Roots(r2, t2))
  {
    var p :| p in t1.ps && Hits(r1, t1, p) && Anchor(t1, p) == w;
    HitIsCertified(r1, t1, p);
    HitStaysPossible(r1, t1, r2, t2, p);
    assert w in MappedWins(t2, p);
  }

  // The first root of one accepted sample lies on the walk the other sample makes,
  // unless that walk meets a stop of its own before.
  lemma WalkReachesOldRoot(t1: Tables, stops1: set<nat>, t2: Tables, stops2: set<nat>, w: nat, e1: nat, e2: nat)
    requires t1.late == t2.late
    requires FirstStop(t1, stops1, w, e1) && Ends(ChronoUpTo(t2, stops2), w, e2) && e2 !in stops2
    ensures Visits(ChronoUpTo(t2, stops2), w, e1)
  {
    var xs :| ChainFromTo(ChronoUpTo(t1, stops1), xs, w, e1);
    var ys :| ChainFromTo(ChronoUpTo(t2, stops2), ys, w, e2);
    UpToChain(t1, stops1, xs);
    UpToChain(t2, stops2, ys);
    EndingChainIsLongest(Chrono(t2), xs, ys);
    assert ChainFromTo(ChronoUpTo(t2, stops2), xs, w, e1);
  }

  lemma SameWalkSameVerdict(t1: Tables, roots1: set<nat>, book1: set<nat>, t2: Tables, roots2: set<nat>,
                            book2: set<nat>, uncertain2: set<nat>, w: nat)
    requires t1.late == t2.late && Owned(t1, roots1, book1, w) && IsNode(t1.late[w])
    requires forall e | e in roots1 :: e in roots2 || e in uncertain2
    requires !Cycles(ChronoUpTo(t2, roots2 + book2), w) && !Ambiguous(t2, roots2, book2, uncertain2, w)
    ensures Owned(t2, roots2, book2, w) || Bookkeeping(t2, roots2, book2, w)
  {
    var stops1, stops2 := roots1 + book1, roots2 + book2;
    var e1 :| FirstStop(t1, stops1, w, e1) && e1 in roots1 && e1 !in book1;
    var e2 := EndsOrCycles(ChronoUpTo(t2, stops2), w);
    if e2 in stops2 {
      assert FirstStop(t2, stops2, w, e2);
    } else {
      WalkReachesOldRoot(t1, stops1, t2, stops2, w, e1, e2);
      WalkPassesNoStop(t2, stops2, w, e1, e2);
    }
  }

  // Late endpoint reads and the early snapshot can turn a count into a refusal, but
  // never into a different count: between two accepted samples with the same
  // counted tables, an owned node process stays owned, unless its ancestry meets the
  // enumerator's own path first.
  lemma LateEvidenceOnlyRefuses(r1: Runner, t1: Tables, r2: Runner, t2: Tables, w: nat)
    requires Accepts(r1, t1) && Accepts(r2, t2) && SameCountedTables(r1, t1, r2, t2)
    requires w in OwnedWins(r1, t1) && IsNode(t1.late[w])
    ensures w in OwnedWins(r2, t2) || Bookkeeping(t2, Roots(r2, t2), Book(r2, t2, Roots(r2, t2)), w)
  {
    var roots1, roots2 := Roots(r1, t1), Roots(r2, t2);
    var book1, book2 := Book(r1, t1, roots1), Book(r2, t2, roots2);
    var uncertain2 := Uncertain(r2, t2, Possible(r2, t2), roots2);
    var xs, p := OwnershipIsSound(r1, t1, w);
    forall e | e in roots1 ensures e in roots2 || e in uncertain2 {
      RootStaysSuspicious(r1, t1, r2, t2, e);
    }
    SameWalkSameVerdict(t1, roots1, book1, t2, roots2, book2, uncertain2, w);
  }

  // A walk that ends off every stop passes no stop.
  lemma WalkPassesNoStop(t: Tables, stops: set<nat>, w: nat, e: nat, end: nat)
    requires Visits(ChronoUpTo(t, stops), w, e) && Ends(ChronoUpTo(t, stops), w, end) && end !in stops
    ensures e !in stops
    ensures forall s | s in stops :: !FirstStop(t, stops, w, s)
  {
    var step := ChronoUpTo(t, stops);
    var xs :| ChainFromTo(step, xs, w, e);
    var ys :| ChainFromTo(step, ys, w, end);
    EndingChainIsLongest(step, xs, ys);
    assert ys[|xs| - 1] == e;
    forall s | s in stops ensures !FirstStop(t, stops, w, s) {
      if Ends(step, w, s) {
        EndIsUnique(step, w, s, end);
      }
    }
  }

  // ----- failing closed

  lemma UnstoppedWalk(t: Tables, stops: set<nat>, w: nat, u: nat)
    requires forall v | Visits(Chrono(t), w, v) :: v !in stops
    requires Visits(Chrono(t), w, u)
    ensures Visits(ChronoUpTo(t, stops), w, u)
    ensures forall e :: !FirstStop(t, stops, w, e)
  {
    var xs :| ChainFromTo(Chrono(t), xs, w, u);
    forall i | 0 <= i < |xs| ensures xs[i] !in stops {
      assert ChainFromTo(Chrono(t), xs[..i + 1], w, xs[i]);
    }
    assert ChainFromTo(ChronoUpTo(t, stops), xs, w, u);
    forall e ensures !FirstStop(t, stops, w, e) {
      if Ends(ChronoUpTo(t, stops), w, e) {
        var ys :| ChainFromTo(ChronoUpTo(t, stops), ys, w, e);
        UpToChain(t, stops, ys);
        assert ChainFromTo(Chrono(t), ys, w, e);
      }
    }
  }

  // On success, a late node process no older than the runner whose ancestry shows no
  // root and no bookkeeping shows no Windows id of a possibly owned row either.
  lemma NothingAmbiguousIsCountedAsZero(r: Runner, t: Tables, w: nat, u: nat, p: nat)
    requires Accepts(r, t)
    requires w in t.late && IsNode(t.late[w]) && Created(r, t) <= t.late[w].birth
    requires forall v | Visits(Chrono(t), w, v) :: v !in Roots(r, t) + Book(r, t, Roots(r, t))
    requires Visits(Chrono(t), w, u)
    requires p in Possible(r, t) && u > 0
    ensures u !in MappedWins(t, p)
  {
    var roots := Roots(r, t);
    var book := Book(r, t, roots);
    UnstoppedWalk(t, roots + book, w, u);
    UncertainIds(r, t, Possible(r, t), roots, p, u);
    assert !Owned(t, roots, book, w) && !Bookkeeping(t, roots, book, w);
    assert !Ambiguous(t, roots, book, Uncertain(r, t, Possible(r, t), roots), w);
  }

  lemma UncertainIds(r: Runner, t: Tables, possible: set<nat>, roots: set<nat>, p: nat, u: nat)
    requires p in possible && u > 0 && u !in roots
    ensures u in MappedWins(t, p) ==> u in Uncertain(r, t, possible, roots)
  {
  }
}
