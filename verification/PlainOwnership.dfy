// The decision once more, spelled out in the fields of the tables and in paths written
// as sequences, without any of the notions of `Ownership`; and that both are the same.
module PlainOwnership {
  import opened Options
  import opened Chains
  import opened ProcessTables
  import Ownership

  type Runner = Ownership.Runner

  // ----- one logical row

  // The row is not dead, and its early read found it alive under the listed parent.
  predicate Present(t: Tables, p: nat) {
    && p in t.ps && !t.ps[p].dead
    && p in t.pre && t.pre[p].Live? && t.pre[p].parent == t.ps[p].parent
  }

  // The late read found it alive, with the parent and the Windows id of the early one.
  predicate Reread(t: Tables, p: nat) {
    && p in t.pre && t.pre[p].Live? && p in t.post && t.post[p].Live?
    && t.post[p].parent == t.pre[p].parent && t.post[p].win == t.pre[p].win
  }

  // The late read found it gone, and the early Windows id is the listed one.
  predicate GoneLater(t: Tables, p: nat) {
    p in t.ps && p in t.pre && t.pre[p].Live? && p in t.post && t.post[p].Missing? && t.pre[p].win == t.ps[p].win
  }

  // Both snapshots say the same of the process.
  predicate SameTwice(t: Tables, w: nat) {
    && w in t.early && w in t.late && t.early[w].parent == t.late[w].parent
    && t.early[w].name == t.late[w].name && t.early[w].birth == t.late[w].birth
  }

  predicate Ordinary(r: Runner, p: nat) {
    p != r.pid && p != r.enumOwner
  }

  // Read twice alike; a Windows id other than the listed one needs both snapshots, and is
  // never granted to the runner or the enumerator.
  predicate Steady(r: Runner, t: Tables, p: nat) {
    && Present(t, p) && Reread(t, p)
    && (t.pre[p].win == t.ps[p].win || (Ordinary(r, p) && SameTwice(t, t.pre[p].win)))
  }

  predicate Bracketed(r: Runner, t: Tables, p: nat) {
    Present(t, p) && GoneLater(t, p) && Ordinary(r, p) && SameTwice(t, t.pre[p].win)
  }

  predicate MayPass(r: Runner, t: Tables, start: nat, p: nat) {
    Steady(r, t, p) || (start != r.enumOwner && Bracketed(r, t, p))
  }

  // ----- roots

  // Rows from `xs[0]` up the listed parents, each of which may be passed, none but perhaps
  // the last the runner; the last one need not be a row.
  ghost predicate ParentPath(r: Runner, t: Tables, xs: seq<nat>) {
    && xs != []
    && forall i | 0 <= i < |xs| - 1 ::
         xs[i] in t.ps && xs[i] != r.pid && MayPass(r, t, xs[0], xs[i]) && xs[i + 1] == t.ps[xs[i]].parent
  }

  ghost predicate PathToRunner(r: Runner, t: Tables, xs: seq<nat>) {
    ParentPath(r, t, xs) && xs[0] in t.ps && xs[|xs| - 1] == r.pid && MayPass(r, t, xs[0], r.pid)
  }

  ghost predicate ReachesRunner(r: Runner, t: Tables, p: nat) {
    exists xs :: PathToRunner(r, t, xs) && xs[0] == p
  }

  // The early Windows id of a row whose path reaches the runner.
  ghost predicate Root(r: Runner, t: Tables, w: nat) {
    exists p :: ReachesRunner(r, t, p) && p in t.pre && t.pre[p].Live? && t.pre[p].win == w
  }

  ghost predicate ComesBack(xs: seq<nat>) {
    exists i: nat, j: nat :: Meets(xs, i, j)
  }

  predicate Meets(xs: seq<nat>, i: nat, j: nat) {
    i < j < |xs| && xs[i] == xs[j]
  }

  // ----- possible ownership

  // Some read gives row `p` the parent `q`.
  predicate SomeParent(t: Tables, p: nat, q: nat) {
    && p in t.ps
    && (|| t.ps[p].parent == q
        || (p in t.pre && t.pre[p].Live? && t.pre[p].parent == q)
        || (p in t.post && t.post[p].Live? && t.post[p].parent == q))
  }

  ghost predicate EvidencePath(r: Runner, t: Tables, xs: seq<nat>) {
    && xs != [] && xs[|xs| - 1] == r.pid
    && forall i | 0 <= i < |xs| - 1 :: SomeParent(t, xs[i], xs[i + 1])
  }

  ghost predicate MayBelong(r: Runner, t: Tables, p: nat) {
    exists xs :: EvidencePath(r, t, xs) && xs[0] == p
  }

  predicate MapsTo(t: Tables, p: nat, u: nat) {
    || (p in t.ps && t.ps[p].win == u)
    || (p in t.pre && t.pre[p].Live? && t.pre[p].win == u)
    || (p in t.post && t.post[p].Live? && t.post[p].win == u)
  }

  // A Windows id of a row that may belong to the runner, and no root.
  ghost predicate Suspect(r: Runner, t: Tables, u: nat) {
    u > 0 && !Root(r, t, u) && exists p :: MayBelong(r, t, p) && MapsTo(t, p, u)
  }

  // ----- the enumerator's own path

  ghost predicate OwnRow(r: Runner, t: Tables, p: nat) {
    p in t.ps && p != r.pid && Steady(r, t, p) && Root(r, t, t.ps[p].win)
  }

  ghost predicate OwnPath(r: Runner, t: Tables, xs: seq<nat>) {
    && xs != [] && xs[0] == r.enumOwner
    && (forall i | 0 <= i < |xs| :: OwnRow(r, t, xs[i]))
    && forall i | 0 <= i < |xs| - 1 :: xs[i] in t.ps && xs[i + 1] == t.ps[xs[i]].parent
  }

  ghost predicate OnOwnPath(r: Runner, t: Tables, w: nat) {
    exists xs :: OwnPath(r, t, xs) && t.ps[xs[|xs| - 1]].win == w
  }

  // ----- late processes

  // `y` is the listed parent of `x`, and not born after it.
  predicate OlderParent(t: Tables, x: nat, y: nat) {
    x in t.late && y in t.late && y > 0 && t.late[x].parent == y && t.late[y].birth <= t.late[x].birth
  }

  ghost predicate LateEdge(r: Runner, t: Tables, x: nat, y: nat) {
    !Root(r, t, x) && !OnOwnPath(r, t, x) && OlderParent(t, x, y)
  }

  // Up the late parents, with no root and nothing of the enumerator's path before the last.
  ghost predicate LatePath(r: Runner, t: Tables, xs: seq<nat>) {
    && xs != [] && xs[0] in t.late
    && forall i | 0 <= i < |xs| - 1 :: LateEdge(r, t, xs[i], xs[i + 1])
  }

  ghost predicate PathFrom(r: Runner, t: Tables, w: nat, xs: seq<nat>) {
    xs != [] && xs[0] == w && LatePath(r, t, xs)
  }

  ghost predicate Counts(r: Runner, t: Tables, w: nat) {
    exists xs :: PathFrom(r, t, w, xs) && Root(r, t, xs[|xs| - 1]) && !OnOwnPath(r, t, xs[|xs| - 1])
  }

  ghost predicate Keeps(r: Runner, t: Tables, w: nat) {
    exists xs :: PathFrom(r, t, w, xs) && OnOwnPath(r, t, xs[|xs| - 1])
  }

  ghost predicate Doubtful(r: Runner, t: Tables, w: nat) {
    && w in t.late && NamedNode(t.late[w].name) && !Counts(r, t, w) && !Keeps(r, t, w)
    && exists xs :: PathFrom(r, t, w, xs) && Suspect(r, t, xs[|xs| - 1]) && !OnOwnPath(r, t, xs[|xs| - 1])
  }

  // n, o, d, e, dot, e, x, e; each letter small or capital.
  predicate NamedNode(name: string) {
    && |name| == 8
    && (name[0] == 'n' || name[0] == 'N') && (name[1] == 'o' || name[1] == 'O')
    && (name[2] == 'd' || name[2] == 'D') && (name[3] == 'e' || name[3] == 'E') && name[4] == '.'
    && (name[5] == 'e' || name[5] == 'E') && (name[6] == 'x' || name[6] == 'X')
    && (name[7] == 'e' || name[7] == 'E')
  }

  // ----- the decision

  predicate Unbroken(r: Runner, t: Tables) {
    && Steady(r, t, r.pid) && r.enumOwner > 0 && Steady(r, t, r.enumOwner)
    && t.earlySelf > 0 && t.earlySelf in t.early && t.lateSelf > 0 && t.lateSelf in t.late
    && forall p | p in t.ps :: p in t.pre && p in t.post && (Steady(r, t, p) ==> SameTwice(t, t.pre[p].win))
  }

  predicate PinnedAlike(r: Runner, win: nat, birth: nat) {
    || (r.pinnedWin == None && r.pinnedBirth == None)
    || (r.pinnedWin == Some(win) && r.pinnedBirth == Some(birth))
  }

  // The sample is accepted, for a runner with this Windows id and birth.
  ghost predicate Accepted(r: Runner, t: Tables, win: nat, birth: nat) {
    && Unbroken(r, t) && t.ps[r.pid].win == win && win in t.late && t.late[win].birth == birth
    && PinnedAlike(r, win, birth)
    && (forall xs | ParentPath(r, t, xs) && xs[0] in t.ps :: !ComesBack(xs))
    && Root(r, t, t.ps[r.enumOwner].win)
    && (forall w | Root(r, t, w) && w in t.late :: birth <= t.late[w].birth)
    && (forall w, xs | w in t.late && birth <= t.late[w].birth && PathFrom(r, t, w, xs) :: !ComesBack(xs))
    && forall w | w in t.late && birth <= t.late[w].birth :: !Doubtful(r, t, w)
  }

  ghost predicate OwnedExactly(r: Runner, t: Tables, win: nat, owned: set<nat>) {
    forall w :: w in owned <==> w in t.late && Counts(r, t, w) && w != win && w != t.lateSelf
  }

  // ----- it is the decision of `Ownership`

  lemma RowsAgree(r: Runner, t: Tables)
    ensures forall p :: Steady(r, t, p) <==> Ownership.Stable(r, t, p)
    ensures forall q, p :: MayPass(r, t, q, p) <==> Ownership.Passable(r, t, q, p)
    ensures forall w :: SameTwice(t, w) <==> Ownership.Certified(t, w)
  {
  }

  lemma UnbrokenIsContinuous(r: Runner, t: Tables)
    ensures Unbroken(r, t) <==> Ownership.Continuous(r, t)
  {
    RowsAgree(r, t);
    hide Steady, MayPass, SameTwice, Ownership.Stable, Ownership.Passable, Ownership.Certified;
    assert forall p :: Ownership.Stable(r, t, p) ==> p in t.pre && t.pre[p].Live? by {
      StableIsLive(r, t);
    }
  }

  lemma StableIsLive(r: Runner, t: Tables)
    ensures forall p | Ownership.Stable(r, t, p) ::
              p in t.pre && t.pre[p].Live? && Ownership.Anchor(t, p) == t.pre[p].win
  {
  }

  lemma PathIsChain(r: Runner, t: Tables, xs: seq<nat>)
    requires xs != []
    ensures ParentPath(r, t, xs) <==> Chain(Ownership.LogicalStep(r, t, xs[0]), xs)
  {
    RowsAgree(r, t);
    hide Steady, MayPass, SameTwice, Ownership.Stable, Ownership.Passable, Ownership.Certified;
    var step := Ownership.LogicalStep(r, t, xs[0]);
    forall x ensures x in step <==> x in t.ps && MayPass(r, t, xs[0], x) && x != r.pid {
    }
  }

  lemma ReachingIsHitting(r: Runner, t: Tables, p: nat)
    requires Unbroken(r, t)
    ensures ReachesRunner(r, t, p) <==> Ownership.Hits(r, t, p)
  {
    hide Steady, MayPass, Ownership.Stable, Ownership.Passable;
    RunnerPasses(r, t, p);
    var step := Ownership.LogicalStep(r, t, p);
    if xs :| PathToRunner(r, t, xs) && xs[0] == p {
      PathNotEmpty(r, t, xs);
      PathIsChain(r, t, xs);
      assert ChainFromTo(step, xs, p, r.pid);
    }
    if Ownership.Hits(r, t, p) {
      var xs :| ChainFromTo(step, xs, p, r.pid);
      ChainNotEmpty(step, xs);
      PathIsChain(r, t, xs);
      assert PathToRunner(r, t, xs);
    }
  }

  lemma RunnerPasses(r: Runner, t: Tables, p: nat)
    requires Unbroken(r, t)
    ensures MayPass(r, t, p, r.pid)
  {
  }

  lemma PathNotEmpty(r: Runner, t: Tables, xs: seq<nat>)
    requires ParentPath(r, t, xs)
    ensures xs != []
  {
  }

  lemma ChainNotEmpty(step: map<nat, nat>, xs: seq<nat>)
    requires Chain(step, xs)
    ensures xs != []
  {
  }

  lemma RootsAgree(r: Runner, t: Tables)
    requires Unbroken(r, t)
    ensures forall w :: Root(r, t, w) <==> w in Ownership.Roots(r, t)
  {
    UnbrokenIsContinuous(r, t);
    hide Unbroken, Ownership.Continuous, ReachesRunner;
    forall w ensures Root(r, t, w) <==> w in Ownership.Roots(r, t) {
      if p :| ReachesRunner(r, t, p) && p in t.pre && t.pre[p].Live? && t.pre[p].win == w {
        ReachingIsHitting(r, t, p);
        HitIsLive(r, t, p);
      }
      if w in Ownership.Roots(r, t) {
        var p :| p in t.ps && Ownership.Hits(r, t, p) && Ownership.Anchor(t, p) == w;
        ReachingIsHitting(r, t, p);
        HitIsLive(r, t, p);
      }
    }
  }

  lemma HitIsLive(r: Runner, t: Tables, p: nat)
    requires Ownership.Continuous(r, t) && Ownership.Hits(r, t, p)
    ensures p in t.ps && p in t.pre && t.pre[p].Live? && Ownership.Anchor(t, p) == t.pre[p].win
  {
    Ownership.HitIsCertified(r, t, p);
    hide Ownership.Hits, Ownership.Continuous;
  }

  // A chain that comes back somewhere has a beginning that comes back at its end.
  lemma LoopsAgree(step: map<nat, nat>, x: nat)
    ensures (exists xs :: Chain(step, xs) && xs[0] == x && ComesBack(xs)) <==> Cycles(step, x)
  {
    if xs :| Chain(step, xs) && xs[0] == x && ComesBack(xs) {
      var i: nat, j: nat :| Meets(xs, i, j);
      var ys := xs[..j + 1];
      assert ys[..j][i] == xs[i] && ys[|ys| - 1] == xs[j];
      assert Chain(step, ys) && ys[0] == x && Revisits(ys);
    }
    if Cycles(step, x) {
      var xs :| Chain(step, xs) && xs[0] == x && Revisits(xs);
      var n := |xs| - 1;
      var i :| 0 <= i < n && xs[..n][i] == xs[n];
      assert Meets(xs, i, n);
    }
  }

  lemma LogicalLoopsAgree(r: Runner, t: Tables)
    ensures (forall xs | ParentPath(r, t, xs) && xs[0] in t.ps :: !ComesBack(xs))
            <==> forall p | p in t.ps :: !Cycles(Ownership.LogicalStep(r, t, p), p)
  {
    hide ComesBack, Cycles, Ownership.LogicalStep, MayPass;
    forall p | p in t.ps && Cycles(Ownership.LogicalStep(r, t, p), p)
      ensures exists xs :: xs != [] && ParentPath(r, t, xs) && xs[0] in t.ps && ComesBack(xs)
    {
      LoopsAgree(Ownership.LogicalStep(r, t, p), p);
      var xs :| Chain(Ownership.LogicalStep(r, t, p), xs) && xs[0] == p && ComesBack(xs);
      ChainNotEmpty(Ownership.LogicalStep(r, t, p), xs);
      PathIsChain(r, t, xs);
    }
    forall xs | ParentPath(r, t, xs) && xs[0] in t.ps && ComesBack(xs)
      ensures exists p :: p in t.ps && Cycles(Ownership.LogicalStep(r, t, p), p)
    {
      PathNotEmpty(r, t, xs);
      PathIsChain(r, t, xs);
      LoopsAgree(Ownership.LogicalStep(r, t, xs[0]), xs[0]);
    }
  }

  lemma {:induction false} EvidenceIsPossible(r: Runner, t: Tables, xs: seq<nat>)
    requires EvidencePath(r, t, xs)
    ensures xs[0] in Ownership.Possible(r, t)
  {
    Ownership.PossibleIsLeast(r, t, t.ps.Keys + {r.pid});
    if |xs| > 1 {
      assert SomeParent(t, xs[0], xs[1]);
      EvidenceIsPossible(r, t, xs[1..]);
      assert Ownership.MayDescend(t, xs[0], Ownership.Possible(r, t));
    }
  }

  lemma BelongingIsPossible(r: Runner, t: Tables)
    ensures forall p :: MayBelong(r, t, p) <==> p in Ownership.Possible(r, t)
  {
    forall p | MayBelong(r, t, p) ensures p in Ownership.Possible(r, t) {
      var xs :| EvidencePath(r, t, xs) && xs[0] == p;
      EvidenceIsPossible(r, t, xs);
    }
    var all := set p | p in t.ps.Keys + {r.pid} && MayBelong(r, t, p);
    BelongingIsClosed(r, t, all);
    Ownership.PossibleIsLeast(r, t, all);
  }

  lemma BelongingIsClosed(r: Runner, t: Tables, all: set<nat>)
    requires forall p :: p in all <==> p in t.ps.Keys + {r.pid} && MayBelong(r, t, p)
    ensures Ownership.ClosedUnderEdges(r, t, all)
  {
    assert EvidencePath(r, t, [r.pid]);
    assert MayBelong(r, t, r.pid);
    forall p | p in t.ps && Ownership.MayDescend(t, p, all) ensures p in all {
      var q :| q in all && SomeParent(t, p, q);
      var xs :| EvidencePath(r, t, xs) && xs[0] == q;
      assert EvidencePath(r, t, [p] + xs);
    }
  }

  lemma SuspectsAgree(r: Runner, t: Tables)
    requires Unbroken(r, t)
    ensures forall u :: Suspect(r, t, u)
                        <==> u in Ownership.Uncertain(r, t, Ownership.Possible(r, t), Ownership.Roots(r, t))
  {
    RootsAgree(r, t);
    BelongingIsPossible(r, t);
    hide Root, MayBelong, Ownership.Roots, Ownership.Possible, Unbroken;
    forall p, u ensures MapsTo(t, p, u) <==> u in Ownership.MappedWins(t, p) {
    }
    hide MapsTo, Ownership.MappedWins;
  }

  lemma OwnStepIs(r: Runner, t: Tables)
    requires Unbroken(r, t)
    ensures var step := Ownership.BookStep(r, t, Ownership.Roots(r, t));
      forall x :: (x in step <==> OwnRow(r, t, x)) && (x in step ==> step[x] == t.ps[x].parent)
  {
    RootsAgree(r, t);
    RowsAgree(r, t);
    hide Root, Ownership.Roots, Unbroken, Steady, Ownership.Stable, MayPass, Ownership.Passable, ReachesRunner;
  }

  lemma OwnPathsAgree(r: Runner, t: Tables)
    requires Unbroken(r, t)
    ensures forall w :: OnOwnPath(r, t, w) <==> w in Ownership.Book(r, t, Ownership.Roots(r, t))
  {
    OwnStepIs(r, t);
    var roots := Ownership.Roots(r, t);
    var step := Ownership.BookStep(r, t, roots);
    hide Root, Ownership.Roots, Unbroken, Ownership.BookStep, Steady;
    forall w | OnOwnPath(r, t, w) ensures w in Ownership.Book(r, t, roots) {
      var xs :| OwnPath(r, t, xs) && t.ps[xs[|xs| - 1]].win == w;
      var p := xs[|xs| - 1];
      OwnPathIsChain(r, t, step, xs);
      assert ChainFromTo(step, xs, r.enumOwner, p);
    }
    forall w | w in Ownership.Book(r, t, roots) ensures OnOwnPath(r, t, w) {
      var p :| p in t.ps && p in step && Visits(step, r.enumOwner, p) && t.ps[p].win == w;
      var xs :| ChainFromTo(step, xs, r.enumOwner, p);
      OwnPathIsChain(r, t, step, xs);
    }
  }

  lemma OwnPathIsChain(r: Runner, t: Tables, step: map<nat, nat>, xs: seq<nat>)
    requires forall x :: (x in step <==> OwnRow(r, t, x)) && (x in step ==> step[x] == t.ps[x].parent)
    requires xs != []
    ensures OwnPath(r, t, xs) <==> Chain(step, xs) && xs[0] == r.enumOwner && xs[|xs| - 1] in step
  {
    hide Root, Steady;
    if OwnPath(r, t, xs) {
      assert OwnRow(r, t, xs[|xs| - 1]);
    }
    if Chain(step, xs) && xs[|xs| - 1] in step {
      forall i | 0 <= i < |xs| ensures OwnRow(r, t, xs[i]) {
        assert i < |xs| - 1 ==> xs[i] in step;
      }
    }
  }

  ghost function LateSteps(r: Runner, t: Tables): map<nat, nat> {
    Ownership.ChronoUpTo(t, Ownership.Roots(r, t) + Ownership.Book(r, t, Ownership.Roots(r, t)))
  }

  lemma LateStepIs(r: Runner, t: Tables)
    requires Unbroken(r, t)
    ensures forall x, y :: LateEdge(r, t, x, y) <==> x in LateSteps(r, t) && y == LateSteps(r, t)[x]
    ensures forall x | x in LateSteps(r, t) :: LateEdge(r, t, x, LateSteps(r, t)[x])
  {
    RootsAgree(r, t);
    OwnPathsAgree(r, t);
    hide Root, OnOwnPath, Ownership.Roots, Ownership.Book, Unbroken;
  }

  lemma LatePathIsChain(r: Runner, t: Tables, xs: seq<nat>)
    requires Unbroken(r, t) && xs != []
    ensures LatePath(r, t, xs) <==> xs[0] in t.late && Chain(LateSteps(r, t), xs)
  {
    LateStepIs(r, t);
    hide LateEdge, LateSteps, Unbroken;
    var step := LateSteps(r, t);
    if LatePath(r, t, xs) {
      forall i | 0 <= i < |xs| - 1 ensures xs[i] in step && xs[i + 1] == step[xs[i]] {
        assert LateEdge(r, t, xs[i], xs[i + 1]);
      }
    }
  }

  lemma PathFromIsChain(r: Runner, t: Tables, w: nat, xs: seq<nat>)
    requires Unbroken(r, t) && xs != [] && w in t.late
    ensures PathFrom(r, t, w, xs) <==> ChainFromTo(LateSteps(r, t), xs, w, xs[|xs| - 1])
  {
    LatePathIsChain(r, t, xs);
    hide LatePath, LateSteps, Unbroken;
  }

  lemma LateVisits(r: Runner, t: Tables, w: nat, e: nat)
    requires Unbroken(r, t) && w in t.late
    ensures EndsAt(r, t, w, e) <==> Visits(LateSteps(r, t), w, e)
  {
    if xs :| PathFrom(r, t, w, xs) && xs[|xs| - 1] == e {
      PathFromIsChain(r, t, w, xs);
    }
    if Visits(LateSteps(r, t), w, e) {
      var xs :| ChainFromTo(LateSteps(r, t), xs, w, e);
      PathFromIsChain(r, t, w, xs);
    }
  }

  ghost predicate EndsAt(r: Runner, t: Tables, w: nat, e: nat) {
    exists xs :: PathFrom(r, t, w, xs) && xs[|xs| - 1] == e
  }

  lemma StopsAreNoSteps(t: Tables, stops: set<nat>, e: nat)
    requires e in stops
    ensures e !in Ownership.ChronoUpTo(t, stops)
  {
  }

  lemma VerdictsAgree(r: Runner, t: Tables, w: nat)
    requires Unbroken(r, t) && w in t.late
    ensures var roots := Ownership.Roots(r, t);
      var book := Ownership.Book(r, t, roots);
      && (Counts(r, t, w) <==> Ownership.Owned(t, roots, book, w))
      && (Keeps(r, t, w) <==> Ownership.Bookkeeping(t, roots, book, w))
  {
    RootsAgree(r, t);
    OwnPathsAgree(r, t);
    var roots := Ownership.Roots(r, t);
    var book := Ownership.Book(r, t, roots);
    forall e ensures EndsAt(r, t, w, e) <==> Visits(LateSteps(r, t), w, e) {
      LateVisits(r, t, w, e);
    }
    forall e | e in roots + book ensures e !in LateSteps(r, t) {
      StopsAreNoSteps(t, roots + book, e);
    }
    forall e ensures Ownership.FirstStop(t, roots + book, w, e) <==> e in roots + book && EndsAt(r, t, w, e) {
    }
    hide Root, OnOwnPath, Ownership.Roots, Ownership.Book, Unbroken, LateSteps, PathFrom, Ownership.FirstStop;
    CountsIs(r, t, w);
    KeepsIs(r, t, w);
    hide Counts, Keeps, EndsAt;
  }

  lemma CountsIs(r: Runner, t: Tables, w: nat)
    ensures Counts(r, t, w) <==> exists e :: EndsAt(r, t, w, e) && Root(r, t, e) && !OnOwnPath(r, t, e)
  {
    hide Root, OnOwnPath, LatePath;
    if xs :| PathFrom(r, t, w, xs) && Root(r, t, xs[|xs| - 1]) && !OnOwnPath(r, t, xs[|xs| - 1]) {
      assert EndsAt(r, t, w, xs[|xs| - 1]);
    }
    if e :| EndsAt(r, t, w, e) && Root(r, t, e) && !OnOwnPath(r, t, e) {
      var xs :| PathFrom(r, t, w, xs) && xs[|xs| - 1] == e;
    }
  }

  lemma KeepsIs(r: Runner, t: Tables, w: nat)
    ensures Keeps(r, t, w) <==> exists e :: EndsAt(r, t, w, e) && OnOwnPath(r, t, e)
  {
    hide OnOwnPath, LatePath;
    if xs :| PathFrom(r, t, w, xs) && OnOwnPath(r, t, xs[|xs| - 1]) {
      assert EndsAt(r, t, w, xs[|xs| - 1]);
    }
    if e :| EndsAt(r, t, w, e) && OnOwnPath(r, t, e) {
      var xs :| PathFrom(r, t, w, xs) && xs[|xs| - 1] == e;
    }
  }

  lemma DoubtsAgree(r: Runner, t: Tables, w: nat)
    requires Unbroken(r, t) && w in t.late
    ensures var roots := Ownership.Roots(r, t);
      var uncertain := Ownership.Uncertain(r, t, Ownership.Possible(r, t), roots);
      Doubtful(r, t, w) <==> Ownership.Ambiguous(t, roots, Ownership.Book(r, t, roots), uncertain, w)
  {
    VerdictsAgree(r, t, w);
    RootsAgree(r, t);
    OwnPathsAgree(r, t);
    SuspectsAgree(r, t);
    NodeNamesAgree(t.late[w]);
    forall e ensures EndsAt(r, t, w, e) <==> Visits(LateSteps(r, t), w, e) {
      LateVisits(r, t, w, e);
    }
    DoubtfulIs(r, t, w);
    hide Root, OnOwnPath, Ownership.Roots, Ownership.Book, Unbroken, Visits, PathFrom, Ownership.ChronoUpTo;
    hide Counts, Keeps, EndsAt, Doubtful, Ownership.Owned, Ownership.Bookkeeping, Ownership.IsNode, NamedNode;
    hide Ownership.Possible, MayBelong;
  }

  lemma DoubtfulIs(r: Runner, t: Tables, w: nat)
    ensures Doubtful(r, t, w)
            <==> w in t.late && NamedNode(t.late[w].name) && !Counts(r, t, w) && !Keeps(r, t, w)
                 && exists e :: EndsAt(r, t, w, e) && Suspect(r, t, e) && !OnOwnPath(r, t, e)
  {
    hide Root, OnOwnPath, LatePath, Suspect, Counts, Keeps, NamedNode;
    if xs :| PathFrom(r, t, w, xs) && Suspect(r, t, xs[|xs| - 1]) && !OnOwnPath(r, t, xs[|xs| - 1]) {
      assert EndsAt(r, t, w, xs[|xs| - 1]);
    }
    if e :| EndsAt(r, t, w, e) && Suspect(r, t, e) && !OnOwnPath(r, t, e) {
      var xs :| PathFrom(r, t, w, xs) && xs[|xs| - 1] == e;
    }
  }

  lemma LateLoopsAgree(r: Runner, t: Tables, w: nat)
    requires Unbroken(r, t) && w in t.late
    ensures (forall xs | PathFrom(r, t, w, xs) :: !ComesBack(xs)) <==> !Cycles(LateSteps(r, t), w)
  {
    LoopsAgree(LateSteps(r, t), w);
    hide ComesBack, Cycles, LateSteps, LateEdge, Unbroken;
    if xs :| PathFrom(r, t, w, xs) && ComesBack(xs) {
      LatePathIsChain(r, t, xs);
    }
    if xs :| Chain(LateSteps(r, t), xs) && xs[0] == w && ComesBack(xs) {
      LatePathIsChain(r, t, xs);
      assert PathFrom(r, t, w, xs);
    }
  }

  lemma WindowsTreesAgree(r: Runner, t: Tables, birth: nat)
    requires Unbroken(r, t)
    ensures var roots := Ownership.Roots(r, t);
      var uncertain := Ownership.Uncertain(r, t, Ownership.Possible(r, t), roots);
      (&& (forall w, xs | w in t.late && birth <= t.late[w].birth && PathFrom(r, t, w, xs) :: !ComesBack(xs))
       && (forall w | w in t.late && birth <= t.late[w].birth :: !Doubtful(r, t, w)))
      <==> Ownership.WindowsTreeOk(t, birth, roots, Ownership.Book(r, t, roots), uncertain)
  {
    forall w | w in t.late
      ensures (forall xs | PathFrom(r, t, w, xs) :: !ComesBack(xs)) <==> !Cycles(LateSteps(r, t), w)
      ensures var roots := Ownership.Roots(r, t);
        var uncertain := Ownership.Uncertain(r, t, Ownership.Possible(r, t), roots);
        Doubtful(r, t, w) <==> Ownership.Ambiguous(t, roots, Ownership.Book(r, t, roots), uncertain, w)
    {
      LateLoopsAgree(r, t, w);
      DoubtsAgree(r, t, w);
    }
    hide PathFrom, ComesBack, Doubtful, Cycles, Ownership.Ambiguous, Unbroken;
    hide Ownership.Roots, Ownership.Book, Ownership.Uncertain, Ownership.ChronoUpTo;
  }

  // The decision of `Ownership` is the one spelled out here.
  lemma DecisionIsPlain(r: Runner, t: Tables)
    ensures Ownership.Accepts(r, t) <==> exists win, birth :: Accepted(r, t, win, birth)
    ensures Ownership.Accepts(r, t) ==> Accepted(r, t, Ownership.RunnerWin(r, t), Ownership.Created(r, t))
    ensures Ownership.Accepts(r, t)
      ==> OwnedExactly(r, t, Ownership.RunnerWin(r, t), Ownership.OwnedWins(r, t))
  {
    UnbrokenIsContinuous(r, t);
    if Ownership.Accepts(r, t) {
      AcceptsIsPlain(r, t);
      OwnedIsPlain(r, t);
    }
    if win, birth :| Accepted(r, t, win, birth) {
      AcceptsIsPlain(r, t);
    }
  }

  lemma AcceptsIsPlain(r: Runner, t: Tables)
    requires Ownership.Continuous(r, t)
    ensures Ownership.Accepts(r, t) <==> Accepted(r, t, Ownership.RunnerWin(r, t), Ownership.Created(r, t))
  {
    UnbrokenIsContinuous(r, t);
    RunnerIsCertified(r, t);
    LogicalLoopsAgree(r, t);
    RootsAgree(r, t);
    WindowsTreesAgree(r, t, Ownership.Created(r, t));
    hide ParentPath, Root, PathFrom, ComesBack, Doubtful, Cycles, Ownership.WindowsTreeOk, Unbroken;
    hide Ownership.Roots, Ownership.Book, Ownership.Uncertain, Ownership.Continuous, Ownership.LogicalStep;
  }

  lemma RunnerIsCertified(r: Runner, t: Tables)
    requires Ownership.Continuous(r, t)
    ensures r.pid in t.ps && t.ps[r.pid].win in t.late && r.enumOwner in t.ps
  {
    assert Ownership.RowContinuous(r, t, r.pid);
  }

  lemma OwnedIsPlain(r: Runner, t: Tables)
    requires Ownership.Continuous(r, t)
    ensures OwnedExactly(r, t, Ownership.RunnerWin(r, t), Ownership.OwnedWins(r, t))
  {
    UnbrokenIsContinuous(r, t);
    forall w | w in t.late
      ensures var roots := Ownership.Roots(r, t);
        Counts(r, t, w) <==> Ownership.Owned(t, roots, Ownership.Book(r, t, roots), w)
    {
      VerdictsAgree(r, t, w);
    }
    hide Counts, Ownership.Owned, Ownership.Roots, Ownership.Book, Unbroken, Ownership.Continuous;
  }

  lemma NodeNamesAgree(row: WinRow)
    ensures NamedNode(row.name) <==> Ownership.IsNode(row)
  {
    var l := Ownership.LowerAll(row.name);
    if |row.name| == 8 {
      assert l == [l[0], l[1], l[2], l[3], l[4], l[5], l[6], l[7]];
      hide Ownership.LowerAll;
      assert l == "node.exe" <==> && l[0] == 'n' && l[1] == 'o' && l[2] == 'd' && l[3] == 'e'
                                  && l[4] == '.' && l[5] == 'e' && l[6] == 'x' && l[7] == 'e';
    }
  }
}
