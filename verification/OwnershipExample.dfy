// A sample that is accepted and counts a node process: the acceptance conditions can
// be met, and met with something to count.
module OwnershipExample {
  import opened Options
  import opened Chains
  import opened ProcessTables
  import opened Ownership

  const RUNNER := Runner(10, 11, None, None)
  const PS := map[10 := PsRow(1, 100, false), 11 := PsRow(10, 110, false), 12 := PsRow(10, 120, false)]
  const ENDS: map<nat, Endpoint> := map[10 := Live(1, 3, 100), 11 := Live(10, 3, 110), 12 := Live(10, 3, 120)]
  const SHELLS :=
    map[100 := WinRow(1, "bash.exe", 5), 110 := WinRow(100, "bash.exe", 6), 120 := WinRow(100, "bash.exe", 6)]
  const EARLY := SHELLS[141 := WinRow(110, "powershell.exe", 7)]
  const LATE := SHELLS[130 := WinRow(120, "Node.exe", 7)][140 := WinRow(110, "powershell.exe", 8)]
  const SAMPLE := Tables(PS, ENDS, ENDS, EARLY, LATE, 141, 140)

  lemma SampleIsContinuous()
    ensures Continuous(RUNNER, SAMPLE)
    ensures forall p | p in PS :: Stable(RUNNER, SAMPLE, p)
    ensures Created(RUNNER, SAMPLE) == 5
  {
  }

  lemma SampleHits(p: nat)
    requires p in PS
    ensures Hits(RUNNER, SAMPLE, p) && !Cycles(LogicalStep(RUNNER, SAMPLE, p), p)
  {
    SampleIsContinuous();
    var step := LogicalStep(RUNNER, SAMPLE, p);
    var xs := if p == 10 then [10] else [p, 10];
    assert ChainFromTo(step, xs, p, 10);
    EndsExcludesCycle(step, p, 10);
  }

  lemma SampleRoots()
    ensures Roots(RUNNER, SAMPLE) == {100, 110, 120}
  {
    forall p | p in PS ensures Hits(RUNNER, SAMPLE, p) {
      SampleHits(p);
    }
    hide Hits, Anchor;
    forall w ensures w in Roots(RUNNER, SAMPLE) <==> w in {100, 110, 120} {
      SampleAnchors(w);
      SampleRoot(w);
    }
  }

  lemma SampleRoot(w: nat)
    requires forall p | p in PS :: Hits(RUNNER, SAMPLE, p)
    ensures w in Roots(RUNNER, SAMPLE) <==> exists p :: p in PS && Anchor(SAMPLE, p) == w
  {
  }

  lemma SampleAnchors(w: nat)
    ensures (exists p :: p in PS && Anchor(SAMPLE, p) == w) <==> w in {100, 110, 120}
  {
    assert Anchor(SAMPLE, 10) == 100 && Anchor(SAMPLE, 11) == 110 && Anchor(SAMPLE, 12) == 120;
    assert PS.Keys == {10, 11, 12};
  }

  lemma SampleIsCertain(possible: set<nat>)
    ensures Uncertain(RUNNER, SAMPLE, possible, {100, 110, 120}) == {}
  {
  }

  lemma SampleBook()
    ensures Book(RUNNER, SAMPLE, {100, 110, 120}) == {110}
  {
    SampleIsContinuous();
    hide Continuous, Created;
    var step := BookStep(RUNNER, SAMPLE, {100, 110, 120});
    assert step == map[11 := 10, 12 := 10];
    assert ChainFromTo(step, [11], 11, 11);
    forall p | p in step ensures Visits(step, 11, p) <==> p == 11 {
      VisitsIsOnPath(step, [11, 10], p);
    }
    hide BookStep, Visits;
    assert SAMPLE.ps[11].win in Book(RUNNER, SAMPLE, {100, 110, 120});
  }

  lemma SampleWalk(w: nat, e: nat, xs: seq<nat>)
    requires (w, e, xs) in {(100, 100, [100]), (110, 110, [110]), (120, 120, [120]), (130, 120, [130, 120]),
                            (140, 110, [140, 110])}
    ensures FirstStop(SAMPLE, {100, 110, 120} + {110}, w, e)
    ensures !Cycles(ChronoUpTo(SAMPLE, {100, 110, 120} + {110}), w)
  {
    var step := ChronoUpTo(SAMPLE, {100, 110, 120} + {110});
    assert ChainFromTo(step, xs, w, e);
    EndsExcludesCycle(step, w, e);
  }

  lemma SampleOwns()
    ensures Owned(SAMPLE, {100, 110, 120}, {110}, 130)
  {
    SampleWalk(130, 120, [130, 120]);
    hide FirstStop;
  }

  lemma SampleNeverCycles(w: nat)
    requires w in LATE
    ensures !Cycles(ChronoUpTo(SAMPLE, {100, 110, 120} + {110}), w)
  {
    if w == 130 {
      SampleWalk(130, 120, [130, 120]);
    } else if w == 140 {
      SampleWalk(140, 110, [140, 110]);
    } else {
      SampleWalk(w, w, [w]);
    }
  }

  lemma SampleTree()
    ensures WindowsTreeOk(SAMPLE, 5, {100, 110, 120}, {110}, {})
  {
    forall w | w in LATE ensures !Cycles(ChronoUpTo(SAMPLE, {100, 110, 120} + {110}), w) {
      SampleNeverCycles(w);
    }
    hide Cycles, ChronoUpTo;
  }

  lemma SampleLogicalTree()
    ensures LogicalTreeOk(RUNNER, SAMPLE)
  {
    forall p | p in PS ensures !Cycles(LogicalStep(RUNNER, SAMPLE, p), p) {
      SampleHits(p);
    }
    SampleRoots();
    hide Cycles, LogicalStep, Roots;
  }

  lemma AcceptedSampleExists()
    ensures Accepts(RUNNER, SAMPLE) && 130 in OwnedWins(RUNNER, SAMPLE) && IsNode(SAMPLE.late[130])
  {
    SampleIsContinuous();
    SampleRoots();
    SampleBook();
    SampleIsCertain(Possible(RUNNER, SAMPLE));
    SampleTree();
    SampleOwns();
    SampleLogicalTree();
    NodeName();
    hide Continuous, Stable, Roots, Book, Uncertain, WindowsTreeOk, LogicalTreeOk, Owned, Created, LowerAll;
    assert RootsAreYounger(SAMPLE, 5, {100, 110, 120});
  }

  lemma NodeName()
    ensures LowerAll("Node.exe") == "node.exe"
  {
    var l := LowerAll("Node.exe");
    assert l[0] == Lower('N') && l[1] == Lower('o') && l[2] == Lower('d') && l[3] == Lower('e');
    assert l[4] == Lower('.') && l[5] == Lower('e') && l[6] == Lower('x') && l[7] == Lower('e');
    assert l == [l[0], l[1], l[2], l[3], l[4], l[5], l[6], l[7]];
  }
}
