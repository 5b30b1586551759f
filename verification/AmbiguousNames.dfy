// How far "never count zero on ambiguity" reaches: it protects processes by their name.
module AmbiguousNames {
  import opened Options
  import opened Chains
  import opened ProcessTables
  import opened Ownership
  import opened NodeCount

  // A late process no older than the runner with nothing certified on its ancestry, but
  // with the Windows id of a possibly owned row on it.
  ghost predicate PossiblyOwned(r: Runner, t: Tables, w: nat) {
    && Continuous(r, t) && w in t.late && Created(r, t) <= t.late[w].birth
    && (forall v | Visits(Chrono(t), w, v) :: v !in Roots(r, t) + Book(r, t, Roots(r, t)))
    && exists u, p :: MapsOnto(r, t, w, u, p)
  }

  ghost predicate MapsOnto(r: Runner, t: Tables, w: nat, u: nat, p: nat) {
    u > 0 && Visits(Chrono(t), w, u) && p in Possible(r, t) && u in MappedWins(t, p)
  }

  // Such a process in a sample that is accepted: it is not counted, and nothing is refused.
  ghost predicate Overlooks(r: Runner, t: Tables, w: nat) {
    Accepts(r, t) && PossiblyOwned(r, t, w)
  }

  lemma OverlookedIsNotCounted(r: Runner, t: Tables, w: nat)
    requires Overlooks(r, t, w)
    ensures w !in OwnedWins(r, t)
  {
    hide Roots, Book, Possible, Accepts;
    var u, p :| MapsOnto(r, t, w, u, p);
    UnstoppedWalk(t, Roots(r, t) + Book(r, t, Roots(r, t)), w, u);
  }

  lemma OverlookedIsNotNodeExe(r: Runner, t: Tables, w: nat)
    requires Overlooks(r, t, w)
    ensures !IsNode(t.late[w])
  {
    hide Roots, Book, Possible, Accepts, MappedWins, LowerAll;
    var u, p :| MapsOnto(r, t, w, u, p);
    if IsNode(t.late[w]) {
      NothingAmbiguousIsCountedAsZero(r, t, w, u, p);
    }
  }

  // ----- a sample that overlooks a process of any other name

  const RUNNER := Runner(10, 11, None, None)
  const PS := map[10 := PsRow(1, 100, false), 11 := PsRow(10, 110, false), 12 := PsRow(10, 150, false)]
  const ENDS: map<nat, Endpoint> := map[10 := Live(1, 3, 100), 11 := Live(10, 3, 110), 12 := Transition]
  const SHELLS := map[100 := WinRow(1, "bash.exe", 5), 110 := WinRow(100, "bash.exe", 6)]
  const EARLY := SHELLS[141 := WinRow(110, "powershell.exe", 7)]

  function Late(name: string): map<nat, WinRow> {
    SHELLS[140 := WinRow(110, "powershell.exe", 8)][150 := WinRow(0, name, 9)]
  }

  function Sample(name: string): Tables {
    Tables(PS, ENDS, ENDS, EARLY, Late(name), 141, 140)
  }

  lemma SampleIsContinuous(name: string)
    ensures Continuous(RUNNER, Sample(name)) && Created(RUNNER, Sample(name)) == 5
    ensures forall p | p in PS :: Stable(RUNNER, Sample(name), p) <==> p != 12
    ensures forall p, q | p in PS :: Passable(RUNNER, Sample(name), q, p) <==> p != 12
  {
  }

  lemma SampleSteps(name: string, p: nat)
    ensures LogicalStep(RUNNER, Sample(name), p) == map[11 := 10]
  {
    SampleIsContinuous(name);
    hide Continuous, Stable, Passable, Created;
  }

  lemma SampleHits(name: string, p: nat)
    requires p in PS
    ensures Hits(RUNNER, Sample(name), p) <==> p != 12
    ensures !Cycles(LogicalStep(RUNNER, Sample(name), p), p)
  {
    SampleSteps(name, p);
    var step: map<nat, nat> := map[11 := 10];
    var xs := if p == 11 then [11, 10] else [p];
    assert ChainFromTo(step, xs, p, xs[|xs| - 1]);
    EndsExcludesCycle(step, p, xs[|xs| - 1]);
    if Ends(step, p, 10) {
      EndIsUnique(step, p, xs[|xs| - 1], 10);
    }
  }

  lemma SampleRoots(name: string)
    ensures Roots(RUNNER, Sample(name)) == {100, 110}
  {
    var t := Sample(name);
    assert Anchor(t, 10) == 100 && Anchor(t, 11) == 110 && PS.Keys == {10, 11, 12};
    SampleHits(name, 10);
    SampleHits(name, 11);
    SampleHits(name, 12);
    hide Hits, Anchor, LogicalStep;
    forall w ensures w in Roots(RUNNER, t) <==> w in {100, 110} {
      if w in Roots(RUNNER, t) {
        var p :| p in PS && Hits(RUNNER, t, p) && Anchor(t, p) == w;
      }
    }
  }

  lemma SampleBook(name: string)
    ensures Book(RUNNER, Sample(name), {100, 110}) == {110}
  {
    SampleIsContinuous(name);
    hide Continuous, Created, Stable, Passable;
    var step := BookStep(RUNNER, Sample(name), {100, 110});
    assert step == map[11 := 10];
    assert ChainFromTo(step, [11], 11, 11);
    forall p | p in step ensures Visits(step, 11, p) <==> p == 11 {
      VisitsIsOnPath(step, [11, 10], p);
    }
    hide BookStep, Visits;
    assert Sample(name).ps[11].win in Book(RUNNER, Sample(name), {100, 110});
  }

  // The walk of each late process up to the stops.
  lemma SampleWalk(name: string, w: nat)
    requires w in Late(name)
    ensures !Cycles(ChronoUpTo(Sample(name), {100, 110}), w)
    ensures w == 150 ==> forall v | Visits(Chrono(Sample(name)), w, v) :: v == 150
  {
    var step := ChronoUpTo(Sample(name), {100, 110});
    var xs := if w == 140 then [140, 110] else [w];
    assert ChainFromTo(step, xs, w, xs[|xs| - 1]);
    EndsExcludesCycle(step, w, xs[|xs| - 1]);
    if w == 150 {
      forall v | Visits(Chrono(Sample(name)), 150, v) ensures v == 150 {
        VisitsIsOnPath(Chrono(Sample(name)), [150], v);
      }
    }
  }

  lemma SampleIsPossible(name: string)
    ensures 12 in Possible(RUNNER, Sample(name)) && 150 in MappedWins(Sample(name), 12)
  {
    var t := Sample(name);
    var all := t.ps.Keys + {10};
    assert ClosedUnderEdges(RUNNER, t, all);
    PossibleIsLeast(RUNNER, t, all);
    assert MayDescend(t, 12, Possible(RUNNER, t));
  }

  lemma OtherNames()
    ensures LowerAll("bash.exe") != "node.exe" && LowerAll("powershell.exe") != "node.exe"
  {
    assert LowerAll("bash.exe")[0] == 'b' && LowerAll("powershell.exe")[0] == 'p';
  }

  lemma NoneIsNode(name: string)
    requires LowerAll(name) != "node.exe"
    ensures forall w | w in Late(name) :: !IsNode(Late(name)[w])
  {
    OtherNames();
    hide LowerAll;
  }

  // Without cycles and without a node process, nothing is disputed.
  lemma NothingDisputed(t: Tables, created: nat, roots: set<nat>, book: set<nat>, uncertain: set<nat>)
    requires forall w | w in t.late :: !IsNode(t.late[w]) && !Cycles(ChronoUpTo(t, roots + book), w)
    ensures WindowsTreeOk(t, created, roots, book, uncertain)
  {
    hide IsNode, Cycles, ChronoUpTo, Owned, Bookkeeping, Visits;
  }

  lemma SampleTree(name: string, uncertain: set<nat>)
    requires LowerAll(name) != "node.exe"
    ensures WindowsTreeOk(Sample(name), 5, {100, 110}, {110}, uncertain)
  {
    hide IsNode, LowerAll, Cycles, ChronoUpTo, WindowsTreeOk, Late;
    NoneIsNode(name);
    assert {100, 110} + {110} == {100, 110};
    forall w | w in Late(name) ensures !Cycles(ChronoUpTo(Sample(name), {100, 110}), w) {
      SampleWalk(name, w);
    }
    NothingDisputed(Sample(name), 5, {100, 110}, {110}, uncertain);
  }

  lemma SampleLogicalTree(name: string)
    ensures LogicalTreeOk(RUNNER, Sample(name))
  {
    hide Cycles, LogicalStep, Roots, Hits;
    forall p | p in PS ensures !Cycles(LogicalStep(RUNNER, Sample(name), p), p) {
      SampleHits(name, p);
    }
    SampleRoots(name);
  }

  lemma SampleIsAccepted(name: string)
    requires LowerAll(name) != "node.exe"
    ensures Accepts(RUNNER, Sample(name))
  {
    hide Continuous, Stable, Passable, Roots, Book, Uncertain, WindowsTreeOk, Created, LowerAll, LogicalTreeOk,
         Possible;
    var t := Sample(name);
    SampleIsContinuous(name);
    SampleRoots(name);
    SampleBook(name);
    SampleTree(name, Uncertain(RUNNER, t, Possible(RUNNER, t), {100, 110}));
    SampleLogicalTree(name);
    assert RootsAreYounger(t, 5, {100, 110});
  }

  lemma SampleOverlooks(name: string)
    requires LowerAll(name) != "node.exe"
    ensures Overlooks(RUNNER, Sample(name), 150) && Sample(name).late[150].name == name
  {
    SampleIsAccepted(name);
    hide Accepts, LowerAll;
    SampleIsPossiblyOwned(name);
  }

  lemma SampleIsPossiblyOwned(name: string)
    ensures PossiblyOwned(RUNNER, Sample(name), 150)
  {
    hide Continuous, Stable, Passable, Roots, Book, Possible, Created, MappedWins, Visits, Chrono, ChronoUpTo, Cycles;
    var t := Sample(name);
    SampleIsContinuous(name);
    SampleRoots(name);
    SampleBook(name);
    SampleWalk(name, 150);
    SampleIsPossible(name);
    SampleStartsAtItself(name);
    assert MapsOnto(RUNNER, t, 150, 150, 12);
  }

  lemma SampleStartsAtItself(name: string)
    ensures Visits(Chrono(Sample(name)), 150, 150)
  {
    assert ChainFromTo(Chrono(Sample(name)), [150], 150, 150);
  }

  // The exact condition on the name: an ambiguous process is overlooked in some accepted
  // sample if and only if it is not called node.exe.
  lemma OverlookedNames(name: string)
    ensures (exists r, t, w :: Overlooks(r, t, w) && t.late[w].name == name) <==> LowerAll(name) != "node.exe"
  {
    hide Accepts, Continuous, Possible, Roots, Book, LowerAll;
    if r, t, w :| Overlooks(r, t, w) && t.late[w].name == name {
      OverlookedIsNotNodeExe(r, t, w);
    }
    if LowerAll(name) != "node.exe" {
      SampleOverlooks(name);
    }
  }

  // The names that the count takes for node are more: a process called node is counted
  // when it is owned, and overlooked when its ownership is ambiguous.
  lemma NodeIsOverlooked()
    ensures NodeName("node") && exists r, t, w :: Overlooks(r, t, w) && t.late[w].name == "node"
  {
    var l := LowerAll("node");
    assert |l| == 4 && l[0] == 'n' && l[1] == 'o' && l[2] == 'd' && l[3] == 'e';
    assert l == "node";
    OverlookedNames("node");
  }
}
