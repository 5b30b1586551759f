// The one-pass classifier: it fills tables row by row, then walks both trees with a
// single shared table of visit stamps. Every loop over a table takes its keys in an
// arbitrary order.
module Classifier {
  import opened Chains
  import opened ProcessTables
  import opened Ownership
  import opened PlainRows
  import PlainOwnership

  // `owned` holds the Windows ids of the rows printed after the runner's line.
  datatype Verdict =
    | Refused
    | Counted(win: nat, birth: nat, start: nat, owned: set<nat>)

  function RunnerStart(r: Runner, t: Tables): nat
    requires Continuous(r, t)
  {
    t.pre[r.pid].start
  }

  ghost predicate Decides(r: Runner, t: Tables, v: Verdict) {
    if Accepts(r, t) then
      v == Counted(RunnerWin(r, t), Created(r, t), RunnerStart(r, t), OwnedWins(r, t))
    else
      v == Refused
  }

  class State {
    const runner: Runner
    var ps: map<nat, PsRow>
    var pre: map<nat, Endpoint>
    var post: map<nat, Endpoint>
    var early: map<nat, WinRow>
    var late: map<nat, WinRow>
    var earlySelf: nat
    var lateSelf: nat
    var error: bool

    var seen: map<nat, nat>
    var walk: nat
    var root: set<nat>
    var possible: set<nat>
    var uncertain: set<nat>
    var book: set<nat>
    var output: set<nat>

    constructor (runner: Runner)
      ensures this.runner == runner && !error && GetTables() == NO_TABLES
      ensures StampsInPast() && root == {} && book == {} && output == {} && uncertain == {}
    {
      this.runner := runner;
      ps, pre, post, early, late := map[], map[], map[], map[], map[];
      earlySelf, lateSelf, error := 0, 0, false;
      seen, walk := map[], 0;
      root, possible, uncertain, book, output := {}, {}, {}, {}, {};
    }

    function GetTables(): Tables
      reads `ps, `pre, `post, `early, `late, `earlySelf, `lateSelf
    {
      Tables(ps, pre, post, early, late, earlySelf, lateSelf)
    }

    // No stamp belongs to a walk that has not started.
    predicate StampsInPast()
      reads `seen, `walk
    {
      forall k | k in seen :: seen[k] <= walk
    }

    // ----- reading

    method ReadRow(row: Row)
      modifies `ps, `pre, `post, `early, `late, `earlySelf, `lateSelf, `error
      ensures error == (old(error) || !RowOk(row) || Refuses(old(GetTables()), row))
      ensures !error ==> GetTables() == Store(old(GetTables()), row)
    {
      match row {
        case Blank =>
        case PsHeader =>
        case Broken =>
          error := true;
        case Ps(p, entry) =>
          if p == 0 {
            error := true;
          } else if p in ps && ps[p] != entry {
            error := true;
          } else {
            ps := ps[p := entry];
          }
        case At(phase, p, state) =>
          if p == 0 || p !in ps {
            error := true;
          } else if (phase.Pre? && p in pre) || (phase.Post? && p in post) {
            error := true;
          } else {
            if state.Malformed? {
              error := true;
            }
            if phase.Pre? {
              pre := pre[p := state];
            } else {
              post := post[p := state];
            }
          }
        case EarlySelf(w) =>
          if w == 0 || (earlySelf != 0 && earlySelf != w) {
            error := true;
          }
          earlySelf := w;
        case LateSelf(w) =>
          if w == 0 || (lateSelf != 0 && lateSelf != w) {
            error := true;
          }
          lateSelf := w;
        case Early(w, entry) =>
          if !ValidTimestamp(entry.birth) || (w in early && early[w] != entry) {
            error := true;
          } else {
            early := early[w := entry];
          }
        case Late(w, entry) =>
          if !ValidTimestamp(entry.birth) || (w in late && late[w] != entry) {
            error := true;
          } else {
            late := late[w := entry];
          }
      }
    }

    method ReadRows(rows: seq<Row>)
      requires !error && GetTables() == NO_TABLES
      modifies `ps, `pre, `post, `early, `late, `earlySelf, `lateSelf, `error
      ensures !error ==> Consistent(multiset(rows)) && Tabulates(multiset(rows), GetTables())
      ensures error && PsFirst(rows) ==> !Consistent(multiset(rows))
    {
      for i := 0 to |rows|
        invariant !error ==> Consistent(multiset(rows[..i])) && Tabulates(multiset(rows[..i]), GetTables())
        invariant error && PsFirst(rows) ==> !Consistent(multiset(rows))
      {
        ghost var before := GetTables();
        ghost var failed := error;
        ReadRow(rows[i]);
        assert rows[..i + 1] == rows[..i] + [rows[i]];
        if !error {
          StoreIsFaithful(multiset(rows[..i]), before, rows[i]);
        } else if !failed && PsFirst(rows) {
          RefusalIsJustified(rows, i, before);
        }
      }
      assert rows[..|rows|] == rows;
    }

    // ----- deciding

    method CheckContinuity()
      modifies `error
      ensures error == (old(error) || !Continuous(runner, GetTables()))
    {
      var t := GetTables();
      if runner.pid !in ps || !Stable(runner, t, runner.pid) {
        error := true;
      }
      if runner.enumOwner == 0 || runner.enumOwner !in ps || !Stable(runner, t, runner.enumOwner) {
        error := true;
      }
      ghost var bad := error;
      var todo := ps.Keys;
      while todo != {}
        invariant todo <= ps.Keys
        invariant error == (bad || !(forall p | p in ps && p !in todo :: RowContinuous(runner, t, p)))
        decreases todo
      {
        var p :| p in todo;
        todo := todo - {p};
        assert RowContinuous(runner, t, p) ==
               (p in pre && p in post && (Stable(runner, t, p) ==> Certified(t, Anchor(t, p))));
        if p !in pre || p !in post {
          error := true;
        }
        if Stable(runner, t, p) && Anchor(t, p) !in late {
          error := true;
        }
        if Stable(runner, t, p) && Anchor(t, p) in late {
          var w := Anchor(t, p);
          if w !in early {
            error := true;
          } else if early[w] != late[w] {
            error := true;
          }
        }
      }
      if earlySelf == 0 || earlySelf !in early {
        error := true;
      }
      if lateSelf == 0 || lateSelf !in late {
        error := true;
      }
    }

    // One walk up the logical tree. `hit` says that it reached the runner.
    method WalkToRunner(start: nat) returns (hit: bool)
      requires start in ps && StampsInPast()
      requires Stable(runner, GetTables(), runner.pid)
      modifies `seen, `walk, `error
      ensures StampsInPast()
      ensures hit <==> Hits(runner, GetTables(), start)
      ensures error == (old(error) || Cycles(LogicalStep(runner, GetTables(), start), start))
    {
      ghost var path, cycled;
      hit, path, cycled := FollowLogical(start, LogicalStep(runner, GetTables(), start));
      LogicalResultOf(LogicalStep(runner, GetTables(), start), path, runner.pid, cycled);
    }

    method FollowLogical(start: nat, ghost step: map<nat, nat>)
      returns (hit: bool, ghost path: seq<nat>, ghost cycled: bool)
      requires start in ps && StampsInPast()
      requires Stable(runner, GetTables(), runner.pid)
      requires step == LogicalStep(runner, GetTables(), start)
      modifies `seen, `walk, `error
      ensures StampsInPast()
      ensures error == (old(error) || cycled)
      ensures Chain(step, path) && path[0] == start
      ensures if cycled then Revisits(path) else path[|path| - 1] !in step
      ensures hit <==> !cycled && path[|path| - 1] == runner.pid
    {
      var t := GetTables();
      hit, cycled := false, false;
      walk := walk + 1;
      var cur := start;
      path := [start];
      while cur in ps
        invariant Walking(step, seen, walk, path) && path[0] == start && path[|path| - 1] == cur
        invariant !hit && !cycled && error == old(error)
        decreases step.Keys - Members(path[..|path| - 1])
      {
        if cur in seen && seen[cur] == walk {
          error := true;
          cycled := true;
          return;
        }
        ghost var before := seen;
        seen := seen[cur := walk];
        if !Stable(runner, t, cur) && !(start != runner.enumOwner && MissingPost(runner, t, cur)) {
          break;
        }
        if cur == runner.pid {
          hit := true;
          break;
        }
        path := StepOn(step, before, seen, walk, path);
        cur := ps[cur].parent;
      }
    }

    // The roots: the mapped Windows process of every row that reaches the runner.
    method MarkRoots(created: nat)
      requires Stable(runner, GetTables(), runner.pid) && StampsInPast() && root == {}
      modifies `seen, `walk, `error, `root
      ensures StampsInPast()
      ensures root == RootsAmong(runner, GetTables(), created, ps.Keys)
      ensures error == (old(error) || CycleAmong(runner, GetTables(), ps.Keys)
                                   || StaleAmong(runner, GetTables(), created, ps.Keys))
    {
      var t := GetTables();
      NoRows(runner, t, created);
      hide Stable, Hits, Cycles, CycleAmong, StaleAmong, RootsAmong, LogicalStep;
      ghost var done := {};
      var todo := ps.Keys;
      while todo != {}
        invariant todo + done == ps.Keys && StampsInPast()
        invariant Stable(runner, t, runner.pid)
        invariant error == (old(error) || CycleAmong(runner, t, done) || StaleAmong(runner, t, created, done))
        invariant root == RootsAmong(runner, t, created, done)
        decreases todo
      {
        var p :| p in todo;
        todo := todo - {p};
        var hit := WalkToRunner(p);
        var win := Anchor(t, p);
        if hit && win > 0 && win in late {
          if late[win].birth < created {
            error := true;
          } else {
            root := root + {win};
          }
        }
        AddRow(runner, t, created, done, p);
        done := done + {p};
      }
      assert done == ps.Keys;
    }

    // Follow every sampled parent edge that could lead to the runner.
    method ClosePossible()
      modifies `possible
      ensures possible == Possible(runner, GetTables())
    {
      var t := GetTables();
      possible := {runner.pid};
      var changed := true;
      while changed
        invariant runner.pid in possible && possible <= ps.Keys + {runner.pid}
        invariant forall s | ClosedUnderEdges(runner, t, s) :: possible <= s
        invariant !changed ==> ClosedUnderEdges(runner, t, possible)
        decreases ps.Keys - possible, changed
      {
        changed := false;
        ghost var start := possible;
        var todo := ps.Keys;
        while todo != {}
          invariant todo <= ps.Keys
          invariant start <= possible <= ps.Keys + {runner.pid}
          invariant forall s | ClosedUnderEdges(runner, t, s) :: possible <= s
          invariant changed <==> possible != start
          invariant !changed ==> forall p | p in ps && p !in todo && MayDescend(t, p, possible) :: p in possible
          decreases todo
        {
          var p :| p in todo;
          todo := todo - {p};
          if p !in possible && MayDescend(t, p, possible) {
            possible := possible + {p};
            changed := true;
          }
        }
      }
      PossibleIsLeast(runner, t, possible);
    }

    // Windows ids of possibly owned rows that were not certified as roots.
    method CollectUncertain()
      requires uncertain == {}
      modifies `uncertain
      ensures uncertain == Uncertain(runner, GetTables(), possible, root)
    {
      var t := GetTables();
      ghost var done := {};
      var todo := possible;
      assert Uncertain(runner, t, done, root) == {};
      hide Uncertain;
      while todo != {}
        invariant todo + done == possible
        invariant uncertain == Uncertain(runner, t, done, root)
        decreases todo
      {
        var p :| p in todo;
        todo := todo - {p};
        AddPossible(runner, t, done, root, p);
        done := done + {p};
        if p in ps {
          NoteUncertain(ps[p].win);
        }
        if LiveAt(pre, p) {
          NoteUncertain(pre[p].win);
        }
        if LiveAt(post, p) {
          NoteUncertain(post[p].win);
        }
      }
      assert done == possible;
    }

    method NoteUncertain(win: nat)
      modifies `uncertain
      ensures uncertain == old(uncertain) + NewIds({win}, root)
    {
      if win > 0 && win !in root {
        uncertain := uncertain + {win};
      }
    }

    // The enumerating shell's own certified path to the runner.
    method MarkBook()
      requires StampsInPast() && book == {}
      modifies `seen, `walk, `error, `book
      ensures StampsInPast()
      ensures error == (old(error) || Cycles(BookStep(runner, GetTables(), root), runner.enumOwner))
      ensures !Cycles(BookStep(runner, GetTables(), root), runner.enumOwner) ==> book == Book(runner, GetTables(), root)
    {
      ghost var path, cycled := WalkBook(BookStep(runner, GetTables(), root));
      if cycled {
        assert Revisits(path);
      } else {
        BookResult(runner, GetTables(), root, path);
      }
    }

    method WalkBook(ghost step: map<nat, nat>) returns (ghost path: seq<nat>, ghost cycled: bool)
      requires StampsInPast() && book == {}
      requires step == BookStep(runner, GetTables(), root)
      modifies `seen, `walk, `error, `book
      ensures StampsInPast()
      ensures error == (old(error) || cycled)
      ensures Chain(step, path) && path[0] == runner.enumOwner
      ensures if cycled then Revisits(path) else path[|path| - 1] !in step
      ensures book == WinsOn(GetTables(), path[..|path| - 1])
    {
      var t := GetTables();
      cycled := false;
      walk := walk + 1;
      var cur := runner.enumOwner;
      path := [cur];
      while cur in ps && cur != runner.pid
        invariant Walking(step, seen, walk, path) && path[0] == runner.enumOwner && path[|path| - 1] == cur
        invariant error == old(error) && !cycled
        invariant book == WinsOn(t, path[..|path| - 1])
        decreases step.Keys - Members(path[..|path| - 1])
      {
        if cur in seen && seen[cur] == walk {
          error := true;
          cycled := true;
          return;
        }
        ghost var before := seen;
        seen := seen[cur := walk];
        var win := ps[cur].win;
        if !Stable(runner, t, cur) || win !in root {
          break;
        }
        book := book + {win};
        WinsOnLonger(t, path);
        path := StepOn(step, before, seen, walk, path);
        cur := ps[cur].parent;
      }
    }

    // One walk up the Windows tree, to the first root or bookkeeping process.
    method WalkToStop(w: nat) returns (owned: bool, bookkeeping: bool, ambiguous: bool)
      requires w in late && StampsInPast()
      modifies `seen, `walk, `error
      ensures StampsInPast()
      ensures error == (old(error) || Cycles(ChronoUpTo(GetTables(), root + book), w))
      ensures !Cycles(ChronoUpTo(GetTables(), root + book), w) ==>
        && owned == Owned(GetTables(), root, book, w)
        && bookkeeping == Bookkeeping(GetTables(), root, book, w)
        && (!owned && !bookkeeping ==> ambiguous == Touches(GetTables(), root + book, uncertain, w))
    {
      ghost var path, cycled;
      owned, bookkeeping, ambiguous, path, cycled := FollowParents(w, ChronoUpTo(GetTables(), root + book));
      if cycled {
        assert Revisits(path);
      } else {
        WalkResult(GetTables(), root, book, uncertain, path);
      }
    }

    method FollowParents(w: nat, ghost step: map<nat, nat>)
      returns (owned: bool, bookkeeping: bool, ambiguous: bool, ghost path: seq<nat>, ghost cycled: bool)
      requires w in late && StampsInPast()
      requires step == ChronoUpTo(GetTables(), root + book)
      modifies `seen, `walk, `error
      ensures StampsInPast()
      ensures error == (old(error) || cycled)
      ensures Chain(step, path) && path[0] == w && path[|path| - 1] in late
      ensures if cycled then Revisits(path) else path[|path| - 1] !in step
      ensures !cycled ==>
        && owned == (path[|path| - 1] in root && path[|path| - 1] !in book)
        && bookkeeping == (path[|path| - 1] in book)
        && (!owned && !bookkeeping ==> ambiguous == (Members(path) * uncertain != {}))
    {
      owned, bookkeeping, ambiguous, cycled := false, false, false, false;
      walk := walk + 1;
      var cur := w;
      path := [w];
      while cur in late
        invariant Walking(step, seen, walk, path) && path[0] == w && path[|path| - 1] == cur && cur in late
        invariant error == old(error) && !owned && !bookkeeping && !cycled
        invariant ambiguous <==> Members(path[..|path| - 1]) * uncertain != {}
        decreases step.Keys - Members(path[..|path| - 1])
      {
        if cur in seen && seen[cur] == walk {
          error := true;
          cycled := true;
          return;
        }
        ghost var before := seen;
        seen := seen[cur := walk];
        if cur in book {
          bookkeeping := true;
          break;
        }
        if cur in root {
          owned := true;
          break;
        }
        if cur in uncertain {
          ambiguous := true;
        }
        MembersLonger(path, uncertain);
        var parent := late[cur].parent;
        if parent == 0 || parent !in late {
          break;
        }
        if late[cur].birth < late[parent].birth {
          break;
        }
        path := StepOn(step, before, seen, walk, path);
        cur := parent;
      }
    }

    // Judge one late process: refuse, or say whether the runner owns it.
    method JudgeProcess(created: nat, w: nat) returns (owns: bool)
      requires w in late && StampsInPast()
      modifies `seen, `walk, `error
      ensures StampsInPast()
      ensures error == (old(error) || !Undisputed(GetTables(), created, root, book, uncertain, w))
      ensures !error ==> owns == (created <= late[w].birth && Owned(GetTables(), root, book, w))
    {
      owns := false;
      if late[w].birth < created {
        return;
      }
      var owned, bookkeeping, ambiguous := WalkToStop(w);
      if ambiguous && !owned && !bookkeeping && IsNode(late[w]) {
        error := true;
      }
      owns := owned && !bookkeeping;
      if !Cycles(ChronoUpTo(GetTables(), root + book), w) && owned {
        OwnedIsNotBookkeeping(GetTables(), root, book, w);
      }
    }

    method SelectOutput(created: nat, runnerWin: nat)
      requires StampsInPast() && output == {}
      modifies `seen, `walk, `error, `output
      ensures error == (old(error) || !UndisputedAmong(GetTables(), created, root, book, uncertain, late.Keys))
      ensures !error ==> output == OwnedAmong(GetTables(), created, root, book, late.Keys) - {runnerWin, lateSelf}
    {
      hide Owned, Undisputed;
      ghost var t := GetTables();
      ghost var done := {};
      var todo := late.Keys;
      while todo != {}
        invariant todo + done == late.Keys && StampsInPast()
        invariant error == (old(error) || !UndisputedAmong(t, created, root, book, uncertain, done))
        invariant !error ==> output == OwnedAmong(t, created, root, book, done) - {runnerWin, lateSelf}
        decreases todo
      {
        var w :| w in todo;
        todo := todo - {w};
        var owns := JudgeProcess(created, w);
        if owns && w != runnerWin && w != lateSelf {
          output := output + {w};
        }
        AddProcess(t, created, root, book, uncertain, done, w);
        done := done + {w};
      }
      assert done == late.Keys;
    }

    // The END block: every check, in the source's order.
    method Finish() returns (v: Verdict)
      requires StampsInPast() && root == {} && book == {} && output == {} && uncertain == {}
      modifies `error, `seen, `walk, `root, `possible, `uncertain, `book, `output
      ensures !old(error) ==> Decides(runner, GetTables(), v)
      ensures old(error) ==> v == Refused
    {
      CheckContinuity();
      if error {
        return Refused;
      }
      v := FinishContinuous();
    }

    // Everything the logical tree contributes, before any late process is judged.
    method WalkLogicalTree(created: nat)
      requires StampsInPast() && root == {} && book == {} && uncertain == {}
      requires Stable(runner, GetTables(), runner.pid) && runner.enumOwner in ps
      modifies `error, `seen, `walk, `root, `possible, `uncertain, `book
      ensures StampsInPast()
      ensures LogicalResult(runner, GetTables(), created, root, possible, uncertain, book)
      ensures error == (old(error) || LogicalFault(runner, GetTables(), created, root))
    {
      hide Uncertain, Possible, BookStep, Book, Cycles, Stable, CycleAmong, StaleAmong;
      MarkRoots(created);
      ClosePossible();
      CollectUncertain();
      if ps[runner.enumOwner].win !in root {
        error := true;
      }
      MarkBook();
    }

    method JudgeSample(created: nat, runnerWin: nat)
      requires StampsInPast() && root == {} && book == {} && output == {} && uncertain == {}
      requires Stable(runner, GetTables(), runner.pid) && runner.enumOwner in ps
      modifies `error, `seen, `walk, `root, `possible, `uncertain, `book, `output
      ensures Judged(runner, GetTables(), created, runnerWin, output, old(error), error)
    {
      hide LogicalResult, LogicalFault, UndisputedAmong, OwnedAmong, Stable;
      WalkLogicalTree(created);
      SelectOutput(created, runnerWin);
      assert JudgedWith(runner, GetTables(), created, runnerWin, root, possible, uncertain, book, output,
                        old(error), error);
    }

    method FinishContinuous() returns (v: Verdict)
      requires StampsInPast() && root == {} && book == {} && output == {} && uncertain == {} && !error
      requires Continuous(runner, GetTables())
      modifies `error, `seen, `walk, `root, `possible, `uncertain, `book, `output
      ensures Decides(runner, GetTables(), v)
    {
      assert Stable(runner, GetTables(), runner.pid) && runner.enumOwner in ps;
      hide Accepts, Continuous, Stable, Judged, OwnedWins;
      var t := GetTables();
      var created, runnerWin := Created(runner, t), RunnerWin(runner, t);
      if !PinHolds(runner, t) {
        error := true;
      }
      JudgeSample(created, runnerWin);
      FinishDecides(runner, t, output, error);
      if error {
        return Refused;
      }
      return Counted(runnerWin, created, RunnerStart(runner, t), output);
    }
  }

  predicate Stale(t: Tables, created: nat, w: nat) {
    w in t.late && t.late[w].birth < created
  }

  ghost predicate CycleAmong(r: Runner, t: Tables, rows: set<nat>) {
    exists p :: p in rows && Cycles(LogicalStep(r, t, p), p)
  }

  ghost predicate StaleAmong(r: Runner, t: Tables, created: nat, rows: set<nat>) {
    exists p :: p in rows && Hits(r, t, p) && Anchor(t, p) > 0 && Stale(t, created, Anchor(t, p))
  }

  ghost predicate Mapped(r: Runner, t: Tables, created: nat, p: nat) {
    Hits(r, t, p) && Anchor(t, p) > 0 && Anchor(t, p) in t.late && !Stale(t, created, Anchor(t, p))
  }

  ghost function RootsAmong(r: Runner, t: Tables, created: nat, rows: set<nat>): set<nat> {
    set p | p in rows && Mapped(r, t, created, p) :: Anchor(t, p)
  }

  lemma NoRows(r: Runner, t: Tables, created: nat)
    ensures !CycleAmong(r, t, {}) && !StaleAmong(r, t, created, {}) && RootsAmong(r, t, created, {}) == {}
  {
  }

  lemma AddRow(r: Runner, t: Tables, created: nat, rows: set<nat>, p: nat)
    ensures CycleAmong(r, t, rows + {p}) <==> CycleAmong(r, t, rows) || Cycles(LogicalStep(r, t, p), p)
    ensures StaleAmong(r, t, created, rows + {p}) <==>
      (StaleAmong(r, t, created, rows) || (Hits(r, t, p) && Anchor(t, p) > 0 && Stale(t, created, Anchor(t, p))))
    ensures RootsAmong(r, t, created, rows + {p}) == RootsAmong(r, t, created, rows)
      + (if Mapped(r, t, created, p) then {Anchor(t, p)} else {})
  {
  }

  function NewIds(wins: set<nat>, roots: set<nat>): set<nat> {
    set w | w in wins && w > 0 && w !in roots
  }

  lemma AddPossible(r: Runner, t: Tables, rows: set<nat>, roots: set<nat>, p: nat)
    ensures Uncertain(r, t, rows + {p}, roots)
         == Uncertain(r, t, rows, roots)
            + (if p in t.ps then NewIds({t.ps[p].win}, roots) else {})
            + (if LiveAt(t.pre, p) then NewIds({t.pre[p].win}, roots) else {})
            + (if LiveAt(t.post, p) then NewIds({t.post[p].win}, roots) else {})
  {
    assert Uncertain(r, t, rows + {p}, roots) == Uncertain(r, t, rows, roots) + NewIds(MappedWins(t, p), roots);
    hide Uncertain;
  }

  // Some process on the walk is the Windows id of an uncertain row.
  ghost predicate Touches(t: Tables, stops: set<nat>, uncertain: set<nat>, w: nat) {
    exists u :: u in uncertain && u !in stops && Visits(ChronoUpTo(t, stops), w, u)
  }

  ghost predicate Undisputed(t: Tables, created: nat, roots: set<nat>, book: set<nat>, uncertain: set<nat>, w: nat)
    requires w in t.late
  {
    created <= t.late[w].birth ==>
      !Cycles(ChronoUpTo(t, roots + book), w) && !Ambiguous(t, roots, book, uncertain, w)
  }

  ghost predicate UndisputedAmong(t: Tables, created: nat, roots: set<nat>, book: set<nat>, uncertain: set<nat>,
                                  ws: set<nat>)
  {
    forall w | w in ws && w in t.late :: Undisputed(t, created, roots, book, uncertain, w)
  }

  ghost function OwnedAmong(t: Tables, created: nat, roots: set<nat>, book: set<nat>, ws: set<nat>): set<nat> {
    set w | w in ws && w in t.late && created <= t.late[w].birth && Owned(t, roots, book, w)
  }

  lemma AddProcess(t: Tables, created: nat, roots: set<nat>, book: set<nat>, uncertain: set<nat>, ws: set<nat>, w: nat)
    requires w in t.late
    ensures UndisputedAmong(t, created, roots, book, uncertain, ws + {w}) <==>
      UndisputedAmong(t, created, roots, book, uncertain, ws) && Undisputed(t, created, roots, book, uncertain, w)
    ensures OwnedAmong(t, created, roots, book, ws + {w}) == OwnedAmong(t, created, roots, book, ws)
      + (if created <= t.late[w].birth && Owned(t, roots, book, w) then {w} else {})
  {
  }

  ghost predicate LogicalResult(r: Runner, t: Tables, created: nat, root: set<nat>, possible: set<nat>,
                                uncertain: set<nat>, book: set<nat>) {
    && root == RootsAmong(r, t, created, t.ps.Keys) && possible == Possible(r, t)
    && uncertain == Uncertain(r, t, possible, root)
    && (!Cycles(BookStep(r, t, root), r.enumOwner) ==> book == Book(r, t, root))
  }

  ghost predicate LogicalFault(r: Runner, t: Tables, created: nat, root: set<nat>)
    requires r.enumOwner in t.ps
  {
    || CycleAmong(r, t, t.ps.Keys) || StaleAmong(r, t, created, t.ps.Keys)
    || t.ps[r.enumOwner].win !in root || Cycles(BookStep(r, t, root), r.enumOwner)
  }

  ghost predicate JudgedWith(r: Runner, t: Tables, created: nat, runnerWin: nat, root: set<nat>, possible: set<nat>,
                             uncertain: set<nat>, book: set<nat>, output: set<nat>, before: bool, error: bool)
    requires r.enumOwner in t.ps
  {
    && LogicalResult(r, t, created, root, possible, uncertain, book)
    && error == (before || LogicalFault(r, t, created, root)
                 || !UndisputedAmong(t, created, root, book, uncertain, t.late.Keys))
    && (!error ==> output == OwnedAmong(t, created, root, book, t.late.Keys) - {runnerWin, t.lateSelf})
  }

  ghost predicate Judged(r: Runner, t: Tables, created: nat, runnerWin: nat, output: set<nat>, before: bool,
                         error: bool)
    requires r.enumOwner in t.ps
  {
    exists root, possible, uncertain, book ::
      JudgedWith(r, t, created, runnerWin, root, possible, uncertain, book, output, before, error)
  }

  // The END block's own bookkeeping of errors is the declarative acceptance.
  lemma FinishDecides(r: Runner, t: Tables, output: set<nat>, error: bool)
    requires Continuous(r, t)
    requires Judged(r, t, Created(r, t), RunnerWin(r, t), output, !PinHolds(r, t), error)
    ensures error == !Accepts(r, t)
    ensures !error ==> output == OwnedWins(r, t)
  {
    var created, runnerWin, pinned := Created(r, t), RunnerWin(r, t), PinHolds(r, t);
    var root, possible, uncertain, book :|
      JudgedWith(r, t, created, runnerWin, root, possible, uncertain, book, output, !pinned, error);
    RootsFound(r, t);
    LogicalCycles(r, t, root);
    if !CycleAmong(r, t, t.ps.Keys) && !StaleAmong(r, t, created, t.ps.Keys) {
      UndisputedTree(t, created, root, book, uncertain);
      if !error {
        FilterDropsNothing(r, t, root, book);
      }
    }
  }

  lemma RootsFound(r: Runner, t: Tables)
    requires Continuous(r, t)
    ensures StaleAmong(r, t, Created(r, t), t.ps.Keys) <==> !RootsAreYounger(t, Created(r, t), Roots(r, t))
    ensures !StaleAmong(r, t, Created(r, t), t.ps.Keys) ==>
      RootsAmong(r, t, Created(r, t), t.ps.Keys) == Roots(r, t)
  {
    forall p | Hits(r, t, p) ensures Anchor(t, p) > 0 && Anchor(t, p) in t.late {
      HitIsCertified(r, t, p);
    }
  }

  // The enumerator's own path runs along the walk that was checked for it before, so
  // a bookkeeping cycle is never the only reason to refuse.
  lemma LogicalCycles(r: Runner, t: Tables, root: set<nat>)
    requires Continuous(r, t)
    ensures CycleAmong(r, t, t.ps.Keys) <==> !forall p | p in t.ps :: !Cycles(LogicalStep(r, t, p), p)
    ensures Cycles(BookStep(r, t, root), r.enumOwner) ==> CycleAmong(r, t, t.ps.Keys)
  {
    var step := BookStep(r, t, root);
    if Cycles(step, r.enumOwner) {
      var xs :| Chain(step, xs) && xs[0] == r.enumOwner && Revisits(xs);
      ChainInLargerMap(step, LogicalStep(r, t, r.enumOwner), xs);
      assert Cycles(LogicalStep(r, t, r.enumOwner), r.enumOwner);
    }
  }

  lemma UndisputedTree(t: Tables, created: nat, root: set<nat>, book: set<nat>, uncertain: set<nat>)
    ensures UndisputedAmong(t, created, root, book, uncertain, t.late.Keys)
      <==> WindowsTreeOk(t, created, root, book, uncertain)
  {
  }

  lemma OwnedIsNotOlder(r: Runner, t: Tables, root: set<nat>, book: set<nat>, w: nat)
    requires Accepts(r, t) && root == Roots(r, t) && book == Book(r, t, root) && Owned(t, root, book, w)
    ensures w in t.late && Created(r, t) <= t.late[w].birth
  {
    hide Accepts, Owned, Roots, Book;
    var xs, p := OwnershipIsSound(r, t, w);
  }

  // No owned process is older than the runner, so skipping older ones loses nothing.
  lemma FilterDropsNothing(r: Runner, t: Tables, root: set<nat>, book: set<nat>)
    requires Accepts(r, t) && root == Roots(r, t) && book == Book(r, t, root)
    ensures OwnedAmong(t, Created(r, t), root, book, t.late.Keys) - {RunnerWin(r, t), t.lateSelf} == OwnedWins(r, t)
  {
    hide Owned, Roots, Book;
    forall w | Owned(t, root, book, w) ensures w in t.late && Created(r, t) <= t.late[w].birth {
      OwnedIsNotOlder(r, t, root, book, w);
    }
  }

  lemma WalkResult(t: Tables, roots: set<nat>, book: set<nat>, uncertain: set<nat>, path: seq<nat>)
    requires Chain(ChronoUpTo(t, roots + book), path) && path[|path| - 1] !in ChronoUpTo(t, roots + book)
    requires forall k | k in path :: k in t.late
    ensures !Cycles(ChronoUpTo(t, roots + book), path[0])
    ensures Owned(t, roots, book, path[0]) <==> path[|path| - 1] in roots && path[|path| - 1] !in book
    ensures Bookkeeping(t, roots, book, path[0]) <==> path[|path| - 1] in book
    ensures path[|path| - 1] !in roots + book ==>
      (Touches(t, roots + book, uncertain, path[0]) <==> Members(path) * uncertain != {})
  {
    var stops := roots + book;
    var step := ChronoUpTo(t, stops);
    var w, e := path[0], path[|path| - 1];
    assert ChainFromTo(step, path, w, e);
    EndsExcludesCycle(step, w, e);
    forall f | Ends(step, w, f) ensures f == e {
      EndIsUnique(step, w, e, f);
    }
    if e in stops {
      assert FirstStop(t, stops, w, e);
    }
    forall u ensures Visits(step, w, u) <==> u in Members(path) {
      VisitsIsOnPath(step, path, u);
    }
    UpToChain(t, stops, path);
    if e !in stops {
      assert forall u | u in Members(path) :: u !in stops;
      if Touches(t, stops, uncertain, w) {
        var u :| u in uncertain && u !in stops && Visits(step, w, u);
        assert u in Members(path) * uncertain;
      }
      if Members(path) * uncertain != {} {
        var u :| u in Members(path) * uncertain;
        assert Visits(step, w, u);
      }
    }
  }

  lemma OwnedIsNotBookkeeping(t: Tables, roots: set<nat>, book: set<nat>, w: nat)
    requires Owned(t, roots, book, w)
    ensures !Bookkeeping(t, roots, book, w)
  {
    var step := ChronoUpTo(t, roots + book);
    var e :| FirstStop(t, roots + book, w, e) && e in roots && e !in book;
    forall f | Ends(step, w, f) ensures f == e {
      EndIsUnique(step, w, e, f);
    }
  }

  function WinsOn(t: Tables, path: seq<nat>): set<nat> {
    set k | k in path && k in t.ps :: t.ps[k].win
  }

  lemma WinsOnLonger(t: Tables, path: seq<nat>)
    requires path != [] && path[|path| - 1] in t.ps
    ensures WinsOn(t, path) == WinsOn(t, path[..|path| - 1]) + {t.ps[path[|path| - 1]].win}
  {
    assert path == path[..|path| - 1] + [path[|path| - 1]];
  }

  lemma BookResult(r: Runner, t: Tables, roots: set<nat>, path: seq<nat>)
    requires Chain(BookStep(r, t, roots), path) && path[|path| - 1] !in BookStep(r, t, roots)
    requires path[0] == r.enumOwner
    ensures !Cycles(BookStep(r, t, roots), r.enumOwner)
    ensures WinsOn(t, path[..|path| - 1]) == Book(r, t, roots)
  {
    var step := BookStep(r, t, roots);
    var e := path[|path| - 1];
    assert ChainFromTo(step, path, r.enumOwner, e);
    EndsExcludesCycle(step, r.enumOwner, e);
    assert path == path[..|path| - 1] + [e];
    forall k ensures k in step && Visits(step, r.enumOwner, k) <==> k in path[..|path| - 1] {
      VisitsIsOnPath(step, path, k);
    }
  }

  // ----- stamped walks

  // The nodes stamped by the current walk are the ones its path has left behind.
  ghost predicate Walking(step: map<nat, nat>, seen: map<nat, nat>, walk: nat, path: seq<nat>) {
    && Chain(step, path)
    && (forall k | k in seen :: seen[k] <= walk)
    && (forall k :: (k in seen && seen[k] == walk) <==> k in path[..|path| - 1])
  }

  function Members(xs: seq<nat>): set<nat> {
    set k | k in xs
  }

  lemma MembersLonger(path: seq<nat>, marked: set<nat>)
    requires path != []
    ensures Members(path) * marked != {} <==> Members(path[..|path| - 1]) * marked != {} || path[|path| - 1] in marked
  {
    assert path == path[..|path| - 1] + [path[|path| - 1]];
    assert Members(path) == Members(path[..|path| - 1]) + {path[|path| - 1]};
    if path[|path| - 1] in marked {
      assert path[|path| - 1] in Members(path) * marked;
    }
  }

  ghost function StepOn(step: map<nat, nat>, before: map<nat, nat>, seen: map<nat, nat>, walk: nat,
                        path: seq<nat>)
    : (longer: seq<nat>)
    requires Walking(step, before, walk, path)
    requires path[|path| - 1] in step && !(path[|path| - 1] in before && before[path[|path| - 1]] == walk)
    requires seen == before[path[|path| - 1] := walk]
    ensures Walking(step, seen, walk, longer) && longer[0] == path[0]
    ensures longer[|longer| - 1] == step[path[|path| - 1]] && longer[..|longer| - 1] == path
    ensures path[|path| - 1] !in Members(path[..|path| - 1])
    ensures Members(path) == Members(path[..|path| - 1]) + {path[|path| - 1]}
  {
    var cur := path[|path| - 1];
    assert path == path[..|path| - 1] + [cur];
    var longer := path + [step[cur]];
    assert longer[..|longer| - 1] == path;
    longer
  }

  lemma LogicalResultOf(step: map<nat, nat>, path: seq<nat>, goal: nat, cycled: bool)
    requires Chain(step, path) && goal !in step
    requires if cycled then Revisits(path) else path[|path| - 1] !in step
    ensures Cycles(step, path[0]) <==> cycled
    ensures Ends(step, path[0], goal) <==> !cycled && path[|path| - 1] == goal
  {
    var x, e := path[0], path[|path| - 1];
    if cycled {
      if Ends(step, x, goal) {
        EndsExcludesCycle(step, x, goal);
      }
    } else {
      assert ChainFromTo(step, path, x, e);
      EndsExcludesCycle(step, x, e);
      if Ends(step, x, goal) {
        EndIsUnique(step, x, e, goal);
      }
    }
  }

  // What a run over a batch of rows must answer.
  ghost predicate Answers(runner: Runner, batch: multiset<Row>, v: Verdict) {
    if Consistent(batch) then
      exists t :: Tabulates(batch, t) && Decides(runner, t, v)
    else
      v == Refused
  }

  predicate StartsAt(runner: Runner, t: Tables, start: nat) {
    runner.pid in t.pre && t.pre[runner.pid].Live? && t.pre[runner.pid].start == start
  }

  // What an answer says, in the rows of the batch and the fields of their tables alone.
  ghost predicate Justified(runner: Runner, batch: multiset<Row>, v: Verdict) {
    match v
    case Refused =>
      forall t, win, birth | Readable(batch) && Lists(batch, t) :: !PlainOwnership.Accepted(runner, t, win, birth)
    case Counted(win, birth, start, owned) =>
      Readable(batch)
      && exists t ::
        && Lists(batch, t) && PlainOwnership.Accepted(runner, t, win, birth)
        && PlainOwnership.OwnedExactly(runner, t, win, owned) && StartsAt(runner, t, start)
  }

  lemma AnswersAreJustified(runner: Runner, batch: multiset<Row>, v: Verdict)
    requires Answers(runner, batch, v)
    ensures Justified(runner, batch, v)
  {
    BatchesAgree(batch);
    if Consistent(batch) {
      var t :| Tabulates(batch, t) && Decides(runner, t, v);
      TablesAgree(batch, t);
      PlainOwnership.DecisionIsPlain(runner, t);
      if v == Refused {
        forall u, win, birth | Lists(batch, u) ensures !PlainOwnership.Accepted(runner, u, win, birth) {
          TablesAgree(batch, u);
          TablesUnique(batch, t, u);
        }
      } else {
        assert RowContinuous(runner, t, runner.pid);
      }
    }
  }

  // A whole run. Rows in an order the collector never writes can only be refused
  // more often.
  method Classify(runner: Runner, rows: seq<Row>) returns (v: Verdict)
    ensures PsFirst(rows) ==> Answers(runner, multiset(rows), v)
    ensures v == Refused || Answers(runner, multiset(rows), v)
    ensures PsFirst(rows) || v.Counted? ==> Justified(runner, multiset(rows), v)
  {
    var state := new State(runner);
    state.ReadRows(rows);
    v := state.Finish();
    if PsFirst(rows) || v.Counted? {
      AnswersAreJustified(runner, multiset(rows), v);
    }
  }

  // The answer depends on what the rows say only: two runs over the same rows, each in
  // any order with the PS rows first, and whatever order each walks its tables in,
  // count the same set or both refuse.
  lemma AnswerIsUnique(runner: Runner, batch: multiset<Row>, v1: Verdict, v2: Verdict)
    requires Answers(runner, batch, v1) && Answers(runner, batch, v2)
    ensures v1 == v2
  {
    if Consistent(batch) {
      var t1 :| Tabulates(batch, t1) && Decides(runner, t1, v1);
      var t2 :| Tabulates(batch, t2) && Decides(runner, t2, v2);
      TablesUnique(batch, t1, t2);
    }
  }
}
