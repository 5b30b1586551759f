// Guarded reads of databases, any number of them at once: each takes its resources on a
// stack, enters its block, and unwinds, while other handles use the lock byte.
module GuardedDatabase {
  import opened Options
  import opened DmsLock

  datatype Resource = MainHandle | WalHandle | ShmHandle | IndexLock | WriterBarrier

  datatype Phase = Entering | InBlock | Leaving

  // One guarded read; its name is the number of its handle on the index file.
  datatype Read = Read(wal: bool, held: seq<Resource>, phase: Phase)

  datatype World = World(sys: Sys, reading: map<nat, Read>)

  // What must be held before the database is opened, in the order it is taken.
  function Needed(wal: bool): seq<Resource> {
    if wal then [MainHandle, WalHandle, ShmHandle, IndexLock] else [MainHandle, WriterBarrier]
  }

  predicate Locking(rd: Read) {
    rd.wal && rd.held == Needed(true)[..3]
  }

  predicate HasPc(s: Sys, h: nat, pc: Pc) {
    h in s.readers && s.readers[h] == pc
  }

  // ----- one step of the read `h`

  predicate Becomes(w: World, v: World, h: nat, rd: Read) {
    v.reading == w.reading[h := rd]
  }

  // Opening the next file, or taking the handle that keeps writers out. The index file
  // gets a new handle, which holds no lock.
  predicate Opens(w: World, v: World, h: nat, rd: Read) {
    && rd.phase.Entering? && |rd.held| < |Needed(rd.wal)| && !Locking(rd)
    && Becomes(w, v, h, rd.(held := rd.held + [Needed(rd.wal)[|rd.held|]]))
    && if Needed(rd.wal)[|rd.held|].ShmHandle? then
         h !in w.sys.readers && !Holds(w.sys, h) && DmsLock.Goes(w.sys, v.sys, h, Probing)
       else
         v.sys == w.sys
  }

  // Where a call of `existing_index_lock` before its yield takes the read: with the
  // shared lock taken the lock is on the stack; a refusal raises.
  function AfterCall(rd: Read, pc: Pc): Read {
    match pc
    case InBody => rd.(held := Needed(true))
    case Closing => rd.(phase := Leaving)
    case _ => rd
  }

  ghost predicate Locks(w: World, v: World, h: nat, rd: Read) {
    && rd.phase.Entering? && Locking(rd) && h in w.sys.readers
    && ReaderStep(w.sys, v.sys, h) && h in v.sys.readers && !v.sys.readers[h].Closed?
    && Becomes(w, v, h, AfterCall(rd, v.sys.readers[h]))
  }

  // Any check or open may fail between two acquisitions.
  predicate Refuses(w: World, v: World, h: nat, rd: Read) {
    && rd.phase.Entering? && (!Locking(rd) || HasPc(w.sys, h, Probing))
    && Becomes(w, v, h, rd.(phase := Leaving)) && v.sys == w.sys
  }

  predicate Connects(w: World, v: World, h: nat, rd: Read) {
    && rd.phase.Entering? && rd.held == Needed(rd.wal)
    && Becomes(w, v, h, rd.(phase := InBlock)) && v.sys == w.sys
  }

  predicate EndsBlock(w: World, v: World, h: nat, rd: Read) {
    rd.phase.InBlock? && Becomes(w, v, h, rd.(phase := Leaving)) && v.sys == w.sys
  }

  // The stack gives back what was taken last. The lock is released, or fails to be;
  // closing the index handle drops whatever the handle still holds.
  ghost predicate Unwinds(w: World, v: World, h: nat, rd: Read) {
    && rd.phase.Leaving? && rd.held != []
    && Becomes(w, v, h, rd.(held := rd.held[..|rd.held| - 1]))
    && match rd.held[|rd.held| - 1]
       case IndexLock => h in w.sys.readers && ReaderStep(w.sys, v.sys, h) && HasPc(v.sys, h, Closing)
       case ShmHandle => h in w.sys.readers && DmsLock.Goes(ReleaseAll(w.sys, h), v.sys, h, Closed)
       case _ => v.sys == w.sys
  }

  // The process of the read dies: all its handles are closed.
  predicate Dies(w: World, v: World, h: nat, rd: Read) {
    && Becomes(w, v, h, rd.(held := [], phase := Leaving))
    && if h in w.sys.readers && !w.sys.readers[h].Closed? then DmsLock.Goes(ReleaseAll(w.sys, h), v.sys, h, Closed)
       else v.sys == w.sys
  }

  ghost predicate ReadStep(w: World, v: World, h: nat) {
    && h in w.reading
    && var rd := w.reading[h];
       || Opens(w, v, h, rd) || Locks(w, v, h, rd) || Refuses(w, v, h, rd)
       || Connects(w, v, h, rd) || EndsBlock(w, v, h, rd) || Unwinds(w, v, h, rd) || Dies(w, v, h, rd)
  }

  predicate Begins(w: World, v: World, h: nat, wal: bool) {
    h !in w.reading && !Holds(w.sys, h) && Becomes(w, v, h, Read(wal, [], Entering)) && v.sys == w.sys
  }

  ghost predicate Step(w: World, v: World) {
    || (exists h :: ReadStep(w, v, h))
    || (exists g :: g !in w.reading && OwnerStep(w.sys, v.sys, g) && v.reading == w.reading)
    || (exists h, wal :: Begins(w, v, h, wal))
  }

  ghost predicate Run(worlds: seq<World>) {
    && worlds != [] && worlds[0].reading == map[] && Start(worlds[0].sys)
    && forall i | 0 <= i < |worlds| - 1 :: Step(worlds[i], worlds[i + 1])
  }

  // ----- what holds throughout

  // Where the handle is on the lock byte, by what its read has on the stack.
  ghost predicate StackOk(s: Sys, h: nat, rd: Read) {
    && rd.held <= Needed(rd.wal) && (h !in s.readers ==> !Holds(s, h))
    && (rd.phase.InBlock? ==> rd.held == Needed(rd.wal))
    && if !rd.wal || |rd.held| < 3 then
         h in s.readers ==> s.readers[h].Closed? && rd.phase.Leaving?
       else if |rd.held| == 3 then
         && h in s.readers
         && if rd.phase.Entering? then s.readers[h].Probing? || s.readers[h].ProbeHeld? || s.readers[h].Admitted?
            else s.readers[h].Probing? || s.readers[h].Closing?
       else
         HasPc(s, h, InBody)
  }

  ghost predicate WorldOk(w: World) {
    && Inv(w.sys) && (forall h | h in w.sys.readers :: h in w.reading)
    && forall h | h in w.reading :: StackOk(w.sys, h, w.reading[h])
  }

  // What the world does to the lock system is a step of that system, or nothing.
  ghost predicate LockStep(s: Sys, t: Sys, h: nat) {
    || t == s
    || (h in s.readers && ReaderStep(s, t, h))
    || (h !in s.readers && !Holds(s, h) && DmsLock.Goes(s, t, h, Probing))
  }

  lemma LockStepIsStep(s: Sys, t: Sys, h: nat)
    requires LockStep(s, t, h)
    ensures t == s || DmsLock.Step(s, t)
  {
  }

  // How a call moves its own handle.
  predicate Moves(before: Pc, after: Pc) {
    || after.Closed?
    || match before
       case Probing => after.ProbeHeld? || after.Admitted? || after.Closing?
       case ProbeHeld => after.Closing?
       case Admitted(_) => after.InBody? || after.Closing?
       case InBody => after.Closing?
       case _ => false
  }

  lemma CallMoves(s: Sys, t: Sys, h: nat)
    requires h in s.readers && ReaderStep(s, t, h)
    ensures h in t.readers && Moves(s.readers[h], t.readers[h])
  {
  }

  lemma CloseIsCall(s: Sys, t: Sys, h: nat)
    requires h in s.readers && !s.readers[h].Closed? && DmsLock.Goes(ReleaseAll(s, h), t, h, Closed)
    ensures ReaderStep(s, t, h) && HasPc(t, h, Closed)
  {
  }

  // What one step of a read leaves: at most one call of its own handle was made, and
  // its stack and its handle match.
  ghost predicate OkStep(w: World, v: World, h: nat) {
    && h in w.reading && LockStep(w.sys, v.sys, h) && v.reading.Keys == w.reading.Keys
    && (forall k | k in w.reading && k != h :: v.reading[k] == w.reading[k])
    && StackOk(v.sys, h, v.reading[h])
  }

  ghost predicate AtRead(w: World, h: nat, rd: Read) {
    h in w.reading && rd == w.reading[h] && StackOk(w.sys, h, rd) && Inv(w.sys)
  }

  lemma OpenIsOk(w: World, v: World, h: nat, rd: Read)
    requires AtRead(w, h, rd) && Opens(w, v, h, rd)
    ensures OkStep(w, v, h)
  {
    hide ReaderStep, ReleaseAll, Holds, Inv;
    var n := |rd.held|;
    assert rd.held == Needed(rd.wal)[..n];
    assert rd.held + [Needed(rd.wal)[n]] == Needed(rd.wal)[..n + 1];
  }

  lemma LockIsOk(w: World, v: World, h: nat, rd: Read)
    requires AtRead(w, h, rd) && Locks(w, v, h, rd)
    ensures OkStep(w, v, h)
  {
    CallMoves(w.sys, v.sys, h);
    hide ReaderStep, ReleaseAll, Holds, Inv;
    assert Needed(true) <= Needed(rd.wal) && |Needed(true)| == 4;
  }

  lemma UnwindIsOk(w: World, v: World, h: nat, rd: Read)
    requires AtRead(w, h, rd) && Unwinds(w, v, h, rd)
    ensures OkStep(w, v, h)
  {
    hide ReaderStep, ReleaseAll, Holds, Inv;
    var n := |rd.held| - 1;
    assert rd.held == Needed(rd.wal)[..n + 1];
    assert rd.held[n] == Needed(rd.wal)[n] && rd.held[..n] == Needed(rd.wal)[..n];
    assert |rd.held[..n]| == n && v.reading[h] == rd.(held := rd.held[..n]);
    if rd.held[n].ShmHandle? {
      assert rd.wal && n == 2;
      CloseIsCall(w.sys, v.sys, h);
    } else if rd.held[n].IndexLock? {
      assert rd.wal && n == 3;
    } else {
      assert !rd.wal || n < 2;
    }
  }

  lemma DeathIsOk(w: World, v: World, h: nat, rd: Read)
    requires AtRead(w, h, rd) && Dies(w, v, h, rd)
    ensures OkStep(w, v, h)
  {
    hide ReaderStep, ReleaseAll, Holds, Inv;
    if h in w.sys.readers && !w.sys.readers[h].Closed? {
      CloseIsCall(w.sys, v.sys, h);
    }
  }

  lemma ReadStepIsOk(w: World, v: World, h: nat)
    requires ReadStep(w, v, h) && AtRead(w, h, w.reading[h])
    ensures OkStep(w, v, h)
  {
    var rd := w.reading[h];
    if Opens(w, v, h, rd) {
      OpenIsOk(w, v, h, rd);
    } else if Locks(w, v, h, rd) {
      LockIsOk(w, v, h, rd);
    } else if Unwinds(w, v, h, rd) {
      UnwindIsOk(w, v, h, rd);
    } else if Dies(w, v, h, rd) {
      DeathIsOk(w, v, h, rd);
    } else {
      hide Inv, Holds;
      assert v.sys == w.sys;
    }
  }

  // A call of `h` changes nothing for another handle.
  lemma CallTouchesItself(s: Sys, t: Sys, h: nat)
    requires Inv(s) && LockStep(s, t, h)
    ensures TouchesOnly(s, t, h) && Inv(t)
    ensures forall k | k != h :: k in t.readers <==> k in s.readers
  {
    if h in s.readers && ReaderStep(s, t, h) {
      assert ReaderOk(s, h);
      ReaderTouchesItself(s, t, h);
      ReaderMovesItself(s, t, h);
      ReaderKeepsInv(s, t, h);
    } else if t != s {
      OpeningKeepsInv(s, t, h);
    }
  }

  lemma OtherStackStaysOk(s: Sys, t: Sys, h: nat, k: nat, rd: Read)
    requires StackOk(s, k, rd) && TouchesOnly(s, t, h) && k != h && (k in t.readers <==> k in s.readers)
    ensures StackOk(t, k, rd)
  {
  }

  lemma StepKeepsOk(w: World, v: World)
    requires WorldOk(w) && Step(w, v)
    ensures WorldOk(v) && (v.sys == w.sys || DmsLock.Step(w.sys, v.sys))
  {
    hide Inv, StackOk, TouchesOnly, OwnerStep, LockStep;
    if h :| ReadStep(w, v, h) {
      ReadStepIsOk(w, v, h);
      hide ReadStep;
      LockStepIsStep(w.sys, v.sys, h);
      CallTouchesItself(w.sys, v.sys, h);
      forall k | k in v.reading && k != h ensures StackOk(v.sys, k, v.reading[k]) {
        OtherStackStaysOk(w.sys, v.sys, h, k, w.reading[k]);
      }
      ReadersAreReading(w, v, h);
    } else if g :| g !in w.reading && OwnerStep(w.sys, v.sys, g) && v.reading == w.reading {
      OwnerStepKeepsOk(w, v, g);
    } else {
      var h, wal :| Begins(w, v, h, wal);
      BeginKeepsOk(w, v, h, wal);
    }
  }

  lemma ReadersAreReading(w: World, v: World, h: nat)
    requires WorldOk(w) && h in w.reading && v.reading.Keys == w.reading.Keys
    requires forall k | k != h :: k in v.sys.readers <==> k in w.sys.readers
    ensures forall k | k in v.sys.readers :: k in v.reading
  {
  }

  lemma OwnerStepKeepsOk(w: World, v: World, g: nat)
    requires WorldOk(w) && g !in w.reading && OwnerStep(w.sys, v.sys, g) && v.reading == w.reading
    ensures WorldOk(v) && DmsLock.Step(w.sys, v.sys)
  {
    hide StackOk;
    OwnerKeepsInv(w.sys, v.sys, g);
    OwnerKeepsLocks(w.sys, v.sys, g);
    OwnerMovesNoReader(w.sys, v.sys, g);
    hide OwnerStep, Inv, TouchesOnly;
    forall k | k in v.reading ensures StackOk(v.sys, k, v.reading[k]) {
      OtherStackStaysOk(w.sys, v.sys, g, k, w.reading[k]);
    }
  }

  lemma BeginKeepsOk(w: World, v: World, h: nat, wal: bool)
    requires WorldOk(w) && Begins(w, v, h, wal)
    ensures WorldOk(v) && v.sys == w.sys
  {
    hide Inv;
    assert h !in w.sys.readers;
    assert StackOk(v.sys, h, Read(wal, [], Entering));
  }

  lemma {:induction false} RunKeepsOk(worlds: seq<World>, k: nat)
    requires Run(worlds) && k < |worlds|
    ensures WorldOk(worlds[k])
  {
    hide Step, StackOk;
    if k > 0 {
      RunKeepsOk(worlds, k - 1);
      StepKeepsOk(worlds[k - 1], worlds[k]);
    }
  }

  // ----- the results

  // The lock byte seen alone goes through a run of the lock system, waiting at times.
  lemma LocksRun(worlds: seq<World>, k: nat)
    requires Run(worlds) && k + 1 < |worlds|
    ensures worlds[k + 1].sys == worlds[k].sys || DmsLock.Step(worlds[k].sys, worlds[k + 1].sys)
  {
    RunKeepsOk(worlds, k);
    StepKeepsOk(worlds[k], worlds[k + 1]);
  }

  // In its block a read has all its resources; if the database has a log file, its
  // handle holds exactly one shared lock, and nobody holds the byte exclusively.
  lemma BlockIsGuarded(worlds: seq<World>, k: nat, h: nat)
    requires Run(worlds) && k < |worlds| && h in worlds[k].reading && worlds[k].reading[h].phase.InBlock?
    ensures worlds[k].reading[h].held == Needed(worlds[k].reading[h].wal)
    ensures worlds[k].reading[h].wal ==> worlds[k].sys.shared[h] == 1 && worlds[k].sys.exclusive.None?
  {
    RunKeepsOk(worlds, k);
    if worlds[k].reading[h].wal {
      assert ReaderOk(worlds[k].sys, h);
    }
  }

  // Whatever a read holds on the byte, it holds under all three files.
  lemma LockIsInnermost(worlds: seq<World>, k: nat, h: nat)
    requires Run(worlds) && k < |worlds| && h in worlds[k].reading && Holds(worlds[k].sys, h)
    ensures worlds[k].reading[h].wal && [MainHandle, WalHandle, ShmHandle] <= worlds[k].reading[h].held
  {
    RunKeepsOk(worlds, k);
    assert h in worlds[k].sys.readers;
    assert ReaderOk(worlds[k].sys, h);
  }

  // A read that has given back everything holds nothing on the byte, however it ended.
  lemma UnwoundHoldsNothing(worlds: seq<World>, k: nat, h: nat)
    requires Run(worlds) && k < |worlds| && h in worlds[k].reading
    requires worlds[k].reading[h].phase.Leaving? && worlds[k].reading[h].held == []
    ensures !Holds(worlds[k].sys, h)
  {
    RunKeepsOk(worlds, k);
    if h in worlds[k].sys.readers {
      assert ReaderOk(worlds[k].sys, h);
    }
  }

  lemma LeavingStepShrinks(w: World, v: World, h: nat)
    requires WorldOk(w) && Step(w, v) && h in w.reading && w.reading[h].phase.Leaving?
    ensures h in v.reading && v.reading[h].phase.Leaving? && v.reading[h].held <= w.reading[h].held
  {
    hide StackOk, Inv, OwnerStep, Opens, Locks, Unwinds, Dies;
    if k :| ReadStep(w, v, k) {
      if k == h {
        OwnLeavingStep(w, v, h);
      } else {
        ReadStepIsOk(w, v, k);
      }
    }
  }

  lemma OwnLeavingStep(w: World, v: World, h: nat)
    requires ReadStep(w, v, h) && w.reading[h].phase.Leaving?
    ensures h in v.reading && v.reading[h].phase.Leaving? && v.reading[h].held <= w.reading[h].held
  {
    hide ReaderStep, ReleaseAll, Holds;
    assert [] <= w.reading[h].held;
  }

  // A read that leaves only gives back, last taken first, and never enters again.
  lemma {:induction false} LeavingOnlyGivesBack(worlds: seq<World>, j: nat, k: nat, h: nat)
    requires Run(worlds) && j <= k < |worlds| && h in worlds[j].reading && worlds[j].reading[h].phase.Leaving?
    ensures h in worlds[k].reading && worlds[k].reading[h].phase.Leaving?
    ensures worlds[k].reading[h].held <= worlds[j].reading[h].held
    decreases k
  {
    hide Step, WorldOk;
    if j < k {
      LeavingOnlyGivesBack(worlds, j, k - 1, h);
      RunKeepsOk(worlds, k - 1);
      LeavingStepShrinks(worlds[k - 1], worlds[k], h);
    }
  }
}
