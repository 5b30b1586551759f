// What the readers of the lock byte can do, and not only what they may not: when each of
// their calls can succeed and what it leaves, and that a guarded read can enter its block
// and can always unwind.
module LockLaws {
  import opened Options
  import opened DmsLock
  import G = GuardedDatabase

  // Every handle but `h` keeps its locks, and every other reader its place.
  ghost predicate OthersKeep(s: Sys, t: Sys, h: nat) {
    && (forall g: nat | g != h :: t.shared[g] == s.shared[g] && (t.exclusive == Some(g) <==> s.exclusive == Some(g)))
    && (forall g | g in s.readers && g != h :: g in t.readers && t.readers[g] == s.readers[g])
  }

  // Reader `h` can make a call after which it is at `pc` with these locks.
  ghost predicate Can(s: Sys, t: Sys, h: nat, pc: Pc, shared: nat, exclusive: bool) {
    && h in s.readers && ReaderStep(s, t, h) && OthersKeep(s, t, h)
    && h in t.readers && t.readers[h] == pc && t.shared[h] == shared && (t.exclusive == Some(h) <==> exclusive)
  }

  // The probe is granted exactly if nobody has a lock on the byte.
  lemma ProbeIsGranted(s: Sys, h: nat)
    requires Inv(s) && h in s.readers && s.readers[h] == Probing
    ensures (exists t :: Can(s, t, h, ProbeHeld, 0, true))
            <==> forall g: nat :: s.shared[g] == 0 && s.exclusive != Some(g)
  {
    assert ReaderOk(s, h);
    if forall g: nat :: s.shared[g] == 0 && s.exclusive != Some(g) {
      assert forall g :: !Holds(s, g);
      NobodyHolds(s);
      var t := s.(exclusive := Some(h), readers := s.readers[h := ProbeHeld]);
      assert Goes(s.(exclusive := Some(h)), t, h, ProbeHeld);
      assert Can(s, t, h, ProbeHeld, 0, true);
    }
    if t :| Can(s, t, h, ProbeHeld, 0, true) {
      GrantedMeansFree(s, t, h);
    }
  }

  lemma GrantedMeansFree(s: Sys, t: Sys, h: nat)
    requires h in s.readers && s.readers[h] == Probing && ReaderStep(s, t, h)
    requires h in t.readers && t.readers[h] == ProbeHeld
    ensures forall g: nat :: s.shared[g] == 0 && s.exclusive != Some(g)
  {
    hide Add, Take, Drop;
  }

  // The probe is refused to `h`, which admits it, exactly if another handle has a lock.
  lemma ProbeIsRefused(s: Sys, h: nat, g: nat)
    requires Inv(s) && h in s.readers && s.readers[h] == Probing
    ensures (exists t :: Can(s, t, h, Admitted(g), 0, false)) <==> g != h && (s.shared[g] > 0 || s.exclusive == Some(g))
  {
    assert ReaderOk(s, h);
    if g != h && Holds(s, g) {
      var t := s.(readers := s.readers[h := Admitted(g)]);
      assert Goes(s, t, h, Admitted(g)) && Can(s, t, h, Admitted(g), 0, false);
    }
    if t :| Can(s, t, h, Admitted(g), 0, false) {
      RefusedMeansHeld(s, t, h, g);
    }
  }

  lemma RefusedMeansHeld(s: Sys, t: Sys, h: nat, g: nat)
    requires h in s.readers && s.readers[h] == Probing && ReaderStep(s, t, h)
    requires h in t.readers && t.readers[h] == Admitted(g)
    ensures g != h && Holds(s, g)
  {
    hide Add, Take, Drop;
  }

  // A granted probe can be given back, and then the byte is free again.
  lemma ProbeCanBeReleased(s: Sys, h: nat) returns (t: Sys)
    requires Inv(s) && h in s.readers && s.readers[h] == ProbeHeld
    ensures Can(s, t, h, Closing, 0, false)
    ensures forall g: nat :: t.shared[g] == 0 && t.exclusive != Some(g)
  {
    assert ReaderOk(s, h);
    t := s.(exclusive := None, readers := s.readers[h := Closing]);
    assert Goes(s.(exclusive := None), t, h, Closing);
  }

  // An admitted reader can take the shared lock exactly if nobody has the byte exclusively.
  lemma SharedIsGranted(s: Sys, h: nat)
    requires Inv(s) && h in s.readers && s.readers[h].Admitted?
    ensures (exists t :: Can(s, t, h, InBody, 1, false)) <==> s.exclusive == None
  {
    assert ReaderOk(s, h);
    if s.exclusive == None {
      var t := s.(shared := Add(s.shared, h), readers := s.readers[h := InBody]);
      assert Goes(s.(shared := Add(s.shared, h)), t, h, InBody);
      assert Can(s, t, h, InBody, 1, false);
    }
    if t :| Can(s, t, h, InBody, 1, false) {
      SharedMeansNoExclusive(s, t, h);
    }
  }

  lemma SharedMeansNoExclusive(s: Sys, t: Sys, h: nat)
    requires h in s.readers && s.readers[h].Admitted? && ReaderStep(s, t, h) && !Holds(s, h)
    requires h in t.readers && t.readers[h] == InBody
    ensures s.exclusive == None
  {
    hide Add, Take, Drop;
  }

  // A reader past its body can have given its lock back, with all others as they were.
  lemma BodyCanBeReleased(s: Sys, h: nat) returns (t: Sys)
    requires Inv(s) && h in s.readers && s.readers[h] == InBody
    ensures Can(s, t, h, Closing, 0, false)
  {
    assert ReaderOk(s, h);
    t := s.(shared := Take(s.shared, h), readers := s.readers[h := Closing]);
    assert Goes(s.(shared := Take(s.shared, h)), t, h, Closing);
  }

  // A handle can be closed at any time, which takes all its locks and no other.
  lemma CloseReleases(s: Sys, h: nat) returns (t: Sys)
    requires h in s.readers && s.readers[h] != Closed
    ensures Can(s, t, h, Closed, 0, false)
  {
    t := ReleaseAll(s, h).(readers := s.readers[h := Closed]);
    assert Goes(ReleaseAll(s, h), t, h, Closed);
  }

  // Any call may fail and leave the locks as they are, in particular one that was to give
  // a lock back.
  lemma CallCanFail(s: Sys, h: nat) returns (t: Sys)
    requires h in s.readers && s.readers[h] != Closing && s.readers[h] != Closed
    ensures Can(s, t, h, Closing, s.shared[h], s.exclusive == Some(h))
  {
    t := s.(readers := s.readers[h := Closing]);
    assert Goes(s, t, h, Closing);
  }

  // Nothing else can come of a call: the locks of others stay, and what it leaves to its
  // own handle follows from where it goes.
  lemma CallLeaves(s: Sys, t: Sys, h: nat)
    requires Inv(s) && h in s.readers && ReaderStep(s, t, h)
    ensures OthersKeep(s, t, h) && h in t.readers && t.readers[h] != Probing
    ensures t.readers[h] == ProbeHeld ==>
              s.readers[h] == Probing && t.exclusive == Some(h) && forall g: nat :: !Holds(s, g)
    ensures t.readers[h].Admitted? ==>
              && s.readers[h] == Probing && t.readers[h].holder != h && Holds(s, t.readers[h].holder)
              && t.shared[h] == 0 && t.exclusive != Some(h)
    ensures t.readers[h] == InBody ==> s.readers[h].Admitted? && t.shared[h] == 1 && t.exclusive == None
    ensures t.readers[h] == Closing ==>
              && s.readers[h] != Closing && s.readers[h] != Closed
              && (t.shared[h] == s.shared[h] || (s.readers[h] == InBody && t.shared[h] == 0))
              && (t.exclusive == s.exclusive || (s.readers[h] == ProbeHeld && t.exclusive == None))
    ensures t.readers[h] == Closed ==> s.readers[h] != Closed && !Holds(t, h)
  {
    assert ReaderOk(s, h);
    hide Add, Take, Drop, LocksOk;
    CallTouches(s, t, h);
    match s.readers[h]
    case Probing => ProbingLeaves(s, t, h);
    case ProbeHeld => HeldLeaves(s, t, h);
    case Admitted(_) => AdmittedLeaves(s, t, h);
    case InBody => BodyLeaves(s, t, h);
    case Closing => hide OthersKeep;
    case Closed => hide OthersKeep;
  }

  lemma ProbingLeaves(s: Sys, t: Sys, h: nat)
    requires h in s.readers && s.readers[h] == Probing && !Holds(s, h) && ReaderStep(s, t, h)
    ensures h in t.readers && t.readers[h] != Probing && t.readers[h] != InBody
    ensures t.readers[h] == ProbeHeld ==> t.exclusive == Some(h) && forall g: nat :: !Holds(s, g)
    ensures t.readers[h].Admitted? ==> t.readers[h].holder != h && Holds(s, t.readers[h].holder)
    ensures t.readers[h].Admitted? || t.readers[h] == Closing ==> t.shared == s.shared && t.exclusive == s.exclusive
    ensures t.readers[h] == Closed ==> !Holds(t, h)
  {
    hide Add, Take, Drop;
    assert ExclusiveFree(s) ==> forall g: nat :: !Holds(s, g);
  }

  lemma HeldLeaves(s: Sys, t: Sys, h: nat)
    requires h in s.readers && s.readers[h] == ProbeHeld && ReaderStep(s, t, h)
    ensures h in t.readers && (t.readers[h] == Closing || t.readers[h] == Closed)
    ensures t.readers[h] == Closing ==> t.shared == s.shared && (t.exclusive == s.exclusive || t.exclusive == None)
    ensures t.readers[h] == Closed ==> !Holds(t, h)
  {
    hide Add, Take;
  }

  lemma AdmittedLeaves(s: Sys, t: Sys, h: nat)
    requires h in s.readers && s.readers[h].Admitted? && !Holds(s, h) && ReaderStep(s, t, h)
    ensures h in t.readers && (t.readers[h] == InBody || t.readers[h] == Closing || t.readers[h] == Closed)
    ensures t.readers[h] == InBody ==> t.shared[h] == 1 && t.exclusive == None
    ensures t.readers[h] == Closing ==> t.shared == s.shared && t.exclusive == s.exclusive
    ensures t.readers[h] == Closed ==> !Holds(t, h)
  {
    hide Take;
  }

  lemma BodyLeaves(s: Sys, t: Sys, h: nat)
    requires h in s.readers && s.readers[h] == InBody && s.shared[h] == 1 && ReaderStep(s, t, h)
    ensures h in t.readers && (t.readers[h] == Closing || t.readers[h] == Closed)
    ensures t.readers[h] == Closing ==> (t.shared[h] == s.shared[h] || t.shared[h] == 0) && t.exclusive == s.exclusive
    ensures t.readers[h] == Closed ==> !Holds(t, h)
  {
    hide Add;
  }

  lemma CallTouches(s: Sys, t: Sys, h: nat)
    requires h in s.readers && ReaderOk(s, h) && ReaderStep(s, t, h)
    ensures OthersKeep(s, t, h)
  {
    ReaderTouchesItself(s, t, h);
    ReaderMovesItself(s, t, h);
    hide ReaderStep;
  }

  // An owner can take the byte shared exactly if no other handle has it exclusively, and
  // exclusively exactly if no handle has it at all.
  lemma OwnersAreGranted(s: Sys, g: nat)
    requires g !in s.readers
    ensures (exists t :: OwnerStep(s, t, g) && t.shared[g] == s.shared[g] + 1 && t.exclusive == s.exclusive)
            <==> s.exclusive == None || s.exclusive == Some(g)
    ensures s.exclusive != Some(g) ==>
              ((exists t :: OwnerStep(s, t, g) && t.exclusive == Some(g))
               <==> s.exclusive == None && forall k: nat :: s.shared[k] == 0)
  {
    var t := s.(shared := Add(s.shared, g));
    assert s.exclusive == None || s.exclusive == Some(g) ==> OwnerStep(s, t, g);
    var u := s.(exclusive := Some(g));
    assert s.exclusive == None && (forall k: nat :: s.shared[k] == 0) ==> OwnerStep(s, u, g);
  }

  // ----- guarded reads

  // In its block a read of a database with a log has its three files and the lock; of one
  // without a log, its file and the handle that keeps writers out.
  lemma BlockHoldsAll(worlds: seq<G.World>, k: nat, h: nat)
    requires G.Run(worlds) && k < |worlds| && h in worlds[k].reading && worlds[k].reading[h].phase.InBlock?
    ensures worlds[k].reading[h].held
            == if worlds[k].reading[h].wal then [G.MainHandle, G.WalHandle, G.ShmHandle, G.IndexLock]
               else [G.MainHandle, G.WriterBarrier]
    ensures worlds[k].reading[h].wal ==> worlds[k].sys.shared[h] == 1 && worlds[k].sys.exclusive == None
  {
    G.BlockIsGuarded(worlds, k, h);
  }

  // The lock of a guarded read was taken past a probe at which another handle had the byte.
  lemma {:induction false} BlockHadAWitness(worlds: seq<G.World>, k: nat, h: nat) returns (j: nat, g: nat)
    requires G.Run(worlds) && k < |worlds| && h in worlds[k].sys.readers
    requires worlds[k].sys.readers[h].InBody? || worlds[k].sys.readers[h].Admitted?
    ensures j <= k && h in worlds[j].sys.readers && worlds[j].sys.readers[h] == Probing
    ensures g != h && Holds(worlds[j].sys, g)
  {
    hide G.Step, Step, Holds;
    if k == 0 {
      assert false;
    } else {
      var s, t := worlds[k - 1].sys, worlds[k].sys;
      G.LocksRun(worlds, k - 1);
      if h in s.readers && (s.readers[h].InBody? || s.readers[h].Admitted?) {
        j, g := BlockHadAWitness(worlds, k - 1, h);
      } else {
        AdmittingStep(s, t, h);
        j := k - 1;
        g :| g != h && Holds(s, g);
      }
    }
  }

  // Only read `h` moves, and the other handles keep their locks.
  ghost predicate Alone(w: G.World, v: G.World, h: nat) {
    && OthersKeep(w.sys, v.sys, h)
    && (forall k | k in w.reading && k != h :: k in v.reading && v.reading[k] == w.reading[k])
  }

  lemma AloneOn(u: G.World, v: G.World, w: G.World, h: nat)
    requires Alone(u, v, h) && Alone(v, w, h)
    ensures Alone(u, w, h)
  {
  }

  lemma Further(worlds: seq<G.World>, v: G.World, h: nat) returns (longer: seq<G.World>)
    requires G.Run(worlds) && G.ReadStep(worlds[|worlds| - 1], v, h)
    ensures longer == worlds + [v] && G.Run(longer)
  {
    hide G.ReadStep;
    longer := worlds + [v];
    assert G.Step(worlds[|worlds| - 1], v);
    hide G.Step;
  }

  // From any state of any run, a read that leaves can give back everything it has, with
  // nothing left on the byte, and nobody else is touched.
  lemma {:induction false} CanUnwind(worlds: seq<G.World>, h: nat) returns (longer: seq<G.World>)
    requires worlds != [] && G.Run(worlds)
    requires h in worlds[|worlds| - 1].reading && worlds[|worlds| - 1].reading[h].phase.Leaving?
    ensures G.Run(longer) && |worlds| <= |longer| && longer[..|worlds|] == worlds
    ensures var v := longer[|longer| - 1];
      && h in v.reading && v.reading[h].phase.Leaving? && v.reading[h].held == []
      && !Holds(v.sys, h) && Alone(worlds[|worlds| - 1], v, h)
    decreases |worlds[|worlds| - 1].reading[h].held|
  {
    hide G.ReadStep, G.WorldOk, Holds, Alone, G.Run;
    var w := worlds[|worlds| - 1];
    G.RunKeepsOk(worlds, |worlds| - 1);
    longer := worlds;
    if w.reading[h].held == [] {
      G.UnwoundHoldsNothing(worlds, |worlds| - 1, h);
      AloneStays(w, h);
    } else {
      var v := GiveBack(w, h);
      var next := Further(worlds, v, h);
      LastIs(worlds, v);
      longer := CanUnwind(next, h);
      StillFirst(worlds, next, longer, v);
      AloneOn(w, v, longer[|longer| - 1], h);
    }
  }

  lemma AloneStays(w: G.World, h: nat)
    ensures Alone(w, w, h)
  {
  }

  lemma LastIs(worlds: seq<G.World>, v: G.World)
    ensures var next := worlds + [v]; |next| == |worlds| + 1 && next[|next| - 1] == v
  {
  }

  lemma StillFirst(worlds: seq<G.World>, next: seq<G.World>, longer: seq<G.World>, v: G.World)
    requires next == worlds + [v] && |next| <= |longer| && longer[..|next|] == next
    ensures |worlds| <= |longer| && longer[..|worlds|] == worlds
  {
    assert longer[..|worlds|] == longer[..|next|][..|worlds|];
  }

  lemma GiveBack(w: G.World, h: nat) returns (v: G.World)
    requires G.WorldOk(w) && h in w.reading && w.reading[h].phase.Leaving? && w.reading[h].held != []
    ensures G.ReadStep(w, v, h) && Alone(w, v, h)
    ensures h in v.reading && v.reading[h].phase.Leaving?
    ensures v.reading[h].held == w.reading[h].held[..|w.reading[h].held| - 1]
  {
    var rd := w.reading[h];
    var n := |rd.held| - 1;
    assert G.StackOk(w.sys, h, rd) && rd.held[n] == G.Needed(rd.wal)[n];
    var sys := w.sys;
    if rd.held[n].IndexLock? {
      sys := BodyCanBeReleased(w.sys, h);
    } else if rd.held[n].ShmHandle? {
      sys := CloseReleases(w.sys, h);
    }
    v := G.World(sys, w.reading[h := rd.(held := rd.held[..n])]);
    assert rd.held[n].ShmHandle? ==> Goes(ReleaseAll(w.sys, h), sys, h, Closed) by {
      if rd.held[n].ShmHandle? {
        ClosingIsRelease(w.sys, sys, h);
      }
    }
    hide ReaderStep, ReleaseAll, Holds, Inv;
    assert G.Unwinds(w, v, h, rd);
  }

  lemma ClosingIsRelease(s: Sys, t: Sys, h: nat)
    requires h in s.readers && s.readers[h] != Closed && ReaderStep(s, t, h) && h in t.readers && t.readers[h] == Closed
    ensures Goes(ReleaseAll(s, h), t, h, Closed)
  {
    hide Add, Take, Drop;
  }

  // How far a read is from its block.
  function Ahead(w: G.World, h: nat): nat
    requires h in w.reading
  {
    var rd := w.reading[h];
    if rd.phase.InBlock? then 0
    else
      var missing := |G.Needed(rd.wal)| - |rd.held|;
      if missing < 0 then 1
      else 1 + 2 * missing - (if missing > 0 && h in w.sys.readers && w.sys.readers[h].Admitted? then 1 else 0)
  }

  // Nobody has the byte exclusively, and some other handle has it shared.
  ghost predicate Attended(w: G.World, h: nat, g: nat) {
    w.sys.exclusive == None && g != h && w.sys.shared[g] > 0
  }

  // From any state of any run, a read that has not failed can enter its block, without
  // anybody else moving, if another handle has the byte shared and nobody has it exclusively.
  lemma {:induction false} CanEnter(worlds: seq<G.World>, h: nat, g: nat) returns (longer: seq<G.World>)
    requires worlds != [] && G.Run(worlds)
    requires h in worlds[|worlds| - 1].reading && worlds[|worlds| - 1].reading[h].phase.Entering?
    requires Attended(worlds[|worlds| - 1], h, g)
    ensures G.Run(longer) && |worlds| <= |longer| && longer[..|worlds|] == worlds
    ensures var v := longer[|longer| - 1];
      h in v.reading && v.reading[h].phase.InBlock? && Alone(worlds[|worlds| - 1], v, h)
    decreases Ahead(worlds[|worlds| - 1], h)
  {
    hide G.ReadStep, G.WorldOk, Holds, Alone, G.Run, Attended, Ahead;
    var w := worlds[|worlds| - 1];
    G.RunKeepsOk(worlds, |worlds| - 1);
    var v := OneIn(w, h, g);
    var next := Further(worlds, v, h);
    LastIs(worlds, v);
    longer := next;
    if v.reading[h].phase.Entering? {
      longer := CanEnter(next, h, g);
      AloneOn(w, v, longer[|longer| - 1], h);
    }
    StillFirst(worlds, next, longer, v);
  }

  lemma OneIn(w: G.World, h: nat, g: nat) returns (v: G.World)
    requires G.WorldOk(w) && h in w.reading && w.reading[h].phase.Entering? && Attended(w, h, g)
    ensures G.ReadStep(w, v, h) && Alone(w, v, h) && Attended(v, h, g)
    ensures h in v.reading && (v.reading[h].phase.Entering? || v.reading[h].phase.InBlock?)
    ensures Ahead(v, h) < Ahead(w, h)
  {
    var rd := w.reading[h];
    assert G.StackOk(w.sys, h, rd);
    if G.Locking(rd) {
      v := LockIn(w, h, g);
    } else {
      v := OpenIn(w, h, g);
    }
  }

  // The probe is refused because of `g`, and then the shared lock is granted.
  lemma LockIn(w: G.World, h: nat, g: nat) returns (v: G.World)
    requires G.WorldOk(w) && h in w.reading && w.reading[h].phase.Entering? && Attended(w, h, g)
    requires G.Locking(w.reading[h])
    ensures G.ReadStep(w, v, h) && Alone(w, v, h) && Attended(v, h, g)
    ensures h in v.reading && v.reading[h].phase.Entering? && Ahead(v, h) < Ahead(w, h)
  {
    var rd := w.reading[h];
    assert G.StackOk(w.sys, h, rd) && |rd.held| == 3 && ReaderOk(w.sys, h);
    var sys;
    if w.sys.readers[h].Probing? {
      ProbeIsRefused(w.sys, h, g);
      sys :| Can(w.sys, sys, h, Admitted(g), 0, false);
    } else {
      SharedIsGranted(w.sys, h);
      sys :| Can(w.sys, sys, h, InBody, 1, false);
    }
    v := G.World(sys, w.reading[h := G.AfterCall(rd, sys.readers[h])]);
    hide ReaderStep, ReleaseAll, Inv;
    assert G.Locks(w, v, h, rd);
  }

  lemma OpenIn(w: G.World, h: nat, g: nat) returns (v: G.World)
    requires G.WorldOk(w) && h in w.reading && w.reading[h].phase.Entering? && Attended(w, h, g)
    requires !G.Locking(w.reading[h])
    ensures G.ReadStep(w, v, h) && Alone(w, v, h) && Attended(v, h, g)
    ensures h in v.reading && (v.reading[h].phase.Entering? || v.reading[h].phase.InBlock?)
    ensures Ahead(v, h) < Ahead(w, h)
  {
    hide ReaderStep, ReleaseAll, Inv;
    var rd := w.reading[h];
    var n := |rd.held|;
    assert G.StackOk(w.sys, h, rd) && rd.held == G.Needed(rd.wal)[..n];
    if n == |G.Needed(rd.wal)| {
      v := G.World(w.sys, w.reading[h := rd.(phase := G.InBlock)]);
      assert G.Connects(w, v, h, rd);
    } else {
      var opening := G.Needed(rd.wal)[n];
      var sys := if opening.ShmHandle? then w.sys.(readers := w.sys.readers[h := Probing]) else w.sys;
      v := G.World(sys, w.reading[h := rd.(held := rd.held + [opening])]);
      assert G.Opens(w, v, h, rd);
    }
  }

  // A read can begin on any handle that is not in use and holds nothing, can be refused
  // before each acquisition, and can leave its block; its process can die at any time.
  lemma CanStart(w: G.World, h: nat, wal: bool) returns (v: G.World)
    requires h !in w.reading && w.sys.shared[h] == 0 && w.sys.exclusive != Some(h)
    ensures G.Step(w, v) && v.sys == w.sys && Alone(w, v, h)
    ensures h in v.reading && v.reading[h] == G.Read(wal, [], G.Entering)
  {
    v := G.World(w.sys, w.reading[h := G.Read(wal, [], G.Entering)]);
    assert G.Begins(w, v, h, wal);
  }

  lemma CanLeave(w: G.World, h: nat) returns (v: G.World)
    requires h in w.reading && w.reading[h].phase.InBlock?
    ensures G.ReadStep(w, v, h) && v.sys == w.sys && Alone(w, v, h)
    ensures h in v.reading && v.reading[h] == w.reading[h].(phase := G.Leaving)
  {
    v := G.World(w.sys, w.reading[h := w.reading[h].(phase := G.Leaving)]);
    assert G.EndsBlock(w, v, h, w.reading[h]);
  }

  lemma CanRefuse(w: G.World, h: nat) returns (v: G.World)
    requires h in w.reading && w.reading[h].phase.Entering?
    requires w.reading[h].wal && w.reading[h].held == [G.MainHandle, G.WalHandle, G.ShmHandle] ==>
      h in w.sys.readers && w.sys.readers[h] == Probing
    ensures G.ReadStep(w, v, h) && v.sys == w.sys && Alone(w, v, h)
    ensures h in v.reading && v.reading[h] == w.reading[h].(phase := G.Leaving)
  {
    v := G.World(w.sys, w.reading[h := w.reading[h].(phase := G.Leaving)]);
    assert G.Refuses(w, v, h, w.reading[h]);
  }

  lemma CanDie(w: G.World, h: nat) returns (v: G.World)
    requires G.WorldOk(w) && h in w.reading
    ensures G.ReadStep(w, v, h) && Alone(w, v, h)
    ensures h in v.reading && v.reading[h].held == [] && v.reading[h].phase.Leaving? && !Holds(v.sys, h)
  {
    var rd := w.reading[h];
    assert G.StackOk(w.sys, h, rd);
    var open := h in w.sys.readers && !w.sys.readers[h].Closed?;
    var sys := if open then ReleaseAll(w.sys, h).(readers := w.sys.readers[h := Closed]) else w.sys;
    assert h in w.sys.readers ==> ReaderOk(w.sys, h);
    v := G.World(sys, w.reading[h := rd.(held := [], phase := G.Leaving)]);
    assert G.Dies(w, v, h, rd);
  }
}
