// Admission through the one-byte DMS lock of a WAL index, for any number of reader
// and owner handles whose system calls interleave in any way.
module DmsLock {
  import opened Options

  // A reader handle: open and about to probe; holding the probe; told that another
  // handle (the holder) had the byte; in the guarded body; past it; closed.
  datatype Pc = Probing | ProbeHeld | Admitted(holder: nat) | InBody | Closing | Closed

  // The locks on the byte, each under its handle. Every handle that is no reader is an
  // owner's; shared locks of one handle add up, and an unlock takes back one of them.
  datatype Sys = Sys(shared: multiset<nat>, exclusive: Option<nat>, readers: map<nat, Pc>)

  predicate Holds(s: Sys, g: nat) {
    s.shared[g] > 0 || s.exclusive == Some(g)
  }

  function Add(shared: multiset<nat>, g: nat): (now: multiset<nat>)
    ensures forall k: nat :: now[k] == shared[k] + (if k == g then 1 else 0)
  {
    shared + multiset{g}
  }

  function Take(shared: multiset<nat>, g: nat): (now: multiset<nat>)
    ensures forall k: nat :: now[k] == if k == g && shared[k] > 0 then shared[k] - 1 else shared[k]
  {
    shared - multiset{g}
  }

  function Drop(shared: multiset<nat>, g: nat): (now: multiset<nat>)
    ensures forall k: nat :: now[k] == if k == g then 0 else shared[k]
  {
    shared[g := 0]
  }

  // ----- the lock manager

  ghost predicate ExclusiveFree(s: Sys) {
    s.exclusive.None? && forall g: nat :: s.shared[g] == 0
  }

  predicate SharedFree(s: Sys, h: nat) {
    s.exclusive.None? || s.exclusive == Some(h)
  }

  // Closing a handle, or the death of its process, releases all its locks.
  function ReleaseAll(s: Sys, h: nat): Sys {
    s.(shared := Drop(s.shared, h), exclusive := if s.exclusive == Some(h) then None else s.exclusive)
  }

  predicate Owner(s: Sys, g: nat) {
    g !in s.readers
  }

  ghost predicate OwnerStep(s: Sys, t: Sys, g: nat) {
    && Owner(s, g)
    && (|| (SharedFree(s, g) && t == s.(shared := Add(s.shared, g)))
        || (ExclusiveFree(s) && t == s.(exclusive := Some(g)))
        || (s.shared[g] > 0 && t == s.(shared := Take(s.shared, g)))
        || (s.exclusive == Some(g) && t == s.(exclusive := None))
        || t == ReleaseAll(s, g))
  }

  // ----- the readers

  predicate Goes(s: Sys, t: Sys, h: nat, pc: Pc) {
    t == s.(readers := s.readers[h := pc])
  }

  // One system call of reader `h`. Any call may also fail for a reason that says
  // nothing about other handles, and its process may die at any point.
  ghost predicate ReaderStep(s: Sys, t: Sys, h: nat)
    requires h in s.readers
  {
    || (!s.readers[h].Closed? && Goes(ReleaseAll(s, h), t, h, Closed))
    || match s.readers[h]
       case Probing =>
         || (ExclusiveFree(s) && Goes(s.(exclusive := Some(h)), t, h, ProbeHeld))
         || (exists g :: g != h && Holds(s, g) && Goes(s, t, h, Admitted(g)))
         || Goes(s, t, h, Closing)
       case ProbeHeld =>
         // nobody owns the index: release and refuse; the release itself may fail
         || Goes(s.(exclusive := None), t, h, Closing)
         || Goes(s, t, h, Closing)
       case Admitted(_) =>
         || (SharedFree(s, h) && Goes(s.(shared := Add(s.shared, h)), t, h, InBody))
         || Goes(s, t, h, Closing)
       case InBody =>
         || Goes(s.(shared := Take(s.shared, h)), t, h, Closing)
         || Goes(s, t, h, Closing)
       case Closing => false
       case Closed => false
  }

  ghost predicate Step(s: Sys, t: Sys) {
    || (exists g :: OwnerStep(s, t, g))
    || (exists h :: h in s.readers && ReaderStep(s, t, h))
    || (exists h :: h !in s.readers && !Holds(s, h) && Goes(s, t, h, Probing))
  }

  ghost predicate Start(s: Sys) {
    s.readers == map[] && LocksOk(s)
  }

  ghost predicate Run(states: seq<Sys>) {
    states != [] && Start(states[0]) && forall i | 0 <= i < |states| - 1 :: Step(states[i], states[i + 1])
  }

  // ----- what holds throughout

  // An exclusive lock tolerates no other handle's lock.
  ghost predicate LocksOk(s: Sys) {
    s.exclusive.Some? ==> forall g: nat | s.shared[g] > 0 :: g == s.exclusive.value
  }

  ghost predicate ReaderOk(s: Sys, h: nat)
    requires h in s.readers
  {
    match s.readers[h]
    case Probing => !Holds(s, h)
    case ProbeHeld => s.exclusive == Some(h) && s.shared[h] == 0
    case Admitted(g) => !Holds(s, h) && g != h
    case InBody => s.shared[h] == 1 && s.exclusive != Some(h)
    case Closing => true
    case Closed => !Holds(s, h)
  }

  ghost predicate Inv(s: Sys) {
    LocksOk(s) && forall h | h in s.readers :: ReaderOk(s, h)
  }

  lemma StepKeepsInv(s: Sys, t: Sys)
    requires Inv(s) && Step(s, t)
    ensures Inv(t)
  {
    hide Inv, OwnerStep, ReaderStep;
    if g :| OwnerStep(s, t, g) {
      OwnerKeepsInv(s, t, g);
    } else if h :| h in s.readers && ReaderStep(s, t, h) {
      ReaderKeepsInv(s, t, h);
    } else {
      var h :| h !in s.readers && !Holds(s, h) && Goes(s, t, h, Probing);
      OpeningKeepsInv(s, t, h);
    }
  }

  lemma OpeningKeepsInv(s: Sys, t: Sys, h: nat)
    requires Inv(s) && h !in s.readers && !Holds(s, h) && Goes(s, t, h, Probing)
    ensures Inv(t)
  {
    forall k | k in t.readers && k != h ensures ReaderOk(t, k) {
      assert ReaderOk(s, k);
    }
  }

  // The step changes the locks of `h` only, and the place of no other reader.
  ghost predicate TouchesOnly(s: Sys, t: Sys, h: nat) {
    && (forall k: nat | k != h :: t.shared[k] == s.shared[k] && (t.exclusive == Some(k) <==> s.exclusive == Some(k)))
    && (forall k | k in t.readers && k != h :: k in s.readers && t.readers[k] == s.readers[k])
  }

  lemma OthersStayOk(s: Sys, t: Sys, h: nat, k: nat)
    requires TouchesOnly(s, t, h) && k != h && k in t.readers && ReaderOk(s, k)
    ensures ReaderOk(t, k)
  {
  }

  lemma OwnerKeepsInv(s: Sys, t: Sys, g: nat)
    requires Inv(s) && OwnerStep(s, t, g)
    ensures Inv(t)
  {
    OwnerKeepsLocks(s, t, g);
    hide OwnerStep, ReaderOk, LocksOk;
    forall k | k in t.readers ensures ReaderOk(t, k) {
      OthersStayOk(s, t, g, k);
    }
  }

  lemma OwnerKeepsLocks(s: Sys, t: Sys, g: nat)
    requires LocksOk(s) && OwnerStep(s, t, g)
    ensures LocksOk(t) && TouchesOnly(s, t, g) && g !in t.readers
  {
    hide Add, Take, Drop;
  }

  lemma ReaderKeepsInv(s: Sys, t: Sys, h: nat)
    requires Inv(s) && h in s.readers && ReaderStep(s, t, h)
    ensures Inv(t)
  {
    assert ReaderOk(s, h);
    hide ReaderStep, ReaderOk, LocksOk;
    ReaderKeepsLocks(s, t, h);
    ReaderTouchesItself(s, t, h);
    ReaderMoves(s, t, h);
    forall k | k in t.readers && k != h ensures ReaderOk(t, k) {
      OthersStayOk(s, t, h, k);
    }
  }

  lemma ReaderKeepsLocks(s: Sys, t: Sys, h: nat)
    requires LocksOk(s) && h in s.readers && ReaderOk(s, h) && ReaderStep(s, t, h)
    ensures LocksOk(t)
  {
    hide Add, Take, Drop;
  }

  lemma ReaderTouchesItself(s: Sys, t: Sys, h: nat)
    requires h in s.readers && ReaderOk(s, h) && ReaderStep(s, t, h)
    ensures TouchesOnly(s, t, h)
  {
    hide Add, Take, Drop, LocksOk;
  }

  lemma ReaderMoves(s: Sys, t: Sys, h: nat)
    requires h in s.readers && ReaderOk(s, h) && ReaderStep(s, t, h)
    ensures h in t.readers && ReaderOk(t, h)
  {
    hide Add, Take, Drop;
  }

  lemma {:induction false} RunKeepsInv(states: seq<Sys>, k: nat)
    requires Run(states) && k < |states|
    ensures Inv(states[k])
  {
    if k > 0 {
      RunKeepsInv(states, k - 1);
      StepKeepsInv(states[k - 1], states[k]);
    }
  }

  // ----- the results

  // In the guarded body a reader holds exactly one shared lock, and nobody, itself
  // included, holds the byte exclusively.
  lemma BodyIsGuarded(states: seq<Sys>, k: nat, h: nat)
    requires Run(states) && k < |states| && h in states[k].readers && states[k].readers[h].InBody?
    ensures states[k].shared[h] == 1 && states[k].exclusive.None?
  {
    RunKeepsInv(states, k);
    assert ReaderOk(states[k], h);
  }

  // However a reader ends, it leaves no lock once its handle is closed.
  lemma ClosedLeavesNothing(states: seq<Sys>, k: nat, h: nat)
    requires Run(states) && k < |states| && h in states[k].readers && states[k].readers[h].Closed?
    ensures !Holds(states[k], h)
  {
    RunKeepsInv(states, k);
    assert ReaderOk(states[k], h);
  }

  // A reader is admitted only past a probe at which another handle held the byte.
  lemma {:induction false} AdmissionHadAWitness(states: seq<Sys>, k: nat, h: nat) returns (j: nat, g: nat)
    requires Run(states) && k < |states| && h in states[k].readers
    requires states[k].readers[h].InBody? || states[k].readers[h].Admitted?
    ensures j <= k && h in states[j].readers && states[j].readers[h].Probing?
    ensures g != h && Holds(states[j], g)
  {
    hide Step, Holds;
    if k == 0 {
      assert false;
    } else {
      var s, t := states[k - 1], states[k];
      assert Step(s, t);
      if h in s.readers && (s.readers[h].InBody? || s.readers[h].Admitted?) {
        j, g := AdmissionHadAWitness(states, k - 1, h);
      } else {
        AdmittingStep(s, t, h);
        j := k - 1;
        g :| g != h && Holds(s, g);
      }
    }
  }

  // Only a step of its own takes a reader past the probe.
  lemma AdmittingStep(s: Sys, t: Sys, h: nat)
    requires Step(s, t) && h in t.readers && (t.readers[h].InBody? || t.readers[h].Admitted?)
    requires !(h in s.readers && (s.readers[h].InBody? || s.readers[h].Admitted?))
    ensures h in s.readers && s.readers[h].Probing? && exists g :: g != h && Holds(s, g)
  {
    hide OwnerStep, ReaderStep;
    if g :| OwnerStep(s, t, g) {
      OwnerMovesNoReader(s, t, g);
    } else if k :| k in s.readers && ReaderStep(s, t, k) {
      ReaderMovesItself(s, t, k);
      if k == h {
        AdmittingCall(s, t, h);
      }
    }
  }

  lemma OwnerMovesNoReader(s: Sys, t: Sys, g: nat)
    requires OwnerStep(s, t, g)
    ensures t.readers == s.readers
  {
    hide Add, Take, Drop;
  }

  lemma ReaderMovesItself(s: Sys, t: Sys, k: nat)
    requires k in s.readers && ReaderStep(s, t, k)
    ensures t.readers.Keys == s.readers.Keys && forall h | h in s.readers && h != k :: t.readers[h] == s.readers[h]
  {
    hide Add, Take, Drop;
  }

  lemma AdmittingCall(s: Sys, t: Sys, h: nat)
    requires h in s.readers && ReaderStep(s, t, h) && !s.readers[h].InBody? && !s.readers[h].Admitted?
    requires h in t.readers && (t.readers[h].InBody? || t.readers[h].Admitted?)
    ensures s.readers[h].Probing? && exists g :: g != h && Holds(s, g)
  {
    hide Add, Take, Drop;
  }

  // The witness need not be a database connection: a reader's own momentary probe
  // admits another reader although no owner has the byte, then or later.
  lemma ProbeAdmitsWithoutOwner() returns (states: seq<Sys>)
    ensures Run(states) && 2 in states[|states| - 1].readers && states[|states| - 1].readers[2].InBody?
    ensures forall k, g | 0 <= k < |states| && Holds(states[k], g) :: !Owner(states[|states| - 1], g)
  {
    states := WithoutOwner();
    forall i | 0 <= i < |states| - 1 ensures Step(states[i], states[i + 1]) {
      WithoutOwnerSteps(i);
    }
  }

  // Reader 1 probes; reader 2 is told that the byte is held, and is admitted.
  function WithoutOwner(): seq<Sys> {
    [ Sys(multiset{}, None, map[]),
      Sys(multiset{}, None, map[1 := Probing]),
      Sys(multiset{}, None, map[1 := Probing, 2 := Probing]),
      Sys(multiset{}, Some(1), map[1 := ProbeHeld, 2 := Probing]),
      Sys(multiset{}, Some(1), map[1 := ProbeHeld, 2 := Admitted(1)]),
      Sys(multiset{}, None, map[1 := Closing, 2 := Admitted(1)]),
      Sys(multiset{2}, None, map[1 := Closing, 2 := InBody]) ]
  }

  lemma WithoutOwnerSteps(i: nat)
    requires i < 6
    ensures Step(WithoutOwner()[i], WithoutOwner()[i + 1])
  {
    var s, t := WithoutOwner()[i], WithoutOwner()[i + 1];
    if i == 0 {
      assert Goes(s, t, 1, Probing);
    } else if i == 1 {
      assert Goes(s, t, 2, Probing);
    } else if i == 3 {
      assert Holds(s, 1) && Goes(s, t, 2, Admitted(1));
      assert ReaderStep(s, t, 2);
    } else if i == 5 {
      assert ReaderStep(s, t, 2);
    } else {
      assert ReaderStep(s, t, 1);
    }
  }

  lemma NobodyHolds(s: Sys)
    requires forall g :: !Holds(s, g)
    ensures ExclusiveFree(s)
  {
    forall g: nat ensures s.shared[g] == 0 {
      assert !Holds(s, g);
    }
    if s.exclusive.Some? {
      var holds := Holds(s, s.exclusive.value);
    }
  }

  // When no other reader holds the byte at the probe, its answer is exact: the
  // reader can be admitted if and only if an owner holds the byte, and it can take
  // the byte, to refuse, if and only if no owner does.
  lemma LoneProbeFindsOwners(s: Sys, h: nat)
    requires Inv(s) && h in s.readers && s.readers[h].Probing?
    requires forall g | g in s.readers && g != h :: !Holds(s, g)
    ensures (exists t, g :: ReaderStep(s, t, h) && h in t.readers && t.readers[h] == Admitted(g))
            <==> exists g :: Owner(s, g) && Holds(s, g)
    ensures (exists t :: ReaderStep(s, t, h) && h in t.readers && t.readers[h].ProbeHeld?)
            <==> !exists g :: Owner(s, g) && Holds(s, g)
  {
    assert ReaderOk(s, h);
    if g :| Owner(s, g) && Holds(s, g) {
      var t := s.(readers := s.readers[h := Admitted(g)]);
      assert Goes(s, t, h, Admitted(g)) && ReaderStep(s, t, h);
    } else {
      assert forall g :: !Holds(s, g);
      NobodyHolds(s);
      var t := s.(exclusive := Some(h), readers := s.readers[h := ProbeHeld]);
      assert ReaderStep(s, t, h);
    }
  }

  ghost predicate OwnerHolds(s: Sys) {
    exists g :: Owner(s, g) && Holds(s, g)
  }

  ghost predicate OtherReaderHolds(s: Sys, h: nat) {
    exists g :: g in s.readers && g != h && Holds(s, g)
  }

  // The call by which reader `h` is told that another handle has the byte.
  ghost predicate Admits(s: Sys, t: Sys, h: nat) {
    h in s.readers && ReaderStep(s, t, h) && h in t.readers && t.readers[h].Admitted?
  }

  // The exact condition under which being admitted means that an owner holds the byte:
  // one does, or no other reader holds it either.
  lemma AdmissionMeansOwner(s: Sys, h: nat)
    requires Inv(s) && h in s.readers && s.readers[h].Probing?
    ensures (forall t | Admits(s, t, h) :: OwnerHolds(s)) <==> OwnerHolds(s) || !OtherReaderHolds(s, h)
  {
    assert ReaderOk(s, h);
    if g :| g in s.readers && g != h && Holds(s, g) {
      var t := s.(readers := s.readers[h := Admitted(g)]);
      assert Goes(s, t, h, Admitted(g)) && Admits(s, t, h);
    }
    forall t | Admits(s, t, h) ensures OwnerHolds(s) || OtherReaderHolds(s, h) {
      AdmittedPastHolder(s, t, h);
      var g :| g != h && Holds(s, g);
      assert Owner(s, g) || g in s.readers;
    }
  }

  lemma AdmittedPastHolder(s: Sys, t: Sys, h: nat)
    requires Admits(s, t, h) && s.readers[h].Probing?
    ensures exists g :: g != h && Holds(s, g)
  {
    hide Add, Take, Drop;
  }
}
