// Killing captured processes by identity while the system goes on: processes exit
// and pids are reused between any two steps of the cleanup.
module IdentityCleanup {

  // A process: its pid and its creation time. No two processes ever share both.
  datatype Ident = Ident(pid: nat, birth: nat)

  // `used` is every identity that ever existed.
  datatype World = World(live: map<nat, nat>, used: set<Ident>)

  datatype Mode = Kill | Look

  // Where the cleanup is with the current row. A handle stays bound to one process,
  // whatever becomes of its pid.
  datatype Pc =
    | Lookup
    | Found
    | Bound(h: Ident)
    | Alive(h: Ident)
    | Matched(h: Ident)
    | Acted(h: Ident)

  // A row's end: printed as still alive, failed, or silently dropped.
  datatype Outcome = Reported | Failed | Dropped

  // One outcome for each row that is done, so the current row is number |done|.
  datatype State = State(world: World, pc: Pc, done: seq<Outcome>, killed: set<Ident>)

  predicate IsLive(w: World, id: Ident) {
    id.pid in w.live && w.live[id.pid] == id.birth
  }

  // The process existed and does not any more; it never will again.
  predicate Gone(w: World, id: Ident) {
    id in w.used && !IsLive(w, id)
  }

  predicate WorldOk(w: World) {
    forall p | p in w.live :: Ident(p, w.live[p]) in w.used
  }

  // ----- the system

  ghost predicate SystemStep(w: World, v: World) {
    || (exists p :: p in w.live && v == w.(live := w.live - {p}))
    || (exists p, b :: p !in w.live && Ident(p, b) !in w.used
          && v == World(w.live[p := b], w.used + {Ident(p, b)}))
  }

  // ----- the cleanup

  predicate EndsRow(s: State, t: State, outcome: Outcome) {
    t == s.(done := s.done + [outcome], pc := Lookup)
  }

  // An operation on the handle that throws InvalidOperationException: the row is
  // dropped if that handle's process has exited, and a failure otherwise.
  predicate InvalidOperation(s: State, t: State, h: Ident) {
    if IsLive(s.world, h) then EndsRow(s, t, Failed) else EndsRow(s, t, Dropped)
  }

  // One step on row `row`. Every operation may also throw some other exception,
  // which is a failure of the row.
  ghost predicate RowStep(mode: Mode, row: Ident, s: State, t: State) {
    || EndsRow(s, t, Failed)
    || match s.pc
       // GetProcessById throws ArgumentException for a pid nobody holds
       case Lookup => if row.pid in s.world.live then t == s.(pc := Found) else EndsRow(s, t, Dropped)
       // opening the handle binds to whoever holds the pid at that instant
       case Found =>
         if row.pid in s.world.live then t == s.(pc := Bound(Ident(row.pid, s.world.live[row.pid])))
         else EndsRow(s, t, Dropped)
       case Bound(h) => if IsLive(s.world, h) then t == s.(pc := Alive(h)) else EndsRow(s, t, Dropped)
       // the creation time is read from the handle
       case Alive(h) =>
         || InvalidOperation(s, t, h)
         || (if h.birth == row.birth then t == s.(pc := Matched(h)) else EndsRow(s, t, Dropped))
       case Matched(h) =>
         if mode.Look? then
           t == s.(pc := Acted(h))
         else
           // the kill is refused, throws, or is delivered to the handle's process
           || (IsLive(s.world, h) && t == s.(pc := Acted(h), killed := s.killed + {h}))
           || InvalidOperation(s, t, h)
           || (!IsLive(s.world, h) && EndsRow(s, t, Dropped))
       case Acted(h) => if IsLive(s.world, h) then EndsRow(s, t, Reported) else EndsRow(s, t, Dropped)
  }

  ghost predicate Step(mode: Mode, rows: seq<Ident>, s: State, t: State) {
    || (exists v :: SystemStep(s.world, v) && t == s.(world := v))
    || (|s.done| < |rows| && RowStep(mode, rows[|s.done|], s, t))
  }

  ghost predicate Start(rows: seq<Ident>, s: State) {
    && WorldOk(s.world) && s.pc == Lookup && s.done == [] && s.killed == {}
    && forall i | 0 <= i < |rows| :: rows[i] in s.world.used
  }

  // Any interleaving of the cleanup with the system.
  ghost predicate Run(mode: Mode, rows: seq<Ident>, states: seq<State>) {
    && states != [] && Start(rows, states[0])
    && forall i | 0 <= i < |states| - 1 :: Step(mode, rows, states[i], states[i + 1])
  }

  // ----- what holds throughout

  // A handle is on the row's pid; if it is on another process, that pid had already
  // been reused, so the captured process is gone.
  ghost predicate HandleOk(rows: seq<Ident>, s: State) {
    match s.pc
    case Bound(h) => HandleOn(rows, s, h)
    case Alive(h) => HandleOn(rows, s, h)
    case Matched(h) => |s.done| < |rows| && h == rows[|s.done|]
    case Acted(h) => |s.done| < |rows| && h == rows[|s.done|]
    case _ => true
  }

  ghost predicate HandleOn(rows: seq<Ident>, s: State, h: Ident) {
    && |s.done| < |rows| && h.pid == rows[|s.done|].pid && h in s.world.used
    && (h != rows[|s.done|] ==> Gone(s.world, rows[|s.done|]))
  }

  ghost predicate Inv(mode: Mode, rows: seq<Ident>, s: State) {
    && WorldOk(s.world) && |s.done| <= |rows| && HandleOk(rows, s)
    && (forall i | 0 <= i < |rows| :: rows[i] in s.world.used)
    && (forall i | 0 <= i < |s.done| && s.done[i].Dropped? :: Gone(s.world, rows[i]))
    && (forall id | id in s.killed :: id in rows && mode.Kill?)
  }

  lemma SystemKeepsInv(mode: Mode, rows: seq<Ident>, s: State, v: World)
    requires Inv(mode, rows, s) && SystemStep(s.world, v)
    ensures Inv(mode, rows, s.(world := v))
  {
    forall id | Gone(s.world, id) ensures Gone(v, id) {
      GoneForever(s.world, v, id);
    }
  }

  lemma GoneForever(w: World, v: World, id: Ident)
    requires WorldOk(w) && SystemStep(w, v) && Gone(w, id)
    ensures Gone(v, id)
  {
  }

  // A process that was seen alive and is not live now is gone, and so is a captured
  // process whose pid somebody else holds.
  lemma RowKeepsInv(mode: Mode, rows: seq<Ident>, s: State, t: State)
    requires Inv(mode, rows, s) && |s.done| < |rows| && RowStep(mode, rows[|s.done|], s, t)
    ensures Inv(mode, rows, t)
  {
  }

  lemma {:induction false} RunKeepsInv(mode: Mode, rows: seq<Ident>, states: seq<State>, k: nat)
    requires Run(mode, rows, states) && k < |states|
    ensures Inv(mode, rows, states[k])
  {
    if k > 0 {
      RunKeepsInv(mode, rows, states, k - 1);
      var s, t := states[k - 1], states[k];
      assert Step(mode, rows, s, t);
      if exists v :: SystemStep(s.world, v) && t == s.(world := v) {
        var v :| SystemStep(s.world, v) && t == s.(world := v);
        SystemKeepsInv(mode, rows, s, v);
      } else {
        RowKeepsInv(mode, rows, s, t);
      }
    }
  }

  // ----- the results

  // Only captured identities are ever killed, and none in the mode that only looks.
  lemma KillsOnlyCaptured(mode: Mode, rows: seq<Ident>, states: seq<State>, k: nat, id: Ident)
    requires Run(mode, rows, states) && k < |states| && id in states[k].killed
    ensures id in rows && mode.Kill?
  {
    RunKeepsInv(mode, rows, states, k);
  }

  // The process that a kill reaches was alive under the captured identity at that step.
  lemma KillReachesTheCaptured(mode: Mode, rows: seq<Ident>, states: seq<State>, k: nat)
    requires Run(mode, rows, states) && k + 1 < |states|
    requires states[k + 1].killed != states[k].killed
    ensures |states[k].done| < |rows| && states[k + 1].killed == states[k].killed + {rows[|states[k].done|]}
    ensures IsLive(states[k].world, rows[|states[k].done|])
  {
    RunKeepsInv(mode, rows, states, k);
    assert Step(mode, rows, states[k], states[k + 1]);
  }

  lemma StepKeepsDone(mode: Mode, rows: seq<Ident>, s: State, t: State)
    requires Step(mode, rows, s, t)
    ensures s.done <= t.done
  {
  }

  lemma {:induction false} DoneStays(mode: Mode, rows: seq<Ident>, states: seq<State>, j: nat, k: nat)
    requires Run(mode, rows, states) && j <= k < |states|
    ensures states[j].done <= states[k].done
    decreases k
  {
    hide Step;
    if j < k {
      DoneStays(mode, rows, states, j, k - 1);
      StepKeepsDone(mode, rows, states[k - 1], states[k]);
    }
  }

  // A row dropped without a failure names a process that was gone by then, and it
  // stays gone for the rest of the run.
  lemma DroppedMeansGone(mode: Mode, rows: seq<Ident>, states: seq<State>, j: nat, k: nat, i: nat)
    requires Run(mode, rows, states) && j <= k < |states|
    requires i < |states[j].done| && states[j].done[i].Dropped?
    ensures i < |rows| && Gone(states[k].world, rows[i])
  {
    DoneStays(mode, rows, states, j, k);
    RunKeepsInv(mode, rows, states, k);
  }

  predicate AllDropped(done: seq<Outcome>) {
    forall n | 0 <= n < |done| :: done[n].Dropped?
  }

  // ----- kills happen

  // A row of the killing mode gets past the kill only with it delivered.
  ghost predicate KillsDone(rows: seq<Ident>, s: State) {
    && (s.pc.Acted? ==> s.pc.h in s.killed)
    && forall i | 0 <= i < |s.done| && i < |rows| && s.done[i].Reported? :: rows[i] in s.killed
  }

  lemma StepKeepsKills(rows: seq<Ident>, s: State, t: State)
    requires Inv(Kill, rows, s) && KillsDone(rows, s) && Step(Kill, rows, s, t)
    ensures KillsDone(rows, t) && s.killed <= t.killed
  {
    hide SystemStep;
  }

  lemma {:induction false} RunKeepsKills(rows: seq<Ident>, states: seq<State>, j: nat, k: nat)
    requires Run(Kill, rows, states) && j <= k < |states|
    ensures KillsDone(rows, states[k]) && states[j].killed <= states[k].killed
    decreases k
  {
    hide Step, KillsDone;
    if k > 0 {
      RunKeepsInv(Kill, rows, states, k - 1);
      RunKeepsKills(rows, states, if j < k then j else k - 1, k - 1);
      StepKeepsKills(rows, states[k - 1], states[k]);
    } else {
      NoKillsYet(rows, states[0]);
    }
  }

  lemma NoKillsYet(rows: seq<Ident>, s: State)
    requires Start(rows, s)
    ensures KillsDone(rows, s)
  {
  }

  // A row that is printed in the killing mode was killed, and stays recorded as killed.
  lemma ReportedWasKilled(rows: seq<Ident>, states: seq<State>, j: nat, k: nat, i: nat)
    requires Run(Kill, rows, states) && j <= k < |states|
    requires i < |states[j].done| && states[j].done[i].Reported?
    ensures i < |rows| && rows[i] in states[j].killed && rows[i] in states[k].killed
  {
    RunKeepsInv(Kill, rows, states, j);
    RunKeepsKills(rows, states, j, j);
    RunKeepsKills(rows, states, j, k);
  }

  // A cleanup that finishes without a failure has killed every captured process that has
  // not gone by itself.
  lemma EveryProcessIsKilledOrGone(rows: seq<Ident>, states: seq<State>, i: nat)
    requires Run(Kill, rows, states) && i < |rows|
    requires |states[|states| - 1].done| == |rows| && !FailedIn(states[|states| - 1].done)
    ensures rows[i] in states[|states| - 1].killed || Gone(states[|states| - 1].world, rows[i])
  {
    var last := |states| - 1;
    if states[last].done[i].Reported? {
      ReportedWasKilled(rows, states, last, last, i);
    } else {
      DroppedMeansGone(Kill, rows, states, last, last, i);
    }
  }

  // ----- what is printed

  predicate FailedIn(done: seq<Outcome>) {
    exists i :: 0 <= i < |done| && done[i].Failed?
  }

  // The rows written to the output, in order.
  function Printed(rows: seq<Ident>, done: seq<Outcome>): seq<Ident>
    requires |done| <= |rows|
  {
    if done == [] then []
    else
      var n := |done| - 1;
      Printed(rows, done[..n]) + if done[n].Reported? then [rows[n]] else []
  }

  lemma {:induction false} PrintedAreReported(rows: seq<Ident>, done: seq<Outcome>, id: Ident)
    requires |done| <= |rows|
    ensures id in Printed(rows, done) <==> exists i :: 0 <= i < |done| && done[i].Reported? && rows[i] == id
  {
    if done != [] {
      PrintedAreReported(rows, done[..|done| - 1], id);
    }
  }

  lemma StepEndsOne(mode: Mode, rows: seq<Ident>, s: State, t: State)
    requires Inv(mode, rows, s) && Step(mode, rows, s, t)
    ensures |t.done| == |s.done| || (|s.done| < |rows| && t.done == s.done + [t.done[|s.done|]])
    ensures |t.done| > |s.done| && t.done[|s.done|].Reported? ==> IsLive(s.world, rows[|s.done|]) && t.world == s.world
  {
    hide SystemStep;
  }

  // A row that is printed was alive under its captured identity at the step that printed it.
  lemma {:induction false} PrintedWasLive(mode: Mode, rows: seq<Ident>, states: seq<State>, k: nat, i: nat)
      returns (j: nat)
    requires Run(mode, rows, states) && k < |states|
    requires i < |states[k].done| && states[k].done[i].Reported?
    ensures j < k && i < |rows| && |states[j].done| == i && |states[j + 1].done| == i + 1
    ensures IsLive(states[j].world, rows[i]) && IsLive(states[j + 1].world, rows[i])
    decreases k
  {
    RunKeepsInv(mode, rows, states, k);
    RunKeepsInv(mode, rows, states, k - 1);
    StepEndsOne(mode, rows, states[k - 1], states[k]);
    hide Step;
    if i < |states[k - 1].done| {
      StepKeepsDone(mode, rows, states[k - 1], states[k]);
      j := PrintedWasLive(mode, rows, states, k - 1, i);
    } else {
      j := k - 1;
    }
  }

  // Exit status 0 hides nobody: every captured process that is alive at the end is printed.
  lemma AliveIsPrinted(mode: Mode, rows: seq<Ident>, states: seq<State>, i: nat)
    requires Run(mode, rows, states) && i < |rows|
    requires |states[|states| - 1].done| == |rows| && !FailedIn(states[|states| - 1].done)
    requires IsLive(states[|states| - 1].world, rows[i])
    ensures rows[i] in Printed(rows, states[|states| - 1].done)
  {
    var last := |states| - 1;
    PrintedAreReported(rows, states[last].done, rows[i]);
    if states[last].done[i].Dropped? {
      DroppedMeansGone(mode, rows, states, last, last, i);
    }
  }

  // ----- the cleanup can go on

  function StepsLeft(pc: Pc): nat {
    match pc
    case Lookup => 5
    case Found => 4
    case Bound(_) => 3
    case Alive(_) => 2
    case Matched(_) => 1
    case Acted(_) => 0
  }

  // From any state of any run in which the current row's process is alive, the cleanup
  // can finish the row and print it, in the killing mode with the process killed.
  lemma {:induction false} CleanupCanReach(mode: Mode, rows: seq<Ident>, states: seq<State>)
    returns (longer: seq<State>)
    requires states != [] && Run(mode, rows, states)
    requires var s := states[|states| - 1]; |s.done| < |rows| && IsLive(s.world, rows[|s.done|])
    ensures Run(mode, rows, longer) && |states| < |longer| && longer[..|states|] == states
    ensures var s, t := states[|states| - 1], longer[|longer| - 1];
      && t.world == s.world && t.done == s.done + [Reported] && t.pc == Lookup
      && (mode.Kill? ==> rows[|s.done|] in t.killed)
    decreases StepsLeft(states[|states| - 1].pc)
  {
    hide Step, Inv, KillsDone, Run;
    var last := |states| - 1;
    var s := states[last];
    RunKeepsInv(mode, rows, states, last);
    if mode.Kill? {
      RunKeepsKills(rows, states, last, last);
      ActedIsKilled(rows, s);
    }
    var t := NextOnLive(mode, rows, s);
    var next := OneMore(mode, rows, states, t);
    longer := next;
    if !s.pc.Acted? {
      longer := CleanupCanReach(mode, rows, next);
    }
    StillFirst(states, next, longer, t);
  }

  lemma ActedIsKilled(rows: seq<Ident>, s: State)
    requires KillsDone(rows, s)
    ensures s.pc.Acted? ==> s.pc.h in s.killed
  {
  }

  lemma StillFirst(states: seq<State>, next: seq<State>, longer: seq<State>, t: State)
    requires next == states + [t] && |next| <= |longer| && longer[..|next|] == next
    ensures |states| < |longer| && longer[..|states|] == states
  {
    assert longer[..|states|] == longer[..|next|][..|states|];
  }

  lemma NextOnLive(mode: Mode, rows: seq<Ident>, s: State) returns (t: State)
    requires Inv(mode, rows, s) && |s.done| < |rows| && IsLive(s.world, rows[|s.done|])
    ensures Step(mode, rows, s, t) && t.world == s.world
    ensures if s.pc.Acted? then t.done == s.done + [Reported] && t.pc == Lookup && t.killed == s.killed
            else t.done == s.done && StepsLeft(t.pc) < StepsLeft(s.pc)
    ensures s.pc.Acted? ==> s.pc.h == rows[|s.done|]
  {
    hide SystemStep;
    var id := rows[|s.done|];
    t := match s.pc
      case Lookup => s.(pc := Found)
      case Found => s.(pc := Bound(id))
      case Bound(h) => s.(pc := Alive(h))
      case Alive(h) => s.(pc := Matched(h))
      case Matched(h) => s.(pc := Acted(h), killed := if mode.Kill? then s.killed + {h} else s.killed)
      case Acted(h) => s.(pc := Lookup, done := s.done + [Reported]);
  }

  // From any state of any run in which the current row's process is gone, the row can be
  // dropped without a kill, whoever holds its pid now.
  lemma {:induction false} GoneCanBeDropped(mode: Mode, rows: seq<Ident>, states: seq<State>)
    returns (longer: seq<State>)
    requires states != [] && Run(mode, rows, states)
    requires var s := states[|states| - 1]; |s.done| < |rows| && Gone(s.world, rows[|s.done|])
    ensures Run(mode, rows, longer) && |states| < |longer| && longer[..|states|] == states
    ensures var s, t := states[|states| - 1], longer[|longer| - 1];
      t == s.(done := s.done + [Dropped], pc := Lookup)
    decreases StepsLeft(states[|states| - 1].pc)
  {
    hide Step, Inv, Run;
    var last := |states| - 1;
    var s := states[last];
    RunKeepsInv(mode, rows, states, last);
    var t := NextOnGone(mode, rows, s);
    var next := OneMore(mode, rows, states, t);
    longer := next;
    if |t.done| == |s.done| {
      longer := GoneCanBeDropped(mode, rows, next);
    }
    StillFirst(states, next, longer, t);
  }

  lemma NextOnGone(mode: Mode, rows: seq<Ident>, s: State) returns (t: State)
    requires Inv(mode, rows, s) && |s.done| < |rows| && Gone(s.world, rows[|s.done|])
    ensures Step(mode, rows, s, t)
    ensures t == s.(done := s.done + [Dropped], pc := Lookup)
            || (t == s.(pc := t.pc) && StepsLeft(t.pc) < StepsLeft(s.pc))
  {
    hide SystemStep;
    var id := rows[|s.done|];
    var dropped := s.(done := s.done + [Dropped], pc := Lookup);
    t := match s.pc
      case Lookup => if id.pid in s.world.live then s.(pc := Found) else dropped
      case Found =>
        if id.pid in s.world.live then s.(pc := Bound(Ident(id.pid, s.world.live[id.pid]))) else dropped
      case Bound(h) => if IsLive(s.world, h) then s.(pc := Alive(h)) else dropped
      case Alive(h) => dropped
      case Matched(h) => if mode.Look? then s.(pc := Acted(h)) else dropped
      case Acted(h) => dropped;
  }

  // At any time a live process may exit, and a free pid be taken by a process that never
  // existed before.
  lemma SystemIsFree(mode: Mode, rows: seq<Ident>, s: State, pid: nat, birth: nat)
    ensures pid in s.world.live ==> Step(mode, rows, s, s.(world := s.world.(live := s.world.live - {pid})))
    ensures pid !in s.world.live && Ident(pid, birth) !in s.world.used ==>
      Step(mode, rows, s, s.(world := World(s.world.live[pid := birth], s.world.used + {Ident(pid, birth)})))
  {
    hide RowStep;
    if pid in s.world.live {
      var v := s.world.(live := s.world.live - {pid});
      assert SystemStep(s.world, v);
    } else if Ident(pid, birth) !in s.world.used {
      var v := World(s.world.live[pid := birth], s.world.used + {Ident(pid, birth)});
      assert SystemStep(s.world, v);
    }
  }

  // Any call may throw, and then the row has failed.
  lemma RowCanFail(mode: Mode, rows: seq<Ident>, s: State)
    requires |s.done| < |rows|
    ensures Step(mode, rows, s, s.(done := s.done + [Failed], pc := Lookup))
  {
  }

  lemma OneMore(mode: Mode, rows: seq<Ident>, states: seq<State>, t: State) returns (longer: seq<State>)
    requires Run(mode, rows, states) && Step(mode, rows, states[|states| - 1], t)
    ensures longer == states + [t] && Run(mode, rows, longer)
  {
    hide Step;
    longer := states + [t];
  }

  // A finished cleanup that reports nothing and fails nowhere has outlived every
  // captured process.
  lemma SilentSuccessMeansAllGone(mode: Mode, rows: seq<Ident>, states: seq<State>, i: nat)
    requires Run(mode, rows, states) && i < |rows|
    requires |states[|states| - 1].done| == |rows| && AllDropped(states[|states| - 1].done)
    ensures Gone(states[|states| - 1].world, rows[i])
  {
    RunKeepsInv(mode, rows, states, |states| - 1);
  }
}
