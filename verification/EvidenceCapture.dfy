// The scratch files of one enumeration sample and their reuse. Any write may fail
// with the file untouched or torn, and the process may die after any write.
module EvidenceCapture {
  import opened Options
  import opened ProcessTables
  import opened Ownership
  import opened Classifier
  import opened NodeCount
  import opened PlainRows
  import PlainOwnership

  datatype Effect = Done | Unchanged | Torn

  // What became of one write, and whether the process died right after it.
  datatype Fate = Fate(effect: Effect, dies: bool)

  datatype NextText = Index(value: nat) | TornIndex
  datatype StatusText = Incomplete | Result(code: nat) | TornStatus
  datatype Content = Empty | Data(id: nat)

  // The files of one sample.
  datatype Stage =
    | PsRows | PsErr | CimPre | CimPreErr | PreRows | PreErr | PostRows | PostErr | Cim | CimErr
    | Input | Output | ClassifierErr | Endpoints | EndpointErr

  // In the order in which they are emptied.
  function AllStages(): seq<Stage> {
    [PsRows, PsErr, CimPre, CimPreErr, PreRows, PreErr, PostRows, PostErr, Cim, CimErr,
     Input, Output, ClassifierErr, Endpoints, EndpointErr]
  }

  // The places where a sample writes.
  datatype Site =
    | NextSite
    | StatusSite
    | TruncateSite(stage: Stage)
    | StageSite(step: nat)
    | OutputSite
    | MetaSite
    | ResultSite

  // How one collection step ended: a failing command, or evidence that could not be kept.
  datatype StepEnd = Good | CommandFailed | CaptureFailed

  const STEPS: nat := 11

  // The file that a step writes. The steps between reread what was collected.
  function FileOf(step: nat): Option<Stage> {
    match step
    case 0 => Some(PsRows)
    case 2 => Some(CimPre)
    case 3 => Some(PreRows)
    case 5 => Some(Cim)
    case 6 => Some(PostRows)
    case 10 => Some(Input)
    case _ => None
  }

  // Everything outside the sample's control.
  datatype Env = Env(
    nextReadable: bool,
    priorReadable: bool,
    fate: Site -> Fate,
    steps: nat -> StepEnd,
    content: nat -> Content,
    classified: Content,
    classifierCode: nat,
    outputReadable: bool,
    output: seq<OutputRow>)

  // Classification, reread and capture all succeeded.
  ghost predicate EvidenceComplete(env: Env) {
    && (forall k: nat | k < STEPS :: env.steps(k).Good?)
    && env.classifierCode == 0
    && env.outputReadable
    && env.fate(MetaSite) == Fate(Done, false)
    && env.fate(ResultSite).effect.Done?
  }

  // The process is not killed while it collects.
  ghost predicate LivesToFinish(env: Env) {
    && (forall k: nat | k < STEPS :: !env.fate(StageSite(k)).dies)
    && !env.fate(OutputSite).dies
  }

  // The process lives through every write after its scratch was acquired.
  ghost predicate Survives(env: Env) {
    LivesToFinish(env) && !env.fate(ResultSite).dies
  }

  // `Code(n)` is a return status; or the process was killed.
  datatype Exit = Running | Code(value: nat) | Killed

  // One line of a run: whether the sample acquired a scratch, and how it ended.
  datatype Entry = Entry(acquired: bool, exit: Exit)

  type Files = map<Stage, Content>

  // A sample whose scratch must be kept: started, and not known to have succeeded.
  predicate Retained(status: map<nat, StatusText>, i: nat) {
    i in status && status[i] != Result(0)
  }

  predicate NeverBack(before: NextText, after: NextText) {
    after.Index? ==> before.Index? && before.value <= after.value
  }

  // The files of a run directory at one instant.
  datatype Snapshot = Snapshot(next: NextText, status: map<nat, StatusText>, scratch: map<nat, Files>)

  predicate SameAt(status1: map<nat, StatusText>, files1: map<nat, Files>,
                   status2: map<nat, StatusText>, files2: map<nat, Files>, i: nat)
  {
    && (i in status1 <==> i in status2) && (i in status1 ==> status1[i] == status2[i])
    && (i in files1 <==> i in files2) && (i in files1 ==> files1[i] == files2[i])
  }

  // Everything retained at `before` is retained at `after`, file by file unchanged.
  ghost predicate Keeps(before: Snapshot, after: Snapshot) {
    && NeverBack(before.next, after.next)
    && forall i | Retained(before.status, i) ::
         SameAt(before.status, before.scratch, after.status, after.scratch, i)
  }

  lemma KeepsOn(a: Snapshot, b: Snapshot, c: Snapshot)
    requires Keeps(a, b) && Keeps(b, c)
    ensures Keeps(a, c)
  {
    forall i | Retained(a.status, i) ensures SameAt(a.status, a.scratch, c.status, c.scratch, i) {
      assert SameAt(a.status, a.scratch, b.status, b.scratch, i) && Retained(b.status, i);
      assert SameAt(b.status, b.scratch, c.status, c.scratch, i);
    }
  }

  // A sample that marked an index but did not live to record complete evidence there.
  ghost predicate Unsuccessful(began: Option<nat>, entry: Entry, env: Env) {
    began.Some? && !(entry.acquired && LivesToFinish(env) && EvidenceComplete(env))
  }

  // The index that a new sample takes: the current one unless a sample is kept there.
  function TakenIndex(current: nat, status: map<nat, StatusText>): nat {
    if Retained(status, current) then current + 1 else current
  }

  // ----- what a sample must return, from its surroundings alone

  ghost predicate AllGood(env: Env) {
    forall k: nat | k < 11 :: env.steps(k) == Good
  }

  ghost predicate FailsAt(env: Env, k: nat, how: StepEnd) {
    k < 11 && env.steps(k) == how && forall j: nat | j < k :: env.steps(j) == Good
  }

  // The first step that fails does so in this way.
  ghost predicate FailsFirst(env: Env, how: StepEnd) {
    exists k: nat :: FailsAt(env, k, how)
  }

  ghost predicate Lives(env: Env) {
    forall site: Site :: !env.fate(site).dies
  }

  // The index and its status can be read, and a new index can be written if it is needed.
  ghost predicate CanTake(at: Snapshot, env: Env) {
    && at.next.Index? && env.nextReadable
    && (at.next.value in at.status ==> !at.status[at.next.value].TornStatus? && env.priorReadable)
    && (at.next.value in at.status && at.status[at.next.value] != Result(0) ==> env.fate(NextSite) == Fate(Done, false))
  }

  // The scratch can be acquired: there is an index, and every write is complete.
  ghost predicate CanBegin(at: Snapshot, env: Env) {
    && CanTake(at, env) && env.fate(StatusSite) == Fate(Done, false)
    && forall stage: Stage :: env.fate(TruncateSite(stage)) == Fate(Done, false)
  }

  // 1 for a command that failed, 2 for evidence that could not be kept or read back.
  ghost predicate Collects(env: Env, result: nat) {
    && result <= 2
    && (result == 0 <==> AllGood(env) && env.classifierCode == 0 && env.outputReadable)
    && (result == 1 <==> FailsFirst(env, CommandFailed) || (AllGood(env) && env.classifierCode != 0))
    && (result == 2
        <==> FailsFirst(env, CaptureFailed) || (AllGood(env) && env.classifierCode == 0 && !env.outputReadable))
  }

  ghost predicate Recorded(env: Env) {
    env.fate(MetaSite).effect == Done && env.fate(ResultSite).effect == Done
  }

  // The status that a sample returns if it is not killed.
  ghost predicate Explains(acquired: bool, env: Env, code: nat) {
    && code <= 2
    && (code == 0 <==> acquired && AllGood(env) && env.classifierCode == 0 && env.outputReadable && Recorded(env))
    && (code == 1 <==> acquired && (FailsFirst(env, CommandFailed) || (AllGood(env) && env.classifierCode != 0)))
    && (code == 2
        <==> || !acquired || FailsFirst(env, CaptureFailed)
             || (AllGood(env) && env.classifierCode == 0 && !(env.outputReadable && Recorded(env))))
  }

  ghost predicate KilledCollecting(env: Env) {
    || (exists k: nat :: k < 11 && env.fate(StageSite(k)).dies && forall j: nat | j < k :: env.steps(j) == Good)
    || (env.fate(OutputSite).dies && (AllGood(env) || FailsFirst(env, CommandFailed)))
  }

  ghost predicate KilledRecording(env: Env) {
    env.fate(MetaSite).dies || (env.fate(MetaSite).effect == Done && env.fate(ResultSite).dies)
  }

  predicate Kept(files: Files, stage: Stage, fate: Fate, content: Content) {
    fate.effect == Done ==> stage in files && files[stage] == content
  }

  ghost predicate KeptAt(env: Env, files: Files, stage: Stage, k: nat) {
    (forall j: nat | j < k :: env.steps(j) == Good) ==> Kept(files, stage, env.fate(StageSite(k)), env.content(k))
  }

  // Whatever was collected before the first failure lies in its own file.
  ghost predicate Collected(env: Env, files: Files) {
    && KeptAt(env, files, PsRows, 0) && KeptAt(env, files, CimPre, 2) && KeptAt(env, files, PreRows, 3)
    && KeptAt(env, files, Cim, 5) && KeptAt(env, files, PostRows, 6) && KeptAt(env, files, Input, 10)
    && (AllGood(env) ==> Kept(files, Output, env.fate(OutputSite), env.classified))
    && forall k: nat | FailsAt(env, k, CommandFailed) :: Kept(files, Output, env.fate(OutputSite), Data(k))
  }

  class RunDir {
    var next: NextText
    var status: map<nat, StatusText>
    var scratch: map<nat, Files>

    constructor ()
      ensures Valid() && next == Index(0) && status == map[] && scratch == map[]
    {
      next, status, scratch := Index(0), map[], map[];
    }

    // Only the current index may be reusable, and nothing lies beyond it.
    ghost predicate Valid()
      reads this
    {
      && (next.Index? ==> forall i | i in status :: i <= next.value && (i < next.value ==> status[i] != Result(0)))
      && (forall i | i in scratch :: i in status)
    }

    ghost function Now(): Snapshot
      reads this
    {
      Snapshot(next, status, scratch)
    }

    method WriteNext(value: nat, fate: Fate)
      modifies `next
      ensures next == match fate.effect case Done => Index(value) case Torn => TornIndex case Unchanged => old(next)
    {
      match fate.effect {
        case Done => next := Index(value);
        case Torn => next := TornIndex;
        case Unchanged =>
      }
    }

    method WriteStatus(i: nat, text: StatusText, fate: Fate)
      modifies `status
      ensures status == match fate.effect
        case Done => old(status)[i := text] case Torn => old(status)[i := TornStatus] case Unchanged => old(status)
    {
      match fate.effect {
        case Done => status := status[i := text];
        case Torn => status := status[i := TornStatus];
        case Unchanged =>
      }
    }

    // A failed data write may leave anything behind, in this file only.
    method WriteScratch(i: nat, stage: Stage, content: Content, fate: Fate)
      modifies `scratch
      ensures i in scratch || fate.effect.Unchanged?
      ensures fate.effect.Done? ==> i in scratch && stage in scratch[i] && scratch[i][stage] == content
      ensures fate.effect.Unchanged? ==> scratch == old(scratch)
      ensures scratch.Keys <= old(scratch).Keys + {i}
      ensures forall j | j != i && j in old(scratch) :: j in scratch && scratch[j] == old(scratch)[j]
      ensures i in old(scratch) ==> i in scratch && forall s | s in old(scratch)[i] && s != stage ::
        s in scratch[i] && scratch[i][s] == old(scratch)[i][s]
    {
      if !fate.effect.Unchanged? {
        var files := if i in scratch then scratch[i] else map[];
        scratch := scratch[i := files[stage := if fate.effect.Done? then content else Empty]];
      }
    }

    // Acquire a scratch index: reuse the current one only if its last sample
    // succeeded, otherwise move on; then mark it incomplete and empty every stage.
    method Begin(env: Env) returns (exit: Exit, index: nat)
      requires Valid()
      modifies this
      ensures Valid() && NeverBack(old(next), next)
      ensures forall i | Retained(old(status), i) :: SameAt(old(status), old(scratch), status, scratch, i)
      ensures exit.Running? ==>
                next == Index(index) && !Retained(old(status), index) && index in status && status[index] == Incomplete
      ensures exit.Running? || status != old(status) ==>
                old(next).Index? && index == TakenIndex(old(next).value, old(status))
      ensures status != old(status) ==> !Retained(old(status), index) && Retained(status, index)
      ensures status == old(status) ==> scratch == old(scratch)
      ensures exit.Running? ==> index in scratch && forall s: Stage :: s in scratch[index] && scratch[index][s] == Empty
      ensures exit.Running? <==> CanBegin(old(Now()), env)
      ensures Lives(env) ==> !exit.Killed?
      ensures forall i | i != index :: SameAt(old(status), old(scratch), status, scratch, i)
      ensures index in status && status[index] == Result(0) ==> index in old(status) && old(status)[index] == Result(0)
      ensures exit.Code? ==> exit.value == 2
    {
      exit, index := TakeIndex(env);
      if !exit.Running? {
        return;
      }
      var marked := env.fate(StatusSite);
      WriteStatus(index, Incomplete, marked);
      if marked.dies {
        return Killed, index;
      }
      if !marked.effect.Done? {
        return Code(2), index;
      }
      exit := TruncateStages(index, env);
    }

    // The current index, or the next one if a sample is kept there.
    method TakeIndex(env: Env) returns (exit: Exit, index: nat)
      requires Valid()
      modifies `next
      ensures Valid() && NeverBack(old(next), next)
      ensures exit.Running? || exit.Killed? || exit == Code(2)
      ensures exit.Running? <==> CanTake(old(Now()), env)
      ensures exit.Running? ==>
                && next == Index(index) && !Retained(status, index)
                && old(next).Index? && index == TakenIndex(old(next).value, status)
      ensures Lives(env) ==> !exit.Killed?
    {
      index := 0;
      if !next.Index? || !env.nextReadable {
        return Code(2), 0;
      }
      index := next.value;
      if index in status {
        if status[index].TornStatus? || !env.priorReadable {
          return Code(2), index;
        }
        if status[index] != Result(0) {
          index := index + 1;
          var fate := env.fate(NextSite);
          WriteNext(index, fate);
          if fate.dies {
            return Killed, index;
          }
          if !fate.effect.Done? {
            return Code(2), index;
          }
        }
      }
      exit := Running;
    }

    method TruncateStages(index: nat, env: Env) returns (exit: Exit)
      modifies `scratch
      ensures scratch.Keys <= old(scratch).Keys + {index}
      ensures forall j | j != index && j in old(scratch) :: j in scratch && scratch[j] == old(scratch)[j]
      ensures exit.Running? ==> index in scratch && forall s: Stage :: s in scratch[index] && scratch[index][s] == Empty
      ensures exit.Running? <==> forall stage: Stage :: env.fate(TruncateSite(stage)) == Fate(Done, false)
      ensures exit.Running? || exit.Killed? || exit == Code(2)
      ensures Lives(env) ==> !exit.Killed?
    {
      hide AllStages;
      var stage := 0;
      while stage < |AllStages()|
        invariant stage <= |AllStages()|
        invariant stage > 0 ==> index in scratch
        invariant scratch.Keys <= old(scratch).Keys + {index}
        invariant forall j | j != index && j in old(scratch) :: j in scratch && scratch[j] == old(scratch)[j]
        invariant forall s: nat | s < stage ::
          AllStages()[s] in scratch[index] && scratch[index][AllStages()[s]] == Empty
        invariant forall s: nat | s < stage :: env.fate(TruncateSite(AllStages()[s])) == Fate(Done, false)
      {
        var fate := env.fate(TruncateSite(AllStages()[stage]));
        WriteScratch(index, AllStages()[stage], Empty, fate);
        if fate.dies {
          return Killed;
        }
        if !fate.effect.Done? {
          return Code(2);
        }
        stage := stage + 1;
      }
      EveryStageListed(PsRows);
      forall s: Stage
        ensures index in scratch && s in scratch[index] && scratch[index][s] == Empty
        ensures env.fate(TruncateSite(s)) == Fate(Done, false)
      {
        EveryStageListed(s);
        var k :| 0 <= k < |AllStages()| && AllStages()[k] == s;
      }
      return Running;
    }

    // Record the identity and the result; a result that could not be recorded is
    // never reported as success.
    method Finish(index: nat, result: nat, env: Env) returns (exit: Exit)
      requires Valid() && next == Index(index) && index in status && status[index] == Incomplete
      modifies `status
      ensures Valid()
      ensures forall i | i != index ::
                (i in status <==> i in old(status)) && (i in status ==> status[i] == old(status)[i])
      ensures index in status
      ensures status[index] == Result(0) <==>
        result == 0 && env.fate(MetaSite) == Fate(Done, false) && env.fate(ResultSite).effect.Done?
      ensures exit == Code(0) ==> status[index] == Result(0)
      ensures exit == Code(0) <==>
        result == 0 && env.fate(MetaSite) == Fate(Done, false) && env.fate(ResultSite) == Fate(Done, false)
      ensures exit.Killed? <==> KilledRecording(env)
      ensures exit.Code? ==> exit.value == if result == 0 && !Recorded(env) then 2 else result
      ensures Recorded(env) && !env.fate(MetaSite).dies ==> status[index] == Result(result)
      ensures !exit.Running?
    {
      var meta := env.fate(MetaSite);
      if meta.dies {
        return Killed;
      }
      var captured := meta.effect.Done?;
      if captured {
        var fate := env.fate(ResultSite);
        WriteStatus(index, Result(result), fate);
        if fate.dies {
          return Killed;
        }
        captured := fate.effect.Done?;
      }
      return Code(if captured || result != 0 then result else 2);
    }

    // One sample: acquire, collect step by step, classify, reread, record. `began` is
    // the index whose status it wrote, even if it ended before it had acquired it.
    method Sample(env: Env) returns (exit: Exit, acquired: Option<nat>, ghost began: Option<nat>)
      requires Valid()
      modifies this
      ensures Valid() && !exit.Running? && Keeps(old(Now()), Now())
      ensures acquired.Some? ==> began == acquired
      ensures began.None? ==> status == old(status) && scratch == old(scratch)
      ensures began.Some? ==>
                && old(next).Index? && began.value == TakenIndex(old(next).value, old(status))
                && !Retained(old(status), began.value) && began.value in status
      ensures began.Some? ==>
                (status[began.value] == Result(0) <==> acquired.Some? && LivesToFinish(env) && EvidenceComplete(env))
      ensures exit == Code(0) <==> acquired.Some? && EvidenceComplete(env) && Survives(env)
      ensures exit == Code(0) ==> status[acquired.value] == Result(0)
      ensures acquired.Some? <==> CanBegin(old(Now()), env)
      ensures exit.Code? ==> Explains(acquired.Some?, env, exit.value)
      ensures acquired.Some? ==> (exit.Killed? <==> KilledCollecting(env) || KilledRecording(env))
      ensures Lives(env) ==> exit.Code?
      ensures acquired.Some? && exit.Code? && Recorded(env) ==> status[acquired.value] == Result(exit.value)
      ensures acquired.Some? && !KilledCollecting(env) ==>
                acquired.value in scratch && Collected(env, scratch[acquired.value])
    {
      hide Explains, Collects, Collected, KilledCollecting, CanBegin, Lives;
      NotAcquired(env);
      LivingEnds(env);
      var index;
      exit, index := Begin(env);
      began := if exit.Running? || status != old(status) then Some(index) else None;
      if !exit.Running? {
        return exit, None, began;
      }
      acquired := Some(index);
      var result;
      exit, result := CollectAndClassify(index, env);
      WaysToEnd(env, result, exit.Running?);
      if exit.Running? {
        exit := Finish(index, result, env);
      }
    }

    // The collection steps in order, up to the first that fails, then the classifier.
    method CollectAndClassify(index: nat, env: Env) returns (exit: Exit, result: nat)
      requires index in scratch
      modifies `scratch
      ensures scratch.Keys <= old(scratch).Keys + {index}
      ensures forall j | j != index && j in old(scratch) :: j in scratch && scratch[j] == old(scratch)[j]
      ensures exit.Running? || exit.Killed?
      ensures exit.Killed? <==> KilledCollecting(env)
      ensures exit.Running? ==> Collects(env, result) && index in scratch && Collected(env, scratch[index])
    {
      hide Collects, Collected, KilledCollecting, Kept, FileOf;
      var step := 0;
      while step < STEPS
        invariant step <= STEPS && index in scratch
        invariant scratch.Keys <= old(scratch).Keys + {index}
        invariant forall j | j != index && j in old(scratch) :: j in scratch && scratch[j] == old(scratch)[j]
        invariant forall k: nat | k < step :: env.steps(k).Good? && !env.fate(StageSite(k)).dies
        invariant forall k: nat | k < step :: StepKept(env, scratch[index], k)
      {
        WriteStep(index, step, env);
        if env.fate(StageSite(step)).dies {
          DiesAt(env, step);
          return Killed, 0;
        }
        match env.steps(step) {
          case Good =>
          case CommandFailed =>
            WriteOutput(index, Data(step), env);
            StoppedAt(env, scratch[index], step);
            return (if env.fate(OutputSite).dies then Killed else Running), 1;
          case CaptureFailed =>
            StoppedAt(env, scratch[index], step);
            return Running, 2;
        }
        step := step + 1;
      }
      WriteOutput(index, env.classified, env);
      RanThrough(env, scratch[index]);
      if env.fate(OutputSite).dies {
        return Killed, 0;
      }
      result := if env.classifierCode == 0 then 0 else 1;
      if !env.outputReadable && result == 0 {
        result := 2;
      }
      exit := Running;
    }

    method WriteStep(index: nat, step: nat, env: Env)
      requires index in scratch
      modifies `scratch
      ensures index in scratch && scratch.Keys == old(scratch).Keys
      ensures forall j | j != index && j in old(scratch) :: scratch[j] == old(scratch)[j]
      ensures StepKept(env, scratch[index], step)
      ensures forall k: nat | k != step && StepKept(env, old(scratch)[index], k) :: StepKept(env, scratch[index], k)
    {
      var file := FileOf(step);
      if file.Some? {
        FilesDiffer(step);
        WriteScratch(index, file.value, env.content(step), env.fate(StageSite(step)));
      }
    }

    method WriteOutput(index: nat, content: Content, env: Env)
      requires index in scratch
      modifies `scratch
      ensures index in scratch && scratch.Keys == old(scratch).Keys
      ensures forall j | j != index && j in old(scratch) :: scratch[j] == old(scratch)[j]
      ensures Kept(scratch[index], Output, env.fate(OutputSite), content)
      ensures forall k: nat | StepKept(env, old(scratch)[index], k) :: StepKept(env, scratch[index], k)
    {
      WriteScratch(index, Output, content, env.fate(OutputSite));
    }

    // The published count: there is one only if the sample's evidence is complete, and
    // it is the number of node rows among those the classifier printed.
    method CountOwnedNode(env: Env) returns (exit: Exit, count: Option<nat>)
      requires Valid()
      modifies this
      ensures Valid() && Keeps(old(Now()), Now())
      ensures !exit.Running? && (count.Some? <==> exit == Code(0))
      ensures count.Some? ==> Survives(env) && EvidenceComplete(env) && count.value == |NodeRows(env.output)|
      ensures exit.Code? ==> Explains(CanBegin(old(Now()), env), env, exit.value)
      ensures Lives(env) ==> exit.Code?
      ensures CanBegin(old(Now()), env) ==> (exit.Killed? <==> KilledCollecting(env) || KilledRecording(env))
    {
      var acquired;
      ghost var began;
      exit, acquired, began := Sample(env);
      if exit != Code(0) {
        return exit, None;
      }
      var n := 0;
      assert env.output[..|env.output|] == env.output;
      for i := 0 to |env.output|
        invariant n == |NodeRows(env.output[..i])|
      {
        assert env.output[..i + 1][..i] == env.output[..i];
        if NamesNode(env.output[i]) {
          n := n + 1;
        }
      }
      return exit, Some(n);
    }

    // A caller that measures: it goes on with the count, or ends the whole run with a
    // status that tells a failed measurement, 3, from evidence that could not be kept, 2.
    method CountOrAbort(env: Env) returns (exit: Exit, count: Option<nat>)
      requires Valid()
      modifies this
      ensures Valid() && Keeps(old(Now()), Now())
      ensures exit.Running? <==> count.Some?
      ensures exit.Running? ==> CanBegin(old(Now()), env) && AllGood(env) && count.value == |NodeRows(env.output)|
      ensures exit == Code(3) ==> CanBegin(old(Now()), env)
      ensures exit.Code? ==> exit.value == 2 || exit.value == 3
      ensures exit.Code? && CanBegin(old(Now()), env) ==>
                (exit.value == 3 <==> FailsFirst(env, CommandFailed) || (AllGood(env) && env.classifierCode != 0))
      ensures Lives(env) ==> !exit.Killed?
    {
      hide Keeps, CanBegin, Lives, Survives, EvidenceComplete, KilledCollecting, KilledRecording;
      exit, count := CountOwnedNode(env);
      if exit.Code? && exit.value != 0 {
        exit := Code(if exit.value == 2 then 2 else 3);
      } else if exit.Code? {
        exit := Running;
      }
    }

    // From input rows to the returned number: the classifier runs on the input, and what
    // it prints and how it exits is what the sample finds. A returned count is the number
    // of node processes that the tables of the input make the runner's own.
    method CountFromRows(runner: Runner, input: seq<Row>, env: Env)
      returns (exit: Exit, count: Option<nat>, ghost v: Verdict)
      requires Valid()
      modifies this
      ensures Valid() && Keeps(old(Now()), Now())
      ensures count.Some? <==> exit == Code(0)
      ensures count.Some? ==> v.Counted? && exists t :: CountsFrom(runner, multiset(input), t, count.value)
      ensures count.Some? ==> CountsPlainly(runner, multiset(input), count.value)
      ensures PsFirst(input) || v.Counted? ==> Justified(runner, multiset(input), v)
      ensures var found := env.(classifierCode := if v.Refused? then 1 else 0);
        exit.Code? ==> Explains(CanBegin(old(Now()), env), found, exit.value)
    {
      hide Keeps, EvidenceComplete, Survives, CountsFrom, Prints, Decides, Accepts, Consistent, Tabulates;
      hide CanBegin, Explains, KilledCollecting, KilledRecording, CountsPlainly, Justified, Answers;
      var verdict, rows, t := ClassifyAndPrint(runner, input);
      v := verdict;
      if PsFirst(input) || v.Counted? {
        AnswerIsJustified(runner, input, v, t);
      }
      var sample := env.(classifierCode := if verdict.Refused? then 1 else 0, output := rows);
      SameSurroundings(Now(), env, verdict.Refused?, rows);
      exit, count := CountOwnedNode(sample);
      if count.Some? {
        ClassifierSucceeded(sample);
        CountedFrom(runner, multiset(input), t, v, rows);
        CountedPlainly(runner, multiset(input), t, |NodeRows(rows)|);
      }
    }

    // Any run of samples, each possibly abandoned after any write; `ends` are the files
    // after each of them.
    method RunSamples(envs: seq<Env>)
      returns (log: seq<Entry>, ghost began: seq<Option<nat>>, ghost ends: seq<Snapshot>)
      requires Valid()
      modifies this
      ensures Valid() && |log| == |began| == |ends| == |envs|
      ensures AllKept(old(Now()), ends, Now())
      ensures Marked(log, began, ends, envs) && Apart(log, began, envs)
      ensures Told(old(Now()), log, ends, envs)
      ensures forall a | 0 <= a < |log| && log[a].exit == Code(0) ::
                log[a].acquired && Survives(envs[a]) && EvidenceComplete(envs[a])
    {
      hide Keeps, EvidenceComplete, Survives, LivesToFinish, CanBegin, Explains, KilledCollecting, KilledRecording;
      hide LogTells, Collected, AllKept, Marked, Apart, Told, Unsuccessful, Recorded;
      log, began, ends := [], [], [];
      NothingRun(Now());
      for n := 0 to |envs|
        invariant Valid() && |log| == |began| == |ends| == n
        invariant AllKept(old(Now()), ends, Now())
        invariant Marked(log, began, ends, envs[..n]) && Apart(log, began, envs[..n])
        invariant Told(old(Now()), log, ends, envs[..n])
        invariant Now() == if n == 0 then old(Now()) else ends[n - 1]
        invariant forall a | 0 <= a < n && log[a].exit == Code(0) ::
          log[a].acquired && Survives(envs[a]) && EvidenceComplete(envs[a])
      {
        ghost var before := Now();
        var exit, acquired, index := Sample(envs[n]);
        var entry := Entry(acquired.Some?, exit);
        EntryTells(entry, before, envs[n]);
        IsMarked(entry, index, Now(), envs[n]);
        OneMoreTold(old(Now()), log, ends, envs[..n], entry, Now(), envs[n]);
        OneMoreApart(old(Now()), before, log, began, ends, envs[..n], entry, index, envs[n]);
        OneMoreMarked(log, began, ends, envs[..n], entry, index, Now(), envs[n]);
        OneMoreKept(old(Now()), ends, before, Now());
        assert envs[..n + 1] == envs[..n] + [envs[n]];
        log, began, ends := log + [entry], began + [index], ends + [Now()];
      }
      assert envs[..|envs|] == envs;
    }
  }

  // ----- runs

  // What is retained at any time stays as it is to the end.
  ghost predicate AllKept(first: Snapshot, ends: seq<Snapshot>, last: Snapshot) {
    && Keeps(first, last)
    && (forall a | 0 <= a < |ends| :: Keeps(first, ends[a]) && Keeps(ends[a], last))
    && forall a, b | 0 <= a < b < |ends| :: Keeps(ends[a], ends[b])
  }

  // A sample leaves its index retained exactly when it did not succeed.
  ghost predicate Marked(log: seq<Entry>, began: seq<Option<nat>>, ends: seq<Snapshot>, envs: seq<Env>)
    requires |log| == |began| == |ends| == |envs|
  {
    forall a | 0 <= a < |log| && began[a].Some? ::
      Retained(ends[a].status, began[a].value) <==> Unsuccessful(began[a], log[a], envs[a])
  }

  // No later sample takes the index of one that did not succeed.
  ghost predicate Apart(log: seq<Entry>, began: seq<Option<nat>>, envs: seq<Env>)
    requires |log| == |began| == |envs|
  {
    forall a, b | 0 <= a < b < |log| && Unsuccessful(began[a], log[a], envs[a]) && began[b].Some? ::
      began[a].value != began[b].value
  }

  ghost predicate Told(first: Snapshot, log: seq<Entry>, ends: seq<Snapshot>, envs: seq<Env>)
    requires |log| == |ends| == |envs|
  {
    forall a | 0 <= a < |log| :: LogTells(log[a], if a == 0 then first else ends[a - 1], envs[a])
  }

  // One line of a run, from the files before it.
  ghost predicate LogTells(entry: Entry, before: Snapshot, env: Env) {
    && (entry.acquired <==> CanBegin(before, env))
    && (entry.exit.Code? ==> Explains(entry.acquired, env, entry.exit.value))
    && (entry.acquired ==> (entry.exit.Killed? <==> KilledCollecting(env) || KilledRecording(env)))
    && (Lives(env) ==> entry.exit.Code?)
  }

  lemma NothingRun(at: Snapshot)
    ensures AllKept(at, [], at) && Marked([], [], [], []) && Apart([], [], []) && Told(at, [], [], [])
  {
    KeepsItself(at);
  }

  lemma OneMoreKept(first: Snapshot, ends: seq<Snapshot>, before: Snapshot, now: Snapshot)
    requires AllKept(first, ends, before) && Keeps(before, now)
    ensures AllKept(first, ends + [now], now)
  {
    hide Keeps;
    KeepsItself(now);
    KeepsOn(first, before, now);
    forall a | 0 <= a < |ends| ensures Keeps(ends[a], now) {
      KeepsOn(ends[a], before, now);
    }
  }

  lemma IsMarked(entry: Entry, index: Option<nat>, now: Snapshot, env: Env)
    requires entry.acquired ==> index.Some?
    requires index.Some? ==>
      && index.value in now.status
      && (now.status[index.value] == Result(0) <==> entry.acquired && LivesToFinish(env) && EvidenceComplete(env))
    ensures index.Some? ==> (Retained(now.status, index.value) <==> Unsuccessful(index, entry, env))
  {
  }

  lemma OneMoreMarked(log: seq<Entry>, began: seq<Option<nat>>, ends: seq<Snapshot>, envs: seq<Env>,
                      entry: Entry, index: Option<nat>, now: Snapshot, env: Env)
    requires |log| == |began| == |ends| == |envs| && Marked(log, began, ends, envs)
    requires index.Some? ==> (Retained(now.status, index.value) <==> Unsuccessful(index, entry, env))
    ensures Marked(log + [entry], began + [index], ends + [now], envs + [env])
  {
    hide Retained, Unsuccessful;
  }

  lemma OneMoreApart(first: Snapshot, before: Snapshot, log: seq<Entry>, began: seq<Option<nat>>,
                     ends: seq<Snapshot>, envs: seq<Env>, entry: Entry, index: Option<nat>, env: Env)
    requires |log| == |began| == |ends| == |envs| && Apart(log, began, envs) && Marked(log, began, ends, envs)
    requires AllKept(first, ends, before)
    requires index.Some? ==> !Retained(before.status, index.value)
    ensures Apart(log + [entry], began + [index], envs + [env])
  {
    forall a | 0 <= a < |log| && Unsuccessful(began[a], log[a], envs[a]) && index.Some?
      ensures began[a].value != index.value
    {
      KeptIsRetained(ends[a], before, began[a].value);
    }
  }

  lemma OneMoreTold(first: Snapshot, log: seq<Entry>, ends: seq<Snapshot>, envs: seq<Env>,
                    entry: Entry, now: Snapshot, env: Env)
    requires |log| == |ends| == |envs| && Told(first, log, ends, envs)
    requires LogTells(entry, if |log| == 0 then first else ends[|log| - 1], env)
    ensures Told(first, log + [entry], ends + [now], envs + [env])
  {
    hide LogTells;
  }

  lemma EveryStageListed(s: Stage)
    ensures s in AllStages()
  {
    var all := AllStages();
    assert all[0] == PsRows && all[1] == PsErr && all[2] == CimPre && all[3] == CimPreErr && all[4] == PreRows;
    assert all[5] == PreErr && all[6] == PostRows && all[7] == PostErr && all[8] == Cim && all[9] == CimErr;
    assert all[10] == Input && all[11] == Output && all[12] == ClassifierErr && all[13] == Endpoints;
    assert all[14] == EndpointErr;
  }

  lemma FilesDiffer(step: nat)
    requires FileOf(step).Some?
    ensures FileOf(step).value != Output
    ensures forall k: nat | k != step && FileOf(k).Some? :: FileOf(k).value != FileOf(step).value
  {
  }

  predicate StepKept(env: Env, files: Files, k: nat) {
    FileOf(k).Some? ==> Kept(files, FileOf(k).value, env.fate(StageSite(k)), env.content(k))
  }

  // A killed collection and a finished one, in the terms above.
  lemma WaysToEnd(env: Env, result: nat, collected: bool)
    requires collected ==> Collects(env, result)
    requires collected <==> !KilledCollecting(env)
    ensures collected ==> Explains(true, env, if result == 0 && !Recorded(env) then 2 else result)
    ensures LivesToFinish(env) && EvidenceComplete(env)
      <==> collected && result == 0 && env.fate(MetaSite) == Fate(Done, false) && env.fate(ResultSite).effect.Done?
    ensures EvidenceComplete(env) && Survives(env)
      <==> && collected && result == 0
           && env.fate(MetaSite) == Fate(Done, false) && env.fate(ResultSite) == Fate(Done, false)
  {
    assert AllGood(env) <==> forall k: nat | k < STEPS :: env.steps(k).Good?;
    assert AllGood(env) ==> (KilledCollecting(env) <==> !LivesToFinish(env));
    hide FailsFirst, AllGood, KilledCollecting, LivesToFinish;
  }

  lemma NotAcquired(env: Env)
    ensures Explains(false, env, 2)
  {
  }

  lemma LivingEnds(env: Env)
    ensures Lives(env) ==> !KilledCollecting(env) && !KilledRecording(env)
  {
  }

  lemma EntryTells(entry: Entry, before: Snapshot, env: Env)
    requires entry.acquired <==> CanBegin(before, env)
    requires entry.exit.Code? ==> Explains(entry.acquired, env, entry.exit.value)
    requires entry.acquired ==> (entry.exit.Killed? <==> KilledCollecting(env) || KilledRecording(env))
    requires Lives(env) ==> entry.exit.Code?
    ensures LogTells(entry, before, env)
  {
  }

  lemma FailureIsFirst(env: Env, step: nat)
    requires step < 11 && env.steps(step) != Good && forall k: nat | k < step :: env.steps(k).Good?
    ensures !AllGood(env)
    ensures forall how: StepEnd | how != Good :: FailsFirst(env, how) <==> env.steps(step) == how
    ensures forall k, how: StepEnd | how != Good && FailsAt(env, k, how) :: k == step
  {
    assert FailsAt(env, step, env.steps(step));
    forall k, how: StepEnd | how != Good && FailsAt(env, k, how) ensures k == step {
    }
  }

  lemma DiesAt(env: Env, step: nat)
    requires step < 11 && env.fate(StageSite(step)).dies && forall k: nat | k < step :: env.steps(k).Good?
    ensures KilledCollecting(env)
  {
  }

  lemma StoppedAt(env: Env, files: Files, step: nat)
    requires step < 11 && env.steps(step) != Good
    requires forall k: nat | k < step :: env.steps(k).Good?
    requires forall k: nat | k <= step :: !env.fate(StageSite(k)).dies && StepKept(env, files, k)
    requires env.steps(step) == CommandFailed ==> Kept(files, Output, env.fate(OutputSite), Data(step))
    ensures Collects(env, if env.steps(step) == CommandFailed then 1 else 2) && Collected(env, files)
    ensures KilledCollecting(env) <==> env.fate(OutputSite).dies && env.steps(step) == CommandFailed
  {
    FailureIsFirst(env, step);
    CollectedUpTo(env, files, step);
    hide FailsFirst, AllGood, KeptAt, Kept;
  }

  lemma RanThrough(env: Env, files: Files)
    requires forall k: nat | k < 11 :: env.steps(k).Good? && !env.fate(StageSite(k)).dies && StepKept(env, files, k)
    requires Kept(files, Output, env.fate(OutputSite), env.classified)
    ensures Collects(env, if env.classifierCode != 0 then 1 else if env.outputReadable then 0 else 2)
    ensures Collected(env, files) && (KilledCollecting(env) <==> env.fate(OutputSite).dies)
  {
    CollectedUpTo(env, files, 11);
    assert AllGood(env) && !FailsFirst(env, CommandFailed) && !FailsFirst(env, CaptureFailed);
    hide KeptAt, Kept;
  }

  lemma CollectedUpTo(env: Env, files: Files, n: nat)
    requires n <= 11 && (n < 11 ==> env.steps(n) != Good)
    requires forall k: nat | k <= n && k < 11 :: StepKept(env, files, k)
    ensures KeptAt(env, files, PsRows, 0) && KeptAt(env, files, CimPre, 2) && KeptAt(env, files, PreRows, 3)
    ensures KeptAt(env, files, Cim, 5) && KeptAt(env, files, PostRows, 6) && KeptAt(env, files, Input, 10)
  {
    ReachedIsKept(env, files, n, 0, PsRows);
    ReachedIsKept(env, files, n, 2, CimPre);
    ReachedIsKept(env, files, n, 3, PreRows);
    ReachedIsKept(env, files, n, 5, Cim);
    ReachedIsKept(env, files, n, 6, PostRows);
    ReachedIsKept(env, files, n, 10, Input);
  }

  lemma ReachedIsKept(env: Env, files: Files, n: nat, k: nat, stage: Stage)
    requires k < 11 && FileOf(k) == Some(stage) && (n < 11 ==> env.steps(n) != Good)
    requires k <= n ==> StepKept(env, files, k)
    ensures KeptAt(env, files, stage, k)
  {
    if n < k && n < 11 {
      assert !(forall j: nat | j < k :: env.steps(j) == Good);
    }
  }

  // The batch has these tables, they are accepted, and this many owned processes are node.
  ghost predicate CountsFrom(runner: Runner, batch: multiset<Row>, t: Tables, n: nat) {
    && Consistent(batch) && Tabulates(batch, t) && Accepts(runner, t)
    && n == |OwnedNodes(t, OwnedWins(runner, t))|
  }

  // The same in the rows of the batch and the fields of their tables alone.
  ghost predicate CountsPlainly(runner: Runner, batch: multiset<Row>, n: nat) {
    exists t, win, birth, owned: set<nat> ::
      && Readable(batch) && Lists(batch, t) && PlainOwnership.Accepted(runner, t, win, birth)
      && PlainOwnership.OwnedExactly(runner, t, win, owned)
      && n == |set w | w in owned && w in t.late && NodeProgram(t.late[w].name)|
  }

  lemma NodesArePrograms(t: Tables, owned: set<nat>)
    ensures OwnedNodes(t, owned) == set w | w in owned && w in t.late && NodeProgram(t.late[w].name)
  {
    forall w | w in owned && w in t.late ensures NodeName(t.late[w].name) <==> NodeProgram(t.late[w].name) {
      NodeNameIsProgram(t.late[w].name);
    }
    hide NodeName, NodeProgram;
  }

  lemma CountedPlainly(runner: Runner, batch: multiset<Row>, t: Tables, n: nat)
    requires CountsFrom(runner, batch, t, n)
    ensures CountsPlainly(runner, batch, n)
  {
    hide Readable, Consistent, Lists, Tabulates, PlainOwnership.Accepted, PlainOwnership.OwnedExactly;
    hide OwnedWins, OwnedNodes, NodeProgram;
    BatchesAgree(batch);
    TablesAgree(batch, t);
    PlainOwnership.DecisionIsPlain(runner, t);
    NodesArePrograms(t, OwnedWins(runner, t));
  }

  lemma AnswerIsJustified(runner: Runner, input: seq<Row>, v: Verdict, t: Tables)
    requires PsFirst(input) ==> Answers(runner, multiset(input), v)
    requires v != Refused ==>
      Consistent(multiset(input)) && Tabulates(multiset(input), t) && Decides(runner, t, v)
    requires PsFirst(input) || v.Counted?
    ensures Justified(runner, multiset(input), v)
  {
    hide Consistent, Tabulates, Decides, Justified, PsFirst;
    AnswersAreJustified(runner, multiset(input), v);
  }

  // What the classifier prints has no part in how a sample ends.
  lemma SameSurroundings(at: Snapshot, env: Env, refused: bool, rows: seq<OutputRow>)
    ensures var found := env.(classifierCode := if refused then 1 else 0);
      var sample := found.(output := rows);
      && (CanBegin(at, sample) <==> CanBegin(at, env))
      && forall acquired, code :: Explains(acquired, sample, code) ==> Explains(acquired, found, code)
  {
    var found := env.(classifierCode := if refused then 1 else 0);
    var sample := found.(output := rows);
    assert AllGood(sample) <==> AllGood(found);
    assert forall k, how :: FailsAt(sample, k, how) <==> FailsAt(found, k, how);
    assert forall how :: FailsFirst(sample, how) <==> FailsFirst(found, how);
    hide AllGood, FailsAt, FailsFirst;
  }

  lemma ClassifierSucceeded(env: Env)
    requires EvidenceComplete(env)
    ensures env.classifierCode == 0
  {
  }

  lemma CountedFrom(runner: Runner, batch: multiset<Row>, t: Tables, v: Verdict, rows: seq<OutputRow>)
    requires Consistent(batch) && Tabulates(batch, t) && Decides(runner, t, v) && Prints(t, v, rows)
    ensures CountsFrom(runner, batch, t, |NodeRows(rows)|)
  {
    CountIsOwnedNodes(t, v, rows);
    hide Consistent, Tabulates, Accepts, OwnedWins, OwnedNodes;
  }

  lemma KeepsItself(a: Snapshot)
    ensures Keeps(a, a)
  {
  }

  lemma KeptIsRetained(a: Snapshot, b: Snapshot, i: nat)
    requires Keeps(a, b) && Retained(a.status, i)
    ensures Retained(b.status, i) && SameAt(a.status, a.scratch, b.status, b.scratch, i)
  {
  }
}
