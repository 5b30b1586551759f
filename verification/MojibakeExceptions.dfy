// Single-use exceptions to the mojibake search, accounted for over a whole repository.
module MojibakeExceptions {
  import opened Options
  import opened TextOffsets
  import opened Mojibake

  // The first field check that an exception fails.
  datatype ShapeFault =
    | MalformedException
    | UnexpectedFields
    | UnknownSignature
    | MalformedPath
    | NoncanonicalPath
    | InvalidLine
    | InvalidOccurrence
    | MalformedLineHash
    | MissingRationale

  // `fault` is the outcome of the field checks; the other fields matter without one.
  datatype Exc = Exc(fault: Option<ShapeFault>, path: string, sig: nat, line: nat, occurrence: nat, hash: nat)

  datatype Reason =
    | BadShape(fault: ShapeFault)
    | DuplicateException
    | NonexistentPath
    | BinaryTarget
    | WrongSignature
    | NoMatchingFinding
    | WrongLine
    | WrongOccurrence
    | StaleLineHash

  datatype Key = Key(sig: nat, path: string, line: nat, occurrence: nat)

  function KeyOf(e: Exc): Key {
    Key(e.sig, e.path, e.line, e.occurrence)
  }

  // A finding about the exception policy: the exception's number and what is wrong.
  datatype PolicyFinding = PolicyFinding(index: nat, reason: Reason)

  // ----- which exceptions take part

  predicate TargetOk(e: Exc, selected: set<string>, binary: set<string>) {
    e.path in selected && e.path !in binary
  }

  predicate HasTwin(excs: seq<Exc>, i: nat, n: nat)
    requires i < |excs| && n <= |excs|
  {
    exists j | 0 <= j < n :: j != i && excs[j].fault.None? && KeyOf(excs[j]) == KeyOf(excs[i])
  }

  // A well-shaped exception for a selected text file that no other exception repeats.
  predicate TakesPart(excs: seq<Exc>, selected: set<string>, binary: set<string>, i: nat) {
    && i < |excs| && excs[i].fault.None? && TargetOk(excs[i], selected, binary)
    && !HasTwin(excs, i, |excs|)
  }

  // The map of the checks holds the first well-shaped exception of each key.
  ghost predicate FirstOfKey(excs: seq<Exc>, n: nat, firstByKey: map<Key, nat>)
    requires n <= |excs|
  {
    && (forall k | k in firstByKey ::
          firstByKey[k] < n && excs[firstByKey[k]].fault.None? && KeyOf(excs[firstByKey[k]]) == k)
    && forall j | 0 <= j < n && excs[j].fault.None? :: KeyOf(excs[j]) in firstByKey
  }

  predicate Rejected(excs: seq<Exc>, selected: set<string>, binary: set<string>, n: nat, i: nat)
    requires i < |excs| && n <= |excs|
  {
    excs[i].fault.Some? || !TargetOk(excs[i], selected, binary) || HasTwin(excs, i, n)
  }

  // An earlier well-shaped exception has the same key.
  predicate Repeats(excs: seq<Exc>, n: nat) {
    n < |excs| && exists j | 0 <= j < n :: excs[j].fault.None? && KeyOf(excs[j]) == KeyOf(excs[n])
  }

  // What the policy check reports of exception number `f.index`.
  predicate Faulty(excs: seq<Exc>, selected: set<string>, binary: set<string>, f: PolicyFinding) {
    f.index < |excs|
    && var e := excs[f.index];
       match f.reason
       case BadShape(fault) => e.fault == Some(fault)
       case DuplicateException => e.fault.None? && Repeats(excs, f.index)
       case NonexistentPath => e.fault.None? && e.path !in selected
       case BinaryTarget => e.fault.None? && e.path in selected && e.path in binary
       case _ => false
  }

  predicate NoRepeats(findings: seq<PolicyFinding>) {
    forall a, b | 0 <= a < b < |findings| :: findings[a] != findings[b]
  }

  method CheckExceptions(excs: seq<Exc>, selected: set<string>, binary: set<string>)
    returns (findings: seq<PolicyFinding>, invalid: set<nat>)
    ensures forall i: nat :: i in invalid <==> i < |excs| && Rejected(excs, selected, binary, |excs|, i)
    ensures forall f :: f in findings <==> Faulty(excs, selected, binary, f)
    ensures NoRepeats(findings) && (findings == [] <==> invalid == {})
  {
    hide HasTwin, FirstOfKey, TargetOk, Rejected, Faulty;
    findings, invalid := [], {};
    var firstByKey: map<Key, nat> := map[];
    NothingFirst(excs);
    FaultsAreNumbered(excs, selected, binary);
    for n := 0 to |excs|
      invariant FirstOfKey(excs, n, firstByKey)
      invariant forall i: nat :: i in invalid <==> i < n && Rejected(excs, selected, binary, n, i)
      invariant forall f :: f in findings <==> f.index < n && Faulty(excs, selected, binary, f)
      invariant NoRepeats(findings) && (findings == [] <==> invalid == {})
    {
      var e := excs[n];
      RejectedNext(excs, selected, binary, n, firstByKey);
      FaultsOf(excs, selected, binary, n, firstByKey);
      if e.fault.Some? {
        invalid := invalid + {n};
        findings := findings + [PolicyFinding(n, BadShape(e.fault.value))];
        continue;
      }
      if KeyOf(e) in firstByKey {
        invalid := invalid + {firstByKey[KeyOf(e)], n};
        findings := findings + [PolicyFinding(n, DuplicateException)];
      } else {
        firstByKey := firstByKey[KeyOf(e) := n];
      }
      if e.path !in selected {
        invalid := invalid + {n};
        findings := findings + [PolicyFinding(n, NonexistentPath)];
      } else if e.path in binary {
        invalid := invalid + {n};
        findings := findings + [PolicyFinding(n, BinaryTarget)];
      }
    }
  }

  // The faults of exception `n`, as the checks find them.
  lemma FaultsOf(excs: seq<Exc>, selected: set<string>, binary: set<string>, n: nat, firstByKey: map<Key, nat>)
    requires n < |excs| && FirstOfKey(excs, n, firstByKey)
    ensures var e := excs[n];
            forall f: PolicyFinding | f.index == n :: Faulty(excs, selected, binary, f) <==>
              if e.fault.Some? then f.reason == BadShape(e.fault.value)
              else || (f.reason == DuplicateException && KeyOf(e) in firstByKey)
                   || (f.reason == NonexistentPath && e.path !in selected)
                   || (f.reason == BinaryTarget && e.path in selected && e.path in binary)
  {
    assert Repeats(excs, n) <==> KeyOf(excs[n]) in firstByKey;
    hide FirstOfKey, Repeats;
  }

  lemma FaultsAreNumbered(excs: seq<Exc>, selected: set<string>, binary: set<string>)
    ensures forall f | Faulty(excs, selected, binary, f) :: f.index < |excs|
  {
  }

  lemma NothingFirst(excs: seq<Exc>)
    ensures FirstOfKey(excs, 0, map[])
  {
  }

  // What one more exception changes: it may be rejected itself, and so may the first
  // exception with the same key.
  lemma RejectedNext(excs: seq<Exc>, selected: set<string>, binary: set<string>, n: nat, firstByKey: map<Key, nat>)
    requires n < |excs| && FirstOfKey(excs, n, firstByKey)
    ensures KeyOf(excs[n]) in firstByKey ==> firstByKey[KeyOf(excs[n])] < n
    ensures forall i: nat | i < n ::
      Rejected(excs, selected, binary, n + 1, i)
      <==> Rejected(excs, selected, binary, n, i)
           || (excs[n].fault.None? && KeyOf(excs[n]) in firstByKey && i == firstByKey[KeyOf(excs[n])])
    ensures Rejected(excs, selected, binary, n + 1, n)
            <==> || excs[n].fault.Some? || KeyOf(excs[n]) in firstByKey
                 || excs[n].path !in selected || excs[n].path in binary
    ensures FirstOfKey(excs, n + 1,
              if excs[n].fault.Some? || KeyOf(excs[n]) in firstByKey then firstByKey
              else firstByKey[KeyOf(excs[n]) := n])
  {
    hide HasTwin, FirstOfKey;
    FirstNext(excs, n, firstByKey);
    forall i: nat | i < n
      ensures Rejected(excs, selected, binary, n + 1, i)
              <==> Rejected(excs, selected, binary, n, i)
                   || (excs[n].fault.None? && KeyOf(excs[n]) in firstByKey && i == firstByKey[KeyOf(excs[n])])
    {
      if excs[i].fault.None? {
        TwinsWithNext(excs, n, firstByKey, i);
      }
    }
  }

  lemma FirstNext(excs: seq<Exc>, n: nat, firstByKey: map<Key, nat>)
    requires n < |excs| && FirstOfKey(excs, n, firstByKey)
    ensures KeyOf(excs[n]) in firstByKey ==>
              firstByKey[KeyOf(excs[n])] < n && excs[firstByKey[KeyOf(excs[n])]].fault.None?
    ensures excs[n].fault.None? ==> (HasTwin(excs, n, n + 1) <==> KeyOf(excs[n]) in firstByKey)
    ensures FirstOfKey(excs, n + 1,
              if excs[n].fault.Some? || KeyOf(excs[n]) in firstByKey then firstByKey
              else firstByKey[KeyOf(excs[n]) := n])
  {
  }

  lemma TwinsWithNext(excs: seq<Exc>, n: nat, firstByKey: map<Key, nat>, i: nat)
    requires i < n < |excs| && FirstOfKey(excs, n, firstByKey) && excs[i].fault.None?
    ensures HasTwin(excs, i, n + 1)
            <==> || HasTwin(excs, i, n)
                 || (excs[n].fault.None? && KeyOf(excs[n]) in firstByKey && i == firstByKey[KeyOf(excs[n])])
  {
    assert KeyOf(excs[i]) in firstByKey;
    if excs[n].fault.None? && KeyOf(excs[n]) == KeyOf(excs[i]) {
      var j := firstByKey[KeyOf(excs[i])];
      assert j != i ==> HasTwin(excs, i, n);
      assert HasTwin(excs, i, n + 1);
    }
  }

  // An exception that takes part, with its number in the policy.
  datatype Indexed = Indexed(exc: Exc, index: nat)

  // The admitted exceptions among the first `n`, in the order of the policy.
  function Admitted(excs: seq<Exc>, invalid: set<nat>, n: nat): seq<Indexed>
    requires n <= |excs|
  {
    if n == 0 then []
    else Admitted(excs, invalid, n - 1) + if n - 1 in invalid then [] else [Indexed(excs[n - 1], n - 1)]
  }

  function AdmittedFor(excs: seq<Exc>, invalid: set<nat>, path: string, n: nat): seq<Indexed>
    requires n <= |excs|
  {
    if n == 0 then []
    else
      AdmittedFor(excs, invalid, path, n - 1)
      + if n - 1 in invalid || excs[n - 1].path != path then [] else [Indexed(excs[n - 1], n - 1)]
  }

  function ListFor(byPath: map<string, seq<Indexed>>, path: string): seq<Indexed> {
    if path in byPath then byPath[path] else []
  }

  // The list holds exactly the exceptions for `path` that take part.
  ghost predicate Serves(list: seq<Indexed>, excs: seq<Exc>, selected: set<string>, binary: set<string>, path: string) {
    && Separate(list)
    && (forall x | x in list :: x.index < |excs| && x.exc == excs[x.index])
    && forall i: nat ::
         TakesPart(excs, selected, binary, i) && excs[i].path == path <==> i < |excs| && Indexed(excs[i], i) in list
  }

  // The exceptions that take part, all of them and by file.
  method PrepareGlobalExceptions(excs: seq<Exc>, selected: set<string>, binary: set<string>)
    returns (findings: seq<PolicyFinding>, byPath: map<string, seq<Indexed>>, valid: seq<Indexed>)
    ensures findings == [] <==> forall i: nat | i < |excs| :: TakesPart(excs, selected, binary, i)
    ensures NoRepeats(findings) && forall f :: f in findings <==> Faulty(excs, selected, binary, f)
    ensures forall x :: x in valid <==> TakesPart(excs, selected, binary, x.index) && x.exc == excs[x.index]
    ensures forall a, b | 0 <= a < b < |valid| :: valid[a].index < valid[b].index
    ensures forall path :: Serves(ListFor(byPath, path), excs, selected, binary, path)
  {
    hide Serves, Rejected, TakesPart, Separate, Faulty, NoRepeats, Admitted, AdmittedFor, ListFor;
    var invalid;
    findings, invalid := CheckExceptions(excs, selected, binary);
    AllOrSome(excs, selected, binary, invalid);
    byPath, valid := GroupByPath(excs, invalid);
    AdmittedTakePart(excs, selected, binary, invalid);
    AdmittedAscends(excs, invalid, |excs|);
  }

  method GroupByPath(excs: seq<Exc>, invalid: set<nat>)
    returns (byPath: map<string, seq<Indexed>>, valid: seq<Indexed>)
    ensures valid == Admitted(excs, invalid, |excs|)
    ensures forall path :: ListFor(byPath, path) == AdmittedFor(excs, invalid, path, |excs|)
  {
    hide ListFor, Admitted, AdmittedFor;
    byPath, valid := map[], [];
    NothingGrouped(excs, invalid);
    for n := 0 to |excs|
      invariant valid == Admitted(excs, invalid, n)
      invariant forall path :: ListFor(byPath, path) == AdmittedFor(excs, invalid, path, n)
    {
      OneMoreGrouped(excs, invalid, n, byPath);
      if n in invalid {
        continue;
      }
      var list := ListFor(byPath, excs[n].path) + [Indexed(excs[n], n)];
      byPath := byPath[excs[n].path := list];
      valid := valid + [Indexed(excs[n], n)];
    }
  }

  lemma NothingGrouped(excs: seq<Exc>, invalid: set<nat>)
    ensures Admitted(excs, invalid, 0) == []
    ensures forall path :: ListFor(map[], path) == AdmittedFor(excs, invalid, path, 0)
  {
  }

  lemma OneMoreGrouped(excs: seq<Exc>, invalid: set<nat>, n: nat, byPath: map<string, seq<Indexed>>)
    requires n < |excs|
    requires forall path :: ListFor(byPath, path) == AdmittedFor(excs, invalid, path, n)
    ensures Admitted(excs, invalid, n + 1)
            == Admitted(excs, invalid, n) + if n in invalid then [] else [Indexed(excs[n], n)]
    ensures var now := if n in invalid then byPath
                       else byPath[excs[n].path := ListFor(byPath, excs[n].path) + [Indexed(excs[n], n)]];
            forall path :: ListFor(now, path) == AdmittedFor(excs, invalid, path, n + 1)
  {
    hide Admitted;
    var now := if n in invalid then byPath
               else byPath[excs[n].path := ListFor(byPath, excs[n].path) + [Indexed(excs[n], n)]];
    forall path ensures ListFor(now, path) == AdmittedFor(excs, invalid, path, n + 1) {
      assert ListFor(byPath, path) == AdmittedFor(excs, invalid, path, n);
      AdmittedForNext(excs, invalid, path, n);
    }
    AdmittedNext(excs, invalid, n);
  }

  lemma AdmittedNext(excs: seq<Exc>, invalid: set<nat>, n: nat)
    requires n < |excs|
    ensures Admitted(excs, invalid, n + 1)
            == Admitted(excs, invalid, n) + if n in invalid then [] else [Indexed(excs[n], n)]
  {
  }

  lemma AdmittedForNext(excs: seq<Exc>, invalid: set<nat>, path: string, n: nat)
    requires n < |excs|
    ensures AdmittedFor(excs, invalid, path, n + 1)
            == if n in invalid || excs[n].path != path then AdmittedFor(excs, invalid, path, n)
               else AdmittedFor(excs, invalid, path, n) + [Indexed(excs[n], n)]
  {
  }

  lemma AllOrSome(excs: seq<Exc>, selected: set<string>, binary: set<string>, invalid: set<nat>)
    requires forall i: nat :: i in invalid <==> i < |excs| && Rejected(excs, selected, binary, |excs|, i)
    ensures invalid == {} <==> forall i: nat | i < |excs| :: TakesPart(excs, selected, binary, i)
  {
    hide HasTwin, TargetOk;
    if invalid != {} {
      var i :| i in invalid;
      assert !TakesPart(excs, selected, binary, i);
    } else {
      forall i: nat | i < |excs| ensures TakesPart(excs, selected, binary, i) {
        assert i !in invalid;
      }
    }
  }

  lemma AdmittedTakePart(excs: seq<Exc>, selected: set<string>, binary: set<string>, invalid: set<nat>)
    requires forall i: nat :: i in invalid <==> i < |excs| && Rejected(excs, selected, binary, |excs|, i)
    ensures forall x :: x in Admitted(excs, invalid, |excs|)
                        <==> TakesPart(excs, selected, binary, x.index) && x.exc == excs[x.index]
    ensures forall path :: Serves(AdmittedFor(excs, invalid, path, |excs|), excs, selected, binary, path)
  {
    forall x
      ensures x in Admitted(excs, invalid, |excs|)
              <==> TakesPart(excs, selected, binary, x.index) && x.exc == excs[x.index]
    {
      AdmittedMembers(excs, invalid, |excs|, x);
    }
    forall path ensures Serves(AdmittedFor(excs, invalid, path, |excs|), excs, selected, binary, path) {
      AdmittedForServes(excs, selected, binary, invalid, path);
    }
  }

  lemma AdmittedForServes(excs: seq<Exc>, selected: set<string>, binary: set<string>, invalid: set<nat>, path: string)
    requires forall i: nat :: i in invalid <==> i < |excs| && Rejected(excs, selected, binary, |excs|, i)
    ensures Serves(AdmittedFor(excs, invalid, path, |excs|), excs, selected, binary, path)
  {
    hide HasTwin, TargetOk, Separate;
    var list := AdmittedFor(excs, invalid, path, |excs|);
    forall x
      ensures x in list <==> x.index < |excs| && x.index !in invalid && x.exc == excs[x.index] && x.exc.path == path
    {
      AdmittedForMembers(excs, invalid, path, |excs|, x);
    }
    KeysDiffer(excs, selected, binary, invalid, path);
    forall i: nat
      ensures TakesPart(excs, selected, binary, i) && excs[i].path == path
              <==> i < |excs| && Indexed(excs[i], i) in list
    {
    }
  }

  lemma {:induction false} AdmittedMembers(excs: seq<Exc>, invalid: set<nat>, n: nat, x: Indexed)
    requires n <= |excs|
    ensures x in Admitted(excs, invalid, n) <==> x.index < n && x.index !in invalid && x.exc == excs[x.index]
  {
    if n > 0 {
      AdmittedMembers(excs, invalid, n - 1, x);
    }
  }

  lemma {:induction false} AdmittedAscends(excs: seq<Exc>, invalid: set<nat>, n: nat)
    requires n <= |excs|
    ensures forall a, b | 0 <= a < b < |Admitted(excs, invalid, n)| ::
              Admitted(excs, invalid, n)[a].index < Admitted(excs, invalid, n)[b].index
  {
    if n > 0 {
      AdmittedAscends(excs, invalid, n - 1);
      var before := Admitted(excs, invalid, n - 1);
      forall a | 0 <= a < |before| ensures before[a].index < n - 1 {
        AdmittedMembers(excs, invalid, n - 1, before[a]);
      }
    }
  }

  lemma {:induction false} AdmittedForMembers(excs: seq<Exc>, invalid: set<nat>, path: string, n: nat, x: Indexed)
    requires n <= |excs|
    ensures x in AdmittedFor(excs, invalid, path, n)
            <==> x.index < n && x.index !in invalid && x.exc == excs[x.index] && x.exc.path == path
  {
    if n > 0 {
      AdmittedForMembers(excs, invalid, path, n - 1, x);
    }
  }

  lemma {:induction false} AdmittedForAscends(excs: seq<Exc>, invalid: set<nat>, path: string, n: nat, a: nat, b: nat)
    requires n <= |excs| && a < b < |AdmittedFor(excs, invalid, path, n)|
    ensures AdmittedFor(excs, invalid, path, n)[a].index < AdmittedFor(excs, invalid, path, n)[b].index
  {
    var before := AdmittedFor(excs, invalid, path, n - 1);
    if b < |before| {
      AdmittedForAscends(excs, invalid, path, n - 1, a, b);
    } else {
      AdmittedForMembers(excs, invalid, path, n - 1, before[a]);
    }
  }

  lemma KeysDiffer(excs: seq<Exc>, selected: set<string>, binary: set<string>, invalid: set<nat>, path: string)
    requires forall i: nat :: i in invalid <==> i < |excs| && Rejected(excs, selected, binary, |excs|, i)
    ensures Separate(AdmittedFor(excs, invalid, path, |excs|))
  {
    var list := AdmittedFor(excs, invalid, path, |excs|);
    forall a, b | 0 <= a < b < |list|
      ensures list[a].index != list[b].index && list[a].exc.path == list[b].exc.path
              && KeyOf(list[a].exc) != KeyOf(list[b].exc)
    {
      AdmittedForAscends(excs, invalid, path, |excs|, a, b);
      AdmittedForMembers(excs, invalid, path, |excs|, list[a]);
      AdmittedForMembers(excs, invalid, path, |excs|, list[b]);
      assert Rejected(excs, selected, binary, |excs|, list[a].index) == false;
    }
  }

  // ----- one file

  predicate Names(e: Exc, f: Found) {
    e.sig == f.sig && e.line == f.line && e.occurrence == f.occurrence
  }

  // The exception covers the occurrence: it names it, and its line is unchanged.
  predicate Covers(e: Exc, f: Found) {
    Names(e, f) && e.hash == f.hash
  }

  predicate CoversSome(e: Exc, found: seq<Found>) {
    exists k | 0 <= k < |found| :: Covers(e, found[k])
  }

  // Why an exception covers nothing.
  function WhyUnused(e: Exc, found: seq<Found>): Reason {
    if forall k | 0 <= k < |found| :: found[k].sig != e.sig then
      if exists k | 0 <= k < |found| :: found[k].line == e.line && found[k].occurrence == e.occurrence
      then WrongSignature
      else NoMatchingFinding
    else if forall k | 0 <= k < |found| :: found[k].sig == e.sig ==> found[k].line != e.line then WrongLine
    else if forall k | 0 <= k < |found| :: !Names(e, found[k]) then WrongOccurrence
    else StaleLineHash
  }

  // The exceptions in `list` are for one file and pairwise different.
  ghost predicate Separate(list: seq<Indexed>) {
    forall a, b | 0 <= a < b < |list| ::
      list[a].index != list[b].index && list[a].exc.path == list[b].exc.path && KeyOf(list[a].exc) != KeyOf(list[b].exc)
  }

  method FindNamed(e: Exc, found: seq<Found>) returns (k: int)
    ensures k == -1 ==> forall j | 0 <= j < |found| :: !Names(e, found[j])
    ensures k != -1 ==> 0 <= k < |found| && Names(e, found[k])
  {
    for j := 0 to |found|
      invariant forall i | 0 <= i < j :: !Names(e, found[i])
    {
      if Names(e, found[j]) {
        return j;
      }
    }
    return -1;
  }

  predicate CoveredBy(list: seq<Indexed>, found: seq<Found>, k: nat) {
    k < |found| && exists x | x in list :: Covers(x.exc, found[k])
  }

  predicate UsedIn(list: seq<Indexed>, found: seq<Found>, i: nat) {
    exists x | x in list :: x.index == i && CoversSome(x.exc, found)
  }

  // The outcome for the exceptions in `list`: each covers at most one occurrence and
  // no occurrence is covered twice, so as many are suppressed as exceptions are used.
  ghost predicate Accounted(list: seq<Indexed>, found: seq<Found>, suppressed: set<nat>, used: set<nat>,
                            failures: map<nat, Reason>)
  {
    && |suppressed| == |used|
    && (forall k: nat :: k in suppressed <==> CoveredBy(list, found, k))
    && (forall i: nat :: i in used <==> UsedIn(list, found, i))
    && (forall x | x in list && !CoversSome(x.exc, found) ::
          x.index in failures && failures[x.index] == WhyUnused(x.exc, found))
    && (forall i | i in failures :: exists x | x in list :: x.index == i)
  }

  lemma CoveredByOneMore(list: seq<Indexed>, found: seq<Found>, x: Indexed, k: nat)
    ensures CoveredBy(list + [x], found, k) <==> CoveredBy(list, found, k) || (k < |found| && Covers(x.exc, found[k]))
    ensures UsedIn(list + [x], found, k) <==> UsedIn(list, found, k) || (x.index == k && CoversSome(x.exc, found))
  {
    assert forall y :: y in list + [x] <==> y in list || y == x;
  }

  // Nobody before covers what the next exception names, and its number is new.
  lemma NextIsNew(list: seq<Indexed>, found: seq<Found>, x: Indexed, k: nat)
    requires KeysAreUnique(found) && Separate(list + [x]) && k < |found| && Names(x.exc, found[k])
    ensures !CoveredBy(list, found, k) && !UsedIn(list, found, x.index)
    ensures forall j | 0 <= j < |found| && Covers(x.exc, found[j]) :: j == k
  {
    forall y | y in list ensures y.index != x.index && !Covers(y.exc, found[k]) {
      var a :| 0 <= a < |list| && list[a] == y;
      assert (list + [x])[a] == y && (list + [x])[|list|] == x;
    }
  }

  lemma CoverOne(list: seq<Indexed>, found: seq<Found>, suppressed: set<nat>, used: set<nat>,
                 failures: map<nat, Reason>, x: Indexed, k: nat)
    requires KeysAreUnique(found) && Separate(list + [x]) && k < |found| && Covers(x.exc, found[k])
    requires Accounted(list, found, suppressed, used, failures)
    ensures Accounted(list + [x], found, suppressed + {k}, used + {x.index}, failures)
  {
    hide Covers, CoversSome, CoveredBy, UsedIn, WhyUnused, Separate, KeysAreUnique;
    NowCovered(list, found, x, k);
    assert k !in suppressed && x.index !in used;
    assert |suppressed + {k}| == |suppressed| + 1;
    assert |used + {x.index}| == |used| + 1;
  }

  lemma NowCovered(list: seq<Indexed>, found: seq<Found>, x: Indexed, k: nat)
    requires KeysAreUnique(found) && Separate(list + [x]) && k < |found| && Covers(x.exc, found[k])
    ensures CoversSome(x.exc, found)
    ensures !CoveredBy(list, found, k) && !UsedIn(list, found, x.index)
    ensures forall j: nat :: CoveredBy(list + [x], found, j) <==> CoveredBy(list, found, j) || j == k
    ensures forall j: nat :: UsedIn(list + [x], found, j) <==> UsedIn(list, found, j) || j == x.index
  {
    NextIsNew(list, found, x, k);
    assert CoversSome(x.exc, found);
    hide CoversSome, CoveredBy, UsedIn, Separate, KeysAreUnique;
    forall j: nat
      ensures CoveredBy(list + [x], found, j) <==> CoveredBy(list, found, j) || j == k
      ensures UsedIn(list + [x], found, j) <==> UsedIn(list, found, j) || j == x.index
    {
      CoveredByOneMore(list, found, x, j);
    }
  }

  lemma CoverNone(list: seq<Indexed>, found: seq<Found>, suppressed: set<nat>, used: set<nat>,
                  failures: map<nat, Reason>, x: Indexed)
    requires Separate(list + [x]) && !CoversSome(x.exc, found)
    requires Accounted(list, found, suppressed, used, failures)
    ensures Accounted(list + [x], found, suppressed, used, failures[x.index := WhyUnused(x.exc, found)])
  {
    forall j: nat
      ensures CoveredBy(list + [x], found, j) <==> CoveredBy(list, found, j)
      ensures UsedIn(list + [x], found, j) <==> UsedIn(list, found, j)
    {
      CoveredByOneMore(list, found, x, j);
    }
    forall y | y in list ensures y.index != x.index {
      var a :| 0 <= a < |list| && list[a] == y;
      assert (list + [x])[a] == y && (list + [x])[|list|] == x;
    }
    hide Covers, Names, CoversSome, CoveredBy, UsedIn, WhyUnused, Separate;
  }

  method ApplyExceptions(list: seq<Indexed>, found: seq<Found>)
    returns (suppressed: set<nat>, used: set<nat>, failures: map<nat, Reason>)
    requires KeysAreUnique(found) && Separate(list)
    ensures Accounted(list, found, suppressed, used, failures)
  {
    hide Accounted, Separate, KeysAreUnique, CoversSome, WhyUnused;
    suppressed, used, failures := {}, {}, map[];
    NothingApplied(found);
    assert list[..|list|] == list;
    for n := 0 to |list|
      invariant Accounted(list[..n], found, suppressed, used, failures)
    {
      assert list[..n + 1] == list[..n] + [list[n]];
      SeparatePrefix(list, n + 1);
      var e := list[n].exc;
      var k := FindNamed(e, found);
      if k != -1 && found[k].hash == e.hash {
        CoverOne(list[..n], found, suppressed, used, failures, list[n], k);
        suppressed := suppressed + {k};
        used := used + {list[n].index};
      } else {
        NothingCovered(e, found, k);
        CoverNone(list[..n], found, suppressed, used, failures, list[n]);
        failures := failures[list[n].index := WhyUnused(e, found)];
      }
    }
  }

  lemma NothingApplied(found: seq<Found>)
    ensures Accounted([], found, {}, {}, map[])
  {
  }

  lemma SeparatePrefix(list: seq<Indexed>, n: nat)
    requires Separate(list) && n <= |list|
    ensures Separate(list[..n])
  {
  }

  lemma NothingCovered(e: Exc, found: seq<Found>, k: int)
    requires k == -1 ==> forall j | 0 <= j < |found| :: !Names(e, found[j])
    requires k != -1 ==> 0 <= k < |found| && Names(e, found[k]) && found[k].hash != e.hash
    requires KeysAreUnique(found)
    ensures !CoversSome(e, found)
  {
  }
}
