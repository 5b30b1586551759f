// The number of owned node processes, counted from the rows the classifier prints.
module NodeCount {
  import opened ProcessTables
  import opened Ownership
  import opened Classifier

  // A printed row: about the runner, or about an owned process.
  datatype OutputRow =
    | RunnerRow(win: nat, birth: nat, start: nat)
    | ProcessRow(win: nat, name: string, birth: nat)

  predicate EndsWith(s: string, w: string) {
    |w| <= |s| && s[|s| - |w|..] == w
  }

  // The last part of the name is node or node.exe, in any case.
  predicate NodeName(name: string) {
    var l := LowerAll(name);
    l == "node" || l == "node.exe" || EndsWith(l, "/node") || EndsWith(l, "/node.exe")
  }

  // Four letters in either case, alone or before a dot and three more.
  predicate SpellsNode(s: string) {
    && |s| >= 4
    && (s[0] == 'n' || s[0] == 'N') && (s[1] == 'o' || s[1] == 'O')
    && (s[2] == 'd' || s[2] == 'D') && (s[3] == 'e' || s[3] == 'E')
    && (|s| == 4
        || (&& |s| == 8 && s[4] == '.' && (s[5] == 'e' || s[5] == 'E')
            && (s[6] == 'x' || s[6] == 'X') && (s[7] == 'e' || s[7] == 'E')))
  }

  // What follows the last part's slash, or the whole name, spells node or node.exe.
  ghost predicate NodeProgram(name: string) {
    exists k: nat :: k <= |name| && (k == 0 || name[k - 1] == '/') && SpellsNode(name[k..])
  }

  lemma SpellsIsLower(s: string)
    ensures SpellsNode(s) <==> LowerAll(s) == "node" || LowerAll(s) == "node.exe"
  {
    var l := LowerAll(s);
    if |s| == 4 {
      assert l == [l[0], l[1], l[2], l[3]];
    } else if |s| == 8 {
      assert l == [l[0], l[1], l[2], l[3], l[4], l[5], l[6], l[7]];
    }
    hide LowerAll;
    assert l == "node" <==> |l| == 4 && l[0] == 'n' && l[1] == 'o' && l[2] == 'd' && l[3] == 'e';
    assert l == "node.exe" <==> && |l| == 8 && l[0] == 'n' && l[1] == 'o' && l[2] == 'd' && l[3] == 'e'
                                && l[4] == '.' && l[5] == 'e' && l[6] == 'x' && l[7] == 'e';
  }

  lemma LowerOfTail(s: string, k: nat)
    requires k <= |s|
    ensures LowerAll(s[k..]) == LowerAll(s)[k..]
  {
  }

  lemma EndsAfterSlash(l: string, k: nat, w: string)
    requires 0 < k <= |l|
    ensures l[k - 1] == '/' && l[k..] == w <==> |w| + k == |l| && EndsWith(l, "/" + w)
  {
    if |w| + k == |l| {
      assert l[k - 1..] == [l[k - 1]] + l[k..];
      assert l[k - 1..][1..] == l[k..] && ("/" + w)[1..] == w && ("/" + w)[0] == '/';
    }
  }

  lemma NodeNameIsProgram(name: string)
    ensures NodeName(name) <==> NodeProgram(name)
  {
    if k: nat :| k <= |name| && (k == 0 || name[k - 1] == '/') && SpellsNode(name[k..]) {
      ProgramIsNodeName(name, k);
    }
    if NodeName(name) {
      NodeNameHasProgram(name);
    }
    hide NodeName, SpellsNode;
  }

  lemma ProgramIsNodeName(name: string, k: nat)
    requires k <= |name| && (k == 0 || name[k - 1] == '/') && SpellsNode(name[k..])
    ensures NodeName(name)
  {
    SpellsIsLower(name[k..]);
    LowerOfTail(name, k);
    var l := LowerAll(name);
    assert k > 0 ==> l[k - 1] == Lower(name[k - 1]);
    hide SpellsNode, LowerAll;
    if k == 0 {
      assert l[0..] == l;
    } else {
      SuffixIsNode(l, k);
    }
  }

  lemma NodeNameHasProgram(name: string)
    requires NodeName(name)
    ensures NodeProgram(name)
  {
    var l := LowerAll(name);
    var k := if l == "node" || l == "node.exe" then 0 else if EndsWith(l, "/node") then |l| - 4 else |l| - 8;
    NodeSuffix(l, k);
    SpellsIsLower(name[k..]);
    LowerOfTail(name, k);
    assert k > 0 ==> l[k - 1] == Lower(name[k - 1]);
    hide SpellsNode, LowerAll, NodeName, EndsWith;
  }

  lemma SuffixIsNode(l: string, k: nat)
    requires 0 < k <= |l| && l[k - 1] == '/' && (l[k..] == "node" || l[k..] == "node.exe")
    ensures EndsWith(l, "/node") || EndsWith(l, "/node.exe")
  {
    EndsAfterSlash(l, k, "node");
    EndsAfterSlash(l, k, "node.exe");
    assert "/" + "node" == "/node" && "/" + "node.exe" == "/node.exe";
  }

  lemma NodeSuffix(l: string, k: nat)
    requires l == "node" || l == "node.exe" || EndsWith(l, "/node") || EndsWith(l, "/node.exe")
    requires k == if l == "node" || l == "node.exe" then 0 else if EndsWith(l, "/node") then |l| - 4 else |l| - 8
    ensures k <= |l| && (k == 0 || l[k - 1] == '/') && (l[k..] == "node" || l[k..] == "node.exe")
  {
    if k > 0 {
      assert "/" + "node" == "/node" && "/" + "node.exe" == "/node.exe";
      EndsAfterSlash(l, k, "node");
      EndsAfterSlash(l, k, "node.exe");
    } else {
      assert l[0..] == l;
    }
  }

  predicate NamesNode(row: OutputRow) {
    row.ProcessRow? && NodeName(row.name)
  }

  function NodeRows(rows: seq<OutputRow>): seq<OutputRow> {
    if rows == [] then []
    else NodeRows(rows[..|rows| - 1]) + if NamesNode(rows[|rows| - 1]) then [rows[|rows| - 1]] else []
  }

  predicate IsRowOf(t: Tables, owned: set<nat>, row: OutputRow) {
    && row.ProcessRow? && row.win in owned && row.win in t.late
    && row == ProcessRow(row.win, t.late[row.win].name, t.late[row.win].birth)
  }

  predicate RowAbout(rows: seq<OutputRow>, i: nat, w: nat) {
    1 <= i < |rows| && rows[i].win == w
  }

  // The output for a counted sample: the runner, then each owned process once, in any order.
  ghost predicate Prints(t: Tables, v: Verdict, rows: seq<OutputRow>) {
    && v.Counted? && rows != [] && rows[0] == RunnerRow(v.win, v.birth, v.start)
    && (forall i | 1 <= i < |rows| :: IsRowOf(t, v.owned, rows[i]))
    && (forall i, j | 1 <= i < j < |rows| :: rows[i].win != rows[j].win)
    && forall w | w in v.owned :: exists i: nat :: RowAbout(rows, i, w)
  }

  function OwnedNodes(t: Tables, owned: set<nat>): set<nat> {
    set w | w in owned && w in t.late && NodeName(t.late[w].name)
  }

  // The count of printed node rows is the number of owned processes that are node.
  lemma CountIsOwnedNodes(t: Tables, v: Verdict, rows: seq<OutputRow>)
    requires Prints(t, v, rows)
    ensures |NodeRows(rows)| == |OwnedNodes(t, v.owned)|
  {
    var nodes := NodesUpTo(t, v, rows, |rows|);
    assert rows[..|rows|] == rows;
    forall w ensures w in nodes <==> w in OwnedNodes(t, v.owned) {
      if w in OwnedNodes(t, v.owned) {
        var i: nat :| RowAbout(rows, i, w);
        assert IsRowOf(t, v.owned, rows[i]) && NodeAt(rows, i, w);
      }
      if w in nodes {
        var i: nat :| i < |rows| && NodeAt(rows, i, w);
        assert IsRowOf(t, v.owned, rows[i]);
      }
    }
    assert nodes == OwnedNodes(t, v.owned);
  }

  predicate NodeAt(rows: seq<OutputRow>, i: nat, w: nat) {
    1 <= i < |rows| && NamesNode(rows[i]) && rows[i].win == w
  }

  lemma {:induction false} NodesUpTo(t: Tables, v: Verdict, rows: seq<OutputRow>, n: nat) returns (nodes: set<nat>)
    requires Prints(t, v, rows) && n <= |rows|
    ensures forall w :: w in nodes <==> exists i: nat :: i < n && NodeAt(rows, i, w)
    ensures |NodeRows(rows[..n])| == |nodes|
  {
    hide NodeName;
    if n == 0 {
      nodes := {};
    } else {
      nodes := NodesUpTo(t, v, rows, n - 1);
      assert rows[..n][..n - 1] == rows[..n - 1];
      if NamesNode(rows[n - 1]) {
        var w := rows[n - 1].win;
        assert NodeAt(rows, n - 1, w);
        assert w !in nodes;
        nodes := nodes + {w};
      }
    }
  }

  // What a batch is counted as: rows printed for its answer name as many node processes
  // as it owns.
  lemma CountMeansOwnership(r: Runner, t: Tables, v: Verdict, rows: seq<OutputRow>)
    requires Decides(r, t, v) && Prints(t, v, rows)
    ensures Accepts(r, t)
    ensures |NodeRows(rows)| == |set w | w in OwnedWins(r, t) && NodeName(t.late[w].name)|
  {
    hide NodeName, OwnedWins, Roots, Book;
    CountIsOwnedNodes(t, v, rows);
    OwnedAreLate(r, t);
    assert OwnedNodes(t, v.owned) == set w | w in OwnedWins(r, t) && NodeName(t.late[w].name);
  }

  lemma OwnedAreLate(r: Runner, t: Tables)
    requires Accepts(r, t)
    ensures forall w | w in OwnedWins(r, t) :: w in t.late
  {
  }

  // The classifier run with its printed output, whose processes come in any order.
  method ClassifyAndPrint(r: Runner, input: seq<Row>) returns (v: Verdict, rows: seq<OutputRow>, ghost t: Tables)
    ensures v == Refused || (Consistent(multiset(input)) && Tabulates(multiset(input), t)
                             && Decides(r, t, v) && Prints(t, v, rows))
    ensures PsFirst(input) ==> Answers(r, multiset(input), v)
  {
    hide Consistent, Tabulates, Decides, Prints, Accepts;
    var state := new State(r);
    state.ReadRows(input);
    var failed := state.error;
    v := state.Finish();
    t := state.GetTables();
    var late := state.late;
    rows := [];
    AnswerOf(r, input, t, v, failed);
    if v.Refused? {
      return;
    }
    OwnedHaveRows(r, t, v);
    rows := [RunnerRow(v.win, v.birth, v.start)];
    var todo := v.owned;
    NothingPrinted(t, v);
    while todo != {}
      invariant todo <= v.owned && Printed(t, v, v.owned - todo, rows)
    {
      var w :| w in todo;
      OneMorePrinted(t, v, v.owned - todo, rows, w);
      rows := rows + [ProcessRow(w, late[w].name, late[w].birth)];
      assert v.owned - (todo - {w}) == (v.owned - todo) + {w};
      todo := todo - {w};
    }
    AllPrinted(t, v, rows);
  }

  lemma AnswerOf(r: Runner, input: seq<Row>, t: Tables, v: Verdict, failed: bool)
    requires !failed ==> Consistent(multiset(input)) && Tabulates(multiset(input), t) && Decides(r, t, v)
    requires failed ==> v == Refused && (PsFirst(input) ==> !Consistent(multiset(input)))
    ensures v != Refused ==> Consistent(multiset(input)) && Tabulates(multiset(input), t) && Decides(r, t, v)
    ensures PsFirst(input) ==> Answers(r, multiset(input), v)
  {
    hide Consistent, Tabulates, Decides;
  }

  lemma OwnedHaveRows(r: Runner, t: Tables, v: Verdict)
    requires Decides(r, t, v) && v.Counted?
    ensures forall w | w in v.owned :: w in t.late
  {
  }

  // The runner's row is printed, and one row for each process in `done`.
  ghost predicate Printed(t: Tables, v: Verdict, done: set<nat>, rows: seq<OutputRow>) {
    && v.Counted? && rows != [] && rows[0] == RunnerRow(v.win, v.birth, v.start)
    && (forall i | 1 <= i < |rows| :: IsRowOf(t, done, rows[i]))
    && (forall i, j | 1 <= i < j < |rows| :: rows[i].win != rows[j].win)
    && forall w | w in done :: HasRow(rows, w)
  }

  ghost predicate HasRow(rows: seq<OutputRow>, w: nat) {
    exists i: nat :: RowAbout(rows, i, w)
  }

  lemma NothingPrinted(t: Tables, v: Verdict)
    requires v.Counted?
    ensures Printed(t, v, v.owned - v.owned, [RunnerRow(v.win, v.birth, v.start)])
  {
  }

  lemma OneMorePrinted(t: Tables, v: Verdict, done: set<nat>, rows: seq<OutputRow>, w: nat)
    requires Printed(t, v, done, rows) && w !in done && w in t.late
    ensures Printed(t, v, done + {w}, rows + [ProcessRow(w, t.late[w].name, t.late[w].birth)])
  {
    var now := rows + [ProcessRow(w, t.late[w].name, t.late[w].birth)];
    forall x | x in done + {w} ensures HasRow(now, x) {
      if x == w {
        assert RowAbout(now, |rows|, w);
      } else {
        assert HasRow(rows, x);
        var i: nat :| RowAbout(rows, i, x);
        assert RowAbout(now, i, x);
      }
    }
    forall i | 1 <= i < |rows| ensures rows[i].win != w {
      assert IsRowOf(t, done, rows[i]);
    }
  }

  lemma AllPrinted(t: Tables, v: Verdict, rows: seq<OutputRow>)
    requires v.Counted? && Printed(t, v, v.owned - {}, rows)
    ensures Prints(t, v, rows)
  {
    assert v.owned - {} == v.owned;
    forall w | w in v.owned ensures exists i: nat :: RowAbout(rows, i, w) {
      assert HasRow(rows, w);
    }
  }
}
