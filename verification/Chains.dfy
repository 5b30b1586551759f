// Walks up a parent relation. A walk from `x` follows the partial map `step`
// until it leaves the map's domain, or forever if it runs into a cycle.
module Chains {

  ghost predicate Chain(step: map<nat, nat>, xs: seq<nat>) {
    && xs != []
    && forall i | 0 <= i < |xs| - 1 :: xs[i] in step && xs[i + 1] == step[xs[i]]
  }

  ghost predicate ChainFromTo(step: map<nat, nat>, xs: seq<nat>, x: nat, y: nat) {
    Chain(step, xs) && xs[0] == x && xs[|xs| - 1] == y
  }

  // The walk from `x` stops, and stops at `y`.
  ghost predicate Ends(step: map<nat, nat>, x: nat, y: nat) {
    y !in step && exists xs :: ChainFromTo(step, xs, x, y)
  }

  ghost predicate Visits(step: map<nat, nat>, x: nat, y: nat) {
    exists xs :: ChainFromTo(step, xs, x, y)
  }

  // The walk from `x` comes back to a node it has already passed.
  ghost predicate Revisits(xs: seq<nat>) {
    xs != [] && xs[|xs| - 1] in xs[..|xs| - 1]
  }

  ghost predicate Cycles(step: map<nat, nat>, x: nat) {
    exists xs :: Chain(step, xs) && xs[0] == x && Revisits(xs)
  }

  // Walks are deterministic: of two chains with one start, one is a prefix of the other.
  lemma {:induction false} ChainsAgree(step: map<nat, nat>, xs: seq<nat>, ys: seq<nat>)
    requires Chain(step, xs) && Chain(step, ys) && xs[0] == ys[0] && |xs| <= |ys|
    ensures xs == ys[..|xs|]
  {
    if |xs| > 1 {
      var k := |xs| - 1;
      ChainsAgree(step, xs[..k], ys);
      assert xs[..k][k - 1] == ys[..k][k - 1];
      assert xs[k - 1] == ys[k - 1] && xs[k] == ys[k];
      assert xs == xs[..k] + [xs[k]];
    }
  }

  lemma {:induction false} ChainStaysIn(step: map<nat, nat>, inside: set<nat>, xs: seq<nat>, k: nat)
    requires Chain(step, xs) && k < |xs| && xs[0] in inside
    requires forall x | x in inside :: x in step && step[x] in inside
    ensures xs[k] in inside
  {
    if k > 0 {
      ChainStaysIn(step, inside, xs, k - 1);
    }
  }

  // A walk that ends never meets a node twice, and a walk that cycles never ends.
  lemma EndsExcludesCycle(step: map<nat, nat>, x: nat, y: nat)
    requires Ends(step, x, y)
    ensures !Cycles(step, x)
  {
    if Cycles(step, x) {
      var xs :| Chain(step, xs) && xs[0] == x && Revisits(xs);
      var inside := set i | 0 <= i < |xs| - 1 :: xs[i];
      forall n | n in inside ensures n in step && step[n] in inside {
        var i :| 0 <= i < |xs| - 1 && xs[i] == n;
        assert xs[i + 1] == step[n];
        if i + 1 == |xs| - 1 {
          assert xs[i + 1] in xs[..|xs| - 1];
        }
      }
      var ys :| ChainFromTo(step, ys, x, y);
      assert xs[0] in inside;
      ChainStaysIn(step, inside, ys, |ys| - 1);
    }
  }

  // Every chain from `x` is a prefix of the one that reaches the end.
  lemma EndingChainIsLongest(step: map<nat, nat>, xs: seq<nat>, ys: seq<nat>)
    requires Chain(step, xs) && Chain(step, ys) && xs[0] == ys[0] && ys[|ys| - 1] !in step
    ensures |xs| <= |ys| && xs == ys[..|xs|]
  {
    if |xs| > |ys| {
      ChainsAgree(step, ys, xs);
      assert false;
    }
    ChainsAgree(step, xs, ys);
  }

  // The nodes a finished walk visits are the nodes of its path.
  lemma VisitsIsOnPath(step: map<nat, nat>, path: seq<nat>, u: nat)
    requires Chain(step, path) && path[|path| - 1] !in step
    ensures Visits(step, path[0], u) <==> u in path
  {
    if u in path {
      var i :| 0 <= i < |path| && path[i] == u;
      assert ChainFromTo(step, path[..i + 1], path[0], u);
    }
    if Visits(step, path[0], u) {
      var xs :| ChainFromTo(step, xs, path[0], u);
      EndingChainIsLongest(step, xs, path);
    }
  }

  lemma EndIsUnique(step: map<nat, nat>, x: nat, y: nat, z: nat)
    requires Ends(step, x, y) && Ends(step, x, z)
    ensures y == z
  {
    var ys :| ChainFromTo(step, ys, x, y);
    var zs :| ChainFromTo(step, zs, x, z);
    EndingChainIsLongest(step, ys, zs);
    EndingChainIsLongest(step, zs, ys);
  }

  // Over a finite map every walk either ends or cycles.
  lemma EndsOrCycles(step: map<nat, nat>, x: nat) returns (y: nat)
    ensures Cycles(step, x) || Ends(step, x, y)
  {
    var path := [x];
    while path[|path| - 1] in step && path[|path| - 1] !in path[..|path| - 1]
      invariant Chain(step, path) && path[0] == x
      invariant forall i, j | 0 <= i < j < |path| - 1 :: path[i] != path[j]
      decreases step.Keys - (set i | 0 <= i < |path| - 1 :: path[i])
    {
      ghost var before := set i | 0 <= i < |path| - 1 :: path[i];
      ghost var shorter := path;
      var cur := path[|path| - 1];
      path := path + [step[cur]];
      ghost var after := set i | 0 <= i < |path| - 1 :: path[i];
      assert forall n | n in before :: n in after by {
        forall n | n in before ensures n in after {
          var i :| 0 <= i < |shorter| - 1 && shorter[i] == n;
          assert path[i] == n;
        }
      }
      assert path[|path| - 2] == cur && cur in after && cur !in before;
    }
    y := path[|path| - 1];
    assert ChainFromTo(step, path, x, y);
  }

  // Removing edges only shortens walks.
  lemma ChainInLargerMap(small: map<nat, nat>, large: map<nat, nat>, xs: seq<nat>)
    requires Chain(small, xs)
    requires forall x | x in small :: x in large && large[x] == small[x]
    ensures Chain(large, xs)
  {
  }
}
