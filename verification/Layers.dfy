/** Dependency layers: memoised longest-path layering with cycle detection. */
module Layers {
  import opened Wrappers
  import opened Digraph

  /** Each crate with its workspace dependencies, as listed. */
  type Crates = map<string, seq<string>>

  function GraphOf(crates: Crates): Graph {
    map n | n in crates :: set d | d in crates[n]
  }

  /** Loading has already refused a dependency that is not a member. */
  ghost predicate Closed(crates: Crates) {
    forall n, d :: n in crates && d in crates[n] ==> d in crates
  }

  // ----- Specification -----

  /** The longest dependency chain below `n` has exactly `k` steps. */
  ghost predicate Longest(g: Graph, n: string, k: nat) {
    && (exists w :: Walk(g, w) && w[0] == n && |w| == k + 1)
    && (forall w :: Walk(g, w) && w[0] == n ==> |w| <= k + 1)
  }

  lemma LongestUnique(g: Graph, n: string, j: nat, k: nat)
    requires Longest(g, n, j) && Longest(g, n, k)
    ensures j == k
  {
    var w :| Walk(g, w) && w[0] == n && |w| == j + 1;
    var v :| Walk(g, v) && v[0] == n && |v| == k + 1;
  }

  /** The trail of an error message: a walk that comes back to a crate it has passed. */
  ghost predicate CyclicTrail(g: Graph, trail: seq<string>) {
    Walk(g, trail) && trail[|trail| - 1] in trail[..|trail| - 1]
  }

  lemma TrailHasCycle(g: Graph, trail: seq<string>)
    requires CyclicTrail(g, trail)
    ensures !Acyclic(g)
  {
    var i :| 0 <= i < |trail| - 1 && trail[i] == trail[|trail| - 1];
    SubWalk(g, trail, i, |trail| - 1);
    assert OnCycle(g, trail[i]);
  }

  // ----- One crate -----

  /** All dependencies of `n` are measured by `depth`. */
  ghost predicate Measured(g: Graph, n: string, depth: map<string, nat>) {
    forall d :: d in Succ(g, n) ==> d in depth && Longest(g, d, depth[d])
  }

  lemma LeafLayer(g: Graph, n: string)
    requires Succ(g, n) == {}
    ensures Longest(g, n, 0)
  {
    assert Walk(g, [n]);
    forall w | Walk(g, w) && w[0] == n
      ensures |w| <= 1
    {
      if |w| > 1 {
        NoStep(g, w);
      }
    }
  }

  lemma NoStep(g: Graph, w: seq<string>)
    requires Walk(g, w) && |w| > 1
    ensures Succ(g, w[0]) != {}
  {
    StepAt(g, w, 0);
  }

  lemma LayerAboveDeepest(g: Graph, n: string, depth: map<string, nat>, deepest: string)
    requires Measured(g, n, depth) && deepest in Succ(g, n)
    requires forall d :: d in Succ(g, n) ==> depth[d] <= depth[deepest]
    ensures Longest(g, n, 1 + depth[deepest])
  {
    var u :| Walk(g, u) && u[0] == deepest && |u| == depth[deepest] + 1;
    assert WalkFromTo(g, [n, deepest], n, deepest);
    JoinWalks(g, [n, deepest], u, n, deepest, u[|u| - 1]);
    forall w | Walk(g, w) && w[0] == n
      ensures |w| <= depth[deepest] + 2
    {
      if |w| > 1 {
        DropFirst(g, w);
        assert Longest(g, w[1], depth[w[1]]);
      }
    }
  }

  // ----- The algorithm -----

  ghost predicate Agrees(crates: Crates, g: Graph) {
    g.Keys == crates.Keys && forall n :: n in crates ==> g[n] == Elements(crates[n])
  }

  class LayerTable {
    const crates: Crates
    ghost const g: Graph
    var done: map<string, nat>
    var layer: map<string, nat>

    constructor (crates: Crates)
      ensures this.crates == crates && g == GraphOf(crates) && done == map[] && layer == map[]
    {
      this.crates := crates;
      g := GraphOf(crates);
      done, layer := map[], map[];
    }

    /** Every memoised layer is right. */
    ghost predicate Valid()
      reads this
    {
      Closed(crates) && Agrees(crates, g) && forall n :: n in done ==> Longest(g, n, done[n])
    }

    ghost predicate Extends(before: map<string, nat>)
      reads this
    {
      forall n :: n in before ==> n in done && done[n] == before[n]
    }

    /** A stack of distinct crates, each depending on the next. */
    ghost predicate Trail(stack: seq<string>) {
      NoDuplicates(stack) && Elements(stack) <= crates.Keys
    }

    /** `visit`: the layer of one crate, whatever is memoised already, or the trail
        of a cycle. The stack holds distinct crates, so the recursion ends. */
    method Visit(name: string, stack: seq<string>) returns (r: Result<nat, seq<string>>)
      requires Valid() && name in crates && Trail(stack) && Walk(g, stack + [name])
      modifies this`done
      ensures Valid() && Extends(old(done))
      ensures r.Ok? ==> name in done && done[name] == r.value
      ensures r.Err? ==> CyclicTrail(g, r.error)
      decreases crates.Keys - Elements(stack), 0
    {
      if name in done {
        return Ok(done[name]);
      }
      if name in stack {
        assert (stack + [name])[..|stack|] == stack;
        return Err(stack + [name]);
      }
      var value := 0;
      if crates[name] != [] {
        AppendElement(stack, name);
        var below := Deepest(name, stack + [name]);
        if below.Err? {
          return Err(below.error);
        }
        value := 1 + below.value;
      } else {
        LeafLayer(g, name);
      }
      done := done[name := value];
      return Ok(value);
    }

    /** The deepest layer among the dependencies of the crate on top of the stack. */
    method Deepest(name: string, stack: seq<string>) returns (r: Result<nat, seq<string>>)
      requires Valid() && name in crates && crates[name] != []
      requires Trail(stack) && Walk(g, stack) && stack[|stack| - 1] == name
      modifies this`done
      ensures Valid() && Extends(old(done))
      ensures r.Ok? ==> Longest(g, name, 1 + r.value)
      ensures r.Err? ==> CyclicTrail(g, r.error)
      decreases crates.Keys - Elements(stack), 1
    {
      var deps := crates[name];
      var deepest := 0;
      ghost var lowest := deps[0];
      for i := 0 to |deps|
        invariant Valid() && Extends(old(done))
        invariant AtMost(deps, i, done, deepest)
        invariant i > 0 ==> lowest in deps && lowest in done && done[lowest] == deepest
      {
        ExtendWalk(crates, g, stack, name, deps[i]);
        ghost var before := done;
        var below := Visit(deps[i], stack);
        if below.Err? {
          return Err(below.error);
        }
        if i == 0 || below.value > deepest {
          deepest := below.value;
          lowest := deps[i];
        }
      }
      DeepestIsLayer(crates, g, name, done, lowest);
      return Ok(deepest);
    }

    /** `_assign_layers`: fails exactly on a cycle, and otherwise gives every crate
        the length of the longest chain below it. */
    method Assign() returns (r: Result<(), seq<string>>)
      requires Closed(crates) && g == GraphOf(crates) && done == map[] && layer == map[]
      modifies this
      ensures r.Ok? <==> Acyclic(g)
      ensures r.Err? ==> CyclicTrail(g, r.error)
      ensures r.Ok? ==> IsLayering(g, layer)
    {
      var rest := crates.Keys;
      while rest != {}
        invariant rest <= crates.Keys && layer.Keys == crates.Keys - rest
        invariant Valid() && Extends(layer)
        decreases rest
      {
        var name :| name in rest;
        assert Walk(g, [] + [name]);
        var v := Visit(name, []);
        if v.Err? {
          TrailHasCycle(g, v.error);
          return Err(v.error);
        }
        layer := layer[name := v.value];
        rest := rest - {name};
      }
      assert IsLayering(g, layer);
      LayeredIsAcyclic(g, layer);
      return Ok(());
    }
  }

  /** Each crate is at the length of the longest dependency chain below it. */
  ghost predicate IsLayering(g: Graph, layer: map<string, nat>) {
    layer.Keys == g.Keys && forall n :: n in g ==> Longest(g, n, layer[n])
  }

  ghost predicate AtMost(deps: seq<string>, n: nat, done: map<string, nat>, bound: nat)
    requires n <= |deps|
  {
    forall i :: 0 <= i < n ==> deps[i] in done && done[deps[i]] <= bound
  }

  lemma DeepestIsLayer(crates: Crates, g: Graph, name: string, done: map<string, nat>, lowest: string)
    requires Agrees(crates, g) && name in crates && lowest in crates[name] && lowest in done
    requires forall n :: n in done ==> Longest(g, n, done[n])
    requires AtMost(crates[name], |crates[name]|, done, done[lowest])
    ensures Longest(g, name, 1 + done[lowest])
  {
    LayerAboveDeepest(g, name, done, lowest);
  }

  lemma ExtendWalk(crates: Crates, g: Graph, stack: seq<string>, name: string, d: string)
    requires Agrees(crates, g) && Walk(g, stack) && stack[|stack| - 1] == name && name in crates && d in crates[name]
    ensures Walk(g, stack + [d])
  {
    assert WalkFromTo(g, [name, d], name, d);
    JoinWalks(g, stack, [name, d], stack[0], name, d);
    assert [name, d][1..] == [d];
  }

  /** A closed walk of one step or more contains walks of every length. */
  lemma {:induction false} PumpCycle(g: Graph, w: seq<string>, n: string, k: nat) returns (v: seq<string>)
    requires WalkFromTo(g, w, n, n) && |w| > 1
    ensures WalkFromTo(g, v, n, n) && |v| > k
    decreases k
  {
    if k == 0 {
      v := w;
    } else {
      var u := PumpCycle(g, w, n, k - 1);
      JoinWalks(g, u, w, n, n, n);
      v := u + w[1..];
    }
  }

  lemma LayeredIsAcyclic(g: Graph, layer: map<string, nat>)
    requires IsLayering(g, layer)
    ensures Acyclic(g)
  {
    forall n
      ensures !OnCycle(g, n)
    {
      if OnCycle(g, n) {
        var w :| WalkFromTo(g, w, n, n) && |w| > 1;
        StepAt(g, w, 0);
        assert n in g;
        var v := PumpCycle(g, w, n, layer[n] + 1);
      }
    }
  }

  /** An edge goes strictly down the layers. */
  lemma EdgeGoesDown(g: Graph, a: string, b: string, above: nat, below: nat)
    requires Longest(g, a, above) && Longest(g, b, below) && b in Succ(g, a)
    ensures below < above
  {
    var u :| Walk(g, u) && u[0] == b && |u| == below + 1;
    assert WalkFromTo(g, [a, b], a, b);
    JoinWalks(g, [a, b], u, a, b, u[|u| - 1]);
  }

  /** In an acyclic graph a walk repeats no crate, so none is longer than there are crates. */
  lemma AcyclicWalkFits(g: Graph, w: seq<string>)
    requires Acyclic(g) && Walk(g, w)
    ensures |w| <= |Nodes(g)| + 1
  {
    if |w| > |Nodes(g)| + 1 {
      forall x | x in w
        ensures x in Nodes(g)
      {
        var i :| 0 <= i < |w| && w[i] == x;
        WalkEndsAreNodes(g, w, i);
      }
      var i, j := Pigeonhole(w, Nodes(g));
      SubWalk(g, w, i, j);
      assert OnCycle(g, w[i]);
    }
  }

  lemma {:induction false} LongestAbove(g: Graph, n: string, w: seq<string>) returns (k: nat)
    requires Acyclic(g) && Walk(g, w) && w[0] == n
    ensures Longest(g, n, k)
    decreases |Nodes(g)| + 1 - |w|
  {
    AcyclicWalkFits(g, w);
    if v :| Walk(g, v) && v[0] == n && |v| > |w| {
      AcyclicWalkFits(g, v);
      k := LongestAbove(g, n, v);
    } else {
      k := |w| - 1;
    }
  }

  /** In an acyclic graph every crate has a layer. */
  lemma LongestExists(g: Graph, n: string)
    requires Acyclic(g)
    ensures exists k: nat :: Longest(g, n, k)
  {
    assert Walk(g, [n]);
    var k := LongestAbove(g, n, [n]);
  }

  // ----- The dependents lists -----

  /** The inversion in `load`: `dependents[d]` lists, once each, the crates that name `d`. */
  method Invert(crates: Crates) returns (dependents: Crates)
    requires Closed(crates) && forall n :: n in crates ==> NoDuplicates(crates[n])
    ensures dependents.Keys == crates.Keys
    ensures forall d :: d in crates ==> NoDuplicates(dependents[d])
    ensures forall d, c :: d in crates ==> (c in dependents[d] <==> c in crates && d in crates[c])
  {
    dependents := map n | n in crates :: [];
    var rest := crates.Keys;
    while rest != {}
      invariant rest <= crates.Keys && Listed(crates, dependents, crates.Keys - rest)
      decreases rest
    {
      var c :| c in rest;
      dependents := AddDependent(crates, dependents, crates.Keys - rest, c);
      rest := rest - {c};
      assert crates.Keys - rest == crates.Keys - (rest + {c}) + {c};
    }
  }

  ghost predicate Listed(crates: Crates, dependents: Crates, from: set<string>) {
    && dependents.Keys == crates.Keys
    && forall d :: d in crates ==> NoDuplicates(dependents[d]) && Lists(crates, dependents[d], from, d)
  }

  ghost predicate Lists(crates: Crates, list: seq<string>, from: set<string>, d: string) {
    forall c :: c in list <==> c in from && c in crates && d in crates[c]
  }

  method AddDependent(crates: Crates, dependents: Crates, ghost from: set<string>, c: string) returns (r: Crates)
    requires Closed(crates) && Listed(crates, dependents, from) && c in crates && c !in from
    requires NoDuplicates(crates[c])
    ensures Listed(crates, r, from + {c})
  {
    r := dependents;
    var deps := crates[c];
    for i := 0 to |deps|
      invariant r.Keys == crates.Keys
      invariant forall d :: d in crates ==> r[d] == dependents[d] + (if d in deps[..i] then [c] else [])
    {
      assert deps[i] !in deps[..i];
      assert deps[..i + 1] == deps[..i] + [deps[i]];
      r := r[deps[i] := r[deps[i]] + [c]];
    }
    assert deps[..|deps|] == deps;
    forall d | d in crates
      ensures NoDuplicates(r[d]) && Lists(crates, r[d], from + {c}, d)
    {
      assert Lists(crates, dependents[d], from, d);
      AppendElement(dependents[d], c);
    }
  }
}
