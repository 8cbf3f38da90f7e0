/** The transitive reduction drawn in the crate index. */
module Reduction {
  import opened Wrappers
  import opened Digraph
  import opened Layers
  import PublishOrder

  // ----- Specification -----

  /** The edge `n -> d` says nothing new: another direct dependency already leads to `d`. */
  ghost predicate Implied(g: Graph, n: string, d: string) {
    exists o :: o in Succ(g, n) && o != d && ReachPlus(g, o, d)
  }

  ghost function Kept(g: Graph): Graph {
    map n | n in g :: set d | d in g[n] && !Implied(g, n, d)
  }

  ghost predicate SameReach(g: Graph, h: Graph) {
    forall a, b :: ReachPlus(g, a, b) <==> ReachPlus(h, a, b)
  }

  /** Some of the direct edges of `g`, reaching all that `g` reaches. */
  ghost predicate SubgraphWithReach(h: Graph, g: Graph) {
    (forall x :: Succ(h, x) <= Succ(g, x)) && SameReach(g, h)
  }

  /** Every edge goes strictly down. */
  ghost predicate Ranked(g: Graph, rank: map<string, nat>) {
    forall a, b :: b in Succ(g, a) ==> Lower(rank, a, b)
  }

  ghost predicate Lower(rank: map<string, nat>, a: string, b: string) {
    a in rank && b in rank && rank[b] < rank[a]
  }

  // ----- The kept edges reach what the graph reached -----

  lemma ReachGoesDown(g: Graph, rank: map<string, nat>, a: string, b: string)
    requires Ranked(g, rank) && ReachPlus(g, a, b)
    ensures a in rank && b in rank && rank[b] < rank[a]
  {
    var w :| WalkFromTo(g, w, a, b) && |w| > 1;
    WalkGoesDown(g, rank, w);
  }

  lemma {:induction false} WalkGoesDown(g: Graph, rank: map<string, nat>, w: seq<string>)
    requires Ranked(g, rank) && Walk(g, w) && |w| > 1
    ensures w[0] in rank && w[|w| - 1] in rank && rank[w[|w| - 1]] < rank[w[0]]
    decreases |w|
  {
    DropFirst(g, w);
    assert Lower(rank, w[0], w[1]);
    if |w| > 2 {
      WalkGoesDown(g, rank, w[1..]);
    }
  }

  lemma {:induction false} KeptReaches(g: Graph, rank: map<string, nat>, a: string, b: string)
    requires Ranked(g, rank) && ReachPlus(g, a, b) && a in rank && b in rank
    ensures ReachPlus(Kept(g), a, b)
    decreases rank[a] as int - rank[b] as int
  {
    ReachGoesDown(g, rank, a, b);
    if b in Succ(g, a) && !Implied(g, a, b) {
      assert b in Succ(Kept(g), a);
      EdgeReaches(Kept(g), a, b);
    } else {
      var x := IntermediateStep(g, a, b);
      EdgeReaches(g, a, x);
      ReachGoesDown(g, rank, a, x);
      ReachGoesDown(g, rank, x, b);
      KeptReaches(g, rank, a, x);
      KeptReaches(g, rank, x, b);
      assert Reach(Kept(g), a, x) && Reach(Kept(g), x, b);
      ReachTransitive(Kept(g), a, x, b);
    }
  }

  /** A pair that is not joined by a kept edge has a direct dependency in between. */
  lemma IntermediateStep(g: Graph, a: string, b: string) returns (x: string)
    requires ReachPlus(g, a, b) && !(b in Succ(g, a) && !Implied(g, a, b))
    ensures x in Succ(g, a) && ReachPlus(g, x, b)
  {
    if b in Succ(g, a) {
      x :| x in Succ(g, a) && x != b && ReachPlus(g, x, b);
    } else {
      x := FirstStep(g, a, b);
    }
  }

  /** On a graph whose edges go down, dropping the implied edges loses no reachability. */
  lemma ReductionPreservesReach(g: Graph, rank: map<string, nat>)
    requires Ranked(g, rank)
    ensures SameReach(g, Kept(g))
  {
    forall a, b
      ensures ReachPlus(g, a, b) <==> ReachPlus(Kept(g), a, b)
    {
      if ReachPlus(g, a, b) {
        ReachGoesDown(g, rank, a, b);
        KeptReaches(g, rank, a, b);
      }
    }
  }

  ghost function LayerOf(g: Graph, n: string): nat
    requires Acyclic(g)
  {
    LongestExists(g, n);
    var k: nat :| Longest(g, n, k); k
  }

  /** On every acyclic graph, dropping the implied edges loses no reachability. */
  lemma AcyclicReductionPreservesReach(g: Graph)
    requires Acyclic(g)
    ensures SameReach(g, Kept(g))
  {
    var rank := map n | n in Nodes(g) :: LayerOf(g, n);
    forall a, b | b in Succ(g, a)
      ensures Lower(rank, a, b)
    {
      LongestExists(g, a);
      LongestExists(g, b);
      EdgeGoesDown(g, a, b, LayerOf(g, a), LayerOf(g, b));
    }
    ReductionPreservesReach(g, rank);
  }

  /** No subset of the direct edges with the same reachability can do without a kept
      edge, so the reduction is the least one. */
  lemma ReductionIsLeast(g: Graph, h: Graph, n: string, d: string)
    requires SubgraphWithReach(h, g) && d in Succ(Kept(g), n)
    ensures d in Succ(h, n)
  {
    EdgeReaches(g, n, d);
    var x := FirstStep(h, n, d);
  }

  // ----- The algorithm -----

  class ReachTable {
    const crates: Crates
    var reach: map<string, set<string>>

    constructor (crates: Crates)
      ensures this.crates == crates && reach == map[]
    {
      this.crates := crates;
      reach := map[];
    }

    /** Every memoised closure is right. */
    ghost predicate Valid()
      reads this
    {
      Closed(crates) && forall n :: n in reach ==> IsClosure(GraphOf(crates), n, reach[n])
    }

    /** `closure`: everything below `name`, whatever is memoised already. */
    method Closure(name: string, ghost rank: map<string, nat>) returns (out: set<string>)
      requires Valid() && name in crates && crates.Keys <= rank.Keys && Ranked(GraphOf(crates), rank)
      modifies this`reach
      ensures Valid() && IsClosure(GraphOf(crates), name, out)
      decreases rank[name]
    {
      if name !in reach {
        out := {};
        var deps := crates[name];
        for i := 0 to |deps|
          invariant Valid()
          invariant forall x :: x in out <==> Below(GraphOf(crates), deps[..i], x)
        {
          assert deps[i] in Succ(GraphOf(crates), name) && Lower(rank, name, deps[i]);
          var more := Closure(deps[i], rank);
          assert deps[..i + 1] == deps[..i] + [deps[i]];
          ExtendBelow(GraphOf(crates), deps[..i], deps[i]);
          out := out + {deps[i]} + more;
        }
        assert deps[..|deps|] == deps;
        BelowIsClosure(GraphOf(crates), name, deps);
        reach := reach[name := out];
      }
      return reach[name];
    }

    /** `any(d in closure(o) for o in c.ws_deps if o != d)` */
    method IsImplied(name: string, d: string, ghost rank: map<string, nat>) returns (b: bool)
      requires Valid() && name in crates && crates.Keys <= rank.Keys && Ranked(GraphOf(crates), rank)
      modifies this`reach
      ensures Valid() && b == Implied(GraphOf(crates), name, d)
    {
      var deps := crates[name];
      for i := 0 to |deps|
        invariant Valid()
        invariant forall o :: o in deps[..i] && o != d ==> !ReachPlus(GraphOf(crates), o, d)
      {
        assert deps[i] in GraphOf(crates)[name];
        if deps[i] != d {
          var below := Closure(deps[i], rank);
          if d in below {
            return true;
          }
        }
        assert deps[..i + 1] == deps[..i] + [deps[i]];
      }
      assert deps[..|deps|] == deps;
      return false;
    }

    /** The kept edges out of one crate. */
    method KeptFrom(name: string, ghost rank: map<string, nat>) returns (edges: seq<(string, string)>)
      requires Valid() && name in crates && crates.Keys <= rank.Keys && Ranked(GraphOf(crates), rank)
      modifies this`reach
      ensures Valid()
      ensures forall a, b :: (a, b) in edges <==> a == name && b in Succ(Kept(GraphOf(crates)), name)
    {
      edges := [];
      var deps := crates[name];
      for i := 0 to |deps|
        invariant Valid()
        invariant forall a, b :: (a, b) in edges <==>
          a == name && b in deps[..i] && !Implied(GraphOf(crates), name, b)
      {
        var implied := IsImplied(name, deps[i], rank);
        assert deps[..i + 1] == deps[..i] + [deps[i]];
        if !implied {
          edges := edges + [(name, deps[i])];
        }
      }
      assert deps[..|deps|] == deps;
    }

    /** `reduced_edges`: exactly the edges that are not implied. */
    method ReducedEdges(ghost rank: map<string, nat>) returns (edges: seq<(string, string)>)
      requires Valid() && crates.Keys <= rank.Keys && Ranked(GraphOf(crates), rank)
      modifies this`reach
      ensures Valid()
      ensures forall a, b :: (a, b) in edges <==> b in Succ(Kept(GraphOf(crates)), a)
    {
      edges := [];
      var names := PublishOrder.Enumerate(crates.Keys);
      for i := 0 to |names|
        invariant Valid()
        invariant forall a, b :: (a, b) in edges <==> a in names[..i] && b in Succ(Kept(GraphOf(crates)), a)
      {
        assert names[i] in Elements(names);
        var more := KeptFrom(names[i], rank);
        assert names[..i + 1] == names[..i] + [names[i]];
        edges := edges + more;
      }
      assert names[..|names|] == names;
      assert forall a :: a in names <==> a in Elements(names);
    }
  }

  ghost predicate IsClosure(g: Graph, n: string, s: set<string>) {
    forall x :: x in s <==> ReachPlus(g, n, x)
  }

  /** `x` is one of `deps` or lies below one of them. */
  ghost predicate Below(g: Graph, deps: seq<string>, x: string) {
    exists o :: o in deps && (o == x || ReachPlus(g, o, x))
  }

  lemma ExtendBelow(g: Graph, deps: seq<string>, d: string)
    ensures forall x :: Below(g, deps + [d], x) <==> Below(g, deps, x) || x == d || ReachPlus(g, d, x)
  {
    assert d in deps + [d];
    forall x | Below(g, deps, x)
      ensures Below(g, deps + [d], x)
    {
      var o :| o in deps && (o == x || ReachPlus(g, o, x));
      assert o in deps + [d];
    }
  }

  lemma BelowIsClosure(g: Graph, n: string, deps: seq<string>)
    requires Succ(g, n) == set d | d in deps
    ensures forall x :: Below(g, deps, x) <==> ReachPlus(g, n, x)
  {
    forall x
      ensures Below(g, deps, x) <==> ReachPlus(g, n, x)
    {
      if ReachPlus(g, n, x) {
        var o := FirstStep(g, n, x);
        assert o in deps;
      }
      if Below(g, deps, x) {
        var o :| o in deps && (o == x || ReachPlus(g, o, x));
        ReachSelf(g, x);
        StepThenReach(g, n, o, x);
      }
    }
  }

  /** Loading, layering and reducing as the generator does: an error exactly on a
      cycle, and otherwise the least set of direct edges with the same reachability. */
  method LoadAndReduce(crates: Crates) returns (r: Result<seq<(string, string)>, seq<string>>)
    requires Closed(crates)
    ensures r.Ok? <==> Acyclic(GraphOf(crates))
    ensures r.Ok? ==> forall a, b :: (a, b) in r.value <==> b in Succ(Kept(GraphOf(crates)), a)
    ensures r.Ok? ==> SameReach(GraphOf(crates), Kept(GraphOf(crates)))
    ensures r.Ok? ==> forall h: Graph, a, b :: SubgraphWithReach(h, GraphOf(crates)) && (a, b) in r.value ==> b in Succ(h, a)
  {
    var table := new LayerTable(crates);
    var layered := table.Assign();
    if layered.Err? {
      return Err(layered.error);
    }
    ghost var g := GraphOf(crates);
    ghost var rank := table.layer;
    forall a, b | b in Succ(g, a)
      ensures Lower(rank, a, b)
    {
      EdgeGoesDown(g, a, b, rank[a], rank[b]);
    }
    ReductionPreservesReach(g, rank);
    var closures := new ReachTable(crates);
    var edges := closures.ReducedEdges(rank);
    forall h: Graph, a, b | SubgraphWithReach(h, g) && (a, b) in edges
      ensures b in Succ(h, a)
    {
      ReductionIsLeast(g, h, a, b);
    }
    return Ok(edges);
  }
}
