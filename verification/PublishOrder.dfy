/** Kahn's algorithm over the normal-dependency graph (check 4), and exactly what
    its two results mean on every graph, cyclic or not. */
module PublishOrder {
  import opened Digraph

  // ----- Specification -----

  /** `n` lies on a cycle, or some cycle depends on it, directly or not. */
  ghost predicate BelowCycle(g: Graph, n: string) {
    exists c :: OnCycle(g, c) && Reach(g, c, n)
  }

  /** Every crate comes after everything it depends on. */
  ghost predicate DependenciesFirst(g: Graph, order: seq<string>) {
    forall i :: 0 <= i < |order| ==> Succ(g, order[i]) <= Elements(order[..i])
  }

  /** Every crate comes after everything that depends on it. */
  ghost predicate DependentsFirst(g: Graph, order: seq<string>) {
    forall i :: 0 <= i < |order| ==> Dependents(g, order[i]) <= Elements(order[..i])
  }

  /** What a publish order promises: each crate once, nothing missing,
      dependencies before dependents. */
  ghost predicate ValidOrder(g: Graph, order: seq<string>) {
    NoDuplicates(order) && Elements(order) == Nodes(g) && DependenciesFirst(g, order)
  }

  // ----- The algorithm -----

  /** Lists a set in some order. The tool sorts by name; nothing below depends on
      which order it is. */
  method Enumerate(s: set<string>) returns (q: seq<string>)
    ensures NoDuplicates(q) && Elements(q) == s
  {
    q := [];
    var rest := s;
    while rest != {}
      invariant rest <= s && Elements(q) == s - rest && NoDuplicates(q)
      decreases rest
    {
      var x :| x in rest;
      assert x !in Elements(q);
      AppendElement(q, x);
      q := q + [x];
      rest := rest - {x};
    }
  }

  /** Adds one to the counter of every dependency of `n`. */
  method CountDependencies(g: Graph, n: string, degree: map<string, nat>) returns (r: map<string, nat>)
    requires n in g && g[n] <= degree.Keys
    ensures r.Keys == degree.Keys
    ensures forall d :: d in r ==> r[d] == degree[d] + (if d in g[n] then 1 else 0)
  {
    r := degree;
    var rest := g[n];
    while rest != {}
      invariant rest <= g[n] && r.Keys == degree.Keys
      invariant forall d :: d in r ==> r[d] == degree[d] + (if d in g[n] - rest then 1 else 0)
      decreases rest
    {
      var d :| d in rest;
      r := r[d := r[d] + 1];
      rest := rest - {d};
    }
  }

  /** The counters count the dependents outside `hidden`. */
  ghost predicate Counts(g: Graph, degree: map<string, nat>, hidden: set<string>) {
    degree.Keys == Nodes(g) && forall d :: d in degree ==> degree[d] == |Dependents(g, d) - hidden|
  }

  /** `in_degree[d]` counts the crates that depend on `d`. */
  method InDegrees(g: Graph) returns (degree: map<string, nat>)
    ensures Counts(g, degree, {})
  {
    degree := map n | n in Nodes(g) :: 0;
    var rest := g.Keys;
    assert forall d :: Dependents(g, d) - rest == {};
    while rest != {}
      invariant rest <= g.Keys && Counts(g, degree, rest)
      decreases rest
    {
      var n :| n in rest;
      assert g[n] <= Nodes(g);
      var next := CountDependencies(g, n, degree);
      RevealDependent(g, degree, next, rest, n);
      degree := next;
      rest := rest - {n};
    }
  }

  lemma RevealDependent(g: Graph, degree: map<string, nat>, next: map<string, nat>, hidden: set<string>, n: string)
    requires Counts(g, degree, hidden) && n in hidden && n in g
    requires next.Keys == degree.Keys
    requires forall d :: d in next ==> next[d] == degree[d] + (if d in g[n] then 1 else 0)
    ensures Counts(g, next, hidden - {n})
  {
    forall d | d in next
      ensures next[d] == |Dependents(g, d) - (hidden - {n})|
    {
      RemoveFromHidden(Dependents(g, d), hidden, n);
    }
  }

  lemma RemoveFromHidden(s: set<string>, hidden: set<string>, n: string)
    requires n in hidden
    ensures |s - (hidden - {n})| == |s - hidden| + (if n in s then 1 else 0)
  {
    if n in s {
      assert s - (hidden - {n}) == (s - hidden) + {n};
    } else {
      assert s - (hidden - {n}) == s - hidden;
    }
  }

  /** What holds between two steps: the counters count the dependents not yet
      emitted, and the crates whose counter is zero are those emitted or queued. */
  ghost predicate KahnState(g: Graph, degree: map<string, nat>, order: seq<string>, queue: seq<string>) {
    && Counts(g, degree, Elements(order))
    && ZeroesAre(degree, order + queue)
    && NoDuplicates(order + queue)
    && DependentsFirst(g, order)
  }

  ghost predicate ZeroesAre(degree: map<string, nat>, s: seq<string>) {
    forall d :: d in s <==> d in degree && degree[d] == 0
  }

  /** Takes `n` off: decrements its dependencies and queues those that reach zero. */
  method Release(g: Graph, n: string, degree: map<string, nat>)
    returns (r: map<string, nat>, freed: seq<string>)
    requires Succ(g, n) <= degree.Keys
    requires forall d :: d in Succ(g, n) ==> degree[d] > 0
    ensures Released(g, n, degree, r, freed)
  {
    r, freed := degree, [];
    var todo := Enumerate(Succ(g, n));
    for i := 0 to |todo|
      invariant r.Keys == degree.Keys
      invariant forall d :: d in r ==> r[d] == degree[d] - (if d in todo[..i] then 1 else 0)
      invariant NoDuplicates(freed)
      invariant forall d :: d in freed <==> d in todo[..i] && r[d] == 0
    {
      var d := todo[i];
      assert d in Elements(todo) && d !in todo[..i];
      r := r[d := r[d] - 1];
      if r[d] == 0 {
        freed := freed + [d];
      }
      assert todo[..i + 1] == todo[..i] + [d];
    }
    assert todo[..|todo|] == todo;
    assert forall d :: d in todo <==> d in Elements(todo);
  }

  /** `r` and `freed` are what `Release` makes of `degree` for crate `n`. */
  ghost predicate Released(g: Graph, n: string, degree: map<string, nat>, r: map<string, nat>, freed: seq<string>) {
    && r.Keys == degree.Keys
    && (forall d :: d in r ==> degree[d] == r[d] + (if d in Succ(g, n) then 1 else 0))
    && NoDuplicates(freed)
    && (forall d :: d in freed <==> d in Succ(g, n) && d in r && r[d] == 0)
  }

  /** One turn of the main loop keeps the state invariant. */
  lemma StepKeepsState(g: Graph, degree: map<string, nat>, order: seq<string>, queue: seq<string>,
                       r: map<string, nat>, freed: seq<string>)
    requires KahnState(g, degree, order, queue) && queue != []
    requires Released(g, queue[0], degree, r, freed)
    ensures KahnState(g, r, order + [queue[0]], queue[1..] + freed)
  {
    var n := queue[0];
    SplitNoDuplicates(order, queue);
    assert order + [n] + (queue[1..] + freed) == order + queue + freed;
    StepCounts(g, degree, order, n, r, freed);
    StepZeroes(g, n, degree, order + queue, r, freed);
    assert forall x :: x in freed ==> degree[x] > 0;
    AppendNoDuplicates(order + queue, freed);
    assert n in order + queue;
    StepDependents(g, degree, order, n);
  }

  lemma StepCounts(g: Graph, degree: map<string, nat>, order: seq<string>, n: string,
                   r: map<string, nat>, freed: seq<string>)
    requires Counts(g, degree, Elements(order)) && n !in order
    requires Released(g, n, degree, r, freed)
    ensures Counts(g, r, Elements(order + [n]))
  {
    forall d | d in r
      ensures r[d] == |Dependents(g, d) - Elements(order + [n])|
    {
      DependentsShrink(g, d, order, n);
    }
  }

  lemma StepZeroes(g: Graph, n: string, degree: map<string, nat>, all: seq<string>, r: map<string, nat>, freed: seq<string>)
    requires ZeroesAre(degree, all)
    requires Released(g, n, degree, r, freed)
    ensures ZeroesAre(r, all + freed)
  {
  }

  lemma StepDependents(g: Graph, degree: map<string, nat>, order: seq<string>, n: string)
    requires Counts(g, degree, Elements(order)) && DependentsFirst(g, order)
    requires n in degree && degree[n] == 0
    ensures DependentsFirst(g, order + [n])
  {
    var next := order + [n];
    forall i | 0 <= i < |next|
      ensures Dependents(g, next[i]) <= Elements(next[..i])
    {
      if i < |order| {
        assert next[i] == order[i] && next[..i] == order[..i];
      } else {
        ZeroMeansReleased(g, degree, order, n);
        assert next[..i] == order;
      }
    }
  }

  lemma ZeroMeansReleased(g: Graph, degree: map<string, nat>, order: seq<string>, n: string)
    requires Counts(g, degree, Elements(order)) && n in degree
    ensures degree[n] == 0 <==> Dependents(g, n) <= Elements(order)
  {
    DifferenceEmpty(Dependents(g, n), Elements(order));
  }

  lemma DifferenceEmpty(a: set<string>, b: set<string>)
    ensures |a - b| == 0 <==> a <= b
  {
    if |a - b| == 0 {
      forall x | x in a
        ensures x in b
      {
        assert x !in a - b;
      }
    }
  }

  lemma DependentsShrink(g: Graph, d: string, order: seq<string>, n: string)
    requires n !in order
    ensures |Dependents(g, d) - Elements(order + [n])|
         == |Dependents(g, d) - Elements(order)| - (if d in Succ(g, n) then 1 else 0)
  {
    var s := Dependents(g, d) - Elements(order);
    AppendElement(order, n);
    assert Dependents(g, d) - Elements(order + [n]) == s - {n};
    assert n in s <==> d in Succ(g, n);
  }

  /** The counting and the queue loop: runs until nothing is left without dependents. */
  method Drain(g: Graph) returns (degree: map<string, nat>, order: seq<string>)
    ensures KahnState(g, degree, order, [])
  {
    degree := InDegrees(g);
    var queue := Enumerate(set n | n in degree && degree[n] == 0);
    order := [];
    StartState(g, degree, queue);
    while queue != []
      invariant KahnState(g, degree, order, queue)
      decreases |Nodes(g)| - |order|
    {
      OrderFits(g, degree, order, queue);
      QueueHeadEdges(g, degree, order, queue);
      var r, freed := Release(g, queue[0], degree);
      StepKeepsState(g, degree, order, queue, r, freed);
      degree, order, queue := r, order + [queue[0]], queue[1..] + freed;
    }
  }

  /** Check 4: the publish order, and the crates left over when there is a cycle. */
  method PublishOrder(g: Graph) returns (order: seq<string>, cycleNodes: seq<string>)
    ensures cycleNodes == [] <==> Acyclic(g)
    ensures cycleNodes == [] ==> ValidOrder(g, order)
    ensures NoDuplicates(cycleNodes) && forall n :: n in cycleNodes <==> n in Nodes(g) && BelowCycle(g, n)
    ensures cycleNodes != [] ==> NoDuplicates(order) && DependentsFirst(g, order)
    ensures forall n :: n in order <==> n in Nodes(g) && !BelowCycle(g, n)
  {
    var degree;
    degree, order := Drain(g);
    assert order + [] == order;
    LeftoverIsBelowCycle(g, degree, order);
    OrderSizes(g, order);
    if |order| != |Nodes(g)| {
      cycleNodes := Enumerate(set n | n in degree && degree[n] > 0);
      assert forall n :: n in cycleNodes <==> n in Elements(cycleNodes);
      SomeLeftover(g, order);
      return;
    }
    NothingLeftover(g, order);
    ReverseIsValid(g, order);
    ReverseElements(order);
    order := Reverse(order);
    cycleNodes := [];
  }

  // ----- Why it is right -----

  lemma StartState(g: Graph, degree: map<string, nat>, queue: seq<string>)
    requires Counts(g, degree, {})
    requires NoDuplicates(queue) && Elements(queue) == set n | n in degree && degree[n] == 0
    ensures KahnState(g, degree, [], queue)
  {
    assert [] + queue == queue;
    assert forall n :: n in queue <==> n in Elements(queue);
    assert Elements<string>([]) == {};
  }

  lemma OrderFits(g: Graph, degree: map<string, nat>, order: seq<string>, queue: seq<string>)
    requires KahnState(g, degree, order, queue)
    ensures |order| + |queue| <= |Nodes(g)|
  {
    NoDuplicatesSize(order + queue);
    assert Elements(order + queue) <= Nodes(g);
    SubsetSize(Elements(order + queue), Nodes(g));
  }

  lemma QueueHeadEdges(g: Graph, degree: map<string, nat>, order: seq<string>, queue: seq<string>)
    requires KahnState(g, degree, order, queue) && queue != []
    ensures Succ(g, queue[0]) <= degree.Keys
    ensures forall d :: d in Succ(g, queue[0]) ==> degree[d] > 0
  {
    var n := queue[0];
    SplitNoDuplicates(order, queue);
    assert n in queue && n !in order;
    forall d | d in Succ(g, n)
      ensures d in degree && degree[d] > 0
    {
      assert n in Dependents(g, d) && n !in Elements(order);
      ZeroMeansReleased(g, degree, order, d);
    }
  }

  /** A walk that ends in the emitted prefix starts there too, strictly earlier if it moves. */
  lemma {:induction false} WalkIntoOrder(g: Graph, order: seq<string>, w: seq<string>, i: nat) returns (j: nat)
    requires DependentsFirst(g, order) && Walk(g, w) && i < |order| && w[|w| - 1] == order[i]
    ensures j <= i && order[j] == w[0] && (|w| > 1 ==> j < i)
    decreases |w|
  {
    if |w| == 1 {
      j := i;
    } else {
      var k := w[|w| - 2];
      DropLast(g, w);
      assert k in Dependents(g, order[i]) && k in Elements(order[..i]);
      var m :| 0 <= m < i && order[m] == k;
      j := WalkIntoOrder(g, order, w[..|w| - 1], m);
    }
  }

  lemma EmittedIsClean(g: Graph, order: seq<string>, n: string)
    requires DependentsFirst(g, order) && NoDuplicates(order) && n in order
    ensures !BelowCycle(g, n)
  {
    if BelowCycle(g, n) {
      var c :| OnCycle(g, c) && Reach(g, c, n);
      var w :| WalkFromTo(g, w, c, n);
      var i :| 0 <= i < |order| && order[i] == n;
      var j := WalkIntoOrder(g, order, w, i);
      var v :| WalkFromTo(g, v, c, c) && |v| > 1;
      var k := WalkIntoOrder(g, order, v, j);
    }
  }

  ghost predicate HasDependentIn(g: Graph, left: set<string>, n: string) {
    exists k :: k in Dependents(g, n) && k in left
  }

  /** Inside a set where everybody has a dependent, walks of any length end anywhere. */
  lemma {:induction false} BackwardWalk(g: Graph, left: set<string>, n: string, k: nat) returns (w: seq<string>)
    requires forall x :: x in left ==> HasDependentIn(g, left, x)
    requires n in left
    ensures |w| == k + 1 && Walk(g, w) && w[k] == n && forall x :: x in w ==> x in left
    decreases k
  {
    if k == 0 {
      w := [n];
    } else {
      var p :| p in Dependents(g, n) && p in left;
      var u := BackwardWalk(g, left, p, k - 1);
      w := u + [n];
      forall i | 0 < i < |w|
        ensures w[i] in Succ(g, w[i - 1])
      {
        if i < |u| {
          assert w[i] == u[i] && w[i - 1] == u[i - 1];
        }
      }
    }
  }

  lemma StuckIsBelowCycle(g: Graph, left: set<string>, n: string)
    requires forall x :: x in left ==> HasDependentIn(g, left, x)
    requires n in left
    ensures BelowCycle(g, n)
  {
    var w := BackwardWalk(g, left, n, |left|);
    var i, j := Pigeonhole(w, left);
    SubWalk(g, w, i, j);
    SubWalk(g, w, i, |w| - 1);
    assert OnCycle(g, w[i]);
  }

  lemma LeftoverIsBelowCycle(g: Graph, degree: map<string, nat>, order: seq<string>)
    requires KahnState(g, degree, order, [])
    ensures NoDuplicates(order) && DependentsFirst(g, order)
    ensures forall n :: n in order <==> n in Nodes(g) && !BelowCycle(g, n)
    ensures forall n :: n in degree && degree[n] > 0 <==> n in Nodes(g) && BelowCycle(g, n)
  {
    assert order + [] == order;
    var left := Nodes(g) - Elements(order);
    forall n | n in left
      ensures HasDependentIn(g, left, n)
    {
    }
    forall n | n in Nodes(g)
      ensures BelowCycle(g, n) <==> n !in order
    {
      if n in order {
        EmittedIsClean(g, order, n);
      } else {
        StuckIsBelowCycle(g, left, n);
      }
    }
  }

  lemma OrderSizes(g: Graph, order: seq<string>)
    requires NoDuplicates(order) && forall n :: n in order ==> n in Nodes(g)
    ensures |order| == |Nodes(g)| <==> Elements(order) == Nodes(g)
  {
    NoDuplicatesSize(order);
    SubsetSize(Elements(order), Nodes(g));
  }

  lemma CycleNodeIsNode(g: Graph, n: string)
    requires OnCycle(g, n)
    ensures n in Nodes(g) && BelowCycle(g, n)
  {
    var w :| WalkFromTo(g, w, n, n) && |w| > 1;
    WalkEndsAreNodes(g, w, 0);
    ReachSelf(g, n);
  }

  lemma SomeLeftover(g: Graph, order: seq<string>)
    requires forall n :: n in order <==> n in Nodes(g) && !BelowCycle(g, n)
    requires Elements(order) != Nodes(g)
    ensures !Acyclic(g)
    ensures exists n :: n in Nodes(g) && BelowCycle(g, n)
  {
    assert Elements(order) <= Nodes(g);
    var n :| n in Nodes(g) && n !in Elements(order);
    assert BelowCycle(g, n);
    var c :| OnCycle(g, c) && Reach(g, c, n);
  }

  lemma NothingLeftover(g: Graph, order: seq<string>)
    requires forall n :: n in order <==> n in Nodes(g) && !BelowCycle(g, n)
    requires Elements(order) == Nodes(g)
    ensures Acyclic(g)
    ensures forall n :: n in Nodes(g) ==> !BelowCycle(g, n)
  {
    forall n | n in Nodes(g)
      ensures !BelowCycle(g, n)
    {
      assert n in Elements(order);
    }
    forall n
      ensures !OnCycle(g, n)
    {
      if OnCycle(g, n) {
        CycleNodeIsNode(g, n);
      }
    }
  }

  // ----- The final `order.reverse()` -----

  function Reverse(s: seq<string>): (r: seq<string>)
    ensures |r| == |s| && forall i :: 0 <= i < |s| ==> r[i] == s[|s| - 1 - i]
  {
    seq(|s|, i requires 0 <= i < |s| => s[|s| - 1 - i])
  }

  lemma ReverseElements(s: seq<string>)
    ensures forall x :: x in Reverse(s) <==> x in s
  {
    forall x | x in s
      ensures x in Reverse(s)
    {
      var i :| 0 <= i < |s| && s[i] == x;
      assert Reverse(s)[|s| - 1 - i] == x;
    }
  }

  lemma ReverseIsValid(g: Graph, order: seq<string>)
    requires NoDuplicates(order) && Elements(order) == Nodes(g) && DependentsFirst(g, order)
    ensures ValidOrder(g, Reverse(order))
  {
    var r := Reverse(order);
    ReverseElements(order);
    assert Elements(r) == Elements(order);
    forall i, d | 0 <= i < |r| && d in Succ(g, r[i])
      ensures d in Elements(r[..i])
    {
      assert d in Nodes(g);
      assert d in Elements(order);
      var m :| 0 <= m < |order| && order[m] == d;
      assert r[i] in Dependents(g, order[m]) && r[i] in Elements(order[..m]);
      var p :| 0 <= p < m && order[p] == r[i];
      assert p == |order| - 1 - i;
      assert r[|order| - 1 - m] == d;
    }
  }
}
