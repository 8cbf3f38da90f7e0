/** Check 3: no crate may dev-depend on a crate that normal-depends on it. */
module DevCycles {
  import opened Wrappers
  import opened Digraph
  import opened NormalPath
  import PublishOrder

  datatype Report = Report(source: string, target: string, path: Option<seq<string>>)

  /** The dev edge `a -> b` closes a loop: `b` normal-depends on `a`, in one step or more. */
  ghost predicate Offends(normal: Graph, dev: Graph, a: string, b: string) {
    b in Succ(dev, a) && ReachPlus(normal, b, a)
  }

  // ----- The normal-dependency closure of one crate -----

  /** Every visited crate and every stacked one is reachable; the dependencies of a
      visited crate are recorded, and each of them is visited or stacked. */
  ghost predicate Closing(g: Graph, start: string, visited: set<string>, stack: seq<string>, reachable: set<string>) {
    && (start in visited || start in stack)
    && (forall x :: x in visited || x in stack ==> Reach(g, start, x))
    && (forall x :: x in reachable ==> ReachPlus(g, start, x))
    && (forall x :: x in visited ==> Succ(g, x) <= reachable && Succ(g, x) <= visited + Elements(stack))
  }

  method NormalClosure(g: Graph, start: string) returns (reachable: set<string>)
    ensures forall x :: x in reachable <==> ReachPlus(g, start, x)
  {
    var visited: set<string> := {};
    var stack := [start];
    reachable := {};
    ReachSelf(g, start);
    while stack != []
      invariant Closing(g, start, visited, stack, reachable)
      invariant visited <= Nodes(g) + {start} && Elements(stack) <= Nodes(g) + {start}
      decreases (Nodes(g) + {start}) - visited, |stack|
    {
      var node := stack[|stack| - 1];
      var below := stack[..|stack| - 1];
      assert stack == below + [node];
      AppendElement(below, node);
      assert forall x :: x in stack <==> x in Elements(stack);
      stack := below;
      if node !in visited {
        var pushed := PublishOrder.Enumerate(Succ(g, node) - (visited + {node}));
        Visit(g, start, visited, below, reachable, node, pushed);
        visited := visited + {node};
        reachable := reachable + Succ(g, node);
        stack := below + pushed;
        assert Elements(stack) == Elements(below) + Elements(pushed);
      }
    }
    ClosedAtTheEnd(g, start, visited, reachable);
  }

  lemma Visit(g: Graph, start: string, visited: set<string>, below: seq<string>, reachable: set<string>,
              node: string, pushed: seq<string>)
    requires Closing(g, start, visited, below + [node], reachable) && node !in visited
    requires Elements(pushed) == Succ(g, node) - (visited + {node})
    ensures Closing(g, start, visited + {node}, below + pushed, reachable + Succ(g, node))
  {
    assert forall x :: x in below + [node] <==> x in below || x == node;
    assert forall x :: x in pushed <==> x in Elements(pushed);
    assert Elements(below + pushed) == Elements(below) + Elements(pushed);
    assert Elements(below + [node]) == Elements(below) + {node};
    forall y | y in Succ(g, node)
      ensures ReachPlus(g, start, y)
    {
      EdgeReaches(g, node, y);
      assert Reach(g, node, y);
      ReachTransitive(g, start, node, y);
    }
  }

  lemma {:induction false} WalkVisited(g: Graph, start: string, visited: set<string>, reachable: set<string>, w: seq<string>)
    requires Closing(g, start, visited, [], reachable) && Walk(g, w) && w[0] == start
    ensures w[|w| - 1] in visited && (|w| > 1 ==> w[|w| - 1] in reachable)
    decreases |w|
  {
    if |w| <= 1 {
    } else {
      DropLast(g, w);
      WalkVisited(g, start, visited, reachable, w[..|w| - 1]);
      assert Succ(g, w[|w| - 2]) <= reachable;
    }
  }

  lemma ClosedAtTheEnd(g: Graph, start: string, visited: set<string>, reachable: set<string>)
    requires Closing(g, start, visited, [], reachable)
    ensures forall x :: x in reachable <==> ReachPlus(g, start, x)
  {
    forall x | ReachPlus(g, start, x)
      ensures x in reachable
    {
      var w :| WalkFromTo(g, w, start, x) && |w| > 1;
      WalkVisited(g, start, visited, reachable, w);
    }
  }

  // ----- The check -----

  /** One report for each offending dev edge, each with a real, shortest path. */
  ghost predicate ExactReports(normal: Graph, dev: Graph, sources: set<string>, reports: seq<Report>) {
    && (forall r :: r in reports ==>
          r.source in sources && Offends(normal, dev, r.source, r.target)
          && r.path.Some? && Shortest(normal, r.target, r.source, r.path.value))
    && (forall a, b :: a in sources && Offends(normal, dev, a, b) ==> Reported(reports, a, b))
    && (forall i, j :: 0 <= i < j < |reports| ==>
          (reports[i].source, reports[i].target) != (reports[j].source, reports[j].target))
  }

  ghost predicate Reported(reports: seq<Report>, a: string, b: string) {
    exists i :: 0 <= i < |reports| && reports[i].source == a && reports[i].target == b
  }

  /** The inner loop, over the dev-dependencies of one crate. */
  method CheckOne(normal: Graph, dev: Graph, source: string) returns (reports: seq<Report>)
    ensures ExactReports(normal, dev, {source}, reports)
  {
    reports := [];
    var targets := PublishOrder.Enumerate(Succ(dev, source));
    for i := 0 to |targets|
      invariant forall r :: r in reports ==>
          r.source == source && r.target in targets[..i] && Offends(normal, dev, source, r.target)
          && r.path.Some? && Shortest(normal, r.target, source, r.path.value)
      invariant forall b :: b in targets[..i] && Offends(normal, dev, source, b) ==> Reported(reports, source, b)
      invariant forall j, k :: 0 <= j < k < |reports| ==> reports[j].target != reports[k].target
    {
      var target := targets[i];
      assert target in Elements(targets) && target !in targets[..i];
      assert targets[..i + 1] == targets[..i] + [target];
      var reachable := NormalClosure(normal, target);
      if source in reachable {
        var path := FindNormalPath(normal, target, source);
        assert Reach(normal, target, source);
        ghost var before := reports;
        reports := reports + [Report(source, target, path)];
        KeepReported(before, source, reports[|before|]);
      }
    }
    assert targets[..|targets|] == targets;
    assert forall b :: b in Succ(dev, source) ==> b in Elements(targets);
  }

  lemma KeepReported(reports: seq<Report>, a: string, r: Report)
    ensures forall b :: Reported(reports, a, b) ==> Reported(reports + [r], a, b)
    ensures Reported(reports + [r], r.source, r.target)
  {
    var all := reports + [r];
    assert all[|reports|] == r;
    forall b | Reported(reports, a, b)
      ensures Reported(all, a, b)
    {
      var i :| 0 <= i < |reports| && reports[i].source == a && reports[i].target == b;
      assert all[i] == reports[i];
    }
  }

  lemma JoinReports(normal: Graph, dev: Graph, done: set<string>, reports: seq<Report>, source: string, more: seq<Report>)
    requires ExactReports(normal, dev, done, reports) && ExactReports(normal, dev, {source}, more) && source !in done
    ensures ExactReports(normal, dev, done + {source}, reports + more)
  {
    var all := reports + more;
    forall a, b | a in done + {source} && Offends(normal, dev, a, b)
      ensures Reported(all, a, b)
    {
      if a in done {
        var i :| 0 <= i < |reports| && reports[i].source == a && reports[i].target == b;
        assert all[i] == reports[i];
      } else {
        var i :| 0 <= i < |more| && more[i].source == a && more[i].target == b;
        assert all[|reports| + i] == more[i];
      }
    }
    forall i, j | 0 <= i < j < |all|
      ensures (all[i].source, all[i].target) != (all[j].source, all[j].target)
    {
      if i < |reports| <= j {
        assert all[i] in reports && all[j] in more;
      }
    }
  }

  /** `_check3_dev_cycles`: reports exactly the offending dev edges. */
  method CheckDevCycles(normal: Graph, dev: Graph) returns (reports: seq<Report>)
    ensures ExactReports(normal, dev, dev.Keys, reports)
    ensures reports == [] <==> forall a, b :: !Offends(normal, dev, a, b)
  {
    reports := [];
    var sources := PublishOrder.Enumerate(dev.Keys);
    ghost var done: set<string> := {};
    for i := 0 to |sources|
      invariant done == Elements(sources[..i])
      invariant ExactReports(normal, dev, done, reports)
    {
      assert sources[i] !in sources[..i];
      assert sources[..i + 1] == sources[..i] + [sources[i]];
      var more := CheckOne(normal, dev, sources[i]);
      JoinReports(normal, dev, done, reports, sources[i], more);
      reports := reports + more;
      done := done + {sources[i]};
    }
    assert sources[..|sources|] == sources;
    if reports != [] {
      assert Offends(normal, dev, reports[0].source, reports[0].target);
    } else {
      forall a, b
        ensures !Offends(normal, dev, a, b)
      {
        assert Offends(normal, dev, a, b) ==> a in dev.Keys && Reported(reports, a, b);
      }
    }
  }

  // ----- Checks 3 and 4 together -----

  /** A closed walk over both kinds of edge: step `i` goes from `w[i]` to `w[i + 1]`
      and is a dev edge when `devStep[i]`. A crate dev-depending on itself is not a step. */
  ghost predicate ClosedWalk(normal: Graph, dev: Graph, w: seq<string>, devStep: seq<bool>) {
    && |w| == |devStep| + 1 && |devStep| > 0 && w[0] == w[|devStep|]
    && forall i :: 0 <= i < |devStep| ==> MixedStep(normal, dev, w[i], w[i + 1], devStep[i])
  }

  ghost predicate MixedStep(normal: Graph, dev: Graph, a: string, b: string, isDev: bool) {
    if isDev then b in Succ(dev, a) && a != b else b in Succ(normal, a)
  }

  /** At most one of the steps is a dev edge. */
  ghost predicate AtMostOneDev(devStep: seq<bool>) {
    forall i, j :: 0 <= i < j < |devStep| ==> !(devStep[i] && devStep[j])
  }

  ghost predicate LoopWithOneDev(normal: Graph, dev: Graph, w: seq<string>, devStep: seq<bool>) {
    ClosedWalk(normal, dev, w, devStep) && AtMostOneDev(devStep)
  }

  lemma NormalStretch(normal: Graph, dev: Graph, w: seq<string>, devStep: seq<bool>, lo: nat, hi: nat)
    requires ClosedWalk(normal, dev, w, devStep) && lo <= hi <= |devStep|
    requires forall i :: lo <= i < hi ==> !devStep[i]
    ensures Reach(normal, w[lo], w[hi]) && (lo < hi ==> ReachPlus(normal, w[lo], w[hi]))
  {
    var u := w[lo..hi + 1];
    forall i | 0 < i < |u|
      ensures u[i] in Succ(normal, u[i - 1])
    {
      var k := lo + i - 1;
      assert MixedStep(normal, dev, w[k], w[k + 1], devStep[k]);
    }
    assert WalkFromTo(normal, u, w[lo], w[hi]);
  }

  /** Such a loop is a normal cycle, or turns into an offending dev edge once it is
      read from that edge on. */
  lemma LoopIsSeen(normal: Graph, dev: Graph, w: seq<string>, devStep: seq<bool>)
    requires LoopWithOneDev(normal, dev, w, devStep)
    ensures !Acyclic(normal) || exists a, b :: Offends(normal, dev, a, b)
  {
    var m := |devStep|;
    if k :| 0 <= k < m && devStep[k] {
      NormalStretch(normal, dev, w, devStep, k + 1, m);
      NormalStretch(normal, dev, w, devStep, 0, k);
      var a, b := w[k], w[k + 1];
      assert MixedStep(normal, dev, w[k], w[k + 1], devStep[k]);
      ReachTransitive(normal, b, w[0], a);
      assert Offends(normal, dev, a, b);
    } else {
      NormalStretch(normal, dev, w, devStep, 0, m);
      assert OnCycle(normal, w[0]);
    }
  }

  lemma CycleIsLoop(normal: Graph, dev: Graph, n: string)
    requires OnCycle(normal, n)
    ensures exists w, devStep :: LoopWithOneDev(normal, dev, w, devStep)
  {
    var w :| WalkFromTo(normal, w, n, n) && |w| > 1;
    var devStep := seq(|w| - 1, i => false);
    forall i | 0 <= i < |devStep|
      ensures MixedStep(normal, dev, w[i], w[i + 1], devStep[i])
    {
      StepAt(normal, w, i);
    }
    assert LoopWithOneDev(normal, dev, w, devStep);
  }

  lemma OffenceIsLoop(normal: Graph, dev: Graph, a: string, b: string)
    requires Offends(normal, dev, a, b)
    ensures exists w, devStep :: LoopWithOneDev(normal, dev, w, devStep)
  {
    if a == b {
      CycleIsLoop(normal, dev, a);
    } else {
      var u :| WalkFromTo(normal, u, b, a) && |u| > 1;
      var w := [a] + u;
      var devStep := seq(|u|, i => i == 0);
      forall i | 0 <= i < |devStep|
        ensures MixedStep(normal, dev, w[i], w[i + 1], devStep[i])
      {
        if i > 0 {
          assert u[i] in Succ(normal, u[i - 1]);
        }
      }
      assert LoopWithOneDev(normal, dev, w, devStep);
    }
  }

  /** Checks 3 and 4 are both silent exactly when no closed walk uses at most one dev edge. */
  lemma SilentIffNoLoop(normal: Graph, dev: Graph)
    ensures Acyclic(normal) && (forall a, b :: !Offends(normal, dev, a, b))
       <==> forall w, devStep :: !LoopWithOneDev(normal, dev, w, devStep)
  {
    if Acyclic(normal) && forall a, b :: !Offends(normal, dev, a, b) {
      forall w, devStep
        ensures !LoopWithOneDev(normal, dev, w, devStep)
      {
        if LoopWithOneDev(normal, dev, w, devStep) {
          LoopIsSeen(normal, dev, w, devStep);
        }
      }
    } else if !Acyclic(normal) {
      var n :| OnCycle(normal, n);
      CycleIsLoop(normal, dev, n);
    } else {
      var a, b :| Offends(normal, dev, a, b);
      OffenceIsLoop(normal, dev, a, b);
    }
  }

  /** Runs both checks; silence certifies the whole graph. */
  method CheckGraph(normal: Graph, dev: Graph) returns (order: seq<string>, cycleNodes: seq<string>, reports: seq<Report>)
    ensures cycleNodes == [] && reports == []
       <==> forall w, devStep :: !LoopWithOneDev(normal, dev, w, devStep)
    ensures cycleNodes == [] ==> PublishOrder.ValidOrder(normal, order)
  {
    reports := CheckDevCycles(normal, dev);
    order, cycleNodes := PublishOrder.PublishOrder(normal);
    SilentIffNoLoop(normal, dev);
  }
}
