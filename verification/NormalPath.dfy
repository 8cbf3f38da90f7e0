/** Breadth-first recovery of a normal-dependency path, with the `parent` map the
    tool keeps. The order in which neighbours are met is left open. */
module NormalPath {
  import opened Wrappers
  import opened Digraph

  type Parents = map<string, Option<string>>

  /** The search tree: every crate met, except the start, hangs one step below its
      parent. `depth` is the number of steps to the root. */
  ghost predicate Tree(g: Graph, start: string, parent: Parents, depth: map<string, nat>) {
    && parent.Keys == depth.Keys
    && start in parent && parent[start] == None && depth[start] == 0
    && forall x :: x in parent && x != start ==> HangsBelow(g, parent, depth, x)
  }

  ghost predicate HangsBelow(g: Graph, parent: Parents, depth: map<string, nat>, x: string)
    requires x in parent && parent.Keys == depth.Keys
  {
    && parent[x].Some? && parent[x].value in parent
    && x in Succ(g, parent[x].value)
    && depth[x] == depth[parent[x].value] + 1
  }

  /** Everything met and no longer queued has all its neighbours met, at most one
      level further down. */
  ghost predicate Explored(g: Graph, depth: map<string, nat>, open: seq<string>) {
    forall x :: x in depth && x !in open ==> Expanded(g, depth, x, Succ(g, x))
  }

  ghost predicate Expanded(g: Graph, depth: map<string, nat>, x: string, ns: set<string>)
    requires x in depth
  {
    forall y :: y in ns ==> y in depth && depth[y] <= depth[x] + 1
  }

  /** The queue holds met crates in non-decreasing depth, spread over two levels at
      most, and nothing met is deeper than the second of them. */
  ghost predicate Levels(depth: map<string, nat>, queue: seq<string>, level: nat) {
    && (forall x :: x in depth ==> depth[x] <= level + 1)
    && (forall x :: x in queue ==> x in depth && level <= depth[x] <= level + 1)
    && (forall i, j :: 0 <= i < j < |queue| ==> depth[queue[i]] <= depth[queue[j]])
  }

  ghost predicate Shortest(g: Graph, a: string, b: string, path: seq<string>) {
    && WalkFromTo(g, path, a, b)
    && forall w :: WalkFromTo(g, w, a, b) ==> |path| <= |w|
  }

  // ----- The algorithm -----

  /** Meets the neighbours of `node` that are new. */
  method MeetNeighbours(g: Graph, start: string, node: string, parent: Parents, queue: seq<string>,
                        ghost depth: map<string, nat>)
    returns (parent': Parents, queue': seq<string>, ghost depth': map<string, nat>)
    requires Tree(g, start, parent, depth) && node in depth
    requires Levels(depth, queue, depth[node]) && NoDuplicates(queue)
    ensures Tree(g, start, parent', depth')
    ensures Grown(depth, depth', Succ(g, node), queue, queue')
    ensures Levels(depth', queue', depth[node]) && NoDuplicates(queue')
  {
    parent', queue', depth' := parent, queue, depth;
    var rest := Succ(g, node);
    while rest != {}
      invariant rest <= Succ(g, node)
      invariant Tree(g, start, parent', depth')
      invariant Grown(depth, depth', Succ(g, node) - rest, queue, queue')
      invariant Levels(depth', queue', depth[node]) && NoDuplicates(queue')
      decreases rest
    {
      var neighbour :| neighbour in rest;
      if neighbour !in parent' {
        HangOne(g, start, node, parent', depth', neighbour);
        QueueOne(depth', queue', depth[node], neighbour);
        parent' := parent'[neighbour := Some(node)];
        queue' := queue' + [neighbour];
        depth' := depth'[neighbour := depth[node] + 1];
      }
      rest := rest - {neighbour};
    }
  }

  /** Nothing met is forgotten or moved; what is new is exactly `ns` and is queued. */
  ghost predicate Grown(depth: map<string, nat>, depth': map<string, nat>, ns: set<string>,
                        queue: seq<string>, queue': seq<string>) {
    && depth'.Keys == depth.Keys + ns
    && (forall x :: x in depth ==> depth'[x] == depth[x])
    && (forall x :: x in queue' <==> x in queue || x in depth'.Keys - depth.Keys)
  }

  lemma HangOne(g: Graph, start: string, node: string, parent: Parents, depth: map<string, nat>, y: string)
    requires Tree(g, start, parent, depth) && node in depth && y in Succ(g, node) && y !in parent
    ensures Tree(g, start, parent[y := Some(node)], depth[y := depth[node] + 1])
  {
    var parent', depth' := parent[y := Some(node)], depth[y := depth[node] + 1];
    forall x | x in parent' && x != start
      ensures HangsBelow(g, parent', depth', x)
    {
      if x != y {
        assert HangsBelow(g, parent, depth, x);
      }
    }
  }

  lemma QueueOne(depth: map<string, nat>, queue: seq<string>, level: nat, y: string)
    requires Levels(depth, queue, level) && NoDuplicates(queue) && y !in depth
    ensures Levels(depth[y := level + 1], queue + [y], level) && NoDuplicates(queue + [y])
  {
    AppendElement(queue, y);
  }

  /** Follows `parent` back to the start; the depths make this terminate. */
  method WalkBack(g: Graph, start: string, target: string, parent: Parents, ghost depth: map<string, nat>)
    returns (path: seq<string>)
    requires Tree(g, start, parent, depth) && target in parent
    ensures WalkFromTo(g, path, start, target) && |path| == depth[target] + 1
    ensures NoDuplicates(path)
  {
    path := [target];
    var cur := target;
    while parent[cur].Some?
      invariant cur in parent
      invariant WalkFromTo(g, path, cur, target)
      invariant |path| + depth[cur] == depth[target] + 1
      invariant forall i :: 0 <= i < |path| ==> path[i] in depth && depth[path[i]] == depth[cur] + i
      decreases depth[cur]
    {
      assert HangsBelow(g, parent, depth, cur);
      var up := parent[cur].value;
      path := [up] + path;
      cur := up;
    }
  }

  /** `_find_normal_path`: a shortest path, or `None` exactly when there is none. */
  method FindNormalPath(g: Graph, start: string, target: string) returns (path: Option<seq<string>>)
    ensures path == None <==> !Reach(g, start, target)
    ensures path.Some? ==> Shortest(g, start, target, path.value) && NoDuplicates(path.value)
  {
    var parent: Parents := map[start := None];
    var queue := [start];
    ghost var depth: map<string, nat> := map[start := 0];
    while queue != []
      invariant Tree(g, start, parent, depth) && Frontier(g, depth, queue)
      invariant depth.Keys <= Nodes(g) + {start} && target !in depth.Keys - Elements(queue)
      decreases (Nodes(g) + {start}) - (depth.Keys - Elements(queue))
    {
      var node := queue[0];
      if node == target {
        var found := WalkBack(g, start, target, parent, depth);
        FoundIsShortest(g, start, depth, queue, found);
        return Some(found);
      }
      HeadLeaves(g, depth, queue);
      ghost var before, waiting := depth, queue;
      parent, queue, depth := MeetNeighbours(g, start, node, parent, queue[1..], depth);
      NeighboursMet(g, before, waiting, depth, queue);
    }
    NothingReached(g, start, target, depth);
    return None;
  }

  // ----- Why it is right -----

  ghost predicate Frontier(g: Graph, depth: map<string, nat>, queue: seq<string>) {
    && Explored(g, depth, queue) && NoDuplicates(queue)
    && (forall x :: x in queue ==> x in depth)
    && (queue != [] ==> queue[0] in depth && Levels(depth, queue, depth[queue[0]]))
  }

  lemma HeadLeaves(g: Graph, depth: map<string, nat>, queue: seq<string>)
    requires Frontier(g, depth, queue) && queue != []
    ensures Levels(depth, queue[1..], depth[queue[0]]) && NoDuplicates(queue[1..]) && queue[0] !in queue[1..]
    ensures forall x :: x in queue <==> x == queue[0] || x in queue[1..]
  {
    assert queue == [queue[0]] + queue[1..];
    SplitNoDuplicates([queue[0]], queue[1..]);
  }

  /** One turn of the loop: the head is explored, and leaves the unexplored crates. */
  lemma NeighboursMet(g: Graph, depth: map<string, nat>, queue: seq<string>, depth': map<string, nat>, queue': seq<string>)
    requires Frontier(g, depth, queue) && queue != []
    requires Grown(depth, depth', Succ(g, queue[0]), queue[1..], queue')
    requires Levels(depth', queue', depth[queue[0]]) && NoDuplicates(queue')
    ensures Frontier(g, depth', queue')
    ensures depth'.Keys - Elements(queue') == (depth.Keys - Elements(queue)) + {queue[0]}
    ensures queue[0] !in depth.Keys - Elements(queue)
  {
    HeadLeaves(g, depth, queue);
    forall x | x in depth' && x !in queue'
      ensures Expanded(g, depth', x, Succ(g, x))
    {
      if x != queue[0] {
        assert Expanded(g, depth, x, Succ(g, x));
      }
    }
  }

  /** Any walk shorter than the depth of the queue's head ends in a crate already
      met, at no greater depth than the walk is long. */
  lemma {:induction false} NoShortcut(g: Graph, start: string, depth: map<string, nat>, queue: seq<string>, w: seq<string>)
    requires start in depth && depth[start] == 0
    requires Explored(g, depth, queue) && queue != []
    requires queue[0] in depth && forall x :: x in queue ==> x in depth && depth[queue[0]] <= depth[x]
    requires Walk(g, w) && w[0] == start
    ensures |w| - 1 >= depth[queue[0]] || (w[|w| - 1] in depth && depth[w[|w| - 1]] <= |w| - 1)
    decreases |w|
  {
    if |w| <= 1 {
    } else {
      DropLast(g, w);
      NoShortcut(g, start, depth, queue, w[..|w| - 1]);
      var y := w[|w| - 2];
      if |w| - 1 < depth[queue[0]] {
        assert Expanded(g, depth, y, Succ(g, y));
      }
    }
  }

  lemma FoundIsShortest(g: Graph, start: string, depth: map<string, nat>, queue: seq<string>, found: seq<string>)
    requires start in depth && depth[start] == 0 && Frontier(g, depth, queue) && queue != []
    requires WalkFromTo(g, found, start, queue[0]) && |found| == depth[queue[0]] + 1
    ensures Shortest(g, start, queue[0], found) && Reach(g, start, queue[0])
  {
    forall w | WalkFromTo(g, w, start, queue[0])
      ensures |found| <= |w|
    {
      NoShortcut(g, start, depth, queue, w);
    }
  }

  lemma {:induction false} WalkStaysMet(g: Graph, depth: map<string, nat>, w: seq<string>)
    requires Explored(g, depth, []) && Walk(g, w) && w[0] in depth
    ensures w[|w| - 1] in depth
    decreases |w|
  {
    if |w| <= 1 {
    } else {
      DropLast(g, w);
      WalkStaysMet(g, depth, w[..|w| - 1]);
      assert Expanded(g, depth, w[|w| - 2], Succ(g, w[|w| - 2]));
    }
  }

  lemma NothingReached(g: Graph, start: string, target: string, depth: map<string, nat>)
    requires start in depth && Explored(g, depth, []) && target !in depth
    ensures !Reach(g, start, target)
  {
    if Reach(g, start, target) {
      var w :| WalkFromTo(g, w, start, target);
      WalkStaysMet(g, depth, w);
    }
  }
}
