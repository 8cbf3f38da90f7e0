/** Finite directed graphs over crate names, and the walks through them.
    An edge `a -> b` reads "a depends on b". */
module Digraph {

  /** Adjacency as the tools keep it: a crate without an entry has no dependencies. */
  type Graph = map<string, set<string>>

  function Succ(g: Graph, n: string): set<string> {
    if n in g then g[n] else {}
  }

  /** Every crate that has an entry or is named as a dependency. */
  function Nodes(g: Graph): set<string> {
    g.Keys + (set k, d | k in g && d in g[k] :: d)
  }

  /** The crates that depend directly on `d`. */
  function Dependents(g: Graph, d: string): set<string> {
    set k | k in g && d in g[k]
  }

  /** A non-empty sequence of nodes joined by edges; `|w| - 1` is its length. */
  ghost predicate Walk(g: Graph, w: seq<string>) {
    |w| > 0 && forall i :: 0 < i < |w| ==> w[i] in Succ(g, w[i - 1])
  }

  ghost predicate WalkFromTo(g: Graph, w: seq<string>, a: string, b: string) {
    Walk(g, w) && w[0] == a && w[|w| - 1] == b
  }

  /** `b` is reachable from `a`, possibly without taking a step. */
  ghost predicate Reach(g: Graph, a: string, b: string) {
    exists w :: WalkFromTo(g, w, a, b)
  }

  /** `b` is reachable from `a` in at least one step. */
  ghost predicate ReachPlus(g: Graph, a: string, b: string) {
    exists w :: WalkFromTo(g, w, a, b) && |w| > 1
  }

  ghost predicate OnCycle(g: Graph, n: string) {
    ReachPlus(g, n, n)
  }

  ghost predicate Acyclic(g: Graph) {
    forall n :: !OnCycle(g, n)
  }

  ghost predicate NoDuplicates<T>(s: seq<T>) {
    forall i, j :: 0 <= i < j < |s| ==> s[i] != s[j]
  }

  ghost function Elements<T>(s: seq<T>): set<T> {
    set x | x in s
  }

  lemma EdgeReaches(g: Graph, a: string, b: string)
    requires b in Succ(g, a)
    ensures ReachPlus(g, a, b)
  {
    assert WalkFromTo(g, [a, b], a, b);
  }

  lemma ReachSelf(g: Graph, a: string)
    ensures Reach(g, a, a)
  {
    assert WalkFromTo(g, [a], a, a);
  }

  lemma JoinWalks(g: Graph, w: seq<string>, v: seq<string>, a: string, b: string, c: string)
    requires WalkFromTo(g, w, a, b) && WalkFromTo(g, v, b, c)
    ensures WalkFromTo(g, w + v[1..], a, c)
    ensures |w + v[1..]| == |w| + |v| - 1
  {
    var u := w + v[1..];
    forall i | 0 < i < |u|
      ensures u[i] in Succ(g, u[i - 1])
    {
      if i > |w| {
        assert u[i] == v[i - |w| + 1] && u[i - 1] == v[i - |w|];
      } else if i == |w| {
        assert u[i] == v[1] && u[i - 1] == v[0];
      }
    }
  }

  lemma SubWalk(g: Graph, w: seq<string>, lo: nat, hi: nat)
    requires Walk(g, w) && lo <= hi < |w|
    ensures WalkFromTo(g, w[lo..hi + 1], w[lo], w[hi])
  {
    var u := w[lo..hi + 1];
    forall i | 0 < i < |u|
      ensures u[i] in Succ(g, u[i - 1])
    {
      assert u[i] == w[lo + i] && u[i - 1] == w[lo + i - 1];
    }
  }

  lemma StepAt(g: Graph, w: seq<string>, i: nat)
    requires Walk(g, w) && i + 1 < |w|
    ensures w[i + 1] in Succ(g, w[i])
  {
    var j := i + 1;
    assert w[j] in Succ(g, w[j - 1]);
  }

  lemma DropFirst(g: Graph, w: seq<string>)
    requires Walk(g, w) && |w| > 1
    ensures w[1] in Succ(g, w[0])
    ensures WalkFromTo(g, w[1..], w[1], w[|w| - 1])
  {
    StepAt(g, w, 0);
    SubWalk(g, w, 1, |w| - 1);
    assert w[1..|w|] == w[1..];
  }

  lemma DropLast(g: Graph, w: seq<string>)
    requires Walk(g, w) && |w| > 1
    ensures w[|w| - 1] in Succ(g, w[|w| - 2])
    ensures WalkFromTo(g, w[..|w| - 1], w[0], w[|w| - 2])
  {
    StepAt(g, w, |w| - 2);
    SubWalk(g, w, 0, |w| - 2);
    assert w[0..|w| - 1] == w[..|w| - 1];
  }

  lemma ReachTransitive(g: Graph, a: string, b: string, c: string)
    requires Reach(g, a, b) && Reach(g, b, c)
    ensures Reach(g, a, c)
    ensures ReachPlus(g, a, b) || ReachPlus(g, b, c) ==> ReachPlus(g, a, c)
  {
    var w :| WalkFromTo(g, w, a, b) && (ReachPlus(g, a, b) ==> |w| > 1);
    var v :| WalkFromTo(g, v, b, c) && (ReachPlus(g, b, c) ==> |v| > 1);
    JoinWalks(g, w, v, a, b, c);
  }

  /** The first step of a non-trivial walk. */
  lemma FirstStep(g: Graph, a: string, b: string) returns (x: string)
    requires ReachPlus(g, a, b)
    ensures x in Succ(g, a) && Reach(g, x, b)
    ensures x == b || ReachPlus(g, x, b)
  {
    var w :| WalkFromTo(g, w, a, b) && |w| > 1;
    x := w[1];
    DropFirst(g, w);
    assert |w[1..]| > 1 || x == b;
  }

  /** A non-empty step followed by reachability is a non-empty walk. */
  lemma StepThenReach(g: Graph, a: string, x: string, b: string)
    requires x in Succ(g, a) && Reach(g, x, b)
    ensures ReachPlus(g, a, b)
  {
    EdgeReaches(g, a, x);
    assert Reach(g, a, x);
    ReachTransitive(g, a, x, b);
  }

  lemma WalkEndsAreNodes(g: Graph, w: seq<string>, i: nat)
    requires Walk(g, w) && |w| > 1 && i < |w|
    ensures w[i] in Nodes(g)
  {
    if i > 0 {
      StepAt(g, w, i - 1);
    } else {
      StepAt(g, w, 0);
    }
  }

  lemma AppendElement<T>(s: seq<T>, x: T)
    ensures Elements(s + [x]) == Elements(s) + {x}
    ensures NoDuplicates(s) && x !in s ==> NoDuplicates(s + [x])
  {
  }

  lemma AppendNoDuplicates<T>(s: seq<T>, t: seq<T>)
    requires NoDuplicates(s) && NoDuplicates(t) && forall x :: x in t ==> x !in s
    ensures NoDuplicates(s + t)
  {
    var u := s + t;
    forall i, j | 0 <= i < j < |u|
      ensures u[i] != u[j]
    {
      if i < |s| <= j {
        assert u[j] in t && u[i] in s;
      }
    }
  }

  lemma SplitNoDuplicates<T>(s: seq<T>, t: seq<T>)
    requires NoDuplicates(s + t)
    ensures NoDuplicates(s) && NoDuplicates(t) && forall x :: x in t ==> x !in s
  {
    var u := s + t;
    assert forall i :: 0 <= i < |s| ==> u[i] == s[i];
    assert forall i :: 0 <= i < |t| ==> u[|s| + i] == t[i];
  }

  /** Cardinality of a duplicate-free sequence. */
  lemma {:induction false} NoDuplicatesSize<T>(s: seq<T>)
    requires NoDuplicates(s)
    ensures |Elements(s)| == |s|
  {
    if s == [] {
    } else {
      var t, last := s[..|s| - 1], s[|s| - 1];
      NoDuplicatesSize(t);
      AppendElement(t, last);
      assert s == t + [last] && last !in t;
    }
  }

  /** A sequence longer than a set it lives in repeats an element. */
  lemma Pigeonhole(s: seq<string>, box: set<string>) returns (i: nat, j: nat)
    requires forall x :: x in s ==> x in box
    requires |s| > |box|
    ensures i < j < |s| && s[i] == s[j]
  {
    if NoDuplicates(s) {
      NoDuplicatesSize(s);
      SubsetSize(Elements(s), box);
      assert false;
    }
    i, j :| i < j < |s| && s[i] == s[j];
  }

  lemma {:induction false} SubsetSize<T>(a: set<T>, b: set<T>)
    requires a <= b
    ensures |a| <= |b|
    ensures |a| == |b| ==> a == b
  {
    if a != {} {
      var x :| x in a;
      SubsetSize(a - {x}, b - {x});
    } else if b != {} {
      var y :| y in b;
      assert |b| == |b - {y}| + 1;
    }
  }
}
