/** For which requirements the emitted publish order is safe, whatever their kind. Only
    normal edges shape the order; build and dev requirements ride along. */
module OrderSafety {
  import opened Wrappers
  import opened Digraph
  import opened Versions
  import opened Workspace
  import opened PublishOrder
  import opened Wave

  ghost predicate RecordedAs(ws: Members, n: string, s: string, kind: Kind) {
    Recorded(ws, n, s).Some? && Recorded(ws, n, s).value.kind == kind
  }

  ghost function ReqOf(ws: Members, n: string, s: string): Req
    requires Recorded(ws, n, s).Some?
  {
    Recorded(ws, n, s).value.req
  }

  // ----- One order -----

  /** Whatever an in-wave crate requires is published already or comes before it. */
  ghost predicate Served(ws: Members, ix: Index, order: seq<string>, kind: Kind) {
    forall i, s :: 0 <= i < |order| && InWave(ws, ix, order[i]) && RecordedAs(ws, order[i], s, kind)
      ==> Published(ix, s, ReqOf(ws, order[i], s)) || s in order[..i]
  }

  /** What a requirement finds when the crates of `names` have had their turn. */
  lemma PublishedAfterIff(ws: Members, ix: Index, names: seq<string>, s: string, r: Req)
    requires s in ws && VerdictOf(ws, ix, s, r) != Unpublishable
    ensures Published(Run(ws, ix, names), s, r) <==> ReqToken(r).Some? && (Published(ix, s, r) || s in names)
  {
    if ReqToken(r) == None {
      forall v: Version
        ensures !Admits(r, v.nums)
      {
        NoTokenAdmitsNothing(r, v.nums);
      }
    } else if Published(ix, s, r) {
      PublishedGrows(ws, ix, names, s, r);
    } else if s in names {
      PublishedInTree(ws, ix, names, s, r);
    } else {
      RunOnCrate(ws, ix, names, s);
    }
  }

  /** With nothing unpublishable, an order that offers every in-wave crate is safe for a
      kind of requirement exactly when each of them names a version and is served. */
  lemma SafeWaveIff(ws: Members, ix: Index, order: seq<string>, kind: Kind)
    requires NoneUnpublishable(ws, ix, kind) && forall n :: InWave(ws, ix, n) ==> n in order
    ensures SafeWave(ws, ix, order, kind) <==> TokensPresent(ws, ix, kind) && Served(ws, ix, order, kind)
  {
    if TokensPresent(ws, ix, kind) && Served(ws, ix, order, kind) {
      ServedMeansSafe(ws, ix, order, kind);
    }
    if SafeWave(ws, ix, order, kind) {
      SafeMeansServed(ws, ix, order, kind);
    }
  }

  lemma ServedMeansSafe(ws: Members, ix: Index, order: seq<string>, kind: Kind)
    requires NoneUnpublishable(ws, ix, kind) && TokensPresent(ws, ix, kind) && Served(ws, ix, order, kind)
    ensures SafeWave(ws, ix, order, kind)
  {
    forall i | 0 <= i < |order| && InWave(ws, ix, order[i])
      ensures Ready(ws, Run(ws, ix, order[..i]), order[i], kind)
    {
      forall s | RecordedAs(ws, order[i], s, kind)
        ensures Published(Run(ws, ix, order[..i]), s, Recorded(ws, order[i], s).value.req)
      {
        PublishedAfterIff(ws, ix, order[..i], s, ReqOf(ws, order[i], s));
      }
    }
  }

  lemma SafeMeansServed(ws: Members, ix: Index, order: seq<string>, kind: Kind)
    requires NoneUnpublishable(ws, ix, kind) && forall n :: InWave(ws, ix, n) ==> n in order
    requires SafeWave(ws, ix, order, kind)
    ensures TokensPresent(ws, ix, kind) && Served(ws, ix, order, kind)
  {
    forall i, s | 0 <= i < |order| && InWave(ws, ix, order[i]) && RecordedAs(ws, order[i], s, kind)
      ensures ReqToken(ReqOf(ws, order[i], s)).Some?
      ensures Published(ix, s, ReqOf(ws, order[i], s)) || s in order[..i]
    {
      assert Ready(ws, Run(ws, ix, order[..i]), order[i], kind);
      PublishedAfterIff(ws, ix, order[..i], s, ReqOf(ws, order[i], s));
    }
    forall n, s | InWave(ws, ix, n) && RecordedAs(ws, n, s, kind)
      ensures ReqToken(ReqOf(ws, n, s)).Some?
    {
      var i :| 0 <= i < |order| && order[i] == n;
      assert InWave(ws, ix, order[i]) && RecordedAs(ws, order[i], s, kind);
    }
  }

  // ----- Every order -----

  /** Every requirement that nothing published meets yet is also a normal dependency,
      direct or not. This can be read off the manifests and the index. */
  ghost predicate Anchored(ws: Members, ix: Index, kind: Kind) {
    forall n, s :: InWave(ws, ix, n) && RecordedAs(ws, n, s, kind) && !Published(ix, s, ReqOf(ws, n, s))
      ==> ReachPlus(NormalMap(ws), n, s)
  }

  lemma {:induction false} ReachedComesFirst(g: Graph, order: seq<string>, w: seq<string>, i: nat)
    requires DependenciesFirst(g, order) && Walk(g, w) && i < |order| && order[i] == w[0]
    ensures |w| > 1 ==> w[|w| - 1] in order[..i]
    decreases |w|
  {
    if |w| <= 1 {
    } else {
      DropFirst(g, w);
      assert w[1] in Elements(order[..i]);
      var j :| 0 <= j < i && order[j] == w[1];
      ReachedComesFirst(g, order, w[1..], j);
    }
  }

  /** Only an acyclic graph has a valid order. */
  lemma OrderedIsAcyclic(g: Graph, order: seq<string>)
    requires ValidOrder(g, order)
    ensures Acyclic(g)
  {
    forall n
      ensures !OnCycle(g, n)
    {
      if OnCycle(g, n) {
        var w :| WalkFromTo(g, w, n, n) && |w| > 1;
        CycleNodeIsNode(g, n);
        assert n in Elements(order);
        var i :| 0 <= i < |order| && order[i] == n;
        ReachedComesFirst(g, order, w, i);
      }
    }
  }

  lemma AnchoredIsServed(ws: Members, ix: Index, order: seq<string>, kind: Kind)
    requires Anchored(ws, ix, kind) && ValidOrder(NormalMap(ws), order)
    ensures Served(ws, ix, order, kind)
  {
    forall i, s | 0 <= i < |order| && InWave(ws, ix, order[i]) && RecordedAs(ws, order[i], s, kind)
                && !Published(ix, s, ReqOf(ws, order[i], s))
      ensures s in order[..i]
    {
      var w :| WalkFromTo(NormalMap(ws), w, order[i], s) && |w| > 1;
      ReachedComesFirst(NormalMap(ws), order, w, i);
    }
  }

  // ----- An order that puts one crate as early as it can go -----

  /** The crates of `order` inside, or outside, a set, order kept. */
  ghost function Pick(order: seq<string>, c: set<string>, inside: bool): seq<string> {
    if order == [] then []
    else
      var before, last := Pick(order[..|order| - 1], c, inside), order[|order| - 1];
      if (last in c) == inside then before + [last] else before
  }

  lemma {:induction false} PickElements(order: seq<string>, c: set<string>, inside: bool)
    requires NoDuplicates(order)
    ensures NoDuplicates(Pick(order, c, inside))
    ensures forall x :: x in Pick(order, c, inside) <==> x in order && (x in c) == inside
  {
    if order == [] {
    } else {
      var before, last := order[..|order| - 1], order[|order| - 1];
      PickElements(before, c, inside);
      assert order == before + [last] && last !in before;
      AppendElement(Pick(before, c, inside), last);
    }
  }

  lemma DependenciesAppend(g: Graph, order: seq<string>, x: string)
    ensures DependenciesFirst(g, order + [x]) <==> DependenciesFirst(g, order) && Succ(g, x) <= Elements(order)
  {
    var next := order + [x];
    assert forall i :: 0 <= i <= |order| ==> next[..i] == order[..i];
    assert next[|order|] == x && order[..|order|] == order;
    assert forall i :: 0 <= i < |order| ==> next[i] == order[i];
  }

  lemma {:induction false} FrontKeepsOrder(g: Graph, order: seq<string>, c: set<string>)
    requires DependenciesFirst(g, order) && NoDuplicates(order)
    requires forall x :: x in c ==> Succ(g, x) <= c
    ensures DependenciesFirst(g, Pick(order, c, true))
  {
    if order == [] {
    } else {
      var before, last := order[..|order| - 1], order[|order| - 1];
      assert order == before + [last];
      DependenciesAppend(g, before, last);
      FrontKeepsOrder(g, before, c);
      PickElements(before, c, true);
      DependenciesAppend(g, Pick(before, c, true), last);
    }
  }

  lemma {:induction false} BackKeepsOrder(g: Graph, order: seq<string>, c: set<string>, front: seq<string>)
    requires DependenciesFirst(g, order) && NoDuplicates(order) && DependenciesFirst(g, front)
    requires forall x :: x in order && x in c ==> x in front
    ensures DependenciesFirst(g, front + Pick(order, c, false))
  {
    if order == [] {
      assert front + [] == front;
    } else {
      var before, last := order[..|order| - 1], order[|order| - 1];
      assert order == before + [last];
      DependenciesAppend(g, before, last);
      BackKeepsOrder(g, before, c, front);
      PickElements(before, c, false);
      var sofar := front + Pick(before, c, false);
      DependenciesAppend(g, sofar, last);
      assert front + (Pick(before, c, false) + [last]) == sofar + [last];
    }
  }

  /** Moving a set that contains its own dependencies to the front gives another valid order. */
  lemma FrontedIsValid(g: Graph, order: seq<string>, c: set<string>)
    requires ValidOrder(g, order) && forall x :: x in c ==> Succ(g, x) <= c
    ensures ValidOrder(g, Pick(order, c, true) + Pick(order, c, false))
  {
    var front, back := Pick(order, c, true), Pick(order, c, false);
    PickElements(order, c, true);
    PickElements(order, c, false);
    AppendNoDuplicates(front, back);
    FrontKeepsOrder(g, order, c);
    BackKeepsOrder(g, order, c, front);
    assert Elements(front + back) == Elements(order);
  }

  ghost function Closure(g: Graph, n: string): set<string> {
    set x | x in Nodes(g) && Reach(g, n, x)
  }

  lemma ClosureIsClosed(g: Graph, n: string, x: string)
    requires x in Closure(g, n)
    ensures Succ(g, x) <= Closure(g, n)
  {
    forall y | y in Succ(g, x)
      ensures y in Closure(g, n)
    {
      EdgeReaches(g, x, y);
      assert Reach(g, x, y);
      ReachTransitive(g, n, x, y);
    }
  }

  /** A crate that `n` does not depend on can be kept out of the crates before `n`. */
  lemma LateOrder(g: Graph, order: seq<string>, n: string, s: string) returns (late: seq<string>, i: nat)
    requires ValidOrder(g, order) && n in order && !ReachPlus(g, n, s)
    ensures ValidOrder(g, late) && i < |late| && late[i] == n && s !in late[..i]
  {
    var c := Closure(g, n);
    forall x | x in c
      ensures Succ(g, x) <= c
    {
      ClosureIsClosed(g, n, x);
    }
    FrontedIsValid(g, order, c);
    PickElements(order, c, true);
    late := Pick(order, c, true) + Pick(order, c, false);
    ReachSelf(g, n);
    assert n in Elements(order) && n in c;
    i :| 0 <= i < |Pick(order, c, true)| && Pick(order, c, true)[i] == n;
    assert forall x :: x in late[..i] ==> x in Pick(order, c, true);
  }

  /** Every valid publish order is safe for a kind of requirement exactly when each of them
      names a version and each one not met yet is also a normal dependency. */
  lemma EveryOrderSafeIff(ws: Members, ix: Index, order: seq<string>, kind: Kind)
    requires NoneUnpublishable(ws, ix, kind) && ValidOrder(NormalMap(ws), order)
    ensures (forall o :: ValidOrder(NormalMap(ws), o) ==> SafeWave(ws, ix, o, kind))
       <==> TokensPresent(ws, ix, kind) && Anchored(ws, ix, kind)
  {
    var g := NormalMap(ws);
    forall o | ValidOrder(g, o)
      ensures SafeWave(ws, ix, o, kind) <==> TokensPresent(ws, ix, kind) && Served(ws, ix, o, kind)
      ensures Anchored(ws, ix, kind) ==> Served(ws, ix, o, kind)
    {
      forall n | InWave(ws, ix, n)
        ensures n in o
      {
        MemberIsOrdered(ws, o, n);
      }
      SafeWaveIff(ws, ix, o, kind);
      if Anchored(ws, ix, kind) {
        AnchoredIsServed(ws, ix, o, kind);
      }
    }
    if !Anchored(ws, ix, kind) {
      var n, s :| InWave(ws, ix, n) && RecordedAs(ws, n, s, kind) && !Published(ix, s, ReqOf(ws, n, s)) && !ReachPlus(g, n, s);
      MemberIsOrdered(ws, order, n);
      var late, i := LateOrder(g, order, n, s);
      assert !Served(ws, ix, late, kind);
    }
  }

  /** Normal requirements are always anchored, so for them tokens are all it takes. */
  lemma NormalIsAnchored(ws: Members, ix: Index)
    ensures Anchored(ws, ix, Normal)
  {
    forall n, s | RecordedAs(ws, n, s, Normal)
      ensures ReachPlus(NormalMap(ws), n, s)
    {
      RecordedNormalIsEdge(ws, n, s);
      EdgeReaches(NormalMap(ws), n, s);
    }
  }
}
