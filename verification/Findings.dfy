/** Stale published requirements, their three classes, and what a release wave does to them. */
module Findings {
  import opened Wrappers
  import opened Digraph
  import opened Versions
  import opened Workspace
  import opened PublishOrder
  import opened Wave

  /** A requirement on a member whose epoch the member has left behind. */
  predicate Stale(ws: Members, d: Dep) {
    d.name in ws && ReqEpoch(d.req).Some? && EpochLess(ReqEpoch(d.req).value, CompatEpoch(ws[d.name].version.nums))
  }

  /** It is stale when everything its caret range admits is older than the member. */
  lemma StaleIff(ws: Members, d: Dep)
    ensures Stale(ws, d) <==>
      && d.name in ws && ReqToken(d.req).Some?
      && forall v: seq<nat> :: Admits(Caret(ReqToken(d.req).value), v) ==> Compare(v, ws[d.name].version.nums) < 0
  {
    if d.name in ws && ReqToken(d.req).Some? {
      var t, current := ReqToken(d.req).value, ws[d.name].version.nums;
      CompareOrder(t, current, t);
      CompareOrder(current, t, current);
      EpochLessIff(t, current);
      assert Admits(Caret(t), t);
      assert Compare(current, t) >= 0 && CompatEpoch(t) == CompatEpoch(current) ==> Admits(Caret(t), current);
      forall v: seq<nat> | Admits(Caret(t), v)
        ensures Stale(ws, d) ==> Compare(v, current) < 0
      {
        CompareOrder(v, current, v);
        EpochLessIff(v, current);
      }
    }
  }

  /** The latest published manifest of `n` carries the stale entry `d`. */
  predicate Finding(ws: Members, ix: Index, n: string, d: Dep) {
    n in ws && Lookup(ix, n).latest.Max? && d in Lookup(ix, n).manifest && Stale(ws, d)
  }

  /** There is a finding of this kind about `n` and `s`. */
  ghost predicate Found(ws: Members, ix: Index, n: string, s: string, kind: Kind) {
    exists d :: Finding(ws, ix, n, d) && d.name == s && d.kind == kind
  }

  datatype Class = StaleDev | Pending | Blocking

  /** `classify` */
  function Classify(latest: Version, inTree: Version, inTreeReq: Option<Req>, kind: Kind,
                    sibling: Version, devResolvable: bool): Class {
    if kind == Dev && devResolvable then StaleDev
    else if inTreeReq == None then Pending
    else if ReqEpoch(inTreeReq.value).Some? && EpochLess(ReqEpoch(inTreeReq.value).value, CompatEpoch(sibling.nums)) then Blocking
    else if Compare(inTree.nums, latest.nums) > 0 then Pending
    else Blocking
  }

  function ClassOf(ws: Members, ix: Index, n: string, d: Dep, devResolvable: bool): Class
    requires Finding(ws, ix, n, d)
  {
    Classify(Lookup(ix, n).latest.version, ws[n].version, InTreeReq(ws, n, d.name, d.kind), d.kind,
             ws[d.name].version, devResolvable)
  }

  // ----- The loop -----

  /** The class of a finding, with the resolvability of its range looked up. */
  ghost function ClassNow(ws: Members, ix: Index, n: string, d: Dep): Class
    requires Finding(ws, ix, n, d)
  {
    ClassOf(ws, ix, n, d, d.kind == Dev && CountsAsPublished(ix, d.name, d.req))
  }

  /** One published entry, taken through the branches of the loop. */
  method Judge(ws: Members, rec: Recording, ix: Index, n: string, d: Dep) returns (verdict: Option<Class>)
    requires Records(ws, rec, ws.Keys) && n in ws && Lookup(ix, n).latest.Max? && d in Lookup(ix, n).manifest
    ensures verdict == if Finding(ws, ix, n, d) then Some(ClassNow(ws, ix, n, d)) else None
  {
    if d.name !in ws {
      return None;
    }
    var published, current := ReqEpoch(d.req), CompatEpoch(ws[d.name].version.nums);
    if published == None || !EpochLess(published.value, current) {
      return None;
    }
    var inTree := FindReq(ws, rec, n, d.name, d.kind);
    var resolvable := false;
    if d.kind == Dev {
      resolvable := AnyPublished(ix, d.name, d.req);
    }
    return Some(Classify(Lookup(ix, n).latest.version, ws[n].version, inTree, d.kind, ws[d.name].version, resolvable));
  }

  ghost predicate Blocks(ws: Members, ix: Index, n: string, d: Dep) {
    Finding(ws, ix, n, d) && ClassNow(ws, ix, n, d) == Blocking
  }

  /** The blocking findings about one crate. */
  method BlockingOf(ws: Members, rec: Recording, ix: Index, n: string) returns (blocking: seq<Dep>)
    requires Records(ws, rec, ws.Keys) && n in ws
    ensures forall d :: d in blocking <==> Blocks(ws, ix, n, d)
  {
    blocking := [];
    if !Lookup(ix, n).latest.Max? {
      return;
    }
    var manifest := Lookup(ix, n).manifest;
    for i := 0 to |manifest|
      invariant forall d :: d in blocking <==> d in manifest[..i] && Blocks(ws, ix, n, d)
    {
      var d := manifest[i];
      assert manifest[..i + 1] == manifest[..i] + [d];
      var verdict := Judge(ws, rec, ix, n, d);
      if verdict == Some(Blocking) {
        blocking := blocking + [d];
      }
    }
    assert manifest[..|manifest|] == manifest;
  }

  /** The first loop of `main`, as far as it blocks: every member, every published entry. */
  method AnyBlocking(ws: Members, rec: Recording, ix: Index) returns (b: bool)
    requires Records(ws, rec, ws.Keys)
    ensures b <==> exists n, d :: Blocks(ws, ix, n, d)
  {
    var rest := ws.Keys;
    while rest != {}
      invariant rest <= ws.Keys && forall n, d :: n in ws.Keys - rest ==> !Blocks(ws, ix, n, d)
      decreases rest
    {
      var n :| n in rest;
      var blocking := BlockingOf(ws, rec, ix, n);
      if blocking != [] {
        assert blocking[0] in blocking;
        return true;
      }
      rest := rest - {n};
    }
    return false;
  }

  // ----- Pending -----

  /** No in-tree entry of this kind on `s`, other than the one recorded, is stale. */
  ghost predicate NoStaleDuplicate(ws: Members, n: string, s: string, kind: Kind)
    requires n in ws
  {
    forall e :: e in ws[n].deps && e.name == s && e.kind == kind && Recorded(ws, n, s) != Some(e) ==> !Stale(ws, e)
  }

  /** After `n` is published, the findings about it are the stale in-tree entries. */
  lemma FoundAfterPublish(ws: Members, ix: Index, names: seq<string>, n: string, s: string, kind: Kind)
    requires n in names && InWave(ws, ix, n)
    ensures Found(ws, Run(ws, ix, names), n, s, kind)
       <==> exists e :: e in ws[n].deps && e.name == s && e.kind == kind && Stale(ws, e)
  {
    RunOnCrate(ws, ix, names, n);
    if e :| e in ws[n].deps && e.name == s && e.kind == kind && Stale(ws, e) {
      assert Finding(ws, Run(ws, ix, names), n, e);
    }
  }

  /** Offered its turn in any run, a pending finding is gone exactly when its crate has
      something to publish and the in-tree manifest holds no stale duplicate that the
      recording hides. */
  lemma PendingHeals(ws: Members, ix: Index, names: seq<string>, n: string, d: Dep, devResolvable: bool)
    requires Finding(ws, ix, n, d) && ClassOf(ws, ix, n, d, devResolvable) == Pending && n in names
    ensures !Found(ws, Run(ws, ix, names), n, d.name, d.kind)
       <==> InWave(ws, ix, n) && NoStaleDuplicate(ws, n, d.name, d.kind)
  {
    if InWave(ws, ix, n) {
      FoundAfterPublish(ws, ix, names, n, d.name, d.kind);
    } else {
      UnpublishedStays(ws, ix, names, n, d);
    }
  }

  /** A manifest that lists the sibling once per crate has no such duplicate. */
  lemma ListedOnceHasNoDuplicate(ws: Members, n: string, s: string, kind: Kind)
    requires n in ws && s in ws
    requires forall e, f :: e in ws[n].deps && f in ws[n].deps && e.name == s && f.name == s ==> e == f
    ensures NoStaleDuplicate(ws, n, s, kind)
  {
    LastEntryIsListed(ws[n].deps, s);
  }

  lemma UnpublishedStays(ws: Members, ix: Index, names: seq<string>, n: string, d: Dep)
    requires Finding(ws, ix, n, d) && !(n in names && InWave(ws, ix, n))
    ensures Found(ws, Run(ws, ix, names), n, d.name, d.kind)
  {
    RunOnCrate(ws, ix, names, n);
    assert Finding(ws, Run(ws, ix, names), n, d);
  }

  // ----- Blocking -----

  /** There is a finding of this kind about `n` and `s` that is not pending: it blocks, or
      it is a dev entry whose range resolves. */
  ghost predicate StillHeld(ws: Members, ix: Index, n: string, s: string, kind: Kind) {
    exists e :: Finding(ws, ix, n, e) && e.name == s && e.kind == kind
             && (ClassNow(ws, ix, n, e) == Blocking || (kind == Dev && ClassNow(ws, ix, n, e) == StaleDev))
  }

  /** A blocking finding outlives any run whatsoever, and never turns pending: it still
      blocks, unless it is a dev entry whose range the run made resolvable. */
  lemma BlockingStays(ws: Members, ix: Index, names: seq<string>, n: string, d: Dep, devResolvable: bool)
    requires Finding(ws, ix, n, d) && ClassOf(ws, ix, n, d, devResolvable) == Blocking
    ensures StillHeld(ws, Run(ws, ix, names), n, d.name, d.kind)
  {
    RunOnCrate(ws, ix, names, n);
    if n in names && InWave(ws, ix, n) {
      LastEntryIsListed(ws[n].deps, d.name);
      var e := Recorded(ws, n, d.name).value;
      var version := ws[n].version.nums;
      CompareOrder(version, version, version);
      assert Finding(ws, Run(ws, ix, names), n, e);
    } else {
      assert Finding(ws, Run(ws, ix, names), n, d);
    }
  }

  // ----- Where the guarantees end -----

  const ONE := Version([1, 0, 0], "")
  const TWO := Version([2, 0, 0], "")

  /** A dev entry listed after a stale normal entry hides it: the finding is called
      pending, and publishing does not clear it. */
  lemma HiddenEntryStaysStale()
    ensures exists ws: Members, ix: Index, n: string, d: Dep ::
      && Finding(ws, ix, n, d) && d.kind == Normal && InWave(ws, ix, n)
      && ClassOf(ws, ix, n, d, false) == Pending
      && Found(ws, Run(ws, ix, [n]), n, d.name, Normal)
  {
    var stale := Dep("b", Caret([1]), Normal);
    var current := Dep("b", Caret([2]), Dev);
    var ws: Members := map["a" := Package(TWO, [stale, current]), "b" := Package(TWO, [])];
    var ix: Index := map["a" := Release(Max(ONE), [ONE], [stale], map[])];
    CompareToToken([1, 0, 0], [2, 0, 0]);
    CompareOrder([1, 0, 0], [2, 0, 0], [2, 0, 0]);
    assert Stale(ws, stale);
    assert Finding(ws, ix, "a", stale);
    assert Recorded(ws, "a", "b") == Some(current);
    assert stale in ws["a"].deps;
    FoundAfterPublish(ws, ix, ["a"], "a", "b", Normal);
  }

  /** A dependency dropped in-tree without a version bump is called pending, and no run
      whatsoever clears it. */
  lemma DroppedDependencyStays()
    ensures exists ws: Members, ix: Index, n: string, d: Dep ::
      && Finding(ws, ix, n, d) && d.kind == Normal && ClassOf(ws, ix, n, d, false) == Pending
      && forall names :: Found(ws, Run(ws, ix, names), n, d.name, Normal)
  {
    var stale := Dep("b", Caret([1]), Normal);
    var ws: Members := map["a" := Package(ONE, []), "b" := Package(TWO, [])];
    var ix: Index := map["a" := Release(Max(ONE), [ONE], [stale], map[])];
    CompareToToken([1, 0, 0], [2, 0, 0]);
    CompareOrder([1, 0, 0], [1, 0, 0], [1, 0, 0]);
    assert Recorded(ws, "a", "b") == None;
    assert Finding(ws, ix, "a", stale) && ClassOf(ws, ix, "a", stale, false) == Pending;
    forall names
      ensures Found(ws, Run(ws, ix, names), "a", "b", Normal)
    {
      UnpublishedStays(ws, ix, names, "a", stale);
    }
  }

  /** Two crates at 1.0.0, the second with a single entry on the first. */
  function Pair(dep: Dep): Members {
    map["a" := Package(ONE, []), "b" := Package(ONE, [dep])]
  }

  lemma PairRecorded(dep: Dep, n: string, s: string)
    requires dep.name == "a" && dep.req != Wildcard
    ensures Recorded(Pair(dep), n, s) == if n == "b" && s == "a" then Some(dep) else None
  {
    var ws := Pair(dep);
    if n in ws {
      LastEntryIsListed(ws[n].deps, s);
      assert n == "b" ==> dep in ws[n].deps;
    }
  }

  lemma PairOrder(dep: Dep, order: seq<string>)
    requires dep.name == "a" && (order == ["a", "b"] || (order == ["b", "a"] && dep.kind != Normal))
    ensures ValidOrder(NormalMap(Pair(dep)), order)
    ensures dep.kind != Normal ==> NormalMap(Pair(dep)) == map["a" := {}, "b" := {}]
  {
    var g := NormalMap(Pair(dep));
    assert Succ(g, "a") == {} && Succ(g, "b") <= {"a"} && (dep.kind != Normal ==> Succ(g, "b") == {});
    assert Nodes(g) == {"a", "b"};
    assert Elements(order) == {"a", "b"};
    assert order[..0] == [] && order[..1] == [order[0]];
  }

  /** Build requirements are classified like the others but do not enter the order, so
      the emitted order can publish a crate before its build-dependency. Here the graph has
      no edges, all crates are queued at once, sorted, and the queue comes out reversed. */
  lemma BuildRequirementsUnordered()
    ensures exists ws: Members, ix: Index, order: seq<string> ::
      && NormalMap(ws) == map["a" := {}, "b" := {}] && order == Reverse(["a", "b"])
      && ValidOrder(NormalMap(ws), order) && NoneUnpublishable(ws, ix, Build) && TokensPresent(ws, ix, Build)
      && !SafeWave(ws, ix, order, Build)
  {
    var dep := Dep("a", Caret([1]), Build);
    var ws, order := Pair(dep), ["b", "a"];
    var ix: Index := map[];
    assert order == Reverse(["a", "b"]);
    PairOrder(dep, order);
    CompareToToken([1, 0, 0], [1]);
    assert VerdictOf(ws, ix, "a", dep.req) == PublishOrderNote;
    forall n, s
      ensures Recorded(ws, n, s).Some? ==> s == "a" && Recorded(ws, n, s).value == dep
    {
      PairRecorded(dep, n, s);
    }
    assert NoneUnpublishable(ws, ix, Build) && TokensPresent(ws, ix, Build);
    PairRecorded(dep, "b", "a");
    assert !Published(ix, "a", dep.req);
    assert order[..0] == [] && Run(ws, ix, []) == ix;
    assert !Ready(ws, Run(ws, ix, order[..0]), order[0], Build);
    assert InWave(ws, ix, order[0]);
    assert !SafeWave(ws, ix, order, Build);
  }

  /** A requirement that names no version counts as satisfied, so nothing is called
      unpublishable, yet its crate is never ready. The function accepts any such text;
      `cargo metadata` itself writes a requirement without numbers only as a wildcard. */
  lemma TokenlessRequirementUnready()
    ensures exists ws: Members, ix: Index, order: seq<string> ::
      && ValidOrder(NormalMap(ws), order) && NoneUnpublishable(ws, ix, Normal) && !SafeWave(ws, ix, order, Normal)
  {
    var dep := Dep("a", OtherText(None), Normal);
    var ws, order := Pair(dep), ["a", "b"];
    var ix: Index := map[];
    PairOrder(dep, order);
    forall n, s
      ensures Recorded(ws, n, s).Some? ==> s == "a" && Recorded(ws, n, s).value == dep
    {
      PairRecorded(dep, n, s);
    }
    assert NoneUnpublishable(ws, ix, Normal);
    PairRecorded(dep, "b", "a");
    assert InWave(ws, ix, "b");
    WaveSafety(ws, ix, order);
  }
}
