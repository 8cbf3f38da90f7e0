/** A release wave: the index of published crates as a state machine whose steps
    publish in-tree manifests, and what the two classifiers say about its runs. */
module Wave {
  import opened Wrappers
  import opened Digraph
  import opened Versions
  import opened Workspace
  import opened PublishOrder

  // ----- The index -----

  /** The answer to a latest-version lookup. */
  datatype Latest = Never | Unreachable | Max(version: Version)

  /** What crates.io knows of a crate: its latest version, the unyanked versions, the
      dependencies of the latest one, and those of every version. */
  datatype Release = Release(latest: Latest, live: seq<Version>, manifest: seq<Dep>, archive: map<Version, seq<Dep>>)

  type Index = map<string, Release>

  function Lookup(ix: Index, s: string): Release {
    if s in ix then ix[s] else Release(Never, [], [], map[])
  }

  /** Some published version is admitted. */
  ghost predicate Published(ix: Index, s: string, r: Req) {
    exists v :: v in Lookup(ix, s).live && Admits(r, v.nums)
  }

  // ----- Satisfiability of an in-tree requirement -----

  datatype Verdict = Satisfied | Unpublishable | PublishOrderNote

  /** `any_published_version_satisfies`: a requirement without a token counts as satisfied. */
  ghost predicate CountsAsPublished(ix: Index, s: string, r: Req) {
    ReqToken(r) == None || Published(ix, s, r)
  }

  /** `classify_in_tree_satisfiability` */
  function ClassifySatisfiability(published: bool, inTreeSatisfies: bool, latest: Latest, inTree: Version): Verdict {
    if published then Satisfied
    else if !inTreeSatisfies then Unpublishable
    else if latest == Never then PublishOrderNote
    else if latest == Unreachable then Unpublishable
    else if Compare(inTree.nums, latest.version.nums) > 0 then PublishOrderNote
    else Unpublishable
  }

  ghost function VerdictOf(ws: Members, ix: Index, s: string, r: Req): Verdict
    requires s in ws
  {
    ClassifySatisfiability(CountsAsPublished(ix, s, r), Admits(r, ws[s].version.nums), Lookup(ix, s).latest, ws[s].version)
  }

  method AnyPublished(ix: Index, s: string, r: Req) returns (b: bool)
    ensures b == CountsAsPublished(ix, s, r)
  {
    if ReqToken(r) == None {
      return true;
    }
    var live := Lookup(ix, s).live;
    for i := 0 to |live|
      invariant forall j :: 0 <= j < i ==> !Admits(r, live[j].nums)
    {
      var admitted := ReqAdmits(r, live[i].nums);
      if admitted {
        assert live[i] in live;
        return true;
      }
    }
    forall v | v in live
      ensures !Admits(r, v.nums)
    {
      var j :| 0 <= j < |live| && live[j] == v;
    }
    return false;
  }

  datatype Item = Item(consumer: string, dep: Dep)

  /** The satisfiability loop of `main`, with its own inlined branches, sorts every
      recorded requirement exactly as the extracted classifier does. */
  method SortRequirements(ws: Members, ix: Index, items: seq<Item>)
    returns (unpublishable: seq<Item>, notes: seq<Item>)
    requires forall it :: it in items ==> it.dep.name in ws
    ensures forall it :: it in unpublishable <==> it in items && VerdictOf(ws, ix, it.dep.name, it.dep.req) == Unpublishable
    ensures forall it :: it in notes <==> it in items && VerdictOf(ws, ix, it.dep.name, it.dep.req) == PublishOrderNote
  {
    unpublishable, notes := [], [];
    for i := 0 to |items|
      invariant forall it :: it in unpublishable <==>
        it in items[..i] && VerdictOf(ws, ix, it.dep.name, it.dep.req) == Unpublishable
      invariant forall it :: it in notes <==>
        it in items[..i] && VerdictOf(ws, ix, it.dep.name, it.dep.req) == PublishOrderNote
    {
      var it := items[i];
      assert items[..i + 1] == items[..i] + [it];
      var sibling, req := it.dep.name, it.dep.req;
      var published := AnyPublished(ix, sibling, req);
      if published {
        continue;
      }
      var inTree := ws[sibling].version;
      var satisfies := ReqAdmits(req, inTree.nums);
      if !satisfies {
        unpublishable := unpublishable + [it];
        continue;
      }
      var latest := Lookup(ix, sibling).latest;
      if latest == Never {
        notes := notes + [it];
        continue;
      }
      if latest != Unreachable {
        if Compare(inTree.nums, latest.version.nums) > 0 {
          notes := notes + [it];
          continue;
        }
      }
      unpublishable := unpublishable + [it];
    }
    assert items[..|items|] == items;
  }

  // ----- The state machine -----

  /** A crate has something to publish: it is new, or its in-tree version is ahead. */
  predicate InWave(ws: Members, ix: Index, n: string) {
    n in ws && match Lookup(ix, n).latest
               case Never => true
               case Unreachable => false
               case Max(m) => Compare(ws[n].version.nums, m.nums) > 0
  }

  /** What publishing the in-tree manifest makes of a crate's record. */
  function Released(ws: Members, before: Release, n: string): Release
    requires n in ws
  {
    var Package(version, deps) := ws[n];
    Release(Max(version), before.live + [version], deps, before.archive[version := deps])
  }

  function Publish(ws: Members, ix: Index, n: string): Index
    requires n in ws
  {
    ix[n := Released(ws, Lookup(ix, n), n)]
  }

  function Step(ws: Members, ix: Index, n: string): Index {
    if InWave(ws, ix, n) then Publish(ws, ix, n) else ix
  }

  /** The index after offering each crate of `names` in turn. Since a crate without
      anything to publish is passed over, this covers every sequence of publish steps. */
  function Run(ws: Members, ix: Index, names: seq<string>): Index {
    if names == [] then ix else Step(ws, Run(ws, ix, names[..|names| - 1]), names[|names| - 1])
  }

  /** Everything a run does to one crate: it is published once, if it was in the wave
      and was offered, and is otherwise left alone. */
  lemma {:induction false} RunOnCrate(ws: Members, ix: Index, names: seq<string>, n: string)
    ensures Lookup(Run(ws, ix, names), n) ==
      (if n in names && InWave(ws, ix, n) then Released(ws, Lookup(ix, n), n) else Lookup(ix, n))
    decreases |names|
  {
    if names == [] {
    } else {
      var before, last := names[..|names| - 1], names[|names| - 1];
      assert names == before + [last];
      RunOnCrate(ws, ix, before, n);
      if n in ws {
        CompareOrder(ws[n].version.nums, ws[n].version.nums, ws[n].version.nums);
      }
    }
  }

  lemma PublishedGrows(ws: Members, ix: Index, names: seq<string>, s: string, r: Req)
    requires Published(ix, s, r)
    ensures Published(Run(ws, ix, names), s, r)
  {
    RunOnCrate(ws, ix, names, s);
  }

  lemma PublishedInTree(ws: Members, ix: Index, names: seq<string>, s: string, r: Req)
    requires s in names && InWave(ws, ix, s) && Admits(r, ws[s].version.nums)
    ensures Published(Run(ws, ix, names), s, r)
  {
    RunOnCrate(ws, ix, names, s);
    assert ws[s].version in Lookup(Run(ws, ix, names), s).live;
  }

  /** Some sequence of publish steps makes the requirement resolvable. */
  ghost predicate CanBePublished(ws: Members, ix: Index, s: string, r: Req) {
    exists names: seq<string> :: Published(Run(ws, ix, names), s, r)
  }

  /** What the verdicts mean: a requirement that names a version is satisfied when a published
      version is admitted, and unpublishable exactly when no wave whatsoever can change that.
      A crate that was never published is no obstacle. */
  lemma VerdictMeaning(ws: Members, ix: Index, s: string, r: Req)
    requires s in ws
    ensures ReqToken(r) == None ==> VerdictOf(ws, ix, s, r) == Satisfied
    ensures ReqToken(r).Some? ==> (VerdictOf(ws, ix, s, r) == Satisfied <==> Published(ix, s, r))
    ensures ReqToken(r).Some? ==> (VerdictOf(ws, ix, s, r) == Unpublishable <==> !CanBePublished(ws, ix, s, r))
  {
    if Published(ix, s, r) {
      assert Published(Run(ws, ix, []), s, r);
    } else if InWave(ws, ix, s) && Admits(r, ws[s].version.nums) {
      PublishedInTree(ws, ix, [s], s, r);
    } else {
      forall names: seq<string>
        ensures !Published(Run(ws, ix, names), s, r)
      {
        RunOnCrate(ws, ix, names, s);
      }
    }
  }

  /** Once a run has offered every crate, nobody has anything left to publish. */
  lemma WaveCompletes(ws: Members, ix: Index, names: seq<string>, n: string)
    requires n in names
    ensures !InWave(ws, Run(ws, ix, names), n)
  {
    RunOnCrate(ws, ix, names, n);
    if n in ws {
      CompareOrder(ws[n].version.nums, ws[n].version.nums, ws[n].version.nums);
    }
  }

  // ----- Wave safety -----

  /** `cargo publish` of `n` resolves: each recorded requirement of the given kind is
      admitted by a version that is on the index already. */
  ghost predicate Ready(ws: Members, ix: Index, n: string, kind: Kind) {
    forall s :: Recorded(ws, n, s).Some? && Recorded(ws, n, s).value.kind == kind
      ==> Published(ix, s, Recorded(ws, n, s).value.req)
  }

  ghost predicate NoneUnpublishable(ws: Members, ix: Index, kind: Kind) {
    forall n, s :: Recorded(ws, n, s).Some? && Recorded(ws, n, s).value.kind == kind
      ==> VerdictOf(ws, ix, s, Recorded(ws, n, s).value.req) != Unpublishable
  }

  /** Following the order, every crate of the wave is ready when its turn comes. */
  ghost predicate SafeWave(ws: Members, ix: Index, order: seq<string>, kind: Kind) {
    forall i :: 0 <= i < |order| && InWave(ws, ix, order[i]) ==> Ready(ws, Run(ws, ix, order[..i]), order[i], kind)
  }

  /** The recorded requirements of the wave's crates all name a version. */
  ghost predicate TokensPresent(ws: Members, ix: Index, kind: Kind) {
    forall n, s :: InWave(ws, ix, n) && Recorded(ws, n, s).Some? && Recorded(ws, n, s).value.kind == kind
      ==> ReqToken(Recorded(ws, n, s).value.req).Some?
  }

  lemma RequirementMet(ws: Members, ix: Index, order: seq<string>, i: nat, s: string)
    requires ValidOrder(NormalMap(ws), order) && NoneUnpublishable(ws, ix, Normal) && i < |order|
    requires Recorded(ws, order[i], s).Some? && Recorded(ws, order[i], s).value.kind == Normal
    requires ReqToken(Recorded(ws, order[i], s).value.req).Some?
    ensures Published(Run(ws, ix, order[..i]), s, Recorded(ws, order[i], s).value.req)
  {
    var r := Recorded(ws, order[i], s).value.req;
    if Published(ix, s, r) {
      PublishedGrows(ws, ix, order[..i], s, r);
    } else {
      RecordedNormalIsEdge(ws, order[i], s);
      assert VerdictOf(ws, ix, s, r) == PublishOrderNote;
      assert s in Elements(order[..i]);
      PublishedInTree(ws, ix, order[..i], s, r);
    }
  }

  /** With no unpublishable recorded normal requirement, the emitted order is safe
      exactly when every such requirement in the wave carries a version token. */
  lemma WaveSafety(ws: Members, ix: Index, order: seq<string>)
    requires ValidOrder(NormalMap(ws), order) && NoneUnpublishable(ws, ix, Normal)
    ensures SafeWave(ws, ix, order, Normal) <==> TokensPresent(ws, ix, Normal)
  {
    if TokensPresent(ws, ix, Normal) {
      forall i, s | 0 <= i < |order| && InWave(ws, ix, order[i])
                  && Recorded(ws, order[i], s).Some? && Recorded(ws, order[i], s).value.kind == Normal
        ensures Published(Run(ws, ix, order[..i]), s, Recorded(ws, order[i], s).value.req)
      {
        RequirementMet(ws, ix, order, i, s);
      }
    } else {
      var n, s :| InWave(ws, ix, n) && Recorded(ws, n, s).Some? && Recorded(ws, n, s).value.kind == Normal
               && ReqToken(Recorded(ws, n, s).value.req) == None;
      MemberIsOrdered(ws, order, n);
      var i :| 0 <= i < |order| && order[i] == n;
    }
  }

  lemma MemberIsOrdered(ws: Members, order: seq<string>, n: string)
    requires ValidOrder(NormalMap(ws), order) && n in ws
    ensures n in order
  {
    assert n in Nodes(NormalMap(ws));
    assert n in Elements(order);
  }

  /** Every requirement of every kind is satisfied, or will be within the wave. */
  ghost predicate AllPublishable(ws: Members, ix: Index) {
    forall n, s :: Recorded(ws, n, s).Some? ==> VerdictOf(ws, ix, s, Recorded(ws, n, s).value.req) != Unpublishable
  }

  /** Nothing is called unpublishable exactly when every recorded requirement that names a
      version can be met, now or by publishing. */
  lemma AllPublishableIff(ws: Members, ix: Index)
    ensures AllPublishable(ws, ix) <==> forall n, s :: Recorded(ws, n, s).Some? && ReqToken(Recorded(ws, n, s).value.req).Some?
                                          ==> CanBePublished(ws, ix, s, Recorded(ws, n, s).value.req)
  {
    forall n, s | Recorded(ws, n, s).Some? {
      VerdictMeaning(ws, ix, s, Recorded(ws, n, s).value.req);
    }
  }

  /** The recorded requirements as the loop of `main` takes them, in some order. */
  method Items(rec: Recording, ghost ws: Members) returns (items: seq<Item>)
    requires Records(ws, rec, ws.Keys)
    ensures forall it :: it in items <==> Recorded(ws, it.consumer, it.dep.name) == Some(it.dep)
  {
    items := [];
    var rest := rec.Keys;
    while rest != {}
      invariant rest <= rec.Keys
      invariant forall it :: it in items <==> (it.consumer, it.dep.name) in rec.Keys - rest && rec[(it.consumer, it.dep.name)] == it.dep
      decreases rest
    {
      var key :| key in rest;
      NamedBySibling(ws, key.0, key.1);
      items := items + [Item(key.0, rec[key])];
      rest := rest - {key};
    }
    forall it
      ensures it in items <==> Recorded(ws, it.consumer, it.dep.name) == Some(it.dep)
    {
      assert (it.consumer, it.dep.name) in rec <==> Recorded(ws, it.consumer, it.dep.name).Some?;
    }
  }

  lemma NamedBySibling(ws: Members, n: string, s: string)
    ensures Recorded(ws, n, s).Some? ==> n in ws && s in ws && Recorded(ws, n, s).value.name == s
  {
    if n in ws {
      LastEntryIsListed(ws[n].deps, s);
    }
  }

  /** The satisfiability loop and check 4 together: they pass exactly when the normal graph
      is acyclic and every requirement is publishable, and then the emitted order is safe
      and completes the wave. */
  method CertifyWave(ws: Members, ix: Index) returns (ok: bool, order: seq<string>)
    ensures ok <==> Acyclic(NormalMap(ws)) && AllPublishable(ws, ix)
    ensures ok ==> ValidOrder(NormalMap(ws), order)
    ensures ok ==> (SafeWave(ws, ix, order, Normal) <==> TokensPresent(ws, ix, Normal))
    ensures ok ==> forall n :: n in ws ==> !InWave(ws, Run(ws, ix, order), n)
  {
    var cycleNodes;
    var normal := DepMap(ws, Normal);
    order, cycleNodes := PublishOrder.PublishOrder(normal);
    var rec := WorkspaceDependencies(ws);
    var items := Items(rec, ws);
    var unpublishable, notes := SortRequirements(ws, ix, items);
    ok := cycleNodes == [] && unpublishable == [];
    PublishableItems(ws, ix, items, unpublishable);
    if ok {
      WaveSafety(ws, ix, order);
      forall n | n in ws
        ensures !InWave(ws, Run(ws, ix, order), n)
      {
        MemberIsOrdered(ws, order, n);
        WaveCompletes(ws, ix, order, n);
      }
    }
  }

  lemma PublishableItems(ws: Members, ix: Index, items: seq<Item>, unpublishable: seq<Item>)
    requires forall it :: it in items <==> Recorded(ws, it.consumer, it.dep.name) == Some(it.dep)
    requires forall it :: it in items ==> it.dep.name in ws
    requires forall it :: it in unpublishable <==> it in items && VerdictOf(ws, ix, it.dep.name, it.dep.req) == Unpublishable
    ensures unpublishable == [] <==> AllPublishable(ws, ix)
    ensures AllPublishable(ws, ix) ==> forall kind :: NoneUnpublishable(ws, ix, kind)
  {
    if unpublishable == [] {
      forall n, s | Recorded(ws, n, s).Some?
        ensures VerdictOf(ws, ix, s, Recorded(ws, n, s).value.req) != Unpublishable
      {
        NamedBySibling(ws, n, s);
        assert Item(n, Recorded(ws, n, s).value) in items;
      }
    } else {
      var it := unpublishable[0];
      assert it in unpublishable;
    }
  }
}
