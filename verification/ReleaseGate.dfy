/** The whole release gate of the published-dependency check, and what a wave does to it. */
module ReleaseGate {
  import opened Wrappers
  import opened Digraph
  import opened Versions
  import opened Workspace
  import opened PublishOrder
  import opened Wave
  import opened Finalize
  import F = Findings
  import H = Homogeneity
  import B = BumpClass
  import D = DevCycles
  import OrderSafety

  // ----- Check 1 on the index -----

  function MemberVersions(ws: Members): map<string, Version> {
    map n | n in ws :: ws[n].version
  }

  /** The normal sibling requirements of one published manifest. */
  function SiblingReqs(ws: Members, manifest: seq<Dep>): map<string, Req> {
    map s | s in ws && B.PublishedReq(ws, manifest, s).Some? :: B.PublishedReq(ws, manifest, s).value
  }

  /** What check 1 looks up, read off the index. */
  function RegistryOf(ws: Members, ix: Index): H.Registry {
    H.Registry(map n | n in ix :: ix[n].live,
               map n, v | n in ix && v in ix[n].archive :: (n, v) := SiblingReqs(ws, ix[n].archive[v]))
  }

  /** `need` is a recorded requirement of the tree. */
  ghost predicate IsNeed(ws: Members, need: H.Need) {
    Recorded(ws, need.consumer, need.sibling) == Some(Dep(need.sibling, need.req, need.kind))
  }

  /** `x` is a violation of check 1 reached through `need`. */
  ghost predicate Mismatch(ws: Members, ix: Index, need: H.Need, x: H.Violation) {
    var rel := Lookup(ix, need.sibling);
    && H.Relevant(need) && x.version in rel.live && Admits(need.req, x.version.nums)
    && x == H.Violation(need.consumer, need.req, need.sibling, x.version, x.dep, x.pubReq)
    && x.version in rel.archive && x.dep in ws && B.PublishedReq(ws, rel.archive[x.version], x.dep) == Some(x.pubReq)
    && H.Disagrees(MemberVersions(ws), x.dep, x.pubReq)
  }

  lemma MismatchIsIndexed(ws: Members, ix: Index, need: H.Need, x: H.Violation)
    ensures H.MismatchOf(RegistryOf(ws, ix), MemberVersions(ws), need, x) <==> Mismatch(ws, ix, need, x)
  {
    var reg := RegistryOf(ws, ix);
    assert H.LiveOf(reg, need.sibling) == Lookup(ix, need.sibling).live;
    assert (need.sibling, x.version) in reg.deps <==> need.sibling in ix && x.version in ix[need.sibling].archive;
  }

  /** Check 1 is silent on the index. */
  ghost predicate Homogeneous(ws: Members, ix: Index) {
    forall need, x :: IsNeed(ws, need) ==> !Mismatch(ws, ix, need, x)
  }

  lemma HomogeneousIsIndexed(ws: Members, ix: Index, needs: seq<H.Need>)
    requires forall need :: need in needs <==> IsNeed(ws, need)
    ensures H.Homogeneous(RegistryOf(ws, ix), MemberVersions(ws), needs) <==> Homogeneous(ws, ix)
  {
    forall need, x {
      MismatchIsIndexed(ws, ix, need, x);
    }
    if H.Homogeneous(RegistryOf(ws, ix), MemberVersions(ws), needs) {
      forall need, x | IsNeed(ws, need)
        ensures !Mismatch(ws, ix, need, x)
      {
        assert !H.SomeMismatch(RegistryOf(ws, ix), MemberVersions(ws), needs, x);
      }
    }
  }

  // ----- The gate -----

  ghost predicate NoneFlagged(ws: Members, ix: Index) {
    forall n, s :: !B.Flagged(ws, ix, n, s)
  }

  ghost predicate NoneBlocking(ws: Members, ix: Index) {
    forall n, d :: !F.Blocks(ws, ix, n, d)
  }

  /** Nothing that `main` adds to its blocking list, dev cycles aside. */
  ghost predicate Passes(ws: Members, ix: Index) {
    && Acyclic(NormalMap(ws)) && AllPublishable(ws, ix)
    && NoneBlocking(ws, ix) && Homogeneous(ws, ix) && NoneFlagged(ws, ix)
  }

  method Needs(rec: Recording, ghost ws: Members) returns (needs: seq<H.Need>)
    requires Records(ws, rec, ws.Keys)
    ensures forall need :: need in needs <==> IsNeed(ws, need)
  {
    var items := Items(rec, ws);
    needs := [];
    for i := 0 to |items|
      invariant forall need :: need in needs <==> Item(need.consumer, Dep(need.sibling, need.req, need.kind)) in items[..i]
    {
      var it := items[i];
      assert items[..i + 1] == items[..i] + [it];
      needs := needs + [H.Need(it.consumer, it.dep.name, it.dep.req, it.dep.kind)];
    }
    assert items[..|items|] == items;
  }

  /** A crate the first loop skips: its latest version, or the manifest of that version,
      could not be looked up. */
  predicate Skipped(ws: Members, ix: Index, failed: set<string>, n: string) {
    n in ws && (Lookup(ix, n).latest == Unreachable || (Lookup(ix, n).latest.Max? && n in failed))
  }

  /** Nothing in the workspace's dependencies loops through at most one dev edge. */
  ghost predicate NoLoop(ws: Members) {
    forall w, devStep :: !D.LoopWithOneDev(NormalMap(ws), DevMap(ws), w, devStep)
  }

  /** The release gate: with `--blocking` the run succeeds exactly when nothing blocks and
      every crate could be checked; with dev cycles enforced, also when no loop has at most
      one dev edge. */
  method RunGate(ws: Members, ix: Index, failed: set<string>, enforceDevCycles: bool) returns (ok: bool, order: seq<string>)
    ensures ok <==>
      && Passes(ws, ix) && (enforceDevCycles ==> NoLoop(ws))
      && forall n :: n in ws ==> Lookup(ix, n).latest != Unreachable && !(Lookup(ix, n).latest.Max? && n in failed)
    ensures ok ==> ValidOrder(NormalMap(ws), order)
  {
    var normal := DepMap(ws, Normal);
    var dev := DepMap(ws, Dev);
    var devCycles := D.CheckDevCycles(normal, dev);
    D.SilentIffNoLoop(NormalMap(ws), DevMap(ws));
    var skipped := SkippedCrates(ws, ix, failed);
    var passed;
    passed, order := NothingBlocks(ws, ix);
    ok := passed && skipped == {} && (!enforceDevCycles || devCycles == []);
    assert skipped == {} <==> forall n :: n in ws ==> !Skipped(ws, ix, failed, n);
  }

  method SkippedCrates(ws: Members, ix: Index, failed: set<string>) returns (skipped: set<string>)
    ensures forall n :: n in skipped <==> Skipped(ws, ix, failed, n)
  {
    skipped := {};
    var rest := ws.Keys;
    while rest != {}
      invariant rest <= ws.Keys
      invariant forall n :: n in skipped <==> n in ws.Keys - rest && Skipped(ws, ix, failed, n)
      decreases rest
    {
      var n :| n in rest;
      rest := rest - {n};
      if Lookup(ix, n).latest == Unreachable {
        skipped := skipped + {n};
        continue;
      }
      if Lookup(ix, n).latest == Never {
        continue;
      }
      if n in failed {
        skipped := skipped + {n};
      }
    }
  }

  /** The blocking list of `main`, dev cycles aside: empty exactly when the gate passes. */
  method NothingBlocks(ws: Members, ix: Index) returns (ok: bool, order: seq<string>)
    ensures ok <==> Passes(ws, ix)
    ensures ok ==> ValidOrder(NormalMap(ws), order)
  {
    var rec := WorkspaceDependencies(ws);
    var blocking := F.AnyBlocking(ws, rec, ix);
    var certified;
    certified, order := CertifyWave(ws, ix);
    var needs := Needs(rec, ws);
    var mismatches := H.CheckHomogeneity(RegistryOf(ws, ix), MemberVersions(ws), needs);
    HomogeneousIsIndexed(ws, ix, needs);
    var bumps := B.CheckBumpClass(ws, ix);
    BumpsAreFlags(ws, ix, bumps);
    ok := !blocking && certified && mismatches == [] && bumps == [];
  }

  lemma BumpsAreFlags(ws: Members, ix: Index, bumps: seq<B.Finding>)
    requires forall f :: f in bumps <==> f.crate in ws && B.Flagged(ws, ix, f.crate, f.sibling)
    ensures bumps == [] <==> NoneFlagged(ws, ix)
  {
    if bumps != [] {
      assert bumps[0] in bumps;
    } else {
      forall n, s
        ensures !B.Flagged(ws, ix, n, s)
      {
        assert B.Finding(n, s) !in bumps;
      }
    }
  }

  // ----- A tree that is on its own epochs -----

  ghost predicate EntryOf(ws: Members, n: string, d: Dep) {
    n in ws && d in ws[n].deps && d.name in ws && d.req != Wildcard
  }

  /** The pre-tag epoch check passes for every versioned entry of every manifest. */
  ghost predicate EntriesPass(ws: Members) {
    && (forall n :: n in ws ==> Full(ws[n].version))
    && (forall n, d :: EntryOf(ws, n, d) ==> EpochPasses(d.req, ws[d.name].version))
  }

  /** An entry on a 0.0.z crate names exactly that patch. */
  ghost predicate PatchesPinned(ws: Members)
    requires EntriesPass(ws)
  {
    forall n, d :: EntryOf(ws, n, d) && H.BeforeFirstMinor(ws[d.name].version)
      ==> Padded(d.req.floor)[2] == ws[d.name].version.nums[2]
  }

  /** Every versioned entry is in the caret epoch of the crate it names. */
  ghost predicate OnEpoch(ws: Members) {
    forall n, d :: EntryOf(ws, n, d) ==> ReqEpoch(d.req) == Some(CompatEpoch(ws[d.name].version.nums))
  }

  /** For a tree the pre-tag check passes, that comes down to the 0.0.z crates. */
  lemma OnEpochIff(ws: Members)
    requires EntriesPass(ws)
    ensures OnEpoch(ws) <==> PatchesPinned(ws)
  {
    forall n, d | EntryOf(ws, n, d)
      ensures d.req.Caret?
      ensures ReqEpoch(d.req) == Some(CompatEpoch(ws[d.name].version.nums)) <==>
        !H.BeforeFirstMinor(ws[d.name].version) || Padded(d.req.floor)[2] == ws[d.name].version.nums[2]
    {
    }
  }

  // ----- What one run does to each check -----

  /** No unyanked version is above the latest one, and an unpublished crate has none. */
  ghost predicate Sane(ix: Index) {
    forall s :: SaneRelease(Lookup(ix, s))
  }

  ghost predicate SaneRelease(r: Release) {
    && (r.latest == Never ==> r.live == [])
    && (r.latest.Max? ==> forall v :: v in r.live ==> Compare(v.nums, r.latest.version.nums) <= 0)
  }

  lemma RunStaysSane(ws: Members, ix: Index, names: seq<string>)
    requires Sane(ix)
    ensures Sane(Run(ws, ix, names))
  {
    forall s
      ensures SaneRelease(Lookup(Run(ws, ix, names), s))
    {
      RunOnCrate(ws, ix, names, s);
      if s in names && InWave(ws, ix, s) {
        var version := ws[s].version.nums;
        CompareOrder(version, version, version);
        forall v | v in Lookup(ix, s).live
          ensures Compare(v.nums, version) <= 0
        {
          AheadOfLive(ws, ix, s, v);
        }
      }
    }
  }

  lemma AheadOfLive(ws: Members, ix: Index, s: string, v: Version)
    requires SaneRelease(Lookup(ix, s)) && InWave(ws, ix, s) && v in Lookup(ix, s).live
    ensures Compare(v.nums, ws[s].version.nums) < 0
  {
    var m, version := Lookup(ix, s).latest.version.nums, ws[s].version.nums;
    CompareOrder(version, m, m);
    CompareOrder(v.nums, m, version);
  }

  lemma {:induction false} PublishedIsEntry(ws: Members, manifest: seq<Dep>, s: string)
    requires B.PublishedReq(ws, manifest, s).Some?
    ensures s in ws && Dep(s, B.PublishedReq(ws, manifest, s).value, Normal) in manifest
  {
    var last := |manifest| - 1;
    var d := manifest[last];
    if d.name == s && s in ws && d.kind == Normal {
      assert d == Dep(s, d.req, Normal);
    } else {
      PublishedIsEntry(ws, manifest[..last], s);
    }
  }

  ghost predicate Publishes(ws: Members, ix: Index, names: seq<string>, n: string) {
    n in names && InWave(ws, ix, n)
  }

  /** The violation of check 1 that the in-tree manifest of the needed sibling would cause. */
  ghost predicate OwnMismatch(ws: Members, need: H.Need, x: H.Violation) {
    var s := need.sibling;
    && H.Relevant(need) && s in ws && x.version == ws[s].version && Admits(need.req, x.version.nums)
    && x == H.Violation(need.consumer, need.req, s, x.version, x.dep, x.pubReq)
    && B.PublishedReq(ws, ws[s].deps, x.dep) == Some(x.pubReq) && H.Disagrees(MemberVersions(ws), x.dep, x.pubReq)
  }

  /** Check 1 after any run: the violations there were, and those of the manifests published. */
  lemma MismatchesAfterRun(ws: Members, ix: Index, names: seq<string>, need: H.Need, x: H.Violation)
    requires Sane(ix)
    ensures Mismatch(ws, Run(ws, ix, names), need, x) <==>
      Mismatch(ws, ix, need, x) || (Publishes(ws, ix, names, need.sibling) && OwnMismatch(ws, need, x))
  {
    var s := need.sibling;
    RunOnCrate(ws, ix, names, s);
    if Publishes(ws, ix, names, s) {
      if B.PublishedReq(ws, ws[s].deps, x.dep).Some? {
        PublishedIsEntry(ws, ws[s].deps, x.dep);
      }
      if x.version == ws[s].version && x.version in Lookup(ix, s).live {
        AheadOfLive(ws, ix, s, x.version);
        CompareOrder(x.version.nums, x.version.nums, x.version.nums);
      }
    }
  }

  lemma {:induction false} LastNormalIsRecorded(ws: Members, deps: seq<Dep>, s: string)
    requires s in ws && LastEntry(deps, s).Some? && LastEntry(deps, s).value.kind == Normal
    ensures B.PublishedReq(ws, deps, s) in {Some(LastEntry(deps, s).value.req), Some(Wildcard)}
  {
    var e := deps[|deps| - 1];
    if !(e.name == s && (e.kind == Normal || e.req != Wildcard)) {
      LastNormalIsRecorded(ws, deps[..|deps| - 1], s);
    }
  }

  /** Check 2 after its crate has had its turn: a flag stays exactly when the crate had
      nothing to publish. */
  lemma FlagsAfterRun(ws: Members, ix: Index, names: seq<string>, n: string, s: string)
    ensures B.Flagged(ws, Run(ws, ix, names), n, s) <==> B.Flagged(ws, ix, n, s) && !(n in names && InWave(ws, ix, n))
  {
    RunOnCrate(ws, ix, names, n);
    if n in names && InWave(ws, ix, n) && InTreeReq(ws, n, s, Normal).Some? {
      LastNormalIsRecorded(ws, ws[n].deps, s);
    }
  }

  /** The findings after any run: of a published crate, its stale in-tree entries; of any
      other, those there were. */
  lemma FindingsAfterRun(ws: Members, ix: Index, names: seq<string>, n: string, d: Dep)
    ensures F.Finding(ws, Run(ws, ix, names), n, d) <==>
      if Publishes(ws, ix, names, n) then d in ws[n].deps && F.Stale(ws, d) else F.Finding(ws, ix, n, d)
  {
    RunOnCrate(ws, ix, names, n);
  }

  /** A requirement resolves once the crates of `names` have had their turn: it did before,
      or one of them publishes an admitted version. */
  ghost predicate Resolves(ws: Members, ix: Index, names: seq<string>, s: string, r: Req) {
    CountsAsPublished(ix, s, r) || (Publishes(ws, ix, names, s) && Admits(r, ws[s].version.nums))
  }

  lemma CountsAfterRun(ws: Members, ix: Index, names: seq<string>, s: string, r: Req)
    ensures CountsAsPublished(Run(ws, ix, names), s, r) <==> Resolves(ws, ix, names, s, r)
  {
    RunOnCrate(ws, ix, names, s);
    if Published(ix, s, r) {
      PublishedGrows(ws, ix, names, s, r);
    }
    if Publishes(ws, ix, names, s) && Admits(r, ws[s].version.nums) {
      PublishedInTree(ws, ix, names, s, r);
    }
  }

  /** Published as it stands, the manifest of `n` blocks through the entry `d`: it is stale,
      the tree still has a requirement of its kind, and it is no resolvable dev entry. */
  ghost predicate OwnBlock(ws: Members, ix: Index, names: seq<string>, n: string, d: Dep)
    requires n in ws
  {
    && d in ws[n].deps && F.Stale(ws, d) && InTreeReq(ws, n, d.name, d.kind).Some?
    && !(d.kind == Dev && Resolves(ws, ix, names, d.name, d.req))
  }

  /** The first loop after any run: a published crate blocks through its in-tree manifest,
      any other crate as before but for dev ranges that resolve by now. */
  lemma BlocksAfterRun(ws: Members, ix: Index, names: seq<string>, n: string, d: Dep)
    ensures F.Blocks(ws, Run(ws, ix, names), n, d) <==>
      if Publishes(ws, ix, names, n) then OwnBlock(ws, ix, names, n, d)
      else F.Blocks(ws, ix, n, d) && !(d.kind == Dev && Resolves(ws, ix, names, d.name, d.req))
  {
    RunOnCrate(ws, ix, names, n);
    CountsAfterRun(ws, ix, names, d.name, d.req);
    if n in ws {
      CompareOrder(ws[n].version.nums, ws[n].version.nums, ws[n].version.nums);
    }
  }

  lemma PublishableAfterRun(ws: Members, ix: Index, names: seq<string>, s: string, r: Req)
    requires s in ws && VerdictOf(ws, ix, s, r) != Unpublishable
    ensures VerdictOf(ws, Run(ws, ix, names), s, r) != Unpublishable
  {
    RunOnCrate(ws, ix, names, s);
    if Published(ix, s, r) {
      PublishedGrows(ws, ix, names, s, r);
    } else if ReqToken(r).Some? && s in names {
      PublishedInTree(ws, ix, names, s, r);
    }
  }

  lemma PublishableKept(ws: Members, ix: Index, names: seq<string>)
    requires AllPublishable(ws, ix)
    ensures AllPublishable(ws, Run(ws, ix, names))
  {
    forall n, s | Recorded(ws, n, s).Some?
      ensures VerdictOf(ws, Run(ws, ix, names), s, Recorded(ws, n, s).value.req) != Unpublishable
    {
      PublishableAfterRun(ws, ix, names, s, Recorded(ws, n, s).value.req);
    }
  }

  // ----- When the gate is kept -----

  /** No recorded requirement that would take the in-tree version of `n` meets a manifest
      that is off the tree's epochs. */
  ghost predicate MeetsNeeds(ws: Members, n: string)
    requires n in ws
  {
    forall need, s :: IsNeed(ws, need) && need.sibling == n && H.Relevant(need) && Admits(need.req, ws[n].version.nums)
                   && B.PublishedReq(ws, ws[n].deps, s).Some?
      ==> !H.Disagrees(MemberVersions(ws), s, B.PublishedReq(ws, ws[n].deps, s).value)
  }

  /** The in-tree manifest of `n` can be published among `names` without upsetting the gate. */
  ghost predicate Clean(ws: Members, ix: Index, names: seq<string>, n: string)
    requires n in ws
  {
    MeetsNeeds(ws, n) && forall d :: !OwnBlock(ws, ix, names, n, d)
  }

  lemma MeetsNeedsIff(ws: Members, n: string)
    requires n in ws
    ensures MeetsNeeds(ws, n) <==> forall need, x :: IsNeed(ws, need) && need.sibling == n ==> !OwnMismatch(ws, need, x)
  {
    if !MeetsNeeds(ws, n) {
      var need, s :| IsNeed(ws, need) && need.sibling == n && H.Relevant(need) && Admits(need.req, ws[n].version.nums)
                  && B.PublishedReq(ws, ws[n].deps, s).Some?
                  && H.Disagrees(MemberVersions(ws), s, B.PublishedReq(ws, ws[n].deps, s).value);
      assert OwnMismatch(ws, need, H.Violation(need.consumer, need.req, n, ws[n].version, s, B.PublishedReq(ws, ws[n].deps, s).value));
    }
  }

  lemma HomogeneousAfterRun(ws: Members, ix: Index, names: seq<string>)
    requires Sane(ix) && Homogeneous(ws, ix)
    ensures Homogeneous(ws, Run(ws, ix, names)) <==> forall n :: Publishes(ws, ix, names, n) ==> MeetsNeeds(ws, n)
  {
    forall n | Publishes(ws, ix, names, n) {
      MeetsNeedsIff(ws, n);
    }
    forall need, x {
      MismatchesAfterRun(ws, ix, names, need, x);
    }
    if Homogeneous(ws, Run(ws, ix, names)) {
      forall n, need, x | Publishes(ws, ix, names, n) && IsNeed(ws, need) && need.sibling == n
        ensures !OwnMismatch(ws, need, x)
      {
        assert !Mismatch(ws, Run(ws, ix, names), need, x);
      }
    }
  }

  lemma NoneBlockingAfterRun(ws: Members, ix: Index, names: seq<string>)
    requires NoneBlocking(ws, ix)
    ensures NoneBlocking(ws, Run(ws, ix, names)) <==>
      forall n, d :: Publishes(ws, ix, names, n) ==> !OwnBlock(ws, ix, names, n, d)
  {
    forall n, d {
      BlocksAfterRun(ws, ix, names, n, d);
    }
    if NoneBlocking(ws, Run(ws, ix, names)) {
      forall n, d | Publishes(ws, ix, names, n)
        ensures !OwnBlock(ws, ix, names, n, d)
      {
        assert !F.Blocks(ws, Run(ws, ix, names), n, d);
      }
    }
  }

  /** After a run a gate that passed passes again exactly when every manifest the run
      published was clean. */
  lemma GateAfterRunIff(ws: Members, ix: Index, names: seq<string>)
    requires Passes(ws, ix) && Sane(ix)
    ensures Passes(ws, Run(ws, ix, names)) <==> forall n :: Publishes(ws, ix, names, n) ==> Clean(ws, ix, names, n)
  {
    PublishableKept(ws, ix, names);
    NoneBlockingAfterRun(ws, ix, names);
    HomogeneousAfterRun(ws, ix, names);
    forall n, s {
      FlagsAfterRun(ws, ix, names, n, s);
    }
  }

  ghost predicate KeepsGate(ws: Members, ix: Index) {
    forall names :: Passes(ws, Run(ws, ix, names))
  }

  /** Every crate of the wave is clean on its own. */
  ghost predicate WaveClean(ws: Members, ix: Index) {
    forall n :: InWave(ws, ix, n) ==> Clean(ws, ix, [n], n)
  }

  /** A crate that is clean when published alone is clean in every run. */
  lemma CleanWaveKeepsGate(ws: Members, ix: Index, names: seq<string>)
    requires Passes(ws, ix) && Sane(ix) && WaveClean(ws, ix)
    ensures Passes(ws, Run(ws, ix, names))
  {
    forall n | Publishes(ws, ix, names, n)
      ensures Clean(ws, ix, names, n)
    {
      forall d
        ensures !OwnBlock(ws, ix, names, n, d)
      {
        assert !OwnBlock(ws, ix, [n], n, d);
      }
    }
    GateAfterRunIff(ws, ix, names);
  }

  lemma KeptGateIsClean(ws: Members, ix: Index, n: string)
    requires Passes(ws, ix) && Sane(ix) && KeepsGate(ws, ix) && InWave(ws, ix, n)
    ensures Clean(ws, ix, [n], n)
  {
    GateAfterRunIff(ws, ix, [n]);
    assert Publishes(ws, ix, [n], n);
  }

  /** A gate that passes is kept by every sequence of publish steps, complete or not,
      exactly when every crate of the wave is clean on its own. */
  lemma GateKeptIff(ws: Members, ix: Index)
    requires Passes(ws, ix) && Sane(ix)
    ensures KeepsGate(ws, ix) <==> WaveClean(ws, ix)
  {
    if KeepsGate(ws, ix) {
      forall n | InWave(ws, ix, n)
        ensures Clean(ws, ix, [n], n)
      {
        KeptGateIsClean(ws, ix, n);
      }
    }
    if WaveClean(ws, ix) {
      forall names
        ensures Passes(ws, Run(ws, ix, names))
      {
        CleanWaveKeepsGate(ws, ix, names);
      }
    }
  }

  /** Whatever is published, a tree on its epochs is clean. */
  lemma OnEpochIsClean(ws: Members, ix: Index, names: seq<string>, n: string)
    requires OnEpoch(ws) && n in ws
    ensures Clean(ws, ix, names, n)
  {
    forall d | d in ws[n].deps && d.name in ws
      ensures !F.Stale(ws, d)
    {
      if d.req != Wildcard {
        assert EntryOf(ws, n, d);
      }
    }
    forall s | B.PublishedReq(ws, ws[n].deps, s).Some?
      ensures !H.Disagrees(MemberVersions(ws), s, B.PublishedReq(ws, ws[n].deps, s).value)
    {
      PublishedIsEntry(ws, ws[n].deps, s);
      var d := Dep(s, B.PublishedReq(ws, ws[n].deps, s).value, Normal);
      if d.req != Wildcard {
        assert EntryOf(ws, n, d);
      }
    }
  }

  /** Over any sequence of publish steps, complete or not, a gate that passed for an
      on-epoch tree still passes. */
  lemma GateKept(ws: Members, ix: Index, names: seq<string>)
    requires Passes(ws, ix) && OnEpoch(ws) && Sane(ix)
    ensures Passes(ws, Run(ws, ix, names)) && Sane(Run(ws, ix, names))
  {
    RunStaysSane(ws, ix, names);
    forall n | n in ws {
      OnEpochIsClean(ws, ix, names, n);
    }
    GateAfterRunIff(ws, ix, names);
  }

  lemma TokensOnEpoch(ws: Members, ix: Index, kind: Kind)
    requires OnEpoch(ws)
    ensures TokensPresent(ws, ix, kind)
  {
    forall n, s | Recorded(ws, n, s).Some?
      ensures ReqToken(Recorded(ws, n, s).value.req).Some?
    {
      LastEntryIsListed(ws[n].deps, s);
      assert EntryOf(ws, n, Recorded(ws, n, s).value);
    }
  }

  /** Each crate of the wave is clean among the crates that come before it. */
  ghost predicate CleanInTurn(ws: Members, ix: Index, order: seq<string>) {
    forall i :: 0 <= i < |order| && InWave(ws, ix, order[i]) ==> Clean(ws, ix, order[..i + 1], order[i])
  }

  /** What passed on publication keeps passing, since ranges that resolve go on resolving. */
  lemma CleanStays(ws: Members, ix: Index, order: seq<string>, i: nat, j: nat)
    requires i < j <= |order| && InWave(ws, ix, order[i]) && Clean(ws, ix, order[..i + 1], order[i])
    ensures Clean(ws, ix, order[..j], order[i])
  {
    assert forall s :: s in order[..i + 1] ==> s in order[..j];
    forall d
      ensures !OwnBlock(ws, ix, order[..j], order[i], d)
    {
      assert !OwnBlock(ws, ix, order[..i + 1], order[i], d);
    }
  }

  /** Along an order the gate passes at every point exactly when each crate is clean in its turn. */
  lemma GateAlongOrderIff(ws: Members, ix: Index, order: seq<string>)
    requires Passes(ws, ix) && Sane(ix)
    ensures (forall i :: 0 <= i <= |order| ==> Passes(ws, Run(ws, ix, order[..i]))) <==> CleanInTurn(ws, ix, order)
  {
    if forall i :: 0 <= i <= |order| ==> Passes(ws, Run(ws, ix, order[..i])) {
      forall i | 0 <= i < |order| && InWave(ws, ix, order[i])
        ensures Clean(ws, ix, order[..i + 1], order[i])
      {
        assert order[..i + 1][i] == order[i];
        GateAfterRunIff(ws, ix, order[..i + 1]);
        assert Publishes(ws, ix, order[..i + 1], order[i]);
      }
    }
    if CleanInTurn(ws, ix, order) {
      forall j | 0 <= j <= |order|
        ensures Passes(ws, Run(ws, ix, order[..j]))
      {
        forall n | Publishes(ws, ix, order[..j], n)
          ensures Clean(ws, ix, order[..j], n)
        {
          var i :| 0 <= i < j && order[..j][i] == n;
          CleanStays(ws, ix, order, i, j);
        }
        GateAfterRunIff(ws, ix, order[..j]);
      }
    }
  }

  /** What a passing gate certifies of the emitted order: every crate of the wave finds its
      normal requirements published iff they all name a version, the gate passes at every
      point of the wave iff each crate is clean in its turn, and at the end nobody has
      anything left to publish. A tree on its epochs meets both conditions. */
  lemma CertifiedRelease(ws: Members, ix: Index, order: seq<string>)
    requires Passes(ws, ix) && Sane(ix) && ValidOrder(NormalMap(ws), order)
    ensures SafeWave(ws, ix, order, Normal) <==> TokensPresent(ws, ix, Normal)
    ensures (forall i :: 0 <= i <= |order| ==> Passes(ws, Run(ws, ix, order[..i]))) <==> CleanInTurn(ws, ix, order)
    ensures forall n :: n in ws ==> !InWave(ws, Run(ws, ix, order), n)
    ensures OnEpoch(ws) ==> TokensPresent(ws, ix, Normal) && CleanInTurn(ws, ix, order)
  {
    WaveSafety(ws, ix, order);
    GateAlongOrderIff(ws, ix, order);
    forall n | n in ws
      ensures !InWave(ws, Run(ws, ix, order), n)
    {
      MemberIsOrdered(ws, order, n);
      WaveCompletes(ws, ix, order, n);
    }
    if OnEpoch(ws) {
      TokensOnEpoch(ws, ix, Normal);
      forall i | 0 <= i < |order| && InWave(ws, ix, order[i])
        ensures Clean(ws, ix, order[..i + 1], order[i])
      {
        OnEpochIsClean(ws, ix, order[..i + 1], order[i]);
      }
    }
  }

  /** For requirements of any kind, build and dev included, a passing gate certifies every
      valid order exactly when they name versions, as they do in a tree on its epochs, and
      the unmet ones are also normal dependencies. */
  lemma CertifiedKindIff(ws: Members, ix: Index, order: seq<string>, kind: Kind)
    requires Passes(ws, ix) && ValidOrder(NormalMap(ws), order)
    ensures (forall o :: ValidOrder(NormalMap(ws), o) ==> SafeWave(ws, ix, o, kind))
       <==> TokensPresent(ws, ix, kind) && OrderSafety.Anchored(ws, ix, kind)
    ensures OnEpoch(ws) ==> TokensPresent(ws, ix, kind)
  {
    if OnEpoch(ws) {
      TokensOnEpoch(ws, ix, kind);
    }
    OrderSafety.EveryOrderSafeIff(ws, ix, order, kind);
  }

  // ----- A gate that is not kept -----

  const OLD := Dep("a", Caret([1]), Normal)

  /** "b" is new and asks for "a" 1, while "a" has moved on to 2 in-tree. */
  const NEWCOMER: Members := map["a" := Package(F.TWO, []), "b" := Package(F.ONE, [OLD])]

  const FIRST: Index := map["a" := Release(Max(F.ONE), [F.ONE], [], map[F.ONE := []])]

  lemma NewcomerRecorded(n: string, s: string)
    ensures Recorded(NEWCOMER, n, s) == if n == "b" && s == "a" then Some(OLD) else None
  {
    if n in NEWCOMER {
      LastEntryIsListed(NEWCOMER[n].deps, s);
      assert n == "b" ==> OLD in NEWCOMER[n].deps;
    }
  }

  lemma NewcomerAcyclic()
    ensures Acyclic(NormalMap(NEWCOMER))
  {
    var g, order := NormalMap(NEWCOMER), ["a", "b"];
    assert Succ(g, "a") == {} && Succ(g, "b") == {"a"};
    assert Elements(order) == {"a", "b"} == Nodes(g);
    assert order[..0] == [] && order[..1] == ["a"];
    OrderSafety.OrderedIsAcyclic(g, order);
  }

  lemma NewcomerPasses()
    ensures Passes(NEWCOMER, FIRST)
  {
    NewcomerAcyclic();
    CompareToToken([1, 0, 0], [1]);
    assert F.ONE in Lookup(FIRST, "a").live;
    assert Published(FIRST, "a", OLD.req);
    forall n, s {
      NewcomerRecorded(n, s);
    }
    assert AllPublishable(NEWCOMER, FIRST);
    forall n, d
      ensures !F.Blocks(NEWCOMER, FIRST, n, d)
    {
      assert Lookup(FIRST, n).manifest == [];
    }
    assert NoneFlagged(NEWCOMER, FIRST);
    assert Homogeneous(NEWCOMER, FIRST);
  }

  /** A crate published for the first time is not looked at by the first loop, so a stale
      manifest goes through; one step later it blocks. */
  lemma NewCrateBreaksGate()
    ensures exists ws: Members, ix: Index, n: string ::
      Passes(ws, ix) && Sane(ix) && Lookup(ix, n).latest == Never && !Passes(ws, Run(ws, ix, [n]))
  {
    NewcomerPasses();
    CompareOrder([1, 0, 0], [1, 0, 0], [1, 0, 0]);
    assert Sane(FIRST);
    NewcomerRecorded("b", "a");
    assert OLD in NEWCOMER["b"].deps && F.Stale(NEWCOMER, OLD);
    assert OwnBlock(NEWCOMER, FIRST, ["b"], "b", OLD);
    assert Publishes(NEWCOMER, FIRST, ["b"], "b") && !Clean(NEWCOMER, FIRST, ["b"], "b");
    GateAfterRunIff(NEWCOMER, FIRST, ["b"]);
  }

  // ----- The pre-tag check -----

  /** The entry stands in one of the members' own manifests, not in a demo or fuzz one. */
  ghost predicate FromTree(ws: Members, e: Finalize.Entry) {
    e.version.Some? && exists d :: EntryOf(ws, e.manifest, d) && d.name == e.dep && d.req == e.version.value
  }

  /** The problem list of the pre-tag loop is empty exactly when the members' versioned
      entries pass, and so do those of the other manifests it reads. */
  lemma CleanListIff(ws: Members, entries: seq<Finalize.Entry>)
    requires AllFull(MemberVersions(ws))
    requires forall d, n :: EntryOf(ws, n, d) ==> Finalize.Entry(n, d.name, Some(d.req)) in entries
    ensures Rejected(MemberVersions(ws), entries, EpochPasses) == [] <==>
      && EntriesPass(ws)
      && forall e :: e in entries && Considered(MemberVersions(ws), e) && !FromTree(ws, e)
           ==> EpochPasses(e.version.value, ws[e.dep].version)
  {
    var versions := MemberVersions(ws);
    assert forall n :: n in ws ==> Full(versions[n]);
    if Rejected(versions, entries, EpochPasses) == [] {
      forall n, d | EntryOf(ws, n, d)
        ensures EpochPasses(d.req, ws[d.name].version)
      {
        var e := Finalize.Entry(n, d.name, Some(d.req));
        assert e in entries && Considered(versions, e);
      }
    }
  }
}
