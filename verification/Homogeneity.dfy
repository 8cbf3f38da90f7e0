/** Check 1: every published version a requirement admits is built against the epochs
    the tree is at. */
module Homogeneity {
  import opened Wrappers
  import opened Digraph
  import opened Versions
  import opened Workspace
  import opened Finalize

  /** What the lookups returned: the unyanked versions of each crate, and the normal
      sibling requirements of each published version. */
  datatype Registry = Registry(live: map<string, seq<Version>>, deps: map<(string, Version), map<string, Req>>)

  function LiveOf(reg: Registry, s: string): seq<Version> {
    if s in reg.live then reg.live[s] else []
  }

  function DepsOf(reg: Registry, s: string, v: Version): map<string, Req> {
    if (s, v) in reg.deps then reg.deps[(s, v)] else map[]
  }

  /** `members.get(trans_dep, "0.0.0")` */
  function InTreeEpoch(members: map<string, Version>, d: string): Epoch {
    CompatEpoch(if d in members then members[d].nums else [0, 0, 0])
  }

  /** One in-tree requirement. */
  datatype Need = Need(consumer: string, sibling: string, req: Req, kind: Kind)

  /** The tuple remembered in `seen` and reported. */
  datatype Violation = Violation(consumer: string, req: Req, sibling: string, version: Version, dep: string, pubReq: Req)

  predicate Disagrees(members: map<string, Version>, d: string, pubReq: Req) {
    ReqEpoch(pubReq).Some? && ReqEpoch(pubReq).value != InTreeEpoch(members, d)
  }

  predicate Relevant(need: Need) {
    need.kind != Build && ReqToken(need.req).Some?
  }

  /** `x` is a mismatch reached through `need` and the published version `v` of its sibling. */
  ghost predicate MismatchAt(reg: Registry, members: map<string, Version>, need: Need, v: Version, x: Violation) {
    && x == Violation(need.consumer, need.req, need.sibling, v, x.dep, x.pubReq)
    && x.dep in DepsOf(reg, need.sibling, v) && DepsOf(reg, need.sibling, v)[x.dep] == x.pubReq
    && Disagrees(members, x.dep, x.pubReq)
  }

  ghost predicate MismatchOf(reg: Registry, members: map<string, Version>, need: Need, x: Violation) {
    && Relevant(need) && x.version in LiveOf(reg, need.sibling) && Admits(need.req, x.version.nums)
    && MismatchAt(reg, members, need, x.version, x)
  }

  /** What a mismatch is: whatever kind of requirement other than a build one lets a consumer
      take a published version of the sibling, and that version asks for another member in an
      epoch that is not the tree's. Requirements without a token need no case of their own. */
  lemma MismatchMeaning(reg: Registry, members: map<string, Version>, need: Need, x: Violation)
    requires x.dep in members
    ensures MismatchOf(reg, members, need, x) <==>
      && need.kind in {Normal, Dev} && x.version in LiveOf(reg, need.sibling) && Admits(need.req, x.version.nums)
      && x == Violation(need.consumer, need.req, need.sibling, x.version, x.dep, x.pubReq)
      && (need.sibling, x.version) in reg.deps && x.dep in reg.deps[(need.sibling, x.version)]
      && reg.deps[(need.sibling, x.version)][x.dep] == x.pubReq
      && ReqEpoch(x.pubReq).Some? && ReqEpoch(x.pubReq).value != CompatEpoch(members[x.dep].nums)
  {
    if ReqToken(need.req) == None {
      NoTokenAdmitsNothing(need.req, x.version.nums);
    }
  }

  // ----- The algorithm -----

  /** `seen` remembers exactly what has been reported, each time once. */
  ghost predicate Tracks(seen: set<Violation>, found: seq<Violation>) {
    NoDuplicates(found) && forall x :: x in found <==> x in seen
  }

  method CheckVersion(reg: Registry, members: map<string, Version>, need: Need, v: Version,
                      found: seq<Violation>, seen: set<Violation>)
    returns (found': seq<Violation>, seen': set<Violation>)
    requires Tracks(seen, found)
    ensures Tracks(seen', found')
    ensures forall x :: x in found' <==> x in found || MismatchAt(reg, members, need, v, x)
  {
    found', seen' := found, seen;
    var deps := DepsOf(reg, need.sibling, v);
    var rest := deps.Keys;
    while rest != {}
      invariant rest <= deps.Keys && Tracks(seen', found')
      invariant forall x :: x in found' <==> x in found || (x.dep !in rest && MismatchAt(reg, members, need, v, x))
      decreases rest
    {
      var d :| d in rest;
      var pubReq := deps[d];
      rest := rest - {d};
      if ReqEpoch(pubReq).Some? && ReqEpoch(pubReq).value != InTreeEpoch(members, d) {
        var key := Violation(need.consumer, need.req, need.sibling, v, d, pubReq);
        if key !in seen' {
          AppendElement(found', key);
          found', seen' := found' + [key], seen' + {key};
        }
      }
    }
  }

  method CheckNeed(reg: Registry, members: map<string, Version>, need: Need, found: seq<Violation>, seen: set<Violation>)
    returns (found': seq<Violation>, seen': set<Violation>)
    requires Tracks(seen, found)
    ensures Tracks(seen', found')
    ensures forall x :: x in found' <==> x in found || MismatchOf(reg, members, need, x)
  {
    found', seen' := found, seen;
    if need.kind == Build || ReqToken(need.req) == None {
      return;
    }
    var live := LiveOf(reg, need.sibling);
    for i := 0 to |live|
      invariant Tracks(seen', found')
      invariant forall x :: x in found' <==> x in found || MismatchUpTo(reg, members, need, i, x)
    {
      forall x {
        OneMoreVersion(reg, members, need, i, x);
      }
      var admitted := ReqAdmits(need.req, live[i].nums);
      if admitted {
        found', seen' := CheckVersion(reg, members, need, live[i], found', seen');
      }
    }
    assert live[..|live|] == live;
  }

  /** A mismatch through one of the first `i` published versions. */
  ghost predicate MismatchUpTo(reg: Registry, members: map<string, Version>, need: Need, i: nat, x: Violation)
    requires i <= |LiveOf(reg, need.sibling)|
  {
    x.version in LiveOf(reg, need.sibling)[..i] && MismatchOf(reg, members, need, x)
  }

  lemma OneMoreVersion(reg: Registry, members: map<string, Version>, need: Need, i: nat, x: Violation)
    requires i < |LiveOf(reg, need.sibling)| && Relevant(need)
    ensures MismatchUpTo(reg, members, need, i + 1, x) <==>
      MismatchUpTo(reg, members, need, i, x)
      || (Admits(need.req, LiveOf(reg, need.sibling)[i].nums) && MismatchAt(reg, members, need, LiveOf(reg, need.sibling)[i], x))
  {
    var live := LiveOf(reg, need.sibling);
    assert live[..i + 1] == live[..i] + [live[i]];
  }

  /** `_check1_bucket_homogeneity`: each mismatch once, and every mismatch, whatever the
      `seen` set has swallowed; so silence means there is none. */
  method CheckHomogeneity(reg: Registry, members: map<string, Version>, needs: seq<Need>)
    returns (violations: seq<Violation>)
    ensures NoDuplicates(violations)
    ensures forall x :: x in violations <==> SomeMismatch(reg, members, needs, x)
    ensures violations == [] <==> Homogeneous(reg, members, needs)
  {
    violations := [];
    var seen: set<Violation> := {};
    for i := 0 to |needs|
      invariant Tracks(seen, violations)
      invariant forall x :: x in violations <==> SomeMismatch(reg, members, needs[..i], x)
    {
      assert needs[..i + 1] == needs[..i] + [needs[i]];
      violations, seen := CheckNeed(reg, members, needs[i], violations, seen);
      forall x
        ensures x in violations <==> SomeMismatch(reg, members, needs[..i + 1], x)
      {
      }
    }
    assert needs[..|needs|] == needs;
    assert violations != [] ==> SomeMismatch(reg, members, needs, violations[0]);
  }

  ghost predicate SomeMismatch(reg: Registry, members: map<string, Version>, needs: seq<Need>, x: Violation) {
    exists need :: need in needs && MismatchOf(reg, members, need, x)
  }

  ghost predicate Homogeneous(reg: Registry, members: map<string, Version>, needs: seq<Need>) {
    forall x :: !SomeMismatch(reg, members, needs, x)
  }

  // ----- What silence buys -----

  /** The tree passes the tag check: every requirement on a member is on its epoch. */
  ghost predicate EpochsPass(members: map<string, Version>, needs: seq<Need>) {
    AllFull(members) && forall need :: need in needs && need.sibling in members ==> EpochPasses(need.req, members[need.sibling])
  }

  /** Every requirement of the tree is among the manifest entries the pre-tag check reads. */
  ghost predicate Covered(needs: seq<Need>, entries: seq<Entry>) {
    forall need :: need in needs ==> exists e :: e in entries && e.dep == need.sibling && e.version == Some(need.req)
  }

  /** An empty problem list from the two pre-tag loops is what the theorems below ask for. */
  lemma CleanRunPasses(members: map<string, Version>, needs: seq<Need>, entries: seq<Entry>)
    requires AllFull(members) && Covered(needs, entries)
    ensures Rejected(members, entries, EpochPasses) == [] ==> EpochsPass(members, needs)
    ensures Rejected(members, entries, FloorPasses) == [] ==>
      forall need :: need in needs && need.sibling in members ==> FloorPasses(need.req, members[need.sibling])
  {
    forall need | need in needs && need.sibling in members
      ensures Rejected(members, entries, EpochPasses) == [] ==> EpochPasses(need.req, members[need.sibling])
      ensures Rejected(members, entries, FloorPasses) == [] ==> FloorPasses(need.req, members[need.sibling])
    {
      var e :| e in entries && e.dep == need.sibling && e.version == Some(need.req);
      assert Considered(members, e);
    }
  }

  predicate BeforeFirstMinor(v: Version)
    requires Full(v)
  {
    v.nums[0] == 0 && v.nums[1] == 0
  }

  /** Through a published version of a sibling, a silent check leaves only the epoch the tree is at. */
  lemma SiblingPathInEpoch(reg: Registry, members: map<string, Version>, needs: seq<Need>,
                           need: Need, v: Version, d: string, x: seq<nat>)
    requires Homogeneous(reg, members, needs) && need in needs && Relevant(need)
    requires v in LiveOf(reg, need.sibling) && Admits(need.req, v.nums)
    requires d in DepsOf(reg, need.sibling, v) && d in members
    requires DepsOf(reg, need.sibling, v)[d].Caret? && Admits(DepsOf(reg, need.sibling, v)[d], x)
    ensures CompatEpoch(x) == CompatEpoch(members[d].nums)
  {
    var pubReq := DepsOf(reg, need.sibling, v)[d];
    var violation := Violation(need.consumer, need.req, need.sibling, v, d, pubReq);
    assert !SomeMismatch(reg, members, needs, violation);
    assert !MismatchOf(reg, members, need, violation);
  }

  /** One consumer, a crate it needs, and a sibling it needs whose published versions need
      that crate too: a resolver cannot pick the crate in two epochs. */
  lemma OneEpochPerCrate(reg: Registry, members: map<string, Version>, needs: seq<Need>,
                         direct: Need, via: Need, v: Version, x: seq<nat>, y: seq<nat>)
    requires Homogeneous(reg, members, needs) && EpochsPass(members, needs)
    requires direct in needs && via in needs && direct.consumer == via.consumer && Relevant(via)
    requires direct.sibling in members && !BeforeFirstMinor(members[direct.sibling])
    requires v in LiveOf(reg, via.sibling) && Admits(via.req, v.nums)
    requires direct.sibling in DepsOf(reg, via.sibling, v) && DepsOf(reg, via.sibling, v)[direct.sibling].Caret?
    requires Admits(direct.req, x) && Admits(DepsOf(reg, via.sibling, v)[direct.sibling], y)
    ensures CompatEpoch(x) == CompatEpoch(y)
  {
    TagEpochIsCompatIff(members[direct.sibling]);
    SiblingPathInEpoch(reg, members, needs, via, v, direct.sibling, y);
  }

  /** `via` leads to a published version that wants the crate in another epoch than `direct` does. */
  ghost predicate Splits(reg: Registry, direct: Need, via: Need, v: Version, x: seq<nat>, y: seq<nat>) {
    && direct.consumer == via.consumer
    && v in LiveOf(reg, via.sibling) && Admits(via.req, v.nums) && direct.sibling in DepsOf(reg, via.sibling, v)
    && Admits(direct.req, x) && Admits(DepsOf(reg, via.sibling, v)[direct.sibling], y)
    && CompatEpoch(x) != CompatEpoch(y)
  }

  /** Both checks pass over a consumer of a crate at version `c`, and yet a resolver can pick
      that crate in two epochs. */
  ghost predicate SilentSplit(c: Version, reg: Registry, members: map<string, Version>,
                              direct: Need, via: Need, v: Version, x: seq<nat>, y: seq<nat>) {
    && direct.sibling in members && members[direct.sibling] == c && Relevant(via)
    && Homogeneous(reg, members, [direct, via]) && EpochsPass(members, [direct, via])
    && Splits(reg, direct, via, v, x, y) && DepsOf(reg, via.sibling, v)[direct.sibling].Caret?
  }

  const BASE := Version([1, 0, 0], "")
  const VIA := Need("c", "s", Caret([1]), Normal)

  function NeedPatch(z: nat): Need {
    Need("c", "d", Caret([0, 0, z]), Normal)
  }

  function SplitMembers(c: Version): map<string, Version> {
    map["s" := BASE, "d" := c]
  }

  function SplitRegistry(z: nat): Registry {
    Registry(map["s" := [BASE]], map[("s", BASE) := map["d" := Caret([0, 0, z])]])
  }

  /** The tree asks for the next patch, a published sibling for the current one. */
  lemma NextPatchSplits(c: Version)
    requires Full(c) && BeforeFirstMinor(c)
    ensures SilentSplit(c, SplitRegistry(c.nums[2]), SplitMembers(c), NeedPatch(c.nums[2] + 1), VIA, BASE,
                        [0, 0, c.nums[2] + 1], [0, 0, c.nums[2]])
  {
    var z := c.nums[2];
    PatchesSplit(SplitRegistry(z), NeedPatch(z + 1), VIA, BASE, z);
  }

  lemma PatchesSplit(reg: Registry, direct: Need, via: Need, one: Version, z: nat)
    requires direct.consumer == via.consumer && direct.req == Caret([0, 0, z + 1]) && via.req == Caret([1])
    requires one in LiveOf(reg, via.sibling) && one.nums == [1, 0, 0]
    requires direct.sibling in DepsOf(reg, via.sibling, one)
    requires DepsOf(reg, via.sibling, one)[direct.sibling] == Caret([0, 0, z])
    ensures Splits(reg, direct, via, one, [0, 0, z + 1], [0, 0, z])
  {
    CompareToToken([1, 0, 0], [1]);
    CompareOrder([0, 0, z + 1], [0, 0, z + 1], [0, 0, z + 1]);
    CompareOrder([0, 0, z], [0, 0, z], [0, 0, z]);
  }

  lemma NoSplitOutside(c: Version, reg: Registry, members: map<string, Version>,
                       direct: Need, via: Need, v: Version, x: seq<nat>, y: seq<nat>)
    requires Full(c) && !BeforeFirstMinor(c)
    ensures !SilentSplit(c, reg, members, direct, via, v, x, y)
  {
    if SilentSplit(c, reg, members, direct, via, v, x, y) {
      OneEpochPerCrate(reg, members, [direct, via], direct, via, v, x, y);
    }
  }

  /** Exactly at 0.0.z do the two tools disagree about epochs: both checks can pass over a
      split of the crate at `c` if and only if `c` is 0.0.z. */
  lemma SilentSplitIff(c: Version)
    requires Full(c)
    ensures (exists reg, members, direct, via, v, x, y :: SilentSplit(c, reg, members, direct, via, v, x, y))
       <==> BeforeFirstMinor(c)
  {
    if BeforeFirstMinor(c) {
      NextPatchSplits(c);
    } else {
      forall reg, members, direct, via, v, x, y
        ensures !SilentSplit(c, reg, members, direct, via, v, x, y)
      {
        NoSplitOutside(c, reg, members, direct, via, v, x, y);
      }
    }
  }

  /** With the floor check passing as well, every sibling version check 1 complains about
      is at or above the tree's own. */
  lemma OnlyNewerVersionsFlagged(reg: Registry, members: map<string, Version>, needs: seq<Need>, need: Need, x: Violation)
    requires need in needs && MismatchOf(reg, members, need, x) && EpochsPass(members, needs)
    requires need.sibling in members && !members[need.sibling].Suffixed()
    requires FloorPasses(need.req, members[need.sibling])
    ensures Compare(x.version.nums, members[need.sibling].nums) >= 0
  {
    AdmittedNotBelow(need.req, members[need.sibling], x.version.nums);
  }
}
