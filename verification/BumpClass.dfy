/** Check 2: a changed sibling epoch demands a major-class bump. */
module BumpClass {
  import opened Wrappers
  import opened Digraph
  import opened Versions
  import opened Workspace
  import opened Wave

  /** `_published_sibling_deps`: the last normal requirement on each member. */
  function PublishedReq(ws: Members, manifest: seq<Dep>, s: string): Option<Req> {
    if manifest == [] then None
    else
      var d := manifest[|manifest| - 1];
      if d.name == s && s in ws && d.kind == Normal then Some(d.req)
      else PublishedReq(ws, manifest[..|manifest| - 1], s)
  }

  ghost predicate LastNormalAt(manifest: seq<Dep>, s: string, i: int) {
    && 0 <= i < |manifest| && manifest[i].name == s && manifest[i].kind == Normal
    && forall j :: i < j < |manifest| && manifest[j].name == s ==> manifest[j].kind != Normal
  }

  /** It is the last normal entry on the member, wildcards included. */
  lemma {:induction false} PublishedReqIff(ws: Members, manifest: seq<Dep>, s: string, r: Req)
    ensures PublishedReq(ws, manifest, s) == Some(r) <==> s in ws && exists i :: LastNormalAt(manifest, s, i) && manifest[i].req == r
  {
    if manifest == [] {
    } else {
      var before, last := manifest[..|manifest| - 1], manifest[|manifest| - 1];
      PublishedReqIff(ws, before, s, r);
      if last.name == s && last.kind == Normal {
        assert LastNormalAt(manifest, s, |manifest| - 1);
      } else {
        assert forall i :: LastNormalAt(manifest, s, i) <==> LastNormalAt(before, s, i);
      }
    }
  }

  /** The requirement moved to another epoch. */
  predicate EpochChanged(published: Option<Req>, inTree: Option<Req>) {
    && published.Some? && inTree.Some?
    && ReqEpoch(published.value).Some? && ReqEpoch(inTree.value).Some?
    && ReqEpoch(published.value) != ReqEpoch(inTree.value)
  }

  /** The crate's version stayed in the bucket of its latest release. */
  predicate SameBucket(ws: Members, ix: Index, n: string) {
    n in ws && Lookup(ix, n).latest.Max?
    && CompatBucket(ws[n].version.nums) == CompatBucket(Lookup(ix, n).latest.version.nums)
  }

  predicate Flagged(ws: Members, ix: Index, n: string, s: string) {
    SameBucket(ws, ix, n) && EpochChanged(PublishedReq(ws, Lookup(ix, n).manifest, s), InTreeReq(ws, n, s, Normal))
  }

  /** The published and the in-tree manifest, by their last normal and last recorded entries,
      ask for tokens of different epochs. */
  ghost predicate Moved(ws: Members, manifest: seq<Dep>, n: string, s: string) {
    exists i, j :: n in ws && s in ws && LastNormalAt(manifest, s, i) && LastAt(ws[n].deps, s, j)
                && ws[n].deps[j].kind == Normal && TokensApart(manifest[i].req, ws[n].deps[j].req)
  }

  predicate TokensApart(a: Req, b: Req) {
    ReqToken(a).Some? && ReqToken(b).Some? && CompatEpoch(ReqToken(a).value) != CompatEpoch(ReqToken(b).value)
  }

  /** What check 2 flags: the epoch asked for moved, up or down, and the crate's own version
      is in the epoch of the latest one, or both are 0.0.z. */
  lemma FlaggedIff(ws: Members, ix: Index, n: string, s: string)
    ensures Flagged(ws, ix, n, s) <==>
      && n in ws && Lookup(ix, n).latest.Max? && Moved(ws, Lookup(ix, n).manifest, n, s)
      && (CompatEpoch(ws[n].version.nums) == CompatEpoch(Lookup(ix, n).latest.version.nums)
          || (InCaretRange([0, 0], ws[n].version.nums) && InCaretRange([0, 0], Lookup(ix, n).latest.version.nums)))
  {
    if n in ws && Lookup(ix, n).latest.Max? {
      BucketIff(ws[n].version.nums, Lookup(ix, n).latest.version.nums);
      MovedIff(ws, Lookup(ix, n).manifest, n, s);
    }
  }

  lemma MovedIff(ws: Members, manifest: seq<Dep>, n: string, s: string)
    ensures Moved(ws, manifest, n, s) <==> EpochChanged(PublishedReq(ws, manifest, s), InTreeReq(ws, n, s, Normal))
  {
    if n in ws && s in ws {
      var deps := ws[n].deps;
      if EpochChanged(PublishedReq(ws, manifest, s), InTreeReq(ws, n, s, Normal)) {
        PublishedReqIff(ws, manifest, s, PublishedReq(ws, manifest, s).value);
        LastEntryIff(deps, s, LastEntry(deps, s).value);
        var i :| LastNormalAt(manifest, s, i) && Some(manifest[i].req) == PublishedReq(ws, manifest, s);
        var j :| LastAt(deps, s, j) && Some(deps[j]) == LastEntry(deps, s);
        assert TokensApart(manifest[i].req, deps[j].req);
      }
      if Moved(ws, manifest, n, s) {
        var i, j :| LastNormalAt(manifest, s, i) && LastAt(deps, s, j) && deps[j].kind == Normal
                 && TokensApart(manifest[i].req, deps[j].req);
        PublishedReqIff(ws, manifest, s, manifest[i].req);
        LastEntryIff(deps, s, deps[j]);
      }
    }
  }

  // ----- The loops -----

  ghost predicate Collects(ws: Members, manifest: seq<Dep>, reqs: map<string, Req>) {
    forall s :: (s in reqs <==> PublishedReq(ws, manifest, s).Some?)
             && (s in reqs ==> reqs[s] == PublishedReq(ws, manifest, s).value)
  }

  /** The dictionary of a published manifest: later entries overwrite earlier ones. */
  method PublishedSiblingDeps(ws: Members, manifest: seq<Dep>) returns (reqs: map<string, Req>)
    ensures Collects(ws, manifest, reqs)
  {
    reqs := map[];
    for i := 0 to |manifest|
      invariant Collects(ws, manifest[..i], reqs)
    {
      var d := manifest[i];
      assert manifest[..i + 1][..i] == manifest[..i] && manifest[..i + 1][i] == d;
      if d.name in ws && d.kind == Normal {
        reqs := reqs[d.name := d.req];
      }
    }
    assert manifest[..|manifest|] == manifest;
  }

  /** The findings of check 2 about one crate, in the order its siblings are met. */
  method CheckCrate(ws: Members, rec: Recording, ix: Index, n: string) returns (flagged: seq<string>)
    requires Records(ws, rec, ws.Keys) && n in ws
    ensures NoDuplicates(flagged) && forall s :: s in flagged <==> Flagged(ws, ix, n, s)
  {
    flagged := [];
    var latest := Lookup(ix, n).latest;
    if !latest.Max? {
      return;
    }
    if CompatBucket(ws[n].version.nums) != CompatBucket(latest.version.nums) {
      return;
    }
    var reqs := PublishedSiblingDeps(ws, Lookup(ix, n).manifest);
    var rest := reqs.Keys;
    while rest != {}
      invariant rest <= reqs.Keys && NoDuplicates(flagged)
      invariant forall s :: s in flagged <==> s in reqs.Keys - rest && Flagged(ws, ix, n, s)
      decreases rest
    {
      var s :| s in rest;
      rest := rest - {s};
      var published := ReqEpoch(reqs[s]);
      if published == None {
        continue;
      }
      var req := FindReq(ws, rec, n, s, Normal);
      if req == None {
        continue;
      }
      var inTree := ReqEpoch(req.value);
      if inTree == None || published == inTree {
        continue;
      }
      AppendElement(flagged, s);
      flagged := flagged + [s];
    }
  }

  datatype Finding = Finding(crate: string, sibling: string)

  /** `_check2_bump_class`: every member in turn. */
  method CheckBumpClass(ws: Members, ix: Index) returns (findings: seq<Finding>)
    ensures forall f :: f in findings <==> f.crate in ws && Flagged(ws, ix, f.crate, f.sibling)
  {
    findings := [];
    var rec := WorkspaceDependencies(ws);
    var rest := ws.Keys;
    while rest != {}
      invariant rest <= ws.Keys
      invariant forall f :: f in findings <==> f.crate in ws.Keys - rest && Flagged(ws, ix, f.crate, f.sibling)
      decreases rest
    {
      var n :| n in rest;
      rest := rest - {n};
      var flagged := CheckCrate(ws, rec, ix, n);
      findings := AddFindings(findings, n, flagged);
    }
  }

  method AddFindings(findings: seq<Finding>, n: string, flagged: seq<string>) returns (r: seq<Finding>)
    ensures forall f :: f in r <==> f in findings || (f.crate == n && f.sibling in flagged)
  {
    r := findings;
    for i := 0 to |flagged|
      invariant forall f :: f in r <==> f in findings || (f.crate == n && f.sibling in flagged[..i])
    {
      assert flagged[..i + 1] == flagged[..i] + [flagged[i]];
      r := r + [Finding(n, flagged[i])];
    }
    assert flagged[..|flagged|] == flagged;
  }

  // ----- The suggested version -----

  function Suggestion(ws: Members, n: string): Version
    requires n in ws
  {
    Version(NextBump(CompatBucket(ws[n].version.nums)), "")
  }

  function Adopt(ws: Members, n: string): Members
    requires n in ws
  {
    ws[n := ws[n].(version := Suggestion(ws, n))]
  }

  /** Adopting the suggestion silences every finding about the crate, leaves it ahead of
      the index so that the wave republishes it, and no lower version does both. */
  lemma SuggestionSilences(ws: Members, ix: Index, n: string, s: string)
    requires Flagged(ws, ix, n, s)
    ensures forall t :: !Flagged(Adopt(ws, n), ix, n, t)
    ensures InWave(Adopt(ws, n), ix, n)
    ensures forall w: Version ::
              (Compare(w.nums, Lookup(ix, n).latest.version.nums) > 0
               && CompatBucket(w.nums) != CompatBucket(ws[n].version.nums)
               ==> Compare(w.nums, Suggestion(ws, n).nums) >= 0)
  {
    var m := Lookup(ix, n).latest.version.nums;
    var next := Suggestion(ws, n).nums;
    NextBumpIsLeast(m, m, m);
    CompareOrder(next, m, m);
    forall w: Version | Compare(w.nums, m) > 0 && CompatBucket(w.nums) != CompatBucket(m)
      ensures Compare(w.nums, next) >= 0
    {
      LeavingIsAbove(m, w.nums);
    }
  }

  /** A higher version outside the bucket is at or above the suggestion. */
  lemma LeavingIsAbove(m: seq<nat>, w: seq<nat>)
    requires Compare(w, m) > 0 && CompatBucket(w) != CompatBucket(m)
    ensures Compare(w, NextBump(CompatBucket(m))) >= 0
  {
    CompareToToken(w, NextBump(CompatBucket(m)));
    LexThree(Padded(w), Padded(m));
  }
}
