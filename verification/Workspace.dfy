/** The workspace as `cargo metadata` reports it, and the three views the check takes of it. */
module Workspace {
  import opened Wrappers
  import opened Digraph
  import opened Versions

  datatype Kind = Normal | Dev | Build

  datatype Dep = Dep(name: string, req: Req, kind: Kind)

  datatype Package = Package(version: Version, deps: seq<Dep>)

  type Members = map<string, Package>

  /** The last entry of a manifest on `s` that is not a wildcard. */
  function LastEntry(deps: seq<Dep>, s: string): Option<Dep> {
    if deps == [] then None
    else
      var last := deps[|deps| - 1];
      if last.name == s && last.req != Wildcard then Some(last) else LastEntry(deps[..|deps| - 1], s)
  }

  /** The one entry `workspace_dependencies` keeps for a pair of members. */
  function Recorded(ws: Members, n: string, s: string): Option<Dep> {
    if n in ws && s in ws then LastEntry(ws[n].deps, s) else None
  }

  lemma {:induction false} LastEntryIsListed(deps: seq<Dep>, s: string)
    ensures LastEntry(deps, s) == None <==> forall d :: d in deps && d.name == s ==> d.req == Wildcard
    ensures LastEntry(deps, s).Some? ==>
      LastEntry(deps, s).value in deps && LastEntry(deps, s).value.name == s && LastEntry(deps, s).value.req != Wildcard
  {
    if deps == [] {
    } else {
      LastEntryIsListed(deps[..|deps| - 1], s);
      assert deps == deps[..|deps| - 1] + [deps[|deps| - 1]];
    }
  }

  /** The recorded requirement on `s`, if it is of this kind. */
  function InTreeReq(ws: Members, n: string, s: string, kind: Kind): Option<Req> {
    match Recorded(ws, n, s)
    case Some(d) => if d.kind == kind then Some(d.req) else None
    case None => None
  }

  ghost predicate LastAt(deps: seq<Dep>, s: string, i: int) {
    && 0 <= i < |deps| && deps[i].name == s && deps[i].req != Wildcard
    && forall j :: i < j < |deps| && deps[j].name == s ==> deps[j].req == Wildcard
  }

  /** Of several entries on one sibling it is the last that counts, wildcards aside. */
  lemma {:induction false} LastEntryIff(deps: seq<Dep>, s: string, d: Dep)
    ensures LastEntry(deps, s) == Some(d) <==> exists i :: LastAt(deps, s, i) && deps[i] == d
  {
    if deps == [] {
    } else {
      var before, last := deps[..|deps| - 1], deps[|deps| - 1];
      LastEntryIff(before, s, d);
      if last.name == s && last.req != Wildcard {
        assert LastAt(deps, s, |deps| - 1);
      } else {
        assert forall i :: LastAt(deps, s, i) <==> LastAt(before, s, i);
      }
    }
  }

  function EdgeMap(ws: Members, kind: Kind): Graph {
    map n | n in ws :: set d | d in ws[n].deps && d.name in ws && d.kind == kind :: d.name
  }

  /** `workspace_normal_dep_map`: built from every entry, not only the recorded ones. */
  function NormalMap(ws: Members): Graph {
    EdgeMap(ws, Normal)
  }

  /** `workspace_dev_dep_map` */
  function DevMap(ws: Members): Graph {
    EdgeMap(ws, Dev)
  }

  /** The loops of both maps: an empty set for each member, then its entries of the kind. */
  method DepMap(ws: Members, kind: Kind) returns (g: Graph)
    ensures g == EdgeMap(ws, kind)
  {
    g := map[];
    var rest := ws.Keys;
    while rest != {}
      invariant rest <= ws.Keys && g.Keys == ws.Keys - rest
      invariant forall n :: n in g ==> g[n] == EdgeMap(ws, kind)[n]
      decreases rest
    {
      var n :| n in rest;
      rest := rest - {n};
      var deps, out: set<string> := ws[n].deps, {};
      for i := 0 to |deps|
        invariant out == set d | d in deps[..i] && d.name in ws && d.kind == kind :: d.name
      {
        var d := deps[i];
        assert deps[..i + 1] == deps[..i] + [d];
        if d.name in ws && d.kind == kind {
          out := out + {d.name};
        }
      }
      assert deps[..|deps|] == deps;
      g := g[n := out];
    }
  }

  /** Entry `i` of the manifest is a dependency of this kind on another member. */
  ghost predicate ListedAt(ws: Members, n: string, i: int, s: string, kind: Kind) {
    n in ws && s in ws && 0 <= i < |ws[n].deps| && ws[n].deps[i].name == s && ws[n].deps[i].kind == kind
  }

  /** The edges of the two graphs are the normal and the dev entries, of any requirement;
      build entries are in neither. */
  lemma EdgesAreEntries(ws: Members, n: string, s: string)
    ensures s in Succ(NormalMap(ws), n) <==> exists i :: ListedAt(ws, n, i, s, Normal)
    ensures s in Succ(DevMap(ws), n) <==> exists i :: ListedAt(ws, n, i, s, Dev)
  {
    forall i, kind | ListedAt(ws, n, i, s, kind)
      ensures s in Succ(EdgeMap(ws, kind), n)
    {
      assert ws[n].deps[i] in ws[n].deps;
    }
    forall kind | s in Succ(EdgeMap(ws, kind), n)
      ensures exists i :: ListedAt(ws, n, i, s, kind)
    {
      var d :| d in ws[n].deps && d.name == s && d.kind == kind;
      var i :| 0 <= i < |ws[n].deps| && ws[n].deps[i] == d;
      assert ListedAt(ws, n, i, s, kind);
    }
  }

  /** A recorded normal requirement is always an edge of the publish-order graph. */
  lemma RecordedNormalIsEdge(ws: Members, n: string, s: string)
    requires Recorded(ws, n, s).Some? && Recorded(ws, n, s).value.kind == Normal
    ensures s in Succ(NormalMap(ws), n)
  {
    LastEntryIsListed(ws[n].deps, s);
    var d := Recorded(ws, n, s).value;
    assert d in ws[n].deps && d.name == s;
  }

  type Recording = map<(string, string), Dep>

  ghost predicate Records(ws: Members, m: Recording, from: set<string>) {
    forall n, s :: ((n, s) in m <==> n in from && Recorded(ws, n, s).Some?)
                && ((n, s) in m ==> m[(n, s)] == Recorded(ws, n, s).value)
  }

  /** `workspace_dependencies`: later entries overwrite earlier ones. */
  method WorkspaceDependencies(ws: Members) returns (m: Recording)
    ensures Records(ws, m, ws.Keys)
  {
    m := map[];
    var rest := ws.Keys;
    while rest != {}
      invariant rest <= ws.Keys && Records(ws, m, ws.Keys - rest)
      decreases rest
    {
      var n :| n in rest;
      m := RecordPackage(ws, n, m, ws.Keys - rest);
      rest := rest - {n};
      assert ws.Keys - rest == ws.Keys - (rest + {n}) + {n};
    }
  }

  method RecordPackage(ws: Members, n: string, m: Recording, ghost from: set<string>) returns (r: Recording)
    requires n in ws && n !in from && Records(ws, m, from)
    ensures Records(ws, r, from + {n})
  {
    r := m;
    var deps := ws[n].deps;
    for i := 0 to |deps|
      invariant forall a, s :: a != n ==> ((a, s) in r <==> (a, s) in m) && ((a, s) in r ==> r[(a, s)] == m[(a, s)])
      invariant forall s :: ((n, s) in r <==> s in ws && LastEntry(deps[..i], s).Some?)
                         && ((n, s) in r ==> r[(n, s)] == LastEntry(deps[..i], s).value)
    {
      var d := deps[i];
      assert deps[..i + 1][..i] == deps[..i] && deps[..i + 1][i] == d;
      if d.name in ws && d.req != Wildcard {
        r := r[(n, d.name) := d];
      }
    }
    assert deps[..|deps|] == deps;
  }

  /** The search through the recorded requirements for an entry of one kind. */
  method FindReq(ghost ws: Members, rec: Recording, n: string, s: string, kind: Kind) returns (found: Option<Req>)
    requires Records(ws, rec, ws.Keys)
    ensures found == InTreeReq(ws, n, s, kind)
  {
    var rest := rec.Keys;
    while rest != {}
      invariant rest <= rec.Keys
      invariant forall key :: key in rec.Keys - rest ==> !(key == (n, s) && rec[key].kind == kind)
      decreases rest
    {
      var key :| key in rest;
      if key.0 == n && key.1 == s && rec[key].kind == kind {
        return Some(rec[key].req);
      }
      rest := rest - {key};
    }
    assert (n, s) in rec ==> (n, s) in rec.Keys - rest;
    return None;
  }
}
