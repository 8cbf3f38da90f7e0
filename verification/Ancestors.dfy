/** The directories of the tracked files, grown to a fixpoint. */
module Ancestors {

  /** One past the last slash. */
  function AfterLastSlash(p: string): (i: nat)
    ensures i <= |p|
  {
    if p == [] then 0 else if p[|p| - 1] == '/' then |p| else AfterLastSlash(p[..|p| - 1])
  }

  predicate AllSlashes(p: string) {
    forall i :: 0 <= i < |p| ==> p[i] == '/'
  }

  function StripSlashes(p: string): (r: string)
    ensures r <= p && (p != [] && p[|p| - 1] == '/' ==> |r| < |p|)
  {
    if p != [] && p[|p| - 1] == '/' then StripSlashes(p[..|p| - 1]) else p
  }

  /** `posixpath.dirname` */
  function Dirname(p: string): (d: string)
    ensures d <= p
  {
    var head := p[..AfterLastSlash(p)];
    if AllSlashes(head) then head else StripSlashes(head)
  }

  ghost predicate SlashesIn(p: string, lo: nat, hi: nat) {
    lo <= hi <= |p| && forall i :: lo <= i < hi ==> p[i] == '/'
  }

  ghost predicate NoSlashFrom(p: string, lo: nat) {
    forall i :: lo <= i < |p| ==> p[i] != '/'
  }

  /** `p` is `d`, then slashes, then a last component without any; and `d` keeps no slash at
      its end, unless it is the root and takes them all. */
  ghost predicate Splits(p: string, d: string, m: nat) {
    && d <= p && SlashesIn(p, |d|, m) && NoSlashFrom(p, m)
    && (if SlashesIn(p, 0, |d|) then |d| == m else p[|d| - 1] != '/' && |d| < m)
  }

  /** A path has one parent, the part before the slashes before its last component. */
  lemma DirnameIff(p: string, d: string)
    ensures d == Dirname(p) <==> exists m: nat :: Splits(p, d, m)
  {
    var own, m := Dirname(p), AfterLastSlash(p);
    AfterLastSlashIs(p);
    StripsSlashes(p[..m]);
    assert Splits(p, own, m);
    if k: nat :| Splits(p, d, k) {
      OneSplit(p, own, m, d, k);
    }
  }

  lemma OneSplit(p: string, d: string, m: nat, e: string, k: nat)
    requires Splits(p, d, m) && Splits(p, e, k)
    ensures d == e
  {
    LastIsSlash(p, d, m);
    LastIsSlash(p, e, k);
    assert m == k && |d| == |e|;
  }

  lemma LastIsSlash(p: string, d: string, m: nat)
    requires Splits(p, d, m)
    ensures m > 0 ==> p[m - 1] == '/'
  {
  }

  lemma {:induction false} AfterLastSlashIs(p: string)
    ensures NoSlashFrom(p, AfterLastSlash(p)) && (AfterLastSlash(p) > 0 ==> p[AfterLastSlash(p) - 1] == '/')
  {
    if p == [] || p[|p| - 1] == '/' {
    } else {
      AfterLastSlashIs(p[..|p| - 1]);
    }
  }

  lemma {:induction false} StripsSlashes(p: string)
    ensures SlashesIn(p, |StripSlashes(p)|, |p|) && (StripSlashes(p) != [] ==> p[|StripSlashes(p)| - 1] != '/')
  {
    if p != [] && p[|p| - 1] == '/' {
      StripsSlashes(p[..|p| - 1]);
    }
  }

  /** `k` times the parent. */
  function Up(p: string, k: nat): string {
    if k == 0 then p else Dirname(Up(p, k - 1))
  }

  /** A proper or improper ancestor directory of one of the files. */
  ghost predicate IsAncestor(files: set<string>, d: string) {
    exists f, k: nat :: f in files && k > 0 && Up(f, k) == d
  }

  function Parents(ds: set<string>): set<string> {
    set d | d in ds :: Dirname(d)
  }

  /** All prefixes of the files: where every ancestor lives. */
  ghost function Prefixes(files: set<string>): set<string> {
    set f, k | f in files && 0 <= k <= |f| :: f[..k]
  }

  lemma ParentIsPrefix(files: set<string>, d: string)
    requires d in Prefixes(files)
    ensures Dirname(d) in Prefixes(files)
  {
    var f, k :| f in files && 0 <= k <= |f| && f[..k] == d;
    assert Dirname(d) == f[..|Dirname(d)|];
  }

  lemma ParentOfAncestor(files: set<string>, d: string)
    requires IsAncestor(files, d)
    ensures IsAncestor(files, Dirname(d))
  {
    var f, k: nat :| f in files && k > 0 && Up(f, k) == d;
    assert Up(f, k + 1) == Dirname(d);
  }

  lemma FileParents(files: set<string>)
    ensures forall d :: d in Parents(files) ==> d in Prefixes(files) && IsAncestor(files, d)
  {
    forall d | d in Parents(files)
      ensures d in Prefixes(files) && IsAncestor(files, d)
    {
      var f :| f in files && Dirname(f) == d;
      assert f[..|f|] == f;
      ParentIsPrefix(files, f);
      assert Up(f, 0) == f && Up(f, 1) == d;
    }
  }

  lemma GrowKeeps(files: set<string>, ds: set<string>)
    requires forall d :: d in ds ==> d in Prefixes(files) && IsAncestor(files, d)
    ensures forall d :: d in Parents(ds) ==> d in Prefixes(files) && IsAncestor(files, d)
  {
    forall d | d in Parents(ds)
      ensures d in Prefixes(files) && IsAncestor(files, d)
    {
      var c :| c in ds && Dirname(c) == d;
      ParentIsPrefix(files, c);
      ParentOfAncestor(files, c);
    }
  }

  lemma {:induction false} ClosedHasAll(files: set<string>, ds: set<string>, f: string, k: nat)
    requires Parents(files) <= ds && Parents(ds) <= ds && f in files && k > 0
    ensures Up(f, k) in ds
    decreases k
  {
    if k == 1 {
      assert Up(f, 0) == f && Up(f, 1) == Dirname(f);
      assert Dirname(f) in Parents(files);
    } else {
      ClosedHasAll(files, ds, f, k - 1);
      assert Dirname(Up(f, k - 1)) in Parents(ds);
    }
  }

  /** The `present_dirs` loop: it ends, with exactly the ancestors of the present files. */
  method PresentDirs(files: set<string>) returns (ds: set<string>)
    ensures forall d :: d in ds <==> IsAncestor(files, d)
  {
    ds := Parents(files);
    FileParents(files);
    GrowKeeps(files, ds);
    ds := ds + Parents(ds);
    while true
      invariant Parents(files) <= ds
      invariant forall d :: d in ds ==> d in Prefixes(files) && IsAncestor(files, d)
      decreases Prefixes(files) - ds
    {
      GrowKeeps(files, ds);
      var parents := Parents(ds) - ds;
      if parents == {} {
        assert forall d :: d in Parents(ds) ==> d in parents || d in ds;
        break;
      }
      var x :| x in parents;
      ds := ds + parents;
    }
    forall d | IsAncestor(files, d)
      ensures d in ds
    {
      var f, k: nat :| f in files && k > 0 && Up(f, k) == d;
      ClosedHasAll(files, ds, f, k);
    }
  }
}
