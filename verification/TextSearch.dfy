/** Substring search, as `str.find` does it. */
module TextSearch {
  import opened Wrappers

  predicate OccursAt(s: string, p: string, k: nat) {
    k + |p| <= |s| && s[k..k + |p|] == p
  }

  /** The first occurrence at or after `i`. */
  function Find(s: string, p: string, i: nat): (r: Option<nat>)
    ensures r.Some? ==> i <= r.value && r.value + |p| <= |s|
    decreases |s| - i
  {
    if i + |p| > |s| then None
    else if OccursAt(s, p, i) then Some(i)
    else Find(s, p, i + 1)
  }

  lemma {:induction false} FindIs(s: string, p: string, i: nat, k: nat)
    requires i <= k && OccursAt(s, p, k) && forall j: nat :: i <= j < k ==> !OccursAt(s, p, j)
    ensures Find(s, p, i) == Some(k)
    decreases k - i
  {
    if i < k {
      FindIs(s, p, i + 1, k);
    }
  }

  lemma {:induction false} FindSpec(s: string, p: string, i: nat)
    ensures Find(s, p, i).Some? ==> OccursAt(s, p, Find(s, p, i).value)
    ensures Find(s, p, i).Some? ==> forall k: nat :: i <= k < Find(s, p, i).value ==> !OccursAt(s, p, k)
    ensures Find(s, p, i) == None ==> forall k: nat :: i <= k ==> !OccursAt(s, p, k)
    decreases |s| - i
  {
    if i + |p| <= |s| && !OccursAt(s, p, i) {
      FindSpec(s, p, i + 1);
    }
  }

  predicate Contains(s: string, p: string) {
    Find(s, p, 0).Some?
  }

  lemma FindHits(s: string, p: string, i: nat, k: nat)
    requires Find(s, p, i) == Some(k)
    ensures i <= k && OccursAt(s, p, k)
  {
    FindSpec(s, p, i);
  }

  lemma OccursShift(s: string, t: string, p: string, j: nat, j': nat, k: nat)
    requires j <= |s| && j' <= |t| && s[j..] == t[j'..]
    ensures OccursAt(s, p, j + k) <==> OccursAt(t, p, j' + k)
  {
  }

  /** Searching depends only on what is left to search. */
  lemma {:induction false} FindShift(s: string, t: string, p: string, j: nat, j': nat, k: nat)
    requires j <= |s| && j' <= |t| && s[j..] == t[j'..]
    ensures Find(s, p, j + k) == None <==> Find(t, p, j' + k) == None
    ensures Find(s, p, j + k).Some? ==> Find(t, p, j' + k) == Some(Find(s, p, j + k).value - j + j')
    decreases |s| - (j + k)
  {
    assert |s| - j == |s[j..]| == |t[j'..]| == |t| - j';
    OccursShift(s, t, p, j, j', k);
    if j + k + |p| <= |s| && !OccursAt(s, p, j + k) {
      FindShift(s, t, p, j, j', k + 1);
    }
  }
}
