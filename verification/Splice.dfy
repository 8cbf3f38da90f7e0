/** Replacing a generated region of a document between its two markers. */
module Splice {
  import opened Wrappers
  import opened TextSearch

  /** The marker lines of one block. Both are single-line, and the end marker is not empty. */
  datatype Markers = Markers(begin: string, end: string) {
    ghost predicate Valid() {
      '\n' !in end && end != []
    }

    /** The begin marker with the line break the pattern asks for. */
    function Open(): string {
      begin + ['\n']
    }
  }

  // ----- Finding the region -----

  /** The next marked region from `start` on: the leftmost begin marker, then the
      shortest stretch to an end marker. */
  function NextRegion(s: string, m: Markers, start: nat): (r: Option<(nat, nat)>)
    ensures r.Some? ==> start <= r.value.0 < r.value.1 <= |s|
  {
    match Find(s, m.Open(), start)
    case None => None
    case Some(i) =>
      match Find(s, m.end, i + |m.Open()|)
      case None => None
      case Some(k) => Some((i, k + |m.end|))
  }

  /** All regions a left-to-right, non-overlapping search finds. */
  function Regions(s: string, m: Markers, start: nat): seq<(nat, nat)>
    decreases |s| - start
  {
    match NextRegion(s, m, start)
    case None => []
    case Some(r) => [r] + Regions(s, m, r.1)
  }

  datatype SpliceError = NotExactlyOneRegion

  function Region(m: Markers, body: string): string {
    m.Open() + body + ['\n'] + m.end
  }

  /** `splice` */
  function Splice(s: string, m: Markers, body: string): Result<string, SpliceError> {
    var rs := Regions(s, m, 0);
    if |rs| != 1 then Err(NotExactlyOneRegion)
    else
      var r := NextRegion(s, m, 0).value;
      Ok(s[..r.0] + Region(m, body) + s[r.1..])
  }

  // ----- The new text has the new region, and no other -----

  lemma NextRegionShift(s: string, t: string, m: Markers, j: nat, j': nat)
    requires j <= |s| && j' <= |t| && s[j..] == t[j'..]
    ensures NextRegion(s, m, j) == None <==> NextRegion(t, m, j') == None
  {
    var open := m.Open();
    var a, b := Find(s, open, j), Find(t, open, j');
    assert a == None <==> b == None by {
      FindShift(s, t, open, j, j', 0);
    }
    if a.Some? {
      var k := a.value - j + |open|;
      assert b.value + |open| == j' + k by {
        FindShift(s, t, open, j, j', 0);
      }
      assert Find(s, m.end, j + k) == None <==> Find(t, m.end, j' + k) == None by {
        FindShift(s, t, m.end, j, j', k);
      }
    }
  }

  /** Nothing opens before the region: an occurrence would lie in the unchanged part. */
  lemma {:induction false} OpenStaysPut(s: string, t: string, open: string, i: nat)
    requires Find(s, open, 0) == Some(i)
    requires i + |open| <= |t| && t[..i + |open|] == s[..i + |open|]
    ensures Find(t, open, 0) == Some(i)
  {
    FindSpec(s, open, 0);
    forall k: nat | k <= i
      ensures OccursAt(s, open, k) <==> OccursAt(t, open, k)
    {
    }
    FindIs(t, open, 0, i);
  }

  /** After the opening, the first end marker is the generated one when the body has none. */
  lemma {:induction false} EndIsFound(t: string, i: nat, m: Markers, body: string, post: string)
    requires m.Valid() && !Contains(body, m.end)
    requires i <= |t| && t[i..] == body + ['\n'] + m.end + post
    ensures Find(t, m.end, i) == Some(i + |body| + 1)
  {
    var tail := body + ['\n'] + m.end + post;
    forall k: nat | k <= |body| + 1
      ensures OccursAt(tail, m.end, k) <==> k == |body| + 1
    {
      EndInTail(tail, m, body, post, k);
    }
    FindIs(tail, m.end, 0, |body| + 1);
    assert tail[0..] == tail;
    FindShift(tail, t, m.end, 0, i, 0);
  }

  lemma EndInTail(tail: string, m: Markers, body: string, post: string, k: nat)
    requires m.Valid() && !Contains(body, m.end) && k <= |body| + 1
    requires tail == body + ['\n'] + m.end + post
    ensures OccursAt(tail, m.end, k) <==> k == |body| + 1
  {
    var e := m.end;
    FindSpec(body, e, 0);
    if k == |body| + 1 {
      assert tail[k..k + |e|] == e;
    } else if k + |e| <= |body| {
      assert tail[k..k + |e|] == body[k..k + |e|];
      assert !OccursAt(body, e, k);
    } else if k + |e| <= |tail| {
      var window := tail[k..k + |e|];
      assert window[|body| - k] == tail[|body|] == '\n';
      assert '\n' in window;
    }
  }

  /** `r` is a region, and nothing after it is. */
  predicate OnlyRegion(s: string, m: Markers, r: (nat, nat)) {
    NextRegion(s, m, 0) == Some(r) && NextRegion(s, m, r.1) == None
  }

  function Replaced(s: string, m: Markers, r: (nat, nat), body: string): string
    requires r.0 < r.1 <= |s|
  {
    s[..r.0] + Region(m, body) + s[r.1..]
  }

  lemma ReplacedLength(s: string, m: Markers, r: (nat, nat), body: string)
    requires r.0 < r.1 <= |s|
    ensures |Replaced(s, m, r, body)| == |s| - (r.1 - r.0) + |m.begin| + |body| + |m.end| + 2
  {
  }

  lemma SpliceForm(s: string, m: Markers, body: string)
    ensures Splice(s, m, body).Ok? <==> NextRegion(s, m, 0).Some? && OnlyRegion(s, m, NextRegion(s, m, 0).value)
    ensures Splice(s, m, body).Ok? ==> Splice(s, m, body).value == Replaced(s, m, NextRegion(s, m, 0).value, body)
  {
    var first := NextRegion(s, m, 0);
    if first.Some? {
      assert Regions(s, m, 0) == [first.value] + Regions(s, m, first.value.1);
    }
  }

  ghost predicate FirstAt(s: string, p: string, i: nat, k: nat) {
    i <= k && OccursAt(s, p, k) && forall j: nat :: i <= j < k ==> !OccursAt(s, p, j)
  }

  /** From the first begin marker and its line break at or after `start` to the end of the
      first end marker after that. */
  ghost predicate RegionFrom(s: string, m: Markers, start: nat, r: (nat, nat)) {
    FirstAt(s, m.begin + ['\n'], start, r.0) && r.1 >= |m.end| && FirstAt(s, m.end, r.0 + |m.begin| + 1, r.1 - |m.end|)
  }

  lemma FindIff(s: string, p: string, i: nat, k: nat)
    ensures Find(s, p, i) == Some(k) <==> FirstAt(s, p, i, k)
  {
    FindSpec(s, p, i);
    if FirstAt(s, p, i, k) {
      FindIs(s, p, i, k);
    }
  }

  lemma NextRegionIff(s: string, m: Markers, start: nat, r: (nat, nat))
    ensures NextRegion(s, m, start) == Some(r) <==> RegionFrom(s, m, start, r)
  {
    FindIff(s, m.Open(), start, r.0);
    if r.1 >= |m.end| {
      FindIff(s, m.end, r.0 + |m.Open()|, r.1 - |m.end|);
    }
  }

  /** A splice goes through exactly when there is one marked region and no other after it,
      and then puts the markers and the body on lines of their own in its place. */
  lemma SpliceOkIff(s: string, m: Markers, body: string)
    ensures Splice(s, m, body).Ok? <==>
      exists r: (nat, nat) :: RegionFrom(s, m, 0, r) && forall later: (nat, nat) :: !RegionFrom(s, m, r.1, later)
    ensures forall r: (nat, nat) :: Splice(s, m, body).Ok? && RegionFrom(s, m, 0, r) ==>
      Splice(s, m, body).value == s[..r.0] + (m.begin + ['\n'] + body + ['\n'] + m.end) + s[r.1..]
  {
    SpliceForm(s, m, body);
    forall start: nat, r: (nat, nat)
      ensures NextRegion(s, m, start) == Some(r) <==> RegionFrom(s, m, start, r)
    {
      NextRegionIff(s, m, start, r);
    }
    if NextRegion(s, m, 0).Some? {
      var r := NextRegion(s, m, 0).value;
      if NextRegion(s, m, r.1).Some? {
        assert RegionFrom(s, m, r.1, NextRegion(s, m, r.1).value);
      }
    }
  }

  lemma RegionUnfold(s: string, m: Markers, r: (nat, nat))
    requires NextRegion(s, m, 0) == Some(r)
    ensures Find(s, m.Open(), 0) == Some(r.0)
    ensures r.1 >= |m.end| && Find(s, m.end, r.0 + |m.Open()|) == Some(r.1 - |m.end|)
  {
  }

  /** Where the markers of a region stand. */
  lemma RegionParts(s: string, m: Markers, r: (nat, nat))
    requires NextRegion(s, m, 0) == Some(r)
    ensures Find(s, m.Open(), 0) == Some(r.0) && r.0 + |m.Open()| + |m.end| <= r.1
    ensures OccursAt(s, m.Open(), r.0) && OccursAt(s, m.end, r.1 - |m.end|)
  {
    RegionUnfold(s, m, r);
    FindHits(s, m.Open(), 0, r.0);
    FindHits(s, m.end, r.0 + |m.Open()|, r.1 - |m.end|);
  }

  /** Replacing the region does not move its opening. */
  lemma OpeningKept(s: string, m: Markers, r: (nat, nat), body: string)
    requires NextRegion(s, m, 0) == Some(r)
    ensures Find(Replaced(s, m, r, body), m.Open(), 0) == Some(r.0)
  {
    RegionParts(s, m, r);
    var i, open, t := r.0, m.Open(), Replaced(s, m, r, body);
    assert s[..i + |open|] == s[..i] + s[i..i + |open|];
    assert t[..i + |open|] == s[..i] + open;
    OpenStaysPut(s, t, open, i);
  }

  lemma AfterOpening(s: string, m: Markers, r: (nat, nat), body: string)
    requires r.0 < r.1 <= |s|
    ensures r.0 + |m.Open()| <= |Replaced(s, m, r, body)|
    ensures Replaced(s, m, r, body)[r.0 + |m.Open()|..] == body + ['\n'] + m.end + s[r.1..]
  {
    var open, t := m.Open(), Replaced(s, m, r, body);
    assert t == (s[..r.0] + open) + (body + ['\n'] + m.end + s[r.1..]);
  }

  lemma AfterRegion(s: string, m: Markers, r: (nat, nat), body: string)
    requires r.0 < r.1 <= |s|
    ensures r.0 + |Region(m, body)| <= |Replaced(s, m, r, body)|
    ensures Replaced(s, m, r, body)[r.0 + |Region(m, body)|..] == s[r.1..]
    ensures Replaced(s, m, r, body)[..r.0] == s[..r.0]
  {
    var t := Replaced(s, m, r, body);
    assert t == (s[..r.0] + Region(m, body)) + s[r.1..];
  }

  /** A text with one region still has exactly one after the region is replaced. */
  lemma IsOnly(t: string, m: Markers, i: nat, k: nat)
    requires NextRegion(t, m, 0) == Some((i, k)) && NextRegion(t, m, k) == None
    ensures OnlyRegion(t, m, (i, k))
  {
  }

  lemma OneRegion(s: string, m: Markers, body: string, r: (nat, nat))
    requires m.Valid() && !Contains(body, m.end) && OnlyRegion(s, m, r)
    ensures OnlyRegion(Replaced(s, m, r, body), m, (r.0, r.0 + |Region(m, body)|))
  {
    RegionMoved(s, m, body, r);
    NothingAfter(s, m, body, r);
    IsOnly(Replaced(s, m, r, body), m, r.0, r.0 + |Region(m, body)|);
  }

  lemma NothingAfter(s: string, m: Markers, body: string, r: (nat, nat))
    requires r.0 < r.1 <= |s| && NextRegion(s, m, r.1) == None
    ensures NextRegion(Replaced(s, m, r, body), m, r.0 + |Region(m, body)|) == None
  {
    AfterRegion(s, m, r, body);
    NextRegionShift(s, Replaced(s, m, r, body), m, r.1, r.0 + |Region(m, body)|);
  }

  lemma RegionMoved(s: string, m: Markers, body: string, r: (nat, nat))
    requires m.Valid() && !Contains(body, m.end) && NextRegion(s, m, 0) == Some(r)
    ensures NextRegion(Replaced(s, m, r, body), m, 0) == Some((r.0, r.0 + |Region(m, body)|))
  {
    OpeningKept(s, m, r, body);
    AfterOpening(s, m, r, body);
    RegionAt(Replaced(s, m, r, body), m, r.0, body, s[r.1..]);
  }

  lemma RegionAt(t: string, m: Markers, i: nat, body: string, post: string)
    requires m.Valid() && !Contains(body, m.end) && Find(t, m.Open(), 0) == Some(i)
    requires t[i + |m.Open()|..] == body + ['\n'] + m.end + post
    ensures NextRegion(t, m, 0) == Some((i, i + |Region(m, body)|))
  {
    EndIsFound(t, i + |m.Open()|, m, body, post);
  }

  // ----- What splicing promises -----

  /** Everything outside the region is kept, character by character, and what is replaced
      ran from a begin marker to an end marker. */
  lemma SpliceKeepsOutside(s: string, m: Markers, body: string, r: (nat, nat))
    requires Splice(s, m, body).Ok? && NextRegion(s, m, 0) == Some(r)
    ensures Splice(s, m, body).value == s[..r.0] + Region(m, body) + s[r.1..]
    ensures r.0 + |m.Open()| + |m.end| <= r.1 && OccursAt(s, m.Open(), r.0) && OccursAt(s, m.end, r.1 - |m.end|)
  {
    SpliceForm(s, m, body);
    RegionParts(s, m, r);
  }

  /** The last splice wins: a later body, any body, replaces an earlier clean one entirely. */
  lemma SpliceAbsorbs(s: string, m: Markers, body: string, later: string)
    requires m.Valid() && !Contains(body, m.end) && Splice(s, m, body).Ok?
    ensures Splice(Splice(s, m, body).value, m, later) == Splice(s, m, later)
  {
    SpliceForm(s, m, body);
    var r := NextRegion(s, m, 0).value;
    var t := Replaced(s, m, r, body);
    OneRegion(s, m, body, r);
    AfterRegion(s, m, r, body);
    SpliceForm(s, m, later);
    SpliceForm(t, m, later);
  }

  lemma EndInBody(t: string, i: nat, m: Markers, body: string, post: string)
    requires m.Valid() && Contains(body, m.end)
    requires i <= |t| && t[i..] == body + ['\n'] + m.end + post
    ensures Find(t, m.end, i).Some? && Find(t, m.end, i).value + |m.end| <= i + |body|
  {
    FindSpec(body, m.end, 0);
    FindSpec(t, m.end, i);
    var c := Find(body, m.end, 0).value;
    var tail := body + ['\n'] + m.end + post;
    assert tail[c..c + |m.end|] == body[c..c + |m.end|];
    assert OccursAt(tail, m.end, c);
    OccursShift(tail, t, m.end, 0, i, c);
  }

  /** A body that contains the end marker cuts its own region short, and splicing again
      leaves the rest behind or is refused. */
  lemma DirtyBodyGrows(s: string, m: Markers, body: string)
    requires m.Valid() && Contains(body, m.end) && Splice(s, m, body).Ok?
    ensures Splice(Splice(s, m, body).value, m, body) != Splice(s, m, body)
  {
    SpliceForm(s, m, body);
    var r := NextRegion(s, m, 0).value;
    var t := Replaced(s, m, r, body);
    OpeningKept(s, m, r, body);
    AfterOpening(s, m, r, body);
    EndInBody(t, r.0 + |m.Open()|, m, body, s[r.1..]);
    SpliceForm(t, m, body);
    if Splice(t, m, body).Ok? {
      var q := NextRegion(t, m, 0).value;
      RegionUnfold(t, m, q);
      assert q.0 == r.0 && q.1 <= r.0 + |m.Open()| + |body|;
      ReplacedLength(t, m, q, body);
      assert |Splice(t, m, body).value| > |t|;
    }
  }

  /** Splicing is idempotent exactly when the body is free of the end marker. */
  lemma SpliceIdempotentIff(s: string, m: Markers, body: string)
    requires m.Valid() && Splice(s, m, body).Ok?
    ensures Splice(Splice(s, m, body).value, m, body) == Splice(s, m, body) <==> !Contains(body, m.end)
  {
    if Contains(body, m.end) {
      DirtyBodyGrows(s, m, body);
    } else {
      SpliceAbsorbs(s, m, body, body);
    }
  }
}
