/** The pre-tag check's own version model: sibling epochs and sibling floors. */
module Finalize {
  import opened Wrappers
  import opened Versions

  /** Cargo accepts only three-number versions in a manifest. */
  predicate Full(v: Version) {
    |v.nums| == 3
  }

  /** `epoch`: the major, or `0` and the minor. */
  function TagEpoch(nums: seq<nat>): seq<nat>
    requires |nums| >= 2
  {
    if nums[0] == 0 then [0, nums[1]] else [nums[0]]
  }

  datatype Problem = NonCaret | SpansEpochs

  /** `req_epoch` */
  function RequiredTagEpoch(r: Req): Result<seq<nat>, Problem> {
    if !r.Caret? then Err(NonCaret)
    else if r.floor[0] != 0 then Ok([r.floor[0]])
    else if |r.floor| < 2 then Err(SpansEpochs)
    else Ok([0, r.floor[1]])
  }

  /** `req_floor` of a requirement. */
  function RequiredFloor(r: Req): Option<seq<nat>> {
    if r.Caret? then Some(Padded(r.floor)) else None
  }

  /** `req_floor` of a sibling's own version; a suffix makes the pattern fail. */
  function VersionFloor(v: Version): Option<seq<nat>> {
    if v.Suffixed() || |v.nums| > 3 || |v.nums| == 0 then None else Some(Padded(v.nums))
  }

  predicate EpochPasses(r: Req, c: Version)
    requires Full(c)
  {
    RequiredTagEpoch(r) == Ok(TagEpoch(c.nums))
  }

  predicate FloorPasses(r: Req, c: Version) {
    !(RequiredFloor(r).Some? && VersionFloor(c).Some? && Lex(RequiredFloor(r).value, VersionFloor(c).value) < 0)
  }

  // ----- The two loops -----

  /** One dependency entry of one manifest; `version` is absent on a path-only entry. */
  datatype Entry = Entry(manifest: string, dep: string, version: Option<Req>)

  predicate Considered(members: map<string, Version>, e: Entry) {
    e.dep in members && e.version.Some?
  }

  /** The entries a check looks at and rejects, in order. */
  function Rejected(members: map<string, Version>, entries: seq<Entry>, passes: (Req, Version) --> bool): (bad: seq<Entry>)
    requires forall c, r :: c in members ==> passes.requires(r, members[c])
    ensures bad == [] <==>
      forall e :: e in entries && Considered(members, e) ==> passes(e.version.value, members[e.dep])
  {
    if entries == [] then []
    else
      var last := entries[|entries| - 1];
      var before := Rejected(members, entries[..|entries| - 1], passes);
      assert entries == entries[..|entries| - 1] + [last];
      if Considered(members, last) && !passes(last.version.value, members[last.dep]) then before + [last] else before
  }

  /** Passes nothing, so that `Rejected` lists every entry considered. */
  predicate PassesNothing(r: Req, v: Version) {
    false
  }

  ghost predicate AllFull(members: map<string, Version>) {
    forall c :: c in members ==> Full(members[c])
  }

  /** `check_epochs` */
  method CheckEpochs(members: map<string, Version>, entries: seq<Entry>) returns (n: nat, bad: seq<Entry>)
    requires AllFull(members)
    ensures bad == Rejected(members, entries, EpochPasses)
    ensures n == |Rejected(members, entries, PassesNothing)|
  {
    n, bad := 0, [];
    for i := 0 to |entries|
      invariant n == |Rejected(members, entries[..i], PassesNothing)|
      invariant bad == Rejected(members, entries[..i], EpochPasses)
    {
      var e := entries[i];
      assert entries[..i + 1][..i] == entries[..i] && entries[..i + 1][i] == e;
      if e.dep in members && e.version.Some? {
        n := n + 1;
        var have := RequiredTagEpoch(e.version.value);
        if have.Err? || have.value != TagEpoch(members[e.dep].nums) {
          bad := bad + [e];
        }
      }
    }
    assert entries[..|entries|] == entries;
  }

  /** `floor_problems` over the entries of the planned crates. */
  method CheckFloors(members: map<string, Version>, entries: seq<Entry>) returns (n: nat, bad: seq<Entry>)
    ensures bad == Rejected(members, entries, FloorPasses)
    ensures n == |Rejected(members, entries, PassesNothing)|
  {
    n, bad := 0, [];
    for i := 0 to |entries|
      invariant n == |Rejected(members, entries[..i], PassesNothing)|
      invariant bad == Rejected(members, entries[..i], FloorPasses)
    {
      var e := entries[i];
      assert entries[..i + 1][..i] == entries[..i] && entries[..i + 1][i] == e;
      if e.dep in members && e.version.Some? {
        n := n + 1;
        var floor, current := RequiredFloor(e.version.value), VersionFloor(members[e.dep]);
        if floor.Some? && current.Some? && Lex(floor.value, current.value) < 0 {
          bad := bad + [e];
        }
      }
    }
    assert entries[..|entries|] == entries;
  }

  /** The list is a filter of the entries: it is built piece by piece, in order, and holds an
      entry as often as it was considered and rejected. Its length is therefore a count. */
  lemma {:induction false} RejectedFilters(members: map<string, Version>, a: seq<Entry>, b: seq<Entry>, passes: (Req, Version) --> bool)
    requires forall c, r :: c in members ==> passes.requires(r, members[c])
    ensures Rejected(members, a + b, passes) == Rejected(members, a, passes) + Rejected(members, b, passes)
    ensures |b| == 1 && b[0].dep in members && b[0].version.Some? && !passes(b[0].version.value, members[b[0].dep]) ==>
      Rejected(members, b, passes) == b
    ensures |b| == 1 && !(b[0].dep in members && b[0].version.Some? && !passes(b[0].version.value, members[b[0].dep])) ==>
      Rejected(members, b, passes) == []
  {
    if b == [] {
      assert a + b == a;
    } else {
      RejectedFilters(members, a, b[..|b| - 1], passes);
      assert (a + b)[..|a + b| - 1] == a + b[..|b| - 1];
      assert |b| == 1 ==> Rejected(members, b[..|b| - 1], passes) == [] && b == [b[0]];
    }
  }

  // ----- What passing means for admission -----

  /** The epoch check says that the requirement is a plain one whose whole Cargo range, from
      its floor to the next incompatible version, lies in the sibling's epoch. */
  lemma EpochPassesIff(r: Req, c: Version)
    requires Full(c)
    ensures EpochPasses(r, c) <==>
      r.Caret? && forall v: seq<nat> :: |v| >= 2 && InCaretRange(r.floor, v) ==> TagEpoch(v) == TagEpoch(c.nums)
  {
    if r.Caret? {
      var low := Padded(r.floor);
      CompareToToken(low, r.floor);
      CompareToToken(low, CaretCeiling(r.floor));
      assert InCaretRange(r.floor, low);
      if r.floor == [0] {
        var other := [0, c.nums[1] + 1];
        CompareToToken(other, r.floor);
        CompareToToken(other, CaretCeiling(r.floor));
        assert InCaretRange(r.floor, other);
      } else {
        forall v: seq<nat> | |v| >= 2 && InCaretRange(r.floor, v)
          ensures TagEpoch(v) == TagEpoch(low)
        {
          CompareToToken(v, r.floor);
          CompareToToken(v, CaretCeiling(r.floor));
        }
      }
    }
  }

  /** The floor check says that the requirement is no plain one, or the sibling has a suffix,
      or nothing in the requirement's Cargo range is older than the sibling. */
  lemma FloorPassesIff(r: Req, c: Version)
    requires Full(c)
    ensures FloorPasses(r, c) <==>
      !r.Caret? || c.Suffixed() || forall v: seq<nat> :: InCaretRange(r.floor, v) ==> Compare(v, c.nums) >= 0
  {
    if r.Caret? && !c.Suffixed() {
      var low := Padded(r.floor);
      CompareToToken(low, r.floor);
      CompareToToken(low, CaretCeiling(r.floor));
      assert InCaretRange(r.floor, low) && Compare(low, c.nums) == Lex(low, c.nums);
      forall v: seq<nat> | InCaretRange(r.floor, v)
        ensures Compare(low, c.nums) >= 0 ==> Compare(v, c.nums) >= 0
      {
        CompareOrder(c.nums, r.floor, v);
        CompareOrder(r.floor, c.nums, v);
        CompareOrder(v, r.floor, c.nums);
        CompareOrder(v, c.nums, c.nums);
      }
    }
  }

  /** A requirement that passes the epoch check admits nothing outside the sibling's tag epoch. */
  lemma AdmittedInTagEpoch(r: Req, c: Version, v: seq<nat>)
    requires Full(c) && EpochPasses(r, c) && |v| >= 2 && Admits(r, v)
    ensures TagEpoch(v) == TagEpoch(c.nums)
  {
  }

  /** If it passes the floor check too, it admits nothing below the sibling's version. */
  lemma AdmittedNotBelow(r: Req, c: Version, v: seq<nat>)
    requires Full(c) && !c.Suffixed() && EpochPasses(r, c) && FloorPasses(r, c) && Admits(r, v)
    ensures Compare(v, c.nums) >= 0
  {
    CompareOrder(v, r.floor, c.nums);
    CompareOrder(c.nums, r.floor, v);
    CompareOrder(r.floor, c.nums, c.nums);
    CompareOrder(v, c.nums, c.nums);
  }

  /** The first version of its tag epoch. */
  function EpochStart(nums: seq<nat>): Token
    requires |nums| >= 2
  {
    if nums[0] == 0 then [0, nums[1], 0] else [nums[0], 0, 0]
  }

  /** A pre-release sibling slips past the floor check: unless it opens its epoch,
      the bare epoch requirement passes both checks and admits an older version. */
  lemma SuffixSlipsPast(c: Version)
    requires Full(c) && c.Suffixed() && c.nums != EpochStart(c.nums)
    ensures EpochPasses(Caret(TagEpoch(c.nums)), c) && FloorPasses(Caret(TagEpoch(c.nums)), c)
    ensures Admits(Caret(TagEpoch(c.nums)), EpochStart(c.nums)) && Compare(EpochStart(c.nums), c.nums) < 0
  {
    var low := EpochStart(c.nums);
    CompareToToken(low, TagEpoch(c.nums));
    CompareToToken(low, c.nums);
  }

  lemma NothingBelowStart(r: Req, c: Version, v: seq<nat>)
    requires Full(c) && EpochPasses(r, c) && Admits(r, v)
    ensures Compare(v, EpochStart(c.nums)) >= 0
  {
    CompareToToken(v, EpochStart(c.nums));
    CompareToToken(v, r.floor);
  }

  /** Exactly when the two checks together rule out older sibling versions. */
  lemma FloorsRuleOutOlderIff(c: Version)
    requires Full(c)
    ensures (forall r: Req, v: seq<nat> ::
              EpochPasses(r, c) && FloorPasses(r, c) && Admits(r, v) ==> Compare(v, c.nums) >= 0)
       <==> !c.Suffixed() || c.nums == EpochStart(c.nums)
  {
    if c.Suffixed() && c.nums != EpochStart(c.nums) {
      SuffixSlipsPast(c);
    } else {
      forall r: Req, v: seq<nat> | EpochPasses(r, c) && FloorPasses(r, c) && Admits(r, v)
        ensures Compare(v, c.nums) >= 0
      {
        if c.Suffixed() {
          NothingBelowStart(r, c, v);
        } else {
          AdmittedNotBelow(r, c, v);
        }
      }
    }
  }

  /** Where the two tools' epochs coincide: passing the epoch check puts every admitted
      version in the sibling's caret epoch exactly when the sibling is not at 0.0.z. */
  lemma TagEpochIsCompatIff(c: Version)
    requires Full(c)
    ensures (forall r: Req, v: seq<nat> :: EpochPasses(r, c) && Admits(r, v) ==> CompatEpoch(v) == CompatEpoch(c.nums))
       <==> c.nums[0] != 0 || c.nums[1] != 0
  {
    if c.nums[0] == 0 && c.nums[1] == 0 {
      var other: Token := [0, 0, c.nums[2] + 1];
      assert EpochPasses(Caret(other), c);
      CompareOrder(other, other, other);
      assert Admits(Caret(other), other);
      assert CompatEpoch(other) != CompatEpoch(c.nums);
    }
  }
}
