/** The build script's compiler from a registry name table to the arms of a `match`. */
module NameTable {
  import opened Wrappers

  datatype Entry = Entry(lo: nat, hi: nat, name: string, isRange: bool)

  /** A generated arm; an exact arm has equal bounds. */
  datatype Arm = Arm(lo: nat, hi: nat, name: string)

  predicate Covers(a: Arm, id: nat) {
    a.lo <= id <= a.hi
  }

  /** The generated `match`: the first arm that covers the id. */
  function FirstMatch(arms: seq<Arm>, id: nat): Option<string> {
    if arms == [] then None
    else if Covers(arms[0], id) then Some(arms[0].name)
    else FirstMatch(arms[1..], id)
  }

  // ----- Specification over the file -----

  function ArmOf(e: Entry): Arm {
    Arm(e.lo, e.hi, e.name)
  }

  /** Entry `i` is the first of its sort (exact or range) with its low bound. */
  ghost predicate Kept(entries: seq<Entry>, i: nat)
    requires i < |entries|
  {
    forall j :: 0 <= j < i && entries[j].isRange == entries[i].isRange ==> entries[j].lo != entries[i].lo
  }

  ghost predicate KeptArm(entries: seq<Entry>, isRange: bool, a: Arm) {
    exists i :: 0 <= i < |entries| && entries[i].isRange == isRange && Kept(entries, i) && ArmOf(entries[i]) == a
  }

  /** Exact entries name one id each. */
  ghost predicate ExactBounds(entries: seq<Entry>) {
    forall e :: e in entries && !e.isRange ==> e.lo == e.hi
  }

  /** The first exact entry for the id, in file order. */
  function ScanExact(entries: seq<Entry>, id: nat): Option<string> {
    if entries == [] then None
    else if !entries[0].isRange && entries[0].lo == id then Some(entries[0].name)
    else ScanExact(entries[1..], id)
  }

  /** The first range entry that contains the id, in file order. */
  function ScanRange(entries: seq<Entry>, id: nat): Option<string> {
    if entries == [] then None
    else if entries[0].isRange && Covers(ArmOf(entries[0]), id) then Some(entries[0].name)
    else ScanRange(entries[1..], id)
  }

  /** `a` is the kept range of smallest low bound that contains the id. */
  ghost predicate LowestRange(entries: seq<Entry>, id: nat, a: Arm) {
    KeptArm(entries, true, a) && Covers(a, id)
    && forall b :: KeptArm(entries, true, b) && Covers(b, id) ==> a.lo <= b.lo
  }

  // ----- The compiler -----

  ghost predicate DistinctLow(arms: seq<Arm>) {
    forall i, j :: 0 <= i < j < |arms| ==> arms[i].lo != arms[j].lo
  }

  /** The arms are exactly the kept entries of one sort among the first `n`. */
  ghost predicate Collected(entries: seq<Entry>, isRange: bool, arms: seq<Arm>, seen: set<nat>) {
    && DistinctLow(arms)
    && (forall k :: k in seen <==> LowTaken(entries, isRange, k))
    && (forall a :: a in arms <==> KeptArm(entries, isRange, a))
  }

  ghost predicate LowTaken(entries: seq<Entry>, isRange: bool, k: nat) {
    exists i :: 0 <= i < |entries| && entries[i].isRange == isRange && entries[i].lo == k
  }

  /** The two `BTreeSet` filters, in one pass over the file. */
  method Dedupe(entries: seq<Entry>) returns (exact: seq<Arm>, ranges: seq<Arm>)
    ensures DistinctLow(exact) && forall a :: a in exact <==> KeptArm(entries, false, a)
    ensures DistinctLow(ranges) && forall a :: a in ranges <==> KeptArm(entries, true, a)
  {
    exact, ranges := [], [];
    var seenExact: set<nat>, seenStarts: set<nat> := {}, {};
    for i := 0 to |entries|
      invariant Collected(entries[..i], false, exact, seenExact)
      invariant Collected(entries[..i], true, ranges, seenStarts)
    {
      var e := entries[i];
      assert entries[..i + 1] == entries[..i] + [e];
      if e.isRange {
        OtherSortUnchanged(entries[..i], e, exact, seenExact);
        if e.lo in seenStarts {
          DuplicateSkipped(entries[..i], e, ranges, seenStarts);
        } else {
          FirstKept(entries[..i], e, ranges, seenStarts);
          seenStarts := seenStarts + {e.lo};
          ranges := ranges + [ArmOf(e)];
        }
      } else {
        OtherSortUnchanged(entries[..i], e, ranges, seenStarts);
        if e.lo in seenExact {
          DuplicateSkipped(entries[..i], e, exact, seenExact);
        } else {
          FirstKept(entries[..i], e, exact, seenExact);
          seenExact := seenExact + {e.lo};
          exact := exact + [ArmOf(e)];
        }
      }
    }
    assert entries[..|entries|] == entries;
  }

  /** What one more entry adds to the kept arms of its sort. */
  lemma KeptGrows(entries: seq<Entry>, e: Entry, isRange: bool, a: Arm)
    ensures KeptArm(entries + [e], isRange, a) <==>
      KeptArm(entries, isRange, a) || (e.isRange == isRange && !LowTaken(entries, isRange, e.lo) && a == ArmOf(e))
  {
    var all := entries + [e];
    if i :| 0 <= i < |entries| && entries[i].isRange == isRange && Kept(entries, i) && ArmOf(entries[i]) == a {
      assert all[i] == entries[i] && Kept(all, i);
    }
    if e.isRange == isRange && !LowTaken(entries, isRange, e.lo) && a == ArmOf(e) {
      assert all[|entries|] == e && Kept(all, |entries|);
    }
    if i :| 0 <= i < |all| && all[i].isRange == isRange && Kept(all, i) && ArmOf(all[i]) == a {
      if i < |entries| {
        assert forall j :: 0 <= j <= i ==> all[j] == entries[j];
        assert Kept(entries, i);
      } else {
        KeptLastIsFirst(entries, e);
      }
    }
  }

  lemma KeptLastIsFirst(entries: seq<Entry>, e: Entry)
    requires Kept(entries + [e], |entries|)
    ensures !LowTaken(entries, e.isRange, e.lo)
  {
    var all := entries + [e];
    assert all[|entries|] == e && forall j :: 0 <= j < |entries| ==> all[j] == entries[j];
  }

  lemma LowTakenGrows(entries: seq<Entry>, e: Entry, isRange: bool, k: nat)
    ensures LowTaken(entries + [e], isRange, k) <==> LowTaken(entries, isRange, k) || (e.isRange == isRange && e.lo == k)
  {
    var all := entries + [e];
    assert all[|entries|] == e;
    if i :| 0 <= i < |entries| && entries[i].isRange == isRange && entries[i].lo == k {
      assert all[i] == entries[i];
    }
  }

  lemma Grows(entries: seq<Entry>, e: Entry, isRange: bool)
    ensures forall a :: KeptArm(entries + [e], isRange, a) <==>
      KeptArm(entries, isRange, a) || (e.isRange == isRange && !LowTaken(entries, isRange, e.lo) && a == ArmOf(e))
    ensures forall k: nat :: LowTaken(entries + [e], isRange, k) <==>
      LowTaken(entries, isRange, k) || (e.isRange == isRange && e.lo == k)
  {
    forall a { KeptGrows(entries, e, isRange, a); }
    forall k: nat { LowTakenGrows(entries, e, isRange, k); }
  }

  lemma OtherSortUnchanged(entries: seq<Entry>, e: Entry, arms: seq<Arm>, seen: set<nat>)
    requires Collected(entries, !e.isRange, arms, seen)
    ensures Collected(entries + [e], !e.isRange, arms, seen)
  {
    Grows(entries, e, !e.isRange);
  }

  lemma DuplicateSkipped(entries: seq<Entry>, e: Entry, arms: seq<Arm>, seen: set<nat>)
    requires Collected(entries, e.isRange, arms, seen) && e.lo in seen
    ensures Collected(entries + [e], e.isRange, arms, seen)
  {
    Grows(entries, e, e.isRange);
  }

  lemma FirstKept(entries: seq<Entry>, e: Entry, arms: seq<Arm>, seen: set<nat>)
    requires Collected(entries, e.isRange, arms, seen) && e.lo !in seen
    ensures Collected(entries + [e], e.isRange, arms + [ArmOf(e)], seen + {e.lo})
  {
    Grows(entries, e, e.isRange);
    forall a | a in arms
      ensures a.lo in seen
    {
      var i :| 0 <= i < |entries| && entries[i].isRange == e.isRange && Kept(entries, i) && ArmOf(entries[i]) == a;
      assert LowTaken(entries, e.isRange, a.lo);
    }
  }

  // ----- Sorting -----

  ghost predicate SortedByLow(arms: seq<Arm>) {
    forall i, j :: 0 <= i < j < |arms| ==> arms[i].lo < arms[j].lo
  }

  function Insert(a: Arm, arms: seq<Arm>): seq<Arm> {
    if arms == [] || a.lo < arms[0].lo then [a] + arms else [arms[0]] + Insert(a, arms[1..])
  }

  /** `sort_by_key`; the keys are distinct by now, so the low bound decides. */
  function Sort(arms: seq<Arm>): seq<Arm> {
    if arms == [] then [] else Insert(arms[0], Sort(arms[1..]))
  }

  lemma {:induction false} InsertSorted(a: Arm, arms: seq<Arm>)
    requires SortedByLow(arms) && forall b :: b in arms ==> b.lo != a.lo
    ensures SortedByLow(Insert(a, arms))
    ensures forall b :: b in Insert(a, arms) <==> b == a || b in arms
  {
    if arms == [] || a.lo < arms[0].lo {
      PrependSorted(a, arms);
    } else {
      InsertSorted(a, arms[1..]);
      assert arms == [arms[0]] + arms[1..];
      PrependSorted(arms[0], Insert(a, arms[1..]));
    }
  }

  lemma PrependSorted(a: Arm, arms: seq<Arm>)
    requires SortedByLow(arms) && forall b :: b in arms ==> a.lo < b.lo
    ensures SortedByLow([a] + arms)
  {
    var all := [a] + arms;
    forall i, j | 0 <= i < j < |all|
      ensures all[i].lo < all[j].lo
    {
      assert all[j] == arms[j - 1];
      assert i > 0 ==> all[i] == arms[i - 1];
    }
  }

  lemma {:induction false} SortSorts(arms: seq<Arm>)
    requires DistinctLow(arms)
    ensures SortedByLow(Sort(arms)) && forall b :: b in Sort(arms) <==> b in arms
  {
    if arms == [] {
    } else {
      SortSorts(arms[1..]);
      assert arms == [arms[0]] + arms[1..];
      forall b | b in Sort(arms[1..])
        ensures b.lo != arms[0].lo
      {
        assert b in arms[1..];
        var j :| 0 <= j < |arms| - 1 && arms[1..][j] == b;
        assert arms[j + 1] == b;
      }
      InsertSorted(arms[0], Sort(arms[1..]));
    }
  }

  /** `write_name_function`, up to the text of each arm. */
  method Compile(entries: seq<Entry>) returns (arms: seq<Arm>)
    ensures exists exact, ranges :: CompiledFrom(entries, exact, ranges) && arms == exact + ranges
  {
    var exact, ranges := Dedupe(entries);
    SortSorts(exact);
    SortSorts(ranges);
    assert CompiledFrom(entries, Sort(exact), Sort(ranges));
    arms := Sort(exact) + Sort(ranges);
  }

  ghost predicate CompiledFrom(entries: seq<Entry>, exact: seq<Arm>, ranges: seq<Arm>) {
    && SortedByLow(exact) && (forall a :: a in exact <==> KeptArm(entries, false, a))
    && SortedByLow(ranges) && (forall a :: a in ranges <==> KeptArm(entries, true, a))
  }

  // ----- The compiled match means what the file says -----

  lemma {:induction false} MatchConcat(a: seq<Arm>, b: seq<Arm>, id: nat)
    ensures FirstMatch(a + b, id) == if FirstMatch(a, id).Some? then FirstMatch(a, id) else FirstMatch(b, id)
  {
    if a == [] {
      assert a + b == b;
    } else {
      MatchConcat(a[1..], b, id);
      assert (a + b)[1..] == a[1..] + b;
    }
  }

  /** In sorted arms the first match is the covering arm of smallest low bound. */
  lemma {:induction false} MatchIsLowest(arms: seq<Arm>, id: nat)
    requires SortedByLow(arms)
    ensures FirstMatch(arms, id) == None <==> forall a :: a in arms ==> !Covers(a, id)
    ensures FirstMatch(arms, id).Some? ==> exists a :: a in arms && LowestCover(arms, id, a) && a.name == FirstMatch(arms, id).value
  {
    if arms == [] {
    } else {
      assert arms == [arms[0]] + arms[1..];
      if Covers(arms[0], id) {
        assert LowestCover(arms, id, arms[0]);
      } else {
        MatchIsLowest(arms[1..], id);
        if FirstMatch(arms[1..], id).Some? {
          var a :| a in arms[1..] && LowestCover(arms[1..], id, a) && a.name == FirstMatch(arms[1..], id).value;
          assert LowestCover(arms, id, a);
        }
      }
    }
  }

  ghost predicate LowestCover(arms: seq<Arm>, id: nat, a: Arm) {
    Covers(a, id) && forall b :: b in arms && Covers(b, id) ==> a.lo <= b.lo
  }

  lemma {:induction false} ScanExactIsKept(entries: seq<Entry>, id: nat)
    ensures ScanExact(entries, id) == None <==> !LowTaken(entries, false, id)
    ensures ScanExact(entries, id).Some? ==>
      exists i :: 0 <= i < |entries| && !entries[i].isRange && entries[i].lo == id && Kept(entries, i)
               && entries[i].name == ScanExact(entries, id).value
  {
    if entries == [] {
    } else {
      if !entries[0].isRange && entries[0].lo == id {
        assert Kept(entries, 0);
      } else {
        ScanExactIsKept(entries[1..], id);
        if ScanExact(entries[1..], id).Some? {
          var i :| 0 <= i < |entries| - 1 && !entries[1..][i].isRange && entries[1..][i].lo == id
                && Kept(entries[1..], i) && entries[1..][i].name == ScanExact(entries[1..], id).value;
          assert entries[i + 1] == entries[1..][i];
          assert forall j :: 0 < j < i + 1 ==> entries[j] == entries[1..][j - 1];
          assert Kept(entries, i + 1);
        }
        if LowTaken(entries, false, id) {
          var j :| 0 <= j < |entries| && !entries[j].isRange && entries[j].lo == id;
          assert entries[1..][j - 1] == entries[j];
        }
      }
    }
  }

  lemma ExactPart(entries: seq<Entry>, exact: seq<Arm>, id: nat)
    requires ExactBounds(entries) && SortedByLow(exact) && forall a :: a in exact <==> KeptArm(entries, false, a)
    ensures FirstMatch(exact, id) == ScanExact(entries, id)
  {
    MatchIsLowest(exact, id);
    ScanExactIsKept(entries, id);
    forall a | a in exact && Covers(a, id)
      ensures ScanExact(entries, id) == Some(a.name)
    {
    }
    if ScanExact(entries, id).Some? {
      var i :| 0 <= i < |entries| && !entries[i].isRange && entries[i].lo == id && Kept(entries, i)
            && entries[i].name == ScanExact(entries, id).value;
      assert entries[i] in entries && KeptArm(entries, false, ArmOf(entries[i]));
      assert Covers(ArmOf(entries[i]), id);
    }
  }

  /** For every id the compiled match gives the first exact entry of the file if there is
      one, else the kept range of smallest low bound that contains it, else nothing. */
  lemma CompiledMeaning(entries: seq<Entry>, exact: seq<Arm>, ranges: seq<Arm>, id: nat)
    requires ExactBounds(entries) && CompiledFrom(entries, exact, ranges)
    ensures ScanExact(entries, id).Some? ==> FirstMatch(exact + ranges, id) == ScanExact(entries, id)
    ensures ScanExact(entries, id) == None && FirstMatch(exact + ranges, id).Some? ==>
      exists a :: LowestRange(entries, id, a) && FirstMatch(exact + ranges, id) == Some(a.name)
    ensures FirstMatch(exact + ranges, id) == None <==>
      ScanExact(entries, id) == None && forall a :: KeptArm(entries, true, a) ==> !Covers(a, id)
  {
    MatchConcat(exact, ranges, id);
    ExactPart(entries, exact, id);
    MatchIsLowest(ranges, id);
    if FirstMatch(ranges, id).Some? {
      var a :| a in ranges && LowestCover(ranges, id, a) && a.name == FirstMatch(ranges, id).value;
      assert LowestRange(entries, id, a);
    }
  }

  // ----- Ranges in file order: a plain scan of the file -----

  /** Of two ranges in file order, the first may keep what both contain: they are apart, or
      it starts lower, or it starts at the same id and reaches as far. */
  predicate MayPrecede(a: Entry, b: Entry) {
    a.hi < b.lo || b.hi < a.lo || a.lo < b.lo || (a.lo == b.lo && b.hi <= a.hi)
  }

  ghost predicate NonEmptyRanges(entries: seq<Entry>) {
    forall e :: e in entries && e.isRange ==> e.lo <= e.hi
  }

  ghost predicate InFileOrder(entries: seq<Entry>) {
    NonEmptyRanges(entries)
    && forall i, j :: 0 <= i < j < |entries| && entries[i].isRange && entries[j].isRange ==> MayPrecede(entries[i], entries[j])
  }

  /** The first range that contains the id, and no earlier one does. */
  ghost predicate FirstCover(entries: seq<Entry>, id: nat, i: nat) {
    && i < |entries| && entries[i].isRange && Covers(ArmOf(entries[i]), id)
    && forall j :: 0 <= j < i && entries[j].isRange ==> !Covers(ArmOf(entries[j]), id)
  }

  lemma {:induction false} ScanRangeFinds(entries: seq<Entry>, id: nat)
    ensures ScanRange(entries, id) == None ==> forall e :: e in entries && e.isRange ==> !Covers(ArmOf(e), id)
    ensures ScanRange(entries, id).Some? ==> exists i: nat :: FirstCover(entries, id, i) && entries[i].name == ScanRange(entries, id).value
  {
    if entries == [] {
    } else if entries[0].isRange && Covers(ArmOf(entries[0]), id) {
      assert FirstCover(entries, id, 0);
    } else {
      ScanRangeFinds(entries[1..], id);
      assert entries == [entries[0]] + entries[1..];
      if ScanRange(entries[1..], id).Some? {
        var i: nat :| FirstCover(entries[1..], id, i) && entries[1..][i].name == ScanRange(entries[1..], id).value;
        assert forall j :: 0 < j <= i + 1 ==> entries[j] == entries[1..][j - 1];
        assert FirstCover(entries, id, i + 1);
      }
    }
  }

  lemma SomeCover(entries: seq<Entry>, id: nat, a: Arm)
    requires KeptArm(entries, true, a) && Covers(a, id)
    ensures ScanRange(entries, id).Some?
  {
    ScanRangeFinds(entries, id);
    var k :| 0 <= k < |entries| && entries[k].isRange && Kept(entries, k) && ArmOf(entries[k]) == a;
    assert entries[k] in entries;
  }

  ghost predicate AnswersAsScan(entries: seq<Entry>, exact: seq<Arm>, ranges: seq<Arm>, id: nat) {
    FirstMatch(exact + ranges, id) == if ScanExact(entries, id).Some? then ScanExact(entries, id) else ScanRange(entries, id)
  }

  ghost predicate BehavesAsScan(entries: seq<Entry>, exact: seq<Arm>, ranges: seq<Arm>) {
    forall id: nat :: AnswersAsScan(entries, exact, ranges, id)
  }

  /** Entry `i` is the one a scan of the file gives for the id: a range that contains it,
      with no exact entry for the id and no earlier range that contains it. */
  ghost predicate Exposed(entries: seq<Entry>, id: nat, i: nat) {
    FirstCover(entries, id, i) && !LowTaken(entries, false, id)
  }

  /** Of the ranges that survive deduplication and contain the id, entry `k` starts lowest. */
  ghost predicate Wins(entries: seq<Entry>, id: nat, k: nat) {
    && k < |entries| && entries[k].isRange && Kept(entries, k) && Covers(ArmOf(entries[k]), id)
    && forall j :: 0 <= j < |entries| && entries[j].isRange && Kept(entries, j) && Covers(ArmOf(entries[j]), id)
         ==> entries[k].lo <= entries[j].lo
  }

  /** Where no exact entry decides, the compiled match names the winner. */
  lemma WinnerNamed(entries: seq<Entry>, exact: seq<Arm>, ranges: seq<Arm>, id: nat)
    requires ExactBounds(entries) && CompiledFrom(entries, exact, ranges) && !LowTaken(entries, false, id)
    ensures FirstMatch(exact + ranges, id).Some? ==>
      exists k: nat :: Wins(entries, id, k) && FirstMatch(exact + ranges, id) == Some(entries[k].name)
    ensures FirstMatch(exact + ranges, id) == None ==> forall k: nat :: !Wins(entries, id, k)
  {
    ScanExactIsKept(entries, id);
    CompiledMeaning(entries, exact, ranges, id);
    if FirstMatch(exact + ranges, id).Some? {
      var a :| LowestRange(entries, id, a) && FirstMatch(exact + ranges, id) == Some(a.name);
      var k :| 0 <= k < |entries| && entries[k].isRange && Kept(entries, k) && ArmOf(entries[k]) == a;
      forall j | 0 <= j < |entries| && entries[j].isRange && Kept(entries, j) && Covers(ArmOf(entries[j]), id)
        ensures entries[k].lo <= entries[j].lo
      {
        assert KeptArm(entries, true, ArmOf(entries[j]));
      }
      assert Wins(entries, id, k);
    } else {
      forall k: nat | Wins(entries, id, k)
        ensures false
      {
        assert KeptArm(entries, true, ArmOf(entries[k]));
      }
    }
  }

  lemma ScanGives(entries: seq<Entry>, id: nat, i: nat)
    requires FirstCover(entries, id, i)
    ensures ScanRange(entries, id) == Some(entries[i].name)
  {
    ScanRangeFinds(entries, id);
    assert entries[i] in entries;
    var k: nat :| FirstCover(entries, id, k) && entries[k].name == ScanRange(entries, id).value;
    assert k == i;
  }

  /** A range with the name of entry `i` wins at the id. */
  ghost predicate NameWins(entries: seq<Entry>, id: nat, i: nat)
    requires i < |entries|
  {
    exists k: nat :: Wins(entries, id, k) && entries[k].name == entries[i].name
  }

  lemma ExposedAnswer(entries: seq<Entry>, exact: seq<Arm>, ranges: seq<Arm>, id: nat, i: nat)
    requires ExactBounds(entries) && CompiledFrom(entries, exact, ranges) && Exposed(entries, id, i)
    ensures AnswersAsScan(entries, exact, ranges, id) <==> NameWins(entries, id, i)
  {
    ScanExactIsKept(entries, id);
    ScanGives(entries, id, i);
    WinnerNamed(entries, exact, ranges, id);
    if FirstMatch(exact + ranges, id).Some? {
      var k: nat :| Wins(entries, id, k) && FirstMatch(exact + ranges, id) == Some(entries[k].name);
      forall m: nat | Wins(entries, id, m)
        ensures m == k
      {
      }
    }
  }

  /** Where no range is exposed, an exact entry decides or nothing matches. */
  lemma HiddenAnswer(entries: seq<Entry>, exact: seq<Arm>, ranges: seq<Arm>, id: nat)
    requires ExactBounds(entries) && CompiledFrom(entries, exact, ranges) && forall i: nat :: !Exposed(entries, id, i)
    ensures AnswersAsScan(entries, exact, ranges, id)
  {
    CompiledMeaning(entries, exact, ranges, id);
    ScanExactIsKept(entries, id);
    if ScanExact(entries, id) == None {
      ScanRangeFinds(entries, id);
      if ScanRange(entries, id).Some? {
        var i: nat :| FirstCover(entries, id, i);
        assert Exposed(entries, id, i);
      } else if FirstMatch(exact + ranges, id).Some? {
        var a :| LowestRange(entries, id, a) && FirstMatch(exact + ranges, id) == Some(a.name);
        SomeCover(entries, id, a);
      }
    }
  }

  /** The compiled match is a file-order scan, exact entries first, exactly when wherever a
      range is exposed its name wins. */
  lemma TableIsScanIff(entries: seq<Entry>, exact: seq<Arm>, ranges: seq<Arm>)
    requires ExactBounds(entries) && CompiledFrom(entries, exact, ranges)
    ensures BehavesAsScan(entries, exact, ranges) <==> forall id: nat, i: nat :: Exposed(entries, id, i) ==> NameWins(entries, id, i)
  {
    forall id: nat, i: nat | Exposed(entries, id, i)
      ensures AnswersAsScan(entries, exact, ranges, id) <==> NameWins(entries, id, i)
    {
      ExposedAnswer(entries, exact, ranges, id, i);
    }
    forall id: nat | forall i: nat :: !Exposed(entries, id, i)
      ensures AnswersAsScan(entries, exact, ranges, id)
    {
      HiddenAnswer(entries, exact, ranges, id);
    }
  }

  /** Ranges have names of their own. */
  ghost predicate DistinctNames(entries: seq<Entry>) {
    forall i, j :: 0 <= i < j < |entries| && entries[i].isRange && entries[j].isRange ==> entries[i].name != entries[j].name
  }

  /** If ranges have names of their own, exactly when wherever one is exposed it wins itself. */
  lemma DistinctTableIsScanIff(entries: seq<Entry>, exact: seq<Arm>, ranges: seq<Arm>)
    requires ExactBounds(entries) && CompiledFrom(entries, exact, ranges) && DistinctNames(entries)
    ensures BehavesAsScan(entries, exact, ranges) <==> forall id: nat, i: nat :: Exposed(entries, id, i) ==> Wins(entries, id, i)
  {
    TableIsScanIff(entries, exact, ranges);
    forall id: nat, i: nat | Exposed(entries, id, i)
      ensures NameWins(entries, id, i) <==> Wins(entries, id, i)
    {
      if NameWins(entries, id, i) {
        var k: nat :| Wins(entries, id, k) && entries[k].name == entries[i].name;
        assert k == i;
      }
    }
  }

  /** In file order, the first range to contain an id wins there. */
  lemma FileOrderWins(entries: seq<Entry>, id: nat, i: nat)
    requires InFileOrder(entries) && FirstCover(entries, id, i)
    ensures Wins(entries, id, i)
  {
    forall j | 0 <= j < i && entries[j].isRange
      ensures entries[j].lo != entries[i].lo
    {
      assert MayPrecede(entries[j], entries[i]);
      assert entries[j] in entries && entries[i] in entries;
    }
    forall j | 0 <= j < |entries| && entries[j].isRange && Covers(ArmOf(entries[j]), id)
      ensures entries[i].lo <= entries[j].lo
    {
      if j > i {
        assert MayPrecede(entries[i], entries[j]);
      }
    }
  }

  /** With ranges in file order, a condition on pairs alone, the compiled match is a scan. */
  lemma CompiledIsScan(entries: seq<Entry>, exact: seq<Arm>, ranges: seq<Arm>)
    requires ExactBounds(entries) && InFileOrder(entries) && CompiledFrom(entries, exact, ranges)
    ensures BehavesAsScan(entries, exact, ranges)
  {
    forall id: nat, i: nat | Exposed(entries, id, i)
      ensures NameWins(entries, id, i)
    {
      FileOrderWins(entries, id, i);
    }
    TableIsScanIff(entries, exact, ranges);
  }

  /** Disjoint ranges are in file order whatever the order. */
  lemma DisjointIsInFileOrder(entries: seq<Entry>)
    requires NonEmptyRanges(entries)
    requires forall i, j :: 0 <= i < j < |entries| && entries[i].isRange && entries[j].isRange ==>
               entries[i].hi < entries[j].lo || entries[j].hi < entries[i].lo
    ensures InFileOrder(entries)
  {
  }

  // ----- Two ranges -----

  /** For two ranges with different names the condition on pairs is exact. */
  lemma PairIsScanIff(a: Entry, b: Entry, exact: seq<Arm>, ranges: seq<Arm>)
    requires a.isRange && b.isRange && a.lo <= a.hi && b.lo <= b.hi && a.name != b.name
    requires CompiledFrom([a, b], exact, ranges)
    ensures BehavesAsScan([a, b], exact, ranges) <==> MayPrecede(a, b)
  {
    var entries := [a, b];
    assert entries[0] == a && entries[1] == b;
    if MayPrecede(a, b) {
      CompiledIsScan(entries, exact, ranges);
    } else {
      var id, i := if b.lo < a.lo then a.lo else b.hi, if b.lo < a.lo then 0 else 1;
      assert Exposed(entries, id, i);
      assert b.lo < a.lo ==> Kept(entries, 1) && Covers(ArmOf(entries[1]), id);
      assert !Wins(entries, id, i);
      DistinctTableIsScanIff(entries, exact, ranges);
    }
  }

  /** The smallest failing table: the later range starts lower and wins. */
  lemma OverlapDiffers()
    ensures exists entries, exact, ranges ::
      ExactBounds(entries) && NonEmptyRanges(entries) && CompiledFrom(entries, exact, ranges) && !BehavesAsScan(entries, exact, ranges)
  {
    var high, low := Entry(5, 9, "high", true), Entry(1, 9, "low", true);
    var ranges := [ArmOf(low), ArmOf(high)];
    var entries := [high, low];
    assert entries[0] == high && entries[1] == low && Kept(entries, 0) && Kept(entries, 1);
    assert forall a :: !KeptArm(entries, false, a);
    assert forall a :: a in ranges <==> KeptArm(entries, true, a);
    assert CompiledFrom(entries, [], ranges);
    assert "high" != "low" by {
      assert "high"[0] != "low"[0];
    }
    PairIsScanIff(high, low, [], ranges);
  }

  // ----- Escaping -----

  function ReplaceChar(s: string, c: char, repl: string): string {
    if s == [] then [] else (if s[0] == c then repl else [s[0]]) + ReplaceChar(s[1..], c, repl)
  }

  /** `escape_name`: two replacements, one after the other. */
  function EscapeName(name: string): string {
    ReplaceChar(ReplaceChar(name, '\\', ['\\', '\\']), '"', ['\\', '"'])
  }

  /** What the Rust lexer makes of the text after an opening quote: the literal's value
      and what follows its closing quote. Only the two generated escapes are read. */
  function ReadLiteral(s: string): Option<(string, string)> {
    if s == [] then None
    else if s[0] == '"' then Some(([], s[1..]))
    else if s[0] == '\\' then
      if |s| < 2 || (s[1] != '\\' && s[1] != '"') then None else Prefixed(s[1], ReadLiteral(s[2..]))
    else Prefixed(s[0], ReadLiteral(s[1..]))
  }

  function Prefixed(c: char, r: Option<(string, string)>): Option<(string, string)> {
    if r.Some? then Some(([c] + r.value.0, r.value.1)) else None
  }

  function EscapeChar(c: char): string {
    if c == '\\' then ['\\', '\\'] else if c == '"' then ['\\', '"'] else [c]
  }

  lemma {:induction false} ReplaceAppend(s: string, t: string, c: char, repl: string)
    ensures ReplaceChar(s + t, c, repl) == ReplaceChar(s, c, repl) + ReplaceChar(t, c, repl)
  {
    if s == [] {
      assert s + t == t;
    } else {
      var head := if s[0] == c then repl else [s[0]];
      var a, b := ReplaceChar(s[1..], c, repl), ReplaceChar(t, c, repl);
      assert ReplaceChar(s + t, c, repl) == head + (a + b) by {
        ReplaceAppend(s[1..], t, c, repl);
        assert (s + t)[1..] == s[1..] + t && (s + t)[0] == s[0];
      }
      assert head + (a + b) == (head + a) + b;
    }
  }

  /** The second replacement never touches what the first one wrote. */
  lemma EscapeStep(c: char, rest: string)
    ensures EscapeName([c] + rest) == EscapeChar(c) + EscapeName(rest)
  {
    var one := if c == '\\' then ['\\', '\\'] else [c];
    assert ([c] + rest)[1..] == rest;
    assert ReplaceChar([c] + rest, '\\', ['\\', '\\']) == one + ReplaceChar(rest, '\\', ['\\', '\\']);
    ReplaceAppend(one, ReplaceChar(rest, '\\', ['\\', '\\']), '"', ['\\', '"']);
    assert one[1..] == (if c == '\\' then ['\\'] else []);
    assert ['\\'][1..] == [];
    assert ReplaceChar(one, '"', ['\\', '"']) == EscapeChar(c);
  }

  lemma ReadEscaped(c: char, tail: string)
    ensures ReadLiteral(EscapeChar(c) + tail) == Prefixed(c, ReadLiteral(tail))
  {
    var text := EscapeChar(c) + tail;
    assert text[|EscapeChar(c)|..] == tail;
  }

  /** Round trip: reading the emitted literal gives the name back, ends at the quote the
      generator wrote, and leaves what follows untouched. */
  lemma {:induction false} EscapeRoundTrip(name: string, rest: string)
    ensures ReadLiteral(EscapeName(name) + ['"'] + rest) == Some((name, rest))
  {
    if name == [] {
      assert EscapeName(name) + ['"'] + rest == ['"'] + rest;
    } else {
      EscapeRoundTrip(name[1..], rest);
      assert name == [name[0]] + name[1..];
      EscapeStep(name[0], name[1..]);
      var tail := EscapeName(name[1..]) + ['"'] + rest;
      assert EscapeName(name) + ['"'] + rest == EscapeChar(name[0]) + tail;
      ReadEscaped(name[0], tail);
    }
  }
}
