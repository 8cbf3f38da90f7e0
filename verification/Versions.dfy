/** The version order, caret epochs, bump buckets and requirement matching of the
    published-dependency check. */
module Versions {
  import opened Wrappers

  /** A version: its numeric components, and the pre-release or build suffix that follows
      them, if any. Comparison and epochs ignore the suffix. */
  datatype Version = Version(nums: seq<nat>, suffix: string) {
    predicate Suffixed() {
      suffix != ""
    }
  }

  /** What the version-token pattern matches: one to three numbers. */
  type Token = t: seq<nat> | 1 <= |t| <= 3 witness [0]

  // ----- Order -----

  /** Zeros make up for missing components. */
  function Padded(s: seq<nat>): (r: seq<nat>)
    ensures s <= r && |r| == (if |s| < 3 then 3 else |s|) && forall i :: |s| <= i < |r| ==> r[i] == 0
  {
    if |s| == 0 then [0, 0, 0] else if |s| == 1 then s + [0, 0] else if |s| == 2 then s + [0] else s
  }

  /** Element by element; a proper prefix comes first. */
  function Lex(a: seq<nat>, b: seq<nat>): int {
    if a == [] then (if b == [] then 0 else -1)
    else if b == [] then 1
    else if a[0] != b[0] then (if a[0] < b[0] then -1 else 1)
    else Lex(a[1..], b[1..])
  }

  function Compare(a: seq<nat>, b: seq<nat>): int {
    Lex(Padded(a), Padded(b))
  }

  lemma {:induction false} LexOrder(a: seq<nat>, b: seq<nat>, c: seq<nat>)
    ensures Lex(a, b) in {-1, 0, 1} && Lex(b, a) == -Lex(a, b)
    ensures Lex(a, b) == 0 <==> a == b
    ensures Lex(a, b) <= 0 && Lex(b, c) <= 0 ==> Lex(a, c) <= 0
    ensures Lex(a, b) <= 0 && Lex(b, c) <= 0 && Lex(a, c) == 0 ==> Lex(a, b) == 0 && Lex(b, c) == 0
    decreases |a| + |b| + |c|
  {
    if a == [] || b == [] {
    } else {
      LexOrder(a[1..], b[1..], if c == [] then [] else c[1..]);
      if a[0] == b[0] {
        assert a == [a[0]] + a[1..] && b == [b[0]] + b[1..];
      }
    }
  }

  /** The first component that differs decides, or else the length. */
  ghost predicate LessAt(a: seq<nat>, b: seq<nat>, k: nat) {
    k <= |a| && k < |b| && (forall i :: 0 <= i < k ==> a[i] == b[i]) && (k < |a| ==> a[k] < b[k])
  }

  lemma {:induction false} LexIsFirstDifference(a: seq<nat>, b: seq<nat>)
    ensures Lex(a, b) < 0 <==> exists k: nat :: LessAt(a, b, k)
  {
    if a == [] || b == [] || a[0] != b[0] {
      if Lex(a, b) < 0 {
        assert LessAt(a, b, 0);
      }
    } else {
      LexIsFirstDifference(a[1..], b[1..]);
      if k: nat :| LessAt(a[1..], b[1..], k) {
        assert forall i :: 0 < i < k + 1 ==> a[i] == a[1..][i - 1] && b[i] == b[1..][i - 1];
        assert LessAt(a, b, k + 1);
      }
      forall k: nat | LessAt(a, b, k)
        ensures LessAt(a[1..], b[1..], k - 1)
      {
        assert k > 0;
      }
    }
  }

  /** `compare_versions` is a total preorder, and an order on padded sequences. */
  lemma CompareOrder(a: seq<nat>, b: seq<nat>, c: seq<nat>)
    ensures Compare(a, a) == 0 && Compare(a, b) in {-1, 0, 1}
    ensures Compare(b, a) == -Compare(a, b)
    ensures Compare(a, b) == 0 <==> Padded(a) == Padded(b)
    ensures Compare(a, b) <= 0 && Compare(b, c) <= 0 ==> Compare(a, c) <= 0
    ensures Compare(a, b) < 0 && Compare(b, c) <= 0 ==> Compare(a, c) < 0
    ensures Compare(a, b) <= 0 && Compare(b, c) < 0 ==> Compare(a, c) < 0
  {
    LexOrder(Padded(a), Padded(b), Padded(c));
    LexOrder(Padded(a), Padded(a), Padded(a));
    LexOrder(Padded(a), Padded(c), Padded(b));
  }

  /** The first three components decide a comparison against a token. */
  predicate TripleLess(a: seq<nat>, b: seq<nat>)
    requires |a| >= 3 && |b| >= 3
  {
    a[0] < b[0] || (a[0] == b[0] && (a[1] < b[1] || (a[1] == b[1] && a[2] < b[2])))
  }

  lemma CompareToToken(v: seq<nat>, t: seq<nat>)
    requires |t| <= 3
    ensures Compare(v, t) < 0 <==> TripleLess(Padded(v), Padded(t))
  {
    var a, b := Padded(v), Padded(t);
    LexThree(a, b);
    assert b[3..] == [];
    assert Lex(a[3..], []) >= 0;
  }

  lemma LexThree(a: seq<nat>, b: seq<nat>)
    requires |a| >= 3 && |b| >= 3
    ensures Lex(a, b) == if a[0] == b[0] && a[1] == b[1] && a[2] == b[2] then Lex(a[3..], b[3..]) else if TripleLess(a, b) then -1 else 1
  {
    assert a[1..][1..] == a[2..] && b[1..][1..] == b[2..];
    assert a[2..][1..] == a[3..] && b[2..][1..] == b[3..];
    assert a[1..][0] == a[1] && a[2..][0] == a[2] && b[1..][0] == b[1] && b[2..][0] == b[2];
    assert Lex(a, b) == if a[0] != b[0] then (if a[0] < b[0] then -1 else 1) else Lex(a[1..], b[1..]);
    assert Lex(a[1..], b[1..]) == if a[1] != b[1] then (if a[1] < b[1] then -1 else 1) else Lex(a[2..], b[2..]);
    assert Lex(a[2..], b[2..]) == if a[2] != b[2] then (if a[2] < b[2] then -1 else 1) else Lex(a[3..], b[3..]);
  }

  // ----- Epochs -----

  datatype Epoch = Epoch(era: nat, number: nat, patch: nat)

  /** The tuple order used to call a requirement stale. */
  predicate EpochLess(a: Epoch, b: Epoch) {
    a.era < b.era || (a.era == b.era && (a.number < b.number || (a.number == b.number && a.patch < b.patch)))
  }

  /** `compat_epoch`: the range of versions a caret requirement may move within. */
  function CompatEpoch(nums: seq<nat>): Epoch {
    var p := Padded(nums);
    if p[0] > 0 then Epoch(1, p[0], 0)
    else if p[1] > 0 then Epoch(0, p[1], 0)
    else Epoch(0, 0, p[2])
  }

  lemma EpochMonotone(a: seq<nat>, b: seq<nat>)
    requires Compare(a, b) <= 0
    ensures !EpochLess(CompatEpoch(b), CompatEpoch(a))
  {
    LexThree(Padded(a), Padded(b));
  }

  /** One epoch is below another exactly when they differ and its versions are lower. */
  lemma EpochLessIff(a: seq<nat>, b: seq<nat>)
    ensures EpochLess(CompatEpoch(a), CompatEpoch(b)) <==> CompatEpoch(a) != CompatEpoch(b) && Compare(a, b) < 0
  {
    LexThree(Padded(a), Padded(b));
  }

  /** Every epoch is an unbroken stretch of the version order. */
  lemma EpochConvex(a: seq<nat>, b: seq<nat>, c: seq<nat>)
    requires Compare(a, b) <= 0 && Compare(b, c) <= 0 && CompatEpoch(a) == CompatEpoch(c)
    ensures CompatEpoch(b) == CompatEpoch(a)
  {
    EpochMonotone(a, b);
    EpochMonotone(b, c);
  }

  // ----- Requirements -----

  datatype Op = Ge | Le | Gt | Lt | Eq

  /** One comma-separated clause; `Unreadable` is one the clause pattern rejects,
      with the version token found in it, if any. */
  datatype Clause = Clause(op: Op, bound: Token) | Unreadable(token: Option<Token>)

  type Clauses = cs: seq<Clause> | |cs| > 0 witness [Unreadable(None)]

  /** A requirement by the path it takes through `req_admits`: a bare or caret
      version, a comparator set, the wildcard, or any other text (which is treated
      like a caret on the first version token found, if there is one). */
  datatype Req = Caret(floor: Token) | Comparators(clauses: Clauses) | Wildcard | OtherText(token: Option<Token>)

  function ClauseToken(c: Clause): Option<Token> {
    match c
    case Clause(_, bound) => Some(bound)
    case Unreadable(token) => token
  }

  function FirstToken(cs: seq<Clause>): Option<Token> {
    if cs == [] then None
    else if ClauseToken(cs[0]).Some? then ClauseToken(cs[0])
    else FirstToken(cs[1..])
  }

  function ReqToken(r: Req): Option<Token> {
    match r
    case Caret(floor) => Some(floor)
    case Comparators(cs) => FirstToken(cs)
    case Wildcard => None
    case OtherText(token) => token
  }

  /** `compat_epoch` of a requirement. */
  function ReqEpoch(r: Req): Option<Epoch> {
    match ReqToken(r)
    case None => None
    case Some(t) => Some(CompatEpoch(t))
  }

  function Meets(op: Op, cmp: int): bool {
    match op
    case Ge => cmp >= 0
    case Le => cmp <= 0
    case Gt => cmp > 0
    case Lt => cmp < 0
    case Eq => cmp == 0
  }

  predicate ClauseHolds(c: Clause, v: seq<nat>) {
    c.Clause? && Meets(c.op, Compare(v, c.bound))
  }

  /** Same epoch as the token, and not below it. */
  predicate CaretAdmits(t: Token, v: seq<nat>) {
    CompatEpoch(t) == CompatEpoch(v) && Compare(v, t) >= 0
  }

  /** What a requirement admits: a comparator set the versions meeting all of its
      clauses, everything else the caret range of its token. */
  predicate Admits(r: Req, v: seq<nat>) {
    match r
    case Comparators(cs) => forall i :: 0 <= i < |cs| ==> ClauseHolds(cs[i], v)
    case _ => ReqToken(r).Some? && CaretAdmits(ReqToken(r).value, v)
  }

  /** `req_admits`: the clause loop leaves at the first clause that fails. */
  method ReqAdmits(r: Req, v: seq<nat>) returns (admitted: bool)
    ensures admitted == Admits(r, v)
  {
    if r.Comparators? {
      for i := 0 to |r.clauses|
        invariant forall j :: 0 <= j < i ==> ClauseHolds(r.clauses[j], v)
      {
        var c := r.clauses[i];
        if c.Unreadable? {
          return false;
        }
        var cmp := Compare(v, c.bound);
        if c.op == Ge && cmp < 0 { return false; }
        if c.op == Gt && cmp <= 0 { return false; }
        if c.op == Le && cmp > 0 { return false; }
        if c.op == Lt && cmp >= 0 { return false; }
        if c.op == Eq && cmp != 0 { return false; }
      }
      return true;
    }
    var token := ReqToken(r);
    if token == None || CompatEpoch(token.value) != CompatEpoch(v) {
      return false;
    }
    return Compare(v, token.value) >= 0;
  }

  /** Where a version stands to a bound that the clause names. */
  predicate Below(v: seq<nat>, bound: Token) {
    TripleLess(Padded(v), Padded(bound))
  }

  /** What each comparison operator says, down to which of them take the bound itself. */
  lemma ClauseMeaning(op: Op, bound: Token, v: seq<nat>)
    ensures ClauseHolds(Clause(op, bound), v) <==>
      match op
      case Lt => Below(v, bound)
      case Ge => !Below(v, bound)
      case Eq => Padded(v) == Padded(bound)
      case Gt => !Below(v, bound) && Padded(v) != Padded(bound)
      case Le => Below(v, bound) || Padded(v) == Padded(bound)
  {
    CompareToToken(v, bound);
    CompareOrder(v, bound, v);
  }

  ghost predicate FirstTokenAt(cs: seq<Clause>, i: int) {
    0 <= i < |cs| && ClauseToken(cs[i]).Some? && forall j :: 0 <= j < i ==> ClauseToken(cs[j]) == None
  }

  /** The token of a comparator set is the first one found in its clauses. */
  lemma {:induction false} FirstTokenIff(cs: seq<Clause>)
    ensures FirstToken(cs) == None <==> forall i :: 0 <= i < |cs| ==> ClauseToken(cs[i]) == None
    ensures FirstToken(cs).Some? ==> exists i :: FirstTokenAt(cs, i) && ClauseToken(cs[i]) == FirstToken(cs)
  {
    if cs == [] {
    } else if ClauseToken(cs[0]) == None {
      FirstTokenIff(cs[1..]);
      assert forall i :: 0 < i < |cs| ==> cs[i] == cs[1..][i - 1];
      if FirstToken(cs).Some? {
        var i :| FirstTokenAt(cs[1..], i) && ClauseToken(cs[1..][i]) == FirstToken(cs[1..]);
        assert FirstTokenAt(cs, i + 1);
      }
    } else {
      assert FirstTokenAt(cs, 0);
    }
  }

  /** The version a requirement names, by its form. */
  lemma ReqTokenIff(r: Req, t: Token)
    ensures ReqToken(r) == Some(t) <==>
      || r == Caret(t) || r == OtherText(Some(t))
      || (r.Comparators? && exists i :: FirstTokenAt(r.clauses, i) && ClauseToken(r.clauses[i]) == Some(t))
  {
    if r.Comparators? {
      FirstTokenIff(r.clauses);
    }
  }

  /** A set of comparators admits what every clause admits, one that cannot be read nothing;
      a wildcard admits nothing here, and any other text what the caret form of its token does. */
  lemma AdmitsByForm(r: Req, v: seq<nat>)
    ensures r.Comparators? ==>
      (Admits(r, v) <==> forall c :: c in r.clauses ==> c.Clause? && Admits(Comparators([c]), v))
    ensures r.OtherText? ==> (Admits(r, v) <==> r.token.Some? && Admits(Caret(r.token.value), v))
    ensures r == Wildcard ==> !Admits(r, v)
  {
    if r.Comparators? {
      forall c | c in r.clauses
        ensures c.Clause? ==> (Admits(Comparators([c]), v) <==> ClauseHolds(c, v))
      {
        assert [c][0] == c;
      }
    }
  }

  /** A requirement without a version token admits nothing at all. */
  lemma NoTokenAdmitsNothing(r: Req, v: seq<nat>)
    requires ReqToken(r) == None
    ensures !Admits(r, v)
  {
    if r.Comparators? {
      assert ClauseToken(r.clauses[0]) == None;
      assert !ClauseHolds(r.clauses[0], v);
    }
  }

  lemma ClauseConvex(c: Clause, u: seq<nat>, v: seq<nat>, w: seq<nat>)
    requires Compare(u, v) <= 0 && Compare(v, w) <= 0 && ClauseHolds(c, u) && ClauseHolds(c, w)
    ensures ClauseHolds(c, v)
  {
    CompareOrder(u, v, c.bound);
    CompareOrder(c.bound, u, v);
    CompareOrder(v, w, c.bound);
    CompareOrder(w, c.bound, v);
    CompareOrder(c.bound, v, u);
    CompareOrder(u, w, c.bound);
    CompareOrder(c.bound, u, c.bound);
    CompareOrder(v, c.bound, v);
  }

  /** Whatever the form, a requirement admits an unbroken stretch of versions. */
  lemma AdmitsConvex(r: Req, u: seq<nat>, v: seq<nat>, w: seq<nat>)
    requires Compare(u, v) <= 0 && Compare(v, w) <= 0 && Admits(r, u) && Admits(r, w)
    ensures Admits(r, v)
  {
    if r.Comparators? {
      forall i | 0 <= i < |r.clauses|
        ensures ClauseHolds(r.clauses[i], v)
      {
        ClauseConvex(r.clauses[i], u, v, w);
      }
    } else {
      var t := ReqToken(r).value;
      EpochConvex(u, v, w);
      CompareOrder(t, u, v);
      CompareOrder(u, t, t);
      CompareOrder(v, t, t);
    }
  }

  // ----- The caret range, stated as Cargo documents it -----

  /** The first version a caret requirement excludes: one more in the leftmost
      non-zero component, or in the last one written. */
  function CaretCeiling(t: Token): Token {
    if t[0] > 0 || |t| == 1 then [t[0] + 1]
    else if t[1] > 0 || |t| == 2 then [0, t[1] + 1]
    else [0, 0, t[2] + 1]
  }

  predicate InCaretRange(t: Token, v: seq<nat>) {
    Compare(v, t) >= 0 && Compare(v, CaretCeiling(t)) < 0
  }

  /** The written components are all zero and there are fewer than three: `0` and `0.0`. */
  predicate ShortZero(t: Token) {
    t == [0] || t == [0, 0]
  }

  lemma CaretRangeMatches(t: Token, v: seq<nat>)
    requires !ShortZero(t)
    ensures Admits(Caret(t), v) <==> InCaretRange(t, v)
  {
    CompareToToken(v, t);
    CompareToToken(v, CaretCeiling(t));
  }

  lemma ShortZeroMisses(t: Token)
    requires ShortZero(t)
    ensures InCaretRange(t, [0, 0, 1]) && !Admits(Caret(t), [0, 0, 1])
  {
    CompareToToken([0, 0, 1], t);
    CompareToToken([0, 0, 1], CaretCeiling(t));
  }

  /** The check's caret admission is the caret interval, except for `0` and `0.0`. */
  lemma CaretIsInterval(t: Token)
    ensures (forall v: seq<nat> :: Admits(Caret(t), v) <==> InCaretRange(t, v)) <==> !ShortZero(t)
  {
    if ShortZero(t) {
      ShortZeroMisses(t);
    } else {
      forall v: seq<nat>
        ensures Admits(Caret(t), v) <==> InCaretRange(t, v)
      {
        CaretRangeMatches(t, v);
      }
    }
  }

  // ----- Bump buckets -----

  datatype Bucket = Bucket(major: nat, minor: nat)

  /** `compat_bucket`. */
  function CompatBucket(nums: seq<nat>): Bucket {
    var p := Padded(nums);
    if p[0] > 0 then Bucket(p[0], 0) else Bucket(0, p[1])
  }

  /** `_bump_class_to_str`: the version suggested to leave a bucket. */
  function NextBump(b: Bucket): Token {
    if b.major > 0 then [b.major + 1, 0, 0] else [0, b.minor + 1, 0]
  }

  /** Buckets are epochs, except that all of 0.0.z is one bucket. */
  lemma BucketIff(a: seq<nat>, b: seq<nat>)
    ensures CompatBucket(a) == CompatBucket(b) <==>
      CompatEpoch(a) == CompatEpoch(b) || (InCaretRange([0, 0], a) && InCaretRange([0, 0], b))
  {
    CompareToToken(a, [0, 0]);
    CompareToToken(a, [0, 1]);
    CompareToToken(b, [0, 0]);
    CompareToToken(b, [0, 1]);
  }

  /** Epochs refine buckets. */
  lemma EpochFixesBucket(a: seq<nat>, b: seq<nat>)
    requires CompatEpoch(a) == CompatEpoch(b)
    ensures CompatBucket(a) == CompatBucket(b)
  {
  }

  /** The suggestion is above everything in the bucket, outside it, and the least such version. */
  lemma NextBumpIsLeast(nums: seq<nat>, v: seq<nat>, w: seq<nat>)
    ensures CompatBucket(NextBump(CompatBucket(nums))) != CompatBucket(nums)
    ensures CompatBucket(v) == CompatBucket(nums) ==> Compare(v, NextBump(CompatBucket(nums))) < 0
    ensures (forall u: seq<nat> :: CompatBucket(u) == CompatBucket(nums) ==> Compare(u, w) < 0)
        ==> Compare(w, NextBump(CompatBucket(nums))) >= 0
  {
    var next := NextBump(CompatBucket(nums));
    CompareToToken(v, next);
    CompareToToken(w, next);
    if Compare(w, next) < 0 {
      var high := if CompatBucket(nums).major > 0 then [CompatBucket(nums).major, 0, 0] else [0, CompatBucket(nums).minor, 0];
      assert CompatBucket(high) == CompatBucket(nums);
      CompareToToken(w, high);
      CompareOrder(high, w, w);
      if CompatBucket(w) == CompatBucket(nums) {
        CompareOrder(w, w, w);
      }
    }
  }
}
