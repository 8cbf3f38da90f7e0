/** Version numbers and their text: the README snippets work on text, the pre-tag check is
    modelled on numbers, and here the two readings are shown to be one. */
module VersionText {
  import opened Wrappers
  import opened Versions
  import opened Finalize
  import opened Snippets

  // ----- The pre-tag check's epoch, read from text -----

  function PartAt(v: string, i: nat): string {
    if v == [] then []
    else if v[0] == '.' then (if i == 0 then [] else PartAt(v[1..], i - 1))
    else if i == 0 then [v[0]] + PartAt(v[1..], 0)
    else PartAt(v[1..], i)
  }

  ghost predicate IsNumber(t: string) {
    t != [] && forall i :: 0 <= i < |t| ==> IsDigit(t[i])
  }

  /** One to three numbers joined by dots. */
  ghost predicate PlainNumbers(v: string) {
    Parts(v) <= 3 && forall i :: 0 <= i < Parts(v) ==> IsNumber(PartAt(v, i))
  }

  /** `epoch` of the pre-tag check, on the text of a version. */
  function EpochText(version: string): seq<string> {
    if PartAt(version, 0) == "0" then ["0", PartAt(version, 1)] else [PartAt(version, 0)]
  }

  /** `req_epoch` of the pre-tag check, on the text of a requirement. */
  ghost function ReqEpochText(r: string): Option<seq<string>> {
    if !PlainNumbers(r) || (PartAt(r, 0) == "0" && Parts(r) < 2) then None else Some(EpochText(r))
  }

  lemma {:induction false} PartOfTake(v: string, n: nat, i: nat)
    requires i < n
    ensures PartAt(TakeParts(v, n), i) == PartAt(v, i)
  {
    if v == [] {
    } else if v[0] != '.' {
      PartOfTake(v[1..], n, i);
      assert TakeParts(v, n)[1..] == TakeParts(v[1..], n);
    } else if n > 1 {
      assert TakeParts(v, n)[1..] == TakeParts(v[1..], n - 1);
      if i > 0 {
        PartOfTake(v[1..], n - 1, i - 1);
      }
    }
  }

  lemma {:induction false} FirstPart(v: string)
    ensures TakeParts(v, 1) == PartAt(v, 0)
  {
    if v != [] && v[0] != '.' {
      FirstPart(v[1..]);
    }
  }

  /** The components of the requirement written are the first ones of the version. */
  lemma ExpectedParts(req: string, version: string)
    ensures Parts(ExpectedReq(req, version)) == Min(Wanted(req, version), Parts(version))
    ensures forall i: nat :: i < Wanted(req, version) ==> PartAt(ExpectedReq(req, version), i) == PartAt(version, i)
    ensures Wanted(req, version) == 1 ==> PartAt(version, 0) != "0"
  {
    var n := Wanted(req, version);
    TakeCounts(req, 1);
    TakeCounts(version, n);
    FirstPart(version);
    forall i: nat | i < n
      ensures PartAt(TakeParts(version, n), i) == PartAt(version, i)
    {
      PartOfTake(version, n, i);
    }
  }

  /** For a version that starts with two numbers, whatever the snippet said before, the
      requirement written passes the pre-tag epoch check exactly when it stops short of the
      third component or that is a number too, not a number with a suffix. */
  lemma ExpectedReqOnEpochIff(req: string, version: string)
    requires Parts(version) >= 3 && IsNumber(PartAt(version, 0)) && IsNumber(PartAt(version, 1))
    ensures ReqEpochText(ExpectedReq(req, version)) == Some(EpochText(version)) <==>
      Parts(req) < 3 || IsNumber(PartAt(version, 2))
  {
    var n := Wanted(req, version);
    ExpectedParts(req, version);
    assert n == 3 <==> Parts(req) >= 3;
    assert n == 3 ==> PartAt(ExpectedReq(req, version), 2) == PartAt(version, 2);
  }

  // ----- Numbers as text -----

  function Digit(d: nat): char
    requires d < 10
  {
    ('0' as int + d) as char
  }

  /** A number in decimal, without leading zeros. */
  function NumText(n: nat): string {
    if n < 10 then [Digit(n)] else NumText(n / 10) + [Digit(n % 10)]
  }

  function NumValue(t: string): nat {
    if t == [] then 0
    else
      var c := t[|t| - 1];
      10 * NumValue(t[..|t| - 1]) + if IsDigit(c) then c as int - '0' as int else 0
  }

  lemma {:induction false} NumTextReads(n: nat)
    ensures NumValue(NumText(n)) == n
  {
    if n < 10 {
      assert NumValue([]) == 0;
    } else {
      NumTextReads(n / 10);
    }
  }

  /** Numbers joined by dots. */
  function Render(nums: seq<nat>): string
    requires nums != []
  {
    if |nums| == 1 then NumText(nums[0]) else NumText(nums[0]) + (['.'] + Render(nums[1..]))
  }

  function Texts(nums: seq<nat>): seq<string> {
    seq(|nums|, i requires 0 <= i < |nums| => NumText(nums[i]))
  }

  ghost predicate AllDigits(t: string) {
    forall i :: 0 <= i < |t| ==> IsDigit(t[i])
  }

  lemma {:induction false} NumTextDigits(n: nat)
    ensures NumText(n) != [] && AllDigits(NumText(n)) && IsNumber(NumText(n))
    ensures NumText(n) == "0" <==> n == 0
  {
    if n < 10 {
    } else {
      NumTextDigits(n / 10);
    }
  }

  // ----- Taking a rendered text apart -----

  lemma {:induction false} PlainParts(t: string)
    requires AllDigits(t)
    ensures Parts(t) == 1 && PartAt(t, 0) == t
    ensures forall n :: n > 0 ==> TakeParts(t, n) == t
  {
    if t == [] {
    } else {
      PlainParts(t[1..]);
      assert t == [t[0]] + t[1..];
    }
  }

  lemma {:induction false} DottedCount(t: string, rest: string)
    requires AllDigits(t)
    ensures Parts(t + (['.'] + rest)) == 1 + Parts(rest)
  {
    var s := t + (['.'] + rest);
    if t == [] {
      assert s == ['.'] + rest && s[1..] == rest;
    } else {
      DottedCount(t[1..], rest);
      assert s[1..] == t[1..] + (['.'] + rest);
    }
  }

  lemma {:induction false} DottedPart(t: string, rest: string, i: nat)
    requires AllDigits(t)
    ensures PartAt(t + (['.'] + rest), i) == if i == 0 then t else PartAt(rest, i - 1)
  {
    var s := t + (['.'] + rest);
    if t == [] {
      assert s == ['.'] + rest && s[1..] == rest;
    } else {
      DottedPart(t[1..], rest, i);
      assert s[1..] == t[1..] + (['.'] + rest) && t == [t[0]] + t[1..];
    }
  }

  lemma {:induction false} DottedTake(t: string, rest: string, n: nat)
    requires AllDigits(t) && n > 0
    ensures TakeParts(t + (['.'] + rest), n) == if n == 1 then t else t + (['.'] + TakeParts(rest, n - 1))
  {
    var s := t + (['.'] + rest);
    if t == [] {
      assert s == ['.'] + rest && s[1..] == rest;
    } else {
      DottedTake(t[1..], rest, n);
      assert s[1..] == t[1..] + (['.'] + rest) && t == [t[0]] + t[1..];
      assert TakeParts(s, n) == [t[0]] + TakeParts(s[1..], n);
    }
  }

  lemma {:induction false} RenderParts(nums: seq<nat>, i: nat)
    requires i < |nums|
    ensures Parts(Render(nums)) == |nums| && PartAt(Render(nums), i) == NumText(nums[i])
  {
    NumTextDigits(nums[0]);
    if |nums| == 1 {
      PlainParts(NumText(nums[0]));
    } else {
      RenderParts(nums[1..], if i == 0 then 0 else i - 1);
      DottedCount(NumText(nums[0]), Render(nums[1..]));
      DottedPart(NumText(nums[0]), Render(nums[1..]), i);
    }
  }

  lemma {:induction false} RenderTake(nums: seq<nat>, n: nat)
    requires 1 <= n <= |nums|
    ensures TakeParts(Render(nums), n) == Render(nums[..n])
  {
    NumTextDigits(nums[0]);
    if |nums| == 1 {
      PlainParts(NumText(nums[0]));
      assert nums[..n] == nums;
    } else {
      DottedTake(NumText(nums[0]), Render(nums[1..]), n);
      if n > 1 {
        RenderTake(nums[1..], n - 1);
        assert nums[..n][1..] == nums[1..][..n - 1];
      }
    }
  }

  lemma RenderIsPlain(nums: seq<nat>)
    requires 1 <= |nums| <= 3
    ensures PlainNumbers(Render(nums)) && Parts(Render(nums)) == |nums|
  {
    RenderParts(nums, 0);
    forall i | 0 <= i < |nums|
      ensures IsNumber(PartAt(Render(nums), i))
    {
      RenderParts(nums, i);
      NumTextDigits(nums[i]);
    }
  }

  // ----- The two readings of an epoch agree -----

  /** The epoch read from the text is the text of the epoch read from the numbers. */
  lemma EpochReadingsAgree(nums: seq<nat>)
    requires |nums| >= 2
    ensures EpochText(Render(nums)) == Texts(TagEpoch(nums))
  {
    RenderParts(nums, 0);
    RenderParts(nums, 1);
    NumTextDigits(nums[0]);
    NumTextDigits(0);
  }

  /** The same for a requirement, problems included. */
  lemma ReqEpochReadingsAgree(t: Token)
    ensures ReqEpochText(Render(t)) ==
      if RequiredTagEpoch(Caret(t)).Ok? then Some(Texts(RequiredTagEpoch(Caret(t)).value)) else None
  {
    RenderIsPlain(t);
    RenderParts(t, 0);
    NumTextDigits(t[0]);
    NumTextDigits(0);
    if |t| >= 2 {
      EpochReadingsAgree(t);
      assert RequiredTagEpoch(Caret(t)) == Ok(TagEpoch(t));
    } else {
      assert t[0] != 0 ==> EpochText(Render(t)) == [NumText(t[0])] == Texts([t[0]]);
    }
  }

  // ----- What the rewriter writes -----

  predicate SuffixText(s: string) {
    s == "" || s[0] == '-' || s[0] == '+'
  }

  function Text(c: Version): string
    requires Full(c)
  {
    Render(c.nums) + c.suffix
  }

  lemma {:induction false} DigitsThen(t: string, rest: string)
    requires AllDigits(t)
    ensures PartAt(t + rest, 0) == t + PartAt(rest, 0)
  {
    if t == [] {
      assert t + rest == rest;
    } else {
      DigitsThen(t[1..], rest);
      assert (t + rest)[1..] == t[1..] + rest && t == [t[0]] + t[1..];
    }
  }

  /** The third component with what follows it. */
  function Last(c: Version): string
    requires Full(c)
  {
    NumText(c.nums[2]) + c.suffix
  }

  lemma TextShape(c: Version)
    requires Full(c)
    ensures Text(c) == NumText(c.nums[0]) + (['.'] + (NumText(c.nums[1]) + (['.'] + Last(c))))
  {
    var a, b, z := NumText(c.nums[0]), NumText(c.nums[1]), NumText(c.nums[2]);
    assert Render([c.nums[2]]) == z;
    assert c.nums[1..][1..] == [c.nums[2]];
    assert Render(c.nums[1..]) == b + (['.'] + z);
    assert Render(c.nums) == a + (['.'] + (b + (['.'] + z)));
  }

  lemma LastIsNumberIff(c: Version)
    requires Full(c) && SuffixText(c.suffix)
    ensures IsNumber(PartAt(Last(c), 0)) <==> c.suffix == ""
  {
    var z := NumText(c.nums[2]);
    NumTextDigits(c.nums[2]);
    DigitsThen(z, c.suffix);
    if c.suffix != "" {
      assert PartAt(c.suffix, 0)[0] == c.suffix[0];
      assert !IsDigit(PartAt(Last(c), 0)[|z|]);
    }
  }

  /** The text of a version, component by component. */
  lemma TextParts(c: Version)
    requires Full(c) && SuffixText(c.suffix)
    ensures Parts(Text(c)) >= 3
    ensures PartAt(Text(c), 0) == NumText(c.nums[0]) && PartAt(Text(c), 1) == NumText(c.nums[1])
    ensures IsNumber(PartAt(Text(c), 2)) <==> c.suffix == ""
  {
    var a, b := NumText(c.nums[0]), NumText(c.nums[1]);
    var rest := b + (['.'] + Last(c));
    NumTextDigits(c.nums[0]);
    NumTextDigits(c.nums[1]);
    TextShape(c);
    forall i: nat | i < 3
      ensures PartAt(Text(c), i) == if i == 0 then a else if i == 1 then b else PartAt(Last(c), 0)
    {
      DottedPart(a, rest, i);
      if i > 0 {
        DottedPart(b, Last(c), i - 1);
      }
    }
    DottedCount(a, rest);
    DottedCount(b, Last(c));
    TakeCounts(Last(c), 1);
    LastIsNumberIff(c);
  }

  /** One component, or two, of the text never reach the suffix. */
  lemma TextTake(c: Version, n: nat)
    requires Full(c) && SuffixText(c.suffix) && (n == 1 || n == 2 || (n == 3 && c.suffix == ""))
    ensures TakeParts(Text(c), n) == Render(c.nums[..n])
  {
    if n == 3 {
      RenderTake(c.nums, 3);
      assert Text(c) == Render(c.nums);
    } else {
      TextShape(c);
      NumTextDigits(c.nums[0]);
      NumTextDigits(c.nums[1]);
      DottedTake(NumText(c.nums[0]), NumText(c.nums[1]) + (['.'] + Last(c)), n);
      if n == 2 {
        DottedTake(NumText(c.nums[1]), Last(c), 1);
        assert c.nums[..2][1..] == [c.nums[1]];
      }
    }
  }

  /** The requirement written stops short of a suffix. */
  predicate StopsShort(req: string, c: Version) {
    Parts(req) < 3 || c.suffix == ""
  }

  /** Whatever a snippet said, what the rewriter writes for a version passes the pre-tag
      epoch check for it exactly when it stops short of the suffix. */
  lemma RewrittenPassesIff(req: string, c: Version)
    requires Full(c) && SuffixText(c.suffix)
    ensures ReqEpochText(ExpectedReq(req, Text(c))) == Some(Texts(TagEpoch(c.nums))) <==> StopsShort(req, c)
  {
    TextParts(c);
    NumTextDigits(c.nums[0]);
    NumTextDigits(c.nums[1]);
    NumTextDigits(0);
    ExpectedReqOnEpochIff(req, Text(c));
    assert EpochText(Text(c)) == Texts(TagEpoch(c.nums));
  }

  /** And then it is a leading part of the version's numbers. */
  lemma RewrittenPassesTagCheck(req: string, c: Version) returns (t: Token)
    requires Full(c) && SuffixText(c.suffix) && StopsShort(req, c)
    ensures ExpectedReq(req, Text(c)) == Render(t) && t <= c.nums && EpochPasses(Caret(t), c)
  {
    TextParts(c);
    NumTextDigits(c.nums[0]);
    var n := Wanted(req, Text(c));
    ExpectedParts(req, Text(c));
    TextTake(c, n);
    t := c.nums[..n];
  }
}
