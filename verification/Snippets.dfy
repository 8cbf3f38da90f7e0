/** README dependency snippets: finding them, deciding what they should say, rewriting them.

    The snippet pattern is anchored at a line start and can never cross a line break, so
    a document is a sequence of lines and each line holds at most one match. */
module Snippets {
  import opened Wrappers

  // ----- Characters -----

  predicate IsBlank(c: char) { c == ' ' || c == '\t' }

  predicate IsDigit(c: char) { '0' <= c <= '9' }

  predicate IsWord(c: char) { IsDigit(c) || 'a' <= c <= 'z' || 'A' <= c <= 'Z' || c == '_' }

  predicate IsNameChar(c: char) { IsWord(c) || c == '-' }

  predicate IsReqChar(c: char) { (IsWord(c) && c != '_') || c == '.' || c == '+' || c == '-' }

  /** The first position at or after `i` that is not in the class. */
  function Skip(s: string, i: nat, cls: char -> bool): (r: nat)
    requires i <= |s|
    ensures i <= r <= |s|
    decreases |s| - i
  {
    if i < |s| && cls(s[i]) then Skip(s, i + 1, cls) else i
  }

  // ----- The pattern -----

  // `word` says which characters count as word characters for the boundary before
  // `version`. Python's answer covers all of Unicode; nothing below depends on it.

  /** `name = ` at the start of a line: the name's bounds and where the value starts. */
  datatype Head = Head(nameLo: nat, nameHi: nat, value: nat)

  function ParseHead(s: string): (h: Option<Head>)
    ensures h.Some? ==> h.value.nameLo < h.value.nameHi < h.value.value <= |s|
  {
    var a := Skip(s, 0, IsBlank);
    var b := Skip(s, a, IsNameChar);
    var c := Skip(s, b, IsBlank);
    if a == b || c >= |s| || s[c] != '=' then None else Some(Head(a, b, Skip(s, c + 1, IsBlank)))
  }

  /** A quoted requirement opening at `e`: the position of its closing quote. */
  function QuotedReq(s: string, e: nat): (f: Option<nat>)
    ensures f.Some? ==> e + 1 < f.value < |s| && s[e] == '"' && s[f.value] == '"'
  {
    if e + 1 >= |s| || s[e] != '"' || !IsDigit(s[e + 1]) then None
    else
      var f := Skip(s, e + 1, IsReqChar);
      if f >= |s| || s[f] != '"' then None else (assert f > e + 1; Some(f))
  }

  const VERSION := "version"

  /** The word `version` at `p`, then `=`: where its value starts. */
  function VersionValue(word: char -> bool, s: string, p: nat): (e: Option<nat>)
    ensures e.Some? ==> p < e.value <= |s|
  {
    if p + 7 > |s| || s[p..p + 7] != VERSION || (p > 0 && word(s[p - 1])) then None
    else
      var q := Skip(s, p + 7, IsBlank);
      if q >= |s| || s[q] != '=' then None else Some(Skip(s, q + 1, IsBlank))
  }

  /** Inside braces: the first `version = "req"` before the closing brace. */
  function SearchVersion(word: char -> bool, s: string, p: nat): (r: Option<(nat, nat)>)
    ensures r.Some? ==> p < r.value.0 && QuotedReq(s, r.value.0) == Some(r.value.1)
    decreases |s| - p
  {
    if p >= |s| then None
    else
      var e := VersionValue(word, s, p);
      if e.Some? && QuotedReq(s, e.value).Some? then Some((e.value, QuotedReq(s, e.value).value))
      else if s[p] == '}' then None
      else SearchVersion(word, s, p + 1)
  }

  /** A match: the crate named, and the positions of the two quotes. */
  datatype Hit = Hit(name: string, open: nat, close: nat)

  /** The quotes of the requirement in a value that starts at `d`. */
  function MatchValue(word: char -> bool, s: string, d: nat): (r: Option<(nat, nat)>)
    ensures r.Some? ==> d <= r.value.0 && QuotedReq(s, r.value.0) == Some(r.value.1)
  {
    if d < |s| && s[d] == '{' then SearchVersion(word, s, d + 1)
    else
      match QuotedReq(s, d)
      case None => None
      case Some(f) => Some((d, f))
  }

  function Match(word: char -> bool, s: string): (h: Option<Hit>)
    ensures h.Some? ==> QuotedReq(s, h.value.open) == Some(h.value.close)
  {
    match ParseHead(s)
    case None => None
    case Some(h) =>
      match MatchValue(word, s, h.value)
      case None => None
      case Some(r) => Some(Hit(s[h.nameLo..h.nameHi], r.0, r.1))
  }

  function ReqOf(s: string, h: Hit): string
    requires QuotedReq(s, h.open) == Some(h.close)
  {
    s[h.open + 1..h.close]
  }

  // ----- What the pattern says -----

  ghost predicate Stretch(s: string, i: nat, j: nat, cls: char -> bool) {
    i <= j <= |s| && forall k :: i <= k < j ==> cls(s[k])
  }

  ghost predicate EqualsAt(s: string, i: nat, c: nat, e: nat) {
    Stretch(s, i, c, IsBlank) && c < |s| && s[c] == '=' && Stretch(s, c + 1, e, IsBlank)
  }

  /** An equals sign among blanks, from `i` up to `e`. */
  ghost predicate Equals(s: string, i: nat, e: nat) {
    exists c: nat :: EqualsAt(s, i, c, e)
  }

  /** Blanks, a name, and an equals sign among blanks, up to `d`. */
  ghost predicate HeadAt(s: string, a: nat, b: nat, d: nat) {
    Stretch(s, 0, a, IsBlank) && a < b && Stretch(s, a, b, IsNameChar) && Equals(s, b, d)
  }

  /** Between quotes a digit, and requirement characters. */
  ghost predicate QuotedAt(s: string, e: nat, f: nat) {
    e + 1 < f < |s| && s[e] == '"' && s[f] == '"' && IsDigit(s[e + 1]) && Stretch(s, e + 1, f, IsReqChar)
  }

  /** The word `version`, an equals sign among blanks, and a quoted requirement. */
  ghost predicate VersionAt(word: char -> bool, s: string, p: nat, e: nat, f: nat) {
    && p + 7 <= |s| && s[p..p + 7] == VERSION && (p > 0 ==> !word(s[p - 1]))
    && Equals(s, p + 7, e) && QuotedAt(s, e, f)
  }

  ghost predicate VersionHere(word: char -> bool, s: string, p: nat) {
    exists e: nat, f: nat :: VersionAt(word, s, p, e, f)
  }

  /** Nothing between `lo` and `p` closes the braces or is such a place. */
  ghost predicate NothingBefore(word: char -> bool, s: string, lo: nat, p: nat) {
    lo <= p <= |s| && forall q: nat :: lo <= q < p ==> s[q] != '}' && !VersionHere(word, s, q)
  }

  /** The first such place at or after `lo`, before any closing brace. */
  ghost predicate FirstVersion(word: char -> bool, s: string, lo: nat, e: nat, f: nat) {
    exists p: nat :: NothingBefore(word, s, lo, p) && VersionAt(word, s, p, e, f)
  }

  /** The value at `d` is the requirement, or braces with the word `version` and it inside. */
  ghost predicate ValueAt(word: char -> bool, s: string, d: nat, e: nat, f: nat) {
    (e == d && QuotedAt(s, e, f)) || (d < |s| && s[d] == '{' && FirstVersion(word, s, d + 1, e, f))
  }

  /** The line says `name = "req"`, or `name = { ... version = "req"`, with the name from `a`
      to `b` and the value at `d`. */
  ghost predicate Says(word: char -> bool, s: string, h: Hit, a: nat, b: nat, d: nat) {
    HeadAt(s, a, b, d) && h.name == s[a..b] && ValueAt(word, s, d, h.open, h.close)
  }

  lemma {:induction false} SkipIff(s: string, i: nat, j: nat, cls: char -> bool)
    requires i <= |s|
    ensures Skip(s, i, cls) == j <==> Stretch(s, i, j, cls) && (j < |s| ==> !cls(s[j]))
    decreases |s| - i
  {
    if i < |s| && cls(s[i]) {
      SkipIff(s, i + 1, j, cls);
    }
  }

  lemma EqualsIff(s: string, i: nat, e: nat)
    requires i <= |s| && (e < |s| ==> !IsBlank(s[e]))
    ensures Equals(s, i, e) <==>
      var c := Skip(s, i, IsBlank);
      c < |s| && s[c] == '=' && e == Skip(s, c + 1, IsBlank)
  {
    forall c: nat
      ensures EqualsAt(s, i, c, e) <==> c == Skip(s, i, IsBlank) && c < |s| && s[c] == '=' && e == Skip(s, c + 1, IsBlank)
    {
      SkipIff(s, i, c, IsBlank);
      if c < |s| {
        SkipIff(s, c + 1, e, IsBlank);
      }
    }
  }

  lemma QuotedIff(s: string, e: nat, f: nat)
    ensures QuotedReq(s, e) == Some(f) <==> QuotedAt(s, e, f)
  {
    if e + 1 < |s| {
      SkipIff(s, e + 1, f, IsReqChar);
    }
  }

  lemma VersionIff(word: char -> bool, s: string, p: nat, e: nat, f: nat)
    ensures VersionValue(word, s, p) == Some(e) && QuotedReq(s, e) == Some(f) <==> VersionAt(word, s, p, e, f)
  {
    QuotedIff(s, e, f);
    if p + 7 <= |s| && QuotedAt(s, e, f) {
      EqualsIff(s, p + 7, e);
    }
  }

  lemma VersionHereIff(word: char -> bool, s: string, p: nat)
    ensures VersionHere(word, s, p) <==> VersionValue(word, s, p).Some? && QuotedReq(s, VersionValue(word, s, p).value).Some?
  {
    forall e: nat, f: nat
      ensures VersionAt(word, s, p, e, f) <==> VersionValue(word, s, p) == Some(e) && QuotedReq(s, e) == Some(f)
    {
      VersionIff(word, s, p, e, f);
    }
    if VersionValue(word, s, p).Some? && QuotedReq(s, VersionValue(word, s, p).value).Some? {
      var e := VersionValue(word, s, p).value;
      assert VersionAt(word, s, p, e, QuotedReq(s, e).value);
    }
  }

  /** The search goes on from `lo` exactly when there is neither a brace nor a hit. */
  lemma FirstVersionStep(word: char -> bool, s: string, lo: nat, e: nat, f: nat)
    requires lo < |s|
    ensures VersionHere(word, s, lo) ==> (FirstVersion(word, s, lo, e, f) <==> VersionAt(word, s, lo, e, f))
    ensures !VersionHere(word, s, lo) && s[lo] == '}' ==> !FirstVersion(word, s, lo, e, f)
    ensures !VersionHere(word, s, lo) && s[lo] != '}' ==> (FirstVersion(word, s, lo, e, f) <==> FirstVersion(word, s, lo + 1, e, f))
  {
    forall p: nat
      ensures NothingBefore(word, s, lo, p) <==>
        p == lo || (NothingBefore(word, s, lo + 1, p) && s[lo] != '}' && !VersionHere(word, s, lo))
    {
    }
    assert NothingBefore(word, s, lo, lo);
  }

  lemma {:induction false} SearchIff(word: char -> bool, s: string, lo: nat, e: nat, f: nat)
    ensures SearchVersion(word, s, lo) == Some((e, f)) <==> FirstVersion(word, s, lo, e, f)
    decreases |s| - lo
  {
    if lo < |s| {
      VersionHereIff(word, s, lo);
      VersionIff(word, s, lo, e, f);
      FirstVersionStep(word, s, lo, e, f);
      if !VersionHere(word, s, lo) && s[lo] != '}' {
        SearchIff(word, s, lo + 1, e, f);
      }
    }
  }

  lemma ValueIff(word: char -> bool, s: string, d: nat, e: nat, f: nat)
    ensures MatchValue(word, s, d) == Some((e, f)) <==> ValueAt(word, s, d, e, f)
  {
    QuotedIff(s, e, f);
    SearchIff(word, s, d + 1, e, f);
  }

  lemma HeadIff(s: string, a: nat, b: nat, d: nat)
    requires d < |s| && !IsBlank(s[d])
    ensures ParseHead(s) == Some(Head(a, b, d)) <==> HeadAt(s, a, b, d)
  {
    SkipIff(s, 0, a, IsBlank);
    if a <= |s| {
      SkipIff(s, a, b, IsNameChar);
    }
    if b <= |s| {
      EqualsIff(s, b, d);
    }
  }

  /** The pattern matches a line in at most one way, and exactly when the line says so. */
  lemma MatchIff(word: char -> bool, s: string, h: Hit)
    ensures Match(word, s) == Some(h) <==> exists a: nat, b: nat, d: nat :: Says(word, s, h, a, b, d)
  {
    forall a: nat, b: nat, d: nat
      ensures Says(word, s, h, a, b, d) <==>
        ParseHead(s) == Some(Head(a, b, d)) && h.name == s[a..b] && MatchValue(word, s, d) == Some((h.open, h.close))
    {
      ValueIff(word, s, d, h.open, h.close);
      if d < |s| && !IsBlank(s[d]) {
        HeadIff(s, a, b, d);
      }
    }
    if Match(word, s) == Some(h) {
      var p := ParseHead(s).value;
      assert Says(word, s, h, p.nameLo, p.nameHi, p.value);
    }
  }

  // ----- The expected requirement -----

  /** How many dot-separated components a text has. */
  function Parts(v: string): nat {
    if v == [] then 1 else (if v[0] == '.' then 1 else 0) + Parts(v[1..])
  }

  /** The first `n` components, joined by dots. */
  function TakeParts(v: string, n: nat): string
    requires n > 0
  {
    if v == [] then []
    else if v[0] == '.' then (if n == 1 then [] else ['.'] + TakeParts(v[1..], n - 1))
    else [v[0]] + TakeParts(v[1..], n)
  }

  function Min(a: nat, b: nat): nat { if a < b then a else b }

  function Max(a: nat, b: nat): nat { if a < b then b else a }

  /** At least major, and major.minor for a 0.x version. */
  function Least(version: string): nat {
    if TakeParts(version, 1) == "0" then 2 else 1
  }

  /** How many components a snippet that says `req` should say. */
  function Wanted(req: string, version: string): nat {
    Min(Max(Parts(req), Least(version)), 3)
  }

  /** `expected_req` */
  function ExpectedReq(req: string, version: string): string {
    TakeParts(version, Wanted(req, version))
  }

  // ----- Rewriting -----

  type Plan = map<string, string>

  /** The snippet names a workspace crate and says something else than it should. */
  predicate StaleLine(word: char -> bool, s: string, versions: Plan) {
    match Match(word, s)
    case None => false
    case Some(h) => h.name in versions && ReqOf(s, h) != ExpectedReq(ReqOf(s, h), versions[h.name])
  }

  function WithReq(s: string, h: Hit, want: string): string
    requires QuotedReq(s, h.open) == Some(h.close)
  {
    s[..h.open + 1] + want + s[h.close..]
  }

  function RewriteLine(word: char -> bool, s: string, versions: Plan): string {
    if StaleLine(word, s, versions) then
      var h := Match(word, s).value;
      WithReq(s, h, ExpectedReq(ReqOf(s, h), versions[h.name]))
    else s
  }

  /** The substitution callback. */
  method Substitute(word: char -> bool, s: string, versions: Plan) returns (r: string, changed: bool)
    ensures r == RewriteLine(word, s, versions) && changed == StaleLine(word, s, versions)
  {
    var m := Match(word, s);
    if m == None || m.value.name !in versions {
      return s, false;
    }
    var want := ExpectedReq(ReqOf(s, m.value), versions[m.value.name]);
    if want == ReqOf(s, m.value) {
      return s, false;
    }
    return WithReq(s, m.value, want), true;
  }

  function RewriteLines(word: char -> bool, lines: seq<string>, versions: Plan): seq<string> {
    if lines == [] then []
    else RewriteLines(word, lines[..|lines| - 1], versions) + [RewriteLine(word, lines[|lines| - 1], versions)]
  }

  /** The numbers of the stale lines. */
  function Stale(word: char -> bool, lines: seq<string>, versions: Plan): seq<nat> {
    if lines == [] then []
    else Stale(word, lines[..|lines| - 1], versions) + (if StaleLine(word, lines[|lines| - 1], versions) then [|lines| - 1] else [])
  }

  lemma OneMoreLine(word: char -> bool, lines: seq<string>, last: string, versions: Plan)
    ensures RewriteLines(word, lines + [last], versions) == RewriteLines(word, lines, versions) + [RewriteLine(word, last, versions)]
    ensures Stale(word, lines + [last], versions) ==
      Stale(word, lines, versions) + (if StaleLine(word, last, versions) then [|lines|] else [])
  {
    assert (lines + [last])[..|lines|] == lines;
  }

  /** `rewrite` on one document, with the line numbers it reports. */
  method Rewrite(word: char -> bool, lines: seq<string>, versions: Plan) returns (rewritten: seq<string>, changes: seq<nat>)
    ensures rewritten == RewriteLines(word, lines, versions)
    ensures changes == Stale(word, lines, versions)
  {
    rewritten, changes := [], [];
    for i := 0 to |lines|
      invariant rewritten == RewriteLines(word, lines[..i], versions)
      invariant changes == Stale(word, lines[..i], versions)
    {
      OneMoreLine(word, lines[..i], lines[i], versions);
      assert lines[..i + 1] == lines[..i] + [lines[i]];
      var line, changed := Substitute(word, lines[i], versions);
      rewritten := rewritten + [line];
      if changed {
        changes := changes + [i];
      }
    }
    assert lines[..|lines|] == lines;
  }

  // ----- A rewritten line still matches, in the same place -----

  /** Two lines that agree up to and including a quote at `e`. */
  ghost predicate AgreeTo(a: string, b: string, e: nat) {
    e < |a| && e < |b| && a[e] == '"' && forall i :: 0 <= i <= e ==> a[i] == b[i]
  }

  lemma {:induction false} SkipAgree(a: string, b: string, e: nat, i: nat, cls: char -> bool)
    requires AgreeTo(a, b, e) && i <= e && !cls('"')
    ensures Skip(a, i, cls) == Skip(b, i, cls) <= e
    decreases e - i
  {
    if i < e && cls(a[i]) {
      SkipAgree(a, b, e, i + 1, cls);
    }
  }

  lemma QuotedAgree(a: string, b: string, e: nat, x: nat)
    requires AgreeTo(a, b, e) && x < e
    ensures QuotedReq(a, x) == QuotedReq(b, x)
  {
    SkipAgree(a, b, e, x + 1, IsReqChar);
  }

  lemma WordAgree(a: string, b: string, e: nat, p: nat)
    requires AgreeTo(a, b, e) && p <= e
    ensures p + 7 <= |a| && a[p..p + 7] == VERSION <==> p + 7 <= |b| && b[p..p + 7] == VERSION
    ensures p + 7 <= |a| && a[p..p + 7] == VERSION ==> p + 7 <= e
  {
    if p + 7 <= e {
      assert a[p..p + 7] == b[p..p + 7];
    }
  }

  lemma VersionAgree(word: char -> bool, a: string, b: string, e: nat, p: nat)
    requires AgreeTo(a, b, e) && p <= e
    ensures VersionValue(word, a, p) == VersionValue(word, b, p)
    ensures VersionValue(word, a, p).Some? ==> VersionValue(word, a, p).value <= e
  {
    WordAgree(a, b, e, p);
    if p + 7 <= e {
      SkipAgree(a, b, e, p + 7, IsBlank);
      var q := Skip(a, p + 7, IsBlank);
      if a[q] == '=' {
        SkipAgree(a, b, e, q + 1, IsBlank);
      }
    }
  }

  lemma {:induction false} SearchAgree(word: char -> bool, a: string, b: string, e: nat, p: nat, fa: nat, fb: nat)
    requires AgreeTo(a, b, e) && p <= e
    requires SearchVersion(word, a, p) == Some((e, fa)) && QuotedReq(b, e) == Some(fb)
    ensures SearchVersion(word, b, p) == Some((e, fb))
    decreases e - p
  {
    VersionAgree(word, a, b, e, p);
    var x := VersionValue(word, a, p);
    if x.Some? && x.value < e {
      QuotedAgree(a, b, e, x.value);
    }
    if !(x.Some? && QuotedReq(a, x.value).Some?) {
      SearchAgree(word, a, b, e, p + 1, fa, fb);
    }
  }

  lemma HeadAgree(a: string, b: string, e: nat)
    requires AgreeTo(a, b, e) && ParseHead(a).Some? && ParseHead(a).value.value <= e
    ensures ParseHead(b) == ParseHead(a)
  {
    SkipAgree(a, b, e, 0, IsBlank);
    var i := Skip(a, 0, IsBlank);
    SkipAgree(a, b, e, i, IsNameChar);
    var j := Skip(a, i, IsNameChar);
    SkipAgree(a, b, e, j, IsBlank);
    var c := Skip(a, j, IsBlank);
    SkipAgree(a, b, e, c + 1, IsBlank);
  }

  lemma ValueAgree(word: char -> bool, a: string, b: string, d: nat, e: nat, fa: nat, fb: nat)
    requires MatchValue(word, a, d) == Some((e, fa)) && AgreeTo(a, b, e) && QuotedReq(b, e) == Some(fb)
    ensures MatchValue(word, b, d) == Some((e, fb))
  {
    if a[d] == '{' {
      SearchAgree(word, a, b, e, d + 1, fa, fb);
    }
  }

  lemma MatchAgree(word: char -> bool, a: string, b: string, h: Hit, close: nat)
    requires Match(word, a) == Some(h) && AgreeTo(a, b, h.open) && QuotedReq(b, h.open) == Some(close)
    ensures Match(word, b) == Some(Hit(h.name, h.open, close))
  {
    var head := ParseHead(a).value;
    ValueAgree(word, a, b, head.value, h.open, h.close, close);
    HeadAgree(a, b, h.open);
    assert a[head.nameLo..head.nameHi] == b[head.nameLo..head.nameHi];
  }

  /** A text the pattern accepts as a requirement. */
  ghost predicate ReqText(s: string) {
    s != [] && IsDigit(s[0]) && forall i :: 0 <= i < |s| ==> IsReqChar(s[i])
  }

  lemma {:induction false} SkipReq(s: string, i: nat, f: nat)
    requires i <= f < |s| && s[f] == '"' && forall k :: i <= k < f ==> IsReqChar(s[k])
    ensures Skip(s, i, IsReqChar) == f
    decreases f - i
  {
    if i < f {
      SkipReq(s, i + 1, f);
    }
  }

  lemma QuotedFresh(t: string, e: nat, want: string)
    requires e + 1 + |want| < |t| && t[e] == '"' && t[e + 1 + |want|] == '"' && t[e + 1..e + 1 + |want|] == want
    requires ReqText(want)
    ensures QuotedReq(t, e) == Some(e + 1 + |want|)
  {
    var f := e + 1 + |want|;
    forall k | e + 1 <= k < f
      ensures IsReqChar(t[k])
    {
      assert t[k] == want[k - (e + 1)];
    }
    assert t[e + 1] == want[0];
    SkipReq(t, e + 1, f);
  }

  lemma QuotedAgain(s: string, h: Hit, want: string, t: string)
    requires QuotedReq(s, h.open) == Some(h.close) && ReqText(want) && t == WithReq(s, h, want)
    ensures AgreeTo(s, t, h.open) && QuotedReq(t, h.open) == Some(h.open + 1 + |want|)
  {
    QuotedFresh(t, h.open, want);
  }

  /** Putting another requirement between the quotes changes the requirement and nothing else. */
  lemma MatchStable(word: char -> bool, s: string, h: Hit, want: string, t: string)
    requires Match(word, s) == Some(h) && ReqText(want) && t == WithReq(s, h, want)
    ensures Match(word, t) == Some(Hit(h.name, h.open, h.open + 1 + |want|))
  {
    QuotedAgain(s, h, want, t);
    MatchAgree(word, s, t, h, h.open + 1 + |want|);
  }

  // ----- The expected requirement is settled by the version -----

  lemma {:induction false} TakeCounts(v: string, n: nat)
    requires n > 0
    ensures Parts(v) > 0 && Parts(TakeParts(v, n)) == Min(n, Parts(v))
    ensures n >= Parts(v) ==> TakeParts(v, n) == v
  {
    if v == [] {
    } else {
      assert v == [v[0]] + v[1..];
      if v[0] == '.' {
        TakeCounts(v[1..], if n == 1 then 1 else n - 1);
        assert (['.'] + TakeParts(v[1..], if n == 1 then 1 else n - 1))[1..] == TakeParts(v[1..], if n == 1 then 1 else n - 1);
      } else {
        TakeCounts(v[1..], n);
        assert ([v[0]] + TakeParts(v[1..], n))[1..] == TakeParts(v[1..], n);
      }
    }
  }

  lemma {:induction false} TakeIsPrefix(v: string, n: nat)
    requires n > 0
    ensures TakeParts(v, n) <= v
  {
    if v == [] {
    } else {
      assert v == [v[0]] + v[1..];
      if v[0] != '.' {
        TakeIsPrefix(v[1..], n);
      } else if n > 1 {
        TakeIsPrefix(v[1..], n - 1);
      }
    }
  }

  /** The version starts with the component `0`. */
  predicate StartsWithZero(version: string) {
    version != [] && version[0] == '0' && (|version| > 1 ==> version[1] == '.')
  }

  lemma {:induction false} TakeStopsAtDot(v: string, n: nat)
    requires n > 0
    ensures TakeParts(v, n) <= v && (TakeParts(v, n) != v ==> v[|TakeParts(v, n)|] == '.')
  {
    if v == [] {
    } else if v[0] != '.' {
      TakeStopsAtDot(v[1..], n);
      assert v == [v[0]] + v[1..] && TakeParts(v, n) == [v[0]] + TakeParts(v[1..], n);
    } else if n > 1 {
      TakeStopsAtDot(v[1..], n - 1);
      assert v == ['.'] + v[1..] && TakeParts(v, n) == ['.'] + TakeParts(v[1..], n - 1);
    }
  }

  /** The requirement written is a leading part of the version, whole components. It has as
      many as the author gave, but no more than three, and two at least for a 0.x version. */
  lemma ComponentsKept(req: string, version: string)
    ensures ExpectedReq(req, version) <= version
    ensures ExpectedReq(req, version) != version ==> version[|ExpectedReq(req, version)|] == '.'
    ensures Parts(req) <= Parts(version) ==>
      (Parts(ExpectedReq(req, version)) ==
       if Parts(req) > 3 then 3
       else if Parts(req) == 1 && Parts(version) > 1 && StartsWithZero(version) then 2
       else Parts(req))
  {
    TakeStopsAtDot(version, Wanted(req, version));
    TakeCounts(version, Wanted(req, version));
    TakeCounts(req, 1);
    TakeStopsAtDot(version, 1);
    TakeCounts(version, 1);
    if version != [] {
      assert TakeParts(version, 1) == (if version[0] == '.' then [] else [version[0]] + TakeParts(version[1..], 1));
      if |version| > 1 {
        assert TakeParts(version[1..], 1) == (if version[1] == '.' then [] else [version[1]] + TakeParts(version[1..][1..], 1));
      }
    }
  }

  /** Asking again for the requirement already given changes nothing. */
  lemma ExpectedReqSettles(req: string, version: string)
    ensures ExpectedReq(ExpectedReq(req, version), version) == ExpectedReq(req, version)
  {
    var n := Wanted(req, version);
    TakeCounts(req, 1);
    TakeCounts(version, n);
    var n' := Min(Max(Min(n, Parts(version)), Least(version)), 3);
    TakeCounts(version, n');
  }

  lemma ExpectedReqIsText(req: string, version: string)
    requires ReqText(version)
    ensures ReqText(ExpectedReq(req, version))
  {
    var n := Wanted(req, version);
    TakeIsPrefix(version, n);
    assert version[0] != '.';
    assert TakeParts(version, n) == [version[0]] + TakeParts(version[1..], n);
  }

  // ----- What rewriting promises -----

  ghost predicate VersionTexts(versions: Plan) {
    forall c :: c in versions ==> ReqText(versions[c])
  }

  /** `t` is `s` with `want` in place of the requirement between the quotes of `h`. */
  ghost predicate Requoted(s: string, h: Hit, want: string, t: string) {
    && h.open < h.close <= |s| && h.open + 1 + |want| <= |t| && t[..h.open + 1] == s[..h.open + 1]
    && t[h.open + 1..h.open + 1 + |want|] == want && t[h.open + 1 + |want|..] == s[h.close..]
  }

  /** A line about a workspace crate is rewritten between its quotes only, to say what is
      expected, still names the same crate in the same place, and is settled. */
  lemma StaleSettles(word: char -> bool, s: string, versions: Plan, h: Hit, want: string)
    requires VersionTexts(versions) && Match(word, s) == Some(h) && h.name in versions
    requires want == ExpectedReq(s[h.open + 1..h.close], versions[h.name])
    ensures Requoted(s, h, want, RewriteLine(word, s, versions))
    ensures Match(word, RewriteLine(word, s, versions)) == Some(Hit(h.name, h.open, h.open + 1 + |want|))
    ensures !StaleLine(word, RewriteLine(word, s, versions), versions)
  {
    RewriteIs(word, s, versions, h);
    IsRequoted(s, h, want);
    WithReqSettles(word, s, versions, h, want);
  }

  lemma WithReqSettles(word: char -> bool, s: string, versions: Plan, h: Hit, want: string)
    requires VersionTexts(versions) && Match(word, s) == Some(h) && h.name in versions
    requires want == ExpectedReq(ReqOf(s, h), versions[h.name])
    ensures Match(word, WithReq(s, h, want)) == Some(Hit(h.name, h.open, h.open + 1 + |want|))
    ensures !StaleLine(word, WithReq(s, h, want), versions)
  {
    var t, hit := WithReq(s, h, want), Hit(h.name, h.open, h.open + 1 + |want|);
    ExpectedReqIsText(ReqOf(s, h), versions[h.name]);
    MatchStable(word, s, h, want, t);
    assert ReqOf(t, hit) == want;
    ExpectedReqSettles(ReqOf(s, h), versions[h.name]);
    SettledLine(word, t, versions, hit);
  }

  lemma RewriteIs(word: char -> bool, s: string, versions: Plan, h: Hit)
    requires Match(word, s) == Some(h) && h.name in versions
    ensures RewriteLine(word, s, versions) == WithReq(s, h, ExpectedReq(ReqOf(s, h), versions[h.name]))
  {
    assert WithReq(s, h, ReqOf(s, h)) == s;
  }

  lemma IsRequoted(s: string, h: Hit, want: string)
    requires QuotedReq(s, h.open) == Some(h.close)
    ensures Requoted(s, h, want, WithReq(s, h, want))
  {
  }

  /** A snippet that already says what is expected of it is not stale. */
  lemma SettledLine(word: char -> bool, t: string, versions: Plan, h: Hit)
    requires Match(word, t) == Some(h) && (h.name in versions ==> ReqOf(t, h) == ExpectedReq(ReqOf(t, h), versions[h.name]))
    ensures !StaleLine(word, t, versions) && RewriteLine(word, t, versions) == t
  {
  }

  lemma LineSettles(word: char -> bool, s: string, versions: Plan)
    requires VersionTexts(versions)
    ensures !StaleLine(word, RewriteLine(word, s, versions), versions)
    ensures RewriteLine(word, RewriteLine(word, s, versions), versions) == RewriteLine(word, s, versions)
  {
    if StaleLine(word, s, versions) {
      var h := Match(word, s).value;
      StaleSettles(word, s, versions, h, ExpectedReq(ReqOf(s, h), versions[h.name]));
    }
  }

  /** After a rewrite of a document there is nothing left to report, nothing left to change. */
  lemma {:induction false} DocumentSettles(word: char -> bool, lines: seq<string>, versions: Plan)
    requires VersionTexts(versions)
    ensures |RewriteLines(word, lines, versions)| == |lines|
    ensures Stale(word, RewriteLines(word, lines, versions), versions) == []
    ensures RewriteLines(word, RewriteLines(word, lines, versions), versions) == RewriteLines(word, lines, versions)
  {
    if lines == [] {
    } else {
      var before, last := lines[..|lines| - 1], lines[|lines| - 1];
      DocumentSettles(word, before, versions);
      LineSettles(word, last, versions);
      assert lines == before + [last];
      OneMoreLine(word, before, last, versions);
      OneMoreLine(word, RewriteLines(word, before, versions), RewriteLine(word, last, versions), versions);
    }
  }

  /** The rewriter reports exactly the lines it changes, so a line that names no workspace
      crate, or says the right thing, is left alone. */
  lemma {:induction false} ReportedIffChanged(word: char -> bool, lines: seq<string>, versions: Plan, i: nat)
    ensures |RewriteLines(word, lines, versions)| == |lines|
    ensures i in Stale(word, lines, versions) <==> i < |lines| && RewriteLines(word, lines, versions)[i] != lines[i]
  {
    if lines == [] {
    } else {
      var before, last := lines[..|lines| - 1], lines[|lines| - 1];
      ReportedIffChanged(word, before, versions, i);
      assert RewriteLine(word, last, versions) != last <==> StaleLine(word, last, versions);
    }
  }
}
