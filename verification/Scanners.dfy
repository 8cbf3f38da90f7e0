/** The two hand-written string scanners of the citation check, as tokenisers: every
    input is cut into comments, string literals and skipped stretches. */
module Scanners {
  import opened Wrappers
  import opened TextSearch

  datatype Kind = Comment | Literal | Skipped

  datatype Token = Token(kind: Kind, lo: nat, hi: nat)

  type Span = (nat, nat)

  // ----- What both scanners promise -----

  /** The tokens from `i` on follow one another without gap or overlap until the input
      is used up, each starting inside it and going strictly forward. */
  ghost predicate Tiles(ts: seq<Token>, i: nat, n: nat) {
    if ts == [] then i >= n
    else ts[0].lo == i < n && i < ts[0].hi && (ts[0].kind != Skipped ==> ts[0].hi <= n) && Tiles(ts[1..], ts[0].hi, n)
  }

  /** The literals among the tokens. */
  function Spans(ts: seq<Token>): seq<Span> {
    if ts == [] then [] else (if ts[0].kind == Literal then [(ts[0].lo, ts[0].hi)] else []) + Spans(ts[1..])
  }

  /** Non-empty, in bounds, in order and pairwise disjoint. */
  ghost predicate GoodSpans(spans: seq<Span>, from: nat, n: nat) {
    && (forall k :: 0 <= k < |spans| ==> from <= spans[k].0 < spans[k].1 <= n)
    && (forall j, k :: 0 <= j < k < |spans| ==> spans[j].1 <= spans[k].0)
  }

  lemma {:induction false} TiledSpans(ts: seq<Token>, i: nat, n: nat)
    requires Tiles(ts, i, n)
    ensures GoodSpans(Spans(ts), i, n)
    decreases |ts|
  {
    if ts == [] {
    } else {
      var rest := Spans(ts[1..]);
      TiledSpans(ts[1..], ts[0].hi, n);
      assert GoodSpans(rest, i, n);
      if ts[0].kind == Literal {
        assert Spans(ts) == [(ts[0].lo, ts[0].hi)] + rest;
      } else {
        assert Spans(ts) == rest;
      }
    }
  }

  /** Two different tokens never share a position. */
  lemma {:induction false} TokensDisjoint(ts: seq<Token>, i: nat, n: nat, j: nat, k: nat)
    requires Tiles(ts, i, n) && j < k < |ts|
    ensures i <= ts[j].lo < ts[j].hi <= ts[k].lo < ts[k].hi
    decreases |ts|
  {
    if j > 0 {
      TokensDisjoint(ts[1..], ts[0].hi, n, j - 1, k - 1);
    } else if k > 1 {
      TokensDisjoint(ts[1..], ts[0].hi, n, 0, k - 1);
    } else {
      assert ts[1..][0] == ts[1];
    }
  }

  lemma {:induction false} SpanIsToken(ts: seq<Token>, sp: Span)
    ensures sp in Spans(ts) <==> Token(Literal, sp.0, sp.1) in ts
  {
    if ts == [] {
    } else {
      SpanIsToken(ts[1..], sp);
      assert ts == [ts[0]] + ts[1..];
    }
  }

  /** No reported span starts inside a comment, or overlaps one at all. */
  lemma SpansOutsideComments(ts: seq<Token>, n: nat, sp: Span, c: Token)
    requires Tiles(ts, 0, n) && sp in Spans(ts) && c in ts && c.kind == Comment
    ensures sp.1 <= c.lo || c.hi <= sp.0
  {
    SpanIsToken(ts, sp);
    var j :| 0 <= j < |ts| && ts[j] == Token(Literal, sp.0, sp.1);
    var k :| 0 <= k < |ts| && ts[k] == c;
    if j < k {
      TokensDisjoint(ts, 0, n, j, k);
    } else if k < j {
      TokensDisjoint(ts, 0, n, k, j);
    }
  }

  // ----- Pieces shared by the scanners -----

  function FindOr(s: string, p: string, i: nat, extra: nat): (j: nat)
    requires i <= |s| && extra <= |p|
    ensures i <= j <= |s|
  {
    match Find(s, p, i)
    case None => |s|
    case Some(k) => k + extra
  }

  /** The end of an ordinary literal read from `j`: a backslash takes the next character
      along, and the closing quote or a line break ends it. */
  function PlainEnd(s: string, j: nat, q: char): (e: nat)
    ensures (if j < |s| then j else |s|) <= e <= |s|
    ensures j < |s| ==> j < e
    decreases |s| - j
  {
    if j >= |s| then |s|
    else if s[j] == '\\' then PlainEnd(s, j + 2, q)
    else if s[j] == q || s[j] == '\n' then j + 1
    else PlainEnd(s, j + 1, q)
  }

  method ScanPlain(s: string, i: nat, q: char) returns (j: nat)
    requires i < |s|
    ensures j == PlainEnd(s, i + 1, q)
  {
    j := i + 1;
    while j < |s|
      invariant PlainEnd(s, j, q) == PlainEnd(s, i + 1, q)
      decreases |s| - j
    {
      if s[j] == '\\' {
        j := j + 2;
        continue;
      }
      if s[j] == q { break; }
      if s[j] == '\n' { break; }
      j := j + 1;
    }
    if j >= |s| {
      j := |s|;
    } else {
      j := j + 1;
    }
  }

  /** How many backslashes stand directly before `k`, looking back no further than `lo`. */
  function Backslashes(s: string, lo: nat, k: nat): nat
    requires k <= |s|
  {
    if k > lo && s[k - 1] == '\\' then 1 + Backslashes(s, lo, k - 1) else 0
  }

  ghost predicate EscapedAt(s: string, lo: nat, k: nat)
    requires k <= |s|
  {
    Backslashes(s, lo, k) % 2 == 1
  }

  ghost predicate Stops(s: string, k: nat, q: char)
    requires k < |s|
  {
    s[k] == q || s[k] == '\n'
  }

  /** The literal ends at the first quote or line break that an even number of backslashes
      precedes, or with the input. */
  ghost predicate EndsAtFirstStop(s: string, lo: nat, from: nat, e: nat, q: char)
    requires e <= |s|
  {
    && (e == |s| || (e > from && Stops(s, e - 1, q) && !EscapedAt(s, lo, e - 1)))
    && (forall k :: from <= k < e - 1 && Stops(s, k, q) ==> EscapedAt(s, lo, k))
  }

  lemma {:induction false} PlainEndIsFirstStop(s: string, lo: nat, j: nat, q: char)
    requires lo <= j && q != '\\' && (j <= |s| ==> !EscapedAt(s, lo, j))
    ensures EndsAtFirstStop(s, lo, j, PlainEnd(s, j, q), q)
    decreases |s| - j
  {
    if j < |s| {
      if s[j] == '\\' {
        if j + 1 < |s| {
          assert Backslashes(s, lo, j + 1) == 1 + Backslashes(s, lo, j);
          assert s[j + 1] == '\\' ==> Backslashes(s, lo, j + 2) == 2 + Backslashes(s, lo, j);
        }
        PlainEndIsFirstStop(s, lo, j + 2, q);
      } else if !Stops(s, j, q) {
        assert Backslashes(s, lo, j + 1) == 0;
        PlainEndIsFirstStop(s, lo, j + 1, q);
      }
    }
  }

  // ----- The Rust scanner -----

  function Hashes(s: string, k: nat): nat
    decreases |s| - k
  {
    if k < |s| && s[k] == '#' then 1 + Hashes(s, k + 1) else 0
  }

  lemma {:induction false} HashesFit(s: string, k: nat)
    requires k <= |s|
    ensures k + Hashes(s, k) <= |s|
    decreases |s| - k
  {
    if k < |s| && s[k] == '#' {
      HashesFit(s, k + 1);
    }
  }

  method CountHashes(s: string, k: nat) returns (h: nat)
    ensures h == Hashes(s, k)
  {
    h := 0;
    while k + h < |s| && s[k + h] == '#'
      invariant Hashes(s, k) == h + Hashes(s, k + h)
      decreases |s| - (k + h)
    {
      h := h + 1;
    }
  }

  /** The scanner's test: an `r` before the quote, and a second quote after the hashes. */
  predicate RawAt(s: string, i: nat)
    requires i < |s|
  {
    i > 0 && s[i - 1] == 'r' && i + 1 + Hashes(s, i + 1) < |s| && s[i + 1 + Hashes(s, i + 1)] == '"'
  }

  /** From `k` on, the first quote followed by exactly `h` hashes. */
  function RawEnd(s: string, k: nat, h: nat): nat
    decreases |s| - k
  {
    match Find(s, ['"'], k)
    case None => |s|
    case Some(q) => if Hashes(s, q + 1) == h then q + 1 + h else RawEnd(s, q + 1, h)
  }

  lemma {:induction false} RawEndFits(s: string, k: nat, h: nat)
    requires k <= |s|
    ensures k <= RawEnd(s, k, h) <= |s|
    decreases |s| - k
  {
    var f := Find(s, ['"'], k);
    if f.Some? {
      HashesFit(s, f.value + 1);
      if Hashes(s, f.value + 1) != h {
        RawEndFits(s, f.value + 1, h);
      }
    }
  }

  /** A quote followed by exactly `h` hashes. */
  predicate ClosesRaw(s: string, q: nat, h: nat) {
    q < |s| && s[q] == '"' && Hashes(s, q + 1) == h
  }

  /** The literal ends with the first closing quote at or after `k` and its hashes, or with
      the input when there is none. */
  ghost predicate EndsAtFirstClose(s: string, k: nat, e: nat, h: nat) {
    || (exists q: nat :: k <= q && ClosesRaw(s, q, h) && e == q + 1 + h && forall p: nat :: k <= p < q ==> !ClosesRaw(s, p, h))
    || (e == |s| && forall p: nat :: k <= p ==> !ClosesRaw(s, p, h))
  }

  lemma QuoteSearch(s: string, k: nat)
    ensures Find(s, ['"'], k).Some? ==> Find(s, ['"'], k).value < |s| && s[Find(s, ['"'], k).value] == '"'
    ensures forall p: nat :: k <= p < |s| && (Find(s, ['"'], k).Some? ==> p < Find(s, ['"'], k).value) ==> s[p] != '"'
  {
    FindSpec(s, ['"'], k);
    forall q: nat | q < |s|
      ensures OccursAt(s, ['"'], q) <==> s[q] == '"'
    {
      assert s[q..q + 1] == [s[q]];
    }
  }

  lemma {:induction false} RawEndIsFirstClose(s: string, k: nat, h: nat)
    ensures EndsAtFirstClose(s, k, RawEnd(s, k, h), h)
    decreases |s| - k
  {
    QuoteSearch(s, k);
    var f := Find(s, ['"'], k);
    if f == None {
      assert forall p: nat :: k <= p ==> !ClosesRaw(s, p, h);
    } else {
      assert forall p: nat :: k <= p < f.value ==> !ClosesRaw(s, p, h);
      if Hashes(s, f.value + 1) == h {
        assert ClosesRaw(s, f.value, h);
      } else {
        assert !ClosesRaw(s, f.value, h);
        RawEndIsFirstClose(s, f.value + 1, h);
        FirstCloseLater(s, k, f.value, RawEnd(s, f.value + 1, h), h);
      }
    }
  }

  lemma FirstCloseLater(s: string, k: nat, q: nat, e: nat, h: nat)
    requires k <= q && (forall p: nat :: k <= p <= q ==> !ClosesRaw(s, p, h)) && EndsAtFirstClose(s, q + 1, e, h)
    ensures EndsAtFirstClose(s, k, e, h)
  {
  }

  method ScanRaw(s: string, i: nat, h: nat) returns (end: nat)
    ensures end == RawEnd(s, i + 1 + h, h)
  {
    var k := i + 1 + h;
    while true
      invariant RawEnd(s, k, h) == RawEnd(s, i + 1 + h, h)
      decreases |s| - k
    {
      var f := Find(s, ['"'], k);
      if f == None {
        return |s|;
      }
      var run := CountHashes(s, f.value + 1);
      if run == h {
        return f.value + 1 + run;
      }
      k := f.value + 1;
    }
  }

  /** Past a quote character: an escape or one character, and the closing quote if it is there. */
  function CharEnd(s: string, i: nat): (j: nat)
    requires i < |s|
    ensures j > i
  {
    var j := if i + 1 < |s| && s[i + 1] == '\\' then i + 3 else i + 2;
    if j < |s| && s[j] == '\'' then j + 1 else j
  }

  /** `s.startswith` of a two-character mark. */
  predicate Pair(s: string, i: nat, a: char, b: char) {
    i + 1 < |s| && s[i] == a && s[i + 1] == b
  }

  function RustToken(s: string, i: nat): Token
    requires i < |s|
  {
    if Pair(s, i, '/', '/') then Token(Comment, i, FindOr(s, "\n", i, 0))
    else if Pair(s, i, '/', '*') then Token(Comment, i, FindOr(s, "*/", i, 2))
    else if s[i] == '"' then
      Token(Literal, i, if RawAt(s, i) then RawEnd(s, i + 1 + Hashes(s, i + 1), Hashes(s, i + 1)) else PlainEnd(s, i + 1, '"'))
    else if s[i] == '\'' then Token(Skipped, i, CharEnd(s, i))
    else Token(Skipped, i, i + 1)
  }

  /** Every step goes strictly forward, and only skipped stretches can run past the end. */
  lemma RustTokenAdvances(s: string, i: nat)
    requires i < |s|
    ensures RustToken(s, i).lo == i < RustToken(s, i).hi
    ensures RustToken(s, i).kind != Skipped ==> RustToken(s, i).hi <= |s|
  {
    if Pair(s, i, '/', '/') {
    } else if Pair(s, i, '/', '*') {
    } else if s[i] == '"' {
      if RawAt(s, i) {
        RawEndFits(s, i + 1 + Hashes(s, i + 1), Hashes(s, i + 1));
      }
    }
  }

  function RustTokens(s: string, i: nat): seq<Token>
    decreases |s| - i
  {
    if i >= |s| then []
    else
      RustTokenAdvances(s, i);
      [RustToken(s, i)] + RustTokens(s, RustToken(s, i).hi)
  }

  lemma {:induction false} RustTokensTile(s: string, i: nat)
    ensures Tiles(RustTokens(s, i), i, |s|)
    decreases |s| - i
  {
    if i < |s| {
      RustTokenAdvances(s, i);
      RustTokensTile(s, RustToken(s, i).hi);
    }
  }

  /** The body of the loop, up to the new position. */
  method ReadRustToken(s: string, i: nat) returns (t: Token)
    requires i < |s|
    ensures t == RustToken(s, i)
  {
    if Pair(s, i, '/', '/') {
      return Token(Comment, i, FindOr(s, "\n", i, 0));
    }
    if Pair(s, i, '/', '*') {
      return Token(Comment, i, FindOr(s, "*/", i, 2));
    }
    if s[i] == '"' {
      var end := ScanRustString(s, i);
      return Token(Literal, i, end);
    } else if s[i] == '\'' {
      var j := i + 1;
      if j < |s| && s[j] == '\\' {
        j := j + 2;
      } else {
        j := j + 1;
      }
      if j < |s| && s[j] == '\'' {
        j := j + 1;
      }
      return Token(Skipped, i, j);
    }
    return Token(Skipped, i, i + 1);
  }

  /** One turn of the loop: what is left to report shrinks by what was reported. */
  method RustTurn(s: string, i: nat, spans: seq<Span>) returns (i': nat, spans': seq<Span>)
    requires i < |s|
    ensures i < i' && spans' + Spans(RustTokens(s, i')) == spans + Spans(RustTokens(s, i))
  {
    var t := ReadRustToken(s, i);
    i', spans' := t.hi, spans;
    if t.kind == Literal {
      spans' := spans + [(t.lo, t.hi)];
    }
    RustTurnLemma(s, i, t);
  }

  lemma RustTurnLemma(s: string, i: nat, t: Token)
    requires i < |s| && t == RustToken(s, i)
    ensures i < t.hi
    ensures Spans(RustTokens(s, i)) == (if t.kind == Literal then [(t.lo, t.hi)] else []) + Spans(RustTokens(s, t.hi))
  {
    RustTokenAdvances(s, i);
  }

  /** `rust_string_spans` */
  method RustStringSpans(s: string) returns (spans: seq<Span>)
    ensures spans == Spans(RustTokens(s, 0)) && GoodSpans(spans, 0, |s|)
  {
    spans := [];
    var i: nat := 0;
    while i < |s|
      invariant spans + Spans(RustTokens(s, i)) == Spans(RustTokens(s, 0))
      decreases |s| - i
    {
      i, spans := RustTurn(s, i, spans);
    }
    GoodSpansOfRust(s);
  }

  lemma GoodSpansOfRust(s: string)
    ensures GoodSpans(Spans(RustTokens(s, 0)), 0, |s|)
  {
    RustTokensTile(s, 0);
    TiledSpans(RustTokens(s, 0), 0, |s|);
  }

  method ScanRustString(s: string, i: nat) returns (end: nat)
    requires i < |s| && s[i] == '"'
    ensures end == if RawAt(s, i) then RawEnd(s, i + 1 + Hashes(s, i + 1), Hashes(s, i + 1)) else PlainEnd(s, i + 1, '"')
  {
    if i > 0 && s[i - 1] == 'r' {
      var h := CountHashes(s, i + 1);
      if i + 1 + h < |s| && s[i + 1 + h] == '"' {
        end := ScanRaw(s, i, h);
        return;
      }
    }
    end := ScanPlain(s, i, '"');
  }

  // ----- The Python scanner -----

  function PyToken(s: string, i: nat): Token
    requires i < |s|
  {
    var c := s[i];
    if c == '#' then Token(Comment, i, FindOr(s, "\n", i, 0))
    else if c == '"' || c == '\'' then
      Token(Literal, i, if OccursAt(s, [c, c, c], i) then FindOr(s, [c, c, c], i + 3, 3) else PlainEnd(s, i + 1, c))
    else Token(Skipped, i, i + 1)
  }

  function PyTokens(s: string, i: nat): seq<Token>
    decreases |s| - i
  {
    if i >= |s| then []
    else
      [PyToken(s, i)] + PyTokens(s, PyToken(s, i).hi)
  }

  lemma {:induction false} PyTokensTile(s: string, i: nat)
    ensures Tiles(PyTokens(s, i), i, |s|)
    decreases |s| - i
  {
    if i < |s| {
      PyTokensTile(s, PyToken(s, i).hi);
    }
  }

  /** The body of the loop, up to the new position. */
  method ReadPyToken(s: string, i: nat) returns (t: Token)
    requires i < |s|
    ensures t == PyToken(s, i)
  {
    var c := s[i];
    if c == '#' {
      return Token(Comment, i, FindOr(s, "\n", i, 0));
    }
    if c == '"' || c == '\'' {
      if OccursAt(s, [c, c, c], i) {
        return Token(Literal, i, FindOr(s, [c, c, c], i + 3, 3));
      }
      var j := ScanPlain(s, i, c);
      return Token(Literal, i, j);
    }
    return Token(Skipped, i, i + 1);
  }

  /** One turn of the loop: what is left to report shrinks by what was reported. */
  method PyTurn(s: string, i: nat, spans: seq<Span>) returns (i': nat, spans': seq<Span>)
    requires i < |s|
    ensures i < i' && spans' + Spans(PyTokens(s, i')) == spans + Spans(PyTokens(s, i))
  {
    var t := ReadPyToken(s, i);
    i', spans' := t.hi, spans;
    if t.kind == Literal {
      spans' := spans + [(t.lo, t.hi)];
    }
  }

  /** `py_string_spans` */
  method PyStringSpans(s: string) returns (spans: seq<Span>)
    ensures spans == Spans(PyTokens(s, 0)) && GoodSpans(spans, 0, |s|)
  {
    spans := [];
    var i: nat := 0;
    while i < |s|
      invariant spans + Spans(PyTokens(s, i)) == Spans(PyTokens(s, 0))
      decreases |s| - i
    {
      i, spans := PyTurn(s, i, spans);
    }
    GoodSpansOfPy(s);
  }

  lemma GoodSpansOfPy(s: string)
    ensures GoodSpans(Spans(PyTokens(s, 0)), 0, |s|)
  {
    PyTokensTile(s, 0);
    TiledSpans(PyTokens(s, 0), 0, |s|);
  }

  /** Runs to the first line break, or to the end of the input. */
  ghost predicate EndsAtBreak(s: string, i: nat, e: nat) {
    i <= e <= |s| && (e < |s| ==> s[e] == '\n') && forall k :: i <= k < e ==> s[k] != '\n'
  }

  /** Runs to just past the first closing mark, or to the end of the input. */
  ghost predicate EndsPastClose(s: string, i: nat, e: nat) {
    || (e >= i + 2 && Pair(s, e - 2, '*', '/') && forall k: nat :: i <= k < e - 2 ==> !Pair(s, k, '*', '/'))
    || (e == |s| && forall k: nat :: i <= k ==> !Pair(s, k, '*', '/'))
  }

  lemma MarksFound(s: string, i: nat)
    requires i <= |s|
    ensures EndsAtBreak(s, i, FindOr(s, "\n", i, 0)) && EndsPastClose(s, i, FindOr(s, "*/", i, 2))
  {
    FindSpec(s, "\n", i);
    FindSpec(s, "*/", i);
    forall k: nat | k < |s|
      ensures OccursAt(s, "\n", k) <==> s[k] == '\n'
    {
      assert s[k..k + 1] == [s[k]];
    }
    forall k: nat
      ensures OccursAt(s, "*/", k) <==> Pair(s, k, '*', '/')
    {
      if k + 2 <= |s| {
        assert s[k..k + 2] == [s[k], s[k + 1]];
      }
    }
  }

  /** Where comments end, in both languages. */
  lemma CommentsEndRight(s: string, i: nat)
    requires i < |s|
    ensures Pair(s, i, '/', '/') ==> RustToken(s, i).kind == Comment && EndsAtBreak(s, i, RustToken(s, i).hi)
    ensures Pair(s, i, '/', '*') ==> RustToken(s, i).kind == Comment && EndsPastClose(s, i, RustToken(s, i).hi)
    ensures s[i] == '#' ==> PyToken(s, i).kind == Comment && EndsAtBreak(s, i, PyToken(s, i).hi)
  {
    MarksFound(s, i);
  }

  predicate IsAt(s: string, k: nat, c: char) {
    k < |s| && s[k] == c
  }

  /** What is skipped: a quote character takes along one character, or a backslash and one
      more, and then a closing quote if there is one; anything else goes by itself. */
  lemma SkipsEndRight(s: string, i: nat)
    requires i < |s|
    ensures s[i] == '\'' ==> RustToken(s, i).kind == Skipped
    ensures s[i] == '\'' && IsAt(s, i + 1, '\\') ==> RustToken(s, i).hi == if IsAt(s, i + 3, '\'') then i + 4 else i + 3
    ensures s[i] == '\'' && !IsAt(s, i + 1, '\\') ==> RustToken(s, i).hi == if IsAt(s, i + 2, '\'') then i + 3 else i + 2
    ensures s[i] !in {'"', '\''} && !Pair(s, i, '/', '/') && !Pair(s, i, '/', '*') ==> RustToken(s, i) == Token(Skipped, i, i + 1)
    ensures s[i] !in {'"', '\'', '#'} ==> PyToken(s, i) == Token(Skipped, i, i + 1)
  {
  }

  /** After the quote at `i` come hashes and then a quote at `q`. */
  ghost predicate HashesThenQuote(s: string, i: nat, q: nat) {
    i < q && IsAt(s, q, '"') && forall j :: i < j < q ==> IsAt(s, j, '#')
  }

  lemma {:induction false} HashesAre(s: string, k: nat)
    ensures forall j :: k <= j < k + Hashes(s, k) ==> IsAt(s, j, '#')
    ensures !IsAt(s, k + Hashes(s, k), '#')
    decreases |s| - k
  {
    if k < |s| && s[k] == '#' {
      HashesAre(s, k + 1);
    }
  }

  /** A quote opens a raw literal exactly when an `r` stands before it and hashes and another
      quote after it; and then those are the hashes its end must repeat. */
  lemma RawAtIff(s: string, i: nat)
    requires i < |s|
    ensures RawAt(s, i) <==> i > 0 && s[i - 1] == 'r' && exists q: nat :: HashesThenQuote(s, i, q)
    ensures forall q: nat :: HashesThenQuote(s, i, q) ==> q == i + 1 + Hashes(s, i + 1)
  {
    var end := i + 1 + Hashes(s, i + 1);
    HashesAre(s, i + 1);
    forall q: nat | HashesThenQuote(s, i, q)
      ensures q == end
    {
      assert q < end ==> IsAt(s, q, '#');
    }
    if IsAt(s, end, '"') {
      assert HashesThenQuote(s, i, end);
    }
  }

  /** An ordinary literal token of either scanner ends at the first unescaped stop. */
  lemma LiteralsEndRight(s: string, i: nat)
    requires i < |s|
    ensures !Pair(s, i, '/', '/') && !Pair(s, i, '/', '*') && s[i] == '"' && !RawAt(s, i) ==>
      RustToken(s, i).kind == Literal && RustToken(s, i).hi <= |s|
      && EndsAtFirstStop(s, i + 1, i + 1, RustToken(s, i).hi, '"')
    ensures (s[i] == '"' || s[i] == '\'') && !OccursAt(s, [s[i], s[i], s[i]], i) ==>
      PyToken(s, i).kind == Literal && PyToken(s, i).hi <= |s|
      && EndsAtFirstStop(s, i + 1, i + 1, PyToken(s, i).hi, s[i])
  {
    if s[i] == '"' || s[i] == '\'' {
      PlainEndIsFirstStop(s, i + 1, i + 1, s[i]);
    }
  }

  /** A raw literal ends at the first quote with the right number of hashes. */
  lemma {:induction false} RawLiteralsEndRight(s: string, i: nat)
    requires i < |s| && !Pair(s, i, '/', '/') && !Pair(s, i, '/', '*') && s[i] == '"' && RawAt(s, i)
    ensures RustToken(s, i).kind == Literal
    ensures EndsAtFirstClose(s, i + 1 + Hashes(s, i + 1), RustToken(s, i).hi, Hashes(s, i + 1))
  {
    RawEndIsFirstClose(s, i + 1 + Hashes(s, i + 1), Hashes(s, i + 1));
  }

  /** A triple-quoted literal ends after the first closing triple. */
  lemma {:induction false} TripleLiteralsEndRight(s: string, i: nat)
    requires i < |s| && (s[i] == '"' || s[i] == '\'') && OccursAt(s, [s[i], s[i], s[i]], i)
    ensures PyToken(s, i).kind == Literal && EndsAtTriple(s, s[i], i + 3, PyToken(s, i).hi)
  {
    FindSpec(s, [s[i], s[i], s[i]], i + 3);
  }

  ghost predicate EndsAtTriple(s: string, c: char, k: nat, e: nat) {
    || (e >= k + 3 && OccursAt(s, [c, c, c], e - 3) && forall p: nat :: k <= p < e - 3 ==> !OccursAt(s, [c, c, c], p))
    || (e == |s| && forall p: nat :: k <= p ==> !OccursAt(s, [c, c, c], p))
  }

  // ----- Membership -----

  /** `in_spans` */
  method InSpans(pos: nat, spans: seq<Span>) returns (b: bool)
    ensures b <==> exists k :: 0 <= k < |spans| && spans[k].0 <= pos < spans[k].1
  {
    for i := 0 to |spans|
      invariant forall k :: 0 <= k < i ==> !(spans[k].0 <= pos < spans[k].1)
    {
      if spans[i].0 <= pos < spans[i].1 {
        return true;
      }
    }
    return false;
  }

  /** Of the tokens of a tiled input exactly one holds a given position, so a position is
      in the spans exactly when that token is a literal. */
  lemma {:induction false} PositionHasToken(ts: seq<Token>, i: nat, n: nat, pos: nat)
    requires Tiles(ts, i, n) && i <= pos < n
    ensures exists k :: 0 <= k < |ts| && ts[k].lo <= pos < ts[k].hi
    decreases |ts|
  {
    if pos >= ts[0].hi {
      PositionHasToken(ts[1..], ts[0].hi, n, pos);
      var k :| 0 <= k < |ts| - 1 && ts[1..][k].lo <= pos < ts[1..][k].hi;
      assert ts[k + 1] == ts[1..][k];
    }
  }

  ghost predicate Holds(ts: seq<Token>, k: nat, pos: nat) {
    k < |ts| && ts[k].lo <= pos < ts[k].hi
  }

  lemma InSpansIffLiteral(ts: seq<Token>, n: nat, pos: nat)
    requires Tiles(ts, 0, n) && pos < n
    ensures exists k: nat :: Holds(ts, k, pos)
    ensures forall k: nat :: Holds(ts, k, pos) ==>
      (ts[k].kind == Literal <==> exists sp :: sp in Spans(ts) && sp.0 <= pos < sp.1)
  {
    PositionHasToken(ts, 0, n, pos);
    var m :| 0 <= m < |ts| && ts[m].lo <= pos < ts[m].hi;
    assert Holds(ts, m, pos);
    forall k: nat | Holds(ts, k, pos)
      ensures ts[k].kind == Literal <==> exists sp :: sp in Spans(ts) && sp.0 <= pos < sp.1
    {
      LiteralHere(ts, n, pos, k);
    }
  }

  lemma LiteralHere(ts: seq<Token>, n: nat, pos: nat, k: nat)
    requires Tiles(ts, 0, n) && Holds(ts, k, pos)
    ensures ts[k].kind == Literal <==> exists sp :: sp in Spans(ts) && sp.0 <= pos < sp.1
  {
    if ts[k].kind == Literal {
      SpanIsToken(ts, (ts[k].lo, ts[k].hi));
      assert ts[k] == Token(Literal, ts[k].lo, ts[k].hi);
      assert (ts[k].lo, ts[k].hi) in Spans(ts);
    }
    forall sp | sp in Spans(ts) && sp.0 <= pos < sp.1
      ensures ts[k].kind == Literal
    {
      SpanIsToken(ts, sp);
      var j :| 0 <= j < |ts| && ts[j] == Token(Literal, sp.0, sp.1);
      if j < k {
        TokensDisjoint(ts, 0, n, j, k);
      } else if k < j {
        TokensDisjoint(ts, 0, n, k, j);
      }
    }
  }
}
