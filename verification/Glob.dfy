// KEYS patterns: a matcher that remembers only the last star. crates/engine/src/glob.rs.
module Glob {
  import opened Bytes

  const BACKSLASH: byte := 92
  const STAR: byte := 42
  const QUESTION: byte := 63
  const OPEN: byte := 91
  const CLOSE: byte := 93
  const CARET: byte := 94
  const BANG: byte := 33
  const HYPHEN: byte := 45

  datatype Token = Literal(c: byte) | Any | Star | Class(body: Bytes, negate: bool)

  // ----- what a pattern means -----

  /** The ranges a class body lists; a lone byte is a range of one. */
  function Ranges(body: Bytes): (r: seq<(byte, byte)>)
  {
    if body == [] then []
    else if |body| > 2 && body[1] == HYPHEN then [(body[0], body[2])] + Ranges(body[3..])
    else [(body[0], body[0])] + Ranges(body[1..])
  }

  predicate InClass(body: Bytes, c: byte)
  {
    exists i :: 0 <= i < |Ranges(body)| && Ranges(body)[i].0 <= c <= Ranges(body)[i].1
  }

  /** Whether a token accepts one byte; a star never does by itself. */
  predicate Accepts(t: Token, c: byte)
  {
    match t
    case Literal(l) => l == c
    case Any => true
    case Class(body, negate) => InClass(body, c) != negate
    case Star => false
  }

  /** A token list matches a text when some choice of run for each star makes it fit. */
  predicate Matches(ts: seq<Token>, text: Bytes)
    decreases |ts|
  {
    if ts == [] then text == []
    else if ts[0].Star? then exists k :: 0 <= k <= |text| && Matches(ts[1..], text[k..])
    else text != [] && Accepts(ts[0], text[0]) && Matches(ts[1..], text[1..])
  }

  // ----- reading a pattern -----

  predicate Negated(inner: Bytes) { inner != [] && (inner[0] == CARET || inner[0] == BANG) }

  function ClassToken(inner: Bytes): (t: Token)
  {
    if Negated(inner) then Class(inner[1..], true) else Class(inner, false)
  }

  /** The first token of a pattern and the bytes it takes. */
  function FirstToken(p: Bytes): (r: (Token, nat))
    requires p != []
    ensures 1 <= r.1 <= |p|
  {
    if p[0] == BACKSLASH && |p| > 1 then (Literal(p[1]), 2)
    else if p[0] == STAR then (Star, 1)
    else if p[0] == QUESTION then (Any, 1)
    else if p[0] == OPEN && IndexOf(p, CLOSE).Some? then (ClassToken(p[1..IndexOf(p, CLOSE).value]), IndexOf(p, CLOSE).value + 1)
    else (Literal(p[0]), 1)
  }

  function Tokens(p: Bytes): (r: seq<Token>)
    ensures |r| <= |p|
    decreases |p|
  {
    if p == [] then [] else [FirstToken(p).0] + Tokens(p[FirstToken(p).1..])
  }

  lemma TokensSnoc(pattern: Bytes, i: nat, tokens: seq<Token>)
    requires i < |pattern| && Tokens(pattern) == tokens + Tokens(pattern[i..])
    ensures var (t, n) := FirstToken(pattern[i..]);
            Tokens(pattern) == (tokens + [t]) + Tokens(pattern[i + n..])
  {
    var (t, n) := FirstToken(pattern[i..]);
    assert pattern[i..][n..] == pattern[i + n..];
    assert tokens + ([t] + Tokens(pattern[i + n..])) == (tokens + [t]) + Tokens(pattern[i + n..]);
  }

  /** `tokenize`. */
  method Tokenize(pattern: Bytes) returns (tokens: seq<Token>)
    ensures tokens == Tokens(pattern)
  {
    hide Tokens, IndexOf;
    tokens := [];
    var i := 0;
    assert pattern[0..] == pattern && [] + Tokens(pattern) == Tokens(pattern);
    while i < |pattern|
      invariant 0 <= i <= |pattern|
      invariant Tokens(pattern) == tokens + Tokens(pattern[i..])
    {
      TokensSnoc(pattern, i, tokens);
      if pattern[i] == BACKSLASH && i + 1 < |pattern| {
        tokens, i := tokens + [Literal(pattern[i + 1])], i + 2;
      } else if pattern[i] == STAR {
        tokens, i := tokens + [Star], i + 1;
      } else if pattern[i] == QUESTION {
        tokens, i := tokens + [Any], i + 1;
      } else if pattern[i] == OPEN {
        var close := Position(pattern[i..], CLOSE);
        if close.Some? {
          var body := pattern[i + 1..i + close.value];
          assert body == pattern[i..][1..close.value];
          var negate := body != [] && (body[0] == CARET || body[0] == BANG);
          if negate {
            body := body[1..];
          }
          tokens, i := tokens + [Class(body, negate)], i + close.value + 1;
        } else {
          tokens, i := tokens + [Literal(OPEN)], i + 1;
        }
      } else {
        tokens, i := tokens + [Literal(pattern[i])], i + 1;
      }
    }
    NoTokens(pattern[i..], tokens);
  }

  lemma NoTokens(p: Bytes, tokens: seq<Token>)
    requires p == []
    ensures tokens + Tokens(p) == tokens
  {
  }

  // ----- every token list has a pattern -----

  /** A class body can be written down when it has no bracket and does not look negated. */
  predicate Writable(t: Token)
  {
    t.Class? ==> CLOSE !in t.body && (!t.negate ==> !Negated(t.body))
  }

  function WriteToken(t: Token): (r: Bytes)
  {
    match t
    case Literal(c) => [BACKSLASH, c]
    case Any => [QUESTION]
    case Star => [STAR]
    case Class(body, negate) => [OPEN] + (if negate then [CARET] else []) + body + [CLOSE]
  }

  function WriteTokens(ts: seq<Token>): (r: Bytes)
  {
    if ts == [] then [] else WriteToken(ts[0]) + WriteTokens(ts[1..])
  }

  lemma FirstOfWritten(t: Token, rest: Bytes)
    requires Writable(t)
    ensures FirstToken(WriteToken(t) + rest) == (t, |WriteToken(t)|)
  {
    hide IndexOf;
    if t.Class? {
      FirstOfWrittenClass(t, rest);
    }
  }

  lemma FirstOfWrittenClass(t: Token, rest: Bytes)
    requires t.Class? && Writable(t)
    ensures FirstToken(WriteToken(t) + rest) == (t, |WriteToken(t)|)
  {
    hide FirstToken;
    var inner := if t.negate then [CARET] + t.body else t.body;
    assert t.negate ==> inner[1..] == t.body;
    assert WriteToken(t) == [OPEN] + inner + [CLOSE];
    FirstOfClass(inner, rest);
  }

  lemma FirstOfClass(inner: Bytes, rest: Bytes)
    requires CLOSE !in inner
    ensures FirstToken([OPEN] + inner + [CLOSE] + rest) == (ClassToken(inner), |inner| + 2)
  {
    hide IndexOf, ClassToken;
    var p, n := [OPEN] + inner + [CLOSE] + rest, |inner| + 1;
    assert p[n] == CLOSE && p[1..n] == inner;
    forall j | 0 <= j < n ensures p[j] != CLOSE {
      assert j > 0 ==> p[j] == inner[j - 1];
    }
    assert IndexOf(p, CLOSE) == Some(n);
  }

  /** Reading back a written token list gives the list: escapes and classes can say everything. */
  lemma {:induction false} TokenizeWritten(ts: seq<Token>)
    requires forall i :: 0 <= i < |ts| ==> Writable(ts[i])
    ensures Tokens(WriteTokens(ts)) == ts
  {
    if ts != [] {
      FirstOfWritten(ts[0], WriteTokens(ts[1..]));
      TokenizeWritten(ts[1..]);
      assert WriteTokens(ts)[|WriteToken(ts[0])|..] == WriteTokens(ts[1..]);
    }
  }

  lemma {:induction false} ReadIsWritable(p: Bytes)
    ensures forall i :: 0 <= i < |Tokens(p)| ==> Writable(Tokens(p)[i])
    decreases |p|
  {
    hide IndexOf;
    if p != [] {
      var (t, n) := FirstToken(p);
      if t.Class? {
        var close := IndexOf(p, CLOSE).value;
        assert forall j :: 0 <= j < close - 1 ==> p[1..close][j] == p[j + 1];
        assert CLOSE !in p[1..close];
      }
      ReadIsWritable(p[n..]);
    }
  }

  /** The token lists some pattern is read as are exactly the writable ones. */
  lemma TokenListsIff(ts: seq<Token>)
    ensures (exists p :: Tokens(p) == ts) <==> forall i :: 0 <= i < |ts| ==> Writable(ts[i])
  {
    if p :| Tokens(p) == ts {
      ReadIsWritable(p);
    }
    if forall i :: 0 <= i < |ts| ==> Writable(ts[i]) {
      TokenizeWritten(ts);
    }
  }

  // ----- what each byte of a pattern is read as -----

  /** Backslash, star, question mark and open bracket. */
  predicate Special(c: byte) { c == 92 || c == 42 || c == 63 || c == 91 }

  lemma ReadsAs(p: Bytes, t: Token, n: nat, rest: Bytes)
    requires p != [] && FirstToken(p) == (t, n) && p[n..] == rest
    ensures Tokens(p) == [t] + Tokens(rest)
  {
  }

  /** Any other byte stands for itself; so does an open bracket that is never closed, and a backslash with
      nothing behind it. */
  lemma PlainByte(c: byte, rest: Bytes)
    requires !Special(c) || (c == 91 && 93 !in rest) || (c == 92 && rest == [])
    ensures Tokens([c] + rest) == [Literal(c)] + Tokens(rest)
  {
    hide IndexOf;
    var p := [c] + rest;
    assert p[1..] == rest;
    ReadsAs(p, Literal(c), 1, rest);
  }

  /** A backslash takes the next byte as it is, a star and a question mark are themselves. */
  lemma SpecialByte(c: byte, rest: Bytes)
    ensures Tokens([92, c] + rest) == [Literal(c)] + Tokens(rest)
    ensures Tokens([42] + rest) == [Star] + Tokens(rest)
    ensures Tokens([63] + rest) == [Any] + Tokens(rest)
  {
    hide IndexOf;
    ReadsAs([BACKSLASH, c] + rest, Literal(c), 2, rest);
    ReadsAs([STAR] + rest, Star, 1, rest);
    ReadsAs([QUESTION] + rest, Any, 1, rest);
  }

  /** A bracket up to the first closing one is a class; a leading caret or exclamation mark negates it. */
  lemma ReadsClass(body: Bytes, rest: Bytes)
    requires 93 !in body
    ensures Tokens([91, 94] + body + [93] + rest) == [Class(body, true)] + Tokens(rest)
    ensures Tokens([91, 33] + body + [93] + rest) == [Class(body, true)] + Tokens(rest)
    ensures (body == [] || (body[0] != 94 && body[0] != 33)) ==>
      Tokens([91] + body + [93] + rest) == [Class(body, false)] + Tokens(rest)
  {
    hide IndexOf, FirstToken;
    OneClass([CARET] + body, rest);
    OneClass([BANG] + body, rest);
    OneClass(body, rest);
    assert ([CARET] + body)[1..] == body && ([BANG] + body)[1..] == body;
    assert [OPEN] + ([CARET] + body) == [OPEN, CARET] + body && [OPEN] + ([BANG] + body) == [OPEN, BANG] + body;
  }

  lemma OneClass(inner: Bytes, rest: Bytes)
    requires CLOSE !in inner
    ensures Tokens([OPEN] + inner + [CLOSE] + rest) == [ClassToken(inner)] + Tokens(rest)
  {
    hide IndexOf, FirstToken, ClassToken;
    var p := [OPEN] + inner + [CLOSE] + rest;
    FirstOfClass(inner, rest);
    ReadsAs(p, ClassToken(inner), |inner| + 2, rest);
  }

  // ----- and what that matches -----

  lemma {:induction false} LiteralPrefix(p: Bytes, more: Bytes, text: Bytes)
    requires forall i :: 0 <= i < |p| ==> !Special(p[i])
    ensures Matches(Tokens(p + more), text) <==> p <= text && Matches(Tokens(more), text[|p|..])
  {
    hide FirstToken;
    if p == [] {
      assert p + more == more && text[0..] == text;
    } else {
      var rest := p[1..];
      assert p + more == [p[0]] + (rest + more);
      PlainByte(p[0], rest + more);
      var ts := Tokens(p + more);
      assert ts[0] == Literal(p[0]) && ts[1..] == Tokens(rest + more);
      if text != [] {
        LiteralPrefix(rest, more, text[1..]);
        assert p <= text <==> p[0] == text[0] && rest <= text[1..];
        if p <= text {
          assert text[1..][|rest|..] == text[|p|..];
        }
      }
    }
  }

  /** A pattern without special bytes matches exactly itself. */
  lemma MatchesItself(p: Bytes, text: Bytes)
    requires forall i :: 0 <= i < |p| ==> !Special(p[i])
    ensures Matches(Tokens(p), text) <==> text == p
  {
    assert p + [] == p;
    LiteralPrefix(p, [], text);
    assert Tokens([]) == [];
  }

  /** Followed by a star it matches exactly what begins with it; by a question mark, by one byte more. */
  lemma MatchesPrefix(p: Bytes, text: Bytes)
    requires forall i :: 0 <= i < |p| ==> !Special(p[i])
    ensures Matches(Tokens(p + [STAR]), text) <==> p <= text
    ensures Matches(Tokens(p + [QUESTION]), text) <==> p <= text && |text| == |p| + 1
  {
    hide FirstToken;
    LiteralPrefix(p, [STAR], text);
    LiteralPrefix(p, [QUESTION], text);
    SpecialByte(0, []);
    assert [STAR] + [] == [STAR] && [QUESTION] + [] == [QUESTION] && Tokens([]) == [];
    if p <= text {
      var rest := text[|p|..];
      assert rest[|rest|..] == [] && Matches([], rest[|rest|..]);
      assert [Star][1..] == [] && [Any][1..] == [];
      assert Matches([Star], rest);
      assert Matches([Any], rest) <==> rest != [] && Matches([], rest[1..]);
    }
  }

  /** A class without a hyphen holds exactly the bytes it lists, and one of the form a-b those between. */
  lemma {:induction false} ClassLists(body: Bytes, c: byte)
    requires HYPHEN !in body
    ensures InClass(body, c) <==> c in body
  {
    if body != [] {
      ClassStep(body, 1, c);
      ClassLists(body[1..], c);
    }
  }

  lemma ClassRange(a: byte, b: byte, c: byte)
    ensures InClass([a, 45, b], c) <==> a <= c <= b
  {
    ClassStep([a, HYPHEN, b], 3, c);
  }

  // ----- matching one byte -----

  /** `class_matches`. */
  method ClassMatches(class_: Bytes, c: byte) returns (r: bool)
    ensures r == InClass(class_, c)
  {
    var i := 0;
    while i < |class_|
      invariant 0 <= i <= |class_|
      invariant InClass(class_, c) == InClass(class_[i..], c)
    {
      ghost var rest := class_[i..];
      if i + 2 < |class_| && class_[i + 1] == HYPHEN {
        ClassStep(rest, 3, c);
        assert rest[3..] == class_[i + 3..];
        if class_[i] <= c <= class_[i + 2] {
          return true;
        }
        i := i + 3;
      } else {
        ClassStep(rest, 1, c);
        assert rest[1..] == class_[i + 1..];
        if class_[i] == c {
          return true;
        }
        i := i + 1;
      }
    }
    assert class_[i..] == [];
    r := false;
  }

  lemma ClassStep(body: Bytes, n: nat, c: byte)
    requires body != [] && n == if |body| > 2 && body[1] == HYPHEN then 3 else 1
    ensures InClass(body, c) <==> body[0] <= c <= body[n - 1] || InClass(body[n..], c)
  {
    var head, tail := (body[0], body[n - 1]), Ranges(body[n..]);
    assert Ranges(body) == [head] + tail;
    assert Ranges(body)[0] == head;
    if InClass(body[n..], c) {
      var i :| 0 <= i < |tail| && tail[i].0 <= c <= tail[i].1;
      assert Ranges(body)[i + 1] == tail[i];
    }
    if InClass(body, c) && !(head.0 <= c <= head.1) {
      var i :| 0 <= i < |Ranges(body)| && Ranges(body)[i].0 <= c <= Ranges(body)[i].1;
      assert Ranges(body)[i] == tail[i - 1];
    }
  }

  /** `token_matches`. */
  method TokenMatches(t: Token, c: byte) returns (r: bool)
    ensures r == Accepts(t, c)
  {
    match t
    case Literal(l) => r := l == c;
    case Any => r := true;
    case Class(body, negate) =>
      var inside := ClassMatches(body, c);
      r := inside != negate;
    case Star => r := false;
  }

  // ----- why the last star is enough -----

  /** The tokens from `ti` on match the text from `si` on. */
  predicate From(ts: seq<Token>, text: Bytes, ti: nat, si: nat)
    requires ti <= |ts| && si <= |text|
  {
    Matches(ts[ti..], text[si..])
  }

  /** ... from some later point of the text. */
  predicate FromLater(ts: seq<Token>, text: Bytes, ti: nat, si: nat)
    requires ti <= |ts|
  {
    exists k :: si <= k <= |text| && From(ts, text, ti, k)
  }

  lemma FromToken(ts: seq<Token>, text: Bytes, ti: nat, si: nat)
    requires ti < |ts| && si <= |text| && !ts[ti].Star?
    ensures From(ts, text, ti, si) <==> si < |text| && Accepts(ts[ti], text[si]) && From(ts, text, ti + 1, si + 1)
  {
    assert ts[ti..][1..] == ts[ti + 1..];
    assert si < |text| ==> text[si..][1..] == text[si + 1..];
  }

  lemma FromStar(ts: seq<Token>, text: Bytes, ti: nat, si: nat)
    requires ti < |ts| && si <= |text| && ts[ti].Star?
    ensures From(ts, text, ti, si) <==> FromLater(ts, text, ti + 1, si)
  {
    assert ts[ti..][1..] == ts[ti + 1..];
    forall k | 0 <= k <= |text| - si ensures text[si..][k..] == text[si + k..] {
    }
    if From(ts, text, ti, si) {
      var k :| 0 <= k <= |text[si..]| && Matches(ts[ti..][1..], text[si..][k..]);
      assert From(ts, text, ti + 1, si + k);
    }
    if FromLater(ts, text, ti + 1, si) {
      var k :| si <= k <= |text| && From(ts, text, ti + 1, k);
      assert text[si..][k - si..] == text[k..];
      assert Matches(ts[ti..][1..], text[si..][k - si..]);
    }
  }

  /** A stretch without stars consumes one byte a token. */
  lemma {:induction false} FromStretch(ts: seq<Token>, text: Bytes, ti: nat, tj: nat, si: nat)
    requires ti <= tj <= |ts| && si <= |text| && forall i :: ti <= i < tj ==> !ts[i].Star?
    ensures From(ts, text, ti, si) ==> si + (tj - ti) <= |text| && From(ts, text, tj, si + (tj - ti))
    decreases tj - ti
  {
    hide From;
    if ti < tj {
      FromToken(ts, text, ti, si);
      if si < |text| {
        FromStretch(ts, text, ti + 1, tj, si + 1);
      }
    }
  }

  /** The state after the last star at `st` was given the run up to `star`: the stretch since then has
      matched byte for byte. */
  ghost predicate Retry(ts: seq<Token>, text: Bytes, st: nat, star: nat, ti: nat, si: nat)
  {
    && st < ti <= |ts| && si <= |text| && ts[st].Star? && si - star == ti - (st + 1)
    && (forall i :: st < i < ti ==> !ts[i].Star?)
    && (From(ts, text, st + 1, star) <==> From(ts, text, ti, si))
    && (Matches(ts, text) <==> FromLater(ts, text, st + 1, star))
  }

  /** Giving an earlier star a longer run never helps once a later star has been reached. */
  lemma LaterStar(ts: seq<Token>, text: Bytes, st: nat, star: nat, ti: nat, si: nat)
    requires Retry(ts, text, st, star, ti, si) && ti < |ts| && ts[ti].Star?
    ensures Matches(ts, text) <==> From(ts, text, ti, si)
  {
    hide From, Matches;
    FromStar(ts, text, ti, si);
    if Matches(ts, text) {
      var k :| star <= k <= |text| && From(ts, text, st + 1, k);
      FromStretch(ts, text, st + 1, ti, k);
      FromStar(ts, text, ti, k + (ti - (st + 1)));
    }
  }

  /** At the end of the text no longer run is possible. */
  lemma EndOfText(ts: seq<Token>, text: Bytes, st: nat, star: nat, ti: nat)
    requires Retry(ts, text, st, star, ti, |text|)
    ensures Matches(ts, text) <==> From(ts, text, ti, |text|)
  {
    hide From, Matches;
    if Matches(ts, text) {
      var k :| star <= k <= |text| && From(ts, text, st + 1, k);
      FromStretch(ts, text, st + 1, ti, k);
    }
  }

  /** A failed stretch makes the star take one byte more. */
  lemma OneMoreByte(ts: seq<Token>, text: Bytes, st: nat, star: nat, ti: nat, si: nat)
    requires Retry(ts, text, st, star, ti, si) && si < |text| && !From(ts, text, ti, si)
    ensures Retry(ts, text, st, star + 1, st + 1, star + 1)
  {
    hide From, Matches;
    if Matches(ts, text) {
      var k :| star <= k <= |text| && From(ts, text, st + 1, k);
      assert star + 1 <= k;
    }
  }

  /** `glob_match`. `steps` counts the iterations of both loops. */
  method GlobMatch(pattern: Bytes, text: Bytes) returns (r: bool, ghost steps: nat)
    ensures r <==> Matches(Tokens(pattern), text)
    ensures steps <= (|text| + 1) * (|Tokens(pattern)| + 1)
  {
    hide From, Matches, Tokens;
    var tokens := Tokenize(pattern);
    var ti: nat, si: nat := 0, 0;
    var starTi: Option<nat> := None;
    var starSi: nat := 0;
    steps := 0;
    ghost var width := |tokens| + 1;
    WholeIsFrom(tokens, text);
    while si < |text|
      invariant ti <= |tokens| && starSi <= si <= |text|
      invariant starTi.None? ==> starSi == 0 && (Matches(tokens, text) <==> From(tokens, text, ti, si))
      invariant starTi.Some? ==> Retry(tokens, text, starTi.value, starSi, ti, si)
      invariant steps <= starSi * width + ti
      decreases |text| - starSi, |tokens| - ti
    {
      var accepted := false;
      if ti < |tokens| {
        accepted := TokenMatches(tokens[ti], text[si]);
        if !tokens[ti].Star? {
          FromToken(tokens, text, ti, si);
        }
      } else {
        NothingLeft(tokens, text, si);
      }
      if accepted {
        ti, si := ti + 1, si + 1;
      } else if ti < |tokens| && tokens[ti].Star? {
        if starTi.Some? {
          LaterStar(tokens, text, starTi.value, starSi, ti, si);
        }
        FromStar(tokens, text, ti, si);
        Further(starSi, si, width);
        starTi, starSi := Some(ti), si;
        ti := ti + 1;
      } else if starTi.Some? {
        OneMoreByte(tokens, text, starTi.value, starSi, ti, si);
        Distribute(starSi, width);
        starSi := starSi + 1;
        ti, si := starTi.value + 1, starSi;
      } else {
        Bound(starSi, ti, |text|, width);
        return false, steps;
      }
      steps := steps + 1;
    }
    if starTi.Some? {
      EndOfText(tokens, text, starTi.value, starSi, ti);
    }
    while ti < |tokens| && tokens[ti].Star?
      invariant ti <= |tokens| && steps <= starSi * width + ti
      invariant Matches(tokens, text) <==> From(tokens, text, ti, |text|)
    {
      FromStar(tokens, text, ti, |text|);
      ti, steps := ti + 1, steps + 1;
    }
    if ti < |tokens| {
      FromToken(tokens, text, ti, |text|);
    } else {
      NothingLeft(tokens, text, |text|);
    }
    Bound(starSi, ti, |text|, width);
    r := ti == |tokens|;
  }

  lemma WholeIsFrom(ts: seq<Token>, text: Bytes)
    ensures From(ts, text, 0, 0) == Matches(ts, text)
  {
    assert ts[0..] == ts && text[0..] == text;
  }

  lemma NothingLeft(ts: seq<Token>, text: Bytes, si: nat)
    requires si <= |text|
    ensures From(ts, text, |ts|, si) <==> si == |text|
  {
  }

  lemma Further(a: nat, b: nat, width: nat)
    requires a <= b
    ensures a * width <= b * width
  {
  }

  lemma Distribute(a: nat, width: nat)
    ensures (a + 1) * width == a * width + width
  {
  }

  lemma Bound(star: nat, ti: nat, n: nat, width: nat)
    requires star <= n && ti < width
    ensures star * width + ti <= (n + 1) * width
  {
    Further(star, n, width);
    Distribute(n, width);
  }
}
