/** A global `String.prototype.replace` with one of the patterns: at each position the
    pattern is tried; a match is replaced and the scan resumes after it, a failure copies one
    character and moves on. `ReplaceAll` is that scan; `Tokens` splits the input into the
    pieces the scan decides on, and is proved to be exactly what a global replacement
    decides. */
module Replace {
  import opened Text
  import opened Patterns

  /** A copied character, or a match reduced to its captured text. */
  datatype Piece = Lit(c: char) | Span(body: string)

  /** The text of the pieces, each match written as `open + body + close`. */
  function Expand(ps: seq<Piece>, open: string, close: string): string {
    if ps == [] then ""
    else
      (match ps[0]
       case Lit(c) => [c]
       case Span(b) => open + b + close)
      + Expand(ps[1..], open, close)
  }

  /** The text the pieces were read from. */
  function Source(ps: seq<Piece>, p: Pass): string {
    Expand(ps, Delim(p), Delim(p))
  }

  /** The scan of a global `replace`: a match where the pattern matches, otherwise one
      copied character. */
  function Tokens(p: Pass, s: string): seq<Piece>
    decreases |s|
  {
    if s == [] then []
    else
      var n := MatchLen(p, s);
      if n > 0 then [Span(s[|Delim(p)|..n - |Delim(p)|])] + Tokens(p, s[n..])
      else [Lit(s[0])] + Tokens(p, s[1..])
  }

  /** The tokens cover the input exactly: reading them back gives the input. */
  lemma {:induction false} TokensSource(p: Pass, s: string)
    ensures Source(Tokens(p, s), p) == s
    decreases |s|
  {
    if s != [] {
      var n := MatchLen(p, s);
      if n > 0 {
        SourceStepSpan(p, s);
        TokensSource(p, s[n..]);
        MatchDelims(p, s);
        PrefixAndRest(s, n, Delim(p) + s[|Delim(p)|..n - |Delim(p)|] + Delim(p));
      } else {
        SourceStepLit(p, s);
        TokensSource(p, s[1..]);
        PrefixAndRest(s, 1, [s[0]]);
      }
    }
  }

  lemma PrefixAndRest(s: string, n: nat, head: string)
    requires n <= |s| && s[..n] == head
    ensures head + s[n..] == s
  {
    assert s == s[..n] + s[n..];
  }

  lemma SourceStepSpan(p: Pass, s: string)
    requires s != [] && MatchLen(p, s) > 0
    ensures var n := MatchLen(p, s);
            var d := Delim(p);
            Source(Tokens(p, s), p) == d + s[|d|..n - |d|] + d + Source(Tokens(p, s[n..]), p)
  {
    var n := MatchLen(p, s);
    assert Tokens(p, s)[1..] == Tokens(p, s[n..]);
  }

  lemma SourceStepLit(p: Pass, s: string)
    requires s != [] && MatchLen(p, s) == 0
    ensures Source(Tokens(p, s), p) == [s[0]] + Source(Tokens(p, s[1..]), p)
  {
    assert Tokens(p, s)[1..] == Tokens(p, s[1..]);
  }

  /** Every span of `ts` holds text the capture group accepts, stated piece by piece. */
  ghost predicate SpansAccepted(p: Pass, ts: seq<Piece>)
    decreases |ts|
  {
    ts == [] || ((ts[0].Span? ==> Body(p, ts[0].body)) && SpansAccepted(p, ts[1..]))
  }

  lemma {:induction false} SpansAcceptedAll(p: Pass, ts: seq<Piece>)
    requires SpansAccepted(p, ts)
    ensures forall k :: 0 <= k < |ts| && ts[k].Span? ==> Body(p, ts[k].body)
    decreases |ts|
  {
    if ts != [] {
      SpansAcceptedAll(p, ts[1..]);
      assert forall k :: 1 <= k < |ts| ==> ts[k] == ts[1..][k - 1];
    }
  }

  lemma {:induction false} TokensAccepted(p: Pass, s: string)
    ensures SpansAccepted(p, Tokens(p, s))
    decreases |s|
  {
    if s != [] {
      var n := MatchLen(p, s);
      var next := if n > 0 then n else 1;
      TokensAccepted(p, s[next..]);
      if n > 0 {
        MatchBody(p, s);
      }
      assert Tokens(p, s)[1..] == Tokens(p, s[next..]);
    }
  }

  /** Every span holds text the capture group accepts. */
  lemma TokensBodies(p: Pass, s: string)
    ensures forall k :: 0 <= k < |Tokens(p, s)| && Tokens(p, s)[k].Span? ==>
      Body(p, Tokens(p, s)[k].body)
  {
    TokensAccepted(p, s);
    SpansAcceptedAll(p, Tokens(p, s));
  }

  /** A piece is a span exactly when the pattern matches where that piece begins. */
  lemma {:induction false} TokensSpans(p: Pass, s: string)
    ensures forall k :: 0 <= k < |Tokens(p, s)| ==>
      (Tokens(p, s)[k].Span? <==> MatchesHere(p, Source(Tokens(p, s)[k..], p)))
    decreases |s|
  {
    if s != [] {
      var r := Tokens(p, s);
      var n := MatchLen(p, s);
      var next := if n > 0 then n else 1;
      var rest := Tokens(p, s[next..]);
      TokensSpans(p, s[next..]);
      assert r[1..] == rest;
      TokensSource(p, s);
      MatchesHereIff(p, s);
      assert r[0..] == r;
      forall k | 0 < k < |r|
        ensures r[k] == rest[k - 1] && r[k..] == rest[k - 1..]
      {
      }
    }
  }

  /** Together: the whole of what a global replacement decides. Leftmost matches, no overlap,
      the scan resumed after each match. */
  lemma TokensSpec(p: Pass, s: string)
    ensures Source(Tokens(p, s), p) == s
    ensures forall k :: 0 <= k < |Tokens(p, s)| && Tokens(p, s)[k].Span? ==>
      Body(p, Tokens(p, s)[k].body)
    ensures forall k :: 0 <= k < |Tokens(p, s)| ==>
      (Tokens(p, s)[k].Span? <==> MatchesHere(p, Source(Tokens(p, s)[k..], p)))
  {
    TokensSource(p, s);
    TokensBodies(p, s);
    TokensSpans(p, s);
  }

  /** One `replace(pattern, replacement)` with a global pattern: the scan, writing `open`
      and `close` around the captured text of each match and copying everything else. */
  function ReplaceAll(p: Pass, open: string, close: string, s: string): string
    decreases |s|
  {
    if s == [] then ""
    else
      var n := MatchLen(p, s);
      if n > 0 then
        open + s[|Delim(p)|..n - |Delim(p)|] + close + ReplaceAll(p, open, close, s[n..])
      else [s[0]] + ReplaceAll(p, open, close, s[1..])
  }

  /** The replacement is the rendering of the tokens: each match becomes its captured text
      between the tags, and everything else is copied. */
  lemma {:induction false} ReplaceAllTokens(p: Pass, open: string, close: string, s: string)
    ensures ReplaceAll(p, open, close, s) == Expand(Tokens(p, s), open, close)
    decreases |s|
  {
    if s != [] {
      var n := MatchLen(p, s);
      var next := if n > 0 then n else 1;
      ReplaceAllTokens(p, open, close, s[next..]);
      var r := Tokens(p, s);
      assert r[1..] == Tokens(p, s[next..]);
    }
  }

  /** Where the pattern does not match, the scan copies one character. */
  lemma ReplaceAllCopies(p: Pass, open: string, close: string, s: string)
    requires s != [] && MatchLen(p, s) == 0
    ensures ReplaceAll(p, open, close, s) == [s[0]] + ReplaceAll(p, open, close, s[1..])
  {
  }

  /** The pattern matches at no position of `x` (with `rest` following it). */
  predicate NoMatchIn(p: Pass, x: string, rest: string)
    decreases |x|
  {
    x == [] || (MatchLen(p, x + rest) == 0 && NoMatchIn(p, x[1..], rest))
  }

  lemma {:induction false} NoMatchInFromEach(p: Pass, x: string, rest: string)
    requires forall i :: 0 <= i < |x| ==> MatchLen(p, (x + rest)[i..]) == 0
    ensures NoMatchIn(p, x, rest)
  {
    if x != [] {
      assert MatchLen(p, (x + rest)[0..]) == 0;
      assert (x + rest)[0..] == x + rest;
      forall i | 0 <= i < |x| - 1
        ensures MatchLen(p, (x[1..] + rest)[i..]) == 0
      {
        TailOfJoin(x, rest, i);
      }
      NoMatchInFromEach(p, x[1..], rest);
    }
  }

  lemma TailOfJoin(x: string, rest: string, i: nat)
    requires i < |x| - 1
    ensures (x[1..] + rest)[i..] == (x + rest)[i + 1..]
  {
  }

  /** Where the pattern matches at no position of `x`, the scan copies `x` and goes on with
      what follows it. */
  lemma {:induction false} CopiedPrefix(p: Pass, open: string, close: string, x: string, rest: string)
    requires NoMatchIn(p, x, rest)
    ensures ReplaceAll(p, open, close, x + rest) == x + ReplaceAll(p, open, close, rest)
  {
    if x == [] {
      assert x + rest == rest;
    } else {
      CopiedPrefix(p, open, close, x[1..], rest);
      CopiedHead(p, open, close, x, rest);
      ConsHead(x, ReplaceAll(p, open, close, x[1..] + rest), ReplaceAll(p, open, close, rest));
    }
  }

  lemma ConsHead(x: string, b: string, r: string)
    requires x != [] && b == x[1..] + r
    ensures [x[0]] + b == x + r
  {
    assert x == [x[0]] + x[1..];
  }

  lemma CopiedHead(p: Pass, open: string, close: string, x: string, rest: string)
    requires x != [] && MatchLen(p, x + rest) == 0
    ensures ReplaceAll(p, open, close, x + rest) == [x[0]] + ReplaceAll(p, open, close, x[1..] + rest)
  {
    var s := x + rest;
    ReplaceAllCopies(p, open, close, s);
    assert s[0] == x[0] && s[1..] == x[1..] + rest;
  }

  /** A no-match stretch followed by another is one no-match stretch. */
  lemma {:induction false} NoMatchInAppend(p: Pass, x: string, y: string, rest: string)
    requires NoMatchIn(p, x, y + rest) && NoMatchIn(p, y, rest)
    ensures NoMatchIn(p, x + y, rest)
    decreases |x|
  {
    if x == [] {
      assert x + y == y;
    } else {
      assert (x + y) + rest == x + (y + rest);
      assert (x + y)[1..] == x[1..] + y;
      NoMatchInAppend(p, x[1..], y, rest);
    }
  }

  /** Copying stretches: text with no asterisk for the bold and italic patterns, no backtick
      for code spans. */
  lemma {:induction false} NoMatchInPlain(p: Pass, x: string, rest: string)
    requires p != Percent && Trigger(p) !in x
    ensures NoMatchIn(p, x, rest)
    decreases |x|
  {
    if x != [] {
      assert (x + rest)[0] == x[0];
      assert (x + rest)[1..] == x[1..] + rest;
      assert Trigger(p) !in x[1..];
      NoMatchInPlain(p, x[1..], rest);
    }
  }

  /** A stretch without the trigger of a delimited pattern is copied. */
  lemma CopiedPlain(p: Pass, open: string, close: string, x: string, rest: string)
    requires p != Percent && Trigger(p) !in x
    ensures ReplaceAll(p, open, close, x + rest) == x + ReplaceAll(p, open, close, rest)
  {
    NoMatchInPlain(p, x, rest);
    CopiedPrefix(p, open, close, x, rest);
  }

  /** Text without the pattern's trigger character passes through unchanged. */
  lemma {:induction false} NoTriggerUnchanged(p: Pass, open: string, close: string, s: string)
    requires Trigger(p) !in s
    ensures ReplaceAll(p, open, close, s) == s
    decreases |s|
  {
    if s != [] {
      NoTriggerNoMatch(p, s);
      ReplaceAllCopies(p, open, close, s);
      assert Trigger(p) !in s[1..];
      NoTriggerUnchanged(p, open, close, s[1..]);
      assert s == [s[0]] + s[1..];
    }
  }

  /** Text where the pattern matches at no position passes through unchanged. */
  lemma NoMatchUnchanged(p: Pass, open: string, close: string, s: string)
    requires forall i :: 0 <= i < |s| ==> MatchLen(p, s[i..]) == 0
    ensures ReplaceAll(p, open, close, s) == s
  {
    assert s + [] == s;
    NoMatchInFromEach(p, s, []);
    CopiedPrefix(p, open, close, s, []);
  }

  /** A whole string that is one match is replaced by the tags around the captured text. */
  lemma WholeMatch(p: Pass, open: string, close: string, b: string)
    requires Body(p, b)
    ensures ReplaceAll(p, open, close, Delim(p) + b + Delim(p)) == open + b + close
  {
    var d := Delim(p);
    var s := d + b + d;
    assert s[..|s|] == s;
    assert s[|d|..|s| - |d|] == b;
    assert Matches(p, s);
    MatchLenSpec(p, s);
    assert MatchLen(p, s) == |s|;
    assert s[|s|..] == [];
    assert ReplaceAll(p, open, close, s) == open + b + close + ReplaceAll(p, open, close, []);
  }

  lemma ItalicRunReplaced(open: string, close: string, b: string, d: string)
    requires b != [] && '*' !in b && '*' !in d
    ensures ReplaceAll(Italic, open, close, "*" + b + "*" + d) == open + b + close + d
  {
    var m := "*" + b + "*" + d;
    var n := |b| + 2;
    ItalicRunMatches(b, d);
    assert m[1..n - 1] == b;
    assert m[n..] == d;
    NoTriggerUnchanged(Italic, open, close, d);
    assert ReplaceAll(Italic, open, close, m) ==
      open + m[1..n - 1] + close + ReplaceAll(Italic, open, close, m[n..]);
  }

  /** The bold pass finds nothing where the only asterisks are two single ones. */
  lemma BoldSkipsSingleStars(open: string, close: string, c: string, b: string, d: string)
    requires b != [] && '*' !in c && '*' !in b && '*' !in d
    ensures ReplaceAll(Bold, open, close, c + ("*" + b + "*") + d) == c + ("*" + b + "*") + d
  {
    PrependPlain(d, []);
    assert d + [] == d;
    PrependLoneStar(d);
    PrependPlain(b, "*" + d);
    assert (b + ("*" + d))[0] == b[0];
    PrependLoneStar(b + ("*" + d));
    PrependPlain(c, "*" + (b + ("*" + d)));
    var s1 := c + ("*" + (b + ("*" + d)));
    assert s1 == c + ("*" + b + "*") + d;
    CopiedPrefix(Bold, open, close, s1, []);
    assert s1 + [] == s1;
  }

  lemma PrependPlain(x: string, y: string)
    requires '*' !in x && NoMatchIn(Bold, y, [])
    ensures NoMatchIn(Bold, x + y, [])
  {
    NoMatchInPlain(Bold, x, y + []);
    assert y + [] == y;
    NoMatchInAppend(Bold, x, y, []);
  }

  /** An asterisk not followed by another starts no bold match. */
  lemma PrependLoneStar(y: string)
    requires NoMatchIn(Bold, y, []) && (y == [] || y[0] != '*')
    ensures NoMatchIn(Bold, "*" + y, [])
  {
    assert y + [] == y;
    assert NoMatchIn(Bold, "*", y + []) by {
      assert "*" + (y + []) == "*" + y;
      if y != [] {
        assert ("*" + y)[1] == y[0];
      }
      assert "*"[1..] == [];
    }
    NoMatchInAppend(Bold, "*", y, []);
  }

  /** The italic pass wraps the one asterisk-delimited run and copies the rest. */
  lemma ItalicWrapsMiddle(open: string, close: string, c: string, b: string, d: string)
    requires b != [] && '*' !in c && '*' !in b && '*' !in d
    ensures ReplaceAll(Italic, open, close, c + ("*" + b + "*") + d) == c + open + b + close + d
  {
    var m := "*" + b + "*" + d;
    assert c + ("*" + b + "*") + d == c + m;
    CopiedPlain(Italic, open, close, c, m);
    ItalicRunReplaced(open, close, b, d);
    assert c + (open + b + close + d) == c + open + b + close + d;
  }
}
