/** `normalizeQuotes` of `src/utils/punctuation.js`: straight double and single quotes
    around a span become corner brackets. Each regular expression is modelled as a scan that
    tries a match at each position from left to right and, after a match, resumes just past
    it, as a global `replace` does. */
module Quotes {
  import opened Text

  /** `replace(/"([^"]*)"/g, '「$1」')`: a `"` opens a span that the next `"` closes. */
  function PairDoubleQuotes(s: string): (r: string)
    ensures |r| == |s|
  {
    if s == [] then []
    else if s[0] == '"' && 1 + NextIndex(s[1..], '"') < |s| then
      var q := 1 + NextIndex(s[1..], '"');
      ['「'] + s[1..q] + ['」'] + PairDoubleQuotes(s[q + 1..])
    else [s[0]] + PairDoubleQuotes(s[1..])
  }

  /** The closing `'` of a single-quoted span: the next `'`, provided the look-ahead
      `(?=[^a-zA-Z]|$)` after it succeeds. */
  predicate ClosesSingleQuote(s: string)
    requires s != []
  {
    var q := 1 + NextIndex(s[1..], '\'');
    q < |s| && (q + 1 == |s| || !IsLatin(s[q + 1]))
  }

  /** `replace(/'([^']*)'(?=[^a-zA-Z]|$)/g, '『$1』')` */
  function PairSingleQuotes(s: string): (r: string)
    ensures |r| == |s|
  {
    if s == [] then []
    else if s[0] == '\'' && ClosesSingleQuote(s) then
      var q := 1 + NextIndex(s[1..], '\'');
      "『" + s[1..q] + "』" + PairSingleQuotes(s[q + 1..])
    else [s[0]] + PairSingleQuotes(s[1..])
  }

  /** `normalizeQuotes`: the double-quote pass, the single-quote pass, then both again
      (the third and fourth replacements of the source use the same character classes). */
  function NormalizeQuotes(s: string): (r: string)
    ensures Count(r, '"') == Count(s, '"') % 2
    ensures UnpairQuotes(r) == UnpairQuotes(s)
    ensures |r| == |s|
    ensures forall i :: 0 <= i < |s| && s[i] != '\'' ==> r[i] == DoubleQuoteAt(s, i)
  {
    var once := PairSingleQuotes(PairDoubleQuotes(s));
    QuotesKeepDoublePositions(s);
    DoubleQuoteCount(s);
    SingleQuotesKeepDoubleQuotes(PairDoubleQuotes(s));
    DoubleQuotesAtMostOne(once);
    SingleQuotesKeepDoubleQuotes(once);
    DoubleQuotesUnpair(s);
    SingleQuotesUnpair(PairDoubleQuotes(s));
    SingleQuotesUnpair(once);
    PairSingleQuotes(PairDoubleQuotes(once))
  }

  /** After all passes, every position that did not hold a `'` holds what the double-quote
      pass wrote there: the single-quote passes touch only `'`. */
  lemma QuotesKeepDoublePositions(s: string)
    ensures var once := PairSingleQuotes(PairDoubleQuotes(s));
            var r := PairSingleQuotes(PairDoubleQuotes(once));
            forall i :: 0 <= i < |s| && s[i] != '\'' ==> r[i] == DoubleQuoteAt(s, i)
  {
    var d := PairDoubleQuotes(s);
    var once := PairSingleQuotes(d);
    QuotesThirdPassIsNoOp(s);
    DoubleQuotePositions(s);
    SingleQuotesKeepOthers(d);
    SingleQuotesKeepOthers(once);
    forall i | 0 <= i < |s| && s[i] != '\''
      ensures PairSingleQuotes(once)[i] == DoubleQuoteAt(s, i)
    {
      assert d[i] == DoubleQuoteAt(s, i) != '\'';
    }
  }

  /** Maps every corner bracket the quote passes produce back to the quote it replaced. */
  function UnpairQuotes(s: string): (r: string)
    ensures |r| == |s|
  {
    if s == [] then []
    else
      var c := if s[0] == '「' || s[0] == '」' then '"'
               else if s[0] == '『' || s[0] == '』' then '\'' else s[0];
      [c] + UnpairQuotes(s[1..])
  }

  /** The `c` that closes a span opened at the start of `s`, when there is one. */
  lemma ClosingQuote(s: string, c: char)
    requires s != [] && 1 + NextIndex(s[1..], c) < |s|
    ensures var q := 1 + NextIndex(s[1..], c); s[q] == c && c !in s[1..q]
  {
    var q := 1 + NextIndex(s[1..], c);
    NextIndexSpec(s[1..], c);
    assert s[1..][..q - 1] == s[1..q];
    assert s[1..][q - 1] == s[q];
  }

  /** Otherwise nothing after the start of `s` is a `c`. */
  lemma NoClosingQuote(s: string, c: char)
    requires s != [] && 1 + NextIndex(s[1..], c) >= |s|
    ensures c !in s[1..]
  {
    NextIndexSpec(s[1..], c);
    assert s[1..][..NextIndex(s[1..], c)] == s[1..];
  }

  lemma {:induction false} UnpairAppend(a: string, b: string)
    ensures UnpairQuotes(a + b) == UnpairQuotes(a) + UnpairQuotes(b)
  {
    if a == [] {
      assert a + b == b;
    } else {
      assert (a + b)[1..] == a[1..] + b;
      UnpairAppend(a[1..], b);
    }
  }

  /** Converted quotes come in pairs: the number of `"` left is the parity of the number
      there were, so at most one (the unmatched last one) survives. */
  lemma {:induction false} DoubleQuoteCount(s: string)
    ensures Count(PairDoubleQuotes(s), '"') == Count(s, '"') % 2
  {
    if s != [] {
      if s[0] == '"' && 1 + NextIndex(s[1..], '"') < |s| {
        var q := 1 + NextIndex(s[1..], '"');
        ClosingQuote(s, '"');
        var out := PairDoubleQuotes(s[q + 1..]);
        var x := Count(s[q + 1..], '"');
        DoubleQuoteCount(s[q + 1..]);
        CountAroundSpan(s, q, '"');
        CountBracketed('「', s[1..q], '」', out, '"');
        PairDoubleSpan(s);
        ParityStep(x);
      } else {
        var out := PairDoubleQuotes(s[1..]);
        var x := Count(s[1..], '"');
        DoubleQuoteCount(s[1..]);
        assert PairDoubleQuotes(s) == [s[0]] + out;
        assert Count(PairDoubleQuotes(s), '"') == (if s[0] == '"' then 1 else 0) + x % 2;
        if s[0] == '"' {
          NoClosingQuote(s, '"');
          CountZero(s[1..], '"');
        }
      }
    }
  }

  /** One step of the double-quote pass over a closed span. */
  lemma PairDoubleSpan(s: string)
    requires s != [] && s[0] == '"' && 1 + NextIndex(s[1..], '"') < |s|
    ensures var q := 1 + NextIndex(s[1..], '"');
            PairDoubleQuotes(s) == ['「'] + s[1..q] + ['」'] + PairDoubleQuotes(s[q + 1..])
  {
  }

  /** A `"`-free span between two `"` becomes 「…」, and the scan resumes after it. */
  lemma DoubleQuotedSpan(body: string, rest: string)
    requires '"' !in body
    ensures PairDoubleQuotes("\"" + body + "\"" + rest) == "「" + body + "」" + PairDoubleQuotes(rest)
  {
    var s := "\"" + body + "\"" + rest;
    var q := |body| + 1;
    assert s[1..] == body + "\"" + rest;
    NextIndexAfter(body, '"', rest);
    assert s[0] == '"' && 1 + NextIndex(s[1..], '"') == q < |s|;
    assert s[1..q] == body;
    assert s[q + 1..] == rest;
  }

  /** What the double-quote pass writes at position `i` of `s`: a `"` with an odd number of
      `"` before it closes a span; one with an even number opens a span when another `"`
      follows, and is otherwise the unmatched last `"`, which is kept. */
  function DoubleQuoteAt(s: string, i: nat): char
    requires i < |s|
  {
    if s[i] != '"' then s[i]
    else if Count(s[..i], '"') % 2 == 1 then '」'
    else if Count(s[i + 1..], '"') > 0 then '「'
    else '"'
  }

  /** The double-quote pass keeps the length and writes `DoubleQuoteAt` at every position:
      quotes pair up from left to right. */
  lemma {:induction false} DoubleQuotePositions(s: string)
    ensures |PairDoubleQuotes(s)| == |s|
    ensures forall i :: 0 <= i < |s| ==> PairDoubleQuotes(s)[i] == DoubleQuoteAt(s, i)
  {
    if s != [] {
      if s[0] == '"' && 1 + NextIndex(s[1..], '"') < |s| {
        var q := 1 + NextIndex(s[1..], '"');
        ClosingQuote(s, '"');
        DoubleQuotePositions(s[q + 1..]);
        PairDoubleSpan(s);
        SpanPositions(s, q, PairDoubleQuotes(s[q + 1..]));
      } else {
        DoubleQuotePositions(s[1..]);
        if s[0] == '"' {
          NoClosingQuote(s, '"');
        }
        CopyPositions(s, PairDoubleQuotes(s[1..]));
      }
    }
  }

  /** Only the last `"`, and only when an even number precede it, survives the pass. */
  lemma DoubleQuoteSurvives(s: string, i: nat)
    requires i < |s|
    ensures PairDoubleQuotes(s)[i] == '"' <==>
      s[i] == '"' && Count(s[..i], '"') % 2 == 0 && Count(s[i + 1..], '"') == 0
  {
    DoubleQuotePositions(s);
  }

  lemma CountOne(c: char, x: char)
    ensures Count([x], c) == if x == c then 1 else 0
  {
    assert [x][1..] == [];
  }

  /** Positions of a closed span, given those of the rest. */
  lemma SpanPositions(s: string, q: nat, out: string)
    requires 0 < q < |s| && s[0] == '"' && s[q] == '"' && '"' !in s[1..q]
    requires |out| == |s| - q - 1
    requires forall j :: 0 <= j < |out| ==> out[j] == DoubleQuoteAt(s[q + 1..], j)
    ensures var r := ['「'] + s[1..q] + ['」'] + out;
            |r| == |s| && forall i :: 0 <= i < |s| ==> r[i] == DoubleQuoteAt(s, i)
  {
    var r := ['「'] + s[1..q] + ['」'] + out;
    var t := s[q + 1..];
    CountZero(s[1..q], '"');
    CountOne('"', s[0]);
    assert s[..q] == [s[0]] + s[1..q];
    CountAppend([s[0]], s[1..q], '"');
    assert Count(s[..q], '"') == 1;
    assert s[..q + 1] == s[..q] + [s[q]];
    CountOne('"', s[q]);
    CountAppend(s[..q], [s[q]], '"');
    forall i | 0 <= i < |s|
      ensures r[i] == DoubleQuoteAt(s, i)
    {
      if i == 0 {
        assert s[..0] == [];
        assert s[1..][q - 1] == s[q];
        CountZero(s[1..], '"');
      } else if i < q {
        assert s[i] == s[1..q][i - 1];
      } else if i > q {
        assert r[i] == out[i - (q + 1)];
        ShiftedQuoteAt(s, q + 1, i);
      }
    }
  }

  /** Past a prefix with an even number of `"`, the pass writes what it writes on the rest. */
  lemma ShiftedQuoteAt(s: string, m: nat, i: nat)
    requires m <= i < |s| && Count(s[..m], '"') % 2 == 0
    ensures DoubleQuoteAt(s, i) == DoubleQuoteAt(s[m..], i - m)
  {
    var t := s[m..];
    var j := i - m;
    assert t[j] == s[i];
    PrefixThroughSlice(s, m, i);
    CountAppend(s[..m], t[..j], '"');
    SuffixOfSlice(s, m, i + 1);
  }

  /** Positions of a copied first character, given those of the rest. */
  lemma CopyPositions(s: string, out: string)
    requires s != [] && (s[0] != '"' || '"' !in s[1..])
    requires |out| == |s| - 1
    requires forall j :: 0 <= j < |out| ==> out[j] == DoubleQuoteAt(s[1..], j)
    ensures var r := [s[0]] + out;
            |r| == |s| && forall i :: 0 <= i < |s| ==> r[i] == DoubleQuoteAt(s, i)
  {
    var r := [s[0]] + out;
    var t := s[1..];
    CountOne('"', s[0]);
    forall i | 0 <= i < |s|
      ensures r[i] == DoubleQuoteAt(s, i)
    {
      if i == 0 {
        assert s[..0] == [];
        CountZero(t, '"');
      } else if s[0] != '"' {
        assert r[i] == out[i - 1];
        assert s[..1] == [s[0]];
        ShiftedQuoteAt(s, 1, i);
      } else {
        assert r[i] == out[i - 1] && t[i - 1] == s[i];
      }
    }
  }

  /** The single-quote pass keeps the length and every character other than `'`. */
  lemma {:induction false} SingleQuotesKeepOthers(s: string)
    ensures |PairSingleQuotes(s)| == |s|
    ensures forall i :: 0 <= i < |s| && s[i] != '\'' ==> PairSingleQuotes(s)[i] == s[i]
  {
    if s != [] {
      if s[0] == '\'' && ClosesSingleQuote(s) {
        var q := 1 + NextIndex(s[1..], '\'');
        ClosingQuote(s, '\'');
        SingleQuotesKeepOthers(s[q + 1..]);
        var out := PairSingleQuotes(s[q + 1..]);
        assert PairSingleQuotes(s) == ['『'] + s[1..q] + ['』'] + out by {
          assert "『" == ['『'] && "』" == ['』'];
        }
        KeepOthersSpan(s, q, out);
      } else {
        SingleQuotesKeepOthers(s[1..]);
        var out := PairSingleQuotes(s[1..]);
        assert PairSingleQuotes(s) == [s[0]] + out;
        forall i | 0 < i < |s| && s[i] != '\''
          ensures ([s[0]] + out)[i] == s[i]
        {
          assert s[1..][i - 1] == s[i];
        }
      }
    }
  }

  lemma KeepOthersSpan(s: string, q: nat, out: string)
    requires 0 < q < |s| && s[0] == '\'' && s[q] == '\''
    requires |out| == |s| - q - 1
    requires forall j :: 0 <= j < |out| && s[q + 1..][j] != '\'' ==> out[j] == s[q + 1..][j]
    ensures var r := ['『'] + s[1..q] + ['』'] + out;
            |r| == |s| && forall i :: 0 <= i < |s| && s[i] != '\'' ==> r[i] == s[i]
  {
    var r := ['『'] + s[1..q] + ['』'] + out;
    forall i | 0 <= i < |s| && s[i] != '\''
      ensures r[i] == s[i]
    {
      if i < q {
        assert s[i] == s[1..q][i - 1];
      } else {
        assert s[q + 1..][i - q - 1] == s[i];
      }
    }
  }

  lemma ParityStep(x: nat)
    ensures (2 + x) % 2 == x % 2
  {
  }

  /** Two `c` around a `c`-free span count two. */
  lemma CountAroundSpan(s: string, q: nat, c: char)
    requires 0 < q < |s| && s[0] == c && s[q] == c && c !in s[1..q]
    ensures Count(s, c) == 2 + Count(s[q + 1..], c)
  {
    assert s[1..] == s[1..q] + s[q..];
    CountSkipsFree(s[1..q], s[q..], c);
    assert s[q..][1..] == s[q + 1..];
  }

  /** Brackets other than `c` around a `c`-free span do not count. */
  lemma CountBracketed(open: char, body: string, close: char, rest: string, c: char)
    requires open != c && close != c && c !in body
    ensures Count([open] + body + [close] + rest, c) == Count(rest, c)
  {
    assert ([open] + body + [close] + rest)[1..] == body + ([close] + rest);
    CountSkipsFree(body, [close] + rest, c);
    assert ([close] + rest)[1..] == rest;
  }

  /** A prefix free of `c` does not contribute to the count of `c`. */
  lemma {:induction false} CountSkipsFree(a: string, b: string, c: char)
    requires c !in a
    ensures Count(a + b, c) == Count(b, c)
  {
    CountZero(a, c);
    CountAppend(a, b, c);
  }

  /** With at most one `"` there is nothing to pair. */
  lemma {:induction false} DoubleQuotesAtMostOne(s: string)
    requires Count(s, '"') <= 1
    ensures PairDoubleQuotes(s) == s
  {
    if s != [] {
      if s[0] == '"' {
        CountZero(s[1..], '"');
        NextIndexSpec(s[1..], '"');
      }
      DoubleQuotesAtMostOne(s[1..]);
    }
  }

  /** The single-quote pass never touches `"`. */
  lemma {:induction false} SingleQuotesKeepDoubleQuotes(s: string)
    ensures Count(PairSingleQuotes(s), '"') == Count(s, '"')
  {
    if s != [] {
      if s[0] == '\'' && ClosesSingleQuote(s) {
        var q := 1 + NextIndex(s[1..], '\'');
        ClosingQuote(s, '\'');
        SingleQuotesKeepDoubleQuotes(s[q + 1..]);
        CountSpanStep(s, q, '『', '』', PairSingleQuotes(s[q + 1..]), '"');
      } else {
        SingleQuotesKeepDoubleQuotes(s[1..]);
      }
    }
  }

  /** Replacing the two ends of a span by other characters than `c` keeps the count of `c`. */
  lemma CountSpanStep(s: string, q: nat, open: char, close: char, out: string, c: char)
    requires 0 < q < |s| && s[0] != c && s[q] != c && open != c && close != c
    requires Count(out, c) == Count(s[q + 1..], c)
    ensures Count([open] + s[1..q] + [close] + out, c) == Count(s, c)
  {
    var body := s[1..q];
    assert s == [s[0]] + (body + ([s[q]] + s[q + 1..]));
    CountAppend([s[0]], body + ([s[q]] + s[q + 1..]), c);
    CountAppend(body, [s[q]] + s[q + 1..], c);
    CountAppend([s[q]], s[q + 1..], c);
    assert [open] + body + [close] + out == [open] + (body + ([close] + out));
    CountAppend([open], body + ([close] + out), c);
    CountAppend(body, [close] + out, c);
    CountAppend([close], out, c);
  }

  /** The third replacement of `normalizeQuotes` never changes anything: after the first
      two passes at most one `"` is left. */
  lemma QuotesThirdPassIsNoOp(s: string)
    ensures PairDoubleQuotes(PairSingleQuotes(PairDoubleQuotes(s))) == PairSingleQuotes(PairDoubleQuotes(s))
  {
    DoubleQuoteCount(s);
    SingleQuotesKeepDoubleQuotes(PairDoubleQuotes(s));
    DoubleQuotesAtMostOne(PairSingleQuotes(PairDoubleQuotes(s)));
  }

  /** A span whose brackets read back as the quotes they replaced reads back as the input. */
  lemma UnpairSpanStep(s: string, q: nat, open: char, close: char, out: string)
    requires 0 < q < |s|
    requires UnpairQuotes([open]) == UnpairQuotes([s[0]]) && UnpairQuotes([close]) == UnpairQuotes([s[q]])
    requires UnpairQuotes(out) == UnpairQuotes(s[q + 1..])
    ensures UnpairQuotes([open] + s[1..q] + [close] + out) == UnpairQuotes(s)
  {
    assert s == [s[0]] + s[1..q] + [s[q]] + s[q + 1..];
    UnpairAppend([s[0]] + s[1..q] + [s[q]], s[q + 1..]);
    UnpairAppend([s[0]] + s[1..q], [s[q]]);
    UnpairAppend([s[0]], s[1..q]);
    UnpairAppend([open] + s[1..q] + [close], out);
    UnpairAppend([open] + s[1..q], [close]);
    UnpairAppend([open], s[1..q]);
  }

  /** A copied character followed by text that reads back as the rest reads back as the input. */
  lemma UnpairCopyStep(s: string, out: string)
    requires s != [] && UnpairQuotes(out) == UnpairQuotes(s[1..])
    ensures UnpairQuotes([s[0]] + out) == UnpairQuotes(s)
  {
    assert s == [s[0]] + s[1..];
    UnpairAppend([s[0]], s[1..]);
    UnpairAppend([s[0]], out);
  }

  /** The double-quote pass only turns `"` into corner brackets. */
  lemma {:induction false} DoubleQuotesUnpair(s: string)
    ensures UnpairQuotes(PairDoubleQuotes(s)) == UnpairQuotes(s)
  {
    if s != [] {
      if s[0] == '"' && 1 + NextIndex(s[1..], '"') < |s| {
        var q := 1 + NextIndex(s[1..], '"');
        ClosingQuote(s, '"');
        DoubleQuotesUnpair(s[q + 1..]);
        UnpairSpanStep(s, q, '「', '」', PairDoubleQuotes(s[q + 1..]));
      } else {
        DoubleQuotesUnpair(s[1..]);
        UnpairCopyStep(s, PairDoubleQuotes(s[1..]));
      }
    }
  }

  /** The single-quote pass only turns `'` into corner brackets. */
  lemma {:induction false} SingleQuotesUnpair(s: string)
    ensures UnpairQuotes(PairSingleQuotes(s)) == UnpairQuotes(s)
  {
    if s != [] {
      if s[0] == '\'' && ClosesSingleQuote(s) {
        var q := 1 + NextIndex(s[1..], '\'');
        ClosingQuote(s, '\'');
        SingleQuotesUnpair(s[q + 1..]);
        UnpairSpanStep(s, q, '『', '』', PairSingleQuotes(s[q + 1..]));
      } else {
        SingleQuotesUnpair(s[1..]);
        UnpairCopyStep(s, PairSingleQuotes(s[1..]));
      }
    }
  }

  /** A quoted span whose closing `'` is followed by a non-Latin character, or by nothing,
      becomes 『…』. */
  lemma SingleQuotedSpan(body: string, rest: string)
    requires '\'' !in body
    requires rest == [] || !IsLatin(rest[0])
    ensures PairSingleQuotes("'" + body + "'" + rest) == "『" + body + "』" + PairSingleQuotes(rest)
  {
    var s := "'" + body + "'" + rest;
    var q := |body| + 1;
    assert s[1..] == body + "'" + rest;
    NextIndexAfter(body, '\'', rest);
    assert s[0] == '\'' && s[q] == '\'';
    assert rest != [] ==> s[q + 1] == rest[0];
    assert ClosesSingleQuote(s);
    assert s[1..q] == body;
    assert s[q + 1..] == rest;
  }

  /** A closing `'` followed by a Latin letter (an apostrophe, as in `don't`) is left alone. */
  lemma ApostropheKept(body: string, x: char, rest: string)
    requires '\'' !in body && IsLatin(x)
    ensures PairSingleQuotes("'" + body + "'" + [x] + rest) == "'" + PairSingleQuotes(body + "'" + [x] + rest)
  {
    var s := "'" + body + "'" + [x] + rest;
    var q := |body| + 1;
    assert s[1..] == body + "'" + ([x] + rest);
    NextIndexAfter(body, '\'', [x] + rest);
    assert s[0] == '\'' && s[q] == '\'' && s[q + 1] == x;
    assert !ClosesSingleQuote(s);
    assert s[1..] == body + "'" + [x] + rest;
  }
}
