/** The four patterns of `formatInline` in `src/utils/formatter.js`, each with a declarative
    description (what a match is) and a scanner (`MatchLen`, the length of the match at the
    start of a string) proved to agree with it. */
module Patterns {
  import opened Text

  // The four replacements, in the order `formatInline` applies them: a code span between
  // backticks, bold text between double asterisks, italic text between single asterisks,
  // and a percentage `\d+\.?\d*%`.
  datatype Pass = CodeSpan | Bold | Italic | Percent

  /** The delimiter written before and after the captured text (none for percentages,
      whose whole match is captured). */
  function Delim(p: Pass): string {
    match p
    case CodeSpan => "`"
    case Bold => "**"
    case Italic => "*"
    case Percent => ""
  }

  /** The character a match of each pattern needs. */
  function Trigger(p: Pass): char {
    match p
    case CodeSpan => '`'
    case Bold => '*'
    case Italic => '*'
    case Percent => '%'
  }

  predicate AllDigits(s: string) {
    forall i :: 0 <= i < |s| ==> IsDigit(s[i])
  }

  /** `\d+\.?\d*%` */
  ghost predicate IsPercent(w: string) {
    |w| >= 2 && w[|w| - 1] == '%' &&
    exists k :: 1 <= k <= |w| - 1 && AllDigits(w[..k]) &&
      (k == |w| - 1 || (w[k] == '.' && AllDigits(w[k + 1..|w| - 1])))
  }

  /** What the capture group accepts. */
  ghost predicate Body(p: Pass, b: string) {
    match p
    case CodeSpan => b != [] && '`' !in b
    case Bold => b != [] && '*' !in b
    case Italic => b != [] && '*' !in b
    case Percent => IsPercent(b)
  }

  /** `w` is a whole match of the pattern: delimiter, accepted body, delimiter. */
  ghost predicate Matches(p: Pass, w: string) {
    var d := Delim(p);
    |w| >= 2 * |d| && w[..|d|] == d && w[|w| - |d|..] == d && Body(p, w[|d|..|w| - |d|])
  }

  /** Some prefix of `s` is a match: the pattern matches at the start of `s`. */
  ghost predicate MatchesHere(p: Pass, s: string) {
    exists m :: 0 < m <= |s| && Matches(p, s[..m])
  }

  /** Length of the match at the start of `s`, or 0 when the pattern does not match there. */
  function MatchLen(p: Pass, s: string): (n: nat)
    ensures n <= |s|
    ensures n == 0 || n > 2 * |Delim(p)|
  {
    match p
    case CodeSpan =>
      if s != [] && s[0] == '`' then
        var j := 1 + NextIndex(s[1..], '`');
        if 1 < j < |s| then j + 1 else 0
      else 0
    case Bold =>
      if |s| >= 2 && s[0] == '*' && s[1] == '*' then
        var j := 2 + NextIndex(s[2..], '*');
        if 2 < j && j + 1 < |s| && s[j + 1] == '*' then j + 2 else 0
      else 0
    case Italic =>
      if s != [] && s[0] == '*' then
        var j := 1 + NextIndex(s[1..], '*');
        if 1 < j < |s| then j + 1 else 0
      else 0
    case Percent =>
      if s != [] && IsDigit(s[0]) then
        var r := PercentRest(s[1..], false);
        if r == 0 then 0 else r + 1
      else 0
  }

  /** The percentage pattern after its first digit: more digits, at most one `.` (`frac`
      records that it has been read), more digits, then `%`. The length up to and including
      the `%`, or 0 when the pattern fails. */
  function PercentRest(s: string, frac: bool): (r: nat)
    ensures r <= |s|
    decreases |s|
  {
    if s == [] then 0
    else if IsDigit(s[0]) then
      var r := PercentRest(s[1..], frac);
      if r == 0 then 0 else r + 1
    else if s[0] == '.' && !frac then
      var r := PercentRest(s[1..], true);
      if r == 0 then 0 else r + 1
    else if s[0] == '%' then 1
    else 0
  }

  /** `MatchLen` is a matcher for the pattern: the prefixes of `s` that match are exactly the
      one of length `MatchLen(p, s)` (none when it is 0). Each pattern has at most one match
      at a given position, so the regular-expression engine's choice is forced. */
  lemma MatchLenSpec(p: Pass, s: string)
    ensures forall m :: 0 < m <= |s| ==> (Matches(p, s[..m]) <==> m == MatchLen(p, s))
  {
    var n := MatchLen(p, s);
    forall m | 0 < m <= |s| && Matches(p, s[..m])
      ensures m == n
    {
      match p
      case CodeSpan => CodeMatchUnique(s, m);
      case Bold => BoldMatchUnique(s, m);
      case Italic => ItalicMatchUnique(s, m);
      case Percent => PercentMatchUnique(s, m);
    }
    if n > 0 {
      match p
      case CodeSpan => DelimitedMatchFound(CodeSpan, s);
      case Bold => DelimitedMatchFound(Bold, s);
      case Italic => DelimitedMatchFound(Italic, s);
      case Percent => PercentMatchFound(s);
    }
  }

  /** A match the scanner reports is a match. */
  lemma MatchFound(p: Pass, s: string)
    requires MatchLen(p, s) > 0
    ensures Matches(p, s[..MatchLen(p, s)])
  {
    if p == Percent {
      PercentMatchFound(s);
    } else {
      DelimitedMatchFound(p, s);
    }
  }

  /** The captured text of a reported match is accepted by the capture group. */
  lemma MatchBody(p: Pass, s: string)
    requires MatchLen(p, s) > 0
    ensures Body(p, s[|Delim(p)|..MatchLen(p, s) - |Delim(p)|])
  {
    var n := MatchLen(p, s);
    MatchFound(p, s);
    SliceOfPrefix(s, n, |Delim(p)|, n - |Delim(p)|);
  }

  /** The scan for the closing delimiter: from `k`, the first `c`, if any. */
  lemma NextAfter(s: string, k: nat, c: char)
    requires k <= |s|
    ensures var j := k + NextIndex(s[k..], c);
            c !in s[k..j] && (j < |s| ==> s[j] == c)
  {
    var j := k + NextIndex(s[k..], c);
    NextIndexSpec(s[k..], c);
    assert s[k..][..j - k] == s[k..j];
    if j < |s| {
      assert s[k..][j - k] == s[j];
    }
  }

  /** A reported match starts and ends with the pattern's delimiter. */
  lemma MatchDelims(p: Pass, s: string)
    requires MatchLen(p, s) > 0
    ensures var n := MatchLen(p, s);
            s[..n] == Delim(p) + s[|Delim(p)|..n - |Delim(p)|] + Delim(p)
  {
    var n := MatchLen(p, s);
    var d := Delim(p);
    if p != Percent {
      NextAfter(s, |d|, Trigger(p));
    }
    match p
    case CodeSpan =>
      assert s[..n] == [s[0]] + s[1..n - 1] + [s[n - 1]];
    case Bold =>
      assert s[..n] == [s[0], s[1]] + s[2..n - 2] + [s[n - 2], s[n - 1]];
    case Italic =>
      assert s[..n] == [s[0]] + s[1..n - 1] + [s[n - 1]];
    case Percent =>
      assert s[..n] == "" + s[0..n - 0] + "";
  }

  /** The scanner reports a match exactly where the pattern matches. */
  lemma MatchesHereIff(p: Pass, s: string)
    ensures MatchesHere(p, s) <==> MatchLen(p, s) > 0
  {
    var n := MatchLen(p, s);
    if n > 0 {
      MatchFound(p, s);
    }
    if MatchesHere(p, s) {
      var m :| 0 < m <= |s| && Matches(p, s[..m]);
      MatchLenSpec(p, s);
    }
  }

  /** A match the scanner reports for a delimited pattern is a match. */
  lemma DelimitedMatchFound(p: Pass, s: string)
    requires p != Percent && MatchLen(p, s) > 0
    ensures Matches(p, s[..MatchLen(p, s)])
  {
    var n := MatchLen(p, s);
    var d := Delim(p);
    NextAfter(s, |d|, Trigger(p));
    MatchDelims(p, s);
    var w := s[..n];
    var b := s[|d|..n - |d|];
    assert w == d + b + d;
    assert w[..|d|] == d;
    assert w[|w| - |d|..] == d;
    assert w[|d|..|w| - |d|] == b;
  }

  lemma CodeMatchUnique(s: string, m: nat)
    requires 0 < m <= |s| && Matches(CodeSpan, s[..m])
    ensures m == MatchLen(CodeSpan, s)
  {
    var b := s[1..m - 1];
    assert s[..m][1..m - 1] == b;
    assert s[0] == s[..m][..1][0];
    assert s[m - 1] == '`' by {
      assert s[..m][m - 1..] == "`";
      assert s[..m][m - 1..][0] == s[m - 1];
    }
    assert s[1..] == b + "`" + s[m..];
    NextIndexAfter(b, '`', s[m..]);
  }

  lemma BoldMatchUnique(s: string, m: nat)
    requires 0 < m <= |s| && Matches(Bold, s[..m])
    ensures m == MatchLen(Bold, s)
  {
    var b := s[2..m - 2];
    assert s[..m][2..m - 2] == b;
    assert s[0] == s[..m][..2][0] && s[1] == s[..m][..2][1];
    assert s[m - 2] == '*' && s[m - 1] == '*' by {
      assert s[..m][m - 2..] == "**";
      assert s[..m][m - 2..][0] == s[m - 2];
      assert s[..m][m - 2..][1] == s[m - 1];
    }
    assert s[2..] == b + "*" + s[m - 1..];
    NextIndexAfter(b, '*', s[m - 1..]);
  }

  lemma ItalicMatchUnique(s: string, m: nat)
    requires 0 < m <= |s| && Matches(Italic, s[..m])
    ensures m == MatchLen(Italic, s)
  {
    var b := s[1..m - 1];
    assert s[..m][1..m - 1] == b;
    assert s[0] == s[..m][..1][0];
    assert s[m - 1] == '*' by {
      assert s[..m][m - 1..] == "*";
      assert s[..m][m - 1..][0] == s[m - 1];
    }
    assert s[1..] == b + "*" + s[m..];
    NextIndexAfter(b, '*', s[m..]);
  }

  /** Digits and then `%` are read to the end by the scanner. */
  lemma {:induction false} DigitsPercent(s: string, j: nat, frac: bool)
    requires j < |s| && AllDigits(s[..j]) && s[j] == '%'
    ensures PercentRest(s, frac) == j + 1
  {
    if j > 0 {
      assert IsDigit(s[..j][0]);
      assert s[1..][..j - 1] == s[..j][1..];
      DigitsPercent(s[1..], j - 1, frac);
    }
  }

  /** Digits, `.`, digits and then `%` are read to the end by the scanner. */
  lemma {:induction false} DigitsDotDigitsPercent(s: string, k: nat, m: nat)
    requires k + 1 < m <= |s| && AllDigits(s[..k]) && s[k] == '.' && AllDigits(s[k + 1..m - 1]) &&
             s[m - 1] == '%'
    ensures PercentRest(s, false) == m
  {
    if k == 0 {
      assert s[1..][..m - 2] == s[1..m - 1];
      DigitsPercent(s[1..], m - 2, true);
    } else {
      assert IsDigit(s[..k][0]);
      assert s[1..][..k - 1] == s[..k][1..];
      assert s[1..][k..m - 2] == s[k + 1..m - 1];
      DigitsDotDigitsPercent(s[1..], k - 1, m - 1);
    }
  }

  /** What the scanner read when it returns `r`: digits up to the first non-digit, then either
      the closing `%` or (when `frac` is unset) a `.`, more digits and the closing `%`. */
  ghost predicate ScannedPercent(s: string, frac: bool, r: nat) {
    var k := DigitRun(s);
    k < r <= |s| && s[r - 1] == '%' &&
    (k == r - 1 || (!frac && s[k] == '.' && AllDigits(s[k + 1..r - 1])))
  }

  lemma {:induction false} PercentRestShape(s: string, frac: bool)
    requires PercentRest(s, frac) > 0
    ensures ScannedPercent(s, frac, PercentRest(s, frac))
    decreases |s|
  {
    if IsDigit(s[0]) {
      PercentRestShape(s[1..], frac);
      ScannedAfterDigit(s, frac, PercentRest(s[1..], frac));
    } else if s[0] == '.' && !frac {
      PercentRestShape(s[1..], true);
      ScannedAfterDot(s, PercentRest(s[1..], true));
    }
  }

  lemma ScannedAfterDigit(s: string, frac: bool, r': nat)
    requires s != [] && IsDigit(s[0]) && ScannedPercent(s[1..], frac, r')
    ensures ScannedPercent(s, frac, r' + 1)
  {
    var t := s[1..];
    var k' := DigitRun(t);
    assert DigitRun(s) == k' + 1;
    assert s[r'] == t[r' - 1];
    if k' < r' - 1 {
      assert s[k' + 1] == t[k'];
      SliceOfTail(s, k' + 1, r' - 1);
    }
  }

  lemma ScannedAfterDot(s: string, r': nat)
    requires s != [] && s[0] == '.' && ScannedPercent(s[1..], true, r')
    ensures ScannedPercent(s, false, r' + 1)
  {
    var t := s[1..];
    assert DigitRun(s) == 0;
    assert s[r'] == t[r' - 1];
    assert s[1..r'] == t[..DigitRun(t)];
  }

  lemma PercentMatchUnique(s: string, m: nat)
    requires 0 < m <= |s| && Matches(Percent, s[..m])
    ensures m == MatchLen(Percent, s)
  {
    var w := s[..m];
    assert w[0..|w| - 0] == w;
    var k :| 1 <= k <= |w| - 1 && AllDigits(w[..k]) &&
             (k == |w| - 1 || (w[k] == '.' && AllDigits(w[k + 1..|w| - 1])));
    assert w[..k] == s[..k];
    assert w[|w| - 1] == s[m - 1];
    if k < m - 1 {
      assert w[k] == s[k];
      assert w[k + 1..|w| - 1] == s[k + 1..m - 1];
    }
    PercentScan(s, m, k);
  }

  /** The scanner reads a percentage `s[..m]` (digits up to `k`, then either `%` or `.`,
      digits and `%`) to its end. */
  lemma PercentScan(s: string, m: nat, k: nat)
    requires 1 <= k <= m - 1 && m <= |s| && s[m - 1] == '%' && AllDigits(s[..k])
    requires k == m - 1 || (s[k] == '.' && AllDigits(s[k + 1..m - 1]))
    ensures MatchLen(Percent, s) == m
  {
    var t := s[1..];
    assert IsDigit(s[..k][0]);
    assert t[..k - 1] == s[..k][1..];
    assert AllDigits(t[..k - 1]) by {
      var tk, sk := t[..k - 1], s[..k];
      forall i | 0 <= i < |tk|
        ensures IsDigit(tk[i])
      {
        assert tk[i] == sk[i + 1];
      }
    }
    if k == m - 1 {
      DigitsPercent(t, k - 1, false);
    } else {
      assert t[k..m - 2] == s[k + 1..m - 1];
      DigitsDotDigitsPercent(t, k - 1, m - 1);
    }
  }

  lemma PercentMatchFound(s: string)
    requires MatchLen(Percent, s) > 0
    ensures Matches(Percent, s[..MatchLen(Percent, s)])
  {
    var n := MatchLen(Percent, s);
    var t := s[1..];
    var r := PercentRest(t, false);
    var k := DigitRun(t);
    PercentRestShape(t, false);
    var w := s[..n];
    assert w[n - 1] == t[r - 1];
    var digits := w[..k + 1];
    var tail := t[..k];
    forall i | 0 <= i < |digits|
      ensures IsDigit(digits[i])
    {
      if i > 0 {
        assert digits[i] == tail[i - 1];
      }
    }
    if k < r - 1 {
      assert w[k + 1] == t[k];
      SliceOfPrefix(s, n, k + 2, n - 1);
      SliceOfTail(s, k + 1, r - 1);
      assert w[k + 2..n - 1] == t[k + 1..r - 1];
    }
    PercentWitness(w, k + 1);
    assert w[0..|w| - 0] == w;
  }

  lemma PercentWitness(w: string, k: nat)
    requires |w| >= 2 && w[|w| - 1] == '%' && 1 <= k <= |w| - 1 && AllDigits(w[..k])
    requires k == |w| - 1 || (w[k] == '.' && AllDigits(w[k + 1..|w| - 1]))
    ensures IsPercent(w)
  {
  }

  /** A percentage holds no backtick and no asterisk, so the earlier passes find nothing in it. */
  lemma PercentHasNoDelims(w: string)
    requires IsPercent(w)
    ensures '`' !in w && '*' !in w
  {
    var k :| 1 <= k <= |w| - 1 && AllDigits(w[..k]) &&
             (k == |w| - 1 || (w[k] == '.' && AllDigits(w[k + 1..|w| - 1])));
    forall i | 0 <= i < |w|
      ensures w[i] != '`' && w[i] != '*'
    {
      if i < k {
        assert w[..k][i] == w[i];
      } else if k < i < |w| - 1 {
        assert w[k + 1..|w| - 1][i - k - 1] == w[i];
      }
    }
  }

  /** The percentage scanner fails on text without a `%`. */
  lemma {:induction false} NoSignNoPercent(t: string, frac: bool)
    requires '%' !in t
    ensures PercentRest(t, frac) == 0
    decreases |t|
  {
    if t != [] {
      assert '%' !in t[1..];
      NoSignNoPercent(t[1..], true);
      NoSignNoPercent(t[1..], frac);
    }
  }

  /** No match can start in text without the pattern's trigger character. */
  lemma NoTriggerNoMatch(p: Pass, s: string)
    requires s != [] && Trigger(p) !in s
    ensures MatchLen(p, s) == 0
  {
    if p == Percent {
      assert '%' !in s[1..];
      NoSignNoPercent(s[1..], false);
    }
  }

  /** The italic pattern matches a whole asterisk-delimited run of text without asterisks. */
  lemma ItalicRunMatches(b: string, d: string)
    requires b != [] && '*' !in b
    ensures MatchLen(Italic, "*" + b + "*" + d) == |b| + 2
  {
    var m := "*" + b + "*" + d;
    assert m[1..] == b + "*" + d;
    NextIndexAfter(b, '*', d);
  }
}
