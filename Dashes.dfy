/** `normalizeDash` of `src/utils/punctuation.js`: a double hyphen becomes a Chinese dash,
    except on horizontal rules and table separator rows and next to table pipes. */
module Dashes {
  import opened Text

  /** `/^[-*_]{3,}$/`: a horizontal-rule line (characters may be mixed). */
  predicate IsRuleLike(t: string) {
    |t| >= 3 && forall i :: 0 <= i < |t| ==> t[i] == '-' || t[i] == '*' || t[i] == '_'
  }

  /** Characters the regular-expression `.` does not match. */
  predicate IsLineTerminator(c: char) {
    c == '\n' || c == '\r' || c == '\U{2028}' || c == '\U{2029}'
  }

  /** `/^\|.*\|$/` */
  predicate IsPipeWrappedRow(t: string) {
    |t| >= 2 && t[0] == '|' && t[|t| - 1] == '|' &&
    forall i :: 0 < i < |t| - 1 ==> !IsLineTerminator(t[i])
  }

  /** `includes('---')` */
  predicate HasTripleDash(t: string) {
    StartsWith(t, "---") || (t != [] && HasTripleDash(t[1..]))
  }

  /** A line that `normalizeDash` returns untouched: a rule, or a table separator row. */
  predicate DashExempt(line: string) {
    var t := Trim(line);
    IsRuleLike(t) || (IsPipeWrappedRow(t) && HasTripleDash(t))
  }

  predicate IsDashOrSpace(c: char) { c == '-' || IsSpace(c) }

  /** Look-behind `(?<!\|[\s-]*)` fails at `p`: walking left over `[\s-]` reaches a `|`. */
  predicate PipeBefore(s: string, p: nat)
    requires p <= |s|
  {
    if p == 0 then false
    else if IsDashOrSpace(s[p - 1]) then PipeBefore(s, p - 1)
    else s[p - 1] == '|'
  }

  /** Look-ahead `(?![-\s]*\|)` fails at `p`: walking right over `[-\s]` reaches a `|`. */
  predicate PipeAfter(s: string, p: nat)
    requires p <= |s|
    decreases |s| - p
  {
    if p == |s| then false
    else if IsDashOrSpace(s[p]) then PipeAfter(s, p + 1)
    else s[p] == '|'
  }

  /** The pattern `(?<!\|[\s-]*)--(?![-\s]*\|)` matches at `j`. */
  predicate DashPairAt(s: string, j: int) {
    0 <= j && j + 1 < |s| && s[j] == '-' && s[j + 1] == '-' && !PipeBefore(s, j) && !PipeAfter(s, j + 2)
  }

  /** The global replacement of that pattern by `——`, scanning `s` from `p`. */
  function ReplaceDashPairs(s: string, p: nat): (r: string)
    requires p <= |s|
    decreases |s| - p
    ensures |r| == |s| - p
    ensures forall k :: 0 <= k < |r| ==>
      r[k] == s[p + k] || (s[p + k] == '-' && r[k] == '—' && (DashPairAt(s, p + k) || DashPairAt(s, p + k - 1)))
    ensures forall k :: 0 <= k < |r| && r[k] == '-' ==> !DashPairAt(s, p + k)
  {
    if p == |s| then []
    else if DashPairAt(s, p) then "——" + ReplaceDashPairs(s, p + 2)
    else [s[p]] + ReplaceDashPairs(s, p + 1)
  }

  /** The `—` written at `k` for a `-` is one half of the two written for a matched `--`. */
  predicate PairedAt(s: string, p: nat, r: string, k: nat)
    requires p + |r| <= |s| && k < |r|
  {
    s[p + k] == '-' && r[k] == '—' ==>
      (k + 1 < |r| && r[k + 1] == '—' && DashPairAt(s, p + k)) ||
      (1 <= k && r[k - 1] == '—' && DashPairAt(s, p + k - 1))
  }

  /** Every `—` written for a `-` is one half of the two written for a matched `--`. */
  predicate DashesPaired(s: string, p: nat, r: string)
    requires p + |r| <= |s|
  {
    forall k :: 0 <= k < |r| ==> PairedAt(s, p, r, k)
  }

  /** The replacement writes `——` for each matched `--` as a whole, never one half alone. */
  lemma {:induction false} ReplaceDashPairsPaired(s: string, p: nat)
    requires p <= |s|
    ensures DashesPaired(s, p, ReplaceDashPairs(s, p))
    decreases |s| - p
  {
    if p < |s| {
      if DashPairAt(s, p) {
        ReplaceDashPairsPaired(s, p + 2);
        PairedAfterPair(s, p, ReplaceDashPairs(s, p + 2));
        assert ReplaceDashPairs(s, p) == "——" + ReplaceDashPairs(s, p + 2);
      } else {
        ReplaceDashPairsPaired(s, p + 1);
        PairedAfterCopy(s, p, ReplaceDashPairs(s, p + 1));
        assert ReplaceDashPairs(s, p) == [s[p]] + ReplaceDashPairs(s, p + 1);
      }
    }
  }

  lemma PairedAfterPair(s: string, p: nat, t: string)
    requires DashPairAt(s, p) && p + 2 + |t| <= |s| && DashesPaired(s, p + 2, t)
    ensures DashesPaired(s, p, "——" + t)
  {
    var r := "——" + t;
    forall k | 0 <= k < |r|
      ensures PairedAt(s, p, r, k)
    {
      if k >= 2 {
        var j := k - 2;
        assert PairedAt(s, p + 2, t, j);
        assert r[k] == t[j] && (p + 2) + j == p + k;
        if j + 1 < |t| {
          assert r[k + 1] == t[j + 1];
        }
        if 1 <= j {
          assert r[k - 1] == t[j - 1];
        }
      }
    }
  }

  lemma PairedAfterCopy(s: string, p: nat, t: string)
    requires p + 1 + |t| <= |s| && DashesPaired(s, p + 1, t)
    ensures DashesPaired(s, p, [s[p]] + t)
  {
    var r := [s[p]] + t;
    forall k | 0 <= k < |r|
      ensures PairedAt(s, p, r, k)
    {
      if k >= 1 {
        var j := k - 1;
        assert PairedAt(s, p + 1, t, j);
        assert r[k] == t[j] && (p + 1) + j == p + k;
        if j + 1 < |t| {
          assert r[k + 1] == t[j + 1];
        }
        if 1 <= j {
          assert r[k - 1] == t[j - 1];
        }
      }
    }
  }

  /** The scan from `p` makes a match at `j`: the pattern matches at `j`, and `j` is not the
      second hyphen of a match made just before. So matches never overlap, and each is the
      leftmost the pattern allows once the previous one is passed, as a global `replace`
      resumes after each match. */
  predicate MatchStart(s: string, p: nat, j: nat)
    decreases j
  {
    p <= j && DashPairAt(s, j) && !(j > p && MatchStart(s, p, j - 1))
  }

  /** What the scan from `p` writes at `i`: `—` for both hyphens of every match it makes, and
      the input character everywhere else. */
  function DashOut(s: string, p: nat, i: nat): char
    requires i < |s|
  {
    if MatchStart(s, p, i) || (i > 0 && MatchStart(s, p, i - 1)) then '—' else s[i]
  }

  /** The output at `k` is what the scan from `p` writes at `p + k`. */
  predicate WritesAt(s: string, p: nat, r: string, k: nat)
    requires p + |r| <= |s| && k < |r|
  {
    r[k] == DashOut(s, p, p + k)
  }

  /** `r` is what the scan from `p` writes, position by position. */
  predicate WritesDashOut(s: string, p: nat, r: string)
    requires p + |r| <= |s|
  {
    forall k :: 0 <= k < |r| ==> WritesAt(s, p, r, k)
  }

  /** The replacement writes exactly `DashOut`: every match, taken leftmost first and
      without overlap, becomes `——`, and every other character is copied. */
  lemma {:induction false} ReplaceDashPairsMatches(s: string, p: nat)
    requires p <= |s|
    ensures WritesDashOut(s, p, ReplaceDashPairs(s, p))
    decreases |s| - p
  {
    if p < |s| {
      if DashPairAt(s, p) {
        ReplaceDashPairsMatches(s, p + 2);
        PairStep(s, p);
        WritesAfterPair(s, p, ReplaceDashPairs(s, p + 2));
      } else {
        ReplaceDashPairsMatches(s, p + 1);
        NoPairStep(s, p);
        WritesAfterCopy(s, p, ReplaceDashPairs(s, p + 1));
      }
    }
  }

  lemma WritesAfterPair(s: string, p: nat, t: string)
    requires DashPairAt(s, p) && p + 2 + |t| <= |s|
    requires WritesDashOut(s, p + 2, t)
    ensures WritesDashOut(s, p, "——" + t)
  {
    var r := "——" + t;
    assert MatchStart(s, p, p);
    forall k | 0 <= k < |r|
      ensures WritesAt(s, p, r, k)
    {
      if k >= 2 {
        var j := k - 2;
        assert WritesAt(s, p + 2, t, j);
        assert r[k] == t[j] && (p + 2) + j == p + k;
        MatchStartAfterPair(s, p, p + k);
        if k > 2 {
          MatchStartAfterPair(s, p, p + k - 1);
        } else {
          assert !MatchStart(s, p, p + 1);
        }
      }
    }
  }

  lemma WritesAfterCopy(s: string, p: nat, t: string)
    requires p < |s| && !DashPairAt(s, p) && p + 1 + |t| <= |s|
    requires WritesDashOut(s, p + 1, t)
    ensures WritesDashOut(s, p, [s[p]] + t)
  {
    var r := [s[p]] + t;
    assert !MatchStart(s, p, p);
    forall k | 0 <= k < |r|
      ensures WritesAt(s, p, r, k)
    {
      if k >= 1 {
        var j := k - 1;
        assert WritesAt(s, p + 1, t, j);
        assert r[k] == t[j] && (p + 1) + j == p + k;
        MatchStartAfterCopy(s, p, p + k);
        if k > 1 {
          MatchStartAfterCopy(s, p, p + k - 1);
        }
      }
    }
  }

  /** Past a position where nothing matches, the scan from `p` and the one from `p + 1` make
      the same matches. */
  lemma {:induction false} MatchStartAfterCopy(s: string, p: nat, j: nat)
    requires !DashPairAt(s, p) && p + 1 <= j
    ensures MatchStart(s, p, j) == MatchStart(s, p + 1, j)
    decreases j
  {
    assert !MatchStart(s, p, p);
    if j > p + 1 {
      MatchStartAfterCopy(s, p, j - 1);
    }
  }

  /** Past a match at `p`, the scan from `p` and the one from `p + 2` make the same matches. */
  lemma {:induction false} MatchStartAfterPair(s: string, p: nat, j: nat)
    requires DashPairAt(s, p) && p + 2 <= j
    ensures MatchStart(s, p, j) == MatchStart(s, p + 2, j)
    decreases j
  {
    assert MatchStart(s, p, p);
    assert !MatchStart(s, p, p + 1);
    if j > p + 2 {
      MatchStartAfterPair(s, p, j - 1);
    }
  }

  /** Hyphens are never matched, so a stretch without them is copied. */
  lemma {:induction false} CopiesNoDash(s: string, p: nat, q: nat)
    requires p <= q <= |s| && forall j :: p <= j < q ==> s[j] != '-'
    ensures ReplaceDashPairs(s, p) == s[p..q] + ReplaceDashPairs(s, q)
    decreases q - p
  {
    if p < q {
      CopiesNoDash(s, p + 1, q);
      CopyStep(s, p);
      SliceCons(s, p, q);
      ConsAssoc(s[p], s[p + 1..q], ReplaceDashPairs(s, q), ReplaceDashPairs(s, p), ReplaceDashPairs(s, p + 1));
    }
  }

  lemma SliceCons(s: string, p: nat, q: nat)
    requires p < q <= |s|
    ensures s[p..q] == [s[p]] + s[p + 1..q]
  {
  }

  lemma PairStep(s: string, p: nat)
    requires DashPairAt(s, p)
    ensures ReplaceDashPairs(s, p) == "——" + ReplaceDashPairs(s, p + 2)
  {
  }

  lemma NoPairStep(s: string, p: nat)
    requires p < |s| && !DashPairAt(s, p)
    ensures ReplaceDashPairs(s, p) == [s[p]] + ReplaceDashPairs(s, p + 1)
  {
  }

  lemma DashAssoc(x: string, y: string, z: string)
    ensures x + (y + z) == (x + y) + z
  {
  }

  lemma ConsAssoc(x: char, y: string, z: string, a: string, b: string)
    requires a == [x] + b && b == y + z
    ensures a == ([x] + y) + z
  {
  }

  lemma CopyStep(s: string, p: nat)
    requires p < |s| && s[p] != '-'
    ensures ReplaceDashPairs(s, p) == [s[p]] + ReplaceDashPairs(s, p + 1)
  {
  }

  /** No `|` to the left: the look-behind succeeds. */
  lemma {:induction false} NoPipeBefore(s: string, p: nat)
    requires p <= |s| && forall j :: 0 <= j < p ==> s[j] != '|'
    ensures !PipeBefore(s, p)
  {
    if p > 0 {
      NoPipeBefore(s, p - 1);
    }
  }

  /** No `|` to the right: the look-ahead succeeds. */
  lemma {:induction false} NoPipeAfter(s: string, p: nat)
    requires p <= |s| && forall j :: p <= j < |s| ==> s[j] != '|'
    ensures !PipeAfter(s, p)
    decreases |s| - p
  {
    if p < |s| {
      NoPipeAfter(s, p + 1);
    }
  }

  /** On pipe-free text, `--` between hyphen-free stretches becomes `——`. */
  lemma DoubleDashReplaced(a: string, b: string)
    requires '-' !in a && '|' !in a && '-' !in b && '|' !in b
    ensures ReplaceDashPairs(a + "--" + b, 0) == a + "——" + b
  {
    var s := a + "--" + b;
    var n := |a|;
    assert s[..n] == a && s[n..n + 2] == "--" && s[n + 2..] == b;
    assert ReplaceDashPairs(s, 0) == a + ReplaceDashPairs(s, n) by {
      CopiesNoDash(s, 0, n);
    }
    assert DashPairAt(s, n) by {
      NoPipeBefore(s, n);
      NoPipeAfter(s, n + 2);
    }
    PairStep(s, n);
    assert ReplaceDashPairs(s, n + 2) == b by {
      CopiesNoDash(s, n + 2, |s|);
      assert s[n + 2..|s|] == b;
    }
  }

  /** A run of three hyphens: the leftmost pair is replaced and the third is kept. */
  lemma TripleDashReplaced(a: string, b: string)
    requires '-' !in a && '|' !in a && '-' !in b && '|' !in b
    ensures ReplaceDashPairs(a + "---" + b, 0) == a + "——-" + b
  {
    var s := a + "---" + b;
    var n := |a|;
    assert s[..n] == a && s[n..n + 3] == "---" && s[n + 3..] == b;
    assert ReplaceDashPairs(s, 0) == a + ReplaceDashPairs(s, n) by {
      CopiesNoDash(s, 0, n);
    }
    assert DashPairAt(s, n) by {
      NoPipeBefore(s, n);
      NoPipeAfter(s, n + 2);
    }
    PairStep(s, n);
    assert !DashPairAt(s, n + 2) by {
      assert n + 3 == |s| || s[n + 3] == b[0];
    }
    NoPairStep(s, n + 2);
    assert ReplaceDashPairs(s, n + 3) == b by {
      CopiesNoDash(s, n + 3, |s|);
      assert s[n + 3..|s|] == b;
    }
    assert a + ("——" + ("-" + b)) == a + "——-" + b;
  }

  /** What a run of `n` hyphens becomes: `——` for each pair from the left, then the
      hyphen left over when `n` is odd. */
  function DashRun(n: nat): (r: string)
    ensures |r| == n
  {
    Repeat('—', n / 2 * 2) + Repeat('-', n % 2)
  }

  lemma DashRunStep(m: nat)
    requires m >= 2
    ensures DashRun(m) == "——" + DashRun(m - 2)
  {
    var x := DashRun(m);
    var y := "——" + DashRun(m - 2);
    assert (m - 2) / 2 * 2 + 2 == m / 2 * 2 && (m - 2) % 2 == m % 2;
    forall i | 0 <= i < m
      ensures x[i] == y[i]
    {
      if i >= 2 {
        assert y[i] == DashRun(m - 2)[i - 2];
      }
    }
  }

  /** Over a run of `m` hyphens where the pattern matches at every hyphen but the last, the scan over the run writes `DashRun(m)`. */
  lemma {:induction false} ReplaceRun(s: string, q: nat, m: nat)
    requires q + m <= |s| && forall j :: q <= j < q + m ==> s[j] == '-'
    requires forall j :: q <= j < q + m - 1 ==> DashPairAt(s, j)
    requires m >= 1 ==> !DashPairAt(s, q + m - 1)
    ensures ReplaceDashPairs(s, q) == DashRun(m) + ReplaceDashPairs(s, q + m)
    decreases m, 1
  {
    if m >= 2 {
      ReplaceRunPair(s, q, m);
    } else if m == 1 {
      NoPairStep(s, q);
      assert DashRun(1) == "-";
    } else {
      assert DashRun(0) == [];
    }
  }

  lemma ReplaceRunPair(s: string, q: nat, m: nat)
    requires 2 <= m && q + m <= |s| && forall j :: q <= j < q + m ==> s[j] == '-'
    requires forall j :: q <= j < q + m - 1 ==> DashPairAt(s, j)
    requires !DashPairAt(s, q + m - 1)
    ensures ReplaceDashPairs(s, q) == DashRun(m) + ReplaceDashPairs(s, q + m)
    decreases m, 0
  {
    var rest := ReplaceDashPairs(s, q + m);
    assert ReplaceDashPairs(s, q + 2) == DashRun(m - 2) + rest by {
      ReplaceRun(s, q + 2, m - 2);
    }
    assert ReplaceDashPairs(s, q) == "——" + ReplaceDashPairs(s, q + 2) by {
      assert DashPairAt(s, q);
      PairStep(s, q);
    }
    DashRunStep(m);
    DashAssoc("——", DashRun(m - 2), rest);
  }

  /** Between pipe-free stretches, with no hyphen right after it, the pattern matches at
      every hyphen of a run but the last. */
  lemma RunMatches(a: string, n: nat, b: string)
    requires '|' !in a && '|' !in b && (b == [] || b[0] != '-')
    ensures var s := a + Repeat('-', n) + b;
            (forall j :: |a| <= j < |a| + n - 1 ==> DashPairAt(s, j)) &&
            (n >= 1 ==> !DashPairAt(s, |a| + n - 1))
  {
    var s := a + Repeat('-', n) + b;
    forall j | 0 <= j < |s|
      ensures s[j] != '|'
      ensures |a| <= j < |a| + n ==> s[j] == '-'
    {
      if j < |a| {
        assert s[j] == a[j];
      } else if j < |a| + n {
        assert s[j] == Repeat('-', n)[j - |a|];
      } else {
        assert s[j] == b[j - |a| - n];
      }
    }
    forall j | |a| <= j < |a| + n - 1
      ensures DashPairAt(s, j)
    {
      NoPipeBefore(s, j);
      NoPipeAfter(s, j + 2);
    }
    assert |a| + n == |s| || s[|a| + n] == b[0];
  }

  /** On pipe-free text, a run of `n` hyphens between hyphen-free stretches becomes `——` for
      each pair from the left, with the odd hyphen left over kept at the end of the run. */
  lemma DashRunReplaced(a: string, b: string, n: nat)
    requires '-' !in a && '|' !in a && '-' !in b && '|' !in b
    ensures ReplaceDashPairs(a + Repeat('-', n) + b, 0) == a + DashRun(n) + b
  {
    CopiedBeforeRun(a, n, b);
    ReplacedRun(a, n, b);
    CopiedSuffix(a + Repeat('-', n), b);
    DashAssoc(a, DashRun(n), b);
  }

  lemma CopiedBeforeRun(a: string, n: nat, b: string)
    requires '-' !in a
    ensures var s := a + Repeat('-', n) + b;
            ReplaceDashPairs(s, 0) == a + ReplaceDashPairs(s, |a|)
  {
    var s := a + Repeat('-', n) + b;
    forall j | 0 <= j < |a| ensures s[j] != '-' {
      assert s[j] == a[j];
    }
    CopiesNoDash(s, 0, |a|);
    assert s[0..|a|] == a;
  }

  lemma ReplacedRun(a: string, n: nat, b: string)
    requires '|' !in a && '|' !in b && '-' !in b
    ensures var s := a + Repeat('-', n) + b;
            ReplaceDashPairs(s, |a|) == DashRun(n) + ReplaceDashPairs(s, |a| + n)
  {
    var s := a + Repeat('-', n) + b;
    assert b == [] || b[0] in b;
    RunMatches(a, n, b);
    forall j | |a| <= j < |a| + n ensures s[j] == '-' {
      assert s[j] == Repeat('-', n)[j - |a|];
    }
    ReplaceRun(s, |a|, n);
  }

  /** A hyphen-free tail is copied unchanged. */
  lemma CopiedSuffix(x: string, b: string)
    requires '-' !in b
    ensures ReplaceDashPairs(x + b, |x|) == b
  {
    var s := x + b;
    forall j | |x| <= j < |s| ensures s[j] != '-' {
      assert s[j] == b[j - |x|];
    }
    CopiesNoDash(s, |x|, |s|);
    assert s[|x|..|s|] == b;
  }

  /** One line of `normalizeDash`. */
  function DashLine(line: string): (r: string)
    ensures DashExempt(line) ==> r == line
    ensures |r| == |line|
    ensures forall i :: 0 <= i < |line| ==> r[i] == line[i] || (line[i] == '-' && r[i] == '—')
    ensures !DashExempt(line) ==> DashesPaired(line, 0, r)
    ensures !DashExempt(line) ==> WritesDashOut(line, 0, r)
    ensures !DashExempt(line) ==> forall i :: 0 <= i < |r| && r[i] == '-' ==> !DashPairAt(line, i)
  {
    if DashExempt(line) then line
    else
      ReplaceDashPairsPaired(line, 0);
      ReplaceDashPairsMatches(line, 0);
      ReplaceDashPairs(line, 0)
  }

  /** A line that is neither a rule nor a separator row has its `--` replaced by `——`. */
  lemma DashLineReplaces(a: string, b: string)
    requires '-' !in a && '|' !in a && '-' !in b && '|' !in b
    requires !DashExempt(a + "--" + b)
    ensures DashLine(a + "--" + b) == a + "——" + b
  {
    DoubleDashReplaced(a, b);
  }

  /** `normalizeDash`: split on `\n`, rewrite each line, join with `\n`. */
  function NormalizeDash(text: string): string {
    var lines := Split(text, '\n');
    Join(seq(|lines|, i requires 0 <= i < |lines| => DashLine(lines[i])), '\n')
  }

  /** `normalizeDash` keeps the lines: splitting its result gives each input line rewritten,
      so in particular the number of lines is preserved. */
  lemma DashKeepsLines(text: string)
    ensures var lines := Split(text, '\n');
            var out := Split(NormalizeDash(text), '\n');
            |out| == |lines| && forall i :: 0 <= i < |lines| ==> out[i] == DashLine(lines[i])
  {
    var lines := Split(text, '\n');
    var mapped := seq(|lines|, i requires 0 <= i < |lines| => DashLine(lines[i]));
    forall i | 0 <= i < |mapped| ensures '\n' !in mapped[i] {
      forall j | 0 <= j < |mapped[i]| ensures mapped[i][j] != '\n' {
        assert lines[i][j] != '\n';
      }
    }
    SplitJoin(mapped, '\n');
  }
}
