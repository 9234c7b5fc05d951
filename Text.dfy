/** Character classes and the few string primitives the formatter's JavaScript
    relies on (`trim`, `split`, `join`, `indexOf`), written over `seq<char>`. */
module Text {

  /** ECMAScript white space and line terminators: the set removed by `String.prototype.trim`
      and matched by the regular-expression class `\s`. */
  predicate IsSpace(c: char) {
    c == '\t' || c == '\n' || c == '\U{000B}' || c == '\U{000C}' || c == '\r' || c == ' ' ||
    c == '\U{00A0}' || c == '\U{1680}' || ('\U{2000}' <= c <= '\U{200A}') ||
    c == '\U{2028}' || c == '\U{2029}' || c == '\U{202F}' || c == '\U{205F}' ||
    c == '\U{3000}' || c == '\U{FEFF}'
  }

  /** `\d` */
  predicate IsDigit(c: char) { '0' <= c <= '9' }

  /** `[a-zA-Z]` */
  predicate IsLatin(c: char) { ('a' <= c <= 'z') || ('A' <= c <= 'Z') }

  /** `[a-zA-Z0-9]` */
  predicate IsAlnum(c: char) { IsLatin(c) || IsDigit(c) }

  /** `[\u4e00-\u9fa5]`: the CJK unified ideographs the spacing pass recognises. */
  predicate IsCjk(c: char) { '\U{4E00}' <= c <= '\U{9FA5}' }

  predicate StartsWith(s: string, prefix: string) {
    |prefix| <= |s| && s[..|prefix|] == prefix
  }

  function Count(s: string, c: char): (n: nat)
    ensures n <= |s|
  {
    if s == [] then 0 else (if s[0] == c then 1 else 0) + Count(s[1..], c)
  }

  /** A character is absent exactly when it is counted zero times. */
  lemma {:induction false} CountZero(s: string, c: char)
    ensures Count(s, c) == 0 <==> c !in s
  {
    if s != [] {
      CountZero(s[1..], c);
      assert s == [s[0]] + s[1..];
    }
  }

  lemma {:induction false} CountAppend(a: string, b: string, c: char)
    ensures Count(a + b, c) == Count(a, c) + Count(b, c)
  {
    if a != [] {
      assert (a + b)[1..] == a[1..] + b;
      CountAppend(a[1..], b, c);
    } else {
      assert a + b == b;
    }
  }

  /** Number of leading decimal digits. */
  function DigitRun(t: string): (n: nat)
    ensures n <= |t|
    ensures forall j :: 0 <= j < n ==> IsDigit(t[j])
    ensures n < |t| ==> !IsDigit(t[n])
  {
    if t != [] && IsDigit(t[0]) then 1 + DigitRun(t[1..]) else 0
  }

  /** Index of the first `c` in `s`, or `|s|` when there is none (`indexOf`). */
  function NextIndex(s: string, c: char): (r: nat)
    ensures r <= |s|
  {
    if s == [] then 0 else if s[0] == c then 0 else 1 + NextIndex(s[1..], c)
  }

  /** `NextIndex` finds the first `c`: there is none before it, and it is one unless it is
      the end of `s`. */
  lemma {:induction false} NextIndexSpec(s: string, c: char)
    ensures var r := NextIndex(s, c);
            c !in s[..r] && (r < |s| ==> s[r] == c)
  {
    if s != [] && s[0] != c {
      NextIndexSpec(s[1..], c);
      assert s[..NextIndex(s, c)] == [s[0]] + s[1..][..NextIndex(s[1..], c)];
    }
  }

  /** The first `c` after a `c`-free stretch is the one that ends it. */
  lemma {:induction false} NextIndexAfter(x: string, c: char, y: string)
    requires c !in x
    ensures NextIndex(x + [c] + y, c) == |x|
  {
    if x != [] {
      assert (x + [c] + y)[1..] == x[1..] + [c] + y;
      NextIndexAfter(x[1..], c, y);
    }
  }

  /** A slice of a prefix is the same slice of the whole. */
  lemma SliceOfPrefix<T>(s: seq<T>, n: nat, a: nat, b: nat)
    requires a <= b <= n <= |s|
    ensures s[..n][a..b] == s[a..b]
  {
    assert forall i :: 0 <= i < b - a ==> s[..n][a..b][i] == s[a + i];
  }

  /** A slice of the tail is the slice of the whole shifted by one. */
  lemma PrefixThroughSlice<T>(s: seq<T>, m: nat, i: nat)
    requires m <= i <= |s|
    ensures s[..i] == s[..m] + s[m..][..i - m]
  {
  }

  lemma SuffixOfSlice<T>(s: seq<T>, m: nat, i: nat)
    requires m <= i <= |s|
    ensures s[i..] == s[m..][i - m..]
  {
  }

  lemma SliceOfTail<T>(s: seq<T>, a: nat, b: nat)
    requires s != [] && a <= b <= |s| - 1
    ensures s[1..][a..b] == s[a + 1..b + 1]
  {
    assert forall i :: 0 <= i < b - a ==> s[1..][a..b][i] == s[a + 1 + i];
  }

  /** Drops leading white space. */
  function TrimStart(s: string): string {
    if s != [] && IsSpace(s[0]) then TrimStart(s[1..]) else s
  }

  /** Drops trailing white space. */
  function TrimEnd(s: string): string {
    if s != [] && IsSpace(s[|s| - 1]) then TrimEnd(s[..|s| - 1]) else s
  }

  /** `String.prototype.trim` */
  function Trim(s: string): string {
    TrimEnd(TrimStart(s))
  }

  /** `TrimStart` removes exactly the leading white space. (Stated as a lemma rather than as
      the function's contract so that the formatter's proofs do not carry it everywhere.) */
  lemma {:induction false} TrimStartSpec(s: string)
    ensures var r := TrimStart(s);
            |r| <= |s| && r == s[|s| - |r|..] &&
            (forall i :: 0 <= i < |s| - |r| ==> IsSpace(s[i])) &&
            (r == [] || !IsSpace(r[0]))
  {
    if s != [] && IsSpace(s[0]) {
      var t := s[1..];
      TrimStartSpec(t);
      var r := TrimStart(t);
      assert TrimStart(s) == r;
      assert t[|t| - |r|..] == s[|s| - |r|..];
      forall i | 0 <= i < |s| - |r|
        ensures IsSpace(s[i])
      {
        if i > 0 {
          assert s[i] == t[i - 1];
        }
      }
    }
  }

  /** `TrimEnd` removes exactly the trailing white space. */
  lemma {:induction false} TrimEndSpec(s: string)
    ensures var r := TrimEnd(s);
            |r| <= |s| && r == s[..|r|] &&
            (forall i :: |r| <= i < |s| ==> IsSpace(s[i])) &&
            (r == [] || !IsSpace(r[|r| - 1]))
  {
    if s != [] && IsSpace(s[|s| - 1]) {
      var t := s[..|s| - 1];
      TrimEndSpec(t);
      var r := TrimEnd(t);
      assert TrimEnd(s) == r;
      assert t[..|r|] == s[..|r|];
      forall i | |r| <= i < |s|
        ensures IsSpace(s[i])
      {
        if i < |s| - 1 {
          assert s[i] == t[i];
        }
      }
    }
  }

  /** `Trim(s)` is a slice of `s` that neither starts nor ends with white space. */
  lemma TrimSpec(s: string)
    ensures |Trim(s)| <= |s|
    ensures Trim(s) == [] || (!IsSpace(Trim(s)[0]) && !IsSpace(Trim(s)[|Trim(s)| - 1]))
  {
    var m := TrimStart(s);
    TrimStartSpec(s);
    TrimEndSpec(m);
    var r := TrimEnd(m);
    if r != [] {
      assert r[0] == m[0];
    }
  }

  /** Trimming is the identity exactly on strings that neither start nor end with white space. */
  lemma TrimFixedPoint(s: string)
    ensures Trim(s) == s <==> (s == [] || (!IsSpace(s[0]) && !IsSpace(s[|s| - 1])))
  {
    TrimSpec(s);
    if s != [] && !IsSpace(s[0]) && !IsSpace(s[|s| - 1]) {
      assert TrimStart(s) == s;
      assert TrimEnd(s) == s;
    }
  }

  /** `s.split(d)`: the pieces between occurrences of `d`; there is always at least one piece. */
  function Split(s: string, d: char): (r: seq<string>)
    ensures |r| >= 1
    ensures forall i :: 0 <= i < |r| ==> d !in r[i]
  {
    if s == [] then [""]
    else
      var rest := Split(s[1..], d);
      if s[0] == d then [""] + rest else [[s[0]] + rest[0]] + rest[1..]
  }

  /** `pieces.join(d)` */
  function Join(pieces: seq<string>, d: char): string {
    if pieces == [] then ""
    else if |pieces| == 1 then pieces[0]
    else pieces[0] + [d] + Join(pieces[1..], d)
  }

  /** Joining the pieces of a split gives the original string back. */
  lemma {:induction false} JoinSplit(s: string, d: char)
    ensures Join(Split(s, d), d) == s
  {
    if s != [] {
      var rest := Split(s[1..], d);
      JoinSplit(s[1..], d);
      if s[0] != d {
        if |rest| > 1 {
          assert Join(Split(s, d), d) == [s[0]] + rest[0] + [d] + Join(rest[1..], d);
        }
      } else {
        assert Join(Split(s, d), d) == [] + [d] + Join(rest, d);
      }
    }
  }

  /** Splitting a join of pieces free of the separator gives the pieces back. */
  lemma {:induction false} SplitJoin(pieces: seq<string>, d: char)
    requires |pieces| >= 1
    requires forall i :: 0 <= i < |pieces| ==> d !in pieces[i]
    ensures Split(Join(pieces, d), d) == pieces
  {
    if |pieces| == 1 {
      SplitNoSeparator(pieces[0], d);
    } else {
      SplitJoin(pieces[1..], d);
      SplitPrefix(pieces[0], Join(pieces[1..], d), d);
    }
  }

  lemma {:induction false} SplitNoSeparator(s: string, d: char)
    requires d !in s
    ensures Split(s, d) == [s]
  {
    if s != [] {
      SplitNoSeparator(s[1..], d);
      assert [s[0]] + s[1..] == s;
    }
  }

  /** A separator-free head followed by the separator contributes exactly one piece. */
  lemma {:induction false} SplitPrefix(head: string, tail: string, d: char)
    requires d !in head
    ensures Split(head + [d] + tail, d) == [head] + Split(tail, d)
  {
    if head == [] {
      assert head + [d] + tail == [d] + tail;
      assert ([d] + tail)[1..] == tail;
    } else {
      assert (head + [d] + tail)[1..] == head[1..] + [d] + tail;
      SplitPrefix(head[1..], tail, d);
      assert [head[0]] + head[1..] == head;
    }
  }

  /** Number of leading `c` in `s`. */
  function RunLength(s: string, c: char): (n: nat)
    ensures n <= |s|
    ensures forall j :: 0 <= j < n ==> s[j] == c
    ensures n < |s| ==> s[n] != c
  {
    if s != [] && s[0] == c then 1 + RunLength(s[1..], c) else 0
  }

  /** The leading run of `c` in `a + b`: the one in `a`, continued into `b` when it fills `a`. */
  lemma RunLengthAppend(a: string, b: string, c: char)
    ensures RunLength(a + b, c) == if RunLength(a, c) < |a| then RunLength(a, c) else |a| + RunLength(b, c)
  {
    var n := RunLength(a, c);
    var m := RunLength(a + b, c);
    if n < |a| {
      assert (a + b)[n] == a[n];
    } else {
      var q := RunLength(b, c);
      assert forall j :: |a| <= j < |a| + q ==> (a + b)[j] == b[j - |a|];
      if |a| + q < |a + b| {
        assert (a + b)[|a| + q] == b[q];
      }
    }
  }

  /** `n` copies of `c`. */
  function Repeat(c: char, n: nat): (r: string)
    ensures |r| == n && forall i :: 0 <= i < n ==> r[i] == c
  {
    seq(n, _ => c)
  }
}
