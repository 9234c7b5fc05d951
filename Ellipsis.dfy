/** `normalizeEllipsis` of `src/utils/punctuation.js`: runs of full stops become the
    Chinese ellipsis. */
module Ellipsis {
  import opened Text

  /** `replace(/c{k,}/g, '……')`: every run of at least `k` copies of `c` becomes one ellipsis. */
  function CollapseRuns(s: string, c: char, k: nat): string
  {
    if s == [] then []
    else if s[0] == c && RunLength(s, c) >= k then "……" + CollapseRuns(s[RunLength(s, c)..], c, k)
    else [s[0]] + CollapseRuns(s[1..], c, k)
  }

  /** No run of `k` or more copies of `c` starts anywhere in `s`. */
  ghost predicate NoRun(s: string, c: char, k: nat) {
    forall i :: 0 <= i < |s| ==> RunLength(s[i..], c) < k
  }

  /** `normalizeEllipsis` */
  function NormalizeEllipsis(s: string): (r: string)
    ensures forall i :: 0 <= i < |r| - 2 ==> !(r[i] == '.' && r[i + 1] == '.' && r[i + 2] == '.')
    ensures forall i :: 0 <= i < |r| - 1 ==> !(r[i] == '。' && r[i + 1] == '。')
  {
    var dots := CollapseRuns(s, '.', 3);
    CollapseLeavesNoRun(s, '.', 3);
    CollapseLeavesNoRun(dots, '。', 2);
    CollapseKeepsNoRun(dots, '。', 2, '.', 3);
    var r := CollapseRuns(dots, '。', 2);
    NoRunThree(r, '.');
    NoRunTwo(r, '。');
    r
  }

  lemma NoRunThree(s: string, c: char)
    requires NoRun(s, c, 3)
    ensures forall i :: 0 <= i < |s| - 2 ==> !(s[i] == c && s[i + 1] == c && s[i + 2] == c)
  {
    forall i | 0 <= i < |s| - 2 && s[i] == c && s[i + 1] == c
      ensures s[i + 2] != c
    {
      assert RunLength(s[i..], c) < 3;
      assert s[i..][1] == c;
    }
  }

  lemma NoRunTwo(s: string, c: char)
    requires NoRun(s, c, 2)
    ensures forall i :: 0 <= i < |s| - 1 ==> !(s[i] == c && s[i + 1] == c)
  {
    forall i | 0 <= i < |s| - 1 && s[i] == c
      ensures s[i + 1] != c
    {
      assert RunLength(s[i..], c) < 2;
    }
  }

  /** Collapsing leaves a leading run of `c` only when it was too short to collapse. */
  lemma {:induction false} CollapseLeadingRun(s: string, c: char, k: nat)
    requires c != '…' && k >= 1
    ensures RunLength(CollapseRuns(s, c, k), c) == if RunLength(s, c) >= k then 0 else RunLength(s, c)
  {
    if s != [] && s[0] == c && RunLength(s, c) < k {
      CollapseLeadingRun(s[1..], c, k);
    }
  }

  /** After collapsing, no run of `k` copies of `c` survives. */
  lemma {:induction false} CollapseLeavesNoRun(s: string, c: char, k: nat)
    requires c != '…' && k >= 1
    ensures NoRun(CollapseRuns(s, c, k), c, k)
  {
    var r := CollapseRuns(s, c, k);
    if s != [] {
      if s[0] == c && RunLength(s, c) >= k {
        var tail := CollapseRuns(s[RunLength(s, c)..], c, k);
        CollapseLeavesNoRun(s[RunLength(s, c)..], c, k);
        forall i | 0 <= i < |r| ensures RunLength(r[i..], c) < k {
          if i >= 2 {
            assert r[i..] == tail[i - 2..];
          }
        }
      } else {
        var tail := CollapseRuns(s[1..], c, k);
        CollapseLeavesNoRun(s[1..], c, k);
        CollapseLeadingRun(s[1..], c, k);
        forall i | 0 <= i < |r| ensures RunLength(r[i..], c) < k {
          if i >= 1 {
            assert r[i..] == tail[i - 1..];
          } else if s[0] == c {
            assert r[1..] == tail;
          }
        }
      }
    }
  }

  /** Collapsing runs of `c` does not change the leading run of another character `d`. */
  lemma {:induction false} CollapseKeepsLeadingRun(s: string, c: char, k: nat, d: char)
    requires d != c && d != '…'
    ensures RunLength(CollapseRuns(s, c, k), d) == RunLength(s, d)
  {
    if s != [] && s[0] == d {
      CollapseKeepsLeadingRun(s[1..], c, k, d);
    }
  }

  /** Collapsing runs of `c` creates no run of another character `d`. */
  lemma {:induction false} CollapseKeepsNoRun(s: string, c: char, k: nat, d: char, m: nat)
    requires d != c && d != '…' && m >= 1
    requires NoRun(s, d, m)
    ensures NoRun(CollapseRuns(s, c, k), d, m)
  {
    if s != [] {
      if s[0] == c && RunLength(s, c) >= k {
        var n := RunLength(s, c);
        NoRunSuffix(s, d, m, n);
        CollapseKeepsNoRun(s[n..], c, k, d, m);
        assert CollapseRuns(s, c, k) == "……" + CollapseRuns(s[n..], c, k);
        NoRunAfterEllipsis(CollapseRuns(s[n..], c, k), d, m);
      } else {
        NoRunSuffix(s, d, m, 1);
        CollapseKeepsNoRun(s[1..], c, k, d, m);
        CollapseKeepsLeadingRun(s[1..], c, k, d);
        assert CollapseRuns(s, c, k) == [s[0]] + CollapseRuns(s[1..], c, k);
        NoRunCopy(s, CollapseRuns(s[1..], c, k), d, m);
      }
    }
  }

  /** A suffix of text without long runs has none either. */
  lemma NoRunSuffix(s: string, d: char, m: nat, n: nat)
    requires n <= |s| && NoRun(s, d, m)
    ensures NoRun(s[n..], d, m)
  {
    forall i | 0 <= i < |s[n..]|
      ensures RunLength(s[n..][i..], d) < m
    {
      assert s[n..][i..] == s[n + i..];
    }
  }

  /** An ellipsis in front adds no run of `d`. */
  lemma NoRunAfterEllipsis(t: string, d: char, m: nat)
    requires d != '…' && m >= 1 && NoRun(t, d, m)
    ensures NoRun("……" + t, d, m)
  {
    var r := "……" + t;
    forall i | 0 <= i < |r|
      ensures RunLength(r[i..], d) < m
    {
      if i >= 2 {
        assert r[i..] == t[i - 2..];
      }
    }
  }

  /** A copied character extends the leading run of `d` exactly as it did in the input. */
  lemma NoRunCopy(s: string, t: string, d: char, m: nat)
    requires s != [] && NoRun(s, d, m) && NoRun(t, d, m) && RunLength(t, d) == RunLength(s[1..], d)
    ensures NoRun([s[0]] + t, d, m)
  {
    var r := [s[0]] + t;
    forall i | 0 <= i < |r|
      ensures RunLength(r[i..], d) < m
    {
      if i >= 1 {
        assert r[i..] == t[i - 1..];
      } else {
        assert RunLength(r, d) == RunLength(s, d) by {
          RunLengthCons(s[0], t, d);
          RunLengthCons(s[0], s[1..], d);
          assert [s[0]] + s[1..] == s;
        }
        assert r[0..] == r && s[0..] == s;
      }
    }
  }

  lemma RunLengthCons(x: char, t: string, d: char)
    ensures RunLength([x] + t, d) == if x == d then 1 + RunLength(t, d) else 0
  {
    assert ([x] + t)[1..] == t;
  }

  /** Where no run is long enough, collapsing changes nothing. */
  lemma {:induction false} CollapseIdentity(s: string, c: char, k: nat)
    requires NoRun(s, c, k)
    ensures CollapseRuns(s, c, k) == s
  {
    if s != [] {
      assert s[0..] == s;
      assert NoRun(s[1..], c, k) by {
        forall i | 0 <= i < |s[1..]| ensures RunLength(s[1..][i..], c) < k {
          assert s[1..][i..] == s[1 + i..];
        }
      }
      CollapseIdentity(s[1..], c, k);
      assert [s[0]] + s[1..] == s;
    }
  }

  /** `normalizeEllipsis` is idempotent. */
  lemma EllipsisIdempotent(s: string)
    ensures NormalizeEllipsis(NormalizeEllipsis(s)) == NormalizeEllipsis(s)
  {
    var dots := CollapseRuns(s, '.', 3);
    var r := CollapseRuns(dots, '。', 2);
    CollapseLeavesNoRun(s, '.', 3);
    CollapseKeepsNoRun(dots, '。', 2, '.', 3);
    CollapseIdentity(r, '.', 3);
    CollapseLeavesNoRun(dots, '。', 2);
    CollapseIdentity(r, '。', 2);
  }

  /** The replacement works run by run: text cut anywhere that does not split a run of `c`
      is collapsed piece by piece. */
  lemma {:induction false} CollapseRunsAppend(a: string, b: string, c: char, k: nat)
    requires a == [] || b == [] || a[|a| - 1] != c || b[0] != c
    ensures CollapseRuns(a + b, c, k) == CollapseRuns(a, c, k) + CollapseRuns(b, c, k)
    decreases |a|, 1
  {
    if a == [] {
      assert a + b == b;
    } else if a[0] == c && RunLength(a + b, c) >= k {
      AppendTake(a, b, c, k);
    } else {
      AppendCopy(a, b, c, k);
    }
  }

  lemma AppendTake(a: string, b: string, c: char, k: nat)
    requires a != [] && (b == [] || a[|a| - 1] != c || b[0] != c)
    requires a[0] == c && RunLength(a + b, c) >= k
    ensures CollapseRuns(a + b, c, k) == CollapseRuns(a, c, k) + CollapseRuns(b, c, k)
    decreases |a|, 0
  {
    var s := a + b;
    var n := RunLength(a, c);
    assert RunLength(s, c) == n by {
      RunLengthAppend(a, b, c);
      if n == |a| {
        assert a[|a| - 1] == c;
      }
    }
    var rest := a[n..];
    assert s[n..] == rest + b;
    assert rest == [] || rest[|rest| - 1] == a[|a| - 1];
    CollapseRunsAppend(rest, b, c, k);
    CollapseTake(s, c, k);
    CollapseTake(a, c, k);
    Assoc("……", CollapseRuns(rest, c, k), CollapseRuns(b, c, k));
  }

  lemma AppendCopy(a: string, b: string, c: char, k: nat)
    requires a != [] && (b == [] || a[|a| - 1] != c || b[0] != c)
    requires !(a[0] == c && RunLength(a + b, c) >= k)
    ensures CollapseRuns(a + b, c, k) == CollapseRuns(a, c, k) + CollapseRuns(b, c, k)
    decreases |a|, 0
  {
    var s := a + b;
    assert s[0] == a[0];
    assert RunLength(a, c) <= RunLength(s, c) by {
      RunLengthAppend(a, b, c);
    }
    var rest := a[1..];
    assert s[1..] == rest + b;
    assert rest == [] || rest[|rest| - 1] == a[|a| - 1];
    CollapseRunsAppend(rest, b, c, k);
    CollapseCopy(s, c, k);
    CollapseCopy(a, c, k);
    Assoc([a[0]], CollapseRuns(rest, c, k), CollapseRuns(b, c, k));
  }

  lemma Assoc(x: string, y: string, z: string)
    ensures x + (y + z) == (x + y) + z
  {
  }

  lemma CollapseTake(s: string, c: char, k: nat)
    requires s != [] && s[0] == c && RunLength(s, c) >= k
    ensures CollapseRuns(s, c, k) == "……" + CollapseRuns(s[RunLength(s, c)..], c, k)
  {
  }

  lemma CollapseCopy(s: string, c: char, k: nat)
    requires s != [] && !(s[0] == c && RunLength(s, c) >= k)
    ensures CollapseRuns(s, c, k) == [s[0]] + CollapseRuns(s[1..], c, k)
  {
  }

  /** A run of `n` copies of `c` becomes one ellipsis when it is at least `k` long, and is
      kept otherwise. */
  lemma {:induction false} CollapseRun(c: char, n: nat, k: nat)
    ensures CollapseRuns(Repeat(c, n), c, k) == if n == 0 || n < k then Repeat(c, n) else "……"
  {
    var s := Repeat(c, n);
    if n > 0 {
      assert RunLength(s, c) == n;
      if n < k {
        assert s[1..] == Repeat(c, n - 1);
        CollapseRun(c, n - 1, k);
        assert [c] + Repeat(c, n - 1) == s;
      } else {
        assert s[n..] == [];
      }
    }
  }

  /** Text without `c` is not changed by collapsing runs of `c`. */
  lemma {:induction false} CollapseWithoutChar(s: string, c: char, k: nat)
    requires c !in s
    ensures CollapseRuns(s, c, k) == s
  {
    if s != [] {
      assert c !in s[1..];
      CollapseWithoutChar(s[1..], c, k);
      assert [s[0]] + s[1..] == s;
    }
  }

  lemma NormalizeEllipsisPasses(s: string)
    ensures NormalizeEllipsis(s) == CollapseRuns(CollapseRuns(s, '.', 3), '。', 2)
  {
  }

  /** A run between two pieces that do not hold its character is collapsed on its own. */
  lemma CollapseBetween(a: string, run: string, b: string, c: char, k: nat)
    requires c !in a && c !in b
    ensures CollapseRuns(a + run + b, c, k) == a + CollapseRuns(run, c, k) + b
  {
    var x := CollapseRuns(run, c, k);
    assert CollapseRuns(run + b, c, k) == x + b by {
      assert b == [] || b[0] in b;
      CollapseRunsAppend(run, b, c, k);
      CollapseWithoutChar(b, c, k);
    }
    assert CollapseRuns(a + (run + b), c, k) == a + (x + b) by {
      assert a == [] || a[|a| - 1] in a;
      CollapseRunsAppend(a, run + b, c, k);
      CollapseWithoutChar(a, c, k);
    }
    assert a + run + b == a + (run + b);
    assert a + (x + b) == a + x + b;
  }

  /** Three or more full stops between text without full stops become `……`. */
  lemma EllipsisFromStops(a: string, b: string, n: nat)
    requires n >= 3 && '.' !in a && '.' !in b && '。' !in a && '。' !in b
    ensures NormalizeEllipsis(a + Repeat('.', n) + b) == a + "……" + b
  {
    var s := a + Repeat('.', n) + b;
    assert CollapseRuns(s, '.', 3) == a + "……" + b by {
      CollapseBetween(a, Repeat('.', n), b, '.', 3);
      CollapseRun('.', n, 3);
    }
    assert CollapseRuns(a + "……" + b, '。', 2) == a + "……" + b by {
      assert '。' !in a + "……" + b;
      CollapseWithoutChar(a + "……" + b, '。', 2);
    }
    NormalizeEllipsisPasses(s);
  }

  /** Two or more ideographic full stops between text without stops become `……`. */
  lemma EllipsisFromIdeographicStops(a: string, b: string, n: nat)
    requires n >= 2 && '.' !in a && '.' !in b && '。' !in a && '。' !in b
    ensures NormalizeEllipsis(a + Repeat('。', n) + b) == a + "……" + b
  {
    var s := a + Repeat('。', n) + b;
    assert CollapseRuns(s, '.', 3) == s by {
      assert '.' !in s;
      CollapseWithoutChar(s, '.', 3);
    }
    assert CollapseRuns(s, '。', 2) == a + "……" + b by {
      CollapseBetween(a, Repeat('。', n), b, '。', 2);
      CollapseRun('。', n, 2);
    }
    NormalizeEllipsisPasses(s);
  }
}
