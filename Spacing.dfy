/** `normalizeSpaces` of `src/utils/punctuation.js`: a space between CJK ideographs and
    Latin letters or digits, and runs of spaces collapsed. */
module Spacing {
  import opened Text

  /** `replace(/([一-龥])([a-zA-Z0-9])/g, '$1 $2')` */
  function SpaceAfterCjk(s: string): (r: string)
    ensures s != [] ==> r != [] && r[0] == s[0]
  {
    if s == [] then []
    else if |s| >= 2 && IsCjk(s[0]) && IsAlnum(s[1]) then [s[0], ' ', s[1]] + SpaceAfterCjk(s[2..])
    else [s[0]] + SpaceAfterCjk(s[1..])
  }

  /** `replace(/([a-zA-Z0-9])([一-龥])/g, '$1 $2')` */
  function SpaceBeforeCjk(s: string): (r: string)
    ensures s != [] ==> r != [] && r[0] == s[0]
  {
    if s == [] then []
    else if |s| >= 2 && IsAlnum(s[0]) && IsCjk(s[1]) then [s[0], ' ', s[1]] + SpaceBeforeCjk(s[2..])
    else [s[0]] + SpaceBeforeCjk(s[1..])
  }

  /** `replace(/  +/g, ' ')` */
  function CollapseSpaces(s: string): (r: string)
    ensures s != [] ==> r != [] && r[0] == s[0]
  {
    if s == [] then []
    else if |s| >= 2 && s[0] == ' ' && s[1] == ' ' then " " + CollapseSpaces(s[RunLength(s, ' ')..])
    else [s[0]] + CollapseSpaces(s[1..])
  }

  ghost predicate NoCjkThenAlnum(s: string) {
    forall i :: 0 <= i < |s| - 1 ==> !(IsCjk(s[i]) && IsAlnum(s[i + 1]))
  }

  ghost predicate NoAlnumThenCjk(s: string) {
    forall i :: 0 <= i < |s| - 1 ==> !(IsAlnum(s[i]) && IsCjk(s[i + 1]))
  }

  ghost predicate NoDoubleSpace(s: string) {
    forall i :: 0 <= i < |s| - 1 ==> !(s[i] == ' ' && s[i + 1] == ' ')
  }

  /** `s` with every ASCII space deleted. */
  function WithoutSpaces(s: string): (r: string)
    ensures ' ' !in r
  {
    if s == [] then [] else (if s[0] == ' ' then [] else [s[0]]) + WithoutSpaces(s[1..])
  }

  lemma {:induction false} WithoutSpacesAppend(a: string, b: string)
    ensures WithoutSpaces(a + b) == WithoutSpaces(a) + WithoutSpaces(b)
  {
    if a == [] {
      assert a + b == b;
    } else {
      assert (a + b)[1..] == a[1..] + b;
      WithoutSpacesAppend(a[1..], b);
    }
  }

  /** The first pass leaves no ideograph directly followed by a letter or digit. */
  lemma {:induction false} SpaceAfterCjkSeparates(s: string)
    ensures NoCjkThenAlnum(SpaceAfterCjk(s))
  {
    var r := SpaceAfterCjk(s);
    if s != [] {
      if |s| >= 2 && IsCjk(s[0]) && IsAlnum(s[1]) {
        var tail := SpaceAfterCjk(s[2..]);
        SpaceAfterCjkSeparates(s[2..]);
        forall i | 0 <= i < |r| - 1 ensures !(IsCjk(r[i]) && IsAlnum(r[i + 1])) {
          if i >= 3 { assert r[i] == tail[i - 3] && r[i + 1] == tail[i - 2]; }
        }
      } else {
        var tail := SpaceAfterCjk(s[1..]);
        SpaceAfterCjkSeparates(s[1..]);
        forall i | 0 <= i < |r| - 1 ensures !(IsCjk(r[i]) && IsAlnum(r[i + 1])) {
          if i >= 1 { assert r[i] == tail[i - 1] && r[i + 1] == tail[i]; }
        }
      }
    }
  }

  /** The second pass separates letters or digits from a following ideograph and keeps
      what the first pass established. */
  lemma {:induction false} SpaceBeforeCjkSeparates(s: string)
    requires NoCjkThenAlnum(s)
    ensures NoCjkThenAlnum(SpaceBeforeCjk(s)) && NoAlnumThenCjk(SpaceBeforeCjk(s))
  {
    var r := SpaceBeforeCjk(s);
    if s != [] {
      if |s| >= 2 && IsAlnum(s[0]) && IsCjk(s[1]) {
        var tail := SpaceBeforeCjk(s[2..]);
        SpaceBeforeCjkSeparates(s[2..]);
        forall i | 0 <= i < |r| - 1
          ensures !(IsCjk(r[i]) && IsAlnum(r[i + 1])) && !(IsAlnum(r[i]) && IsCjk(r[i + 1]))
        {
          if i >= 3 { assert r[i] == tail[i - 3] && r[i + 1] == tail[i - 2]; }
          if i == 2 && |s| > 2 { assert r[i] == s[1] && r[i + 1] == s[2]; }
        }
      } else {
        var tail := SpaceBeforeCjk(s[1..]);
        SpaceBeforeCjkSeparates(s[1..]);
        forall i | 0 <= i < |r| - 1
          ensures !(IsCjk(r[i]) && IsAlnum(r[i + 1])) && !(IsAlnum(r[i]) && IsCjk(r[i + 1]))
        {
          if i >= 1 { assert r[i] == tail[i - 1] && r[i + 1] == tail[i]; }
          else { assert r[i] == s[0] && r[i + 1] == s[1]; }
        }
      }
    }
  }

  /** Collapsing spaces leaves no double space and keeps both separations. */
  lemma {:induction false} CollapseSpacesSeparates(s: string)
    requires NoCjkThenAlnum(s) && NoAlnumThenCjk(s)
    ensures var r := CollapseSpaces(s);
            NoCjkThenAlnum(r) && NoAlnumThenCjk(r) && NoDoubleSpace(r)
  {
    var r := CollapseSpaces(s);
    if s != [] {
      if |s| >= 2 && s[0] == ' ' && s[1] == ' ' {
        var n := RunLength(s, ' ');
        var tail := CollapseSpaces(s[n..]);
        CollapseSpacesSeparates(s[n..]);
        forall i | 0 <= i < |r| - 1
          ensures !(IsCjk(r[i]) && IsAlnum(r[i + 1])) && !(IsAlnum(r[i]) && IsCjk(r[i + 1]))
          ensures !(r[i] == ' ' && r[i + 1] == ' ')
        {
          if i >= 1 { assert r[i] == tail[i - 1] && r[i + 1] == tail[i]; }
          else { assert r[i + 1] == s[n]; }
        }
      } else {
        var tail := CollapseSpaces(s[1..]);
        CollapseSpacesSeparates(s[1..]);
        forall i | 0 <= i < |r| - 1
          ensures !(IsCjk(r[i]) && IsAlnum(r[i + 1])) && !(IsAlnum(r[i]) && IsCjk(r[i + 1]))
          ensures !(r[i] == ' ' && r[i + 1] == ' ')
        {
          if i >= 1 { assert r[i] == tail[i - 1] && r[i + 1] == tail[i]; }
          else { assert r[i] == s[0] && r[i + 1] == s[1]; }
        }
      }
    }
  }

  /** A space inserted between two other characters is the only change. */
  lemma SpacedPairStep(s: string, out: string)
    requires |s| >= 2 && s[0] != ' ' && s[1] != ' ' && WithoutSpaces(out) == WithoutSpaces(s[2..])
    ensures WithoutSpaces([s[0], ' ', s[1]] + out) == WithoutSpaces(s)
  {
    assert s[1..][1..] == s[2..];
    assert WithoutSpaces(s[1..]) == [s[1]] + WithoutSpaces(s[2..]);
    WithoutSpacesAppend([s[0], ' ', s[1]], out);
    WithoutSpacesPair(s[0], s[1]);
  }

  /** A copied character is no change. */
  lemma CopyStep(s: string, out: string)
    requires s != [] && WithoutSpaces(out) == WithoutSpaces(s[1..])
    ensures WithoutSpaces([s[0]] + out) == WithoutSpaces(s)
  {
    assert ([s[0]] + out)[1..] == out;
  }

  /** The first spacing pass only inserts ASCII spaces. */
  lemma {:induction false} SpaceAfterCjkKeepsText(s: string)
    ensures WithoutSpaces(SpaceAfterCjk(s)) == WithoutSpaces(s)
  {
    if s != [] {
      if |s| >= 2 && IsCjk(s[0]) && IsAlnum(s[1]) {
        SpaceAfterCjkKeepsText(s[2..]);
        assert SpaceAfterCjk(s) == [s[0], ' ', s[1]] + SpaceAfterCjk(s[2..]);
        SpacedPairStep(s, SpaceAfterCjk(s[2..]));
      } else {
        SpaceAfterCjkKeepsText(s[1..]);
        assert SpaceAfterCjk(s) == [s[0]] + SpaceAfterCjk(s[1..]);
        CopyStep(s, SpaceAfterCjk(s[1..]));
      }
    }
  }

  /** The second spacing pass only inserts ASCII spaces. */
  lemma {:induction false} SpaceBeforeCjkKeepsText(s: string)
    ensures WithoutSpaces(SpaceBeforeCjk(s)) == WithoutSpaces(s)
  {
    if s != [] {
      if |s| >= 2 && IsAlnum(s[0]) && IsCjk(s[1]) {
        SpaceBeforeCjkKeepsText(s[2..]);
        assert SpaceBeforeCjk(s) == [s[0], ' ', s[1]] + SpaceBeforeCjk(s[2..]);
        SpacedPairStep(s, SpaceBeforeCjk(s[2..]));
      } else {
        SpaceBeforeCjkKeepsText(s[1..]);
        assert SpaceBeforeCjk(s) == [s[0]] + SpaceBeforeCjk(s[1..]);
        CopyStep(s, SpaceBeforeCjk(s[1..]));
      }
    }
  }

  /** Collapsing only deletes ASCII spaces. */
  lemma {:induction false} CollapseSpacesKeepsText(s: string)
    ensures WithoutSpaces(CollapseSpaces(s)) == WithoutSpaces(s)
  {
    if s != [] {
      if |s| >= 2 && s[0] == ' ' && s[1] == ' ' {
        var n := RunLength(s, ' ');
        CollapseSpacesKeepsText(s[n..]);
        assert s == s[..n] + s[n..];
        WithoutSpacesAppend(s[..n], s[n..]);
        WithoutSpacesAllSpaces(s[..n]);
      } else {
        CollapseSpacesKeepsText(s[1..]);
      }
    }
  }

  lemma WithoutSpacesPair(a: char, b: char)
    requires a != ' ' && b != ' '
    ensures WithoutSpaces([a, ' ', b]) == [a, b]
  {
    assert [a, ' ', b][1..] == [' ', b];
    assert [' ', b][1..] == [b];
    assert [b][1..] == [];
    assert WithoutSpaces([b]) == [b];
    assert WithoutSpaces([' ', b]) == [b];
  }

  lemma {:induction false} WithoutSpacesAllSpaces(s: string)
    requires forall i :: 0 <= i < |s| ==> s[i] == ' '
    ensures WithoutSpaces(s) == []
  {
    if s != [] {
      WithoutSpacesAllSpaces(s[1..]);
    }
  }

  /** `normalizeSpaces` */
  function NormalizeSpaces(s: string): (r: string)
    ensures NoCjkThenAlnum(r) && NoAlnumThenCjk(r)
    ensures NoDoubleSpace(r)
    ensures WithoutSpaces(r) == WithoutSpaces(s)
  {
    var a := SpaceAfterCjk(s);
    var b := SpaceBeforeCjk(a);
    SpaceAfterCjkSeparates(s);
    SpaceBeforeCjkSeparates(a);
    CollapseSpacesSeparates(b);
    SpaceAfterCjkKeepsText(s);
    SpaceBeforeCjkKeepsText(a);
    CollapseSpacesKeepsText(b);
    CollapseSpaces(b)
  }

  lemma AfterPairStep(s: string)
    requires |s| >= 2 && IsCjk(s[0]) && IsAlnum(s[1])
    ensures SpaceAfterCjk(s) == [s[0], ' ', s[1]] + SpaceAfterCjk(s[2..])
  {
  }

  lemma AfterCopyStep(s: string)
    requires s != [] && !(|s| >= 2 && IsCjk(s[0]) && IsAlnum(s[1]))
    ensures SpaceAfterCjk(s) == [s[0]] + SpaceAfterCjk(s[1..])
  {
  }

  lemma BeforePairStep(s: string)
    requires |s| >= 2 && IsAlnum(s[0]) && IsCjk(s[1])
    ensures SpaceBeforeCjk(s) == [s[0], ' ', s[1]] + SpaceBeforeCjk(s[2..])
  {
  }

  lemma BeforeCopyStep(s: string)
    requires s != [] && !(|s| >= 2 && IsAlnum(s[0]) && IsCjk(s[1]))
    ensures SpaceBeforeCjk(s) == [s[0]] + SpaceBeforeCjk(s[1..])
  {
  }

  lemma CollapseTakeStep(s: string)
    requires |s| >= 2 && s[0] == ' ' && s[1] == ' '
    ensures CollapseSpaces(s) == " " + CollapseSpaces(s[RunLength(s, ' ')..])
  {
  }

  lemma CollapseCopyStep(s: string)
    requires s != [] && !(|s| >= 2 && s[0] == ' ' && s[1] == ' ')
    ensures CollapseSpaces(s) == [s[0]] + CollapseSpaces(s[1..])
  {
  }

  lemma Assoc(x: string, y: string, z: string)
    ensures x + (y + z) == (x + y) + z
  {
  }

  /** The first pass works pair by pair: text cut anywhere except between an ideograph and a
      following letter or digit is spaced piece by piece. */
  lemma {:induction false} SpaceAfterCjkAppend(a: string, b: string)
    requires a == [] || b == [] || !(IsCjk(a[|a| - 1]) && IsAlnum(b[0]))
    ensures SpaceAfterCjk(a + b) == SpaceAfterCjk(a) + SpaceAfterCjk(b)
  {
    var s := a + b;
    if a == [] {
      assert s == b;
    } else if |a| >= 2 && IsCjk(a[0]) && IsAlnum(a[1]) {
      var rest := a[2..];
      assert s[0] == a[0] && s[1] == a[1] && s[2..] == rest + b;
      assert rest == [] || rest[|rest| - 1] == a[|a| - 1];
      SpaceAfterCjkAppend(rest, b);
      AfterPairStep(s);
      AfterPairStep(a);
      Assoc([a[0], ' ', a[1]], SpaceAfterCjk(rest), SpaceAfterCjk(b));
    } else {
      var rest := a[1..];
      assert s[0] == a[0] && s[1..] == rest + b;
      assert |s| >= 2 ==> s[1] == if |a| >= 2 then a[1] else b[0];
      assert rest == [] || rest[|rest| - 1] == a[|a| - 1];
      SpaceAfterCjkAppend(rest, b);
      AfterCopyStep(s);
      AfterCopyStep(a);
      Assoc([a[0]], SpaceAfterCjk(rest), SpaceAfterCjk(b));
    }
  }

  /** The second pass works pair by pair: text cut anywhere except between a letter or digit
      and a following ideograph is spaced piece by piece. */
  lemma {:induction false} SpaceBeforeCjkAppend(a: string, b: string)
    requires a == [] || b == [] || !(IsAlnum(a[|a| - 1]) && IsCjk(b[0]))
    ensures SpaceBeforeCjk(a + b) == SpaceBeforeCjk(a) + SpaceBeforeCjk(b)
  {
    var s := a + b;
    if a == [] {
      assert s == b;
    } else if |a| >= 2 && IsAlnum(a[0]) && IsCjk(a[1]) {
      var rest := a[2..];
      assert s[0] == a[0] && s[1] == a[1] && s[2..] == rest + b;
      assert rest == [] || rest[|rest| - 1] == a[|a| - 1];
      SpaceBeforeCjkAppend(rest, b);
      BeforePairStep(s);
      BeforePairStep(a);
      Assoc([a[0], ' ', a[1]], SpaceBeforeCjk(rest), SpaceBeforeCjk(b));
    } else {
      var rest := a[1..];
      assert s[0] == a[0] && s[1..] == rest + b;
      assert |s| >= 2 ==> s[1] == if |a| >= 2 then a[1] else b[0];
      assert rest == [] || rest[|rest| - 1] == a[|a| - 1];
      SpaceBeforeCjkAppend(rest, b);
      BeforeCopyStep(s);
      BeforeCopyStep(a);
      Assoc([a[0]], SpaceBeforeCjk(rest), SpaceBeforeCjk(b));
    }
  }

  /** Collapsing works run by run: text cut anywhere that does not split a run of spaces is
      collapsed piece by piece. */
  lemma {:induction false} CollapseSpacesAppend(a: string, b: string)
    requires a == [] || b == [] || a[|a| - 1] != ' ' || b[0] != ' '
    ensures CollapseSpaces(a + b) == CollapseSpaces(a) + CollapseSpaces(b)
    decreases |a|, 1
  {
    if a == [] {
      assert a + b == b && CollapseSpaces(a) == [];
    } else if |a| >= 2 && a[0] == ' ' && a[1] == ' ' {
      CollapseAppendTake(a, b);
    } else {
      CollapseAppendCopy(a, b);
    }
  }

  lemma CollapseAppendTake(a: string, b: string)
    requires |a| >= 2 && a[0] == ' ' && a[1] == ' ' && (b == [] || a[|a| - 1] != ' ' || b[0] != ' ')
    ensures CollapseSpaces(a + b) == CollapseSpaces(a) + CollapseSpaces(b)
    decreases |a|, 0
  {
    var s := a + b;
    var n := RunLength(a, ' ');
    assert RunLength(s, ' ') == n by {
      RunLengthAppend(a, b, ' ');
      if n == |a| {
        assert a[|a| - 1] == ' ';
      }
    }
    var rest := a[n..];
    assert s[0] == ' ' && s[1] == ' ' && s[n..] == rest + b;
    assert rest == [] || rest[|rest| - 1] == a[|a| - 1];
    CollapseSpacesAppend(rest, b);
    CollapseTakeStep(s);
    CollapseTakeStep(a);
    Assoc(" ", CollapseSpaces(rest), CollapseSpaces(b));
  }

  lemma CollapseAppendCopy(a: string, b: string)
    requires a != [] && !(|a| >= 2 && a[0] == ' ' && a[1] == ' ')
    requires b == [] || a[|a| - 1] != ' ' || b[0] != ' '
    ensures CollapseSpaces(a + b) == CollapseSpaces(a) + CollapseSpaces(b)
    decreases |a|, 0
  {
    var s := a + b;
    var rest := a[1..];
    assert s[0] == a[0] && s[1..] == rest + b;
    assert |s| >= 2 ==> s[1] == if |a| >= 2 then a[1] else b[0];
    assert rest == [] || rest[|rest| - 1] == a[|a| - 1];
    CollapseSpacesAppend(rest, b);
    CollapseCopyStep(s);
    CollapseCopyStep(a);
    Assoc([a[0]], CollapseSpaces(rest), CollapseSpaces(b));
  }

  /** A run of one or more spaces becomes one space. */
  lemma CollapseSpaceRun(n: nat)
    requires n >= 1
    ensures CollapseSpaces(Repeat(' ', n)) == " "
  {
    var s := Repeat(' ', n);
    if n >= 2 {
      assert RunLength(s, ' ') == n;
      CollapseTakeStep(s);
      assert s[n..] == [];
    } else {
      CollapseCopyStep(s);
      assert s[1..] == [];
    }
  }

  /** A single space between two pieces survives collapsing. */
  lemma CollapseKeepsSingleSpace(a: string, b: string)
    requires (a == [] || a[|a| - 1] != ' ') && (b == [] || b[0] != ' ')
    ensures CollapseSpaces(a + " " + b) == CollapseSpaces(a) + " " + CollapseSpaces(b)
  {
    var t := " " + b;
    assert t[0] == ' ' && t[1..] == b && (|t| >= 2 ==> t[1] == b[0]);
    assert CollapseSpaces(t) == " " + CollapseSpaces(b) by {
      CollapseCopyStep(t);
    }
    assert CollapseSpaces(a + t) == CollapseSpaces(a) + CollapseSpaces(t) by {
      CollapseSpacesAppend(a, t);
    }
    assert a + " " + b == a + t;
    Assoc(CollapseSpaces(a), " ", CollapseSpaces(b));
  }

  /** An ideograph directly followed by a letter or digit gets a space between them,
      wherever the pair stands; the text on either side is spaced on its own. */
  lemma SpaceAfterCjkInserts(a: string, x: char, y: char, b: string)
    requires IsCjk(x) && IsAlnum(y)
    ensures SpaceAfterCjk(a + [x, y] + b) == SpaceAfterCjk(a) + [x, ' ', y] + SpaceAfterCjk(b)
  {
    var t := [x, y] + b;
    assert t[0] == x && t[1] == y && t[2..] == b;
    assert SpaceAfterCjk(t) == [x, ' ', y] + SpaceAfterCjk(b) by {
      AfterPairStep(t);
    }
    assert SpaceAfterCjk(a + t) == SpaceAfterCjk(a) + SpaceAfterCjk(t) by {
      SpaceAfterCjkAppend(a, t);
    }
    assert a + [x, y] + b == a + t;
    Assoc(SpaceAfterCjk(a), [x, ' ', y], SpaceAfterCjk(b));
  }

  /** A letter or digit directly followed by an ideograph gets a space between them,
      wherever the pair stands; the text on either side is spaced on its own. */
  lemma SpaceBeforeCjkInserts(a: string, x: char, y: char, b: string)
    requires IsAlnum(x) && IsCjk(y)
    ensures SpaceBeforeCjk(a + [x, y] + b) == SpaceBeforeCjk(a) + [x, ' ', y] + SpaceBeforeCjk(b)
  {
    var t := [x, y] + b;
    assert t[0] == x && t[1] == y && t[2..] == b;
    assert SpaceBeforeCjk(t) == [x, ' ', y] + SpaceBeforeCjk(b) by {
      BeforePairStep(t);
    }
    assert SpaceBeforeCjk(a + t) == SpaceBeforeCjk(a) + SpaceBeforeCjk(t) by {
      SpaceBeforeCjkAppend(a, t);
    }
    assert a + [x, y] + b == a + t;
    Assoc(SpaceBeforeCjk(a), [x, ' ', y], SpaceBeforeCjk(b));
  }

  /** Without an ideograph directly followed by a letter or digit, the first pass changes
      nothing. */
  lemma {:induction false} SpaceAfterCjkIdentity(s: string)
    requires NoCjkThenAlnum(s)
    ensures SpaceAfterCjk(s) == s
  {
    if s != [] {
      assert NoCjkThenAlnum(s[1..]) by {
        forall i | 0 <= i < |s[1..]| - 1 ensures !(IsCjk(s[1..][i]) && IsAlnum(s[1..][i + 1])) {
          assert s[1..][i] == s[i + 1] && s[1..][i + 1] == s[i + 2];
        }
      }
      SpaceAfterCjkIdentity(s[1..]);
      AfterCopyStep(s);
      assert [s[0]] + s[1..] == s;
    }
  }

  /** Without a letter or digit directly followed by an ideograph, the second pass changes
      nothing. */
  lemma {:induction false} SpaceBeforeCjkIdentity(s: string)
    requires NoAlnumThenCjk(s)
    ensures SpaceBeforeCjk(s) == s
  {
    if s != [] {
      assert NoAlnumThenCjk(s[1..]) by {
        forall i | 0 <= i < |s[1..]| - 1 ensures !(IsAlnum(s[1..][i]) && IsCjk(s[1..][i + 1])) {
          assert s[1..][i] == s[i + 1] && s[1..][i + 1] == s[i + 2];
        }
      }
      SpaceBeforeCjkIdentity(s[1..]);
      BeforeCopyStep(s);
      assert [s[0]] + s[1..] == s;
    }
  }

  /** Without two spaces in a row, collapsing changes nothing: single spaces are kept. */
  lemma {:induction false} CollapseSpacesIdentity(s: string)
    requires NoDoubleSpace(s)
    ensures CollapseSpaces(s) == s
  {
    if s != [] {
      assert NoDoubleSpace(s[1..]) by {
        forall i | 0 <= i < |s[1..]| - 1 ensures !(s[1..][i] == ' ' && s[1..][i + 1] == ' ') {
          assert s[1..][i] == s[i + 1] && s[1..][i + 1] == s[i + 2];
        }
      }
      CollapseSpacesIdentity(s[1..]);
      CollapseCopyStep(s);
      assert [s[0]] + s[1..] == s;
    }
  }

  lemma NormalizeSpacesPasses(s: string)
    ensures NormalizeSpaces(s) == CollapseSpaces(SpaceBeforeCjk(SpaceAfterCjk(s)))
  {
  }

  /** Text that already has both separations and no double space is left as it is. */
  lemma NormalizeSpacesIdentity(s: string)
    requires NoCjkThenAlnum(s) && NoAlnumThenCjk(s) && NoDoubleSpace(s)
    ensures NormalizeSpaces(s) == s
  {
    SpaceAfterCjkIdentity(s);
    SpaceBeforeCjkIdentity(s);
    CollapseSpacesIdentity(s);
    NormalizeSpacesPasses(s);
  }
}
