/** `escapeHtml` of `src/utils/formatter.js`, applied to the content of fenced code blocks:
    five single-character replacements in a fixed order. */
module Escape {
  import opened Text

  /** `s.replace(new RegExp(c, 'g'), rep)` for a single character `c`. */
  function ReplaceChar(s: string, c: char, rep: string): string {
    if s == [] then "" else (if s[0] == c then rep else [s[0]]) + ReplaceChar(s[1..], c, rep)
  }

  /** `escapeHtml(text)`: five replacements in the source's order. */
  function EscapeHtml(s: string): string {
    ReplaceChar(ReplaceChar(ReplaceChar(ReplaceChar(ReplaceChar(
      s, '&', "&amp;"), '<', "&lt;"), '>', "&gt;"), '"', "&quot;"), '\n', "<br>")
  }

  /** What one character becomes. */
  function EscapeChar(c: char): string {
    if c == '&' then "&amp;"
    else if c == '<' then "&lt;"
    else if c == '>' then "&gt;"
    else if c == '"' then "&quot;"
    else if c == '\n' then "<br>"
    else [c]
  }

  /** The character-by-character reference for `EscapeHtml`. */
  function EscapeEach(s: string): string {
    if s == [] then "" else EscapeChar(s[0]) + EscapeEach(s[1..])
  }

  lemma {:induction false} ReplaceCharAppend(a: string, b: string, c: char, rep: string)
    ensures ReplaceChar(a + b, c, rep) == ReplaceChar(a, c, rep) + ReplaceChar(b, c, rep)
  {
    if a != [] {
      assert (a + b)[1..] == a[1..] + b;
      ReplaceCharAppend(a[1..], b, c, rep);
    } else {
      assert a + b == b;
    }
  }

  lemma {:induction false} ReplaceCharAbsent(s: string, c: char, rep: string)
    requires c !in s
    ensures ReplaceChar(s, c, rep) == s
  {
    if s != [] {
      ReplaceCharAbsent(s[1..], c, rep);
      assert s == [s[0]] + s[1..];
    }
  }

  lemma ReplaceCharOne(x: char, c: char, rep: string)
    ensures ReplaceChar([x], c, rep) == if x == c then rep else [x]
  {
    assert [x][1..] == [];
  }

  /** The five passes on the text of one character `c`, which the pass for `c` (if any)
      turns into `e`; no later pass finds anything in `e`. */
  lemma EscapeOne(c: char)
    ensures EscapeHtml([c]) == EscapeChar(c)
  {
    if c == '&' {
      EscapeAmp();
    } else if c == '<' {
      EscapeLt();
    } else if c == '>' {
      EscapeGt();
    } else if c == '"' {
      EscapeQuot();
    } else if c == '\n' {
      EscapeBreak();
    } else {
      EscapePlain(c);
    }
  }

  /** The passes after the first leave alone text holding none of their characters. */
  lemma LaterPassesSkip(e: string)
    requires '<' !in e && '>' !in e && '"' !in e && '\n' !in e
    ensures ReplaceChar(ReplaceChar(ReplaceChar(ReplaceChar(
      e, '<', "&lt;"), '>', "&gt;"), '"', "&quot;"), '\n', "<br>") == e
  {
    ReplaceCharAbsent(e, '<', "&lt;");
    ReplaceCharAbsent(e, '>', "&gt;");
    ReplaceCharAbsent(e, '"', "&quot;");
    ReplaceCharAbsent(e, '\n', "<br>");
  }

  lemma EscapeAmp()
    ensures EscapeHtml("&") == "&amp;"
  {
    ReplaceCharOne('&', '&', "&amp;");
    var e := "&amp;";
    assert e[0] == '&' && e[1] == 'a' && e[2] == 'm' && e[3] == 'p' && e[4] == ';';
    LaterPassesSkip(e);
  }

  lemma EscapeLt()
    ensures EscapeHtml("<") == "&lt;"
  {
    ReplaceCharOne('<', '&', "&amp;");
    ReplaceCharOne('<', '<', "&lt;");
    var e := "&lt;";
    assert e[0] == '&' && e[1] == 'l' && e[2] == 't' && e[3] == ';';
    assert '>' !in e && '"' !in e && '\n' !in e;
    ReplaceCharAbsent(e, '>', "&gt;");
    ReplaceCharAbsent(e, '"', "&quot;");
    ReplaceCharAbsent(e, '\n', "<br>");
  }

  lemma EscapeGt()
    ensures EscapeHtml(">") == "&gt;"
  {
    ReplaceCharOne('>', '&', "&amp;");
    ReplaceCharOne('>', '<', "&lt;");
    ReplaceCharOne('>', '>', "&gt;");
    var e := "&gt;";
    assert e[0] == '&' && e[1] == 'g' && e[2] == 't' && e[3] == ';';
    assert '"' !in e && '\n' !in e;
    ReplaceCharAbsent("&gt;", '"', "&quot;");
    ReplaceCharAbsent("&gt;", '\n', "<br>");
  }

  lemma EscapeQuot()
    ensures EscapeHtml("\"") == "&quot;"
  {
    ReplaceCharOne('"', '&', "&amp;");
    ReplaceCharOne('"', '<', "&lt;");
    ReplaceCharOne('"', '>', "&gt;");
    ReplaceCharOne('"', '"', "&quot;");
    ReplaceCharAbsent("&quot;", '\n', "<br>");
  }

  lemma EscapeBreak()
    ensures EscapeHtml("\n") == "<br>"
  {
    ReplaceCharOne('\n', '&', "&amp;");
    ReplaceCharOne('\n', '<', "&lt;");
    ReplaceCharOne('\n', '>', "&gt;");
    ReplaceCharOne('\n', '"', "&quot;");
    ReplaceCharOne('\n', '\n', "<br>");
  }

  lemma EscapePlain(c: char)
    requires c != '&' && c != '<' && c != '>' && c != '"' && c != '\n'
    ensures EscapeHtml([c]) == [c]
  {
    ReplaceCharOne(c, '&', "&amp;");
    ReplaceCharOne(c, '<', "&lt;");
    ReplaceCharOne(c, '>', "&gt;");
    ReplaceCharOne(c, '"', "&quot;");
    ReplaceCharOne(c, '\n', "<br>");
  }

  /** The five passes compose into a per-character map: no replacement text is touched by a
      later pass except as the source intends (`<br>` is written last). */
  lemma {:induction false} EscapeHtmlPerChar(s: string)
    ensures EscapeHtml(s) == EscapeEach(s)
  {
    if s != [] {
      var a := [s[0]];
      var b := s[1..];
      assert s == a + b;
      var a1 := ReplaceChar(a, '&', "&amp;");
      var b1 := ReplaceChar(b, '&', "&amp;");
      ReplaceCharAppend(a, b, '&', "&amp;");
      var a2 := ReplaceChar(a1, '<', "&lt;");
      var b2 := ReplaceChar(b1, '<', "&lt;");
      ReplaceCharAppend(a1, b1, '<', "&lt;");
      var a3 := ReplaceChar(a2, '>', "&gt;");
      var b3 := ReplaceChar(b2, '>', "&gt;");
      ReplaceCharAppend(a2, b2, '>', "&gt;");
      var a4 := ReplaceChar(a3, '"', "&quot;");
      var b4 := ReplaceChar(b3, '"', "&quot;");
      ReplaceCharAppend(a3, b3, '"', "&quot;");
      ReplaceCharAppend(a4, b4, '\n', "<br>");
      EscapeOne(s[0]);
      EscapeHtmlPerChar(b);
    }
  }

  /** Reads entities back: the decoding that `EscapeHtml` is a left inverse of. */
  function Unescape(t: string): string
    decreases |t|
  {
    if t == [] then ""
    else if StartsWith(t, "&amp;") then "&" + Unescape(t[5..])
    else if StartsWith(t, "&lt;") then "<" + Unescape(t[4..])
    else if StartsWith(t, "&gt;") then ">" + Unescape(t[4..])
    else if StartsWith(t, "&quot;") then "\"" + Unescape(t[6..])
    else if StartsWith(t, "<br>") then "\n" + Unescape(t[4..])
    else [t[0]] + Unescape(t[1..])
  }

  /** Reading back the escape of one character gives the character. */
  lemma UnescapeStep(c: char, rest: string)
    ensures Unescape(EscapeChar(c) + rest) == [c] + Unescape(rest)
  {
    if c == '&' {
      UnescapeAmp(rest);
    } else if c == '<' {
      UnescapeLt(rest);
    } else if c == '>' {
      UnescapeGt(rest);
    } else if c == '"' {
      UnescapeQuot(rest);
    } else if c == '\n' {
      UnescapeBreak(rest);
    } else {
      UnescapePlain(c, rest);
    }
  }

  lemma UnescapeAmp(rest: string)
    ensures Unescape("&amp;" + rest) == "&" + Unescape(rest)
  {
    var t := "&amp;" + rest;
    assert t[..5] == "&amp;" && t[5..] == rest;
  }

  lemma UnescapeLt(rest: string)
    ensures Unescape("&lt;" + rest) == "<" + Unescape(rest)
  {
    var t := "&lt;" + rest;
    assert t[..4] == "&lt;" && t[4..] == rest;
    assert t[1] == 'l';
    assert !StartsWith(t, "&amp;") by {
      if |t| >= 5 {
        assert t[..5][1] != "&amp;"[1];
      }
    }
  }

  lemma UnescapeGt(rest: string)
    ensures Unescape("&gt;" + rest) == ">" + Unescape(rest)
  {
    var t := "&gt;" + rest;
    assert t[..4] == "&gt;" && t[4..] == rest;
    assert t[1] == 'g';
    assert !StartsWith(t, "&amp;") by {
      if |t| >= 5 {
        assert t[..5][1] != "&amp;"[1];
      }
    }
    assert !StartsWith(t, "&lt;") by {
      assert t[..4][1] != "&lt;"[1];
    }
  }

  lemma UnescapeQuot(rest: string)
    ensures Unescape("&quot;" + rest) == "\"" + Unescape(rest)
  {
    var t := "&quot;" + rest;
    assert t[..6] == "&quot;" && t[6..] == rest;
    assert t[1] == 'q';
    assert !StartsWith(t, "&amp;") by {
      assert t[..5][1] != "&amp;"[1];
    }
    assert !StartsWith(t, "&lt;") by {
      assert t[..4][1] != "&lt;"[1];
    }
    assert !StartsWith(t, "&gt;") by {
      assert t[..4][1] != "&gt;"[1];
    }
  }

  lemma UnescapeBreak(rest: string)
    ensures Unescape("<br>" + rest) == "\n" + Unescape(rest)
  {
    var t := "<br>" + rest;
    assert t[..4] == "<br>" && t[4..] == rest;
    assert t[0] == '<';
    assert !StartsWith(t, "&amp;") by {
      if |t| >= 5 {
        assert t[..5][0] != "&amp;"[0];
      }
    }
    assert !StartsWith(t, "&lt;") by {
      assert t[..4][0] != "&lt;"[0];
    }
    assert !StartsWith(t, "&gt;") by {
      assert t[..4][0] != "&gt;"[0];
    }
    assert !StartsWith(t, "&quot;") by {
      if |t| >= 6 {
        assert t[..6][0] != "&quot;"[0];
      }
    }
  }

  lemma UnescapePlain(c: char, rest: string)
    requires c != '&' && c != '<'
    ensures Unescape([c] + rest) == [c] + Unescape(rest)
  {
    var t := [c] + rest;
    assert t[1..] == rest;
    assert !StartsWith(t, "&amp;") by {
      if |t| >= 5 {
        assert t[..5][0] != "&amp;"[0];
      }
    }
    assert !StartsWith(t, "&lt;") by {
      if |t| >= 4 {
        assert t[..4][0] != "&lt;"[0];
      }
    }
    assert !StartsWith(t, "&gt;") by {
      if |t| >= 4 {
        assert t[..4][0] != "&gt;"[0];
      }
    }
    assert !StartsWith(t, "&quot;") by {
      if |t| >= 6 {
        assert t[..6][0] != "&quot;"[0];
      }
    }
    assert !StartsWith(t, "<br>") by {
      if |t| >= 4 {
        assert t[..4][0] != "<br>"[0];
      }
    }
  }

  /** Escaping loses nothing, and leaves no double quote and no line break in the text. */
  lemma {:induction false} EscapeHtmlRoundTrip(s: string)
    ensures Unescape(EscapeHtml(s)) == s
    ensures '"' !in EscapeHtml(s) && '\n' !in EscapeHtml(s)
  {
    EscapeHtmlPerChar(s);
    EscapeEachRoundTrip(s);
  }

  lemma {:induction false} EscapeEachRoundTrip(s: string)
    ensures Unescape(EscapeEach(s)) == s
    ensures '"' !in EscapeEach(s) && '\n' !in EscapeEach(s)
  {
    if s != [] {
      EscapeEachRoundTrip(s[1..]);
      UnescapeStep(s[0], EscapeEach(s[1..]));
      EscapeCharClean(s[0]);
      assert s == [s[0]] + s[1..];
    }
  }

  /** No character escapes to text holding a double quote or a line break. */
  lemma EscapeCharClean(c: char)
    ensures '"' !in EscapeChar(c) && '\n' !in EscapeChar(c)
  {
  }
}
