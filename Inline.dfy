/** `formatInline` of `src/utils/formatter.js`: four global replacements applied one after
    the other (code spans, bold, italic, percentages), each writing an HTML element with
    inline styles around the captured text. */
module Inline {
  import opened Text
  import opened Patterns
  import opened Replace

  /** The tags `formatInline` writes around each kind of match. */
  function OpenTag(p: Pass, accent: string): string {
    match p
    case CodeSpan =>
      "<code style=\"" + "background: #f3f4f6; " + "color: #e83e8c; " + "padding: 2px 6px; " +
      "border-radius: 4px; " + "font-family: Menlo, Monaco, monospace; " + "font-size: 0.9em;" + "\">"
    case Bold => "<strong style=\"color: " + accent + "; font-weight: 700;\">"
    case Italic => "<em style=\"font-style: italic;\">"
    case Percent => "<span style=\"color: " + accent + "; font-weight: 600;\">"
  }

  function CloseTag(p: Pass): string {
    match p
    case CodeSpan => "</code>"
    case Bold => "</strong>"
    case Italic => "</em>"
    case Percent => "</span>"
  }

  /** `formatInline(text, accentColor)`: code spans, then bold, then italic, then percentages.
      The accent colour is spliced into the tags as it is; JavaScript would expand a `$`
      pattern in it, so the model agrees with the source for colours without `$`. */
  function FormatInline(text: string, accent: string): string {
    var code := ReplaceAll(CodeSpan, OpenTag(CodeSpan, accent), CloseTag(CodeSpan), text);
    var bold := ReplaceAll(Bold, OpenTag(Bold, accent), CloseTag(Bold), code);
    var italic := ReplaceAll(Italic, OpenTag(Italic, accent), CloseTag(Italic), bold);
    ReplaceAll(Percent, OpenTag(Percent, accent), CloseTag(Percent), italic)
  }

  // Properties of the replacements

  /** Text without backtick or asterisk, in which no `%` completes a percentage, leaves
      `formatInline` unchanged. */
  lemma FormatInlinePlain(text: string, accent: string)
    requires '`' !in text && '*' !in text
    requires forall i :: 0 <= i < |text| ==> MatchLen(Percent, text[i..]) == 0
    ensures FormatInline(text, accent) == text
  {
    NoTriggerUnchanged(CodeSpan, OpenTag(CodeSpan, accent), CloseTag(CodeSpan), text);
    NoTriggerUnchanged(Bold, OpenTag(Bold, accent), CloseTag(Bold), text);
    NoTriggerUnchanged(Italic, OpenTag(Italic, accent), CloseTag(Italic), text);
    NoMatchUnchanged(Percent, OpenTag(Percent, accent), CloseTag(Percent), text);
  }

  /** The characters the later passes look for do not occur in the code-span tag. */
  lemma CodeTagFree(accent: string)
    ensures '*' !in OpenTag(CodeSpan, accent) && '%' !in OpenTag(CodeSpan, accent)
  {
    CodeTagNoStar(accent);
    CodeTagNoPercent(accent);
  }

  lemma CodeTagNoStar(accent: string)
    ensures '*' !in OpenTag(CodeSpan, accent)
  {
  }

  lemma CodeTagNoPercent(accent: string)
    ensures '%' !in OpenTag(CodeSpan, accent)
  {
  }

  /** The accent-coloured bold tags hold an asterisk or a percent sign only if the colour does. */
  lemma BoldTagsFree(accent: string)
    requires '*' !in accent && '%' !in accent
    ensures '*' !in OpenTag(Bold, accent) && '%' !in OpenTag(Bold, accent)
  {
  }

  /** `**text**` over plain text becomes the accent-coloured `<strong>` element, and the later
      passes leave it alone when the accent colour is free of their triggers. */
  lemma BoldWraps(b: string, accent: string)
    requires b != [] && '`' !in b && '*' !in b && '%' !in b
    requires '*' !in accent && '%' !in accent && '$' !in accent
    ensures FormatInline("**" + b + "**", accent) ==
      "<strong style=\"color: " + accent + "; font-weight: 700;\">" + b + "</strong>"
  {
    var s := "**" + b + "**";
    assert '`' !in s;
    var code := ReplaceAll(CodeSpan, OpenTag(CodeSpan, accent), CloseTag(CodeSpan), s);
    NoTriggerUnchanged(CodeSpan, OpenTag(CodeSpan, accent), CloseTag(CodeSpan), s);
    var out := OpenTag(Bold, accent) + b + CloseTag(Bold);
    WholeMatch(Bold, OpenTag(Bold, accent), CloseTag(Bold), b);
    BoldTagsFree(accent);
    assert out == OpenTag(Bold, accent) + b + CloseTag(Bold);
    assert '*' !in out && '%' !in out;
    NoTriggerUnchanged(Italic, OpenTag(Italic, accent), CloseTag(Italic), out);
    NoTriggerUnchanged(Percent, OpenTag(Percent, accent), CloseTag(Percent), out);
  }

  /** A percentage is wrapped in the accent-coloured `<span>`. */
  lemma PercentWraps(w: string, accent: string)
    requires IsPercent(w) && '$' !in accent
    ensures FormatInline(w, accent) ==
      "<span style=\"color: " + accent + "; font-weight: 600;\">" + w + "</span>"
  {
    PercentHasNoDelims(w);
    NoTriggerUnchanged(CodeSpan, OpenTag(CodeSpan, accent), CloseTag(CodeSpan), w);
    NoTriggerUnchanged(Bold, OpenTag(Bold, accent), CloseTag(Bold), w);
    NoTriggerUnchanged(Italic, OpenTag(Italic, accent), CloseTag(Italic), w);
    assert "" + w + "" == w;
    WholeMatch(Percent, OpenTag(Percent, accent), CloseTag(Percent), w);
  }

  /** Text inside a code span is not protected from the later passes: `` `*x*` `` puts an
      `<em>` element inside the `<code>` element. */
  lemma ItalicInsideCode(b: string, accent: string)
    requires b != [] && '`' !in b && '*' !in b && '%' !in b
    ensures FormatInline("`*" + b + "*`", accent) ==
      OpenTag(CodeSpan, accent) + "<em style=\"font-style: italic;\">" + b + "</em>" + "</code>"
  {
    var inner := "*" + b + "*";
    var c := OpenTag(CodeSpan, accent);
    var e := CloseTag(CodeSpan);
    var code := c + inner + e;
    var italic := c + OpenTag(Italic, accent) + b + CloseTag(Italic) + e;
    assert ReplaceAll(CodeSpan, c, e, "`*" + b + "*`") == code by {
      assert "`*" + b + "*`" == "`" + inner + "`";
      WholeMatch(CodeSpan, c, e, inner);
    }
    CodeTagFree(accent);
    assert ReplaceAll(Bold, OpenTag(Bold, accent), CloseTag(Bold), code) == code by {
      BoldSkipsSingleStars(OpenTag(Bold, accent), CloseTag(Bold), c, b, e);
    }
    assert ReplaceAll(Italic, OpenTag(Italic, accent), CloseTag(Italic), code) == italic by {
      ItalicWrapsMiddle(OpenTag(Italic, accent), CloseTag(Italic), c, b, e);
    }
    assert ReplaceAll(Percent, OpenTag(Percent, accent), CloseTag(Percent), italic) == italic by {
      assert '%' !in italic;
      NoTriggerUnchanged(Percent, OpenTag(Percent, accent), CloseTag(Percent), italic);
    }
  }
}
