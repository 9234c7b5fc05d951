/** `formatText` and `inlineStyles` of `src/utils/formatter.js`: normalise the punctuation,
    split the text into blocks, and write the blocks inside a `<section>` carrying the base
    style. */
module Format {
  import opened Text
  import opened Punctuation
  import opened Parser
  import opened Styles
  import opened Layout
  import opened Render

  /** The opening tag of the section around the whole output. */
  function SectionOpen(s: Settings): string {
    "<section style=\"" + BaseStyle(s) + "\">\n"
  }

  /** The intended output: the section holds, in order, one list per run of list items and
      one piece per other block of the normalised text's structure. */
  function Formatted(text: string, s: Settings): string {
    SectionOpen(s) + Document(Parse(Split(NormalizePunctuation(text), '\n')), HtmlWriter(s)) + "</section>"
  }

  /** `formatText(text, settings)`. */
  method FormatText(text: string, s: Settings) returns (html: string)
    ensures html == Formatted(text, s)
  {
    var normalized := NormalizePunctuation(text);
    var blocks := ParseStructure(normalized);
    var w := HtmlWriter(s);
    html := SectionOpen(s);
    html := WriteBlocks(html, blocks, w);
    html := html + "</section>";
  }

  /** `inlineStyles(html)`: the styles are already inline, so the HTML is returned as it is. */
  function InlineStyles(html: string): (r: string)
    ensures r == html
  {
    html
  }
}
