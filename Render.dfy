/** The HTML pieces `formatText` in `src/utils/formatter.js` writes: the list tags, a list
    item, each of the other block types of its `switch`, and the tags and cells of a table. */
module Render {
  import opened Parser
  import opened Inline
  import opened Escape
  import opened Styles
  import opened Layout

  // ---------------------------------------------------------------------------
  // Lists
  // ---------------------------------------------------------------------------

  /** The tag name a list type is printed as: `listType` is `null` outside a list. */
  function ListName(lt: ListType): string {
    match lt
    case NoList => "null"
    case Ul => "ul"
    case Ol => "ol"
  }

  function OpenList(lt: ListType): string {
    "<" + ListName(lt) + " style=\"margin: 16px 0; padding-left: 24px;\">\n"
  }

  function CloseList(lt: ListType): string {
    "</" + ListName(lt) + ">\n"
  }

  /** A list item: its content inline-formatted inside an `<li>`. */
  function ItemHtml(b: Block, s: Settings): string {
    var text := if b.Block? then b.content else "";
    "  <li style=\"margin-bottom: 8px; color: " + s.textColor + ";\">" +
    FormatInline(text, s.accentColor) + "</li>\n"
  }

  // ---------------------------------------------------------------------------
  // Tables
  // ---------------------------------------------------------------------------

  /** One cell: `th` with the header style in the first row, `td` elsewhere. */
  function CellHtml(cell: string, header: bool, s: Settings): string {
    var tag := if header then "th" else "td";
    var style := if header then HeaderCellStyle(s) else DataCellStyle();
    "    <" + tag + " style=\"" + style + "\">" + FormatInline(cell, s.accentColor) + "</" + tag + ">\n"
  }

  // ---------------------------------------------------------------------------
  // The other blocks
  // ---------------------------------------------------------------------------

  /** The `switch` on the block type, for blocks that are not list items: a code block is
      escaped instead of inline-formatted, and any type without a case is a paragraph. */
  function BlockHtml(kind: Kind, text: string, s: Settings): string {
    var content := FormatInline(text, s.accentColor);
    match kind
    case H1 => "<h1 style=\"" + H1Style(s) + "\">" + content + "</h1>\n"
    case H2 => "<h2 style=\"" + H2Style(s) + "\">" + content + "</h2>\n"
    case H3 => "<h3 style=\"" + H3Style(s) + "\">" + content + "</h3>\n"
    case Quote => "<blockquote style=\"" + QuoteStyle(s) + "\">" + content + "</blockquote>\n"
    case Code => "<pre style=\"" + CodeBlockStyle() + "\">" + EscapeHtml(text) + "</pre>\n"
    case Hr => "<div style=\"" + RuleStyle(s) + "\"></div>\n"
    case Highlight => "<div style=\"" + HighlightStyle(s) + "\">" + content + "</div>\n"
    case Todo =>
      "<div style=\"" + TodoStyle() + "\"><div style=\"" + TodoBoxStyle(s) + "\"></div><span>" +
      content + "</span></div>\n"
    case TodoDone =>
      "<div style=\"" + TodoStyle() + "\"><div style=\"" + TodoBoxDoneStyle(s) + "\">" + Tick() +
      "</div><span style=\"text-decoration: line-through; opacity: 0.6;\">" + content + "</span></div>\n"
    case _ => "<p style=\"" + ParagraphStyle(s) + "\">" + content + "</p>\n"
  }

  /** The pieces `formatText` writes with the given settings. */
  function HtmlWriter(s: Settings): Writer {
    Writer(
      openList := lt => OpenList(lt),
      closeList := lt => CloseList(lt),
      item := b => ItemHtml(b, s),
      other := (kind, text) => BlockHtml(kind, text, s),
      tableOpen := "<table style=\"" + TableStyle() + "\">\n",
      tableClose := "</table>\n",
      rowOpen := "  <tr>\n",
      rowClose := "  </tr>\n",
      cell := (cell, header) => CellHtml(cell, header, s))
  }
}
