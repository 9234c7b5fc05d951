/** The inline CSS of `formatText` in `src/utils/formatter.js`, one function per entry of its
    `styles` object. The six settings are interpolated as the text JavaScript prints for
    them; the numeric ones are carried here as that text. */
module Styles {

  /** The user's typesetting settings. */
  datatype Settings = Settings(
    textColor: string,
    fontSize: string,
    lineHeight: string,
    letterSpacing: string,
    paragraphMargin: string,
    accentColor: string)

  function BaseStyle(s: Settings): string {
    "font-family: -apple-system, BlinkMacSystemFont, 'Segoe UI', 'Noto Sans SC', sans-serif; " +
    "color: " + s.textColor + "; font-size: " + s.fontSize + "px; line-height: " + s.lineHeight +
    "; letter-spacing: " + s.letterSpacing + "px;"
  }

  function H1Style(s: Settings): string {
    "font-size: 22px; font-weight: 700; color: " + s.textColor +
    "; margin-bottom: 24px; line-height: 1.4; text-align: center;"
  }

  function H2Style(s: Settings): string {
    "font-size: 18px; font-weight: 600; color: " + s.textColor +
    "; margin: 24px 0 16px 0; padding-left: 12px; border-left: 4px solid " + s.accentColor +
    "; line-height: 1.5;"
  }

  function H3Style(s: Settings): string {
    "font-size: 16px; font-weight: 600; color: " + s.textColor + "; margin: 20px 0 12px 0;"
  }

  function ParagraphStyle(s: Settings): string {
    "margin-bottom: " + s.paragraphMargin + "px; text-align: justify;"
  }

  function QuoteStyle(s: Settings): string {
    "background: #f7f7f8; border-left: 4px solid " + s.accentColor +
    "; padding: 16px 20px; margin: 20px 0; color: #595959; font-size: 14px; line-height: 1.8;"
  }

  function CodeBlockStyle(): string {
    "background: #1e1e1e; color: #d4d4d4; padding: 16px 20px; margin: 20px 0; " +
    "border-radius: 8px; font-family: 'SF Mono', Menlo, Monaco, monospace; font-size: 13px; " +
    "line-height: 1.6; overflow-x: auto; white-space: pre-wrap;"
  }

  function RuleStyle(s: Settings): string {
    "width: 100%; height: 1px; background-color: " + s.accentColor + "; margin: 24px 0; border: none;"
  }

  function HighlightStyle(s: Settings): string {
    "background: linear-gradient(to right, " + s.accentColor + "15, " + s.accentColor + "08); " +
    "padding: 16px 20px; margin: 20px 0; border-radius: 8px; font-size: 15px; line-height: 1.8; " +
    "color: " + s.textColor + ";"
  }

  function TableStyle(): string {
    "width: 100%; border-collapse: collapse; margin: 20px 0; font-size: 14px;"
  }

  function HeaderCellStyle(s: Settings): string {
    "background: " + s.accentColor + "15; padding: 12px 16px; border: 1px solid #e5e5e5; " +
    "text-align: left; font-weight: 600;"
  }

  function DataCellStyle(): string {
    "padding: 12px 16px; border: 1px solid #e5e5e5;"
  }

  function TodoStyle(): string {
    "display: flex; align-items: flex-start; gap: 8px; margin-bottom: 8px;"
  }

  function TodoBoxStyle(s: Settings): string {
    "width: 16px; height: 16px; border: 2px solid " + s.accentColor +
    "; border-radius: 3px; margin-top: 3px; flex-shrink: 0;"
  }

  function TodoBoxDoneStyle(s: Settings): string {
    "width: 16px; height: 16px; background: " + s.accentColor + "; border: 2px solid " +
    s.accentColor + "; border-radius: 3px; margin-top: 3px; flex-shrink: 0; position: relative;"
  }

  /** The tick drawn inside a done to-do box. */
  function Tick(): string {
    "<svg viewBox=\"0 0 12 12\" width=\"12\" height=\"12\" style=\"position:absolute;left:0;top:0;\">" +
    "<path fill=\"white\" d=\"M10 3L4.5 8.5 2 6\" stroke=\"white\" stroke-width=\"2\" fill=\"none\"/>" +
    "</svg>"
  }
}
