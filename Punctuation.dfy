/** `normalizePunctuation` of `src/utils/punctuation.js`: the four normalisers applied in a
    fixed order (quotes, ellipsis, dashes, spacing). */
module Punctuation {
  import opened Text
  import opened Quotes
  import opened Ellipsis
  import opened Dashes
  import opened Spacing

  /** `normalizePunctuation`: quotes, then ellipsis, then dashes, then spacing. */
  function NormalizePunctuation(s: string): (r: string)
    ensures NoCjkThenAlnum(r) && NoAlnumThenCjk(r) && NoDoubleSpace(r)
    ensures WithoutSpaces(r) == WithoutSpaces(NormalizeDash(NormalizeEllipsis(NormalizeQuotes(s))))
  {
    NormalizeSpaces(NormalizeDash(NormalizeEllipsis(NormalizeQuotes(s))))
  }
}
