/** Unicode white space, as the standard library's trim uses it. */
module Chars {

  predicate IsWhite(c: char) {
    || '\t' <= c <= '\r' || c == ' ' || c == '\U{0085}' || c == '\U{00A0}' || c == '\U{1680}'
    || '\U{2000}' <= c <= '\U{200A}' || c == '\U{2028}' || c == '\U{2029}' || c == '\U{202F}' || c == '\U{205F}'
    || c == '\U{3000}'
  }

  /** The white space characters by code point. */
  lemma WhiteByCode(c: char)
    ensures var n := c as int;
      IsWhite(c) <==>
        || 9 <= n <= 13 || n == 32 || n == 133 || n == 160 || n == 5760 || 8192 <= n <= 8202 || n == 8232 || n == 8233
        || n == 8239 || n == 8287 || n == 12288
  {
  }

  predicate IsBlank(s: string) { forall i | 0 <= i < |s| :: IsWhite(s[i]) }
}
