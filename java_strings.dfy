/** The few `java.lang.String`, `Character` and Spring `StringUtils` queries the
    pattern condition relies on, over `string` (a sequence of characters). */
module JavaStrings {

  /** `Character.isWhitespace` as of JDK 8 (Unicode 6.2): the space, line and
      paragraph separators except the three non-breaking spaces, plus the
      ASCII controls 0x09-0x0D and 0x1C-0x1F. U+180E is still a space
      separator in Unicode 6.2. */
  predicate IsWhitespace(c: char) {
    var n := c as int;
    n == 0x20 || 0x09 <= n <= 0x0D || 0x1C <= n <= 0x1F
    || n == 0x1680 || n == 0x180E || 0x2000 <= n <= 0x2006 || 0x2008 <= n <= 0x200A
    || n == 0x2028 || n == 0x2029 || n == 0x205F || n == 0x3000
  }

  /** `StringUtils.hasLength` on a non-null string. */
  predicate HasLength(s: string) {
    |s| > 0
  }

  /** `StringUtils.hasText` on a non-null string: some character is not whitespace. */
  predicate HasText(s: string) {
    exists i :: 0 <= i < |s| && !IsWhitespace(s[i])
  }

  /** `s.startsWith("/")` */
  predicate StartsWithSlash(s: string) {
    |s| > 0 && s[0] == '/'
  }

  /** `s.endsWith("/")` */
  predicate EndsWithSlash(s: string) {
    |s| > 0 && s[|s| - 1] == '/'
  }

  /** `s.indexOf('.') != -1` */
  predicate ContainsDot(s: string) {
    '.' in s
  }
}
