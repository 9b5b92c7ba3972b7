/** Character classes used by the normaliser, the server validator and the browser checks.
    Characters are Unicode scalar values. */
module Chars {

  const IDEOGRAPHIC_SPACE: char := '\U{3000}'
  const LONG_VOWEL_MARK: char := '\U{30FC}'      // ー
  const HORIZONTAL_BAR: char := '\U{2015}'       // ―
  const FULLWIDTH_HYPHEN: char := '\U{FF0D}'     // －
  const FULLWIDTH_OPEN: char := '\U{FF08}'       // （
  const FULLWIDTH_CLOSE: char := '\U{FF09}'      // ）

  predicate IsAsciiDigit(c: char) {
    '0' <= c <= '9'
  }

  predicate IsAsciiAlnum(c: char) {
    IsAsciiDigit(c) || 'A' <= c <= 'Z' || 'a' <= c <= 'z'
  }

  /** ０ … ９ (U+FF10 … U+FF19), the only characters the `n` mode of mb_convert_kana rewrites. */
  predicate IsFullWidthDigit(c: char) {
    '\U{FF10}' <= c <= '\U{FF19}'
  }

  /** The half-width digit with the same value as a full-width one; any other character is kept. */
  function HalfWidthDigit(c: char): (r: char)
    ensures IsFullWidthDigit(c) ==> IsAsciiDigit(r) && r as int - '0' as int == c as int - '\U{FF10}' as int
    ensures !IsFullWidthDigit(c) ==> r == c
  {
    if IsFullWidthDigit(c) then (c as int - 0xFF10 + '0' as int) as char else c
  }

  /** PCRE's `\s` without the `u` modifier: space, tab, line feed, vertical tab, form feed, carriage return. */
  predicate IsAsciiSpace(c: char) {
    c == ' ' || c == '\t' || c == '\n' || c == '\U{000B}' || c == '\U{000C}' || c == '\r'
  }

  /** PCRE's `\s` under PHP's `u` modifier, which also turns on Unicode properties: `\p{Z}`,
      `\h` and `\v` together. That is the ASCII spaces, every space separator (Zs), the line and
      paragraph separators, next line (U+0085, in `\v`) and the Mongolian vowel separator
      (U+180E, in `\h`). */
  predicate IsUnicodeSpace(c: char) {
    || IsAsciiSpace(c)
    || c == '\U{0085}' || c == '\U{00A0}' || c == '\U{1680}' || c == '\U{180E}'
    || ('\U{2000}' <= c <= '\U{200A}')
    || c == '\U{2028}' || c == '\U{2029}' || c == '\U{202F}' || c == '\U{205F}'
    || c == IDEOGRAPHIC_SPACE
  }

  /** The characters PHP's trim() removes by default: space, tab, line feed, carriage return, NUL, vertical tab. */
  predicate IsPhpTrimChar(c: char) {
    c == ' ' || c == '\t' || c == '\n' || c == '\r' || c == '\U{0000}' || c == '\U{000B}'
  }

  /** The whitespace PHP skips in front of a numeric string: space, tab, line feed, carriage return, vertical tab, form feed. */
  predicate IsPhpNumericSpace(c: char) {
    c == ' ' || c == '\t' || c == '\n' || c == '\r' || c == '\U{000B}' || c == '\U{000C}'
  }

  /** The three glyphs the normaliser rewrites to an ASCII hyphen: ー, ― and －. */
  predicate IsHyphenLike(c: char) {
    c == LONG_VOWEL_MARK || c == HORIZONTAL_BAR || c == FULLWIDTH_HYPHEN
  }

  /** The kanji numerals one to ten, in value order. */
  const KANJI_NUMERALS: string := "一二三四五六七八九十"

  predicate IsKanjiNumeral(c: char)
    ensures IsKanjiNumeral(c) <==> c in KANJI_NUMERALS
  {
    || c == '一' || c == '二' || c == '三' || c == '四' || c == '五'
    || c == '六' || c == '七' || c == '八' || c == '九' || c == '十'
  }

  /** ぁ (U+3041) … ん (U+3093): the range `ぁ-ん` in the server and browser kana rules. */
  predicate IsHiraganaRange(c: char) {
    '\U{3041}' <= c <= '\U{3093}'
  }
}
