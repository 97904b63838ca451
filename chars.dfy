/** Character classes and case mappings used by the parser's regular expressions
    and by Python's `str.strip`, `str.lower` and `str.upper`. */
module Chars {

  /** `\d`: decimal digits (ASCII only in this model). */
  predicate IsDigit(c: char) {
    '0' <= c <= '9'
  }

  predicate IsAsciiUpper(c: char) {
    'A' <= c <= 'Z'
  }

  predicate IsAsciiLower(c: char) {
    'a' <= c <= 'z'
  }

  predicate IsAsciiLetter(c: char) {
    IsAsciiUpper(c) || IsAsciiLower(c)
  }

  /** `\s`, and what `str.strip()` removes: Python's Unicode whitespace. */
  predicate IsSpace(c: char) {
    || ('\t' <= c <= '\r')
    || ('\U{1C}' <= c <= '\U{1F}')
    || c == ' '
    || c == '\U{85}'
    || c == '\U{A0}'
    || c == '\U{1680}'
    || ('\U{2000}' <= c <= '\U{200A}')
    || c == '\U{2028}'
    || c == '\U{2029}'
    || c == '\U{202F}'
    || c == '\U{205F}'
    || c == '\U{3000}'
  }

  /** `\w`: ASCII letters and digits, `_`, the Latin letters of U+00C0..U+024F
      (which hold every Turkish letter) and the Latin-1 letters and numerics. */
  predicate IsWordChar(c: char) {
    || IsAsciiLetter(c)
    || IsDigit(c)
    || c == '_'
    || ('\U{C0}' <= c <= '\U{24F}' && c != '\U{D7}' && c != '\U{F7}')
    || c == '\U{AA}' || c == '\U{B2}' || c == '\U{B3}' || c == '\U{B5}'
    || c == '\U{B9}' || c == '\U{BA}' || ('\U{BC}' <= c <= '\U{BE}')
  }

  /** `[A-ZĞÜŞİÖÇ]`: the capitals that may open a name. */
  predicate IsNameUpper(c: char) {
    IsAsciiUpper(c) || c == 'Ğ' || c == 'Ü' || c == 'Ş' || c == 'İ' || c == 'Ö' || c == 'Ç'
  }

  /** Simple lower-case mapping, the comparison behind `re.IGNORECASE`. */
  function Fold(c: char): (r: char)
    ensures IsAsciiUpper(c) ==> IsAsciiLower(r) && r as int == c as int + 32
    ensures !IsAsciiLetter(c) ==> !IsAsciiLetter(r) || c == 'İ'
    ensures IsAsciiLower(c) ==> r == c
  {
    if IsAsciiUpper(c) then (c as int + 32) as char
    else if c == 'Ç' then 'ç'
    else if c == 'Ğ' then 'ğ'
    else if c == 'İ' then 'i'
    else if c == 'Ö' then 'ö'
    else if c == 'Ş' then 'ş'
    else if c == 'Ü' then 'ü'
    else c
  }

  /** `str.lower()` of one character: the simple mapping, except that `İ`
      becomes `i` followed by a combining dot above. */
  function LowerChar(c: char): (r: string)
    ensures |r| >= 1
    ensures ' ' in r <==> c == ' '
  {
    if c == 'İ' then "i\U{307}" else [Fold(c)]
  }

  /** `str.upper()` of one character. */
  function UpperChar(c: char): (r: char)
    ensures IsAsciiLower(c) ==> IsAsciiUpper(r)
    ensures IsAsciiUpper(c) ==> r == c
  {
    if IsAsciiLower(c) then (c as int - 32) as char
    else if c == 'ç' then 'Ç'
    else if c == 'ğ' then 'Ğ'
    else if c == 'ı' then 'I'
    else if c == 'ö' then 'Ö'
    else if c == 'ş' then 'Ş'
    else if c == 'ü' then 'Ü'
    else c
  }

  /** Two characters are equal under `re.IGNORECASE`. */
  predicate FoldEq(a: char, b: char) {
    Fold(a) == Fold(b)
  }
}
