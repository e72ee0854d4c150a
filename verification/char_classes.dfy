/**
 * The character classes Python's `re` and `str` methods use on text (`str` patterns,
 * Unicode mode): `\s` and `str.strip()`, `\d`, and the line boundaries of
 * `str.splitlines()`. Characters are Unicode scalar values, as in Python 3 `str`.
 */
module CharClasses {

  /** Python `str.isspace()`, which is also what `\s` and argument-less `strip()` use. */
  predicate IsSpace(c: char) {
    var n := c as int;
    || (0x09 <= n <= 0x0D)        // \t \n \v \f \r
    || (0x1C <= n <= 0x20)        // file/group/record/unit separators, space
    || n == 0x85 || n == 0xA0 || n == 0x1680
    || (0x2000 <= n <= 0x200A)
    || n == 0x2028 || n == 0x2029 || n == 0x202F || n == 0x205F || n == 0x3000
  }

  /** The boundaries at which `str.splitlines()` cuts (`\r\n` is handled by the splitter). */
  predicate IsLineBreak(c: char) {
    var n := c as int;
    || (0x0A <= n <= 0x0D)        // \n \v \f \r
    || (0x1C <= n <= 0x1E)
    || n == 0x85 || n == 0x2028 || n == 0x2029
  }

  /** `n` lies in the run of ten decimal digits that starts at code point `zero`. */
  predicate InDigitRun(n: int, zero: int) {
    zero <= n < zero + 10
  }

  /** Python `\d` on `str`: a Unicode decimal digit (general category Nd, Unicode 15.1). */
  predicate IsDigit(c: char) {
    var n := c as int;
    || InDigitRun(n, 0x30) || InDigitRun(n, 0x660) || InDigitRun(n, 0x6F0) || InDigitRun(n, 0x7C0)
    || InDigitRun(n, 0x966) || InDigitRun(n, 0x9E6) || InDigitRun(n, 0xA66) || InDigitRun(n, 0xAE6)
    || InDigitRun(n, 0xB66) || InDigitRun(n, 0xBE6) || InDigitRun(n, 0xC66) || InDigitRun(n, 0xCE6)
    || InDigitRun(n, 0xD66) || InDigitRun(n, 0xDE6) || InDigitRun(n, 0xE50) || InDigitRun(n, 0xED0)
    || InDigitRun(n, 0xF20) || InDigitRun(n, 0x1040) || InDigitRun(n, 0x1090) || InDigitRun(n, 0x17E0)
    || InDigitRun(n, 0x1810) || InDigitRun(n, 0x1946) || InDigitRun(n, 0x19D0) || InDigitRun(n, 0x1A80)
    || InDigitRun(n, 0x1A90) || InDigitRun(n, 0x1B50) || InDigitRun(n, 0x1BB0) || InDigitRun(n, 0x1C40)
    || InDigitRun(n, 0x1C50) || InDigitRun(n, 0xA620) || InDigitRun(n, 0xA8D0) || InDigitRun(n, 0xA900)
    || InDigitRun(n, 0xA9D0) || InDigitRun(n, 0xA9F0) || InDigitRun(n, 0xAA50) || InDigitRun(n, 0xABF0)
    || InDigitRun(n, 0xFF10) || InDigitRun(n, 0x104A0) || InDigitRun(n, 0x10D30) || InDigitRun(n, 0x11066)
    || InDigitRun(n, 0x110F0) || InDigitRun(n, 0x11136) || InDigitRun(n, 0x111D0) || InDigitRun(n, 0x112F0)
    || InDigitRun(n, 0x11450) || InDigitRun(n, 0x114D0) || InDigitRun(n, 0x11650) || InDigitRun(n, 0x116C0)
    || InDigitRun(n, 0x11730) || InDigitRun(n, 0x118E0) || InDigitRun(n, 0x11950) || InDigitRun(n, 0x11C50)
    || InDigitRun(n, 0x11D50) || InDigitRun(n, 0x11DA0) || InDigitRun(n, 0x11F50) || InDigitRun(n, 0x16A60)
    || InDigitRun(n, 0x16AC0) || InDigitRun(n, 0x16B50) || InDigitRun(n, 0x1E140) || InDigitRun(n, 0x1E2F0)
    || InDigitRun(n, 0x1E4F0) || InDigitRun(n, 0x1E950) || InDigitRun(n, 0x1FBF0)
    || (0x1D7CE <= n <= 0x1D7FF)  // mathematical bold/double-struck/sans-serif/monospace digits
  }

  /** Every line boundary is whitespace, so `strip()` also removes a boundary at either end. */
  lemma LineBreakIsSpace(c: char)
    requires IsLineBreak(c)
    ensures IsSpace(c)
  {
  }

  /** Digits, whitespace and the dot are pairwise disjoint, so the idea marker is unambiguous. */
  lemma MarkerClassesDisjoint(c: char)
    ensures IsDigit(c) ==> !IsSpace(c) && c != '.'
    ensures IsSpace(c) ==> c != '.'
  {
  }
}
