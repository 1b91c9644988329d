/** Text as the C++ code sees it: sequences of signed characters. */
module Text {
  type schar = c: int | -128 <= c < 128
  type Chars = seq<schar>

  const TAB: schar := 9
  const LF: schar := 10
  const CR: schar := 13
  const SPACE: schar := 32
  const COLON: schar := 58

  predicate IsDigit(c: schar) {
    '0' as int <= c <= '9' as int
  }

  predicate IsUpper(c: schar) {
    'A' as int <= c <= 'Z' as int
  }

  predicate IsLower(c: schar) {
    'a' as int <= c <= 'z' as int
  }

  /** The characters of a literal. */
  function Codes(s: string): (r: Chars)
    requires forall i :: 0 <= i < |s| ==> s[i] < 128 as char
    ensures |r| == |s| && forall i :: 0 <= i < |s| ==> r[i] == s[i] as int
  {
    seq(|s|, i requires 0 <= i < |s| => s[i] as int)
  }
}
