/** The two per-rune functions of Go's `unicode` package that the parser uses.
    A Go string ranged over rune by rune is a `seq<char>` here: every `char`
    is one Unicode scalar value. */
module Unicode {

  /** `unicode.IsSpace`: the characters with the Unicode White_Space property.
      In Latin-1 these are '\t', '\n', '\v', '\f', '\r', ' ', U+0085 and U+00A0. */
  predicate IsSpace(c: char) {
    var n := c as int;
    (9 <= n <= 13) || n == 0x20 || n == 0x85 || n == 0xA0 || n == 0x1680 ||
    (0x2000 <= n <= 0x200A) || n == 0x2028 || n == 0x2029 || n == 0x202F ||
    n == 0x205F || n == 0x3000
  }

  /** Below U+0100, exactly '\t', '\n', '\v', '\f', '\r', ' ', U+0085 and U+00A0
      are white space. */
  lemma IsSpaceLatin1(c: char)
    requires c as int < 0x100
    ensures IsSpace(c) <==> c as int in {9, 10, 11, 12, 13, 0x20, 0x85, 0xA0}
  {
  }

  /** `unicode.ToLower` on one rune. ASCII 'A'..'Z' and the Latin-1 capitals
      U+00C0..U+00DE (except the multiplication sign U+00D7) move up by 0x20;
      every other rune is its own lower case in this model. */
  function ToLowerRune(c: char): (r: char)
    ensures 'A' <= c <= 'Z' ==> r as int == c as int + 0x20 && 'a' <= r <= 'z'
    ensures c as int < 0x80 && !('A' <= c <= 'Z') ==> r == c
    ensures r == '.' <==> c == '.'
    ensures r == '+' <==> c == '+'
  {
    if 'A' <= c <= 'Z' || (0xC0 <= c as int <= 0xDE && c as int != 0xD7) then
      (c as int + 0x20) as char
    else
      c
  }
}
