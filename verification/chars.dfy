/** Character units and the C-locale character classes used by the
    converter tool (`std::isdigit`, `std::isspace`). */
module Chars {

  /** One octet of a `std::string`, read as unsigned. */
  type Byte = x: int | 0 <= x < 0x100

  /** One 32-bit `wchar_t`, read as its unsigned bit pattern. */
  type Wide = x: int | 0 <= x < 0x1_0000_0000

  const Tab: Byte := 0x09
  const LineFeed: Byte := 0x0A
  const CarriageReturn: Byte := 0x0D
  const Space: Byte := 0x20
  const Hash: Byte := 0x23
  const Slash: Byte := 0x2F
  const Zero: Byte := 0x30
  const Nine: Byte := 0x39
  const Colon: Byte := 0x3A
  const LeftBracket: Byte := 0x5B
  const RightBracket: Byte := 0x5D
  const Pipe: Byte := 0x7C

  /** `std::isdigit` in the "C" locale. */
  predicate IsDigit(c: int) {
    Zero <= c <= Nine
  }

  /** `std::isspace` in the "C" locale: space, \t, \n, \v, \f and \r. */
  predicate IsSpace(c: int) {
    c == Space || Tab <= c <= CarriageReturn
  }

  /** Every unit lies in the basic multilingual plane: it fits the 16 bits
      of an `unsigned short`. */
  predicate Bmp(s: seq<Wide>) {
    forall i :: 0 <= i < |s| ==> s[i] < 0x1_0000
  }
}
