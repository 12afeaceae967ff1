/**
  Code points and their UTF-16 code units, as section 2.1 of RFC 2781 gives
  them. It stands for the `Character.IsValidCodePoint` and
  `Character.ToChars` helpers that the code-point searches call.
*/
module Utf16 {
  import opened TextTypes

  const MinCodePoint: int := 0
  const MinSupplementaryCodePoint: int := 0x1_0000
  const MaxCodePoint: int := 0x10_FFFF

  predicate IsValidCodePoint(codePoint: int) {
    MinCodePoint <= codePoint <= MaxCodePoint
  }

  predicate IsSupplementary(codePoint: int) {
    MinSupplementaryCodePoint <= codePoint <= MaxCodePoint
  }

  /** The leading unit of a surrogate pair: 0xD800 plus the top ten bits of
      `codePoint - 0x10000`. */
  function HighSurrogate(codePoint: int): (hi: Char16)
    requires IsSupplementary(codePoint)
    ensures 0xD800 <= hi <= 0xDBFF
  {
    0xD800 + (codePoint - MinSupplementaryCodePoint) / 0x400
  }

  /** The trailing unit: 0xDC00 plus the low ten bits. */
  function LowSurrogate(codePoint: int): (lo: Char16)
    requires IsSupplementary(codePoint)
    ensures 0xDC00 <= lo <= 0xDFFF
  {
    0xDC00 + (codePoint - MinSupplementaryCodePoint) % 0x400
  }

  /** The code units of a valid code point: itself below 0x10000, a
      surrogate pair above. */
  function ToChars(codePoint: int): (units: Text)
    requires IsValidCodePoint(codePoint)
    ensures |units| == if IsSupplementary(codePoint) then 2 else 1
  {
    if codePoint < MinSupplementaryCodePoint then [codePoint]
    else [HighSurrogate(codePoint), LowSurrogate(codePoint)]
  }

  /** Decoding of one code point from one unit or a surrogate pair. */
  function ToCodePoint(units: Text): int
    requires |units| == 1 || (|units| == 2 && 0xD800 <= units[0] <= 0xDBFF && 0xDC00 <= units[1] <= 0xDFFF)
  {
    if |units| == 1 then units[0]
    else (units[0] - 0xD800) * 0x400 + (units[1] - 0xDC00) + MinSupplementaryCodePoint
  }

  /** Decoding the units of a code point gives the code point back, so
      distinct code points have distinct unit sequences. */
  lemma ToCharsRoundTrip(codePoint: int)
    requires IsValidCodePoint(codePoint)
    ensures var units := ToChars(codePoint);
      (|units| == 1 || (0xD800 <= units[0] <= 0xDBFF && 0xDC00 <= units[1] <= 0xDFFF))
      && ToCodePoint(units) == codePoint
  {
    if IsSupplementary(codePoint) {
      var d := codePoint - MinSupplementaryCodePoint;
      assert d == (d / 0x400) * 0x400 + d % 0x400;
    }
  }

  lemma ToCharsInjective(a: int, b: int)
    requires IsValidCodePoint(a) && IsValidCodePoint(b) && ToChars(a) == ToChars(b)
    ensures a == b
  {
    ToCharsRoundTrip(a);
    ToCharsRoundTrip(b);
  }
}
