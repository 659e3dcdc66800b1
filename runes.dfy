/** Bytes, runes and the 2-, 3- and 4-byte unit arithmetic shared by UTF-8 and CESU-8. */
module Runes {

  /** A byte of a Go byte slice. */
  type byte = b: int | 0 <= b < 0x100

  /** Bytes below this value stand for themselves in both encodings. */
  const RUNE_SELF := 0x80
  /** U+FFFD, the value Go's decoders return for malformed input. */
  const RUNE_ERROR := 0xFFFD
  const MAX_RUNE := 0x10FFFF
  const SURROGATE_MIN := 0xD800
  const SURROGATE_MAX := 0xDFFF

  /** A Unicode scalar value: a code point that is not a surrogate. */
  predicate IsScalar(r: int) {
    0 <= r <= MAX_RUNE && !(SURROGATE_MIN <= r <= SURROGATE_MAX)
  }

  /** A continuation byte 10xxxxxx. */
  predicate IsCont(b: byte) {
    0x80 <= b <= 0xBF
  }

  /** What a decoder finds at the start of a byte sequence: an incomplete run,
      a malformed run of the given width, or one rune of the given width. */
  datatype Next = Short | Bad(width: nat) | Run(rune: int, width: nat)

  /** The two bytes 110xxxxx 10xxxxxx of a value in 0x80..0x7FF. */
  function Bytes2(v: int): (b: seq<byte>)
    requires 0x80 <= v <= 0x7FF
  {
    [0xC0 + v / 64, 0x80 + v % 64]
  }

  /** The three bytes 1110xxxx 10xxxxxx 10xxxxxx of a value in 0x800..0xFFFF. */
  function Bytes3(v: int): (b: seq<byte>)
    requires 0x800 <= v <= 0xFFFF
  {
    [0xE0 + v / 64 / 64, 0x80 + v / 64 % 64, 0x80 + v % 64]
  }

  /** The four bytes 11110xxx 10xxxxxx 10xxxxxx 10xxxxxx of a value in 0x10000..0x10FFFF. */
  function Bytes4(v: int): (b: seq<byte>)
    requires 0x10000 <= v <= MAX_RUNE
  {
    [0xF0 + v / 64 / 64 / 64, 0x80 + v / 64 / 64 % 64, 0x80 + v / 64 % 64, 0x80 + v % 64]
  }

  /** The value carried by a lead byte and its continuation bytes (the lead's
      marker bits are removed by subtraction, which equals masking for these ranges). */
  function Value2(b0: byte, b1: byte): (r: int) { (b0 - 0xC0) * 64 + (b1 - 0x80) }
  function Value3(b0: byte, b1: byte, b2: byte): (r: int) { (b0 - 0xE0) * 4096 + (b1 - 0x80) * 64 + (b2 - 0x80) }
  function Value4(b0: byte, b1: byte, b2: byte, b3: byte): (r: int) {
    (b0 - 0xF0) * 262144 + (b1 - 0x80) * 4096 + (b2 - 0x80) * 64 + (b3 - 0x80)
  }

  lemma DivMod64(x: int, q: int, r: int)
    requires 0 <= r < 64 && x == q * 64 + r
    ensures x / 64 == q && x % 64 == r
  {
  }

  lemma DivMod1024(x: int, q: int, r: int)
    requires 0 <= r < 1024 && x == q * 1024 + r
    ensures x / 1024 == q && x % 1024 == r
  {
  }

  /** Decoding the two bytes of v gives v back. */
  lemma Bytes2Value(v: int)
    requires 0x80 <= v <= 0x7FF
    ensures var b := Bytes2(v); 0xC2 <= b[0] <= 0xDF && IsCont(b[1]) && Value2(b[0], b[1]) == v
  {
  }

  lemma Bytes3Value(v: int)
    requires 0x800 <= v <= 0xFFFF
    ensures var b := Bytes3(v);
      0xE0 <= b[0] <= 0xEF && IsCont(b[1]) && IsCont(b[2]) && Value3(b[0], b[1], b[2]) == v
  {
    var q1 := v / 64;
    assert v == q1 * 64 + v % 64;
    assert q1 == q1 / 64 * 64 + q1 % 64;
  }

  lemma Bytes4Value(v: int)
    requires 0x10000 <= v <= MAX_RUNE
    ensures var b := Bytes4(v);
      0xF0 <= b[0] <= 0xF4 && IsCont(b[1]) && IsCont(b[2]) && IsCont(b[3]) &&
      Value4(b[0], b[1], b[2], b[3]) == v
  {
    var q1 := v / 64;
    var q2 := q1 / 64;
    assert v == q1 * 64 + v % 64;
    assert q1 == q2 * 64 + q1 % 64;
    assert q2 == q2 / 64 * 64 + q2 % 64;
  }

  /** Encoding the value of two well-formed bytes gives the same bytes back. */
  lemma Value2Bytes(b0: byte, b1: byte)
    requires 0xC2 <= b0 <= 0xDF && IsCont(b1)
    ensures 0x80 <= Value2(b0, b1) <= 0x7FF && Bytes2(Value2(b0, b1)) == [b0, b1]
  {
    DivMod64(Value2(b0, b1), b0 - 0xC0, b1 - 0x80);
  }

  lemma Value3Bytes(b0: byte, b1: byte, b2: byte)
    requires 0xE0 <= b0 <= 0xEF && IsCont(b1) && IsCont(b2) && Value3(b0, b1, b2) >= 0x800
    ensures Value3(b0, b1, b2) <= 0xFFFF && Bytes3(Value3(b0, b1, b2)) == [b0, b1, b2]
  {
    var v := Value3(b0, b1, b2);
    DivMod64(v, (b0 - 0xE0) * 64 + (b1 - 0x80), b2 - 0x80);
    DivMod64(v / 64, b0 - 0xE0, b1 - 0x80);
  }

  lemma Value4Bytes(b0: byte, b1: byte, b2: byte, b3: byte)
    requires 0xF0 <= b0 <= 0xF4 && IsCont(b1) && IsCont(b2) && IsCont(b3)
    requires 0x10000 <= Value4(b0, b1, b2, b3) <= MAX_RUNE
    ensures Bytes4(Value4(b0, b1, b2, b3)) == [b0, b1, b2, b3]
  {
    var v := Value4(b0, b1, b2, b3);
    DivMod64(v, (b0 - 0xF0) * 4096 + (b1 - 0x80) * 64 + (b2 - 0x80), b3 - 0x80);
    DivMod64(v / 64, (b0 - 0xF0) * 64 + (b1 - 0x80), b2 - 0x80);
    DivMod64(v / 64 / 64, b0 - 0xF0, b1 - 0x80);
  }
}
