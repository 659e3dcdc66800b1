/** CESU-8 (Unicode Technical Report #26) as functions on byte sequences, standing for the
    cesu8 package that the transformers call. A value up to U+FFFF is written as in UTF-8
    (1 to 3 bytes); a value above U+FFFF is first split into a UTF-16 surrogate pair
    (section 2.1 of RFC 2781) and each surrogate is written as a 3-byte unit, 6 bytes in all.

    The decoder here is strict: it accepts exactly the CESU-8 encodings of scalar values
    (no overlong forms, no 4-byte forms, no lone surrogates). */
module Cesu8 {
  import opened Runes

  /** The maximum number of bytes of one CESU-8 run. */
  const CESU_MAX := 6

  /** cesu8.RuneLen: the number of bytes of the CESU-8 encoding of r, or -1 when r is out
      of the code point range. Surrogate values count 3, as a single unit does. */
  function RuneLen(r: int): (n: int)
    ensures n == -1 <==> !(0 <= r <= MAX_RUNE)
    ensures 0 <= r <= 0xFFFF ==> 1 <= n <= 3
    ensures 0xFFFF < r <= MAX_RUNE ==> n == CESU_MAX
  {
    if r < 0 then -1
    else if r <= 0x7F then 1
    else if r <= 0x7FF then 2
    else if r <= 0xFFFF then 3
    else if r <= MAX_RUNE then CESU_MAX
    else -1
  }

  /** The high and low surrogate of a value above U+FFFF, and the value a pair stands for. */
  function HighSurrogate(r: int): (high: int) { 0xD800 + (r - 0x10000) / 0x400 }
  function LowSurrogate(r: int): (low: int) { 0xDC00 + (r - 0x10000) % 0x400 }
  function CombineSurrogates(high: int, low: int): (r: int) { 0x10000 + (high - 0xD800) * 0x400 + (low - 0xDC00) }

  /** Splitting a supplementary value into surrogates and combining them gives it back. */
  lemma SurrogatesCombine(r: int)
    requires 0x10000 <= r <= MAX_RUNE
    ensures 0xD800 <= HighSurrogate(r) <= 0xDBFF && 0xDC00 <= LowSurrogate(r) <= 0xDFFF
    ensures CombineSurrogates(HighSurrogate(r), LowSurrogate(r)) == r
  {
  }

  /** Combining a high and a low surrogate and splitting the result gives them back. */
  lemma CombineSplits(high: int, low: int)
    requires 0xD800 <= high <= 0xDBFF && 0xDC00 <= low <= 0xDFFF
    ensures 0x10000 <= CombineSurrogates(high, low) <= MAX_RUNE
    ensures HighSurrogate(CombineSurrogates(high, low)) == high
    ensures LowSurrogate(CombineSurrogates(high, low)) == low
  {
    DivMod1024(CombineSurrogates(high, low) - 0x10000, high - 0xD800, low - 0xDC00);
  }

  /** The bytes cesu8.EncodeRune writes for r. Surrogate values are written as single
      units; a value out of the code point range is written as U+FFFD. */
  function RuneBytes(r: int): (b: seq<byte>)
    ensures 0 <= r <= MAX_RUNE ==> |b| == RuneLen(r)
    ensures 1 <= |b| <= CESU_MAX
    ensures b[0] < RUNE_SELF <==> 0 <= r < RUNE_SELF
    ensures 0 <= r < RUNE_SELF ==> b == [r]
  {
    if r < 0 || MAX_RUNE < r then Bytes3(RUNE_ERROR)
    else if r <= 0x7F then [r]
    else if r <= 0x7FF then Bytes2(r)
    else if r <= 0xFFFF then Bytes3(r)
    else
      SurrogatesCombine(r);
      Bytes3(HighSurrogate(r)) + Bytes3(LowSurrogate(r))
  }

  /** The CESU-8 encoding of a sequence of runes. */
  function EncodeAll(rs: seq<int>): (b: seq<byte>)
    decreases |rs|, 1
  {
    if rs == [] then [] else EncodeFirst(rs)
  }

  /** The encoding of a non-empty sequence of runes: its first rune's, then the rest's. */
  function EncodeFirst(rs: seq<int>): (b: seq<byte>)
    requires rs != []
    decreases |rs|, 0
  {
    RuneBytes(rs[0]) + EncodeAll(rs[1..])
  }

  /** cesu8.EncodeRune(p[at:], r): writes the encoding of r at offset at and returns its length. */
  method EncodeRune(p: array<byte>, at: nat, r: int) returns (n: nat)
    requires at + |RuneBytes(r)| <= p.Length
    modifies p
    ensures n == |RuneBytes(r)| && p[..] == old(p[..at]) + RuneBytes(r) + old(p[at + n..])
  {
    var b := RuneBytes(r);
    forall k | 0 <= k < |b| {
      p[at + k] := b[k];
    }
    n := |b|;
  }

  /** What the CESU-8 decoder finds at the start of p. A 1- to 3-byte unit is read as in
      UTF-8, except that the lead 0xED admits the high-surrogate second bytes 0xA0..0xAF
      (but not the low-surrogate ones 0xB0..0xBF); a high-surrogate unit must be followed
      by a low-surrogate unit. A malformed unit has width 1; a high surrogate that is not
      followed by a low one has width 3. */
  function Next(p: seq<byte>): (n: Next)
    ensures n.Bad? ==> 1 <= n.width <= |p|
    ensures n.Run? ==> 1 <= n.width <= |p|
  {
    if |p| == 0 then Short
    else
      var b0 := p[0];
      if b0 < RUNE_SELF then Run(b0, 1)
      else if b0 < 0xC2 || 0xEF < b0 then Bad(1)
      else if b0 < 0xE0 then
        if |p| < 2 then Short
        else if !IsCont(p[1]) then Bad(1)
        else Run(Value2(b0, p[1]), 2)
      else
        var lo := if b0 == 0xE0 then 0xA0 else 0x80;
        var hi := if b0 == 0xED then 0xAF else 0xBF;
        if |p| < 2 then Short
        else if !(lo <= p[1] <= hi) then Bad(1)
        else if |p| < 3 then Short
        else if !IsCont(p[2]) then Bad(1)
        else if b0 != 0xED || p[1] < 0xA0 then Run(Value3(b0, p[1], p[2]), 3)
        else if |p| < 4 then Short
        else if p[3] != 0xED then Bad(3)
        else if |p| < 5 then Short
        else if !(0xB0 <= p[4] <= 0xBF) then Bad(3)
        else if |p| < 6 then Short
        else if !IsCont(p[5]) then Bad(3)
        else Run(CombineSurrogates(Value3(b0, p[1], p[2]), Value3(p[3], p[4], p[5])), 6)
  }

  /** cesu8.FullRune: p begins with a complete run, valid or not. */
  predicate FullRune(p: seq<byte>) {
    !Next(p).Short?
  }

  /** cesu8.DecodeRune: the first rune of p and its width; RUNE_ERROR when p does not begin
      with a valid encoding, the width then covering the offending bytes. */
  function DecodeRune(p: seq<byte>): (res: (int, nat))
    ensures |p| > 0 ==> 1 <= res.1 <= |p|
    ensures res.0 != RUNE_ERROR ==> Next(p) == Run(res.0, res.1)
  {
    match Next(p)
    case Run(r, n) => (r, n)
    case Bad(n) => (RUNE_ERROR, n)
    case Short => (RUNE_ERROR, if |p| == 0 then 0 else 1)
  }

  /** A decoded run depends only on its own bytes: appending bytes does not change it. */
  lemma NextExtend(p: seq<byte>, t: seq<byte>)
    requires Next(p).Run?
    ensures Next(p + t) == Next(p)
  {
    var q := p + t;
    forall k | 0 <= k < |p| ensures q[k] == p[k] { }
  }

  /** Every scalar value's encoding is decoded back to it, whatever follows it. */
  lemma DecodeRuneBytes(r: int, t: seq<byte>)
    requires IsScalar(r)
    ensures Next(RuneBytes(r) + t) == Run(r, |RuneBytes(r)|)
  {
    var b := RuneBytes(r);
    var p := b + t;
    forall k | 0 <= k < |b| ensures p[k] == b[k] { }
    if 0x80 <= r <= 0x7FF {
      Bytes2Value(r);
    } else if 0x800 <= r <= 0xFFFF {
      Bytes3Value(r);
    } else if 0x10000 <= r {
      var high, low := HighSurrogate(r), LowSurrogate(r);
      SurrogatesCombine(r);
      Bytes3Value(high);
      Bytes3Value(low);
      assert b == Bytes3(high) + Bytes3(low);
    }
  }

  /** A decoded run is the encoding of a scalar value: in particular no surrogate is
      ever decoded on its own. */
  lemma RunIsRuneBytes(p: seq<byte>)
    requires Next(p).Run?
    ensures var n := Next(p);
      IsScalar(n.rune) && n.width == |RuneBytes(n.rune)| && p[..n.width] == RuneBytes(n.rune)
  {
    var b0 := p[0];
    if b0 < RUNE_SELF {
    } else if b0 < 0xE0 {
      Value2Bytes(b0, p[1]);
    } else if b0 != 0xED || p[1] < 0xA0 {
      Value3Bytes(b0, p[1], p[2]);
    } else {
      var high, low := Value3(p[0], p[1], p[2]), Value3(p[3], p[4], p[5]);
      Value3Bytes(p[0], p[1], p[2]);
      Value3Bytes(p[3], p[4], p[5]);
      CombineSplits(high, low);
      assert p[..6] == [p[0], p[1], p[2]] + [p[3], p[4], p[5]];
    }
  }

  /** An incomplete run is a proper prefix of the encoding of some scalar value r. */
  lemma ShortIsPrefix(p: seq<byte>) returns (r: int)
    requires |p| > 0 && Next(p).Short?
    ensures IsScalar(r) && p < RuneBytes(r)
  {
    var b0 := p[0];
    if b0 < 0xE0 {
      r := Value2(b0, 0x80);
      Value2Bytes(b0, 0x80);
    } else if b0 != 0xED || |p| == 1 || p[1] < 0xA0 {
      var b1 := if |p| >= 2 then p[1] else if b0 == 0xE0 then 0xA0 else 0x80;
      r := Value3(b0, b1, 0x80);
      Value3Bytes(b0, b1, 0x80);
    } else {
      var b2 := if |p| >= 3 then p[2] else 0x80;
      var b4 := if |p| >= 5 then p[4] else 0xB0;
      r := PairBytes(p[1], b2, b4);
      var full := [0xED, p[1], b2, 0xED, b4, 0x80];
      assert |p| <= 5;
      forall k | 0 <= k < |p| ensures p[k] == full[k] { }
    }
  }

  /** The supplementary value whose encoding is ED b1 b2 ED b4 80. */
  lemma PairBytes(b1: byte, b2: byte, b4: byte) returns (r: int)
    requires 0xA0 <= b1 <= 0xAF && IsCont(b2) && 0xB0 <= b4 <= 0xBF
    ensures IsScalar(r) && RuneBytes(r) == [0xED, b1, b2, 0xED, b4, 0x80]
  {
    var high, low := Value3(0xED, b1, b2), Value3(0xED, b4, 0x80);
    Value3Bytes(0xED, b1, b2);
    Value3Bytes(0xED, b4, 0x80);
    r := CombineSurrogates(high, low);
    CombineSplits(high, low);
  }

  /** Conversely, every proper prefix of the encoding of a scalar value is incomplete. */
  lemma PrefixIsShort(p: seq<byte>, r: int)
    requires IsScalar(r) && |p| > 0 && p < RuneBytes(r)
    ensures Next(p).Short?
  {
    var b := RuneBytes(r);
    forall k | 0 <= k < |p| ensures p[k] == b[k] { }
    if 0x80 <= r <= 0x7FF {
      Bytes2Value(r);
    } else if 0x800 <= r <= 0xFFFF {
      Bytes3Value(r);
    } else if 0x10000 <= r {
      var high, low := HighSurrogate(r), LowSurrogate(r);
      SurrogatesCombine(r);
      Bytes3Value(high);
      Bytes3Value(low);
      assert b == Bytes3(high) + Bytes3(low);
    }
  }
}
