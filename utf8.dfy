/** The parts of Go's unicode/utf8 package that the transformers call, as functions on
    byte sequences: UTF-8 as defined in section 3 of RFC 3629 (no surrogates, no overlong
    forms, nothing above U+10FFFF). */
module Utf8 {
  import opened Runes

  /** utf8.RuneLen: the number of bytes of the UTF-8 encoding of r, or -1 when r is not a scalar value. */
  function RuneLen(r: int): (n: int)
    ensures n == -1 <==> !IsScalar(r)
    ensures IsScalar(r) ==> 1 <= n <= 4
    ensures n == 4 <==> IsScalar(r) && r > 0xFFFF
  {
    if r < 0 then -1
    else if r <= 0x7F then 1
    else if r <= 0x7FF then 2
    else if SURROGATE_MIN <= r <= SURROGATE_MAX then -1
    else if r <= 0xFFFF then 3
    else if r <= MAX_RUNE then 4
    else -1
  }

  /** The bytes utf8.EncodeRune writes for r; a value that is not a scalar value is
      written as U+FFFD. */
  function RuneBytes(r: int): (b: seq<byte>)
    ensures IsScalar(r) ==> |b| == RuneLen(r)
    ensures 1 <= |b| <= 4
    ensures b[0] < RUNE_SELF <==> 0 <= r < RUNE_SELF
    ensures 0 <= r < RUNE_SELF ==> b == [r]
  {
    if !IsScalar(r) then Bytes3(RUNE_ERROR)
    else if r <= 0x7F then [r]
    else if r <= 0x7FF then Bytes2(r)
    else if r <= 0xFFFF then Bytes3(r)
    else Bytes4(r)
  }

  /** The UTF-8 encoding of a sequence of runes. */
  function EncodeAll(rs: seq<int>): (b: seq<byte>)
    decreases |rs|, 1
  {
    if rs == [] then [] else EncodeFirst(rs)
  }

  /** The encoding of a non-empty sequence of runes: its first rune's, then the rest's. */
  function EncodeFirst(rs: seq<int>): (b: seq<byte>)
    requires rs != []
    decreases |rs|, 0
  {
    RuneBytes(rs[0]) + EncodeAll(rs[1..])
  }

  /** utf8.EncodeRune(p[at:], r): writes the encoding of r at offset at and returns its length. */
  method EncodeRune(p: array<byte>, at: nat, r: int) returns (n: nat)
    requires at + |RuneBytes(r)| <= p.Length
    modifies p
    ensures n == |RuneBytes(r)| && p[..] == old(p[..at]) + RuneBytes(r) + old(p[at + n..])
  {
    var b := RuneBytes(r);
    forall k | 0 <= k < |b| {
      p[at + k] := b[k];
    }
    n := |b|;
  }

  /** What Go's UTF-8 decoder finds at the start of p. The lead byte fixes the length
      and the range allowed for the second byte (its first/acceptRanges tables); every
      further byte must be a continuation byte. A malformed run has width 1. */
  function Next(p: seq<byte>): (n: Next)
    ensures n.Bad? ==> n.width == 1 && |p| > 0
    ensures n.Run? ==> 1 <= n.width <= |p|
  {
    if |p| == 0 then Short
    else
      var b0 := p[0];
      if b0 < RUNE_SELF then Run(b0, 1)
      else if b0 < 0xC2 || 0xF4 < b0 then Bad(1)
      else if b0 < 0xE0 then
        if |p| < 2 then Short
        else if !IsCont(p[1]) then Bad(1)
        else Run(Value2(b0, p[1]), 2)
      else
        var lo := if b0 == 0xE0 then 0xA0 else if b0 == 0xF0 then 0x90 else 0x80;
        var hi := if b0 == 0xED then 0x9F else if b0 == 0xF4 then 0x8F else 0xBF;
        if |p| < 2 then Short
        else if !(lo <= p[1] <= hi) then Bad(1)
        else if |p| < 3 then Short
        else if !IsCont(p[2]) then Bad(1)
        else if b0 < 0xF0 then Run(Value3(b0, p[1], p[2]), 3)
        else if |p| < 4 then Short
        else if !IsCont(p[3]) then Bad(1)
        else Run(Value4(b0, p[1], p[2], p[3]), 4)
  }

  /** utf8.FullRune: p begins with a complete run, valid or not. */
  predicate FullRune(p: seq<byte>) {
    !Next(p).Short?
  }

  /** utf8.DecodeRune: the first rune of p and its width; RUNE_ERROR when p does not begin
      with a valid encoding. */
  function DecodeRune(p: seq<byte>): (res: (int, nat))
    ensures |p| > 0 ==> 1 <= res.1 <= |p|
    ensures res.0 != RUNE_ERROR ==> Next(p) == Run(res.0, res.1)
  {
    match Next(p)
    case Run(r, n) => (r, n)
    case Bad(n) => (RUNE_ERROR, n)
    case Short => (RUNE_ERROR, if |p| == 0 then 0 else 1)
  }

  /** A decoded run depends only on its own bytes: appending bytes does not change it. */
  lemma NextExtend(p: seq<byte>, t: seq<byte>)
    requires Next(p).Run?
    ensures Next(p + t) == Next(p)
  {
    var q := p + t;
    assert q[0] == p[0];
    if |p| >= 2 { assert q[1] == p[1]; }
    if |p| >= 3 { assert q[2] == p[2]; }
    if |p| >= 4 { assert q[3] == p[3]; }
  }

  /** Every scalar value's encoding is decoded back to it, whatever follows it. */
  lemma DecodeRuneBytes(r: int, t: seq<byte>)
    requires IsScalar(r)
    ensures Next(RuneBytes(r) + t) == Run(r, |RuneBytes(r)|)
  {
    var b := RuneBytes(r);
    var p := b + t;
    assert p[0] == b[0];
    if 0x80 <= r <= 0x7FF {
      Bytes2Value(r);
      assert p[1] == b[1];
    } else if 0x800 <= r <= 0xFFFF {
      Bytes3Value(r);
      assert p[1] == b[1] && p[2] == b[2];
    } else if 0x10000 <= r {
      Bytes4Value(r);
      assert p[1] == b[1] && p[2] == b[2] && p[3] == b[3];
    }
  }

  /** A decoded run is the encoding of a scalar value. */
  lemma RunIsRuneBytes(p: seq<byte>)
    requires Next(p).Run?
    ensures var n := Next(p);
      IsScalar(n.rune) && n.width == |RuneBytes(n.rune)| && p[..n.width] == RuneBytes(n.rune)
  {
    var b0 := p[0];
    if b0 < RUNE_SELF {
    } else if b0 < 0xE0 {
      Value2Bytes(b0, p[1]);
    } else if b0 < 0xF0 {
      Value3Bytes(b0, p[1], p[2]);
    } else {
      Value4Bytes(b0, p[1], p[2], p[3]);
    }
  }

  /** An incomplete run is a proper prefix of the encoding of some scalar value r. */
  lemma ShortIsPrefix(p: seq<byte>) returns (r: int)
    requires |p| > 0 && Next(p).Short?
    ensures IsScalar(r) && p < RuneBytes(r)
  {
    var b0 := p[0];
    if b0 < 0xE0 {
      r := Value2(b0, 0x80);
      Value2Bytes(b0, 0x80);
    } else if b0 < 0xF0 {
      var b1 := if |p| >= 2 then p[1] else if b0 == 0xE0 then 0xA0 else 0x80;
      r := Value3(b0, b1, 0x80);
      Value3Bytes(b0, b1, 0x80);
    } else {
      var b1 := if |p| >= 2 then p[1] else if b0 == 0xF0 then 0x90 else 0x80;
      var b2 := if |p| >= 3 then p[2] else 0x80;
      r := Value4(b0, b1, b2, 0x80);
      Value4Bytes(b0, b1, b2, 0x80);
    }
  }

  /** Conversely, every proper prefix of the encoding of a scalar value is incomplete. */
  lemma PrefixIsShort(p: seq<byte>, r: int)
    requires IsScalar(r) && |p| > 0 && p < RuneBytes(r)
    ensures Next(p).Short?
  {
    var b := RuneBytes(r);
    assert p[0] == b[0];
    if 0x80 <= r <= 0x7FF {
      Bytes2Value(r);
    } else if 0x800 <= r <= 0xFFFF {
      Bytes3Value(r);
      if |p| >= 2 { assert p[1] == b[1]; }
    } else if 0x10000 <= r {
      Bytes4Value(r);
      if |p| >= 2 { assert p[1] == b[1]; }
      if |p| >= 3 { assert p[2] == b[2]; }
    }
  }
}
