/** The two streaming transformers of the unicode package: UTF-8 to CESU-8 and CESU-8 to
    UTF-8. Each Transform call scans src from left to right and fills dst from left to
    right, one rune at a time, and reports how much of each it used and why it stopped. */
module Unicode {
  import opened Runes
  import Utf8
  import Cesu8

  /** The err result of a Transform call. */
  datatype Status =
    | Ok                                    // nil: all of src was consumed
    | ErrShortDst                           // the next run does not fit into dst
    | ErrShortSrc                           // src ends inside a multi-byte run
    | ErrInvalidUtf8                        // the sentinel for invalid UTF-8
    | InvalidCesu8Error(p: int, v: seq<byte>) // invalid CESU-8 at p; v copies the bad bytes

  /** The bytes a call wrote (dst[:nDst]), nSrc and err. */
  datatype Outcome = Outcome(out: seq<byte>, nSrc: nat, err: Status)

  /** o with the bytes w written in front of its own. */
  function Prepend(w: seq<byte>, o: Outcome): (r: Outcome)
    ensures r.nSrc == o.nSrc && r.err == o.err && |r.out| == |w| + |o.out|
  {
    Outcome(w + o.out, o.nSrc, o.err)
  }

  /** o, a call's outcome on src[k:], with its source offsets counted from the start of
      src instead: nSrc and the position of an InvalidCesu8Error move up by k. */
  function Shift(k: nat, o: Outcome): (r: Outcome)
    ensures r.out == o.out && r.nSrc == o.nSrc + k
    ensures r.err.InvalidCesu8Error? <==> o.err.InvalidCesu8Error?
    ensures o.err.InvalidCesu8Error? ==> r.err.p == o.err.p + k && r.err.v == o.err.v
    ensures !o.err.InvalidCesu8Error? ==> r.err == o.err
  {
    var e := if o.err.InvalidCesu8Error? then InvalidCesu8Error(o.err.p + k, o.err.v) else o.err;
    Outcome(o.out, o.nSrc + k, e)
  }

  /** newInvalidCesu8Error: the error value owns a fresh copy of the offending bytes. */
  method NewInvalidCesu8Error(p: int, v: seq<byte>) returns (e: Status)
    ensures e.InvalidCesu8Error? && e.p == p && e.v == v
  {
    var cv := new byte[|v|];
    forall k | 0 <= k < |v| {
      cv[k] := v[k];
    }
    e := InvalidCesu8Error(p, cv[..]);
  }

  /** The two transformers, which differ only in which codec decodes and which encodes. */
  datatype Direction = Utf8ToCesu8 | Cesu8ToUtf8

  function SourceNext(d: Direction, p: seq<byte>): (x: Next) {
    if d.Utf8ToCesu8? then Utf8.Next(p) else Cesu8.Next(p)
  }

  predicate SourceFullRune(d: Direction, p: seq<byte>) {
    if d.Utf8ToCesu8? then Utf8.FullRune(p) else Cesu8.FullRune(p)
  }

  function SourceDecodeRune(d: Direction, p: seq<byte>): (res: (int, nat))
    ensures |p| > 0 ==> 1 <= res.1 <= |p|
    ensures res.0 != RUNE_ERROR ==> SourceNext(d, p) == Run(res.0, res.1)
  {
    if d.Utf8ToCesu8? then Utf8.DecodeRune(p) else Cesu8.DecodeRune(p)
  }

  /** The encoding of r on the source side and on the target side. */
  function SourceBytes(d: Direction, r: int): (b: seq<byte>) {
    if d.Utf8ToCesu8? then Utf8.RuneBytes(r) else Cesu8.RuneBytes(r)
  }

  function TargetBytes(d: Direction, r: int): (b: seq<byte>) {
    if d.Utf8ToCesu8? then Cesu8.RuneBytes(r) else Utf8.RuneBytes(r)
  }

  function TargetRuneLen(d: Direction, r: int): (m: int) {
    if d.Utf8ToCesu8? then Cesu8.RuneLen(r) else Utf8.RuneLen(r)
  }

  function SourceEncodeAll(d: Direction, rs: seq<int>): (b: seq<byte>) {
    if d.Utf8ToCesu8? then Utf8.EncodeAll(rs) else Cesu8.EncodeAll(rs)
  }

  function TargetEncodeAll(d: Direction, rs: seq<int>): (b: seq<byte>) {
    if d.Utf8ToCesu8? then Cesu8.EncodeAll(rs) else Utf8.EncodeAll(rs)
  }

  /** The error for malformed source bytes v at position i: a bare sentinel for UTF-8,
      a positioned error with the bytes for CESU-8. */
  function InvalidError(d: Direction, i: nat, v: seq<byte>): (e: Status) {
    if d.Utf8ToCesu8? then ErrInvalidUtf8 else InvalidCesu8Error(i, v)
  }

  /** A rune the source decoder accepts is a scalar value: its source run is exactly its
      source encoding, and its target encoding has the length TargetRuneLen reports. */
  lemma DecodedRune(d: Direction, p: seq<byte>)
    requires SourceFullRune(d, p) && SourceDecodeRune(d, p).0 != RUNE_ERROR
    ensures var (r, n) := SourceDecodeRune(d, p);
      IsScalar(r) && n == |SourceBytes(d, r)| && p[..n] == SourceBytes(d, r) &&
      |TargetBytes(d, r)| == TargetRuneLen(d, r)
  {
    if d.Utf8ToCesu8? {
      Utf8.RunIsRuneBytes(p);
    } else {
      Cesu8.RunIsRuneBytes(p);
    }
  }

  // ---------------------------------------------------------------------------
  // What a call does, as a function of its inputs

  /** What the rest of a Transform call does from source offset i when room bytes of dst
      are left: the bytes it writes, the nSrc it reports and its err. The call ends when
      src is used up, and otherwise goes on byte by byte (ScanByte). */
  function Scan(d: Direction, src: seq<byte>, i: nat, room: nat): (o: Outcome)
    requires i <= |src|
    decreases |src| - i, 2
  {
    if i == |src| then Outcome([], i, Ok) else ScanByte(d, src, i, room)
  }

  /** The byte at offset i: an ASCII byte is copied as it is; any other lead byte starts a
      multi-byte run (ScanRune). */
  function ScanByte(d: Direction, src: seq<byte>, i: nat, room: nat): (o: Outcome)
    requires i < |src|
    decreases |src| - i, 1
  {
    if src[i] < RUNE_SELF then
      if room < 1 then Outcome([], i, ErrShortDst)
      else Prepend([src[i]], Scan(d, src, i + 1, room - 1))
    else ScanRune(d, src, i, room)
  }

  /** The multi-byte run at offset i: it must be complete and valid, and its target
      encoding must fit whole into the room left. */
  function ScanRune(d: Direction, src: seq<byte>, i: nat, room: nat): (o: Outcome)
    requires i < |src|
    decreases |src| - i, 0
  {
    if !SourceFullRune(d, src[i..]) then Outcome([], i, ErrShortSrc)
    else
      var (r, n) := SourceDecodeRune(d, src[i..]);
      if r == RUNE_ERROR then Outcome([], i, InvalidError(d, i, src[i..i + n]))
      else
        var m := TargetRuneLen(d, r);
        if room < m then Outcome([], i, ErrShortDst)
        else Prepend(TargetBytes(d, r), Scan(d, src, i + n, room - m))
  }

  /** Scan itself, under the name the loop invariant and the properties use for what is
      left of a call at source offset i. It is a separate wrapper only so that stating a
      fact about the rest of a call does not unfold the scan's first step. */
  ghost function Rest(d: Direction, src: seq<byte>, i: nat, room: nat): (o: Outcome)
    requires i <= |src|
  {
    Scan(d, src, i, room)
  }

  /** The loop invariant of both Transform methods: dst holds the out bytes written so far
      followed by its original bytes orig, and out followed by what is left of the call
      makes up the whole call total. */
  ghost predicate Progress(d: Direction, src: seq<byte>, dst: array<byte>, orig: seq<byte>,
                           total: Outcome, out: seq<byte>, i: nat, j: nat)
    reads dst
  {
    i <= |src| && |out| == j <= dst.Length == |orig| &&
    dst[..] == out + orig[j..] &&
    total == Prepend(out, Rest(d, src, i, dst.Length - j))
  }

  // ---------------------------------------------------------------------------
  // The transformers

  /** utf8ToCesu8Transformer.Transform. atEOF is accepted and never read. */
  method Utf8ToCesu8Transform(dst: array<byte>, src: seq<byte>, atEOF: bool)
    returns (nDst: nat, nSrc: nat, err: Status)
    modifies dst
    ensures nDst <= dst.Length && nSrc <= |src| && (err == Ok <==> nSrc == |src|)
    ensures Outcome(dst[..nDst], nSrc, err) == Scan(Utf8ToCesu8, src, 0, dst.Length)
    ensures dst[nDst..] == old(dst[nDst..])
  {
    ScanBounds(Utf8ToCesu8, src, 0, dst.Length);
    ghost var total := Scan(Utf8ToCesu8, src, 0, dst.Length);
    ghost var orig := dst[..];
    ghost var out: seq<byte> := [];
    var i: nat, j: nat := 0, 0;
    while i < |src|
      invariant Progress(Utf8ToCesu8, src, dst, orig, total, out, i, j)
      decreases |src| - i
    {
      var i', j';
      i', j', err, out := Utf8ToCesu8Step(dst, src, i, j, orig, total, out);
      if err != Ok {
        Finish(Utf8ToCesu8, src, dst, orig, total, out, i, j, err);
        return j, i, err;
      }
      i, j := i', j';
    }
    Finish(Utf8ToCesu8, src, dst, orig, total, out, i, j, Ok);
    return j, i, Ok;
  }

  /** One iteration of the loop of utf8ToCesu8Transformer.Transform: an ASCII byte is
      copied if there is room for it; any other lead byte is left to Utf8ToCesu8Rune. On an
      error nothing is written and the call ends there. */
  method Utf8ToCesu8Step(dst: array<byte>, src: seq<byte>, i: nat, j: nat,
                         ghost orig: seq<byte>, ghost total: Outcome, ghost out: seq<byte>)
    returns (i': nat, j': nat, err: Status, ghost out': seq<byte>)
    requires i < |src| && Progress(Utf8ToCesu8, src, dst, orig, total, out, i, j)
    modifies dst
    ensures err == Ok ==> i < i' && Progress(Utf8ToCesu8, src, dst, orig, total, out', i', j')
    ensures err != Ok ==> out' == out && Progress(Utf8ToCesu8, src, dst, orig, total, out, i, j)
    ensures err != Ok ==> Rest(Utf8ToCesu8, src, i, dst.Length - j) == Outcome([], i, err)
  {
    if src[i] < RUNE_SELF {
      if j < dst.Length {
        out' := CopyAscii(Utf8ToCesu8, dst, src, i, j, orig, total, out);
        return i + 1, j + 1, Ok, out';
      } else {
        assert ScanByte(Utf8ToCesu8, src, i, dst.Length - j) == Outcome([], i, ErrShortDst);
        return i, j, ErrShortDst, out;
      }
    }
    var n, m;
    n, m, err, out' := Utf8ToCesu8Rune(dst, src, i, j, orig, total, out);
    return i + n, j + m, err, out';
  }

  /** The multi-byte branch of utf8ToCesu8Transformer.Transform: decode one UTF-8 run at
      src[i..] and, if it is complete, valid and its CESU-8 form fits, write that form at
      dst[j..] and return the widths n and m of the two runs. Otherwise write nothing and
      return the error that ends the call. */
  method Utf8ToCesu8Rune(dst: array<byte>, src: seq<byte>, i: nat, j: nat,
                         ghost orig: seq<byte>, ghost total: Outcome, ghost out: seq<byte>)
    returns (n: nat, m: nat, err: Status, ghost out': seq<byte>)
    requires i < |src| && RUNE_SELF <= src[i] && Progress(Utf8ToCesu8, src, dst, orig, total, out, i, j)
    modifies dst
    ensures err == Ok ==> 0 < n && Progress(Utf8ToCesu8, src, dst, orig, total, out', i + n, j + m)
    ensures err != Ok ==> out' == out && Progress(Utf8ToCesu8, src, dst, orig, total, out, i, j)
    ensures err != Ok ==> Rest(Utf8ToCesu8, src, i, dst.Length - j) == Outcome([], i, err)
  {
    assert ScanByte(Utf8ToCesu8, src, i, dst.Length - j) == ScanRune(Utf8ToCesu8, src, i, dst.Length - j);
    if !Utf8.FullRune(src[i..]) {
      return 0, 0, ErrShortSrc, out;
    }
    var rn := Utf8.DecodeRune(src[i..]);
    var r := rn.0;
    n := rn.1;
    if r == RUNE_ERROR {
      return 0, 0, ErrInvalidUtf8, out;
    }
    Utf8.RunIsRuneBytes(src[i..]);
    m := Cesu8.RuneLen(r);
    if m == -1 {
      // the internal-error panic: every decoded rune has a CESU-8 length
      assert false;
    }
    if j + m <= dst.Length {
      ScanRunStep(Utf8ToCesu8, src, i, dst.Length - j);
      assert SourceDecodeRune(Utf8ToCesu8, src[i..]) == (r, n);
      PrependPrepend(out, Cesu8.RuneBytes(r), Rest(Utf8ToCesu8, src, i + n, dst.Length - (j + m)));
      SplitAt(out, orig[j..]);
      assert orig[j..][m..] == orig[j + m..];
      var _ := Cesu8.EncodeRune(dst, j, r);
      return n, m, Ok, out + Cesu8.RuneBytes(r);
    } else {
      return 0, 0, ErrShortDst, out;
    }
  }

  /** cesu8ToUtf8Transformer.Transform. atEOF is accepted and never read. */
  method Cesu8ToUtf8Transform(dst: array<byte>, src: seq<byte>, atEOF: bool)
    returns (nDst: nat, nSrc: nat, err: Status)
    modifies dst
    ensures nDst <= dst.Length && nSrc <= |src| && (err == Ok <==> nSrc == |src|)
    ensures Outcome(dst[..nDst], nSrc, err) == Scan(Cesu8ToUtf8, src, 0, dst.Length)
    ensures dst[nDst..] == old(dst[nDst..])
  {
    ScanBounds(Cesu8ToUtf8, src, 0, dst.Length);
    ghost var total := Scan(Cesu8ToUtf8, src, 0, dst.Length);
    ghost var orig := dst[..];
    ghost var out: seq<byte> := [];
    var i: nat, j: nat := 0, 0;
    while i < |src|
      invariant Progress(Cesu8ToUtf8, src, dst, orig, total, out, i, j)
      decreases |src| - i
    {
      var i', j';
      i', j', err, out := Cesu8ToUtf8Step(dst, src, i, j, orig, total, out);
      if err != Ok {
        Finish(Cesu8ToUtf8, src, dst, orig, total, out, i, j, err);
        return j, i, err;
      }
      i, j := i', j';
    }
    Finish(Cesu8ToUtf8, src, dst, orig, total, out, i, j, Ok);
    return j, i, Ok;
  }

  /** One iteration of the loop of cesu8ToUtf8Transformer.Transform: an ASCII byte is
      copied if there is room for it; any other lead byte is left to Cesu8ToUtf8Rune. On an
      error nothing is written and the call ends there. */
  method Cesu8ToUtf8Step(dst: array<byte>, src: seq<byte>, i: nat, j: nat,
                         ghost orig: seq<byte>, ghost total: Outcome, ghost out: seq<byte>)
    returns (i': nat, j': nat, err: Status, ghost out': seq<byte>)
    requires i < |src| && Progress(Cesu8ToUtf8, src, dst, orig, total, out, i, j)
    modifies dst
    ensures err == Ok ==> i < i' && Progress(Cesu8ToUtf8, src, dst, orig, total, out', i', j')
    ensures err != Ok ==> out' == out && Progress(Cesu8ToUtf8, src, dst, orig, total, out, i, j)
    ensures err != Ok ==> Rest(Cesu8ToUtf8, src, i, dst.Length - j) == Outcome([], i, err)
  {
    if src[i] < RUNE_SELF {
      if j < dst.Length {
        out' := CopyAscii(Cesu8ToUtf8, dst, src, i, j, orig, total, out);
        return i + 1, j + 1, Ok, out';
      } else {
        assert ScanByte(Cesu8ToUtf8, src, i, dst.Length - j) == Outcome([], i, ErrShortDst);
        return i, j, ErrShortDst, out;
      }
    }
    var n, m;
    n, m, err, out' := Cesu8ToUtf8Rune(dst, src, i, j, orig, total, out);
    return i + n, j + m, err, out';
  }

  /** The multi-byte branch of cesu8ToUtf8Transformer.Transform: decode one CESU-8 run at
      src[i..] and, if it is complete, valid and its UTF-8 form fits, write that form at
      dst[j..] and return the widths n and m of the two runs. Otherwise write nothing and
      return the error that ends the call; an invalid run yields a fresh InvalidCesu8Error
      holding its position and a copy of its bytes. */
  method Cesu8ToUtf8Rune(dst: array<byte>, src: seq<byte>, i: nat, j: nat,
                         ghost orig: seq<byte>, ghost total: Outcome, ghost out: seq<byte>)
    returns (n: nat, m: nat, err: Status, ghost out': seq<byte>)
    requires i < |src| && RUNE_SELF <= src[i] && Progress(Cesu8ToUtf8, src, dst, orig, total, out, i, j)
    modifies dst
    ensures err == Ok ==> 0 < n && Progress(Cesu8ToUtf8, src, dst, orig, total, out', i + n, j + m)
    ensures err != Ok ==> out' == out && Progress(Cesu8ToUtf8, src, dst, orig, total, out, i, j)
    ensures err != Ok ==> Rest(Cesu8ToUtf8, src, i, dst.Length - j) == Outcome([], i, err)
  {
    assert ScanByte(Cesu8ToUtf8, src, i, dst.Length - j) == ScanRune(Cesu8ToUtf8, src, i, dst.Length - j);
    if !Cesu8.FullRune(src[i..]) {
      return 0, 0, ErrShortSrc, out;
    }
    var rn := Cesu8.DecodeRune(src[i..]);
    var r := rn.0;
    n := rn.1;
    if r == RUNE_ERROR {
      err := NewInvalidCesu8Error(i, src[i..i + n]);
      return 0, 0, err, out;
    }
    Cesu8.RunIsRuneBytes(src[i..]);
    m := Utf8.RuneLen(r);
    if m == -1 {
      // the internal-error panic: every decoded rune has a UTF-8 length
      assert false;
    }
    if j + m <= dst.Length {
      ScanRunStep(Cesu8ToUtf8, src, i, dst.Length - j);
      assert SourceDecodeRune(Cesu8ToUtf8, src[i..]) == (r, n);
      PrependPrepend(out, Utf8.RuneBytes(r), Rest(Cesu8ToUtf8, src, i + n, dst.Length - (j + m)));
      SplitAt(out, orig[j..]);
      assert orig[j..][m..] == orig[j + m..];
      var _ := Utf8.EncodeRune(dst, j, r);
      return n, m, Ok, out + Utf8.RuneBytes(r);
    } else {
      return 0, 0, ErrShortDst, out;
    }
  }

  /** The ASCII branch of both Transform methods: copy src[i] to dst[j]. */
  method CopyAscii(ghost d: Direction, dst: array<byte>, src: seq<byte>, i: nat, j: nat,
                   ghost orig: seq<byte>, ghost total: Outcome, ghost out: seq<byte>)
    returns (ghost out': seq<byte>)
    requires i < |src| && src[i] < RUNE_SELF && j < dst.Length
    requires Progress(d, src, dst, orig, total, out, i, j)
    modifies dst
    ensures Progress(d, src, dst, orig, total, out', i + 1, j + 1)
  {
    ScanAsciiStep(d, src, i, dst.Length - j);
    PrependPrepend(out, [src[i]], Rest(d, src, i + 1, dst.Length - (j + 1)));
    OverwriteAt(out, src[i], orig[j..]);
    assert orig[j..][1..] == orig[j + 1..];
    dst[j] := src[i];
    out' := out + [src[i]];
  }

  /** When the rest of the call stops at once, the call's outcome is what was written so
      far, and the bytes of dst from there on are still the original ones. */
  lemma Finish(d: Direction, src: seq<byte>, dst: array<byte>, orig: seq<byte>, total: Outcome,
               out: seq<byte>, i: nat, j: nat, e: Status)
    requires Progress(d, src, dst, orig, total, out, i, j)
    requires Rest(d, src, i, dst.Length - j) == Outcome([], i, e)
    ensures Outcome(dst[..j], i, e) == total && dst[j..] == orig[j..]
  {
    SplitAt(out, orig[j..]);
    assert out + [] == out;
  }

  /** One step of the scan: an ASCII byte that fits is copied. */
  lemma ScanAsciiStep(d: Direction, src: seq<byte>, i: nat, room: nat)
    requires i < |src| && src[i] < RUNE_SELF && 1 <= room
    ensures Scan(d, src, i, room) == Prepend([src[i]], Scan(d, src, i + 1, room - 1))
  {
  }

  /** One step of the scan: a decoded rune whose target run fits is written whole. */
  lemma ScanRunStep(d: Direction, src: seq<byte>, i: nat, room: nat)
    requires i < |src| && RUNE_SELF <= src[i] && SourceFullRune(d, src[i..])
    requires SourceDecodeRune(d, src[i..]).0 != RUNE_ERROR
    requires TargetRuneLen(d, SourceDecodeRune(d, src[i..]).0) <= room
    ensures var (r, n) := SourceDecodeRune(d, src[i..]);
      Scan(d, src, i, room) == Prepend(TargetBytes(d, r), Scan(d, src, i + n, room - TargetRuneLen(d, r)))
  {
    assert ScanByte(d, src, i, room) == ScanRune(d, src, i, room);
  }

  lemma PrependPrepend(a: seq<byte>, b: seq<byte>, o: Outcome)
    ensures Prepend(a, Prepend(b, o)) == Prepend(a + b, o)
  {
    assert a + (b + o.out) == (a + b) + o.out;
  }

  lemma SplitAt(a: seq<byte>, b: seq<byte>)
    ensures (a + b)[..|a|] == a && (a + b)[|a|..] == b
  {
  }

  lemma OverwriteAt(a: seq<byte>, x: byte, b: seq<byte>)
    requires 1 <= |b|
    ensures (a + b)[|a| := x] == (a + [x]) + b[1..]
  {
  }

  /** nSrc and nDst stay within the spans; err is nil exactly when all of src was consumed;
      each direction reports only its own kind of invalid-input error. */
  lemma {:induction false} ScanBounds(d: Direction, src: seq<byte>, i: nat, room: nat)
    requires i <= |src|
    ensures var o := Scan(d, src, i, room);
      i <= o.nSrc <= |src| && |o.out| <= room && (o.err == Ok <==> o.nSrc == |src|) &&
      (d.Utf8ToCesu8? ==> !o.err.InvalidCesu8Error?) && (d.Cesu8ToUtf8? ==> o.err != ErrInvalidUtf8)
    decreases |src| - i, 1
  {
    if i < |src| {
      if src[i] < RUNE_SELF {
        if room >= 1 {
          ScanBounds(d, src, i + 1, room - 1);
        }
      } else {
        ScanRuneBounds(d, src, i, room);
      }
    }
  }

  lemma {:induction false} ScanRuneBounds(d: Direction, src: seq<byte>, i: nat, room: nat)
    requires i < |src|
    ensures var o := ScanRune(d, src, i, room);
      i <= o.nSrc <= |src| && |o.out| <= room && (o.err == Ok <==> o.nSrc == |src|) &&
      (d.Utf8ToCesu8? ==> !o.err.InvalidCesu8Error?) && (d.Cesu8ToUtf8? ==> o.err != ErrInvalidUtf8)
    decreases |src| - i, 0
  {
    var o := ScanRune(d, src, i, room);
    if !SourceFullRune(d, src[i..]) {
      assert o == Outcome([], i, ErrShortSrc);
    } else {
      var (r, n) := SourceDecodeRune(d, src[i..]);
      if r == RUNE_ERROR {
        assert o == Outcome([], i, InvalidError(d, i, src[i..i + n]));
      } else {
        DecodedRune(d, src[i..]);
        var m := TargetRuneLen(d, r);
        if room < m {
          assert o == Outcome([], i, ErrShortDst);
        } else {
          ScanBounds(d, src, i + n, room - m);
          assert o == Prepend(TargetBytes(d, r), Scan(d, src, i + n, room - m));
        }
      }
    }
  }
}
