/** What a Transform call is promised to do, proved about Scan, the function both Transform
    methods are proved to compute. */
module Properties {
  import opened Runes
  import Utf8
  import Cesu8
  import opened Unicode

  /** The transformer that undoes d. */
  function Flip(d: Direction): (e: Direction)
    ensures e != d && (d.Utf8ToCesu8? <==> e.Cesu8ToUtf8?)
  {
    if d.Utf8ToCesu8? then Cesu8ToUtf8 else Utf8ToCesu8
  }

  predicate AllAscii(s: seq<byte>) {
    forall k :: 0 <= k < |s| ==> s[k] < RUNE_SELF
  }

  /** Runes both transformers accept: scalar values other than U+FFFD. */
  predicate Transcodable(rs: seq<int>) {
    forall k :: 0 <= k < |rs| ==> IsScalar(rs[k]) && rs[k] != RUNE_ERROR
  }

  lemma EncodeAllCons(d: Direction, r: int, rs: seq<int>)
    ensures SourceEncodeAll(d, [r] + rs) == SourceBytes(d, r) + SourceEncodeAll(d, rs)
    ensures TargetEncodeAll(d, [r] + rs) == TargetBytes(d, r) + TargetEncodeAll(d, rs)
  {
    assert ([r] + rs)[0] == r && ([r] + rs)[1..] == rs;
    assert Utf8.EncodeAll([r] + rs) == Utf8.EncodeFirst([r] + rs);
    assert Cesu8.EncodeAll([r] + rs) == Cesu8.EncodeFirst([r] + rs);
  }

  /** The source decoder reads the encoding of a scalar value back, whatever follows it. */
  lemma SourceDecodesBytes(d: Direction, r: int, t: seq<byte>)
    requires IsScalar(r)
    ensures SourceNext(d, SourceBytes(d, r) + t) == Run(r, |SourceBytes(d, r)|)
  {
    if d.Utf8ToCesu8? {
      Utf8.DecodeRuneBytes(r, t);
    } else {
      Cesu8.DecodeRuneBytes(r, t);
    }
  }

  // ---------------------------------------------------------------------------
  // ASCII

  /** ASCII bytes are copied unchanged, one for one, as far as dst has room. */
  lemma {:induction false} AsciiPassthrough(d: Direction, src: seq<byte>, i: nat, room: nat)
    requires i <= |src| && AllAscii(src[i..])
    ensures Rest(d, src, i, room) ==
      if |src| - i <= room then Outcome(src[i..], |src|, Ok)
      else Outcome(src[i..i + room], i + room, ErrShortDst)
    decreases |src| - i
  {
    if i < |src| {
      assert src[i] == src[i..][0];
      if 1 <= room {
        assert src[i + 1..] == src[i..][1..];
        AsciiPassthrough(d, src, i + 1, room - 1);
        ScanAsciiStep(d, src, i, room);
        if |src| - i <= room {
          assert src[i..] == [src[i]] + src[i + 1..];
        } else {
          assert src[i..i + room] == [src[i]] + src[i + 1..i + 1 + (room - 1)];
        }
      } else {
        assert ScanByte(d, src, i, room) == Outcome([], i, ErrShortDst);
      }
    }
  }

  // ---------------------------------------------------------------------------
  // What a call writes and where it stops

  /** One step of a call: either it stops at once, writing nothing, or the input begins
      with the source encoding of a transcodable rune r, n bytes long, whose target
      encoding fits, and the call writes that encoding and carries on after the run. */
  lemma ScanStep(d: Direction, src: seq<byte>, i: nat, room: nat) returns (stop: bool, r: int, n: nat)
    requires i < |src|
    ensures var o := Rest(d, src, i, room);
      stop ==> o.out == [] && o.nSrc == i && o.err != Ok
    ensures !stop ==>
      IsScalar(r) && r != RUNE_ERROR && 1 <= n && i + n <= |src| &&
      src[i..i + n] == SourceBytes(d, r) && |TargetBytes(d, r)| <= room &&
      Rest(d, src, i, room) == Prepend(TargetBytes(d, r), Rest(d, src, i + n, room - |TargetBytes(d, r)|))
  {
    r, n := 0, 0;
    if src[i] < RUNE_SELF {
      stop, r, n := room < 1, src[i], 1;
      if !stop {
        ScanAsciiStep(d, src, i, room);
      } else {
        assert ScanByte(d, src, i, room) == Outcome([], i, ErrShortDst);
      }
    } else {
      stop, r, n := ScanRuneStep(d, src, i, room);
    }
  }

  /** The case of ScanStep where src[i] is not ASCII. */
  lemma ScanRuneStep(d: Direction, src: seq<byte>, i: nat, room: nat) returns (stop: bool, r: int, n: nat)
    requires i < |src| && RUNE_SELF <= src[i]
    ensures var o := Rest(d, src, i, room);
      stop ==> o.out == [] && o.nSrc == i && o.err != Ok
    ensures !stop ==>
      IsScalar(r) && r != RUNE_ERROR && 1 <= n && i + n <= |src| &&
      src[i..i + n] == SourceBytes(d, r) && |TargetBytes(d, r)| <= room &&
      Rest(d, src, i, room) == Prepend(TargetBytes(d, r), Rest(d, src, i + n, room - |TargetBytes(d, r)|))
  {
    assert ScanByte(d, src, i, room) == ScanRune(d, src, i, room);
    var p := src[i..];
    r, n := 0, 0;
    if !SourceFullRune(d, p) {
      stop := true;
    } else {
      var rn := SourceDecodeRune(d, p);
      r, n := rn.0, rn.1;
      if r == RUNE_ERROR {
        stop := true;
      } else {
        DecodedRune(d, p);
        stop := room < TargetRuneLen(d, r);
        if !stop {
          ScanRunStep(d, src, i, room);
          assert p[..n] == src[i..i + n];
        }
      }
    }
  }

  lemma SliceSplit(s: seq<byte>, a: nat, b: nat, c: nat)
    requires a <= b <= c <= |s|
    ensures s[a..c] == s[a..b] + s[b..c]
  {
  }

  lemma JoinEq(x: seq<byte>, a: seq<byte>, b: seq<byte>, b': seq<byte>, y: seq<byte>)
    requires x == a + b && b == b' && y == a + b'
    ensures x == y
  {
  }

  lemma PrependChain(o: Outcome, w: seq<byte>, o1: Outcome, x: seq<byte>, o2: Outcome, y: seq<byte>)
    requires o == Prepend(w, o1) && o1 == Prepend(x, o2) && y == w + x
    ensures o == Prepend(y, o2)
  {
    PrependPrepend(w, x, o2);
  }

  lemma SlicePrefix(s: seq<byte>, a: nat, k: nat, b: seq<byte>, c: seq<byte>)
    requires a <= k <= |s| && s[a..k] == b + c
    ensures a + |b| <= k && s[a + |b|..k] == c && b <= s[a..]
  {
    assert s[a..k][..|b|] == b && s[a..k][|b|..] == c;
    assert s[a..][..|b|] == s[a..k][..|b|];
  }

  lemma TranscodableTail(rs: seq<int>)
    requires Transcodable(rs) && |rs| > 0
    ensures IsScalar(rs[0]) && rs[0] != RUNE_ERROR && Transcodable(rs[1..])
  {
    assert forall q :: 0 <= q < |rs[1..]| ==> rs[1..][q] == rs[q + 1];
  }

  lemma TranscodableCons(r: int, rs: seq<int>)
    requires IsScalar(r) && r != RUNE_ERROR && Transcodable(rs)
    ensures Transcodable([r] + rs)
  {
    assert forall q :: 0 <= q < |rs| ==> ([r] + rs)[q + 1] == rs[q];
  }

  /** A call consumes the source encoding of a sequence rs of whole runes and writes exactly
      their target encoding: a run is never split, in src or in dst. */
  lemma {:induction false} ScanDecomposes(d: Direction, src: seq<byte>, i: nat, room: nat)
    returns (rs: seq<int>)
    requires i <= |src|
    ensures var o := Rest(d, src, i, room);
      i <= o.nSrc <= |src| && Transcodable(rs) &&
      src[i..o.nSrc] == SourceEncodeAll(d, rs) && o.out == TargetEncodeAll(d, rs)
    decreases |src| - i
  {
    rs := [];
    if i < |src| {
      var stop, r, n := ScanStep(d, src, i, room);
      if !stop {
        var m := |TargetBytes(d, r)|;
        var tail := ScanDecomposes(d, src, i + n, room - m);
        rs := DecomposeCons(d, src, i, n, r, tail, Rest(d, src, i + n, room - m), Rest(d, src, i, room));
      }
    }
  }

  /** One step of ScanDecomposes: a run in front of a decomposed rest. */
  lemma DecomposeCons(d: Direction, src: seq<byte>, i: nat, n: nat, r: int, tail: seq<int>, t: Outcome, o: Outcome)
    returns (rs: seq<int>)
    requires IsScalar(r) && r != RUNE_ERROR && Transcodable(tail)
    requires i + n <= t.nSrc <= |src| && src[i..i + n] == SourceBytes(d, r)
    requires src[i + n..t.nSrc] == SourceEncodeAll(d, tail) && t.out == TargetEncodeAll(d, tail)
    requires o == Prepend(TargetBytes(d, r), t)
    ensures rs == [r] + tail && o.nSrc == t.nSrc && Transcodable(rs)
    ensures src[i..o.nSrc] == SourceEncodeAll(d, rs) && o.out == TargetEncodeAll(d, rs)
  {
    rs := [r] + tail;
    EncodeAllCons(d, r, tail);
    TranscodableCons(r, tail);
    SliceSplit(src, i, i + n, t.nSrc);
    JoinEq(src[i..t.nSrc], SourceBytes(d, r), src[i + n..t.nSrc], SourceEncodeAll(d, tail), SourceEncodeAll(d, rs));
    JoinEq(o.out, TargetBytes(d, r), t.out, TargetEncodeAll(d, tail), TargetEncodeAll(d, rs));
  }

  /** When a call stops early (err != nil) there is input left, and the call goes no
      further because it would stop at once on what is left, with the room left. */
  lemma {:induction false} ScanStops(d: Direction, src: seq<byte>, i: nat, room: nat)
    requires i <= |src|
    ensures var o := Rest(d, src, i, room);
      i <= o.nSrc <= |src| && |o.out| <= room &&
      (o.err != Ok ==> o.nSrc < |src| && Rest(d, src, o.nSrc, room - |o.out|) == Outcome([], o.nSrc, o.err))
    decreases |src| - i
  {
    if i < |src| {
      var stop, r, n := ScanStep(d, src, i, room);
      if !stop {
        ScanStops(d, src, i + n, room - |TargetBytes(d, r)|);
      }
    }
  }

  /** A whole transcodable rune r at offset i is transcoded if its target encoding fits into
      the room left, and otherwise stops the call with ErrShortDst before any of its bytes
      are written. */
  lemma ScanEncodedRune(d: Direction, src: seq<byte>, i: nat, room: nat, r: int)
    requires i <= |src| && IsScalar(r) && r != RUNE_ERROR && SourceBytes(d, r) <= src[i..]
    ensures var w, m := |SourceBytes(d, r)|, |TargetBytes(d, r)|;
      i + w <= |src| &&
      (m <= room ==> Rest(d, src, i, room) == Prepend(TargetBytes(d, r), Rest(d, src, i + w, room - m))) &&
      (room < m ==> Rest(d, src, i, room) == Outcome([], i, ErrShortDst))
  {
    EncodedAt(d, src, i, r);
    if RUNE_SELF <= r {
      EncodedMulti(d, src, i, room, r);
    } else if 1 <= room {
      ScanAsciiStep(d, src, i, room);
    } else {
      assert ScanByte(d, src, i, room) == Outcome([], i, ErrShortDst);
    }
  }

  /** Source bytes that begin with the encoding of a scalar value r: the first byte tells
      whether r is ASCII, and the decoder reads r back from them. */
  lemma EncodedAt(d: Direction, src: seq<byte>, i: nat, r: int)
    requires i <= |src| && IsScalar(r) && SourceBytes(d, r) <= src[i..]
    ensures i + |SourceBytes(d, r)| <= |src| && i < |src|
    ensures src[i] < RUNE_SELF <==> r < RUNE_SELF
    ensures r < RUNE_SELF ==> src[i] == r
    ensures RUNE_SELF <= r ==>
      SourceFullRune(d, src[i..]) && SourceDecodeRune(d, src[i..]) == (r, |SourceBytes(d, r)|)
  {
    var b := SourceBytes(d, r);
    var p := src[i..];
    assert p == b + p[|b|..];
    assert src[i] == b[0];
    SourceDecodesBytes(d, r, p[|b|..]);
  }

  /** The step of ScanEncodedRune for a rune of more than one byte. */
  lemma EncodedMulti(d: Direction, src: seq<byte>, i: nat, room: nat, r: int)
    requires i < |src| && RUNE_SELF <= src[i] && IsScalar(r) && r != RUNE_ERROR
    requires SourceFullRune(d, src[i..]) && SourceDecodeRune(d, src[i..]) == (r, |SourceBytes(d, r)|)
    ensures var w, m := |SourceBytes(d, r)|, |TargetBytes(d, r)|;
      (m <= room ==> Rest(d, src, i, room) == Prepend(TargetBytes(d, r), Rest(d, src, i + w, room - m))) &&
      (room < m ==> Rest(d, src, i, room) == Outcome([], i, ErrShortDst))
  {
    DecodedRune(d, src[i..]);
    if |TargetBytes(d, r)| <= room {
      ScanRunStep(d, src, i, room);
    } else {
      assert ScanByte(d, src, i, room) == ScanRune(d, src, i, room);
    }
  }

  /** Conversely, input that begins with the source encoding of transcodable runes rs is
      transcoded rune by rune while their target encoding fits: the call writes that
      encoding and carries on after it. */
  lemma {:induction false} ScanEncoded(d: Direction, src: seq<byte>, i: nat, k: nat, rs: seq<int>,
                                       room: nat, left: nat)
    requires i <= k <= |src| && src[i..k] == SourceEncodeAll(d, rs) && Transcodable(rs)
    requires |TargetEncodeAll(d, rs)| + left == room
    ensures Rest(d, src, i, room) == Prepend(TargetEncodeAll(d, rs), Rest(d, src, k, left))
    decreases |rs|
  {
    if rs == [] {
      EncodedNone(d, src, i, k, room);
    } else {
      var w, tb := EncodedHead(d, src, i, k, rs, room, left);
      ScanEncoded(d, src, i + w, k, rs[1..], room - |tb|, left);
      EncodedTail(d, src, i, k, rs, room, left, w, tb);
    }
  }

  /** The last step of ScanEncoded: the first rune's output in front of the rest's. */
  lemma EncodedTail(d: Direction, src: seq<byte>, i: nat, k: nat, rs: seq<int>, room: nat, left: nat,
                    w: nat, tb: seq<byte>)
    requires i + w <= k <= |src| && rs != [] && |tb| <= room
    requires TargetEncodeAll(d, rs) == tb + TargetEncodeAll(d, rs[1..])
    requires Rest(d, src, i, room) == Prepend(tb, Rest(d, src, i + w, room - |tb|))
    requires Rest(d, src, i + w, room - |tb|) == Prepend(TargetEncodeAll(d, rs[1..]), Rest(d, src, k, left))
    ensures Rest(d, src, i, room) == Prepend(TargetEncodeAll(d, rs), Rest(d, src, k, left))
  {
    PrependChain(Rest(d, src, i, room), tb, Rest(d, src, i + w, room - |tb|),
                 TargetEncodeAll(d, rs[1..]), Rest(d, src, k, left), TargetEncodeAll(d, rs));
  }

  /** The base case of ScanEncoded: no runes, nothing written. */
  lemma EncodedNone(d: Direction, src: seq<byte>, i: nat, k: nat, room: nat)
    requires i <= k <= |src| && src[i..k] == SourceEncodeAll(d, [])
    ensures Rest(d, src, i, room) == Prepend(TargetEncodeAll(d, []), Rest(d, src, k, room))
  {
    assert i == k;
    assert TargetEncodeAll(d, []) == [];
    assert Rest(d, src, k, room).out == [] + Rest(d, src, k, room).out;
  }

  /** One step of ScanEncoded: the first rune of rs, w bytes long, is transcoded into tb,
      and the rest of rs is left, encoded in what follows it. */
  lemma EncodedHead(d: Direction, src: seq<byte>, i: nat, k: nat, rs: seq<int>, room: nat, left: nat)
    returns (w: nat, tb: seq<byte>)
    requires i <= k <= |src| && src[i..k] == SourceEncodeAll(d, rs) && Transcodable(rs) && rs != []
    requires |TargetEncodeAll(d, rs)| + left == room
    ensures i + w <= k && src[i + w..k] == SourceEncodeAll(d, rs[1..]) && Transcodable(rs[1..])
    ensures TargetEncodeAll(d, rs) == tb + TargetEncodeAll(d, rs[1..])
    ensures |tb| <= room && |TargetEncodeAll(d, rs[1..])| + left == room - |tb|
    ensures Rest(d, src, i, room) == Prepend(tb, Rest(d, src, i + w, room - |tb|))
  {
    var r, tail := rs[0], rs[1..];
    assert rs == [r] + tail;
    EncodeAllCons(d, r, tail);
    TranscodableTail(rs);
    SlicePrefix(src, i, k, SourceBytes(d, r), SourceEncodeAll(d, tail));
    w, tb := |SourceBytes(d, r)|, TargetBytes(d, r);
    ScanEncodedRune(d, src, i, room, r);
  }

  /** Transcoding and then transcoding back gives the input again: when a call consumes all
      of src, a call in the other direction with room for src turns its output back into src. */
  lemma RoundTrip(d: Direction, src: seq<byte>, room: nat, room': nat)
    requires Rest(d, src, 0, room).err == Ok && |src| <= room'
    ensures var o := Rest(d, src, 0, room);
      Rest(Flip(d), o.out, 0, room') == Outcome(src, |o.out|, Ok)
  {
    var o := Rest(d, src, 0, room);
    var rs := ScanDecomposes(d, src, 0, room);
    ScanBounds(d, src, 0, room);
    assert src[0..|src|] == src;
    assert o.out[0..|o.out|] == o.out;
    ScanEncoded(Flip(d), o.out, 0, |o.out|, rs, room', room' - |src|);
    assert src + [] == src;
  }

  /** Splitting dst does not change what is written: after a call with room1 bytes of
      room (stopped by ErrShortDst, say), a second call from the same source offset nSrc
      with room2 bytes adds exactly what one call with the used room plus room2 writes,
      and ends where and how that call ends. */
  /** A call on the suffix src[k:] does what the rest of a call on src does from offset k,
      except that its nSrc and the position of an InvalidCesu8Error count from k. */
  lemma {:induction false} ScanShift(d: Direction, src: seq<byte>, k: nat, i: nat, room: nat)
    requires k + i <= |src|
    ensures Rest(d, src, k + i, room) == Shift(k, Rest(d, src[k..], i, room))
    decreases |src| - k - i, 1
  {
    var t := src[k..];
    if k + i < |src| {
      assert t[i] == src[k + i];
      if src[k + i] < RUNE_SELF {
        if room < 1 {
          assert ScanByte(d, src, k + i, room) == Outcome([], k + i, ErrShortDst);
          assert ScanByte(d, t, i, room) == Outcome([], i, ErrShortDst);
        } else {
          ScanShift(d, src, k, i + 1, room - 1);
          assert ScanByte(d, src, k + i, room) == Prepend([src[k + i]], Scan(d, src, k + i + 1, room - 1));
          assert ScanByte(d, t, i, room) == Prepend([t[i]], Scan(d, t, i + 1, room - 1));
        }
      } else {
        assert ScanByte(d, src, k + i, room) == ScanRune(d, src, k + i, room);
        assert ScanByte(d, t, i, room) == ScanRune(d, t, i, room);
        ScanRuneShift(d, src, k, i, room);
      }
    }
  }

  lemma {:induction false} ScanRuneShift(d: Direction, src: seq<byte>, k: nat, i: nat, room: nat)
    requires k + i < |src|
    ensures ScanRune(d, src, k + i, room) == Shift(k, ScanRune(d, src[k..], i, room))
    decreases |src| - k - i, 0
  {
    var t := src[k..];
    var p := src[k + i..];
    assert t[i..] == p;
    if !SourceFullRune(d, p) || SourceDecodeRune(d, p).0 == RUNE_ERROR ||
       room < TargetRuneLen(d, SourceDecodeRune(d, p).0) {
      StopShift(d, src, k, i, room);
    } else {
      var (r, n) := SourceDecodeRune(d, p);
      var m := TargetRuneLen(d, r);
      ScanShift(d, src, k, i + n, room - m);
      assert ScanRune(d, src, k + i, room) == Prepend(TargetBytes(d, r), Rest(d, src, k + i + n, room - m));
      assert ScanRune(d, t, i, room) == Prepend(TargetBytes(d, r), Rest(d, t, i + n, room - m));
      ShiftPrepend(k, TargetBytes(d, r), Rest(d, t, i + n, room - m));
    }
  }

  /** A run that stops the call stops the call on the suffix too, at the shifted offset. */
  lemma StopShift(d: Direction, src: seq<byte>, k: nat, i: nat, room: nat)
    requires k + i < |src|
    requires var p := src[k + i..];
      !SourceFullRune(d, p) || SourceDecodeRune(d, p).0 == RUNE_ERROR ||
      room < TargetRuneLen(d, SourceDecodeRune(d, p).0)
    ensures ScanRune(d, src, k + i, room) == Shift(k, ScanRune(d, src[k..], i, room))
  {
    var t := src[k..];
    var p := src[k + i..];
    assert t[i..] == p;
    if SourceFullRune(d, p) {
      var (r, n) := SourceDecodeRune(d, p);
      if r == RUNE_ERROR {
        var v := src[k + i..k + i + n];
        assert t[i..i + n] == v;
        assert ScanRune(d, t, i, room) == Outcome([], i, InvalidError(d, i, v));
        assert Shift(k, Outcome([], i, InvalidError(d, i, v))) == Outcome([], k + i, InvalidError(d, k + i, v));
      }
    }
  }

  lemma ShiftPrepend(k: nat, w: seq<byte>, o: Outcome)
    ensures Shift(k, Prepend(w, o)) == Prepend(w, Shift(k, o))
  {
  }

  /** The caller's retry discipline: after a call on src stops at nSrc, a second call on
      what was left of src, with any more bytes appended, ends the job as one call over
      all the input with the room the first call used plus the second call's room would.
      The second call's offsets count from nSrc. With nothing appended this is the retry
      after ErrShortDst; with the missing bytes appended, the retry after ErrShortSrc. */
  lemma AppendAndRetry(d: Direction, src: seq<byte>, more: seq<byte>, room1: nat, room2: nat)
    ensures var o1 := Scan(d, src, 0, room1);
      o1.nSrc <= |src| &&
      Prepend(o1.out, Shift(o1.nSrc, Scan(d, src[o1.nSrc..] + more, 0, room2))) ==
      Scan(d, src + more, 0, |o1.out| + room2)
  {
    var o1 := Rest(d, src, 0, room1);
    var rs := ScanDecomposes(d, src, 0, room1);
    var all := src + more;
    assert all[0..o1.nSrc] == src[0..o1.nSrc];
    ScanEncoded(d, all, 0, o1.nSrc, rs, |o1.out| + room2, room2);
    assert all[o1.nSrc..] == src[o1.nSrc..] + more;
    ScanShift(d, all, o1.nSrc, 0, room2);
  }

  /** The retry after a call that stopped, for example with ErrShortDst: a second call on
      src[nSrc:] writes exactly what a single call with more room would have written after
      the first call's output, and ends at the same place with the same err once its nSrc
      and error position are counted from the start of src. */
  lemma SplitEqualsUnsplit(d: Direction, src: seq<byte>, room1: nat, room2: nat)
    ensures var o1 := Scan(d, src, 0, room1);
      o1.nSrc <= |src| &&
      Prepend(o1.out, Shift(o1.nSrc, Scan(d, src[o1.nSrc..], 0, room2))) ==
      Scan(d, src, 0, |o1.out| + room2)
  {
    AppendAndRetry(d, src, [], room1, room2);
    var o1 := Scan(d, src, 0, room1);
    assert src + [] == src;
    assert src[o1.nSrc..] + [] == src[o1.nSrc..];
  }

  // ---------------------------------------------------------------------------
  // Why a call stops

  /** ErrShortSrc: src ends inside the encoding of some rune. */
  lemma ShortSrcIsPrefix(d: Direction, src: seq<byte>, room: nat) returns (r: int)
    requires Rest(d, src, 0, room).err == ErrShortSrc
    ensures var o := Rest(d, src, 0, room);
      IsScalar(r) && o.nSrc < |src| && src[o.nSrc..] < SourceBytes(d, r)
  {
    var o := Rest(d, src, 0, room);
    ScanStops(d, src, 0, room);
    var k := o.nSrc;
    var p := src[k..];
    var left := room - |o.out|;
    assert Scan(d, src, k, left) == Outcome([], k, ErrShortSrc);
    assert RUNE_SELF <= src[k];
    assert ScanRune(d, src, k, left) == Outcome([], k, ErrShortSrc);
    assert !SourceFullRune(d, p);
    if d.Utf8ToCesu8? {
      r := Utf8.ShortIsPrefix(p);
    } else {
      r := Cesu8.ShortIsPrefix(p);
    }
  }

  /** Conversely, when what is left of src is a proper prefix of the encoding of a rune, the
      call stops there with ErrShortSrc. */
  lemma PrefixIsShortSrc(d: Direction, src: seq<byte>, k: nat, room: nat, r: int)
    requires k < |src| && IsScalar(r) && src[k..] < SourceBytes(d, r)
    ensures Rest(d, src, k, room) == Outcome([], k, ErrShortSrc)
  {
    var b := SourceBytes(d, r);
    var p := src[k..];
    assert p[0] == b[0];
    if d.Utf8ToCesu8? {
      Utf8.PrefixIsShort(p, r);
    } else {
      Cesu8.PrefixIsShort(p, r);
    }
    assert ScanByte(d, src, k, room) == ScanRune(d, src, k, room);
  }

  /** ErrShortDst: the input goes on with a whole transcodable rune whose target encoding
      does not fit into the room left. */
  lemma ShortDstIsNoRoom(d: Direction, src: seq<byte>, room: nat) returns (r: int)
    requires Rest(d, src, 0, room).err == ErrShortDst
    ensures var o := Rest(d, src, 0, room);
      IsScalar(r) && r != RUNE_ERROR && o.nSrc < |src| &&
      SourceBytes(d, r) <= src[o.nSrc..] && room - |o.out| < |TargetBytes(d, r)|
  {
    var o := Rest(d, src, 0, room);
    ScanStops(d, src, 0, room);
    var k := o.nSrc;
    var p := src[k..];
    var left := room - |o.out|;
    assert Scan(d, src, k, left) == Outcome([], k, ErrShortDst);
    if src[k] < RUNE_SELF {
      r := src[k];
      assert ScanByte(d, src, k, left) == Outcome([], k, ErrShortDst);
      assert left < 1;
      assert SourceBytes(d, r) == [src[k]] == p[..1];
    } else {
      assert ScanByte(d, src, k, left) == ScanRune(d, src, k, left);
      assert SourceFullRune(d, p) && SourceDecodeRune(d, p).0 != RUNE_ERROR;
      DecodedRune(d, p);
      r := SourceDecodeRune(d, p).0;
      assert left < TargetRuneLen(d, r);
    }
  }

  /** Invalid input: the decoder reports a malformed run at the stop point, or the valid
      encoding of U+FFFD itself, which the transformers reject as well. The UTF-8 side
      reports the bare sentinel; the CESU-8 side reports the position and the bytes of the
      run. */
  lemma InvalidIsMalformed(d: Direction, src: seq<byte>, room: nat)
    requires var o := Rest(d, src, 0, room);
      o.err == ErrInvalidUtf8 || o.err.InvalidCesu8Error?
    ensures var o := Rest(d, src, 0, room);
      o.nSrc < |src| &&
      var nx := SourceNext(d, src[o.nSrc..]);
      (nx.Bad? || (nx.Run? && nx.rune == RUNE_ERROR)) &&
      o.nSrc + nx.width <= |src| &&
      o.err == InvalidError(d, o.nSrc, src[o.nSrc..o.nSrc + nx.width])
  {
    var o := Rest(d, src, 0, room);
    ScanStops(d, src, 0, room);
    var k := o.nSrc;
    assert Scan(d, src, k, room - |o.out|) == Outcome([], k, o.err);
    assert ScanByte(d, src, k, room - |o.out|) == ScanRune(d, src, k, room - |o.out|);
  }

  /** Conversely, a malformed run, or the encoding of U+FFFD, stops the call with the
      invalid-input error of its direction. */
  lemma MalformedIsInvalid(d: Direction, src: seq<byte>, k: nat, room: nat)
    requires k < |src|
    requires var nx := SourceNext(d, src[k..]); nx.Bad? || (nx.Run? && nx.rune == RUNE_ERROR)
    ensures var w := SourceNext(d, src[k..]).width;
      k + w <= |src| && Rest(d, src, k, room) == Outcome([], k, InvalidError(d, k, src[k..k + w]))
  {
    var p := src[k..];
    assert p[0] == src[k];
    assert ScanByte(d, src, k, room) == ScanRune(d, src, k, room);
  }

  // ---------------------------------------------------------------------------
  // Examples

  /** U+1F600 takes 4 bytes in UTF-8 and 6 in CESU-8 (the surrogates D83D and DE00); with
      only 5 bytes of room nothing is written and nothing consumed. */
  lemma SupplementaryExpands()
    ensures Rest(Utf8ToCesu8, [0xF0, 0x9F, 0x98, 0x80], 0, 6) ==
      Outcome([0xED, 0xA0, 0xBD, 0xED, 0xB8, 0x80], 4, Ok)
    ensures Rest(Utf8ToCesu8, [0xF0, 0x9F, 0x98, 0x80], 0, 5) == Outcome([], 0, ErrShortDst)
  {
    var src: seq<byte> := [0xF0, 0x9F, 0x98, 0x80];
    GrinningFaceBytes();
    assert src[0..] == src;
    ScanEncodedRune(Utf8ToCesu8, src, 0, 6, 0x1F600);
    ScanEncodedRune(Utf8ToCesu8, src, 0, 5, 0x1F600);
    assert Scan(Utf8ToCesu8, src, 4, 0) == Outcome([], 4, Ok);
  }

  /** The two encodings of U+1F600. */
  lemma GrinningFaceBytes()
    ensures Utf8.RuneBytes(0x1F600) == [0xF0, 0x9F, 0x98, 0x80]
    ensures Cesu8.RuneBytes(0x1F600) == [0xED, 0xA0, 0xBD, 0xED, 0xB8, 0x80]
  {
    assert Cesu8.HighSurrogate(0x1F600) == 0xD83D && Cesu8.LowSurrogate(0x1F600) == 0xDE00;
  }

  /** EF BF BD is the valid encoding of U+FFFD in both UTF-8 and CESU-8, yet both
      transformers reject it as invalid input. */
  lemma ReplacementCharRejected(room: nat)
    ensures Utf8.Next([0xEF, 0xBF, 0xBD]) == Run(RUNE_ERROR, 3)
    ensures Cesu8.Next([0xEF, 0xBF, 0xBD]) == Run(RUNE_ERROR, 3)
    ensures Rest(Utf8ToCesu8, [0xEF, 0xBF, 0xBD], 0, room) == Outcome([], 0, ErrInvalidUtf8)
    ensures Rest(Cesu8ToUtf8, [0xEF, 0xBF, 0xBD], 0, room) ==
      Outcome([], 0, InvalidCesu8Error(0, [0xEF, 0xBF, 0xBD]))
  {
    var src: seq<byte> := [0xEF, 0xBF, 0xBD];
    assert src[0..] == src && src[0..3] == src;
    MalformedIsInvalid(Utf8ToCesu8, src, 0, room);
    MalformedIsInvalid(Cesu8ToUtf8, src, 0, room);
  }

  /** The CESU-8 error names the offset of the bad run and holds its bytes; what came
      before it has been written. */
  lemma InvalidCesu8Snapshot()
    ensures Rest(Cesu8ToUtf8, [0x41, 0xFF], 0, 2) == Outcome([0x41], 1, InvalidCesu8Error(1, [0xFF]))
  {
    var src: seq<byte> := [0x41, 0xFF];
    assert src[1..] == [0xFF] && src[1..2] == [0xFF];
    MalformedIsInvalid(Cesu8ToUtf8, src, 1, 1);
  }
}
