# go-hdb unicode transformers in Dafny

This project models the two streaming transformers of go-hdb's `unicode` package. `Utf8ToCesu8Transformer` turns UTF-8 into CESU-8, the encoding SAP HANA uses on the wire. `Cesu8ToUtf8Transformer` turns CESU-8 back into UTF-8.

A `Transform(dst, src, atEOF)` call scans `src` once, from left to right, and fills `dst` from the front:

- A byte below 0x80 is copied as it is.
- Any other byte starts a multi-byte run. The run must be complete (else `ErrShortSrc`) and must decode to a rune other than U+FFFD (else the invalid-input error of the direction).
- The rune's encoding in the other scheme is written whole, and only if it fits (else `ErrShortDst`).
- The call returns `(nDst, nSrc, err)`.

The project has five files:

- `runes.dfy`: bytes, scalar values, and the 2-, 3- and 4-byte unit arithmetic both encodings share.
- `utf8.dfy`: the parts of Go's `unicode/utf8` that the transformers call (`RuneLen`, `FullRune`, `DecodeRune`, `EncodeRune`), written as functions on byte sequences, with their round-trip lemmas.
- `cesu8.dfy`: the same four operations for CESU-8, following Unicode Technical Report #26. A value above U+FFFF becomes a UTF-16 surrogate pair (section 2.1 of RFC 2781), and each surrogate is written as a 3-byte unit. The decoder is strict (see "Left out").
- `unicode.dfy`: the error values and both `Transform` methods. Each method fills a Dafny `array<byte>` in a `while` loop over `i` and `j`, like the Go code. Each is proved to compute `Scan`, a function of `src` and `len(dst)` that gives the bytes written, `nSrc` and `err`. Each method also leaves `dst` untouched past `nDst`.
- `properties.dfy`: what the transformers promise, proved about `Scan`. The lemmas and the loop invariant name it `Rest`. This is the same function, from a source offset `i` with `room` bytes of `dst` left, and is kept as a separate wrapper only so that the proofs stay cheap.

Some lemmas only serve other proofs and have no row below. They unfold one step of `Scan` (`ScanAsciiStep`, `ScanRunStep`), split the recursive proofs into cases (`DecomposeCons`, `EncodedHead`, `EncodedTail`, `EncodedNone`, `EncodedAt`, `EncodedMulti`, `ScanRuneStep`, `ScanRuneBounds`, `ScanRuneShift`, `StopShift`, `ShiftPrepend`), or close a loop (`Finish`); `GrinningFaceBytes` works out the two encodings `SupplementaryExpands` uses. The function `Shift` only moves an outcome's source offsets, nSrc and an `InvalidCesu8Error`'s position, up by the length of a skipped prefix of src.

## Model

| member | source | states |
|---|---|---|
| Unicode.Utf8ToCesu8Transform | driver/internal/unicode/unicode.go:45-78 | `nDst <= len(dst)`, `nSrc <= len(src)`; err is nil exactly when all of src was consumed; `dst[:nDst]`, nSrc and err are what `Scan(Utf8ToCesu8, src, 0, len(dst))` gives; `dst[nDst:]` keeps its old bytes |
| Unicode.Cesu8ToUtf8Transform | driver/internal/unicode/unicode.go:82-115 | the same for the CESU-8 to UTF-8 direction |
| Unicode.Utf8ToCesu8Step | driver/internal/unicode/unicode.go:48-55 | one loop iteration: on success the source offset advances and the invariant holds at the new offsets; on an error nothing is written and the rest of the call stops right there with that error |
| Unicode.Utf8ToCesu8Rune | driver/internal/unicode/unicode.go:56-75 | a multi-byte UTF-8 run either is written whole as CESU-8 (consuming `n > 0` source bytes, the invariant preserved) or ends the call with the error `Scan` gives, writing nothing |
| Unicode.Cesu8ToUtf8Step | driver/internal/unicode/unicode.go:85-92 | the same as Utf8ToCesu8Step for CESU-8 input |
| Unicode.Cesu8ToUtf8Rune | driver/internal/unicode/unicode.go:93-112 | the same as Utf8ToCesu8Rune, with the invalid-input error built by NewInvalidCesu8Error |
| Unicode.CopyAscii | driver/internal/unicode/unicode.go:48-52 | copying an ASCII byte that fits advances both offsets by one and preserves the loop invariant |
| Unicode.NewInvalidCesu8Error | driver/internal/unicode/unicode.go:36-41 | the error carries the given position and a copy equal to the given bytes |
| Unicode.Status | driver/internal/unicode/unicode.go:22-30 | the err results: nil, `transform.ErrShortDst`, `transform.ErrShortSrc`, the `ErrInvalidUtf8` sentinel, and `InvalidCesu8Error` with its position `p` and bytes `v` |
| Unicode.InvalidError | driver/internal/unicode/unicode.go:62 | the invalid-input error of each direction: the bare `ErrInvalidUtf8` for UTF-8 input (:62), and for CESU-8 input an `InvalidCesu8Error` holding the run's offset and bytes (:99) |
| Unicode.Scan | driver/internal/unicode/unicode.go:47 | what the rest of a call does from offset i with `room` bytes of dst left: at the end of src it stops with nil err (:47, :77); otherwise it goes on with the byte at i |
| Unicode.ScanByte | driver/internal/unicode/unicode.go:48-55 | an ASCII byte is copied if one byte of room is left, else the call stops there with ErrShortDst; any other byte starts a run (the same at :85-92) |
| Unicode.ScanRune | driver/internal/unicode/unicode.go:57-74 | an incomplete run gives ErrShortSrc; a decode result of RuneError gives the invalid-input error with the run's bytes; a run whose target encoding does not fit gives ErrShortDst; otherwise the whole target encoding is written and the scan goes on after the run (the same at :94-111) |
| Unicode.DecodedRune | driver/internal/unicode/unicode.go:64-67 | every rune the source decoder accepts is a scalar value whose source run is exactly its encoding, and the target length function gives the length of its target encoding, so never -1: the panic is unreachable |
| Unicode.ScanBounds | driver/internal/unicode/unicode.go:45-78 | from any offset: nSrc between the offset and `len(src)`, at most `room` bytes written, err nil exactly when src is used up, and each direction reports only its own invalid-input error |
| Properties.AsciiPassthrough | driver/internal/unicode/unicode.go:48-55 | on all-ASCII input the call writes src unchanged: all of it with nil err when it fits, else the first `room` bytes with ErrShortDst and `nSrc == nDst == room` |
| Properties.ScanStep | driver/internal/unicode/unicode.go:47-75 | each step either stops the call at once (no bytes written, nSrc at the step, err not nil) or reads the source encoding of a transcodable rune and writes its full target encoding |
| Properties.ScanDecomposes | driver/internal/unicode/unicode.go:45-78 | a call consumes exactly the source encoding of some sequence of transcodable runes and writes exactly their target encoding: no run is split in src or in dst |
| Properties.ScanStops | driver/internal/unicode/unicode.go:54-73 | when err is not nil, input is left and the call would stop at once, without writing, at nSrc with the room left (the atomic short-destination and error-position property) |
| Properties.ScanEncodedRune | driver/internal/unicode/unicode.go:68-74 | a transcodable rune at the offset is written whole when its target encoding fits; otherwise the call stops there with ErrShortDst and writes none of it |
| Properties.ScanEncoded | driver/internal/unicode/unicode.go:45-78 | input that starts with the source encoding of transcodable runes is transcoded into their target encoding when it fits, and the call carries on after it |
| Properties.ScanShift | driver/internal/unicode/unicode.go:45-78 | a call on the suffix `src[k:]` does exactly what the rest of a call on src does from offset k: the same bytes and the same err kind, with nSrc and an `InvalidCesu8Error`'s position `p` (:99) counted from k instead of from 0 |
| Properties.AppendAndRetry | driver/internal/unicode/unicode.go:57-74 | after a first call stops at nSrc, a second call on `src[nSrc:]` with any bytes appended, its nSrc and error position counted from the first call's nSrc, writes after the first call's output exactly what one call over all of the input, with the room the first call used plus the second call's room, writes, and ends at the same nSrc with the same err: the retry after ErrShortSrc with the missing bytes appended loses and duplicates nothing |
| Properties.SplitEqualsUnsplit | driver/internal/unicode/unicode.go:68-74 | the case with nothing appended: a second call on `src[nSrc:]` with room2 bytes appends exactly what one call on src with the room the first call used plus room2 writes, and, with its offsets counted from nSrc, ends with the same nSrc and err; in particular a retry after ErrShortDst loses and duplicates nothing |
| Properties.RoundTrip | driver/internal/unicode/unicode.go:45-115 | when a call consumes all of src, a call in the other direction with `len(dst) >= len(src)` turns its output back into exactly src, consuming all of it |
| Properties.ShortSrcIsPrefix | driver/internal/unicode/unicode.go:57-59 | ErrShortSrc means the bytes from nSrc to the end are a proper prefix of the encoding of some scalar value |
| Properties.PrefixIsShortSrc | driver/internal/unicode/unicode.go:94-96 | conversely, when what is left is such a prefix, the call stops there with ErrShortSrc, whatever the room and regardless of atEOF |
| Properties.ShortDstIsNoRoom | driver/internal/unicode/unicode.go:68-74 | ErrShortDst means src goes on at nSrc with a whole transcodable rune whose target encoding is longer than the room left |
| Properties.InvalidIsMalformed | driver/internal/unicode/unicode.go:60-63 | an invalid-input error means the decoder finds a malformed run at nSrc, or the valid encoding of U+FFFD; the UTF-8 side reports the sentinel, the CESU-8 side the position and bytes of that run |
| Properties.MalformedIsInvalid | driver/internal/unicode/unicode.go:97-99 | conversely, such a run at an offset stops the call there with that direction's invalid-input error |
| Properties.SupplementaryExpands | driver/internal/unicode/unicode.go:64-74 | U+1F600 goes from 4 UTF-8 bytes to 6 CESU-8 bytes (surrogates D83D, DE00); with 5 bytes of room nothing is written or consumed |
| Properties.ReplacementCharRejected | driver/internal/unicode/unicode.go:60-62 | EF BF BD decodes as U+FFFD in both encodings and both transformers reject it as invalid |
| Properties.InvalidCesu8Snapshot | driver/internal/unicode/unicode.go:97-99 | on `41 FF` with room 2, the call writes `41` and returns nSrc 1 with an InvalidCesu8Error at position 1 holding `FF` |
| Utf8.Next | driver/internal/unicode/unicode.go:60 | Go's UTF-8 recognition at the start of the input: incomplete, malformed (width 1) or one rune, where the lead byte fixes the length and the range of the second byte, and nothing overlong, surrogate or above U+10FFFF is accepted |
| Utf8.FullRune | driver/internal/unicode/unicode.go:57 | `utf8.FullRune`: the input begins with a complete run, valid or not |
| Utf8.RuneLen | driver/internal/unicode/unicode.go:101 | -1 exactly for non-scalar values; 1 to 4 otherwise; 4 exactly above U+FFFF |
| Utf8.RuneBytes | driver/internal/unicode/unicode.go:106 | the encoding has `RuneLen(r)` bytes for a scalar value; an ASCII value is its own single byte, and only an ASCII value starts with a byte below 0x80 |
| Utf8.EncodeRune | driver/internal/unicode/unicode.go:106 | writes the encoding of r at the offset, returns its length and leaves every other byte of the array unchanged |
| Utf8.DecodeRune | driver/internal/unicode/unicode.go:60 | a width of at least 1 on non-empty input; any result other than U+FFFD is a run the decoder found |
| Utf8.NextExtend | driver/internal/unicode/unicode.go:60 | a decoded run does not depend on the bytes after it |
| Utf8.DecodeRuneBytes | driver/internal/unicode/unicode.go:60 | the encoding of every scalar value is decoded back to that value and width, whatever follows it |
| Utf8.RunIsRuneBytes | driver/internal/unicode/unicode.go:60 | every decoded run is the encoding of the scalar value it decodes to |
| Utf8.ShortIsPrefix | driver/internal/unicode/unicode.go:57 | an incomplete run is a proper prefix of some scalar value's encoding |
| Utf8.PrefixIsShort | driver/internal/unicode/unicode.go:57 | every non-empty proper prefix of an encoding is incomplete |
| Cesu8.RuneLen | driver/internal/unicode/unicode.go:64 | -1 exactly outside 0..U+10FFFF; 1 to 3 up to U+FFFF; 6 above |
| Cesu8.RuneBytes | driver/internal/unicode/unicode.go:69 | the encoding has `RuneLen(r)` bytes in range; an ASCII value is its own single byte |
| Cesu8.EncodeRune | driver/internal/unicode/unicode.go:69 | writes the encoding of r at the offset, returns its length and leaves every other byte unchanged |
| Cesu8.HighSurrogate | driver/internal/unicode/unicode.go:69 | the high surrogate of a supplementary value, which the encoder writes first |
| Cesu8.LowSurrogate | driver/internal/unicode/unicode.go:69 | the low surrogate of a supplementary value, written second |
| Cesu8.CombineSurrogates | driver/internal/unicode/unicode.go:97 | the supplementary value a high and a low surrogate stand for, as the decoder reads a 6-byte pair |
| Cesu8.SurrogatesCombine | driver/internal/unicode/unicode.go:69 | a supplementary value splits into a high and a low surrogate that combine back into it |
| Cesu8.CombineSplits | driver/internal/unicode/unicode.go:97 | a high and a low surrogate combine into a supplementary value that splits back into them |
| Cesu8.Next | driver/internal/unicode/unicode.go:97 | a malformed or decoded run has a width between 1 and the input length |
| Cesu8.FullRune | driver/internal/unicode/unicode.go:94 | `cesu8.FullRune`: the input begins with a complete run, valid or not, a surrogate pair counting as one run |
| Cesu8.DecodeRune | driver/internal/unicode/unicode.go:97 | a width of at least 1 on non-empty input; any result other than U+FFFD is a run the decoder found |
| Cesu8.NextExtend | driver/internal/unicode/unicode.go:97 | a decoded run does not depend on the bytes after it |
| Cesu8.DecodeRuneBytes | driver/internal/unicode/unicode.go:97 | the encoding of every scalar value, a surrogate pair included, is decoded back to that value and width |
| Cesu8.RunIsRuneBytes | driver/internal/unicode/unicode.go:97 | every decoded run is the encoding of a scalar value, so a lone surrogate is never decoded |
| Cesu8.ShortIsPrefix | driver/internal/unicode/unicode.go:94 | an incomplete run is a proper prefix of some scalar value's encoding |
| Cesu8.PrefixIsShort | driver/internal/unicode/unicode.go:94 | every non-empty proper prefix of an encoding is incomplete |
| Cesu8.PairBytes | driver/internal/unicode/unicode.go:94 | every well-formed `ED b1 b2 ED b4 80` is the encoding of some supplementary value |

## Left out

- `atEOF`: both methods accept it and never read it, so the model takes it and ignores it.
- `InvalidCesu8Error.Error()` (unicode.go:32-34): only formats a message with `fmt.Sprintf`. The error is modelled as the datatype constructor `InvalidCesu8Error(p, v)`.
- The `transform.Transformer` plumbing, `transform.NopResetter` and the two singletons (unicode.go:17-21, 43, 80): external library glue with no state. Each transformer is a plain method.
- The cesu8 package is not part of this model. Its `RuneLen`, `FullRune`, `DecodeRune` and `EncodeRune` are written here from Unicode Technical Report #26. The decoder's edge behaviour is an assumption of this model: it is strict, so it refuses overlong and 4-byte forms, a lone low surrogate and a high surrogate not followed by a low one. A bad unit has width 1; an unpaired high surrogate has width 3.
- Go's `unicode/utf8` is written here as well, following section 3 of RFC 3629 and its decoder's acceptance tables. Only the behaviour the transformers rely on is modelled.
- `newInvalidCesu8Error`'s defensive copy (unicode.go:37-39): `v` is a sequence value in the model, so the error's bytes cannot change when `src` later does, with or without the copy. The new array in `NewInvalidCesu8Error` follows the source but makes no observable difference.
- Aliasing between `dst` and `src`: `src` is a sequence value, so the model assumes the two slices do not overlap.
- The panics (unicode.go:66, 103): they are shown unreachable (`DecodedRune`), so the model has an `assert false` where the Go code panics. The panic at :66 is unreachable because Go's UTF-8 decoder returns only scalar values, and `cesu8.RuneLen` as modelled is -1 only outside 0 to U+10FFFF. The panic at :103 is unreachable only because of the strict CESU-8 decoder assumed above: a decoder that returned a lone surrogate would make `utf8.RuneLen` return -1 there.
- driver/driverconn.go and driver/hdb/dbconnectinfo.go: declarations with no logic, not part of this model.
- Callers that retry after `ErrShortDst` or `ErrShortSrc`, and concurrency: not in this code. What a retry gets is stated by `AppendAndRetry` and `SplitEqualsUnsplit`.
