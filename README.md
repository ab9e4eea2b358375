# ByteArray: a verified model of the Rubinius byte buffer

Rubinius builds its `String` on `ByteArray`, a heap object that holds a
buffer of bytes. The buffer's length is fixed when the object is created.
This project models, in Dafny, the primitives that `vm/builtin/bytearray.cpp`
defines on it:

- creation: zeroed, pinned, dirty, and the checked `allocate`;
- bounds-checked access: `get_byte`, `set_byte`, `move_bytes`, `fetch_bytes`,
  `to_chars`, `prepend`, and the silently clamped `reverse`;
- search and compare: `locate` and `compare_bytes`;
- the single-character UTF-8 decoder `utf8_to_uv`, its `utf8_limits`
  table, and `get_utf8_char`. The decoder follows the original 1- to 6-byte
  scheme of section 2 of RFC 2279.

Layout:

- `results.dfy` (module `Results`) holds `Option` and `Outcome`. A primitive
  that raises `ArgumentError` or `ObjectBoundsExceededError` in the source
  returns an error outcome here. `BoundsReason` names which of the source's
  messages was raised. The exception never returns in the source, so on an
  error path nothing is changed.
- `octets.dfy` (module `Octets`) holds one conversion fact between integers
  and `bv8`.
- `byteseqs.dfy` (module `ByteSeqs`) holds specifications on plain byte
  sequences, with their lemmas:
  - the memmove result `Moved`;
  - the range reversal `ReverseRange` / `ReverseSpec`;
  - the leftmost-match search `FirstMatch` / `LocateSpec`;
  - `memcmp` and the clamped comparison `Compare`, against an independent
    lexicographic order `LexLess`.
- `utf8.dfy` (module `Utf8`) holds the decoder:
  - the specification `Utf8ToUvSpec`;
  - the method `Utf8ToUv`, with the source's `while (n--)` loop in
    `ReadContinuations`;
  - a reference encoder `Encode` and the round trip `DecodeEncode`.
- `bytearray.dfy` (module `ByteArrays`) holds class `ByteArray`:
  - `bytes` is a constant `array<bv8>`, so the size (`Size()`, which is
    `size`) never changes;
  - `pinned` is a constant flag;
  - one member per primitive. Each method that loops or changes the buffer
    is proved against the sequence specification.

`value`, `start`, `count` and the other Fixnum arguments are unbounded
`int`s. The `String` arguments of `prepend` and `locate` are `seq<bv8>`:
the source uses only their bytes and length.

## Model

| member | source | states |
|---|---|---|
| ByteArrays.ByteArray.Create | vm/builtin/bytearray.cpp:27-42 | a fresh, unpinned buffer of exactly `n` bytes, every one zero |
| ByteArrays.ByteArray.CreatePinned | vm/builtin/bytearray.cpp:44-63 | a fresh buffer of `n` zero bytes with the pinned flag set |
| ByteArrays.ByteArray.CreateDirty | vm/builtin/bytearray.cpp:65-87 | a fresh buffer of `n` bytes; nothing is promised about its contents |
| ByteArrays.ByteArray.Allocate | vm/builtin/bytearray.cpp:89-95 | a negative size, and only a negative size, is an argument error; otherwise a fresh unpinned buffer of that size, all zero |
| ByteArrays.ByteArray.Size | vm/builtin/bytearray.cpp:97-99 | the length fixed at creation; `bytes` is a constant array, so no primitive changes it |
| ByteArrays.ByteArray.ToChars | vm/builtin/bytearray.cpp:101-118 | fails with "size less than zero" for `sz < 0`, with "size beyond actual size" for `sz > size`, and for nothing else; otherwise the first `sz` bytes followed by one zero byte |
| ByteArrays.ByteArray.GetByte | vm/builtin/bytearray.cpp:120-128 | an index error exactly when `idx < 0` or `idx >= size`; otherwise the byte at `idx` as an unsigned value in 0..255 |
| ByteArrays.ByteArray.SetByte | vm/builtin/bytearray.cpp:130-139 | an index error exactly when `idx < 0` or `idx >= size`, with the buffer untouched; otherwise stores `value mod 256`, returns that byte, keeps every other byte, and a following `GetByte(idx)` gives `value mod 256` |
| ByteArrays.ByteArray.MoveBytes | vm/builtin/bytearray.cpp:141-161 | the errors in the source's order (start, dest, count, dest+count past the end, src+count past the end), and no other; on an error the buffer is unchanged; on success it returns `count` and the buffer is `old[..dst] + old[src..src+cnt] + old[dst+cnt..]`, even for overlapping ranges |
| ByteSeqs.MovedAt | vm/builtin/bytearray.cpp:157 | after the memmove, byte `k` of the destination range is old byte `src + (k - dst)`, and every byte outside it is the old byte |
| ByteArrays.ByteArray.FetchBytes | vm/builtin/bytearray.cpp:163-180 | errors on start < 0, then count < 0, then start+count past the end, and no others; otherwise a fresh unpinned buffer equal to `bytes[src..src+cnt] + [0]`, the receiver unchanged |
| ByteArrays.ByteArray.Prepend | vm/builtin/bytearray.cpp:182-189 | a fresh unpinned buffer equal to `other + bytes`, the receiver unchanged |
| ByteArrays.ByteArray.Reverse | vm/builtin/bytearray.cpp:191-208 | returns the receiver; the two-pointer swap loop leaves the buffer equal to `ReverseSpec(old, start, total)` |
| ByteSeqs.ReverseRangeAt | vm/builtin/bytearray.cpp:198-205 | after reversing `[lo, hi)`, byte `k` inside the range is old byte `lo + hi - 1 - k`, and bytes outside the range are unchanged |
| ByteSeqs.ReverseSpecTwice | vm/builtin/bytearray.cpp:191-208 | reversing the same `(start, total)` twice restores the buffer, including on the clamped no-op paths |
| ByteArrays.ByteArray.CompareBytes | vm/builtin/bytearray.cpp:210-244 | fails exactly when either unclamped limit is negative, the self limit checked first; otherwise the result is in {-1, 0, 1} and is -1, 1 or 0 exactly when the clamped self prefix is lexicographically below, above, or equal to the clamped other prefix, comparing unsigned bytes with a proper prefix first |
| ByteSeqs.CompareIsLexicographic | vm/builtin/bytearray.cpp:221-243 | memcmp over the shorter clamped length, with the tie broken by the clamped lengths, is the lexicographic order of the two clamped prefixes, both ways for each of -1, 0 and 1 |
| ByteSeqs.CompareAtFirstDiff | vm/builtin/bytearray.cpp:229-243 | the result is decided by the first differing byte below the shorter clamped length, or by the clamped lengths when there is none |
| ByteSeqs.MemcmpAtFirstDiff | vm/builtin/bytearray.cpp:229 | memcmp is 0 when the first `len` bytes agree, otherwise the order of the two unsigned bytes at the first difference |
| ByteSeqs.CompareReflexive | vm/builtin/bytearray.cpp:210-244 | comparing a buffer with itself under equal limits gives 0 |
| ByteSeqs.CompareAntisymmetric | vm/builtin/bytearray.cpp:210-244 | swapping receiver and other, and their limits, negates the result |
| ByteSeqs.LexLessAsymmetric | vm/builtin/bytearray.cpp:233-243 | two prefixes are never each below the other, so "-1" and "1" never both apply |
| ByteArrays.ByteArray.Locate | vm/builtin/bytearray.cpp:246-272 | the nested scan returns exactly `LocateSpec`: `start` for an empty pattern, nothing when `max == 0`, otherwise the end offset of the leftmost match among starts from `start` below `min(max, size) - (len - 1)` |
| ByteSeqs.FirstMatch | vm/builtin/bytearray.cpp:257-269 | the least start in `[lo, hi)` where the pattern occurs, and no match in the range when there is none |
| ByteSeqs.LocateSpecMeaning | vm/builtin/bytearray.cpp:252-271 | for a non-empty pattern and `max != 0`, a result `e` means the pattern occurs at `e - len`, no earlier start from `start` matches, and the match ends by `min(max, size)`; no result means no match starts at or after `start` and ends by `max` |
| Utf8.Limits | vm/builtin/bytearray.cpp:276-284 | the seven entries of `utf8_limits`, verbatim: the least value of each encoding length, and 2^31 |
| Utf8.RoomIsNextLimit | vm/builtin/bytearray.cpp:276-284 | the payload room of an `n`-byte sequence, lead bits times 64 per continuation byte, is exactly the table entry for `n + 1` |
| Utf8.AccBelowLimit | vm/builtin/bytearray.cpp:312-324 | the value gathered from an `n`-byte sequence is below the table entry for `n + 1`, so it never needs more than 31 bits |
| Utf8.Utf8ToUv | vm/builtin/bytearray.cpp:286-310 | the lead-byte bit tests and masks produce exactly `Utf8ToUvSpec`, and a successful result is below 2^31 |
| Utf8.ReadContinuations | vm/builtin/bytearray.cpp:311-328 | the `while (n--)` loop produces exactly `ContinuationSpec`: stop at a bad byte with success, the partial value and the bytes before it, or apply the overlong check to a complete sequence; no shift overflows 32 bits |
| Utf8.LeadBits | vm/builtin/bytearray.cpp:292-307 | each bit test on the lead byte is the integer range `LeadLength` uses, and each mask yields the lead byte minus its marker |
| Utf8.ContinuationBits | vm/builtin/bytearray.cpp:316-321 | the test `(c & 0xc0) == 0x80` holds exactly for bytes 0x80..0xBF, and `c & 0x3f` is `c mod 64` |
| Utf8.DecodedInBand | vm/builtin/bytearray.cpp:311-328 | a complete sequence of `n` continuation-valid bytes has length `n`, value below the table entry for `n + 1`, and succeeds exactly when the value is at least the entry for `n` |
| Utf8.ContinuationInBand | vm/builtin/bytearray.cpp:311-328 | the same band property for the continuation part alone |
| Utf8.DecodedLength | vm/builtin/bytearray.cpp:286-329 | on every path the reported length is at least 1 and at most the bytes left |
| Utf8.DecodeEncode | vm/builtin/bytearray.cpp:286-329 | every value below 2^31, in its shortest encoding and followed by any bytes, decodes to itself with the encoding's length |
| Utf8.EncodedLength | vm/builtin/bytearray.cpp:276-284 | the shortest length of a value is the `n` whose table entries bracket it |
| Utf8.DecodeEAcute | vm/builtin/bytearray.cpp:286-329 | bytes C3 A9 decode to 0xE9 with length 2 |
| Utf8.OverlongNulRefused | vm/builtin/bytearray.cpp:326-327 | the overlong two-byte form C0 80 of 0 fails |
| Utf8.BadContinuationSucceeds | vm/builtin/bytearray.cpp:316-319 | C3 41 succeeds with the partial value 3 and length 1 |
| ByteArrays.ByteArray.GetUtf8Char | vm/builtin/bytearray.cpp:331-345 | equals `Utf8CharAt`: nothing at or past the end; an ASCII byte is itself with length 1; a lead byte 0x80..0xBF, 0xFE or 0xFF gives nothing; a result is below 2^31 and its length lies between 1 and the bytes left |

## Left out

- `ByteArray::init` (class registration with the runtime) and the collector hooks `Info::object_size` and `Info::mark`. They depend on the runtime's bootstrap and collector, which are not part of this model.
- The allocator calls `new_object_bytes_dirty` and `new_object_bytes_mature_dirty`, and the object header, `full_size_` and word-alignment padding. The allocator adjusts `body` and `size()` is defined in a header that is not part of this model. `Size()` is taken to be the requested byte count. If the source's `size()` includes the word padding, then `create`, `create_pinned`, `create_dirty`, `fetch_bytes` and `prepend` return longer buffers whose extra bytes are zero, and this model does not follow that.
- `size()` is taken to be a signed count. The comparison `max > size()` in `locate` is then signed, and a negative `max` finds nothing. If `size()` were unsigned, a negative `max` would be clamped to the size and the whole buffer scanned; the model does not follow that.
- The out-of-memory branches (`Exception::memory_error`). They are resource failures.
- The `pin()` call and the abort when pinning fails. Pinning is a constant flag set by `CreatePinned`.
- `rubinius::bug` on a negative size in `create`, `create_pinned` and `create_dirty` aborts the process. The constructors take a `nat` instead. `Allocate` is the entry point that turns a negative size into an error.
- Fixnum, Integer and Tuple boxing, `cNil` and `Primitives::failure()`. They become `int`, `Option` and pairs.
- The `ALLOC_N` buffer of `to_chars`. It becomes a fresh `seq`.
- Machine-integer width of the arguments: `native_int` overflow of `dst + cnt`, `src + cnt` and `cnt + 1` is not modelled, since Fixnums fit well inside it.
- The decoder's `uint32_t` accumulator is an unbounded `int`. Before each shift the method asserts that the value is below 2^26, so the 32-bit operation never wraps and the two agree.
- ByteArrays.ByteArray.Reverse: requires `total <= size` whenever the guard lets the call through. The source never checks the end and would write outside the buffer.
- ByteArrays.ByteArray.Locate: requires a non-negative `start` whenever the scan runs. The source never checks it and would read before the buffer.
- ByteArrays.ByteArray.GetUtf8Char: requires `o >= 0`. The source never checks it.
- ByteArrays.ByteArray.GetUtf8Char: "offset past the end" and "decoding failed" both return `None`, because the source returns the same `Primitives::failure()` for both. A design in which they are distinct outcomes is not followed.
- ByteArrays.ByteArray.CreateDirty: Dafny zero-fills the new array, but the contract promises only the length, as the source does.
