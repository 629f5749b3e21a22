# libsox-rs decode core, modelled in Dafny

This project models the decoding core of the `libsox` Rust binding: the
sample converter that turns a native SoX sample into a normalised value, the
block-read loop of `read_audio_file` that gathers samples from the native
reader, closes the handle and converts, and the chunk loop of
`read_binary_file` that parses a raw file of packed little-endian words.

- `native.dfy` (module `Native`): the Rust integer types (`i32`, `usize` on a
  64-bit target, `u8`, `u32`) as bounded subsets of `int`, the `as usize`
  wrap-around, the two's-complement view of an `i32`, bitwise NOT as the
  complement 2^32 - 1 - a, and bitwise AND defined bit by bit.
- `sox_error.dfy` (module `SoxError`): `SoxErrorT` with its native codes and
  the EOF sentinel `EndOfFile as usize`.
- `sample.dfy` (module `Sample`): `sox_sample_to_float_32bit`. The integer
  step `(d + 64) & !127` is modelled exactly on `i32`; the scaling is real
  division by 2^31. It is compared with an independent reference,
  round-half-up to the nearest multiple of 128 on unbounded integers.
- `audio_read.dfy` (module `AudioRead`): the native `sox_read` is a script of
  `Fill`s. Each `Fill` holds the raw `usize` result of one call and the
  8192-sample buffer after it. `Collect` is the recursive reference for what
  the loop gathers. `ReadLoop` is the loop itself, with the invariant "the
  samples so far are the concatenation of the valid prefixes of the reads so
  far". `ReadAudioFile` adds the close event and the conversion. Lemmas
  describe `Collect` without recursion.
- `binary_read.dfy` (module `BinaryRead`): the file is a script of chunks of
  at most 8192 bytes. Words are kept as 32-bit patterns.
- `seqs.dfy` (module `Seqs`): concatenation of a sequence of sequences.

Two points where the code does less than its own signature or comments
suggest:
- `read_audio_file` is declared to return `Result<Vec<f32>, SoxErrorT>`
  (src/lib.rs:84), but its body has no `Err` path, and it does not check the
  handle returned by `sox_open_read`. The close on line 123 is reached only
  when the loop ends normally: a read count above 8192 (other than the
  sentinel) makes the slice on line 111 panic first, and the handle is then
  never closed. The model has a `Panicked` outcome without a `Close` event
  for that case.
- The comment on line 104 says the loop stops when a read returns fewer
  samples than requested, while line 117 tests `!= SAMPLES`. The two agree,
  because a count above 8192 panics at line 111 before line 117 is reached.

## Model

| member | source | states |
|---|---|---|
| Native.AsUsize | src/lib.rs:108 | `EndOfFile as usize` wraps a negative code around 2^64, and leaves non-negative codes unchanged |
| Native.BitAndClearsLowBits | src/lib.rs:79 | ANDing with a mask whose low k bits are clear rounds the pattern down to a multiple of 2^k |
| Sample.ClearLow7 | src/lib.rs:79 | `x & !127` on the two's-complement pattern of an `i32` is `x` rounded down to a multiple of 128, for negative `x` too |
| Sample.Quantize | src/lib.rs:76-79 | in the non-clip branch, `d + 64` cannot overflow `i32`. The result is a multiple of 128 in (d - 64, d + 64] and lies in [-2^31, 2^31 - 128] |
| Sample.SampleToFloat32 | src/lib.rs:60-81 | inputs above `0x7FFFFFFF - 64` give exactly 1.0. Every other input gives a value below 1.0. All outputs lie in [-1.0, 1.0] |
| Sample.RoundHalfUp128IsNearest | src/lib.rs:67-71 | the reference rounding gives a nearest multiple of 128, ties going up. It is the only value that does |
| Sample.QuantizeIsRounding | src/lib.rs:76-79 | the bit-level quantisation equals the reference round-half-up to 128 |
| Sample.SampleToFloat32IsScaledRounding | src/lib.rs:74-80 | both branches follow one rule: nearest multiple of 128 (ties up), divided by 2^31. The clip branch covers exactly the inputs whose `d + 64` would overflow |
| Sample.QuantizeFitsF32 | src/lib.rs:79 | the quantised value is 128 * k with -2^24 <= k < 2^24. So the `as f32` cast and the scaling by 2^-31 lose nothing |
| Sample.SampleToFloat32Monotone | src/lib.rs:74-80 | a larger sample never converts to a smaller value |
| SoxError.CodeRoundTrip | src/lib.rs:29-48 | each variant's native code maps back to that variant, so the codes are distinct |
| SoxError.EofSentinelValue | src/lib.rs:108 | the EOF sentinel is 2^64 - 1. It is above 8192, so no valid count can be mistaken for it |
| AudioRead.Collect | src/lib.rs:105-120 | the loop makes at least one read and at most one past the end of the script. A successful loop gathers at most 8192 samples per read |
| AudioRead.ReadLoop | src/lib.rs:99-120 | the imperative loop gathers exactly what `Collect` defines. Its trace holds one `Read` per `sox_read` call |
| AudioRead.ReadAudioFile | src/lib.rs:84-134 | a returning call always returns `Ok`. The handle is closed exactly once, after all reads. The output has the collected samples' length, and output[i] is the conversion of sample i, which is the map `ConvertAll` over the collected samples. A panic happens exactly on an out-of-range count, and leaves no close |
| AudioRead.ConvertSamples | src/lib.rs:125-130 | the conversion keeps length and index order, equals the map `ConvertAll` that `ConvertPiecesInOrder` splits, and every value lies in [-1, 1] |
| AudioRead.ConvertPiecesInOrder | src/lib.rs:128 | converting contiguous pieces separately and joining them in order gives the sequential conversion, however the samples are split |
| AudioRead.CollectStopsAtFirstShortRead | src/lib.rs:105-120 | every read before the last returned exactly 8192 samples. The last read is the first one that did not (sentinel, short or out of range). The loop panics exactly when that count is out of range |
| AudioRead.CollectIsValidPrefixes | src/lib.rs:108-112 | the gathered samples are the valid prefixes `buffer[..n]` of all reads made, joined in read order. The sentinel adds nothing and stale buffer entries never enter |
| AudioRead.CollectReadsInBounds | src/lib.rs:106-111 | every read a non-panicking loop makes returned the sentinel or at most 8192 samples, so each slice it takes is in range |
| AudioRead.CollectLength | src/lib.rs:111 | the number of gathered samples is the sum of the counts of the reads made, the sentinel counting zero |
| AudioRead.NoPanicWhenCountsInBounds | src/lib.rs:106-111 | when every count is the sentinel or at most 8192, the loop never panics |
| AudioRead.CollectIgnoresLaterReads | src/lib.rs:117-119 | after a short read or the sentinel, no further read is made: extending the script changes nothing |
| BinaryRead.EncodeThenDecode | src/lib.rs:158 | encoding a word as four little-endian bytes and decoding them gives the word back |
| BinaryRead.DecodeThenEncode | src/lib.rs:158 | decoding four little-endian bytes and encoding the word gives the bytes back |
| BinaryRead.DecodeWords | src/lib.rs:157-158 | a slice of b bytes gives b / 4 words. Word i is built from bytes 4i..4i+3 as b0 + 2^8 b1 + 2^16 b2 + 2^24 b3 |
| BinaryRead.DecodeEncodeWords | src/lib.rs:157-162 | decoding the bytes of some words followed by fewer than four stray bytes gives back exactly those words |
| BinaryRead.FirstEmpty | src/lib.rs:153-154 | the chunks before the first zero-byte read are all nonempty, and that read is empty |
| BinaryRead.ReadBinaryFile | src/lib.rs:136-172 | the loop returns the words of each chunk before the first zero-byte read, in order. Their number is the sum of len / 4 over those chunks |
| BinaryRead.ReadBinary | src/lib.rs:148-170 | the loop as written, as a recursive definition: each nonempty chunk is decoded on its own until the first empty read. It has no contract of its own; `ReadBinaryIsPerChunk`, `ReadBinaryLength`, `ReadBinaryAlignedIsStream` and `ReadBinaryMisaligns` describe it |
| BinaryRead.ReadBinaryIsPerChunk | src/lib.rs:148-170 | the as-written loop decodes each chunk separately and joins the results in order |
| BinaryRead.ReadBinaryLength | src/lib.rs:157-162 | each chunk contributes len / 4 words. Its len % 4 leftover bytes are dropped |
| BinaryRead.ReadBinaryAlignedIsStream | src/lib.rs:148-170 | if every read but the last returns a multiple of four bytes, the as-written loop decodes the whole byte stream |
| BinaryRead.ReadBinaryMisaligns | src/lib.rs:157-162 | a file split into reads of 3 and 1 bytes loses its one word in the as-written loop |
| BinaryRead.ReadBinaryStream | src/lib.rs:148-170 | the corrected loop carries leftover bytes into the next chunk, and decodes the whole byte stream |
| BinaryRead.ReadCarryingIsStream | src/lib.rs:148-170 | when leftovers are carried, the result does not depend on how the reads split the stream |

## Findings

| source | as written | input that shows it | evidently intended | confidence | as-written member | corrected member |
|---|---|---|---|---|---|---|
| src/lib.rs:157-162 | `read_binary_file` drops the `len % 4` trailing bytes of every chunk, including chunks in the middle of the file | a reader that returns the bytes 00 00 80 3F (the float 1.0) as a read of 3 bytes followed by a read of 1 byte. The loop returns no word | decode the file as one stream of little-endian words. Only the bytes after the file's last complete word are dropped | low: `Read::read` may return fewer bytes than the buffer holds, but regular files rarely do so before the end; not executed | BinaryRead.ReadBinaryMisaligns | BinaryRead.ReadBinaryStream |

## Left out

- Native calls `sox_open_read`, `sox_read` and `sox_close` (src/lib.rs:90, 106, 123). They are foreign calls. `sox_read` is a scripted reader and the close is an event in a trace. A read past the end of the script returns the EOF sentinel. The model begins after the open. The code does not null-check the open result, and a failed open is not modelled.
- The writes to `signal.rate` and `signal.channels` (src/lib.rs:92-93) only configure the native reader.
- The path-to-`CString` conversion and its `unwrap`s (src/lib.rs:87). This is string handling at the foreign boundary.
- The value of `sox_close` (src/lib.rs:123). The code discards it.
- Single-precision arithmetic in the converter. It is replaced by real division by 2^31. `QuantizeFitsF32` shows that the quantised values fit the f32 significand, so the f32 computation loses nothing.
- The clip counter of the SoX macro (src/lib.rs:70). The Rust function has no such counter.
- Rayon's `into_par_iter` (src/lib.rs:128). It is modelled as a sequential map. `ConvertPiecesInOrder` covers any contiguous split.
- `usize` is taken as 64 bits wide. On a 32-bit target the sentinel would be 2^32 - 1, which is still above 8192.
- `read_binary_file`'s `File::open(...).unwrap()` (src/lib.rs:137). This is file-system I/O.
- `read_binary_file`'s read-error branch (src/lib.rs:168). It prints and retries, so it can loop forever.
- The convert-error branch (src/lib.rs:164). It cannot be taken: the slice always holds 4 * (len / 4) bytes.
- The reinterpretation of each word as an `f32` (src/lib.rs:158). Words are kept as their bit patterns.
- `run_sox_and_read_file` (src/lib.rs:174-194). It runs a shell process.
- `init_sox` (src/lib.rs:50-57). It is a global once-guard plus foreign initialisation.
- The test module (src/lib.rs:196-229). It prints results and asserts nothing.
- src/bin.rs (wall-clock benchmarking), build.rs (binding generation and a download), src/encodinginfo.rs and src/signalinfo.rs (field copies from foreign structs), src/raw.rs (generated bindings). None of these is part of this model.
