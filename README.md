# RKG ghost input codec

A Dafny model of the ghost-replay ("RKG") input codec of
`scripts/Modules/TTK_Lib.py` in the Mario Kart Wii TAS toolkit scripts.
The codec turns a non-empty sequence of controller frames into the input
section of an `.rkg` ghost file and reads such a section back.

The model has four modules, one per layer of the codec:

- `SymbolCodec` (`symbol_codec.dfy`) holds the per-frame symbol codec.
  - Face buttons A, B and L go in bits 0-2. Bit 3 is set only when A and B are both held and the previous symbol is outside {0, 2, 3, 7}.
  - The stick is a biased nibble pair.
  - The d-pad value is multiplied by 16.
- `RunLength` (`run_length.dfy`) is the reference specification the encoder is proved against: capped run-length encoding. Every run holds 1 to `cap` frames, and two neighbouring runs share a symbol only when the first is full. It proves the greedy encoding is one and that it is the only one.
- `Transcoder` (`transcoder.dfy`) holds:
  - `encodeTuple`, once with the trick layout the decoder reads (`EncodeTuple`, used by the rest of the model) and once exactly as written (`EncodeTupleAsWritten`, see Findings);
  - `encodeRKGDataType`, a loop proved to emit exactly the capped run-length encoding of the frames' symbols;
  - `RKGTuple.__bytes__`;
  - `decodeRKGData`, a loop proved equal to a pair-by-pair decoding function;
  - the round trips of the face and direction channels, and of the trick channel in the decoder's layout;
  - what the trick channel decodes to when its tuples are built as written.
- `RkgFile` (`rkg_file.dfy`) holds:
  - `encodeRKGData`;
  - `createRKGFile`, which builds the "RKGD" magic, the 140-byte header, the tuple bytes from 0x90, zero padding to 0x27FC and the big-endian CRC-32 trailer, 0x2800 bytes in all;
  - the conditions under which it returns the empty file;
  - the layout of a written file, offset by offset.

Python's `>>` and `%` by positive constants floor. They agree with Dafny's Euclidean `/` and `%` on every integer, so they are written with `/` and `%`. `x << k` is `x * 2^k`, and `x & (2^j - 1)` is `x % 2^j`.

Python's `[x] * n` with `n <= 0` is empty, and `Repeat` does the same.

The `try`/`except ValueError` of `createRKGFile` is modelled as the empty result. It is taken when:

- any header or tuple value is outside 0..255 (`bytearray`, `bytes`);
- the pad count `0x276C - dataIndex` is negative (`bytearray(n)`).

The CRC is the CRC-32 of section 8 of RFC 1952, which is what `zlib.crc32` computes. It is defined bitwise on `bv32` and checked against the standard check value.

The trailer splits use `math.floor` of a float division by a power of two. Such a division is exact in binary floating point for any 32-bit value, so the splits are integer divisions.

`decodeRKGData` (lines 85-114) has no end marker: a `(x, 0)` pair adds no frames and decoding goes on (`ZeroRunAddsNothing`). The stop at a zero word is in `readRawRKGData` (line 79), which is outside this model.

The trick tuples of the modelled pipeline are built in the decoder's layout, not as line 155 writes them (see Findings). The two layouts give different trick bytes for every non-zero d-pad value. For d-pad values in 0..15 both always fit a byte, so the same inputs give a file. Outside 0..15 they can differ: one frame of d-pad 16 gives no file here, while as written it gives the tuple (1, 1) and a file (`DpadSixteenDiverges`).

## Model

| member | source | states |
|---|---|---|
| SymbolCodec.EncodeFaceButton | scripts/Modules/TTK_Lib.py:36-40 | the face symbol is in 0..15; its low three bits are A, B and L; bit 3 is set iff A and B are held and the previous symbol is not in {0, 2, 3, 7} |
| SymbolCodec.FaceRoundTrip | scripts/Modules/TTK_Lib.py:20-25 | decoding an encoded face symbol gives [A, B, L] back, whatever the context |
| SymbolCodec.DirectionRoundTrip | scripts/Modules/TTK_Lib.py:27-31 | for both axes in [-7, 8], the biased stick symbol fits a byte and decodes to the biased axes |
| SymbolCodec.DirectionOutOfRangeAliases | scripts/Modules/TTK_Lib.py:42-43 | an out-of-range axis can still give a byte; (-7, 9) and (-6, -7) both encode to 0x10 |
| SymbolCodec.TrickRoundTrip | scripts/Modules/TTK_Lib.py:45-46 | for a d-pad value in [0, 15], the symbol is a multiple of 16 up to 0xF0, and `>> 4` returns the value |
| SymbolCodec.SeedIsStable | scripts/Modules/TTK_Lib.py:169-175 | re-encoding frame 0 with its own seed as context gives the seed again |
| RunLength.RunsAreRle | scripts/Modules/TTK_Lib.py:177-196 | the greedy runs expand to the symbols; each run holds 1 to cap frames; equal neighbours only after a full run |
| RunLength.RleIsUnique | scripts/Modules/TTK_Lib.py:177-196 | any run list with those three properties is the greedy one |
| RunLength.RunsConserveLength | scripts/Modules/TTK_Lib.py:177-196 | the run lengths add up to the number of symbols |
| RunLength.RleSnoc | scripts/Modules/TTK_Lib.py:188-194 | one more symbol either lengthens a non-full last run of that symbol or starts a run of one, and the result is still a capped run-length encoding |
| RunLength.ThousandEqualSymbols | scripts/Modules/TTK_Lib.py:187-195 | 1000 equal symbols under cap 255 give runs of 255, 255, 255 and 235 |
| RunLength.LeadingCount | scripts/Modules/TTK_Lib.py:188-194 | the count is at most the cap and the length; the first n symbols are equal to x; the next one differs unless the cap or the end is reached |
| Transcoder.EncodeTuple | scripts/Modules/TTK_Lib.py:153-157 | corrected layout, not line 155 as written: face and direction tuples are (symbol, length); a trick tuple keeps the d-pad nibble high in its first byte, and the first byte's low nibble times 0x100 plus the second byte is the run length |
| Transcoder.EncodeTupleAsWritten | scripts/Modules/TTK_Lib.py:153-157 | line 155 as written: face and direction tuples as above; for a trick symbol up to 0xF0 and a length up to 0xFFF the first byte is at most 0x10, and the second is the length's low byte |
| Transcoder.Flatten | scripts/Modules/TTK_Lib.py:150-151 | each tuple gives two bytes |
| Transcoder.FlattenPairs | scripts/Modules/TTK_Lib.py:150-151 | tuple k gives bytes 2k (its data) and 2k + 1 (its frames) |
| Transcoder.Symbols | scripts/Modules/TTK_Lib.py:169-183 | one symbol per frame; the context each frame is encoded with is stated by SymbolContext |
| Transcoder.EncodeRkgDataType | scripts/Modules/TTK_Lib.py:159-198 | the loop emits exactly one tuple per run of the greedy capped run-length encoding of the frames' symbols, with cap 0xFF or 0xFFF; trick tuples in EncodeTuple's corrected layout |
| Transcoder.EncodeStep | scripts/Modules/TTK_Lib.py:177-194 | one loop iteration: a changed symbol or a full run closes the pending run and opens a run of one (never at frame 0), otherwise the pending run grows by one; either way the runs stay a capped run-length encoding of the frames so far |
| Transcoder.EncodeTuplesSnoc | scripts/Modules/TTK_Lib.py:189 | appending a run appends its tuple |
| Transcoder.SymbolContext | scripts/Modules/TTK_Lib.py:177-183 | each frame is encoded with the previous frame's symbol as context, and frame 0 with context 0 |
| Transcoder.ChannelRunsAreRle | scripts/Modules/TTK_Lib.py:159-198 | a channel's runs are its capped run-length encoding, and their lengths add up to the frame count |
| Transcoder.ThousandFaceFrames | scripts/Modules/TTK_Lib.py:159-198 | 1000 identical face frames give tuples of 255, 255, 255 and 235 frames |
| Transcoder.SymbolsDecodeToFrames | scripts/Modules/TTK_Lib.py:20-46 | every frame's symbol fits a byte and decodes to that frame's buttons, stick or d-pad value |
| Transcoder.DecodeRkgData | scripts/Modules/TTK_Lib.py:85-114 | the loop yields the runs of all complete byte pairs in order |
| Transcoder.DecodeStep | scripts/Modules/TTK_Lib.py:92-112 | an even index adds nothing; an odd index adds the run of the pair it completes |
| Transcoder.DecodedAppend | scripts/Modules/TTK_Lib.py:85-114 | decoding distributes over a split at an even offset |
| Transcoder.DecodedIgnoresOddByte | scripts/Modules/TTK_Lib.py:92-112 | a trailing odd byte adds nothing |
| Transcoder.ZeroRunAddsNothing | scripts/Modules/TTK_Lib.py:85-114 | a pair with run length zero adds no frames, and decoding continues after it (no end marker) |
| Transcoder.DecodedLength | scripts/Modules/TTK_Lib.py:85-114 | the number of decoded frames is the sum of the run lengths of the complete pairs |
| Transcoder.FlattenBytes | scripts/Modules/TTK_Lib.py:150-151 | the flattened tuple bytes all fit iff both fields of every tuple fit a byte |
| Transcoder.DecodeFlattenedRuns | scripts/Modules/TTK_Lib.py:85-114 | decoding the tuples of a run list gives the decoded symbols of the expanded runs |
| Transcoder.ChannelRoundTrip | scripts/Modules/TTK_Lib.py:85-114 | for frames whose sticks are in [-7, 8] and d-pad values in [0, 15], the encoded tuple bytes fit and decode frame by frame to [A, B, L], [stick_x, stick_y] or the d-pad value; the trick clause is for the corrected layout (as written: TrickAsWrittenRoundTrip) |
| Transcoder.TrickTupleRoundTrip | scripts/Modules/TTK_Lib.py:153-157 | with the decoder's layout, a trick run of value 0..15 and length 0..0xFFF fits two bytes and decodes to the same run |
| Transcoder.TrickTupleAsWrittenCounterexample | scripts/Modules/TTK_Lib.py:155 | as written, one frame of d-pad 1 is written (0, 1) and reads back as d-pad 0; the decoder's layout writes (0x10, 1) |
| Transcoder.TrickPairAsWritten | scripts/Modules/TTK_Lib.py:155 | an as-written trick tuple fits bytes, reads back d-pad 0 or 1 and at least one frame; a run of 1s reads as 0s below 0xFF0 frames and as 1s 0xF00 frames short from 0xFF0 on |
| Transcoder.TrickAsWrittenValues | scripts/Modules/TTK_Lib.py:155 | every d-pad value decoded from as-written trick bytes is 0 or 1 |
| Transcoder.TrickOnesMismatch | scripts/Modules/TTK_Lib.py:155 | for runs of d-pad 0 and 1 with a 1 among them or k > 0 ones owed in front, the as-written bytes never decode to k ones followed by the runs' values |
| Transcoder.TrickAsWrittenRoundTrip | scripts/Modules/TTK_Lib.py:153-157 | as written, the trick bytes always fit, and they decode to the d-pad values iff every d-pad value is 0 |
| Transcoder.TrickNonZeroMismatch | scripts/Modules/TTK_Lib.py:155 | as written, any non-zero d-pad value makes the trick channel decode wrong |
| RkgFile.HeaderData | scripts/Modules/TTK_Lib.py:213-231 | the header list has 140 entries; the value at each index is stated by HeaderFields |
| RkgFile.HeaderFields | scripts/Modules/TTK_Lib.py:213-231 | header index 3 is trackID<<2; 4 and 5 are vehicle/character; 9 is the drift byte; 10-11, 132-137 are the big-endian length and counts; 12-131 the constant template; 138-139 zero |
| RkgFile.HeaderCountsExample | scripts/Modules/TTK_Lib.py:219-231 | counts (10, 20, 5) give header bytes (0, 10, 0, 20, 0, 5) and input length (0, 78) |
| RkgFile.HeaderFits | scripts/Modules/TTK_Lib.py:213-235 | the header fits bytes iff trackID and vehicleID are in 0..63, driftID in -2..125, and the length and counts in 0..0xFFFF |
| RkgFile.DivModFits | scripts/Modules/TTK_Lib.py:221 | `divmod(x, 0x100)` gives two bytes iff 0 <= x < 2^16, and they recompose to x |
| RkgFile.Crc32 | scripts/Modules/TTK_Lib.py:244 | the CRC of a byte string is a 32-bit value |
| RkgFile.Crc32CheckValue | scripts/Modules/TTK_Lib.py:244 | the CRC-32 of "123456789" is 0xCBF43926 |
| RkgFile.CrcTrailer | scripts/Modules/TTK_Lib.py:245-248 | the trailer is four values; that they fit and are the CRC most significant first is TrailerIsBigEndian |
| RkgFile.TrailerIsBigEndian | scripts/Modules/TTK_Lib.py:245-251 | the four trailer bytes fit and recompose, most significant first, to the CRC |
| RkgFile.EncodeRkgData | scripts/Modules/TTK_Lib.py:200-207 | the tuples are face, then direction, then trick; the lengths are the three counts, each between 1 and the frame count |
| RkgFile.TupleCount | scripts/Modules/TTK_Lib.py:159-198 | a channel of n > 0 frames has between 1 and n tuples |
| RkgFile.CreateRkgFile | scripts/Modules/TTK_Lib.py:209-256 | the result is empty iff the header or a tuple byte does not fit or the tuple bytes exceed 0x276C; otherwise it is magic + header + tuples + padding followed by the CRC trailer of those bytes; trick tuples in the corrected layout |
| RkgFile.WritableIff | scripts/Modules/TTK_Lib.py:233-256 | with d-pad values in 0..15, a file is written iff the ids are in range, the direction tuples fit and the tuple bytes are at most 0x276C (exactly 0x276C is accepted) |
| RkgFile.WrittenWhenInRange | scripts/Modules/TTK_Lib.py:233-253 | in-range sticks, d-pad values and ids with at most 0x276C tuple bytes always give a file |
| RkgFile.UnsealedLayout | scripts/Modules/TTK_Lib.py:234-242 | before the CRC, a written file is 0x27FC bytes: magic, header from 4, tuple bytes from 0x90, zeros after |
| RkgFile.FileLayout | scripts/Modules/TTK_Lib.py:211-253 | a written file is 0x2800 bytes: "RKGD"; the fields at 0x07, 0x08, 0x09 and 0x0D; the 16-bit length 2n+8 at 0x0E; the counts at 0x88-0x8D; zeros at 0x8E-0x8F; tuples from 0x90; zeros to 0x27FC; the big-endian CRC-32 of bytes 0..0x27FC last |
| RkgFile.FileRoundTrip | scripts/Modules/TTK_Lib.py:233-242 | in a written file, the face, direction and trick sections, located by the header counts, decode to the frames' values; the trick section only because its tuples are in the corrected layout |
| RkgFile.DpadSixteenDiverges | scripts/Modules/TTK_Lib.py:155 | one frame of d-pad 16: the corrected trick tuple (0x100, 1) does not fit, so no file is written; the tuple as written is (1, 1), which fits |

## Left out

- `readRawRKGData` (lines 49-82) reads game memory through the emulator API, with addresses from another module. Its zero-word stop and end-address cutoff are not part of this model.
- `readFullDecodedRKGData` (lines 117-143) depends on race-stage checks, GUI messages and `FrameSequence`, which is not part of this model.
- The CSV and `.rkg` file I/O (lines 259-316) and the ghost-controller memory writes (lines 318-391) are file-system and emulator side effects.
- `FrameSequence` and `dpad_raw()` are not part of this model. Frames are a sequence of records with integer stick and d-pad fields.
- The unused `bytes` counter in `encodeRKGDataType` affects nothing that is returned.
- The GUI message on failure is a side effect; the failure itself is the empty result.
- `EncodeRkgDataType`, `EncodeRkgData` and `CreateRkgFile` require a non-empty frame sequence. The source reads `inputList[0]` unguarded and raises `IndexError` on an empty one, outside its `try`.
- `zlib.crc32` is a library call. It is replaced by the bitwise CRC-32 of RFC 1952; the model proves its check value, not its equality with zlib.
- EncodeRkgDataType: trick tuples are built with the corrected layout of `EncodeTuple`, not with line 155 as written. For a non-zero d-pad value the trick bytes differ from the program's, and for a d-pad value outside 0..15 a tuple may fail to fit here where the program's fits, or the reverse (`DpadSixteenDiverges`).
- EncodeRkgData: its trick tuples are those of EncodeRkgDataType, with the same difference from the program.
- CreateRkgFile: the trick bytes of the file are the corrected ones, so for a non-zero d-pad value the file differs from the program's in those bytes and in the CRC. For a d-pad value outside 0..15 the empty result is not the program's: one frame of d-pad 16 gives no file here and a file in the program (`DpadSixteenDiverges`).
- ChannelRoundTrip: the trick round trip holds for the corrected layout only. The program's trick channel decodes right iff every d-pad value is 0 (`TrickAsWrittenRoundTrip`).
- FileRoundTrip: the trick section decodes to the d-pad values only because its tuples are in the corrected layout. In the program's file it does so iff every d-pad value is 0.
- FileLayout: the tuple bytes from 0x90 are the corrected ones; the offsets, counts, padding and trailer layout are the same for the program.
- Byte lists are modelled as `seq<int>` with an explicit 0..255 check where `bytes`/`bytearray` would raise.

## Findings

| source | as written | input that shows it | evidently intended | confidence | as-written member | corrected member |
|---|---|---|---|---|---|---|
| scripts/Modules/TTK_Lib.py:155 | `RKGTuple(input + frames >> 8, frames % 0x100)`: Python parses it as `(input + frames) >> 8`, so the d-pad nibble is lost and the decoder (lines 96-100) reads d-pad 0 or 1 with a wrong length | one trick frame with d-pad 1: symbol 0x10, run 1, written as (0, 1), read back as one frame of d-pad 0 | `input + (frames >> 8)`: d-pad in the high nibble, run-length bits 8-11 in the low nibble, as the decoder reads it | not executed | Transcoder.TrickAsWrittenRoundTrip | Transcoder.TrickTupleRoundTrip |

The as-written tuple is `Transcoder.EncodeTupleAsWritten`.

- `TrickTupleAsWrittenCounterexample` exhibits the single-frame case.
- `TrickAsWrittenRoundTrip` proves the as-written trick channel decodes correctly iff every d-pad value is 0.

`Transcoder.EncodeTuple` uses the intended layout. The rest of the model uses it: `EncodeRkgDataType`, `CreateRkgFile`, `ChannelRoundTrip` and `FileRoundTrip`. So the trick tuples in the modelled file are the ones the decoder reads back, and differ from the program's bytes for any non-zero d-pad value. "## Left out" names each member this affects.
