/** Assembly of a whole RKG ghost file from a frame sequence: the three
    channels' tuples, a fixed 140-byte header carrying the track, vehicle,
    character and drift settings and the section sizes, the tuple bytes,
    zero padding up to the fixed input-section size, and a big-endian
    CRC-32 of everything before it. */
module RkgFile {
  import opened SymbolCodec
  import opened RunLength
  import opened Transcoder

  /** "RKGD" as UTF-8. */
  const Magic: seq<int> := [0x52, 0x4B, 0x47, 0x44]

  /** The most tuple bytes the input section holds; the padding fills up to it. */
  const MaxTupleBytes := 0x276C

  /** The file offset of the first tuple byte, right after magic and header. */
  const TupleStart := 0x90

  /** The length of every file written, trailer included. */
  const FileSize := 0x2800

  /** The offset of the CRC-32 trailer. */
  const CrcOffset := 0x27FC

  /** The 120 constant header bytes between the input-length field and the
      tuple counts (file offsets 0x10 to 0x87), in rows of 24. */
  const HeaderTemplate: seq<int> := TemplateRow0 + TemplateRow1 + TemplateRow2 + TemplateRow3 + TemplateRow4

  const TemplateRow0: seq<int> := [
    0x03, 0x54, 0x00, 0x00, 0x00, 0xA8, 0x00, 0x00, 0x00, 0x2A, 0x00, 0x00,
    0x00, 0x00, 0x00, 0x00, 0x00, 0x00, 0x00, 0x00, 0x00, 0x00, 0x00, 0x00]
  const TemplateRow1: seq<int> := [
    0x00, 0x00, 0x00, 0x00, 0x00, 0x00, 0x00, 0x00, 0x00, 0x00, 0x00, 0x00,
    0xAA, 0x01, 0x00, 0x00, 0x00, 0x00, 0x00, 0x00, 0xC0, 0x10, 0x00, 0x54]
  const TemplateRow2: seq<int> := [
    0x00, 0x41, 0x00, 0x53, 0x00, 0x54, 0x00, 0x6F, 0x00, 0x6F, 0x00, 0x6C,
    0x00, 0x6B, 0x00, 0x69, 0x00, 0x74, 0x00, 0x22, 0x87, 0x30, 0x89, 0x66]
  const TemplateRow3: seq<int> := [
    0xC2, 0xC4, 0xED, 0xC3, 0x20, 0x44, 0x3C, 0x40, 0x28, 0x38, 0x0C, 0x84,
    0x48, 0xCF, 0x0E, 0x00, 0x08, 0x00, 0xB9, 0x09, 0x00, 0x8A, 0x81, 0x06]
  const TemplateRow4: seq<int> := [
    0xC4, 0x10, 0x00, 0x00, 0x00, 0x00, 0x00, 0x00, 0x00, 0x00, 0x00, 0x00,
    0x00, 0x00, 0x00, 0x00, 0x00, 0x00, 0x00, 0x00, 0x00, 0x00, 0x7A, 0x6E]

  /** Python's `divmod(x, 0x100)`, spliced into the header as two entries. */
  function DivMod(x: int): seq<int> {
    [x / 0x100, x % 0x100]
  }

  /** The header list of createRKGFile. `x << k` is `x * 2^k` and `x & m`
      with m = 2^j - 1 is `x % 2^j` on every Python integer. */
  function HeaderData(trackId: int, vehicleId: int, characterId: int, driftId: int,
                      inputLength: int, tuplesFace: int, tuplesDi: int, tuplesTrick: int): (h: seq<int>)
    ensures |h| == 140
  {
    var byteNr8 := vehicleId * 4 + (characterId / 0x10) % 0x4;
    var byteNr9 := (characterId * 0x10) % 0x100;
    var byteNrD := 0x4 + driftId * 2;
    [0x54, 0xA8, 0x2A, trackId * 4, byteNr8, byteNr9, 0x02, 0x10, 0x00, byteNrD]
      + DivMod(inputLength) + HeaderTemplate
      + DivMod(tuplesFace) + DivMod(tuplesDi) + DivMod(tuplesTrick) + [0x00, 0x00]
  }

  // ----- CRC-32 (the zlib polynomial, reflected) -----

  /** k rounds of the bitwise reflected CRC-32 register update. */
  function CrcShift(c: bv32, k: nat): bv32
    decreases k
  {
    if k == 0 then c
    else CrcShift(if c & 1 == 1 then (c >> 1) ^ 0xEDB8_8320 else c >> 1, k - 1)
  }

  /** The register after the bytes of `data`, one byte at a time. */
  function CrcRegister(c: bv32, data: seq<bv8>): bv32
    decreases |data|
  {
    if data == [] then c else CrcRegister(CrcShift(c ^ (data[0] as bv32), 8), data[1..])
  }

  /** A list of byte values as bytes. */
  function ToBytes(data: seq<int>): (r: seq<bv8>)
    requires AllBytes(data)
    ensures |r| == |data|
  {
    seq(|data|, i requires 0 <= i < |data| => data[i] as bv8)
  }

  /** zlib.crc32 of a byte string: initial register all ones, final
      complement. */
  function Crc32(data: seq<int>): (crc: int)
    requires AllBytes(data)
    ensures 0 <= crc < 0x1_0000_0000
  {
    (CrcRegister(0xFFFF_FFFF, ToBytes(data)) ^ 0xFFFF_FFFF) as int
  }

  /** The standard CRC-32 check value: "123456789" gives 0xCBF43926. */
  lemma Crc32CheckValue()
    ensures Crc32([0x31, 0x32, 0x33, 0x34, 0x35, 0x36, 0x37, 0x38, 0x39]) == 0xCBF4_3926
  {
    assert ToBytes([0x31, 0x32, 0x33, 0x34, 0x35, 0x36, 0x37, 0x38, 0x39])
      == [0x31, 0x32, 0x33, 0x34, 0x35, 0x36, 0x37, 0x38, 0x39];
    CheckValueStep0(); CheckValueStep1(); CheckValueStep2();
    CheckValueStep3(); CheckValueStep4(); CheckValueStep5();
    CheckValueStep6(); CheckValueStep7(); CheckValueStep8();
  }

  // The register after each byte of the check string.

  lemma CheckValueStep0()
    ensures CrcRegister(0xFFFF_FFFF, [0x31, 0x32, 0x33, 0x34, 0x35, 0x36, 0x37, 0x38, 0x39]) == CrcRegister(0x7C23_1048, [0x32, 0x33, 0x34, 0x35, 0x36, 0x37, 0x38, 0x39])
  {
    assert CrcShift(0xFFFF_FFFF ^ 0x31, 8) == 0x7C23_1048;
  }

  lemma CheckValueStep1()
    ensures CrcRegister(0x7C23_1048, [0x32, 0x33, 0x34, 0x35, 0x36, 0x37, 0x38, 0x39]) == CrcRegister(0xB0AC_BB32, [0x33, 0x34, 0x35, 0x36, 0x37, 0x38, 0x39])
  {
    assert CrcShift(0x7C23_1048 ^ 0x32, 8) == 0xB0AC_BB32;
  }

  lemma CheckValueStep2()
    ensures CrcRegister(0xB0AC_BB32, [0x33, 0x34, 0x35, 0x36, 0x37, 0x38, 0x39]) == CrcRegister(0x77B7_9C2D, [0x34, 0x35, 0x36, 0x37, 0x38, 0x39])
  {
    assert CrcShift(0xB0AC_BB32 ^ 0x33, 8) == 0x77B7_9C2D;
  }

  lemma CheckValueStep3()
    ensures CrcRegister(0x77B7_9C2D, [0x34, 0x35, 0x36, 0x37, 0x38, 0x39]) == CrcRegister(0x641C_1F5C, [0x35, 0x36, 0x37, 0x38, 0x39])
  {
    assert CrcShift(0x77B7_9C2D ^ 0x34, 8) == 0x641C_1F5C;
  }

  lemma CheckValueStep4()
    ensures CrcRegister(0x641C_1F5C, [0x35, 0x36, 0x37, 0x38, 0x39]) == CrcRegister(0x340A_C5E3, [0x36, 0x37, 0x38, 0x39])
  {
    assert CrcShift(0x641C_1F5C ^ 0x35, 8) == 0x340A_C5E3;
  }

  lemma CheckValueStep5()
    ensures CrcRegister(0x340A_C5E3, [0x36, 0x37, 0x38, 0x39]) == CrcRegister(0xF68D_2C9E, [0x37, 0x38, 0x39])
  {
    assert CrcShift(0x340A_C5E3 ^ 0x36, 8) == 0xF68D_2C9E;
  }

  lemma CheckValueStep6()
    ensures CrcRegister(0xF68D_2C9E, [0x37, 0x38, 0x39]) == CrcRegister(0xAFFC_9660, [0x38, 0x39])
  {
    assert CrcShift(0xF68D_2C9E ^ 0x37, 8) == 0xAFFC_9660;
  }

  lemma CheckValueStep7()
    ensures CrcRegister(0xAFFC_9660, [0x38, 0x39]) == CrcRegister(0x651F_2550, [0x39])
  {
    assert CrcShift(0xAFFC_9660 ^ 0x38, 8) == 0x651F_2550;
  }

  lemma CheckValueStep8()
    ensures CrcRegister(0x651F_2550, [0x39]) == CrcRegister(0x340B_C6D9, [])
  {
    assert CrcShift(0x651F_2550 ^ 0x39, 8) == 0x340B_C6D9;
  }

  /** The four trailer bytes, most significant first. `crc & 0x00FF0000`
      divided by 0x10000 is the second byte, and likewise the third. */
  function CrcTrailer(crc: int): (t: seq<int>)
    ensures |t| == 4
  {
    [crc / 0x100_0000, (crc / 0x1_0000) % 0x100, (crc / 0x100) % 0x100, crc % 0x100]
  }

  /** The trailer is the CRC in big-endian order: four bytes that put
      together give the CRC back. */
  lemma TrailerIsBigEndian(crc: int)
    requires 0 <= crc < 0x1_0000_0000
    ensures AllBytes(CrcTrailer(crc))
    ensures var t := CrcTrailer(crc);
      t[0] * 0x100_0000 + t[1] * 0x1_0000 + t[2] * 0x100 + t[3] == crc
  {
    var t := CrcTrailer(crc);
    assert crc / 0x100 == (crc / 0x1_0000) * 0x100 + t[2];
    assert crc / 0x1_0000 == t[0] * 0x100 + t[1];
  }

  // ----- the file -----

  /** encodeRKGData: the face, direction and trick tuples one after the
      other, and how many each channel has. Each channel has at least one
      tuple and at most one per frame. */
  method EncodeRkgData(inputList: seq<Frame>) returns (allTuples: seq<RkgTuple>, tupleLengths: seq<int>)
    requires |inputList| > 0
    ensures allTuples == AllTuples(inputList)
    ensures tupleLengths == [|EncodedChannel(Face, inputList)|, |EncodedChannel(Direction, inputList)|,
                             |EncodedChannel(Trick, inputList)|]
    ensures forall c :: 0 <= c < 3 ==> 1 <= tupleLengths[c] <= |inputList|
  {
    var faceTuples := EncodeRkgDataType(inputList, Face);
    var diTuples := EncodeRkgDataType(inputList, Direction);
    var trickTuples := EncodeRkgDataType(inputList, Trick);
    allTuples := faceTuples + diTuples + trickTuples;
    tupleLengths := [|faceTuples|, |diTuples|, |trickTuples|];
    TupleCount(Face, inputList);
    TupleCount(Direction, inputList);
    TupleCount(Trick, inputList);
  }

  /** A channel of n frames has between 1 and n tuples: every run holds at
      least one frame and the runs hold the n frames between them. */
  lemma TupleCount(ch: Channel, frames: seq<Frame>)
    requires |frames| > 0
    ensures 1 <= |EncodedChannel(ch, frames)| <= |frames|
  {
    var runs := ChannelRuns(ch, frames);
    ChannelRunsAreRle(ch, frames);
    RunsBoundLength(runs);
  }

  /** A run list of non-empty runs holds at least as many frames as runs. */
  lemma {:induction false} RunsBoundLength(runs: seq<Run>)
    requires forall k :: 0 <= k < |runs| ==> runs[k].length >= 1
    ensures TotalLength(runs) >= |runs|
  {
    if runs != [] {
      assert forall k :: 0 <= k < |runs[1..]| ==> runs[1..][k] == runs[k + 1];
      RunsBoundLength(runs[1..]);
    }
  }

  function AllTuples(frames: seq<Frame>): seq<RkgTuple> {
    EncodedChannel(Face, frames) + EncodedChannel(Direction, frames) + EncodedChannel(Trick, frames)
  }

  /** The header createRKGFile builds for these frames and settings. */
  function FileHeader(frames: seq<Frame>, trackId: int, vehicleId: int, characterId: int, driftId: int): seq<int> {
    HeaderData(trackId, vehicleId, characterId, driftId, 2 * |AllTuples(frames)| + 8,
               |EncodedChannel(Face, frames)|, |EncodedChannel(Direction, frames)|,
               |EncodedChannel(Trick, frames)|)
  }

  /** The file is written only when the header and every tuple fit bytes
      and the tuple bytes fit the input section. */
  predicate Writable(frames: seq<Frame>, trackId: int, vehicleId: int, characterId: int, driftId: int) {
    && AllBytes(FileHeader(frames, trackId, vehicleId, characterId, driftId))
    && AllBytes(Flatten(AllTuples(frames)))
    && 2 * |AllTuples(frames)| <= MaxTupleBytes
  }

  /** The file up to the CRC: magic, header, tuple bytes, zero padding. */
  function Unsealed(frames: seq<Frame>, trackId: int, vehicleId: int, characterId: int, driftId: int): seq<int> {
    Magic + FileHeader(frames, trackId, vehicleId, characterId, driftId)
      + Flatten(AllTuples(frames)) + Repeat(0, MaxTupleBytes - 2 * |AllTuples(frames)|)
  }

  lemma AllBytesAppend(a: seq<int>, b: seq<int>)
    ensures AllBytes(a + b) <==> AllBytes(a) && AllBytes(b)
  {
    if AllBytes(a + b) {
      assert forall i :: 0 <= i < |a| ==> (a + b)[i] == a[i];
      assert forall i :: 0 <= i < |b| ==> (a + b)[|a| + i] == b[i];
    }
  }

  /** createRKGFile: the magic, the header, the bytes of every tuple, zero
      padding and the CRC-32 trailer, or an empty file when a byte does not
      fit (a header entry, a tuple field, or a negative pad length). */
  method CreateRkgFile(inputData: seq<Frame>, trackId: int, vehicleId: int, characterId: int, driftId: int)
    returns (fileBytes: seq<int>)
    requires |inputData| > 0
    ensures fileBytes == [] <==> !Writable(inputData, trackId, vehicleId, characterId, driftId)
    ensures Writable(inputData, trackId, vehicleId, characterId, driftId) ==>
      var body := Unsealed(inputData, trackId, vehicleId, characterId, driftId);
      AllBytes(body) && fileBytes == body + CrcTrailer(Crc32(body))
  {
    var tuples, lengths := EncodeRkgData(inputData);
    var tuplesFace, tuplesDi, tuplesTrick := lengths[0], lengths[1], lengths[2];
    var dataIndex := (tuplesFace + tuplesDi + tuplesTrick) * 2;
    var inputLength := dataIndex + 8;
    var headerData := HeaderData(trackId, vehicleId, characterId, driftId,
                                 inputLength, tuplesFace, tuplesDi, tuplesTrick);
    assert headerData == FileHeader(inputData, trackId, vehicleId, characterId, driftId);
    if !AllBytes(headerData) {
      return [];
    }
    var tupleBytes: seq<int> := [];
    for k := 0 to |tuples|
      invariant tupleBytes == Flatten(tuples[..k])
      invariant forall j :: 0 <= j < k ==> IsByte(tuples[j].data) && IsByte(tuples[j].frames)
    {
      if !IsByte(tuples[k].data) || !IsByte(tuples[k].frames) {
        FlattenBytes(tuples);
        return [];
      }
      assert tuples[..k + 1] == tuples[..k] + [tuples[k]];
      FlattenAppend(tuples[..k], [tuples[k]]);
      tupleBytes := tupleBytes + [tuples[k].data, tuples[k].frames];
    }
    assert tuples[..|tuples|] == tuples;
    FlattenBytes(tuples);
    if MaxTupleBytes - dataIndex < 0 {
      return [];
    }
    var padBytes := Repeat(0, MaxTupleBytes - dataIndex);
    fileBytes := Magic + headerData + tupleBytes + padBytes;
    ghost var body := fileBytes;
    assert body == Unsealed(inputData, trackId, vehicleId, characterId, driftId);
    assert Writable(inputData, trackId, vehicleId, characterId, driftId);
    UnsealedLayout(inputData, trackId, vehicleId, characterId, driftId);
    var crc := Crc32(fileBytes);
    var arg1, arg2, arg3, arg4 := crc / 0x100_0000, (crc / 0x1_0000) % 0x100, (crc / 0x100) % 0x100, crc % 0x100;
    fileBytes := fileBytes + [arg1, arg2, arg3, arg4];
    assert [arg1, arg2, arg3, arg4] == CrcTrailer(Crc32(body));
  }

  /** The header bytes fit exactly when the track and vehicle ids are in
      [0, 63], the drift id is in [-2, 125], and the input length and the
      three tuple counts are below 2^16 (the character id always fits). */
  lemma HeaderFits(trackId: int, vehicleId: int, characterId: int, driftId: int,
                   inputLength: int, tuplesFace: int, tuplesDi: int, tuplesTrick: int)
    ensures AllBytes(HeaderData(trackId, vehicleId, characterId, driftId, inputLength, tuplesFace, tuplesDi, tuplesTrick))
      <==> && 0 <= trackId <= 63 && 0 <= vehicleId <= 63 && -2 <= driftId <= 125
           && 0 <= inputLength < 0x1_0000 && 0 <= tuplesFace < 0x1_0000
           && 0 <= tuplesDi < 0x1_0000 && 0 <= tuplesTrick < 0x1_0000
  {
    var ids := [0x54, 0xA8, 0x2A, trackId * 4, vehicleId * 4 + (characterId / 0x10) % 0x4,
                (characterId * 0x10) % 0x100, 0x02, 0x10, 0x00, 0x4 + driftId * 2];
    TemplateFits();
    assert AllBytes([0x00, 0x00]);
    assert AllBytes(ids) <==> 0 <= trackId <= 63 && 0 <= vehicleId <= 63 && -2 <= driftId <= 125 by {
      assert ids[3] == trackId * 4 && ids[4] == vehicleId * 4 + (characterId / 0x10) % 0x4;
      assert ids[9] == 0x4 + driftId * 2;
    }
    DivModFits(inputLength);
    DivModFits(tuplesFace);
    DivModFits(tuplesDi);
    DivModFits(tuplesTrick);
    AllBytesAppend(ids, DivMod(inputLength));
    AllBytesAppend(ids + DivMod(inputLength), HeaderTemplate);
    AllBytesAppend(ids + DivMod(inputLength) + HeaderTemplate, DivMod(tuplesFace));
    AllBytesAppend(ids + DivMod(inputLength) + HeaderTemplate + DivMod(tuplesFace), DivMod(tuplesDi));
    AllBytesAppend(ids + DivMod(inputLength) + HeaderTemplate + DivMod(tuplesFace) + DivMod(tuplesDi),
                   DivMod(tuplesTrick));
    AllBytesAppend(ids + DivMod(inputLength) + HeaderTemplate + DivMod(tuplesFace) + DivMod(tuplesDi)
                   + DivMod(tuplesTrick), [0x00, 0x00]);
  }

  /** Every constant header byte fits a byte. */
  lemma TemplateFits()
    ensures AllBytes(HeaderTemplate)
  {
    TemplateRowsFit();
    AllBytesAppend(TemplateRow0, TemplateRow1);
    AllBytesAppend(TemplateRow0 + TemplateRow1, TemplateRow2);
    AllBytesAppend(TemplateRow0 + TemplateRow1 + TemplateRow2, TemplateRow3);
    AllBytesAppend(TemplateRow0 + TemplateRow1 + TemplateRow2 + TemplateRow3, TemplateRow4);
  }

  lemma TemplateRowsFit()
    ensures AllBytes(TemplateRow0) && AllBytes(TemplateRow1) && AllBytes(TemplateRow2)
    ensures AllBytes(TemplateRow3) && AllBytes(TemplateRow4)
  {
  }

  /** A two-byte big-endian field holds exactly the values in [0, 2^16). */
  lemma DivModFits(x: int)
    ensures AllBytes(DivMod(x)) <==> 0 <= x < 0x1_0000
    ensures DivMod(x)[0] * 0x100 + DivMod(x)[1] == x
  {
  }

  /** The face channel always fits bytes: symbols are at most 15 and runs at
      most 255 frames. */
  lemma FaceTuplesFit(frames: seq<Frame>)
    ensures AllBytes(Flatten(EncodedChannel(Face, frames)))
  {
    assert AllFit(Face, frames);
    ChannelRoundTrip(Face, frames);
  }

  /** Whether a file is written: with d-pad values in [0, 15] it is exactly
      when the ids are in range, the direction tuples fit bytes and the
      tuple bytes are at most 0x276C; a section of exactly 0x276C bytes is
      accepted with no padding. */
  lemma WritableIff(frames: seq<Frame>, trackId: int, vehicleId: int, characterId: int, driftId: int)
    requires |frames| > 0
    requires AllFit(Trick, frames)
    ensures Writable(frames, trackId, vehicleId, characterId, driftId) <==>
      && 0 <= trackId <= 63 && 0 <= vehicleId <= 63 && -2 <= driftId <= 125
      && AllBytes(Flatten(EncodedChannel(Direction, frames)))
      && 2 * |AllTuples(frames)| <= MaxTupleBytes
  {
    var face, di, trick := EncodedChannel(Face, frames), EncodedChannel(Direction, frames), EncodedChannel(Trick, frames);
    var n := |AllTuples(frames)|;
    HeaderFits(trackId, vehicleId, characterId, driftId, 2 * n + 8, |face|, |di|, |trick|);
    FaceTuplesFit(frames);
    ChannelRoundTrip(Trick, frames);
    FlattenAppend(face, di);
    FlattenAppend(face + di, trick);
    AllBytesAppend(Flatten(face), Flatten(di));
    AllBytesAppend(Flatten(face) + Flatten(di), Flatten(trick));
  }

  /** A frame sequence whose sticks are in [-7, 8] and d-pad values in
      [0, 15] gives a file when the ids are in range and it has at most
      0x276C tuple bytes. */
  lemma WrittenWhenInRange(frames: seq<Frame>, trackId: int, vehicleId: int, characterId: int, driftId: int)
    requires |frames| > 0
    requires AllFit(Direction, frames) && AllFit(Trick, frames)
    requires 0 <= trackId <= 63 && 0 <= vehicleId <= 63 && -2 <= driftId <= 125
    requires 2 * |AllTuples(frames)| <= MaxTupleBytes
    ensures Writable(frames, trackId, vehicleId, characterId, driftId)
  {
    ChannelRoundTrip(Direction, frames);
    WritableIff(frames, trackId, vehicleId, characterId, driftId);
  }

  /** The model writes trick tuples in the decoder's layout, and line 155
      as written does not; the two also fail on different inputs. One frame
      of d-pad 16 gives the trick tuple (0x100, 1) here, which does not fit
      a byte, so no file is written; as written the tuple is (1, 1), which
      fits. */
  lemma DpadSixteenDiverges(trackId: int, vehicleId: int, characterId: int, driftId: int)
    ensures var frames := [Frame(false, false, false, 0, 0, 16)];
      && EncodedChannel(Trick, frames) == [RkgTuple(0x100, 1)]
      && !Writable(frames, trackId, vehicleId, characterId, driftId)
      && AsWrittenTuples(ChannelRuns(Trick, frames)) == [RkgTuple(1, 1)]
      && AllBytes(Flatten(AsWrittenTuples(ChannelRuns(Trick, frames))))
  {
    var frames := [Frame(false, false, false, 0, 0, 16)];
    assert Symbols(Trick, frames) == [0x100];
    assert LeadingCount([0x100], 0x100, 0xFFF) == 1;
    assert ChannelRuns(Trick, frames) == [Run(0x100, 1)];
    var all := AllTuples(frames);
    assert all[|all| - 1] == RkgTuple(0x100, 1);
    FlattenPairs(all, |all| - 1);
    assert !IsByte(Flatten(all)[2 * (|all| - 1)]);
  }

  /** Where the header puts each setting: the track id shifted left by two
      at index 3, vehicle and character at 4 and 5, the drift byte at 9, the
      input length at 10, the three tuple counts at 132, 134 and 136, two
      zero bytes at the end. */
  lemma HeaderFields(trackId: int, vehicleId: int, characterId: int, driftId: int,
                     inputLength: int, tuplesFace: int, tuplesDi: int, tuplesTrick: int)
    ensures var h := HeaderData(trackId, vehicleId, characterId, driftId, inputLength, tuplesFace, tuplesDi, tuplesTrick);
      && h[..3] == [0x54, 0xA8, 0x2A]
      && h[3] == trackId * 4
      && h[4] == vehicleId * 4 + (characterId / 0x10) % 0x4
      && h[5] == (characterId * 0x10) % 0x100
      && h[9] == 0x4 + driftId * 2
      && h[10..12] == DivMod(inputLength)
      && h[12..132] == HeaderTemplate
      && h[132..134] == DivMod(tuplesFace)
      && h[134..136] == DivMod(tuplesDi)
      && h[136..138] == DivMod(tuplesTrick)
      && h[138] == 0 && h[139] == 0
      && h[10] * 0x100 + h[11] == inputLength
      && h[132] * 0x100 + h[133] == tuplesFace
      && h[134] * 0x100 + h[135] == tuplesDi
      && h[136] * 0x100 + h[137] == tuplesTrick
  {
  }

  /** Ten face, twenty direction and five trick tuples: the counts are
      written big-endian as (0, 10), (0, 20), (0, 5) and the input length
      as (0, 78). */
  lemma HeaderCountsExample(trackId: int, vehicleId: int, characterId: int, driftId: int)
    ensures var h := HeaderData(trackId, vehicleId, characterId, driftId, (10 + 20 + 5) * 2 + 8, 10, 20, 5);
      h[10..12] == [0x00, 78] && h[132..138] == [0x00, 10, 0x00, 20, 0x00, 5]
  {
    var h := HeaderData(trackId, vehicleId, characterId, driftId, (10 + 20 + 5) * 2 + 8, 10, 20, 5);
    HeaderFields(trackId, vehicleId, characterId, driftId, (10 + 20 + 5) * 2 + 8, 10, 20, 5);
    assert h[132..138] == h[132..134] + h[134..136] + h[136..138];
  }

  /** A writable file before its CRC: 0x27FC bytes that all fit, the magic,
      the header from offset 4, the tuple bytes from 0x90 and zeros after. */
  lemma UnsealedLayout(frames: seq<Frame>, trackId: int, vehicleId: int, characterId: int, driftId: int)
    requires Writable(frames, trackId, vehicleId, characterId, driftId)
    ensures var body := Unsealed(frames, trackId, vehicleId, characterId, driftId);
      var n := 2 * |AllTuples(frames)|;
      && AllBytes(body) && |body| == CrcOffset
      && body[..4] == Magic
      && body[4..TupleStart] == FileHeader(frames, trackId, vehicleId, characterId, driftId)
      && body[TupleStart..TupleStart + n] == Flatten(AllTuples(frames))
      && forall i :: TupleStart + n <= i < CrcOffset ==> body[i] == 0
  {
    var header := FileHeader(frames, trackId, vehicleId, characterId, driftId);
    var flat := Flatten(AllTuples(frames));
    var n := 2 * |AllTuples(frames)|;
    var pad := Repeat(0, MaxTupleBytes - n);
    assert AllBytes(Magic) && AllBytes(pad);
    AllBytesAppend(Magic, header);
    AllBytesAppend(Magic + header, flat);
    AllBytesAppend(Magic + header + flat, pad);
    var body := Magic + header + flat + pad;
    assert body[TupleStart + n..] == pad;
  }

  /** The layout of a written file: 0x2800 bytes; "RKGD"; the track id
      shifted left by two at 0x07; vehicle and character at 0x08 and 0x09;
      the drift byte at 0x0D; the input length (tuple bytes + 8), which fits
      16 bits, big-endian at 0x0E; the three tuple counts big-endian at
      0x88, 0x8A and 0x8C; the tuple bytes from 0x90; zeros up to 0x27FC;
      and the CRC-32 of everything before it, big-endian, at 0x27FC. */
  lemma FileLayout(frames: seq<Frame>, trackId: int, vehicleId: int, characterId: int, driftId: int)
    requires Writable(frames, trackId, vehicleId, characterId, driftId)
    ensures var body := Unsealed(frames, trackId, vehicleId, characterId, driftId);
      AllBytes(body) &&
      var f := body + CrcTrailer(Crc32(body));
      var n := 2 * |AllTuples(frames)|;
      && |f| == FileSize && f[..4] == Magic
      && f[0x07] == trackId * 4
      && f[0x08] == vehicleId * 4 + (characterId / 0x10) % 0x4
      && f[0x09] == (characterId * 0x10) % 0x100
      && f[0x0D] == 0x4 + driftId * 2
      && f[0x0E] * 0x100 + f[0x0F] == n + 8 < 0x1_0000
      && f[0x88] * 0x100 + f[0x89] == |EncodedChannel(Face, frames)|
      && f[0x8A] * 0x100 + f[0x8B] == |EncodedChannel(Direction, frames)|
      && f[0x8C] * 0x100 + f[0x8D] == |EncodedChannel(Trick, frames)|
      && f[0x8E] == 0 && f[0x8F] == 0
      && f[TupleStart..TupleStart + n] == Flatten(AllTuples(frames))
      && (forall i :: TupleStart + n <= i < CrcOffset ==> f[i] == 0)
      && AllBytes(f[..CrcOffset]) && f[CrcOffset..] == CrcTrailer(Crc32(f[..CrcOffset]))
  {
    var body := Unsealed(frames, trackId, vehicleId, characterId, driftId);
    var header := FileHeader(frames, trackId, vehicleId, characterId, driftId);
    var n := 2 * |AllTuples(frames)|;
    var face, di, trick := |EncodedChannel(Face, frames)|, |EncodedChannel(Direction, frames)|,
                           |EncodedChannel(Trick, frames)|;
    UnsealedLayout(frames, trackId, vehicleId, characterId, driftId);
    HeaderFields(trackId, vehicleId, characterId, driftId, n + 8, face, di, trick);
    var f := body + CrcTrailer(Crc32(body));
    HeaderAt(body, CrcTrailer(Crc32(body)), header, n);
    assert f[0x0E] == header[10] && f[0x0F] == header[11];
    assert IsByte(header[10]) && IsByte(header[11]);
    assert f[0x88] == header[132] && f[0x89] == header[133];
    assert f[0x8A] == header[134] && f[0x8B] == header[135];
    assert f[0x8C] == header[136] && f[0x8D] == header[137];
  }

  /** Offsets 4 to 0x8F of the sealed file hold the header, and the rest
      before the trailer is the body's. */
  lemma HeaderAt(body: seq<int>, trailer: seq<int>, header: seq<int>, n: int)
    requires |body| == CrcOffset && |header| == 140 && body[4..TupleStart] == header
    requires 0 <= n && TupleStart + n <= CrcOffset
    ensures var f := body + trailer;
      && f[..CrcOffset] == body && f[CrcOffset..] == trailer
      && f[..4] == body[..4]
      && (forall i :: 4 <= i < TupleStart ==> f[i] == header[i - 4])
      && f[TupleStart..TupleStart + n] == body[TupleStart..TupleStart + n]
      && forall i :: TupleStart + n <= i < CrcOffset ==> f[i] == body[i]
  {
    var f := body + trailer;
    assert forall i :: 4 <= i < TupleStart ==> f[i] == body[4..TupleStart][i - 4];
  }

  /** Reading a written file back: from offset 0x90 the face, direction and
      trick sections lie one after the other, each as long as twice its
      tuple count from the header, and each decodes frame by frame to the
      frames' buttons, sticks and d-pad values. */
  lemma FileRoundTrip(frames: seq<Frame>, trackId: int, vehicleId: int, characterId: int, driftId: int)
    requires Writable(frames, trackId, vehicleId, characterId, driftId)
    requires AllFit(Direction, frames) && AllFit(Trick, frames)
    ensures var body := Unsealed(frames, trackId, vehicleId, characterId, driftId);
      AllBytes(body) &&
      var f := body + CrcTrailer(Crc32(body));
      |f| == FileSize && SectionsDecode(f, frames)
  {
    var body := Unsealed(frames, trackId, vehicleId, characterId, driftId);
    FileLayout(frames, trackId, vehicleId, characterId, driftId);
    TupleSections(body + CrcTrailer(Crc32(body)), frames);
  }

  /** The three tuple sections of a file, located by the header's counts,
      decode to the frames' values. */
  ghost predicate SectionsDecode(f: seq<int>, frames: seq<Frame>)
    requires |f| == FileSize
  {
    var faceEnd := TupleStart + 2 * (f[0x88] * 0x100 + f[0x89]);
    var diEnd := faceEnd + 2 * (f[0x8A] * 0x100 + f[0x8B]);
    var trickEnd := diEnd + 2 * (f[0x8C] * 0x100 + f[0x8D]);
    && TupleStart <= faceEnd <= diEnd <= trickEnd <= CrcOffset
    && DecodedFrames(f[TupleStart..faceEnd], Face) == ExpectedFrames(Face, frames)
    && DecodedFrames(f[faceEnd..diEnd], Direction) == ExpectedFrames(Direction, frames)
    && DecodedFrames(f[diEnd..trickEnd], Trick) == ExpectedFrames(Trick, frames)
  }

  lemma TupleSections(f: seq<int>, frames: seq<Frame>)
    requires AllFit(Direction, frames) && AllFit(Trick, frames)
    requires |f| == FileSize
    requires f[0x88] * 0x100 + f[0x89] == |EncodedChannel(Face, frames)|
    requires f[0x8A] * 0x100 + f[0x8B] == |EncodedChannel(Direction, frames)|
    requires f[0x8C] * 0x100 + f[0x8D] == |EncodedChannel(Trick, frames)|
    requires TupleStart + 2 * |AllTuples(frames)| <= CrcOffset
    requires f[TupleStart..TupleStart + 2 * |AllTuples(frames)|] == Flatten(AllTuples(frames))
    ensures SectionsDecode(f, frames)
  {
    var face, di, trick := EncodedChannel(Face, frames), EncodedChannel(Direction, frames),
                           EncodedChannel(Trick, frames);
    FlattenAppend(face, di);
    FlattenAppend(face + di, trick);
    var fa, fb, fc := Flatten(face), Flatten(di), Flatten(trick);
    assert Flatten(AllTuples(frames)) == fa + fb + fc;
    ThreeSections(f, TupleStart, fa, fb, fc);
    assert AllFit(Face, frames);
    SectionDecodes(fa, Face, frames);
    SectionDecodes(fb, Direction, frames);
    SectionDecodes(fc, Trick, frames);
    SectionsFromParts(f, fa, fb, fc, frames);
  }

  /** The sections of a file whose header counts give their lengths. */
  lemma SectionsFromParts(f: seq<int>, fa: seq<int>, fb: seq<int>, fc: seq<int>, frames: seq<Frame>)
    requires |f| == FileSize && TupleStart + |fa| + |fb| + |fc| <= CrcOffset
    requires 2 * (f[0x88] * 0x100 + f[0x89]) == |fa|
    requires 2 * (f[0x8A] * 0x100 + f[0x8B]) == |fb|
    requires 2 * (f[0x8C] * 0x100 + f[0x8D]) == |fc|
    requires f[TupleStart..TupleStart + |fa|] == fa
    requires f[TupleStart + |fa|..TupleStart + |fa| + |fb|] == fb
    requires f[TupleStart + |fa| + |fb|..TupleStart + |fa| + |fb| + |fc|] == fc
    requires DecodedFrames(fa, Face) == ExpectedFrames(Face, frames)
    requires DecodedFrames(fb, Direction) == ExpectedFrames(Direction, frames)
    requires DecodedFrames(fc, Trick) == ExpectedFrames(Trick, frames)
    ensures SectionsDecode(f, frames)
  {
    var faceEnd := TupleStart + 2 * (f[0x88] * 0x100 + f[0x89]);
    var diEnd := faceEnd + 2 * (f[0x8A] * 0x100 + f[0x8B]);
    var trickEnd := diEnd + 2 * (f[0x8C] * 0x100 + f[0x8D]);
    assert faceEnd == TupleStart + |fa| && diEnd == faceEnd + |fb| && trickEnd == diEnd + |fc|;
    assert f[TupleStart..faceEnd] == fa && f[faceEnd..diEnd] == fb && f[diEnd..trickEnd] == fc;
  }

  /** A section holding a channel's tuple bytes decodes to its frames' values. */
  lemma SectionDecodes(section: seq<int>, ch: Channel, frames: seq<Frame>)
    requires AllFit(ch, frames)
    requires section == Flatten(EncodedChannel(ch, frames))
    ensures DecodedFrames(section, ch) == ExpectedFrames(ch, frames)
  {
    ChannelRoundTrip(ch, frames);
  }

  /** Three lists laid out one after the other are found again by slicing. */
  lemma ThreeSections(f: seq<int>, start: int, a: seq<int>, b: seq<int>, c: seq<int>)
    requires 0 <= start && start + |a| + |b| + |c| <= |f|
    requires f[start..start + |a| + |b| + |c|] == a + b + c
    ensures f[start..start + |a|] == a
    ensures f[start + |a|..start + |a| + |b|] == b
    ensures f[start + |a| + |b|..start + |a| + |b| + |c|] == c
  {
    var whole := f[start..start + |a| + |b| + |c|];
    assert forall i :: 0 <= i < |whole| ==> f[start + i] == whole[i];
    assert f[start..start + |a|] == whole[..|a|];
    assert whole[|a|..|a| + |b|] == b;
    var mid := f[start + |a|..start + |a| + |b|];
    assert forall i :: 0 <= i < |b| ==> mid[i] == whole[|a| + i];
    assert f[start + |a| + |b|..start + |a| + |b| + |c|] == whole[|a| + |b|..];
  }

}
