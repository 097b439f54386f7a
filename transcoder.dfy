/** The run-length transcoder of the RKG input section: a channel's frames
    are turned into (symbol, frames) tuples by `EncodeRkgDataType`, the
    tuples into byte pairs, and byte pairs back into per-frame values by
    `DecodeRkgData`. */
module Transcoder {
  import opened SymbolCodec
  import opened RunLength

  /** RKGTuple: the first and the second byte of one encoded run. */
  datatype RkgTuple = RkgTuple(data: int, frames: int)

  /** What the decoder yields for one frame: the list [A, B, L] for the face
      channel, [stick_x, stick_y] for the direction channel, and a plain
      number for the trick channel. */
  datatype Decoded = Components(values: seq<int>) | Dpad(value: int)

  predicate IsByte(x: int) {
    0 <= x <= 0xFF
  }

  /** Every value of the list fits a byte, as `bytes(...)` demands. */
  predicate AllBytes(s: seq<int>) {
    forall i :: 0 <= i < |s| ==> IsByte(s[i])
  }

  /** The longest run one tuple may carry on a channel. */
  function Cap(ch: Channel): int {
    if ch == Trick then 0xFFF else 0xFF
  }

  /** encodeTuple with the trick layout the decoder reads: the d-pad nibble
      high and the top four bits of the run length low in the first byte,
      the low eight bits of the run length in the second. Face and
      direction tuples carry the symbol and the run length as they are. */
  function EncodeTuple(input: int, frames: int, ch: Channel): (t: RkgTuple)
    ensures ch != Trick ==> t == RkgTuple(input, frames)
    ensures ch == Trick && input % 0x10 == 0 && 0 <= frames <= 0xFFF ==>
      t.data / 0x10 == input / 0x10 && (t.data % 0x10) * 0x100 + t.frames == frames
  {
    if ch == Trick then RkgTuple(input + frames / 0x100, frames % 0x100)
    else RkgTuple(input, frames)
  }

  /** encodeTuple as written: the trick tuple's first byte is
      `input + frames >> 8`, which Python parses as `(input + frames) >> 8`. */
  function EncodeTupleAsWritten(input: int, frames: int, ch: Channel): (t: RkgTuple)
    ensures ch != Trick ==> t == EncodeTuple(input, frames, ch)
    ensures ch == Trick && 0 <= input <= 0xF0 && 0 <= frames <= 0xFFF ==>
      0 <= t.data <= 0x10 && t.frames == EncodeTuple(input, frames, ch).frames
  {
    if ch == Trick then RkgTuple((input + frames) / 0x100, frames % 0x100)
    else RkgTuple(input, frames)
  }

  /** RKGTuple.__bytes__ applied to each tuple in turn, before the range check. */
  function Flatten(tuples: seq<RkgTuple>): (r: seq<int>)
    ensures |r| == 2 * |tuples|
  {
    if tuples == [] then [] else [tuples[0].data, tuples[0].frames] + Flatten(tuples[1..])
  }

  /** Tuple k gives bytes 2k and 2k + 1, in field order. */
  lemma {:induction false} FlattenPairs(tuples: seq<RkgTuple>, k: int)
    requires 0 <= k < |tuples|
    ensures Flatten(tuples)[2 * k] == tuples[k].data && Flatten(tuples)[2 * k + 1] == tuples[k].frames
    decreases k
  {
    if k > 0 {
      FlattenPairs(tuples[1..], k - 1);
    }
  }

  /** The encoded symbol of every frame: frame i is encoded with the symbol
      of frame i - 1 as context, and frame 0 with context 0. */
  function Symbols(ch: Channel, frames: seq<Frame>): (syms: seq<int>)
    ensures |syms| == |frames|
    decreases |frames|
  {
    if frames == [] then []
    else
      var prev := Symbols(ch, frames[..|frames| - 1]);
      prev + [ChannelSymbol(ch, frames[|frames| - 1], if prev == [] then 0 else prev[|prev| - 1])]
  }

  /** The runs a channel's frames are cut into. */
  function ChannelRuns(ch: Channel, frames: seq<Frame>): seq<Run> {
    Runs(Symbols(ch, frames), Cap(ch))
  }

  function EncodeTuples(ch: Channel, runs: seq<Run>): seq<RkgTuple> {
    seq(|runs|, k requires 0 <= k < |runs| => EncodeTuple(runs[k].symbol, runs[k].length, ch))
  }

  /** The tuples encodeRKGDataType produces for a channel. */
  function EncodedChannel(ch: Channel, frames: seq<Frame>): seq<RkgTuple> {
    EncodeTuples(ch, ChannelRuns(ch, frames))
  }

  /** encodeRKGDataType: one pass over the frames carrying the tracked
      symbol and the length of the current run, emitting a tuple when the
      symbol changes or the run reaches the cap. The tracked symbol is
      seeded from frame 0 and frame 0 is then processed again in the loop. */
  method EncodeRkgDataType(inputList: seq<Frame>, ch: Channel) returns (retData: seq<RkgTuple>)
    requires |inputList| > 0
    ensures retData == EncodedChannel(ch, inputList)
  {
    retData := [];
    var prevInput := ChannelSymbol(ch, inputList[0], 0x0);
    var currFrames := 0;
    ghost var seed := prevInput;
    ghost var runs: seq<Run> := [];
    for i := 0 to |inputList|
      invariant retData == EncodeTuples(ch, runs)
      invariant i == 0 ==> runs == [] && prevInput == seed && currFrames == 0
      invariant i > 0 ==> IsRle(runs + [Run(prevInput, currFrames)], Symbols(ch, inputList[..i]), Cap(ch))
    {
      var input := inputList[i];
      var currInput := ChannelSymbol(ch, input, prevInput);
      EncodeStep(ch, inputList, i, runs, prevInput, currFrames);
      var frameLimit := if ch == Trick then 0xFFF else 0xFF;
      if prevInput != currInput || currFrames >= frameLimit {
        EncodeTuplesSnoc(ch, runs, Run(prevInput, currFrames));
        retData := retData + [EncodeTuple(prevInput, currFrames, ch)];
        runs := runs + [Run(prevInput, currFrames)];
        currFrames := 1;
        prevInput := currInput;
      } else {
        currFrames := currFrames + 1;
      }
    }
    EncodeTuplesSnoc(ch, runs, Run(prevInput, currFrames));
    retData := retData + [EncodeTuple(prevInput, currFrames, ch)];
    runs := runs + [Run(prevInput, currFrames)];
    assert inputList[..|inputList|] == inputList;
    RleIsUnique(runs, Symbols(ch, inputList), Cap(ch));
  }

  lemma EncodeTuplesSnoc(ch: Channel, runs: seq<Run>, r: Run)
    ensures EncodeTuples(ch, runs + [r]) == EncodeTuples(ch, runs) + [EncodeTuple(r.symbol, r.length, ch)]
  {
  }

  /** One iteration of the encoding loop keeps the pending run together with
      the emitted ones a capped run-length encoding of the symbols so far.
      On frame 0 the tracked symbol is the seed, the re-encoded symbol equals
      it, and the run is simply started: no empty tuple is emitted. */
  lemma EncodeStep(ch: Channel, frames: seq<Frame>, i: int, runs: seq<Run>, prev: int, cur: int)
    requires 0 <= i < |frames|
    requires i == 0 ==> runs == [] && prev == ChannelSymbol(ch, frames[0], 0) && cur == 0
    requires i > 0 ==> IsRle(runs + [Run(prev, cur)], Symbols(ch, frames[..i]), Cap(ch))
    ensures var y := ChannelSymbol(ch, frames[i], prev);
      if prev != y || cur >= Cap(ch) then
        i > 0 && IsRle(runs + [Run(prev, cur)] + [Run(y, 1)], Symbols(ch, frames[..i + 1]), Cap(ch))
      else
        IsRle(runs + [Run(prev, cur + 1)], Symbols(ch, frames[..i + 1]), Cap(ch))
  {
    var y := ChannelSymbol(ch, frames[i], prev);
    var done := Symbols(ch, frames[..i]);
    assert frames[..i + 1][..i] == frames[..i];
    if i == 0 {
      SeedIsStable(ch, frames[i]);
      assert Symbols(ch, frames[..i + 1]) == [y];
      assert runs + [Run(prev, cur + 1)] == [Run(y, 1)];
      assert Expand([Run(y, 1)]) == [y];
    } else {
      RleSnoc(runs, prev, cur, done, Cap(ch), y);
      assert Symbols(ch, frames[..i + 1]) == done + [y];
      assert runs + [Run(prev, cur)] + [Run(y, 1)] == runs + [Run(prev, cur), Run(y, 1)];
    }
  }

  /** The stick axes read from a direction symbol, with the bias removed. */
  function StickValue(symbol: int): seq<int> {
    var inputs := DecodeDirectionInput(symbol);
    [inputs[0] - 7, inputs[1] - 7]
  }

  /** What one frame of a run with first byte `symbol` decodes to. */
  function SymbolValue(ch: Channel, symbol: int): Decoded {
    match ch
    case Face => Components(DecodeFaceButton(symbol))
    case Direction => Components(StickValue(symbol))
    case Trick => Dpad(DecodeTrickInput(symbol))
  }

  /** The number of frames a byte pair stands for. */
  function PairLength(ch: Channel, b0: int, b1: int): int {
    if ch == Trick then (b0 % 0x10) * 0x100 + b1 else b1
  }

  function PairFrames(ch: Channel, b0: int, b1: int): seq<Decoded> {
    Repeat(SymbolValue(ch, b0), PairLength(ch, b0, b1))
  }

  /** The frames a byte list decodes to: each complete pair in turn; a
      trailing odd byte is ignored and nothing stops at a zero pair. */
  function DecodedFrames(data: seq<int>, ch: Channel): seq<Decoded> {
    if |data| < 2 then [] else PairFrames(ch, data[0], data[1]) + DecodedFrames(data[2..], ch)
  }

  /** decodeRKGData: walks the bytes, remembering the first byte of each
      pair and appending the run when it reaches the second. */
  method DecodeRkgData(data: seq<int>, ch: Channel) returns (retList: seq<Decoded>)
    ensures retList == DecodedFrames(data, ch)
  {
    retList := [];
    if ch == Trick {
      var trickInput := 0x0;
      var x100Length := 0x0;
      for i := 0 to |data|
        invariant retList == DecodedFrames(data[..i], ch)
        invariant i % 2 == 1 ==> trickInput == DecodeTrickInput(data[i - 1]) && x100Length == data[i - 1] % 0x10
      {
        var dataByte := data[i];
        DecodeStep(data, i, ch);
        if i % 2 == 0 {
          trickInput := DecodeTrickInput(dataByte);
          x100Length := dataByte % 0x10;
        } else {
          var dataLength := x100Length * 0x100 + dataByte;
          assert Repeat(Dpad(trickInput), dataLength) == PairFrames(ch, data[i - 1], dataByte);
          retList := retList + Repeat(Dpad(trickInput), dataLength);
        }
      }
    } else {
      var rawInput := 0x0;
      for i := 0 to |data|
        invariant retList == DecodedFrames(data[..i], ch)
        invariant i % 2 == 1 ==> rawInput == data[i - 1]
      {
        var dataByte := data[i];
        DecodeStep(data, i, ch);
        if i % 2 == 0 {
          rawInput := dataByte;
        } else {
          if ch == Face {
            assert Repeat(Components(DecodeFaceButton(rawInput)), dataByte) == PairFrames(ch, rawInput, dataByte);
            retList := retList + Repeat(Components(DecodeFaceButton(rawInput)), dataByte);
          } else {
            var inputs := DecodeDirectionInput(rawInput);
            assert Repeat(Components([inputs[0] - 7, inputs[1] - 7]), dataByte) == PairFrames(ch, rawInput, dataByte);
            retList := retList + Repeat(Components([inputs[0] - 7, inputs[1] - 7]), dataByte);
          }
        }
      }
    }
    assert data[..|data|] == data;
  }

  /** One step of the decoding loop: an even index starts a pair and adds
      nothing yet; an odd index completes the pair and adds its run. */
  lemma DecodeStep(data: seq<int>, i: int, ch: Channel)
    requires 0 <= i < |data|
    ensures i % 2 == 0 ==> DecodedFrames(data[..i + 1], ch) == DecodedFrames(data[..i], ch)
    ensures i % 2 == 1 ==>
      DecodedFrames(data[..i + 1], ch) == DecodedFrames(data[..i], ch) + PairFrames(ch, data[i - 1], data[i])
  {
    DecodedIgnoresOddByte(data[..i + 1], ch);
    DecodedIgnoresOddByte(data[..i], ch);
    if i % 2 == 0 {
      assert data[..i + 1][..i] == data[..i];
    } else {
      assert data[..i][..i - 1] == data[..i - 1];
      DecodedPairAppended(data, i, ch);
    }
  }

  /** Decoding distributes over a split at an even offset. */
  lemma {:induction false} DecodedAppend(p: seq<int>, q: seq<int>, ch: Channel)
    requires |p| % 2 == 0
    ensures DecodedFrames(p + q, ch) == DecodedFrames(p, ch) + DecodedFrames(q, ch)
  {
    if |p| == 0 {
      assert p + q == q;
    } else {
      assert (p + q)[0] == p[0] && (p + q)[1] == p[1] && (p + q)[2..] == p[2..] + q;
      DecodedAppend(p[2..], q, ch);
    }
  }

  /** The step of the decoding loop: the pair ending at odd index i adds its run. */
  lemma DecodedPairAppended(data: seq<int>, i: int, ch: Channel)
    requires 0 < i < |data| && i % 2 == 1
    ensures DecodedFrames(data[..i + 1], ch) == DecodedFrames(data[..i - 1], ch) + PairFrames(ch, data[i - 1], data[i])
  {
    assert data[..i + 1] == data[..i - 1] + [data[i - 1], data[i]];
    DecodedAppend(data[..i - 1], [data[i - 1], data[i]], ch);
    assert DecodedFrames([data[i - 1], data[i]], ch) == PairFrames(ch, data[i - 1], data[i]) + [];
  }

  /** An odd trailing byte adds nothing. */
  lemma {:induction false} DecodedIgnoresOddByte(data: seq<int>, ch: Channel)
    ensures DecodedFrames(data, ch) == DecodedFrames(data[..|data| - |data| % 2], ch)
  {
    if |data| >= 2 {
      DecodedIgnoresOddByte(data[2..], ch);
      assert data[..|data| - |data| % 2][2..] == data[2..][..|data[2..]| - |data[2..]| % 2];
    } else if |data| == 1 {
      assert data[..0] == [];
    } else {
      assert data[..0] == data;
    }
  }

  /** A pair whose run-length part is zero adds no frames, and decoding goes
      on with the bytes after it: the decoder has no end marker. */
  lemma ZeroRunAddsNothing(p: seq<int>, x: int, q: seq<int>, ch: Channel)
    requires |p| % 2 == 0
    requires ch == Trick ==> x % 0x10 == 0
    ensures DecodedFrames(p + [x, 0] + q, ch) == DecodedFrames(p + q, ch)
  {
    var r := [x, 0] + q;
    assert r[0] == x && r[1] == 0 && r[2..] == q;
    assert PairFrames(ch, x, 0) == [];
    assert DecodedFrames(r, ch) == DecodedFrames(q, ch);
    assert p + [x, 0] + q == p + r;
    DecodedAppend(p, r, ch);
    DecodedAppend(p, q, ch);
  }

  /** Sum of the (non-negative) run lengths of the complete pairs. */
  function PairLengthSum(data: seq<int>, ch: Channel): int {
    if |data| < 2 then 0
    else
      var n := PairLength(ch, data[0], data[1]);
      (if n < 0 then 0 else n) + PairLengthSum(data[2..], ch)
  }

  /** The number of decoded frames is the sum of the run lengths of the
      complete pairs. */
  lemma {:induction false} DecodedLength(data: seq<int>, ch: Channel)
    ensures |DecodedFrames(data, ch)| == PairLengthSum(data, ch)
  {
    if |data| >= 2 {
      DecodedLength(data[2..], ch);
    }
  }

  lemma {:induction false} FlattenAppend(a: seq<RkgTuple>, b: seq<RkgTuple>)
    ensures Flatten(a + b) == Flatten(a) + Flatten(b)
  {
    if a == [] {
      assert a + b == b;
    } else {
      assert (a + b)[0] == a[0] && (a + b)[1..] == a[1..] + b;
      FlattenAppend(a[1..], b);
    }
  }

  /** The flattened bytes all fit when both fields of every tuple do. */
  lemma {:induction false} FlattenBytes(ts: seq<RkgTuple>)
    ensures AllBytes(Flatten(ts)) <==> forall k :: 0 <= k < |ts| ==> IsByte(ts[k].data) && IsByte(ts[k].frames)
  {
    if ts != [] {
      FlattenBytes(ts[1..]);
      var f := Flatten(ts);
      assert f == [ts[0].data, ts[0].frames] + Flatten(ts[1..]);
      if AllBytes(f) {
        forall k | 0 <= k < |ts| ensures IsByte(ts[k].data) && IsByte(ts[k].frames) {
          if k > 0 {
            assert ts[1..][k - 1] == ts[k];
            assert forall i :: 0 <= i < |Flatten(ts[1..])| ==> f[i + 2] == Flatten(ts[1..])[i];
          } else {
            assert f[0] == ts[0].data && f[1] == ts[0].frames;
          }
        }
      }
      if forall k :: 0 <= k < |ts| ==> IsByte(ts[k].data) && IsByte(ts[k].frames) {
        assert forall k :: 0 <= k < |ts[1..]| ==> ts[1..][k] == ts[k + 1];
        assert AllBytes(Flatten(ts[1..]));
      }
    }
  }

  /** The value each symbol of a list decodes to. */
  function MapValues(ch: Channel, syms: seq<int>): seq<Decoded> {
    seq(|syms|, i requires 0 <= i < |syms| => SymbolValue(ch, syms[i]))
  }

  /** Decoding flattened tuples, when each tuple's pair decodes to its run,
      gives the values of the expanded runs. */
  lemma {:induction false} DecodeFlattenedRuns(ch: Channel, ts: seq<RkgTuple>, runs: seq<Run>)
    requires |ts| == |runs|
    requires forall k :: 0 <= k < |runs| ==>
      PairFrames(ch, ts[k].data, ts[k].frames) == Repeat(SymbolValue(ch, runs[k].symbol), runs[k].length)
    ensures DecodedFrames(Flatten(ts), ch) == MapValues(ch, Expand(runs))
  {
    if runs != [] {
      var head := Repeat(runs[0].symbol, runs[0].length);
      var flat := Flatten(ts);
      assert flat[2..] == Flatten(ts[1..]);
      assert DecodedFrames(flat, ch) == PairFrames(ch, ts[0].data, ts[0].frames) + DecodedFrames(Flatten(ts[1..]), ch);
      DecodeFlattenedRuns(ch, ts[1..], runs[1..]);
      assert Expand(runs) == head + Expand(runs[1..]);
      MapValuesAppend(ch, head, Expand(runs[1..]));
      MapValuesRepeat(ch, runs[0].symbol, runs[0].length);
    }
  }

  /** The context of every frame's symbol is the previous frame's symbol. */
  lemma {:induction false} SymbolsPrefix(ch: Channel, frames: seq<Frame>, i: int)
    requires 0 <= i <= |frames|
    ensures Symbols(ch, frames[..i]) == Symbols(ch, frames)[..i]
    decreases |frames| - i
  {
    if i < |frames| {
      SymbolsPrefix(ch, frames, i + 1);
      assert frames[..i + 1][..i] == frames[..i];
    } else {
      assert frames[..i] == frames;
    }
  }

  /** Symbol i is frame i encoded with symbol i - 1 as context (context 0
      for frame 0): for the face channel, the context the encoder passes is
      always the previous frame's encoded symbol. */
  lemma SymbolContext(ch: Channel, frames: seq<Frame>, i: int)
    requires 0 <= i < |frames|
    ensures Symbols(ch, frames)[i] ==
      ChannelSymbol(ch, frames[i], if i == 0 then 0 else Symbols(ch, frames)[i - 1])
  {
    SymbolsPrefix(ch, frames, i + 1);
    SymbolsPrefix(ch, frames, i);
    assert frames[..i + 1][..i] == frames[..i];
  }

  /** The frames a channel must hold to round-trip: sticks in [-7, 8] for the
      direction channel and d-pad values in [0, 15] for the trick channel. */
  predicate FitsChannel(ch: Channel, f: Frame) {
    match ch
    case Face => true
    case Direction => StickInRange(f.stickX) && StickInRange(f.stickY)
    case Trick => 0 <= f.dpad <= 15
  }

  predicate AllFit(ch: Channel, frames: seq<Frame>) {
    forall i :: 0 <= i < |frames| ==> FitsChannel(ch, frames[i])
  }

  /** What a frame should decode to on a channel. */
  function Expected(ch: Channel, f: Frame): Decoded {
    match ch
    case Face => Components([Bit(f.accel), Bit(f.brake), Bit(f.item)])
    case Direction => Components([f.stickX, f.stickY])
    case Trick => Dpad(f.dpad)
  }

  function ExpectedFrames(ch: Channel, frames: seq<Frame>): seq<Decoded> {
    seq(|frames|, i requires 0 <= i < |frames| => Expected(ch, frames[i]))
  }

  /** Every symbol decodes to what its frame holds, and lies in the byte
      range of its channel (a multiple of 16 up to 0xF0 for tricks). */
  lemma SymbolsDecodeToFrames(ch: Channel, frames: seq<Frame>)
    requires AllFit(ch, frames)
    ensures MapValues(ch, Symbols(ch, frames)) == ExpectedFrames(ch, frames)
    ensures forall i :: 0 <= i < |frames| ==> IsByte(Symbols(ch, frames)[i])
    ensures ch == Trick ==> forall i :: 0 <= i < |frames| ==>
      Symbols(ch, frames)[i] % 0x10 == 0 && Symbols(ch, frames)[i] <= 0xF0
  {
    var syms := Symbols(ch, frames);
    forall i | 0 <= i < |frames|
      ensures SymbolValue(ch, syms[i]) == Expected(ch, frames[i]) && IsByte(syms[i])
      ensures ch == Trick ==> syms[i] % 0x10 == 0 && syms[i] <= 0xF0
    {
      SymbolContext(ch, frames, i);
      var f := frames[i];
      match ch
      case Face =>
        FaceRoundTrip(f.accel, f.brake, f.item, if i == 0 then 0 else syms[i - 1]);
      case Direction =>
        DirectionRoundTrip(f.stickX, f.stickY);
      case Trick =>
        TrickRoundTrip(f.dpad);
    }
  }

  /** The runs of a channel are its capped run-length encoding: every run
      holds 1 to Cap(ch) frames, two neighbouring runs share a symbol only
      when the first is full, and the lengths add up to the frame count. */
  lemma ChannelRunsAreRle(ch: Channel, frames: seq<Frame>)
    ensures IsRle(ChannelRuns(ch, frames), Symbols(ch, frames), Cap(ch))
    ensures TotalLength(ChannelRuns(ch, frames)) == |frames|
  {
    RunsAreRle(Symbols(ch, frames), Cap(ch));
    RunsConserveLength(Symbols(ch, frames), Cap(ch));
  }

  /** Every run symbol is one of the frames' symbols. */
  lemma RunSymbolsAreSymbols(ch: Channel, frames: seq<Frame>, k: int)
    requires 0 <= k < |ChannelRuns(ch, frames)|
    ensures exists i :: 0 <= i < |frames| && Symbols(ch, frames)[i] == ChannelRuns(ch, frames)[k].symbol
  {
    var runs := ChannelRuns(ch, frames);
    ChannelRunsAreRle(ch, frames);
    ExpandContains(runs, k);
  }

  /** The round trip of a channel: when the frames fit the channel, the
      byte pairs of the encoded tuples all fit a byte and decode, frame by
      frame, to each frame's [A, B, L], [stick_x, stick_y] or d-pad value. */
  lemma ChannelRoundTrip(ch: Channel, frames: seq<Frame>)
    requires AllFit(ch, frames)
    ensures AllBytes(Flatten(EncodedChannel(ch, frames)))
    ensures DecodedFrames(Flatten(EncodedChannel(ch, frames)), ch) == ExpectedFrames(ch, frames)
  {
    var runs := ChannelRuns(ch, frames);
    var ts := EncodedChannel(ch, frames);
    ChannelRunsAreRle(ch, frames);
    SymbolsDecodeToFrames(ch, frames);
    forall k | 0 <= k < |runs|
      ensures PairFrames(ch, ts[k].data, ts[k].frames) == Repeat(SymbolValue(ch, runs[k].symbol), runs[k].length)
      ensures IsByte(ts[k].data) && IsByte(ts[k].frames)
    {
      RunSymbolsAreSymbols(ch, frames, k);
      if ch == Trick {
        var d := runs[k].symbol / 0x10;
        assert runs[k].symbol == EncodeTrickInput(d);
        TrickTupleRoundTrip(d, runs[k].length);
      }
    }
    DecodeFlattenedRuns(ch, ts, runs);
    FlattenBytes(ts);
  }

  /** 1000 identical face frames make three tuples of 255 frames and one of 235. */
  lemma ThousandFaceFrames(f: Frame)
    ensures var s := ChannelSymbol(Face, f, 0);
      EncodedChannel(Face, Repeat(f, 1000)) ==
        [RkgTuple(s, 255), RkgTuple(s, 255), RkgTuple(s, 255), RkgTuple(s, 235)]
  {
    SymbolsOfRepeat(Face, f, 1000);
    ThousandEqualSymbols(ChannelSymbol(Face, f, 0));
  }

  /** Equal frames all get the seed symbol. */
  lemma {:induction false} SymbolsOfRepeat(ch: Channel, f: Frame, n: nat)
    ensures Symbols(ch, Repeat(f, n)) == Repeat(ChannelSymbol(ch, f, 0), n)
  {
    if n > 0 {
      assert Repeat(f, n)[..n - 1] == Repeat(f, n - 1);
      SymbolsOfRepeat(ch, f, n - 1);
      SeedIsStable(ch, f);
    }
  }

  // ----- the trick channel as written -----
  // The tuples `encodeTuple` writes for the trick channel, decoded by
  // `DecodedFrames`. The rest of the model uses EncodeTuple's layout.

  ghost predicate TrickRunsFit(runs: seq<Run>) {
    forall k :: 0 <= k < |runs| ==>
      1 <= runs[k].length <= 0xFFF && 0 <= runs[k].symbol <= 0xF0 && runs[k].symbol % 0x10 == 0
  }

  /** A single frame of d-pad value 1: as written its tuple is (0, 1), which
      reads back as d-pad 0; with the decoder's layout it is (0x10, 1). */
  lemma TrickTupleAsWrittenCounterexample()
    ensures EncodeTupleAsWritten(EncodeTrickInput(1), 1, Trick) == RkgTuple(0, 1)
    ensures PairFrames(Trick, 0, 1) == [Dpad(0)] != Repeat(Dpad(1), 1)
    ensures EncodeTuple(EncodeTrickInput(1), 1, Trick) == RkgTuple(0x10, 1)
    ensures PairFrames(Trick, 0x10, 1) == Repeat(Dpad(1), 1)
  {
    assert Repeat(Dpad(1), 1)[0] == Dpad(1);
  }

  /** The as-written trick tuples of a run list. */
  function AsWrittenTuples(runs: seq<Run>): seq<RkgTuple> {
    seq(|runs|, k requires 0 <= k < |runs| => EncodeTupleAsWritten(runs[k].symbol, runs[k].length, Trick))
  }

  /** The frames the as-written trick bytes of a run list decode to. */
  function TrickAsWritten(runs: seq<Run>): seq<Decoded> {
    DecodedFrames(Flatten(AsWrittenTuples(runs)), Trick)
  }

  /** Decoding the as-written tuples takes the first tuple's pair, then the rest. */
  lemma DecodeAsWrittenCons(runs: seq<Run>)
    requires runs != []
    ensures var t := EncodeTupleAsWritten(runs[0].symbol, runs[0].length, Trick);
      TrickAsWritten(runs) == PairFrames(Trick, t.data, t.frames) + TrickAsWritten(runs[1..])
  {
    var ts := AsWrittenTuples(runs);
    assert ts[1..] == AsWrittenTuples(runs[1..]);
    assert Flatten(ts)[2..] == Flatten(ts[1..]);
  }

  /** The trick runs after the first. */
  lemma TrickRunsFitRest(runs: seq<Run>)
    requires runs != [] && TrickRunsFit(runs)
    ensures TrickRunsFit(runs[1..])
  {
    forall k | 0 <= k < |runs[1..]|
      ensures 1 <= runs[1..][k].length <= 0xFFF && 0 <= runs[1..][k].symbol <= 0xF0 && runs[1..][k].symbol % 0x10 == 0
    {
      assert runs[1..][k] == runs[k + 1];
    }
  }

  /** What one as-written trick tuple reads back as: its first byte is at
      most 16, so the d-pad value read is 0 or 1 and the run is not empty. */
  lemma TrickPairAsWritten(s: int, f: int)
    requires 1 <= f <= 0xFFF && 0 <= s <= 0xF0 && s % 0x10 == 0
    ensures var t := EncodeTupleAsWritten(s, f, Trick);
      && IsByte(t.data) && IsByte(t.frames)
      && (t.data / 0x10 == 0 || t.data / 0x10 == 1)
      && PairFrames(Trick, t.data, t.frames) == Repeat(Dpad(t.data / 0x10), PairLength(Trick, t.data, t.frames))
      && PairLength(Trick, t.data, t.frames) >= 1
      && (s == 0 ==> t.data / 0x10 == 0 && PairLength(Trick, t.data, t.frames) == f)
      && (s == 0x10 && f < 0xFF0 ==> t.data / 0x10 == 0)
      && (s == 0x10 && f >= 0xFF0 ==> t.data / 0x10 == 1 && PairLength(Trick, t.data, t.frames) == f - 0xF00)
  {
    var t := EncodeTupleAsWritten(s, f, Trick);
    assert 0 <= t.data <= 16;
    if t.data == 16 {
      assert 0x1000 <= s + f;
      assert f % 0x100 == f - 0xF00 by {
        assert f == 0xF00 + (f - 0xF00);
      }
    }
    if s == 0 {
      assert t.data == f / 0x100 <= 15;
    }
  }

  lemma MapValuesAppend(ch: Channel, a: seq<int>, b: seq<int>)
    ensures MapValues(ch, a + b) == MapValues(ch, a) + MapValues(ch, b)
  {
  }

  lemma MapValuesRepeat(ch: Channel, x: int, n: int)
    ensures MapValues(ch, Repeat(x, n)) == Repeat(SymbolValue(ch, x), n)
  {
  }

  /** The as-written trick bytes split into the first run's pair and the rest,
      and the values of the runs likewise. */
  lemma TrickAsWrittenCons(runs: seq<Run>)
    requires runs != [] && TrickRunsFit(runs)
    ensures var t := EncodeTupleAsWritten(runs[0].symbol, runs[0].length, Trick);
      TrickAsWritten(runs) == Repeat(Dpad(t.data / 0x10), PairLength(Trick, t.data, t.frames)) + TrickAsWritten(runs[1..])
    ensures MapValues(Trick, Expand(runs)) ==
      Repeat(Dpad(runs[0].symbol / 0x10), runs[0].length) + MapValues(Trick, Expand(runs[1..]))
  {
    DecodeAsWrittenCons(runs);
    TrickPairAsWritten(runs[0].symbol, runs[0].length);
    MapValuesAppend(Trick, Repeat(runs[0].symbol, runs[0].length), Expand(runs[1..]));
    MapValuesRepeat(Trick, runs[0].symbol, runs[0].length);
  }

  /** Every d-pad value the as-written trick bytes decode to is 0 or 1. */
  lemma {:induction false} TrickAsWrittenValues(runs: seq<Run>)
    requires TrickRunsFit(runs)
    ensures forall e :: e in TrickAsWritten(runs) ==> e == Dpad(0) || e == Dpad(1)
  {
    if runs != [] {
      var t := EncodeTupleAsWritten(runs[0].symbol, runs[0].length, Trick);
      TrickAsWrittenCons(runs);
      TrickPairAsWritten(runs[0].symbol, runs[0].length);
      TrickRunsFitRest(runs);
      TrickAsWrittenValues(runs[1..]);
      var head := Repeat(Dpad(t.data / 0x10), PairLength(Trick, t.data, t.frames));
      assert forall e :: e in head ==> e == Dpad(t.data / 0x10);
    }
  }

  /** With d-pad values 0 and 1 only, and at least one 1 among the runs or k
      pending 1s in front, the as-written bytes never decode to the d-pad
      values: a run of 1s either reads back as 0s or comes back 3840 frames
      short, and nothing later makes up for it. */
  lemma {:induction false} TrickOnesMismatch(runs: seq<Run>, k: nat)
    requires TrickRunsFit(runs)
    requires forall j :: 0 <= j < |runs| ==> runs[j].symbol == 0 || runs[j].symbol == 0x10
    requires k > 0 || exists j :: 0 <= j < |runs| && runs[j].symbol == 0x10
    ensures TrickAsWritten(runs) != Repeat(Dpad(1), k) + MapValues(Trick, Expand(runs))
    decreases |runs|
  {
    if runs == [] {
      assert |Repeat(Dpad(1), k) + MapValues(Trick, Expand(runs))| == k > 0;
    } else {
      var s, f := runs[0].symbol, runs[0].length;
      var t := EncodeTupleAsWritten(s, f, Trick);
      var rest := runs[1..];
      TrickPairAsWritten(s, f);
      TrickRunsFitRest(runs);
      assert forall j :: 0 <= j < |rest| ==> rest[j] == runs[j + 1];
      if t.data / 0x10 == 0 && (k > 0 || s == 0x10) {
        OnesReadAsZero(runs, k);
      } else if s == 0 {
        var j :| 0 <= j < |runs| && runs[j].symbol == 0x10;
        assert rest[j - 1].symbol == 0x10;
        TrickOnesMismatch(rest, 0);
        OnesAfterZeroRun(runs);
      } else {
        TrickOnesMismatch(rest, k + 0xF00);
        OnesAfterLongRun(runs, k);
      }
    }
  }

  /** A first run read back as d-pad 0 where a 1 is due. */
  lemma {:induction false} OnesReadAsZero(runs: seq<Run>, k: nat)
    requires runs != [] && TrickRunsFit(runs)
    requires runs[0].symbol == 0 || runs[0].symbol == 0x10
    requires EncodeTupleAsWritten(runs[0].symbol, runs[0].length, Trick).data / 0x10 == 0
    requires k > 0 || runs[0].symbol == 0x10
    ensures TrickAsWritten(runs) != Repeat(Dpad(1), k) + MapValues(Trick, Expand(runs))
  {
    TrickAsWrittenCons(runs);
    TrickPairAsWritten(runs[0].symbol, runs[0].length);
    assert TrickAsWritten(runs)[0] == Dpad(0);
    assert (Repeat(Dpad(1), k) + MapValues(Trick, Expand(runs)))[0] == Dpad(1);
  }

  /** A leading run of 0s reads back right, so the mismatch is in the rest. */
  lemma {:induction false} OnesAfterZeroRun(runs: seq<Run>)
    requires runs != [] && TrickRunsFit(runs) && runs[0].symbol == 0
    requires TrickAsWritten(runs[1..]) != Repeat(Dpad(1), 0) + MapValues(Trick, Expand(runs[1..]))
    ensures TrickAsWritten(runs) != Repeat(Dpad(1), 0) + MapValues(Trick, Expand(runs))
  {
    var f := runs[0].length;
    TrickAsWrittenCons(runs);
    TrickPairAsWritten(0, f);
    var restVals := MapValues(Trick, Expand(runs[1..]));
    assert Repeat(Dpad(1), 0) + MapValues(Trick, Expand(runs)) == Repeat(Dpad(0), f) + (Repeat(Dpad(1), 0) + restVals);
    SamePrefixMismatch(Repeat(Dpad(0), f), TrickAsWritten(runs[1..]), Repeat(Dpad(1), 0) + restVals);
  }

  /** A run of 1s of 0xFF0 frames or more reads back 0xF00 frames short,
      and those frames are still due from the rest. */
  lemma {:induction false} OnesAfterLongRun(runs: seq<Run>, k: nat)
    requires runs != [] && TrickRunsFit(runs) && runs[0].symbol == 0x10 && runs[0].length >= 0xFF0
    requires TrickAsWritten(runs[1..]) != Repeat(Dpad(1), k + 0xF00) + MapValues(Trick, Expand(runs[1..]))
    ensures TrickAsWritten(runs) != Repeat(Dpad(1), k) + MapValues(Trick, Expand(runs))
  {
    var f := runs[0].length;
    var len := f - 0xF00;
    TrickAsWrittenCons(runs);
    TrickPairAsWritten(0x10, f);
    var restVals := MapValues(Trick, Expand(runs[1..]));
    assert Repeat(Dpad(1), k) + MapValues(Trick, Expand(runs))
      == Repeat(Dpad(1), len) + (Repeat(Dpad(1), k + 0xF00) + restVals);
    SamePrefixMismatch(Repeat(Dpad(1), len), TrickAsWritten(runs[1..]), Repeat(Dpad(1), k + 0xF00) + restVals);
  }

  /** Two lists that start alike differ when what follows differs. */
  lemma SamePrefixMismatch<T>(p: seq<T>, a: seq<T>, b: seq<T>)
    requires a != b
    ensures p + a != p + b
  {
    assert (p + a)[|p|..] == a && (p + b)[|p|..] == b;
  }

  /** The trick symbol of each frame is 16 times its d-pad value. */
  lemma TrickSymbols(frames: seq<Frame>)
    requires AllFit(Trick, frames)
    ensures forall i :: 0 <= i < |frames| ==> Symbols(Trick, frames)[i] == 0x10 * frames[i].dpad
    ensures MapValues(Trick, Symbols(Trick, frames)) == ExpectedFrames(Trick, frames)
  {
    SymbolsDecodeToFrames(Trick, frames);
    forall i | 0 <= i < |frames| ensures Symbols(Trick, frames)[i] == 0x10 * frames[i].dpad {
      assert ExpectedFrames(Trick, frames)[i] == MapValues(Trick, Symbols(Trick, frames))[i];
    }
  }

  /** One trick run fits a trick tuple. */
  lemma TrickRunFits(frames: seq<Frame>, k: int)
    requires AllFit(Trick, frames)
    requires 0 <= k < |ChannelRuns(Trick, frames)|
    ensures var r := ChannelRuns(Trick, frames)[k];
      1 <= r.length <= 0xFFF && 0 <= r.symbol <= 0xF0 && r.symbol % 0x10 == 0
  {
    ChannelRunsAreRle(Trick, frames);
    TrickSymbols(frames);
    RunSymbolsAreSymbols(Trick, frames, k);
  }

  /** The runs of a trick channel whose d-pad values lie in [0, 15] fit a
      trick tuple, and their symbols are 16 times the frames' d-pad values. */
  lemma TrickChannelRunsFit(frames: seq<Frame>)
    requires AllFit(Trick, frames)
    ensures TrickRunsFit(ChannelRuns(Trick, frames))
    ensures Expand(ChannelRuns(Trick, frames)) == Symbols(Trick, frames)
    ensures forall i :: 0 <= i < |frames| ==> Symbols(Trick, frames)[i] == 0x10 * frames[i].dpad
    ensures MapValues(Trick, Symbols(Trick, frames)) == ExpectedFrames(Trick, frames)
  {
    ChannelRunsAreRle(Trick, frames);
    TrickSymbols(frames);
    forall k | 0 <= k < |ChannelRuns(Trick, frames)|
      ensures var r := ChannelRuns(Trick, frames)[k];
        1 <= r.length <= 0xFFF && 0 <= r.symbol <= 0xF0 && r.symbol % 0x10 == 0
    {
      TrickRunFits(frames, k);
    }
  }

  /** As written, the trick bytes always fit (so they would never abort the
      file) but decode back to the d-pad values exactly when every d-pad
      value is 0. */
  lemma TrickAsWrittenRoundTrip(frames: seq<Frame>)
    requires AllFit(Trick, frames)
    ensures AllBytes(Flatten(AsWrittenTuples(ChannelRuns(Trick, frames))))
    ensures TrickAsWritten(ChannelRuns(Trick, frames)) == ExpectedFrames(Trick, frames)
      <==> forall i :: 0 <= i < |frames| ==> frames[i].dpad == 0
  {
    var runs := ChannelRuns(Trick, frames);
    var ts := AsWrittenTuples(runs);
    TrickChannelRunsFit(frames);
    forall k | 0 <= k < |runs| ensures IsByte(ts[k].data) && IsByte(ts[k].frames) {
      TrickPairAsWritten(runs[k].symbol, runs[k].length);
    }
    FlattenBytes(ts);
    if forall i :: 0 <= i < |frames| ==> frames[i].dpad == 0 {
      TrickAllZeroRoundTrip(frames);
    } else {
      TrickNonZeroMismatch(frames);
    }
  }

  lemma TrickAllZeroRoundTrip(frames: seq<Frame>)
    requires AllFit(Trick, frames)
    requires forall i :: 0 <= i < |frames| ==> frames[i].dpad == 0
    ensures TrickAsWritten(ChannelRuns(Trick, frames)) == ExpectedFrames(Trick, frames)
  {
    var runs := ChannelRuns(Trick, frames);
    var ts := AsWrittenTuples(runs);
    TrickChannelRunsFit(frames);
    forall k | 0 <= k < |runs|
      ensures PairFrames(Trick, ts[k].data, ts[k].frames) == Repeat(SymbolValue(Trick, runs[k].symbol), runs[k].length)
    {
      RunSymbolsAreSymbols(Trick, frames, k);
      TrickPairAsWritten(runs[k].symbol, runs[k].length);
    }
    DecodeFlattenedRuns(Trick, ts, runs);
  }

  /** A d-pad value of 2 or more never reads back: as written, every value
      read back is 0 or 1. */
  lemma TrickLargeDpadMismatch(frames: seq<Frame>, i: int)
    requires AllFit(Trick, frames)
    requires 0 <= i < |frames| && frames[i].dpad >= 2
    ensures TrickAsWritten(ChannelRuns(Trick, frames)) != ExpectedFrames(Trick, frames)
  {
    var runs := ChannelRuns(Trick, frames);
    var dec := TrickAsWritten(runs);
    TrickChannelRunsFit(frames);
    TrickAsWrittenValues(runs);
    var expected := ExpectedFrames(Trick, frames);
    assert expected[i] in expected && expected[i] == Dpad(frames[i].dpad);
  }

  /** With d-pad values 0 and 1 only and at least one 1, the as-written
      bytes do not read back either. */
  lemma TrickUnitDpadMismatch(frames: seq<Frame>, i: int)
    requires AllFit(Trick, frames)
    requires forall j :: 0 <= j < |frames| ==> frames[j].dpad <= 1
    requires 0 <= i < |frames| && frames[i].dpad == 1
    ensures TrickAsWritten(ChannelRuns(Trick, frames)) != ExpectedFrames(Trick, frames)
  {
    var runs := ChannelRuns(Trick, frames);
    TrickChannelRunsFit(frames);
    UnitRunSymbols(frames, i);
    TrickOnesMismatch(runs, 0);
    assert Repeat(Dpad(1), 0) + MapValues(Trick, Expand(runs)) == ExpectedFrames(Trick, frames);
  }

  /** With d-pad values 0 and 1 only, every trick run carries symbol 0 or
      0x10, and a frame with value 1 puts a run of 0x10 among them. */
  lemma UnitRunSymbols(frames: seq<Frame>, i: int)
    requires AllFit(Trick, frames)
    requires forall j :: 0 <= j < |frames| ==> frames[j].dpad <= 1
    requires 0 <= i < |frames| && frames[i].dpad == 1
    ensures var runs := ChannelRuns(Trick, frames);
      && (forall j :: 0 <= j < |runs| ==> runs[j].symbol == 0 || runs[j].symbol == 0x10)
      && exists j :: 0 <= j < |runs| && runs[j].symbol == 0x10
  {
    var runs := ChannelRuns(Trick, frames);
    forall j | 0 <= j < |runs| ensures runs[j].symbol == 0 || runs[j].symbol == 0x10 {
      UnitRunSymbol(frames, j);
    }
    var syms := Symbols(Trick, frames);
    TrickSymbols(frames);
    ChannelRunsAreRle(Trick, frames);
    assert Expand(runs)[i] == syms[i] == 0x10;
    ExpandOnlyRunSymbols(runs, i);
  }

  /** One trick run under d-pad values 0 and 1 carries symbol 0 or 0x10. */
  lemma UnitRunSymbol(frames: seq<Frame>, j: int)
    requires AllFit(Trick, frames)
    requires forall m :: 0 <= m < |frames| ==> frames[m].dpad <= 1
    requires 0 <= j < |ChannelRuns(Trick, frames)|
    ensures ChannelRuns(Trick, frames)[j].symbol == 0 || ChannelRuns(Trick, frames)[j].symbol == 0x10
  {
    var syms := Symbols(Trick, frames);
    RunSymbolsAreSymbols(Trick, frames, j);
    var m :| 0 <= m < |frames| && syms[m] == ChannelRuns(Trick, frames)[j].symbol;
    TrickSymbols(frames);
    assert syms[m] == 0x10 * frames[m].dpad && 0 <= frames[m].dpad <= 1;
  }

  lemma TrickNonZeroMismatch(frames: seq<Frame>)
    requires AllFit(Trick, frames)
    requires exists i :: 0 <= i < |frames| && frames[i].dpad != 0
    ensures TrickAsWritten(ChannelRuns(Trick, frames)) != ExpectedFrames(Trick, frames)
  {
    var i :| 0 <= i < |frames| && frames[i].dpad != 0;
    if exists j :: 0 <= j < |frames| && frames[j].dpad >= 2 {
      var j :| 0 <= j < |frames| && frames[j].dpad >= 2;
      TrickLargeDpadMismatch(frames, j);
    } else {
      TrickUnitDpadMismatch(frames, i);
    }
  }

  /** A trick run of d-pad value d in [0, 15] and length in [0, 0xFFF]
      fits two bytes and decodes to the same run. */
  lemma TrickTupleRoundTrip(d: int, frames: int)
    requires 0 <= d <= 15 && 0 <= frames <= 0xFFF
    ensures var t := EncodeTuple(EncodeTrickInput(d), frames, Trick);
      IsByte(t.data) && IsByte(t.frames) && PairFrames(Trick, t.data, t.frames) == Repeat(Dpad(d), frames)
  {
    var t := EncodeTuple(EncodeTrickInput(d), frames, Trick);
    var hi := frames / 0x100;
    assert 0 <= hi <= 15;
    assert t.data == 16 * d + hi;
    assert t.data / 0x10 == d && t.data % 0x10 == hi;
    assert PairLength(Trick, t.data, t.frames) == hi * 0x100 + frames % 0x100 == frames;
  }
}
