/** The per-frame symbol codec of the RKG ghost format: how one frame's face
    buttons, control stick and trick (d-pad) input are packed into a symbol
    and read back.

    Python's `x >> k` is floor division by 2^k and `x % m` is the floored
    remainder; for a positive divisor both coincide with Dafny's Euclidean
    `/` and `%` on every integer, so they are written with `/` and `%`. */
module SymbolCodec {

  /** The three independently run-length-encoded input channels. */
  datatype Channel = Face | Direction | Trick

  /** One frame of controller input as the frame sequence provides it;
      `dpad` is the raw d-pad (trick) value. */
  datatype Frame = Frame(accel: bool, brake: bool, item: bool,
                         stickX: int, stickY: int, dpad: int)

  /** Python's `int(b)` for a boolean. */
  function Bit(b: bool): int {
    if b then 1 else 0
  }

  /** The previous symbols after which bit 3 of a face symbol stays clear. */
  const NoBoostContexts: set<int> := {0x0, 0x2, 0x3, 0x7}

  /** decodeFaceButton: bits 0, 1 and 2 as [A, B, L]; bit 3 is never read. */
  function DecodeFaceButton(input: int): seq<int> {
    [input % 0x2, (input / 0x2) % 0x2, (input / 0x4) % 0x2]
  }

  /** decodeDirectionInput: the high and the low nibble, still biased by 7. */
  function DecodeDirectionInput(input: int): seq<int> {
    [input / 0x10, input % 0x10]
  }

  /** decodeTrickInput: the high nibble. */
  function DecodeTrickInput(input: int): int {
    input / 0x10
  }

  /** encodeFaceButton: A, B and L in bits 0-2; bit 3 only when A and B are
      both held and the previous encoded symbol is outside NoBoostContexts. */
  function EncodeFaceButton(a: bool, b: bool, l: bool, prevMask: int): (r: int)
    ensures 0 <= r <= 15
    ensures r % 8 == Bit(a) + 2 * Bit(b) + 4 * Bit(l)
    ensures r >= 8 <==> a && b && prevMask !in NoBoostContexts
  {
    var x8Mask := if a && b && prevMask !in NoBoostContexts then 0x8 else 0x0;
    Bit(a) + Bit(b) * 0x2 + Bit(l) * 0x4 + x8Mask
  }

  /** encodeDirectionInput: `(X << 4) + Y`; the caller has already added 7
      to both axes. */
  function EncodeDirectionInput(x: int, y: int): int {
    x * 0x10 + y
  }

  /** encodeTrickInput: the d-pad value moved into the high nibble. */
  function EncodeTrickInput(input: int): int {
    input * 0x10
  }

  /** The symbol of one frame on one channel, given the previous encoded
      symbol as context (only the face channel looks at it). */
  function ChannelSymbol(ch: Channel, f: Frame, context: int): int {
    match ch
    case Face => EncodeFaceButton(f.accel, f.brake, f.item, context)
    case Direction => EncodeDirectionInput(f.stickX + 7, f.stickY + 7)
    case Trick => EncodeTrickInput(f.dpad)
  }

  /** A stick axis the direction symbol can carry. */
  predicate StickInRange(v: int) {
    -7 <= v <= 8
  }

  /** The face buttons read back from any symbol are exactly the ones that
      were encoded, whatever the context that decided bit 3. */
  lemma FaceRoundTrip(a: bool, b: bool, l: bool, prevMask: int)
    ensures DecodeFaceButton(EncodeFaceButton(a, b, l, prevMask)) == [Bit(a), Bit(b), Bit(l)]
  {
    var r := EncodeFaceButton(a, b, l, prevMask);
    var low := Bit(a) + 2 * Bit(b) + 4 * Bit(l);
    assert r == low || r == low + 8;
    assert 0 <= low < 8;
    assert r % 2 == Bit(a);
    assert (r / 2) % 2 == Bit(b);
    assert (r / 4) % 2 == Bit(l);
  }

  /** Both stick axes in [-7, 8] give a symbol that fits a byte, and the
      decoder gives back the biased axes, so subtracting 7 restores them. */
  lemma DirectionRoundTrip(x: int, y: int)
    requires StickInRange(x) && StickInRange(y)
    ensures 0 <= EncodeDirectionInput(x + 7, y + 7) <= 0xFF
    ensures DecodeDirectionInput(EncodeDirectionInput(x + 7, y + 7)) == [x + 7, y + 7]
  {
    var s := EncodeDirectionInput(x + 7, y + 7);
    assert s / 0x10 == x + 7 && s % 0x10 == y + 7;
  }

  /** The stick check is on the packed byte, not on each axis: an out-of-range
      vertical axis can still give a byte, which then reads back as another
      stick position. */
  lemma DirectionOutOfRangeAliases()
    ensures EncodeDirectionInput(-7 + 7, 9 + 7) == EncodeDirectionInput(-6 + 7, -7 + 7) == 0x10
  {
  }

  /** The trick symbol of a d-pad value in [0, 15] is a multiple of 16 that
      fits a byte, and its high nibble is the value again. */
  lemma TrickRoundTrip(d: int)
    requires 0 <= d <= 15
    ensures 0 <= EncodeTrickInput(d) <= 0xF0 && EncodeTrickInput(d) % 0x10 == 0
    ensures DecodeTrickInput(EncodeTrickInput(d)) == d
  {
  }

  /** Re-encoding a frame with its own neutral-context symbol as context
      gives that symbol again: the seed taken from context 0 is 3 or 7 when
      A and B are both held, and both are in NoBoostContexts. */
  lemma SeedIsStable(ch: Channel, f: Frame)
    ensures ChannelSymbol(ch, f, ChannelSymbol(ch, f, 0)) == ChannelSymbol(ch, f, 0)
  {
    if ch == Face && f.accel && f.brake {
      var seed := ChannelSymbol(ch, f, 0);
      assert seed == 3 || seed == 7;
    }
  }
}
