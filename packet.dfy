/** The standard 3-byte PS/2 mouse movement packet and its decoding
    (app/src/ps2_mouse.c, zmk_ps2_mouse_movement_parse_cmd_buffer).

    State byte layout:
      bit 0 left button, bit 1 right button, bit 2 middle button,
      bit 3 alignment (always 1), bit 4 X sign, bit 5 Y sign,
      bit 6 X overflow, bit 7 Y overflow.
    The X and Y bytes are the low 8 bits of 9-bit two's-complement deltas
    whose sign bits live in the state byte. */
module MousePacket {

  /** Bit position of the alignment bit in the state byte. */
  const ALIGNMENT_BIT: nat := 3

  /** One raw packet as it leaves the frame buffer: (cmd_state, cmd_x, cmd_y). */
  datatype Packet = Packet(state: bv8, x: bv8, y: bv8)

  /** The decoded movement, one field per out-parameter of the parser.
      mov_x and mov_y are `int16_t`; each is held as its 16-bit
      two's-complement word, and `Signed` gives the number it stands for. */
  datatype MotionEvent = MotionEvent(
    movX: bv16,
    movY: bv16,
    overflowX: bool,
    overflowY: bool,
    buttonLeft: bool,
    buttonMiddle: bool,
    buttonRight: bool)

  /** PS2_GPIO_GET_BIT: shift right by the bit position and keep the low bit. */
  predicate Bit(b: bv8, pos: nat)
    requires pos < 8
  {
    (b >> pos) & 1 == 1
  }

  /** A state byte whose alignment bit is set. */
  predicate Aligned(state: bv8) {
    Bit(state, ALIGNMENT_BIT)
  }

  /** The high byte of a 16-bit word. */
  function HighByte(w: bv16): bv8 {
    (w >> 8) as bv8
  }

  /** The low byte of a 16-bit word. */
  function LowByte(w: bv16): bv8 {
    (w & 0xFF) as bv8
  }

  /** The number an 8-bit two's-complement byte stands for. */
  function SignedByte(b: bv8): int {
    if b < 0x80 then b as int else b as int - 256
  }

  /** The number an `int16_t` word stands for: its high byte, read as
      two's complement, times 256, plus its low byte. */
  function Signed(w: bv16): int {
    SignedByte(HighByte(w)) * 256 + LowByte(w) as int
  }

  /** A negative `int16_t`: the sign bit of its word is set. */
  predicate Negative(w: bv16) {
    w >= 0x8000
  }

  /** The promotion of an `int16_t` to a 32-bit `int`: sign extension. */
  function SignExtend(w: bv16): bv32 {
    if w < 0x8000 then w as bv32 else (w as bv32) | 0xFFFF_0000
  }

  /** The store of a 32-bit `int` into `int16_t`: the low 16 bits. An `int`
      in the range of `int16_t` is kept, that is, promoting the result back
      gives the `int` again. */
  function ToInt16(v: bv32): (r: bv16)
    ensures v < 0x8000 || v >= 0xFFFF_8000 ==> SignExtend(r) == v
  {
    ToInt16Keeps(v);
    (v & 0xFFFF) as bv16
  }

  lemma ToInt16Keeps(v: bv32)
    ensures v < 0x8000 || v >= 0xFFFF_8000 ==> SignExtend((v & 0xFFFF) as bv16) == v
  {
    if v < 0x8000 {
      assert ((v & 0xFFFF) as bv16) as bv32 == v;
    } else if v >= 0xFFFF_8000 {
      assert ((v & 0xFFFF) as bv16) as bv32 == v & 0xFFFF;
    }
  }

  /** The sign correction `(cmd_state << k) & 0x100`, computed after the
      promotion of the state byte to a 32-bit `int`: 256 exactly when bit
      8 - k of the state byte is set, 0 otherwise. */
  function SignCorrection(state: bv8, shift: nat): (r: bv32)
    requires 1 <= shift <= 8
    ensures r == (if Bit(state, 8 - shift) then 0x100 else 0)
  {
    ((state as bv32) << shift) & 0x100
  }

  /** One axis of the parser: the coordinate byte promoted to `int`, less the
      sign correction, stored into `int16_t`. The word is the coordinate byte
      below a high byte that is all ones exactly when the correction was
      made, that is, the 9-bit value sign-extended to 16 bits. */
  function Axis(b: bv8, correction: bv32): (w: bv16)
    requires correction == 0 || correction == 0x100
    ensures HighByte(w) == (if correction == 0x100 then 0xFF else 0) && LowByte(w) == b
  {
    ToInt16((b as bv32) - correction)
  }

  /** zmk_ps2_mouse_movement_parse_cmd_buffer: every byte triple decodes.
      Each flag is the mask of its state-byte bit, and each delta's word has
      the coordinate byte as its low byte and a high byte that is all ones
      exactly when the axis's sign bit is set. */
  function Decode(state: bv8, x: bv8, y: bv8): (e: MotionEvent)
    ensures e.buttonLeft == (state & 0x01 != 0)
    ensures e.buttonRight == (state & 0x02 != 0)
    ensures e.buttonMiddle == (state & 0x04 != 0)
    ensures e.overflowX == (state & 0x40 != 0)
    ensures e.overflowY == (state & 0x80 != 0)
    ensures HighByte(e.movX) == (if state & 0x10 != 0 then 0xFF else 0) && LowByte(e.movX) == x
    ensures HighByte(e.movY) == (if state & 0x20 != 0 then 0xFF else 0) && LowByte(e.movY) == y
  {
    var correctionX := SignCorrection(state, 4);
    var correctionY := SignCorrection(state, 3);
    assert (correctionX == 0x100) == (state & 0x10 != 0);
    assert (correctionY == 0x100) == (state & 0x20 != 0);
    MotionEvent(
      Axis(x, correctionX),
      Axis(y, correctionY),
      Bit(state, 6),
      Bit(state, 7),
      Bit(state, 0),
      Bit(state, 2),
      Bit(state, 1))
  }

  /** zmk_ps2_mouse_movement_process_cmd decodes one completed frame. */
  function DecodePacket(p: Packet): MotionEvent {
    Decode(p.state, p.x, p.y)
  }

  /** The bytes whose two's-complement reading is 0, -1 or negative. */
  lemma SignedByteFacts(b: bv8)
    ensures SignedByte(b) == 0 <==> b == 0
    ensures SignedByte(b) == -1 <==> b == 0xFF
    ensures SignedByte(b) < 0 <==> b >= 0x80
  {
  }

  /** The numbers the decoder produces: each delta is its coordinate byte
      less 256 exactly when the axis's sign bit is set, so it lies in
      [-256, 255] and the store into `int16_t` never truncates. */
  lemma DecodedValues(state: bv8, x: bv8, y: bv8)
    ensures var e := Decode(state, x, y);
            Signed(e.movX) == x as int - (if state & 0x10 != 0 then 256 else 0)
            && Signed(e.movY) == y as int - (if state & 0x20 != 0 then 256 else 0)
    ensures var e := Decode(state, x, y);
            -256 <= Signed(e.movX) <= 255 && -256 <= Signed(e.movY) <= 255
  {
    var e := Decode(state, x, y);
    AxisValue(e.movX, state & 0x10 != 0, x);
    AxisValue(e.movY, state & 0x20 != 0, y);
  }

  lemma AxisValue(w: bv16, sign: bool, b: bv8)
    requires HighByte(w) == (if sign then 0xFF else 0) && LowByte(w) == b
    ensures Signed(w) == b as int - (if sign then 256 else 0)
    ensures -256 <= Signed(w) <= 255
  {
    SignedByteFacts(HighByte(w));
  }

  /** The words of the deltas a 9-bit two's-complement axis can carry: the
      high byte copies bit 8, all zeros or all ones. */
  predicate InNineBitRange(w: bv16) {
    w < 0x100 || w >= 0xFF00
  }

  /** The 9-bit words are exactly those that stand for a number in [-256, 255]. */
  lemma NineBitWords(w: bv16)
    ensures InNineBitRange(w) <==> -256 <= Signed(w) <= 255
  {
    SignedByteFacts(HighByte(w));
    assert w < 0x100 <==> HighByte(w) == 0;
    assert w >= 0xFF00 <==> HighByte(w) == 0xFF;
    var h := SignedByte(HighByte(w));
    var l := LowByte(w) as int;
    assert 0 <= l < 256;
    assert (-256 <= h * 256 + l <= 255) <==> (h == 0 || h == -1);
  }

  /** A word is negative exactly when the number it stands for is. */
  lemma NegativeIsSign(w: bv16)
    ensures Negative(w) <==> Signed(w) < 0
  {
    SignedByteFacts(HighByte(w));
    assert Negative(w) <==> HighByte(w) >= 0x80;
  }

  /** The low byte of a word is the number it stands for, modulo 256. */
  lemma LowByteMod(w: bv16)
    ensures LowByte(w) as int == Signed(w) % 256
  {
    RemainderOfByte(SignedByte(HighByte(w)), LowByte(w) as int);
  }

  lemma RemainderOfByte(h: int, l: int)
    requires 0 <= l < 256
    ensures (h * 256 + l) % 256 == l
  {
  }

  /** An event the device can report: both deltas fit in 9 bits. */
  predicate Reportable(e: MotionEvent) {
    InNineBitRange(e.movX) && InNineBitRange(e.movY)
  }

  function FlagBit(on: bool, mask: bv8): bv8 {
    if on then mask else 0
  }

  /** A state byte with the alignment bit set and every other bit given. */
  function StateByte(left: bool, right: bool, middle: bool, signX: bool, signY: bool,
                     overflowX: bool, overflowY: bool): (s: bv8)
    ensures Aligned(s)
    ensures (s & 0x01 != 0) == left && (s & 0x02 != 0) == right && (s & 0x04 != 0) == middle
    ensures (s & 0x10 != 0) == signX && (s & 0x20 != 0) == signY
    ensures (s & 0x40 != 0) == overflowX && (s & 0x80 != 0) == overflowY
  {
    FlagBit(left, 0x01) | FlagBit(right, 0x02) | FlagBit(middle, 0x04)
    | 0x08
    | FlagBit(signX, 0x10) | FlagBit(signY, 0x20)
    | FlagBit(overflowX, 0x40) | FlagBit(overflowY, 0x80)
  }

  /** The device's side of the format: the packet a mouse sends for an event.
      The alignment bit is set, the button and overflow bits carry the
      event's flags, the sign bits are the signs of the deltas and the
      coordinate bytes are the deltas' low bytes. */
  function Encode(e: MotionEvent): (p: Packet)
    requires Reportable(e)
    ensures Aligned(p.state)
    ensures (p.state & 0x01 != 0) == e.buttonLeft && (p.state & 0x02 != 0) == e.buttonRight
    ensures (p.state & 0x04 != 0) == e.buttonMiddle
    ensures (p.state & 0x40 != 0) == e.overflowX && (p.state & 0x80 != 0) == e.overflowY
    ensures (p.state & 0x10 != 0) == Negative(e.movX) && (p.state & 0x20 != 0) == Negative(e.movY)
    ensures p.x == LowByte(e.movX) && p.y == LowByte(e.movY)
  {
    var state := StateByte(e.buttonLeft, e.buttonRight, e.buttonMiddle,
                           Negative(e.movX), Negative(e.movY), e.overflowX, e.overflowY);
    Packet(state, LowByte(e.movX), LowByte(e.movY))
  }

  /** The numbers on the wire: each sign bit says whether the delta is
      negative and each coordinate byte holds the delta modulo 256. */
  lemma EncodedValues(e: MotionEvent)
    requires Reportable(e)
    ensures var p := Encode(e);
            (p.state & 0x10 != 0) == (Signed(e.movX) < 0) && (p.state & 0x20 != 0) == (Signed(e.movY) < 0)
    ensures var p := Encode(e);
            p.x as int == Signed(e.movX) % 256 && p.y as int == Signed(e.movY) % 256
  {
    NegativeIsSign(e.movX);
    NegativeIsSign(e.movY);
    LowByteMod(e.movX);
    LowByteMod(e.movY);
  }

  /** Two words with the same high and low bytes are the same word. */
  lemma WordFromBytes(u: bv16, v: bv16)
    requires HighByte(u) == HighByte(v) && LowByte(u) == LowByte(v)
    ensures u == v
  {
    ByteWidening(u);
    ByteWidening(v);
    assert u >> 8 == v >> 8 && u & 0xFF == v & 0xFF;
  }

  lemma ByteWidening(w: bv16)
    ensures HighByte(w) as bv16 == w >> 8 && LowByte(w) as bv16 == w & 0xFF
  {
  }

  /** The high byte of a 9-bit word is all ones exactly when it is negative. */
  lemma NineBitHighByte(w: bv16)
    requires InNineBitRange(w)
    ensures HighByte(w) == (if Negative(w) then 0xFF else 0)
  {
  }

  /** Decoding a packet the device built from an event gives back that event. */
  lemma DecodeEncode(e: MotionEvent)
    requires Reportable(e)
    ensures DecodePacket(Encode(e)) == e
  {
    EncodedDeltaX(e);
    EncodedDeltaY(e);
  }

  lemma EncodedDeltaX(e: MotionEvent)
    requires Reportable(e)
    ensures DecodePacket(Encode(e)).movX == e.movX
  {
    EncodedAxis(e.movX, DecodePacket(Encode(e)).movX);
  }

  lemma EncodedDeltaY(e: MotionEvent)
    requires Reportable(e)
    ensures DecodePacket(Encode(e)).movY == e.movY
  {
    EncodedAxis(e.movY, DecodePacket(Encode(e)).movY);
  }

  /** A decoded word with the high byte a 9-bit word's sign calls for and
      the same low byte is that word. */
  lemma EncodedAxis(w: bv16, decoded: bv16)
    requires InNineBitRange(w)
    requires HighByte(decoded) == (if Negative(w) then 0xFF else 0) && LowByte(decoded) == LowByte(w)
    ensures decoded == w
  {
    NineBitHighByte(w);
    WordFromBytes(decoded, w);
  }

  /** A state byte is the union of its eight bits, one of which is the
      alignment bit when the byte is aligned. */
  lemma StateFromBits(s: bv8)
    requires Aligned(s)
    ensures s == StateByte(s & 0x01 != 0, s & 0x02 != 0, s & 0x04 != 0, s & 0x10 != 0,
                           s & 0x20 != 0, s & 0x40 != 0, s & 0x80 != 0)
  {
    assert s & 0x08 != 0;
  }

  /** Every aligned packet is the encoding of the event it decodes to, so
      decoding loses nothing on aligned packets. */
  lemma EncodeDecode(p: Packet)
    requires Aligned(p.state)
    ensures Reportable(DecodePacket(p)) && Encode(DecodePacket(p)) == p
  {
    var e := DecodePacket(p);
    assert Negative(e.movX) == (p.state & 0x10 != 0);
    assert Negative(e.movY) == (p.state & 0x20 != 0);
    StateFromBits(p.state);
  }

  /** Each axis on its own: a 9-bit delta split into (sign bit, low byte)
      decodes back to itself, on X (sign bit 4) and on Y (sign bit 5). */
  lemma AxisRoundTrip(w: bv16)
    requires InNineBitRange(w)
    ensures Decode(if Negative(w) then 0x18 else 0x08, LowByte(w), 0).movX == w
    ensures Decode(if Negative(w) then 0x28 else 0x08, 0, LowByte(w)).movY == w
  {
    NineBitHighByte(w);
    WordFromBytes(Decode(if Negative(w) then 0x18 else 0x08, LowByte(w), 0).movX, w);
    WordFromBytes(Decode(if Negative(w) then 0x28 else 0x08, 0, LowByte(w)).movY, w);
  }

  /** The worked example of the parser's comment: state 0x18, x 0xfd, y 0x02
      is a move of (-3, 2) with no buttons and no overflow. */
  lemma WorkedExample()
    ensures var e := Decode(0x18, 0xfd, 0x02);
            Signed(e.movX) == -3 && Signed(e.movY) == 2
            && !e.buttonLeft && !e.buttonMiddle && !e.buttonRight && !e.overflowX && !e.overflowY
  {
    DecodedValues(0x18, 0xfd, 0x02);
  }
}
