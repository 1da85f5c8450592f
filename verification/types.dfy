/** Constants and inbound byte layouts of the peripheral's protocol
    (pie/types.hpp). Packed bit-fields are read and written by explicit
    division and remainder over byte offsets; bit-fields are taken to be
    allocated least-significant bit first within their byte. */
module Types {

  /** An unsigned 8-bit value (`pie::byte`). */
  type byte = x: int | 0 <= x < 256

  /** A 16-bit unsigned value (`pie::word`). */
  type word = x: int | 0 <= x < 0x1_0000

  /** A button index (`pie::button`, a plain `int`): matrix buttons are
      non-negative, the two sentinels below are negative. */
  type Button = int

  /** The dedicated status button, outside the matrix (`ps`). */
  const Ps: Button := -1
  /** Absence marker (`none`), used for "no pending button". */
  const NoButton: Button := -2

  // leds::color — masks for the global status-LED command
  const LedsNone: byte := 0
  const LedsGreen: byte := 0x40
  const LedsRed: byte := 0x80
  const LedsAll: byte := 0xc0

  // led::color — bit numbers for the single status-LED command
  const LedGreen: byte := 6
  const LedRed: byte := 7

  // light::bank
  const Bank1: byte := 0
  const Bank2: byte := 1

  // state
  const Off: byte := 0
  const On: byte := 1
  const Flash: byte := 2

  // rows
  const NoRows: byte := 0
  const AllRows: byte := 0xff

  /** Default size of the receive buffer (`pie::data`), zero-filled. */
  const BufferSize: nat := 42
  /** `sizeof(general_data)`: uid, one flag byte, sixteen column bytes. */
  const GeneralSize: nat := 18
  /** `sizeof(descriptor_data)`. */
  const DescriptorSize: nat := 13
  /** Number of column bytes declared in `general_data`. */
  const ColumnSlots: nat := 16
  /** Bit positions per column byte (`CHAR_BIT`). */
  const BitsPerColumn: nat := 8

  function Pow2(k: nat): (r: nat)
    ensures r >= 1
  {
    if k == 0 then 1 else 2 * Pow2(k - 1)
  }

  /** Bit `k` of `x`, counting from the least significant bit. Bits at
      positions 8 and above of a byte are always clear. */
  predicate Bit(x: byte, k: nat) {
    (x / Pow2(k)) % 2 == 1
  }

  /** Bitwise OR of two bytes. */
  function Or(a: byte, b: byte): byte {
    ((a as bv8) | (b as bv8)) as byte
  }

  /** `row_k` of the `rows` enumeration, for k in 1..8, as an 8-bit mask. */
  function Row(k: int): bv8
    requires 1 <= k <= 8
  {
    match k
    case 1 => 0x01
    case 2 => 0x02
    case 3 => 0x04
    case 4 => 0x08
    case 5 => 0x10
    case 6 => 0x20
    case 7 => 0x40
    case _ => 0x80
  }

  /** The two sentinels are distinct and negative, so neither can be
      confused with a matrix index. */
  lemma SentinelsDistinct()
    ensures Ps != NoButton
    ensures Ps < 0 && NoButton < 0
  {
  }

  /** `leds::all` is `green | red`, and `leds::none` has no bit set. */
  lemma LedsMasks()
    ensures LedsAll == Or(LedsGreen, LedsRed)
    ensures LedsNone == 0
    ensures LedsGreen == Pow2(LedGreen) && LedsRed == Pow2(LedRed)
  {
  }

  /** `all_rows` is the union of the eight row masks; each row mask sets
      exactly one bit, and no two rows share one. */
  lemma RowMasks()
    ensures AllRows as bv8 == Row(1) | Row(2) | Row(3) | Row(4) | Row(5) | Row(6) | Row(7) | Row(8)
    ensures forall k :: 1 <= k <= 8 ==> Row(k) == 1 << (k - 1)
    ensures forall k, j :: 1 <= k < j <= 8 ==> Row(k) & Row(j) == 0
    ensures NoRows == 0
  {
  }

  /** Light states and banks: the three states are distinct, and bank 2's
      offset into the backlight index space is non-zero. */
  lemma EnumValues()
    ensures Off != On && On != Flash && Off != Flash
    ensures Bank1 == 0 && Bank2 == 1
    ensures BufferSize >= GeneralSize && BufferSize >= DescriptorSize
  {
  }

  lemma BitAboveByte(x: byte, k: nat)
    requires k >= 8
    ensures !Bit(x, k)
  {
    PowMono(8, k);
  }

  lemma PowMono(j: nat, k: nat)
    requires j <= k
    ensures Pow2(j) <= Pow2(k)
    decreases k
  {
    if j < k {
      PowMono(j, k - 1);
    }
  }

  //////////////////////////////////////////////////////////////////////
  // general_data: the telemetry frame

  datatype General = General(uid: byte, ps: bool, reset: bool, buttons: seq<byte>)

  predicate ValidGeneral(g: General) {
    |g.buttons| == ColumnSlots
  }

  /** Reads `general_data` from the start of a buffer: uid at byte 0, the
      status bit and reset bit as bits 0 and 1 of byte 1, column `c`'s row
      bits at byte 2 + c. */
  function DecodeGeneral(b: seq<byte>): (g: General)
    requires |b| >= GeneralSize
    ensures ValidGeneral(g)
    ensures g.uid == b[0]
    ensures g.ps <==> Bit(b[1], 0)
    ensures g.reset <==> Bit(b[1], 1)
    ensures forall c :: 0 <= c < ColumnSlots ==> g.buttons[c] == b[2 + c]
  {
    General(b[0], b[1] % 2 == 1, (b[1] / 2) % 2 == 1, b[2..GeneralSize])
  }

  function FlagByte(ps: bool, reset: bool): byte {
    (if ps then 1 else 0) + (if reset then 2 else 0)
  }

  /** Writes `general_data` with its six padding bits clear. */
  function EncodeGeneral(g: General): (b: seq<byte>)
    requires ValidGeneral(g)
    ensures |b| == GeneralSize
    ensures b[0] == g.uid && b[2..] == g.buttons
    ensures b[1] < 4
  {
    [g.uid, FlagByte(g.ps, g.reset)] + g.buttons
  }

  lemma GeneralRoundTrip(g: General)
    requires ValidGeneral(g)
    ensures DecodeGeneral(EncodeGeneral(g)) == g
  {
    var b := EncodeGeneral(g);
    assert b[2..GeneralSize] == g.buttons;
  }

  /** Re-encoding a decoded frame gives back its first 18 bytes exactly
      when the padding bits of byte 1 are clear. */
  lemma GeneralReencode(b: seq<byte>)
    requires |b| >= GeneralSize
    ensures EncodeGeneral(DecodeGeneral(b)) == b[..GeneralSize] <==> b[1] < 4
  {
    var e := EncodeGeneral(DecodeGeneral(b));
    if b[1] < 4 {
      assert e[1] == b[1];
      assert forall i :: 0 <= i < GeneralSize ==> e[i] == b[i];
    } else {
      assert e[1] != b[1];
    }
  }

  //////////////////////////////////////////////////////////////////////
  // descriptor_data: the reply to request_descriptor

  datatype Descriptor = Descriptor(
    uid: byte, cmd: byte, mode: byte, columns: byte, rows: byte,
    greenLedOn: bool, redLedOn: bool, ver: byte, pid: word)

  /** Reads `descriptor_data`: uid, cmd and mode at bytes 0..2, four padding
      bytes, columns at 7, rows at 8, the two LED flags as bits 6 and 7 of
      byte 9, ver at 10 and a little-endian pid at 11..12. */
  function DecodeDescriptor(b: seq<byte>): (d: Descriptor)
    requires |b| >= DescriptorSize
    ensures d.uid == b[0] && d.cmd == b[1] && d.mode == b[2]
    ensures d.columns == b[7] && d.rows == b[8]
    ensures d.greenLedOn <==> Bit(b[9], 6)
    ensures d.redLedOn <==> Bit(b[9], 7)
    ensures d.ver == b[10]
    ensures d.pid == b[11] as int + 256 * b[12] as int
  {
    assert Pow2(6) == 64 && Pow2(7) == 128;
    Descriptor(b[0], b[1], b[2], b[7], b[8],
               (b[9] / 64) % 2 == 1, (b[9] / 128) % 2 == 1,
               b[10], b[11] as int + 256 * b[12] as int)
  }

  /** Writes `descriptor_data` with all padding clear. */
  function EncodeDescriptor(d: Descriptor): (b: seq<byte>)
    ensures |b| == DescriptorSize
    ensures b[3] == 0 && b[4] == 0 && b[5] == 0 && b[6] == 0
    ensures b[9] % 64 == 0
  {
    [d.uid, d.cmd, d.mode, 0, 0, 0, 0, d.columns, d.rows,
     (if d.greenLedOn then 64 else 0) + (if d.redLedOn then 128 else 0),
     d.ver, d.pid % 256, d.pid / 256]
  }

  lemma DescriptorRoundTrip(d: Descriptor)
    ensures DecodeDescriptor(EncodeDescriptor(d)) == d
  {
  }

  /** Re-encoding a decoded descriptor gives back its first 13 bytes exactly
      when every padding byte and padding bit is clear. */
  lemma DescriptorReencode(b: seq<byte>)
    requires |b| >= DescriptorSize
    ensures EncodeDescriptor(DecodeDescriptor(b)) == b[..DescriptorSize]
        <==> b[3] == 0 && b[4] == 0 && b[5] == 0 && b[6] == 0 && b[9] % 64 == 0
  {
    var e := EncodeDescriptor(DecodeDescriptor(b));
    if b[3] == 0 && b[4] == 0 && b[5] == 0 && b[6] == 0 && b[9] % 64 == 0 {
      assert e[9] == b[9];
      assert forall i :: 0 <= i < DescriptorSize ==> e[i] == b[i];
    } else {
      assert e[..DescriptorSize] != b[..DescriptorSize] by {
        if b[3] != 0 { assert e[3] != b[3]; }
        else if b[4] != 0 { assert e[4] != b[4]; }
        else if b[5] != 0 { assert e[5] != b[5]; }
        else if b[6] != 0 { assert e[6] != b[6]; }
        else { assert e[9] != b[9]; }
      }
    }
  }
}
