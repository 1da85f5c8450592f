/** The outbound command frames (pie/types.cpp). Every command is a fixed
    36-byte frame: byte 0 is zero, byte 1 is the opcode, bytes 2 and 3 hold
    up to two payload bytes, and the rest is zero padding. */
module Commands {
  import opened Types
  import opened Wrappers

  const FrameSize: nat := 36

  type Frame = seq<byte>

  const OpRequestData: byte := 177
  const OpLedState: byte := 179
  const OpPeriod: byte := 180
  const OpLightState: byte := 181
  const OpLightOn: byte := 182
  const OpLedsOn: byte := 186
  const OpLevel: byte := 187
  const OpRequestDescriptor: byte := 214

  /** A command as it appears on the wire. `LightState` carries the
      backlight index already folded with its bank (see `LightIndex`). */
  datatype Command =
    | RequestData
    | LedState(color: byte, state: byte)
    | Period(period: byte)
    | LightState(index: byte, state: byte)
    | LightOn(bank: byte, rows: byte)
    | LedsOn(colors: byte)
    | Level(bank1: byte, bank2: byte)
    | RequestDescriptor

  /** `f` is a well-formed frame with opcode `op` and payload bytes `a`, `b`. */
  predicate Framed(f: Frame, op: byte, a: byte, b: byte) {
    && |f| == FrameSize
    && f[0] == 0 && f[1] == op && f[2] == a && f[3] == b
    && forall i :: 4 <= i < FrameSize ==> f[i] == 0
  }

  function MakeFrame(op: byte, a: byte, b: byte): (f: Frame)
    ensures Framed(f, op, a, b)
  {
    [0, op, a, b] + seq(FrameSize - 4, _ => 0)
  }

  /** A frame is determined by its opcode and its two payload bytes. */
  lemma FramedUnique(f: Frame, op: byte, a: byte, b: byte)
    requires Framed(f, op, a, b)
    ensures f == MakeFrame(op, a, b)
  {
    var g := MakeFrame(op, a, b);
    assert forall i :: 0 <= i < FrameSize ==> f[i] == g[i];
  }

  /** The backlight index of button `b` in bank `k`: the sum is computed in
      `int` and truncated to the byte it is stored in. */
  function LightIndex(columns: byte, b: Button, k: byte): byte {
    (b + k * columns * BitsPerColumn) % 256
  }

  //////////////////////////////////////////////////////////////////////
  // The eight encoders

  function RequestDataFrame(): (f: Frame)
    ensures Framed(f, OpRequestData, 0, 0)
    ensures forall i :: 0 <= i < FrameSize && i != 1 ==> f[i] == 0
  {
    MakeFrame(OpRequestData, 0, 0)
  }

  /** `set(fd, led::color, state)`; defined as `led_state`. */
  function LedStateFrame(c: byte, s: byte): (f: Frame)
    ensures Framed(f, OpLedState, c, s)
  {
    MakeFrame(OpLedState, c, s)
  }

  function PeriodFrame(p: byte): (f: Frame)
    ensures Framed(f, OpPeriod, p, 0)
  {
    MakeFrame(OpPeriod, p, 0)
  }

  /** `set(fd, columns, button, bank, state)`; defined as `light_state`. */
  function LightStateFrame(columns: byte, b: Button, k: byte, s: byte): (f: Frame)
    ensures Framed(f, OpLightState, (b + k * columns * 8) % 256, s)
  {
    MakeFrame(OpLightState, LightIndex(columns, b, k), s)
  }

  /** `set_on(fd, bank, rows)`; defined as `light_on`. */
  function LightOnFrame(k: byte, rs: byte): (f: Frame)
    ensures Framed(f, OpLightOn, k, rs)
  {
    MakeFrame(OpLightOn, k, rs)
  }

  /** `set_on(fd, leds::color)`; defined as `leds_on`. */
  function LedsOnFrame(c: byte): (f: Frame)
    ensures Framed(f, OpLedsOn, c, 0)
  {
    MakeFrame(OpLedsOn, c, 0)
  }

  function LevelFrame(bank1: byte, bank2: byte): (f: Frame)
    ensures Framed(f, OpLevel, bank1, bank2)
  {
    MakeFrame(OpLevel, bank1, bank2)
  }

  function RequestDescriptorFrame(): (f: Frame)
    ensures Framed(f, OpRequestDescriptor, 0, 0)
    ensures forall i :: 0 <= i < FrameSize && i != 1 ==> f[i] == 0
  {
    MakeFrame(OpRequestDescriptor, 0, 0)
  }

  /** The light command for button `b` in bank `k`, as device.cpp issues it. */
  function Light(columns: byte, b: Button, k: byte, s: byte): Command {
    LightState(LightIndex(columns, b, k), s)
  }

  function Encode(c: Command): (f: Frame)
    ensures |f| == FrameSize && f[0] == 0
    ensures forall i :: 4 <= i < FrameSize ==> f[i] == 0
  {
    match c
    case RequestData => RequestDataFrame()
    case LedState(color, s) => LedStateFrame(color, s)
    case Period(p) => PeriodFrame(p)
    case LightState(index, s) => MakeFrame(OpLightState, index, s)
    case LightOn(k, rs) => LightOnFrame(k, rs)
    case LedsOn(colors) => LedsOnFrame(colors)
    case Level(b1, b2) => LevelFrame(b1, b2)
    case RequestDescriptor => RequestDescriptorFrame()
  }

  /** Reads a frame back into the command it encodes; `None` for a frame of
      the wrong length, a non-zero byte 0 or padding, an unknown opcode, or
      a payload byte that the opcode leaves unused but is set. */
  function Decode(f: Frame): (r: Option<Command>)
  {
    if |f| != FrameSize || f[0] != 0 || exists i :: 4 <= i < FrameSize && f[i] != 0 then None
    else
      var op, a, b := f[1], f[2], f[3];
      if op == OpRequestData then (if a == 0 && b == 0 then Some(RequestData) else None)
      else if op == OpLedState then Some(LedState(a, b))
      else if op == OpPeriod then (if b == 0 then Some(Period(a)) else None)
      else if op == OpLightState then Some(LightState(a, b))
      else if op == OpLightOn then Some(LightOn(a, b))
      else if op == OpLedsOn then (if b == 0 then Some(LedsOn(a)) else None)
      else if op == OpLevel then Some(Level(a, b))
      else if op == OpRequestDescriptor then (if a == 0 && b == 0 then Some(RequestDescriptor) else None)
      else None
  }

  /** The opcode of the command a frame carries. */
  function Opcode(c: Command): byte {
    Encode(c)[1]
  }

  /** The eight opcodes are pairwise distinct, so byte 1 alone identifies
      the command. */
  lemma OpcodesDistinct(c: Command, d: Command)
    ensures Opcode(c) == Opcode(d) <==>
      (&& c.RequestData? == d.RequestData? && c.LedState? == d.LedState?
       && c.Period? == d.Period? && c.LightState? == d.LightState? && c.LightOn? == d.LightOn?
       && c.LedsOn? == d.LedsOn? && c.Level? == d.Level? && c.RequestDescriptor? == d.RequestDescriptor?)
  {
  }

  lemma DecodeEncode(c: Command)
    ensures Decode(Encode(c)) == Some(c)
  {
    var f := Encode(c);
    assert !exists i :: 4 <= i < FrameSize && f[i] != 0;
  }

  lemma EncodeDecode(f: Frame)
    ensures Decode(f).Some? ==> Encode(Decode(f).value) == f
  {
    if Decode(f).Some? {
      var c := Decode(f).value;
      assert Framed(f, f[1], f[2], f[3]);
      FramedUnique(f, f[1], f[2], f[3]);
      FramedUnique(Encode(c), f[1], f[2], f[3]);
    }
  }

  /** Distinct commands have distinct frames. */
  lemma EncodeInjective(c: Command, d: Command)
    ensures Encode(c) == Encode(d) <==> c == d
  {
    DecodeEncode(c);
    DecodeEncode(d);
  }

  /** The overloads device.cpp calls write the frames of the encoders
      types.cpp defines: `set(fd, led::color, state)` is `led_state`,
      `set(fd, columns, button, bank, state)` is `light_state`,
      `set_on(fd, bank, rows)` is `light_on` and `set_on(fd, leds::color)`
      is `leds_on`. */
  lemma OverloadsEncode(columns: byte, b: Button, k: byte, x: byte, y: byte)
    ensures Encode(LedState(x, y)) == LedStateFrame(x, y)
    ensures Encode(Light(columns, b, k, y)) == LightStateFrame(columns, b, k, y)
    ensures Encode(LightOn(x, y)) == LightOnFrame(x, y)
    ensures Encode(LedsOn(x)) == LedsOnFrame(x)
    ensures Encode(Period(x)) == PeriodFrame(x) && Encode(Level(x, y)) == LevelFrame(x, y)
    ensures Encode(RequestData) == RequestDataFrame() && Encode(RequestDescriptor) == RequestDescriptorFrame()
  {
  }

  /** The frames written for a list of commands, one 36-byte frame each,
      in the same order. */
  function EncodeAll(cs: seq<Command>): (fs: seq<Frame>)
    ensures |fs| == |cs|
    ensures forall i :: 0 <= i < |cs| ==> Decode(fs[i]) == Some(cs[i])
    decreases |cs|
  {
    if cs == [] then []
    else
      DecodeEncode(cs[0]);
      [Encode(cs[0])] + EncodeAll(cs[1..])
  }

  /** The frames on the wire determine the commands that were sent. */
  lemma EncodeAllInjective(cs: seq<Command>, ds: seq<Command>)
    ensures EncodeAll(cs) == EncodeAll(ds) <==> cs == ds
  {
    if EncodeAll(cs) == EncodeAll(ds) {
      var fs := EncodeAll(cs);
      assert forall i :: 0 <= i < |cs| ==> Some(cs[i]) == Decode(fs[i]) == Some(ds[i]);
    }
  }

  /** The payload bytes of `led_state`, `period`, `light_on`, `leds_on` and
      `level` frames are the arguments given. */
  lemma PayloadRoundTrip(x: byte, y: byte)
    ensures Decode(LedStateFrame(x, y)) == Some(LedState(x, y))
    ensures Decode(PeriodFrame(x)) == Some(Period(x))
    ensures Decode(LightOnFrame(x, y)) == Some(LightOn(x, y))
    ensures Decode(LedsOnFrame(x)) == Some(LedsOn(x))
    ensures Decode(LevelFrame(x, y)) == Some(Level(x, y))
  {
    DecodeEncode(LedState(x, y));
    DecodeEncode(Period(x));
    DecodeEncode(LightOn(x, y));
    DecodeEncode(LedsOn(x));
    DecodeEncode(Level(x, y));
  }

  /** With at most 16 columns and a matrix index `b`, the light index does
      not wrap: bank 1 addresses `b` and bank 2 addresses `b + columns*8`,
      two different cells. */
  lemma LightIndexNoWrap(columns: byte, b: Button)
    requires 1 <= columns <= 16
    requires 0 <= b < columns * 8
    ensures LightIndex(columns, b, Bank1) == b
    ensures LightIndex(columns, b, Bank2) == b + columns * 8
    ensures LightIndex(columns, b, Bank1) != LightIndex(columns, b, Bank2)
  {
  }

  /** Within one bank and at most 16 columns, distinct matrix buttons light
      distinct cells, and bank-1 and bank-2 cells never coincide. */
  lemma LightIndexInjective(columns: byte, b1: Button, k1: byte, b2: Button, k2: byte)
    requires 1 <= columns <= 16
    requires 0 <= b1 < columns * 8 && 0 <= b2 < columns * 8
    requires k1 <= 1 && k2 <= 1
    ensures LightIndex(columns, b1, k1) == LightIndex(columns, b2, k2) <==> b1 == b2 && k1 == k2
  {
    LightIndexNoWrap(columns, b1);
    LightIndexNoWrap(columns, b2);
    assert LightIndex(columns, b1, k1) == b1 + k1 * (columns * 8) by {
      if k1 == 0 { assert k1 == Bank1; } else { assert k1 == Bank2; }
    }
    assert LightIndex(columns, b2, k2) == b2 + k2 * (columns * 8) by {
      if k2 == 0 { assert k2 == Bank1; } else { assert k2 == Bank2; }
    }
  }
}
