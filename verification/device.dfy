/** The device channel and button state machine (pie/device.cpp): the
    handshake a new device performs, the descriptor check, and one
    invocation of the read handler as a pure step from a button state and a
    filled receive buffer to the next state and the commands written. */
module Device {
  import opened Types
  import opened Wrappers
  import opened Commands
  import opened Settings

  datatype Error = ShortRead(what: string)

  /** What the device keeps from its descriptor. */
  datatype Info = Info(uid: byte, columns: byte, rows: byte)

  /** `locked_`, `pending_` and `pressed_`. */
  datatype ButtonState = ButtonState(locked: bool, pending: Button, pressed: set<Button>)

  /** The initial values of the three members. */
  const Fresh: ButtonState := ButtonState(false, NoButton, {})

  /** A new device holds nothing pressed, nothing pending and is unlocked,
      which satisfies the pending-button invariant for any configuration. */
  lemma FreshState(cfg: Config)
    ensures !Fresh.locked && Fresh.pending == NoButton && Fresh.pressed == {}
    ensures PendingOk(cfg, Fresh)
  {
  }

  /** State together with the commands written while reaching it. */
  datatype Emitted = Emitted(state: ButtonState, sent: seq<Command>)

  //////////////////////////////////////////////////////////////////////
  // Construction

  /** Commands written after the descriptor has been read: all status LEDs
      off, bank 1 fully lit, bank 2 dark, full brightness, blink period 10,
      then start streaming. */
  const Setup: seq<Command> := [
    LedsOn(LedsNone), LightOn(Bank1, AllRows), LightOn(Bank2, NoRows),
    Level(255, 255), Period(10), RequestData]

  datatype Opening = Opening(sent: seq<Command>, device: Result<Info, Error>)

  /** `read_descriptor`: the reply must hold at least a whole
      `descriptor_data`. */
  function ReadDescriptor(reply: seq<byte>): (r: Result<Info, Error>)
    ensures r.Failure? <==> |reply| < DescriptorSize
    ensures r.Success? ==> r.value.uid == reply[0] && r.value.columns == reply[7] && r.value.rows == reply[8]
  {
    if |reply| < DescriptorSize then Failure(ShortRead("descriptor_data"))
    else
      var d := DecodeDescriptor(reply);
      Success(Info(d.uid, d.columns, d.rows))
  }

  /** The constructor after the device file is open: request the
      descriptor, read it (`reply` is what the read returned, at most one
      buffer), then configure the lights and start streaming. A short reply
      aborts construction after the request has been written. */
  function Open(reply: seq<byte>): (r: Opening)
    requires |reply| <= BufferSize
    ensures |r.sent| >= 1 && r.sent[0] == RequestDescriptor
    ensures r.device.Failure? <==> |reply| < DescriptorSize
    ensures r.device.Failure? ==> r.sent == [RequestDescriptor]
    ensures r.device.Success? ==> r.sent == [RequestDescriptor] + Setup
    ensures r.device.Success? ==> r.device.value.columns == reply[7] && r.device.value.rows == reply[8]
  {
    match ReadDescriptor(reply)
    case Failure(e) => Opening([RequestDescriptor], Failure(e))
    case Success(info) => Opening([RequestDescriptor] + Setup, Success(info))
  }

  /** The opcodes a successful handshake writes, in order. */
  lemma HandshakeOpcodes(reply: seq<byte>)
    requires DescriptorSize <= |reply| <= BufferSize
    ensures var s := Open(reply).sent;
      |s| == 7 &&
      [Opcode(s[0]), Opcode(s[1]), Opcode(s[2]), Opcode(s[3]), Opcode(s[4]), Opcode(s[5]), Opcode(s[6])]
      == [OpRequestDescriptor, OpLedsOn, OpLightOn, OpLightOn, OpLevel, OpPeriod, OpRequestData]
    ensures var s := Open(reply).sent;
      |s| == 7 && s[1].colors == LedsNone && s[2] == LightOn(Bank1, AllRows) && s[3] == LightOn(Bank2, NoRows)
      && s[4] == Level(255, 255) && s[5] == Period(10)
  {
    var s := Open(reply).sent;
    assert s == [RequestDescriptor] + Setup;
    assert s[1..] == Setup;
  }

  //////////////////////////////////////////////////////////////////////
  // decode_buttons

  /** The receive buffer can hold every column byte the device reports:
      column `c` is read at byte 2 + c of the 42-byte buffer. */
  predicate ColumnsFit(info: Info) {
    2 + info.columns <= BufferSize
  }

  /** Row bit `row` of column `col` in the telemetry buffer. */
  predicate Held(buf: seq<byte>, col: nat, row: nat)
    requires 2 + col < |buf|
  {
    Bit(buf[2 + col], row)
  }

  /** Flat index of a (column, row) position: each column spans eight
      index values, whatever the row count. */
  function IndexOf(col: nat, row: nat): Button {
    BitsPerColumn * col + row
  }

  /** Scanned positions strictly before (`col`, `row`) in column-major
      order whose bit is set (`set` true) or clear, and whose index is
      respectively absent from or present in `pressed`. */
  function EdgesBefore(info: Info, s: ButtonState, buf: seq<byte>, col: nat, row: nat, set_: bool): set<Button>
    requires |buf| == BufferSize && ColumnsFit(info)
  {
    set c: nat, r: nat | c < info.columns && r < info.rows && (c < col || (c == col && r < row))
      && Held(buf, c, r) == set_ && (if set_ then !s.locked && IndexOf(c, r) !in s.pressed else IndexOf(c, r) in s.pressed)
      :: IndexOf(c, r)
  }

  /** Indices newly pressed in this frame: bit set, not locked, and not
      already logically pressed. */
  function PressEdges(info: Info, s: ButtonState, buf: seq<byte>): set<Button>
    requires |buf| == BufferSize && ColumnsFit(info)
  {
    EdgesBefore(info, s, buf, info.columns, 0, true)
  }

  /** Indices released in this frame: bit clear and logically pressed. */
  function ReleaseEdges(info: Info, s: ButtonState, buf: seq<byte>): set<Button>
    requires |buf| == BufferSize && ColumnsFit(info)
  {
    EdgesBefore(info, s, buf, info.columns, 0, false)
  }

  lemma DivStep(x: nat, p: nat)
    requires p >= 1
    ensures (x / p) / 2 == x / (2 * p)
  {
    var q := x / p;
    var m := x % p;
    assert x == q * p + m;
    var q2 := q / 2;
    assert q == 2 * q2 + q % 2;
    assert x == q2 * (2 * p) + ((q % 2) * p + m);
    assert 0 <= (q % 2) * p + m < 2 * p;
    DivUnique(x, 2 * p, q2, (q % 2) * p + m);
  }

  lemma DivUnique(x: nat, d: nat, q: nat, m: nat)
    requires d >= 1 && 0 <= m < d && x == q * d + m
    ensures x / d == q
  {
    var t := x / d - q;
    assert t * d == m - x % d;
    MulBound(t, d);
  }

  lemma MulBound(t: int, d: nat)
    requires d >= 1
    ensures t >= 1 ==> t * d >= d
    ensures t <= -1 ==> t * d <= -(d as int)
  {
    if t >= 1 {
      assert t * d == (t - 1) * d + d;
    } else if t <= -1 {
      assert t * d == (t + 1) * d - d;
    }
  }

  lemma EdgesStepRow(info: Info, s: ButtonState, buf: seq<byte>, col: nat, row: nat, set_: bool)
    requires |buf| == BufferSize && ColumnsFit(info)
    requires col < info.columns && row < info.rows
    ensures EdgesBefore(info, s, buf, col, row + 1, set_)
      == EdgesBefore(info, s, buf, col, row, set_)
         + (if Held(buf, col, row) == set_
               && (if set_ then !s.locked && IndexOf(col, row) !in s.pressed else IndexOf(col, row) in s.pressed)
            then {IndexOf(col, row)} else {})
  {
  }

  lemma EdgesStepColumn(info: Info, s: ButtonState, buf: seq<byte>, col: nat, set_: bool)
    requires |buf| == BufferSize && ColumnsFit(info)
    requires col < info.columns
    ensures EdgesBefore(info, s, buf, col + 1, 0, set_) == EdgesBefore(info, s, buf, col, info.rows, set_)
  {
    var a := EdgesBefore(info, s, buf, col + 1, 0, set_);
    var b := EdgesBefore(info, s, buf, col, info.rows, set_);
    forall x | x in a ensures x in b {
      var c: nat, r: nat :| c < info.columns && r < info.rows && (c < col + 1 || (c == col + 1 && r < 0))
        && Held(buf, c, r) == set_ && (if set_ then !s.locked && IndexOf(c, r) !in s.pressed else IndexOf(c, r) in s.pressed)
        && x == IndexOf(c, r);
      assert c < col || (c == col && r < info.rows);
    }
    forall x | x in b ensures x in a {
      var c: nat, r: nat :| c < info.columns && r < info.rows && (c < col || (c == col && r < info.rows))
        && Held(buf, c, r) == set_ && (if set_ then !s.locked && IndexOf(c, r) !in s.pressed else IndexOf(c, r) in s.pressed)
        && x == IndexOf(c, r);
      assert c < col + 1;
    }
  }

  /** `decode_buttons`: scan each column's low `rows` bits, least
      significant first, classifying each index against `pressed_`. */
  method DecodeButtons(info: Info, s: ButtonState, buf: seq<byte>) returns (press: set<Button>, release: set<Button>)
    requires |buf| == BufferSize && ColumnsFit(info)
    ensures press == PressEdges(info, s, buf)
    ensures release == ReleaseEdges(info, s, buf)
  {
    press, release := {}, {};
    var b: Button := 0;
    var col: nat := 0;
    while col < info.columns
      invariant col <= info.columns
      invariant b == IndexOf(col, 0)
      invariant press == EdgesBefore(info, s, buf, col, 0, true)
      invariant release == EdgesBefore(info, s, buf, col, 0, false)
    {
      var on: nat := buf[2 + col];
      var row: nat := 0;
      while row < info.rows
        invariant row <= info.rows
        invariant b == IndexOf(col, row)
        invariant on == buf[2 + col] / Pow2(row)
        invariant press == EdgesBefore(info, s, buf, col, row, true)
        invariant release == EdgesBefore(info, s, buf, col, row, false)
      {
        EdgesStepRow(info, s, buf, col, row, true);
        EdgesStepRow(info, s, buf, col, row, false);
        if on % 2 == 1 {
          if !s.locked && b !in s.pressed {
            press := press + {b};
          }
        } else if b in s.pressed {
          release := release + {b};
        }
        DivStep(buf[2 + col], Pow2(row));
        on := on / 2;
        b := b + 1;
        row := row + 1;
      }
      b := b + BitsPerColumn - info.rows;
      EdgesStepColumn(info, s, buf, col, true);
      EdgesStepColumn(info, s, buf, col, false);
      col := col + 1;
    }
  }

  /** Matrix positions live below this bound. */
  function Bound(info: Info): nat {
    BitsPerColumn * info.columns + info.rows
  }

  /** Elements of `s` in [lo, hi), in ascending order: the iteration order
      of a `std::set<int>`. */
  function Ascending(s: set<Button>, lo: int, hi: int): (r: seq<Button>)
    ensures forall i :: 0 <= i < |r| ==> r[i] in s && lo <= r[i] < hi
    ensures forall x :: x in s && lo <= x < hi ==> x in r
    decreases hi - lo
  {
    if lo >= hi then []
    else (if lo in s then [lo] else []) + Ascending(s, lo + 1, hi)
  }

  predicate Increasing(q: seq<Button>) {
    forall i, j :: 0 <= i < j < |q| ==> q[i] < q[j]
  }

  lemma IncreasingCons(x: Button, q: seq<Button>)
    requires Increasing(q)
    requires forall k :: 0 <= k < |q| ==> x < q[k]
    ensures Increasing([x] + q)
  {
    var r := [x] + q;
    forall i, j | 0 <= i < j < |r|
      ensures r[i] < r[j]
    {
      assert r[j] == q[j - 1];
      if i > 0 {
        assert r[i] == q[i - 1];
      }
    }
  }

  /** The enumeration is strictly increasing, so it lists no element twice. */
  lemma {:induction false} AscendingSorted(s: set<Button>, lo: int, hi: int)
    ensures Increasing(Ascending(s, lo, hi))
    decreases hi - lo
  {
    if lo < hi {
      AscendingSorted(s, lo + 1, hi);
      var rest := Ascending(s, lo + 1, hi);
      if lo in s {
        IncreasingCons(lo, rest);
        assert Ascending(s, lo, hi) == [lo] + rest;
      } else {
        assert Ascending(s, lo, hi) == [] + rest == rest;
      }
    }
  }

  lemma HeadInSet(q: seq<Button>)
    ensures q != [] ==> q[0] in set x | x in q
  {
  }

  /** Enumerating a set that lies within [lo, hi) lists all of it. */
  lemma AscendingAll(s: set<Button>, lo: int, hi: int)
    requires forall x :: x in s ==> lo <= x < hi
    ensures (set x | x in Ascending(s, lo, hi)) == s
  {
  }

  lemma EdgesInBounds(info: Info, s: ButtonState, buf: seq<byte>, set_: bool)
    requires |buf| == BufferSize && ColumnsFit(info)
    ensures forall x :: x in EdgesBefore(info, s, buf, info.columns, 0, set_) ==> 0 <= x < Bound(info)
  {
  }

  //////////////////////////////////////////////////////////////////////
  // toggle_locked and the status button

  /** `toggle_locked`: flip the lock and repaint both banks, bank 1 dark
      and bank 2 lit while locked, the reverse otherwise. */
  function ToggleLocked(locked: bool): (r: (bool, seq<Command>))
    ensures r.0 == !locked
    ensures |r.1| == 2 && r.1[0].LightOn? && r.1[1].LightOn?
    ensures r.1[0].bank == Bank1 && r.1[1].bank == Bank2
    ensures {r.1[0].rows, r.1[1].rows} == {AllRows, NoRows}
    ensures r.1[1].rows == AllRows <==> r.0
  {
    var l := !locked;
    (l, [LightOn(Bank1, if l then NoRows else AllRows), LightOn(Bank2, if l then AllRows else NoRows)])
  }

  /** Two toggles restore the lock flag, and the second repaints every
      bank with the opposite row mask of the first, so the banks end as
      they were before the first toggle: bank 2 lit exactly when locked. */
  lemma ToggleTwice(locked: bool)
    ensures var (l1, first) := ToggleLocked(locked);
      var (l2, second) := ToggleLocked(l1);
      && l2 == locked
      && first[0].rows != second[0].rows && first[1].rows != second[1].rows
      && second == [LightOn(Bank1, if locked then NoRows else AllRows),
                    LightOn(Bank2, if locked then AllRows else NoRows)]
  {
  }

  /** The status-button part of `read_data`: a set status bit marks `ps`
      pressed and lights the red LED once; a clear bit while `ps` is
      pressed releases it, turns the red LED off and toggles the lock. */
  function StatusEdge(s: ButtonState, psBit: bool): (r: Emitted)
    ensures psBit ==> Ps in r.state.pressed
    ensures !psBit ==> Ps !in r.state.pressed
    ensures r.state.pressed - {Ps} == s.pressed - {Ps}
    ensures r.state.pending == s.pending
    ensures r.state.locked != s.locked <==> !psBit && Ps in s.pressed
    ensures psBit && Ps !in s.pressed ==> r.sent == [LedState(LedRed, On)]
    ensures !psBit && Ps in s.pressed ==>
      |r.sent| == 3 && r.sent[0] == LedState(LedRed, Off) && r.sent[1..] == ToggleLocked(s.locked).1
    ensures (psBit == (Ps in s.pressed)) ==> r.sent == [] && r.state == s
  {
    if psBit then
      if Ps !in s.pressed then Emitted(s.(pressed := s.pressed + {Ps}), [LedState(LedRed, On)])
      else Emitted(s, [])
    else if Ps in s.pressed then
      var (l, cmds) := ToggleLocked(s.locked);
      Emitted(s.(pressed := s.pressed - {Ps}, locked := l), [LedState(LedRed, Off)] + cmds)
    else Emitted(s, [])
  }

  /** Pressing and releasing the status button twice, from released,
      leaves `ps` released and the lock as it was; each release writes the
      red LED off and one bank repaint. */
  lemma StatusTwoCycles(s: ButtonState)
    requires Ps !in s.pressed
    ensures var e1 := StatusEdge(s, true);
      var e2 := StatusEdge(e1.state, false);
      var e3 := StatusEdge(e2.state, true);
      var e4 := StatusEdge(e3.state, false);
      && e4.state == s
      && e2.state.locked == !s.locked
      && e1.sent == [LedState(LedRed, On)] && e3.sent == [LedState(LedRed, On)]
      && e2.sent == [LedState(LedRed, Off)] + ToggleLocked(s.locked).1
      && e4.sent == [LedState(LedRed, Off)] + ToggleLocked(!s.locked).1
  {
    var e1 := StatusEdge(s, true);
    assert e1.state.pressed == s.pressed + {Ps};
    var e2 := StatusEdge(e1.state, false);
    assert e2.state.pressed == s.pressed;
    var e3 := StatusEdge(e2.state, true);
    var e4 := StatusEdge(e3.state, false);
    assert e4.state.pressed == s.pressed;
  }

  //////////////////////////////////////////////////////////////////////
  // The press and release loops of read_data

  /** One iteration of the press loop. A different button pressed while
      one is pending first restores the pending one and clears it. Then a
      button that is not double-press, or is the pending one, is pressed
      (bank 1 off, bank 2 on); any other becomes pending with bank 2
      flashing. */
  function PressOne(cfg: Config, columns: byte, s: ButtonState, b: Button): (r: Emitted)
    requires 0 <= b
    ensures r.state.locked == s.locked
    ensures var cancels := s.pending != NoButton && b != s.pending;
      var admitted := b == s.pending || b !in cfg.doublePress;
      && (cancels ==> |r.sent| == 4 && r.sent[..2] == [Light(columns, s.pending, Bank1, On), Light(columns, s.pending, Bank2, Off)])
      && (!cancels ==> |r.sent| == 2)
      && r.sent[|r.sent| - 2] == Light(columns, b, Bank1, Off)
      && (admitted ==> r.state.pressed == s.pressed + {b} && r.state.pending == NoButton
                       && r.sent[|r.sent| - 1] == Light(columns, b, Bank2, On))
      && (!admitted ==> r.state.pressed == s.pressed && r.state.pending == b
                        && r.sent[|r.sent| - 1] == Light(columns, b, Bank2, Flash))
  {
    var (s1, restore) :=
      if b != s.pending && s.pending != NoButton then
        (s.(pending := NoButton), [Light(columns, s.pending, Bank1, On), Light(columns, s.pending, Bank2, Off)])
      else (s, []);
    if b == s1.pending || b !in cfg.doublePress then
      Emitted(s1.(pressed := s1.pressed + {b}, pending := NoButton),
              restore + [Light(columns, b, Bank1, Off), Light(columns, b, Bank2, On)])
    else
      Emitted(s1.(pending := b), restore + [Light(columns, b, Bank1, Off), Light(columns, b, Bank2, Flash)])
  }

  /** The pending-button invariant: nothing pending, or a non-negative
      double-press button that is not (yet) logically pressed. */
  predicate PendingOk(cfg: Config, s: ButtonState) {
    s.pending == NoButton || (0 <= s.pending && s.pending in cfg.doublePress && s.pending !in s.pressed)
  }

  /** `bs` lists distinct new press edges, none of them already pressed. */
  predicate FreshEdges(s: ButtonState, bs: seq<Button>) {
    && (forall i :: 0 <= i < |bs| ==> 0 <= bs[i] && bs[i] !in s.pressed)
    && (forall i, j :: 0 <= i < j < |bs| ==> bs[i] != bs[j])
  }

  /** The whole press loop, in the order given. */
  function PressAll(cfg: Config, columns: byte, s: ButtonState, bs: seq<Button>): (r: Emitted)
    requires forall i :: 0 <= i < |bs| ==> 0 <= bs[i]
    ensures r.state.locked == s.locked
    ensures s.pressed <= r.state.pressed <= s.pressed + set x | x in bs
    ensures PendingOk(cfg, s) && FreshEdges(s, bs) ==> PendingOk(cfg, r.state)
    ensures r.state.pending == s.pending || r.state.pending == NoButton || r.state.pending in bs
    decreases |bs|
  {
    if |bs| == 0 then Emitted(s, [])
    else
      var e := PressOne(cfg, columns, s, bs[0]);
      var rest := PressAll(cfg, columns, e.state, bs[1..]);
      assert (set x | x in bs) == {bs[0]} + set x | x in bs[1..];
      FreshStep(cfg, columns, s, bs);
      Emitted(rest.state, e.sent + rest.sent)
  }

  /** Pressing the first of fresh edges leaves the rest fresh. */
  lemma FreshStep(cfg: Config, columns: byte, s: ButtonState, bs: seq<Button>)
    requires |bs| > 0 && 0 <= bs[0]
    ensures FreshEdges(s, bs) ==> FreshEdges(PressOne(cfg, columns, s, bs[0]).state, bs[1..])
  {
    if FreshEdges(s, bs) {
      var t := PressOne(cfg, columns, s, bs[0]).state;
      assert t.pressed <= s.pressed + {bs[0]};
      forall i | 0 <= i < |bs[1..]|
        ensures 0 <= bs[1..][i] && bs[1..][i] !in t.pressed
      {
        assert bs[1..][i] == bs[i + 1] != bs[0];
      }
    }
  }

  /** The whole release loop: each released button is erased from
      `pressed_`, and its lights are restored to idle only while unlocked. */
  function ReleaseAll(columns: byte, s: ButtonState, bs: seq<Button>): (r: Emitted)
    ensures r.state == s.(pressed := s.pressed - set x | x in bs)
    ensures s.locked ==> r.sent == []
    ensures !s.locked ==> |r.sent| == 2 * |bs|
    ensures !s.locked ==> forall k :: 0 <= k < |bs| ==>
      r.sent[2 * k] == Light(columns, bs[k], Bank1, On) && r.sent[2 * k + 1] == Light(columns, bs[k], Bank2, Off)
    decreases |bs|
  {
    if |bs| == 0 then Emitted(s, [])
    else
      var cmds := if !s.locked then [Light(columns, bs[0], Bank1, On), Light(columns, bs[0], Bank2, Off)] else [];
      var rest := ReleaseAll(columns, s.(pressed := s.pressed - {bs[0]}), bs[1..]);
      assert (set x | x in bs) == {bs[0]} + set x | x in bs[1..];
      Emitted(rest.state, cmds + rest.sent)
  }

  //////////////////////////////////////////////////////////////////////
  // read_data

  /** How the asynchronous read completed: with an error code, or with a
      byte count. */
  datatype ReadStatus = Failed(code: int) | Completed(count: nat)

  /** The state after the handler, the commands it wrote, and whether it
      scheduled the next read. */
  datatype StepOutcome = StepOutcome(state: ButtonState, sent: seq<Command>, rescheduled: bool)

  /** The status-button stage of a completed read: `locked_` and `ps` as
      the matrix scan sees them. */
  function AfterStatus(s: ButtonState, buf: seq<byte>): Emitted
    requires |buf| == BufferSize
  {
    StatusEdge(s, DecodeGeneral(buf).ps)
  }

  /** The two edge sets are disjoint; new presses are never already
      pressed, releases always are, and there are no presses while
      locked. Every index is 8*col + row for a scanned position. */
  lemma EdgeSetsShape(info: Info, s: ButtonState, buf: seq<byte>)
    requires |buf| == BufferSize && ColumnsFit(info)
    ensures PressEdges(info, s, buf) !! ReleaseEdges(info, s, buf)
    ensures PressEdges(info, s, buf) !! s.pressed
    ensures ReleaseEdges(info, s, buf) <= s.pressed
    ensures s.locked ==> PressEdges(info, s, buf) == {}
    ensures forall x :: x in PressEdges(info, s, buf) + ReleaseEdges(info, s, buf) ==>
      exists c: nat, r: nat :: c < info.columns && r < info.rows && x == IndexOf(c, r)
  {
  }

  lemma AscendingNone(s: set<Button>, lo: int, hi: int)
    requires forall x :: x in s ==> x < lo
    ensures Ascending(s, lo, hi) == []
    decreases hi - lo
  {
    if lo < hi {
      AscendingNone(s, lo + 1, hi);
    }
  }

  /** The matrix part of `read_data`: decode the edges against the state
      the status button left, run the press loop, then the release loop,
      each in ascending index order. Negative indices (`ps`) are never
      touched; released buttons leave `pressed_`; only new presses enter
      it; nothing is pressed or pended while locked. */
  function MatrixStep(info: Info, cfg: Config, s: ButtonState, buf: seq<byte>): (r: Emitted)
    requires |buf| == BufferSize && ColumnsFit(info)
    ensures r.state.locked == s.locked
    ensures forall x :: x < 0 ==> (x in r.state.pressed <==> x in s.pressed)
    ensures s.pressed - ReleaseEdges(info, s, buf) <= r.state.pressed
    ensures r.state.pressed <= (s.pressed + PressEdges(info, s, buf)) - ReleaseEdges(info, s, buf)
    ensures PendingOk(cfg, s) ==> PendingOk(cfg, r.state)
    ensures s.locked ==> r.state.pressed == s.pressed - ReleaseEdges(info, s, buf) && r.state.pending == s.pending
  {
    EdgesInBounds(info, s, buf, true);
    EdgesInBounds(info, s, buf, false);
    var press := Ascending(PressEdges(info, s, buf), 0, Bound(info));
    var release := Ascending(ReleaseEdges(info, s, buf), 0, Bound(info));
    AscendingAll(PressEdges(info, s, buf), 0, Bound(info));
    AscendingAll(ReleaseEdges(info, s, buf), 0, Bound(info));
    AscendingSorted(PressEdges(info, s, buf), 0, Bound(info));
    var p := PressAll(cfg, info.columns, s, press);
    var rl := ReleaseAll(info.columns, p.state, release);
    MatrixStepFacts(info, cfg, s, buf, press, release, p.state, rl.state);
    Emitted(rl.state, p.sent + rl.sent)
  }

  lemma MatrixStepFacts(info: Info, cfg: Config, s: ButtonState, buf: seq<byte>,
                        press: seq<Button>, release: seq<Button>, p: ButtonState, rl: ButtonState)
    requires |buf| == BufferSize && ColumnsFit(info)
    requires (set x | x in press) == PressEdges(info, s, buf)
    requires (set x | x in release) == ReleaseEdges(info, s, buf)
    requires forall i :: 0 <= i < |press| ==> 0 <= press[i]
    requires forall i, j :: 0 <= i < j < |press| ==> press[i] < press[j]
    requires p == PressAll(cfg, info.columns, s, press).state
    requires rl == p.(pressed := p.pressed - set x | x in release)
    ensures rl.locked == s.locked
    ensures forall x :: x < 0 ==> (x in rl.pressed <==> x in s.pressed)
    ensures s.pressed - ReleaseEdges(info, s, buf) <= rl.pressed
    ensures rl.pressed <= (s.pressed + PressEdges(info, s, buf)) - ReleaseEdges(info, s, buf)
    ensures PendingOk(cfg, s) ==> PendingOk(cfg, rl)
    ensures s.locked ==> rl.pressed == s.pressed - ReleaseEdges(info, s, buf) && rl.pending == s.pending
  {
    EdgeSetsShape(info, s, buf);
    assert FreshEdges(s, press);
    HeadInSet(press);
  }

  /** `read_data`: `buf` is the whole receive buffer after the read (bytes
      past `count` still hold whatever an earlier read left there). */
  function ReadData(info: Info, cfg: Config, s: ButtonState, status: ReadStatus, buf: seq<byte>): (r: Result<StepOutcome, Error>)
    requires |buf| == BufferSize && ColumnsFit(info)
    ensures status.Failed? ==> r == Success(StepOutcome(s, [], false))
    ensures status.Completed? ==> (r.Failure? <==> status.count < GeneralSize)
    ensures r.Success? && status.Completed? ==> r.value.rescheduled
  {
    match status
    case Failed(_) => Success(StepOutcome(s, [], false))
    case Completed(n) =>
      if n < GeneralSize then Failure(ShortRead("general_data"))
      else
        var st := AfterStatus(s, buf);
        var m := MatrixStep(info, cfg, st.state, buf);
        Success(StepOutcome(m.state, st.sent + m.sent, true))
  }
}
