/** Properties of one read-handler step (pie/device.cpp) relating the edge
    sets, the status button, the pending double-press button and the
    logical pressed set. */
module DeviceLemmas {
  import opened Types
  import opened Wrappers
  import opened Commands
  import opened Settings
  import opened Device

  /** `x` addresses a real matrix cell: a column the device has and one of
      its low `rows` bit positions. */
  predicate Matrix(info: Info, x: Button) {
    0 <= x && x / 8 < info.columns && x % 8 < info.rows
  }

  /** The row bit for matrix index `x` is set in the buffer. */
  predicate HeldAt(info: Info, buf: seq<byte>, x: Button)
    requires |buf| == BufferSize && ColumnsFit(info) && Matrix(info, x)
  {
    Held(buf, x / 8, x % 8)
  }

  //////////////////////////////////////////////////////////////////////
  // decode_buttons

  /** With at most eight rows, every index decoded lies in a real matrix
      cell: never in a column's unused high bits. */
  lemma EdgesAreMatrixCells(info: Info, s: ButtonState, buf: seq<byte>, x: Button)
    requires |buf| == BufferSize && ColumnsFit(info) && info.rows <= 8
    requires x in PressEdges(info, s, buf) + ReleaseEdges(info, s, buf)
    ensures Matrix(info, x)
    ensures x == IndexOf(x / 8, x % 8)
  {
    EdgeSetsShape(info, s, buf);
    var c: nat, r: nat :| c < info.columns && r < info.rows && x == IndexOf(c, r);
    DivUnique(x, 8, c, r);
  }

  /** A press edge is exactly a held matrix cell, while unlocked, that is
      not already pressed; this holds for any row count, since bits above
      the eighth are always clear. */
  lemma PressEdgesExactly(info: Info, s: ButtonState, buf: seq<byte>, x: Button)
    requires |buf| == BufferSize && ColumnsFit(info)
    ensures x in PressEdges(info, s, buf) <==>
      Matrix(info, x) && HeldAt(info, buf, x) && !s.locked && x !in s.pressed
  {
    if x in PressEdges(info, s, buf) {
      var c: nat, r: nat :| c < info.columns && r < info.rows && Held(buf, c, r)
        && !s.locked && IndexOf(c, r) !in s.pressed && x == IndexOf(c, r);
      if r >= 8 {
        BitAboveByte(buf[2 + c], r);
      }
      assert x / 8 == c && x % 8 == r;
    }
    if Matrix(info, x) && HeldAt(info, buf, x) && !s.locked && x !in s.pressed {
      var c: nat, r: nat := x / 8, x % 8;
      assert x == IndexOf(c, r);
    }
  }

  /** With at most eight rows, a release edge is exactly a matrix cell
      whose bit is clear and that is logically pressed. */
  lemma ReleaseEdgesExactly(info: Info, s: ButtonState, buf: seq<byte>, x: Button)
    requires |buf| == BufferSize && ColumnsFit(info) && info.rows <= 8
    ensures x in ReleaseEdges(info, s, buf) <==>
      Matrix(info, x) && !HeldAt(info, buf, x) && x in s.pressed
  {
    if x in ReleaseEdges(info, s, buf) {
      var c: nat, r: nat :| c < info.columns && r < info.rows && !Held(buf, c, r)
        && IndexOf(c, r) in s.pressed && x == IndexOf(c, r);
      assert x / 8 == c && x % 8 == r;
    }
    if Matrix(info, x) && !HeldAt(info, buf, x) && x in s.pressed {
      var c: nat, r: nat := x / 8, x % 8;
      assert x == IndexOf(c, r);
    }
  }

  /** For any row count, a pressed matrix cell whose bit is clear is a
      release edge: the scan visits its (column, row) position. */
  lemma ClearCellReleased(info: Info, s: ButtonState, buf: seq<byte>, x: Button)
    requires |buf| == BufferSize && ColumnsFit(info)
    requires Matrix(info, x) && !HeldAt(info, buf, x) && x in s.pressed
    ensures x in ReleaseEdges(info, s, buf)
  {
    var c: nat, r: nat := x / 8, x % 8;
    assert x == IndexOf(c, r);
    assert c < info.columns && r < info.rows && !Held(buf, c, r);
  }

  //////////////////////////////////////////////////////////////////////
  // read_data

  /** The two stages of a completed, long enough read. */
  lemma ReadDataStages(info: Info, cfg: Config, s: ButtonState, n: nat, buf: seq<byte>)
    returns (st: Emitted, m: Emitted)
    requires |buf| == BufferSize && ColumnsFit(info) && n >= GeneralSize
    ensures st == AfterStatus(s, buf)
    ensures m == MatrixStep(info, cfg, st.state, buf)
    ensures ReadData(info, cfg, s, Completed(n), buf) == Success(StepOutcome(m.state, st.sent + m.sent, true))
  {
    st := AfterStatus(s, buf);
    m := MatrixStep(info, cfg, st.state, buf);
  }

  /** The status button, for a completed read: a set bit marks `ps`
      pressed, a clear bit leaves it released; the lock flips exactly when
      the bit is clear and `ps` was pressed, and the first commands written
      are the red LED's. */
  lemma StatusButton(info: Info, cfg: Config, s: ButtonState, n: nat, buf: seq<byte>)
    requires |buf| == BufferSize && ColumnsFit(info) && n >= GeneralSize
    ensures var r := ReadData(info, cfg, s, Completed(n), buf);
      && r.Success?
      && (Bit(buf[1], 0) <==> Ps in r.value.state.pressed)
      && (r.value.state.locked != s.locked <==> !Bit(buf[1], 0) && Ps in s.pressed)
      && (Bit(buf[1], 0) && Ps !in s.pressed ==> r.value.sent[..1] == [LedState(LedRed, On)])
      && (!Bit(buf[1], 0) && Ps in s.pressed ==>
            r.value.sent[..3] == [LedState(LedRed, Off)] + ToggleLocked(s.locked).1)
  {
    var st, m := ReadDataStages(info, cfg, s, n, buf);
    assert DecodeGeneral(buf).ps == Bit(buf[1], 0);
    assert Ps < 0;
    SentPrefix(st.sent, m.sent);
  }

  lemma SentPrefix(a: seq<Command>, b: seq<Command>)
    ensures (a + b)[..|a|] == a
  {
  }

  /** A read that completed with an error code changes nothing, writes
      nothing and schedules no further read; a short read is an error. */
  lemma ReadErrors(info: Info, cfg: Config, s: ButtonState, code: int, n: nat, buf: seq<byte>)
    requires |buf| == BufferSize && ColumnsFit(info)
    ensures ReadData(info, cfg, s, Failed(code), buf) == Success(StepOutcome(s, [], false))
    ensures n < GeneralSize ==> ReadData(info, cfg, s, Completed(n), buf) == Failure(ShortRead("general_data"))
  {
  }

  /** Every step keeps the pending-button invariant. */
  lemma PendingPreserved(info: Info, cfg: Config, s: ButtonState, status: ReadStatus, buf: seq<byte>)
    requires |buf| == BufferSize && ColumnsFit(info)
    requires PendingOk(cfg, s)
    ensures var r := ReadData(info, cfg, s, status, buf);
      r.Success? ==> PendingOk(cfg, r.value.state)
  {
    if status.Completed? && status.count >= GeneralSize {
      var st, m := ReadDataStages(info, cfg, s, status.count, buf);
      assert PendingOk(cfg, st.state);
    }
  }

  /** After a step, no matrix button whose bit is clear remains logically
      pressed, whatever the row count. */
  lemma NoStalePress(info: Info, cfg: Config, s: ButtonState, n: nat, buf: seq<byte>, x: Button)
    requires |buf| == BufferSize && ColumnsFit(info) && n >= GeneralSize
    requires Matrix(info, x) && !HeldAt(info, buf, x)
    ensures x !in ReadData(info, cfg, s, Completed(n), buf).value.state.pressed
  {
    var st, m := ReadDataStages(info, cfg, s, n, buf);
    PressEdgesExactly(info, st.state, buf, x);
    if x in st.state.pressed {
      ClearCellReleased(info, st.state, buf, x);
    }
  }

  /** A held matrix button that was pressed stays pressed. */
  lemma HeldStaysPressed(info: Info, cfg: Config, s: ButtonState, n: nat, buf: seq<byte>, x: Button)
    requires |buf| == BufferSize && ColumnsFit(info) && info.rows <= 8 && n >= GeneralSize
    requires Matrix(info, x) && HeldAt(info, buf, x) && x in s.pressed
    ensures x in ReadData(info, cfg, s, Completed(n), buf).value.state.pressed
  {
    var st, m := ReadDataStages(info, cfg, s, n, buf);
    assert x in st.state.pressed;
    ReleaseEdgesExactly(info, st.state, buf, x);
  }

  /** The ascending enumeration of a one-element set is that element. */
  lemma {:induction false} AscendingSingleton(s: set<Button>, b: Button, lo: int, hi: int)
    requires s == {b} && lo <= b < hi
    ensures Ascending(s, lo, hi) == [b]
    decreases b - lo
  {
    if lo < b {
      AscendingSingleton(s, b, lo + 1, hi);
    } else {
      AscendingNone(s, lo + 1, hi);
    }
  }

  /** When `b` is the only press edge, the matrix stage is one iteration of
      the press loop followed by the release loop. */
  lemma MatrixStepSingle(info: Info, cfg: Config, s: ButtonState, buf: seq<byte>, b: Button)
    requires |buf| == BufferSize && ColumnsFit(info)
    requires PressEdges(info, s, buf) == {b}
    ensures 0 <= b
    ensures var p := PressOne(cfg, info.columns, s, b).state;
      MatrixStep(info, cfg, s, buf).state == p.(pressed := p.pressed - ReleaseEdges(info, s, buf))
  {
    EdgesInBounds(info, s, buf, true);
    EdgesInBounds(info, s, buf, false);
    AscendingSingleton(PressEdges(info, s, buf), b, 0, Bound(info));
    AscendingAll(ReleaseEdges(info, s, buf), 0, Bound(info));
    var e := PressOne(cfg, info.columns, s, b);
    assert PressAll(cfg, info.columns, s, [b]).state == e.state by {
      assert [b][1..] == [];
    }
  }

  /** One step in which `b` is the only new press, no other status change,
      and the device is unlocked: `b` ends up pressed, or pending if it is
      a double-press button that was not already pending. */
  lemma OnlyPress(info: Info, cfg: Config, s: ButtonState, n: nat, buf: seq<byte>, b: Button)
    returns (t: ButtonState)
    requires |buf| == BufferSize && ColumnsFit(info) && info.rows <= 8 && n >= GeneralSize
    requires !Bit(buf[1], 0) && Ps !in s.pressed && !s.locked
    requires Matrix(info, b) && HeldAt(info, buf, b) && b !in s.pressed
    requires forall x :: Matrix(info, x) && HeldAt(info, buf, x) && x != b ==> x in s.pressed
    ensures ReadData(info, cfg, s, Completed(n), buf).Success?
    ensures ReadData(info, cfg, s, Completed(n), buf).value.state == t
    ensures !t.locked && Ps !in t.pressed
    ensures b in cfg.doublePress && s.pending != b ==> t.pending == b && b !in t.pressed
    ensures !(b in cfg.doublePress && s.pending != b) ==> b in t.pressed && t.pending == NoButton
    ensures forall x :: Matrix(info, x) && HeldAt(info, buf, x) && x != b ==> x in t.pressed
  {
    var st, m := ReadDataStages(info, cfg, s, n, buf);
    assert DecodeGeneral(buf).ps == Bit(buf[1], 0);
    assert st.state == s;
    assert PressEdges(info, s, buf) == {b} by {
      forall x ensures x in PressEdges(info, s, buf) <==> x == b {
        PressEdgesExactly(info, s, buf, x);
      }
    }
    MatrixStepSingle(info, cfg, s, buf, b);
    ReleaseEdgesExactly(info, s, buf, b);
    t := m.state;
    forall x | Matrix(info, x) && HeldAt(info, buf, x) && x != b ensures x in t.pressed {
      ReleaseEdgesExactly(info, s, buf, x);
    }
  }

  /** A double-press button held across two unlocked frames, when it is the
      only new press, is pending after the first frame and pressed after
      the second: the second frame reports a press edge for the pending
      button again, and that counts as its second press. */
  lemma DoublePressHeldTwoFrames(info: Info, cfg: Config, s: ButtonState, n1: nat, n2: nat, buf: seq<byte>, b: Button)
    requires |buf| == BufferSize && ColumnsFit(info) && info.rows <= 8
    requires n1 >= GeneralSize && n2 >= GeneralSize
    requires !Bit(buf[1], 0) && Ps !in s.pressed && !s.locked
    requires Matrix(info, b) && HeldAt(info, buf, b) && b !in s.pressed
    requires b in cfg.doublePress && s.pending != b
    requires forall x :: Matrix(info, x) && HeldAt(info, buf, x) && x != b ==> x in s.pressed
    ensures var r1 := ReadData(info, cfg, s, Completed(n1), buf);
      && r1.Success? && r1.value.state.pending == b && b !in r1.value.state.pressed
      && var r2 := ReadData(info, cfg, r1.value.state, Completed(n2), buf);
         r2.Success? && b in r2.value.state.pressed && r2.value.state.pending == NoButton
  {
    var t := OnlyPress(info, cfg, s, n1, buf, b);
    var u := OnlyPress(info, cfg, t, n2, buf, b);
  }
}
