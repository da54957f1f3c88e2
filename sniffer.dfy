/**
 * The sniffer window's protocol state and its two handlers: read_data, which
 * appends arriving bytes to the receive buffer and consumes every complete
 * frame, and update_data, which applies one decoded frame to the shared
 * sensor matrix and the diagnostic table.
 */
module Sniffer {
  import opened Wrappers
  import opened Bytes
  import opened FrameCodec
  import opened Deframer
  import opened Router
  import opened Ledger

  /** IDE value of a standard (11-bit) frame and of an extended (29-bit) frame. */
  const IDE_STANDARD: nat := 0
  const IDE_EXTENDED: nat := 4

  /** The identifier update_data files a message under; None for an unhandled IDE value. */
  function MessageKey(m: RxMsg): (r: Option<nat>)
    ensures r.Some? <==> (m.ide == IDE_STANDARD || m.ide == IDE_EXTENDED)
  {
    if m.ide == IDE_STANDARD then Some(m.stdId)
    else if m.ide == IDE_EXTENDED then Some(m.extId)
    else None
  }

  /** What the handlers change: the sensor matrix and the diagnostic table. */
  datatype View = View(grid: Grid, table: seq<Row>)

  predicate WellFormed(v: View)
  {
    IsGrid(v.grid) && FitsInt16(v.grid) && UniqueIds(v.table)
  }

  /** update_data on the model's state. Matrix routing always uses the standard identifier. */
  function Step(v: View, m: RxMsg): (w: View)
    requires IsGrid(v.grid)
    ensures IsGrid(w.grid)
  {
    match MessageKey(m)
    case None => v
    case Some(key) => View(RouteIntoGrid(v.grid, m.stdId, m.data), Observe(v.table, key, m.dlc, m.data))
  }

  /**
   * The IDE gate: an IDE other than 0 or 4 changes nothing; otherwise the
   * table is keyed by std_id for IDE 0 and ext_id for IDE 4, while the
   * matrix is routed by std_id in both cases.
   */
  lemma StepGate(v: View, m: RxMsg)
    requires IsGrid(v.grid)
    ensures m.ide != IDE_STANDARD && m.ide != IDE_EXTENDED ==> Step(v, m) == v
    ensures m.ide == IDE_STANDARD ==> Step(v, m).table == Observe(v.table, m.stdId, m.dlc, m.data)
    ensures m.ide == IDE_EXTENDED ==> Step(v, m).table == Observe(v.table, m.extId, m.dlc, m.data)
    ensures m.ide == IDE_STANDARD || m.ide == IDE_EXTENDED ==> Step(v, m).grid == RouteIntoGrid(v.grid, m.stdId, m.data)
  {
  }

  /** Every handled message keeps the matrix in int16 range and the table keyed by identifier. */
  lemma StepWellFormed(v: View, m: RxMsg)
    requires WellFormed(v)
    ensures WellFormed(Step(v, m))
  {
    if MessageKey(m).Some? {
      RouteIntoGridFits(v.grid, m.stdId, m.data);
      ObserveKeepsUnique(v.table, MessageKey(m).value, m.dlc, m.data);
    }
  }

  /** update_data applied to each record in turn. */
  function Steps(v: View, records: seq<RxRecord>): (w: View)
    requires IsGrid(v.grid)
    ensures IsGrid(w.grid)
    decreases |records|
  {
    if records == [] then v
    else Steps(Step(v, UnpackRx(records[0])), records[1..])
  }

  /** Handling a sequence of records keeps the state well formed. */
  lemma {:induction false} StepsWellFormed(v: View, records: seq<RxRecord>)
    requires WellFormed(v)
    ensures WellFormed(Steps(v, records))
    decreases |records|
  {
    if records != [] {
      StepWellFormed(v, UnpackRx(records[0]));
      StepsWellFormed(Step(v, UnpackRx(records[0])), records[1..]);
    }
  }

  /** Handling the records of two chunks one after the other is handling them all. */
  lemma {:induction false} StepsAppend(v: View, xs: seq<RxRecord>, ys: seq<RxRecord>)
    requires IsGrid(v.grid)
    ensures Steps(Steps(v, xs), ys) == Steps(v, xs + ys)
    decreases |xs|
  {
    if xs == [] {
      assert xs + ys == ys;
    } else {
      var first := Step(v, UnpackRx(xs[0]));
      assert (xs + ys)[0] == xs[0] && (xs + ys)[1..] == xs[1..] + ys;
      assert Steps(v, xs + ys) == Steps(first, xs[1..] + ys);
      assert Steps(v, xs) == Steps(first, xs[1..]);
      StepsAppend(first, xs[1..], ys);
    }
  }

  /** Handling one more record after a sequence of them. */
  lemma StepsSnoc(v: View, xs: seq<RxRecord>, x: RxRecord)
    requires IsGrid(v.grid)
    ensures Steps(v, xs + [x]) == Step(Steps(v, xs), UnpackRx(x))
  {
    StepsAppend(v, xs, [x]);
    var w := Steps(v, xs);
    assert Steps(w, [x]) == Steps(Step(w, UnpackRx(x)), []);
  }

  /**
   * The record of the end-to-end example: standard identifier 0x710 (sensor
   * FL, offset 0), IDE 0, declared length 8, samples 0, 10, 20, 30 tenths.
   */
  const EXAMPLE_RECORD: RxRecord := [0x10, 0x07, 0, 0, 0, 0, 0, 0, 0, 0, 8, 0, 0, 10, 0, 20, 0, 30, 0, 0]
  const EXAMPLE_PAYLOAD: Payload := [0, 0, 10, 0, 20, 0, 30, 0]

  lemma ExampleDeframes()
    ensures Deframe(RX_MARKER + EXAMPLE_RECORD) == Deframed([EXAMPLE_RECORD], [])
  {
    var frame := RX_MARKER + EXAMPLE_RECORD;
    assert MarkerAt(frame, 0);
    assert FindMarker(frame) == Some(0);
    assert frame[3..23] == EXAMPLE_RECORD && frame[23..] == [];
    DeframeStep(frame);
    assert FindMarker([]) == None;
  }

  lemma ExampleDecodes()
    ensures UnpackRx(EXAMPLE_RECORD) == RxMsg(0x710, 0, 0, 0, 8, EXAMPLE_PAYLOAD, 0)
  {
    var rec := EXAMPLE_RECORD;
    assert rec[0..4] == [0x10, 0x07, 0, 0];
    assert rec[4..8] == [0, 0, 0, 0];
    assert rec[11..19] == EXAMPLE_PAYLOAD;
    assert LeValue([0, 0, 0, 0]) == 0 by {
      assert [0, 0, 0, 0][1..] == [0, 0, 0] && [0, 0, 0][1..] == [0, 0] && [0, 0][1..] == [0];
    }
    assert LeValue([0x10, 0x07, 0, 0]) == 0x710 by {
      assert [0x10, 0x07, 0, 0][1..] == [0x07, 0, 0] && [0x07, 0, 0][1..] == [0, 0] && [0, 0][1..] == [0];
    }
  }

  lemma ExampleRoutes()
    ensures Step(View(ZeroGrid(), []), RxMsg(0x710, 0, 0, 0, 8, EXAMPLE_PAYLOAD, 0)).grid[0][..4] == [0, 1, 2, 3]
  {
    RouteOffset(0, 0);
    assert Samples(EXAMPLE_PAYLOAD) == [0, 1, 2, 3];
  }

  /** Feeding the example frame to a fresh sniffer sets FL's row 0, columns 0..3 to 0, 1, 2, 3. */
  lemma EndToEndExample()
    ensures var d := Deframe(RX_MARKER + EXAMPLE_RECORD);
      && |d.records| == 1 && d.rest == []
      && Steps(View(ZeroGrid(), []), d.records).grid[0][..4] == [0, 1, 2, 3]
  {
    ExampleDeframes();
    ExampleDecodes();
    ExampleRoutes();
    var v := View(ZeroGrid(), []);
    assert Steps(v, [EXAMPLE_RECORD]) == Step(v, UnpackRx(EXAMPLE_RECORD));
  }

  /** Deframing start hands on done and then whatever deframing buf hands on. */
  ghost predicate DeframedSoFar(start: seq<byte>, done: seq<RxRecord>, buf: seq<byte>)
  {
    var d := Deframe(buf);
    Deframe(start) == Deframed(done + d.records, d.rest)
  }

  /** One pass of read_data's loop keeps the deframing invariant: the record taken joins those done. */
  lemma ReadLoopStep(start: seq<byte>, done: seq<RxRecord>, buf: seq<byte>, i: nat)
    requires FindMarker(buf) == Some(i) && i + FRAME_LEN <= |buf|
    requires DeframedSoFar(start, done, buf)
    ensures DeframedSoFar(start, done + [buf[i + 3..i + FRAME_LEN]], buf[i + FRAME_LEN..])
  {
    DeframeStep(buf);
    ShiftRecord(Deframe(start), done, [buf[i + 3..i + FRAME_LEN]], Deframe(buf), Deframe(buf[i + FRAME_LEN..]));
  }

  /** The bookkeeping of ReadLoopStep on plain values: a record moves from the pending part to done. */
  lemma ShiftRecord(whole: Deframed, done: seq<RxRecord>, head: seq<RxRecord>, pending: Deframed, later: Deframed)
    requires whole == Deframed(done + pending.records, pending.rest)
    requires pending.records == head + later.records && pending.rest == later.rest
    ensures whole == Deframed((done + head) + later.records, later.rest)
  {
  }

  /** At the loop's exit the invariant gives read_data's result. */
  lemma ReadLoopDone(start: seq<byte>, done: seq<RxRecord>, buf: seq<byte>)
    requires Stopped(buf)
    requires DeframedSoFar(start, done, buf)
    ensures Deframe(start) == Deframed(done, buf)
  {
    DeframeStopped(buf);
    assert done + [] == done;
  }

  class CanSniffer {
    /** `rcv_buffer`: bytes received but not yet consumed. */
    var rcvBuffer: seq<byte>
    /** `ir_data`: the 4x16 int16 matrix all sensors share. */
    const irData: array2<int>
    /** The diagnostic table's rows, top to bottom. */
    var table: seq<Row>
    /** The matrix as a value. */
    ghost var grid: Grid

    /** The array has the matrix's shape and holds exactly grid. */
    ghost predicate MatrixValid()
      reads this, irData
    {
      && irData.Length0 == ROWS && irData.Length1 == COLS
      && IsGrid(grid)
      && (forall r, c :: 0 <= r < ROWS && 0 <= c < COLS ==> irData[r, c] == grid[r][c])
    }

    ghost predicate Valid()
      reads this, irData
    {
      MatrixValid() && WellFormed(View(grid, table))
    }

    ghost function State(): View
      reads this
    {
      View(grid, table)
    }

    /** A fresh window: empty buffer, zeroed matrix, empty table. */
    constructor ()
      ensures Valid() && fresh(irData)
      ensures rcvBuffer == [] && grid == ZeroGrid() && table == []
    {
      rcvBuffer := [];
      irData := new int[ROWS, COLS]((r, c) => 0);
      table := [];
      grid := ZeroGrid();
    }

    /** `ir_data[row, column:column+4] = values`. */
    method StoreSlice(row: nat, column: nat, values: seq<int>)
      requires MatrixValid()
      requires row < ROWS && column + 4 <= COLS && |values| == 4
      modifies this`grid, irData
      ensures MatrixValid()
      ensures grid == WriteSlice(old(grid), row, column, values)
    {
      forall j | 0 <= j < 4 {
        irData[row, column + j] := values[j];
      }
      grid := WriteSlice(grid, row, column, values);
    }

    /**
     * The sensor loop of update_data: the first sensor whose range holds
     * stdId gets its slice written. Returns the loop variable's final value,
     * the display update_data refreshes.
     */
    method RouteFrame(stdId: nat, data: Payload) returns (sensor: nat)
      requires MatrixValid()
      modifies this`grid, irData
      ensures MatrixValid()
      ensures grid == RouteIntoGrid(old(grid), stdId, data)
      ensures sensor == DisplayTarget(stdId)
    {
      var values := Samples(data);
      sensor := 0;
      var k := 0;
      while k < SENSOR_COUNT
        invariant 0 <= k <= SENSOR_COUNT
        invariant forall j :: 0 <= j < k ==> !InSensorRange(stdId, j)
        invariant k > 0 ==> sensor == k - 1
        invariant grid == old(grid) && MatrixValid()
      {
        sensor := k;
        if SENSOR_BASES[k] <= stdId <= SENSOR_BASES[k] + SENSOR_SPAN {
          var index := stdId - SENSOR_BASES[k];
          var column := index % 4 * 4;
          var row := index / 4;
          assert SensorOf(stdId) == Some(k);
          StoreSlice(row, column, values);
          return;
        }
        k := k + 1;
      }
      assert SensorOf(stdId).None?;
    }

    /**
     * The table half of update_data: find or insert the row, count the
     * sighting, rewrite the eight byte cells and their highlights.
     */
    method UpdateTable(msgId: nat, dlc: byte, data: Payload)
      modifies this`table
      ensures table == Observe(old(table), msgId, dlc, data)
    {
      var rowPosition := FindRowPosition(table, msgId);
      var newMessage := rowPosition == -1;
      if newMessage {
        rowPosition := |table|;
        table := table + [Row(msgId, 0, BLANK, Marks(0, BLANK, true, BLANK))];
      }
      table := table[rowPosition := table[rowPosition].(count := table[rowPosition].count + 1)];
      var bytes, marks := RefreshCells(table[rowPosition].bytes, newMessage, dlc, data);
      table := table[rowPosition := table[rowPosition].(bytes := bytes, marks := marks)];
    }

    /**
     * update_data: the IDE gate, then the matrix and the table. Returns the
     * display it refreshes, or None when it returns early on an unhandled
     * IDE value.
     */
    method UpdateData(m: RxMsg) returns (display: Option<nat>)
      requires Valid()
      modifies this`grid, this`table, irData
      ensures Valid()
      ensures State() == Step(old(State()), m)
      ensures display == if MessageKey(m).None? then None else Some(DisplayTarget(m.stdId))
    {
      var msgId: nat;
      if m.ide == IDE_STANDARD {
        msgId := m.stdId;
      } else if m.ide == IDE_EXTENDED {
        msgId := m.extId;
      } else {
        return None;
      }
      StepWellFormed(State(), m);
      var sensor := RouteFrame(m.stdId, m.data);
      display := Some(sensor);
      UpdateTable(msgId, m.dlc, m.data);
    }

    /**
     * One pass of read_data's loop with a complete frame at the first marker:
     * decode the 20 bytes after it, handle them, and cut the buffer just
     * after them.
     */
    method ConsumeFrame(startIdx: nat)
      requires Valid()
      requires FindMarker(rcvBuffer) == Some(startIdx) && startIdx + FRAME_LEN <= |rcvBuffer|
      modifies this, irData
      ensures Valid()
      ensures rcvBuffer == old(rcvBuffer)[startIdx + FRAME_LEN..]
      ensures State() == Step(old(State()), UnpackRx(old(rcvBuffer)[startIdx + 3..startIdx + FRAME_LEN]))
    {
      var endIdx := startIdx + 3 + RX_RECORD_LEN;
      var msgData := rcvBuffer[startIdx + 3..endIdx];
      var _ := UpdateData(UnpackRx(msgData));
      rcvBuffer := rcvBuffer[endIdx..];
    }

    /**
     * read_data: the bytes that arrived are appended to the buffer, then every
     * complete frame at the buffer's first marker is decoded and handled and
     * cut off together with the noise before it.
     */
    method ReadData(incoming: seq<byte>)
      requires Valid()
      modifies this, irData
      ensures Valid()
      ensures rcvBuffer == Deframe(old(rcvBuffer) + incoming).rest
      ensures State() == Steps(old(State()), Deframe(old(rcvBuffer) + incoming).records)
    {
      rcvBuffer := rcvBuffer + incoming;
      ghost var start := rcvBuffer;
      ghost var before := State();
      ghost var done: seq<RxRecord> := [];
      assert [] + Deframe(start).records == Deframe(start).records;
      while FindMarker(rcvBuffer).Some?
        invariant Valid()
        invariant DeframedSoFar(start, done, rcvBuffer)
        invariant State() == Steps(before, done)
        decreases |rcvBuffer|
      {
        var startIdx := FindMarker(rcvBuffer).value;
        var endIdx := startIdx + 3 + RX_RECORD_LEN;
        if |rcvBuffer| >= endIdx {
          ghost var msgData: RxRecord := rcvBuffer[startIdx + 3..endIdx];
          ReadLoopStep(start, done, rcvBuffer, startIdx);
          StepsSnoc(before, done, msgData);
          ConsumeFrame(startIdx);
          done := done + [msgData];
        } else {
          break;
        }
      }
      ReadLoopDone(start, done, rcvBuffer);
    }
  }
}
