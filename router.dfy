/**
 * Address routing and the shared sensor matrix: which identifiers belong to
 * which infrared sensor, which four cells of the 4x16 matrix a frame
 * overwrites, and the sample values written there.
 */
module Router {
  import opened Wrappers
  import opened Bytes
  import opened FrameCodec

  const ROWS: nat := 4
  const COLS: nat := 16
  const TOTAL_PIXELS: nat := ROWS * COLS

  /** Identifier of the configuration channel. */
  const CFG_ADDRESS: nat := 0x700

  /** Base identifiers of the sensors FL, FR, RL and RR, in that order. */
  const SENSOR_BASES: seq<nat> := [0x710, 0x720, 0x730, 0x740]
  const SENSOR_COUNT: nat := 4

  /** Each sensor owns its base and the next fifteen identifiers. */
  const SENSOR_SPAN: nat := 0x0F

  predicate InSensorRange(id: int, k: nat)
    requires k < SENSOR_COUNT
  {
    SENSOR_BASES[k] <= id <= SENSOR_BASES[k] + SENSOR_SPAN
  }

  /** The first sensor, from k on, whose range holds id. */
  function SensorFrom(id: int, k: nat): (r: Option<nat>)
    requires k <= SENSOR_COUNT
    ensures r.Some? ==> k <= r.value < SENSOR_COUNT && InSensorRange(id, r.value)
    ensures r.Some? ==> forall j :: k <= j < r.value ==> !InSensorRange(id, j)
    ensures r.None? <==> forall j :: k <= j < SENSOR_COUNT ==> !InSensorRange(id, j)
    decreases SENSOR_COUNT - k
  {
    if k == SENSOR_COUNT then None
    else if InSensorRange(id, k) then Some(k)
    else SensorFrom(id, k + 1)
  }

  /** The sensor the for-loop over SENSORS stops at, if any. */
  function SensorOf(id: int): (r: Option<nat>)
    ensures r.Some? ==> r.value < SENSOR_COUNT && InSensorRange(id, r.value)
    ensures r.None? <==> forall j :: 0 <= j < SENSOR_COUNT ==> !InSensorRange(id, j)
  {
    SensorFrom(id, 0)
  }

  /** Where a routed frame lands: its sensor and the first of its four matrix cells. */
  datatype Slot = Slot(sensor: nat, row: nat, col: nat)

  /** Row offset / 4 and first column (offset % 4) * 4 of the identifier's offset in its sensor range. */
  function Route(stdId: int): (r: Option<Slot>)
    ensures r.Some? <==> SensorOf(stdId).Some?
    ensures r.Some? ==> r.value.sensor < SENSOR_COUNT && r.value.row < ROWS && r.value.col + 4 <= COLS
  {
    match SensorOf(stdId)
    case None => None
    case Some(k) =>
      var offset := stdId - SENSOR_BASES[k];
      Some(Slot(k, offset / 4, offset % 4 * 4))
  }

  /** The sensor ranges are pairwise disjoint, so the loop's first match is the only one. */
  lemma SensorRangesDisjoint(id: int, j: nat, k: nat)
    requires j < SENSOR_COUNT && k < SENSOR_COUNT
    requires InSensorRange(id, j) && InSensorRange(id, k)
    ensures j == k
  {
  }

  /** An identifier is routed exactly when it lies in some sensor's range, and then to that sensor. */
  lemma {:induction false} RouteSensor(id: int, k: nat)
    requires k < SENSOR_COUNT
    ensures InSensorRange(id, k) <==> (Route(id).Some? && Route(id).value.sensor == k)
  {
    if InSensorRange(id, k) {
      var r := SensorOf(id);
      assert r.Some?;
      SensorRangesDisjoint(id, r.value, k);
    }
  }

  /** Configuration traffic is never routed into the matrix. */
  lemma ConfigAddressUnrouted()
    ensures Route(CFG_ADDRESS).None?
  {
    assert forall j :: 0 <= j < SENSOR_COUNT ==> !InSensorRange(CFG_ADDRESS, j);
  }

  /** Identifier base + offset of sensor k lands in row offset / 4 at column group (offset % 4) * 4. */
  lemma RouteOffset(k: nat, offset: nat)
    requires k < SENSOR_COUNT && offset <= SENSOR_SPAN
    ensures Route(SENSOR_BASES[k] + offset) == Some(Slot(k, offset / 4, offset % 4 * 4))
  {
    RouteSensor(SENSOR_BASES[k] + offset, k);
  }

  /** The cell (r, c) lies in the four-cell slice that a frame at this offset writes. */
  predicate SliceCovers(offset: nat, r: nat, c: nat)
  {
    offset / 4 == r && offset % 4 * 4 <= c < offset % 4 * 4 + 4
  }

  /**
   * The sixteen offsets of a sensor tile its 4x16 matrix: every cell is
   * written by offset r * 4 + c / 4 and by no other offset.
   */
  lemma SlicesTileGrid(r: nat, c: nat, offset: nat)
    requires r < ROWS && c < COLS && offset <= SENSOR_SPAN
    ensures r * 4 + c / 4 <= SENSOR_SPAN && SliceCovers(r * 4 + c / 4, r, c)
    ensures SliceCovers(offset, r, c) <==> offset == r * 4 + c / 4
  {
  }

  /**
   * The display refreshed after a frame: the matched sensor, or RR, the last
   * value the loop variable took, when no sensor matched.
   */
  function DisplayTarget(stdId: int): (k: nat)
    ensures k < SENSOR_COUNT
    ensures Route(stdId).Some? ==> k == Route(stdId).value.sensor
    ensures Route(stdId).None? ==> k == SENSOR_COUNT - 1
  {
    match SensorOf(stdId)
    case None => SENSOR_COUNT - 1
    case Some(k) => k
  }

  /** The shared int16 matrix, row by row. */
  type Grid = seq<seq<int>>

  predicate IsGrid(g: Grid)
  {
    |g| == ROWS && forall r :: 0 <= r < ROWS ==> |g[r]| == COLS
  }

  /** Every cell holds an int16 value. */
  predicate FitsInt16(g: Grid)
    requires IsGrid(g)
  {
    forall r, c :: 0 <= r < ROWS && 0 <= c < COLS ==> -32768 <= g[r][c] < 32768
  }

  function ZeroGrid(): (g: Grid)
    ensures IsGrid(g) && FitsInt16(g)
  {
    seq(ROWS, _ => seq(COLS, _ => 0))
  }

  /** The k-th little-endian int16 of the payload (struct '<4h'), divided by ten as the int16 store keeps it. */
  function Sample(data: Payload, k: nat): (v: int)
    requires k < 4
    ensures -3276 <= v <= 3276
  {
    var raw := Int16Le(data[2 * k], data[2 * k + 1]);
    Trunc10OfInt16(raw);
    Trunc10(raw)
  }

  /** The four values a frame writes. */
  function Samples(data: Payload): (v: seq<int>)
    ensures |v| == 4
  {
    [Sample(data, 0), Sample(data, 1), Sample(data, 2), Sample(data, 3)]
  }

  /** `ir_data[row, col:col+4] = vals`. */
  function WriteSlice(g: Grid, row: nat, col: nat, vals: seq<int>): (h: Grid)
    requires IsGrid(g) && row < ROWS && col + 4 <= COLS && |vals| == 4
    ensures IsGrid(h)
  {
    g[row := g[row][..col] + vals + g[row][col + 4..]]
  }

  /** The matrix after a frame with this standard identifier and payload. */
  function RouteIntoGrid(g: Grid, stdId: int, data: Payload): (h: Grid)
    requires IsGrid(g)
    ensures IsGrid(h)
  {
    match Route(stdId)
    case None => g
    case Some(s) =>
      assert s.row < ROWS && s.col + 4 <= COLS;
      WriteSlice(g, s.row, s.col, Samples(data))
  }

  /**
   * A routed frame overwrites exactly its four cells (row, col + k) with the
   * truncated tenths of its k-th int16 sample; every other cell keeps its
   * value; an unrouted frame changes nothing.
   */
  lemma RouteIntoGridCells(g: Grid, stdId: int, data: Payload, r: nat, c: nat)
    requires IsGrid(g) && r < ROWS && c < COLS
    ensures var h := RouteIntoGrid(g, stdId, data);
      match Route(stdId)
      case None => h[r][c] == g[r][c]
      case Some(s) =>
        if r == s.row && s.col <= c < s.col + 4
        then h[r][c] == Trunc10(Int16Le(data[2 * (c - s.col)], data[2 * (c - s.col) + 1]))
        else h[r][c] == g[r][c]
  {
    if Route(stdId).Some? {
      var s := Route(stdId).value;
      assert s.row < ROWS && s.col + 4 <= COLS;
      assert Route(stdId) == Some(s);
    }
  }

  /** Routing keeps every cell an int16 value, so the int16 store never wraps. */
  lemma RouteIntoGridFits(g: Grid, stdId: int, data: Payload)
    requires IsGrid(g) && FitsInt16(g)
    ensures FitsInt16(RouteIntoGrid(g, stdId, data))
  {
    forall r, c | 0 <= r < ROWS && 0 <= c < COLS
      ensures -32768 <= RouteIntoGrid(g, stdId, data)[r][c] < 32768
    {
      RouteIntoGridCells(g, stdId, data, r, c);
    }
  }
}
