/**
 * The diagnostic table of update_data: one row per message identifier in
 * first-seen order, with an occurrence count, the last eight data bytes and
 * a highlight per byte. The source keeps identifiers and bytes as cell
 * texts (`0x%X` and `%2X`) and compares texts; the model keeps the values
 * and proves that comparing the texts is comparing the values.
 */
module Ledger {
  import opened Wrappers
  import opened Bytes
  import opened FrameCodec

  const HEX_DIGITS: string := "0123456789ABCDEF"

  function HexDigit(d: nat): char
    requires d < 16
  {
    HEX_DIGITS[d]
  }

  lemma HexDigitInjective(a: nat, b: nat)
    requires a < 16 && b < 16 && HexDigit(a) == HexDigit(b)
    ensures a == b
  {
  }

  /** Python's format spec `X`: upper-case hexadecimal without padding. */
  function Hex(n: nat): (s: string)
    ensures |s| >= 1
    ensures n >= 16 <==> |s| >= 2
  {
    if n < 16 then [HexDigit(n)] else Hex(n / 16) + [HexDigit(n % 16)]
  }

  /** Different numbers have different hexadecimal texts. */
  lemma {:induction false} HexInjective(a: nat, b: nat)
    requires Hex(a) == Hex(b)
    ensures a == b
  {
    if a < 16 && b < 16 {
      HexDigitInjective(a, b);
    } else if a >= 16 && b >= 16 {
      var ha, hb := Hex(a), Hex(b);
      assert ha[|ha| - 1] == HexDigit(a % 16) && hb[|hb| - 1] == HexDigit(b % 16);
      HexDigitInjective(a % 16, b % 16);
      assert ha[..|ha| - 1] == Hex(a / 16) && hb[..|hb| - 1] == Hex(b / 16);
      HexInjective(a / 16, b / 16);
    }
  }

  /** The identifier cell text, `f'0x{msg_id:X}'`. */
  function IdText(id: nat): string
  {
    "0x" + Hex(id)
  }

  /** Looking a row up by its identifier text is looking it up by identifier. */
  lemma IdTextInjective(a: nat, b: nat)
    ensures IdText(a) == IdText(b) <==> a == b
  {
    if IdText(a) == IdText(b) {
      assert IdText(a)[2..] == Hex(a) && IdText(b)[2..] == Hex(b);
      HexInjective(a, b);
    }
  }

  /** A data byte cell text, `f'{b:2X}'`: two upper-case hex digits, space-padded. */
  function ByteText(b: byte): (s: string)
    ensures |s| == 2
  {
    if b < 16 then [' ', HexDigit(b)] else [HexDigit(b / 16), HexDigit(b % 16)]
  }

  /** Comparing the `%2X` texts of two bytes is comparing the bytes. */
  lemma ByteTextInjective(a: byte, b: byte)
    ensures ByteText(a) == ByteText(b) <==> a == b
  {
    if ByteText(a) == ByteText(b) {
      if a < 16 && b < 16 {
        HexDigitInjective(a, b);
      } else if a >= 16 && b >= 16 {
        HexDigitInjective(a / 16, b / 16);
        HexDigitInjective(a % 16, b % 16);
      }
    }
  }

  /** Byte background: grey beyond the declared length, yellow when changed, white otherwise. */
  datatype Highlight = Stale | Changed | Unchanged

  /** One table row: identifier, count, bytes B0..B7 and their highlights. */
  datatype Row = Row(id: nat, count: nat, bytes: Payload, marks: seq<Highlight>)

  /** The empty cells of a freshly inserted row; never compared, as the row is new. */
  const BLANK: Payload := [0, 0, 0, 0, 0, 0, 0, 0]

  /** The position of the row for id: the first one, and with unique identifiers the only one. */
  function Find(table: seq<Row>, id: nat): (r: Option<nat>)
    ensures r.Some? ==> r.value < |table| && table[r.value].id == id
    ensures r.Some? ==> forall j :: 0 <= j < r.value ==> table[j].id != id
    ensures r.None? <==> forall j :: 0 <= j < |table| ==> table[j].id != id
  {
    if table == [] then None
    else if table[0].id == id then Some(0)
    else
      var r := Find(table[1..], id);
      if r.None? then None
      else
        assert table[r.value + 1] == table[1..][r.value];
        Some(r.value + 1)
  }

  /** The highlight of byte i. */
  function Mark(i: nat, dlc: byte, isNew: bool, newByte: byte, oldByte: byte): Highlight
  {
    if i >= dlc then Stale
    else if isNew || newByte != oldByte then Changed
    else Unchanged
  }

  function Marks(dlc: byte, data: Payload, isNew: bool, previous: Payload): (m: seq<Highlight>)
    ensures |m| == 8
  {
    seq(8, i requires 0 <= i < 8 => Mark(i, dlc, isNew, data[i], previous[i]))
  }

  /** The table after one message with identifier id, declared length dlc and payload data. */
  function Observe(table: seq<Row>, id: nat, dlc: byte, data: Payload): (r: seq<Row>)
    ensures |table| <= |r| <= |table| + 1
  {
    match Find(table, id)
    case None => table + [Row(id, 1, data, Marks(dlc, data, true, BLANK))]
    case Some(p) => table[p := Row(id, table[p].count + 1, data, Marks(dlc, data, false, table[p].bytes))]
  }

  /** No identifier has two rows. */
  predicate UniqueIds(table: seq<Row>)
  {
    forall i, j :: 0 <= i < j < |table| ==> table[i].id != table[j].id
  }

  /** A first sighting appends one row at the end with count 1; earlier rows are untouched. */
  lemma ObserveNewId(table: seq<Row>, id: nat, dlc: byte, data: Payload)
    requires forall j :: 0 <= j < |table| ==> table[j].id != id
    ensures var t := Observe(table, id, dlc, data);
      && |t| == |table| + 1 && t[..|table|] == table
      && t[|table|].id == id && t[|table|].count == 1 && t[|table|].bytes == data
  {
    assert Find(table, id).None?;
  }

  /** A known identifier keeps its row, whose count goes up by exactly one; no other row changes. */
  lemma ObserveKnownId(table: seq<Row>, id: nat, dlc: byte, data: Payload, p: nat)
    requires p < |table| && table[p].id == id && UniqueIds(table)
    ensures var t := Observe(table, id, dlc, data);
      && |t| == |table| && t[p].id == id && t[p].count == table[p].count + 1 && t[p].bytes == data
      && forall j :: 0 <= j < |table| && j != p ==> t[j] == table[j]
  {
    assert Find(table, id) == Some(p);
  }

  /**
   * No row is ever removed or reordered and no count goes down; afterwards
   * the identifier has a row.
   */
  lemma ObserveKeepsRows(table: seq<Row>, id: nat, dlc: byte, data: Payload)
    ensures var t := Observe(table, id, dlc, data);
      && |table| <= |t| <= |table| + 1
      && (forall j :: 0 <= j < |table| ==> t[j].id == table[j].id && t[j].count >= table[j].count)
      && Find(t, id).Some?
  {
    var t := Observe(table, id, dlc, data);
    match Find(table, id)
    case None =>
      assert t[|table|].id == id;
    case Some(p) =>
      assert t[p].id == id;
  }

  /** The table stays keyed by identifier. */
  lemma ObserveKeepsUnique(table: seq<Row>, id: nat, dlc: byte, data: Payload)
    requires UniqueIds(table)
    ensures UniqueIds(Observe(table, id, dlc, data))
  {
    var t := Observe(table, id, dlc, data);
    match Find(table, id)
    case None =>
      assert forall j :: 0 <= j < |table| ==> t[j] == table[j];
    case Some(p) =>
      assert forall j :: 0 <= j < |table| ==> t[j].id == table[j].id;
  }

  /**
   * The highlight rule of every observation: byte i is Stale iff i >= dlc,
   * even on a new row; below dlc it is Changed iff the row is new or the
   * byte differs from the one stored before, and Unchanged otherwise.
   */
  lemma ObserveHighlights(table: seq<Row>, id: nat, dlc: byte, data: Payload, i: nat)
    requires i < 8
    ensures var t := Observe(table, id, dlc, data);
      var p := if Find(table, id).Some? then Find(table, id).value else |table|;
      var isNew := Find(table, id).None?;
      && p < |t| && |t[p].marks| == 8
      && (t[p].marks[i] == Stale <==> i >= dlc)
      && (t[p].marks[i] == Changed <==> i < dlc && (isNew || data[i] != table[p].bytes[i]))
      && (t[p].marks[i] == Unchanged <==> i < dlc && !isNew && data[i] == table[p].bytes[i])
  {
  }

  /** Second sighting of [1,2,3,4,5,6,7,8] as [1,9,3,4,5,6,7,8]: only byte 1 is Changed. */
  lemma ObserveChangeExample(id: nat)
    ensures var t := Observe(Observe([], id, 8, [1, 2, 3, 4, 5, 6, 7, 8]), id, 8, [1, 9, 3, 4, 5, 6, 7, 8]);
      && |t| == 1 && t[0].count == 2
      && t[0].marks == [Unchanged, Changed, Unchanged, Unchanged, Unchanged, Unchanged, Unchanged, Unchanged]
  {
    var t1 := Observe([], id, 8, [1, 2, 3, 4, 5, 6, 7, 8]);
    assert Find(t1, id) == Some(0);
  }

  /** A declared length of 3 greys bytes 3..7, even on a new row. */
  lemma ObserveStaleExample(id: nat, data: Payload)
    ensures Observe([], id, 3, data)[0].marks == [Changed, Changed, Changed, Stale, Stale, Stale, Stale, Stale]
  {
  }

  /**
   * The row lookup of update_data: scan the rows in order and stop at the
   * first whose identifier text equals `0x%X` of msgId; -1 when none does.
   */
  method FindRowPosition(table: seq<Row>, msgId: nat) returns (pos: int)
    ensures pos == -1 <==> Find(table, msgId).None?
    ensures pos != -1 ==> Find(table, msgId) == Some(pos)
  {
    pos := -1;
    var row := 0;
    while row < |table|
      invariant 0 <= row <= |table|
      invariant forall j :: 0 <= j < row ==> table[j].id != msgId
    {
      IdTextInjective(table[row].id, msgId);
      if IdText(table[row].id) == IdText(msgId) {
        pos := row;
        return;
      }
      row := row + 1;
    }
  }

  /**
   * The B0..B7 loop of update_data: every cell takes the new byte's text,
   * and its highlight is chosen by comparing the new text with the cell's
   * previous text (empty on a new row).
   */
  method RefreshCells(stored: Payload, isNew: bool, dlc: byte, data: Payload) returns (bytes: Payload, marks: seq<Highlight>)
    ensures bytes == data
    ensures marks == Marks(dlc, data, isNew, stored)
  {
    var newBytes: seq<byte> := [];
    marks := [];
    for i := 0 to 8
      invariant newBytes == data[..i]
      invariant marks == Marks(dlc, data, isNew, stored)[..i]
    {
      var newValue := ByteText(data[i]);
      var oldValue := if isNew then "" else ByteText(stored[i]);
      newBytes := newBytes + [data[i]];
      var mark;
      if i >= dlc {
        mark := Stale;
      } else if isNew || newValue != oldValue {
        mark := Changed;
      } else {
        mark := Unchanged;
      }
      ByteTextInjective(data[i], stored[i]);
      marks := marks + [mark];
    }
    bytes := newBytes;
  }
}
