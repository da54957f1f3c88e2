# CAN sniffer protocol core, modelled in Dafny

This project models the protocol handling of the CAN-over-serial sniffer
window (`CAN_sniffer.py`): the receive-stream deframer of `read_data`, the
`<LLBBB8sB` receive record and the `SND` + `<LLBBB8s` transmit packet of
`sendPacket`, the configuration packet of `on_apply_config`, and
`update_data`: the IDE gate, the routing of sensor identifiers
0x710/0x720/0x730/0x740 into the shared 4x16 int16 matrix, and the
diagnostic table with its per-byte highlights.

Layout, one module per component:

- `bytes.dfy` (`Bytes`): bytes, little-endian values (`L`), the signed
  16-bit reading (`h`), truncation of a sample by ten.
- `codec.dfy` (`FrameCodec`): receive record decode/encode, `sendPacket`.
- `deframer.dfy` (`Deframer`): the marker search and the deframing loop as
  functions, with the one-step, stopping, suffix and chunking lemmas.
- `router.dfy` (`Router`): the address map, slot arithmetic, the matrix as
  a value and what one frame does to it.
- `ledger.dfy` (`Ledger`): the table rows, the `0x%X` / `%2X` cell texts,
  the row lookup and the cell refresh loop.
- `config.dfy` (`ConfigPacket`): the row-enable loop and `on_apply_config`.
- `sniffer.dfy` (`Sniffer`): the window state as a class (`rcvBuffer`,
  the `irData` array, the `table` rows) with `UpdateData` and `ReadData`,
  specified against `Step` / `Steps` on values.

Modelling choices:

- The serial port is replaced by parameters: `ReadData` receives the bytes
  the `in_waiting`/`read` loop would have collected, and the write of
  `sendPacket` / `on_apply_config` is the returned byte sequence. Not being
  connected is a boolean parameter of `OnApplyConfig`.
- `struct.error` (a field out of range for its format) is the `Failure`
  branch of `SendPacket` and `OnApplyConfig`.
- The matrix cell written is `trunc(raw / 10)`, computed as `Trunc10` on
  integers. numpy divides in double precision and the int16 store truncates
  toward zero; for |raw| <= 32768 the double quotient never crosses an
  integer, so the integer model is exact, and `RouteIntoGridFits` shows the
  stored values always fit int16, so the store never wraps.
- The table is a sequence of rows `(id, count, bytes, marks)`. The source
  compares cell texts (`0x%X` for identifiers, `%2X` for bytes); the
  methods `FindRowPosition` and `RefreshCells` compare those texts as the
  source does, and `IdTextInjective` / `ByteTextInjective` show this is the
  same as comparing the values, which the value-level function `Observe` does.
  A freshly inserted row's empty cells are modelled as `BLANK` bytes; they
  are never compared, because the row is new.
- Facts about the code that the model keeps: the receive record is 20
  bytes after the 3-byte `RCV` marker (CAN_sniffer.py:94, 98), and the
  transmit packet is the 3-byte `SND` marker plus 19 bytes. One matrix is
  shared by all sensors (CAN_sniffer.py:27). An IDE other than 0 or 4 makes
  `update_data` return before any change, and the record is still cut from
  the buffer (CAN_sniffer.py:120-126, 100). A declared length above 8 is not
  rejected; bytes at index >= dlc are simply Stale. Cells hold
  `trunc(raw / 10)`.

## Model

| member | source | states |
|---|---|---|
| Bytes.LeValueOfBytes | CAN_sniffer.py:61 | Encoding a value in n little-endian bytes and reading it back gives the value. |
| Bytes.LeBytesOfValue | CAN_sniffer.py:98 | Reading n little-endian bytes and re-encoding them gives the same bytes. |
| Bytes.Int16Le | CAN_sniffer.py:128 | The `<h` reading of two bytes is the value in [-32768, 32768) congruent to lo + 256*hi modulo 65536, negative iff the high byte's top bit is set. |
| Bytes.Trunc10 | CAN_sniffer.py:129-137 | The stored cell is raw / 10 truncated toward zero (remainder in [0, 10) for raw >= 0, in (-10, 0] for raw < 0). |
| FrameCodec.UnpackRx | CAN_sniffer.py:98 | The `<LLBBB8sB` decode: std_id and ext_id are the LE u32 values of bytes 0..4 and 4..8, then ide, rtr, dlc, the 8 data bytes and the filter byte; the ids always fit u32. Characterised by UnpackPackRx and PackUnpackRx. |
| FrameCodec.UnpackPackRx | CAN_sniffer.py:97-98 | Unpacking the `<LLBBB8sB` encoding of a message gives the message back. |
| FrameCodec.PackUnpackRx | CAN_sniffer.py:97-98 | Every 20-byte record is the encoding of what it unpacks to: the layout loses nothing. |
| FrameCodec.Padded | CAN_sniffer.py:60-61 | The packed data field is the data zero-padded to 8 bytes and cut to 8. |
| FrameCodec.SendPacket | CAN_sniffer.py:56-63 | A packet is produced iff every field fits its struct format (struct.error otherwise), and it is then 22 bytes long. |
| FrameCodec.SendPacketLayout | CAN_sniffer.py:56-62 | The packet is `SND`, LE u32 stdid, LE u32 extid, ide, rtr, dlc (the data length when not given), then the data zero-padded to 8. |
| FrameCodec.SendPacketDecodesAsRx | CAN_sniffer.py:56-62 | Bytes 3..22 of a packet, read with the receive layout (any filter byte appended), give back stdid, extid, ide, rtr, dlc and the padded data. |
| Deframer.FindMarker | CAN_sniffer.py:92-93 | The result is the first position of `RCV`, and None exactly when the buffer holds no `RCV`. |
| Deframer.Deframe | CAN_sniffer.py:92-102 | Defined as the loop: at the first `RCV` with 23 bytes available, hand on the 20 bytes after the marker and continue after the frame, otherwise stop. Characterised by DeframeStep, DeframeStopped, DeframeRestIsSuffix, DeframeRestStopped, DeframeConsumes and DeframeChunked. |
| Deframer.DeframeStep | CAN_sniffer.py:92-100 | With a complete frame at the first marker i, the record handed on is buf[i+3..i+23], the loop continues on buf[i+23..], and the buffer shrinks. |
| Deframer.DeframeStopped | CAN_sniffer.py:96-102 | With no marker, or fewer than 23 bytes from the first one, no record is handed on and the buffer is unchanged. |
| Deframer.DeframeRestIsSuffix | CAN_sniffer.py:100 | The loop only drops bytes from the front: what it leaves is a suffix of its input. |
| Deframer.DeframeRestStopped | CAN_sniffer.py:92-102 | What the loop leaves has no marker, or an incomplete frame at its first marker. |
| Deframer.DeframeConsumes | CAN_sniffer.py:94-100 | Each record handed on uses 23 bytes of the buffer: 23 times the number of records plus the leftover never exceeds the buffer length. |
| Deframer.DeframeChunked | CAN_sniffer.py:88-102 | Deframing a, then its leftover with b appended, hands on the same records and leaves the same buffer as deframing a + b. |
| Router.SensorOf | CAN_sniffer.py:132-133 | The sensor whose [base, base+15] range holds the identifier, and None exactly when no range holds it. |
| Router.Route | CAN_sniffer.py:132-136 | A slot exists exactly when a sensor matched, and its row and four columns lie inside the 4x16 matrix. Characterised by RouteOffset. |
| Router.SensorRangesDisjoint | CAN_sniffer.py:17 | The four sensor ranges [base, base+15] are pairwise disjoint. |
| Router.RouteSensor | CAN_sniffer.py:132-138 | An identifier is routed to sensor k iff it lies in k's range. |
| Router.ConfigAddressUnrouted | CAN_sniffer.py:17 | The configuration identifier 0x700 is in no sensor range. |
| Router.RouteOffset | CAN_sniffer.py:133-136 | base + offset of sensor k lands in row offset / 4 at column (offset % 4) * 4. |
| Router.SlicesTileGrid | CAN_sniffer.py:12-13 | Every cell of the 4x16 matrix is covered by the slice of exactly one of the 16 offsets. |
| Router.DisplayTarget | CAN_sniffer.py:132-141 | The refreshed display is the routed sensor, or RR (the loop variable's last value) when none matched. |
| Router.Sample | CAN_sniffer.py:128-129 | The k-th `<h` sample divided by ten and truncated lies in [-3276, 3276]. |
| Router.Samples | CAN_sniffer.py:128-129 | The four truncated samples of the payload, in order. |
| Router.WriteSlice | CAN_sniffer.py:137 | `ir_data[row, col:col+4] = vals` on the matrix as a value; the result is still a 4x16 matrix. Characterised cell by cell by RouteIntoGridCells. |
| Router.RouteIntoGrid | CAN_sniffer.py:128-138 | The matrix after one frame; it stays 4x16. Characterised by RouteIntoGridCells and RouteIntoGridFits. |
| Router.RouteIntoGridCells | CAN_sniffer.py:128-138 | A routed frame overwrites exactly the 4 cells (row, col+k) with trunc(int16_le(data[2k..2k+2]) / 10); every other cell, and every cell for an unrouted id, is unchanged. |
| Router.RouteIntoGridFits | CAN_sniffer.py:27 | Routing keeps every matrix cell within int16. |
| Ledger.HexInjective | CAN_sniffer.py:148 | Distinct identifiers have distinct `X` hexadecimal texts. |
| Ledger.IdTextInjective | CAN_sniffer.py:146-151 | Two `0x%X` identifier texts are equal iff the identifiers are. |
| Ledger.ByteTextInjective | CAN_sniffer.py:170-181 | Two `%2X` byte texts are equal iff the bytes are. |
| Ledger.Find | CAN_sniffer.py:146-151 | The row found is the first with the identifier; None iff no row has it. |
| Ledger.Marks | CAN_sniffer.py:168-185 | The 8 highlights of one refresh. Characterised by ObserveHighlights and RefreshCells. |
| Ledger.Observe | CAN_sniffer.py:144-186 | The table after one message: it gains at most one row. Characterised by ObserveNewId, ObserveKnownId, ObserveKeepsRows, ObserveKeepsUnique and ObserveHighlights. |
| Ledger.ObserveNewId | CAN_sniffer.py:154-165 | A first sighting appends one row at the end with count 1 and the new bytes; earlier rows are unchanged. |
| Ledger.ObserveKnownId | CAN_sniffer.py:146-165 | A known identifier keeps its row position, its count goes up by exactly 1, its bytes become the new ones, and no other row changes. |
| Ledger.ObserveKeepsRows | CAN_sniffer.py:144-165 | No row is removed or reordered, no count decreases, and the identifier has a row afterwards. |
| Ledger.ObserveKeepsUnique | CAN_sniffer.py:146-157 | The table stays keyed by identifier: no identifier gets two rows. |
| Ledger.ObserveHighlights | CAN_sniffer.py:168-185 | Byte i is Stale iff i >= dlc (even on a new row); otherwise Changed iff the row is new or the byte differs from the stored one, else Unchanged. |
| Ledger.ObserveChangeExample | CAN_sniffer.py:179-185 | [1..8] then [1,9,3..8] under one id: count 2, only byte 1 Changed. |
| Ledger.ObserveStaleExample | CAN_sniffer.py:179-180 | Declared length 3 on a new row marks bytes 0..2 Changed and 3..7 Stale. |
| Ledger.FindRowPosition | CAN_sniffer.py:144-151 | The text-comparing scan returns the first row with the identifier, or -1 iff there is none. |
| Ledger.RefreshCells | CAN_sniffer.py:168-185 | The text-comparing cell loop stores the new bytes and produces exactly the highlights of the value-level rule. |
| ConfigPacket.RowEnableMask | CAN_sniffer.py:47-51 | Bit i of row_en is set iff checkbox i is checked, for i in 0..3, so row_en < 16. |
| ConfigPacket.ConfigPacketLayout | CAN_sniffer.py:54-62 | The config packet is `SND`, id 0x700, ext id 0, ide 0, rtr 0, dlc 2, payload [rate, mask, 0,0,0,0,0,0]. |
| ConfigPacket.OnApplyConfig | CAN_sniffer.py:44-54 | Not connected: nothing written; rate outside a byte: struct.error; otherwise the 22-byte config packet whose mask bits are the checked boxes. |
| Sniffer.MessageKey | CAN_sniffer.py:120-126 | The table key exists exactly when ide is 0 or 4. Characterised by StepGate. |
| Sniffer.Step | CAN_sniffer.py:115-186 | update_data on the model state; the matrix stays 4x16. Characterised by StepGate and StepWellFormed. |
| Sniffer.StepGate | CAN_sniffer.py:117-133 | IDE not 0 or 4: no change; IDE 0 keys the table by std_id, IDE 4 by ext_id; the matrix is always routed by std_id. |
| Sniffer.StepWellFormed | CAN_sniffer.py:115-186 | Handling a message keeps the matrix in int16 range and the table keyed by identifier. |
| Sniffer.Steps | CAN_sniffer.py:99 | The records handled in order; the matrix stays 4x16. Characterised by StepsWellFormed and StepsAppend. |
| Sniffer.StepsWellFormed | CAN_sniffer.py:88-102 | Handling any sequence of records from a well-formed state keeps the matrix in int16 range and the table keyed by identifier. |
| Sniffer.StepsAppend | CAN_sniffer.py:99 | Handling the records of two chunks in turn is handling all of them in order. |
| Sniffer.EndToEndExample | CAN_sniffer.py:88-137 | `RCV` + a record for 0x710 with samples 0,10,20,30 sets row 0, columns 0..3 of a fresh matrix to 0,1,2,3. |
| Sniffer.CanSniffer.constructor | CAN_sniffer.py:24-27 | A fresh window has an empty buffer, a zero 4x16 matrix and an empty table. |
| Sniffer.CanSniffer.StoreSlice | CAN_sniffer.py:137 | The slice assignment writes the four values at (row, column..column+3) and nothing else. |
| Sniffer.CanSniffer.RouteFrame | CAN_sniffer.py:131-141 | The sensor loop updates the matrix as RouteIntoGrid says and ends on the display target. |
| Sniffer.CanSniffer.UpdateTable | CAN_sniffer.py:143-186 | The table becomes Observe of the old table for this id, dlc and data. |
| Sniffer.CanSniffer.UpdateData | CAN_sniffer.py:115-186 | The new matrix and table are Step of the old ones; the display refreshed is DisplayTarget(std_id), none on an early return. |
| Sniffer.CanSniffer.ConsumeFrame | CAN_sniffer.py:93-100 | One loop pass handles the 20 bytes after the first marker and cuts the buffer just after them. |
| Sniffer.CanSniffer.ReadData | CAN_sniffer.py:88-102 | The buffer becomes what Deframe leaves of old buffer + incoming, and the state is Steps of the old state over Deframe's records. |

## Left out

- Serial port handling (`on_select_port`, `connect_to_port`, `closeEvent`, opening and closing the port, listing ports, the port dialog): device plumbing; incoming bytes are a parameter of `ReadData` and written bytes a return value.
- Qt widgets, the timer, the status bar, colours and the timing/diagnostic prints: replaced by the `Highlight` values and the row records.
- The matrix refresh `irImages[sensor].updateData(np.fliplr(...))`: display only; modelled only as the index of the display it targets (`DisplayTarget`).
- `update_ir_data`: dead code, never called.
- The unused `messages` dictionary and the two queues created in `__init__`: nothing reads or writes them.
- `IrImageWidget.py` (floating-point colour interpolation and painting) and `MainWindow.py` (generated layout) are not part of this model.
- Command-line argument parsing and the application main.
