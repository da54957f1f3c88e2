/**
 * The fixed-layout frame records exchanged with the CAN-to-serial bridge.
 * Receive records follow struct layout `<LLBBB8sB` (20 bytes) behind the
 * marker `RCV`; transmit records follow `<LLBBB8s` (19 bytes) behind `SND`.
 */
module FrameCodec {
  import opened Wrappers
  import opened Bytes

  /** ASCII "RCV" and "SND". */
  const RX_MARKER: seq<byte> := [0x52, 0x43, 0x56]
  const TX_MARKER: seq<byte> := [0x53, 0x4E, 0x44]

  const RX_RECORD_LEN: nat := 20
  const TX_RECORD_LEN: nat := 19

  /** A receive record as it follows the marker. */
  type RxRecord = s: seq<byte> | |s| == RX_RECORD_LEN witness [0, 0, 0, 0, 0, 0, 0, 0, 0, 0, 0, 0, 0, 0, 0, 0, 0, 0, 0, 0]

  /** The eight data bytes a record always carries. */
  type Payload = s: seq<byte> | |s| == 8 witness [0, 0, 0, 0, 0, 0, 0, 0]

  /** A decoded receive record: the fields of `CanRxMsg`. */
  datatype RxMsg = RxMsg(stdId: nat, extId: nat, ide: byte, rtr: byte, dlc: byte, data: Payload, fmi: byte)

  /** Both identifiers fit the four-byte `L` fields. */
  predicate FitsRecord(m: RxMsg)
  {
    m.stdId < U32_LIMIT && m.extId < U32_LIMIT
  }

  /** struct.unpack('<LLBBB8sB', rec) on a 20-byte record. */
  function UnpackRx(rec: seq<byte>): (m: RxMsg)
    requires |rec| == RX_RECORD_LEN
    ensures FitsRecord(m)
  {
    RxMsg(LeValue(rec[0..4]), LeValue(rec[4..8]), rec[8], rec[9], rec[10], rec[11..19], rec[19])
  }

  /** The 20 bytes the bridge sends for a message: the reference encoding of the layout. */
  function PackRx(m: RxMsg): (rec: seq<byte>)
    requires FitsRecord(m)
    ensures |rec| == RX_RECORD_LEN
  {
    LeBytes(m.stdId, 4) + LeBytes(m.extId, 4) + [m.ide, m.rtr, m.dlc] + m.data + [m.fmi]
  }

  lemma UnpackPackRx(m: RxMsg)
    requires FitsRecord(m)
    ensures UnpackRx(PackRx(m)) == m
  {
    var rec := PackRx(m);
    assert rec[0..4] == LeBytes(m.stdId, 4);
    assert rec[4..8] == LeBytes(m.extId, 4);
    assert rec[11..19] == m.data;
    LeValueOfBytes(m.stdId, 4);
    LeValueOfBytes(m.extId, 4);
  }

  lemma PackUnpackRx(rec: seq<byte>)
    requires |rec| == RX_RECORD_LEN
    ensures PackRx(UnpackRx(rec)) == rec
  {
    LeBytesOfValue(rec[0..4]);
    LeBytesOfValue(rec[4..8]);
    assert rec == rec[0..4] + rec[4..8] + [rec[8], rec[9], rec[10]] + rec[11..19] + [rec[19]];
  }

  /** struct.error: a field does not fit its struct format. */
  datatype PackError = FieldOutOfRange

  /** `data.ljust(8, b'\x00')` packed as `8s`: zero-padded, then cut to eight bytes. */
  function Padded(data: seq<byte>): (p: Payload)
    ensures forall i :: 0 <= i < 8 ==> p[i] == if i < |data| then data[i] else 0
  {
    var ext := if |data| >= 8 then data else data + seq(8 - |data|, _ => 0);
    ext[..8]
  }

  /** The declared length sendPacket uses: the given one, else the data length. */
  function DlcOrLength(dlc: Option<int>, data: seq<byte>): int
  {
    if dlc.None? then |data| else dlc.value
  }

  /** Every field of sendPacket fits its struct format, so struct.pack does not raise. */
  predicate Packable(stdId: int, extId: int, ide: int, rtr: int, dlc: int)
  {
    0 <= stdId < U32_LIMIT && 0 <= extId < U32_LIMIT && 0 <= ide < 256 && 0 <= rtr < 256 && 0 <= dlc < 256
  }

  /**
   * sendPacket: the bytes written to the serial port, `SND` followed by
   * `<LLBBB8s`, or the struct.error raised for a field out of range.
   */
  function SendPacket(data: seq<byte>, stdId: int, extId: int, ide: int, rtr: int, dlc: Option<int>): (r: Result<seq<byte>, PackError>)
    ensures r.Success? <==> Packable(stdId, extId, ide, rtr, DlcOrLength(dlc, data))
    ensures r.Success? ==> |r.value| == |TX_MARKER| + TX_RECORD_LEN
  {
    var n := DlcOrLength(dlc, data);
    if Packable(stdId, extId, ide, rtr, n) then
      Success(TX_MARKER + LeBytes(stdId, 4) + LeBytes(extId, 4) + [ide, rtr, n] + Padded(data))
    else
      Failure(FieldOutOfRange)
  }

  /** Byte-by-byte layout of a transmitted packet. */
  lemma SendPacketLayout(data: seq<byte>, stdId: int, extId: int, ide: int, rtr: int, dlc: Option<int>)
    requires SendPacket(data, stdId, extId, ide, rtr, dlc).Success?
    ensures var w := SendPacket(data, stdId, extId, ide, rtr, dlc).value;
      && w[..3] == TX_MARKER
      && LeValue(w[3..7]) == stdId
      && LeValue(w[7..11]) == extId
      && w[11] == ide && w[12] == rtr
      && w[13] == DlcOrLength(dlc, data)
      && (dlc.None? ==> w[13] == |data|)
      && (forall i :: 0 <= i < 8 ==> w[14 + i] == if i < |data| then data[i] else 0)
  {
    var w := SendPacket(data, stdId, extId, ide, rtr, dlc).value;
    assert w[3..7] == LeBytes(stdId, 4);
    assert w[7..11] == LeBytes(extId, 4);
    assert w[14..22] == Padded(data);
    LeValueOfBytes(stdId, 4);
    LeValueOfBytes(extId, 4);
  }

  /**
   * The transmit record is the receive layout without its trailing filter
   * index: reading bytes 3..22 with any filter byte appended as a receive
   * record gives back the fields sendPacket was called with.
   */
  lemma SendPacketDecodesAsRx(data: seq<byte>, stdId: int, extId: int, ide: int, rtr: int, dlc: Option<int>, fmi: byte)
    requires SendPacket(data, stdId, extId, ide, rtr, dlc).Success?
    ensures var w := SendPacket(data, stdId, extId, ide, rtr, dlc).value;
      var m := UnpackRx(w[3..] + [fmi]);
      && m.stdId == stdId && m.extId == extId && m.ide == ide && m.rtr == rtr
      && m.dlc == DlcOrLength(dlc, data) && m.data == Padded(data) && m.fmi == fmi
  {
    var w := SendPacket(data, stdId, extId, ide, rtr, dlc).value;
    var m := RxMsg(stdId, extId, ide, rtr, DlcOrLength(dlc, data), Padded(data), fmi);
    assert w[3..] + [fmi] == PackRx(m);
    UnpackPackRx(m);
  }
}
