/**
 * on_apply_config: the row-enable mask accumulated from the four row
 * checkboxes and the configuration frame sent to identifier 0x700.
 */
module ConfigPacket {
  import opened Wrappers
  import opened Bytes
  import opened FrameCodec
  import opened Router

  /** Number of row-enable checkboxes. */
  const ROW_ENABLES: nat := 4

  /** Declared length of the configuration payload `<BB`. */
  const CONFIG_DLC: nat := 2

  /** `row_en |= 1 << i` for every checked box i of range(4). */
  method RowEnableMask(checked: seq<bool>) returns (rowEn: bv8)
    requires |checked| == ROW_ENABLES
    ensures rowEn < 16
    ensures forall i :: 0 <= i < ROW_ENABLES ==> (rowEn & (1 << i) != 0 <==> checked[i])
  {
    rowEn := 0;
    for i := 0 to ROW_ENABLES
      invariant rowEn < (1 << i)
      invariant forall j :: 0 <= j < i ==> (rowEn & (1 << j) != 0 <==> checked[j])
    {
      if checked[i] {
        rowEn := rowEn | (1 << i);
      }
    }
  }

  /** The mask byte carries the bits the loop set. */
  lemma MaskByteBits(mask: byte, rowEn: bv8, checked: seq<bool>)
    requires |checked| == ROW_ENABLES && rowEn < 16 && mask == rowEn as int
    requires forall i :: 0 <= i < ROW_ENABLES ==> (rowEn & (1 << i) != 0 <==> checked[i])
    ensures mask < 16
    ensures forall i :: 0 <= i < ROW_ENABLES ==> ((mask as bv8) & (1 << i) != 0 <==> checked[i])
  {
    assert mask as bv8 == rowEn;
  }

  /** The configuration packet's bytes for a rate index and a mask that fit a byte. */
  lemma ConfigPacketLayout(rate: byte, mask: byte)
    ensures SendPacket([rate, mask], CFG_ADDRESS, 0, 0, 0, None).Success?
    ensures var w := SendPacket([rate, mask], CFG_ADDRESS, 0, 0, 0, None).value;
      && |w| == |TX_MARKER| + TX_RECORD_LEN && w[..3] == TX_MARKER
      && LeValue(w[3..7]) == CFG_ADDRESS && LeValue(w[7..11]) == 0
      && w[11] == 0 && w[12] == 0 && w[13] == CONFIG_DLC
      && w[14] == rate && w[15] == mask && w[16..] == [0, 0, 0, 0, 0, 0]
  {
    SendPacketLayout([rate, mask], CFG_ADDRESS, 0, 0, 0, None);
    var w := SendPacket([rate, mask], CFG_ADDRESS, 0, 0, 0, None).value;
    assert w[16..] == [w[16], w[17], w[18], w[19], w[20], w[21]];
  }

  /**
   * on_apply_config: with a serial port open, the 22 bytes written for the
   * configuration frame (identifier 0x700, standard frame, declared length
   * 2, payload [sampling rate index, row-enable mask, 0 x 6]); the
   * struct.error raised by `<BB` for a rate outside a byte; nothing without
   * a port.
   */
  method OnApplyConfig(samplingRate: int, checked: seq<bool>, connected: bool) returns (written: Option<Result<seq<byte>, PackError>>)
    requires |checked| == ROW_ENABLES
    ensures !connected ==> written == None
    ensures connected ==> written.Some? && (written.value.Success? <==> 0 <= samplingRate < 256)
    ensures connected && 0 <= samplingRate < 256 ==>
      var w := written.value.value;
      && |w| == |TX_MARKER| + TX_RECORD_LEN && w[..3] == TX_MARKER
      && LeValue(w[3..7]) == CFG_ADDRESS && LeValue(w[7..11]) == 0
      && w[11] == 0 && w[12] == 0 && w[13] == CONFIG_DLC
      && w[14] == samplingRate && w[15] < 16
      && (forall i :: 0 <= i < ROW_ENABLES ==> ((w[15] as bv8) & (1 << i) != 0 <==> checked[i]))
      && w[16..] == [0, 0, 0, 0, 0, 0]
  {
    var rowEn := RowEnableMask(checked);
    if !connected {
      return None;
    }
    if !(0 <= samplingRate < 256) {
      return Some(Failure(FieldOutOfRange));
    }
    var mask: byte := rowEn as int;
    MaskByteBits(mask, rowEn, checked);
    ConfigPacketLayout(samplingRate, mask);
    written := Some(SendPacket([samplingRate, mask], CFG_ADDRESS, 0, 0, 0, None));
  }
}
