/**
 * The DMX example interface (`ModbusDMX`): holding registers 1..512 are DMX
 * channels 1..512; a written register value is scaled down to a DMX level
 * and a read returns the channel's level scaled up to 16 bits.
 *
 * The DMX driver is outside the model: its `set` outcome is an input, the
 * channel levels `get` returns are an input sequence, and the channel map
 * handed to `set` and the frame handed to the receive callbacks are outputs.
 */
module ModbusDmx {
  import opened Wrappers
  import opened ModbusCore
  import opened ModbusInterface

  /** EZDMX::DMX_UNIVERSE_SIZE. */
  const DmxUniverseSize: nat := 512

  /** The frame this interface receives: data is a vector of any length. */
  datatype DmxFrame = DmxFrame(msgType: MsgType, slaveId: byte, fc: int, regAddress: u16, regCount: u16,
                               data: seq<u16>, exceptionCode: byte)

  /** `scaleToDMX(v)`: the nearest of the 256 levels, each level spanning 257 register values. */
  function ScaleToDmx(v: u16): (d: byte)
    ensures 257 * d as int - 128 <= v as int <= 257 * d as int + 128
  {
    var q := (v * 255 + 32767) / 65535;
    assert 65535 * q <= v * 255 + 32767 < 65535 * q + 65535;
    q
  }

  /** `scaleToModbus(d)`: a level times 257, so 0 stays 0 and 255 becomes 65535. */
  function ScaleToModbus(d: byte): (v: u16)
    ensures v as int == 257 * d as int
  {
    var q := (d * 65535 + 127) / 255;
    assert 255 * q <= d * 65535 + 127 < 255 * q + 255;
    q
  }

  /** Scaling a level up and back down returns the level. */
  lemma ScaleRoundTrip(d: byte)
    ensures ScaleToDmx(ScaleToModbus(d)) == d
  {
    var v := ScaleToModbus(d);
    var e := ScaleToDmx(v);
    assert 257 * e as int - 128 <= 257 * d as int <= 257 * e as int + 128;
  }

  /** Scaling down keeps the order of register values. */
  lemma ScaleToDmxMonotone(v: u16, w: u16)
    requires v <= w
    ensures ScaleToDmx(v) <= ScaleToDmx(w)
  {
    var a, b := ScaleToDmx(v), ScaleToDmx(w);
    assert (v * 255 + 32767) / 65535 <= (w * 255 + 32767) / 65535;
  }

  /** The 16-bit channel key start + i, as the map's uint16_t key type keeps it. */
  function Channel(start: u16, i: nat): (c: u16)
    requires i <= 0xFFFF
    ensures c as int == (start as int + i) % 0x1_0000
  {
    if start as int + i < 0x1_0000 then start as int + i else start as int + i - 0x1_0000
  }

  /** The channel map a write of vals from start hands to the driver. */
  function ChannelLevels(start: u16, vals: seq<u16>): (m: map<u16, byte>)
    requires |vals| <= 0xFFFF
    ensures forall i :: 0 <= i < |vals| ==> Channel(start, i) in m && m[Channel(start, i)] == ScaleToDmx(vals[i])
  {
    if |vals| == 0 then map[]
    else ChannelLevels(start, vals[..|vals| - 1])[Channel(start, |vals| - 1) := ScaleToDmx(vals[|vals| - 1])]
  }

  /** The map holds no other channel than the written ones. */
  lemma {:induction false} ChannelLevelsKeys(start: u16, vals: seq<u16>)
    requires |vals| <= 0xFFFF
    ensures forall c :: c in ChannelLevels(start, vals) ==> exists i :: 0 <= i < |vals| && c == Channel(start, i)
  {
    if |vals| > 0 {
      var init := vals[..|vals| - 1];
      ChannelLevelsKeys(start, init);
      forall c | c in ChannelLevels(start, vals)
        ensures exists i :: 0 <= i < |vals| && c == Channel(start, i)
      {
        if c != Channel(start, |vals| - 1) {
          assert c in ChannelLevels(start, init);
          var i :| 0 <= i < |init| && c == Channel(start, i);
        }
      }
    }
  }

  /** The register values a read returns: each channel level scaled up. */
  function ScaledLevels(levels: seq<byte>, first: nat, count: nat): (vals: seq<u16>)
    requires first + count <= |levels|
    ensures |vals| == count && forall i :: 0 <= i < count ==> vals[i] as int == 257 * levels[first + i] as int
  {
    if count == 0 then [] else ScaledLevels(levels, first, count - 1) + [ScaleToModbus(levels[first + count - 1])]
  }

  /** What one `sendFrame` call does: its result, the levels set on the driver, the frame handed on. */
  datatype DmxOutcome = DmxOutcome(result: IfResult, written: Option<map<u16, byte>>, notified: Option<DmxFrame>)

  /**
   * `sendFrame(frame)`: only requests are handled; the address must be a
   * channel; a single write needs one value, a multiple write regCount
   * values, a read a count that stays inside the universe; a write the
   * driver refuses is ERR_SEND_FAILED; broadcast writes hand on no reply.
   * levels[c - 1] is the level of channel c.
   */
  method SendFrame(frame: DmxFrame, setOk: bool, levels: seq<byte>) returns (o: DmxOutcome)
    requires |levels| == DmxUniverseSize
    ensures frame.msgType != Request ==> o == DmxOutcome(Success, None, None)
    ensures frame.msgType == Request && !(1 <= frame.regAddress <= DmxUniverseSize) ==>
      o == DmxOutcome(ErrInvalidFrame, None, None)
    ensures frame.msgType == Request && 1 <= frame.regAddress <= DmxUniverseSize
      && frame.fc !in {WriteRegister, WriteMultipleRegisters, ReadHoldingRegisters}
      ==> o == DmxOutcome(ErrInvalidMsgType, None, None)
    ensures frame.msgType == Request && 1 <= frame.regAddress <= DmxUniverseSize && frame.fc == WriteRegister ==>
      if |frame.data| < 1 then o == DmxOutcome(ErrInvalidFrame, None, None)
      else (o.written == Some(map[frame.regAddress := ScaleToDmx(frame.data[0])])
        && o.result == (if setOk then Success else ErrSendFailed)
        && o.notified == (if setOk && frame.slaveId != 0
                          then Some(DmxFrame(Response, frame.slaveId, frame.fc, frame.regAddress, 1, [frame.data[0]], NullException))
                          else None))
    ensures frame.msgType == Request && 1 <= frame.regAddress <= DmxUniverseSize && frame.fc == WriteMultipleRegisters ==>
      if |frame.data| < frame.regCount as int then o == DmxOutcome(ErrInvalidFrame, None, None)
      else (o.written == Some(ChannelLevels(frame.regAddress, frame.data[..frame.regCount]))
        && o.result == (if setOk then Success else ErrSendFailed)
        && o.notified == (if setOk && frame.slaveId != 0
                          then Some(DmxFrame(Response, frame.slaveId, frame.fc, frame.regAddress, frame.regCount, [], NullException))
                          else None))
    ensures frame.msgType == Request && 1 <= frame.regAddress <= DmxUniverseSize && frame.fc == ReadHoldingRegisters ==>
      if frame.regCount < 1 || frame.regAddress + frame.regCount - 1 > DmxUniverseSize
      then o == DmxOutcome(ErrInvalidFrame, None, None)
      else o == DmxOutcome(Success, None, Some(DmxFrame(Response, frame.slaveId, frame.fc, frame.regAddress, frame.regCount,
                                                         ScaledLevels(levels, frame.regAddress - 1, frame.regCount), NullException)))
  {
    if frame.msgType != Request {
      return DmxOutcome(Success, None, None);
    }
    var isBroadcast := IsBroadcastId(frame.slaveId);
    if frame.regAddress < 1 || frame.regAddress > DmxUniverseSize {
      return DmxOutcome(ErrInvalidFrame, None, None);
    }
    if frame.fc == WriteRegister {
      o := WriteSingle(frame, setOk, isBroadcast);
    } else if frame.fc == WriteMultipleRegisters {
      o := WriteMultiple(frame, setOk, isBroadcast);
    } else if frame.fc == ReadHoldingRegisters {
      o := ReadChannels(frame, levels);
    } else {
      o := DmxOutcome(ErrInvalidMsgType, None, None);
    }
  }

  /** The WRITE_SINGLE_REGISTER case of `sendFrame`. */
  method WriteSingle(frame: DmxFrame, setOk: bool, isBroadcast: bool) returns (o: DmxOutcome)
    ensures if |frame.data| < 1 then o == DmxOutcome(ErrInvalidFrame, None, None)
      else (o.written == Some(map[frame.regAddress := ScaleToDmx(frame.data[0])])
        && o.result == (if setOk then Success else ErrSendFailed)
        && o.notified == (if setOk && !isBroadcast
                          then Some(DmxFrame(Response, frame.slaveId, frame.fc, frame.regAddress, 1, [frame.data[0]], NullException))
                          else None))
  {
    if |frame.data| < 1 {
      return DmxOutcome(ErrInvalidFrame, None, None);
    }
    var m := map[frame.regAddress := ScaleToDmx(frame.data[0])];
    if !setOk {
      return DmxOutcome(ErrSendFailed, Some(m), None);
    }
    var resp := if isBroadcast then None
                else Some(DmxFrame(Response, frame.slaveId, frame.fc, frame.regAddress, 1, [frame.data[0]], NullException));
    return DmxOutcome(Success, Some(m), resp);
  }

  /** The WRITE_MULTIPLE_REGISTERS case of `sendFrame`: one channel per value, in order. */
  method WriteMultiple(frame: DmxFrame, setOk: bool, isBroadcast: bool) returns (o: DmxOutcome)
    ensures if |frame.data| < frame.regCount as int then o == DmxOutcome(ErrInvalidFrame, None, None)
      else (o.written == Some(ChannelLevels(frame.regAddress, frame.data[..frame.regCount]))
        && o.result == (if setOk then Success else ErrSendFailed)
        && o.notified == (if setOk && !isBroadcast
                          then Some(DmxFrame(Response, frame.slaveId, frame.fc, frame.regAddress, frame.regCount, [], NullException))
                          else None))
  {
    if |frame.data| < frame.regCount as int {
      return DmxOutcome(ErrInvalidFrame, None, None);
    }
    var m: map<u16, byte> := map[];
    var i := 0;
    while i < frame.regCount as int
      invariant 0 <= i <= frame.regCount as int
      invariant m == ChannelLevels(frame.regAddress, frame.data[..i])
    {
      assert frame.data[..i + 1][..i] == frame.data[..i];
      m := m[Channel(frame.regAddress, i) := ScaleToDmx(frame.data[i])];
      i := i + 1;
    }
    if !setOk {
      return DmxOutcome(ErrSendFailed, Some(m), None);
    }
    var resp := if isBroadcast then None
                else Some(DmxFrame(Response, frame.slaveId, frame.fc, frame.regAddress, frame.regCount, [], NullException));
    return DmxOutcome(Success, Some(m), resp);
  }

  /** The READ_HOLDING_REGISTERS case of `sendFrame`: the reply is handed on even for a broadcast. */
  method ReadChannels(frame: DmxFrame, levels: seq<byte>) returns (o: DmxOutcome)
    requires |levels| == DmxUniverseSize && 1 <= frame.regAddress
    ensures if frame.regCount < 1 || frame.regAddress + frame.regCount - 1 > DmxUniverseSize
      then o == DmxOutcome(ErrInvalidFrame, None, None)
      else o == DmxOutcome(Success, None, Some(DmxFrame(Response, frame.slaveId, frame.fc, frame.regAddress, frame.regCount,
                                                        ScaledLevels(levels, frame.regAddress - 1, frame.regCount), NullException)))
  {
    if frame.regCount < 1 || frame.regAddress + frame.regCount - 1 > DmxUniverseSize {
      return DmxOutcome(ErrInvalidFrame, None, None);
    }
    var vals: seq<u16> := [];
    var i := 0;
    while i < frame.regCount as int
      invariant 0 <= i <= frame.regCount as int
      invariant vals == ScaledLevels(levels, frame.regAddress - 1, i)
    {
      vals := vals + [ScaleToModbus(levels[frame.regAddress - 1 + i])];
      i := i + 1;
    }
    return DmxOutcome(Success, None, Some(DmxFrame(Response, frame.slaveId, frame.fc, frame.regAddress, frame.regCount,
                                                  vals, NullException)));
  }
}
