/**
 * The RTU and TCP codecs (ModbusCodec::RTU, ModbusCodec::TCP): an application
 * data unit is the PDU framed by a slave ID and a CRC-16 (RTU) or by a
 * 7-byte MBAP header (TCP). The decoders and encoders are given as functions
 * over byte sequences, the buffer-filling code of the source as methods on a
 * ByteBuffer and a Frame proved equal to them.
 */
module ModbusFraming {
  import opened Wrappers
  import opened ModbusCore
  import opened ModbusFrame
  import opened ModbusCrc
  import opened ModbusCodec
  import opened ModbusBuffer
  import opened ModbusCodecInPlace

  const RtuMinFrameSize: nat := MinPduSize + 3
  const RtuMaxFrameSize: nat := MaxPduSize + 3
  const RtuExceptionFrameSize: nat := 5
  const MbapSize: nat := 7
  const TcpMinFrameSize: nat := MbapSize + MinPduSize
  const TcpMaxFrameSize: nat := MbapSize + MaxPduSize
  const TcpExceptionFrameSize: nat := 9

  // ---------------------------------------------------------------------------
  // RTU
  // ---------------------------------------------------------------------------

  /**
   * RTU::decode: message type, CRC, length (4..256 bytes) and slave ID are
   * checked first and leave the frame untouched when they fail; the PDU
   * between the slave ID and the CRC is then decoded into the frame (an error
   * there clears it), and the slave ID and message type are set last.
   */
  function RtuDecode(bytes: seq<byte>, prior: FrameValue, t: MsgType): (r: Decoded)
    ensures t == NullMsg ==> r == Decoded(ErrInvalidType, prior)
    ensures t != NullMsg && !ValidateCrc(bytes) ==> r == Decoded(ErrInvalidCrc, prior)
    ensures r.status != Success ==> r.frame == prior || r.frame == EmptyFrame
    ensures r.status == Success ==>
      t != NullMsg && ValidateCrc(bytes) && RtuMinFrameSize <= |bytes| <= RtuMaxFrameSize &&
      IsValidSlaveId(bytes[0], bytes[1], t, false) && r.frame.slaveId == bytes[0] && r.frame.msgType == t
  {
    if !IsValidMsgType(t) then Decoded(ErrInvalidType, prior)
    else if !ValidateCrc(bytes) then Decoded(ErrInvalidCrc, prior)
    else if |bytes| < RtuMinFrameSize || |bytes| > RtuMaxFrameSize then Decoded(ErrInvalidLen, prior)
    else if !IsValidSlaveId(bytes[0], bytes[1], t, false) then Decoded(ErrInvalidSlaveId, prior)
    else
      var d := DecodePdu(bytes[1..|bytes| - 2], prior, t);
      if d.status != Success then d
      else Decoded(Success, d.frame.(slaveId := bytes[0], msgType := t))
  }

  /**
   * RTU::encode into a cleared buffer of capacity `cap`: the frame is
   * validated (slave IDs 1..247, or the broadcast ID for writes), then the
   * slave ID, the PDU and the CRC (low byte first) are pushed. Bytes past the
   * capacity are dropped; a CRC that does not fit is an overflow, and the
   * bytes written so far stay in the buffer.
   */
  function RtuEncode(f: FrameValue, cap: nat): (r: Encoded)
    ensures |r.bytes| <= cap
    ensures IsValidFrame(f, false) != Success ==> r == Encoded(IsValidFrame(f, false), [])
    ensures r.status == Success ==>
      IsValidFrame(f, false) == Success && ValidateCrc(r.bytes) &&
      r.bytes[..|r.bytes| - 2] == [f.slaveId] + EncodePdu(f, f.msgType).bytes
    ensures r.status == ErrBufferOverflow ==> IsValidFrame(f, false) == Success && cap < |EncodePdu(f, f.msgType).bytes| + 3
  {
    var v := IsValidFrame(f, false);
    if v != Success then Encoded(v, [])
    else if cap < 1 then Encoded(ErrBufferOverflow, [])
    else
      var e := EncodePdu(f, f.msgType);
      if e.status != Success then Encoded(e.status, [])
      else
        var written := Truncate([f.slaveId] + e.bytes, cap);
        if cap - |written| < 2 then Encoded(ErrBufferOverflow, written)
        else
          AppendThenValidate(written);
          Encoded(Success, AppendCrc(written))
  }

  /**
   * RTU::buildException: the 5-byte exception reply (slave ID, function code
   * with bit 7 set, exception code, CRC), or None when the capacity is below 5.
   */
  function RtuBuildException(slaveId: byte, fc: byte, ec: byte, cap: nat): (r: Option<seq<byte>>)
    ensures r.Some? <==> cap >= RtuExceptionFrameSize
    ensures r.Some? ==>
      |r.value| == RtuExceptionFrameSize && ValidateCrc(r.value) &&
      r.value[..3] == [slaveId, WithExceptionBit(fc), ec]
  {
    if cap < RtuExceptionFrameSize then None
    else
      AppendThenValidate([slaveId, WithExceptionBit(fc), ec]);
      Some(AppendCrc([slaveId, WithExceptionBit(fc), ec]))
  }

  // ---------------------------------------------------------------------------
  // TCP
  // ---------------------------------------------------------------------------

  /** The MBAP header: transaction ID, protocol ID 0, length, unit ID. */
  function MbapBytes(tid: u16, length: u16, unitId: byte): (r: seq<byte>)
    ensures |r| == MbapSize
  {
    var t := U16Bytes(tid);
    var n := U16Bytes(length);
    [t[0], t[1], 0, 0, n[0], n[1], unitId]
  }

  /** Each field of the header reads back as written. */
  lemma MbapReadBack(tid: u16, length: u16, unitId: byte)
    ensures var r := MbapBytes(tid, length, unitId);
      Word(r[0], r[1]) == tid && Word(r[2], r[3]) == 0 && Word(r[4], r[5]) == length && r[6] == unitId
  {
  }

  /**
   * A TCP frame is the MBAP header, holding the length of the PDU actually
   * stored plus one (cast to 16 bits), followed by the PDU cut to the room left.
   */
  lemma TcpEncodeLayout(f: FrameValue, tid: u16, cap: nat)
    requires TcpEncode(f, tid, cap).status == Success
    ensures var r := TcpEncode(f, tid, cap).bytes;
      PayloadInBounds(f, f.msgType) && EncodePdu(f, f.msgType).status == Success && cap >= MbapSize &&
      r[..MbapSize] == MbapBytes(tid, (|r| - MbapSize + 1) % 0x1_0000, f.slaveId) &&
      r[MbapSize..] == Truncate(EncodePdu(f, f.msgType).bytes, cap - MbapSize)
  {
  }

  /** The transaction ID of a TCP frame, as the TCP interface reads it from the MBAP header. */
  function TransactionId(bytes: seq<byte>): u16
    requires |bytes| >= 2
  {
    Word(bytes[0], bytes[1])
  }

  /** The transaction ID read from a frame writes back as its first two bytes. */
  lemma TransactionIdBytes(bytes: seq<byte>)
    requires |bytes| >= 2
    ensures U16Bytes(TransactionId(bytes)) == bytes[..2]
  {
  }

  /**
   * TCP::decode: message type, length (8..260 bytes), the MBAP length field
   * (the PDU length plus one) and protocol ID 0 are checked first and leave
   * the frame untouched; the PDU after the header is decoded into the frame
   * (an error clears it), then the message type and the unit ID are set. The
   * unit ID itself is not validated.
   */
  function TcpDecode(bytes: seq<byte>, prior: FrameValue, t: MsgType): (r: Decoded)
    ensures t == NullMsg ==> r == Decoded(ErrInvalidType, prior)
    ensures r.status != Success ==> r.frame == prior || r.frame == EmptyFrame
    ensures r.status == Success ==>
      t != NullMsg && TcpMinFrameSize <= |bytes| <= TcpMaxFrameSize &&
      Word(bytes[4], bytes[5]) == |bytes| - MbapSize + 1 && Word(bytes[2], bytes[3]) == 0 &&
      r.frame.slaveId == bytes[6] && r.frame.msgType == t
  {
    if !IsValidMsgType(t) then Decoded(ErrInvalidType, prior)
    else if |bytes| < TcpMinFrameSize || |bytes| > TcpMaxFrameSize then Decoded(ErrInvalidLen, prior)
    else if Word(bytes[4], bytes[5]) != |bytes| - MbapSize + 1 then Decoded(ErrInvalidMbapLen, prior)
    else if Word(bytes[2], bytes[3]) != 0 then Decoded(ErrInvalidMbapProtocolId, prior)
    else
      var d := DecodePdu(bytes[MbapSize..], prior, t);
      if d.status != Success then d
      else Decoded(Success, d.frame.(msgType := t, slaveId := bytes[6]))
  }

  /**
   * TCP::encode into a cleared buffer of capacity `cap`: the frame is
   * validated with extended unit IDs, the PDU is appended after 7 reserved
   * bytes (an overflow when the capacity is below 7) and the MBAP header is
   * written over them with the length of the PDU actually stored (cast to 16
   * bits). A PDU longer
   * than the room left is cut short and the encoding still succeeds.
   */
  function TcpEncode(f: FrameValue, tid: u16, cap: nat): (r: Encoded)
    ensures |r.bytes| <= cap
    ensures IsValidFrame(f, true) != Success ==> r == Encoded(IsValidFrame(f, true), [])
    ensures r.status == ErrBufferOverflow <==> IsValidFrame(f, true) == Success && cap < MbapSize
    ensures r.status == Success ==> IsValidFrame(f, true) == Success && |r.bytes| >= MbapSize
  {
    var v := IsValidFrame(f, true);
    if v != Success then Encoded(v, [])
    else if cap < MbapSize then Encoded(ErrBufferOverflow, [])
    else
      var e := EncodePdu(f, f.msgType);
      if e.status != Success then Encoded(e.status, [])
      else
        var pdu := Truncate(e.bytes, cap - MbapSize);
        var header := MbapBytes(tid, (|pdu| + 1) % 0x1_0000, f.slaveId);
        SplitAt(header, pdu);
        Encoded(Success, header + pdu)
  }

  /** The two parts of a concatenation. */
  lemma SplitAt(a: seq<byte>, b: seq<byte>)
    ensures (a + b)[..|a|] == a && (a + b)[|a|..] == b
  {
  }

  /**
   * TCP::buildException: the 9-byte exception reply (MBAP header with length
   * 3, unit ID, function code with bit 7 set, exception code), or None when
   * the capacity is below 9.
   */
  function TcpBuildException(tid: u16, unitId: byte, fc: byte, ec: byte, cap: nat): (r: Option<seq<byte>>)
    ensures r.Some? <==> cap >= TcpExceptionFrameSize
    ensures r.Some? ==>
      |r.value| == TcpExceptionFrameSize && r.value[..MbapSize] == MbapBytes(tid, 3, unitId) &&
      r.value[MbapSize..] == [WithExceptionBit(fc), ec]
  {
    if cap < TcpExceptionFrameSize then None
    else Some(MbapBytes(tid, 3, unitId) + [WithExceptionBit(fc), ec])
  }

  // ---------------------------------------------------------------------------
  // Round trips
  // ---------------------------------------------------------------------------

  /** A decoded message keeps what it carries when the slave ID and message type are set. */
  lemma CarriesIgnoresHeader(f: FrameValue, g: FrameValue, t: MsgType, slaveId: byte)
    requires Carries(f, g)
    ensures Carries(f, g.(msgType := t, slaveId := slaveId))
  {
  }

  /** An RTU frame around a PDU that decodes decodes to that PDU's frame, with the slave ID and type set. */
  lemma RtuDecodeFramed(slaveId: byte, pdu: seq<byte>, prior: FrameValue, t: MsgType)
    requires 1 <= |pdu| <= MaxPduSize && t != NullMsg && IsValidSlaveId(slaveId, pdu[0], t, false)
    requires DecodePdu(pdu, prior, t).status == Success
    ensures var bytes := AppendCrc([slaveId] + pdu);
      RtuDecode(bytes, prior, t) == Decoded(Success, DecodePdu(pdu, prior, t).frame.(slaveId := slaveId, msgType := t))
  {
    var body := [slaveId] + pdu;
    var bytes := AppendCrc(body);
    AppendThenValidate(body);
    assert bytes[1..|bytes| - 2] == pdu;
  }

  /** A TCP frame around a PDU that decodes decodes to that PDU's frame, with the unit ID and type set. */
  lemma TcpDecodeFramed(header: seq<byte>, pdu: seq<byte>, prior: FrameValue, t: MsgType)
    requires |header| == MbapSize && Word(header[2], header[3]) == 0 && Word(header[4], header[5]) == |pdu| + 1
    requires 1 <= |pdu| <= MaxPduSize && t != NullMsg
    requires DecodePdu(pdu, prior, t).status == Success
    ensures TcpDecode(header + pdu, prior, t) ==
      Decoded(Success, DecodePdu(pdu, prior, t).frame.(msgType := t, slaveId := header[6]))
  {
    var bytes := header + pdu;
    assert bytes[MbapSize..] == pdu;
    assert bytes[2] == header[2] && bytes[3] == header[3] && bytes[4] == header[4] && bytes[5] == header[5];
  }

  /**
   * With room for the largest RTU frame, every valid frame (except a
   * write-single-coil holding neither 0 nor 1) encodes successfully, and
   * decoding the bytes gives back its slave ID, message type and the message.
   */
  lemma RtuRoundTrip(f: FrameValue, prior: FrameValue, cap: nat)
    requires IsValidFrame(f, false) == Success && !BadCoilValue(f) && cap >= RtuMaxFrameSize
    ensures var e := RtuEncode(f, cap);
      e.status == Success && |e.bytes| <= RtuMaxFrameSize &&
      var d := RtuDecode(e.bytes, prior, f.msgType);
      d.status == Success && Carries(f, d.frame) && d.frame.slaveId == f.slaveId && d.frame.msgType == f.msgType
  {
    PduRoundTrip(f, prior, false);
    var pdu := EncodePdu(f, f.msgType).bytes;
    var written := [f.slaveId] + pdu;
    assert Truncate(written, cap) == written;
    assert RtuEncode(f, cap) == Encoded(Success, AppendCrc(written));
    RtuDecodeFramed(f.slaveId, pdu, prior, f.msgType);
    CarriesIgnoresHeader(f, DecodePdu(pdu, prior, f.msgType).frame, f.msgType, f.slaveId);
  }

  /** The same for TCP, with room for the largest TCP frame; the transaction ID comes back too. */
  lemma TcpRoundTrip(f: FrameValue, prior: FrameValue, tid: u16, cap: nat)
    requires IsValidFrame(f, true) == Success && !BadCoilValue(f) && cap >= TcpMaxFrameSize
    ensures var e := TcpEncode(f, tid, cap);
      e.status == Success && |e.bytes| <= TcpMaxFrameSize && TransactionId(e.bytes) == tid &&
      var d := TcpDecode(e.bytes, prior, f.msgType);
      d.status == Success && Carries(f, d.frame) && d.frame.slaveId == f.slaveId && d.frame.msgType == f.msgType
  {
    PduDecodes(f, prior, true);
    TcpEncodeWhole(f, tid, cap);
    var pdu := EncodePdu(f, f.msgType).bytes;
    TcpFramedDecodes(prior, f.msgType, tid, f.slaveId, pdu, TcpEncode(f, tid, cap).bytes);
    CarriesIgnoresHeader(f, DecodePdu(pdu, prior, f.msgType).frame, f.msgType, f.slaveId);
  }

  /** The TCP frame around a PDU that decodes decodes to that PDU's frame, with its unit ID and transaction ID. */
  lemma TcpFramedDecodes(prior: FrameValue, t: MsgType, tid: u16, unitId: byte, pdu: seq<byte>, bytes: seq<byte>)
    requires 1 <= |pdu| <= MaxPduSize && t != NullMsg && DecodePdu(pdu, prior, t).status == Success
    requires bytes == MbapBytes(tid, |pdu| + 1, unitId) + pdu
    ensures TransactionId(bytes) == tid
    ensures var d := TcpDecode(bytes, prior, t);
      d.status == Success && d.frame == DecodePdu(pdu, prior, t).frame.(msgType := t, slaveId := unitId)
  {
    var header := MbapBytes(tid, |pdu| + 1, unitId);
    assert bytes[MbapSize..] == pdu;
    assert bytes[2] == header[2] && bytes[3] == header[3] && bytes[4] == header[4] && bytes[5] == header[5];
    assert bytes[6] == unitId;
  }

  /** With room for the largest TCP frame, a PDU that encodes is stored whole behind its header. */
  lemma TcpEncodeWhole(f: FrameValue, tid: u16, cap: nat)
    requires IsValidFrame(f, true) == Success && !BadCoilValue(f) && cap >= TcpMaxFrameSize
    ensures PayloadInBounds(f, f.msgType) && EncodePdu(f, f.msgType).status == Success
    ensures var pdu := EncodePdu(f, f.msgType).bytes;
      var e := TcpEncode(f, tid, cap);
      |pdu| <= MaxPduSize && e.status == Success && e.bytes == MbapBytes(tid, |pdu| + 1, f.slaveId) + pdu &&
      |e.bytes| == MbapSize + |pdu|
  {
    PduEncodes(f, true);
    var pdu := EncodePdu(f, f.msgType).bytes;
    assert Truncate(pdu, cap - MbapSize) == pdu;
    assert (|pdu| + 1) % 0x1_0000 == |pdu| + 1;
    var header := MbapBytes(tid, |pdu| + 1, f.slaveId);
    assert TcpEncode(f, tid, cap) == Encoded(Success, header + pdu);
  }

  /** The PDU of an exception reply decodes, as a response, into that exception. */
  lemma ExceptionPduDecodes(fc: byte, ec: byte, prior: FrameValue)
    requires IsSupportedFunctionCode(fc) && IsValidExceptionCode(ec)
    ensures DecodePdu([WithExceptionBit(fc), ec], prior, Response) ==
      Decoded(Success, prior.(fc := fc, exceptionCode := ec))
  {
  }

  /**
   * An RTU exception reply built for a regular slave ID, a supported function
   * code and a valid exception code decodes, as a response, into that
   * exception.
   */
  lemma RtuExceptionDecodes(slaveId: byte, fc: byte, ec: byte, prior: FrameValue)
    requires 1 <= slaveId <= MaxSlaveId && IsSupportedFunctionCode(fc) && IsValidExceptionCode(ec)
    ensures var d := RtuDecode(RtuBuildException(slaveId, fc, ec, RtuExceptionFrameSize).value, prior, Response);
      d.status == Success && d.frame == prior.(msgType := Response, slaveId := slaveId, fc := fc, exceptionCode := ec)
  {
    var body := [slaveId, WithExceptionBit(fc), ec];
    var bytes := AppendCrc(body);
    AppendThenValidate(body);
    assert bytes[1..|bytes| - 2] == [WithExceptionBit(fc), ec];
  }

  /** The same for a TCP exception reply, with any unit ID. */
  lemma TcpExceptionDecodes(tid: u16, unitId: byte, fc: byte, ec: byte, prior: FrameValue)
    requires IsSupportedFunctionCode(fc) && IsValidExceptionCode(ec)
    ensures var bytes := TcpBuildException(tid, unitId, fc, ec, TcpExceptionFrameSize).value;
      var d := TcpDecode(bytes, prior, Response);
      d.status == Success && d.frame == prior.(msgType := Response, slaveId := unitId, fc := fc, exceptionCode := ec)
  {
    var bytes := MbapBytes(tid, 3, unitId) + [WithExceptionBit(fc), ec];
    assert TcpBuildException(tid, unitId, fc, ec, TcpExceptionFrameSize).value == bytes;
    TcpExceptionFrameDecodes(tid, unitId, fc, ec, prior);
  }

  lemma TcpExceptionFrameDecodes(tid: u16, unitId: byte, fc: byte, ec: byte, prior: FrameValue)
    requires IsSupportedFunctionCode(fc) && IsValidExceptionCode(ec)
    ensures var d := TcpDecode(MbapBytes(tid, 3, unitId) + [WithExceptionBit(fc), ec], prior, Response);
      d.status == Success && d.frame == prior.(msgType := Response, slaveId := unitId, fc := fc, exceptionCode := ec)
  {
    var header := MbapBytes(tid, 3, unitId);
    var pdu := [WithExceptionBit(fc), ec];
    MbapReadBack(tid, 3, unitId);
    ExceptionPduDecodes(fc, ec, prior);
    TcpDecodeFramed(header, pdu, prior, Response);
  }

  /**
   * RTU framing of a valid frame fails with an overflow exactly when the
   * slave ID, the PDU and the CRC do not all fit.
   */
  lemma RtuOverflow(f: FrameValue, cap: nat)
    requires IsValidFrame(f, false) == Success && !BadCoilValue(f)
    ensures RtuEncode(f, cap).status == ErrBufferOverflow <==> cap < |EncodePdu(f, f.msgType).bytes| + 3
  {
    PduRoundTrip(f, f, false);
  }

  // ---------------------------------------------------------------------------
  // The codecs on buffers and frames
  // ---------------------------------------------------------------------------

  /** validateCRC on a byte sequence, computing the CRC with the table loop. */
  method CheckCrc(bs: seq<byte>) returns (ok: bool)
    ensures ok == ValidateCrc(bs)
  {
    if |bs| < 2 {
      return false;
    }
    var crc := CalculateCrc(bs[..|bs| - 2]);
    ok := bs[|bs| - 1] as int * 0x100 + bs[|bs| - 2] as int == crc;
  }

  /** appendCRC: pushes the CRC, low byte first, when two bytes are free; otherwise does nothing. */
  method AppendCrcTo(buf: ByteBuffer)
    requires buf.Valid()
    modifies buf, buf.bytes
    ensures buf.Valid()
    ensures old(buf.size) + 2 <= buf.cap ==> buf.Contents() == AppendCrc(old(buf.Contents()))
    ensures old(buf.size) + 2 > buf.cap ==> buf.Contents() == old(buf.Contents())
  {
    if buf.FreeSpace() < 2 {
      return;
    }
    var crc := CalculateCrc(buf.Contents());
    var _ := buf.PushBack(crc % 0x100);
    var _ := buf.PushBack(crc / 0x100);
  }

  /** RTU::decode into a frame object. */
  method RtuDecodeInto(bytes: seq<byte>, frame: Frame, t: MsgType) returns (st: Status)
    requires frame.Valid()
    modifies frame, frame.data
    ensures frame.Valid()
    ensures st == RtuDecode(bytes, old(frame.Value()), t).status
    ensures frame.Value() == RtuDecode(bytes, old(frame.Value()), t).frame
  {
    if !IsValidMsgType(t) {
      return ErrInvalidType;
    }
    var crcOk := CheckCrc(bytes);
    if !crcOk {
      return ErrInvalidCrc;
    }
    if |bytes| < RtuMinFrameSize || |bytes| > RtuMaxFrameSize {
      return ErrInvalidLen;
    }
    if !IsValidSlaveId(bytes[0], bytes[1], t, false) {
      return ErrInvalidSlaveId;
    }
    st := SetFromBytes(bytes[1..|bytes| - 2], frame, t);
    if st != Success {
      return;
    }
    frame.slaveId := bytes[0];
    frame.msgType := t;
  }

  /** RTU::encode into a buffer. */
  method RtuEncodeTo(f: FrameValue, buf: ByteBuffer) returns (st: Status)
    requires buf.Valid()
    modifies buf, buf.bytes
    ensures buf.Valid()
    ensures st == RtuEncode(f, buf.cap).status && buf.Contents() == RtuEncode(f, buf.cap).bytes
  {
    buf.Clear();
    var v := IsValidFrame(f, false);
    if v != Success {
      return v;
    }
    if buf.FreeSpace() < 1 {
      return ErrBufferOverflow;
    }
    var _ := buf.PushBack(f.slaveId);
    assert buf.Contents() == [f.slaveId];
    st := AppendToBytes(f, f.msgType, buf, None);
    if st != Success {
      return;
    }
    RtuEncodeParts(f, buf.cap);
    var sizeBeforeCrc := buf.size;
    AppendCrcTo(buf);
    if buf.size != sizeBeforeCrc + 2 {
      return ErrBufferOverflow;
    }
    st := Success;
  }

  /** RTU::encode once the frame is valid and its PDU encoded: the CRC is appended when two bytes are free. */
  lemma RtuEncodeParts(f: FrameValue, cap: nat)
    requires IsValidFrame(f, false) == Success && cap >= 1 && EncodePdu(f, f.msgType).status == Success
    ensures var written := Truncate([f.slaveId] + EncodePdu(f, f.msgType).bytes, cap);
      RtuEncode(f, cap) == if cap - |written| < 2 then Encoded(ErrBufferOverflow, written) else Encoded(Success, AppendCrc(written))
  {
  }

  /** RTU::buildException: fills the buffer with the exception reply; false when the capacity is below 5. */
  method RtuBuildExceptionTo(slaveId: byte, fc: byte, ec: byte, buf: ByteBuffer) returns (ok: bool)
    requires buf.Valid()
    modifies buf, buf.bytes
    ensures buf.Valid()
    ensures ok <==> RtuBuildException(slaveId, fc, ec, buf.cap).Some?
    ensures ok ==> buf.Contents() == RtuBuildException(slaveId, fc, ec, buf.cap).value
    ensures !ok ==> buf.Contents() == old(buf.Contents())
  {
    if buf.cap < RtuExceptionFrameSize {
      return false;
    }
    buf.Clear();
    var _ := buf.PushBack(slaveId);
    var _ := buf.PushBack(WithExceptionBit(fc));
    var _ := buf.PushBack(ec);
    assert buf.Contents() == [slaveId, WithExceptionBit(fc), ec];
    AppendCrcTo(buf);
    ok := buf.size == RtuExceptionFrameSize;
  }

  /** TCP::decode into a frame object. */
  method TcpDecodeInto(bytes: seq<byte>, frame: Frame, t: MsgType) returns (st: Status)
    requires frame.Valid()
    modifies frame, frame.data
    ensures frame.Valid()
    ensures st == TcpDecode(bytes, old(frame.Value()), t).status
    ensures frame.Value() == TcpDecode(bytes, old(frame.Value()), t).frame
  {
    if !IsValidMsgType(t) {
      return ErrInvalidType;
    }
    if |bytes| < TcpMinFrameSize || |bytes| > TcpMaxFrameSize {
      return ErrInvalidLen;
    }
    var length := Word(bytes[4], bytes[5]);
    var protocolId := Word(bytes[2], bytes[3]);
    if length != |bytes| - MbapSize + 1 {
      return ErrInvalidMbapLen;
    }
    if protocolId != 0 {
      return ErrInvalidMbapProtocolId;
    }
    st := SetFromBytes(bytes[MbapSize..], frame, t);
    if st != Success {
      return;
    }
    frame.msgType := t;
    frame.slaveId := bytes[6];
  }

  /** A prefix that fits survives truncation whole. */
  lemma TruncateAfter(a: seq<byte>, b: seq<byte>, n: nat)
    requires |a| <= n
    ensures Truncate(a + b, n) == a + Truncate(b, n - |a|)
  {
  }

  /** MBAP::writeToBytes: writes the header at `offset` when the capacity allows it. */
  method WriteMbapTo(buf: ByteBuffer, offset: nat, tid: u16, length: u16, unitId: byte)
    requires buf.Valid()
    modifies buf, buf.bytes
    ensures buf.Valid()
    ensures buf.cap < offset + MbapSize ==> buf.size == old(buf.size) && buf.bytes[..] == old(buf.bytes[..])
    ensures buf.cap >= offset + MbapSize ==>
      buf.bytes[..] == old(buf.bytes[..offset]) + MbapBytes(tid, length, unitId) + old(buf.bytes[offset + MbapSize..]) &&
      buf.size == Max(old(buf.size), offset + MbapSize)
  {
    if buf.cap < offset + MbapSize {
      return;
    }
    var _ := buf.WriteAllAt(offset, MbapBytes(tid, length, unitId));
  }

  /** TCP::encode into a buffer. */
  method TcpEncodeTo(f: FrameValue, tid: u16, buf: ByteBuffer) returns (st: Status)
    requires buf.Valid()
    modifies buf, buf.bytes
    ensures buf.Valid()
    ensures st == TcpEncode(f, tid, buf.cap).status && buf.Contents() == TcpEncode(f, tid, buf.cap).bytes
  {
    buf.Clear();
    var v := IsValidFrame(f, true);
    if v != Success {
      return v;
    }
    st := AppendToBytes(f, f.msgType, buf, Some(MbapSize));
    if st != Success {
      return;
    }
    ReservedThenPdu(EncodePdu(f, f.msgType).bytes, buf.cap);
    WriteHeaderOver(buf, tid, f.slaveId, Truncate(EncodePdu(f, f.msgType).bytes, buf.cap - MbapSize));
  }

  /** The buffer appendToBytes leaves when asked to write at position 7 of an empty buffer. */
  lemma ReservedThenPdu(pdu: seq<byte>, cap: nat)
    requires cap >= MbapSize
    ensures Truncate(Resized([], MbapSize) + pdu, cap) == ZeroBytes(MbapSize) + Truncate(pdu, cap - MbapSize)
  {
    assert Resized([], MbapSize) == ZeroBytes(MbapSize);
    TruncateAfter(ZeroBytes(MbapSize), pdu, cap);
  }

  /** The end of TCP::encode: the header, with the length of the PDU stored, over the 7 reserved bytes. */
  method WriteHeaderOver(buf: ByteBuffer, tid: u16, unitId: byte, ghost pdu: seq<byte>)
    requires buf.Valid() && buf.Contents() == ZeroBytes(MbapSize) + pdu
    modifies buf, buf.bytes
    ensures buf.Valid()
    ensures buf.Contents() == MbapBytes(tid, (|pdu| + 1) % 0x1_0000, unitId) + pdu
  {
    ghost var before := buf.bytes[..];
    var pduSize := buf.size - MbapSize;
    WriteMbapTo(buf, 0, tid, (pduSize + 1) % 0x1_0000, unitId);
    ghost var header := MbapBytes(tid, (pduSize + 1) % 0x1_0000, unitId);
    assert buf.bytes[..] == header + before[MbapSize..];
    forall k | 0 <= k < buf.size
      ensures buf.bytes[k] == (header + pdu)[k]
    {
      if k >= MbapSize {
        assert before[k] == (ZeroBytes(MbapSize) + pdu)[k];
      }
    }
    assert buf.Contents() == header + pdu;
  }

  /** TCP::buildException: fills the buffer with the exception reply; false when the capacity is below 9. */
  method TcpBuildExceptionTo(tid: u16, unitId: byte, fc: byte, ec: byte, buf: ByteBuffer) returns (ok: bool)
    requires buf.Valid()
    modifies buf, buf.bytes
    ensures buf.Valid()
    ensures ok <==> TcpBuildException(tid, unitId, fc, ec, buf.cap).Some?
    ensures ok ==> buf.Contents() == TcpBuildException(tid, unitId, fc, ec, buf.cap).value
    ensures !ok ==> buf.Contents() == old(buf.Contents())
  {
    if buf.cap < TcpExceptionFrameSize {
      return false;
    }
    buf.Clear();
    var _ := buf.Resize(TcpExceptionFrameSize);
    var _ := buf.WriteAllAt(0, MbapBytes(tid, 3, unitId) + [WithExceptionBit(fc), ec]);
    ok := true;
  }
}
