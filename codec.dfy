/**
 * The Modbus codec (src/core/ModbusCodec.hpp): field validation, the PDU
 * encoder and decoder, and the RTU (slave ID + PDU + CRC) and TCP (MBAP
 * header + PDU) framings.
 *
 * Decoding writes into an existing frame: the decoder keeps every field the
 * wire does not carry and clears the whole frame on a PDU error, so the
 * decoders take the prior frame and return the new one. Encoders write into a
 * byte buffer of a given capacity; a push past the capacity is dropped
 * silently, as `ByteBuffer::push_back` does.
 */
module ModbusCodec {
  import opened Wrappers
  import opened ModbusCore
  import opened ModbusFrame
  import opened ModbusCrc

  /** ModbusCodec::Result. */
  datatype Status =
    | Success
    | ErrInvalidType
    | ErrInvalidLen
    | ErrBufferOverflow
    | ErrInvalidFc
    | ErrInvalidRegAddr
    | ErrInvalidRegCount
    | ErrInvalidByteCount
    | ErrInvalidData
    | ErrInvalidException
    | ErrInvalidSlaveId
    | ErrInvalidCrc
    | ErrInvalidMbapLen
    | ErrInvalidMbapProtocolId

  /** A decoder's verdict and the frame it leaves behind. */
  datatype Decoded = Decoded(status: Status, frame: FrameValue)

  /** An encoder's verdict and the bytes it leaves in the buffer. */
  datatype Encoded = Encoded(status: Status, bytes: seq<byte>)

  // ---------------------------------------------------------------------------
  // Field validation
  // ---------------------------------------------------------------------------

  /**
   * isValidSlaveId: 1..247 always; nothing else in a response; any ID in a
   * request when extended (TCP unit IDs); otherwise the broadcast ID, and
   * only for the four write function codes.
   */
  function IsValidSlaveId(slaveId: byte, fc: byte, t: MsgType, extended: bool): (r: bool)
    ensures 1 <= slaveId <= MaxSlaveId ==> r
    ensures t == Response ==> (r <==> 1 <= slaveId <= MaxSlaveId)
    ensures t != Response && extended ==> r
    ensures r && !extended && !(1 <= slaveId <= MaxSlaveId) ==>
      IsBroadcastId(slaveId) && fc in {WriteCoil, WriteRegister, WriteMultipleCoils, WriteMultipleRegisters}
    ensures (t != Response && IsBroadcastId(slaveId) &&
             fc in {WriteCoil, WriteRegister, WriteMultipleCoils, WriteMultipleRegisters}) ==> r
  {
    if 1 <= slaveId <= MaxSlaveId then true
    else if t == Response then false
    else if extended then true
    else if fc in {ReadCoils, ReadDiscreteInputs, ReadHoldingRegisters, ReadInputRegisters} then false
    else if fc in {WriteCoil, WriteRegister, WriteMultipleCoils, WriteMultipleRegisters} then
      slaveId in BroadcastSlaveIds
    else false
  }

  /**
   * isValidRegisterCount: the quantity limits per function code. The message
   * type the source passes is not consulted.
   */
  function IsValidRegisterCount(count: int, fc: int): (r: bool)
    ensures r ==> IsSupportedFunctionCode(fc) && 1 <= count <= MaxCoilsRead
    ensures r && fc in {ReadHoldingRegisters, ReadInputRegisters, WriteMultipleRegisters} ==>
      count <= MaxRegistersRead
    ensures r && fc in {WriteCoil, WriteRegister} ==> count == 1
    ensures IsSupportedFunctionCode(fc) && count == 1 ==> r
  {
    if fc == ReadCoils || fc == ReadDiscreteInputs then 1 <= count <= MaxCoilsRead
    else if fc == WriteCoil || fc == WriteRegister then count == 1
    else if fc == WriteMultipleCoils then 1 <= count <= MaxCoilsWrite
    else if fc == ReadHoldingRegisters || fc == ReadInputRegisters then 1 <= count <= MaxRegistersRead
    else if fc == WriteMultipleRegisters then 1 <= count <= MaxRegistersWrite
    else false
  }

  /** isValidExceptionCode: a request never carries an exception code. */
  function IsValidExceptionCodeFor(ec: int, t: MsgType): (r: bool)
    ensures r ==> IsValidExceptionCode(ec)
    ensures t == Request ==> (r <==> ec == NullException)
    ensures t != Request ==> (r <==> IsValidExceptionCode(ec))
  {
    if t == Request && ec != NullException then false
    else NullException <= ec < NbEC
  }

  /**
   * The data a frame's payload reads lies inside the data field: at most 125
   * registers and at most 2000 coils. Every frame `IsValidFrame` accepts has
   * this property (`ValidFramePayloadInBounds`).
   */
  predicate PayloadInBounds(f: FrameValue, t: MsgType)
  {
    f.exceptionCode == NullException ==>
      (t != Request && f.fc in {ReadHoldingRegisters, ReadInputRegisters} ==> f.regCount <= FrameDataSize) &&
      (t == Request && f.fc == WriteMultipleRegisters ==> f.regCount <= FrameDataSize) &&
      (t != Request && f.fc in {ReadCoils, ReadDiscreteInputs} ==> f.regCount <= FrameCoilCapacity) &&
      (t == Request && f.fc == WriteMultipleCoils ==> f.regCount <= FrameCoilCapacity)
  }

  /**
   * isValidFrame: the checks in order (type, function code, exception code,
   * slave ID, address, count); the first failing one names the error.
   */
  function IsValidFrame(f: FrameValue, extended: bool): (r: Status)
    ensures r in {Success, ErrInvalidType, ErrInvalidFc, ErrInvalidException, ErrInvalidSlaveId,
                  ErrInvalidRegAddr, ErrInvalidRegCount}
    ensures r == Success <==>
      f.msgType != NullMsg && IsValidExceptionCodeFor(f.exceptionCode, f.msgType) &&
      IsValidSlaveId(f.slaveId, f.fc, f.msgType, extended) && IsValidRegisterCount(f.regCount, f.fc)
    ensures r == Success ==> IsSupportedFunctionCode(f.fc) && PayloadInBounds(f, f.msgType)
    ensures r == ErrInvalidRegCount ==>
      f.msgType != NullMsg && IsValidFunctionCode(f.fc) &&
      IsValidExceptionCodeFor(f.exceptionCode, f.msgType) && IsValidSlaveId(f.slaveId, f.fc, f.msgType, extended)
    ensures r == ErrInvalidSlaveId ==>
      f.msgType != NullMsg && IsValidFunctionCode(f.fc) && IsValidExceptionCodeFor(f.exceptionCode, f.msgType)
  {
    if !IsValidMsgType(f.msgType) then ErrInvalidType
    else if !IsValidFunctionCode(f.fc) then ErrInvalidFc
    else if !IsValidExceptionCodeFor(f.exceptionCode, f.msgType) then ErrInvalidException
    else if !IsValidSlaveId(f.slaveId, f.fc, f.msgType, extended) then ErrInvalidSlaveId
    else if !(f.regAddress <= MaxRegAddr) then ErrInvalidRegAddr
    else if !IsValidRegisterCount(f.regCount, f.fc) then ErrInvalidRegCount
    else Success
  }

  // ---------------------------------------------------------------------------
  // Bytes of words and coils
  // ---------------------------------------------------------------------------

  /** A big-endian word from its two bytes. */
  function Word(hi: byte, lo: byte): u16
  {
    hi as int * 0x100 + lo as int
  }

  /** The two bytes of a word, high byte first. */
  function U16Bytes(v: u16): (r: seq<byte>)
    ensures |r| == 2 && Word(r[0], r[1]) == v
  {
    [v / 0x100, v % 0x100]
  }

  /** The i-th big-endian word of a byte sequence. */
  function WordAt(bs: seq<byte>, i: nat): u16
    requires 2 * i + 1 < |bs|
  {
    Word(bs[2 * i], bs[2 * i + 1])
  }

  /** The first n registers of a data field, two bytes each, high byte first. */
  function RegisterBytes(d: FrameData, n: nat): (r: seq<byte>)
    requires n <= FrameDataSize
    ensures |r| == 2 * n
    ensures forall i :: 0 <= i < n ==> WordAt(r, i) == d[i]
  {
    if n == 0 then []
    else
      var r := RegisterBytes(d, n - 1) + U16Bytes(d[n - 1]);
      assert forall i :: 0 <= i < n - 1 ==> WordAt(r, i) == WordAt(RegisterBytes(d, n - 1), i);
      r
  }

  /** The first n big-endian words of a byte sequence. */
  function Words(bs: seq<byte>, n: nat): (r: seq<u16>)
    requires 2 * n <= |bs|
    ensures |r| == n && forall i :: 0 <= i < n ==> r[i] == WordAt(bs, i)
  {
    seq(n, i requires 0 <= i < n => WordAt(bs, i))
  }

  /** A data field holding the given registers, zero after them (clearData, then fill). */
  function RegistersData(words: seq<u16>): (r: FrameData)
    requires |words| <= FrameDataSize
    ensures r[..|words|] == words
    ensures forall i :: |words| <= i < FrameDataSize ==> r[i] == 0
  {
    words + Zeros(FrameDataSize - |words|)
  }

  lemma Pow2Monotone(m: nat, n: nat)
    requires m <= n
    ensures Pow2(m) <= Pow2(n)
  {
  }

  /** The n coils of a data field starting at coil `first`. */
  function CoilRange(d: FrameData, first: nat, n: nat): (r: seq<bool>)
    requires first + n <= FrameCoilCapacity
    ensures |r| == n && forall k :: 0 <= k < n ==> r[k] == CoilOf(d, first + k)
  {
    seq(n, k requires 0 <= k < n => CoilOf(d, first + k))
  }

  /** formatCoils: n <= 8 coils from `first` packed LSB-first into one byte. */
  function CoilByte(d: FrameData, first: nat, n: nat): (r: byte)
    requires n <= 8 && first + n <= FrameCoilCapacity
    ensures forall j :: 0 <= j < 8 ==> (Bit(r, j) <==> j < n && CoilOf(d, first + j))
  {
    var bits := CoilRange(d, first, n);
    Pow2Monotone(n, 8);
    Pow2Eight();
    forall j | 0 <= j < 8
      ensures Bit(CoilWord(bits, 0, n), j) <==> j < n && CoilOf(d, first + j)
    {
      CoilWordBit(bits, 0, n, j);
    }
    CoilWord(bits, 0, n)
  }

  /** The coil payload of `count` coils: one byte per 8 coils, the last one partly filled. */
  function CoilBytes(d: FrameData, count: nat): (r: seq<byte>)
    requires count <= FrameCoilCapacity
    ensures |r| == (count + 7) / 8
    ensures forall i :: 0 <= i < |r| ==> r[i] == CoilByte(d, 8 * i, Min(8, count - 8 * i))
  {
    seq((count + 7) / 8, i requires 0 <= i < (count + 7) / 8 => CoilByte(d, 8 * i, Min(8, count - 8 * i)))
  }

  /** The coils carried by a coil payload: coil k is bit k%8 of byte k/8. */
  function PayloadCoils(bs: seq<byte>, n: nat): (r: seq<bool>)
    requires n <= 8 * |bs|
    ensures |r| == n && forall k :: 0 <= k < n ==> r[k] == Bit(bs[k / 8], k % 8)
  {
    seq(n, k requires 0 <= k < n => Bit(bs[k / 8], k % 8))
  }

  /** Whole bytes for count coils: 8 * ceil(count / 8) lies in count..count+7. */
  lemma CeilBytes(count: nat)
    ensures count <= 8 * ((count + 7) / 8) <= count + 7
    ensures count <= MaxCoilsRead ==> (count + 7) / 8 <= 250
  {
  }

  /** Reading a formatted coil payload back gives the coils, and zeros past the count. */
  lemma CoilBytesReadBack(d: FrameData, count: nat, k: nat)
    requires count <= FrameCoilCapacity && k < 8 * ((count + 7) / 8)
    ensures Bit(CoilBytes(d, count)[k / 8], k % 8) <==> k < count && CoilOf(d, k)
  {
    var i := k / 8;
    assert 8 * i + k % 8 == k;
  }

  /** The function code with bit 7 set, as `fc | 0x80` sets it for an exception reply. */
  function WithExceptionBit(fc: byte): (r: byte)
    ensures r >= 0x80 && r % 0x80 == fc % 0x80
  {
    if fc >= 0x80 then fc else fc + 0x80
  }

  // ---------------------------------------------------------------------------
  // PDU encoding (appendToBytes)
  // ---------------------------------------------------------------------------

  function Encoding(bytes: seq<byte>): Encoded { Encoded(Success, bytes) }

  /** appendToBytes on error clears the buffer. */
  function EncodeFailure(e: Status): Encoded { Encoded(e, []) }

  /**
   * The PDU bytes of a frame: the function code (bit 7 set for an exception
   * reply, followed only by the exception code), then the fields of its
   * function code and message type.
   */
  function EncodePdu(f: FrameValue, t: MsgType): (r: Encoded)
    requires PayloadInBounds(f, t)
    ensures r.status in {Success, ErrInvalidData, ErrInvalidFc}
    ensures r.status != Success ==> r.bytes == []
    ensures r.status == Success ==>
      (|r.bytes| >= 2 && r.bytes[0] == (if f.exceptionCode != NullException then WithExceptionBit(f.fc) else f.fc))
    ensures r.status == ErrInvalidFc <==> f.exceptionCode == NullException && !IsSupportedFunctionCode(f.fc)
  {
    if f.exceptionCode != NullException then
      Encoding([WithExceptionBit(f.fc), f.exceptionCode])
    else if f.fc in {ReadCoils, ReadDiscreteInputs, ReadHoldingRegisters, ReadInputRegisters} then
      if t == Request then
        Encoding([f.fc] + U16Bytes(f.regAddress) + U16Bytes(f.regCount))
      else if f.fc in {ReadHoldingRegisters, ReadInputRegisters} then
        Encoding([f.fc, 2 * f.regCount] + RegisterBytes(f.data, f.regCount))
      else if (f.regCount + 7) / 8 == 0 then
        EncodeFailure(ErrInvalidData)
      else
        Encoding([f.fc, (f.regCount + 7) / 8] + CoilBytes(f.data, f.regCount))
    else if f.fc == WriteCoil then
      if f.data[0] > 1 then EncodeFailure(ErrInvalidData)
      else Encoding([f.fc] + U16Bytes(f.regAddress) + CoilValueBytes(f.data[0] == 1))
    else if f.fc == WriteRegister then
      Encoding([f.fc] + U16Bytes(f.regAddress) + U16Bytes(f.data[0]))
    else if f.fc == WriteMultipleCoils then
      if t == Request then
        if f.regCount == 0 then EncodeFailure(ErrInvalidData)
        else
          Encoding([f.fc] + U16Bytes(f.regAddress) + U16Bytes(f.regCount) + [(f.regCount + 7) / 8]
                   + CoilBytes(f.data, f.regCount))
      else
        Encoding([f.fc] + U16Bytes(f.regAddress) + U16Bytes(f.regCount))
    else if f.fc == WriteMultipleRegisters then
      if t == Request then
        Encoding([f.fc] + U16Bytes(f.regAddress) + U16Bytes(f.regCount) + [2 * f.regCount]
                 + RegisterBytes(f.data, f.regCount))
      else
        Encoding([f.fc] + U16Bytes(f.regAddress) + U16Bytes(f.regCount))
    else
      EncodeFailure(ErrInvalidFc)
  }

  // ---------------------------------------------------------------------------
  // PDU decoding (setFromBytes)
  // ---------------------------------------------------------------------------

  /** HandleError: the frame is cleared and the error returned. */
  function DecodeFailure(e: Status): Decoded { Decoded(e, EmptyFrame) }

  function Decoding(f: FrameValue): Decoded { Decoded(Success, f) }

  /** The length checks the source applies to a read-coils/discrete-inputs response. */
  predicate CoilResponseLengthOk(pdu: seq<byte>)
  {
    |pdu| >= 3 && |pdu| == pdu[1] as int + 2
  }

  /**
   * Read request (function codes 1-4) or read-coils/discrete-inputs response.
   * The response takes 8 coils per payload byte and rejects a byte count
   * above 250 (more than 2000 coils).
   */
  function DecodeCoilsOrReadRequest(pdu: seq<byte>, f: FrameValue, t: MsgType): (r: Decoded)
    requires 1 <= |pdu| <= MaxPduSize
  {
    if t == Request then
      if |pdu| != 5 then DecodeFailure(ErrInvalidLen)
      else
        var g := f.(regAddress := Word(pdu[1], pdu[2]), regCount := Word(pdu[3], pdu[4]));
        if !IsValidRegisterCount(g.regCount, g.fc) then DecodeFailure(ErrInvalidRegCount)
        else Decoding(g)
    else if !CoilResponseLengthOk(pdu) then DecodeFailure(ErrInvalidLen)
    else if 8 * (pdu[1] as int) > MaxCoilsRead then DecodeFailure(ErrInvalidByteCount)
    else
      var n := 8 * (pdu[1] as int);
      Decoding(f.(data := WriteCoils(f.data, PayloadCoils(pdu[2..], n), 0), regCount := n))
  }

  /** Read-holding/input-registers response: an even byte count, then big-endian words. */
  function DecodeRegistersResponse(pdu: seq<byte>, f: FrameValue): (r: Decoded)
    requires 1 <= |pdu| <= MaxPduSize
  {
    if |pdu| < 2 then DecodeFailure(ErrInvalidLen)
    else if |pdu| != pdu[1] as int + 2 then DecodeFailure(ErrInvalidLen)
    else if pdu[1] % 2 != 0 then DecodeFailure(ErrInvalidByteCount)
    else Decoding(f.(data := RegistersData(Words(pdu[2..], pdu[1] / 2)), regCount := pdu[1] / 2))
  }

  /** Write-single-coil: the value must be 0xFF00 (ON, stored as 1) or 0x0000 (OFF). */
  function DecodeWriteCoil(pdu: seq<byte>, f: FrameValue): (r: Decoded)
    requires 1 <= |pdu| <= MaxPduSize
  {
    if |pdu| != 5 then DecodeFailure(ErrInvalidLen)
    else
      var value := Word(pdu[3], pdu[4]);
      if value != 0x0000 && value != 0xFF00 then DecodeFailure(ErrInvalidData)
      else
        Decoding(f.(regAddress := Word(pdu[1], pdu[2]), data := f.data[0 := if value == 0xFF00 then 1 else 0],
                    regCount := 1))
  }

  /** Write-single-register: address and value. */
  function DecodeWriteRegister(pdu: seq<byte>, f: FrameValue): (r: Decoded)
    requires 1 <= |pdu| <= MaxPduSize
  {
    if |pdu| != 5 then DecodeFailure(ErrInvalidLen)
    else Decoding(f.(regAddress := Word(pdu[1], pdu[2]), data := f.data[0 := Word(pdu[3], pdu[4])], regCount := 1))
  }

  /** Write-multiple-coils/registers response: the echoed address and count. */
  function DecodeWriteEcho(pdu: seq<byte>, f: FrameValue): (r: Decoded)
    requires 1 <= |pdu| <= MaxPduSize
  {
    if |pdu| != 5 then DecodeFailure(ErrInvalidLen)
    else Decoding(f.(regAddress := Word(pdu[1], pdu[2]), regCount := Word(pdu[3], pdu[4])))
  }

  /** Write-multiple-coils request: the byte count must be ceil(count / 8); the count is not range-checked. */
  function DecodeWriteCoilsRequest(pdu: seq<byte>, f: FrameValue): (r: Decoded)
    requires 1 <= |pdu| <= MaxPduSize
  {
    if |pdu| < 6 then DecodeFailure(ErrInvalidLen)
    else
      var count := Word(pdu[3], pdu[4]);
      if |pdu| != pdu[5] as int + 6 then DecodeFailure(ErrInvalidLen)
      else if pdu[5] != (count + 7) / 8 then DecodeFailure(ErrInvalidByteCount)
      else
        Decoding(f.(regAddress := Word(pdu[1], pdu[2]), regCount := count,
                    data := WriteCoils(f.data, PayloadCoils(pdu[6..], count), 0)))
  }

  /**
   * Write-multiple-registers request: the byte count must be twice the count;
   * the data field is cleared and refilled. `resetRegCount` is the argument
   * given to clearData(): the source passes the default, true, which also
   * zeroes the count it has just read.
   */
  function DecodeWriteRegistersRequest(pdu: seq<byte>, f: FrameValue, resetRegCount: bool): (r: Decoded)
    requires 1 <= |pdu| <= MaxPduSize
  {
    if |pdu| < 6 then DecodeFailure(ErrInvalidLen)
    else
      var count := Word(pdu[3], pdu[4]);
      if |pdu| != pdu[5] as int + 6 then DecodeFailure(ErrInvalidLen)
      else if pdu[5] != 2 * count then DecodeFailure(ErrInvalidByteCount)
      else
        Decoding(f.(regAddress := Word(pdu[1], pdu[2]), regCount := if resetRegCount then 0 else count,
                    data := RegistersData(Words(pdu[6..], count))))
  }

  /**
   * setFromBytes: decode a PDU into the frame `prior`. The function code comes
   * from the first byte (bit 7 marks an exception reply, which carries only the
   * exception code); the fields the PDU carries are overwritten and the others
   * keep their prior values. Any error clears the frame. PDUs reach the decoder
   * through the RTU and TCP decoders, which bound them to 253 bytes.
   */
  function DecodePdu(pdu: seq<byte>, prior: FrameValue, t: MsgType): (r: Decoded)
    requires |pdu| <= MaxPduSize
    ensures r.status != Success ==> r.frame == EmptyFrame
    ensures r.status == Success ==>
      (|pdu| >= 2 && r.frame.msgType == prior.msgType && r.frame.slaveId == prior.slaveId &&
       r.frame.fc == pdu[0] % 0x80)
    ensures r.status == Success && pdu[0] >= 0x80 ==>
      |pdu| == 2 && r.frame == prior.(fc := pdu[0] - 0x80, exceptionCode := pdu[1]) &&
      IsValidExceptionCodeFor(pdu[1], t)
    ensures r.status == Success && pdu[0] < 0x80 ==> IsSupportedFunctionCode(pdu[0]) && r.frame.exceptionCode == NullException
    ensures |pdu| == 0 ==> r.status == ErrInvalidLen
  {
    if |pdu| == 0 then DecodeFailure(ErrInvalidLen)
    else
      var isException := pdu[0] >= 0x80;
      var fc := if isException then pdu[0] - 0x80 else pdu[0];
      var f := prior.(fc := fc, exceptionCode := NullException);
      if !IsValidFunctionCode(fc) then DecodeFailure(ErrInvalidFc)
      else if isException then
        if |pdu| != 2 then DecodeFailure(ErrInvalidLen)
        else if !IsValidExceptionCodeFor(pdu[1], t) then DecodeFailure(ErrInvalidException)
        else Decoding(f.(exceptionCode := pdu[1]))
      else DecodeFields(pdu, f, t)
  }

  /** The fields of a regular (non-exception) PDU, by function code and message type, into f. */
  function DecodeFields(pdu: seq<byte>, f: FrameValue, t: MsgType): (r: Decoded)
    requires 1 <= |pdu| <= MaxPduSize && f.fc == pdu[0]
  {
    if f.fc in {ReadCoils, ReadDiscreteInputs} then DecodeCoilsOrReadRequest(pdu, f, t)
    else if f.fc in {ReadHoldingRegisters, ReadInputRegisters} then
      if t == Request then DecodeCoilsOrReadRequest(pdu, f, t) else DecodeRegistersResponse(pdu, f)
    else if f.fc == WriteCoil then DecodeWriteCoil(pdu, f)
    else if f.fc == WriteRegister then DecodeWriteRegister(pdu, f)
    else if f.fc == WriteMultipleCoils then
      if t == Request then DecodeWriteCoilsRequest(pdu, f) else DecodeWriteEcho(pdu, f)
    else if f.fc == WriteMultipleRegisters then
      if t == Request then DecodeWriteRegistersRequest(pdu, f, false) else DecodeWriteEcho(pdu, f)
    else DecodeFailure(ErrInvalidFc)
  }

  /** Which field decoder DecodeFields hands a non-exception PDU to. */
  lemma DecodeFieldsDispatch(pdu: seq<byte>, f: FrameValue, t: MsgType)
    requires 1 <= |pdu| <= MaxPduSize && f.fc == pdu[0]
    ensures f.fc == WriteCoil ==> DecodeFields(pdu, f, t) == DecodeWriteCoil(pdu, f)
    ensures f.fc == WriteRegister ==> DecodeFields(pdu, f, t) == DecodeWriteRegister(pdu, f)
    ensures f.fc in {ReadCoils, ReadDiscreteInputs} || (f.fc in {ReadHoldingRegisters, ReadInputRegisters} && t == Request) ==>
      DecodeFields(pdu, f, t) == DecodeCoilsOrReadRequest(pdu, f, t)
    ensures f.fc in {ReadHoldingRegisters, ReadInputRegisters} && t != Request ==>
      DecodeFields(pdu, f, t) == DecodeRegistersResponse(pdu, f)
    ensures f.fc == WriteMultipleCoils && t == Request ==> DecodeFields(pdu, f, t) == DecodeWriteCoilsRequest(pdu, f)
    ensures f.fc == WriteMultipleRegisters && t == Request ==>
      DecodeFields(pdu, f, t) == DecodeWriteRegistersRequest(pdu, f, false)
    ensures f.fc in {WriteMultipleCoils, WriteMultipleRegisters} && t != Request ==>
      DecodeFields(pdu, f, t) == DecodeWriteEcho(pdu, f)
  {
  }

  // ---------------------------------------------------------------------------
  // Round trip: what a decoded frame keeps of the frame that was encoded
  // ---------------------------------------------------------------------------

  /**
   * Decoding the encoding of f gives back g: the same function code and
   * exception code, and the fields the PDU carries for f's function code and
   * message type. A read-coils response comes back with its count rounded up
   * to whole bytes and the padding coils OFF.
   */
  predicate Carries(f: FrameValue, g: FrameValue)
  {
    g.fc == f.fc && g.exceptionCode == f.exceptionCode &&
    (f.exceptionCode == NullException ==>
      if f.msgType == Request && f.fc in {ReadCoils, ReadDiscreteInputs, ReadHoldingRegisters, ReadInputRegisters} then
        g.regAddress == f.regAddress && g.regCount == f.regCount
      else if f.fc in {ReadCoils, ReadDiscreteInputs} then
        g.regCount == 8 * ((f.regCount + 7) / 8) && g.regCount <= FrameCoilCapacity &&
        forall k :: 0 <= k < g.regCount ==> (CoilOf(g.data, k) <==> k < f.regCount && CoilOf(f.data, k))
      else if f.fc in {ReadHoldingRegisters, ReadInputRegisters} then
        g.regCount == f.regCount && f.regCount <= FrameDataSize && g.data[..g.regCount] == f.data[..f.regCount]
      else if f.fc in {WriteCoil, WriteRegister} then
        g.regAddress == f.regAddress && g.regCount == 1 && g.data[0] == f.data[0]
      else if f.msgType == Request && f.fc == WriteMultipleCoils then
        g.regAddress == f.regAddress && g.regCount == f.regCount && f.regCount <= FrameCoilCapacity &&
        forall k :: 0 <= k < f.regCount ==> CoilOf(g.data, k) == CoilOf(f.data, k)
      else if f.msgType == Request && f.fc == WriteMultipleRegisters then
        g.regAddress == f.regAddress && g.regCount == f.regCount && f.regCount <= FrameDataSize &&
        g.data[..g.regCount] == f.data[..f.regCount]
      else
        g.regAddress == f.regAddress && g.regCount == f.regCount)
  }

  /** f encodes, within the PDU size limit, to bytes that decode over `prior` into a frame carrying f. */
  predicate RoundTrips(f: FrameValue, prior: FrameValue)
    requires PayloadInBounds(f, f.msgType)
  {
    var e := EncodePdu(f, f.msgType);
    e.status == Success && |e.bytes| <= MaxPduSize &&
    var d := DecodePdu(e.bytes, prior, f.msgType);
    d.status == Success && Carries(f, d.frame)
  }

  /** The only valid frame the PDU encoder refuses: a write-single-coil whose value is neither 0 nor 1. */
  predicate BadCoilValue(f: FrameValue)
  {
    f.exceptionCode == NullException && f.fc == WriteCoil && f.data[0] > 1
  }

  lemma WordsOfRegisterBytes(d: FrameData, n: nat)
    requires n <= FrameDataSize
    ensures Words(RegisterBytes(d, n), n) == d[..n]
  {
  }

  /** Writing the coils of a payload from coil 0 makes coil k bit k%8 of byte k/8. */
  lemma PayloadCoilsWritten(prior: FrameData, payload: seq<byte>, n: nat, k: nat)
    requires n <= 8 * |payload| && n <= FrameCoilCapacity && k < n
    ensures CoilOf(WriteCoils(prior, PayloadCoils(payload, n), 0), k) == Bit(payload[k / 8], k % 8)
  {
    WriteCoilsEffect(prior, PayloadCoils(payload, n), 0, k);
  }

  /** Coils written from a formatted payload: the original coils, then OFF padding. */
  lemma CoilPayloadRoundTrip(prior: FrameData, d: FrameData, count: nat, bc: nat)
    requires 1 <= count <= MaxCoilsRead && bc == (count + 7) / 8
    ensures 8 * bc <= FrameCoilCapacity && |CoilBytes(d, count)| == bc
    ensures forall k :: 0 <= k < 8 * bc ==>
      (CoilOf(WriteCoils(prior, PayloadCoils(CoilBytes(d, count), 8 * bc), 0), k) <==> k < count && CoilOf(d, k))
  {
    CeilBytes(count);
    assert 8 * bc <= FrameCoilCapacity;
    var payload := CoilBytes(d, count);
    forall k | 0 <= k < 8 * bc
      ensures CoilOf(WriteCoils(prior, PayloadCoils(payload, 8 * bc), 0), k) <==> k < count && CoilOf(d, k)
    {
      PayloadCoilsWritten(prior, payload, 8 * bc, k);
      CoilBytesReadBack(d, count, k);
    }
  }

  /** Coils written from the payload of a write-multiple-coils request are the coils formatted. */
  lemma CoilPayloadExact(prior: FrameData, d: FrameData, count: nat)
    requires count <= MaxCoilsRead
    ensures count <= 8 * |CoilBytes(d, count)|
    ensures forall k :: 0 <= k < count ==>
      CoilOf(WriteCoils(prior, PayloadCoils(CoilBytes(d, count), count), 0), k) == CoilOf(d, k)
  {
    CeilBytes(count);
    var payload := CoilBytes(d, count);
    forall k | 0 <= k < count
      ensures CoilOf(WriteCoils(prior, PayloadCoils(payload, count), 0), k) == CoilOf(d, k)
    {
      PayloadCoilsWritten(prior, payload, count, k);
      CoilBytesReadBack(d, count, k);
    }
  }

  /** A read-coils response encodes to its function code, its byte count and the packed coils. */
  lemma CoilResponseEncodes(f: FrameValue)
    requires f.exceptionCode == NullException && f.msgType != Request && f.fc in {ReadCoils, ReadDiscreteInputs}
    requires 1 <= f.regCount <= MaxCoilsRead
    ensures f.regCount <= 8 * ((f.regCount + 7) / 8) <= FrameCoilCapacity
    ensures PayloadInBounds(f, f.msgType)
    ensures var e := EncodePdu(f, f.msgType);
      e.status == Success && e.bytes == [f.fc, (f.regCount + 7) / 8] + CoilBytes(f.data, f.regCount)
  {
    CeilBytes(f.regCount);
  }

  /** A read-coils response PDU decodes to 8 coils per payload byte, written from coil 0. */
  lemma CoilResponsePduDecodes(pdu: seq<byte>, prior: FrameValue, t: MsgType, fc: byte, payload: seq<byte>)
    requires t != Request && fc in {ReadCoils, ReadDiscreteInputs} && 1 <= |payload| <= 250
    requires pdu == [fc, |payload|] + payload
    ensures |pdu| <= MaxPduSize
    ensures var r := DecodePdu(pdu, prior, t);
      r.status == Success && r.frame.fc == fc && r.frame.exceptionCode == NullException &&
      r.frame.regCount == 8 * |payload| &&
      r.frame.data == WriteCoils(prior.data, PayloadCoils(payload, 8 * |payload|), 0)
  {
    assert pdu[2..] == payload;
    DecodeFieldsDispatch(pdu, prior.(fc := fc, exceptionCode := NullException), t);
  }

  lemma CoilResponseDecoded(f: FrameValue, prior: FrameValue)
    requires f.exceptionCode == NullException && f.msgType != Request && f.fc in {ReadCoils, ReadDiscreteInputs}
    requires 1 <= f.regCount <= MaxCoilsRead
    ensures f.regCount <= 8 * ((f.regCount + 7) / 8) <= FrameCoilCapacity
    ensures PayloadInBounds(f, f.msgType)
    ensures var e := EncodePdu(f, f.msgType);
      var bc := (f.regCount + 7) / 8;
      e.status == Success && |e.bytes| <= MaxPduSize &&
      var r := DecodePdu(e.bytes, prior, f.msgType);
      r.status == Success && r.frame.fc == f.fc && r.frame.exceptionCode == NullException &&
      r.frame.regCount == 8 * bc &&
      forall k :: 0 <= k < 8 * bc ==> (CoilOf(r.frame.data, k) <==> k < f.regCount && CoilOf(f.data, k))
  {
    var bc := (f.regCount + 7) / 8;
    CoilPayloadRoundTrip(prior.data, f.data, f.regCount, bc);
    CoilResponseEncodes(f);
    CoilResponsePduDecodes(EncodePdu(f, f.msgType).bytes, prior, f.msgType, f.fc, CoilBytes(f.data, f.regCount));
  }

  lemma CoilResponseRoundTrip(f: FrameValue, prior: FrameValue)
    requires f.exceptionCode == NullException && f.msgType != Request && f.fc in {ReadCoils, ReadDiscreteInputs}
    requires 1 <= f.regCount <= MaxCoilsRead
    ensures PayloadInBounds(f, f.msgType) && RoundTrips(f, prior)
  {
    var bc := (f.regCount + 7) / 8;
    CoilResponseDecoded(f, prior);
    CarriesCoilResponse(f, DecodePdu(EncodePdu(f, f.msgType).bytes, prior, f.msgType).frame, bc);
  }

  /** What Carries asks of a read-coils response, stated for its byte count bc. */
  lemma CarriesCoilResponse(f: FrameValue, g: FrameValue, bc: nat)
    requires f.exceptionCode == NullException && f.msgType != Request && f.fc in {ReadCoils, ReadDiscreteInputs}
    requires g.fc == f.fc && g.exceptionCode == NullException
    requires bc == (f.regCount + 7) / 8 && g.regCount == 8 * bc && 8 * bc <= FrameCoilCapacity
    requires forall k :: 0 <= k < 8 * bc ==> (CoilOf(g.data, k) <==> k < f.regCount && CoilOf(f.data, k))
    ensures Carries(f, g)
  {
  }

  lemma RegisterResponseRoundTrip(f: FrameValue, prior: FrameValue)
    requires f.exceptionCode == NullException && f.msgType != Request
    requires f.fc in {ReadHoldingRegisters, ReadInputRegisters}
    requires 1 <= f.regCount <= MaxRegistersRead
    ensures PayloadInBounds(f, f.msgType) && RoundTrips(f, prior)
  {
    var e := EncodePdu(f, f.msgType);
    assert e.bytes == [f.fc, 2 * f.regCount] + RegisterBytes(f.data, f.regCount);
    assert e.bytes[2..] == RegisterBytes(f.data, f.regCount);
    WordsOfRegisterBytes(f.data, f.regCount);
    var f1 := prior.(fc := f.fc, exceptionCode := NullException);
    DecodeFieldsDispatch(e.bytes, f1, f.msgType);
  }

  /** A write-multiple-coils request encodes to its address, count, byte count and packed coils. */
  lemma WriteCoilsRequestEncodes(f: FrameValue)
    requires f.exceptionCode == NullException && f.msgType == Request && f.fc == WriteMultipleCoils
    requires 1 <= f.regCount <= MaxCoilsWrite
    ensures f.regCount <= 8 * ((f.regCount + 7) / 8) && (f.regCount + 7) / 8 <= 246
    ensures PayloadInBounds(f, f.msgType)
    ensures var e := EncodePdu(f, f.msgType);
      e.status == Success &&
      e.bytes == [f.fc] + U16Bytes(f.regAddress) + U16Bytes(f.regCount) + [(f.regCount + 7) / 8]
                 + CoilBytes(f.data, f.regCount)
  {
    CeilBytes(f.regCount);
  }

  /** A write-multiple-coils request PDU decodes to its address, its count and its coils. */
  lemma WriteCoilsRequestPduDecodes(pdu: seq<byte>, prior: FrameValue, address: u16, count: u16, payload: seq<byte>)
    requires count <= 8 * |payload| && |payload| == (count + 7) / 8 && |payload| <= 246
    requires pdu == [WriteMultipleCoils] + U16Bytes(address) + U16Bytes(count) + [|payload|] + payload
    ensures |pdu| <= MaxPduSize
    ensures var r := DecodePdu(pdu, prior, Request);
      r.status == Success && r.frame.fc == WriteMultipleCoils && r.frame.exceptionCode == NullException &&
      r.frame.regAddress == address && r.frame.regCount == count &&
      r.frame.data == WriteCoils(prior.data, PayloadCoils(payload, count), 0)
  {
    assert pdu[6..] == payload;
    assert |pdu| == |payload| + 6 && pdu[5] == |payload|;
    assert Word(pdu[1], pdu[2]) == address && Word(pdu[3], pdu[4]) == count;
    DecodeFieldsDispatch(pdu, prior.(fc := WriteMultipleCoils, exceptionCode := NullException), Request);
  }

  /** A write-multiple-coils request decodes to its address, its count and its coils. */
  lemma WriteCoilsRequestDecoded(f: FrameValue, prior: FrameValue)
    requires f.exceptionCode == NullException && f.msgType == Request && f.fc == WriteMultipleCoils
    requires 1 <= f.regCount <= MaxCoilsWrite
    ensures PayloadInBounds(f, f.msgType)
    ensures var e := EncodePdu(f, f.msgType);
      e.status == Success && |e.bytes| <= MaxPduSize &&
      var r := DecodePdu(e.bytes, prior, f.msgType);
      r.status == Success && r.frame.fc == f.fc && r.frame.exceptionCode == NullException &&
      r.frame.regAddress == f.regAddress && r.frame.regCount == f.regCount &&
      forall k :: 0 <= k < f.regCount ==> CoilOf(r.frame.data, k) == CoilOf(f.data, k)
  {
    CoilPayloadExact(prior.data, f.data, f.regCount);
    WriteCoilsRequestEncodes(f);
    WriteCoilsRequestPduDecodes(EncodePdu(f, f.msgType).bytes, prior, f.regAddress, f.regCount,
                                CoilBytes(f.data, f.regCount));
  }

  lemma WriteCoilsRequestRoundTrip(f: FrameValue, prior: FrameValue)
    requires f.exceptionCode == NullException && f.msgType == Request && f.fc == WriteMultipleCoils
    requires 1 <= f.regCount <= MaxCoilsWrite
    ensures PayloadInBounds(f, f.msgType) && RoundTrips(f, prior)
  {
    WriteCoilsRequestDecoded(f, prior);
  }

  lemma WriteRegistersRequestRoundTrip(f: FrameValue, prior: FrameValue)
    requires f.exceptionCode == NullException && f.msgType == Request && f.fc == WriteMultipleRegisters
    requires 1 <= f.regCount <= MaxRegistersWrite
    ensures PayloadInBounds(f, f.msgType) && RoundTrips(f, prior)
  {
    var e := EncodePdu(f, f.msgType);
    assert e.bytes == [f.fc] + U16Bytes(f.regAddress) + U16Bytes(f.regCount) + [2 * f.regCount]
                      + RegisterBytes(f.data, f.regCount);
    assert e.bytes[6..] == RegisterBytes(f.data, f.regCount);
    WordsOfRegisterBytes(f.data, f.regCount);
    var f1 := prior.(fc := f.fc, exceptionCode := NullException);
    DecodeFieldsDispatch(e.bytes, f1, f.msgType);
  }

  lemma ExceptionRoundTrip(f: FrameValue, prior: FrameValue)
    requires f.exceptionCode != NullException && f.msgType == Response
    requires IsSupportedFunctionCode(f.fc) && IsValidExceptionCode(f.exceptionCode)
    ensures PayloadInBounds(f, f.msgType) && RoundTrips(f, prior)
  {
    var pdu := [f.fc + 0x80, f.exceptionCode];
    assert EncodePdu(f, f.msgType) == Encoded(Success, pdu);
    assert DecodePdu(pdu, prior, f.msgType) == Decoded(Success, prior.(fc := f.fc, exceptionCode := f.exceptionCode));
  }

  lemma ReadRequestRoundTrip(f: FrameValue, prior: FrameValue)
    requires f.exceptionCode == NullException && f.msgType == Request
    requires f.fc in {ReadCoils, ReadDiscreteInputs, ReadHoldingRegisters, ReadInputRegisters}
    requires IsValidRegisterCount(f.regCount, f.fc)
    ensures PayloadInBounds(f, f.msgType) && RoundTrips(f, prior)
  {
    var pdu := [f.fc] + U16Bytes(f.regAddress) + U16Bytes(f.regCount);
    assert EncodePdu(f, f.msgType) == Encoded(Success, pdu);
    assert Word(pdu[1], pdu[2]) == f.regAddress && Word(pdu[3], pdu[4]) == f.regCount;
    var f1 := prior.(fc := f.fc, exceptionCode := NullException);
    var g := f1.(regAddress := f.regAddress, regCount := f.regCount);
    assert DecodeCoilsOrReadRequest(pdu, f1, f.msgType) == Decoded(Success, g);
    DecodeFieldsDispatch(pdu, f1, f.msgType);
    assert DecodePdu(pdu, prior, f.msgType) == Decoded(Success, g);
  }

  function CoilValueBytes(on: bool): seq<byte>
  {
    if on then [0xFF, 0x00] else [0x00, 0x00]
  }

  /** The address and the trailing two bytes of a five-byte single-write PDU read back. */
  lemma SingleWritePdu(pdu: seq<byte>, fc: byte, address: u16, tail: seq<byte>)
    requires |tail| == 2 && pdu == [fc] + U16Bytes(address) + tail
    ensures |pdu| == 5 && pdu[0] == fc && Word(pdu[1], pdu[2]) == address
    ensures Word(pdu[3], pdu[4]) == Word(tail[0], tail[1])
  {
  }

  lemma CoilValueWord(on: bool)
    ensures |CoilValueBytes(on)| == 2
    ensures Word(CoilValueBytes(on)[0], CoilValueBytes(on)[1]) == if on then 0xFF00 else 0x0000
  {
  }

  /** A well-formed write-single-coil PDU decodes to its address and to coil state d. */
  lemma WriteCoilDecodes(pdu: seq<byte>, prior: FrameValue, t: MsgType, address: u16, d: u16)
    requires |pdu| == 5 && pdu[0] == WriteCoil && Word(pdu[1], pdu[2]) == address && d <= 1
    requires Word(pdu[3], pdu[4]) == if d == 1 then 0xFF00 else 0x0000
    ensures var r := DecodePdu(pdu, prior, t);
      r.status == Success && r.frame.fc == WriteCoil && r.frame.exceptionCode == NullException &&
      r.frame.regAddress == address && r.frame.regCount == 1 && r.frame.data[0] == d
  {
    var f1 := prior.(fc := WriteCoil, exceptionCode := NullException);
    DecodeFieldsDispatch(pdu, f1, t);
  }

  /** A write-single-coil frame with state 0 or 1 encodes to its address and 0xFF00 or 0x0000. */
  lemma WriteCoilEncodes(f: FrameValue)
    requires f.exceptionCode == NullException && f.fc == WriteCoil && f.data[0] <= 1
    ensures PayloadInBounds(f, f.msgType)
    ensures var e := EncodePdu(f, f.msgType);
      e.status == Success && |e.bytes| == 5 && e.bytes[0] == WriteCoil &&
      Word(e.bytes[1], e.bytes[2]) == f.regAddress &&
      Word(e.bytes[3], e.bytes[4]) == if f.data[0] == 1 then 0xFF00 else 0x0000
  {
    var on := f.data[0] == 1;
    var value := CoilValueBytes(on);
    var pdu := [f.fc] + U16Bytes(f.regAddress) + value;
    assert EncodePdu(f, f.msgType) == Encoded(Success, pdu);
    SingleWritePdu(pdu, f.fc, f.regAddress, value);
    CoilValueWord(on);
  }

  lemma WriteCoilRoundTrip(f: FrameValue, prior: FrameValue)
    requires f.exceptionCode == NullException && f.fc == WriteCoil && f.data[0] <= 1
    ensures PayloadInBounds(f, f.msgType) && RoundTrips(f, prior)
  {
    WriteCoilEncodes(f);
    WriteCoilDecodes(EncodePdu(f, f.msgType).bytes, prior, f.msgType, f.regAddress, f.data[0]);
  }

  lemma WriteRegisterRoundTrip(f: FrameValue, prior: FrameValue)
    requires f.exceptionCode == NullException && f.fc == WriteRegister
    ensures PayloadInBounds(f, f.msgType) && RoundTrips(f, prior)
  {
    var pdu := [f.fc] + U16Bytes(f.regAddress) + U16Bytes(f.data[0]);
    assert EncodePdu(f, f.msgType) == Encoded(Success, pdu);
    assert Word(pdu[1], pdu[2]) == f.regAddress && Word(pdu[3], pdu[4]) == f.data[0];
    var f1 := prior.(fc := f.fc, exceptionCode := NullException);
    var g := f1.(regAddress := f.regAddress, data := f1.data[0 := f.data[0]], regCount := 1);
    assert DecodeWriteRegister(pdu, f1) == Decoded(Success, g);
    DecodeFieldsDispatch(pdu, f1, f.msgType);
    assert DecodePdu(pdu, prior, f.msgType) == Decoded(Success, g);
  }

  lemma WriteEchoRoundTrip(f: FrameValue, prior: FrameValue)
    requires f.exceptionCode == NullException && f.msgType == Response
    requires f.fc in {WriteMultipleCoils, WriteMultipleRegisters}
    ensures PayloadInBounds(f, f.msgType) && RoundTrips(f, prior)
  {
    var pdu := [f.fc] + U16Bytes(f.regAddress) + U16Bytes(f.regCount);
    assert EncodePdu(f, f.msgType) == Encoded(Success, pdu);
    assert Word(pdu[1], pdu[2]) == f.regAddress && Word(pdu[3], pdu[4]) == f.regCount;
    var f1 := prior.(fc := f.fc, exceptionCode := NullException);
    var g := f1.(regAddress := f.regAddress, regCount := f.regCount);
    assert DecodeWriteEcho(pdu, f1) == Decoded(Success, g);
    DecodeFieldsDispatch(pdu, f1, f.msgType);
    assert DecodePdu(pdu, prior, f.msgType) == Decoded(Success, g);
  }

  /**
   * Every frame that passes isValidFrame, except a write-single-coil whose
   * value is neither 0 nor 1, encodes to a PDU of at most 253 bytes that
   * decodes successfully into a frame carrying the same message.
   */
  lemma PduRoundTrip(f: FrameValue, prior: FrameValue, extended: bool)
    requires IsValidFrame(f, extended) == Success
    ensures PayloadInBounds(f, f.msgType)
    ensures EncodePdu(f, f.msgType).status == Success <==> !BadCoilValue(f)
    ensures !BadCoilValue(f) ==> RoundTrips(f, prior)
  {
    var t := f.msgType;
    if f.exceptionCode != NullException {
      ExceptionRoundTrip(f, prior);
    } else if f.fc in {ReadCoils, ReadDiscreteInputs} && t != Request {
      CoilResponseRoundTrip(f, prior);
    } else if f.fc in {ReadHoldingRegisters, ReadInputRegisters} && t != Request {
      RegisterResponseRoundTrip(f, prior);
    } else if f.fc == WriteMultipleCoils && t == Request {
      WriteCoilsRequestRoundTrip(f, prior);
    } else if f.fc == WriteMultipleRegisters && t == Request {
      WriteRegistersRequestRoundTrip(f, prior);
    } else if f.fc in {ReadCoils, ReadDiscreteInputs, ReadHoldingRegisters, ReadInputRegisters} {
      ReadRequestRoundTrip(f, prior);
    } else if f.fc == WriteCoil {
      if f.data[0] <= 1 {
        WriteCoilRoundTrip(f, prior);
      }
    } else if f.fc == WriteRegister {
      WriteRegisterRoundTrip(f, prior);
    } else {
      WriteEchoRoundTrip(f, prior);
    }
  }

  /** What PduRoundTrip says about the encoder alone. */
  lemma PduEncodes(f: FrameValue, extended: bool)
    requires IsValidFrame(f, extended) == Success
    ensures PayloadInBounds(f, f.msgType)
    ensures EncodePdu(f, f.msgType).status == Success <==> !BadCoilValue(f)
    ensures !BadCoilValue(f) ==> |EncodePdu(f, f.msgType).bytes| <= MaxPduSize
  {
    PduRoundTrip(f, f, extended);
  }

  /** What PduRoundTrip says about the decoder, for a frame the encoder accepts. */
  lemma PduDecodes(f: FrameValue, prior: FrameValue, extended: bool)
    requires IsValidFrame(f, extended) == Success && !BadCoilValue(f)
    ensures PayloadInBounds(f, f.msgType) && EncodePdu(f, f.msgType).status == Success
    ensures var pdu := EncodePdu(f, f.msgType).bytes;
      1 <= |pdu| <= MaxPduSize && DecodePdu(pdu, prior, f.msgType).status == Success &&
      Carries(f, DecodePdu(pdu, prior, f.msgType).frame)
  {
    PduRoundTrip(f, prior, extended);
  }

  // ---------------------------------------------------------------------------
  // The decoder as written, where it differs from the decoder above
  // ---------------------------------------------------------------------------

  /**
   * As written, a read-coils/discrete-inputs response is accepted whenever its
   * length matches its byte count, and extractCoils stores 8 coils per payload
   * byte from coil 0 on: the number of coils it stores, or None on a length error.
   */
  function CoilResponseCoilsAsWritten(pdu: seq<byte>): (n: Option<nat>)
    requires 1 <= |pdu| <= MaxPduSize
    ensures n.Some? <==> CoilResponseLengthOk(pdu)
    ensures n.Some? ==> n.value == 8 * (|pdu| - 2)
  {
    if CoilResponseLengthOk(pdu) then Some(8 * pdu[1] as int) else None
  }

  /**
   * A 253-byte response with byte count 251 passes those checks and makes the
   * source store 2008 coils: more than the 125 data words hold.
   */
  lemma CoilResponseOverrunAsWritten(pdu: seq<byte>)
    requires |pdu| == MaxPduSize && pdu[0] == ReadCoils && pdu[1] == 251
    ensures CoilResponseCoilsAsWritten(pdu) == Some(2008)
    ensures CoilResponseCoilsAsWritten(pdu).value > 16 * FrameDataSize
  {
  }

  /**
   * The corrected decoder refuses such a response with ERR_INVALID_BYTE_COUNT,
   * and every response it accepts holds at most 2000 coils.
   */
  lemma CoilResponseBounded(pdu: seq<byte>, prior: FrameValue)
    requires 1 <= |pdu| <= MaxPduSize && pdu[0] in {ReadCoils, ReadDiscreteInputs}
    ensures var r := DecodePdu(pdu, prior, Response);
      (r.status == Success <==> CoilResponseLengthOk(pdu) && 8 * (pdu[1] as int) <= MaxCoilsRead) &&
      (CoilResponseLengthOk(pdu) && 8 * (pdu[1] as int) > MaxCoilsRead ==> r.status == ErrInvalidByteCount) &&
      (r.status == Success ==> r.frame.regCount <= MaxCoilsRead && r.frame.regCount <= 16 * FrameDataSize)
  {
  }

  /**
   * As written, a well-formed write-multiple-registers request decodes with the
   * register count zeroed by clearData(), although the PDU carries a count of
   * at least one; the corrected decoder keeps the count.
   */
  lemma WriteRegistersCountLostAsWritten(pdu: seq<byte>, f: FrameValue)
    requires 6 <= |pdu| <= MaxPduSize && |pdu| == pdu[5] as int + 6
    requires pdu[5] as int == 2 * Word(pdu[3], pdu[4]) && pdu[5] > 0
    ensures var r := DecodeWriteRegistersRequest(pdu, f, true);
      r.status == Success && r.frame.regCount == 0 && !IsValidRegisterCount(r.frame.regCount, WriteMultipleRegisters)
    ensures var r := DecodeWriteRegistersRequest(pdu, f, false);
      r.status == Success && r.frame.regCount == Word(pdu[3], pdu[4]) >= 1
  {
  }
}

