/**
 * The PDU codec as the source runs it (src/core/ModbusCodec.hpp): setFromBytes
 * updating a Frame object field by field, appendToBytes pushing bytes into a
 * ByteBuffer, and the loops they use (formatCoils and extractCoils, which move
 * coils between the frame's data words and payload bytes, and the register
 * loops). Each is proved to compute the codec functions of ModbusCodec.
 */
module ModbusCodecInPlace {
  import opened Wrappers
  import opened ModbusCore
  import opened ModbusFrame
  import opened ModbusCodec
  import opened ModbusBuffer
  import ModbusCrc

  /** The first m bits of a byte, least significant first (bits past 7 are 0). */
  function ByteCoils(b: byte, m: nat): (r: seq<bool>)
    ensures |r| == m && forall i :: 0 <= i < m ==> r[i] == Bit(b, i)
  {
    seq(m, i requires 0 <= i < m => Bit(b, i))
  }

  /** Writing a + b is writing a, then b just after it. */
  lemma WriteCoilsAppend(d: FrameData, a: seq<bool>, b: seq<bool>, start: nat)
    requires start + |a| + |b| <= FrameCoilCapacity
    ensures WriteCoils(d, a + b, start) == WriteCoils(WriteCoils(d, a, start), b, start + |a|)
  {
    var da := WriteCoils(d, a, start);
    forall c | 0 <= c < FrameCoilCapacity
      ensures CoilOf(WriteCoils(d, a + b, start), c) == CoilOf(WriteCoils(da, b, start + |a|), c)
    {
      WriteCoilsEffect(d, a + b, start, c);
      WriteCoilsEffect(d, a, start, c);
      WriteCoilsEffect(da, b, start + |a|, c);
    }
    CoilsDetermine(WriteCoils(d, a + b, start), WriteCoils(da, b, start + |a|));
  }

  /** The coils of a payload up to a byte boundary, then part of the next byte. */
  lemma PayloadCoilsExtend(payload: seq<byte>, i: nat, first: nat, m: nat)
    requires i < |payload| && first == 8 * i && m <= 8
    ensures PayloadCoils(payload, first + m) == PayloadCoils(payload, first) + ByteCoils(payload[i], m)
  {
    var l := PayloadCoils(payload, first + m);
    var r := PayloadCoils(payload, first) + ByteCoils(payload[i], m);
    forall k | 0 <= k < first + m
      ensures l[k] == r[k]
    {
      if k >= first {
        assert k / 8 == i && k % 8 == k - first;
      }
    }
  }

  /** Extracting byte i into the coils already written from bytes 0..i-1 writes the coils of bytes 0..i. */
  lemma ExtractStep(d0: FrameData, payload: seq<byte>, i: nat, first: nat, m: nat)
    requires i < |payload| && first == 8 * i && m <= 8 && first + m <= FrameCoilCapacity
    ensures WriteCoils(WriteCoils(d0, PayloadCoils(payload, first), 0), ByteCoils(payload[i], m), first) ==
            WriteCoils(d0, PayloadCoils(payload, first + m), 0)
  {
    var a := PayloadCoils(payload, first);
    var b := ByteCoils(payload[i], m);
    PayloadCoilsExtend(payload, i, first, m);
    WriteCoilsAppend(d0, a, b, 0);
  }

  /**
   * formatCoils: packs `n` coils from coil `first` LSB-first into one byte;
   * refuses 0 or more than 8 coils.
   */
  method FormatCoils(d: FrameData, first: nat, n: nat) returns (ok: bool, b: byte)
    requires 1 <= n <= 8 ==> first + n <= FrameCoilCapacity
    ensures ok <==> 1 <= n <= 8
    ensures ok ==> b == CoilByte(d, first, n)
  {
    if n == 0 || n > 8 {
      return false, 0;
    }
    ghost var bits := CoilRange(d, first, n);
    var acc: u16 := 0;
    var i := 0;
    Pow2Monotone(n, 8);
    ModbusCrc.Pow2Eight();
    while i < n
      invariant 0 <= i <= n
      invariant acc == CoilWord(bits, 0, i)
    {
      var bitPos := first + i;
      assert bits[i] == Bit(d[bitPos / 16], bitPos % 16);
      PackStep(bits, acc, i);
      if Bit(d[bitPos / 16], bitPos % 16) {
        acc := WithBit(acc, i, true);
      }
      i := i + 1;
    }
    assert acc < Pow2(8);
    b := acc;
    ok := true;
  }

  /** One step of the packing loop: setting bit i when coil i is on packs one more coil. */
  lemma PackStep(bits: seq<bool>, acc: u16, i: nat)
    requires i < |bits| && i < 16 && acc == CoilWord(bits, 0, i)
    ensures (if bits[i] then WithBit(acc, i, true) else acc) == CoilWord(bits, 0, i + 1)
  {
    if bits[i] {
      BitAboveWidth(acc, i, i);
    }
  }

  /**
   * extractCoils: writes bit i of `source` to coil first+i, for i < maxCoils,
   * setting or clearing each bit of the destination words in place.
   */
  method ExtractCoils(source: byte, dest: array<u16>, first: nat, maxCoils: nat) returns (n: nat)
    requires dest.Length == FrameDataSize && first + maxCoils <= FrameCoilCapacity
    modifies dest
    ensures n == maxCoils
    ensures dest[..] == WriteCoils(old(dest[..]), ByteCoils(source, maxCoils), first)
  {
    ghost var src := ByteCoils(source, maxCoils);
    var i := 0;
    while i < maxCoils
      invariant 0 <= i <= maxCoils
      invariant dest[..] == WriteCoils(old(dest[..]), src[..i], first)
    {
      var bitPos := first + i;
      var wordIdx := bitPos / 16;
      var bitInWord := bitPos % 16;
      var bit := Bit(source, i);
      dest[wordIdx] := WithBit(dest[wordIdx], bitInWord, bit);
      assert src[..i + 1][..i] == src[..i];
      i := i + 1;
    }
    assert src[..i] == src;
    n := maxCoils;
  }

  /**
   * The coil loop of appendToBytes: one formatCoils byte per 8 coils, the
   * last byte holding the remaining count % 8 coils.
   */
  method EncodeCoilPayload(d: FrameData, count: nat) returns (payload: seq<byte>)
    requires count <= FrameCoilCapacity
    ensures payload == CoilBytes(d, count)
  {
    payload := [];
    var coilIndex := 0;
    while coilIndex < count
      invariant coilIndex == 8 * |payload| && coilIndex <= count + 7
      invariant forall i :: 0 <= i < |payload| ==> payload[i] == CoilByte(d, 8 * i, Min(8, count - 8 * i))
    {
      var coilsInByte := Min(8, count - coilIndex);
      var ok, b := FormatCoils(d, coilIndex, coilsInByte);
      assert ok;
      payload := payload + [b];
      coilIndex := coilIndex + 8;
    }
    assert |payload| == (count + 7) / 8;
  }

  /**
   * The coil loop of setFromBytes for a read-coils/discrete-inputs response:
   * 8 coils per payload byte from coil 0; returns the coil total.
   */
  method ExtractResponseCoils(payload: seq<byte>, dest: array<u16>) returns (totalCoils: nat)
    requires dest.Length == FrameDataSize && 8 * |payload| <= FrameCoilCapacity
    modifies dest
    ensures totalCoils == 8 * |payload|
    ensures dest[..] == WriteCoils(old(dest[..]), PayloadCoils(payload, totalCoils), 0)
  {
    totalCoils := 0;
    var i := 0;
    while i < |payload|
      invariant 0 <= i <= |payload| && totalCoils == 8 * i
      invariant dest[..] == WriteCoils(old(dest[..]), PayloadCoils(payload, totalCoils), 0)
    {
      var extracted := ExtractCoils(payload[i], dest, totalCoils, 8);
      ExtractStep(old(dest[..]), payload, i, totalCoils, 8);
      totalCoils := totalCoils + extracted;
      i := i + 1;
    }
  }

  /**
   * The coil loop of setFromBytes for a write-multiple-coils request: byte i
   * gives min(8, count - 8i) coils. The decoder has checked that the payload
   * has (count + 7) / 8 bytes, which is what the precondition says.
   */
  method ExtractRequestCoils(payload: seq<byte>, dest: array<u16>, count: nat)
    requires dest.Length == FrameDataSize && count <= FrameCoilCapacity
    requires count <= 8 * |payload| < count + 8
    modifies dest
    ensures dest[..] == WriteCoils(old(dest[..]), PayloadCoils(payload, count), 0)
  {
    ghost var d0 := dest[..];
    var totalCoils := 0;
    assert PayloadCoils(payload, 0) == [];
    var i := 0;
    while i < |payload|
      invariant 0 <= i <= |payload| && totalCoils <= count
      invariant i < |payload| ==> totalCoils == 8 * i
      invariant i == |payload| ==> totalCoils == count
      invariant dest[..] == WriteCoils(d0, PayloadCoils(payload, totalCoils), 0)
    {
      var coilsToExtract := Min(count - totalCoils, 8);
      var extracted := ExtractPayloadByte(payload, i, dest, totalCoils, coilsToExtract, d0);
      totalCoils := totalCoils + extracted;
      i := i + 1;
    }
  }

  /** Byte i of a coil payload extracted after the coils of the bytes before it. */
  method ExtractPayloadByte(payload: seq<byte>, i: nat, dest: array<u16>, first: nat, m: nat, ghost d0: FrameData)
    returns (extracted: nat)
    requires dest.Length == FrameDataSize && i < |payload| && first == 8 * i && m <= 8 && first + m <= FrameCoilCapacity
    requires dest[..] == WriteCoils(d0, PayloadCoils(payload, first), 0)
    modifies dest
    ensures extracted == m
    ensures dest[..] == WriteCoils(d0, PayloadCoils(payload, first + m), 0)
  {
    extracted := ExtractCoils(payload[i], dest, first, m);
    ExtractStep(d0, payload, i, first, m);
  }

  /** The register loop of appendToBytes: each register high byte first. */
  method EncodeRegisterPayload(d: FrameData, n: nat) returns (payload: seq<byte>)
    requires n <= FrameDataSize
    ensures payload == RegisterBytes(d, n)
  {
    payload := [];
    var i := 0;
    while i < n
      invariant 0 <= i <= n && payload == RegisterBytes(d, i)
    {
      payload := payload + [d[i] / 0x100, d[i] % 0x100];
      i := i + 1;
    }
  }

  /**
   * The register loop of setFromBytes: word i/2 is built from bytes i and
   * i+1, for even i below the byte count; the other words are left alone.
   */
  method ExtractRegisters(payload: seq<byte>, dest: array<u16>)
    requires dest.Length == FrameDataSize && |payload| <= 2 * FrameDataSize && |payload| % 2 == 0
    modifies dest
    ensures dest[..|payload| / 2] == Words(payload, |payload| / 2)
    ensures dest[|payload| / 2..] == old(dest[..])[|payload| / 2..]
  {
    var i := 0;
    while i < |payload|
      invariant 0 <= i <= |payload| && i % 2 == 0
      invariant forall k :: 0 <= k < i / 2 ==> dest[k] == WordAt(payload, k)
      invariant dest[i / 2..] == old(dest[..])[i / 2..]
    {
      var value := Word(payload[i], payload[i + 1]);
      dest[i / 2] := value;
      i := i + 2;
    }
  }

  /** The register loop of setFromBytes on a cleared data field: the registers, then zeros. */
  method ExtractRegistersCleared(payload: seq<byte>, dest: array<u16>)
    requires dest.Length == FrameDataSize && |payload| <= 2 * FrameDataSize && |payload| % 2 == 0
    requires dest[..] == ZeroData
    modifies dest
    ensures dest[..] == RegistersData(Words(payload, |payload| / 2))
  {
    ExtractRegisters(payload, dest);
    ghost var r := RegistersData(Words(payload, |payload| / 2));
    assert forall i :: 0 <= i < FrameDataSize ==> dest[i] == r[i] by {
      assert forall i :: 0 <= i < |payload| / 2 ==> dest[i] == dest[..|payload| / 2][i];
      assert forall i :: |payload| / 2 <= i < FrameDataSize ==> dest[i] == dest[|payload| / 2..][i - |payload| / 2];
    }
  }

  // ---------------------------------------------------------------------------
  // setFromBytes on a Frame object
  // ---------------------------------------------------------------------------

  /** HandleError(frame, e): the frame is cleared and the error returned. */
  method FailDecode(frame: Frame, e: Status) returns (st: Status)
    requires frame.Valid()
    modifies frame, frame.data
    ensures frame.Valid() && st == e && frame.Value() == EmptyFrame
  {
    frame.Clear();
    st := e;
  }

  /** The read-request / coil-response branch of setFromBytes. */
  method DecodeCoilsOrReadRequestInto(pdu: seq<byte>, frame: Frame, t: MsgType) returns (st: Status)
    requires frame.Valid() && 1 <= |pdu| <= MaxPduSize
    modifies frame, frame.data
    ensures frame.Valid()
    ensures st == DecodeCoilsOrReadRequest(pdu, old(frame.Value()), t).status
    ensures frame.Value() == DecodeCoilsOrReadRequest(pdu, old(frame.Value()), t).frame
  {
    if t == Request {
      if |pdu| != 5 {
        st := FailDecode(frame, ErrInvalidLen);
        return;
      }
      frame.regAddress := Word(pdu[1], pdu[2]);
      frame.regCount := Word(pdu[3], pdu[4]);
      if !IsValidRegisterCount(frame.regCount, frame.fc) {
        st := FailDecode(frame, ErrInvalidRegCount);
        return;
      }
      st := Success;
    } else {
      if |pdu| < 3 {
        st := FailDecode(frame, ErrInvalidLen);
        return;
      }
      var byteCount := pdu[1];
      if |pdu| != byteCount as int + 2 {
        st := FailDecode(frame, ErrInvalidLen);
        return;
      }
      if 8 * byteCount as int > MaxCoilsRead {
        st := FailDecode(frame, ErrInvalidByteCount);
        return;
      }
      var totalCoils := ExtractResponseCoils(pdu[2..], frame.data);
      frame.regCount := totalCoils;
      st := Success;
    }
  }

  /** The register-response branch of setFromBytes: clearData, then one word per byte pair. */
  method DecodeRegistersResponseInto(pdu: seq<byte>, frame: Frame) returns (st: Status)
    requires frame.Valid() && 1 <= |pdu| <= MaxPduSize
    modifies frame, frame.data
    ensures frame.Valid()
    ensures st == DecodeRegistersResponse(pdu, old(frame.Value())).status
    ensures frame.Value() == DecodeRegistersResponse(pdu, old(frame.Value())).frame
  {
    if |pdu| < 2 {
      st := FailDecode(frame, ErrInvalidLen);
      return;
    }
    var byteCount := pdu[1];
    if |pdu| != byteCount as int + 2 {
      st := FailDecode(frame, ErrInvalidLen);
      return;
    }
    if byteCount % 2 != 0 {
      st := FailDecode(frame, ErrInvalidByteCount);
      return;
    }
    frame.ClearData(true);
    ExtractRegisters(pdu[2..], frame.data);
    frame.regCount := byteCount / 2;
    assert frame.data[..] == frame.data[..byteCount / 2] + frame.data[byteCount / 2..];
    st := Success;
  }

  /** The write-single-coil branch of setFromBytes. */
  method DecodeWriteCoilInto(pdu: seq<byte>, frame: Frame) returns (st: Status)
    requires frame.Valid() && 1 <= |pdu| <= MaxPduSize
    modifies frame, frame.data
    ensures frame.Valid()
    ensures st == DecodeWriteCoil(pdu, old(frame.Value())).status
    ensures frame.Value() == DecodeWriteCoil(pdu, old(frame.Value())).frame
  {
    if |pdu| != 5 {
      st := FailDecode(frame, ErrInvalidLen);
      return;
    }
    frame.regAddress := Word(pdu[1], pdu[2]);
    var value := Word(pdu[3], pdu[4]);
    if value != 0x0000 && value != 0xFF00 {
      st := FailDecode(frame, ErrInvalidData);
      return;
    }
    frame.data[0] := if value == 0xFF00 then 1 else 0;
    frame.regCount := 1;
    st := Success;
  }

  /** The write-single-register branch of setFromBytes. */
  method DecodeWriteRegisterInto(pdu: seq<byte>, frame: Frame) returns (st: Status)
    requires frame.Valid() && 1 <= |pdu| <= MaxPduSize
    modifies frame, frame.data
    ensures frame.Valid()
    ensures st == DecodeWriteRegister(pdu, old(frame.Value())).status
    ensures frame.Value() == DecodeWriteRegister(pdu, old(frame.Value())).frame
  {
    if |pdu| != 5 {
      st := FailDecode(frame, ErrInvalidLen);
      return;
    }
    frame.regAddress := Word(pdu[1], pdu[2]);
    frame.data[0] := Word(pdu[3], pdu[4]);
    frame.regCount := 1;
    st := Success;
  }

  /** The write-multiple response branch of setFromBytes: the echoed address and count. */
  method DecodeWriteEchoInto(pdu: seq<byte>, frame: Frame) returns (st: Status)
    requires frame.Valid() && 1 <= |pdu| <= MaxPduSize
    modifies frame, frame.data
    ensures frame.Valid()
    ensures st == DecodeWriteEcho(pdu, old(frame.Value())).status
    ensures frame.Value() == DecodeWriteEcho(pdu, old(frame.Value())).frame
  {
    if |pdu| != 5 {
      st := FailDecode(frame, ErrInvalidLen);
      return;
    }
    frame.regAddress := Word(pdu[1], pdu[2]);
    frame.regCount := Word(pdu[3], pdu[4]);
    st := Success;
  }

  /** The write-multiple-coils request branch of setFromBytes. */
  method DecodeWriteCoilsRequestInto(pdu: seq<byte>, frame: Frame) returns (st: Status)
    requires frame.Valid() && 1 <= |pdu| <= MaxPduSize
    modifies frame, frame.data
    ensures frame.Valid()
    ensures st == DecodeWriteCoilsRequest(pdu, old(frame.Value())).status
    ensures frame.Value() == DecodeWriteCoilsRequest(pdu, old(frame.Value())).frame
  {
    if |pdu| < 6 {
      st := FailDecode(frame, ErrInvalidLen);
      return;
    }
    frame.regAddress := Word(pdu[1], pdu[2]);
    frame.regCount := Word(pdu[3], pdu[4]);
    var byteCount := pdu[5];
    if |pdu| != byteCount as int + 6 {
      st := FailDecode(frame, ErrInvalidLen);
      return;
    }
    if byteCount != (frame.regCount + 7) / 8 {
      st := FailDecode(frame, ErrInvalidByteCount);
      return;
    }
    CeilBytes(frame.regCount);
    ExtractRequestCoils(pdu[6..], frame.data, frame.regCount);
    st := Success;
  }

  /**
   * The write-multiple-registers request branch of setFromBytes, with the
   * data cleared but the count just read kept (clearData(false)).
   */
  method DecodeWriteRegistersRequestInto(pdu: seq<byte>, frame: Frame) returns (st: Status)
    requires frame.Valid() && 1 <= |pdu| <= MaxPduSize
    modifies frame, frame.data
    ensures frame.Valid()
    ensures st == DecodeWriteRegistersRequest(pdu, old(frame.Value()), false).status
    ensures frame.Value() == DecodeWriteRegistersRequest(pdu, old(frame.Value()), false).frame
  {
    if |pdu| < 6 {
      st := FailDecode(frame, ErrInvalidLen);
      return;
    }
    frame.regAddress := Word(pdu[1], pdu[2]);
    frame.regCount := Word(pdu[3], pdu[4]);
    var byteCount := pdu[5];
    if |pdu| != byteCount as int + 6 {
      st := FailDecode(frame, ErrInvalidLen);
      return;
    }
    if byteCount != frame.regCount * 2 {
      st := FailDecode(frame, ErrInvalidByteCount);
      return;
    }
    frame.ClearData(false);
    ExtractRegistersCleared(pdu[6..], frame.data);
    st := Success;
  }

  /**
   * setFromBytes: decodes a PDU into the frame object in place. The frame
   * ends up as DecodePdu describes it and the status is DecodePdu's.
   */
  method SetFromBytes(pdu: seq<byte>, frame: Frame, t: MsgType) returns (st: Status)
    requires frame.Valid() && |pdu| <= MaxPduSize
    modifies frame, frame.data
    ensures frame.Valid()
    ensures st == DecodePdu(pdu, old(frame.Value()), t).status
    ensures frame.Value() == DecodePdu(pdu, old(frame.Value()), t).frame
  {
    if |pdu| == 0 {
      st := FailDecode(frame, ErrInvalidLen);
      return;
    }
    frame.fc := pdu[0];
    frame.exceptionCode := NullException;
    var isException := pdu[0] >= 0x80;
    if isException {
      frame.fc := pdu[0] - 0x80;
    }
    if !IsValidFunctionCode(frame.fc) {
      st := FailDecode(frame, ErrInvalidFc);
      return;
    }
    if isException {
      if |pdu| != 2 {
        st := FailDecode(frame, ErrInvalidLen);
        return;
      }
      var ec := pdu[1];
      if !IsValidExceptionCodeFor(ec, t) {
        st := FailDecode(frame, ErrInvalidException);
        return;
      }
      frame.exceptionCode := ec;
      st := Success;
      return;
    }
    var fc := frame.fc;
    if fc == ReadCoils || fc == ReadDiscreteInputs {
      st := DecodeCoilsOrReadRequestInto(pdu, frame, t);
    } else if fc == ReadHoldingRegisters || fc == ReadInputRegisters {
      if t == Request {
        st := DecodeCoilsOrReadRequestInto(pdu, frame, t);
      } else {
        st := DecodeRegistersResponseInto(pdu, frame);
      }
    } else if fc == WriteCoil {
      st := DecodeWriteCoilInto(pdu, frame);
    } else if fc == WriteRegister {
      st := DecodeWriteRegisterInto(pdu, frame);
    } else if fc == WriteMultipleCoils {
      if t == Request {
        st := DecodeWriteCoilsRequestInto(pdu, frame);
      } else {
        st := DecodeWriteEchoInto(pdu, frame);
      }
    } else if fc == WriteMultipleRegisters {
      if t == Request {
        st := DecodeWriteRegistersRequestInto(pdu, frame);
      } else {
        st := DecodeWriteEchoInto(pdu, frame);
      }
    } else {
      st := FailDecode(frame, ErrInvalidFc);
    }
  }

  // ---------------------------------------------------------------------------
  // appendToBytes into a ByteBuffer
  // ---------------------------------------------------------------------------

  /** The contents after resize(n) succeeds: the prefix kept, newly exposed bytes zero. */
  function Resized(s: seq<byte>, n: nat): (r: seq<byte>)
    ensures |r| == n
  {
    Truncate(s, n) + ZeroBytes(n - Min(|s|, n))
  }

  /**
   * appendToBytes: writes the PDU of f after the buffer's bytes, or after its
   * first `pos` bytes when a position is given (resizing the buffer to pos
   * first, which fails past the capacity). Bytes past the capacity are
   * dropped; an encoding error clears the buffer.
   */
  method AppendToBytes(f: FrameValue, t: MsgType, buf: ByteBuffer, pos: Option<nat>) returns (st: Status)
    requires buf.Valid() && PayloadInBounds(f, t)
    modifies buf, buf.bytes
    ensures buf.Valid()
    ensures pos.Some? && !(pos.value <= buf.cap && buf.attached) ==>
      st == ErrBufferOverflow && buf.Contents() == old(buf.Contents())
    ensures !(pos.Some? && !(pos.value <= buf.cap && buf.attached)) ==>
      var start := if pos.Some? then Resized(old(buf.Contents()), pos.value) else old(buf.Contents());
      var e := EncodePdu(f, t);
      st == e.status && buf.Contents() == (if e.status == Success then Truncate(start + e.bytes, buf.cap) else [])
  {
    if pos.Some? {
      var ok := buf.Resize(pos.value);
      if !ok {
        return ErrBufferOverflow;
      }
    }
    var out;
    st, out := PduBytes(f, t);
    if st != Success {
      buf.Clear();
      return;
    }
    buf.PushEach(out);
  }

  /**
   * The bytes appendToBytes pushes for f: the function code, then the fields
   * of its branch, built with the register and coil payload loops. An error
   * status means the source's HandleError (the buffer is cleared).
   */
  method PduBytes(f: FrameValue, t: MsgType) returns (st: Status, out: seq<byte>)
    requires PayloadInBounds(f, t)
    ensures st == EncodePdu(f, t).status
    ensures st == Success ==> out == EncodePdu(f, t).bytes
  {
    if f.exceptionCode != NullException {
      return Success, [WithExceptionBit(f.fc), f.exceptionCode];
    } else if f.fc in {ReadCoils, ReadDiscreteInputs, ReadHoldingRegisters, ReadInputRegisters} {
      st, out := ReadPduBytes(f, t);
    } else if f.fc == WriteCoil {
      if f.data[0] > 1 {
        return ErrInvalidData, [];
      }
      var value := if f.data[0] == 1 then 0xFF00 else 0x0000;
      return Success, [f.fc] + U16Bytes(f.regAddress) + U16Bytes(value);
    } else if f.fc == WriteRegister {
      return Success, [f.fc] + U16Bytes(f.regAddress) + U16Bytes(f.data[0]);
    } else if f.fc in {WriteMultipleCoils, WriteMultipleRegisters} {
      st, out := WriteMultiplePduBytes(f, t);
    } else {
      return ErrInvalidFc, [];
    }
  }

  /** The read branch of appendToBytes (function codes 1-4). */
  method ReadPduBytes(f: FrameValue, t: MsgType) returns (st: Status, out: seq<byte>)
    requires PayloadInBounds(f, t) && f.exceptionCode == NullException
    requires f.fc in {ReadCoils, ReadDiscreteInputs, ReadHoldingRegisters, ReadInputRegisters}
    ensures st == EncodePdu(f, t).status
    ensures st == Success ==> out == EncodePdu(f, t).bytes
  {
    ReadPdu(f, t);
    if t == Request {
      return Success, [f.fc] + U16Bytes(f.regAddress) + U16Bytes(f.regCount);
    } else if f.fc in {ReadHoldingRegisters, ReadInputRegisters} {
      var byteCount: byte := 2 * f.regCount;
      var payload := EncodeRegisterPayload(f.data, f.regCount);
      return Success, [f.fc, byteCount] + payload;
    }
    var byteCount: byte := (f.regCount + 7) / 8;
    if byteCount == 0 {
      return ErrInvalidData, [];
    }
    var payload := EncodeCoilPayload(f.data, f.regCount);
    return Success, [f.fc, byteCount] + payload;
  }

  /** EncodePdu on function codes 1-4, branch by branch. */
  lemma ReadPdu(f: FrameValue, t: MsgType)
    requires PayloadInBounds(f, t) && f.exceptionCode == NullException
    requires f.fc in {ReadCoils, ReadDiscreteInputs, ReadHoldingRegisters, ReadInputRegisters}
    ensures t == Request ==> EncodePdu(f, t) == Encoding([f.fc] + U16Bytes(f.regAddress) + U16Bytes(f.regCount))
    ensures t != Request && f.fc in {ReadHoldingRegisters, ReadInputRegisters} ==>
      EncodePdu(f, t) == Encoding([f.fc, 2 * f.regCount] + RegisterBytes(f.data, f.regCount))
    ensures t != Request && f.fc in {ReadCoils, ReadDiscreteInputs} && (f.regCount + 7) / 8 == 0 ==>
      EncodePdu(f, t) == EncodeFailure(ErrInvalidData)
    ensures t != Request && f.fc in {ReadCoils, ReadDiscreteInputs} && (f.regCount + 7) / 8 != 0 ==>
      EncodePdu(f, t) == Encoding([f.fc, (f.regCount + 7) / 8] + CoilBytes(f.data, f.regCount))
  {
  }

  /** The write-multiple branch of appendToBytes (function codes 15 and 16). */
  method WriteMultiplePduBytes(f: FrameValue, t: MsgType) returns (st: Status, out: seq<byte>)
    requires PayloadInBounds(f, t) && f.exceptionCode == NullException
    requires f.fc in {WriteMultipleCoils, WriteMultipleRegisters}
    ensures st == EncodePdu(f, t).status
    ensures st == Success ==> out == EncodePdu(f, t).bytes
  {
    var header: seq<byte> := [f.fc] + U16Bytes(f.regAddress) + U16Bytes(f.regCount);
    WriteMultiplePdu(f, t, header);
    if t != Request {
      return Success, header;
    }
    if f.fc == WriteMultipleCoils {
      if f.regCount == 0 {
        return ErrInvalidData, [];
      }
      var byteCount: byte := (f.regCount + 7) / 8;
      var payload := EncodeCoilPayload(f.data, f.regCount);
      return Success, header + [byteCount] + payload;
    }
    var byteCount: byte := 2 * f.regCount;
    var payload := EncodeRegisterPayload(f.data, f.regCount);
    return Success, header + [byteCount] + payload;
  }

  /** EncodePdu on function codes 15 and 16, branch by branch. */
  lemma WriteMultiplePdu(f: FrameValue, t: MsgType, header: seq<byte>)
    requires PayloadInBounds(f, t) && f.exceptionCode == NullException
    requires f.fc in {WriteMultipleCoils, WriteMultipleRegisters}
    requires header == [f.fc] + U16Bytes(f.regAddress) + U16Bytes(f.regCount)
    ensures t != Request ==> EncodePdu(f, t) == Encoding(header)
    ensures t == Request && f.fc == WriteMultipleCoils && f.regCount == 0 ==> EncodePdu(f, t) == EncodeFailure(ErrInvalidData)
    ensures t == Request && f.fc == WriteMultipleCoils && f.regCount != 0 ==>
      EncodePdu(f, t) == Encoding(header + [(f.regCount + 7) / 8] + CoilBytes(f.data, f.regCount))
    ensures t == Request && f.fc == WriteMultipleRegisters ==>
      EncodePdu(f, t) == Encoding(header + [2 * f.regCount] + RegisterBytes(f.data, f.regCount))
  {
  }
}
