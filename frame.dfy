/**
 * The Modbus frame (src/core/ModbusFrame.hpp): message header fields plus a
 * fixed 125-word data field holding registers or packed coils.
 *
 * `FrameValue` is the frame as a value, used by the codec, client and server
 * models. The class `Frame` holds the same fields with the data field as an
 * array and models the setters that update it in place; each setter is proved
 * against a pure function on `FrameValue` (`AfterSet...`), and the getters are
 * functions on `FrameValue`.
 */
module ModbusFrame {
  import opened Wrappers
  import opened ModbusCore

  /** The data field: exactly 125 register words. */
  type FrameData = s: seq<u16> | |s| == 125 witness Zeros(125)

  function Zeros(n: nat): (r: seq<u16>)
    ensures |r| == n && forall i :: 0 <= i < n ==> r[i] == 0
  {
    seq(n, _ => 0)
  }

  datatype FrameValue = FrameValue(
    msgType: MsgType,
    fc: byte,
    slaveId: byte,
    regAddress: u16,
    regCount: u16,
    data: FrameData,
    exceptionCode: byte)

  const ZeroData: FrameData := Zeros(125)

  /** The default-constructed (and cleared) frame. */
  const EmptyFrame := FrameValue(NullMsg, NullFC, 0, 0, 0, ZeroData, NullException)

  datatype ByteOrder = AB | BA | ABCD | CDAB | BADC | DCBA

  // ---------------------------------------------------------------------------
  // Word and coil arithmetic
  // ---------------------------------------------------------------------------

  /** __builtin_bswap16: exchange the two bytes of a word. */
  function Swap16(w: u16): (r: u16)
    ensures r / 256 == w % 256 && r % 256 == w / 256
  {
    (w % 256) * 256 + w / 256
  }

  lemma Swap16Involutive(w: u16)
    ensures Swap16(Swap16(w)) == w
  {
  }

  function HighWord(v: u32): u16 { v / 0x1_0000 }
  function LowWord(v: u32): u16 { v % 0x1_0000 }
  function Join32(hi: u16, lo: u16): (r: u32)
    ensures HighWord(r) == hi && LowWord(r) == lo
  {
    hi * 0x1_0000 + lo
  }

  /** Coil c of a data field: bit c%16 of word c/16. */
  predicate CoilOf(d: FrameData, c: nat)
    requires c < FrameCoilCapacity
  {
    Bit(d[c / 16], c % 16)
  }

  /** Coil c of a data field forced to v, as the positioned coil setters do it. */
  function WithCoil(d: FrameData, c: nat, v: bool): FrameData
    requires c < FrameCoilCapacity
  {
    d[c / 16 := WithBit(d[c / 16], c % 16, v)]
  }

  /** Forcing coil c sets that coil and leaves every other coil as it was. */
  lemma WithCoilEffect(d: FrameData, c: nat, v: bool, e: nat)
    requires c < FrameCoilCapacity && e < FrameCoilCapacity
    ensures CoilOf(WithCoil(d, c, v), e) == if e == c then v else CoilOf(d, e)
  {
    WithBitEffect(d[c / 16], c % 16, v);
    if e != c && e / 16 == c / 16 {
      assert e % 16 != c % 16;
    }
  }

  /** The data field after writing coils src at positions start, start+1, ... in order. */
  function WriteCoils(d: FrameData, src: seq<bool>, start: nat): FrameData
    requires start + |src| <= FrameCoilCapacity
  {
    if |src| == 0 then d
    else WithCoil(WriteCoils(d, src[..|src| - 1], start), start + |src| - 1, src[|src| - 1])
  }

  /** Two data fields with the same coils are equal. */
  lemma CoilsDetermine(d1: FrameData, d2: FrameData)
    requires forall c :: 0 <= c < FrameCoilCapacity ==> CoilOf(d1, c) == CoilOf(d2, c)
    ensures d1 == d2
  {
    Pow2Sixteen();
    forall i | 0 <= i < FrameDataSize
      ensures d1[i] == d2[i]
    {
      forall k: nat | k < 16
        ensures Bit(d1[i], k) == Bit(d2[i], k)
      {
        var c := 16 * i + k;
        assert c / 16 == i && c % 16 == k;
        assert CoilOf(d1, c) == CoilOf(d2, c);
      }
      BitsDetermine(d1[i], d2[i], 16);
    }
  }

  /** Writing one more coil at the end of a range. */
  lemma WriteCoilsSnoc(d: FrameData, src: seq<bool>, start: nat, i: nat)
    requires i < |src| && start + i < FrameCoilCapacity
    ensures WriteCoils(d, src[..i + 1], start) == WithCoil(WriteCoils(d, src[..i], start), start + i, src[i])
  {
    assert src[..i + 1][..i] == src[..i];
  }

  /** Writing a coil range changes exactly the coils in the range. */
  lemma {:induction false} WriteCoilsEffect(d: FrameData, src: seq<bool>, start: nat, e: nat)
    requires start + |src| <= FrameCoilCapacity && e < FrameCoilCapacity
    ensures CoilOf(WriteCoils(d, src, start), e) ==
      if start <= e < start + |src| then src[e - start] else CoilOf(d, e)
  {
    if |src| > 0 {
      WriteCoilsEffect(d, src[..|src| - 1], start, e);
      WithCoilEffect(WriteCoils(d, src[..|src| - 1], start), start + |src| - 1, src[|src| - 1], e);
    }
  }

  // ---------------------------------------------------------------------------
  // Getters (pure reads of the data field)
  // ---------------------------------------------------------------------------

  /** getRegister: the register at `index`, or 0 outside regCount or the data field. */
  function GetRegister(f: FrameValue, index: nat): (r: u16)
    ensures index < f.regCount && index < FrameDataSize ==> r == f.data[index]
    ensures index >= f.regCount || index >= FrameDataSize ==> r == 0
  {
    if index < f.regCount && index < FrameDataSize then f.data[index] else 0
  }

  /** getRegisters(): the first min(regCount, 125) registers. */
  function GetRegisters(f: FrameValue): (r: seq<u16>)
    ensures |r| == Min(f.regCount, FrameDataSize)
    ensures forall i :: 0 <= i < |r| ==> r[i] == GetRegister(f, i)
  {
    f.data[..Min(f.regCount, FrameDataSize)]
  }

  /**
   * getRegisters(dst, dstLen): the registers copied into a caller buffer of
   * dstLen entries. The source narrows dstLen to 16 bits before taking the
   * minimum with regCount. A null buffer behaves as dstLen == 0.
   */
  function GetRegistersInto(f: FrameValue, dstLen: nat): (r: seq<u16>)
    ensures f.regCount == 0 || dstLen == 0 ==> r == []
    ensures |r| <= f.regCount && |r| <= FrameDataSize && |r| <= dstLen
    ensures dstLen < 0x1_0000 && dstLen > 0 ==> |r| == Min(Min(f.regCount, dstLen), FrameDataSize)
    ensures r == f.data[..|r|]
  {
    if f.regCount == 0 || dstLen == 0 then []
    else f.data[..Min(Min(f.regCount, dstLen % 0x1_0000), FrameDataSize)]
  }

  /** getCoil: bit i%16 of word i/16, or false outside regCount or the 2000 coils. */
  function GetCoil(f: FrameValue, index: nat): (r: bool)
    ensures r ==> index < f.regCount && index < FrameCoilCapacity
    ensures index < f.regCount && index < FrameCoilCapacity ==> (r <==> CoilOf(f.data, index))
  {
    if index >= f.regCount || index >= FrameCoilCapacity then false
    else CoilOf(f.data, index)
  }

  /** The coils getCoils() returns: the first min(regCount, 2000) coils. */
  function Coils(f: FrameValue): (r: seq<bool>)
    ensures |r| == Min(f.regCount, FrameCoilCapacity)
  {
    seq(Min(f.regCount, FrameCoilCapacity), i requires 0 <= i < Min(f.regCount, FrameCoilCapacity) => GetCoil(f, i))
  }

  // ---------------------------------------------------------------------------
  // Setters as functions of the frame value (None: the setter returns false/0)
  // ---------------------------------------------------------------------------

  /** setRegisters(vector): refuses more than 125 values; else data = the values, zero-filled. */
  function AfterSetRegisters(f: FrameValue, src: seq<u16>): Option<FrameValue>
  {
    if |src| > FrameDataSize then None
    else Some(f.(data := PackedRegisters(src), regCount := |src|))
  }

  /** setCoils(vector): refuses more than 2000 coils; else data = the packed coils. */
  function AfterSetCoils(f: FrameValue, src: seq<bool>): Option<FrameValue>
  {
    if |src| > FrameCoilCapacity then None
    else Some(f.(data := PackedCoils(src), regCount := |src|))
  }

  /** setRegisters(src, len, start): copies into [start, start+len); regCount unchanged. */
  function AfterSetRegistersAt(f: FrameValue, src: seq<u16>, start: nat): Option<FrameValue>
  {
    if |src| == 0 || start + |src| > FrameDataSize then None
    else Some(f.(data := f.data[..start] + src + f.data[start + |src|..]))
  }

  /** setCoils(src, start): writes coils [start, start+len); regCount unchanged. */
  function AfterSetCoilsAt(f: FrameValue, src: seq<bool>, start: nat): Option<FrameValue>
  {
    if |src| == 0 || start + |src| > FrameCoilCapacity then None
    else Some(f.(data := WriteCoils(f.data, src, start)))
  }

  /** The two registers a 32-bit value occupies in a 32-bit byte order. */
  function Uint32Words(v: u32, order: ByteOrder): Option<(u16, u16)>
  {
    match order
    case ABCD => Some((HighWord(v), LowWord(v)))
    case CDAB => Some((LowWord(v), HighWord(v)))
    case BADC => Some((Swap16(HighWord(v)), Swap16(LowWord(v))))
    case DCBA => Some((Swap16(LowWord(v)), Swap16(HighWord(v))))
    case _ => None
  }

  /** The register a 16-bit value occupies in a 16-bit byte order. */
  function Uint16Word(v: u16, order: ByteOrder): Option<u16>
  {
    match order
    case AB => Some(v)
    case BA => Some(Swap16(v))
    case _ => None
  }

  /** setUint32: two registers at index, regCount raised to index+2; refused past 125 or for a 16-bit order. */
  function AfterSetUint32(f: FrameValue, v: u32, index: nat, order: ByteOrder): Option<FrameValue>
  {
    if index + 2 > FrameDataSize then None
    else match Uint32Words(v, order)
      case None => None
      case Some(words) =>
        Some(f.(data := f.data[index := words.0][index + 1 := words.1],
                regCount := Max(f.regCount, index + 2)))
  }

  /** setUint16: one register at index, regCount raised to index+1; refused past 125 or for a 32-bit order. */
  function AfterSetUint16(f: FrameValue, v: u16, index: nat, order: ByteOrder): Option<FrameValue>
  {
    if index + 1 > FrameDataSize then None
    else match Uint16Word(v, order)
      case None => None
      case Some(w) => Some(f.(data := f.data[index := w], regCount := Max(f.regCount, index + 1)))
  }

  /** static_cast<uint32_t> of a 32-bit signed value (two's complement). */
  function Int32ToUint32(v: int): u32
    requires -0x8000_0000 <= v < 0x8000_0000
  {
    if v < 0 then v + 0x1_0000_0000 else v
  }

  /** static_cast<int32_t> of a 32-bit unsigned value. */
  function Uint32ToInt32(u: u32): (r: int)
    ensures -0x8000_0000 <= r < 0x8000_0000
    ensures (r - u) % 0x1_0000_0000 == 0
  {
    if u >= 0x8000_0000 then u - 0x1_0000_0000 else u
  }

  function Int16ToUint16(v: int): u16
    requires -0x8000 <= v < 0x8000
  {
    if v < 0 then v + 0x1_0000 else v
  }

  function Uint16ToInt16(u: u16): (r: int)
    ensures -0x8000 <= r < 0x8000
    ensures (r - u) % 0x1_0000 == 0
  {
    if u >= 0x8000 then u - 0x1_0000 else u
  }

  /** setInt32: setUint32 of the two's-complement bit pattern. */
  function AfterSetInt32(f: FrameValue, v: int, index: nat, order: ByteOrder): Option<FrameValue>
    requires -0x8000_0000 <= v < 0x8000_0000
  {
    AfterSetUint32(f, Int32ToUint32(v), index, order)
  }

  /** setInt16: setUint16 of the two's-complement bit pattern. */
  function AfterSetInt16(f: FrameValue, v: int, index: nat, order: ByteOrder): Option<FrameValue>
    requires -0x8000 <= v < 0x8000
  {
    AfterSetUint16(f, Int16ToUint16(v), index, order)
  }

  // ---------------------------------------------------------------------------
  // Typed getters
  // ---------------------------------------------------------------------------

  /** getUint32: fails past 125 registers, past regCount, or for a 16-bit order. */
  function GetUint32(f: FrameValue, index: nat, order: ByteOrder): (r: Option<u32>)
    ensures r.None? <==> index + 2 > FrameDataSize || index + 2 > f.regCount || order in {AB, BA}
  {
    if index + 2 > FrameDataSize || index + 2 > f.regCount then None
    else
      var w1, w2 := f.data[index], f.data[index + 1];
      match order
      case ABCD => Some(Join32(w1, w2))
      case CDAB => Some(Join32(w2, w1))
      case BADC => Some(Join32(Swap16(w1), Swap16(w2)))
      case DCBA => Some(Join32(Swap16(w2), Swap16(w1)))
      case _ => None
  }

  /** getUint16: fails past 125 registers, at or past regCount, or for a 32-bit order. */
  function GetUint16(f: FrameValue, index: nat, order: ByteOrder): (r: Option<u16>)
    ensures r.None? <==> index + 1 > FrameDataSize || index >= f.regCount || !(order in {AB, BA})
  {
    if index + 1 > FrameDataSize || index >= f.regCount then None
    else
      match order
      case AB => Some(f.data[index])
      case BA => Some(Swap16(f.data[index]))
      case _ => None
  }

  function GetInt32(f: FrameValue, index: nat, order: ByteOrder): (r: Option<int>)
    ensures r.Some? <==> GetUint32(f, index, order).Some?
  {
    match GetUint32(f, index, order)
    case None => None
    case Some(u) => Some(Uint32ToInt32(u))
  }

  function GetInt16(f: FrameValue, index: nat, order: ByteOrder): (r: Option<int>)
    ensures r.Some? <==> GetUint16(f, index, order).Some?
  {
    match GetUint16(f, index, order)
    case None => None
    case Some(u) => Some(Uint16ToInt16(u))
  }

  // ---------------------------------------------------------------------------
  // Properties of the setters and getters
  // ---------------------------------------------------------------------------

  /** After setRegisters(src) succeeds, register i reads back src[i], and 0 past the end. */
  lemma SetRegistersReadBack(f: FrameValue, src: seq<u16>, i: nat)
    requires |src| <= FrameDataSize
    ensures AfterSetRegisters(f, src).Some?
    ensures GetRegister(AfterSetRegisters(f, src).value, i) == if i < |src| then src[i] else 0
    ensures GetRegisters(AfterSetRegisters(f, src).value) == src
  {
    var g := AfterSetRegisters(f, src).value;
    assert GetRegisters(g) == src;
  }

  /** setRegisters refuses more than 125 values and leaves the frame unchanged. */
  lemma SetRegistersRefusal(f: FrameValue, src: seq<u16>)
    ensures AfterSetRegisters(f, src).None? <==> |src| > FrameDataSize
  {
  }

  /** After setCoils(src) succeeds, coil i reads back src[i], and false past the end. */
  lemma {:induction false} SetCoilsReadBack(f: FrameValue, src: seq<bool>, i: nat)
    requires |src| <= FrameCoilCapacity
    ensures AfterSetCoils(f, src).Some?
    ensures GetCoil(AfterSetCoils(f, src).value, i) == (i < |src| && src[i])
  {
    if i < |src| {
      PackedCoilsBit(src, i / 16, i % 16);
    }
  }

  /** getCoils() after setCoils(src) returns src itself. */
  lemma SetCoilsRoundTrip(f: FrameValue, src: seq<bool>)
    requires |src| <= FrameCoilCapacity
    ensures AfterSetCoils(f, src).Some?
    ensures Coils(AfterSetCoils(f, src).value) == src
  {
    var g := AfterSetCoils(f, src).value;
    forall i | 0 <= i < |src| ensures Coils(g)[i] == src[i] {
      SetCoilsReadBack(f, src, i);
    }
  }

  /** The positioned register setter changes only [start, start+len) and never regCount. */
  lemma SetRegistersAtEffect(f: FrameValue, src: seq<u16>, start: nat)
    ensures AfterSetRegistersAt(f, src, start).None? <==> |src| == 0 || start + |src| > FrameDataSize
    ensures AfterSetRegistersAt(f, src, start).Some? ==>
      var g := AfterSetRegistersAt(f, src, start).value;
      g.regCount == f.regCount &&
      g == f.(data := g.data) &&
      (forall i :: 0 <= i < FrameDataSize ==>
        g.data[i] == if start <= i < start + |src| then src[i - start] else f.data[i])
  {
  }

  /** The positioned coil setter changes only coils [start, start+len) and never regCount. */
  lemma SetCoilsAtEffect(f: FrameValue, src: seq<bool>, start: nat, e: nat)
    requires e < FrameCoilCapacity
    ensures AfterSetCoilsAt(f, src, start).None? <==> |src| == 0 || start + |src| > FrameCoilCapacity
    ensures AfterSetCoilsAt(f, src, start).Some? ==>
      var g := AfterSetCoilsAt(f, src, start).value;
      g.regCount == f.regCount &&
      g == f.(data := g.data) &&
      CoilOf(g.data, e) == if start <= e < start + |src| then src[e - start] else CoilOf(f.data, e)
  {
    if AfterSetCoilsAt(f, src, start).Some? {
      WriteCoilsEffect(f.data, src, start, e);
    }
  }

  /** setUint32 returns 2 and raises regCount to index+2, or returns 0 and changes nothing. */
  lemma SetUint32Effect(f: FrameValue, v: u32, index: nat, order: ByteOrder)
    ensures AfterSetUint32(f, v, index, order).None? <==> index + 2 > FrameDataSize || order in {AB, BA}
    ensures AfterSetUint32(f, v, index, order).Some? ==>
      var g := AfterSetUint32(f, v, index, order).value;
      g.regCount == Max(f.regCount, index + 2) &&
      (forall i :: 0 <= i < FrameDataSize && i != index && i != index + 1 ==> g.data[i] == f.data[i])
  {
  }

  /** A 32-bit value read back with the byte order used to store it is the original value. */
  lemma SetUint32RoundTrip(f: FrameValue, v: u32, index: nat, order: ByteOrder)
    requires AfterSetUint32(f, v, index, order).Some?
    ensures GetUint32(AfterSetUint32(f, v, index, order).value, index, order) == Some(v)
  {
    var g := AfterSetUint32(f, v, index, order).value;
    Swap16Involutive(HighWord(v));
    Swap16Involutive(LowWord(v));
    assert Join32(HighWord(v), LowWord(v)) == v;
    assert g.data[index] == Uint32Words(v, order).value.0;
  }

  lemma SetInt32RoundTrip(f: FrameValue, v: int, index: nat, order: ByteOrder)
    requires -0x8000_0000 <= v < 0x8000_0000
    requires AfterSetInt32(f, v, index, order).Some?
    ensures GetInt32(AfterSetInt32(f, v, index, order).value, index, order) == Some(v)
  {
    SetUint32RoundTrip(f, Int32ToUint32(v), index, order);
  }

  /** CDAB stores 0x12345678 as [0x5678, 0x1234]. */
  lemma CdabLayout(f: FrameValue)
    ensures AfterSetUint32(f, 0x1234_5678, 0, CDAB).value.data[..2] == [0x5678, 0x1234]
  {
  }

  /** setUint16 returns 1 and raises regCount to index+1, or returns 0 and changes nothing. */
  lemma SetUint16Effect(f: FrameValue, v: u16, index: nat, order: ByteOrder)
    ensures AfterSetUint16(f, v, index, order).None? <==> index + 1 > FrameDataSize || !(order in {AB, BA})
    ensures AfterSetUint16(f, v, index, order).Some? ==>
      var g := AfterSetUint16(f, v, index, order).value;
      g.regCount == Max(f.regCount, index + 1) &&
      (forall i :: 0 <= i < FrameDataSize && i != index ==> g.data[i] == f.data[i])
  {
  }

  /** A 16-bit value read back with the byte order used to store it is the original; BA byte-swaps. */
  lemma SetUint16RoundTrip(f: FrameValue, v: u16, index: nat, order: ByteOrder)
    requires AfterSetUint16(f, v, index, order).Some?
    ensures GetUint16(AfterSetUint16(f, v, index, order).value, index, order) == Some(v)
    ensures order == BA ==> AfterSetUint16(f, v, index, order).value.data[index] == Swap16(v)
  {
    Swap16Involutive(v);
  }

  lemma SetInt16RoundTrip(f: FrameValue, v: int, index: nat, order: ByteOrder)
    requires -0x8000 <= v < 0x8000
    requires AfterSetInt16(f, v, index, order).Some?
    ensures GetInt16(AfterSetInt16(f, v, index, order).value, index, order) == Some(v)
  {
    SetUint16RoundTrip(f, Int16ToUint16(v), index, order);
  }

  // ---------------------------------------------------------------------------
  // Exception replies
  // ---------------------------------------------------------------------------

  /** A RESPONSE echoing the request header, with zero data and the given exception code. */
  function ExceptionResponse(request: FrameValue, ec: byte): (r: FrameValue)
    ensures r.msgType == Response && r.exceptionCode == ec && r.data == ZeroData
    ensures r.fc == request.fc && r.slaveId == request.slaveId
    ensures r.regAddress == request.regAddress && r.regCount == request.regCount
  {
    FrameValue(Response, request.fc, request.slaveId, request.regAddress, request.regCount, ZeroData, ec)
  }

  function SetIllegalFunction(request: FrameValue): (r: FrameValue)
    ensures r == ExceptionResponse(request, IllegalFunction)
  {
    request.(msgType := Response, data := ZeroData, exceptionCode := IllegalFunction)
  }

  function SetSlaveBusy(request: FrameValue): (r: FrameValue)
    ensures r == ExceptionResponse(request, SlaveDeviceBusy)
  {
    request.(msgType := Response, data := ZeroData, exceptionCode := SlaveDeviceBusy)
  }

  function SetSlaveDeviceFailure(request: FrameValue): (r: FrameValue)
    ensures r == ExceptionResponse(request, SlaveDeviceFailure)
  {
    request.(msgType := Response, data := ZeroData, exceptionCode := SlaveDeviceFailure)
  }

  // ---------------------------------------------------------------------------
  // The frame object, whose setters update the data field in place
  // ---------------------------------------------------------------------------

  class Frame {
    var msgType: MsgType
    var fc: byte
    var slaveId: byte
    var regAddress: u16
    var regCount: u16
    const data: array<u16>
    var exceptionCode: byte

    ghost predicate Valid()
      reads this
    {
      data.Length == FrameDataSize
    }

    function Value(): FrameValue
      reads this, data
      requires Valid()
    {
      FrameValue(msgType, fc, slaveId, regAddress, regCount, data[..], exceptionCode)
    }

    constructor ()
      ensures Valid() && fresh(data) && Value() == EmptyFrame
    {
      msgType, fc, slaveId, regAddress, regCount, exceptionCode := NullMsg, NullFC, 0, 0, 0, NullException;
      data := new u16[FrameDataSize](_ => 0);
    }

    /** Copies a whole data field into the array. */
    method StoreData(d: FrameData)
      requires Valid()
      modifies data
      ensures data[..] == d
    {
      forall i | 0 <= i < FrameDataSize {
        data[i] := d[i];
      }
    }

    /** Copy assignment: every field of `v`, the data field included. */
    method Assign(v: FrameValue)
      requires Valid()
      modifies this, data
      ensures Valid() && Value() == v
    {
      msgType, fc, slaveId, regAddress, regCount, exceptionCode := v.msgType, v.fc, v.slaveId, v.regAddress, v.regCount, v.exceptionCode;
      StoreData(v.data);
    }

    /** clear(): back to the default frame. */
    method Clear()
      requires Valid()
      modifies this, data
      ensures Valid() && Value() == EmptyFrame
    {
      msgType, fc, slaveId, regAddress, regCount, exceptionCode := NullMsg, NullFC, 0, 0, 0, NullException;
      StoreData(ZeroData);
    }

    /** clearData(resetRegCount): zero the data field, and regCount when asked. */
    method ClearData(resetRegCount: bool)
      requires Valid()
      modifies this, data
      ensures Valid()
      ensures Value() == old(Value()).(data := ZeroData, regCount := if resetRegCount then 0 else old(regCount))
    {
      StoreData(ZeroData);
      if resetRegCount {
        regCount := 0;
      }
    }

    /** setRegisters(vector or list). */
    method SetRegisters(src: seq<u16>) returns (ok: bool)
      requires Valid()
      modifies this, data
      ensures Valid()
      ensures ok == AfterSetRegisters(old(Value()), src).Some?
      ensures Value() == if ok then AfterSetRegisters(old(Value()), src).value else old(Value())
    {
      if |src| > FrameDataSize {
        return false;
      }
      var packed := PackRegisters(src);
      StoreData(packed);
      regCount := |src|;
      ok := true;
    }

    /** setRegisters(pointer, len): a null or empty buffer is refused as well. */
    method SetRegistersFromBuffer(src: seq<u16>) returns (ok: bool)
      requires Valid()
      modifies this, data
      ensures Valid()
      ensures ok == (|src| > 0 && AfterSetRegisters(old(Value()), src).Some?)
      ensures Value() == if ok then AfterSetRegisters(old(Value()), src).value else old(Value())
    {
      if |src| == 0 {
        return false;
      }
      ok := SetRegisters(src);
    }

    /** setCoils(vector or list); 16-bit values go through CoilsFromValues. */
    method SetCoils(src: seq<bool>) returns (ok: bool)
      requires Valid()
      modifies this, data
      ensures Valid()
      ensures ok == AfterSetCoils(old(Value()), src).Some?
      ensures Value() == if ok then AfterSetCoils(old(Value()), src).value else old(Value())
    {
      if |src| > FrameCoilCapacity {
        return false;
      }
      var packed := PackCoils(src);
      StoreData(packed);
      regCount := |src|;
      ok := true;
    }

    /** setCoils(pointer, len): a null or empty buffer is refused as well. */
    method SetCoilsFromBuffer(src: seq<bool>) returns (ok: bool)
      requires Valid()
      modifies this, data
      ensures Valid()
      ensures ok == (|src| > 0 && AfterSetCoils(old(Value()), src).Some?)
      ensures Value() == if ok then AfterSetCoils(old(Value()), src).value else old(Value())
    {
      if |src| == 0 {
        return false;
      }
      ok := SetCoils(src);
    }

    /** setRegisters(src, len, startRegIndex). */
    method SetRegistersAt(src: seq<u16>, start: nat) returns (ok: bool)
      requires Valid()
      modifies data
      ensures ok == AfterSetRegistersAt(old(Value()), src, start).Some?
      ensures Value() == if ok then AfterSetRegistersAt(old(Value()), src, start).value else old(Value())
    {
      if |src| == 0 || start + |src| > FrameDataSize {
        return false;
      }
      forall i | start <= i < start + |src| {
        data[i] := src[i - start];
      }
      assert data[..] == old(data[..])[..start] + src + old(data[..])[start + |src|..];
      ok := true;
    }

    /** setCoils(src, startCoilIndex): sets or clears each addressed bit, in order. */
    method SetCoilsAt(src: seq<bool>, start: nat) returns (ok: bool)
      requires Valid()
      modifies data
      ensures ok == AfterSetCoilsAt(old(Value()), src, start).Some?
      ensures Value() == if ok then AfterSetCoilsAt(old(Value()), src, start).value else old(Value())
    {
      if |src| == 0 || start + |src| > FrameCoilCapacity {
        return false;
      }
      var i := 0;
      while i < |src|
        invariant 0 <= i <= |src|
        invariant data[..] == WriteCoils(old(data[..]), src[..i], start)
      {
        var bitIndex := start + i;
        var wordIdx := bitIndex / 16;
        var bitPos := bitIndex % 16;
        data[wordIdx] := WithBit(data[wordIdx], bitPos, src[i]);
        assert src[..i + 1][..i] == src[..i];
        i := i + 1;
      }
      assert src[..i] == src;
      ok := true;
    }

    /** setUint32: returns the number of registers written (2, or 0 when refused). */
    method SetUint32(v: u32, index: nat, order: ByteOrder) returns (n: nat)
      requires Valid()
      modifies this, data
      ensures Valid()
      ensures n == if AfterSetUint32(old(Value()), v, index, order).Some? then 2 else 0
      ensures Value() == if n == 2 then AfterSetUint32(old(Value()), v, index, order).value else old(Value())
    {
      if index + 2 > FrameDataSize {
        return 0;
      }
      var words := Uint32Words(v, order);
      if words.None? {
        return 0;
      }
      data[index] := words.value.0;
      data[index + 1] := words.value.1;
      regCount := Max(regCount, index + 2);
      n := 2;
    }

    method SetInt32(v: int, index: nat, order: ByteOrder) returns (n: nat)
      requires Valid()
      requires -0x8000_0000 <= v < 0x8000_0000
      modifies this, data
      ensures Valid()
      ensures n == if AfterSetInt32(old(Value()), v, index, order).Some? then 2 else 0
      ensures Value() == if n == 2 then AfterSetInt32(old(Value()), v, index, order).value else old(Value())
    {
      n := SetUint32(Int32ToUint32(v), index, order);
    }

    /** setUint16: returns the number of registers written (1, or 0 when refused). */
    method SetUint16(v: u16, index: nat, order: ByteOrder) returns (n: nat)
      requires Valid()
      modifies this, data
      ensures Valid()
      ensures n == if AfterSetUint16(old(Value()), v, index, order).Some? then 1 else 0
      ensures Value() == if n == 1 then AfterSetUint16(old(Value()), v, index, order).value else old(Value())
    {
      if index + 1 > FrameDataSize {
        return 0;
      }
      var w := Uint16Word(v, order);
      if w.None? {
        return 0;
      }
      data[index] := w.value;
      regCount := Max(regCount, index + 1);
      n := 1;
    }

    method SetInt16(v: int, index: nat, order: ByteOrder) returns (n: nat)
      requires Valid()
      requires -0x8000 <= v < 0x8000
      modifies this, data
      ensures Valid()
      ensures n == if AfterSetInt16(old(Value()), v, index, order).Some? then 1 else 0
      ensures Value() == if n == 1 then AfterSetInt16(old(Value()), v, index, order).value else old(Value())
    {
      n := SetUint16(Int16ToUint16(v), index, order);
    }

    /** getCoils(): unpacks the first min(regCount, 2000) coils in a loop. */
    method GetCoils() returns (r: seq<bool>)
      requires Valid()
      ensures |r| == Min(regCount, FrameCoilCapacity)
      ensures forall i :: 0 <= i < |r| ==> r[i] == CoilOf(data[..], i)
      ensures r == Coils(Value())
    {
      if regCount == 0 {
        return [];
      }
      var count := Min(regCount, FrameCoilCapacity);
      r := [];
      var i := 0;
      while i < count
        invariant 0 <= i <= count
        invariant |r| == i
        invariant forall k :: 0 <= k < i ==> r[k] == CoilOf(data[..], k)
      {
        r := r + [Bit(data[i / 16], i % 16)];
        i := i + 1;
      }
    }

    /**
     * getCoils(dst, dstLen): the coils copied into a caller buffer of dstLen
     * entries (dstLen narrowed to 16 bits as in the source; a null buffer
     * behaves as dstLen == 0).
     */
    method GetCoilsInto(dstLen: nat) returns (r: seq<bool>)
      requires Valid()
      ensures regCount == 0 || dstLen == 0 ==> r == []
      ensures |r| <= regCount && |r| <= dstLen && |r| <= FrameCoilCapacity
      ensures 0 < dstLen < 0x1_0000 && regCount > 0 ==> |r| == Min(Min(regCount, dstLen), FrameCoilCapacity)
      ensures r == Coils(Value())[..|r|]
    {
      if regCount == 0 || dstLen == 0 {
        return [];
      }
      var count := Min(Min(regCount, dstLen % 0x1_0000), FrameCoilCapacity);
      r := [];
      var i := 0;
      while i < count
        invariant 0 <= i <= count
        invariant |r| == i
        invariant forall k :: 0 <= k < i ==> r[k] == CoilOf(data[..], k)
      {
        r := r + [Bit(data[i / 16], i % 16)];
        i := i + 1;
      }
    }
  }
}
