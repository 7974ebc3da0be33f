/**
 * Protocol constants, enumerations and data-packing helpers of the Modbus core
 * (src/core/ModbusCore.h).
 *
 * Bytes and 16-bit registers are modelled as bounded integers; the coil bits of
 * a register word are defined arithmetically (bit b of w is (w / 2^b) % 2), so
 * the packing loops can be reasoned about without bit-vector conversions.
 */
module ModbusCore {

  type byte = x: int | 0 <= x < 0x100
  type u16 = x: int | 0 <= x < 0x1_0000
  type u32 = x: int | 0 <= x < 0x1_0000_0000

  // ---------------------------------------------------------------------------
  // Protocol limits
  // ---------------------------------------------------------------------------

  const MinPduSize: nat := 1
  const MaxPduSize: nat := 253
  const MaxSlaveId: nat := 247
  const BroadcastSlaveIds: seq<int> := [0]
  const MaxRegistersRead: nat := 125
  const MaxRegistersWrite: nat := 123
  const MaxCoilsRead: nat := 2000
  const MaxCoilsWrite: nat := 1968
  const MaxRegAddr: nat := 0xFFFF
  /** Number of 16-bit words in a frame's data field (registers or packed coils). */
  const FrameDataSize: nat := 125
  /** Number of coils the data field can hold. */
  const FrameCoilCapacity: nat := 2000

  // ---------------------------------------------------------------------------
  // Register types (raw values, since callers may pass any integer)
  // ---------------------------------------------------------------------------

  type RegisterType = int
  const NullRT: RegisterType := 0
  const Coil: RegisterType := 1
  const DiscreteInput: RegisterType := 2
  const HoldingRegister: RegisterType := 3
  const InputRegister: RegisterType := 4

  /** A register type is valid when it names one of the four Modbus tables. */
  predicate IsValidRegisterType(t: RegisterType)
    ensures IsValidRegisterType(t) <==> t in {Coil, DiscreteInput, HoldingRegister, InputRegister}
  {
    NullRT < t <= InputRegister
  }

  // ---------------------------------------------------------------------------
  // Function codes (raw values: the decoder stores the masked wire byte)
  // ---------------------------------------------------------------------------

  const NullFC := 0x00
  const ReadCoils := 0x01
  const ReadDiscreteInputs := 0x02
  const ReadHoldingRegisters := 0x03
  const ReadInputRegisters := 0x04
  const WriteCoil := 0x05
  const WriteRegister := 0x06
  const WriteMultipleCoils := 0x0F
  const WriteMultipleRegisters := 0x10
  const NbFC := 0x11

  /** The eight function codes the library implements. */
  predicate IsSupportedFunctionCode(fc: int)
  {
    fc in {ReadCoils, ReadDiscreteInputs, ReadHoldingRegisters, ReadInputRegisters,
           WriteCoil, WriteRegister, WriteMultipleCoils, WriteMultipleRegisters}
  }

  /**
   * The enum range check: every value below NB_FC passes, including the
   * undefined 0x00 and 0x07..0x0E, which only later switches reject.
   */
  function IsValidFunctionCode(fc: int): (r: bool)
    ensures IsSupportedFunctionCode(fc) ==> r
    ensures r <==> IsSupportedFunctionCode(fc) || fc == NullFC || 0x07 <= fc <= 0x0E
  {
    NullFC <= fc < NbFC
  }

  /** The register table a function code addresses. */
  function ToRegisterType(fc: int): (r: RegisterType)
    ensures r == Coil <==> fc in {ReadCoils, WriteCoil, WriteMultipleCoils}
    ensures r == DiscreteInput <==> fc == ReadDiscreteInputs
    ensures r == HoldingRegister <==> fc in {ReadHoldingRegisters, WriteRegister, WriteMultipleRegisters}
    ensures r == InputRegister <==> fc == ReadInputRegisters
    ensures r == NullRT <==> !IsSupportedFunctionCode(fc)
  {
    if fc == ReadCoils || fc == WriteCoil || fc == WriteMultipleCoils then Coil
    else if fc == ReadDiscreteInputs then DiscreteInput
    else if fc == ReadHoldingRegisters || fc == WriteRegister || fc == WriteMultipleRegisters then HoldingRegister
    else if fc == ReadInputRegisters then InputRegister
    else NullRT
  }

  // ---------------------------------------------------------------------------
  // Exception codes
  // ---------------------------------------------------------------------------

  const NullException := 0x00
  const IllegalFunction := 0x01
  const IllegalDataAddress := 0x02
  const IllegalDataValue := 0x03
  const SlaveDeviceFailure := 0x04
  const Acknowledge := 0x05
  const SlaveDeviceBusy := 0x06
  const NegativeAcknowledge := 0x07
  const MemoryParityError := 0x08
  const NbEC := 0x09

  predicate IsValidExceptionCode(ec: int)
    ensures IsValidExceptionCode(ec) <==>
      ec in {NullException, IllegalFunction, IllegalDataAddress, IllegalDataValue,
             SlaveDeviceFailure, Acknowledge, SlaveDeviceBusy, NegativeAcknowledge,
             MemoryParityError}
  {
    NullException <= ec < NbEC
  }

  // ---------------------------------------------------------------------------
  // Message types and roles
  // ---------------------------------------------------------------------------

  datatype MsgType = NullMsg | Request | Response

  predicate IsValidMsgType(t: MsgType)
    ensures IsValidMsgType(t) <==> t != NullMsg
  {
    t == Request || t == Response
  }

  /** SLAVE and SERVER are one role, MASTER and CLIENT the other. */
  datatype Role = Server | Client

  /** Broadcast detection looks the ID up in the list of broadcast IDs, which holds only 0. */
  function IsBroadcastId(slaveId: int): (r: bool)
    ensures r <==> slaveId == 0
  {
    slaveId in BroadcastSlaveIds
  }

  // ---------------------------------------------------------------------------
  // Bits of a word, counted from the least significant one
  // ---------------------------------------------------------------------------

  function Pow2(n: nat): (r: nat)
    ensures r >= 1
  {
    if n == 0 then 1 else 2 * Pow2(n - 1)
  }

  predicate Bit(w: nat, b: nat)
  {
    if b == 0 then w % 2 == 1 else Bit(w / 2, b - 1)
  }

  lemma {:induction false} BitOfZero(b: nat)
    ensures !Bit(0, b)
  {
    if b > 0 { BitOfZero(b - 1); }
  }

  /** Adding 2^m to a number below 2^m sets bit m and keeps the lower bits. */
  lemma {:induction false} BitOfTopAdd(p: nat, m: nat, k: nat)
    requires p < Pow2(m)
    ensures Bit(p + Pow2(m), k) == (k == m || Bit(p, k))
  {
    if m == 0 {
      if k > 0 { BitOfZero(k - 1); }
    } else if k > 0 {
      assert (p + Pow2(m)) / 2 == p / 2 + Pow2(m - 1);
      BitOfTopAdd(p / 2, m - 1, k - 1);
    }
  }

  /** A number below 2^m has no bit at or above m. */
  lemma {:induction false} BitAboveWidth(p: nat, m: nat, k: nat)
    requires p < Pow2(m) && m <= k
    ensures !Bit(p, k)
  {
    if m == 0 {
      BitOfZero(k);
    } else {
      BitAboveWidth(p / 2, m - 1, k - 1);
    }
  }

  /** Setting a clear bit b adds 2^b: bit b becomes set and no other bit changes. */
  lemma {:induction false} BitSetByAdd(w: nat, b: nat, k: nat)
    requires !Bit(w, b)
    ensures Bit(w + Pow2(b), k) == (k == b || Bit(w, k))
  {
    if b == 0 {
      if k > 0 { assert (w + 1) / 2 == w / 2; }
    } else if k > 0 {
      assert (w + Pow2(b)) / 2 == w / 2 + Pow2(b - 1);
      BitSetByAdd(w / 2, b - 1, k - 1);
    }
  }

  /** Clearing a set bit b subtracts 2^b: bit b becomes clear and no other bit changes. */
  lemma {:induction false} BitClearBySub(w: nat, b: nat, k: nat)
    requires Bit(w, b)
    ensures w >= Pow2(b)
    ensures Bit(w - Pow2(b), k) == (k != b && Bit(w, k))
  {
    if b == 0 {
      if k > 0 { assert (w - 1) / 2 == w / 2; }
    } else {
      BitClearBySub(w / 2, b - 1, if k == 0 then 0 else k - 1);
      assert (w - Pow2(b)) / 2 == w / 2 - Pow2(b - 1);
    }
  }

  /** Setting a clear bit below the width keeps the number below 2^width. */
  lemma {:induction false} BitSetStaysInWidth(w: nat, b: nat, n: nat)
    requires w < Pow2(n) && b < n && !Bit(w, b)
    ensures w + Pow2(b) < Pow2(n)
  {
    var half := Pow2(n - 1);
    assert Pow2(n) == 2 * half;
    if b == 0 {
      assert w % 2 == 0;
    } else {
      assert w / 2 < half;
      BitSetStaysInWidth(w / 2, b - 1, n - 1);
      assert Pow2(b) == 2 * Pow2(b - 1);
    }
  }

  /** Two numbers below 2^n with the same n low bits are equal. */
  lemma {:induction false} BitsDetermine(x: nat, y: nat, n: nat)
    requires x < Pow2(n) && y < Pow2(n)
    requires forall k: nat :: k < n ==> Bit(x, k) == Bit(y, k)
    ensures x == y
  {
    if n > 0 {
      assert Bit(x, 0) == Bit(y, 0);
      forall k: nat | k < n - 1
        ensures Bit(x / 2, k) == Bit(y / 2, k)
      {
        assert Bit(x, k + 1) == Bit(y, k + 1);
      }
      BitsDetermine(x / 2, y / 2, n - 1);
    }
  }

  lemma Pow2Sixteen()
    ensures Pow2(16) == 0x1_0000
  {
    assert Pow2(4) == 16;
    assert Pow2(8) == 256;
    assert Pow2(12) == 4096;
  }

  /** Word w with bit b forced to v, as `w |= 1 << b` or `w &= ~(1 << b)` compute it. */
  function WithBit(w: u16, b: nat, v: bool): u16
    requires b < 16
  {
    Pow2Sixteen();
    if v && !Bit(w, b) then
      BitSetStaysInWidth(w, b, 16);
      w + Pow2(b)
    else if !v && Bit(w, b) then
      BitClearBySub(w, b, b);
      w - Pow2(b)
    else
      w
  }

  /** Forcing bit b sets that bit to v and keeps every other bit. */
  lemma WithBitEffect(w: u16, b: nat, v: bool)
    requires b < 16
    ensures Bit(WithBit(w, b, v), b) == v
    ensures forall k :: k != b ==> Bit(WithBit(w, b, v), k) == Bit(w, k)
  {
    Pow2Sixteen();
    if v && !Bit(w, b) {
      BitSetStaysInWidth(w, b, 16);
      forall k | k != b ensures Bit(w + Pow2(b), k) == Bit(w, k) { BitSetByAdd(w, b, k); }
      BitSetByAdd(w, b, b);
    } else if !v && Bit(w, b) {
      BitClearBySub(w, b, b);
      forall k | k != b ensures Bit(w - Pow2(b), k) == Bit(w, k) { BitClearBySub(w, b, k); }
    }
  }

  // ---------------------------------------------------------------------------
  // Packing registers and coils into the frame data field
  // ---------------------------------------------------------------------------

  /** The frame data field holding the first 125 values of `src`, zero-filled. */
  function PackedRegisters(src: seq<u16>): (r: seq<u16>)
    ensures |r| == FrameDataSize
  {
    seq(FrameDataSize, i requires 0 <= i < FrameDataSize => if i < |src| then src[i] else 0)
  }

  /** The register-packing loop: copies min(|src|, 125) values and zero-fills the rest. */
  method PackRegisters(src: seq<u16>) returns (r: seq<u16>)
    ensures |r| == FrameDataSize
    ensures forall i :: 0 <= i < FrameDataSize ==> r[i] == if i < |src| then src[i] else 0
    ensures r == PackedRegisters(src)
  {
    r := seq(FrameDataSize, _ => 0);
    var i := 0;
    while i < |src|
      invariant 0 <= i <= |src|
      invariant |r| == FrameDataSize
      invariant forall k :: 0 <= k < FrameDataSize ==> r[k] == if k < i && k < FrameDataSize then src[k] else 0
    {
      if i < FrameDataSize {
        r := r[i := src[i]];
        i := i + 1;
      } else {
        break;
      }
    }
  }

  /** The first n coils from position `base` packed LSB-first (coils past the end count as 0). */
  function CoilWord(bits: seq<bool>, base: nat, n: nat): (r: nat)
    ensures r < Pow2(n)
  {
    if n == 0 then 0
    else CoilWord(bits, base, n - 1) + (if base + n - 1 < |bits| && bits[base + n - 1] then Pow2(n - 1) else 0)
  }

  /** Bit k of a packed coil word is coil base+k when it exists, else 0. */
  lemma {:induction false} CoilWordBit(bits: seq<bool>, base: nat, n: nat, k: nat)
    ensures Bit(CoilWord(bits, base, n), k) == (k < n && base + k < |bits| && bits[base + k])
  {
    if n == 0 {
      BitOfZero(k);
    } else {
      var p := CoilWord(bits, base, n - 1);
      if base + n - 1 < |bits| && bits[base + n - 1] {
        BitOfTopAdd(p, n - 1, k);
      }
      if k == n - 1 {
        BitAboveWidth(p, n - 1, k);
      } else {
        CoilWordBit(bits, base, n - 1, k);
      }
    }
  }

  /** Packing stops at the end of the input: coils past it add nothing. */
  lemma {:induction false} CoilWordPastEnd(bits: seq<bool>, base: nat, n: nat, m: nat)
    requires n <= m && |bits| <= base + n
    ensures CoilWord(bits, base, m) == CoilWord(bits, base, n)
  {
    if m > n {
      CoilWordPastEnd(bits, base, n, m - 1);
    }
  }

  function PackedCoilWord(bits: seq<bool>, base: nat): (r: u16)
  {
    Pow2Sixteen();
    CoilWord(bits, base, 16)
  }

  /** The frame data field holding the coils of `src` packed 16 per word. */
  function PackedCoils(src: seq<bool>): (r: seq<u16>)
    ensures |r| == FrameDataSize
  {
    seq(FrameDataSize, w requires 0 <= w < FrameDataSize => PackedCoilWord(src, 16 * w))
  }

  /** Coil i of `src` is bit i%16 of word i/16 of its packing, for every i < 2000. */
  lemma PackedCoilsBit(src: seq<bool>, w: nat, j: nat)
    requires w < FrameDataSize && j < 16
    ensures Bit(PackedCoils(src)[w], j) == (16 * w + j < |src| && src[16 * w + j])
  {
    CoilWordBit(src, 16 * w, 16, j);
  }

  /** Coils given as 16-bit values: any non-zero value is an ON coil. */
  function CoilsFromValues(src: seq<u16>): (r: seq<bool>)
    ensures |r| == |src|
    ensures forall i :: 0 <= i < |src| ==> (r[i] <==> src[i] != 0)
  {
    seq(|src|, i requires 0 <= i < |src| => src[i] != 0)
  }

  /** The inner packing loop: coils i to i+15 of `src` (those that exist) set bits 0 to 15 of one word. */
  method PackCoilWord(src: seq<bool>, i: nat) returns (packed: u16)
    ensures packed == PackedCoilWord(src, i)
  {
    packed := 0;
    var j := 0;
    while j < 16 && i + j < |src|
      invariant 0 <= j <= 16
      invariant packed == CoilWord(src, i, j)
    {
      if src[i + j] {
        CoilWordBit(src, i, j, j);
        packed := WithBit(packed, j, true);
        assert packed == CoilWord(src, i, j + 1) by {
          BitAboveWidth(CoilWord(src, i, j), j, j);
        }
      }
      j := j + 1;
    }
    if j < 16 { CoilWordPastEnd(src, i, j, 16); }
  }

  /** The coil-packing loop, 16 coils per word, for at most 2000 coils. */
  method PackCoils(src: seq<bool>) returns (r: seq<u16>)
    ensures |r| == FrameDataSize
    ensures forall w, j :: 0 <= w < FrameDataSize && 0 <= j < 16 ==>
      (Bit(r[w], j) <==> 16 * w + j < |src| && src[16 * w + j])
    ensures r == PackedCoils(src)
  {
    r := seq(FrameDataSize, _ => 0);
    var i := 0;
    while i < |src| && i < FrameDataSize * 16
      invariant 0 <= i <= FrameDataSize * 16 && i % 16 == 0
      invariant |r| == FrameDataSize
      invariant forall w :: 0 <= w < FrameDataSize ==>
        r[w] == if 16 * w < i then PackedCoilWord(src, 16 * w) else 0
    {
      var packed := PackCoilWord(src, i);
      r := r[i / 16 := packed];
      i := i + 16;
    }
    forall w | 0 <= w < FrameDataSize && i <= 16 * w
      ensures PackedCoilWord(src, 16 * w) == 0
    {
      CoilWordPastEnd(src, 16 * w, 0, 16);
    }
    forall w, j | 0 <= w < FrameDataSize && 0 <= j < 16
      ensures Bit(r[w], j) <==> 16 * w + j < |src| && src[16 * w + j]
    {
      PackedCoilsBit(src, w, j);
    }
  }
}
