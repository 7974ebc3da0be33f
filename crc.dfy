/**
 * The Modbus RTU checksum: CRC-16 with the reflected polynomial 0xA001,
 * initial value 0xFFFF, computed one byte at a time through a 256-entry
 * look-up table, and sent low byte first after the frame.
 */
module ModbusCrc {
  import opened ModbusCore

  /** Bitwise exclusive or of two naturals, one bit at a time from the least significant. */
  function Xor(a: nat, b: nat): nat
    decreases a + b
  {
    if a == 0 && b == 0 then 0
    else (if a % 2 == b % 2 then 0 else 1) + 2 * Xor(a / 2, b / 2)
  }

  /** Each bit of a ^ b is set exactly when the bits of a and b differ. */
  lemma {:induction false} XorBit(a: nat, b: nat, k: nat)
    ensures Bit(Xor(a, b), k) == (Bit(a, k) != Bit(b, k))
    decreases a + b
  {
    if a == 0 && b == 0 {
      BitOfZero(k);
    } else if k > 0 {
      XorBit(a / 2, b / 2, k - 1);
    }
  }

  /** The exclusive or of two n-bit numbers is an n-bit number. */
  lemma {:induction false} XorBelow(a: nat, b: nat, n: nat)
    requires a < Pow2(n) && b < Pow2(n)
    ensures Xor(a, b) < Pow2(n)
    decreases n
  {
    if n > 0 && !(a == 0 && b == 0) {
      XorBelow(a / 2, b / 2, n - 1);
    }
  }

  lemma Pow2Eight()
    ensures Pow2(8) == 0x100
  {
    assert Pow2(4) == 16;
  }

  /**
   * The look-up table, eight entries to a row: entry i is the CRC register
   * after shifting byte i through 0xA001.
   */
  function CrcTableAt(i: nat): u16
    requires i < 256
  {
    var rows: seq<seq<u16>> := [
      [0x0000, 0xC0C1, 0xC181, 0x0140, 0xC301, 0x03C0, 0x0280, 0xC241],
      [0xC601, 0x06C0, 0x0780, 0xC741, 0x0500, 0xC5C1, 0xC481, 0x0440],
      [0xCC01, 0x0CC0, 0x0D80, 0xCD41, 0x0F00, 0xCFC1, 0xCE81, 0x0E40],
      [0x0A00, 0xCAC1, 0xCB81, 0x0B40, 0xC901, 0x09C0, 0x0880, 0xC841],
      [0xD801, 0x18C0, 0x1980, 0xD941, 0x1B00, 0xDBC1, 0xDA81, 0x1A40],
      [0x1E00, 0xDEC1, 0xDF81, 0x1F40, 0xDD01, 0x1DC0, 0x1C80, 0xDC41],
      [0x1400, 0xD4C1, 0xD581, 0x1540, 0xD701, 0x17C0, 0x1680, 0xD641],
      [0xD201, 0x12C0, 0x1380, 0xD341, 0x1100, 0xD1C1, 0xD081, 0x1040],
      [0xF001, 0x30C0, 0x3180, 0xF141, 0x3300, 0xF3C1, 0xF281, 0x3240],
      [0x3600, 0xF6C1, 0xF781, 0x3740, 0xF501, 0x35C0, 0x3480, 0xF441],
      [0x3C00, 0xFCC1, 0xFD81, 0x3D40, 0xFF01, 0x3FC0, 0x3E80, 0xFE41],
      [0xFA01, 0x3AC0, 0x3B80, 0xFB41, 0x3900, 0xF9C1, 0xF881, 0x3840],
      [0x2800, 0xE8C1, 0xE981, 0x2940, 0xEB01, 0x2BC0, 0x2A80, 0xEA41],
      [0xEE01, 0x2EC0, 0x2F80, 0xEF41, 0x2D00, 0xEDC1, 0xEC81, 0x2C40],
      [0xE401, 0x24C0, 0x2580, 0xE541, 0x2700, 0xE7C1, 0xE681, 0x2640],
      [0x2200, 0xE2C1, 0xE381, 0x2340, 0xE101, 0x21C0, 0x2080, 0xE041],
      [0xA001, 0x60C0, 0x6180, 0xA141, 0x6300, 0xA3C1, 0xA281, 0x6240],
      [0x6600, 0xA6C1, 0xA781, 0x6740, 0xA501, 0x65C0, 0x6480, 0xA441],
      [0x6C00, 0xACC1, 0xAD81, 0x6D40, 0xAF01, 0x6FC0, 0x6E80, 0xAE41],
      [0xAA01, 0x6AC0, 0x6B80, 0xAB41, 0x6900, 0xA9C1, 0xA881, 0x6840],
      [0x7800, 0xB8C1, 0xB981, 0x7940, 0xBB01, 0x7BC0, 0x7A80, 0xBA41],
      [0xBE01, 0x7EC0, 0x7F80, 0xBF41, 0x7D00, 0xBDC1, 0xBC81, 0x7C40],
      [0xB401, 0x74C0, 0x7580, 0xB541, 0x7700, 0xB7C1, 0xB681, 0x7640],
      [0x7200, 0xB2C1, 0xB381, 0x7340, 0xB101, 0x71C0, 0x7080, 0xB041],
      [0x5000, 0x90C1, 0x9181, 0x5140, 0x9301, 0x53C0, 0x5280, 0x9241],
      [0x9601, 0x56C0, 0x5780, 0x9741, 0x5500, 0x95C1, 0x9481, 0x5440],
      [0x9C01, 0x5CC0, 0x5D80, 0x9D41, 0x5F00, 0x9FC1, 0x9E81, 0x5E40],
      [0x5A00, 0x9AC1, 0x9B81, 0x5B40, 0x9901, 0x59C0, 0x5880, 0x9841],
      [0x8801, 0x48C0, 0x4980, 0x8941, 0x4B00, 0x8BC1, 0x8A81, 0x4A40],
      [0x4E00, 0x8EC1, 0x8F81, 0x4F40, 0x8D01, 0x4DC0, 0x4C80, 0x8C41],
      [0x4400, 0x84C1, 0x8581, 0x4540, 0x8701, 0x47C0, 0x4680, 0x8641],
      [0x8201, 0x42C0, 0x4380, 0x8341, 0x4100, 0x81C1, 0x8081, 0x4040]
    ];
    // Every row has eight entries; the guard only spares the proof from counting them.
    if i / 8 < |rows| && i % 8 < |rows[i / 8]| then rows[i / 8][i % 8] else 0
  }

  /** One table step: `pos = (crc ^ b) & 0xFF; crc = (crc >> 8) ^ table[pos]`. */
  function CrcStep(crc: u16, b: byte): u16
  {
    Pow2Eight();
    Pow2Sixteen();
    XorBelow(crc % 0x100, b, 8);
    var pos := Xor(crc % 0x100, b);
    XorBelow(crc / 0x100, CrcTableAt(pos), 16);
    Xor(crc / 0x100, CrcTableAt(pos))
  }

  /** The CRC of a byte sequence: the table step folded over it from 0xFFFF. */
  function Crc16(bs: seq<byte>): u16
  {
    if |bs| == 0 then 0xFFFF else CrcStep(Crc16(bs[..|bs| - 1]), bs[|bs| - 1])
  }

  /** calculateCRC: the table loop over the buffer. */
  method CalculateCrc(bs: seq<byte>) returns (crc: u16)
    ensures crc == Crc16(bs)
  {
    crc := 0xFFFF;
    var i := 0;
    while i < |bs|
      invariant 0 <= i <= |bs|
      invariant crc == Crc16(bs[..i])
    {
      assert bs[..i + 1][..i] == bs[..i];
      crc := CrcStep(crc, bs[i]);
      i := i + 1;
    }
    assert bs[..i] == bs;
  }

  /** The two bytes carrying a CRC on the wire: low byte first. */
  function CrcBytes(crc: u16): (r: seq<byte>)
    ensures |r| == 2 && r[0] as int + 0x100 * r[1] as int == crc
  {
    [crc % 0x100, crc / 0x100]
  }

  /**
   * validateCRC: a frame of at least two bytes whose last two bytes, read
   * low byte first, equal the CRC of everything before them.
   */
  function ValidateCrc(bs: seq<byte>): (r: bool)
    ensures r <==> |bs| >= 2 && bs[|bs| - 2..] == CrcBytes(Crc16(bs[..|bs| - 2]))
  {
    if |bs| < 2 then false
    else
      var received := bs[|bs| - 1] as int * 0x100 + bs[|bs| - 2] as int;
      CrcBytesExact(bs[|bs| - 2], bs[|bs| - 1], Crc16(bs[..|bs| - 2]));
      assert bs[|bs| - 2..] == [bs[|bs| - 2], bs[|bs| - 1]];
      received == Crc16(bs[..|bs| - 2])
  }

  /** Two bytes read low byte first give crc exactly when they are its wire bytes. */
  lemma CrcBytesExact(lo: byte, hi: byte, crc: u16)
    ensures lo as int + 0x100 * hi as int == crc <==> [lo, hi] == CrcBytes(crc)
  {
    if lo as int + 0x100 * hi as int == crc {
      assert crc % 0x100 == lo && crc / 0x100 == hi;
    }
  }

  /** appendCRC on a buffer with room for two more bytes. */
  function AppendCrc(bs: seq<byte>): (r: seq<byte>)
    ensures |r| == |bs| + 2 && r[..|bs|] == bs
  {
    bs + CrcBytes(Crc16(bs))
  }

  /** A frame with its CRC appended passes the CRC check, and its body is recovered. */
  lemma AppendThenValidate(bs: seq<byte>)
    ensures ValidateCrc(AppendCrc(bs))
    ensures AppendCrc(bs)[..|bs|] == bs
  {
    var r := AppendCrc(bs);
    assert r[..|r| - 2] == bs;
    assert r[|r| - 2..] == CrcBytes(Crc16(bs));
  }

  /** Exactly one trailer makes a body valid: changing either CRC byte breaks the check. */
  lemma TrailerUnique(body: seq<byte>, t: seq<byte>)
    requires |t| == 2
    ensures ValidateCrc(body + t) <==> t == CrcBytes(Crc16(body))
  {
    var r := body + t;
    assert r[..|r| - 2] == body;
    assert r[|r| - 2..] == t;
  }
}
