/**
 * The debug formatter of the library (src/utils/ModbusDebug.cpp): the call
 * context prefix "[file::function:line] ", the hexdump of a byte buffer and
 * the multi-line rendering of a frame, each built by hand in a 256-character
 * buffer with an index that never passes the last cell, which the
 * terminator takes.
 */
module ModbusDebug {
  import opened Wrappers
  import opened ModbusCore
  import opened ModbusFrame
  import B = ModbusBuffer

  /** The size of the formatting buffers, terminator included (EZMODBUS_LOG_MAX_MSG_SIZE). */
  const MaxDebugMsgSize: nat := 256

  type i32 = x: int | -0x8000_0000 <= x < 0x8000_0000

  /** A C string: its characters up to, not including, the terminator. */
  type CString = s: string | '\0' !in s

  /** Where a log call comes from; a null file or function is None. */
  datatype CallCtx = CallCtx(file: Option<CString>, func: Option<CString>, line: i32)

  function Min(a: int, b: int): int
  {
    if a <= b then a else b
  }

  /** The first `room` characters of s, or all of s when it is shorter. */
  function Clip(s: string, room: int): (r: string)
    ensures |r| == if room < 0 then 0 else Min(|s|, room)
    ensures r == s[..|r|]
  {
    if room < 0 then [] else s[..Min(|s|, room)]
  }

  function Reverse(s: string): (r: string)
    ensures |r| == |s|
    ensures forall j :: 0 <= j < |s| ==> r[j] == s[|s| - 1 - j]
  {
    if |s| == 0 then [] else Reverse(s[1..]) + [s[0]]
  }

  // ---------------------------------------------------------------------------
  // Decimal digits
  // ---------------------------------------------------------------------------

  function Pow10(k: nat): (r: nat)
    ensures r >= 1
  {
    if k == 0 then 1 else 10 * Pow10(k - 1)
  }

  /** The character `'0' + r`, as C computes it: a digit for 0..9, a character below '0' for a negative r. */
  function DigitChar(r: int): char
    requires -9 <= r <= 9
  {
    (48 + r) as char
  }

  predicate IsDigit(c: char)
  {
    '0' <= c <= '9'
  }

  /** The decimal digits of n, most significant first, with no leading zero. */
  function Decimal(n: nat): (r: string)
    ensures |r| >= 1 && forall j :: 0 <= j < |r| ==> IsDigit(r[j])
    ensures |r| > 1 ==> r[0] != '0'
    decreases n
  {
    if n < 10 then [DigitChar(n)] else Decimal(n / 10) + [DigitChar(n % 10)]
  }

  /** The number a string of decimal digits denotes. */
  function DecimalValue(s: string): nat
    requires forall j :: 0 <= j < |s| ==> IsDigit(s[j])
  {
    if |s| == 0 then 0
    else
      var c := s[|s| - 1];
      assert IsDigit(c);
      10 * DecimalValue(s[..|s| - 1]) + (c as int - 48)
  }

  /** The digits read back as the number they render. */
  lemma {:induction false} DecimalRoundTrip(n: nat)
    ensures DecimalValue(Decimal(n)) == n
    decreases n
  {
    var d := Decimal(n);
    if n >= 10 {
      DecimalRoundTrip(n / 10);
      assert d[..|d| - 1] == Decimal(n / 10);
    }
  }

  /** A number below 10^k has at most k digits. */
  lemma {:induction false} DecimalLength(n: nat, k: nat)
    requires k >= 1 && n < Pow10(k)
    ensures |Decimal(n)| <= k
    decreases k
  {
    if n >= 10 {
      DecimalLength(n / 10, k - 1);
    }
  }

  /** C's `/` on int: the quotient truncated toward zero. */
  function CQuot(n: int, d: nat): int
    requires d > 0
  {
    if n >= 0 then n / d else -((-n) / d)
  }

  /** C's `%` on int: the remainder takes the sign of the dividend. */
  function CRem(n: int, d: nat): (r: int)
    requires d > 0
    ensures -(d as int) < r < d && (n >= 0 ==> r == n % d)
  {
    n - d * CQuot(n, d)
  }

  function Abs(n: int): nat
  {
    if n < 0 then -n else n
  }

  /** The characters the itoa loop of `buildPrefix` stores, least significant first. */
  function DigitsLsb(n: int): (r: string)
    ensures |r| >= 1
    decreases Abs(n)
  {
    [DigitChar(CRem(n, 10))] + if CQuot(n, 10) == 0 then [] else DigitsLsb(CQuot(n, 10))
  }

  /** How `buildPrefix` renders the line number: the stored characters in reverse. */
  function LineText(n: int): string
  {
    Reverse(DigitsLsb(n))
  }

  /** A number below 10^k in magnitude has at most k stored characters. */
  lemma {:induction false} DigitsLsbLength(n: int, k: nat)
    requires k >= 1 && Abs(n) < Pow10(k)
    ensures |DigitsLsb(n)| <= k
    decreases k
  {
    if CQuot(n, 10) != 0 {
      assert Abs(CQuot(n, 10)) == Abs(n) / 10;
      DigitsLsbLength(CQuot(n, 10), k - 1);
    }
  }

  /** A non-negative line number renders as its decimal digits. */
  lemma {:induction false} LineTextNatural(n: nat)
    ensures LineText(n) == Decimal(n)
    decreases n
  {
    var d := DigitsLsb(n);
    if n >= 10 {
      LineTextNatural(n / 10);
      assert d == [DigitChar(n % 10)] + DigitsLsb(n / 10);
      assert d[1..] == DigitsLsb(n / 10);
      assert Reverse(d) == Reverse(d[1..]) + [d[0]];
    }
  }

  // ---------------------------------------------------------------------------
  // Hexadecimal digits
  // ---------------------------------------------------------------------------

  /** `"0123456789ABCDEF"[d]`. */
  function HexDigit(d: int): (c: char)
    requires 0 <= d < 16
    ensures IsHexDigit(c) && HexDigitValue(c) == d
  {
    if d < 10 then (48 + d) as char else (55 + d) as char
  }

  /** A hexadecimal digit in either case, as `strtol` reads them in base 16. */
  predicate IsHexDigit(c: char)
  {
    '0' <= c <= '9' || 'A' <= c <= 'F' || 'a' <= c <= 'f'
  }

  function HexDigitValue(c: char): (d: nat)
    requires IsHexDigit(c)
    ensures d < 16
  {
    if c <= '9' then c as int - 48 else if c <= 'F' then c as int - 55 else c as int - 87
  }

  /** A byte as two uppercase hexadecimal digits. */
  function HexByte(b: byte): (s: string)
    ensures |s| == 2 && IsHexDigit(s[0]) && IsHexDigit(s[1])
    ensures 16 * HexDigitValue(s[0]) + HexDigitValue(s[1]) == b
  {
    [HexDigit(b / 16), HexDigit(b % 16)]
  }

  /** A register as "0x" and four uppercase hexadecimal digits, the most significant first. */
  function HexWord(w: u16): (s: string)
    ensures |s| == 6 && s[0] == '0' && s[1] == 'x'
    ensures IsHexDigit(s[2]) && IsHexDigit(s[3]) && IsHexDigit(s[4]) && IsHexDigit(s[5])
  {
    "0x" + HexByte(w / 256) + HexByte(w % 256)
  }

  /** The four digits of a rendered register read back as the register, the most significant first. */
  lemma HexWordValue(w: u16)
    ensures var s := HexWord(w);
      256 * (16 * HexDigitValue(s[2]) + HexDigitValue(s[3])) + 16 * HexDigitValue(s[4]) + HexDigitValue(s[5]) == w
  {
    var s := HexWord(w);
    assert s[2..4] == HexByte(w / 256) && s[4..] == HexByte(w % 256);
  }

  // ---------------------------------------------------------------------------
  // The bounded writer shared by the formatters
  // ---------------------------------------------------------------------------

  /**
   * The `put` of `buildPrefix`: the character is stored only while the
   * index is below the last cell. `text` is everything put so far; the
   * buffer holds its first characters up to the last cell.
   */
  method Put(dst: array<char>, i: nat, ghost text: string, c: char) returns (j: nat)
    requires dst.Length > 0 && i == Min(|text|, dst.Length - 1) && dst[..i] == text[..i]
    modifies dst
    ensures j == Min(|text| + 1, dst.Length - 1) && dst[..j] == (text + [c])[..j]
  {
    j := i;
    if i < dst.Length - 1 {
      dst[i] := c;
      j := i + 1;
      assert dst[..j] == dst[..i] + [c];
    }
  }

  /** The `for (p = s; *p; ++p) put(*p)` loops. */
  method PutAll(dst: array<char>, i: nat, ghost text: string, s: string) returns (j: nat)
    requires dst.Length > 0 && i == Min(|text|, dst.Length - 1) && dst[..i] == text[..i]
    modifies dst
    ensures j == Min(|text + s|, dst.Length - 1) && dst[..j] == (text + s)[..j]
  {
    j := i;
    var k := 0;
    while k < |s|
      invariant 0 <= k <= |s|
      invariant j == Min(|text + s[..k]|, dst.Length - 1) && dst[..j] == (text + s[..k])[..j]
    {
      j := Put(dst, j, text + s[..k], s[k]);
      assert text + s[..k] + [s[k]] == text + s[..k + 1];
      k := k + 1;
    }
    assert s[..k] == s;
  }

  // ---------------------------------------------------------------------------
  // buildPrefix
  // ---------------------------------------------------------------------------

  function FileName(ctx: CallCtx): string
  {
    if ctx.file.Some? then B.GetBasename(ctx.file.value) else "unknown"
  }

  function FunctionName(ctx: CallCtx): string
  {
    if ctx.func.Some? then ctx.func.value else "unknown"
  }

  /** The whole prefix: "[" basename "::" function ":" line "] ", with "unknown" for a null name. */
  function PrefixText(ctx: CallCtx): string
  {
    "[" + FileName(ctx) + "::" + FunctionName(ctx) + ":" + LineText(ctx.line) + "] "
  }

  /** The prefix of a non-negative line number ends in the line's decimal digits, then "] ". */
  lemma PrefixOfLine(ctx: CallCtx)
    requires ctx.line >= 0
    ensures PrefixText(ctx) == "[" + FileName(ctx) + "::" + FunctionName(ctx) + ":" + Decimal(ctx.line) + "] "
  {
    LineTextNatural(ctx.line);
  }

  /** One step of the itoa loop: the next stored character and what is left to store. */
  lemma DigitsStep(m: int, rest: string)
    requires m != 0 && rest == DigitsLsb(m)
    ensures rest[0] == DigitChar(CRem(m, 10))
    ensures rest[1..] == if CQuot(m, 10) == 0 then [] else DigitsLsb(CQuot(m, 10))
  {
  }

  /**
   * The minimal itoa of `buildPrefix`: the characters `'0' + n % 10` while
   * n /= 10 leaves something, at most 10 of them. The bound never cuts a
   * 32-bit number short.
   */
  method StoreDigits(n: i32) returns (num: array<char>, len: nat)
    ensures fresh(num) && num.Length == 10 && 1 <= len <= 10 && num[..len] == DigitsLsb(n)
  {
    ghost var d := DigitsLsb(n);
    DigitsLsbLength(n, 10);
    num := new char[10];
    len := 1;
    var m: int := n;
    num[0] := DigitChar(CRem(m, 10));
    m := CQuot(m, 10);
    assert d[1..] == if m == 0 then [] else DigitsLsb(m);
    while m != 0 && len < 10
      invariant 1 <= len <= |d|
      invariant num[..len] == d[..len]
      invariant m == 0 ==> len == |d|
      invariant m != 0 ==> d[len..] == DigitsLsb(m)
      decreases Abs(m)
    {
      DigitsStep(m, d[len..]);
      num[len] := DigitChar(CRem(m, 10));
      assert num[..len + 1] == num[..len] + [d[len]] == d[..len + 1];
      assert d[len + 1..] == d[len..][1..];
      assert Abs(CQuot(m, 10)) < Abs(m);
      len := len + 1;
      m := CQuot(m, 10);
    }
  }

  /**
   * `buildPrefix(dst, dstSize, ctx)`. An empty buffer is left alone and 0
   * returned. Otherwise the buffer holds the prefix cut to dstSize - 1
   * characters and then the terminator, and the count is returned.
   */
  method BuildPrefix(dst: array<char>, ctx: CallCtx) returns (i: nat)
    modifies dst
    ensures dst.Length == 0 ==> i == 0
    ensures dst.Length > 0 ==> i < dst.Length && dst[..i] == Clip(PrefixText(ctx), dst.Length - 1) && dst[i] == '\0'
  {
    if dst.Length == 0 {
      return 0;
    }
    ghost var text := "";
    i := 0;
    i := PutAll(dst, i, text, "[" + FileName(ctx) + "::" + FunctionName(ctx) + ":");
    text := text + ("[" + FileName(ctx) + "::" + FunctionName(ctx) + ":");
    ghost var d := DigitsLsb(ctx.line);
    var num, len := StoreDigits(ctx.line);
    assert num[..len] == d;
    while len > 0
      invariant 0 <= len <= |d| && num[..|d|] == d
      invariant i == Min(|text|, dst.Length - 1) && dst[..i] == text[..i]
      invariant text == "[" + FileName(ctx) + "::" + FunctionName(ctx) + ":" + Reverse(d[len..])
    {
      len := len - 1;
      i := Put(dst, i, text, num[len]);
      assert Reverse(d[len..]) == Reverse(d[len + 1..]) + [d[len]];
      text := text + [num[len]];
    }
    i := PutAll(dst, i, text, "] ");
    assert d[0..] == d;
    text := text + "] ";
    dst[i] := '\0';
  }

  /** A `memcpy` of s to position i, where the caller has checked it fits. */
  method Copy(dst: array<char>, i: nat, s: string) returns (j: nat)
    requires i + |s| <= dst.Length
    modifies dst
    ensures j == i + |s| && dst[..j] == old(dst[..i]) + s
  {
    ghost var before := dst[..i];
    var k := 0;
    while k < |s|
      invariant 0 <= k <= |s| && dst[..i + k] == before + s[..k]
    {
      dst[i + k] := s[k];
      assert dst[..i + k + 1] == dst[..i + k] + [s[k]];
      assert s[..k + 1] == s[..k] + [s[k]];
      k := k + 1;
    }
    assert s[..k] == s;
    j := i + |s|;
  }

  // ---------------------------------------------------------------------------
  // LOG_HEXDUMP
  // ---------------------------------------------------------------------------

  const HexdumpHeader: string := "Hexdump: "

  /** The bytes in order, each as two hexadecimal digits and a space. */
  function HexRun(bs: seq<byte>): (r: string)
    ensures |r| == 3 * |bs|
  {
    if |bs| == 0 then [] else HexRun(bs[..|bs| - 1]) + HexByte(bs[|bs| - 1]) + " "
  }

  /** Concatenation regroups. */
  lemma Assoc(a: string, b: string, c: string)
    ensures (a + b) + c == a + (b + c)
  {
  }

  /** One more byte appends its "XX ". */
  lemma HexRunSnoc(bs: seq<byte>, k: nat)
    requires k < |bs|
    ensures HexRun(bs[..k + 1]) == HexRun(bs[..k]) + (HexByte(bs[k]) + " ")
  {
    assert bs[..k + 1][..k] == bs[..k];
  }

  /** Byte k of a run occupies characters 3k to 3k + 2. */
  lemma {:induction false} HexRunAt(bs: seq<byte>, k: nat)
    requires k < |bs|
    ensures HexRun(bs)[3 * k..3 * k + 3] == HexByte(bs[k]) + " "
    decreases |bs|
  {
    var init := bs[..|bs| - 1];
    assert HexRun(bs) == HexRun(init) + (HexByte(bs[|bs| - 1]) + " ");
    if k < |bs| - 1 {
      HexRunAt(init, k);
    }
  }

  /** How many bytes fit behind a header of h characters: each needs "XX " and a terminator after it. */
  function HexdumpShown(h: nat, n: nat): (k: nat)
    ensures k <= n
    ensures h + 3 * k <= MaxDebugMsgSize - 1 || (k == 0 && h + 3 > MaxDebugMsgSize - 1)
    ensures k < n ==> h + 3 * k + 4 > MaxDebugMsgSize
  {
    if h + 4 > MaxDebugMsgSize then 0 else Min(n, (MaxDebugMsgSize - 4 - h) / 3 + 1)
  }

  /**
   * What LOG_HEXDUMP hands to the log sink: the prefix and "Hexdump: " cut
   * to the buffer, then "<empty>" for an empty buffer when it fits, or
   * otherwise as many bytes as fit, each as "XX ".
   */
  function HexdumpText(prefix: string, bytes: seq<byte>): string
  {
    var h := Clip(Clip(prefix, MaxDebugMsgSize - 1) + HexdumpHeader, MaxDebugMsgSize - 1);
    if |bytes| == 0 then
      if |h| + 8 <= MaxDebugMsgSize then h + "<empty>" else h
    else h + HexRun(bytes[..HexdumpShown(|h|, |bytes|)])
  }

  /** The hexdump always fits the buffer with its terminator. */
  lemma HexdumpFits(prefix: string, bytes: seq<byte>)
    ensures |HexdumpText(prefix, bytes)| <= MaxDebugMsgSize - 1
  {
  }

  /** A buffer short enough for the line is rendered whole, byte by byte after the header. */
  lemma HexdumpWhole(prefix: string, bytes: seq<byte>)
    requires |bytes| > 0
    requires |Clip(prefix, MaxDebugMsgSize - 1)| + |HexdumpHeader| + 3 * |bytes| <= MaxDebugMsgSize - 1
    ensures HexdumpText(prefix, bytes) == Clip(prefix, MaxDebugMsgSize - 1) + HexdumpHeader + HexRun(bytes)
  {
    var p := Clip(prefix, MaxDebugMsgSize - 1);
    var h := p + HexdumpHeader;
    assert Clip(h, MaxDebugMsgSize - 1) == h;
    var room := MaxDebugMsgSize - 4 - |h|;
    assert room == 3 * (room / 3) + room % 3;
    assert HexdumpShown(|h|, |bytes|) == |bytes|;
    assert bytes[..|bytes|] == bytes;
  }

  /** As written, the end of the header the unchecked `memcpy` writes behind the prefix. */
  function HexdumpHeaderEndAsWritten(prefix: string): nat
  {
    |Clip(prefix, MaxDebugMsgSize - 1)| + |HexdumpHeader|
  }

  /** A call context whose function name alone fills the buffer. */
  function LongNameCtx(): CallCtx
  {
    CallCtx(None, Some(seq(300, _ => 'f')), 1)
  }

  /** As written, a prefix that fills the buffer makes the header `memcpy` write 8 characters past its end. */
  lemma HexdumpHeaderOverrunAsWritten()
    ensures |PrefixText(LongNameCtx())| > MaxDebugMsgSize
    ensures HexdumpHeaderEndAsWritten(PrefixText(LongNameCtx())) == MaxDebugMsgSize + 8
  {
  }

  /** The byte loop of LOG_HEXDUMP: "XX " per byte while it and a terminator fit. */
  method PutHexBytes(buf: array<char>, start: nat, ghost h: string, bytes: seq<byte>) returns (idx: nat)
    requires buf.Length == MaxDebugMsgSize && start == |h| <= MaxDebugMsgSize - 1 && buf[..start] == h
    modifies buf
    ensures idx == |h| + 3 * HexdumpShown(|h|, |bytes|) <= MaxDebugMsgSize - 1
    ensures buf[..idx] == h + HexRun(bytes[..HexdumpShown(|h|, |bytes|)])
  {
    idx := start;
    var k := 0;
    while k < |bytes|
      invariant 0 <= k <= HexdumpShown(|h|, |bytes|)
      invariant idx == |h| + 3 * k && buf[..idx] == h + HexRun(bytes[..k])
    {
      if idx + 4 > MaxDebugMsgSize {
        break;
      }
      var word := HexByte(bytes[k]) + " ";
      HexRunSnoc(bytes, k);
      Assoc(h, HexRun(bytes[..k]), word);
      idx := Copy(buf, idx, word);
      k := k + 1;
    }
  }

  /**
   * LOG_HEXDUMP with the header copy bounded like the rest of the line.
   * The result is the line handed to the log sink.
   */
  method Hexdump(ctx: CallCtx, bytes: seq<byte>) returns (line: string)
    ensures line == HexdumpText(PrefixText(ctx), bytes)
  {
    var buf := new char[MaxDebugMsgSize];
    var idx := BuildPrefix(buf, ctx);
    ghost var text := Clip(PrefixText(ctx), MaxDebugMsgSize - 1);
    idx := PutAll(buf, idx, text, HexdumpHeader);
    text := text + HexdumpHeader;
    ghost var h := Clip(text, MaxDebugMsgSize - 1);
    assert buf[..idx] == h;
    if |bytes| == 0 {
      if idx + 8 <= MaxDebugMsgSize {
        idx := Copy(buf, idx, "<empty>");
      }
      buf[idx] := '\0';
      return buf[..idx];
    }
    idx := PutHexBytes(buf, idx, h, bytes);
    if idx >= MaxDebugMsgSize {
      idx := MaxDebugMsgSize - 1;
    }
    buf[idx] := '\0';
    return buf[..idx];
  }

  // ---------------------------------------------------------------------------
  // LOG_FRAME
  // ---------------------------------------------------------------------------

  const TypeLabel: string := "> Type           : "
  const FcLabel: string := "> Function code  : 0x"
  const SlaveLabel: string := "> Slave ID       : "
  const AddrLabel: string := "> Register Addr  : "
  const CountLabel: string := "> Register Count : "
  const DataLabel: string := "> Data           : "
  const ExceptionLabel: string := "> Exception     : 0x"

  /** `Modbus::toString(FunctionCode)`. */
  function FcName(fc: int): string
  {
    if fc == NullFC then "null function code"
    else if fc == ReadCoils then "read coils"
    else if fc == ReadDiscreteInputs then "read discrete inputs"
    else if fc == ReadHoldingRegisters then "read holding registers"
    else if fc == ReadInputRegisters then "read input registers"
    else if fc == WriteCoil then "write single coil"
    else if fc == WriteRegister then "write single register"
    else if fc == WriteMultipleCoils then "write multiple coils"
    else if fc == WriteMultipleRegisters then "write multiple registers"
    else "invalid function code"
  }

  /**
   * The header line: the prefix p, the description cut so that the colon
   * and the terminator still fit, and the colon when the index is below
   * the last cell.
   */
  function DescText(p: string, desc: string): string
  {
    var room := if |p| < MaxDebugMsgSize - 2 then MaxDebugMsgSize - 2 - |p| else 0;
    var body := p + Clip(desc, room);
    if |body| < MaxDebugMsgSize - 1 then body + ":" else body
  }

  /**
   * The header line after a prefix that fits the buffer ends in the colon
   * unless the prefix alone fills it, and shows the whole description when
   * there is room for it.
   */
  lemma DescTextShape(p: string, desc: string)
    requires |p| <= MaxDebugMsgSize - 1
    ensures var t := DescText(p, desc);
      |t| <= MaxDebugMsgSize - 1 && t[..|p|] == p &&
      (|p| < MaxDebugMsgSize - 1 <==> t[|t| - 1] == ':' && |t| > |p|) &&
      (|p| + |desc| <= MaxDebugMsgSize - 2 ==> t == p + desc + ":")
  {
  }

  function TypeText(t: MsgType): string
  {
    TypeLabel + if t == Request then "REQUEST" else "RESPONSE"
  }

  function FcText(fc: byte): string
  {
    FcLabel + HexByte(fc) + " (" + FcName(fc) + ")"
  }

  /** The slave ID's digits by the three cases of LOG_FRAME: three, two or one digit. */
  function SlaveDigits(id: byte): string
  {
    if id >= 100 then [DigitChar(id / 100), DigitChar(id / 10 % 10), DigitChar(id % 10)]
    else if id >= 10 then [DigitChar(id / 10), DigitChar(id % 10)]
    else [DigitChar(id)]
  }

  /** The three cases write exactly the decimal digits of the ID. */
  lemma SlaveDigitsDecimal(id: byte)
    ensures SlaveDigits(id) == Decimal(id)
  {
    if id >= 10 {
      assert Decimal(id) == Decimal(id / 10) + [DigitChar(id % 10)];
      if id >= 100 {
        assert Decimal(id / 10) == Decimal(id / 100) + [DigitChar(id / 10 % 10)];
      }
    }
  }

  /** The registers in order, each as "0xXXXX ". */
  function Regs(ws: seq<u16>): (r: string)
    ensures |r| == 7 * |ws|
  {
    if |ws| == 0 then [] else Regs(ws[..|ws| - 1]) + HexWord(ws[|ws| - 1]) + " "
  }

  /** A slice within the left part of a concatenation. */
  lemma SliceLeft(a: string, b: string, lo: nat, hi: nat)
    requires lo <= hi <= |a|
    ensures (a + b)[lo..hi] == a[lo..hi]
  {
  }

  /** A slice within the right part of a concatenation. */
  lemma SliceRight(a: string, b: string, lo: nat, hi: nat)
    requires |a| <= lo <= hi <= |a| + |b|
    ensures (a + b)[lo..hi] == b[lo - |a|..hi - |a|]
  {
  }

  /** One more register appends its "0xXXXX ". */
  lemma RegsSnoc(ws: seq<u16>, i: nat)
    requires i < |ws|
    ensures Regs(ws[..i + 1]) == Regs(ws[..i]) + (HexWord(ws[i]) + " ")
  {
    assert ws[..i + 1][..i] == ws[..i];
  }

  /** Register j of a run occupies characters 7j to 7j + 6. */
  lemma {:induction false} RegsAt(ws: seq<u16>, j: nat)
    requires j < |ws|
    ensures Regs(ws)[7 * j..7 * j + 6] == HexWord(ws[j]) && Regs(ws)[7 * j + 6] == ' '
    decreases |ws|
  {
    var init := ws[..|ws| - 1];
    assert Regs(ws) == Regs(init) + (HexWord(ws[|ws| - 1]) + " ");
    if j < |ws| - 1 {
      RegsAt(init, j);
    }
  }

  /**
   * How many registers the data line has room for: the label and 33
   * "0xXXXX " leave room for "...", CRLF and the terminator, and the
   * loop stops before a 34th (the index would pass 256 - 13).
   */
  const DataRoom: nat := 33

  /**
   * The data line: as many registers as there is room for and, when some
   * are left over, "..." after the last one shown.
   */
  function DataText(data: FrameData, count: nat): string
  {
    DataLabel + Regs(data[..Min(count, DataRoom)]) + if count > DataRoom then "..." else ""
  }

  /**
   * The data line shows the first min(count, 33) registers in order, each at
   * its place, with "..." exactly when registers are left out, and leaves
   * room for the CRLF the sink adds and the terminator.
   */
  lemma DataTextRegisters(data: FrameData, count: nat, j: nat)
    requires j < Min(count, DataRoom)
    ensures var t := DataText(data, count);
      |t| == |DataLabel| + 7 * Min(count, DataRoom) + (if count > DataRoom then 3 else 0) &&
      |t| + 3 <= MaxDebugMsgSize &&
      t[|DataLabel| + 7 * j..|DataLabel| + 7 * j + 6] == HexWord(data[j]) &&
      (count > DataRoom <==> t[|t| - 3..] == "...")
  {
    var shown := data[..Min(count, DataRoom)];
    RegsAt(shown, j);
    var t := DataText(data, count);
    var r := Regs(shown);
    var p := |DataLabel| + 7 * j;
    SliceLeft(DataLabel + r, if count > DataRoom then "..." else "", p, p + 6);
    SliceRight(DataLabel, r, p, p + 6);
    if count <= DataRoom {
      assert t[|t| - 1] == ' ';
    }
  }

  /**
   * As written: when a register is left out, the index steps back to
   * 256 - 13 and "..." overwrites the last register written.
   */
  function DataTextAsWritten(data: FrameData, count: nat): string
  {
    if count > DataRoom then DataLabel + Regs(data[..DataRoom - 1]) + "..." else DataText(data, count)
  }

  /**
   * As written, a frame of 34 registers logs only 32 of them before "...",
   * though the 33rd had been written and the line with it and "..." leaves
   * room for CRLF and the terminator.
   */
  lemma DataLineDropsRegisterAsWritten(data: FrameData)
    ensures DataTextAsWritten(data, 34) == DataLabel + Regs(data[..32]) + "..."
    ensures DataText(data, 34) == DataLabel + Regs(data[..33]) + "..."
    ensures |DataText(data, 34)| + 3 <= MaxDebugMsgSize
  {
  }

  /** Everything LOG_FRAME hands to the log sink, one line per call. */
  function FrameLines(f: FrameValue, desc: Option<CString>, ctx: CallCtx): seq<string>
  {
    [DescText(Clip(PrefixText(ctx), MaxDebugMsgSize - 1), if desc.Some? then desc.value else "Frame"),
     TypeText(f.msgType),
     FcText(f.fc),
     SlaveLabel + SlaveDigits(f.slaveId),
     AddrLabel + Decimal(f.regAddress),
     CountLabel + Decimal(f.regCount)] +
    (if f.regCount > 0 then [DataText(f.data, f.regCount)] else []) +
    (if f.exceptionCode != NullException then [ExceptionText(f.exceptionCode)] else [])
  }

  function ExceptionText(ec: byte): string
  {
    ExceptionLabel + HexByte(ec)
  }

  /** The line is the tag followed by decimal digits whose value is n. */
  ghost predicate ReadsDecimal(line: string, tag: string, n: nat)
  {
    |tag| <= |line| && line[..|tag|] == tag &&
    var rest := line[|tag|..];
    (forall j :: 0 <= j < |rest| ==> IsDigit(rest[j])) && DecimalValue(rest) == n
  }

  /** The line is the tag followed by two hexadecimal digits whose value is b. */
  ghost predicate ReadsHexByte(line: string, tag: string, b: nat)
  {
    |tag| + 2 <= |line| && line[..|tag|] == tag &&
    IsHexDigit(line[|tag|]) && IsHexDigit(line[|tag| + 1]) &&
    16 * HexDigitValue(line[|tag|]) + HexDigitValue(line[|tag| + 1]) == b
  }

  lemma DecimalLineReads(tag: string, n: nat)
    ensures ReadsDecimal(tag + Decimal(n), tag, n)
  {
    DecimalRoundTrip(n);
    assert (tag + Decimal(n))[|tag|..] == Decimal(n);
  }

  lemma HexLineReads(tag: string, b: byte)
    ensures ReadsHexByte(tag + HexByte(b), tag, b)
  {
    var line := tag + HexByte(b);
    assert line[|tag|] == HexByte(b)[0] && line[|tag| + 1] == HexByte(b)[1];
  }

  /** Whatever follows the two digits does not change what they read as. */
  lemma HexLineExtends(line: string, tag: string, b: nat, rest: string)
    requires ReadsHexByte(line, tag, b)
    ensures ReadsHexByte(line + rest, tag, b)
  {
    assert (line + rest)[..|tag|] == line[..|tag|];
  }

  /** Where LOG_FRAME's lines are: the fixed six first, the exception line last. */
  lemma FrameLinesAt(f: FrameValue, desc: Option<CString>, ctx: CallCtx)
    ensures var ls := FrameLines(f, desc, ctx);
      |ls| == 6 + (if f.regCount > 0 then 1 else 0) + (if f.exceptionCode != NullException then 1 else 0) &&
      ls[2] == FcText(f.fc) &&
      ls[3] == SlaveLabel + SlaveDigits(f.slaveId) &&
      ls[4] == AddrLabel + Decimal(f.regAddress) &&
      ls[5] == CountLabel + Decimal(f.regCount) &&
      (f.exceptionCode != NullException ==> ls[|ls| - 1] == ExceptionText(f.exceptionCode))
  {
    var ls := FrameLines(f, desc, ctx);
    var head := ls[..6];
    assert head[2] == FcText(f.fc) && head[3] == SlaveLabel + SlaveDigits(f.slaveId);
    assert head[4] == AddrLabel + Decimal(f.regAddress) && head[5] == CountLabel + Decimal(f.regCount);
  }

  /**
   * The numbers of a logged frame read back as its fields: slave ID,
   * address and count in decimal, function and exception code in
   * hexadecimal; a data line comes exactly with a non-zero count and an
   * exception line exactly with an exception code.
   */
  lemma FrameLinesReadBack(f: FrameValue, desc: Option<CString>, ctx: CallCtx)
    ensures var ls := FrameLines(f, desc, ctx);
      |ls| == 6 + (if f.regCount > 0 then 1 else 0) + (if f.exceptionCode != NullException then 1 else 0) &&
      ReadsHexByte(ls[2], FcLabel, f.fc) &&
      ReadsDecimal(ls[3], SlaveLabel, f.slaveId) &&
      ReadsDecimal(ls[4], AddrLabel, f.regAddress) &&
      ReadsDecimal(ls[5], CountLabel, f.regCount) &&
      (f.exceptionCode != NullException ==> ReadsHexByte(ls[|ls| - 1], ExceptionLabel, f.exceptionCode))
  {
    FrameLinesAt(f, desc, ctx);
    SlaveDigitsDecimal(f.slaveId);
    HexLineReads(FcLabel, f.fc);
    HexLineExtends(FcLabel + HexByte(f.fc), FcLabel, f.fc, " (");
    HexLineExtends(FcLabel + HexByte(f.fc) + " (", FcLabel, f.fc, FcName(f.fc));
    HexLineExtends(FcLabel + HexByte(f.fc) + " (" + FcName(f.fc), FcLabel, f.fc, ")");
    DecimalLineReads(SlaveLabel, f.slaveId);
    DecimalLineReads(AddrLabel, f.regAddress);
    DecimalLineReads(CountLabel, f.regCount);
    HexLineReads(ExceptionLabel, f.exceptionCode);
  }

  /** The header line of LOG_FRAME: the prefix, the description cut to fit, and the colon. */
  method DescLine(ctx: CallCtx, desc: Option<CString>) returns (line: string)
    ensures line == DescText(Clip(PrefixText(ctx), MaxDebugMsgSize - 1), if desc.Some? then desc.value else "Frame")
  {
    var buf := new char[MaxDebugMsgSize];
    var idx := BuildPrefix(buf, ctx);
    var safeDesc := if desc.Some? then desc.value else "Frame";
    var remaining := if idx < MaxDebugMsgSize - 2 then MaxDebugMsgSize - 2 - idx else 0;
    var descLen := Min(|safeDesc|, remaining);
    idx := Copy(buf, idx, safeDesc[..descLen]);
    if idx < MaxDebugMsgSize - 1 {
      buf[idx] := ':';
      idx := idx + 1;
    }
    buf[idx] := '\0';
    return buf[..idx];
  }

  /** The slave ID line: the three digit cases written one character at a time. */
  method SlaveLine(id: byte) returns (line: string)
    ensures line == SlaveLabel + SlaveDigits(id)
  {
    var buf := new char[MaxDebugMsgSize];
    var idx := Copy(buf, 0, SlaveLabel);
    var digits := SlaveDigits(id);
    if id >= 100 {
      buf[idx] := DigitChar(id / 100);
      buf[idx + 1] := DigitChar(id / 10 % 10);
      buf[idx + 2] := DigitChar(id % 10);
      idx := idx + 3;
    } else if id >= 10 {
      buf[idx] := DigitChar(id / 10);
      buf[idx + 1] := DigitChar(id % 10);
      idx := idx + 2;
    } else {
      buf[idx] := DigitChar(id);
      idx := idx + 1;
    }
    assert idx == 19 + |digits| && buf[..19] == SlaveLabel;
    assert forall j :: 19 <= j < idx ==> buf[j] == digits[j - 19];
    assert buf[..idx] == SlaveLabel + digits;
    buf[idx] := '\0';
    return buf[..idx];
  }

  /** The digit loop of the address and count lines: `'0' + v % 10` while v /= 10 leaves something. */
  method StoreDigits16(v: u16) returns (numBuf: array<char>, numLen: nat)
    ensures fresh(numBuf) && numBuf.Length == 6 && 1 <= numLen <= 5 && numBuf[..numLen] == DigitsLsb(v)
  {
    ghost var d := DigitsLsb(v);
    DigitsLsbLength(v, 5);
    numBuf := new char[6];
    numLen := 1;
    var n: nat := v;
    numBuf[0] := DigitChar(n % 10);
    n := n / 10;
    assert d[1..] == if n == 0 then [] else DigitsLsb(n);
    while n > 0
      invariant 1 <= numLen <= |d|
      invariant numBuf[..numLen] == d[..numLen]
      invariant n == 0 ==> numLen == |d|
      invariant n != 0 ==> d[numLen..] == DigitsLsb(n)
    {
      DigitsStep(n, d[numLen..]);
      numBuf[numLen] := DigitChar(n % 10);
      assert numBuf[..numLen + 1] == numBuf[..numLen] + [d[numLen]] == d[..numLen + 1];
      assert d[numLen + 1..] == d[numLen..][1..];
      numLen := numLen + 1;
      n := n / 10;
    }
  }

  /**
   * The address and count lines: the label, then the digits stored least
   * significant first and copied back in reverse while the index is below
   * the last cell.
   */
  method NumberLine(tag: string, v: u16) returns (line: string)
    requires |tag| == 19
    ensures line == tag + Decimal(v)
  {
    var buf := new char[MaxDebugMsgSize];
    var idx := Copy(buf, 0, tag);
    ghost var d := DigitsLsb(v);
    var numBuf, numLen := StoreDigits16(v);
    while numLen > 0 && idx < MaxDebugMsgSize - 1
      invariant 0 <= numLen <= |d| && numBuf[..|d|] == d
      invariant idx == |tag| + |d| - numLen && buf[..idx] == tag + Reverse(d[numLen..])
    {
      numLen := numLen - 1;
      buf[idx] := numBuf[numLen];
      assert buf[..idx + 1] == buf[..idx] + [d[numLen]];
      assert Reverse(d[numLen..]) == Reverse(d[numLen + 1..]) + [d[numLen]];
      Assoc(tag, Reverse(d[numLen + 1..]), [d[numLen]]);
      idx := idx + 1;
    }
    assert d[0..] == d;
    LineTextNatural(v);
    buf[idx] := '\0';
    return buf[..idx];
  }

  /**
   * The register loop of the data line: "0xXXXX " per register until the
   * count is reached or the next one would leave no room for "...", CRLF
   * and the terminator.
   */
  method PutRegs(buf: array<char>, ghost tag: string, data: FrameData, count: u16) returns (idx: nat, i: nat)
    requires buf.Length == MaxDebugMsgSize && |tag| == 19 && buf[..19] == tag
    modifies buf
    ensures i == Min(count, DataRoom) && idx == |tag| + 7 * i
    ensures buf[..idx] == tag + Regs(data[..i])
  {
    idx := 19;
    i := 0;
    while i < count && idx + 13 <= MaxDebugMsgSize
      invariant 0 <= i <= Min(count, DataRoom)
      invariant idx == 19 + 7 * i && buf[..idx] == tag + Regs(data[..i])
    {
      var word := HexWord(data[i]) + " ";
      RegsSnoc(data, i);
      Assoc(tag, Regs(data[..i]), word);
      idx := Copy(buf, idx, word);
      i := i + 1;
    }
  }

  /**
   * The data line: the registers there is room for, then "..." when the
   * loop stopped before the count.
   */
  method DataLine(data: FrameData, count: u16) returns (line: string)
    ensures line == DataText(data, count)
  {
    var buf := new char[MaxDebugMsgSize];
    var idx := Copy(buf, 0, DataLabel);
    var i;
    idx, i := PutRegs(buf, DataLabel, data, count);
    if i < count {
      idx := Copy(buf, idx, "...");
    }
    buf[idx] := '\0';
    return buf[..idx];
  }

  /**
   * LOG_FRAME: the header line, the type, the function code, the slave ID,
   * the address and the count, then the data when the count is not zero
   * and the exception code when there is one.
   */
  method LogFrame(f: FrameValue, desc: Option<CString>, ctx: CallCtx) returns (lines: seq<string>)
    ensures lines == FrameLines(f, desc, ctx)
  {
    var header := DescLine(ctx, desc);
    var slave := SlaveLine(f.slaveId);
    var addr := NumberLine(AddrLabel, f.regAddress);
    var count := NumberLine(CountLabel, f.regCount);
    lines := [header, TypeText(f.msgType), FcText(f.fc), slave, addr, count];
    if f.regCount > 0 {
      var dataLine := DataLine(f.data, f.regCount);
      lines := lines + [dataLine];
    }
    if f.exceptionCode != NullException {
      lines := lines + [ExceptionText(f.exceptionCode)];
    }
  }
}
