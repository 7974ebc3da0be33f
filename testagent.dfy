/**
 * The loopback test agent: the helper that plays the other end of the
 * serial line in the RTU server tests. It turns hex text into bytes and back,
 * compares received frames with expected hex text, and keeps the frames it
 * received in a first-in first-out queue.
 */

module ModbusTestAgent {
  import opened ModbusCore
  import D = ModbusDebug
  import S = ModbusLogSink

  /** The characters `toBytes` skips at the start of a pair. */
  predicate IsSeparator(c: char)
  {
    c == ' ' || c == ':' || c == '-'
  }

  /** C's `isspace`: the characters `strtol` skips before a number. */
  predicate IsSpace(c: char)
  {
    c == ' ' || c == '\t' || c == '\n' || c == '\r' || c == 11 as char || c == 12 as char
  }

  /**
   * `strtol` in base 16 on the two-character string `ab`: a leading blank or
   * '+' is skipped, then the hex digits are read up to the first other
   * character; no digit at all reads as 0.
   */
  function Strtol2(a: char, b: char): (v: byte)
    ensures D.IsHexDigit(a) && D.IsHexDigit(b) ==> v == 16 * D.HexDigitValue(a) + D.HexDigitValue(b)
    ensures D.IsHexDigit(a) && !D.IsHexDigit(b) ==> v == D.HexDigitValue(a)
    ensures !D.IsHexDigit(a) && !D.IsHexDigit(b) ==> v == 0
    ensures !D.IsHexDigit(a) && !IsSpace(a) && a != '+' ==> v == 0
  {
    if D.IsHexDigit(a) then
      if D.IsHexDigit(b) then 16 * D.HexDigitValue(a) + D.HexDigitValue(b) else D.HexDigitValue(a)
    else if (IsSpace(a) || a == '+') && D.IsHexDigit(b) then
      D.HexDigitValue(b)
    else
      0
  }

  /**
   * The bytes `toBytes` reads from hex text: a separator at the start of a
   * pair is skipped on its own, a pair becomes one byte, and a last odd
   * character is ignored.
   */
  function Bytes(s: string): (bs: seq<byte>)
    ensures |bs| <= |s| / 2
  {
    if |s| == 0 then []
    else if IsSeparator(s[0]) then Bytes(s[1..])
    else if |s| == 1 then []
    else [Strtol2(s[0], s[1])] + Bytes(s[2..])
  }

  /** `toBytes`: the loop over the text, two characters at a time. */
  method ToBytes(hexStr: D.CString) returns (bytes: seq<byte>)
    ensures bytes == Bytes(hexStr)
  {
    bytes := [];
    var i: nat := 0;
    while i < |hexStr|
      invariant i <= |hexStr|
      invariant bytes + Bytes(hexStr[i..]) == Bytes(hexStr)
    {
      assert hexStr[i..][1..] == hexStr[i + 1..];
      if IsSeparator(hexStr[i]) {
        // `i--` followed by the loop's `i += 2`
        i := i + 1;
        continue;
      }
      if i + 1 >= |hexStr| {
        break;
      }
      assert hexStr[i..][2..] == hexStr[i + 2..];
      bytes := bytes + [Strtol2(hexStr[i], hexStr[i + 1])];
      i := i + 2;
    }
  }

  /** The text `toHexStr` writes: "XX " per byte, without the last space. */
  function HexText(bs: seq<byte>): (s: string)
  {
    if |bs| == 0 then "" else D.HexRun(bs)[..3 * |bs| - 1]
  }

  /** `toHexStr`: appends each byte's "%02X " and then removes the trailing space. */
  method ToHexStr(bytes: seq<byte>) returns (result: string)
    ensures result == HexText(bytes)
  {
    result := "";
    for i := 0 to |bytes|
      invariant result == D.HexRun(bytes[..i])
    {
      D.HexRunSnoc(bytes, i);
      result := result + (D.HexByte(bytes[i]) + " ");
    }
    assert bytes[..|bytes|] == bytes;
    if |result| > 0 {
      result := result[..|result| - 1];
    }
  }

  /** The hex run, read from the front: the first byte's digits, a space, then the rest. */
  lemma {:induction false} HexRunCons(bs: seq<byte>)
    requires |bs| > 0
    ensures D.HexRun(bs) == D.HexByte(bs[0]) + (" " + D.HexRun(bs[1..]))
    decreases |bs|
  {
    var n := |bs|;
    if n == 1 {
      assert bs[..0] == [];
      assert bs[1..] == [];
    } else {
      var init := bs[..n - 1];
      assert init[0] == bs[0];
      HexRunCons(init);
      assert init[1..] == bs[1..][..n - 2];
      D.HexRunSnoc(bs, n - 1);
      D.HexRunSnoc(bs[1..], n - 2);
      assert bs[1..][..n - 1] == bs[1..];
      assert bs[1..][n - 2] == bs[n - 1];
      var tail := D.HexRun(init[1..]);
      var last := D.HexByte(bs[n - 1]) + " ";
      D.Assoc(D.HexByte(bs[0]), " " + tail, last);
      D.Assoc(" ", tail, last);
    }
  }

  /** Reading a byte's two digits back gives the byte. */
  lemma HexByteReads(b: byte)
    ensures Strtol2(D.HexByte(b)[0], D.HexByte(b)[1]) == b
  {
  }

  /** One byte's digits and a space, in front of any text, read as that byte and then the text. */
  lemma ByteTextReads(b: byte, r: string)
    ensures Bytes(D.HexByte(b) + (" " + r)) == [b] + Bytes(r)
  {
    var h := D.HexByte(b);
    var s := h + (" " + r);
    assert s[0] == h[0] && s[1] == h[1];
    assert s[2..] == " " + r;
    assert (" " + r)[1..] == r;
    HexByteReads(b);
  }

  /** Reading a hex run followed by any text gives the run's bytes, then what the text reads as. */
  lemma {:induction false} BytesOfHexRun(bs: seq<byte>, t: string)
    ensures Bytes(D.HexRun(bs) + t) == bs + Bytes(t)
    decreases |bs|
  {
    if |bs| == 0 {
      assert D.HexRun(bs) + t == t;
    } else {
      var h := D.HexByte(bs[0]);
      var run := D.HexRun(bs[1..]);
      HexRunCons(bs);
      D.Assoc(h, " " + run, t);
      D.Assoc(" ", run, t);
      assert D.HexRun(bs) + t == h + (" " + (run + t));
      ByteTextReads(bs[0], run + t);
      BytesOfHexRun(bs[1..], t);
      assert bs == [bs[0]] + bs[1..];
      SeqAssoc([bs[0]], bs[1..], Bytes(t));
    }
  }

  /** Concatenation of byte sequences regroups. */
  lemma SeqAssoc(a: seq<byte>, b: seq<byte>, c: seq<byte>)
    ensures (a + b) + c == a + (b + c)
  {
  }

  /** The hexdump's byte text reads back as the bytes dumped. */
  lemma HexRunReadsBack(bs: seq<byte>)
    ensures Bytes(D.HexRun(bs)) == bs
  {
    BytesOfHexRun(bs, "");
    assert D.HexRun(bs) + "" == D.HexRun(bs);
  }

  /** `toBytes(toHexStr(b))` gives `b` back. */
  lemma HexTextReadsBack(bs: seq<byte>)
    ensures Bytes(HexText(bs)) == bs
  {
    if |bs| > 0 {
      var n := |bs|;
      var init := bs[..n - 1];
      D.HexRunSnoc(bs, n - 1);
      assert bs[..n] == bs;
      var h := D.HexByte(bs[n - 1]);
      D.Assoc(D.HexRun(init), h, " ");
      assert HexText(bs) == D.HexRun(init) + h;
      BytesOfHexRun(init, h);
      HexByteReads(bs[n - 1]);
      assert h[2..] == "";
      assert bs == init + [bs[n - 1]];
    }
  }

  /** The shape of `toHexStr`'s text: two uppercase digits per byte, single spaces between. */
  lemma HexTextShape(bs: seq<byte>)
    ensures |bs| == 0 ==> HexText(bs) == ""
    ensures |bs| > 0 ==> |HexText(bs)| == 3 * |bs| - 1
    ensures forall k :: 0 <= k < |bs| ==> HexText(bs)[3 * k..3 * k + 2] == D.HexByte(bs[k])
    ensures forall k :: 0 < k < |bs| ==> HexText(bs)[3 * k - 1] == ' '
  {
    forall k | 0 <= k < |bs|
      ensures HexText(bs)[3 * k..3 * k + 2] == D.HexByte(bs[k])
      ensures k > 0 ==> HexText(bs)[3 * k - 1] == ' '
    {
      HexRunAt(bs, k);
      if k > 0 {
        HexRunAt(bs, k - 1);
      }
    }
  }

  /** Where byte `k` sits in the hex run. */
  lemma {:induction false} HexRunAt(bs: seq<byte>, k: nat)
    requires k < |bs|
    ensures D.HexRun(bs)[3 * k..3 * k + 2] == D.HexByte(bs[k])
    ensures D.HexRun(bs)[3 * k + 2] == ' '
    decreases |bs|
  {
    var n := |bs|;
    var init := bs[..n - 1];
    D.HexRunSnoc(bs, n - 1);
    assert bs[..n] == bs;
    var run := D.HexRun(init);
    var tail := D.HexByte(bs[n - 1]) + " ";
    assert D.HexRun(bs) == run + tail;
    if k == n - 1 {
      D.SliceRight(run, tail, 3 * k, 3 * k + 2);
      assert tail[0..2] == D.HexByte(bs[k]);
      assert (run + tail)[3 * k + 2] == tail[2];
    } else {
      assert init[k] == bs[k];
      HexRunAt(init, k);
      D.SliceLeft(run, tail, 3 * k, 3 * k + 2);
      assert (run + tail)[3 * k + 2] == run[3 * k + 2];
    }
  }

  /** `compare`: the expected bytes and the received ones have the same size and agree element by element. */
  method Compare(bytes: seq<byte>, hexStr: D.CString) returns (same: bool)
    ensures same <==> bytes == Bytes(hexStr)
  {
    var expected := ToBytes(hexStr);
    if |expected| != |bytes| {
      return false;
    }
    for i := 0 to |expected|
      invariant expected[..i] == bytes[..i]
    {
      if expected[i] != bytes[i] {
        return false;
      }
      assert expected[..i + 1] == expected[..i] + [expected[i]];
      assert bytes[..i + 1] == bytes[..i] + [bytes[i]];
    }
    assert expected[..|expected|] == expected;
    assert bytes[..|bytes|] == bytes;
    return true;
  }

  /** A frame received and written out by `toHexStr` compares equal to itself. */
  lemma CompareHexText(bs: seq<byte>, other: seq<byte>)
    ensures (other == Bytes(HexText(bs))) <==> other == bs
  {
    HexTextReadsBack(bs);
  }

  class TestAgent {
    const silenceTimeUs: u32
    var lastRxTimeUs: u32
    var rxBuffer: seq<byte>
    var rxQueue: seq<seq<byte>>

    constructor (silenceTimeUs: u32)
      ensures this.silenceTimeUs == silenceTimeUs
      ensures rxBuffer == [] && rxQueue == [] && lastRxTimeUs == 0
    {
      this.silenceTimeUs := silenceTimeUs;
      lastRxTimeUs := 0;
      rxBuffer := [];
      rxQueue := [];
    }

    /**
     * `poll`: the bytes available on the line are appended to the frame
     * being received (`lastByteUs` is the clock reading after the last of
     * them); once the line has been silent for `silenceTimeUs` at `nowUs`,
     * the frame goes to the back of the queue.
     */
    method Poll(incoming: seq<byte>, lastByteUs: u32, nowUs: u32)
      modifies this
      ensures lastRxTimeUs == if incoming == [] then old(lastRxTimeUs) else lastByteUs
      ensures var frame := old(rxBuffer) + incoming;
        if frame != [] && S.Elapsed(lastRxTimeUs, nowUs) >= silenceTimeUs
        then rxQueue == old(rxQueue) + [frame] && rxBuffer == []
        else rxQueue == old(rxQueue) && rxBuffer == frame
    {
      for i := 0 to |incoming|
        invariant rxBuffer == old(rxBuffer) + incoming[..i]
        invariant lastRxTimeUs == if i == 0 then old(lastRxTimeUs) else lastByteUs
        invariant rxQueue == old(rxQueue)
      {
        rxBuffer := rxBuffer + [incoming[i]];
        assert incoming[..i + 1] == incoming[..i] + [incoming[i]];
        lastRxTimeUs := lastByteUs;
      }
      assert incoming[..|incoming|] == incoming;
      if rxBuffer != [] && S.Elapsed(lastRxTimeUs, nowUs) >= silenceTimeUs {
        rxQueue := rxQueue + [rxBuffer];
        rxBuffer := [];
      }
    }

    /** `fetch`: the oldest frame leaves the queue; with none, an empty frame and nothing changes. */
    method Fetch() returns (data: seq<byte>)
      modifies this`rxQueue
      ensures old(rxQueue) == [] ==> data == [] && rxQueue == []
      ensures old(rxQueue) != [] ==> data == old(rxQueue)[0] && rxQueue == old(rxQueue)[1..]
    {
      if rxQueue == [] {
        return [];
      }
      data := rxQueue[0];
      rxQueue := rxQueue[1..];
    }

    /** `peek`: the oldest frame, or an empty one, without removing it. */
    method Peek() returns (data: seq<byte>)
      ensures rxQueue == [] ==> data == []
      ensures rxQueue != [] ==> data == rxQueue[0]
    {
      if rxQueue == [] {
        return [];
      }
      return rxQueue[0];
    }

    /** `clear`: pops frames until none is left; the frame being received stays. */
    method Clear()
      modifies this`rxQueue
      ensures rxQueue == []
    {
      while rxQueue != []
        decreases |rxQueue|
      {
        rxQueue := rxQueue[1..];
      }
    }

    /** `hasData`: whether a frame is waiting. */
    method HasData() returns (has: bool)
      ensures has <==> |rxQueue| > 0
    {
      return rxQueue != [];
    }
  }

  /**
   * First in, first out: two frames, each closed by a silence, are fetched
   * in the order they arrived, and the queue is empty after them.
   */
  method FetchInOrder(first: seq<byte>, second: seq<byte>, silenceTimeUs: u32, t1: u32, t2: u32, t3: u32)
    returns (a: seq<byte>, b: seq<byte>, more: bool)
    requires first != [] && second != []
    requires S.Elapsed(t1, t2) >= silenceTimeUs && S.Elapsed(t2, t3) >= silenceTimeUs
    ensures a == first && b == second && !more
  {
    var agent := new TestAgent(silenceTimeUs);
    agent.Poll(first, t1, t2);
    assert agent.lastRxTimeUs == t1 && [] + first == first;
    assert agent.rxQueue == [first] && agent.rxBuffer == [];
    agent.Poll(second, t2, t3);
    assert agent.lastRxTimeUs == t2 && [] + second == second;
    assert agent.rxQueue == [first, second];
    a := agent.Fetch();
    assert a == first && agent.rxQueue == [second];
    b := agent.Fetch();
    assert b == second && agent.rxQueue == [];
    more := agent.HasData();
  }
}
