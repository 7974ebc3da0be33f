/**
 * The RTU serial interface (`ModbusInterface::RTU`): the silence time
 * between frames, the TX buffer a frame is encoded into before the RX/TX
 * task sends it, and the RX buffer that UART events fill and that a
 * silence flushes as one frame.
 *
 * The UART driver, the RTOS queues and the task are outside the model:
 * what the driver returns (the baud rate, whether a setting took, the
 * bytes a read delivers, the count a write sent) and whether a try-lock or
 * a queue send succeeded are inputs; the waits are left out.
 */
module ModbusRtu {
  import opened Wrappers
  import opened ModbusCore
  import opened ModbusFrame
  import ModbusCodec
  import opened ModbusBuffer
  import opened ModbusFraming
  import opened ModbusInterface

  /** The character length the silence time is computed for: start, 8 data, parity, stop. */
  const BitsPerChar: nat := 11

  /** Above this baud rate the silence time is the fixed 1750 us. */
  const FixedSilenceBaud: nat := 19200
  const FixedSilenceUs: nat := 1750

  /**
   * `setSilenceTimeBaud`'s arithmetic (section 2.5.1.1 of the MODBUS over
   * Serial Line Specification V1.02): no silence time for baud 0, 1750 us
   * above 19200 baud, otherwise 3.5 character times of 11 bits, each
   * character time rounded down to whole microseconds, and the product
   * rounded down too.
   */
  function SilenceUsForBaud(baud: u32): (r: Option<nat>)
    ensures baud == 0 <==> r.None?
    ensures baud > FixedSilenceBaud ==> r == Some(FixedSilenceUs)
    ensures 0 < baud <= FixedSilenceBaud ==> (r.Some? &&
      var c := (BitsPerChar * 1000000) / baud;
      c * baud <= BitsPerChar * 1000000 < (c + 1) * baud && 10 * r.value <= 35 * c < 10 * r.value + 10)
  {
    if baud == 0 then None
    else if baud > FixedSilenceBaud then Some(FixedSilenceUs)
    else
      var charTimeUs := (BitsPerChar * 1000000) / baud;
      Some((charTimeUs * 35) / 10)
  }

  /** A slower line never gets a shorter silence time; below 19200 baud it is longer than the fixed 1750 us. */
  lemma SilenceUsAntitone(a: u32, b: u32)
    requires 0 < a <= b
    ensures SilenceUsForBaud(b).value <= SilenceUsForBaud(a).value
    ensures a <= FixedSilenceBaud ==> SilenceUsForBaud(a).value > FixedSilenceUs
  {
    var n := BitsPerChar * 1000000;
    if a <= FixedSilenceBaud {
      var ca := n / a;
      assert ca * a <= n < (ca + 1) * a;
      assert ca >= n / FixedSilenceBaud by {
        DivAntitone(n, a, FixedSilenceBaud);
      }
      if b <= FixedSilenceBaud {
        var cb := n / b;
        DivAntitone(n, a, b);
        assert 35 * cb <= 35 * ca;
        assert (cb * 35) / 10 <= (ca * 35) / 10;
      }
    }
  }

  /** Dividing by a larger divisor gives no larger quotient. */
  lemma DivAntitone(n: nat, a: nat, b: nat)
    requires 0 < a <= b
    ensures n / b <= n / a
  {
    var qa, qb := n / a, n / b;
    assert qb * b <= n;
    assert qb * a <= qb * b by {
      MulMono(qb, a, b);
    }
    if qb > qa {
      assert (qa + 1) * a <= qb * a by {
        MulMono(a, qa + 1, qb);
      }
      assert false;
    }
  }

  lemma MulMono(k: nat, a: nat, b: nat)
    requires a <= b
    ensures k * a <= k * b && a * k <= b * k
  {
  }

  /** The UART events the interface reacts to. */
  datatype UartEvent =
    | Data(size: nat, timeoutFlag: bool)
    | FifoOverflow
    | BufferFull
    | FrameError
    | ParityError
    | EventMax
    | Unhandled

  /**
   * The RX contents after a data event of `size` bytes: at most the free
   * space is asked for; the bytes the driver delivers are appended, and a
   * read that delivers nothing leaves the zeroed space it had made room with.
   */
  function RxAfterRead(s: seq<byte>, cap: nat, size: nat, got: seq<byte>): (r: seq<byte>)
    requires |s| < cap
    ensures |s| < |r| <= cap || (size == 0 && r == s)
    ensures r[..|s|] == s
  {
    var toRead := Min(size, cap - |s|);
    var chunk := Truncate(got, toRead);
    if toRead == 0 then s
    else if |chunk| > 0 then s + chunk
    else s + ZeroBytes(toRead)
  }

  /** The interface state. */
  class Rtu {
    const iface: Interface
    var isInitialized: bool
    var silenceTimeUs: nat
    const rxBuffer: ByteBuffer
    const txBuffer: ByteBuffer
    /** The TX result callback stored for the RX/TX task, with its context. */
    var txCallback: Option<nat>
    var txCallbackCtx: int

    ghost predicate Valid()
      reads this, iface, iface.slots, rxBuffer, txBuffer
    {
      && iface.Valid()
      && rxBuffer.Valid() && txBuffer.Valid()
      && rxBuffer.attached && txBuffer.attached
      && rxBuffer.cap == RtuMaxFrameSize && txBuffer.cap == RtuMaxFrameSize
      && rxBuffer != txBuffer && rxBuffer.bytes != txBuffer.bytes
    }

    constructor (role: Role)
      ensures Valid() && iface.role == role && !isInitialized && silenceTimeUs == 0
      ensures rxBuffer.size == 0 && txBuffer.size == 0 && txCallback.None?
      ensures fresh(iface) && fresh(iface.slots) && fresh(rxBuffer) && fresh(txBuffer)
      ensures fresh(rxBuffer.bytes) && fresh(txBuffer.bytes)
    {
      iface := new Interface(role);
      rxBuffer := new ByteBuffer(RtuMaxFrameSize);
      txBuffer := new ByteBuffer(RtuMaxFrameSize);
      isInitialized, silenceTimeUs := false, 0;
      txCallback, txCallbackCtx := None, 0;
    }

    /** `updateUartIdleDetection()`: the driver must be registered and must accept the timeout. */
    method UpdateIdleDetection(halReady: bool, halAccepts: bool) returns (r: IfResult)
      ensures r == (if halReady && halAccepts then Success else ErrConfigFailed)
    {
      if !halReady || !halAccepts {
        return ErrConfigFailed;
      }
      return Success;
    }

    /**
     * `setSilenceTimeMs(ms)`: at least 1 ms; the driver is updated only when
     * the time changes and the interface is running.
     */
    method SetSilenceTimeMs(ms: u32, halReady: bool, halAccepts: bool) returns (r: IfResult)
      modifies this
      ensures silenceTimeUs == Max(ms, 1) * 1000
      ensures r == (if old(silenceTimeUs) != silenceTimeUs && isInitialized && !(halReady && halAccepts)
                    then ErrConfigFailed else Success)
      ensures isInitialized == old(isInitialized) && txCallback == old(txCallback) && txCallbackCtx == old(txCallbackCtx)
    {
      var m := if ms < 1 then 1 else ms;
      var newUs := m * 1000;
      if newUs != silenceTimeUs {
        silenceTimeUs := newUs;
        if isInitialized {
          var res := UpdateIdleDetection(halReady, halAccepts);
          if res != Success {
            return ErrConfigFailed;
          }
        }
      }
      return Success;
    }

    /** `setSilenceTimeBaud()`: baud 0 is refused; otherwise the time for the baud rate is applied. */
    method SetSilenceTimeBaud(baud: u32, halReady: bool, halAccepts: bool) returns (r: IfResult)
      modifies this
      ensures baud == 0 ==> r == ErrConfigFailed && silenceTimeUs == old(silenceTimeUs)
      ensures baud != 0 ==> (silenceTimeUs == SilenceUsForBaud(baud).value
        && r == (if old(silenceTimeUs) != silenceTimeUs && isInitialized && !(halReady && halAccepts)
                 then ErrConfigFailed else Success))
      ensures isInitialized == old(isInitialized) && txCallback == old(txCallback) && txCallbackCtx == old(txCallbackCtx)
    {
      if baud == 0 {
        return ErrConfigFailed;
      }
      var newUs := SilenceUsForBaud(baud).value;
      if newUs != silenceTimeUs {
        silenceTimeUs := newUs;
        if isInitialized {
          var res := UpdateIdleDetection(halReady, halAccepts);
          if res != Success {
            return ErrConfigFailed;
          }
        }
      }
      return Success;
    }

    /**
     * `begin()`: idempotent once running; the driver's event queue and the
     * RTOS objects must exist; the silence time is the user's, or the one
     * for the baud rate, and the driver must accept it.
     */
    method Begin(halReady: bool, rtosOk: bool, baud: u32, halAccepts: bool) returns (r: IfResult)
      requires Valid()
      modifies this, rxBuffer
      ensures Valid()
      ensures old(isInitialized) ==> r == Success && isInitialized && silenceTimeUs == old(silenceTimeUs)
      ensures !old(isInitialized) ==>
        (r == Success <==> halReady && rtosOk && halAccepts && (old(silenceTimeUs) > 0 || baud > 0))
      ensures r == Success <==> isInitialized
      ensures r == Success && !old(isInitialized) ==>
        rxBuffer.size == 0 && silenceTimeUs == (if old(silenceTimeUs) > 0 then old(silenceTimeUs) else SilenceUsForBaud(baud).value)
    {
      if isInitialized {
        return Success;
      }
      if !halReady || !rtosOk {
        return ErrInitFailed;
      }
      rxBuffer.Clear();
      isInitialized := true;
      var res;
      if silenceTimeUs > 0 {
        res := UpdateIdleDetection(halReady, halAccepts);
      } else {
        res := SetSilenceTimeBaud(baud, halReady, halAccepts);
        if baud != 0 {
          SilencePositive(baud);
        }
      }
      if res != Success {
        isInitialized := false;
        return ErrInitFailed;
      }
      return Success;
    }

    /**
     * `sendFrame(frame, txCallback, ctx)`: refused before begin, and while
     * the TX lock is taken or the TX buffer holds a frame; otherwise the
     * callback is stored and the frame encoded into the TX buffer, which
     * is emptied again when the encoding fails. A refusal is also reported
     * to the callback, returned here as `reported`.
     */
    method SendFrame(f: FrameValue, cb: Option<nat>, ctx: int, locked: bool, queued: bool)
      returns (r: IfResult, reported: Option<IfResult>)
      requires Valid()
      modifies this, txBuffer, txBuffer.bytes
      ensures Valid()
      ensures reported == (if cb.Some? && r != Success then Some(r) else None)
      ensures !old(isInitialized) ==> r == ErrNotInitialized && txBuffer.size == old(txBuffer.size)
      ensures old(isInitialized) && (!locked || old(txBuffer.size) != 0) ==>
        r == ErrBusy && txBuffer.size == old(txBuffer.size) && txCallback == old(txCallback)
      ensures old(isInitialized) && locked && old(txBuffer.size) == 0 ==>
        var e := RtuEncode(f, RtuMaxFrameSize);
        if e.status != ModbusCodec.Success then r == ErrInvalidFrame && txBuffer.size == 0 && txCallback == cb
        else if !queued then r == ErrSendFailed && txBuffer.Contents() == e.bytes && txCallback.None?
        else r == Success && txBuffer.Contents() == e.bytes && txCallback == cb && txCallbackCtx == ctx
      ensures r == Success ==> txBuffer.size > 0
      ensures isInitialized == old(isInitialized)
    {
      if !isInitialized {
        r := ErrNotInitialized;
        reported := if cb.Some? then Some(r) else None;
        return;
      }
      if !locked || txBuffer.size != 0 {
        r := ErrBusy;
        reported := if cb.Some? then Some(r) else None;
        return;
      }
      txCallback, txCallbackCtx := cb, ctx;
      var ok := EncodeForTx(f);
      if !ok {
        r := ErrInvalidFrame;
        reported := if cb.Some? then Some(r) else None;
        return;
      }
      if !queued {
        txCallback, txCallbackCtx := None, 0;
        r := ErrSendFailed;
        reported := if cb.Some? then Some(r) else None;
        return;
      }
      r, reported := Success, None;
    }

    /** The encoding step of `sendFrame`: a frame that does not encode leaves the TX buffer empty. */
    method EncodeForTx(f: FrameValue) returns (ok: bool)
      requires Valid()
      modifies txBuffer, txBuffer.bytes
      ensures Valid()
      ensures ok <==> RtuEncode(f, RtuMaxFrameSize).status == ModbusCodec.Success
      ensures ok ==> txBuffer.Contents() == RtuEncode(f, RtuMaxFrameSize).bytes && txBuffer.size > 0
      ensures !ok ==> txBuffer.size == 0
    {
      var st := RtuEncodeTo(f, txBuffer);
      if st != ModbusCodec.Success {
        txBuffer.Clear();
        return false;
      }
      RtuEncodedNonEmpty(f);
      return true;
    }

    /** `isReady()`: running, the TX lock free and no frame waiting to be sent. */
    method IsReady(locked: bool) returns (ready: bool)
      requires Valid()
      ensures ready <==> isInitialized && locked && txBuffer.size == 0
    {
      if !isInitialized {
        return false;
      }
      if !locked || txBuffer.size > 0 {
        return false;
      }
      return true;
    }

    /**
     * `processReceivedFrame(bytes)`: an empty buffer is refused; the bytes
     * are decoded as a response on the master side and as a request on the
     * slave side; a frame that does not decode reaches no callback, one
     * that does reaches every registered callback.
     */
    method ProcessReceivedFrame(bytes: seq<byte>) returns (r: IfResult, delivered: Option<FrameValue>, calls: seq<RcvCallback>)
      requires Valid()
      ensures |bytes| == 0 ==> r == ErrInvalidFrame && delivered.None? && calls == []
      ensures |bytes| > 0 ==>
        var d := RtuDecode(bytes, EmptyFrame, ReceivedType(iface.role));
        if d.status == ModbusCodec.Success
        then r == Success && delivered == Some(d.frame) && calls == Registered(iface.slots[..])
        else r == ErrInvalidFrame && delivered.None? && calls == []
    {
      if |bytes| == 0 {
        return ErrInvalidFrame, None, [];
      }
      var t := ReceivedType(iface.role);
      var received := new Frame();
      var st := RtuDecodeInto(bytes, received, t);
      if st != ModbusCodec.Success {
        return ErrInvalidFrame, None, [];
      }
      var v := received.Value();
      var notified;
      notified, calls := iface.NotifyCallbacks();
      return Success, Some(v), calls;
    }

    /**
     * `handleUartEvent(event)`: a data event appends at most the free space
     * (a full buffer is flushed and refused, a driver error flushes too);
     * its silence flag hands a non-empty buffer on as one frame and then
     * empties it; overflow events flush; line errors are refused.
     * `got` is what the driver's read delivers, None for a read error.
     */
    method HandleUartEvent(ev: UartEvent, got: Option<seq<byte>>)
      returns (r: IfResult, delivered: Option<FrameValue>, calls: seq<RcvCallback>)
      requires Valid()
      modifies rxBuffer, rxBuffer.bytes
      ensures Valid()
      ensures ev.Data? && ev.size > 0 && old(rxBuffer.size) == RtuMaxFrameSize ==>
        r == ErrRxFailed && rxBuffer.size == 0 && delivered.None?
      ensures ev.Data? && ev.size > 0 && old(rxBuffer.size) < RtuMaxFrameSize && got.None? ==>
        r == ErrRxFailed && rxBuffer.size == 0 && delivered.None?
      ensures ev.Data? && (ev.size == 0 || (old(rxBuffer.size) < RtuMaxFrameSize && got.Some?)) ==>
        var s := if ev.size == 0 then old(rxBuffer.Contents())
                 else RxAfterRead(old(rxBuffer.Contents()), RtuMaxFrameSize, ev.size, got.value);
        r == Success &&
        if ev.timeoutFlag then rxBuffer.size == 0 &&
          (|s| == 0 ==> delivered.None?) &&
          (|s| > 0 ==> (delivered.Some? <==> RtuDecode(s, EmptyFrame, ReceivedType(iface.role)).status == ModbusCodec.Success))
        else rxBuffer.Contents() == s && delivered.None?
      ensures (ev.FifoOverflow? || ev.BufferFull?) ==> r == ErrRxFailed && rxBuffer.size == 0 && delivered.None?
      ensures (ev.FrameError? || ev.ParityError? || ev.Unhandled?) ==>
        r == ErrRxFailed && rxBuffer.Contents() == old(rxBuffer.Contents()) && delivered.None?
      ensures ev.EventMax? ==> r == Success && rxBuffer.Contents() == old(rxBuffer.Contents()) && delivered.None?
      ensures delivered.None? ==> calls == []
    {
      delivered, calls := None, [];
      match ev
      case Data(size, timeoutFlag) =>
        if size > 0 {
          var failed := PullBytes(size, got);
          if failed {
            return ErrRxFailed, None, [];
          }
        }
        if timeoutFlag {
          if rxBuffer.size > 0 {
            var processed;
            processed, delivered, calls := ProcessReceivedFrame(rxBuffer.Contents());
          }
          rxBuffer.Clear();
        }
        r := Success;
      case FifoOverflow =>
        rxBuffer.Clear();
        r := ErrRxFailed;
      case BufferFull =>
        rxBuffer.Clear();
        r := ErrRxFailed;
      case FrameError =>
        r := ErrRxFailed;
      case ParityError =>
        r := ErrRxFailed;
      case EventMax =>
        r := Success;
      case Unhandled =>
        r := ErrRxFailed;
    }

    /**
     * The reading half of a data event: a full buffer is flushed, at most the
     * free space is read, and a driver error flushes the buffer.
     */
    method PullBytes(size: nat, got: Option<seq<byte>>) returns (failed: bool)
      requires Valid() && size > 0
      modifies rxBuffer, rxBuffer.bytes
      ensures Valid()
      ensures failed <==> old(rxBuffer.size) == RtuMaxFrameSize || got.None?
      ensures failed ==> rxBuffer.size == 0
      ensures !failed ==> rxBuffer.Contents() == RxAfterRead(old(rxBuffer.Contents()), RtuMaxFrameSize, size, got.value)
    {
      if rxBuffer.FreeSpace() == 0 {
        rxBuffer.Clear();
        return true;
      }
      ghost var before := rxBuffer.Contents();
      var toRead := Min(size, rxBuffer.FreeSpace());
      var currentSize := rxBuffer.size;
      var _ := rxBuffer.Resize(currentSize + toRead);
      if got.None? {
        rxBuffer.Clear();
        return true;
      }
      var chunk := Truncate(got.value, toRead);
      ReadInto(currentSize, toRead, chunk);
      return false;
    }

    /**
     * The driver's read into the room `resize` made: the bytes land after
     * the old contents, and the size is trimmed to them when there are any.
     */
    method ReadInto(currentSize: nat, toRead: nat, chunk: seq<byte>)
      requires Valid() && 0 < toRead && |chunk| <= toRead
      requires rxBuffer.size == currentSize + toRead
      requires rxBuffer.Contents()[currentSize..] == ZeroBytes(toRead)
      modifies rxBuffer, rxBuffer.bytes
      ensures Valid()
      ensures |chunk| > 0 ==> rxBuffer.Contents() == old(rxBuffer.Contents())[..currentSize] + chunk
      ensures |chunk| == 0 ==> rxBuffer.Contents() == old(rxBuffer.Contents())
    {
      ghost var s := rxBuffer.Contents();
      var _ := rxBuffer.WriteAllAt(currentSize, chunk);
      if |chunk| > 0 {
        assert rxBuffer.Contents()[..currentSize + |chunk|] == s[..currentSize] + chunk;
        var _ := rxBuffer.Trim(currentSize + |chunk|);
      } else {
        assert rxBuffer.Contents() == s;
      }
    }

    /**
     * `handleTxRequest()`: a waiting frame is written out, and a short
     * write is a send failure; an empty TX buffer is a send failure; the
     * result goes to the stored callback, and the callback and the buffer
     * are cleared in every case. `sentLen` is what the driver's write
     * returns; `sent` are the bytes handed to it.
     */
    method HandleTxRequest(sentLen: nat) returns (r: IfResult, sent: seq<byte>, reported: Option<(nat, int, IfResult)>)
      requires Valid()
      modifies this, txBuffer
      ensures Valid()
      ensures sent == old(txBuffer.Contents())
      ensures r == Success <==> old(txBuffer.size) > 0 && sentLen >= old(txBuffer.size)
      ensures r == Success || r == ErrSendFailed
      ensures reported == if old(txCallback).Some? then Some((old(txCallback).value, old(txCallbackCtx), r)) else None
      ensures txBuffer.size == 0 && txCallback.None?
      ensures isInitialized == old(isInitialized) && silenceTimeUs == old(silenceTimeUs)
    {
      sent := txBuffer.Contents();
      if txBuffer.size > 0 {
        if sentLen < txBuffer.size {
          r := ErrSendFailed;
        } else {
          r := Success;
        }
      } else {
        r := ErrSendFailed;
      }
      reported := if txCallback.Some? then Some((txCallback.value, txCallbackCtx, r)) else None;
      txCallback, txCallbackCtx := None, 0;
      txBuffer.Clear();
    }
  }

  /** The silence time for a non-zero baud rate is never 0. */
  lemma SilencePositive(baud: u32)
    requires baud > 0
    ensures SilenceUsForBaud(baud).value > 0
  {
    if baud <= FixedSilenceBaud {
      SilenceUsAntitone(baud, baud);
    }
  }

  /** An RTU frame that encodes has at least the address, the function code and the CRC. */
  lemma RtuEncodedNonEmpty(f: FrameValue)
    requires RtuEncode(f, RtuMaxFrameSize).status == ModbusCodec.Success
    ensures |RtuEncode(f, RtuMaxFrameSize).bytes| > 0
  {
  }
}
