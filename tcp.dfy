/**
 * The TCP interface (`ModbusInterface::TCP`): the client's transaction-ID
 * counter, the single current transaction that pairs a request with its
 * reply, the TX buffer a frame is encoded into before the RX/TX task sends
 * it, and the RX buffer the bytes of a socket are assembled in until the
 * MBAP header says a whole frame is there.
 *
 * The socket driver, the RTOS queues and the task are outside the model:
 * the driver's mode, what its reads deliver, whether a send went out and
 * on which socket, and whether a try-lock or a queue send succeeded are
 * inputs; the time-based transaction and assembly timeouts are left out,
 * except that the assembly loop ends when the reads run out.
 */
module ModbusTcp {
  import opened Wrappers
  import opened ModbusCore
  import opened ModbusFrame
  import ModbusCodec
  import opened ModbusBuffer
  import opened ModbusFraming
  import opened ModbusInterface

  /** `TransactionCtx`: whether a transaction is open, its socket and its transaction ID (the start time is left out). */
  datatype Transaction = Transaction(active: bool, socketNum: int, tid: u16)

  /** `TransactionCtx::clear()`. */
  const NoTransaction := Transaction(false, -1, 0)

  /** `TxCtx`: the metadata of the frame waiting in the TX buffer, with the result callback and its context. */
  datatype TxCtx = TxCtx(tid: u16, destSock: int, isBroadcast: bool, callback: Option<nat>, ctx: int)

  /** `TxCtx::clear()`. */
  const NoTxCtx := TxCtx(0, -1, false, None, 0)

  /**
   * `getNextOutgoingTransactionId()`: the stored ID plus one, 0xFFFF
   * wrapping around so that the next is 1. A generated ID is never 0.
   */
  function NextTid(tid: u16): (n: u16)
    ensures n != 0
    ensures n as int == tid as int % 0xFFFF + 1
  {
    if tid == 0xFFFF then 1 else tid + 1
  }

  /** Distinct non-zero IDs have distinct successors: the generator runs through 1..0xFFFF as a cycle. */
  lemma NextTidInjective(a: u16, b: u16)
    requires a != 0 && b != 0 && NextTid(a) == NextTid(b)
    ensures a == b
  {
  }

  /** `endTransaction()`: an open transaction is cleared (its ID back to 0); a closed one is left as it is. */
  function Ended(t: Transaction): (e: Transaction)
    ensures !e.active
    ensures t.active ==> e.tid == 0 && e.socketNum == -1
    ensures !t.active ==> e == t
  {
    if t.active then NoTransaction else t
  }

  /** After an exchange the counter restarts: the client's next transaction ID is 1. */
  lemma NextAfterEnd(t: Transaction)
    requires t.active
    ensures NextTid(Ended(t).tid) == 1
  {
  }

  /** What a decoded frame does: the result, whether the callbacks see it, the next transaction, the busy reply. */
  datatype Reception = Reception(result: IfResult, notify: bool, next: Transaction, busyReply: Option<seq<byte>>)

  /**
   * `handleDecodedFrame(frame, socketNum, tid)` as a function of the role
   * and the current transaction. A client delivers a response only inside
   * a transaction opened on that socket with that ID, and ends it. A server
   * opens a transaction per request (`locked` is whether the transaction
   * try-lock was taken); while one is open, a new request is not delivered
   * and, unless broadcast, gets the 9-byte SLAVE_DEVICE_BUSY exception. A
   * broadcast request ends its transaction once delivered.
   */
  function Receive(role: Role, cur: Transaction, f: FrameValue, sock: int, tid: u16, locked: bool): (o: Reception)
    ensures o.notify <==> o.result == Success
    ensures o.busyReply.Some? ==> role == Server && o.result == ErrBusy
  {
    match role
    case Client =>
      if cur.active && cur.socketNum == sock && cur.tid == tid
      then Reception(Success, true, Ended(cur), None)
      else Reception(ErrRxFailed, false, cur, None)
    case Server =>
      if !locked || cur.active then
        var reply := if f.msgType == Request && !IsBroadcastId(f.slaveId)
                     then TcpBuildException(tid, f.slaveId, f.fc, SlaveDeviceBusy, TcpExceptionFrameSize)
                     else None;
        Reception(ErrBusy, false, cur, reply)
      else
        var started := Transaction(true, sock, tid);
        if IsBroadcastId(f.slaveId) && f.msgType == Request
        then Reception(Success, true, Ended(started), None)
        else Reception(Success, true, started, None)
  }

  /** A client delivers exactly the replies matching the open transaction on socket and ID, and delivery ends it. */
  lemma ClientDeliversMatching(cur: Transaction, f: FrameValue, sock: int, tid: u16, locked: bool)
    ensures var o := Receive(Client, cur, f, sock, tid, locked);
      (o.notify <==> cur.active && cur.socketNum == sock && cur.tid == tid) &&
      (o.notify ==> o.next == NoTransaction) &&
      (!o.notify ==> o.result == ErrRxFailed && o.next == cur)
  {
  }

  /**
   * A server with an open transaction does not deliver a new request; a
   * unicast one is answered with SLAVE_DEVICE_BUSY under the same
   * transaction ID and unit ID, and the reply decodes as that exception.
   */
  lemma ServerBusyReply(cur: Transaction, f: FrameValue, sock: int, tid: u16, locked: bool)
    requires cur.active && f.msgType == Request && !IsBroadcastId(f.slaveId) && IsSupportedFunctionCode(f.fc)
    ensures var o := Receive(Server, cur, f, sock, tid, locked);
      !o.notify && o.result == ErrBusy && o.next == cur && o.busyReply.Some? &&
      var reply := o.busyReply.value;
      |reply| == TcpExceptionFrameSize && TransactionId(reply) == tid && reply[6] == f.slaveId &&
      var d := TcpDecode(reply, EmptyFrame, Response);
      d.status == ModbusCodec.Success && d.frame.fc == f.fc && d.frame.exceptionCode == SlaveDeviceBusy &&
      d.frame.slaveId == f.slaveId
  {
    var reply := MbapBytes(tid, 3, f.slaveId) + [ModbusCodec.WithExceptionBit(f.fc), SlaveDeviceBusy];
    MbapReadBack(tid, 3, f.slaveId);
    TcpExceptionDecodes(tid, f.slaveId, f.fc, SlaveDeviceBusy, EmptyFrame);
  }

  /**
   * A free server delivers the request and keeps the transaction open on
   * its socket and ID for the reply, except for a broadcast request, which
   * gets no reply and leaves no transaction open.
   */
  lemma ServerOpensTransaction(f: FrameValue, sock: int, tid: u16)
    ensures var o := Receive(Server, NoTransaction, f, sock, tid, true);
      o.notify && o.result == Success &&
      (IsBroadcastId(f.slaveId) && f.msgType == Request ==> !o.next.active) &&
      (!(IsBroadcastId(f.slaveId) && f.msgType == Request) ==> o.next == Transaction(true, sock, tid))
  {
  }

  // ---------------------------------------------------------------------------
  // Assembling a frame from a socket
  // ---------------------------------------------------------------------------

  /** What one read of the socket gives: an error (or a closed socket), or the bytes it delivered. */
  datatype SocketRead = ReadError | ReadBytes(got: seq<byte>)

  /** The result of `fetchSocketData`, the RX buffer it leaves and the transaction ID it read. */
  datatype Fetched = Fetched(result: IfResult, buf: seq<byte>, tid: u16)

  /** The total length the MBAP header of a buffer with at least 7 bytes announces. */
  function AnnouncedLength(s: seq<byte>): (n: nat)
    requires |s| >= MbapSize
    ensures n >= MbapSize - 1
  {
    MbapSize - 1 + ModbusCodec.Word(s[4], s[5])
  }

  /**
   * `fetchSocketData` as it was evidently meant to work, from buffered
   * bytes `s` and the reads still to come (the assembly timeout strikes
   * when they run out): a full buffer is flushed with an error; a read
   * error fails keeping the buffer; a first read with nothing in it means
   * the event's data was already consumed; once the 7-byte header is in,
   * the frame is complete at 6 + the MBAP length bytes, and the buffer is
   * cut to exactly that and its transaction ID read; an incomplete frame
   * waits for the next read. A timeout drops what was buffered.
   */
  function Assemble(s: seq<byte>, cap: nat, pending: seq<SocketRead>, first: bool): (r: Fetched)
    requires |s| <= cap
    ensures r.result == Success || r.result == NoData || r.result == ErrRxFailed
    ensures r.result == Success ==>
      MbapSize - 1 <= |r.buf| <= cap && |r.buf| == MbapSize - 1 + ModbusCodec.Word(r.buf[4], r.buf[5]) &&
      r.tid == TransactionId(r.buf)
    decreases |pending|
  {
    if |pending| == 0 then
      if |s| > 0 then Fetched(ErrRxFailed, [], 0) else Fetched(NoData, [], 0)
    else if |s| == cap then Fetched(ErrRxFailed, [], 0)
    else match pending[0]
      case ReadError => Fetched(ErrRxFailed, s, 0)
      case ReadBytes(got) =>
        var chunk := Truncate(got, cap - |s|);
        var t := s + chunk;
        if |chunk| == 0 && first then Fetched(NoData, s, 0)
        else if |t| >= MbapSize && |t| >= AnnouncedLength(t) then
          var frame := t[..AnnouncedLength(t)];
          Fetched(Success, frame, TransactionId(frame))
        else Assemble(t, cap, pending[1..], false)
  }

  /**
   * `fetchSocketData` as written: once the header is in but the frame is
   * not complete, the loop is left with `break`, which is the timeout
   * path, so the bytes are dropped with ERR_RX_FAILED instead of being
   * completed by the next read.
   */
  function AssembleAsWritten(s: seq<byte>, cap: nat, pending: seq<SocketRead>, first: bool): (r: Fetched)
    requires |s| <= cap
    ensures r.result == Success ==> r == Assemble(s, cap, pending, first)
    decreases |pending|
  {
    if |pending| == 0 then
      if |s| > 0 then Fetched(ErrRxFailed, [], 0) else Fetched(NoData, [], 0)
    else if |s| == cap then Fetched(ErrRxFailed, [], 0)
    else match pending[0]
      case ReadError => Fetched(ErrRxFailed, s, 0)
      case ReadBytes(got) =>
        var chunk := Truncate(got, cap - |s|);
        var t := s + chunk;
        if |chunk| == 0 && first then Fetched(NoData, s, 0)
        else if |t| >= MbapSize then
          if |t| < AnnouncedLength(t) then Fetched(ErrRxFailed, [], 0)
          else
            var frame := t[..AnnouncedLength(t)];
            Fetched(Success, frame, TransactionId(frame))
        else AssembleAsWritten(t, cap, pending[1..], false)
  }

  /** The reads delivering the given chunks, one each. */
  function ChunkReads(chunks: seq<seq<byte>>): (r: seq<SocketRead>)
    ensures |r| == |chunks| && forall k :: 0 <= k < |r| ==> r[k] == ReadBytes(chunks[k])
  {
    if |chunks| == 0 then [] else [ReadBytes(chunks[0])] + ChunkReads(chunks[1..])
  }

  /** The chunks joined. */
  function Concat(chunks: seq<seq<byte>>): (r: seq<byte>)
  {
    if |chunks| == 0 then [] else chunks[0] + Concat(chunks[1..])
  }

  /** A byte sequence is one whole TCP frame as far as the MBAP length field tells. */
  predicate WholeFrame(frame: seq<byte>, cap: nat)
  {
    MbapSize <= |frame| <= cap && |frame| == AnnouncedLength(frame)
  }

  /**
   * However a whole frame is split over non-empty pending, the assembly
   * returns exactly that frame and its transaction ID.
   */
  lemma {:induction false} AssembleSplit(s: seq<byte>, cap: nat, chunks: seq<seq<byte>>, frame: seq<byte>, first: bool)
    requires WholeFrame(frame, cap) && s + Concat(chunks) == frame
    requires |chunks| > 0 && forall k :: 0 <= k < |chunks| ==> |chunks[k]| > 0
    ensures Assemble(s, cap, ChunkReads(chunks), first) == Fetched(Success, frame, TransactionId(frame))
    decreases |chunks|
  {
    var pending := ChunkReads(chunks);
    var c := chunks[0];
    assert frame == s + c + Concat(chunks[1..]);
    assert |s| < |frame|;
    assert Truncate(c, cap - |s|) == c;
    var t := s + c;
    assert t == frame[..|t|];
    if |t| >= MbapSize {
      assert t[4] == frame[4] && t[5] == frame[5];
    }
    if |chunks| == 1 {
      assert Concat(chunks[1..]) == [];
      assert t == frame;
    } else {
      assert |t| < |frame| by {
        assert |Concat(chunks[1..])| > 0 by {
          assert chunks[1..][0] == chunks[1];
        }
      }
      assert pending[1..] == ChunkReads(chunks[1..]);
      forall k | 0 <= k < |chunks[1..]|
        ensures |chunks[1..][k]| > 0
      {
        assert chunks[1..][k] == chunks[k + 1];
      }
      AssembleSplit(t, cap, chunks[1..], frame, false);
    }
  }

  /** A 12-byte frame (a read of one coil from unit 1, transaction ID 1). */
  const SampleFrame: seq<byte> := [0, 1, 0, 0, 0, 6, 1, 1, 0, 0, 0, 1]

  /**
   * The frame arriving as its header plus one byte, then the rest: the
   * code as written drops it with ERR_RX_FAILED, the intended assembly
   * returns it.
   */
  lemma SplitFrameDroppedAsWritten()
    ensures var pending := [ReadBytes(SampleFrame[..7]), ReadBytes(SampleFrame[7..])];
      AssembleAsWritten([], TcpMaxFrameSize, pending, true).result == ErrRxFailed &&
      Assemble([], TcpMaxFrameSize, pending, true) == Fetched(Success, SampleFrame, 1)
  {
    var pending := [ReadBytes(SampleFrame[..7]), ReadBytes(SampleFrame[7..])];
    var head := SampleFrame[..7];
    assert Truncate(head, TcpMaxFrameSize) == head;
    assert [] + head == head;
    assert AnnouncedLength(head) == 12;
    assert AssembleAsWritten([], TcpMaxFrameSize, pending, true) == Fetched(ErrRxFailed, [], 0);
    var chunks: seq<seq<byte>> := [SampleFrame[..7], SampleFrame[7..]];
    assert |chunks[1..][1..]| == 0;
    assert Concat(chunks[1..]) == SampleFrame[7..] + Concat([]);
    assert SampleFrame == [] + Concat(chunks);
    assert ChunkReads([SampleFrame[..7], SampleFrame[7..]]) == pending;
    AssembleSplit([], TcpMaxFrameSize, [SampleFrame[..7], SampleFrame[7..]], SampleFrame, true);
  }

  /** The driver's mode: not set up, connecting to a server, or listening for clients. */
  datatype HalMode = Uninit | ClientMode | ServerMode

  /** The interface state. */
  class Tcp {
    const iface: Interface
    var isInitialized: bool
    /** `_currentTransaction`. */
    var current: Transaction
    /** `_txCtx`. */
    var txCtx: TxCtx
    const rxBuffer: ByteBuffer
    const txBuffer: ByteBuffer

    ghost predicate Valid()
      reads this, iface, iface.slots, rxBuffer, txBuffer
    {
      && iface.Valid()
      && rxBuffer.Valid() && txBuffer.Valid()
      && rxBuffer.attached && txBuffer.attached
      && rxBuffer.cap == TcpMaxFrameSize && txBuffer.cap == TcpMaxFrameSize
      && rxBuffer != txBuffer && rxBuffer.bytes != txBuffer.bytes
    }

    /** `TCP(hal, role)`: a server catches every unit ID. */
    constructor (role: Role)
      ensures Valid() && iface.role == role && !isInitialized
      ensures iface.catchAllSlaveIds <==> role == Server
      ensures current == NoTransaction && txCtx == NoTxCtx && rxBuffer.size == 0 && txBuffer.size == 0
      ensures fresh(iface) && fresh(iface.slots) && fresh(rxBuffer) && fresh(txBuffer)
      ensures fresh(rxBuffer.bytes) && fresh(txBuffer.bytes)
    {
      iface := new Interface(role);
      rxBuffer := new ByteBuffer(TcpMaxFrameSize);
      txBuffer := new ByteBuffer(TcpMaxFrameSize);
      isInitialized := false;
      current, txCtx := NoTransaction, NoTxCtx;
      new;
      if role == Server {
        iface.catchAllSlaveIds := true;
      }
    }

    /**
     * `begin()`: idempotent once running; the driver must be set up in the
     * mode of the role (a server's must be listening), and the RTOS
     * objects and the task must be created (`rtosOk`); the buffers start
     * empty.
     */
    method Begin(mode: HalMode, serverRunning: bool, rtosOk: bool) returns (r: IfResult)
      requires Valid()
      modifies this, rxBuffer, txBuffer
      ensures Valid()
      ensures old(isInitialized) ==> r == Success
      ensures !old(isInitialized) ==>
        r == (if mode == Uninit then ErrInitFailed
              else if mode != (if iface.role == Client then ClientMode else ServerMode) then ErrInvalidRole
              else if iface.role == Server && !serverRunning then ErrInitFailed
              else if !rtosOk then ErrInitFailed
              else Success)
      ensures r == Success <==> isInitialized
      ensures r == Success && !old(isInitialized) ==> rxBuffer.size == 0 && txBuffer.size == 0
      ensures current == old(current) && txCtx == old(txCtx)
    {
      if isInitialized {
        return Success;
      }
      if mode == Uninit {
        return ErrInitFailed;
      }
      if iface.role == Client {
        if mode != ClientMode {
          return ErrInvalidRole;
        }
      } else {
        if mode != ServerMode {
          return ErrInvalidRole;
        }
        if !serverRunning {
          return ErrInitFailed;
        }
      }
      if !rtosOk {
        return ErrInitFailed;
      }
      rxBuffer.Clear();
      txBuffer.Clear();
      isInitialized := true;
      return Success;
    }

    /** `getNextOutgoingTransactionId()`: the counter lives in the current transaction's ID. */
    method NextOutgoingTransactionId() returns (tid: u16)
      modifies this
      ensures tid == NextTid(old(current).tid) && tid != 0
      ensures current == old(current).(tid := tid)
      ensures txCtx == old(txCtx) && isInitialized == old(isInitialized)
    {
      if current.tid == 0xFFFF {
        current := current.(tid := 0);
      }
      current := current.(tid := current.tid + 1);
      tid := current.tid;
    }

    /** `beginTransaction(socketNum, tid)`: refused when the try-lock fails or a transaction is already open. */
    method BeginTransaction(sock: int, tid: u16, locked: bool) returns (ok: bool)
      modifies this
      ensures ok <==> locked && !old(current).active
      ensures ok ==> current == Transaction(true, sock, tid)
      ensures !ok ==> current == old(current)
      ensures txCtx == old(txCtx) && isInitialized == old(isInitialized)
    {
      if !locked || current.active {
        return false;
      }
      current := Transaction(true, sock, tid);
      return true;
    }

    /** `endTransaction()`: the lock is waited for, so it always takes effect. */
    method EndTransaction()
      modifies this
      ensures current == Ended(old(current))
      ensures txCtx == old(txCtx) && isInitialized == old(isInitialized)
    {
      if current.active {
        current := NoTransaction;
      }
    }

    /** `abortCurrentTransaction()`: a client's timeout ends the transaction when the try-lock is taken. */
    method AbortCurrentTransaction(locked: bool)
      modifies this
      ensures current == if locked then Ended(old(current)) else old(current)
      ensures txCtx == old(txCtx) && isInitialized == old(isInitialized)
    {
      if locked && current.active {
        EndTransaction();
      }
    }

    /**
     * `isReady()`: running, the TX lock free, no frame waiting, no open
     * transaction on the client side (a server still answers), and the
     * driver ready.
     */
    method IsReady(locked: bool, halReady: bool) returns (ready: bool)
      requires Valid()
      ensures ready <==> isInitialized && locked && txBuffer.size == 0 &&
                         !(iface.role == Client && current.active) && halReady
    {
      if !isInitialized {
        return false;
      }
      if !locked || txBuffer.size > 0 {
        return false;
      }
      if iface.role == Client && current.active {
        return false;
      }
      return halReady;
    }

    /**
     * `sendFrame(frame, txCallback, ctx)`: refused before begin, while the
     * TX lock is taken or a frame waits, and on a server outside a
     * transaction. A client takes a fresh transaction ID, a server reuses
     * the request's; the frame is encoded into the TX buffer (emptied again
     * on failure), the metadata stored, and the RX/TX task signalled
     * (`queued`); a full queue undoes both. A refusal is reported to the
     * callback too, returned here as `reported`.
     */
    method SendFrame(f: FrameValue, cb: Option<nat>, ctx: int, locked: bool, queued: bool)
      returns (r: IfResult, reported: Option<IfResult>)
      requires Valid()
      modifies this, txBuffer, txBuffer.bytes
      ensures Valid()
      ensures reported == (if cb.Some? && r != Success then Some(r) else None)
      ensures !old(isInitialized) ==> r == ErrNotInitialized && txBuffer.size == old(txBuffer.size) && current == old(current)
      ensures old(isInitialized) && (!locked || old(txBuffer.size) != 0) ==>
        r == ErrBusy && txBuffer.size == old(txBuffer.size) && current == old(current) && txCtx == old(txCtx)
      ensures old(isInitialized) && locked && old(txBuffer.size) == 0 && iface.role == Server &&
              (!old(current).active || old(current).socketNum == -1) ==>
        r == ErrSendFailed && txBuffer.size == 0 && current == old(current) && txCtx == old(txCtx)
      ensures old(isInitialized) && locked && old(txBuffer.size) == 0 &&
              (iface.role == Client || (old(current).active && old(current).socketNum != -1)) ==>
        var tid := if iface.role == Client then NextTid(old(current).tid) else old(current).tid;
        current == old(current).(tid := tid) &&
        var e := TcpEncode(f, tid, TcpMaxFrameSize);
        if e.status != ModbusCodec.Success then r == ErrInvalidFrame && txBuffer.size == 0 && txCtx == old(txCtx)
        else if !queued then r == ErrBusy && txBuffer.size == 0 && txCtx == NoTxCtx
        else (r == Success && txBuffer.Contents() == e.bytes &&
              txCtx == TxCtx(tid, if iface.role == Server then old(current).socketNum else -1, IsBroadcastId(f.slaveId), cb, ctx))
      ensures r == Success ==> txBuffer.size > 0
      ensures isInitialized == old(isInitialized)
    {
      if !isInitialized {
        r := ErrNotInitialized;
        reported := if cb.Some? then Some(r) else None;
        return;
      }
      if !locked || txBuffer.size != 0 {
        r := ErrBusy;
        reported := if cb.Some? then Some(r) else None;
        return;
      }
      if iface.role == Server && (!current.active || current.socketNum == -1) {
        r := ErrSendFailed;
        reported := if cb.Some? then Some(r) else None;
        return;
      }
      var tid;
      if iface.role == Client {
        tid := NextOutgoingTransactionId();
      } else {
        tid := current.tid;
      }
      r := StageFrame(f, tid, if iface.role == Server then current.socketNum else -1, cb, ctx, queued);
      reported := if cb.Some? && r != Success then Some(r) else None;
    }

    /**
     * The accepted part of `sendFrame`, once the transaction ID and the
     * destination socket are chosen: the frame is encoded, the metadata
     * stored and the task signalled.
     */
    method StageFrame(f: FrameValue, tid: u16, dest: int, cb: Option<nat>, ctx: int, queued: bool) returns (r: IfResult)
      requires Valid() && txBuffer.size == 0
      modifies this, txBuffer, txBuffer.bytes
      ensures Valid()
      ensures var e := TcpEncode(f, tid, TcpMaxFrameSize);
        if e.status != ModbusCodec.Success then r == ErrInvalidFrame && txBuffer.size == 0 && txCtx == old(txCtx)
        else if !queued then r == ErrBusy && txBuffer.size == 0 && txCtx == NoTxCtx
        else (r == Success && txBuffer.Contents() == e.bytes && txCtx == TxCtx(tid, dest, IsBroadcastId(f.slaveId), cb, ctx))
      ensures r == Success ==> txBuffer.size > 0
      ensures isInitialized == old(isInitialized) && current == old(current)
    {
      var ok := EncodeForTx(f, tid);
      if !ok {
        return ErrInvalidFrame;
      }
      txCtx := TxCtx(tid, dest, IsBroadcastId(f.slaveId), cb, ctx);
      if !queued {
        txBuffer.Clear();
        txCtx := NoTxCtx;
        return ErrBusy;
      }
      return Success;
    }

    /** The encoding step of `sendFrame`: a frame that does not encode leaves the TX buffer empty. */
    method EncodeForTx(f: FrameValue, tid: u16) returns (ok: bool)
      requires Valid()
      modifies txBuffer, txBuffer.bytes
      ensures Valid()
      ensures ok <==> TcpEncode(f, tid, TcpMaxFrameSize).status == ModbusCodec.Success
      ensures ok ==> txBuffer.Contents() == TcpEncode(f, tid, TcpMaxFrameSize).bytes && txBuffer.size > 0
      ensures !ok ==> txBuffer.size == 0
    {
      var st := TcpEncodeTo(f, tid, txBuffer);
      if st != ModbusCodec.Success {
        txBuffer.Clear();
        return false;
      }
      return true;
    }

    /**
     * `handleTxRequest()`: the waiting frame is handed to the driver, and
     * the TX buffer and metadata are cleared whatever happens. An empty
     * buffer or a failed send is ERR_SEND_FAILED, and a failed server send
     * ends the transaction. After a client's unicast send the transaction
     * opens on the socket the driver used (`actualSock`, -1 for none) with
     * the frame's ID; server replies and broadcasts end it. The result goes
     * to the stored callback, returned here as `reported`.
     */
    method HandleTxRequest(sendOk: bool, actualSock: int, trLocked: bool)
      returns (r: IfResult, sent: seq<byte>, reported: Option<(nat, int, IfResult)>)
      requires Valid()
      modifies this, txBuffer
      ensures Valid()
      ensures sent == old(txBuffer.Contents())
      ensures txBuffer.size == 0 && txCtx == NoTxCtx
      ensures reported == if old(txCtx).callback.Some? then Some((old(txCtx).callback.value, old(txCtx).ctx, r)) else None
      ensures old(txBuffer.size) == 0 ==> r == ErrSendFailed && current == old(current)
      ensures old(txBuffer.size) > 0 && !sendOk ==>
        r == ErrSendFailed && current == (if iface.role == Server then Ended(old(current)) else old(current))
      ensures old(txBuffer.size) > 0 && sendOk && iface.role == Client && !old(txCtx).isBroadcast ==>
        if actualSock == -1 then r == ErrSendFailed && current == old(current)
        else if !trLocked || old(current).active then r == ErrBusy && current == old(current)
        else r == Success && current == Transaction(true, actualSock, old(txCtx).tid)
      ensures old(txBuffer.size) > 0 && sendOk && (iface.role == Server || old(txCtx).isBroadcast) ==>
        r == Success && current == Ended(old(current))
      ensures isInitialized == old(isInitialized)
    {
      var meta := txCtx;
      sent := txBuffer.Contents();
      var len := txBuffer.size;
      txBuffer.Clear();
      txCtx := NoTxCtx;
      if len == 0 {
        r := ErrSendFailed;
      } else if !sendOk {
        if iface.role == Server {
          EndTransaction();
        }
        r := ErrSendFailed;
      } else if iface.role == Client && !meta.isBroadcast {
        if actualSock == -1 {
          r := ErrSendFailed;
        } else {
          var begun := BeginTransaction(actualSock, meta.tid, trLocked);
          r := if begun then Success else ErrBusy;
        }
      } else {
        EndTransaction();
        r := Success;
      }
      reported := if meta.callback.Some? then Some((meta.callback.value, meta.ctx, r)) else None;
    }

    /** `handleDecodedFrame(frame, socketNum, tid)`, with the busy reply handed to the driver returned as `busyReply`. */
    method HandleDecodedFrame(f: FrameValue, sock: int, tid: u16, trLocked: bool)
      returns (r: IfResult, calls: seq<RcvCallback>, busyReply: Option<seq<byte>>)
      requires Valid()
      modifies this
      ensures Valid()
      ensures var o := Receive(iface.role, old(current), f, sock, tid, trLocked);
        r == o.result && current == o.next && busyReply == o.busyReply &&
        calls == (if o.notify then Registered(iface.slots[..]) else [])
      ensures txCtx == old(txCtx) && isInitialized == old(isInitialized)
    {
      calls, busyReply := [], None;
      if iface.role == Client {
        if current.active && current.socketNum == sock && current.tid == tid {
          var notified;
          notified, calls := iface.NotifyCallbacks();
          EndTransaction();
          return Success, calls, None;
        }
        return ErrRxFailed, [], None;
      }
      var begun := BeginTransaction(sock, tid, trLocked);
      if !begun {
        if f.msgType == Request && !IsBroadcastId(f.slaveId) {
          var respBuf := new ByteBuffer(TcpExceptionFrameSize);
          var built := TcpBuildExceptionTo(tid, f.slaveId, f.fc, SlaveDeviceBusy, respBuf);
          if built {
            busyReply := Some(respBuf.Contents());
          }
        }
        return ErrBusy, [], busyReply;
      }
      var notified;
      notified, calls := iface.NotifyCallbacks();
      if IsBroadcastId(f.slaveId) && f.msgType == Request {
        EndTransaction();
      }
      r := Success;
    }

    /**
     * `processReceivedFrame(bytes, socketNum)`: an empty buffer or one that
     * does not decode (as a response on the client side, a request on the
     * server side) is ERR_INVALID_FRAME; otherwise the frame is handled with
     * the transaction ID from its first two bytes.
     */
    method ProcessReceivedFrame(bytes: seq<byte>, sock: int, trLocked: bool)
      returns (r: IfResult, delivered: Option<FrameValue>, calls: seq<RcvCallback>, busyReply: Option<seq<byte>>)
      requires Valid()
      modifies this
      ensures Valid()
      ensures |bytes| == 0 ==> r == ErrInvalidFrame && delivered.None? && calls == [] && current == old(current)
      ensures |bytes| > 0 ==>
        var d := TcpDecode(bytes, EmptyFrame, ReceivedType(iface.role));
        if d.status != ModbusCodec.Success then
          r == ErrInvalidFrame && delivered.None? && calls == [] && busyReply.None? && current == old(current)
        else
          var o := Receive(iface.role, old(current), d.frame, sock, TransactionId(bytes), trLocked);
          r == o.result && current == o.next && busyReply == o.busyReply &&
          delivered == (if o.notify then Some(d.frame) else None) &&
          calls == (if o.notify then Registered(iface.slots[..]) else [])
      ensures txCtx == old(txCtx) && isInitialized == old(isInitialized)
    {
      if |bytes| == 0 {
        return ErrInvalidFrame, None, [], None;
      }
      var received := new Frame();
      var st := TcpDecodeInto(bytes, received, ReceivedType(iface.role));
      if st != ModbusCodec.Success {
        return ErrInvalidFrame, None, [], None;
      }
      var v := received.Value();
      var tid := ModbusCodec.Word(bytes[0], bytes[1]);
      r, calls, busyReply := HandleDecodedFrame(v, sock, tid, trLocked);
      delivered := if r == Success then Some(v) else None;
    }

    /**
     * `fetchSocketData(socketNum, rcvBuf, rcvTid)` into the RX buffer, with
     * the frame completed across reads as intended (see `Assemble`). The
     * buffer's capacity is the largest TCP frame, so the size check that
     * opens the source never fails.
     */
    method FetchSocketData(pending: seq<SocketRead>) returns (r: IfResult, tid: u16)
      requires Valid()
      modifies rxBuffer, rxBuffer.bytes
      ensures Valid()
      ensures var o := Assemble([], TcpMaxFrameSize, pending, true);
        r == o.result && rxBuffer.Contents() == o.buf && tid == o.tid
    {
      rxBuffer.Clear();
      ghost var goal := Assemble([], TcpMaxFrameSize, pending, true);
      var first := true;
      var i := 0;
      while i < |pending|
        invariant Valid() && 0 <= i <= |pending|
        invariant first <==> i == 0
        invariant Assemble(rxBuffer.Contents(), TcpMaxFrameSize, pending[i..], first) == goal
        decreases |pending| - i
      {
        assert pending[i..] == [pending[i]] + pending[i + 1..];
        var done;
        done, r, tid := AssembleStep(pending[i], first, pending[i + 1..]);
        if done {
          return;
        }
        first := false;
        i := i + 1;
      }
      if rxBuffer.size > 0 {
        rxBuffer.Clear();
        return ErrRxFailed, 0;
      }
      return NoData, 0;
    }

    /**
     * One pass of the assembly loop: one read of the socket, then the check
     * for a whole frame. `done` is whether the loop returns here.
     */
    method AssembleStep(read: SocketRead, first: bool, ghost rest: seq<SocketRead>) returns (done: bool, r: IfResult, tid: u16)
      requires Valid()
      modifies rxBuffer, rxBuffer.bytes
      ensures Valid()
      ensures var g := Assemble(old(rxBuffer.Contents()), TcpMaxFrameSize, [read] + rest, first);
        if done then r == g.result && rxBuffer.Contents() == g.buf && tid == g.tid
        else Assemble(rxBuffer.Contents(), TcpMaxFrameSize, rest, false) == g
    {
      assert ([read] + rest)[1..] == rest;
      if rxBuffer.FreeSpace() == 0 {
        rxBuffer.Clear();
        return true, ErrRxFailed, 0;
      }
      var toRead := rxBuffer.FreeSpace();
      var currentSize := rxBuffer.size;
      ghost var s := rxBuffer.Contents();
      var _ := rxBuffer.Resize(currentSize + toRead);
      assert rxBuffer.Contents()[..currentSize] == s;
      match read
      case ReadError =>
        var _ := rxBuffer.Trim(currentSize);
        return true, ErrRxFailed, 0;
      case ReadBytes(got) =>
        var chunk := Truncate(got, toRead);
        ReadSocketInto(currentSize, toRead, chunk);
        if |chunk| == 0 && first {
          return true, NoData, 0;
        }
        done, r, tid := CompleteFrame();
    }

    /** The end of a pass: once the header is in and the frame it announces is whole, the buffer is cut to it. */
    method CompleteFrame() returns (done: bool, r: IfResult, tid: u16)
      requires Valid()
      modifies rxBuffer
      ensures Valid()
      ensures var t := old(rxBuffer.Contents());
        done <==> |t| >= MbapSize && |t| >= AnnouncedLength(t)
      ensures done ==> var t := old(rxBuffer.Contents()); var frame := t[..AnnouncedLength(t)];
        r == Success && rxBuffer.Contents() == frame && tid == TransactionId(frame)
      ensures !done ==> rxBuffer.Contents() == old(rxBuffer.Contents())
    {
      done, r, tid := false, Success, 0;
      if rxBuffer.size >= MbapSize {
        var frameLen := MbapSize - 1 + ModbusCodec.Word(rxBuffer.bytes[4], rxBuffer.bytes[5]);
        if rxBuffer.size >= frameLen {
          var _ := rxBuffer.Trim(frameLen);
          return true, Success, ModbusCodec.Word(rxBuffer.bytes[0], rxBuffer.bytes[1]);
        }
      }
    }

    /**
     * The driver's read into the room `resize` made: the bytes land after
     * the old contents and the size is trimmed to them, back to the old
     * size when the read delivered nothing.
     */
    method ReadSocketInto(currentSize: nat, toRead: nat, chunk: seq<byte>)
      requires Valid() && |chunk| <= toRead
      requires rxBuffer.size == currentSize + toRead
      modifies rxBuffer, rxBuffer.bytes
      ensures Valid()
      ensures rxBuffer.Contents() == old(rxBuffer.Contents())[..currentSize] + chunk
    {
      ghost var s := rxBuffer.Contents();
      var _ := rxBuffer.WriteAllAt(currentSize, chunk);
      assert rxBuffer.Contents()[..currentSize + |chunk|] == s[..currentSize] + chunk;
      var _ := rxBuffer.Trim(currentSize + |chunk|);
    }

    /**
     * The RX path of the RX/TX task: a socket event is assembled into a
     * frame and, when that succeeds, the frame is processed; the RX buffer
     * is emptied after processing.
     */
    method HandleRxEvent(sock: int, pending: seq<SocketRead>, trLocked: bool)
      returns (r: IfResult, delivered: Option<FrameValue>, calls: seq<RcvCallback>, busyReply: Option<seq<byte>>)
      requires Valid()
      modifies this, rxBuffer, rxBuffer.bytes
      ensures Valid()
      ensures var o := Assemble([], TcpMaxFrameSize, pending, true);
        (o.result != Success ==> r == o.result && delivered.None? && current == old(current)) &&
        (o.result == Success ==>
          (rxBuffer.size == 0 &&
           (delivered.Some? ==> TcpDecode(o.buf, EmptyFrame, ReceivedType(iface.role)) ==
                                ModbusCodec.Decoded(ModbusCodec.Success, delivered.value))))
      ensures delivered.None? ==> calls == []
    {
      var tid;
      r, tid := FetchSocketData(pending);
      delivered, calls, busyReply := None, [], None;
      if r == Success {
        var bytes := rxBuffer.Contents();
        r, delivered, calls, busyReply := ProcessReceivedFrame(bytes, sock, trLocked);
        rxBuffer.Clear();
      }
    }
  }
}
