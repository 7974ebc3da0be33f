/**
 * The Modbus client application (`Modbus::Client`): one pending request at a
 * time, request validation, response matching, completion by response, TX
 * failure, broadcast acknowledgement or timeout, and the read/write helpers.
 *
 * What the transport and the RTOS do is given to the model from outside:
 * whether the interface is ready, what `sendFrame` returned, and the order in
 * which TX results, replies and the request timer reach the client (a
 * `ClientEvent` sequence; a synchronous wait that runs out of events times
 * out). A user callback is an abstract number, and calling it is recorded as
 * an `Invocation`.
 */
module ModbusClient {
  import opened Wrappers
  import opened ModbusCore
  import opened ModbusFrame
  import ModbusCodec
  import I = ModbusInterface

  /** `Client::Result`. */
  datatype ClientResult =
    | Success
    | NoData
    | ErrInvalidFrame
    | ErrBusy
    | ErrTxFailed
    | ErrTimeout
    | ErrInvalidResponse
    | ErrExceptionResponse
    | ErrNotInitialized
    | ErrInitFailed

  /** The request metadata kept while a request is pending: a frame without its data field. */
  datatype FrameMeta = FrameMeta(msgType: MsgType, fc: byte, slaveId: byte, regAddress: u16, regCount: u16,
                                 exceptionCode: byte)

  function MetaOf(f: FrameValue): FrameMeta
  {
    FrameMeta(f.msgType, f.fc, f.slaveId, f.regAddress, f.regCount, f.exceptionCode)
  }

  /** Cleared metadata: the fields of a default frame. */
  const NoMeta: FrameMeta := FrameMeta(NullMsg, NullFC, 0, 0, 0, NullException)

  /** One call of a user callback: the callback, its context, the result and the response (None: nullptr). */
  datatype Invocation = Invocation(cb: nat, ctx: int, result: ClientResult, response: Option<FrameValue>)

  /** The identity of the receive callback the client registers on its interface. */
  const ResponseHandler: nat := 0

  /** The context the client registers with it. */
  const ClientContext: int := 0

  // ---------------------------------------------------------------------------
  // Request admission
  // ---------------------------------------------------------------------------

  /** Both `sendRequest` overloads admit only a REQUEST that passes `isValidFrame` with the standard slave-ID range. */
  predicate Admissible(request: FrameValue)
  {
    request.msgType == Request && ModbusCodec.IsValidFrame(request, false) == ModbusCodec.Success
  }

  /** A read sent to the broadcast address is refused before anything is sent. */
  lemma BroadcastReadRefused(request: FrameValue)
    requires IsBroadcastId(request.slaveId)
    requires request.fc in {ReadCoils, ReadDiscreteInputs, ReadHoldingRegisters, ReadInputRegisters}
    ensures !Admissible(request)
  {
    assert !ModbusCodec.IsValidSlaveId(request.slaveId, request.fc, request.msgType, false);
  }

  /** A register read of more than 125 registers, or a coil read of more than 2000 coils, is refused. */
  lemma OversizeReadRefused(request: FrameValue)
    requires (request.fc in {ReadHoldingRegisters, ReadInputRegisters} && request.regCount > MaxRegistersRead)
          || (request.fc in {ReadCoils, ReadDiscreteInputs} && request.regCount > MaxCoilsRead)
    ensures !Admissible(request)
  {
    assert !ModbusCodec.IsValidRegisterCount(request.regCount, request.fc);
  }

  /** An admitted request fits the data field: at most 125 registers or 2000 coils. */
  lemma AdmittedCountFits(request: FrameValue)
    requires Admissible(request)
    ensures request.fc in {ReadHoldingRegisters, ReadInputRegisters, WriteMultipleRegisters} ==>
      1 <= request.regCount <= FrameDataSize
    ensures request.fc in {ReadCoils, ReadDiscreteInputs, WriteMultipleCoils} ==>
      1 <= request.regCount <= FrameCoilCapacity
  {
    assert ModbusCodec.IsValidRegisterCount(request.regCount, request.fc);
  }

  // ---------------------------------------------------------------------------
  // Completion of a pending request
  // ---------------------------------------------------------------------------

  /** The result `setResponse` records: ERR_EXCEPTION_RESPONSE exactly for an exception reply. */
  function ResponseResult(f: FrameValue): (r: ClientResult)
    ensures r == Success || r == ErrExceptionResponse
    ensures r == ErrExceptionResponse <==> f.exceptionCode != NullException
  {
    if f.exceptionCode != NullException then ErrExceptionResponse else Success
  }

  /** The response checks of `handleResponse`, once a request is pending. */
  predicate Accepts(meta: FrameMeta, catchAll: bool, f: FrameValue)
  {
    !IsBroadcastId(meta.slaveId) && (catchAll || f.slaveId == meta.slaveId) &&
    f.msgType == Response && f.fc == meta.fc
  }

  /** An accepted response as delivered: its own fields, with the request's address and count. */
  function Delivered(f: FrameValue, meta: FrameMeta): FrameValue
  {
    f.(regAddress := meta.regAddress, regCount := meta.regCount)
  }

  /** The response synthesised for a broadcast once it is sent: no exception, no data. */
  function BroadcastAck(meta: FrameMeta): FrameValue
  {
    FrameValue(Response, meta.fc, meta.slaveId, meta.regAddress, meta.regCount, ZeroData, NullException)
  }

  /** What reaches the client while a request is pending. */
  datatype ClientEvent =
    | TxResult(res: I.IfResult)   // the interface reports the outcome of the send
    | Reply(frame: FrameValue)    // the interface hands over a received response
    | TimerExpired                // the request timer's period has elapsed

  /** How a request completes: the result, and the response handed to the user, if any. */
  datatype Outcome = Outcome(result: ClientResult, delivered: Option<FrameValue>)

  /** After one event a request is still waiting (with its timer armed or not), or done. */
  datatype Progress = Waiting(timerArmed: bool) | Done(outcome: Outcome)

  /**
   * The effect of one event on a pending request. A TX failure completes it
   * with ERR_TX_FAILED; a sent broadcast completes with the synthesised
   * response; an accepted reply completes it; a rejected reply leaves it
   * waiting with its timer as it was; an armed timer completes it with
   * ERR_TIMEOUT.
   */
  function Step(meta: FrameMeta, catchAll: bool, timerArmed: bool, ev: ClientEvent): Progress
  {
    match ev
    case TxResult(res) =>
      if res != I.Success then Done(Outcome(ErrTxFailed, None))
      else if IsBroadcastId(meta.slaveId) then Done(Outcome(Success, Some(BroadcastAck(meta))))
      else Waiting(timerArmed)
    case Reply(f) =>
      if Accepts(meta, catchAll, f) then
        Done(Outcome(ResponseResult(Delivered(f, meta)), Some(Delivered(f, meta))))
      else Waiting(timerArmed)
    case TimerExpired =>
      if timerArmed then Done(Outcome(ErrTimeout, None)) else Waiting(false)
  }

  /** `handleResponse` as written stops the request timer before its checks, so a rejected reply disarms it. */
  function StepAsWritten(meta: FrameMeta, catchAll: bool, timerArmed: bool, ev: ClientEvent): Progress
  {
    match ev
    case Reply(f) =>
      if Accepts(meta, catchAll, f) then Step(meta, catchAll, timerArmed, ev) else Waiting(false)
    case _ => Step(meta, catchAll, timerArmed, ev)
  }

  /** The outcome of the first event that completes the request, or None if none does. */
  function Settle(meta: FrameMeta, catchAll: bool, timerArmed: bool, events: seq<ClientEvent>): Option<Outcome>
    decreases |events|
  {
    if |events| == 0 then None
    else match Step(meta, catchAll, timerArmed, events[0])
      case Done(o) => Some(o)
      case Waiting(t) => Settle(meta, catchAll, t, events[1..])
  }

  /** Settle with the timer handling as written. */
  function SettleAsWritten(meta: FrameMeta, catchAll: bool, timerArmed: bool, events: seq<ClientEvent>): Option<Outcome>
    decreases |events|
  {
    if |events| == 0 then None
    else match StepAsWritten(meta, catchAll, timerArmed, events[0])
      case Done(o) => Some(o)
      case Waiting(t) => SettleAsWritten(meta, catchAll, t, events[1..])
  }

  /**
   * How a request completes: a response is handed over exactly for SUCCESS
   * and ERR_EXCEPTION_RESPONSE; it is a RESPONSE with the request's function
   * code, address and count, from the addressed slave unless catch-all is
   * on, and the result is ERR_EXCEPTION_RESPONSE exactly when it carries an
   * exception code.
   */
  lemma {:induction false} SettleDelivers(meta: FrameMeta, catchAll: bool, timerArmed: bool, events: seq<ClientEvent>)
    requires Settle(meta, catchAll, timerArmed, events).Some?
    ensures var o := Settle(meta, catchAll, timerArmed, events).value;
      o.result in {Success, ErrExceptionResponse, ErrTxFailed, ErrTimeout} &&
      (o.delivered.Some? <==> o.result in {Success, ErrExceptionResponse}) &&
      (o.delivered.Some? ==>
        var d := o.delivered.value;
        d.msgType == Response && d.fc == meta.fc && d.regAddress == meta.regAddress &&
        d.regCount == meta.regCount && (catchAll || d.slaveId == meta.slaveId) &&
        (o.result == ErrExceptionResponse <==> d.exceptionCode != NullException))
  {
    match Step(meta, catchAll, timerArmed, events[0])
    case Done(o) =>
    case Waiting(t) => SettleDelivers(meta, catchAll, t, events[1..]);
  }

  /** A broadcast never accepts a reply: it completes only by its TX result or its timer, never with an exception. */
  lemma {:induction false} SettleBroadcast(meta: FrameMeta, catchAll: bool, timerArmed: bool, events: seq<ClientEvent>)
    requires IsBroadcastId(meta.slaveId) && Settle(meta, catchAll, timerArmed, events).Some?
    ensures var o := Settle(meta, catchAll, timerArmed, events).value;
      o.result in {Success, ErrTxFailed, ErrTimeout} &&
      (o.delivered.Some? ==> o.delivered.value == BroadcastAck(meta))
  {
    match Step(meta, catchAll, timerArmed, events[0])
    case Done(o) =>
    case Waiting(t) => SettleBroadcast(meta, catchAll, t, events[1..]);
  }

  /** With its timer armed, a request completes no later than the first expiry of its timer. */
  lemma {:induction false} TimerBoundsWait(meta: FrameMeta, catchAll: bool, events: seq<ClientEvent>, k: nat)
    requires k < |events| && events[k] == TimerExpired
    ensures Settle(meta, catchAll, true, events).Some?
  {
    if k > 0 {
      match Step(meta, catchAll, true, events[0])
      case Done(o) =>
      case Waiting(t) =>
        assert t;
        TimerBoundsWait(meta, catchAll, events[1..], k - 1);
    }
  }

  /**
   * As written, a reply from the wrong slave disarms the timer and the
   * request then never completes: a later timer expiry is lost.
   */
  lemma TimeoutLostAsWritten(meta: FrameMeta, f: FrameValue)
    requires !IsBroadcastId(meta.slaveId) && f.slaveId != meta.slaveId
    ensures SettleAsWritten(meta, false, true, [Reply(f), TimerExpired]).None?
    ensures Settle(meta, false, true, [Reply(f), TimerExpired]) == Some(Outcome(ErrTimeout, None))
  {
    var evs := [Reply(f), TimerExpired];
    assert evs[1..] == [TimerExpired];
    assert evs[1..][1..] == [];
    assert !Accepts(meta, false, f);
    assert StepAsWritten(meta, false, true, evs[0]) == Waiting(false);
    assert StepAsWritten(meta, false, false, TimerExpired) == Waiting(false);
    assert SettleAsWritten(meta, false, false, [TimerExpired]) == SettleAsWritten(meta, false, false, []);
  }

  // ---------------------------------------------------------------------------
  // The pending request
  // ---------------------------------------------------------------------------

  /** A result tracker the user (or a synchronous call) reads the outcome from. */
  class ResultCell {
    var value: ClientResult

    constructor (v: ClientResult)
      ensures value == v
    {
      value := v;
    }
  }

  /** `Client::PendingRequest`: the one request in flight. */
  class PendingRequest {
    var active: bool
    var meta: FrameMeta
    var response: Option<Frame>
    var tracker: Option<ResultCell>
    var cb: Option<nat>
    var cbCtx: int
    var timerArmed: bool

    /** The objects a completion writes to: the response frame and the tracker. */
    ghost function Outputs(): set<object>
      reads this
    {
      (if response.Some? then {response.value, response.value.data} else {}) +
      (if tracker.Some? then {tracker.value} else {})
    }

    /** The state `clear`/`resetUnsafe` leave: inactive, no references, timer stopped. */
    ghost predicate Idle()
      reads this
    {
      !active && meta == NoMeta && response.None? && tracker.None? && cb.None? && cbCtx == 0 && !timerArmed
    }

    ghost predicate Valid()
      reads this, Outputs()
    {
      (response.Some? ==> response.value.Valid()) && (!active ==> Idle())
    }

    constructor ()
      ensures Valid() && Idle()
    {
      active, meta, response, tracker, cb, cbCtx, timerArmed := false, NoMeta, None, None, None, 0, false;
    }

    /** `set(request, response, tracker)`: refused while active; otherwise the request is pending with its timer started. */
    method SetWithResponse(request: FrameValue, resp: Frame, t: ResultCell) returns (ok: bool)
      requires Valid() && resp.Valid()
      modifies this
      ensures Valid()
      ensures ok == !old(active)
      ensures ok ==> active && timerArmed && meta == MetaOf(request) && response == Some(resp) &&
                     tracker == Some(t) && cb.None? && cbCtx == 0
      ensures !ok ==> unchanged(this)
    {
      if active {
        return false;
      }
      meta, response, tracker, cb, cbCtx := MetaOf(request), Some(resp), Some(t), None, 0;
      active, timerArmed := true, true;
      ok := true;
    }

    /** `set(request, cb, ctx)`: as above, with a callback and no response or tracker. */
    method SetWithCallback(request: FrameValue, c: Option<nat>, ctx: int) returns (ok: bool)
      requires Valid()
      modifies this
      ensures Valid()
      ensures ok == !old(active)
      ensures ok ==> active && timerArmed && meta == MetaOf(request) && response.None? &&
                     tracker.None? && cb == c && cbCtx == ctx
      ensures !ok ==> unchanged(this)
    {
      if active {
        return false;
      }
      meta, response, tracker, cb, cbCtx := MetaOf(request), None, None, c, ctx;
      active, timerArmed := true, true;
      ok := true;
    }

    /** `clear()` and `resetUnsafe()`. */
    method Clear()
      modifies this
      ensures Valid() && Idle()
    {
      active, meta, response, tracker, cb, cbCtx, timerArmed := false, NoMeta, None, None, None, 0, false;
    }

    /** `stopTimer()`. */
    method StopTimer()
      requires Valid()
      modifies this
      ensures Valid() && !timerArmed
      ensures active == old(active) && meta == old(meta) && response == old(response) &&
              tracker == old(tracker) && cb == old(cb) && cbCtx == old(cbCtx)
    {
      timerArmed := false;
    }

    /**
     * `setResult(result, finalize)`: the tracker takes the result; with
     * finalize the request is reset; the callback, if any, is then called
     * with the result and no response.
     */
    method SetResult(result: ClientResult, finalize: bool) returns (invoked: Option<Invocation>)
      requires Valid()
      modifies this, (if tracker.Some? then {tracker.value} else {})
      ensures Valid()
      ensures old(tracker).Some? ==> old(tracker).value.value == result
      ensures invoked == if old(cb).Some? then Some(Invocation(old(cb).value, old(cbCtx), result, None)) else None
      ensures finalize ==> Idle()
      ensures !finalize ==> active == old(active) && meta == old(meta) && response == old(response) &&
                            tracker == old(tracker) && cb == old(cb) && cbCtx == old(cbCtx) &&
                            timerArmed == old(timerArmed)
    {
      if tracker.Some? {
        tracker.value.value := result;
      }
      invoked := if cb.Some? then Some(Invocation(cb.value, cbCtx, result, None)) else None;
      if finalize {
        Clear();
      }
    }

    /**
     * `setResponse(response, finalize)`: the response is copied into the
     * caller's frame, the tracker takes SUCCESS or ERR_EXCEPTION_RESPONSE,
     * and the callback, if any, is called with that result and the response.
     */
    method SetResponse(resp: FrameValue, finalize: bool) returns (invoked: Option<Invocation>)
      requires Valid()
      modifies this, Outputs()
      ensures Valid()
      ensures old(response).Some? ==> old(response).value.Valid() && old(response).value.Value() == resp
      ensures old(tracker).Some? ==> old(tracker).value.value == ResponseResult(resp)
      ensures invoked ==
        if old(cb).Some? then Some(Invocation(old(cb).value, old(cbCtx), ResponseResult(resp), Some(resp))) else None
      ensures finalize ==> Idle()
      ensures !finalize ==> active == old(active) && meta == old(meta) && response == old(response) &&
                            tracker == old(tracker) && cb == old(cb) && cbCtx == old(cbCtx) &&
                            timerArmed == old(timerArmed)
    {
      var result := ResponseResult(resp);
      if response.Some? {
        response.value.Assign(resp);
      }
      if tracker.Some? {
        tracker.value.value := result;
      }
      invoked := if cb.Some? then Some(Invocation(cb.value, cbCtx, result, Some(resp))) else None;
      if finalize {
        Clear();
      }
    }
  }

  // ---------------------------------------------------------------------------
  // Synchronous requests and the helpers' requests
  // ---------------------------------------------------------------------------

  /**
   * The outcome of a synchronous `sendRequest`: refused (ERR_INVALID_FRAME,
   * ERR_BUSY), not sent (ERR_TX_FAILED), no event group (ERR_BUSY), completed
   * by an event, or timed out when no event completes it.
   */
  function SyncOutcome(request: FrameValue, ready: bool, catchAll: bool, sendRes: I.IfResult, groupOk: bool,
                       events: seq<ClientEvent>): Outcome
  {
    if !Admissible(request) then Outcome(ErrInvalidFrame, None)
    else if !ready then Outcome(ErrBusy, None)
    else if sendRes != I.Success then Outcome(ErrTxFailed, None)
    else if !groupOk then Outcome(ErrBusy, None)
    else match Settle(MetaOf(request), catchAll, true, events)
      case None => Outcome(ErrTimeout, None)
      case Some(o) => o
  }

  /**
   * A synchronous request hands over a response exactly when it ends in
   * SUCCESS or ERR_EXCEPTION_RESPONSE, and that response answers the request:
   * same function code, address and count, and a count that fits the frame.
   */
  lemma SyncOutcomeDelivers(request: FrameValue, ready: bool, catchAll: bool, sendRes: I.IfResult, groupOk: bool,
                            events: seq<ClientEvent>)
    ensures var o := SyncOutcome(request, ready, catchAll, sendRes, groupOk, events);
      (o.delivered.Some? <==> o.result in {Success, ErrExceptionResponse}) &&
      (o.delivered.Some? ==>
        var d := o.delivered.value;
        Admissible(request) && d.msgType == Response && d.fc == request.fc &&
        d.regAddress == request.regAddress && d.regCount == request.regCount &&
        (catchAll || d.slaveId == request.slaveId) &&
        (o.result == ErrExceptionResponse <==> d.exceptionCode != NullException))
  {
    if Admissible(request) && ready && sendRes == I.Success && groupOk {
      if Settle(MetaOf(request), catchAll, true, events).Some? {
        SettleDelivers(MetaOf(request), catchAll, true, events);
      }
    }
  }

  /** The exception code a helper reports: none on SUCCESS, the reply's on ERR_EXCEPTION_RESPONSE, else untouched. */
  function HelperException(o: Outcome): Option<byte>
  {
    if o.result == Success then Some(NullException)
    else if o.result == ErrExceptionResponse && o.delivered.Some? then Some(o.delivered.value.exceptionCode)
    else None
  }

  /** The read function code of a register type; None for anything else. */
  function ReadFc(regType: RegisterType): (fc: Option<byte>)
    ensures fc.Some? <==> regType in {Coil, DiscreteInput, HoldingRegister, InputRegister}
    ensures fc.Some? ==> fc.value == regType
    ensures fc.Some? ==> fc.value in {ReadCoils, ReadDiscreteInputs, ReadHoldingRegisters, ReadInputRegisters}
  {
    if regType == Coil then Some(ReadCoils)
    else if regType == DiscreteInput then Some(ReadDiscreteInputs)
    else if regType == HoldingRegister then Some(ReadHoldingRegisters)
    else if regType == InputRegister then Some(ReadInputRegisters)
    else None
  }

  /** The write function code: only coils and holding registers are written, one value by the single-write code. */
  function WriteFc(regType: RegisterType, qty: nat): (fc: Option<byte>)
    ensures fc.Some? <==> regType in {Coil, HoldingRegister}
    ensures fc.Some? ==> (fc.value in {WriteCoil, WriteRegister} <==> qty == 1)
    ensures fc.Some? ==> (fc.value in {WriteCoil, WriteMultipleCoils} <==> regType == Coil)
  {
    if regType == Coil then Some(if qty == 1 then WriteCoil else WriteMultipleCoils)
    else if regType == HoldingRegister then Some(if qty == 1 then WriteRegister else WriteMultipleRegisters)
    else None
  }

  /** The frame a helper starts from: a cleared frame carrying the request fields. */
  function HelperRequest(slaveId: byte, fc: byte, startAddr: u16, qty: u16): FrameValue
  {
    FrameValue(Request, fc, slaveId, startAddr, qty, ZeroData, NullException)
  }

  /** The request `write(uint16_t*)` sends; None when the values do not fit the frame. */
  function WordsWriteRequest(slaveId: byte, regType: RegisterType, startAddr: u16, src: seq<u16>): Option<FrameValue>
    requires regType in {Coil, HoldingRegister} && 0 < |src| < 0x1_0000
  {
    var base := HelperRequest(slaveId, WriteFc(regType, |src|).value, startAddr, |src|);
    if regType == Coil then AfterSetCoils(base, CoilsFromValues(src)) else AfterSetRegisters(base, src)
  }

  /**
   * The request a word write sends carries the values: the registers read
   * back as given, or the coils as their non-zero tests, with the count set
   * to the number of values and the single or multiple write code.
   */
  lemma WordsWriteCarries(slaveId: byte, regType: RegisterType, startAddr: u16, src: seq<u16>)
    requires regType in {Coil, HoldingRegister} && 0 < |src| < 0x1_0000
    ensures WordsWriteRequest(slaveId, regType, startAddr, src).Some? <==>
      (regType == Coil && |src| <= FrameCoilCapacity) || (regType == HoldingRegister && |src| <= FrameDataSize)
    ensures WordsWriteRequest(slaveId, regType, startAddr, src).Some? ==>
      var f := WordsWriteRequest(slaveId, regType, startAddr, src).value;
      f.msgType == Request && f.slaveId == slaveId && f.regAddress == startAddr && f.regCount == |src| &&
      f.fc == WriteFc(regType, |src|).value && f.exceptionCode == NullException &&
      (regType == HoldingRegister ==> GetRegisters(f) == src) &&
      (regType == Coil ==> Coils(f) == CoilsFromValues(src))
  {
    var base := HelperRequest(slaveId, WriteFc(regType, |src|).value, startAddr, |src|);
    if regType == HoldingRegister && |src| <= FrameDataSize {
      SetRegistersReadBack(base, src, 0);
    } else if regType == Coil && |src| <= FrameCoilCapacity {
      SetCoilsRoundTrip(base, CoilsFromValues(src));
    }
  }

  /** The data word of a single-coil write: ON is bit 0. */
  function SingleCoilWord(on: bool): u16
  {
    if on then 1 else 0
  }

  /** As written, `write(bool*)` stores ON as 0xFF00, the value that travels on the wire. */
  function SingleCoilWordAsWritten(on: bool): u16
  {
    if on then 0xFF00 else 0
  }

  /** The request `write(bool*)` sends; None when the coils do not fit the frame. */
  function BoolsWriteRequest(slaveId: byte, startAddr: u16, src: seq<bool>): Option<FrameValue>
    requires 0 < |src| < 0x1_0000
  {
    if |src| == 1 then
      Some(FrameValue(Request, WriteCoil, slaveId, startAddr, 1, ZeroData[0 := SingleCoilWord(src[0])], NullException))
    else AfterSetCoils(HelperRequest(slaveId, WriteMultipleCoils, startAddr, |src|), src)
  }

  /**
   * As written, a single ON coil leaves 0xFF00 in the data field, which the
   * PDU encoder refuses: `write(bool*)` of one ON coil is never sent.
   */
  lemma SingleCoilOnRefusedAsWritten(slaveId: byte, startAddr: u16)
    ensures var f := FrameValue(Request, WriteCoil, slaveId, startAddr, 1,
                                ZeroData[0 := SingleCoilWordAsWritten(true)], NullException);
      ModbusCodec.BadCoilValue(f) && ModbusCodec.EncodePdu(f, Request).status == ModbusCodec.ErrInvalidData
  {
  }

  /** With ON as bit 0, a single-coil write encodes, ON as 0xFF00 and OFF as 0x0000 on the wire. */
  lemma SingleCoilEncodes(slaveId: byte, startAddr: u16, on: bool)
    ensures var f := BoolsWriteRequest(slaveId, startAddr, [on]).value;
      !ModbusCodec.BadCoilValue(f) &&
      ModbusCodec.EncodePdu(f, Request).status == ModbusCodec.Success &&
      ModbusCodec.EncodePdu(f, Request).bytes ==
        [WriteCoil] + ModbusCodec.U16Bytes(startAddr) + ModbusCodec.CoilValueBytes(on)
  {
  }

  // ---------------------------------------------------------------------------
  // The client
  // ---------------------------------------------------------------------------

  /** `Modbus::Client` over one interface. */
  class Client {
    const iface: I.Interface
    const pending: PendingRequest
    const responseBuffer: Frame
    const helperBuffer: Frame
    var isInitialized: bool

    ghost predicate Valid()
      reads this, iface, iface.slots, pending, pending.Outputs(), responseBuffer, helperBuffer
    {
      iface.Valid() && pending.Valid() && responseBuffer.Valid() && helperBuffer.Valid()
    }

    constructor (i: I.Interface)
      requires i.Valid()
      ensures Valid() && iface == i && !isInitialized && pending.Idle()
      ensures fresh(pending) && fresh(responseBuffer) && fresh(helperBuffer)
    {
      iface := i;
      pending := new PendingRequest();
      responseBuffer := new Frame();
      helperBuffer := new Frame();
      isInitialized := false;
    }

    /** `isReady()`: initialised, the interface ready, and no request pending. */
    predicate Ready(ifaceReady: bool)
      reads this, pending
    {
      isInitialized && ifaceReady && !pending.active
    }

    /**
     * `begin()`: already initialised is SUCCESS; otherwise the interface must
     * be a client, must start, and must take the response callback.
     */
    method Begin(ifaceBeginOk: bool, locked: bool) returns (r: ClientResult)
      requires Valid()
      modifies this, iface.slots
      ensures Valid()
      ensures r == Success || r == ErrInitFailed
      ensures isInitialized == (old(isInitialized) || r == Success)
      ensures old(isInitialized) ==> r == Success && iface.slots[..] == old(iface.slots[..])
      ensures !old(isInitialized) && (iface.role != Role.Client || !ifaceBeginOk) ==>
        r == ErrInitFailed && iface.slots[..] == old(iface.slots[..])
      ensures !old(isInitialized) && iface.role == Role.Client && ifaceBeginOk ==>
        (r == Success <==> locked && I.FirstFree(old(iface.slots[..])).Some?) &&
        (r == Success ==>
          I.Registered(iface.slots[..]) == I.Registered(old(iface.slots[..])) + [I.RcvCallback(Some(ResponseHandler), ClientContext)])
    {
      if isInitialized {
        return Success;
      }
      if iface.role != Role.Client {
        return ErrInitFailed;
      }
      if !ifaceBeginOk {
        return ErrInitFailed;
      }
      var res := iface.SetRcvCallback(Some(ResponseHandler), ClientContext, locked);
      if res != I.Success {
        return ErrInitFailed;
      }
      isInitialized := true;
      r := Success;
    }

    /** The effect of one event on the pending request, for completion states taken before it. */
    ghost predicate Applied(p: Progress, meta: FrameMeta, tracker: Option<ResultCell>, response: Option<Frame>,
                            cb: Option<nat>, ctx: int, invoked: Option<Invocation>)
      reads pending, (if tracker.Some? then {tracker.value} else {}),
            (if response.Some? then {response.value, response.value.data} else {})
    {
      match p
      case Waiting(t) =>
        pending.active && pending.timerArmed == t && pending.meta == meta && pending.tracker == tracker &&
        pending.response == response && pending.cb == cb && pending.cbCtx == ctx && invoked.None?
      case Done(o) =>
        pending.Idle() && (tracker.Some? ==> tracker.value.value == o.result) &&
        (response.Some? && o.delivered.Some? ==>
          response.value.Valid() && response.value.Value() == o.delivered.value) &&
        invoked == (if cb.Some? then Some(Invocation(cb.value, ctx, o.result, o.delivered)) else None)
    }

    /**
     * `handleResponse(response)`: refused with ERR_INVALID_RESPONSE, leaving
     * the request as it is, when nothing is pending, the request was a
     * broadcast, the slave differs without catch-all, or the frame is not a
     * RESPONSE with the request's function code. Otherwise the response,
     * with the request's address and count, completes the request. The
     * request timer is stopped only once the response is accepted.
     */
    method HandleResponse(f: FrameValue) returns (r: ClientResult, invoked: Option<Invocation>)
      requires Valid()
      modifies pending, pending.Outputs(), responseBuffer, responseBuffer.data
      ensures Valid()
      ensures r == if old(pending.active) && Accepts(old(pending.meta), iface.catchAllSlaveIds, f)
                   then Success else ErrInvalidResponse
      ensures old(pending.active) ==>
        Applied(Step(old(pending.meta), iface.catchAllSlaveIds, old(pending.timerArmed), Reply(f)),
                old(pending.meta), old(pending.tracker), old(pending.response), old(pending.cb), old(pending.cbCtx),
                invoked)
      ensures !old(pending.active) ==> unchanged(pending) && invoked.None?
    {
      if !pending.active {
        return ErrInvalidResponse, None;
      }
      if IsBroadcastId(pending.meta.slaveId) {
        return ErrInvalidResponse, None;
      }
      if !iface.catchAllSlaveIds && f.slaveId != pending.meta.slaveId {
        return ErrInvalidResponse, None;
      }
      if f.msgType != Response || f.fc != pending.meta.fc {
        return ErrInvalidResponse, None;
      }
      invoked := AcceptResponse(f);
      r := Success;
    }

    /** The accepting end of `handleResponse`: stop the timer, then complete with the delivered response. */
    method AcceptResponse(f: FrameValue) returns (invoked: Option<Invocation>)
      requires Valid() && pending.active
      modifies pending, pending.Outputs(), responseBuffer, responseBuffer.data
      ensures Valid()
      ensures Applied(Done(Outcome(ResponseResult(Delivered(f, old(pending.meta))), Some(Delivered(f, old(pending.meta))))),
                      old(pending.meta), old(pending.tracker), old(pending.response), old(pending.cb), old(pending.cbCtx),
                      invoked)
    {
      pending.StopTimer();
      var meta := pending.meta;
      responseBuffer.Assign(f);
      responseBuffer.regAddress, responseBuffer.regCount := meta.regAddress, meta.regCount;
      invoked := pending.SetResponse(responseBuffer.Value(), true);
    }

    /**
     * `staticHandleTxResult(result)`: ignored when nothing is pending; a
     * failed send completes the request with ERR_TX_FAILED; a sent broadcast
     * completes it with a response echoing the request and no exception.
     */
    method HandleTxResult(res: I.IfResult) returns (invoked: Option<Invocation>)
      requires Valid()
      modifies pending, pending.Outputs(), responseBuffer, responseBuffer.data
      ensures Valid()
      ensures old(pending.active) ==>
        Applied(Step(old(pending.meta), iface.catchAllSlaveIds, old(pending.timerArmed), TxResult(res)),
                old(pending.meta), old(pending.tracker), old(pending.response), old(pending.cb), old(pending.cbCtx),
                invoked)
      ensures !old(pending.active) ==> unchanged(pending) && invoked.None?
    {
      if !pending.active {
        return None;
      }
      if res != I.Success {
        invoked := pending.SetResult(ErrTxFailed, true);
        return;
      }
      if IsBroadcastId(pending.meta.slaveId) {
        invoked := AcknowledgeBroadcast();
        return;
      }
      invoked := None;
    }

    /** The broadcast end of `staticHandleTxResult`: complete with a response echoing the request. */
    method AcknowledgeBroadcast() returns (invoked: Option<Invocation>)
      requires Valid() && pending.active
      modifies pending, pending.Outputs(), responseBuffer, responseBuffer.data
      ensures Valid()
      ensures Applied(Done(Outcome(Success, Some(BroadcastAck(old(pending.meta))))),
                      old(pending.meta), old(pending.tracker), old(pending.response), old(pending.cb), old(pending.cbCtx),
                      invoked)
    {
      var meta := pending.meta;
      responseBuffer.Clear();
      responseBuffer.msgType, responseBuffer.fc, responseBuffer.slaveId := Response, meta.fc, meta.slaveId;
      responseBuffer.regAddress, responseBuffer.regCount := meta.regAddress, meta.regCount;
      responseBuffer.exceptionCode := NullException;
      var ack := responseBuffer.Value();
      assert ack == BroadcastAck(meta);
      invoked := pending.SetResponse(ack, true);
    }

    /** `timeoutCallback`: an armed timer completes a pending request with ERR_TIMEOUT. */
    method TimerFires() returns (invoked: Option<Invocation>)
      requires Valid()
      modifies pending, pending.Outputs()
      ensures Valid()
      ensures old(pending.active) ==>
        Applied(Step(old(pending.meta), iface.catchAllSlaveIds, old(pending.timerArmed), TimerExpired),
                old(pending.meta), old(pending.tracker), old(pending.response), old(pending.cb), old(pending.cbCtx),
                invoked)
      ensures !old(pending.active) ==> unchanged(pending) && invoked.None?
    {
      if pending.timerArmed && pending.active {
        invoked := pending.SetResult(ErrTimeout, true);
      } else {
        invoked := None;
      }
    }

    /** Hands one event to its handler. */
    method Deliver(ev: ClientEvent) returns (invoked: Option<Invocation>)
      requires Valid()
      modifies pending, pending.Outputs(), responseBuffer, responseBuffer.data
      ensures Valid()
      ensures old(pending.active) ==>
        Applied(Step(old(pending.meta), iface.catchAllSlaveIds, old(pending.timerArmed), ev),
                old(pending.meta), old(pending.tracker), old(pending.response), old(pending.cb), old(pending.cbCtx),
                invoked)
      ensures !old(pending.active) ==> unchanged(pending) && invoked.None?
    {
      match ev
      case TxResult(res) =>
        invoked := HandleTxResult(res);
      case Reply(f) =>
        var r;
        r, invoked := HandleResponse(f);
      case TimerExpired =>
        invoked := TimerFires();
    }

    /**
     * `sendRequest(request, response, tracker)`: a non-REQUEST or invalid
     * frame is ERR_INVALID_FRAME and a client that is not ready ERR_BUSY,
     * both before anything changes. Otherwise the request becomes pending,
     * the tracker reads NODATA, and a refused send completes it with
     * ERR_TX_FAILED. With a tracker the call returns once sent; without one
     * it waits for completion (see `SyncOutcome`).
     */
    method SendRequest(request: FrameValue, response: Frame, userTracker: Option<ResultCell>, ifaceReady: bool,
                       sendRes: I.IfResult, groupOk: bool, events: seq<ClientEvent>) returns (r: ClientResult)
      requires Valid() && response.Valid()
      modifies pending, response, response.data, responseBuffer, responseBuffer.data,
               (if userTracker.Some? then {userTracker.value} else {})
      ensures Valid()
      ensures !Admissible(request) ==> r == ErrInvalidFrame && unchanged(pending)
      ensures Admissible(request) && !old(Ready(ifaceReady)) ==> r == ErrBusy && unchanged(pending)
      ensures Admissible(request) && old(Ready(ifaceReady)) && sendRes != I.Success ==>
        r == ErrTxFailed && pending.Idle() && (userTracker.Some? ==> userTracker.value.value == ErrTxFailed)
      ensures Admissible(request) && old(Ready(ifaceReady)) && sendRes == I.Success && userTracker.Some? ==>
        r == Success && userTracker.value.value == NoData &&
        pending.active && pending.timerArmed && pending.meta == MetaOf(request) &&
        pending.response == Some(response) && pending.tracker == userTracker && pending.cb.None?
      ensures userTracker.None? ==>
        var o := SyncOutcome(request, old(Ready(ifaceReady)), iface.catchAllSlaveIds, sendRes, groupOk, events);
        r == o.result && (o.delivered.Some? ==> response.Value() == o.delivered.value) &&
        (Admissible(request) && old(Ready(ifaceReady)) ==> pending.Idle())
    {
      if request.msgType != Request {
        return ErrInvalidFrame;
      }
      if ModbusCodec.IsValidFrame(request, false) != ModbusCodec.Success {
        return ErrInvalidFrame;
      }
      if !Ready(ifaceReady) {
        return ErrBusy;
      }
      var tracker: ResultCell;
      if userTracker.Some? {
        tracker := userTracker.value;
      } else {
        tracker := new ResultCell(NoData);
      }
      r := Launch(request, response, tracker, sendRes);
      if r != Success || userTracker.Some? {
        return;
      }
      r := AwaitCompletion(response, tracker, groupOk, events);
    }

    /**
     * The admitted part of `sendRequest`: the request becomes pending with
     * the tracker at NODATA, and a refused send completes it with
     * ERR_TX_FAILED.
     */
    method Launch(request: FrameValue, response: Frame, tracker: ResultCell, sendRes: I.IfResult)
      returns (r: ClientResult)
      requires Valid() && response.Valid() && !pending.active
      modifies pending, tracker
      ensures Valid()
      ensures sendRes != I.Success ==> r == ErrTxFailed && pending.Idle() && tracker.value == ErrTxFailed
      ensures sendRes == I.Success ==>
        r == Success && tracker.value == NoData &&
        pending.active && pending.timerArmed && pending.meta == MetaOf(request) &&
        pending.response == Some(response) && pending.tracker == Some(tracker) && pending.cb.None?
    {
      // `set` cannot refuse here: nothing is pending.
      var ok := pending.SetWithResponse(request, response, tracker);
      var ignored := pending.SetResult(NoData, false);
      if sendRes != I.Success {
        ignored := pending.SetResult(ErrTxFailed, true);
        return ErrTxFailed;
      }
      r := Success;
    }

    /**
     * The synchronous wait: without an event group the request completes
     * with ERR_TIMEOUT and the call reports ERR_BUSY; otherwise events are
     * handled until the request completes, and a wait that ends first
     * completes it with ERR_TIMEOUT. The call returns the tracked result.
     */
    method AwaitCompletion(response: Frame, cell: ResultCell, groupOk: bool, events: seq<ClientEvent>)
      returns (r: ClientResult)
      requires Valid() && pending.active && pending.timerArmed && pending.response == Some(response) &&
               pending.tracker == Some(cell) && pending.cb.None?
      modifies pending, response, response.data, cell, responseBuffer, responseBuffer.data
      ensures Valid() && pending.Idle()
      ensures !groupOk ==> r == ErrBusy
      ensures groupOk ==>
        match Settle(old(pending.meta), iface.catchAllSlaveIds, true, events)
        case None => r == ErrTimeout
        case Some(o) => r == o.result && (o.delivered.Some? ==> response.Value() == o.delivered.value)
    {
      if !groupOk {
        var ignored := pending.SetResult(ErrTimeout, true);
        return ErrBusy;
      }
      ghost var meta := pending.meta;
      ghost var catchAll := iface.catchAllSlaveIds;
      ghost var done: Option<Outcome> := None;
      var i := 0;
      while i < |events| && pending.active
        invariant 0 <= i <= |events|
        invariant Valid() && response.Valid()
        invariant pending.active ==>
          pending.meta == meta && pending.response == Some(response) && pending.tracker == Some(cell) &&
          pending.cb.None? && Settle(meta, catchAll, pending.timerArmed, events[i..]) == Settle(meta, catchAll, true, events)
        invariant !pending.active ==>
          pending.Idle() && done.Some? && Settle(meta, catchAll, true, events) == done &&
          cell.value == done.value.result &&
          (done.value.delivered.Some? ==> response.Value() == done.value.delivered.value)
        decreases |events| - i
      {
        ghost var armed := pending.timerArmed;
        var invoked := Deliver(events[i]);
        match Step(meta, catchAll, armed, events[i]) {
          case Done(o) =>
            done := Some(o);
          case Waiting(t) =>
            assert events[i..][1..] == events[i + 1..];
        }
        i := i + 1;
      }
      if pending.active {
        var ignored := pending.SetResult(ErrTimeout, true);
        return ErrTimeout;
      }
      r := cell.value;
    }

    /**
     * `sendRequest(request, cb, ctx)`: the same checks; the request becomes
     * pending with the callback, and a refused send completes it with
     * ERR_TX_FAILED, calling the callback.
     */
    method SendRequestWithCallback(request: FrameValue, c: Option<nat>, ctx: int, ifaceReady: bool,
                                   sendRes: I.IfResult) returns (r: ClientResult, invoked: Option<Invocation>)
      requires Valid()
      modifies pending
      ensures Valid()
      ensures !Admissible(request) ==> r == ErrInvalidFrame && invoked.None? && unchanged(pending)
      ensures Admissible(request) && !old(Ready(ifaceReady)) ==> r == ErrBusy && invoked.None? && unchanged(pending)
      ensures Admissible(request) && old(Ready(ifaceReady)) && sendRes != I.Success ==>
        r == ErrTxFailed && pending.Idle() &&
        invoked == (if c.Some? then Some(Invocation(c.value, ctx, ErrTxFailed, None)) else None)
      ensures Admissible(request) && old(Ready(ifaceReady)) && sendRes == I.Success ==>
        r == Success && invoked.None? && pending.active && pending.timerArmed && pending.meta == MetaOf(request) &&
        pending.response.None? && pending.tracker.None? && pending.cb == c && pending.cbCtx == ctx
    {
      invoked := None;
      if request.msgType != Request {
        return ErrInvalidFrame, None;
      }
      if ModbusCodec.IsValidFrame(request, false) != ModbusCodec.Success {
        return ErrInvalidFrame, None;
      }
      if !Ready(ifaceReady) {
        return ErrBusy, None;
      }
      // `set` cannot refuse here: Ready() includes that nothing is pending.
      var ok := pending.SetWithCallback(request, c, ctx);
      if sendRes != I.Success {
        invoked := pending.SetResult(ErrTxFailed, true);
        return ErrTxFailed, invoked;
      }
      r := Success;
    }

    /** Clears the helper frame and fills in the request fields every helper sets. */
    method PrepareHelper(slaveId: byte, startAddr: u16, qty: u16)
      requires Valid()
      modifies helperBuffer, helperBuffer.data
      ensures Valid()
      ensures helperBuffer.Value() == HelperRequest(slaveId, NullFC, startAddr, qty)
    {
      helperBuffer.Clear();
      helperBuffer.msgType, helperBuffer.slaveId := Request, slaveId;
      helperBuffer.regAddress, helperBuffer.regCount := startAddr, qty;
    }

    /**
     * The synchronous `sendRequest(_helperBuffer, _helperBuffer)` every
     * helper makes, and the exception code it then reports.
     */
    method Transact(ifaceReady: bool, sendRes: I.IfResult, groupOk: bool, events: seq<ClientEvent>)
      returns (r: ClientResult, excep: Option<byte>)
      requires Valid()
      modifies pending, helperBuffer, helperBuffer.data, responseBuffer, responseBuffer.data
      ensures Valid()
      ensures var o := SyncOutcome(old(helperBuffer.Value()), old(Ready(ifaceReady)), iface.catchAllSlaveIds,
                                   sendRes, groupOk, events);
        r == o.result && excep == HelperException(o) &&
        (o.delivered.Some? ==> helperBuffer.Value() == o.delivered.value)
    {
      var request := helperBuffer.Value();
      r := SendRequest(request, helperBuffer, None, ifaceReady, sendRes, groupOk, events);
      SyncOutcomeDelivers(request, old(Ready(ifaceReady)), iface.catchAllSlaveIds, sendRes, groupOk, events);
      excep := None;
      if r == Success {
        excep := Some(NullException);
      } else if r == ErrExceptionResponse {
        excep := Some(helperBuffer.exceptionCode);
      }
    }

    /** `getCoils(toBuf, qty)` or `getRegisters(toBuf, qty)` on the reply of a read of qty values. */
    method ReadBack(regType: RegisterType, qty: u16) returns (values: seq<u16>)
      requires Valid() && helperBuffer.regCount == qty > 0
      requires regType in {Coil, DiscreteInput} ==> qty <= FrameCoilCapacity
      requires regType !in {Coil, DiscreteInput} ==> qty <= FrameDataSize
      ensures |values| == qty
      ensures regType in {Coil, DiscreteInput} ==>
        forall i :: 0 <= i < qty ==> values[i] == if GetCoil(helperBuffer.Value(), i) then 1 else 0
      ensures regType !in {Coil, DiscreteInput} ==> values == GetRegisters(helperBuffer.Value())
    {
      if regType == Coil || regType == DiscreteInput {
        var bits := helperBuffer.GetCoilsInto(qty);
        values := seq(|bits|, i requires 0 <= i < |bits| => if bits[i] then 1 else 0);
      } else {
        values := GetRegistersInto(helperBuffer.Value(), qty);
      }
    }

    /**
     * `read(slaveId, regType, startAddr, qty, uint16_t*, rspExcep)`: a null
     * buffer, a zero quantity or an unknown register type is
     * ERR_INVALID_FRAME; otherwise a synchronous read with the type's
     * function code. On SUCCESS all qty values are written (coils as 0 or
     * 1) and the exception code is NULL_EXCEPTION; on an exception reply the
     * exception code is the reply's; other results pass through.
     */
    method ReadWords(slaveId: byte, regType: RegisterType, startAddr: u16, qty: u16, hasBuf: bool,
                     ifaceReady: bool, sendRes: I.IfResult, groupOk: bool, events: seq<ClientEvent>)
      returns (r: ClientResult, values: seq<u16>, excep: Option<byte>)
      requires Valid()
      modifies pending, helperBuffer, helperBuffer.data, responseBuffer, responseBuffer.data
      ensures Valid()
      ensures !hasBuf || qty == 0 || ReadFc(regType).None? ==> r == ErrInvalidFrame && values == [] && excep.None?
      ensures hasBuf && qty > 0 && ReadFc(regType).Some? ==>
        var o := SyncOutcome(HelperRequest(slaveId, ReadFc(regType).value, startAddr, qty),
                             old(Ready(ifaceReady)), iface.catchAllSlaveIds, sendRes, groupOk, events);
        r == o.result && excep == HelperException(o) &&
        (r != Success ==> values == []) &&
        (r == Success ==>
          (o.delivered.Some? && |values| == qty &&
           (regType in {Coil, DiscreteInput} ==>
             forall i :: 0 <= i < qty ==> values[i] == if GetCoil(o.delivered.value, i) then 1 else 0) &&
           (regType in {HoldingRegister, InputRegister} ==> values == GetRegisters(o.delivered.value))))
    {
      values, excep := [], None;
      if !hasBuf || qty == 0 {
        return ErrInvalidFrame, [], None;
      }
      PrepareHelper(slaveId, startAddr, qty);
      var fc := ReadFc(regType);
      if fc.None? {
        return ErrInvalidFrame, [], None;
      }
      helperBuffer.fc := fc.value;
      r, values, excep := ReadTransact(regType, ifaceReady, sendRes, groupOk, events);
    }

    /**
     * The synchronous read of the prepared helper request and the `getCoils`
     * or `getRegisters` of its reply into the user's words.
     */
    method ReadTransact(regType: RegisterType, ifaceReady: bool, sendRes: I.IfResult, groupOk: bool,
                        events: seq<ClientEvent>)
      returns (r: ClientResult, values: seq<u16>, excep: Option<byte>)
      requires Valid() && ReadFc(regType).Some? && helperBuffer.fc == ReadFc(regType).value
      modifies pending, helperBuffer, helperBuffer.data, responseBuffer, responseBuffer.data
      ensures Valid()
      ensures var o := SyncOutcome(old(helperBuffer.Value()), old(Ready(ifaceReady)), iface.catchAllSlaveIds,
                                   sendRes, groupOk, events);
        r == o.result && excep == HelperException(o) &&
        (r != Success ==> values == []) &&
        (r == Success ==>
          (o.delivered.Some? && |values| == old(helperBuffer.regCount) &&
           (regType in {Coil, DiscreteInput} ==>
             forall i :: 0 <= i < |values| ==> values[i] == if GetCoil(o.delivered.value, i) then 1 else 0) &&
           (regType in {HoldingRegister, InputRegister} ==> values == GetRegisters(o.delivered.value))))
    {
      ghost var request := helperBuffer.Value();
      var qty := helperBuffer.regCount;
      r, excep := Transact(ifaceReady, sendRes, groupOk, events);
      values := [];
      if r == Success {
        SyncOutcomeDelivers(request, old(Ready(ifaceReady)), iface.catchAllSlaveIds, sendRes, groupOk, events);
        AdmittedCountFits(request);
        values := ReadBack(regType, qty);
      }
    }

    /**
     * `read(slaveId, regType, startAddr, qty, bool*, rspExcep)`: only coils
     * and discrete inputs; on SUCCESS the qty coils of the reply.
     */
    method ReadBools(slaveId: byte, regType: RegisterType, startAddr: u16, qty: u16, hasBuf: bool,
                     ifaceReady: bool, sendRes: I.IfResult, groupOk: bool, events: seq<ClientEvent>)
      returns (r: ClientResult, values: seq<bool>, excep: Option<byte>)
      requires Valid()
      modifies pending, helperBuffer, helperBuffer.data, responseBuffer, responseBuffer.data
      ensures Valid()
      ensures !hasBuf || qty == 0 || regType !in {Coil, DiscreteInput} ==>
        r == ErrInvalidFrame && values == [] && excep.None?
      ensures hasBuf && qty > 0 && regType in {Coil, DiscreteInput} ==>
        var o := SyncOutcome(HelperRequest(slaveId, ReadFc(regType).value, startAddr, qty),
                             old(Ready(ifaceReady)), iface.catchAllSlaveIds, sendRes, groupOk, events);
        r == o.result && excep == HelperException(o) &&
        (r != Success ==> values == []) &&
        (r == Success ==> o.delivered.Some? && values == Coils(o.delivered.value) && |values| == qty)
    {
      values, excep := [], None;
      if !hasBuf || qty == 0 {
        return ErrInvalidFrame, [], None;
      }
      if regType != Coil && regType != DiscreteInput {
        return ErrInvalidFrame, [], None;
      }
      PrepareHelper(slaveId, startAddr, qty);
      helperBuffer.fc := if regType == Coil then ReadCoils else ReadDiscreteInputs;
      r, values, excep := CoilTransact(ifaceReady, sendRes, groupOk, events);
    }

    /** The synchronous read of the prepared coil request and the `getCoils` of its reply. */
    method CoilTransact(ifaceReady: bool, sendRes: I.IfResult, groupOk: bool, events: seq<ClientEvent>)
      returns (r: ClientResult, values: seq<bool>, excep: Option<byte>)
      requires Valid() && helperBuffer.fc in {ReadCoils, ReadDiscreteInputs}
      modifies pending, helperBuffer, helperBuffer.data, responseBuffer, responseBuffer.data
      ensures Valid()
      ensures var o := SyncOutcome(old(helperBuffer.Value()), old(Ready(ifaceReady)), iface.catchAllSlaveIds,
                                   sendRes, groupOk, events);
        r == o.result && excep == HelperException(o) &&
        (r != Success ==> values == []) &&
        (r == Success ==>
          o.delivered.Some? && values == Coils(o.delivered.value) && |values| == old(helperBuffer.regCount))
    {
      ghost var request := helperBuffer.Value();
      var qty := helperBuffer.regCount;
      r, excep := Transact(ifaceReady, sendRes, groupOk, events);
      values := [];
      if r == Success {
        SyncOutcomeDelivers(request, old(Ready(ifaceReady)), iface.catchAllSlaveIds, sendRes, groupOk, events);
        AdmittedCountFits(request);
        values := helperBuffer.GetCoilsInto(qty);
      }
    }

    /**
     * `write(slaveId, regType, startAddr, qty, uint16_t*, rspExcep)`: a null
     * buffer, a zero quantity or a type other than COIL and HOLDING_REGISTER
     * is ERR_INVALID_FRAME, and so are values that do not fit the frame;
     * otherwise a synchronous write of the request `WordsWriteRequest`
     * describes.
     */
    method WriteWords(slaveId: byte, regType: RegisterType, startAddr: u16, qty: u16, src: Option<seq<u16>>,
                      ifaceReady: bool, sendRes: I.IfResult, groupOk: bool, events: seq<ClientEvent>)
      returns (r: ClientResult, excep: Option<byte>)
      requires Valid()
      requires src.Some? ==> |src.value| >= qty
      modifies pending, helperBuffer, helperBuffer.data, responseBuffer, responseBuffer.data
      ensures Valid()
      ensures src.None? || qty == 0 || regType !in {Coil, HoldingRegister} ==> r == ErrInvalidFrame && excep.None?
      ensures src.Some? && qty > 0 && regType in {Coil, HoldingRegister} ==>
        match WordsWriteRequest(slaveId, regType, startAddr, src.value[..qty])
        case None => r == ErrInvalidFrame && excep.None?
        case Some(request) =>
          var o := SyncOutcome(request, old(Ready(ifaceReady)), iface.catchAllSlaveIds, sendRes, groupOk, events);
          r == o.result && excep == HelperException(o)
    {
      if src.None? || qty == 0 {
        return ErrInvalidFrame, None;
      }
      if regType != Coil && regType != HoldingRegister {
        return ErrInvalidFrame, None;
      }
      PrepareHelper(slaveId, startAddr, qty);
      var ok := StageWords(regType, src.value[..qty]);
      if !ok {
        return ErrInvalidFrame, None;
      }
      r, excep := Transact(ifaceReady, sendRes, groupOk, events);
    }

    /** The function code and values of a word write, on the prepared helper frame. */
    method StageWords(regType: RegisterType, values: seq<u16>) returns (ok: bool)
      requires Valid() && regType in {Coil, HoldingRegister} && 0 < |values| < 0x1_0000
      requires helperBuffer.Value() == HelperRequest(helperBuffer.slaveId, NullFC, helperBuffer.regAddress, |values|)
      modifies helperBuffer, helperBuffer.data
      ensures Valid()
      ensures ok == WordsWriteRequest(old(helperBuffer.slaveId), regType, old(helperBuffer.regAddress), values).Some?
      ensures ok ==> (helperBuffer.Value() ==
        WordsWriteRequest(old(helperBuffer.slaveId), regType, old(helperBuffer.regAddress), values).value)
    {
      if regType == Coil {
        helperBuffer.fc := if |values| == 1 then WriteCoil else WriteMultipleCoils;
        ok := helperBuffer.SetCoilsFromBuffer(CoilsFromValues(values));
      } else {
        helperBuffer.fc := if |values| == 1 then WriteRegister else WriteMultipleRegisters;
        ok := helperBuffer.SetRegistersFromBuffer(values);
      }
    }

    /**
     * `write(slaveId, regType, startAddr, qty, bool*, rspExcep)`: only
     * coils; one coil is a single-coil write whose data word is the coil
     * (bit 0), more are packed by `setCoils`.
     */
    method WriteBools(slaveId: byte, regType: RegisterType, startAddr: u16, qty: u16, src: Option<seq<bool>>,
                      ifaceReady: bool, sendRes: I.IfResult, groupOk: bool, events: seq<ClientEvent>)
      returns (r: ClientResult, excep: Option<byte>)
      requires Valid()
      requires src.Some? ==> |src.value| >= qty
      modifies pending, helperBuffer, helperBuffer.data, responseBuffer, responseBuffer.data
      ensures Valid()
      ensures src.None? || qty == 0 || regType != Coil ==> r == ErrInvalidFrame && excep.None?
      ensures src.Some? && qty > 0 && regType == Coil ==>
        match BoolsWriteRequest(slaveId, startAddr, src.value[..qty])
        case None => r == ErrInvalidFrame && excep.None?
        case Some(request) =>
          var o := SyncOutcome(request, old(Ready(ifaceReady)), iface.catchAllSlaveIds, sendRes, groupOk, events);
          r == o.result && excep == HelperException(o)
    {
      if src.None? || qty == 0 {
        return ErrInvalidFrame, None;
      }
      if regType != Coil {
        return ErrInvalidFrame, None;
      }
      PrepareHelper(slaveId, startAddr, qty);
      var ok := StageBools(src.value[..qty]);
      if !ok {
        return ErrInvalidFrame, None;
      }
      r, excep := Transact(ifaceReady, sendRes, groupOk, events);
    }

    /** The function code and coils of a coil write, on the prepared helper frame. */
    method StageBools(values: seq<bool>) returns (ok: bool)
      requires Valid() && 0 < |values| < 0x1_0000
      requires helperBuffer.Value() == HelperRequest(helperBuffer.slaveId, NullFC, helperBuffer.regAddress, |values|)
      modifies helperBuffer, helperBuffer.data
      ensures Valid()
      ensures ok == BoolsWriteRequest(old(helperBuffer.slaveId), old(helperBuffer.regAddress), values).Some?
      ensures ok ==> (helperBuffer.Value() ==
        BoolsWriteRequest(old(helperBuffer.slaveId), old(helperBuffer.regAddress), values).value)
    {
      if |values| == 1 {
        helperBuffer.fc := WriteCoil;
        helperBuffer.data[0] := SingleCoilWord(values[0]);
        ok := true;
      } else {
        helperBuffer.fc := WriteMultipleCoils;
        ok := helperBuffer.SetCoilsFromBuffer(values);
      }
    }
  }
}
