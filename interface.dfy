/**
 * What every transport shares (`ModbusInterface::IInterface`): the result
 * codes, the role, the catch-all flag, and the table of five receive
 * callbacks that applications register and that each received frame is
 * handed to.
 *
 * A callback function is identified by an abstract number; calling it is
 * recorded as an entry of the returned notification list.
 */
module ModbusInterface {
  import opened Wrappers
  import opened ModbusCore

  /** MAX_RCV_CALLBACKS. */
  const MaxRcvCallbacks: nat := 5

  /** `IInterface::Result`. */
  datatype IfResult =
    | Success
    | NoData
    | ErrInitFailed
    | ErrInvalidFrame
    | ErrBusy
    | ErrRxFailed
    | ErrSendFailed
    | ErrInvalidMsgType
    | ErrInvalidTransactionId
    | ErrTimeout
    | ErrInvalidRole
    | ErrAddCallbackBusy
    | ErrTooManyCallbacks
    | ErrNoCallbacks
    | ErrNotInitialized
    | ErrConnectionFailed
    | ErrConfigFailed

  /** `toString(result)`: every result has its own text; the "Unknown error" fallback is never reached. */
  function ResultText(r: IfResult): (s: string)
    ensures |s| > 0 && s != "Unknown error"
  {
    match r
    case Success => "Success"
    case NoData => "No data to process"
    case ErrInitFailed => "Init failed"
    case ErrInvalidFrame => "Invalid frame"
    case ErrBusy => "Busy"
    case ErrRxFailed => "RX error"
    case ErrSendFailed => "Send failed"
    case ErrInvalidMsgType => "Invalid message type"
    case ErrInvalidTransactionId => "Transaction ID mismatch"
    case ErrTimeout => "Timeout"
    case ErrInvalidRole => "Invalid role"
    case ErrAddCallbackBusy => "Callback store is busy"
    case ErrTooManyCallbacks => "Too many callbacks stored"
    case ErrNoCallbacks => "No callbacks stored"
    case ErrNotInitialized => "Interface not initialized"
    case ErrConnectionFailed => "Connection failed"
    case ErrConfigFailed => "Configuration failed"
  }

  /** The message type a received frame is decoded as: responses on the client side, requests on the server side. */
  function ReceivedType(role: Role): (t: MsgType)
    ensures t != NullMsg && (t == Response <==> role == Client)
  {
    match role
    case Client => Response
    case Server => Request
  }

  /** A callback slot: the function (None for an empty slot) and its context. */
  datatype RcvCallback = RcvCallback(fn: Option<nat>, ctx: int)

  const EmptySlot := RcvCallback(None, 0)

  /** The first empty slot, if any. */
  function FirstFree(s: seq<RcvCallback>): (k: Option<nat>)
    ensures k.Some? ==> k.value < |s| && s[k.value].fn.None? && forall i :: 0 <= i < k.value ==> s[i].fn.Some?
    ensures k.None? ==> forall i :: 0 <= i < |s| ==> s[i].fn.Some?
  {
    if |s| == 0 then None
    else if s[0].fn.None? then Some(0)
    else match FirstFree(s[1..])
      case None => None
      case Some(j) => Some(j + 1)
  }

  /** The registered callbacks in slot order: the calls one notification makes. */
  function Registered(s: seq<RcvCallback>): (r: seq<RcvCallback>)
    ensures |r| <= |s|
    ensures forall k :: 0 <= k < |r| ==> r[k].fn.Some?
  {
    if |s| == 0 then []
    else Registered(s[..|s| - 1]) + (if s[|s| - 1].fn.Some? then [s[|s| - 1]] else [])
  }

  /** No registered slot follows an empty one: registration fills the table from the front. */
  ghost predicate PrefixFilled(s: seq<RcvCallback>)
  {
    forall i, j :: 0 <= i < j < |s| && s[i].fn.None? ==> s[j].fn.None?
  }

  /** Nothing is registered exactly when every slot is empty. */
  lemma {:induction false} RegisteredEmpty(s: seq<RcvCallback>)
    ensures |Registered(s)| == 0 <==> forall i :: 0 <= i < |s| ==> s[i].fn.None?
  {
    if |s| > 0 {
      var init := s[..|s| - 1];
      RegisteredEmpty(init);
      if |Registered(s)| == 0 {
        forall i | 0 <= i < |s|
          ensures s[i].fn.None?
        {
          if i < |s| - 1 {
            assert s[i] == init[i];
          }
        }
      }
    }
  }

  /** A table of empty slots registers nothing. */
  lemma {:induction false} RegisteredOfEmpties(s: seq<RcvCallback>)
    requires forall i :: 0 <= i < |s| ==> s[i].fn.None?
    ensures Registered(s) == []
  {
    if |s| > 0 {
      RegisteredOfEmpties(s[..|s| - 1]);
    }
  }

  /**
   * On a table filled from the front, storing a callback in the first free
   * slot appends it to the notification order and keeps the table filled
   * from the front.
   */
  lemma {:induction false} RegisterAppends(s: seq<RcvCallback>, cb: RcvCallback)
    requires PrefixFilled(s) && FirstFree(s).Some? && cb.fn.Some?
    ensures var k := FirstFree(s).value;
      Registered(s[k := cb]) == Registered(s) + [cb] && PrefixFilled(s[k := cb])
  {
    var k := FirstFree(s).value;
    var init := s[..|s| - 1];
    var t := s[k := cb];
    if k == |s| - 1 {
      assert t[..|t| - 1] == init;
      assert Registered(t) == Registered(init) + [cb];
      assert Registered(s) == Registered(init) + [];
    } else {
      FirstFreeIs(init, k);
      RegisterAppends(init, cb);
      assert t[..|t| - 1] == init[k := cb];
      assert s[|s| - 1].fn.None? && t[|t| - 1] == s[|s| - 1];
      assert Registered(t) == Registered(init[k := cb]) + [];
      assert Registered(s) == Registered(init) + [];
    }
  }

  /** The state every transport shares. */
  class Interface {
    const slots: array<RcvCallback>
    var role: Role
    var catchAllSlaveIds: bool

    ghost predicate Valid()
      reads this, slots
    {
      slots.Length == MaxRcvCallbacks && PrefixFilled(slots[..])
    }

    constructor (r: Role)
      ensures Valid() && fresh(slots) && role == r && !catchAllSlaveIds
      ensures Registered(slots[..]) == []
    {
      role, catchAllSlaveIds := r, false;
      slots := new RcvCallback[MaxRcvCallbacks](_ => EmptySlot);
      new;
      RegisteredOfEmpties(slots[..]);
    }

    /**
     * `setRcvCallback(fn, ctx)`: a null function is refused; a failed
     * try-lock is refused; otherwise the first empty slot takes the
     * callback, and a full table is refused.
     */
    method SetRcvCallback(fn: Option<nat>, ctx: int, locked: bool) returns (r: IfResult)
      requires Valid()
      modifies slots
      ensures Valid()
      ensures fn.None? ==> r == ErrInvalidFrame
      ensures fn.Some? && !locked ==> r == ErrAddCallbackBusy
      ensures fn.Some? && locked ==>
        match FirstFree(old(slots[..]))
        case None => r == ErrTooManyCallbacks
        case Some(k) => r == Success && slots[..] == old(slots[..])[k := RcvCallback(fn, ctx)]
                        && Registered(slots[..]) == Registered(old(slots[..])) + [RcvCallback(fn, ctx)]
      ensures r != Success ==> slots[..] == old(slots[..])
    {
      if fn.None? {
        return ErrInvalidFrame;
      }
      if !locked {
        return ErrAddCallbackBusy;
      }
      var i := 0;
      while i < slots.Length
        invariant 0 <= i <= slots.Length
        invariant forall j :: 0 <= j < i ==> slots[j].fn.Some?
      {
        if slots[i].fn.None? {
          ghost var before := slots[..];
          assert FirstFree(before) == Some(i) by { FirstFreeIs(before, i); }
          RegisterAppends(before, RcvCallback(fn, ctx));
          slots[i] := RcvCallback(fn, ctx);
          return Success;
        }
        i := i + 1;
      }
      return ErrTooManyCallbacks;
    }

    /**
     * `notifyCallbacks(frame)`: every registered callback once, in slot
     * order; no callback at all is ERR_NO_CALLBACKS.
     */
    method NotifyCallbacks() returns (r: IfResult, calls: seq<RcvCallback>)
      requires Valid()
      ensures calls == Registered(slots[..])
      ensures r == Success <==> exists i :: 0 <= i < slots.Length && slots[i].fn.Some?
      ensures r == Success || r == ErrNoCallbacks
    {
      ghost var s := slots[..];
      calls := [];
      var i := 0;
      while i < slots.Length
        invariant 0 <= i <= |s|
        invariant calls == Registered(s[..i])
      {
        assert s[..i + 1][..i] == s[..i];
        if slots[i].fn.Some? {
          calls := calls + [slots[i]];
        }
        i := i + 1;
      }
      assert s[..i] == s;
      RegisteredEmpty(s);
      r := if |calls| > 0 then Success else ErrNoCallbacks;
    }
  }

  /** The first free slot is the first empty index. */
  lemma FirstFreeIs(s: seq<RcvCallback>, i: nat)
    requires i < |s| && s[i].fn.None? && forall j :: 0 <= j < i ==> s[j].fn.Some?
    ensures FirstFree(s) == Some(i)
  {
    var k := FirstFree(s);
  }
}
