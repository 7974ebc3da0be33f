/**
 * The bridge linking a client-side (master) interface to a server-side
 * (slave) interface: `begin` sorts the two interfaces by role, starts both
 * and registers one forwarding callback on each.
 */

module ModbusBridge {
  import opened Wrappers
  import opened ModbusCore
  import opened ModbusFrame
  import I = ModbusInterface

  datatype BridgeResult = Success | ErrInitFailed

  /** The side of the bridge a frame arrives on. */
  datatype Side = MasterSide | SlaveSide

  /** The identifiers of the two forwarding callbacks `begin` registers. */
  const ForwardFromMaster: nat := 1
  const ForwardFromSlave: nat := 2

  /**
   * The forwarding rule: the master side hands responses to the slave side,
   * the slave side hands requests to the master side, and anything else is
   * dropped. A forwarded frame always goes to the other side.
   */
  function Forward(from: Side, f: FrameValue): (dest: Option<Side>)
    ensures dest == Some(SlaveSide) <==> from == MasterSide && f.msgType == Response
    ensures dest == Some(MasterSide) <==> from == SlaveSide && f.msgType == Request
    ensures dest.Some? ==> dest.value != from
  {
    match from
    case MasterSide => if f.msgType == Response then Some(SlaveSide) else None
    case SlaveSide => if f.msgType == Request then Some(MasterSide) else None
  }

  /** A frame the bridge forwards is never forwarded back: no frame bounces between the two sides. */
  lemma {:induction false} ForwardNeverBounces(from: Side, f: FrameValue)
    ensures Forward(from, f).Some? ==> Forward(Forward(from, f).value, f).None?
  {
    match from
    case MasterSide =>
      if f.msgType == Response {
        assert Forward(SlaveSide, f).None?;
      }
    case SlaveSide =>
      if f.msgType == Request {
        assert Forward(MasterSide, f).None?;
      }
  }

  /** The side `begin` assigns an interface of the given role: the client role is the master side. */
  function SideOf(role: Role): (s: Side)
    ensures s == MasterSide <==> role == Client
  {
    if role == Client then MasterSide else SlaveSide
  }

  /** The forwarding callback `begin` registers on an interface of the given role. */
  function ForwarderOf(role: Role): (cb: I.RcvCallback)
    ensures cb.fn == Some(if SideOf(role) == MasterSide then ForwardFromMaster else ForwardFromSlave)
  {
    I.RcvCallback(Some(if role == Client then ForwardFromMaster else ForwardFromSlave), 0)
  }

  class Bridge {
    const interface1: I.Interface
    const interface2: I.Interface
    var master: Option<I.Interface>
    var slave: Option<I.Interface>

    /** The two interfaces are distinct objects with their own callback tables. */
    ghost predicate Valid()
      reads this, interface1, interface1.slots, interface2, interface2.slots
    {
      interface1 != interface2 && interface1.slots != interface2.slots &&
      interface1.Valid() && interface2.Valid()
    }

    constructor (interface1: I.Interface, interface2: I.Interface)
      ensures this.interface1 == interface1 && this.interface2 == interface2
      ensures master.None? && slave.None?
    {
      this.interface1 := interface1;
      this.interface2 := interface2;
      master, slave := None, None;
    }

    /**
     * `begin`. Two interfaces of the same role are refused before anything
     * is touched. Otherwise the client-role interface becomes the master
     * side and the other the slave side; both must start (`masterUp`,
     * `slaveUp` stand for their `begin` results) and each takes its
     * forwarding callback (`masterLock`, `slaveLock` stand for the
     * try-locks of the two registrations).
     */
    method Begin(masterUp: bool, slaveUp: bool, masterLock: bool, slaveLock: bool) returns (r: BridgeResult)
      requires Valid()
      modifies this`master, this`slave, interface1.slots, interface2.slots
      ensures Valid()
      ensures interface1.role == interface2.role ==>
        r == ErrInitFailed && unchanged(this) && unchanged(interface1.slots) && unchanged(interface2.slots)
      ensures interface1.role != interface2.role ==>
        master.Some? && slave.Some? &&
        (master.value == interface1 <==> interface1.role == Client) &&
        {master.value, slave.value} == {interface1, interface2}
      ensures r == Success ==>
        interface1.role != interface2.role && masterUp && slaveUp &&
        I.Registered(interface1.slots[..]) == I.Registered(old(interface1.slots[..])) + [ForwarderOf(interface1.role)] &&
        I.Registered(interface2.slots[..]) == I.Registered(old(interface2.slots[..])) + [ForwarderOf(interface2.role)]
      ensures interface1.role != interface2.role && (!masterUp || !slaveUp) ==>
        r == ErrInitFailed && unchanged(interface1.slots) && unchanged(interface2.slots)
      ensures interface1.role != interface2.role && masterUp && slaveUp ==>
        (r == Success <==>
          (masterLock && slaveLock &&
           I.FirstFree(old(interface1.slots[..])).Some? && I.FirstFree(old(interface2.slots[..])).Some?))
    {
      if interface1.role == interface2.role {
        return ErrInitFailed;
      }
      if interface1.role == Client {
        master, slave := Some(interface1), Some(interface2);
      } else {
        master, slave := Some(interface2), Some(interface1);
      }
      var m := master.value;
      var s := slave.value;
      if !masterUp || !slaveUp {
        return ErrInitFailed;
      }
      var rm := m.SetRcvCallback(Some(ForwardFromMaster), 0, masterLock);
      if rm != I.Success {
        return ErrInitFailed;
      }
      var rs := s.SetRcvCallback(Some(ForwardFromSlave), 0, slaveLock);
      if rs != I.Success {
        return ErrInitFailed;
      }
      return Success;
    }

    /**
     * One of the forwarding callbacks: a frame received on one side is sent
     * through the interface of the other side when the forwarding rule
     * allows it, and dropped otherwise.
     */
    method Deliver(from: Side, f: FrameValue) returns (target: Option<I.Interface>)
      requires master.Some? && slave.Some?
      ensures target.None? <==> Forward(from, f).None?
      ensures Forward(from, f) == Some(MasterSide) ==> target == master
      ensures Forward(from, f) == Some(SlaveSide) ==> target == slave
    {
      match from
      case MasterSide =>
        if f.msgType == Response {
          return slave;
        }
        return None;
      case SlaveSide =>
        if f.msgType == Request {
          return master;
        }
        return None;
    }
  }
}
