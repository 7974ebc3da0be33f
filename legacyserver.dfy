/**
 * The older register-store server (src/EZModbus/src/apps/ModbusServer.cpp).
 * It keeps one address-ordered vector of entries per register type and a
 * vector of callback pairs. It serves a request one register address at a
 * time.
 *
 * A register's value pointer names a 32-bit user variable, held here in
 * `memory`. Read and write callbacks are handler identities. What a handler
 * returns comes from the `reader` and `writer` parameters.
 */
module ModbusLegacyServer {
  import opened Wrappers
  import opened ModbusCore
  import opened ModbusFrame
  import S = ModbusServerSpec

  /** The legacy server's result codes. */
  datatype Result =
    | Success
    | ErrRegBusy
    | ErrRegOverflow
    | ErrRegInvalidType
    | ErrRegMissingReadCb
    | ErrRegMissingWriteCb
    | ErrRegReadonlyWriteCb
    | ErrRcvBusy
    | ErrRcvInvalidType
    | ErrRcvWrongSlaveId
    | ErrRcvIllegalFunction
    | ErrRcvIllegalDataAddress
    | ErrRcvIllegalDataValue
    | ErrRcvSlaveDeviceFailure
    | ErrRspTxFailed
    | ErrInitFailed

  /** A register as the user declares it: an optional value variable and optional read/write handlers. */
  datatype Register = Register(rtype: RegisterType, address: u16, value: Option<nat>,
                               readCb: Option<nat>, writeCb: Option<nat>)

  /** The empty register `getRegister` returns for an unknown address. */
  const NoRegister := Register(NullRT, 0, None, None, None)

  /** A stored entry; a `cbIndex` of None stands for UINT32_MAX (no callback pair). */
  datatype Entry = Entry(rtype: RegisterType, address: u16, value: Option<nat>, cbIndex: Option<nat>)

  /** One element of the callback vector. */
  datatype CallbackPair = CallbackPair(readCb: Option<nat>, writeCb: Option<nat>)

  const RegisterTypes: set<RegisterType> := {Coil, DiscreteInput, HoldingRegister, InputRegister}

  // ---------------------------------------------------------------------------
  // Register validation
  // ---------------------------------------------------------------------------

  /**
   * `isValidEntry`: a valid type is checked first. A register with a value
   * variable is then accepted. Otherwise it needs a read handler, and it
   * needs a write handler exactly when its type is writable.
   */
  function EntryCheck(reg: Register): (r: Result)
    ensures r == Success <==> (IsValidRegisterType(reg.rtype) &&
      (reg.value.Some? || (reg.readCb.Some? && (reg.writeCb.Some? <==> !S.IsReadOnly(reg.rtype)))))
    ensures !IsValidRegisterType(reg.rtype) ==> r == ErrRegInvalidType
    ensures r in {Success, ErrRegInvalidType, ErrRegMissingReadCb, ErrRegMissingWriteCb, ErrRegReadonlyWriteCb}
  {
    if !IsValidRegisterType(reg.rtype) then ErrRegInvalidType
    else if reg.value.Some? then Success
    else if reg.readCb.None? then ErrRegMissingReadCb
    else if !S.IsReadOnly(reg.rtype) && reg.writeCb.None? then ErrRegMissingWriteCb
    else if S.IsReadOnly(reg.rtype) && reg.writeCb.Some? then ErrRegReadonlyWriteCb
    else Success
  }

  // ---------------------------------------------------------------------------
  // The address-ordered store of one register type
  // ---------------------------------------------------------------------------

  predicate AddressOrdered(s: seq<Entry>)
  {
    forall i, j :: 0 <= i < j < |s| ==> s[i].address <= s[j].address
  }

  /** `std::lower_bound` by address: the first position whose address is not below `addr`. */
  function LowerBound(s: seq<Entry>, addr: int): (k: nat)
    ensures k <= |s|
    ensures forall j :: 0 <= j < k ==> s[j].address < addr
    ensures k < |s| ==> addr <= s[k].address
  {
    if |s| == 0 || addr <= s[0].address then 0 else 1 + LowerBound(s[1..], addr)
  }

  /** The three facts above pin the lower bound down. */
  lemma LowerBoundIs(s: seq<Entry>, addr: int, k: nat)
    requires k <= |s|
    requires forall j :: 0 <= j < k ==> s[j].address < addr
    requires k < |s| ==> addr <= s[k].address
    ensures LowerBound(s, addr) == k
  {
  }

  /**
   * `findRegisterEntry`: the entry at the lower bound when it has the
   * address. On an ordered store it misses only absent addresses.
   */
  function FindEntry(s: seq<Entry>, addr: int): (e: Option<Entry>)
    ensures e.Some? ==> e.value in s && e.value.address == addr
    ensures AddressOrdered(s) && e.None? ==> forall x :: x in s ==> x.address != addr
  {
    var k := LowerBound(s, addr);
    if k < |s| && s[k].address == addr then Some(s[k]) else None
  }

  /**
   * The insertion `addRegisterInternal` performs, as written: the new entry
   * goes in front of the lower bound, also when an entry already has the
   * address.
   */
  function InsertAsWritten(s: seq<Entry>, e: Entry): seq<Entry>
  {
    var k := LowerBound(s, e.address);
    s[..k] + [e] + s[k..]
  }

  /** The corrected insertion: an entry with the address is replaced, otherwise the entry is inserted in order. */
  function Upsert(s: seq<Entry>, e: Entry): seq<Entry>
  {
    var k := LowerBound(s, e.address);
    if k < |s| && s[k].address == e.address then s[k := e] else s[..k] + [e] + s[k..]
  }

  /** The shape of an insertion at the lower bound: the prefix, the new entry, then the rest shifted by one. */
  lemma InsertShape(s: seq<Entry>, e: Entry)
    ensures var k := LowerBound(s, e.address); var t := InsertAsWritten(s, e);
      |t| == |s| + 1 && t[k] == e &&
      (forall i :: 0 <= i < k ==> t[i] == s[i]) &&
      (forall i :: k < i < |t| ==> t[i] == s[i - 1])
  {
  }

  /** An insertion at the lower bound keeps the store ordered and adds nothing but the new entry. */
  lemma InsertKeeps(s: seq<Entry>, e: Entry)
    requires AddressOrdered(s)
    ensures AddressOrdered(InsertAsWritten(s, e))
    ensures forall x :: x in InsertAsWritten(s, e) ==> x == e || x in s
  {
    var k := LowerBound(s, e.address);
    var t := InsertAsWritten(s, e);
    InsertShape(s, e);
    forall i, j | 0 <= i < j < |t| ensures t[i].address <= t[j].address {
      if j < k {
      } else if i < k && j == k {
      } else if i < k {
        assert t[j] == s[j - 1];
      } else if i == k {
        assert t[j] == s[j - 1];
      } else {
        assert t[i] == s[i - 1] && t[j] == s[j - 1];
      }
    }
    forall x | x in t ensures x == e || x in s {
      var i :| 0 <= i < |t| && t[i] == x;
      if i < k { assert s[i] == x; } else if i > k { assert s[i - 1] == x; }
    }
  }

  /**
   * As written, the store keeps its order, grows by one, and a lookup finds
   * the new entry at its address (it shadows an older one) and the old
   * result elsewhere.
   */
  lemma InsertAsWrittenEffect(s: seq<Entry>, e: Entry, a: int)
    requires AddressOrdered(s)
    ensures var t := InsertAsWritten(s, e);
      AddressOrdered(t) && |t| == |s| + 1 &&
      FindEntry(t, a) == (if a == e.address then Some(e) else FindEntry(s, a)) &&
      forall x :: x in t ==> x == e || x in s
  {
    InsertShape(s, e);
    InsertKeeps(s, e);
    InsertLookup(s, e, a);
  }

  /** Where a lookup lands in the store after an insertion at the lower bound. */
  lemma InsertLookup(s: seq<Entry>, e: Entry, a: int)
    requires AddressOrdered(s)
    ensures var t := InsertAsWritten(s, e);
      LowerBound(t, a) == if a <= e.address then LowerBound(s, a) else LowerBound(s, a) + 1
  {
    var k := LowerBound(s, e.address);
    var t := InsertAsWritten(s, e);
    InsertShape(s, e);
    var m := LowerBound(s, a);
    if a <= e.address {
      assert m <= k;
      LowerBoundIs(t, a, m);
    } else {
      assert m >= k;
      LowerBoundIs(t, a, m + 1);
    }
  }

  /**
   * The corrected insertion keeps the order, grows the store only for a new
   * address, and a lookup finds the new entry at its address and the old
   * result elsewhere.
   */
  lemma UpsertEffect(s: seq<Entry>, e: Entry, a: int)
    requires AddressOrdered(s)
    ensures var t := Upsert(s, e);
      AddressOrdered(t) &&
      |t| == |s| + (if FindEntry(s, e.address).Some? then 0 else 1) &&
      FindEntry(t, a) == (if a == e.address then Some(e) else FindEntry(s, a)) &&
      forall x :: x in t ==> x == e || x in s
  {
    var k := LowerBound(s, e.address);
    if k < |s| && s[k].address == e.address {
      ReplaceEffect(s, k, e, a);
    } else {
      InsertAsWrittenEffect(s, e, a);
    }
  }

  /** Replacing an entry by one with the same address keeps the order and every lookup position. */
  lemma ReplaceEffect(s: seq<Entry>, k: nat, e: Entry, a: int)
    requires AddressOrdered(s) && k < |s| && s[k].address == e.address
    ensures AddressOrdered(s[k := e]) && LowerBound(s[k := e], a) == LowerBound(s, a)
    ensures forall x :: x in s[k := e] ==> x == e || x in s
  {
    var t := s[k := e];
    assert forall i :: 0 <= i < |t| ==> t[i].address == s[i].address;
    LowerBoundIs(t, a, LowerBound(s, a));
    forall x | x in t ensures x == e || x in s {
      var i :| 0 <= i < |t| && t[i] == x;
      if i != k { assert s[i] == x; }
    }
  }

  /**
   * As written, re-adding a registered address to a full store passes the
   * capacity check of `addRegister` and still grows the store past its
   * capacity.
   */
  lemma ReAddOverflowsAsWritten(s: seq<Entry>, e: Entry, capacity: nat)
    requires AddressOrdered(s) && |s| == capacity && FindEntry(s, e.address).Some?
    ensures !(FindEntry(s, e.address).None? && |s| + 1 > capacity)
    ensures |InsertAsWritten(s, e)| > capacity
    ensures FindEntry(InsertAsWritten(s, e), e.address) == Some(e)
  {
    InsertAsWrittenEffect(s, e, e.address);
  }

  /** With the corrected insertion the capacity check of `addRegister` keeps the store within capacity. */
  lemma UpsertWithinCapacity(s: seq<Entry>, e: Entry, capacity: nat)
    requires AddressOrdered(s) && |s| <= capacity
    requires !(FindEntry(s, e.address).None? && |s| + 1 > capacity)
    ensures |Upsert(s, e)| <= capacity
  {
    UpsertEffect(s, e, e.address);
  }

  /** Both insertions give every lookup the same answer: the correction changes the store size only. */
  lemma InsertionsAgreeOnLookup(s: seq<Entry>, e: Entry, a: int)
    requires AddressOrdered(s)
    ensures FindEntry(InsertAsWritten(s, e), a) == FindEntry(Upsert(s, e), a)
  {
    InsertAsWrittenEffect(s, e, a);
    UpsertEffect(s, e, a);
  }

  // ---------------------------------------------------------------------------
  // The four stores and the callback vector
  // ---------------------------------------------------------------------------

  datatype Tables = Tables(stores: map<RegisterType, seq<Entry>>, cbs: seq<CallbackPair>)

  const EmptyTables := Tables(map[Coil := [], DiscreteInput := [], HoldingRegister := [], InputRegister := []], [])

  predicate EntryFits(t: RegisterType, x: Entry, ncbs: nat, memory: map<nat, u32>)
  {
    x.rtype == t && (x.value.Some? ==> x.value.value in memory) && (x.cbIndex.Some? ==> x.cbIndex.value < ncbs)
  }

  /** One ordered store per register type; entries of the right type whose variables and callbacks exist. */
  predicate WellFormed(tb: Tables, memory: map<nat, u32>)
  {
    tb.stores.Keys == RegisterTypes &&
    forall t :: t in tb.stores ==> (AddressOrdered(tb.stores[t]) &&
      forall x :: x in tb.stores[t] ==> EntryFits(t, x, |tb.cbs|, memory))
  }

  /** No store holds more than `capacity` entries. */
  predicate Bounded(tb: Tables, capacity: nat)
  {
    forall t :: t in tb.stores ==> |tb.stores[t]| <= capacity
  }

  /** A register the stores can take: a valid type, and a value variable that exists. */
  predicate Storable(reg: Register, memory: map<nat, u32>)
  {
    IsValidRegisterType(reg.rtype) && (reg.value.Some? ==> reg.value.value in memory)
  }

  /** The entry `addRegisterInternal` stores for `reg` when the callback vector has `n` elements. */
  function EntryOf(reg: Register, n: nat): Entry
  {
    Entry(reg.rtype, reg.address, reg.value, if reg.readCb.Some? || reg.writeCb.Some? then Some(n) else None)
  }

  /**
   * `addRegisterInternal` with the corrected insertion: a callback pair is
   * appended when the register has a handler, then the entry goes into the
   * store of its type.
   */
  function Add(tb: Tables, reg: Register): (r: Tables)
    ensures r.stores.Keys == tb.stores.Keys
  {
    var cbs := if reg.readCb.Some? || reg.writeCb.Some? then tb.cbs + [CallbackPair(reg.readCb, reg.writeCb)] else tb.cbs;
    if reg.rtype in tb.stores then
      Tables(tb.stores[reg.rtype := Upsert(tb.stores[reg.rtype], EntryOf(reg, |tb.cbs|))], cbs)
    else Tables(tb.stores, cbs)
  }

  /**
   * Adding a register keeps the tables well formed. Afterwards the lookup
   * of its type and address finds it, every other lookup is unchanged, and
   * only a new address grows its store.
   */
  lemma AddEffect(tb: Tables, memory: map<nat, u32>, reg: Register, t: RegisterType, a: int)
    requires WellFormed(tb, memory) && Storable(reg, memory) && t in RegisterTypes
    ensures WellFormed(Add(tb, reg), memory)
    ensures FindEntry(Add(tb, reg).stores[t], a) ==
      if t == reg.rtype && a == reg.address then Some(EntryOf(reg, |tb.cbs|)) else FindEntry(tb.stores[t], a)
    ensures |Add(tb, reg).stores[t]| ==
      |tb.stores[t]| + (if t == reg.rtype && FindEntry(tb.stores[t], reg.address).None? then 1 else 0)
  {
    var r := Add(tb, reg);
    var e := EntryOf(reg, |tb.cbs|);
    var s := tb.stores[reg.rtype];
    UpsertEffect(s, e, a);
    UpsertEffect(s, e, reg.address);
    forall u | u in r.stores
      ensures AddressOrdered(r.stores[u]) && forall x :: x in r.stores[u] ==> EntryFits(u, x, |r.cbs|, memory)
    {
      if u != reg.rtype {
        assert r.stores[u] == tb.stores[u];
      }
    }
  }

  /** `addRegisters` inserting a batch in order; the fold runs from the front. */
  function AddAll(tb: Tables, regs: seq<Register>): (r: Tables)
    ensures r.stores.Keys == tb.stores.Keys
  {
    if |regs| == 0 then tb else Add(AddAll(tb, regs[..|regs| - 1]), regs[|regs| - 1])
  }

  /** How many registers of the batch have type t and an address the store of t lacks before the batch. */
  function NewCount(tb: Tables, regs: seq<Register>, t: RegisterType): nat
  {
    if |regs| == 0 then 0
    else NewCount(tb, regs[..|regs| - 1], t) + NewOne(tb, regs[|regs| - 1], t)
  }

  /** 1 when the register has type t and an address the store of t lacks. */
  function NewOne(tb: Tables, reg: Register, t: RegisterType): nat
  {
    if reg.rtype == t && t in tb.stores && FindEntry(tb.stores[t], reg.address).None? then 1 else 0
  }

  /** The last register of the batch with this type and address. */
  function LastAt(regs: seq<Register>, t: RegisterType, a: int): (k: Option<nat>)
    ensures k.Some? ==> k.value < |regs| && regs[k.value].rtype == t && regs[k.value].address == a
    ensures k.Some? ==> forall j :: k.value < j < |regs| ==> !(regs[j].rtype == t && regs[j].address == a)
    ensures k.None? ==> forall j :: 0 <= j < |regs| ==> !(regs[j].rtype == t && regs[j].address == a)
  {
    if |regs| == 0 then None
    else if regs[|regs| - 1].rtype == t && regs[|regs| - 1].address == a then Some(|regs| - 1)
    else LastAt(regs[..|regs| - 1], t, a)
  }

  predicate AllStorable(regs: seq<Register>, memory: map<nat, u32>)
  {
    forall i :: 0 <= i < |regs| ==> Storable(regs[i], memory)
  }

  /** A batch of storable registers keeps the tables well formed. */
  lemma {:induction false} AddAllWellFormed(tb: Tables, memory: map<nat, u32>, regs: seq<Register>)
    requires WellFormed(tb, memory) && AllStorable(regs, memory)
    ensures WellFormed(AddAll(tb, regs), memory)
  {
    if |regs| > 0 {
      assert AllStorable(regs[..|regs| - 1], memory);
      AddAllWellFormed(tb, memory, regs[..|regs| - 1]);
      AddEffect(AddAll(tb, regs[..|regs| - 1]), memory, regs[|regs| - 1], Coil, 0);
    }
  }

  /** A batch never removes an address from a store. */
  lemma {:induction false} AddAllKeeps(tb: Tables, memory: map<nat, u32>, regs: seq<Register>, t: RegisterType, a: int)
    requires WellFormed(tb, memory) && AllStorable(regs, memory) && t in RegisterTypes
    ensures FindEntry(tb.stores[t], a).Some? ==> FindEntry(AddAll(tb, regs).stores[t], a).Some?
  {
    if |regs| > 0 {
      var p := regs[..|regs| - 1];
      assert AllStorable(p, memory);
      AddAllKeeps(tb, memory, p, t, a);
      AddAllWellFormed(tb, memory, p);
      AddEffect(AddAll(tb, p), memory, regs[|regs| - 1], t, a);
    }
  }

  /** A store grows by at most the batch's registers of its type whose address it lacked before the batch. */
  lemma {:induction false} AddAllGrowth(tb: Tables, memory: map<nat, u32>, regs: seq<Register>, t: RegisterType)
    requires WellFormed(tb, memory) && AllStorable(regs, memory) && t in RegisterTypes
    ensures |AddAll(tb, regs).stores[t]| <= |tb.stores[t]| + NewCount(tb, regs, t)
  {
    if |regs| > 0 {
      var p := regs[..|regs| - 1];
      var reg := regs[|regs| - 1];
      assert AllStorable(p, memory);
      AddAllGrowth(tb, memory, p, t);
      AddAllWellFormed(tb, memory, p);
      AddAllKeeps(tb, memory, p, t, reg.address);
      AddEffect(AddAll(tb, p), memory, reg, t, 0);
    }
  }

  /**
   * After a batch, a lookup finds the variable of the last register of the
   * batch at that type and address, and the old result when the batch has
   * none.
   */
  lemma {:induction false} AddAllLookup(tb: Tables, memory: map<nat, u32>, regs: seq<Register>, t: RegisterType, a: int)
    requires WellFormed(tb, memory) && AllStorable(regs, memory) && t in RegisterTypes
    ensures match LastAt(regs, t, a)
      case None => FindEntry(AddAll(tb, regs).stores[t], a) == FindEntry(tb.stores[t], a)
      case Some(k) => FindEntry(AddAll(tb, regs).stores[t], a).Some? &&
                      FindEntry(AddAll(tb, regs).stores[t], a).value.value == regs[k].value
  {
    if |regs| > 0 {
      var p := regs[..|regs| - 1];
      assert AllStorable(p, memory);
      var reg := regs[|regs| - 1];
      var mid := AddAll(tb, p);
      AddAllLookup(tb, memory, p, t, a);
      AddAllWellFormed(tb, memory, p);
      AddEffect(mid, memory, reg, t, a);
      assert AddAll(tb, regs) == Add(mid, reg);
      if reg.rtype == t && reg.address == a {
        assert LastAt(regs, t, a) == Some(|regs| - 1);
      } else {
        assert LastAt(regs, t, a) == LastAt(p, t, a);
      }
    }
  }

  /** The batch bound holds for every prefix of the batch as well. */
  lemma {:induction false} NewCountPrefix(tb: Tables, regs: seq<Register>, i: nat, t: RegisterType)
    requires i <= |regs|
    ensures NewCount(tb, regs[..i], t) <= NewCount(tb, regs, t)
  {
    if i < |regs| {
      NewCountPrefix(tb, regs[..|regs| - 1], i, t);
      assert regs[..|regs| - 1][..i] == regs[..i];
    } else {
      assert regs[..i] == regs;
    }
  }

  /** Counting one more register of the batch. */
  lemma NewCountStep(tb: Tables, regs: seq<Register>, i: nat)
    requires i < |regs|
    ensures forall t :: NewCount(tb, regs[..i + 1], t) == NewCount(tb, regs[..i], t) + NewOne(tb, regs[i], t)
  {
    assert regs[..i + 1][..i] == regs[..i];
  }

  /** The first register of a batch that `isValidEntry` refuses, or the batch length. */
  function FirstInvalid(regs: seq<Register>): (k: nat)
    ensures k <= |regs|
    ensures forall j :: 0 <= j < k ==> EntryCheck(regs[j]) == Success
    ensures k < |regs| ==> EntryCheck(regs[k]) != Success
  {
    if |regs| == 0 || EntryCheck(regs[0]) != Success then 0 else 1 + FirstInvalid(regs[1..])
  }

  predicate OverflowsType(tb: Tables, regs: seq<Register>, capacity: nat, t: RegisterType)
    requires t in tb.stores
  {
    |tb.stores[t]| + NewCount(tb, regs, t) > capacity
  }

  /** `wouldOverflow` for some type, tried from COIL to INPUT_REGISTER. */
  predicate Overflows(tb: Tables, regs: seq<Register>, capacity: nat)
    requires tb.stores.Keys == RegisterTypes
  {
    OverflowsType(tb, regs, capacity, Coil) || OverflowsType(tb, regs, capacity, DiscreteInput) ||
    OverflowsType(tb, regs, capacity, HoldingRegister) || OverflowsType(tb, regs, capacity, InputRegister)
  }

  /**
   * `addRegisters`: a held lock is ERR_REG_BUSY, then the first invalid
   * register's error, then ERR_REG_OVERFLOW when a store would pass its
   * capacity; only then is the whole batch inserted.
   */
  function AddRegistersResult(tb: Tables, capacity: nat, regs: seq<Register>, locked: bool): Result
    requires tb.stores.Keys == RegisterTypes
  {
    if !locked then ErrRegBusy
    else if FirstInvalid(regs) < |regs| then EntryCheck(regs[FirstInvalid(regs)])
    else if Overflows(tb, regs, capacity) then ErrRegOverflow
    else Success
  }

  /** An accepted batch leaves every store within capacity. */
  lemma AcceptedBatchBounded(tb: Tables, memory: map<nat, u32>, capacity: nat, regs: seq<Register>)
    requires WellFormed(tb, memory) && AllStorable(regs, memory) && !Overflows(tb, regs, capacity)
    ensures WellFormed(AddAll(tb, regs), memory) && Bounded(AddAll(tb, regs), capacity)
  {
    AddAllWellFormed(tb, memory, regs);
    forall t | t in AddAll(tb, regs).stores ensures |AddAll(tb, regs).stores[t]| <= capacity {
      AddAllGrowth(tb, memory, regs, t);
      NoTypeOverflows(tb, regs, capacity, t);
    }
  }

  /** No overflow means no overflow for any one type. */
  lemma NoTypeOverflows(tb: Tables, regs: seq<Register>, capacity: nat, t: RegisterType)
    requires tb.stores.Keys == RegisterTypes && !Overflows(tb, regs, capacity) && t in RegisterTypes
    ensures !OverflowsType(tb, regs, capacity, t)
  {
  }

  /** `addRegister`: ERR_REG_BUSY, then the register's own error, then ERR_REG_OVERFLOW for a new address in a full store. */
  function AddRegisterResult(tb: Tables, capacity: nat, reg: Register, locked: bool): Result
    requires tb.stores.Keys == RegisterTypes
  {
    if !locked then ErrRegBusy
    else if EntryCheck(reg) != Success then EntryCheck(reg)
    else if FindEntry(tb.stores[reg.rtype], reg.address).None? && |tb.stores[reg.rtype]| + 1 > capacity then ErrRegOverflow
    else Success
  }

  /** An accepted register leaves every store within capacity, and the store of its type finds it. */
  lemma AcceptedRegisterStored(tb: Tables, memory: map<nat, u32>, capacity: nat, reg: Register, locked: bool)
    requires WellFormed(tb, memory) && Bounded(tb, capacity) && Storable(reg, memory)
    requires AddRegisterResult(tb, capacity, reg, locked) == Success
    ensures WellFormed(Add(tb, reg), memory) && Bounded(Add(tb, reg), capacity)
    ensures FindEntry(Add(tb, reg).stores[reg.rtype], reg.address) == Some(EntryOf(reg, |tb.cbs|))
  {
    forall t | t in Add(tb, reg).stores ensures |Add(tb, reg).stores[t]| <= capacity {
      AddEffect(tb, memory, reg, t, reg.address);
    }
    AddEffect(tb, memory, reg, reg.rtype, reg.address);
  }

  /** `getRegister`: the register the store of its type finds, with the handlers of its callback pair. */
  function RegisterAt(tb: Tables, t: RegisterType, addr: u16): (r: Register)
    requires forall u :: u in tb.stores ==> forall x :: x in tb.stores[u] ==> x.cbIndex.Some? ==> x.cbIndex.value < |tb.cbs|
    ensures t !in tb.stores || FindEntry(tb.stores[t], addr).None? ==> r == NoRegister
    ensures t in tb.stores && FindEntry(tb.stores[t], addr).Some? ==>
      var e := FindEntry(tb.stores[t], addr).value;
      r.rtype == e.rtype && r.address == addr && r.value == e.value &&
      (e.cbIndex.None? ==> r.readCb.None? && r.writeCb.None?) &&
      (e.cbIndex.Some? ==> r.readCb == tb.cbs[e.cbIndex.value].readCb && r.writeCb == tb.cbs[e.cbIndex.value].writeCb)
  {
    if t !in tb.stores then NoRegister
    else match FindEntry(tb.stores[t], addr)
      case None => NoRegister
      case Some(e) =>
        if e.cbIndex.None? then Register(e.rtype, e.address, e.value, None, None)
        else Register(e.rtype, e.address, e.value, tb.cbs[e.cbIndex.value].readCb, tb.cbs[e.cbIndex.value].writeCb)
  }

  // ---------------------------------------------------------------------------
  // Access to one register
  // ---------------------------------------------------------------------------

  /** How a read or a write reaches a register: its variable, a handler, or nothing. */
  datatype Access = Direct(cell: nat) | Handler(id: nat) | NoAccess

  /**
   * `findReadCallback` / `findWriteCallback`: a register with a value
   * variable uses the direct callback; otherwise the handler of its pair,
   * if the pair exists and has one.
   */
  function AccessOf(e: Entry, cbs: seq<CallbackPair>, forWrite: bool): (r: Access)
    ensures r.Direct? <==> e.value.Some?
    ensures r.Direct? ==> r.cell == e.value.value
    ensures r.Handler? <==> (e.value.None? && e.cbIndex.Some? && e.cbIndex.value < |cbs| &&
      (if forWrite then cbs[e.cbIndex.value].writeCb else cbs[e.cbIndex.value].readCb).Some?)
  {
    if e.value.Some? then Direct(e.value.value)
    else if e.cbIndex.None? || e.cbIndex.value >= |cbs| then NoAccess
    else
      var cb := if forWrite then cbs[e.cbIndex.value].writeCb else cbs[e.cbIndex.value].readCb;
      if cb.Some? then Handler(cb.value) else NoAccess
  }

  /** `_directReadCb`: the low 16 bits of the variable. */
  function DirectRead(v: u32): u16
  {
    v % 0x1_0000
  }

  /** `_directWriteCb`: the low 16 bits replaced by the value, the high 16 bits kept. */
  function DirectWrite(v: u32, w: u16): (r: u32)
    ensures r / 0x1_0000 == v / 0x1_0000
    ensures DirectRead(r) == w
  {
    (v / 0x1_0000) * 0x1_0000 + w
  }

  /** Writing back what the direct callback read leaves the variable as it was. */
  lemma DirectWriteBack(v: u32)
    ensures DirectWrite(v, DirectRead(v)) == v
  {
    assert v == (v / 0x1_0000) * 0x1_0000 + v % 0x1_0000;
  }

  predicate PointersIn(s: seq<Entry>, memory: map<nat, u32>)
  {
    forall x :: x in s && x.value.Some? ==> x.value.value in memory
  }

  /** A register the store finds and can reach for a read or a write. */
  predicate Accessible(s: seq<Entry>, cbs: seq<CallbackPair>, addr: int, forWrite: bool)
  {
    FindEntry(s, addr).Some? && AccessOf(FindEntry(s, addr).value, cbs, forWrite) != NoAccess
  }

  /** The `rejectUndefined` pre-scan: every address of the range is accessible. */
  predicate AllAccessible(s: seq<Entry>, cbs: seq<CallbackPair>, start: int, n: nat, forWrite: bool)
  {
    forall a :: start <= a < start + n ==> Accessible(s, cbs, a, forWrite)
  }

  /**
   * What reading one address gives: 0 for an unknown address, the value
   * through the variable or the handler, and None for a register that
   * cannot be read.
   */
  function RegisterValue(s: seq<Entry>, cbs: seq<CallbackPair>, memory: map<nat, u32>,
                         reader: (nat, Entry) -> u16, addr: int): Option<u16>
    requires PointersIn(s, memory)
  {
    match FindEntry(s, addr)
    case None => Some(0)
    case Some(e) =>
      match AccessOf(e, cbs, false)
      case Direct(p) => Some(DirectRead(memory[p]))
      case Handler(id) => Some(reader(id, e))
      case NoAccess => None
  }

  /** A read fails exactly on a register the store finds but cannot reach for a read. */
  lemma RegisterValueFails(s: seq<Entry>, cbs: seq<CallbackPair>, memory: map<nat, u32>,
                           reader: (nat, Entry) -> u16, addr: int)
    requires PointersIn(s, memory)
    ensures RegisterValue(s, cbs, memory, reader, addr).None? <==> FindEntry(s, addr).Some? && !Accessible(s, cbs, addr, false)
  {
  }

  /** A coil read: ON when the register reads as non-zero; an unknown or unreadable coil is OFF. */
  function CoilValue(s: seq<Entry>, cbs: seq<CallbackPair>, memory: map<nat, u32>,
                     reader: (nat, Entry) -> u16, addr: int): bool
    requires PointersIn(s, memory)
  {
    match RegisterValue(s, cbs, memory, reader, addr)
    case None => false
    case Some(v) => v != 0
  }

  // ---------------------------------------------------------------------------
  // Reads
  // ---------------------------------------------------------------------------

  predicate IsRegisterAddress(a: int)
  {
    0 <= a <= MaxRegAddr
  }

  /** As written, the guard refuses a range whose exclusive end address passes 0xFFFF. */
  predicate EndBeyondAsWritten(start: int, n: int)
  {
    start + n > MaxRegAddr
  }

  /** The corrected guard refuses a range that leaves the 16-bit address space. */
  predicate EndBeyond(start: int, n: int)
  {
    start + n > MaxRegAddr + 1
  }

  /** As written, a one-register access at address 0xFFFF is refused, though the address exists. */
  lemma LastAddressRefusedAsWritten()
    ensures EndBeyondAsWritten(MaxRegAddr, 1)
    ensures !EndBeyond(MaxRegAddr, 1)
  {
  }

  /** The corrected guard admits exactly the ranges whose every address is a 16-bit address. */
  lemma EndBeyondExact(start: u16, n: nat)
    ensures !EndBeyond(start, n) <==> forall a :: start <= a < start + n ==> IsRegisterAddress(a)
  {
    if n > 0 && forall a :: start <= a < start + n ==> IsRegisterAddress(a) {
      assert IsRegisterAddress(start + n - 1);
    }
  }

  /** A response data field and the exception code that goes with it. */
  datatype Reply = Reply(ec: byte, data: FrameData)

  /** The value read for position i of a range starting at `start`. */
  function ValueAt(s: seq<Entry>, cbs: seq<CallbackPair>, memory: map<nat, u32>, reader: (nat, Entry) -> u16,
                   start: int, i: nat): Option<u16>
    requires PointersIn(s, memory)
  {
    RegisterValue(s, cbs, memory, reader, start + i)
  }

  /**
   * The register read loop from position i: each value in turn, stopping at
   * an unreadable register. It fails exactly when some register of the rest
   * of the range cannot be read. On success every position of the range
   * holds its register's value. Positions outside the range are never
   * touched.
   */
  function RegistersFrom(s: seq<Entry>, cbs: seq<CallbackPair>, memory: map<nat, u32>, reader: (nat, Entry) -> u16,
                         start: int, i: nat, n: nat, data: FrameData): Reply
    requires PointersIn(s, memory) && i <= n <= FrameDataSize
    decreases n - i
  {
    if i == n then Reply(NullException, data)
    else match ValueAt(s, cbs, memory, reader, start, i)
      case None => Reply(IllegalDataAddress, data)
      case Some(v) => RegistersFrom(s, cbs, memory, reader, start, i + 1, n, data[i := v])
  }

  /** The register loop answers NULL_EXCEPTION or ILLEGAL_DATA_ADDRESS, and never touches a position outside its range. */
  lemma {:induction false} RegistersFromKeeps(s: seq<Entry>, cbs: seq<CallbackPair>, memory: map<nat, u32>,
                                              reader: (nat, Entry) -> u16, start: int, i: nat, n: nat, data: FrameData)
    requires PointersIn(s, memory) && i <= n <= FrameDataSize
    ensures var r := RegistersFrom(s, cbs, memory, reader, start, i, n, data);
      (r.ec == NullException || r.ec == IllegalDataAddress) &&
      (forall j :: 0 <= j < FrameDataSize && (j < i || n <= j) ==> r.data[j] == data[j])
    decreases n - i
  {
    if i < n {
      match ValueAt(s, cbs, memory, reader, start, i)
      case None =>
      case Some(v) =>
        var d := data[i := v];
        RegistersFromKeeps(s, cbs, memory, reader, start, i + 1, n, d);
        assert forall j :: 0 <= j < FrameDataSize && (j < i || n <= j) ==> d[j] == data[j];
    }
  }

  /**
   * The register loop fails exactly when some register of the rest of the
   * range cannot be read.
   */
  lemma {:induction false} RegistersFromFails(s: seq<Entry>, cbs: seq<CallbackPair>, memory: map<nat, u32>,
                                              reader: (nat, Entry) -> u16, start: int, i: nat, n: nat, data: FrameData)
    requires PointersIn(s, memory) && i <= n <= FrameDataSize
    ensures var r := RegistersFrom(s, cbs, memory, reader, start, i, n, data);
      r.ec == NullException <==> forall j :: i <= j < n ==> ValueAt(s, cbs, memory, reader, start, j).Some?
    decreases n - i
  {
    if i < n {
      match ValueAt(s, cbs, memory, reader, start, i)
      case None =>
        assert !ValueAt(s, cbs, memory, reader, start, i).Some?;
      case Some(v) =>
        RegistersFromFails(s, cbs, memory, reader, start, i + 1, n, data[i := v]);
    }
  }

  /** On success every position of the range holds its register's value. */
  lemma {:induction false} RegistersFromValues(s: seq<Entry>, cbs: seq<CallbackPair>, memory: map<nat, u32>,
                                               reader: (nat, Entry) -> u16, start: int, i: nat, n: nat, data: FrameData)
    requires PointersIn(s, memory) && i <= n <= FrameDataSize
    ensures var r := RegistersFrom(s, cbs, memory, reader, start, i, n, data);
      r.ec == NullException ==> forall j :: i <= j < n ==> ValueAt(s, cbs, memory, reader, start, j) == Some(r.data[j])
    decreases n - i
  {
    if i < n {
      match ValueAt(s, cbs, memory, reader, start, i)
      case None =>
      case Some(v) =>
        var d := data[i := v];
        RegistersFromValues(s, cbs, memory, reader, start, i + 1, n, d);
        RegistersFromKeeps(s, cbs, memory, reader, start, i + 1, n, d);
    }
  }

  predicate IsCoilRead(fc: int)
  {
    fc == ReadCoils || fc == ReadDiscreteInputs
  }

  /** The coils a coil read gathers, one per address of the range. */
  function CoilBits(s: seq<Entry>, cbs: seq<CallbackPair>, memory: map<nat, u32>, reader: (nat, Entry) -> u16,
                    start: int, n: nat): (bits: seq<bool>)
    requires PointersIn(s, memory)
    ensures |bits| == n
  {
    seq(n, i requires 0 <= i < n => CoilValue(s, cbs, memory, reader, start + i))
  }

  /**
   * `handleRead` on the store of the request's type: the range guard, the
   * `rejectUndefined` pre-scan, then packed coils or the register loop.
   */
  function ReadReply(s: seq<Entry>, cbs: seq<CallbackPair>, memory: map<nat, u32>, reader: (nat, Entry) -> u16,
                     req: FrameValue, reject: bool): Reply
    requires PointersIn(s, memory) && (IsCoilRead(req.fc) || req.regCount <= FrameDataSize)
  {
    if EndBeyond(req.regAddress, req.regCount) then Reply(IllegalDataAddress, ZeroData)
    else if reject && !AllAccessible(s, cbs, req.regAddress, req.regCount, false) then Reply(IllegalDataAddress, ZeroData)
    else if IsCoilRead(req.fc) then
      Reply(NullException, PackedCoils(CoilBits(s, cbs, memory, reader, req.regAddress, req.regCount)))
    else RegistersFrom(s, cbs, memory, reader, req.regAddress, 0, req.regCount, ZeroData)
  }

  /**
   * The read decisions. A range past the address space is refused. With
   * `rejectUndefined` a range is served exactly when it is all accessible.
   * A served register read holds each register's value and zeros beyond
   * the count.
   */
  lemma ReadDecisions(s: seq<Entry>, cbs: seq<CallbackPair>, memory: map<nat, u32>, reader: (nat, Entry) -> u16,
                      req: FrameValue, reject: bool)
    requires PointersIn(s, memory) && (IsCoilRead(req.fc) || req.regCount <= FrameDataSize)
    ensures var r := ReadReply(s, cbs, memory, reader, req, reject);
      (r.ec == NullException || r.ec == IllegalDataAddress) &&
      (EndBeyond(req.regAddress, req.regCount) ==> r.ec == IllegalDataAddress) &&
      (reject && !EndBeyond(req.regAddress, req.regCount) ==>
        (r.ec == NullException <==> AllAccessible(s, cbs, req.regAddress, req.regCount, false))) &&
      (r.ec == NullException && !IsCoilRead(req.fc) ==>
        (forall j :: 0 <= j < req.regCount ==> ValueAt(s, cbs, memory, reader, req.regAddress, j) == Some(r.data[j])) &&
        (forall j :: req.regCount <= j < FrameDataSize ==> r.data[j] == 0))
  {
    var n: nat := req.regCount;
    if !EndBeyond(req.regAddress, n) && !IsCoilRead(req.fc) && !(reject && !AllAccessible(s, cbs, req.regAddress, n, false)) {
      RegistersFromKeeps(s, cbs, memory, reader, req.regAddress, 0, n, ZeroData);
      RegistersFromFails(s, cbs, memory, reader, req.regAddress, 0, n, ZeroData);
      RegistersFromValues(s, cbs, memory, reader, req.regAddress, 0, n, ZeroData);
    }
    if !EndBeyond(req.regAddress, n) && !IsCoilRead(req.fc) && reject && AllAccessible(s, cbs, req.regAddress, n, false) {
      forall j | 0 <= j < n ensures ValueAt(s, cbs, memory, reader, req.regAddress, j).Some? {
        assert Accessible(s, cbs, req.regAddress + j, false);
      }
    }
  }

  /** A served coil read holds coil i of the range at bit i%16 of word i/16, and nothing past the count. */
  lemma ReadCoilsPacked(s: seq<Entry>, cbs: seq<CallbackPair>, memory: map<nat, u32>, reader: (nat, Entry) -> u16,
                        req: FrameValue, reject: bool, w: nat, b: nat)
    requires PointersIn(s, memory) && IsCoilRead(req.fc) && w < FrameDataSize && b < 16
    ensures var r := ReadReply(s, cbs, memory, reader, req, reject);
      r.ec == NullException ==>
        (Bit(r.data[w], b) <==> 16 * w + b < req.regCount && CoilValue(s, cbs, memory, reader, req.regAddress + 16 * w + b))
  {
    if !EndBeyond(req.regAddress, req.regCount) {
      PackedCoilsBit(CoilBits(s, cbs, memory, reader, req.regAddress, req.regCount), w, b);
    }
  }

  // ---------------------------------------------------------------------------
  // Writes
  // ---------------------------------------------------------------------------

  /** The value written to the i-th register of a write, as written: word i of the data, made 0/1 for coils. */
  function WriteValueAsWritten(req: FrameValue, i: nat): u16
    requires i < FrameDataSize
  {
    if S.IsCoilWrite(req.fc) then (if req.data[i] != 0 then 1 else 0) else req.data[i]
  }

  /** The corrected value: coil i of the packed data (bit i%16 of word i/16) for coil writes, word i otherwise. */
  function WriteValue(req: FrameValue, i: nat): u16
    requires S.IsCoilWrite(req.fc) || i < FrameDataSize
  {
    if S.IsCoilWrite(req.fc) then (if GetCoil(req, i) then 1 else 0) else req.data[i]
  }

  /** A coil write whose data the frame packed from `bits` hands coil i of `bits` to register i. */
  lemma WriteValueOfPackedCoils(f: FrameValue, bits: seq<bool>, i: nat)
    requires |bits| <= FrameCoilCapacity && S.IsCoilWrite(f.fc)
    ensures WriteValue(AfterSetCoils(f, bits).value, i) == if i < |bits| && bits[i] then 1 else 0
  {
    SetCoilsReadBack(f, bits, i);
  }

  /**
   * As written, a write of the two coils ON, ON carries the packed word 3 in
   * word 0 and 0 in word 1, so the second coil is written OFF.
   */
  lemma SecondCoilLostAsWritten()
    ensures var req := AfterSetCoils(FrameValue(Request, WriteMultipleCoils, 1, 0, 0, ZeroData, NullException),
                                     [true, true]).value;
      WriteValueAsWritten(req, 1) == 0 && WriteValue(req, 1) == 1
  {
    var bits := [true, true];
    var f := FrameValue(Request, WriteMultipleCoils, 1, 0, 0, ZeroData, NullException);
    var req := AfterSetCoils(f, bits).value;
    CoilWordPastEnd(bits, 16, 0, 16);
    assert req.data[1] == PackedCoilWord(bits, 16) == 0;
    WriteValueOfPackedCoils(f, bits, 1);
  }

  /** One handler call a write made: the handler, the value and the register. */
  datatype UserWrite = UserWrite(handler: nat, value: u16, entry: Entry)

  /** Where a write stopped, the variables afterwards and the handler calls made. */
  datatype WriteRun = WriteRun(ec: byte, memory: map<nat, u32>, calls: seq<UserWrite>)

  predicate WriteFits(req: FrameValue, n: nat)
  {
    S.IsCoilWrite(req.fc) || n <= FrameDataSize
  }

  /**
   * A handler call the request accounts for: the handler of the register
   * the store finds at the call's address, with the request's value for
   * that address.
   */
  predicate CallOf(s: seq<Entry>, cbs: seq<CallbackPair>, req: FrameValue, c: UserWrite)
  {
    var off := c.entry.address - req.regAddress;
    0 <= off && (S.IsCoilWrite(req.fc) || off < FrameDataSize) &&
    FindEntry(s, c.entry.address) == Some(c.entry) && AccessOf(c.entry, cbs, true) == Handler(c.handler) &&
    c.value == WriteValue(req, off)
  }

  /** A call the request accounts for, to an address of positions lo..n-1. */
  predicate CallInRange(s: seq<Entry>, cbs: seq<CallbackPair>, req: FrameValue, c: UserWrite, lo: int, n: nat)
  {
    req.regAddress + lo <= c.entry.address < req.regAddress + n && CallOf(s, cbs, req, c)
  }

  /**
   * One pass of the write loop, at position i. An unknown address is
   * skipped. A register without a write path stops with
   * ILLEGAL_DATA_ADDRESS. A variable takes the value. A handler is called,
   * and stops the loop with SLAVE_DEVICE_FAILURE when it refuses.
   */
  function WriteAt(s: seq<Entry>, cbs: seq<CallbackPair>, writer: (nat, u16, Entry) -> bool, req: FrameValue,
                   i: nat, memory: map<nat, u32>, calls: seq<UserWrite>): (r: WriteRun)
    requires PointersIn(s, memory) && WriteFits(req, i + 1)
    ensures r.ec in {NullException, IllegalDataAddress, SlaveDeviceFailure}
    ensures r.ec == IllegalDataAddress <==>
      (FindEntry(s, req.regAddress + i).Some? && !Accessible(s, cbs, req.regAddress + i, true))
    ensures r.memory.Keys == memory.Keys
    ensures r.calls == calls ||
      (|r.calls| == |calls| + 1 && r.calls[..|calls|] == calls && CallInRange(s, cbs, req, r.calls[|calls|], i, i + 1))
  {
    match FindEntry(s, req.regAddress + i)
    case None => WriteRun(NullException, memory, calls)
    case Some(e) =>
      var v := WriteValue(req, i);
      match AccessOf(e, cbs, true)
      case NoAccess => WriteRun(IllegalDataAddress, memory, calls)
      case Direct(p) => WriteRun(NullException, memory[p := DirectWrite(memory[p], v)], calls)
      case Handler(id) =>
        var c := UserWrite(id, v, e);
        assert (calls + [c])[..|calls|] == calls;
        WriteRun(if writer(id, v, e) then NullException else SlaveDeviceFailure, memory, calls + [c])
  }

  /**
   * The write loop from position i, stopping at the first position that
   * fails. It changes no variable set. It only appends handler calls, each
   * accounted for by a position of the range. When the rest of the range is
   * accessible it never stops with ILLEGAL_DATA_ADDRESS.
   */
  function WritesFrom(s: seq<Entry>, cbs: seq<CallbackPair>, writer: (nat, u16, Entry) -> bool, req: FrameValue,
                      i: nat, n: nat, memory: map<nat, u32>, calls: seq<UserWrite>): (r: WriteRun)
    requires PointersIn(s, memory) && i <= n && WriteFits(req, n)
    ensures r.ec in {NullException, IllegalDataAddress, SlaveDeviceFailure}
    ensures r.memory.Keys == memory.Keys
    ensures |calls| <= |r.calls| && r.calls[..|calls|] == calls
    ensures forall k :: |calls| <= k < |r.calls| ==> CallInRange(s, cbs, req, r.calls[k], i, n)
    ensures AllAccessible(s, cbs, req.regAddress + i, n - i, true) ==> r.ec != IllegalDataAddress
    decreases n - i
  {
    if i == n then WriteRun(NullException, memory, calls)
    else
      var w := WriteAt(s, cbs, writer, req, i, memory, calls);
      if w.ec != NullException then w
      else
        var r := WritesFrom(s, cbs, writer, req, i + 1, n, w.memory, w.calls);
        assert r.calls[..|calls|] == r.calls[..|w.calls|][..|calls|];
        assert w.calls != calls ==> r.calls[|calls|] == w.calls[|calls|];
        r
  }

  /**
   * `handleWrite`: a zero count is ILLEGAL_DATA_VALUE and a range past the
   * address space ILLEGAL_DATA_ADDRESS, both before any write. With
   * `rejectUndefined` a range that passed the pre-scan fails only by a
   * handler's refusal. Every handler call belongs to a register in the range.
   */
  function WriteOutcome(s: seq<Entry>, cbs: seq<CallbackPair>, memory: map<nat, u32>, writer: (nat, u16, Entry) -> bool,
                        req: FrameValue, reject: bool): (w: WriteRun)
    requires PointersIn(s, memory) && WriteFits(req, req.regCount)
    ensures w.ec in {NullException, IllegalDataValue, IllegalDataAddress, SlaveDeviceFailure}
    ensures w.memory.Keys == memory.Keys
    ensures req.regCount == 0 ==> w.ec == IllegalDataValue && w.memory == memory && w.calls == []
    ensures req.regCount > 0 && EndBeyond(req.regAddress, req.regCount) ==>
      w.ec == IllegalDataAddress && w.memory == memory && w.calls == []
    ensures reject && req.regCount > 0 && !EndBeyond(req.regAddress, req.regCount) ==>
      (w.ec == IllegalDataAddress <==> !AllAccessible(s, cbs, req.regAddress, req.regCount, true))
    ensures forall k :: 0 <= k < |w.calls| ==> CallInRange(s, cbs, req, w.calls[k], 0, req.regCount)
  {
    if req.regCount == 0 then WriteRun(IllegalDataValue, memory, [])
    else if EndBeyond(req.regAddress, req.regCount) then WriteRun(IllegalDataAddress, memory, [])
    else if reject && !AllAccessible(s, cbs, req.regAddress, req.regCount, true) then WriteRun(IllegalDataAddress, memory, [])
    else WritesFrom(s, cbs, writer, req, 0, req.regCount, memory, [])
  }

  // ---------------------------------------------------------------------------
  // Requests
  // ---------------------------------------------------------------------------

  /** What the request path relies on from the decoder: register data fits the 125-word data field. */
  predicate WithinFrame(req: FrameValue)
  {
    req.fc in {ReadHoldingRegisters, ReadInputRegisters, WriteCoil, WriteRegister, WriteMultipleRegisters} ==>
      req.regCount <= FrameDataSize
  }

  /** The data a single write echoes: the request's first n words, zero after. */
  function EchoData(req: FrameValue, n: nat): FrameData
    requires n <= FrameDataSize
  {
    req.data[..n] + ZeroData[n..]
  }

  /** What serving a request did: the result, the frame sent (if any), the variables and the handler calls. */
  datatype Handled = Handled(result: Result, sent: Option<FrameValue>, memory: map<nat, u32>, calls: seq<UserWrite>)

  /** Echoes the request header as a RESPONSE. */
  predicate Answers(resp: FrameValue, req: FrameValue)
  {
    resp.msgType == Response && resp.fc == req.fc && resp.slaveId == req.slaveId &&
    resp.regAddress == req.regAddress && resp.regCount == req.regCount
  }

  /**
   * The response `handleRead` or `handleWrite` leaves, with the variables
   * and handler calls. The response answers the request. A read changes
   * no variable and calls no write handler.
   */
  function Served(tb: Tables, memory: map<nat, u32>, reader: (nat, Entry) -> u16, writer: (nat, u16, Entry) -> bool,
                  req: FrameValue, reject: bool): (r: (FrameValue, map<nat, u32>, seq<UserWrite>))
    requires WellFormed(tb, memory) && WithinFrame(req) && ToRegisterType(req.fc) in RegisterTypes
    ensures Answers(r.0, req)
    ensures r.1.Keys == memory.Keys
    ensures !S.IsWrite(req.fc) ==> r.1 == memory && r.2 == []
  {
    var s := tb.stores[ToRegisterType(req.fc)];
    if S.IsWrite(req.fc) then
      var w := WriteOutcome(s, tb.cbs, memory, writer, req, reject);
      var data := if w.ec == NullException && (req.fc == WriteRegister || req.fc == WriteCoil)
                  then EchoData(req, req.regCount) else ZeroData;
      (FrameValue(Response, req.fc, req.slaveId, req.regAddress, req.regCount, data, w.ec), w.memory, w.calls)
    else
      var r := ReadReply(s, tb.cbs, memory, reader, req, reject);
      (FrameValue(Response, req.fc, req.slaveId, req.regAddress, req.regCount, r.data, r.ec), memory, [])
  }

  /**
   * `handleRequest`. A held lock is ERR_RCV_BUSY. A request for another
   * slave (outside catch-all mode, not broadcast) is dropped. So is a frame
   * that is not a request, and a broadcast read. An invalid function code
   * is answered ILLEGAL_FUNCTION. Otherwise the request is served and the
   * response sent, except to a broadcast.
   *
   * A broadcast gets no reply and a reply answers the request. A read
   * changes no variable and calls no write handler. The wrong-slave drop
   * happens exactly outside catch-all mode, for a unicast request to
   * another ID. Success needs a request with a supported function code.
   */
  function HandleSpec(serverId: byte, catchAll: bool, reject: bool, tb: Tables, memory: map<nat, u32>,
                      reader: (nat, Entry) -> u16, writer: (nat, u16, Entry) -> bool,
                      req: FrameValue, locked: bool, sendOk: bool): (h: Handled)
    requires WellFormed(tb, memory) && WithinFrame(req)
    ensures IsBroadcastId(req.slaveId) ==> h.sent.None?
    ensures h.sent.Some? ==> Answers(h.sent.value, req)
    ensures !S.IsWrite(req.fc) ==> h.memory == memory && h.calls == []
    ensures h.result == ErrRcvWrongSlaveId <==>
      (locked && !(IsBroadcastId(serverId) || catchAll) && req.slaveId != serverId && !IsBroadcastId(req.slaveId))
    ensures h.result == Success ==> locked && req.msgType == Request && IsSupportedFunctionCode(req.fc)
    ensures h.memory.Keys == memory.Keys
  {
    var broadcast := IsBroadcastId(req.slaveId);
    if !locked then Handled(ErrRcvBusy, None, memory, [])
    else if !(IsBroadcastId(serverId) || catchAll) && req.slaveId != serverId && !broadcast then
      Handled(ErrRcvWrongSlaveId, None, memory, [])
    else if req.msgType != Request then Handled(ErrRcvInvalidType, None, memory, [])
    else if broadcast && !S.IsWrite(req.fc) then Handled(ErrRcvIllegalFunction, None, memory, [])
    else if !IsValidFunctionCode(req.fc) || ToRegisterType(req.fc) !in RegisterTypes then
      Handled(ErrRcvIllegalFunction, if broadcast then None else Some(ExceptionResponse(req, IllegalFunction)), memory, [])
    else
      var (resp, mem, calls) := Served(tb, memory, reader, writer, req, reject);
      if broadcast then Handled(Success, None, mem, calls)
      else Handled(if sendOk then Success else ErrRspTxFailed, Some(resp), mem, calls)
  }

  // ---------------------------------------------------------------------------
  // The server object
  // ---------------------------------------------------------------------------

  /** A batch whose value variables all exist. */
  predicate PointersExist(regs: seq<Register>, memory: map<nat, u32>)
  {
    forall i :: 0 <= i < |regs| ==> (regs[i].value.Some? ==> regs[i].value.value in memory)
  }

  /**
   * The legacy server. `capacity` stands for MAX_REGISTERS, `memory` for
   * the user variables the registers' value pointers name.
   */
  class Server {
    const serverId: byte
    const rejectUndefined: bool
    const capacity: nat
    const ifaceRole: Role
    var stores: map<RegisterType, seq<Entry>>
    var cbStore: seq<CallbackPair>
    var memory: map<nat, u32>

    function Current(): Tables
      reads this
    {
      Tables(stores, cbStore)
    }

    /** Four ordered stores within capacity whose entries' variables and callback pairs exist. */
    predicate Valid()
      reads this
    {
      WellFormed(Current(), memory) && Bounded(Current(), capacity)
    }

    constructor (ifaceRole: Role, slaveId: byte, rejectUndefined: bool, capacity: nat, memory: map<nat, u32>)
      ensures Valid()
      ensures this.ifaceRole == ifaceRole && serverId == slaveId && this.rejectUndefined == rejectUndefined
      ensures this.capacity == capacity && this.memory == memory
      ensures Current() == EmptyTables
    {
      this.ifaceRole := ifaceRole;
      this.serverId := slaveId;
      this.rejectUndefined := rejectUndefined;
      this.capacity := capacity;
      this.memory := memory;
      stores := EmptyTables.stores;
      cbStore := [];
    }

    /** `begin`: only a server-role interface that takes the receive callback starts the server. */
    method Begin(callbackSet: bool) returns (r: Result)
      ensures r == Success <==> ifaceRole == Role.Server && callbackSet
      ensures r != Success ==> r == ErrInitFailed
    {
      if ifaceRole != Role.Server {
        return ErrInitFailed;
      }
      if !callbackSet {
        return ErrInitFailed;
      }
      return Success;
    }

    /**
     * `setRegisterCount` only reserves memory: a count over the capacity is
     * ERR_REG_OVERFLOW, then a held lock ERR_REG_BUSY, then an invalid type
     * ERR_REG_INVALID_TYPE.
     */
    method SetRegisterCount(t: RegisterType, count: u16, locked: bool) returns (r: Result)
      ensures count > capacity ==> r == ErrRegOverflow
      ensures r == Success <==> count <= capacity && locked && IsValidRegisterType(t)
      ensures r in {Success, ErrRegOverflow, ErrRegBusy, ErrRegInvalidType}
      ensures count <= capacity && !locked ==> r == ErrRegBusy
    {
      if count > capacity {
        return ErrRegOverflow;
      }
      if !locked {
        return ErrRegBusy;
      }
      if !IsValidRegisterType(t) {
        return ErrRegInvalidType;
      }
      return Success;
    }

    /** `std::lower_bound` by address, a binary search over an ordered store. */
    static method Locate(s: seq<Entry>, addr: int) returns (k: nat)
      requires AddressOrdered(s)
      ensures k == LowerBound(s, addr)
    {
      var lo, hi := 0, |s|;
      while lo < hi
        invariant 0 <= lo <= hi <= |s|
        invariant forall j :: 0 <= j < lo ==> s[j].address < addr
        invariant forall j :: hi <= j < |s| ==> addr <= s[j].address
      {
        var mid := (lo + hi) / 2;
        if s[mid].address < addr {
          lo := mid + 1;
        } else {
          hi := mid;
        }
      }
      LowerBoundIs(s, addr, lo);
      return lo;
    }

    /** `findRegisterEntry` on one store. */
    static method Find(s: seq<Entry>, addr: int) returns (e: Option<Entry>)
      requires AddressOrdered(s)
      ensures e == FindEntry(s, addr)
    {
      var k := Locate(s, addr);
      if k < |s| && s[k].address == addr {
        return Some(s[k]);
      }
      return None;
    }

    /** `getRegister`: the stored register with its handlers, or the empty register. */
    method GetRegister(t: RegisterType, addr: u16) returns (reg: Register)
      requires Valid()
      ensures reg == RegisterAt(Current(), t, addr)
    {
      if t !in stores {
        return NoRegister;
      }
      var e := Find(stores[t], addr);
      if e.None? {
        return NoRegister;
      }
      var x := e.value;
      if x.cbIndex.None? {
        return Register(x.rtype, x.address, x.value, None, None);
      }
      return Register(x.rtype, x.address, x.value, cbStore[x.cbIndex.value].readCb, cbStore[x.cbIndex.value].writeCb);
    }

    /** `addRegisterInternal`, with the corrected insertion. */
    method AddInternal(reg: Register)
      requires WellFormed(Current(), memory) && Storable(reg, memory)
      modifies this
      ensures Current() == Add(old(Current()), reg)
      ensures memory == old(memory)
    {
      var n := |cbStore|;
      if reg.readCb.Some? || reg.writeCb.Some? {
        cbStore := cbStore + [CallbackPair(reg.readCb, reg.writeCb)];
      }
      var s := stores[reg.rtype];
      var e := EntryOf(reg, n);
      var k := Locate(s, reg.address);
      if k < |s| && s[k].address == reg.address {
        stores := stores[reg.rtype := s[k := e]];
      } else {
        stores := stores[reg.rtype := s[..k] + [e] + s[k..]];
      }
    }

    /**
     * `addRegister`: the result follows the lock, the register's validity
     * and the capacity check. An accepted register is stored and found at its
     * address. A refused one changes nothing. The stores stay within
     * capacity.
     */
    method AddRegister(reg: Register, locked: bool) returns (r: Result)
      requires Valid() && (reg.value.Some? ==> reg.value.value in memory)
      modifies this
      ensures Valid() && memory == old(memory)
      ensures r == AddRegisterResult(old(Current()), capacity, reg, locked)
      ensures r == Success ==> stores == Add(old(Current()), reg).stores && cbStore == Add(old(Current()), reg).cbs
      ensures r == Success ==> FindEntry(stores[reg.rtype], reg.address) == Some(EntryOf(reg, |old(cbStore)|))
      ensures r != Success ==> stores == old(stores) && cbStore == old(cbStore)
    {
      if !locked {
        return ErrRegBusy;
      }
      r := EntryCheck(reg);
      if r != Success {
        return r;
      }
      var found := Find(stores[reg.rtype], reg.address);
      if found.None? && |stores[reg.rtype]| + 1 > capacity {
        return ErrRegOverflow;
      }
      AcceptedRegisterStored(Current(), memory, capacity, reg, locked);
      AddInternal(reg);
      return Success;
    }

    /** The validation pass of `addRegisters`, counting per type the registers whose address is new. */
    method ValidateBatch(regs: seq<Register>) returns (bad: nat, newCount: seq<nat>)
      requires Valid()
      ensures bad == FirstInvalid(regs)
      ensures bad == |regs| ==> |newCount| == 5 && forall t :: t in RegisterTypes ==> newCount[t] == NewCount(Current(), regs, t)
    {
      newCount := [0, 0, 0, 0, 0];
      var i := 0;
      while i < |regs|
        invariant 0 <= i <= |regs| && |newCount| == 5
        invariant i <= FirstInvalid(regs)
        invariant forall t :: t in RegisterTypes ==> newCount[t] == NewCount(Current(), regs[..i], t)
      {
        var reg := regs[i];
        if EntryCheck(reg) != Success {
          return i, newCount;
        }
        newCount := CountNew(reg, newCount);
        NewCountStep(Current(), regs, i);
        i := i + 1;
      }
      assert regs[..i] == regs;
      return i, newCount;
    }

    /** `newCount[reg.type]++` when the register's address is not in its store yet. */
    method CountNew(reg: Register, newCount: seq<nat>) returns (counted: seq<nat>)
      requires Valid() && IsValidRegisterType(reg.rtype) && |newCount| == 5
      ensures |counted| == 5 && forall t :: t in RegisterTypes ==> counted[t] == newCount[t] + NewOne(Current(), reg, t)
    {
      var found := Find(stores[reg.rtype], reg.address);
      counted := if found.None? then newCount[reg.rtype := newCount[reg.rtype] + 1] else newCount;
    }

    /** The capacity pass of `addRegisters`: types COIL to INPUT_REGISTER in turn. */
    method BatchOverflows(regs: seq<Register>, newCount: seq<nat>) returns (over: bool)
      requires Valid() && |newCount| == 5
      requires forall t :: t in RegisterTypes ==> newCount[t] == NewCount(Current(), regs, t)
      ensures over == Overflows(Current(), regs, capacity)
    {
      var t := 1;
      while t <= 4
        invariant 1 <= t <= 5
        invariant forall u :: 1 <= u < t ==> !OverflowsType(Current(), regs, capacity, u)
      {
        if |stores[t]| + newCount[t] > capacity {
          return true;
        }
        t := t + 1;
      }
      return false;
    }

    /** The insertion pass of `addRegisters`: every register of the batch, in order. */
    method InsertBatch(regs: seq<Register>)
      requires Valid() && AllStorable(regs, memory) && !Overflows(Current(), regs, capacity)
      modifies this
      ensures Valid() && memory == old(memory)
      ensures stores == AddAll(old(Current()), regs).stores && cbStore == AddAll(old(Current()), regs).cbs
    {
      ghost var tb0 := Current();
      AcceptedBatchBounded(tb0, memory, capacity, regs);
      var i := 0;
      while i < |regs|
        invariant 0 <= i <= |regs| && memory == old(memory)
        invariant Current() == AddAll(tb0, regs[..i])
        invariant WellFormed(Current(), memory)
      {
        assert regs[..i + 1][..i] == regs[..i];
        assert AllStorable(regs[..i + 1], memory);
        AddAllWellFormed(tb0, memory, regs[..i + 1]);
        AddInternal(regs[i]);
        i := i + 1;
      }
      assert regs[..i] == regs;
    }

    /**
     * `addRegisters`: all or nothing. The result follows the lock, the first
     * invalid register and the per-type capacity check. An accepted batch is
     * stored in order and the stores stay within capacity.
     */
    method AddRegisters(regs: seq<Register>, locked: bool) returns (r: Result)
      requires Valid() && PointersExist(regs, memory)
      modifies this
      ensures Valid() && memory == old(memory)
      ensures r == AddRegistersResult(old(Current()), capacity, regs, locked)
      ensures r == Success ==> stores == AddAll(old(Current()), regs).stores && cbStore == AddAll(old(Current()), regs).cbs
      ensures r != Success ==> stores == old(stores) && cbStore == old(cbStore)
    {
      if !locked {
        return ErrRegBusy;
      }
      var bad, newCount := ValidateBatch(regs);
      if bad < |regs| {
        return EntryCheck(regs[bad]);
      }
      var over := BatchOverflows(regs, newCount);
      if over {
        return ErrRegOverflow;
      }
      InsertBatch(regs);
      return Success;
    }

    /** `clearAllRegisters`: with the lock, every store and the callback vector are emptied. */
    method ClearAllRegisters(locked: bool) returns (r: Result)
      requires Valid()
      modifies this
      ensures Valid() && memory == old(memory)
      ensures r == Success <==> locked
      ensures r != Success ==> r == ErrRegBusy && Current() == old(Current())
      ensures r == Success ==> Current() == EmptyTables
    {
      if !locked {
        return ErrRegBusy;
      }
      stores := EmptyTables.stores;
      cbStore := [];
      return Success;
    }

    // -------------------------------------------------------------------------
    // Serving requests
    // -------------------------------------------------------------------------

    /** `findRegisterEntry` then `findReadCallback` and the call, for one address. */
    static method ReadAt(s: seq<Entry>, cbs: seq<CallbackPair>, memory: map<nat, u32>,
                         reader: (nat, Entry) -> u16, addr: int) returns (v: Option<u16>)
      requires AddressOrdered(s) && PointersIn(s, memory)
      ensures v == RegisterValue(s, cbs, memory, reader, addr)
    {
      var e := Find(s, addr);
      if e.None? {
        return Some(0);
      }
      var x := e.value;
      if x.value.Some? {
        return Some(DirectRead(memory[x.value.value]));
      }
      if x.cbIndex.None? || x.cbIndex.value >= |cbs| {
        return None;
      }
      var cb := cbs[x.cbIndex.value].readCb;
      if cb.None? {
        return None;
      }
      return Some(reader(cb.value, x));
    }

    /** The `rejectUndefined` pre-scan of a range, for reads or for writes. */
    method CheckAccessible(t: RegisterType, start: int, n: nat, forWrite: bool) returns (ok: bool)
      requires Valid() && t in RegisterTypes
      ensures ok == AllAccessible(stores[t], cbStore, start, n, forWrite)
    {
      var i := 0;
      while i < n
        invariant 0 <= i <= n
        invariant forall a :: start <= a < start + i ==> Accessible(stores[t], cbStore, a, forWrite)
      {
        var e := Find(stores[t], start + i);
        if e.None? || AccessOf(e.value, cbStore, forWrite) == NoAccess {
          assert !Accessible(stores[t], cbStore, start + i, forWrite);
          return false;
        }
        i := i + 1;
      }
      return true;
    }

    /** The coil gathering loop of `handleRead`. */
    method GatherCoils(t: RegisterType, start: int, n: nat, reader: (nat, Entry) -> u16) returns (bits: seq<bool>)
      requires Valid() && t in RegisterTypes
      ensures bits == CoilBits(stores[t], cbStore, memory, reader, start, n)
    {
      bits := [];
      var i := 0;
      while i < n
        invariant 0 <= i <= n && |bits| == i
        invariant forall j :: 0 <= j < i ==> bits[j] == CoilValue(stores[t], cbStore, memory, reader, start + j)
      {
        var v := ReadAt(stores[t], cbStore, memory, reader, start + i);
        bits := bits + [v.Some? && v.value != 0];
        i := i + 1;
      }
    }

    /** The register loop of `handleRead`, filling the response data in place. */
    static method ReadRegisters(s: seq<Entry>, cbs: seq<CallbackPair>, memory: map<nat, u32>,
                                reader: (nat, Entry) -> u16, start: int, n: nat) returns (rep: Reply)
      requires AddressOrdered(s) && PointersIn(s, memory) && n <= FrameDataSize
      ensures rep == RegistersFrom(s, cbs, memory, reader, start, 0, n, ZeroData)
    {
      var data := ZeroData;
      var i := 0;
      while i < n
        invariant 0 <= i <= n && |data| == FrameDataSize
        invariant RegistersFrom(s, cbs, memory, reader, start, 0, n, ZeroData) ==
                  RegistersFrom(s, cbs, memory, reader, start, i, n, data)
      {
        var v := ReadAt(s, cbs, memory, reader, start + i);
        assert ValueAt(s, cbs, memory, reader, start, i) == v;
        if v.None? {
          assert RegistersFrom(s, cbs, memory, reader, start, i, n, data) == Reply(IllegalDataAddress, data);
          return Reply(IllegalDataAddress, data);
        }
        data := data[i := v.value];
        i := i + 1;
      }
      return Reply(NullException, data);
    }

    /** `handleRead`: the range guard, the pre-scan, then packed coils or the register loop. */
    method HandleRead(req: FrameValue, reader: (nat, Entry) -> u16) returns (rep: Reply)
      requires Valid() && WithinFrame(req) && ToRegisterType(req.fc) in RegisterTypes && !S.IsWrite(req.fc)
      ensures rep == ReadReply(stores[ToRegisterType(req.fc)], cbStore, memory, reader, req, rejectUndefined)
    {
      var t := ToRegisterType(req.fc);
      if req.regAddress + req.regCount > MaxRegAddr + 1 {
        return Reply(IllegalDataAddress, ZeroData);
      }
      if rejectUndefined {
        var ok := CheckAccessible(t, req.regAddress, req.regCount, false);
        if !ok {
          return Reply(IllegalDataAddress, ZeroData);
        }
      }
      if req.fc == ReadCoils || req.fc == ReadDiscreteInputs {
        var bits := GatherCoils(t, req.regAddress, req.regCount, reader);
        var data := PackCoils(bits);
        return Reply(NullException, data);
      }
      rep := ReadRegisters(stores[t], cbStore, memory, reader, req.regAddress, req.regCount);
    }

    /** One pass of the write loop: the register at position i takes its value, through its variable or its handler. */
    static method WriteOne(s: seq<Entry>, cbs: seq<CallbackPair>, writer: (nat, u16, Entry) -> bool, req: FrameValue,
                           i: nat, memory: map<nat, u32>, calls: seq<UserWrite>)
      returns (ec: byte, memory': map<nat, u32>, made: seq<UserWrite>)
      requires AddressOrdered(s) && PointersIn(s, memory) && WriteFits(req, i + 1)
      ensures WriteRun(ec, memory', made) == WriteAt(s, cbs, writer, req, i, memory, calls)
    {
      var e := Find(s, req.regAddress + i);
      if e.None? {
        return NullException, memory, calls;
      }
      var x := e.value;
      var v := WriteValue(req, i);
      var access := AccessOf(x, cbs, true);
      match access
      case NoAccess =>
        return IllegalDataAddress, memory, calls;
      case Direct(p) =>
        return NullException, memory[p := DirectWrite(memory[p], v)], calls;
      case Handler(id) =>
        var accepted := writer(id, v, x);
        return if accepted then NullException else SlaveDeviceFailure, memory, calls + [UserWrite(id, v, x)];
    }

    /** The write loop of `handleWrite`, stopping at the first failure. */
    static method WriteLoop(s: seq<Entry>, cbs: seq<CallbackPair>, writer: (nat, u16, Entry) -> bool, req: FrameValue,
                            n: nat, memory: map<nat, u32>)
      returns (ec: byte, memory': map<nat, u32>, calls: seq<UserWrite>)
      requires AddressOrdered(s) && PointersIn(s, memory) && WriteFits(req, n)
      ensures WriteRun(ec, memory', calls) == WritesFrom(s, cbs, writer, req, 0, n, memory, [])
    {
      memory' := memory;
      calls := [];
      var i := 0;
      while i < n
        invariant 0 <= i <= n && memory'.Keys == memory.Keys
        invariant WritesFrom(s, cbs, writer, req, 0, n, memory, []) ==
                  WritesFrom(s, cbs, writer, req, i, n, memory', calls)
      {
        ec, memory', calls := WriteOne(s, cbs, writer, req, i, memory', calls);
        if ec != NullException {
          return;
        }
        i := i + 1;
      }
      return NullException, memory', calls;
    }

    /** `handleWrite`: a zero count, the range guard and the pre-scan come before any write. */
    method HandleWrite(req: FrameValue, writer: (nat, u16, Entry) -> bool) returns (ec: byte, calls: seq<UserWrite>)
      requires Valid() && WithinFrame(req) && ToRegisterType(req.fc) in RegisterTypes && S.IsWrite(req.fc)
      modifies this`memory
      ensures Valid()
      ensures var w := WriteOutcome(stores[ToRegisterType(req.fc)], cbStore, old(memory), writer, req, rejectUndefined);
        ec == w.ec && memory == w.memory && calls == w.calls
    {
      var t := ToRegisterType(req.fc);
      if req.regCount == 0 {
        return IllegalDataValue, [];
      }
      if req.regAddress + req.regCount > MaxRegAddr + 1 {
        return IllegalDataAddress, [];
      }
      if rejectUndefined {
        var ok := CheckAccessible(t, req.regAddress, req.regCount, true);
        if !ok {
          return IllegalDataAddress, [];
        }
      }
      ec, memory, calls := WriteLoop(stores[t], cbStore, writer, req, req.regCount, memory);
    }

    /** The response of a request the server serves, with the echo of a single write. */
    method Serve(req: FrameValue, reader: (nat, Entry) -> u16, writer: (nat, u16, Entry) -> bool)
      returns (resp: FrameValue, calls: seq<UserWrite>)
      requires Valid() && WithinFrame(req) && ToRegisterType(req.fc) in RegisterTypes
      modifies this`memory
      ensures Valid()
      ensures var o := Served(Current(), old(memory), reader, writer, req, rejectUndefined);
        resp == o.0 && memory == o.1 && calls == o.2
    {
      if S.IsWrite(req.fc) {
        var ec;
        ec, calls := HandleWrite(req, writer);
        var data := if ec == NullException && (req.fc == WriteRegister || req.fc == WriteCoil)
                    then EchoData(req, req.regCount) else ZeroData;
        resp := FrameValue(Response, req.fc, req.slaveId, req.regAddress, req.regCount, data, ec);
      } else {
        var rep := HandleRead(req, reader);
        resp := FrameValue(Response, req.fc, req.slaveId, req.regAddress, req.regCount, rep.data, rep.ec);
        calls := [];
      }
    }

    /**
     * `handleRequest`: the drops, the ILLEGAL_FUNCTION answer, then the
     * served response, sent unless the request was broadcast.
     */
    method HandleRequest(req: FrameValue, catchAll: bool, locked: bool, sendOk: bool,
                         reader: (nat, Entry) -> u16, writer: (nat, u16, Entry) -> bool)
      returns (r: Result, sent: Option<FrameValue>, calls: seq<UserWrite>)
      requires Valid() && WithinFrame(req)
      modifies this`memory
      ensures Valid()
      ensures var h := HandleSpec(serverId, catchAll, rejectUndefined, Current(), old(memory), reader, writer, req, locked, sendOk);
        r == h.result && sent == h.sent && memory == h.memory && calls == h.calls
    {
      if !locked {
        return ErrRcvBusy, None, [];
      }
      var catchAllMode := IsBroadcastId(serverId) || catchAll;
      var broadcast := IsBroadcastId(req.slaveId);
      if !catchAllMode && req.slaveId != serverId && !broadcast {
        return ErrRcvWrongSlaveId, None, [];
      }
      if req.msgType != Request {
        return ErrRcvInvalidType, None, [];
      }
      if broadcast && !S.IsWrite(req.fc) {
        return ErrRcvIllegalFunction, None, [];
      }
      if !IsValidFunctionCode(req.fc) || ToRegisterType(req.fc) !in RegisterTypes {
        return ErrRcvIllegalFunction, if broadcast then None else Some(ExceptionResponse(req, IllegalFunction)), [];
      }
      var resp;
      resp, calls := Serve(req, reader, writer);
      if broadcast {
        return Success, None, calls;
      }
      return if sendOk then Success else ErrRspTxFailed, Some(resp), calls;
    }
  }
}
