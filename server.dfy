/**
 * The word-based Modbus server object (src/apps/ModbusServer.cpp): it owns a
 * word store, registers words into it, checks it once at `begin()`, and
 * answers requests by walking the store.
 *
 * Outside the model and passed in as parameters: the outcome of taking the
 * server lock, what each interface reports when `begin()` starts it, the
 * interface's catch-all setting, whether sending a reply succeeded, and the
 * user handlers (`Handlers`).
 */
module ModbusServerApp {
  import opened Wrappers
  import opened ModbusCore
  import opened ModbusFrame
  import opened ModbusWordStore
  import opened ModbusServerSpec

  /** A bound interface as the server sees it: its role. */
  datatype Port = Port(role: Role)

  /** What starting one interface reported: its own `begin()` and the receive-callback registration. */
  datatype PortStart = PortStart(beginOk: bool, callbackOk: bool)

  /** Some interface is not a server, or does not start, or refuses the callback. */
  predicate PortsFail(ports: seq<Port>, starts: seq<PortStart>)
    requires |starts| == |ports|
  {
    exists i :: 0 <= i < |ports| && (ports[i].role != Role.Server || !starts[i].beginOk || !starts[i].callbackOk)
  }

  class Server {
    const serverId: byte
    const rejectUndefined: bool
    const ports: seq<Port>
    const store: WordStore
    var isInitialized: bool

    /**
     * Every stored word passed registration; once running, the store is in
     * sorted mode and no two words of a type overlap.
     */
    ghost predicate Valid()
      reads this, store, store.words
    {
      && store.Valid()
      && AllAcceptable(store.Contents())
      && (isInitialized ==> store.sorted && SameTypeDisjoint(store.Contents()))
    }

    /**
     * The interface-list constructor: more than maxInterfaces interfaces
     * leaves the list empty, which `begin()` then refuses. The
     * single-interface constructor is the list of one.
     */
    constructor (interfaces: seq<Port>, store: WordStore, slaveId: byte, rejectUndefined: bool, maxInterfaces: nat)
      requires store.Valid() && AllAcceptable(store.Contents())
      ensures Valid() && !isInitialized
      ensures this.store == store && serverId == slaveId && this.rejectUndefined == rejectUndefined
      ensures ports == if |interfaces| > maxInterfaces then [] else interfaces
    {
      this.serverId := slaveId;
      this.rejectUndefined := rejectUndefined;
      this.store := store;
      this.ports := if |interfaces| > maxInterfaces then [] else interfaces;
      isInitialized := false;
    }

    /** The interface loop of `begin()`: every interface must be a server and start. */
    method StartPorts(starts: seq<PortStart>) returns (ok: bool)
      requires |starts| == |ports|
      ensures ok <==> !PortsFail(ports, starts)
    {
      var i := 0;
      while i < |ports|
        invariant 0 <= i <= |ports|
        invariant forall j :: 0 <= j < i ==> ports[j].role == Role.Server && starts[j].beginOk && starts[j].callbackOk
      {
        if ports[i].role != Role.Server || !starts[i].beginOk || !starts[i].callbackOk {
          return false;
        }
        i := i + 1;
      }
      ok := true;
    }

    /**
     * The overlap check `begin()` needs on the sorted store: every word of
     * type t is compared with the largest end among the earlier words of
     * type t. Unlike `validateNoOverlapsInStore` as written
     * (`NoOverlapsAsWritten`), it also sees a word at address 0 and words
     * sharing a start address.
     */
    method NoOverlapsOfType(t: RegisterType) returns (ok: bool)
      requires store.Valid() && Sorted(store.Contents()) && NonEmptyWords(store.Contents())
      ensures ok <==> TypeDisjoint(store.Contents(), t)
    {
      ghost var ws := store.Contents();
      var maxEnd: nat := 0;
      ghost var holder: int := -1;
      var i := 0;
      while i < store.count
        invariant 0 <= i <= store.count
        invariant TypeDisjoint(ws[..i], t)
        invariant forall j :: 0 <= j < i && ws[j].rtype == t ==> End(ws[j]) <= maxEnd
        invariant -1 <= holder < i
        invariant holder >= 0 ==> ws[holder].rtype == t && End(ws[holder]) == maxEnd
        invariant holder < 0 ==> maxEnd == 0
      {
        var w := store.words[i];
        assert w == ws[i];
        if w.rtype == t {
          if maxEnd > w.startAddr as nat {
            assert Clashes(ws[holder], ws[i]);
            return false;
          }
          maxEnd := End(w);
          holder := i;
        }
        assert ws[..i + 1] == ws[..i] + [ws[i]];
        i := i + 1;
      }
      assert ws[..i] == ws;
      ok := true;
    }

    /**
     * `begin()`: a second call succeeds at once; no interface, or one that is
     * not a server or does not start, is ERR_INIT_FAILED; otherwise the store
     * is sorted and any same-type overlap is ERR_WORD_OVERLAP. Success, and
     * only success, leaves the server running.
     */
    method Begin(starts: seq<PortStart>) returns (r: Result)
      requires Valid() && |starts| == |ports|
      modifies this, store, store.words
      ensures Valid()
      ensures isInitialized <==> r == Success
      ensures old(isInitialized) ==> r == Success && store.Contents() == old(store.Contents())
      ensures !old(isInitialized) && (ports == [] || PortsFail(ports, starts)) ==>
        r == ErrInitFailed && store.Contents() == old(store.Contents())
      ensures !old(isInitialized) && ports != [] && !PortsFail(ports, starts) ==>
        && Sorted(store.Contents()) && multiset(store.Contents()) == multiset(old(store.Contents()))
        && (r == Success <==> SameTypeDisjoint(store.Contents()))
        && (r != Success ==> r == ErrWordOverlap)
    {
      if isInitialized {
        return Success;
      }
      if |ports| == 0 {
        return ErrInitFailed;
      }
      var started := StartPorts(starts);
      if !started {
        return ErrInitFailed;
      }
      ghost var before := store.Contents();
      store.SortAll();
      ghost var ws := store.Contents();
      forall x | x in ws ensures AcceptableWord(x) {
        assert x in multiset(ws);
        assert x in before;
      }
      AcceptableNonEmpty(ws);
      var ok := NoOverlapsOfType(Coil);
      if ok {
        ok := NoOverlapsOfType(DiscreteInput);
      }
      if ok {
        ok := NoOverlapsOfType(InputRegister);
      }
      if ok {
        ok := NoOverlapsOfType(HoldingRegister);
      }
      if !ok {
        return ErrWordOverlap;
      }
      TypeDisjointAll(ws);
      isInitialized := true;
      r := Success;
    }

    /** `clearAllWords()`: refused while the lock is held elsewhere; otherwise the store is emptied. */
    method ClearAllWords(locked: bool) returns (r: Result)
      requires Valid()
      modifies store
      ensures Valid()
      ensures r == (if locked then Success else ErrWordBusy)
      ensures store.Contents() == if locked then [] else old(store.Contents())
    {
      if !locked {
        return ErrWordBusy;
      }
      store.ClearAll();
      r := Success;
    }

    /** `isBusy()`: before `begin()`, or while the lock is held elsewhere. */
    function IsBusy(locked: bool): (r: bool)
      reads this
      ensures r <==> !isInitialized || !locked
    {
      if !isInitialized then true else !locked
    }

    /**
     * `addWord(word)`: refused while locked elsewhere, then by the
     * registration rules, then (once running) by an overlap with the store;
     * the store's own refusal is ERR_WORD_OVERFLOW.
     */
    method AddWord(w: Word, locked: bool) returns (r: Result)
      requires Valid()
      modifies store, store.words
      ensures Valid() && store.sorted == old(store.sorted)
      ensures !locked ==> r == ErrWordBusy
      ensures locked && WordEntryCheck(w) != Success ==> r == WordEntryCheck(w)
      ensures locked && WordEntryCheck(w) == Success && isInitialized && OverlapsAny(old(store.Contents()), w) ==>
        r == ErrWordOverlap
      ensures locked && WordEntryCheck(w) == Success && !(isInitialized && OverlapsAny(old(store.Contents()), w)) ==>
        (r == Success || r == ErrWordOverflow) && (r == Success <==> store.count == old(store.count) + 1)
      ensures r == Success ==> store.Contents() == InsertOne(old(store.Contents()), store.sorted, w)
      ensures r != Success ==> store.Contents() == old(store.Contents())
      ensures r == ErrWordOverflow ==>
        old(store.count) == store.TotalCapacity() || (store.sorted && OverlapsAny(old(store.Contents()), w))
    {
      if !locked {
        return ErrWordBusy;
      }
      var res := WordEntryCheck(w);
      if res != Success {
        return res;
      }
      if isInitialized {
        var clash := store.Overlaps(w);
        if clash {
          return ErrWordOverlap;
        }
      }
      ghost var ws := store.Contents();
      var ok := store.Insert(w);
      if !ok {
        return ErrWordOverflow;
      }
      InsertOneMembers(ws, store.sorted, w);
      if isInitialized {
        InsertedDisjoint(ws, w);
      }
      r := Success;
    }

    /** The intra-batch overlap loop of `addWords`: every pair of the batch, with the given end width. */
    static method BatchHasOverlap(batch: seq<Word>, wide: bool) returns (b: bool)
      ensures b <==> BatchOverlaps(batch, wide)
    {
      var i := 0;
      while i < |batch|
        invariant 0 <= i <= |batch|
        invariant forall p, q :: 0 <= p < i && p < q < |batch| ==> !PairClash(batch[p], batch[q], wide)
      {
        var j := i + 1;
        while j < |batch|
          invariant i < j <= |batch|
          invariant forall q :: i < q < j ==> !PairClash(batch[i], batch[q], wide)
        {
          var x, y := batch[i], batch[j];
          var xEnd := if wide then End(x) else End(x) % 0x1_0000;
          var yEnd := if wide then End(y) else End(y) % 0x1_0000;
          if x.rtype == y.rtype && x.startAddr < yEnd && y.startAddr < xEnd {
            assert PairClash(batch[i], batch[j], wide);
            return true;
          }
          j := j + 1;
        }
        i := i + 1;
      }
      b := false;
    }

    /** The validity loop of `addWords`: the first word that breaks a registration rule. */
    static method CheckBatch(batch: seq<Word>) returns (r: Result)
      ensures r == BatchCheck(batch)
    {
      var i := 0;
      while i < |batch|
        invariant 0 <= i <= |batch|
        invariant BatchCheck(batch[i..]) == BatchCheck(batch)
      {
        var res := WordEntryCheck(batch[i]);
        if res != Success {
          return res;
        }
        assert batch[i..][1..] == batch[i + 1..];
        i := i + 1;
      }
      r := Success;
    }

    /** The store-overlap loop of `addWords`: some word of the batch clashes with a stored word. */
    method BatchHitsStore(batch: seq<Word>) returns (b: bool)
      requires store.Valid()
      ensures b <==> BatchOverlapsStore(store.Contents(), batch)
    {
      var i := 0;
      while i < |batch|
        invariant 0 <= i <= |batch|
        invariant forall j :: 0 <= j < i ==> !OverlapsAny(store.Contents(), batch[j])
      {
        var clash := store.Overlaps(batch[i]);
        if clash {
          return true;
        }
        i := i + 1;
      }
      b := false;
    }

    /**
     * The body both `addWords` overloads share once the lock is held: the
     * checks of `BatchPrecheck`, then one insert per word, stopping at the
     * first the store refuses. In bulk mode, and once running with 32-bit
     * ends, a batch that passes the checks is inserted whole.
     */
    method AddBatch(batch: seq<Word>, wide: bool) returns (r: Result)
      requires Valid()
      modifies store, store.words
      ensures Valid() && store.sorted == old(store.sorted)
      ensures var pre := BatchPrecheck(old(store.Contents()), store.TotalCapacity(), isInitialized, wide, batch);
        && (pre != Success ==> r == pre && store.Contents() == old(store.Contents()))
        && (pre == Success ==> r == Success || r == ErrWordOverflow)
        && (pre == Success && (!old(store.sorted) || (isInitialized && wide)) ==> r == Success)
      ensures r == Success ==> store.Contents() == InsertAll(old(store.Contents()), store.sorted, batch)
    {
      ghost var ws := store.Contents();
      if store.TotalCapacity() < store.count + |batch| {
        return ErrWordOverflow;
      }
      var res := CheckBatch(batch);
      if res != Success {
        return res;
      }
      if isInitialized {
        var hit := BatchHitsStore(batch);
        if hit {
          return ErrWordOverlap;
        }
        var inner := BatchHasOverlap(batch, wide);
        if inner {
          return ErrWordOverlap;
        }
      }
      var i := 0;
      while i < |batch|
        invariant 0 <= i <= |batch|
        invariant store.Valid() && store.sorted == old(store.sorted)
        invariant store.count == old(store.count) + i
        invariant store.Contents() == InsertAll(ws, store.sorted, batch[..i])
        invariant AllAcceptable(store.Contents())
        invariant isInitialized ==> SameTypeDisjoint(store.Contents())
      {
        ghost var cur := store.Contents();
        if isInitialized && wide {
          BatchInsertsClashFree(ws, batch, i);
        }
        var ok := store.Insert(batch[i]);
        if !ok {
          return ErrWordOverflow;
        }
        assert batch[i] in batch;
        InsertOneMembers(cur, store.sorted, batch[i]);
        if isInitialized {
          InsertedDisjoint(cur, batch[i]);
        }
        assert batch[..i + 1][..i] == batch[..i];
        i := i + 1;
      }
      assert batch[..i] == batch;
      r := Success;
    }

    /**
     * `addWords(vector)`: refused while locked elsewhere; otherwise
     * `AddBatch` with 16-bit ends in the intra-batch test.
     */
    method AddWords(batch: seq<Word>, locked: bool) returns (r: Result)
      requires Valid()
      modifies store, store.words
      ensures Valid() && store.sorted == old(store.sorted)
      ensures !locked ==> r == ErrWordBusy && store.Contents() == old(store.Contents())
      ensures var pre := BatchPrecheck(old(store.Contents()), store.TotalCapacity(), isInitialized, false, batch);
        locked ==> (pre != Success ==> r == pre && store.Contents() == old(store.Contents()))
                   && (pre == Success ==> r == Success || r == ErrWordOverflow)
                   && (pre == Success && !old(store.sorted) ==> r == Success)
      ensures r == Success ==> store.Contents() == InsertAll(old(store.Contents()), store.sorted, batch)
    {
      if !locked {
        return ErrWordBusy;
      }
      r := AddBatch(batch, false);
    }

    /**
     * `addWords(pointer, count)`: a null pointer or a zero count is
     * ERR_WORD_INVALID, checked before the lock; otherwise `AddBatch` with
     * 32-bit ends. Once the server runs it is all-or-nothing.
     */
    method AddWordsFromArray(words: Option<seq<Word>>, locked: bool) returns (r: Result)
      requires Valid()
      modifies store, store.words
      ensures Valid() && store.sorted == old(store.sorted)
      ensures (words.None? || |words.value| == 0) ==> r == ErrWordInvalid && store.Contents() == old(store.Contents())
      ensures words.Some? && |words.value| > 0 && !locked ==> r == ErrWordBusy && store.Contents() == old(store.Contents())
      ensures words.Some? && |words.value| > 0 && locked ==>
        var pre := BatchPrecheck(old(store.Contents()), store.TotalCapacity(), isInitialized, true, words.value);
        && (pre != Success ==> r == pre && store.Contents() == old(store.Contents()))
        && (pre == Success && (isInitialized || !old(store.sorted)) ==> r == Success)
      ensures r == Success ==> words.Some? && store.Contents() == InsertAll(old(store.Contents()), store.sorted, words.value)
      ensures isInitialized ==> r == Success || store.Contents() == old(store.Contents())
    {
      if words.None? || |words.value| == 0 {
        return ErrWordInvalid;
      }
      if !locked {
        return ErrWordBusy;
      }
      r := AddBatch(words.value, true);
    }

    /**
     * `getWord(type, address)`: the stored word `findContaining` returns,
     * or the empty word. A returned word has the type and contains the
     * address; `findContaining` can miss one (`ContainingMissAsWritten`).
     */
    method GetWord(t: RegisterType, a: int) returns (w: Word)
      requires Valid() && Sorted(store.Contents())
      ensures w == NullWord || (w in store.Contents() && w.rtype == t && Contains(w, a))
      ensures w != NullWord <==> ContainingScan(store.Contents(), UpperBound(store.Contents(), a), t, a).Some?
    {
      var k := store.FindContaining(t, a);
      if k.None? {
        return NullWord;
      }
      w := store.words[k.value];
      assert w == store.Contents()[k.value];
      assert w.nbRegs > 0 by {
        assert w in store.Contents();
      }
    }

    /** `wordExists(word)`: a word of its type starts at its address and has its size. */
    method WordExists(w: Word) returns (b: bool)
      requires Valid() && Sorted(store.Contents())
      ensures b <==> exists i :: 0 <= i < |store.Contents()| && store.Contents()[i].rtype == w.rtype
                       && store.Contents()[i].startAddr == w.startAddr && store.Contents()[i].nbRegs == w.nbRegs
                       && forall j :: 0 <= j < i ==> !(store.Contents()[j].rtype == w.rtype && store.Contents()[j].startAddr == w.startAddr)
    {
      var k := store.FindExact(w.rtype, w.startAddr);
      b := k.Some? && store.words[k.value].nbRegs == w.nbRegs;
      if k.Some? && !b {
        forall i | 0 <= i < |store.Contents()| && store.Contents()[i].rtype == w.rtype
                 && store.Contents()[i].startAddr == w.startAddr
                 && (forall j :: 0 <= j < i ==> !(store.Contents()[j].rtype == w.rtype && store.Contents()[j].startAddr == w.startAddr))
          ensures i == k.value
        {
          assert store.Contents()[k.value] == store.words[k.value];
        }
      }
    }


    // -------------------------------------------------------------------------
    // Request handling
    // -------------------------------------------------------------------------

    /** `findExact` as the server uses it: the word of type t starting at a, if any. */
    method LookupExact(t: RegisterType, a: nat) returns (w: Option<Word>)
      requires store.Valid() && Sorted(store.Contents())
      ensures w.Some? <==> FirstExact(store.Contents(), t, a).Some?
      ensures w.Some? ==> w.value == store.Contents()[FirstExact(store.Contents(), t, a).value]
    {
      var k := store.FindExact(t, a);
      w := if k.Some? then Some(store.words[k.value]) else None;
    }

    /** Where the gap at cur ends, from `findNext`. */
    method NextGapEnd(t: RegisterType, cur: nat, end: nat) returns (g: nat)
      requires store.Valid() && Sorted(store.Contents()) && cur < end
      ensures g == GapEnd(store.Contents(), t, cur, end)
    {
      var next := store.FindNext(t, cur);
      g := if next.Some? && (store.words[next.value].startAddr as nat) < end then store.words[next.value].startAddr as nat else end;
    }

    /** The validation loop of `handleRead` (forWrite false) and `handleWrite` (forWrite true). */
    method Scan(t: RegisterType, start: nat, end: nat, forWrite: bool) returns (ok: bool)
      requires store.Valid() && Sorted(store.Contents()) && NonEmptyWords(store.Contents())
      ensures ok == ScanCheck(store.Contents(), t, start, end, rejectUndefined, forWrite)
    {
      ghost var ws := store.Contents();
      ghost var goal := ScanCheck(ws, t, start, end, rejectUndefined, forWrite);
      var cur := start;
      while cur < end
        invariant ScanCheck(ws, t, cur, end, rejectUndefined, forWrite) == goal
        decreases end - cur
      {
        var next, pass := ScanStep(t, cur, end, forWrite);
        if !pass {
          return false;
        }
        cur := next;
      }
      ok := true;
    }

    /** One step of the validation loop at address cur: a gap, or the word starting there. */
    method ScanStep(t: RegisterType, cur: nat, end: nat, forWrite: bool) returns (next: nat, pass: bool)
      requires store.Valid() && Sorted(store.Contents()) && NonEmptyWords(store.Contents()) && cur < end
      ensures cur < next
      ensures !pass ==> !ScanCheck(store.Contents(), t, cur, end, rejectUndefined, forWrite)
      ensures pass ==> ScanCheck(store.Contents(), t, cur, end, rejectUndefined, forWrite)
                       == ScanCheck(store.Contents(), t, next, end, rejectUndefined, forWrite)
    {
      var found := LookupExact(t, cur);
      if found.None? {
        if rejectUndefined {
          return cur + 1, false;
        }
        next := NextGapEnd(t, cur, end);
        return next, true;
      }
      var w := found.value;
      if cur + w.nbRegs as nat > end || !Accessible(w, forWrite) {
        return cur + 1, false;
      }
      return cur + w.nbRegs as nat, true;
    }

    /** The gap loop of `handleRead`: a zero register or coil at each response index in [from, to). */
    static method FillGapAt(response: Frame, fc: int, from: nat, to: nat) returns (ok: bool)
      requires response.Valid()
      modifies response.data
      ensures response.Valid()
      ensures FillGap(old(response.Value()), fc, from, to) == Progress(ok, response.Value())
    {
      var i := from;
      while i < to
        invariant from <= i && response.Valid()
        invariant FillGap(response.Value(), fc, i, to) == FillGap(old(response.Value()), fc, from, to)
      {
        if IsRegisterRead(fc) {
          var done := response.SetRegistersAt([0], i);
          if !done {
            return false;
          }
        } else if IsCoilRead(fc) {
          var done := response.SetCoilsAt([false], i);
          if !done {
            return false;
          }
        }
        i := i + 1;
      }
      ok := true;
    }

    /**
     * The coil loop of `handleRead`: the word's coils one by one from
     * response index idx. On failure the caller clears the data, so what the
     * loop left behind does not matter.
     */
    static method PutCoils(response: Frame, bits: seq<bool>, idx: nat) returns (ok: bool)
      requires response.Valid() && |bits| > 0
      modifies response.data
      ensures response.Valid()
      ensures ok <==> idx + |bits| <= FrameCoilCapacity
      ensures ok ==> response.Value() == AfterSetCoilsAt(old(response.Value()), bits, idx).value
    {
      ghost var d0 := response.data[..];
      var i := 0;
      while i < |bits|
        invariant 0 <= i <= |bits| && response.Valid()
        invariant i > 0 ==> idx + i <= FrameCoilCapacity
        invariant idx + i <= FrameCoilCapacity ==> response.data[..] == WriteCoils(d0, bits[..i], idx)
      {
        ghost var before := response.data[..];
        var done := PutCoil(response, bits[i], idx + i);
        if !done {
          return false;
        }
        assert before == WriteCoils(d0, bits[..i], idx);
        WriteCoilsSnoc(d0, bits, idx, i);
        assert response.data[..] == WithCoil(before, idx + i, bits[i]);
        i := i + 1;
      }
      assert bits[..i] == bits;
      ok := true;
    }

    /** One coil of the coil loop: `setCoils(&value, 1, c)`. */
    static method PutCoil(response: Frame, v: bool, c: nat) returns (ok: bool)
      requires response.Valid()
      modifies response.data
      ensures response.Valid()
      ensures ok <==> c < FrameCoilCapacity
      ensures ok ==> response.data[..] == WithCoil(old(response.data[..]), c, v)
    {
      ghost var d := response.data[..];
      ok := response.SetCoilsAt([v], c);
      if ok {
        assert [v][..0] == [];
        assert WriteCoils(d, [v], c) == WithCoil(WriteCoils(d, [], c), c, v);
      }
    }

    /**
     * Step 6 of `handleRead`: a word's values stored at response index idx,
     * as registers or as coils by function code.
     */
    static method PutWord(response: Frame, fc: int, vals: seq<u16>, idx: nat) returns (ok: bool)
      requires response.Valid() && |vals| > 0
      modifies response.data
      ensures response.Valid()
      ensures IsRegisterRead(fc) ==> (ok <==> idx + |vals| <= FrameDataSize)
      ensures IsRegisterRead(fc) && ok ==> response.Value() == AfterSetRegistersAt(old(response.Value()), vals, idx).value
      ensures IsCoilRead(fc) ==> (ok <==> idx + |vals| <= FrameCoilCapacity)
      ensures IsCoilRead(fc) && ok ==> response.Value() == AfterSetCoilsAt(old(response.Value()), AsCoils(vals), idx).value
      ensures !IsRegisterRead(fc) && !IsCoilRead(fc) ==> ok && response.Value() == old(response.Value())
    {
      ok := true;
      if IsRegisterRead(fc) {
        ok := response.SetRegistersAt(vals, idx);
      } else if IsCoilRead(fc) {
        ok := PutCoils(response, AsCoils(vals), idx);
      }
    }

    /**
     * Step 4b of `handleRead`: the word buffer after calling the read handler,
     * or after copying the value behind a single-register direct pointer.
     */
    static method ReadInto(h: Handlers, w: Word) returns (ec: byte, buf: seq<u16>)
      ensures (ec, buf) == ReadWord(h, w)
    {
      buf := Fit([], MaxWordSize);
      ec := NullException;
      if w.hasReadHandler {
        var (e, vals) := h.read(w);
        ec := e;
        buf := Fit(vals, MaxWordSize);
      } else if w.hasValue && w.nbRegs == 1 {
        buf := Fit([h.pointerValue(w)], MaxWordSize);
      } else {
        ec := SlaveDeviceFailure;
      }
    }

    /** Step 4a of `handleRead` for a gap at cur: zeros up to the next word of the type. */
    method ReadGapAt(fc: int, t: RegisterType, start: nat, cur: nat, end: nat, response: Frame, h: Handlers, ghost calls: seq<Word>)
      returns (stop: bool, next: nat)
      requires store.Valid() && Sorted(store.Contents()) && AllAcceptable(store.Contents()) && response.Valid()
      requires start <= cur < end && FirstExact(store.Contents(), t, cur).None?
      modifies response.data
      ensures response.Valid() && cur < next
      ensures ReadStep(stop, if stop then SlaveDeviceFailure else NullException, next, response.Value(), calls)
           == ReadStepAt(store.Contents(), h, fc, t, start, cur, end, old(response.Value()), calls)
    {
      next := NextGapEnd(t, cur, end);
      var filled := FillGapAt(response, fc, cur - start, next - start);
      stop := !filled;
    }

    /**
     * Steps 4b to 6 of `handleRead` for a word found at response index idx:
     * read it, then store its values from idx; a failure clears the data.
     */
    method ReadWordAt(fc: int, w: Word, idx: nat, response: Frame, h: Handlers, calls: seq<Word>)
      returns (stop: bool, ec: byte, calls': seq<Word>)
      requires response.Valid() && 1 <= w.nbRegs as nat <= MaxWordSize
      modifies response, response.data
      ensures response.Valid()
      ensures WordRead(stop, ec, response.Value(), calls') == ReadWordStep(h, fc, w, idx, old(response.Value()), calls)
    {
      var e, buf := ReadInto(h, w);
      calls' := if w.hasReadHandler then calls + [w] else calls;
      if e != NullException {
        response.ClearData(false);
        return true, e, calls';
      }
      var stored := PutWord(response, fc, buf[..w.nbRegs], idx);
      if !stored {
        response.ClearData(false);
        return true, SlaveDeviceFailure, calls';
      }
      stop, ec := false, NullException;
    }

    /** One round of the streaming loop of `handleRead`: the gap or the word at cur. */
    method ReadAt(fc: int, t: RegisterType, start: nat, cur: nat, end: nat, response: Frame, h: Handlers, calls: seq<Word>)
      returns (stop: bool, ec: byte, next: nat, calls': seq<Word>)
      requires store.Valid() && Sorted(store.Contents()) && AllAcceptable(store.Contents()) && response.Valid()
      requires start <= cur < end
      modifies response, response.data
      ensures response.Valid() && cur < next
      ensures ReadStep(stop, ec, next, response.Value(), calls')
           == ReadStepAt(store.Contents(), h, fc, t, start, cur, end, old(response.Value()), calls)
    {
      var found := LookupExact(t, cur);
      if found.None? {
        stop, next := ReadGapAt(fc, t, start, cur, end, response, h, calls);
        ec, calls' := if stop then SlaveDeviceFailure else NullException, calls;
      } else {
        stop, ec, next, calls' := ReadFoundAt(fc, t, start, cur, end, found.value, response, h, calls);
      }
    }

    /** The word w found at cur, as one round of the streaming loop. */
    method ReadFoundAt(fc: int, t: RegisterType, start: nat, cur: nat, end: nat, w: Word, response: Frame, h: Handlers,
                       calls: seq<Word>)
      returns (stop: bool, ec: byte, next: nat, calls': seq<Word>)
      requires store.Valid() && AllAcceptable(store.Contents()) && response.Valid() && start <= cur < end
      requires FirstExact(store.Contents(), t, cur).Some? && w == store.Contents()[FirstExact(store.Contents(), t, cur).value]
      modifies response, response.data
      ensures response.Valid() && cur < next
      ensures ReadStep(stop, ec, next, response.Value(), calls')
           == ReadStepAt(store.Contents(), h, fc, t, start, cur, end, old(response.Value()), calls)
    {
      assert w in store.Contents();
      stop, ec, calls' := ReadWordAt(fc, w, cur - start, response, h, calls);
      next := cur + w.nbRegs as nat;
    }

    /** Steps 3 to 6 of `handleRead`: the streaming pass over [start, end). */
    method StreamReadInto(fc: int, t: RegisterType, start: nat, end: nat, response: Frame, h: Handlers)
      returns (ec: byte, calls: seq<Word>)
      requires store.Valid() && Sorted(store.Contents()) && AllAcceptable(store.Contents()) && response.Valid()
      modifies response, response.data
      ensures response.Valid()
      ensures var o := StreamRead(store.Contents(), h, fc, t, start, start, end, old(response.Value()), []);
        ec == o.ec && response.Value() == o.resp && calls == o.calls
    {
      ghost var ws := store.Contents();
      calls := [];
      ghost var goal := StreamRead(ws, h, fc, t, start, start, end, response.Value(), []);
      var cur := start;
      while cur < end
        invariant start <= cur && response.Valid()
        invariant StreamRead(ws, h, fc, t, start, cur, end, response.Value(), calls) == goal
        decreases end - cur
      {
        var stop, e, next;
        stop, e, next, calls := ReadAt(fc, t, start, cur, end, response, h, calls);
        if stop {
          return e, calls;
        }
        cur := next;
      }
      ec := NullException;
    }

    /**
     * `handleRead(request, response)`: clears the data, checks the address
     * range, runs the validation scan, then streams each word and gap into
     * the response.
     */
    method HandleRead(request: FrameValue, response: Frame, h: Handlers) returns (r: Result, calls: seq<Word>)
      requires Valid() && isInitialized && response.Valid()
      modifies response, response.data
      ensures response.Valid()
      ensures (r, response.Value(), calls) == HandleReadSpec(store.Contents(), h, request, old(response.Value()), rejectUndefined)
    {
      response.ClearData(false);
      ghost var cleared := old(response.Value()).(data := ZeroData);
      assert response.Value() == cleared;
      if request.regCount > 0 && request.regAddress as int > MaxRegAddr - request.regCount as int + 1 {
        response.exceptionCode := IllegalDataAddress;
        return ErrRcvIllegalDataAddress, [];
      }
      var t := ToRegisterType(request.fc);
      var start: nat := request.regAddress as nat;
      var end: nat := start + request.regCount as nat;
      AcceptableNonEmpty(store.Contents());
      var valid := Scan(t, start, end, false);
      if !valid {
        response.exceptionCode := IllegalDataAddress;
        return ErrRcvIllegalDataAddress, [];
      }
      r, calls := ReadAndReport(request, response, h);
    }

    /** Steps 3 and 4 of `handleRead`: the streaming pass, then the exception or the count. */
    method ReadAndReport(request: FrameValue, response: Frame, h: Handlers) returns (r: Result, calls: seq<Word>)
      requires store.Valid() && Sorted(store.Contents()) && AllAcceptable(store.Contents()) && response.Valid()
      modifies response, response.data
      ensures response.Valid()
      ensures (r, response.Value(), calls) == ReadTail(store.Contents(), h, request, old(response.Value()))
    {
      var t := ToRegisterType(request.fc);
      var start: nat := request.regAddress as nat;
      ghost var resp0 := response.Value();
      ghost var o := StreamRead(store.Contents(), h, request.fc, t, start, start, start + request.regCount as nat,
                                resp0, []);
      ghost var tail := ReadTail(store.Contents(), h, request, resp0);
      var ec;
      ec, calls := StreamReadInto(request.fc, t, start, start + request.regCount as nat, response, h);
      ghost var streamed := response.Value();
      assert ec == o.ec && streamed == o.resp && calls == o.calls;
      if ec != NullException {
        assert tail == (ErrRcvSlaveDeviceFailure, streamed.(exceptionCode := ec), calls);
        response.exceptionCode := ec;
        assert response.Value() == streamed.(exceptionCode := ec);
        return ErrRcvSlaveDeviceFailure, calls;
      }
      assert tail == (Success, streamed.(regCount := request.regCount), calls);
      response.regCount := request.regCount;
      assert response.Value() == streamed.(regCount := request.regCount);
      r := Success;
    }

    /** Step 4 of `handleWrite`: the write pass over [start, end), keeping the first exception. */
    method StreamWriteAll(request: FrameValue, t: RegisterType, start: nat, end: nat, h: Handlers)
      returns (first: byte, effects: seq<WriteEffect>)
      requires store.Valid() && Sorted(store.Contents()) && NonEmptyWords(store.Contents())
      requires start == request.regAddress as nat
      ensures WriteOutcome(first, effects)
           == StreamWrite(store.Contents(), h, request, t, start, end, rejectUndefined, NullException, [])
    {
      ghost var ws := store.Contents();
      effects := [];
      first := NullException;
      ghost var goal := StreamWrite(ws, h, request, t, start, end, rejectUndefined, NullException, []);
      var cur := start;
      while cur < end
        invariant start <= cur
        invariant StreamWrite(ws, h, request, t, cur, end, rejectUndefined, first, effects) == goal
        decreases end - cur
      {
        var next, done;
        next, first, effects, done := WriteStep(request, t, cur, end, h, first, effects);
        if done {
          return;
        }
        cur := next;
      }
    }

    /** One step of the write pass at address cur: skip a gap, stop at one, or write the word there. */
    method WriteStep(request: FrameValue, t: RegisterType, cur: nat, end: nat, h: Handlers,
                     first: byte, effects: seq<WriteEffect>)
      returns (next: nat, first': byte, effects': seq<WriteEffect>, done: bool)
      requires store.Valid() && Sorted(store.Contents()) && NonEmptyWords(store.Contents())
      requires request.regAddress as nat <= cur < end
      ensures cur < next
      ensures done ==> WriteOutcome(first', effects')
                       == StreamWrite(store.Contents(), h, request, t, cur, end, rejectUndefined, first, effects)
      ensures !done ==> StreamWrite(store.Contents(), h, request, t, next, end, rejectUndefined, first', effects')
                        == StreamWrite(store.Contents(), h, request, t, cur, end, rejectUndefined, first, effects)
    {
      ghost var ws := store.Contents();
      first', effects', done := first, effects, false;
      var found := LookupExact(t, cur);
      if found.None? {
        StreamWriteGap(ws, h, request, t, cur, end, rejectUndefined, first, effects);
        if rejectUndefined {
          return cur + 1, first, effects, true;
        }
        next := NextGapEnd(t, cur, end);
      } else {
        var w := found.value;
        var e, eff := WriteInto(h, request, w, cur - request.regAddress as nat);
        StreamWriteAt(ws, h, request, t, cur, end, rejectUndefined, first, effects, w, e, eff);
        effects' := effects + eff;
        if e != NullException && first == NullException {
          first' := e;
        }
        next := cur + w.nbRegs as nat;
      }
    }

    /**
     * Writing one word at request offset off: the write handler with the
     * word buffer, else a store through a writable single-register direct
     * pointer, else SLAVE_DEVICE_FAILURE.
     */
    static method WriteInto(h: Handlers, request: FrameValue, w: Word, off: nat) returns (ec: byte, eff: seq<WriteEffect>)
      ensures (ec, eff) == WriteWord(h, request, w, off)
    {
      var vals := WriteValues(request, w, off);
      if w.hasWriteHandler {
        ec := h.write(w, vals);
        eff := [WriteEffect(w, vals)];
      } else if w.hasValue && w.nbRegs == 1 && !IsReadOnly(w.rtype) {
        ec := NullException;
        eff := [WriteEffect(w, vals)];
      } else {
        ec := SlaveDeviceFailure;
        eff := [];
      }
    }

    /**
     * `handleWrite(request, response)`: the count, range and table checks,
     * the validation scan, then one pass writing every word, and the echo.
     */
    method HandleWrite(request: FrameValue, response: Frame, h: Handlers) returns (r: Result, effects: seq<WriteEffect>)
      requires Valid() && isInitialized && response.Valid()
      modifies response, response.data
      ensures response.Valid()
      ensures (r, response.Value(), effects) == HandleWriteSpec(store.Contents(), h, request, old(response.Value()), rejectUndefined)
    {
      effects := [];
      if request.regCount == 0 {
        response.exceptionCode := IllegalDataValue;
        return ErrRcvIllegalDataValue, [];
      }
      var writeCount: nat := request.regCount as nat;
      if request.regAddress as int > MaxRegAddr - writeCount + 1 {
        response.exceptionCode := IllegalDataAddress;
        return ErrRcvIllegalDataAddress, [];
      }
      var t := ToRegisterType(request.fc);
      if IsReadOnly(t) {
        response.exceptionCode := IllegalFunction;
        return ErrRcvIllegalFunction, [];
      }
      var start: nat := request.regAddress as nat;
      var end: nat := start + writeCount;
      AcceptableNonEmpty(store.Contents());
      var valid := Scan(t, start, end, true);
      if !valid {
        response.exceptionCode := IllegalDataAddress;
        return ErrRcvIllegalDataAddress, [];
      }
      r, effects := WriteAndReport(request, response, h);
    }

    /** Steps 4 and 5 of `handleWrite`: the write pass, then the exception or the echo. */
    method WriteAndReport(request: FrameValue, response: Frame, h: Handlers) returns (r: Result, effects: seq<WriteEffect>)
      requires store.Valid() && Sorted(store.Contents()) && NonEmptyWords(store.Contents()) && response.Valid()
      modifies response, response.data
      ensures response.Valid()
      ensures (r, response.Value(), effects) == WriteTail(store.Contents(), h, request, old(response.Value()), rejectUndefined)
    {
      var writeCount: nat := request.regCount as nat;
      var start: nat := request.regAddress as nat;
      var first;
      first, effects := StreamWriteAll(request, ToRegisterType(request.fc), start, start + writeCount, h);
      if first != NullException {
        response.exceptionCode := first;
        return ErrRcvSlaveDeviceFailure, effects;
      }
      if request.fc == WriteRegister || request.fc == WriteCoil {
        var m := Min(writeCount, FrameDataSize);
        ghost var d0 := response.data[..];
        forall i | 0 <= i < m {
          response.data[i] := request.data[i];
        }
        assert response.data[..] == request.data[..m] + d0[m..];
      } else {
        response.regAddress := request.regAddress;
        response.regCount := request.regCount;
      }
      r := Success;
    }


    /**
     * `handleRequest(request, sourceInterface)`: the guards, the prepared
     * response, the read or write, and the single reply.
     */
    method HandleRequest(request: FrameValue, catchAll: bool, locked: bool, h: Handlers, txOk: bool) returns (o: Handled)
      requires Valid()
      ensures o == HandleRequestSpec(isInitialized, serverId, catchAll, rejectUndefined, store.Contents(), h, request, locked, txOk)
    {
      if !isInitialized {
        return Handled(ErrNotInitialized, None, [], []);
      }
      var a := Answer(request, catchAll, locked, h);
      o := Handled(if a.reply.Some? && !txOk then ErrRspTxFailed else a.result, a.reply, a.calls, a.effects);
    }

    /** The guards of `handleRequest` in order, then the handler; broadcasts get no reply. */
    method Answer(request: FrameValue, catchAll: bool, locked: bool, h: Handlers) returns (a: Handled)
      requires Valid() && isInitialized
      ensures a == Answered(serverId, catchAll, rejectUndefined, store.Contents(), h, request, locked)
    {
      var broadcast := IsBroadcastId(request.slaveId);
      if !locked {
        a := Handled(ErrRcvBusy, if broadcast then None else Some(ExceptionResponse(request, SlaveDeviceBusy)), [], []);
      } else if !(IsBroadcastId(serverId) || catchAll) && request.slaveId != serverId && !broadcast {
        a := Handled(ErrRcvWrongSlaveId, None, [], []);
      } else if request.msgType != Request {
        a := Handled(ErrRcvInvalidType, None, [], []);
      } else if broadcast && !IsWrite(request.fc) {
        a := Handled(ErrRcvIllegalFunction, None, [], []);
      } else if !IsValidFunctionCode(request.fc) {
        a := Handled(ErrRcvIllegalFunction, if broadcast then None else Some(ExceptionResponse(request, IllegalFunction)), [], []);
      } else {
        a := Serve(request, h);
      }
    }

    /** A request past the guards: a fresh response prepared from it, then the write or read handler. */
    method Serve(request: FrameValue, h: Handlers) returns (a: Handled)
      requires Valid() && isInitialized
      ensures a == Served(rejectUndefined, store.Contents(), h, request)
    {
      var response := new Frame();
      response.msgType := Response;
      response.fc := request.fc;
      response.slaveId := request.slaveId;
      response.regAddress := request.regAddress;
      response.regCount := request.regCount;
      response.exceptionCode := NullException;
      assert response.Value() == Prepared(request);
      if IsWrite(request.fc) {
        var res, effects := HandleWrite(request, response, h);
        a := Handled(res, if IsBroadcastId(request.slaveId) then None else Some(response.Value()), [], effects);
      } else {
        var res, calls := HandleRead(request, response, h);
        a := Handled(res, Some(response.Value()), calls, []);
      }
    }
  }
}
