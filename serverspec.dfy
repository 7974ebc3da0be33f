/**
 * The decisions of the word-based server (src/apps/ModbusServer.cpp) as
 * functions of the word table: which words may be registered, the walk a
 * request makes over the addresses it covers, the validation scan that runs
 * before any handler, and the streaming pass that reads or writes words.
 *
 * User handlers and the memory behind a word's direct pointer are code and
 * data the server does not own: they are the `Handlers` parameter, and the
 * handler calls the server makes are returned as a log.
 */
module ModbusServerSpec {
  import opened Wrappers
  import opened ModbusCore
  import opened ModbusFrame
  import opened ModbusWordStore

  /** MAX_WORD_SIZE: the registers one word may span, and the size of the server's word buffer. */
  const MaxWordSize: nat := 8

  /** The server's result codes (`Server::Result`). */
  datatype Result =
    | Success
    | ErrWordBusy
    | ErrWordOverflow
    | ErrWordInvalid
    | ErrWordDirectPtr
    | ErrWordHandler
    | ErrWordOverlap
    | ErrRcvUnknownWord
    | ErrRcvBusy
    | ErrRcvInvalidType
    | ErrRcvWrongSlaveId
    | ErrRcvIllegalFunction
    | ErrRcvIllegalDataAddress
    | ErrRcvIllegalDataValue
    | ErrRcvSlaveDeviceFailure
    | ErrRspTxFailed
    | ErrNotInitialized
    | ErrInitFailed

  /** `isWrite(fc)`: the four write function codes. */
  predicate IsWrite(fc: int)
  {
    fc == WriteRegister || fc == WriteCoil || fc == WriteMultipleRegisters || fc == WriteMultipleCoils
  }

  /** `isReadOnly(type)`: discrete inputs and input registers. */
  predicate IsReadOnly(t: RegisterType)
  {
    t == DiscreteInput || t == InputRegister
  }

  // ---------------------------------------------------------------------------
  // Word registration
  // ---------------------------------------------------------------------------

  /** The rules a word must meet to be registered, stated as one conjunction. */
  predicate AcceptableWord(w: Word)
  {
    && IsValidRegisterType(w.rtype)
    && 1 <= w.nbRegs as nat <= MaxWordSize
    && End(w) <= 0x1_0000
    && (w.nbRegs > 1 ==> !w.hasValue && w.hasReadHandler)
    && (w.nbRegs == 1 ==> w.hasValue || w.hasReadHandler)
    && (w.hasReadHandler && !IsReadOnly(w.rtype) ==> w.hasWriteHandler)
    && (IsReadOnly(w.rtype) ==> !w.hasWriteHandler)
  }

  /** Every stored word meets the registration rules. */
  predicate AllAcceptable(ws: seq<Word>)
  {
    forall w :: w in ws ==> AcceptableWord(w)
  }

  /**
   * `isValidWordEntry(word)`: the checks in source order, each with its own
   * error. A word it accepts is a valid `Word` and meets every rule.
   */
  function WordEntryCheck(w: Word): (r: Result)
    ensures r == Success <==> AcceptableWord(w)
    ensures r == Success ==> IsValidWord(w)
    ensures !IsValidRegisterType(w.rtype) || w.nbRegs == 0 || w.nbRegs as nat > MaxWordSize || End(w) > 0x1_0000
      ==> r == ErrWordInvalid
    ensures r in {Success, ErrWordInvalid, ErrWordDirectPtr, ErrWordHandler}
  {
    if !IsValidRegisterType(w.rtype) then ErrWordInvalid
    else if w.nbRegs == 0 then ErrWordInvalid
    else if w.nbRegs as nat > MaxWordSize then ErrWordInvalid
    else if w.startAddr as int > MaxRegAddr - w.nbRegs as int + 1 then ErrWordInvalid
    else if w.nbRegs > 1 && w.hasValue then ErrWordDirectPtr
    else if w.nbRegs > 1 && !w.hasReadHandler then ErrWordHandler
    else if w.nbRegs == 1 && !w.hasValue && !w.hasReadHandler then ErrWordHandler
    else if w.hasReadHandler && !IsReadOnly(w.rtype) && !w.hasWriteHandler then ErrWordHandler
    else if IsReadOnly(w.rtype) && w.hasWriteHandler then ErrWordHandler
    else Success
  }

  /**
   * The intra-batch overlap test of the vector `addWords`, as written: the
   * two end addresses are held in 16 bits, so a word ending at 0x10000 has
   * end 0.
   */
  predicate BatchClash16(x: Word, w: Word)
  {
    x.rtype == w.rtype && x.startAddr < End(w) % 0x1_0000 && w.startAddr < End(x) % 0x1_0000
  }

  /** A word reaching the top of the address space hides its overlaps from the 16-bit test. */
  lemma BatchClash16Misses()
    ensures var x := Word(HoldingRegister, 0xFFF8, 8, false, true, true, 0);
      var w := Word(HoldingRegister, 0xFFFC, 2, false, true, true, 1);
      AcceptableWord(x) && AcceptableWord(w) && Clashes(x, w) && !BatchClash16(x, w)
  {
  }

  /**
   * The intra-batch overlap test: the pointer `addWords` computes ends in 32
   * bits (wide, the exact `Clashes`), the vector one in 16 bits.
   */
  predicate PairClash(x: Word, w: Word, wide: bool)
  {
    if wide then Clashes(x, w) else BatchClash16(x, w)
  }

  /** Some two words of the batch clash under the given test. */
  predicate BatchOverlaps(batch: seq<Word>, wide: bool)
  {
    exists i, j :: 0 <= i < j < |batch| && PairClash(batch[i], batch[j], wide)
  }

  /** Some word of the batch clashes with a stored word. */
  predicate BatchOverlapsStore(ws: seq<Word>, batch: seq<Word>)
  {
    exists i :: 0 <= i < |batch| && OverlapsAny(ws, batch[i])
  }

  /** The first registration error in the batch, in batch order, or Success. */
  function BatchCheck(batch: seq<Word>): (r: Result)
    ensures r == Success <==> AllAcceptable(batch)
    ensures r != Success ==> r in {ErrWordInvalid, ErrWordDirectPtr, ErrWordHandler}
  {
    if |batch| == 0 then Success
    else if WordEntryCheck(batch[0]) != Success then WordEntryCheck(batch[0])
    else BatchCheck(batch[1..])
  }

  /**
   * The checks `addWords` makes before inserting anything, in source order:
   * free capacity, each word's validity, and once the server runs, overlaps
   * with the store and within the batch.
   */
  function BatchPrecheck(ws: seq<Word>, capacity: nat, initialized: bool, wide: bool, batch: seq<Word>): (r: Result)
    ensures r == Success ==> |ws| + |batch| <= capacity && AllAcceptable(batch)
    ensures r == Success && initialized ==> !BatchOverlapsStore(ws, batch) && !BatchOverlaps(batch, wide)
    ensures r in {Success, ErrWordOverflow, ErrWordInvalid, ErrWordDirectPtr, ErrWordHandler, ErrWordOverlap}
  {
    if capacity < |ws| + |batch| then ErrWordOverflow
    else if BatchCheck(batch) != Success then BatchCheck(batch)
    else if initialized && BatchOverlapsStore(ws, batch) then ErrWordOverlap
    else if initialized && BatchOverlaps(batch, wide) then ErrWordOverlap
    else Success
  }

  /** The store after one successful insert in the given mode: placed at its lower bound, or appended. */
  function InsertOne(ws: seq<Word>, sorted: bool, w: Word): seq<Word>
  {
    if sorted then Inserted(ws, w) else ws + [w]
  }

  /** The store after inserting the words of a batch one by one, in batch order. */
  function InsertAll(ws: seq<Word>, sorted: bool, batch: seq<Word>): seq<Word>
  {
    if |batch| == 0 then ws
    else InsertOne(InsertAll(ws, sorted, batch[..|batch| - 1]), sorted, batch[|batch| - 1])
  }

  /** An insert adds exactly the new word to the stored words. */
  lemma InsertOneMembers(ws: seq<Word>, sorted: bool, w: Word)
    ensures forall x :: x in InsertOne(ws, sorted, w) <==> x in ws || x == w
  {
    if sorted {
      InsertedPermutation(ws, w);
      forall x ensures x in Inserted(ws, w) <==> x in ws || x == w {
        assert x in Inserted(ws, w) <==> x in multiset(Inserted(ws, w));
      }
    }
  }

  /** After inserting a batch the stored words are the old ones and the batch's. */
  lemma {:induction false} InsertAllMembers(ws: seq<Word>, sorted: bool, batch: seq<Word>)
    ensures forall x :: x in InsertAll(ws, sorted, batch) <==> x in ws || x in batch
  {
    if |batch| > 0 {
      var init := batch[..|batch| - 1];
      InsertAllMembers(ws, sorted, init);
      InsertOneMembers(InsertAll(ws, sorted, init), sorted, batch[|batch| - 1]);
      assert batch == init + [batch[|batch| - 1]];
    }
  }

  /** Inserting acceptable words keeps every stored word acceptable. */
  lemma InsertAllAcceptable(ws: seq<Word>, sorted: bool, batch: seq<Word>)
    requires AllAcceptable(ws) && AllAcceptable(batch)
    ensures AllAcceptable(InsertAll(ws, sorted, batch))
  {
    InsertAllMembers(ws, sorted, batch);
  }

  /**
   * Once a batch clashes neither with the store nor within itself, no word
   * of it clashes with the store built from the words inserted before it.
   */
  lemma BatchInsertsClashFree(ws: seq<Word>, batch: seq<Word>, i: nat)
    requires i < |batch| && !BatchOverlapsStore(ws, batch) && !BatchOverlaps(batch, true)
    ensures !OverlapsAny(InsertAll(ws, true, batch[..i]), batch[i])
  {
    var cur := InsertAll(ws, true, batch[..i]);
    InsertAllMembers(ws, true, batch[..i]);
    assert !OverlapsAny(ws, batch[i]);
    forall k | 0 <= k < |cur|
      ensures !Clashes(cur[k], batch[i])
    {
      assert cur[k] in cur;
      if cur[k] in ws {
        var m :| 0 <= m < |ws| && ws[m] == cur[k];
      } else {
        var j :| 0 <= j < i && batch[..i][j] == cur[k];
        assert !PairClash(batch[j], batch[i], true);
      }
    }
  }

  /** A sorted insert of a word clashing with nothing keeps a disjoint sequence disjoint. */
  lemma InsertedDisjoint(ws: seq<Word>, w: Word)
    requires SameTypeDisjoint(ws) && !OverlapsAny(ws, w)
    ensures SameTypeDisjoint(Inserted(ws, w))
  {
    var k := LowerBound(ws, w.startAddr);
    var r := Inserted(ws, w);
    forall i, j | 0 <= i < j < |r|
      ensures !Clashes(r[i], r[j])
    {
      if i < k && j < k {
      } else if i < k && j == k {
        assert r[i] == ws[i];
      } else if i < k {
        assert r[i] == ws[i] && r[j] == ws[j - 1];
      } else if i == k {
        assert r[j] == ws[j - 1];
      } else {
        assert r[i] == ws[i - 1] && r[j] == ws[j - 1];
      }
    }
  }

  // ---------------------------------------------------------------------------
  // Overlap validation after sorting (begin)
  // ---------------------------------------------------------------------------

  /** No two stored words of type t clash. */
  predicate TypeDisjoint(ws: seq<Word>, t: RegisterType)
  {
    forall i, j :: 0 <= i < j < |ws| && ws[i].rtype == t && ws[j].rtype == t ==> !Clashes(ws[i], ws[j])
  }

  /** Disjointness within each of the four register types is disjointness of the whole valid store. */
  lemma TypeDisjointAll(ws: seq<Word>)
    requires forall w :: w in ws ==> IsValidRegisterType(w.rtype)
    requires TypeDisjoint(ws, Coil) && TypeDisjoint(ws, DiscreteInput)
    requires TypeDisjoint(ws, HoldingRegister) && TypeDisjoint(ws, InputRegister)
    ensures SameTypeDisjoint(ws)
  {
    forall i, j | 0 <= i < j < |ws|
      ensures !Clashes(ws[i], ws[j])
    {
      assert ws[i] in ws;
    }
  }

  /**
   * `validateNoOverlapsInStore(type)` as written: with at most one word of
   * the type it passes; otherwise it walks the words of the type through
   * `findNext`, starting with `findNext(type, 0)` and continuing with
   * `findNext(type, start of the current word)`, and fails when the previous
   * word ends after the current word starts. `findNext` looks strictly
   * after its address, so a word at address 0 and the second of two words
   * with the same start are never visited.
   */
  function NoOverlapsAsWritten(ws: seq<Word>, t: RegisterType): bool
  {
    CountType(ws, t) <= 1 || ChainFrom(ws, t, None, 0)
  }

  /** The walk of `validateNoOverlapsInStore` from the last visited start a, with the previous word's end. */
  function ChainFrom(ws: seq<Word>, t: RegisterType, prevEnd: Option<nat>, a: int): bool
    requires a >= 0
    decreases 0x1_0000 - a
  {
    match FirstAfter(ws, t, a)
    case None => true
    case Some(k) =>
      if prevEnd.Some? && prevEnd.value > ws[k].startAddr as nat then false
      else ChainFrom(ws, t, Some(End(ws[k])), ws[k].startAddr as int)
  }

  /** Two overlapping holding-register words, one at address 0, pass the walk as written. */
  lemma NoOverlapsMissAsWritten()
    ensures var ws := [Word(HoldingRegister, 0, 2, false, true, true, 0), Word(HoldingRegister, 1, 1, true, false, false, 1)];
      Sorted(ws) && AllAcceptable(ws) && Clashes(ws[0], ws[1])
      && NoOverlapsAsWritten(ws, HoldingRegister)
  {
    var ws := [Word(HoldingRegister, 0, 2, false, true, true, 0), Word(HoldingRegister, 1, 1, true, false, false, 1)];
    assert !Starts(ws[0], HoldingRegister, 0, true) && Starts(ws[1], HoldingRegister, 0, true);
    assert FirstAfter(ws, HoldingRegister, 0) == Some(1);
    assert FirstAfter(ws, HoldingRegister, 1) == None;
    assert ws[..1] == [ws[0]];
    assert ws[..1][..0] == [];
  }

  // ---------------------------------------------------------------------------
  // The address walk of a request
  // ---------------------------------------------------------------------------

  /** Every word spans at least one register, so the walk always advances. */
  predicate NonEmptyWords(ws: seq<Word>)
  {
    forall i :: 0 <= i < |ws| ==> ws[i].nbRegs > 0
  }

  lemma AcceptableNonEmpty(ws: seq<Word>)
    requires AllAcceptable(ws)
    ensures NonEmptyWords(ws)
  {
    forall i | 0 <= i < |ws| ensures ws[i].nbRegs > 0 {
      assert ws[i] in ws;
    }
  }

  /**
   * Where a gap at cur ends: the start of the next word of type t when that
   * is before end, else end.
   */
  function GapEnd(ws: seq<Word>, t: RegisterType, cur: nat, end: nat): (g: nat)
    requires cur < end
    ensures cur < g <= end
  {
    match FirstAfter(ws, t, cur)
    case Some(k) => if (ws[k].startAddr as nat) < end then ws[k].startAddr as nat else end
    case None => end
  }

  /** On a sorted store no word of type t starts strictly inside a gap. */
  lemma GapEndSkipsNothing(ws: seq<Word>, t: RegisterType, cur: nat, end: nat)
    requires Sorted(ws) && cur < end
    ensures forall i :: 0 <= i < |ws| && ws[i].rtype == t && cur < ws[i].startAddr as int ==> GapEnd(ws, t, cur, end) <= ws[i].startAddr as int
  {
    match FirstAfter(ws, t, cur)
    case Some(k) =>
      forall i | 0 <= i < |ws| && ws[i].rtype == t && cur < ws[i].startAddr as int
        ensures ws[k].startAddr <= ws[i].startAddr
      {
      }
    case None =>
  }

  /** A word can be read: it has a read handler, or it is a single register behind a direct pointer. */
  predicate Readable(w: Word)
  {
    w.hasReadHandler || (w.hasValue && w.nbRegs == 1)
  }

  /** A word can be written: it has a write handler, or it is a writable single register behind a pointer. */
  predicate Writable(w: Word)
  {
    w.hasWriteHandler || (w.hasValue && w.nbRegs == 1 && !IsReadOnly(w.rtype))
  }

  /** The access a request needs from a word. */
  predicate Accessible(w: Word, forWrite: bool)
  {
    if forWrite then Writable(w) else Readable(w)
  }

  /**
   * The validation scan of `handleRead`/`handleWrite` from address cur:
   * every word met must lie wholly inside the request and allow the access;
   * a gap fails with rejectUndefined and is skipped otherwise. A failure is
   * always ILLEGAL_DATA_ADDRESS.
   */
  function ScanCheck(ws: seq<Word>, t: RegisterType, cur: nat, end: nat, reject: bool, forWrite: bool): bool
    requires NonEmptyWords(ws)
    decreases end - cur
  {
    if cur >= end then true
    else match FirstExact(ws, t, cur)
      case None => !reject && ScanCheck(ws, t, GapEnd(ws, t, cur, end), end, reject, forWrite)
      case Some(k) =>
        cur + ws[k].nbRegs as nat <= end && Accessible(ws[k], forWrite)
        && ScanCheck(ws, t, cur + ws[k].nbRegs as nat, end, reject, forWrite)
  }

  /** With rejectUndefined, a passing scan found a word starting at cur. */
  lemma ScanCheckRejectsGap(ws: seq<Word>, t: RegisterType, cur: nat, end: nat, forWrite: bool)
    requires NonEmptyWords(ws) && cur < end && ScanCheck(ws, t, cur, end, true, forWrite)
    ensures exists i :: 0 <= i < |ws| && ws[i].rtype == t && ws[i].startAddr as int == cur
  {
  }

  // ---------------------------------------------------------------------------
  // The streaming read pass
  // ---------------------------------------------------------------------------

  /**
   * The code the server calls but does not own: the read handler (its
   * exception code and the values it writes into the word buffer), the
   * value behind a direct pointer, and the write handler (its exception code
   * for the values it is given).
   */
  datatype Handlers = Handlers(
    read: Word -> (byte, seq<u16>),
    pointerValue: Word -> u16,
    write: (Word, seq<u16>) -> byte)

  /** The word buffer after writing vals into a zeroed buffer of n entries. */
  function Fit(vals: seq<u16>, n: nat): (r: seq<u16>)
    ensures |r| == n
    ensures forall i :: 0 <= i < n ==> r[i] == if i < |vals| then vals[i] else 0
  {
    seq(n, i requires 0 <= i < n => if i < |vals| then vals[i] else 0)
  }

  /** What reading a word produces: its exception code and the word buffer. */
  function ReadWord(h: Handlers, w: Word): (r: (byte, seq<u16>))
    ensures |r.1| == MaxWordSize
  {
    if w.hasReadHandler then (h.read(w).0, Fit(h.read(w).1, MaxWordSize))
    else if w.hasValue && w.nbRegs == 1 then (NullException, Fit([h.pointerValue(w)], MaxWordSize))
    else (SlaveDeviceFailure, Fit([], MaxWordSize))
  }

  predicate IsRegisterRead(fc: int)
  {
    fc == ReadHoldingRegisters || fc == ReadInputRegisters
  }

  predicate IsCoilRead(fc: int)
  {
    fc == ReadCoils || fc == ReadDiscreteInputs
  }

  /** Two frames that differ at most in their data field. */
  predicate SameHeader(a: FrameValue, b: FrameValue)
  {
    a.msgType == b.msgType && a.fc == b.fc && a.slaveId == b.slaveId && a.regAddress == b.regAddress
    && a.regCount == b.regCount && a.exceptionCode == b.exceptionCode
  }

  /** A partially built response and whether building it may go on. */
  datatype Progress = Progress(ok: bool, resp: FrameValue)

  /**
   * The gap loop: a zero register or coil at each response index in
   * [from, to); it stops at the first index past the frame's capacity.
   * Function codes that are neither register nor coil reads write nothing.
   */
  function FillGap(resp: FrameValue, fc: int, from: nat, to: nat): (p: Progress)
    ensures SameHeader(p.resp, resp)
    decreases if from < to then to - from else 0
  {
    if from >= to then Progress(true, resp)
    else if IsRegisterRead(fc) then
      if from + 1 > FrameDataSize then Progress(false, resp)
      else FillGap(AfterSetRegistersAt(resp, [0], from).value, fc, from + 1, to)
    else if IsCoilRead(fc) then
      if from + 1 > FrameCoilCapacity then Progress(false, resp)
      else FillGap(AfterSetCoilsAt(resp, [false], from).value, fc, from + 1, to)
    else FillGap(resp, fc, from + 1, to)
  }

  /** The coil values of a word: each register value taken as non-zero. */
  function AsCoils(vals: seq<u16>): (r: seq<bool>)
    ensures |r| == |vals| && forall i :: 0 <= i < |vals| ==> (r[i] <==> vals[i] != 0)
  {
    seq(|vals|, i requires 0 <= i < |vals| => vals[i] != 0)
  }

  /** The end of a read pass: the exception code, the response, and the read handlers called. */
  datatype ReadOutcome = ReadOutcome(ec: byte, resp: FrameValue, calls: seq<Word>)

  /**
   * The streaming pass of `handleRead` from address cur, for a request
   * starting at start: a gap is zero-filled up to the next word; a word is
   * read and its values stored at response index (address - start); a
   * handler exception, or a store past the frame's capacity, clears the
   * data and stops.
   */
  function StreamRead(ws: seq<Word>, h: Handlers, fc: int, t: RegisterType, start: nat, cur: nat, end: nat,
                      resp: FrameValue, calls: seq<Word>): (o: ReadOutcome)
    requires AllAcceptable(ws) && start <= cur
    ensures SameHeader(o.resp, resp)
    decreases end - cur
  {
    if cur >= end then ReadOutcome(NullException, resp, calls)
    else
      var s := ReadStepAt(ws, h, fc, t, start, cur, end, resp, calls);
      if s.stop then ReadOutcome(s.ec, s.resp, s.calls)
      else StreamRead(ws, h, fc, t, start, s.next, end, s.resp, s.calls)
  }

  /** One round of the read pass: whether it stops, the exception code, the next address, the response and the calls. */
  datatype ReadStep = ReadStep(stop: bool, ec: byte, next: nat, resp: FrameValue, calls: seq<Word>)

  /**
   * The round of the read pass at cur: with no word of type t starting at
   * cur, the gap up to the next word is zero-filled (a fill past the frame
   * stops with SLAVE_DEVICE_FAILURE); otherwise the word there is read.
   */
  function ReadStepAt(ws: seq<Word>, h: Handlers, fc: int, t: RegisterType, start: nat, cur: nat, end: nat,
                      resp: FrameValue, calls: seq<Word>): (s: ReadStep)
    requires AllAcceptable(ws) && start <= cur < end
    ensures cur < s.next && SameHeader(s.resp, resp)
    ensures s.stop <==> s.ec != NullException
    ensures FirstExact(ws, t, cur).None? ==> s.calls == calls && s.next <= end
  {
    AcceptableNonEmpty(ws);
    match FirstExact(ws, t, cur)
    case None =>
      var g := GapEnd(ws, t, cur, end);
      var p := FillGap(resp, fc, cur - start, g - start);
      ReadStep(!p.ok, if p.ok then NullException else SlaveDeviceFailure, g, p.resp, calls)
    case Some(k) =>
      var w := ws[k];
      assert w in ws;
      var s := ReadWordStep(h, fc, w, cur - start, resp, calls);
      ReadStep(s.stop, s.ec, cur + w.nbRegs as nat, s.resp, s.calls)
  }

  /** One word of the read pass: whether the pass stops, the exception code, the response and the calls so far. */
  datatype WordRead = WordRead(stop: bool, ec: byte, resp: FrameValue, calls: seq<Word>)

  /**
   * Reading the word w into the response from index idx: a handler
   * exception, or values that do not fit the frame, clear the data and stop
   * the pass; otherwise the values are stored as registers or as coils.
   */
  function ReadWordStep(h: Handlers, fc: int, w: Word, idx: nat, resp: FrameValue, calls: seq<Word>): (s: WordRead)
    requires 1 <= w.nbRegs as nat <= MaxWordSize
    ensures SameHeader(s.resp, resp)
    ensures s.calls == if w.hasReadHandler then calls + [w] else calls
    ensures s.stop <==> s.ec != NullException
  {
    var (ec, buf) := ReadWord(h, w);
    var calls' := if w.hasReadHandler then calls + [w] else calls;
    var nb := w.nbRegs as nat;
    if ec != NullException then WordRead(true, ec, resp.(data := ZeroData), calls')
    else if IsRegisterRead(fc) then
      if idx + nb > FrameDataSize then WordRead(true, SlaveDeviceFailure, resp.(data := ZeroData), calls')
      else WordRead(false, NullException, AfterSetRegistersAt(resp, buf[..nb], idx).value, calls')
    else if IsCoilRead(fc) then
      if idx + nb > FrameCoilCapacity then WordRead(true, SlaveDeviceFailure, resp.(data := ZeroData), calls')
      else WordRead(false, NullException, AfterSetCoilsAt(resp, AsCoils(buf[..nb]), idx).value, calls')
    else WordRead(false, NullException, resp, calls')
  }

  /** A request whose last address passes 0xFFFF: start + count > 0x10000. */
  predicate AddressOverflow(req: FrameValue)
  {
    req.regCount > 0 && req.regAddress as int > MaxRegAddr - req.regCount as int + 1
  }

  /**
   * `handleRead(request, response)`: the result, the response, and the read
   * handlers called. resp is the response as `handleRequest` prepared it.
   */
  function HandleReadSpec(ws: seq<Word>, h: Handlers, req: FrameValue, resp: FrameValue, reject: bool): (Result, FrameValue, seq<Word>)
    requires AllAcceptable(ws)
  {
    AcceptableNonEmpty(ws);
    var cleared := resp.(data := ZeroData);
    var t := ToRegisterType(req.fc);
    var start := req.regAddress as nat;
    var end := start + req.regCount as nat;
    if AddressOverflow(req) then (ErrRcvIllegalDataAddress, cleared.(exceptionCode := IllegalDataAddress), [])
    else if !ScanCheck(ws, t, start, end, reject, false) then
      (ErrRcvIllegalDataAddress, cleared.(exceptionCode := IllegalDataAddress), [])
    else ReadTail(ws, h, req, cleared)
  }

  /** The reply `handleRead` builds once the request has passed its checks: stream, then report. */
  function ReadTail(ws: seq<Word>, h: Handlers, req: FrameValue, resp: FrameValue): (Result, FrameValue, seq<Word>)
    requires AllAcceptable(ws)
  {
    var t := ToRegisterType(req.fc);
    var start := req.regAddress as nat;
    var o := StreamRead(ws, h, req.fc, t, start, start, start + req.regCount as nat, resp, []);
    if o.ec != NullException then (ErrRcvSlaveDeviceFailure, o.resp.(exceptionCode := o.ec), o.calls)
    else (Success, o.resp.(regCount := req.regCount), o.calls)
  }

  /**
   * The read decisions: an address overflow or a failed validation scan is
   * ILLEGAL_DATA_ADDRESS before any handler runs; a handler exception is
   * returned as the response's exception code with cleared data; a success
   * answers with the request's count and no exception.
   */
  lemma HandleReadDecisions(ws: seq<Word>, h: Handlers, req: FrameValue, resp: FrameValue, reject: bool)
    requires AllAcceptable(ws) && resp.exceptionCode == NullException
    ensures var (r, out, calls) := HandleReadSpec(ws, h, req, resp, reject);
      var start := req.regAddress as nat;
      && (AddressOverflow(req) ==> r == ErrRcvIllegalDataAddress && out.exceptionCode == IllegalDataAddress && calls == [])
      && (r == ErrRcvIllegalDataAddress ==> calls == [] && out.exceptionCode == IllegalDataAddress)
      && (NonEmptyWords(ws) && !AddressOverflow(req)
          && !ScanCheck(ws, ToRegisterType(req.fc), start, start + req.regCount as nat, reject, false)
          ==> r == ErrRcvIllegalDataAddress)
      && out.msgType == resp.msgType && out.fc == resp.fc && out.slaveId == resp.slaveId
      && (r == Success ==> out.regCount == req.regCount && out.exceptionCode == NullException)
      && (r == ErrRcvSlaveDeviceFailure ==> out.exceptionCode != NullException)
      && r in {Success, ErrRcvIllegalDataAddress, ErrRcvSlaveDeviceFailure}
  {
    AcceptableNonEmpty(ws);
  }

  // ---------------------------------------------------------------------------
  // The streaming write pass
  // ---------------------------------------------------------------------------

  predicate IsRegisterWrite(fc: int)
  {
    fc == WriteRegister || fc == WriteMultipleRegisters
  }

  predicate IsCoilWrite(fc: int)
  {
    fc == WriteCoil || fc == WriteMultipleCoils
  }

  /**
   * The word buffer handed to a word at request offset off: the request's
   * registers (within the 125-entry data field), or its coils normalised to
   * 0 and 1 (within the request's count), zero elsewhere.
   */
  function WriteValues(req: FrameValue, w: Word, off: nat): (r: seq<u16>)
    ensures |r| == MaxWordSize
    ensures forall i :: 0 <= i < MaxWordSize ==> r[i] in {0, 1} || IsRegisterWrite(req.fc)
  {
    seq(MaxWordSize, i requires 0 <= i < MaxWordSize =>
      if i >= w.nbRegs as int then 0
      else if IsRegisterWrite(req.fc) then (if off + i < FrameDataSize then req.data[off + i] else 0)
      else if IsCoilWrite(req.fc) then (if off + i < req.regCount as int && GetCoil(req, off + i) then 1 else 0)
      else 0)
  }

  /** One write the server performed: a handler call or a store through a direct pointer. */
  datatype WriteEffect = WriteEffect(word: Word, values: seq<u16>)

  /** The end of a write pass: the first exception met (0 for none) and the writes performed. */
  datatype WriteOutcome = WriteOutcome(ec: byte, effects: seq<WriteEffect>)

  /**
   * Writing one word whose first address is at request offset off: the
   * exception code and the write performed (none when the word is neither
   * behind a write handler nor a writable direct pointer).
   */
  function WriteWord(h: Handlers, req: FrameValue, w: Word, off: nat): (r: (byte, seq<WriteEffect>))
    ensures |r.1| <= 1 && (|r.1| == 1 <==> Writable(w))
    ensures forall e :: e in r.1 ==> e == WriteEffect(w, WriteValues(req, w, off))
    ensures !Writable(w) ==> r.0 == SlaveDeviceFailure
  {
    var vals := WriteValues(req, w, off);
    if w.hasWriteHandler then (h.write(w, vals), [WriteEffect(w, vals)])
    else if w.hasValue && w.nbRegs == 1 && !IsReadOnly(w.rtype) then (NullException, [WriteEffect(w, vals)])
    else (SlaveDeviceFailure, [])
  }

  /**
   * The streaming pass of `handleWrite` from address cur: each word met is
   * written even after an earlier one failed; the first exception is kept.
   * Gaps are skipped; a gap with rejectUndefined, which validation has
   * already excluded, ends the pass.
   */
  function StreamWrite(ws: seq<Word>, h: Handlers, req: FrameValue, t: RegisterType, cur: nat, end: nat,
                       reject: bool, first: byte, effects: seq<WriteEffect>): (o: WriteOutcome)
    requires NonEmptyWords(ws) && req.regAddress as nat <= cur
    ensures first != NullException ==> o.ec == first
    decreases end - cur
  {
    if cur >= end then WriteOutcome(first, effects)
    else match FirstExact(ws, t, cur)
      case None =>
        if !reject then StreamWrite(ws, h, req, t, GapEnd(ws, t, cur, end), end, reject, first, effects)
        else WriteOutcome(first, effects)
      case Some(k) =>
        var (ec, eff) := WriteWord(h, req, ws[k], cur - req.regAddress as nat);
        var first' := if ec != NullException && first == NullException then ec else first;
        StreamWrite(ws, h, req, t, cur + ws[k].nbRegs as nat, end, reject, first', effects + eff)
  }

  /** One step of the write pass over a word that starts at cur. */
  lemma StreamWriteAt(ws: seq<Word>, h: Handlers, req: FrameValue, t: RegisterType, cur: nat, end: nat,
                      reject: bool, first: byte, effects: seq<WriteEffect>, w: Word, ec: byte, eff: seq<WriteEffect>)
    requires NonEmptyWords(ws) && req.regAddress as nat <= cur < end
    requires FirstExact(ws, t, cur).Some? && ws[FirstExact(ws, t, cur).value] == w
    requires (ec, eff) == WriteWord(h, req, w, cur - req.regAddress as nat)
    ensures StreamWrite(ws, h, req, t, cur, end, reject, first, effects)
         == StreamWrite(ws, h, req, t, cur + w.nbRegs as nat, end, reject,
                        if ec != NullException && first == NullException then ec else first, effects + eff)
  {
  }

  /** One step of the write pass at an address where no word of table t starts. */
  lemma StreamWriteGap(ws: seq<Word>, h: Handlers, req: FrameValue, t: RegisterType, cur: nat, end: nat,
                       reject: bool, first: byte, effects: seq<WriteEffect>)
    requires NonEmptyWords(ws) && req.regAddress as nat <= cur < end && FirstExact(ws, t, cur).None?
    ensures StreamWrite(ws, h, req, t, cur, end, reject, first, effects)
         == if reject then WriteOutcome(first, effects)
            else StreamWrite(ws, h, req, t, GapEnd(ws, t, cur, end), end, reject, first, effects)
  {
  }

  /** A write to a stored word of table t carrying the request's values at that word's offset. */
  predicate FromRequest(ws: seq<Word>, req: FrameValue, t: RegisterType, e: WriteEffect)
  {
    && e.word in ws && e.word.rtype == t && req.regAddress <= e.word.startAddr
    && e.values == WriteValues(req, e.word, e.word.startAddr as nat - req.regAddress as nat)
  }

  /** Each write of the pass goes to a stored word of the request's table, with the request's values for it. */
  lemma {:induction false} StreamWriteEffects(ws: seq<Word>, h: Handlers, req: FrameValue, t: RegisterType, cur: nat, end: nat,
                                              reject: bool, first: byte, effects: seq<WriteEffect>)
    requires NonEmptyWords(ws) && req.regAddress as nat <= cur
    requires forall e :: e in effects ==> FromRequest(ws, req, t, e)
    ensures forall e :: e in StreamWrite(ws, h, req, t, cur, end, reject, first, effects).effects ==> FromRequest(ws, req, t, e)
    decreases end - cur
  {
    if cur < end {
      match FirstExact(ws, t, cur)
      case None =>
        if !reject {
          StreamWriteEffects(ws, h, req, t, GapEnd(ws, t, cur, end), end, reject, first, effects);
        }
      case Some(k) =>
        var (ec, eff) := WriteWord(h, req, ws[k], cur - req.regAddress as nat);
        var first' := if ec != NullException && first == NullException then ec else first;
        assert ws[k] in ws;
        StreamWriteEffects(ws, h, req, t, cur + ws[k].nbRegs as nat, end, reject, first', effects + eff);
    }
  }

  /**
   * After a passing validation scan from cur, every word the pass meets ends
   * within the request and is writable, so each one is written.
   */
  lemma {:induction false} ValidatedWritesFit(ws: seq<Word>, h: Handlers, req: FrameValue, t: RegisterType, cur: nat, end: nat,
                                              reject: bool, first: byte, effects: seq<WriteEffect>)
    requires NonEmptyWords(ws) && req.regAddress as nat <= cur
    requires ScanCheck(ws, t, cur, end, reject, true)
    requires forall e :: e in effects ==> End(e.word) <= end && Writable(e.word)
    ensures forall e :: e in StreamWrite(ws, h, req, t, cur, end, reject, first, effects).effects ==>
      End(e.word) <= end && Writable(e.word)
    decreases end - cur
  {
    if cur < end {
      match FirstExact(ws, t, cur)
      case None =>
        ValidatedWritesFit(ws, h, req, t, GapEnd(ws, t, cur, end), end, reject, first, effects);
      case Some(k) =>
        var (ec, eff) := WriteWord(h, req, ws[k], cur - req.regAddress as nat);
        var first' := if ec != NullException && first == NullException then ec else first;
        ValidatedWritesFit(ws, h, req, t, cur + ws[k].nbRegs as nat, end, reject, first', effects + eff);
    }
  }

  /**
   * `handleWrite(request, response)`: the result, the response and the
   * writes performed. resp is the response as `handleRequest` prepared it.
   */
  function HandleWriteSpec(ws: seq<Word>, h: Handlers, req: FrameValue, resp: FrameValue, reject: bool): (Result, FrameValue, seq<WriteEffect>)
    requires AllAcceptable(ws)
  {
    AcceptableNonEmpty(ws);
    var t := ToRegisterType(req.fc);
    var start := req.regAddress as nat;
    var n := req.regCount as nat;
    if n == 0 then (ErrRcvIllegalDataValue, resp.(exceptionCode := IllegalDataValue), [])
    else if AddressOverflow(req) then (ErrRcvIllegalDataAddress, resp.(exceptionCode := IllegalDataAddress), [])
    else if IsReadOnly(t) then (ErrRcvIllegalFunction, resp.(exceptionCode := IllegalFunction), [])
    else if !ScanCheck(ws, t, start, start + n, reject, true) then
      (ErrRcvIllegalDataAddress, resp.(exceptionCode := IllegalDataAddress), [])
    else WriteTail(ws, h, req, resp, reject)
  }

  /** The reply `handleWrite` builds once the request has passed its checks: write every word, then report. */
  function WriteTail(ws: seq<Word>, h: Handlers, req: FrameValue, resp: FrameValue, reject: bool): (Result, FrameValue, seq<WriteEffect>)
    requires NonEmptyWords(ws)
  {
    var t := ToRegisterType(req.fc);
    var start := req.regAddress as nat;
    var n := req.regCount as nat;
    var o := StreamWrite(ws, h, req, t, start, start + n, reject, NullException, []);
    if o.ec != NullException then (ErrRcvSlaveDeviceFailure, resp.(exceptionCode := o.ec), o.effects)
    else if req.fc == WriteRegister || req.fc == WriteCoil then
      var m := Min(n, FrameDataSize);
      (Success, resp.(data := req.data[..m] + resp.data[m..]), o.effects)
    else (Success, resp.(regAddress := req.regAddress, regCount := req.regCount), o.effects)
  }

  /**
   * The write decisions: a zero count is ILLEGAL_DATA_VALUE, an address
   * overflow or a failed validation scan ILLEGAL_DATA_ADDRESS, a read-only
   * table ILLEGAL_FUNCTION, all before anything is written; a handler
   * exception is reported after every word was written; a single write
   * echoes the data and a multiple write the address and count.
   */
  lemma HandleWriteDecisions(ws: seq<Word>, h: Handlers, req: FrameValue, resp: FrameValue, reject: bool)
    requires AllAcceptable(ws)
    ensures var (r, out, effects) := HandleWriteSpec(ws, h, req, resp, reject);
      && (req.regCount == 0 ==> r == ErrRcvIllegalDataValue && out.exceptionCode == IllegalDataValue)
      && (req.regCount > 0 && AddressOverflow(req) ==> r == ErrRcvIllegalDataAddress)
      && (req.regCount > 0 && !AddressOverflow(req) && IsReadOnly(ToRegisterType(req.fc)) ==> r == ErrRcvIllegalFunction)
      && (r in {ErrRcvIllegalDataValue, ErrRcvIllegalDataAddress, ErrRcvIllegalFunction} ==> effects == [])
      && (r == Success && (req.fc == WriteRegister || req.fc == WriteCoil) ==> out.data[0] == req.data[0])
      && (r == Success && !(req.fc == WriteRegister || req.fc == WriteCoil) ==>
            out.regAddress == req.regAddress && out.regCount == req.regCount)
      && (r == Success ==> out.exceptionCode == resp.exceptionCode)
      && (r != Success ==> out.exceptionCode != NullException)
      && r in {Success, ErrRcvIllegalDataValue, ErrRcvIllegalDataAddress, ErrRcvIllegalFunction, ErrRcvSlaveDeviceFailure}
      && out.msgType == resp.msgType && out.fc == resp.fc && out.slaveId == resp.slaveId
  {
    AcceptableNonEmpty(ws);
  }

  // ---------------------------------------------------------------------------
  // Request dispatch (handleRequest)
  // ---------------------------------------------------------------------------

  /** The response `handleRequest` prepares once a request has passed its guards. */
  function Prepared(req: FrameValue): FrameValue
  {
    EmptyFrame.(msgType := Response, fc := req.fc, slaveId := req.slaveId,
                regAddress := req.regAddress, regCount := req.regCount)
  }

  /** What handling one request did: the result, the reply sent (if any), and the handler activity. */
  datatype Handled = Handled(result: Result, reply: Option<FrameValue>, calls: seq<Word>, effects: seq<WriteEffect>)

  /**
   * The guard chain of `handleRequest` and the handler it routes to:
   * busy (SLAVE_DEVICE_BUSY), another slave's request, a non-request, a
   * broadcast read and a function code outside the enum range
   * (ILLEGAL_FUNCTION) are answered or ignored in that order; broadcasts are
   * never answered.
   */
  function Answered(serverId: byte, catchAll: bool, reject: bool, ws: seq<Word>, h: Handlers,
                    req: FrameValue, locked: bool): Handled
    requires AllAcceptable(ws)
  {
    var bc := IsBroadcastId(req.slaveId);
    if !locked then Handled(ErrRcvBusy, if bc then None else Some(ExceptionResponse(req, SlaveDeviceBusy)), [], [])
    else if !(IsBroadcastId(serverId) || catchAll) && req.slaveId != serverId && !bc then Handled(ErrRcvWrongSlaveId, None, [], [])
    else if req.msgType != Request then Handled(ErrRcvInvalidType, None, [], [])
    else if bc && !IsWrite(req.fc) then Handled(ErrRcvIllegalFunction, None, [], [])
    else if !IsValidFunctionCode(req.fc) then
      Handled(ErrRcvIllegalFunction, if bc then None else Some(ExceptionResponse(req, IllegalFunction)), [], [])
    else Served(reject, ws, h, req)
  }

  /** A request that passed the guards goes to the write or the read handler, on a prepared response. */
  function Served(reject: bool, ws: seq<Word>, h: Handlers, req: FrameValue): Handled
    requires AllAcceptable(ws)
  {
    if IsWrite(req.fc) then
      var (r, resp, effects) := HandleWriteSpec(ws, h, req, Prepared(req), reject);
      Handled(r, if IsBroadcastId(req.slaveId) then None else Some(resp), [], effects)
    else
      var (r, resp, calls) := HandleReadSpec(ws, h, req, Prepared(req), reject);
      Handled(r, Some(resp), calls, [])
  }

  /**
   * `handleRequest(request, sourceInterface)`: nothing before `begin()`;
   * otherwise the answer, with a failed transmission of the reply taking
   * precedence in the result. catchAll is the interface's catch-all
   * setting, locked whether the request lock was obtained, txOk whether
   * sending the reply succeeded.
   */
  function HandleRequestSpec(initialized: bool, serverId: byte, catchAll: bool, reject: bool, ws: seq<Word>, h: Handlers,
                             req: FrameValue, locked: bool, txOk: bool): Handled
    requires AllAcceptable(ws)
  {
    if !initialized then Handled(ErrNotInitialized, None, [], [])
    else
      var a := Answered(serverId, catchAll, reject, ws, h, req, locked);
      Handled(if a.reply.Some? && !txOk then ErrRspTxFailed else a.result, a.reply, a.calls, a.effects)
  }

  /**
   * What every handled request satisfies: broadcasts get no reply; a reply
   * is a RESPONSE with the request's function code and slave ID whose
   * exception code is zero exactly when the request succeeded; reads write
   * nothing and writes call no read handler; a request rejected by the
   * guards reaches no handler.
   */
  lemma HandleRequestProperties(initialized: bool, serverId: byte, catchAll: bool, reject: bool, ws: seq<Word>, h: Handlers,
                                req: FrameValue, locked: bool, txOk: bool)
    requires AllAcceptable(ws)
    ensures var o := HandleRequestSpec(initialized, serverId, catchAll, reject, ws, h, req, locked, txOk);
      && (IsBroadcastId(req.slaveId) ==> o.reply == None)
      && (!initialized ==> o.result == ErrNotInitialized && o.reply == None)
      && (o.reply.Some? ==> o.reply.value.msgType == Response && o.reply.value.fc == req.fc
                            && o.reply.value.slaveId == req.slaveId)
      && (o.reply.Some? && txOk ==> (o.result == Success <==> o.reply.value.exceptionCode == NullException))
      && (o.reply.Some? && !txOk ==> o.result == ErrRspTxFailed)
      && (!IsWrite(req.fc) ==> o.effects == [])
      && (IsWrite(req.fc) ==> o.calls == [])
      && (!locked || req.msgType != Request || !IsValidFunctionCode(req.fc) ==> o.calls == [] && o.effects == [])
      && ((initialized && locked && !(IsBroadcastId(serverId) || catchAll) && req.slaveId != serverId
           && !IsBroadcastId(req.slaveId)) ==> o == Handled(ErrRcvWrongSlaveId, None, [], []))
  {
    if IsWrite(req.fc) {
      HandleWriteDecisions(ws, h, req, Prepared(req), reject);
    } else {
      HandleReadDecisions(ws, h, req, Prepared(req), reject);
    }
  }
}
