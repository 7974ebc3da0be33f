/**
 * The word store of the server (src/core/ModbusWord.hpp): a capacity-bounded
 * table of words, each a range of registers of one type handled as a unit.
 *
 * Both store implementations are modelled by the one class `WordStore`: the
 * static store keeps its words in a fixed array of N entries and a count; the
 * dynamic store keeps them in a vector reserved to its total capacity, which
 * it never exceeds, so an array of that capacity plus a count models it too.
 * The two differ only in their initial mode and in how the capacity is
 * chosen, which are the two constructors.
 *
 * In sorted mode the words are kept in ascending `startAddr` order and an
 * overlapping insert is refused; in bulk mode inserts append without any
 * check, and `SortAll` restores the order and switches to sorted mode.
 */
module ModbusWordStore {
  import opened Wrappers
  import opened ModbusCore

  /**
   * A word. The direct value pointer and the two handlers are modelled by
   * whether they are present; `ctx` stands for the user context pointer and
   * is what distinguishes two words with the same range and handlers.
   */
  datatype Word = Word(
    rtype: RegisterType,
    startAddr: u16,
    nbRegs: u16,
    hasValue: bool,
    hasReadHandler: bool,
    hasWriteHandler: bool,
    ctx: nat)

  /** The default-constructed word (null type, no registers, nothing attached). */
  const NullWord := Word(NullRT, 0, 0, false, false, false, 0)

  /** `operator bool`: a word is usable when its type is valid and it has registers. */
  predicate IsValidWord(w: Word)
  {
    IsValidRegisterType(w.rtype) && w.nbRegs > 0
  }

  /** One past the word's last address, computed without 16-bit wrap-around. */
  function End(w: Word): nat
  {
    w.startAddr as nat + w.nbRegs as nat
  }

  /** The word covers address a. */
  predicate Contains(w: Word, a: int)
  {
    w.startAddr <= a < End(w)
  }

  /** Two words of the same type whose half-open ranges intersect. */
  predicate Clashes(x: Word, w: Word)
  {
    x.rtype == w.rtype && w.startAddr < End(x) && x.startAddr < End(w)
  }

  /** Some word of ws clashes with w. */
  predicate OverlapsAny(ws: seq<Word>, w: Word)
  {
    exists i :: 0 <= i < |ws| && Clashes(ws[i], w)
  }

  /** Ascending by start address. */
  predicate Sorted(ws: seq<Word>)
  {
    forall i, j :: 0 <= i < j < |ws| ==> ws[i].startAddr <= ws[j].startAddr
  }

  /** No two words of the same type overlap. */
  predicate SameTypeDisjoint(ws: seq<Word>)
  {
    forall i, j :: 0 <= i < j < |ws| ==> !Clashes(ws[i], ws[j])
  }

  /**
   * `std::lower_bound` by start address: the length of the leading run of
   * words starting below a. On a sorted sequence that is the first index
   * whose start is at least a.
   */
  function LowerBound(ws: seq<Word>, a: int): (k: nat)
    ensures k <= |ws|
    ensures forall i :: 0 <= i < k ==> ws[i].startAddr < a
    ensures k < |ws| ==> ws[k].startAddr >= a
  {
    if |ws| == 0 || ws[0].startAddr >= a then 0 else 1 + LowerBound(ws[1..], a)
  }

  /** `std::upper_bound` by start address: the leading run of words starting at or below a. */
  function UpperBound(ws: seq<Word>, a: int): (k: nat)
    ensures k <= |ws|
    ensures forall i :: 0 <= i < k ==> ws[i].startAddr <= a
    ensures k < |ws| ==> ws[k].startAddr > a
  {
    if |ws| == 0 || ws[0].startAddr > a then 0 else 1 + UpperBound(ws[1..], a)
  }

  /** On a sorted sequence every word from the lower bound on starts at or above a. */
  lemma LowerBoundSplits(ws: seq<Word>, a: int)
    requires Sorted(ws)
    ensures forall i :: LowerBound(ws, a) <= i < |ws| ==> ws[i].startAddr >= a
  {
  }

  /** On a sorted sequence every word from the upper bound on starts above a. */
  lemma UpperBoundSplits(ws: seq<Word>, a: int)
    requires Sorted(ws)
    ensures forall i :: UpperBound(ws, a) <= i < |ws| ==> ws[i].startAddr > a
  {
  }

  /** Any index splitting a sorted sequence into starts below a and at or above a is the lower bound. */
  lemma {:induction false} LowerBoundUnique(ws: seq<Word>, a: int, k: nat)
    requires k <= |ws|
    requires forall i :: 0 <= i < k ==> ws[i].startAddr < a
    requires forall i :: k <= i < |ws| ==> ws[i].startAddr >= a
    ensures LowerBound(ws, a) == k
  {
    if k > 0 {
      LowerBoundUnique(ws[1..], a, k - 1);
    }
  }

  /** Any index splitting a sorted sequence into starts at or below a and above a is the upper bound. */
  lemma {:induction false} UpperBoundUnique(ws: seq<Word>, a: int, k: nat)
    requires k <= |ws|
    requires forall i :: 0 <= i < k ==> ws[i].startAddr <= a
    requires forall i :: k <= i < |ws| ==> ws[i].startAddr > a
    ensures UpperBound(ws, a) == k
  {
    if k > 0 {
      UpperBoundUnique(ws[1..], a, k - 1);
    }
  }

  /** A word of type t starting at a (after false) or strictly after a (after true). */
  predicate Starts(w: Word, t: RegisterType, a: int, after: bool)
  {
    w.rtype == t && (if after then w.startAddr > a else w.startAddr == a)
  }

  /**
   * The first index from i whose word meets `Starts`; the postconditions
   * determine the result, so any index they describe is the one returned.
   */
  function FirstFrom(ws: seq<Word>, t: RegisterType, a: int, after: bool, i: nat): (r: Option<nat>)
    requires i <= |ws|
    ensures r.Some? ==> i <= r.value < |ws| && Starts(ws[r.value], t, a, after)
    ensures r.Some? ==> forall j :: i <= j < r.value ==> !Starts(ws[j], t, a, after)
    ensures r.None? ==> forall j :: i <= j < |ws| ==> !Starts(ws[j], t, a, after)
    decreases |ws| - i
  {
    if i == |ws| then None
    else if Starts(ws[i], t, a, after) then Some(i)
    else FirstFrom(ws, t, a, after, i + 1)
  }

  /** An index meeting `Starts` with none before it is the one FirstFrom returns. */
  lemma FirstFromAt(ws: seq<Word>, t: RegisterType, a: int, after: bool, k: nat)
    requires k < |ws| && Starts(ws[k], t, a, after)
    requires forall j :: 0 <= j < k ==> !Starts(ws[j], t, a, after)
    ensures FirstFrom(ws, t, a, after, 0) == Some(k)
  {
  }

  /** With no index meeting `Starts`, FirstFrom returns None. */
  lemma FirstFromNone(ws: seq<Word>, t: RegisterType, a: int, after: bool)
    requires forall j :: 0 <= j < |ws| ==> !Starts(ws[j], t, a, after)
    ensures FirstFrom(ws, t, a, after, 0) == None
  {
  }

  /** What `findExact(t, a)` finds on a sorted store: the first word of type t starting at a. */
  function FirstExact(ws: seq<Word>, t: RegisterType, a: int): Option<nat>
  {
    FirstFrom(ws, t, a, false, 0)
  }

  /** What `findNext(t, a)` finds on a sorted store: the first word of type t starting after a. */
  function FirstAfter(ws: seq<Word>, t: RegisterType, a: int): Option<nat>
  {
    FirstFrom(ws, t, a, true, 0)
  }

  /** The sequence after a sorted-mode insert: w placed at the lower bound of its start address. */
  function Inserted(ws: seq<Word>, w: Word): (r: seq<Word>)
    ensures |r| == |ws| + 1
  {
    var k := LowerBound(ws, w.startAddr);
    ws[..k] + [w] + ws[k..]
  }

  /** Where each word lands in a sorted insert: before the lower bound unmoved, w at it, the rest one place up. */
  lemma InsertedIndex(ws: seq<Word>, w: Word)
    ensures var p := LowerBound(ws, w.startAddr);
      var r := Inserted(ws, w);
      && r[p] == w
      && (forall k :: 0 <= k < p ==> r[k] == ws[k])
      && (forall k :: p < k <= |ws| ==> r[k] == ws[k - 1])
  {
  }

  /** A sorted insert keeps a sorted sequence sorted. */
  lemma InsertedSorted(ws: seq<Word>, w: Word)
    requires Sorted(ws)
    ensures Sorted(Inserted(ws, w))
  {
    var k := LowerBound(ws, w.startAddr);
    LowerBoundSplits(ws, w.startAddr);
    var r := Inserted(ws, w);
    forall i, j | 0 <= i < j < |r|
      ensures r[i].startAddr <= r[j].startAddr
    {
      if j > k {
        assert r[j] == ws[j - 1];
        if i > k {
          assert r[i] == ws[i - 1];
        }
      }
    }
  }

  /** A sorted insert adds exactly w and keeps every other word. */
  lemma InsertedPermutation(ws: seq<Word>, w: Word)
    ensures multiset(Inserted(ws, w)) == multiset(ws) + multiset{w}
  {
    var k := LowerBound(ws, w.startAddr);
    assert ws == ws[..k] + ws[k..];
  }

  /** A sorted insert places w before every word with the same start: re-adding an address puts the newest first. */
  lemma InsertedBeforeEqual(ws: seq<Word>, w: Word, i: nat)
    requires i < |ws| && ws[i].startAddr == w.startAddr
    ensures LowerBound(ws, w.startAddr) <= i
    ensures Inserted(ws, w)[LowerBound(ws, w.startAddr)] == w
  {
  }

  /** The words of ws not of type t, in their original order (`clear(type)`). */
  function WithoutType(ws: seq<Word>, t: RegisterType): (r: seq<Word>)
    ensures |r| <= |ws|
    ensures forall i :: 0 <= i < |r| ==> r[i].rtype != t
  {
    if |ws| == 0 then []
    else if ws[|ws| - 1].rtype == t then WithoutType(ws[..|ws| - 1], t)
    else WithoutType(ws[..|ws| - 1], t) + [ws[|ws| - 1]]
  }

  /** The number of words of type t (`size(type)`). */
  function CountType(ws: seq<Word>, t: RegisterType): (n: nat)
    ensures n <= |ws|
  {
    if |ws| == 0 then 0
    else CountType(ws[..|ws| - 1], t) + (if ws[|ws| - 1].rtype == t then 1 else 0)
  }

  /** Removing the words of type t from a sorted sequence leaves it sorted. */
  lemma {:induction false} WithoutTypeSorted(ws: seq<Word>, t: RegisterType)
    requires Sorted(ws)
    ensures Sorted(WithoutType(ws, t))
  {
    if |ws| > 0 {
      var init := ws[..|ws| - 1];
      var last := ws[|ws| - 1];
      WithoutTypeSorted(init, t);
      WithoutTypeMembers(init, t);
      var r0 := WithoutType(init, t);
      if last.rtype != t {
        var r := r0 + [last];
        forall i, j | 0 <= i < j < |r|
          ensures r[i].startAddr <= r[j].startAddr
        {
          if j == |r| - 1 {
            assert r[i] in init;
            var m :| 0 <= m < |init| && init[m] == r[i];
          }
        }
      }
    }
  }

  /** The words kept by `clear(type)` are exactly the stored words of the other types. */
  lemma {:induction false} WithoutTypeMembers(ws: seq<Word>, t: RegisterType)
    ensures forall x :: x in WithoutType(ws, t) <==> x in ws && x.rtype != t
  {
    if |ws| > 0 {
      var init := ws[..|ws| - 1];
      WithoutTypeMembers(init, t);
      assert ws == init + [ws[|ws| - 1]];
    }
  }

  /** `clear(type)` leaves no word of type t and the same number of words of every other type. */
  lemma {:induction false} WithoutTypeCounts(ws: seq<Word>, t: RegisterType)
    ensures CountType(WithoutType(ws, t), t) == 0
    ensures forall u :: u != t ==> CountType(WithoutType(ws, t), u) == CountType(ws, u)
  {
    if |ws| > 0 {
      var init := ws[..|ws| - 1];
      WithoutTypeCounts(init, t);
      var r0 := WithoutType(init, t);
      if ws[|ws| - 1].rtype != t {
        assert (r0 + [ws[|ws| - 1]])[..|r0|] == r0;
      }
    }
  }

  /** Counting over a concatenation adds up. */
  lemma {:induction false} CountTypeAppend(ws: seq<Word>, vs: seq<Word>, t: RegisterType)
    ensures CountType(ws + vs, t) == CountType(ws, t) + CountType(vs, t)
    decreases |vs|
  {
    if |vs| > 0 {
      assert (ws + vs)[..|ws + vs| - 1] == ws + vs[..|vs| - 1];
      CountTypeAppend(ws, vs[..|vs| - 1], t);
    } else {
      assert ws + vs == ws;
    }
  }

  /**
   * The backward scan of `findContaining` as written: starting just below the
   * upper bound, it returns the first word of type t containing a, and stops
   * at the first word (of any type) that ends at or before a.
   */
  function ContainingScan(ws: seq<Word>, i: nat, t: RegisterType, a: int): (r: Option<nat>)
    requires i <= |ws|
    ensures r.Some? ==> r.value < i && ws[r.value].rtype == t && Contains(ws[r.value], a)
    decreases i
  {
    if i == 0 then None
    else if ws[i - 1].rtype == t && Contains(ws[i - 1], a) then Some(i - 1)
    else if a >= End(ws[i - 1]) then None
    else ContainingScan(ws, i - 1, t, a)
  }

  /**
   * The scan with the stop taken only on a word of type t, which is what the
   * early exit relies on: words of one type are disjoint, so once a word of
   * type t ends at or before a, every earlier word of that type does too.
   */
  function ContainingScanFixed(ws: seq<Word>, i: nat, t: RegisterType, a: int): (r: Option<nat>)
    requires i <= |ws|
    ensures r.Some? ==> r.value < i && ws[r.value].rtype == t && Contains(ws[r.value], a)
    decreases i
  {
    if i == 0 then None
    else if ws[i - 1].rtype == t && Contains(ws[i - 1], a) then Some(i - 1)
    else if ws[i - 1].rtype == t && a >= End(ws[i - 1]) then None
    else ContainingScanFixed(ws, i - 1, t, a)
  }

  /** A word of another type that ends before a hides a containing word of type t from the scan as written. */
  lemma ContainingMissAsWritten()
    ensures var ws := [Word(HoldingRegister, 0, 10, false, true, true, 0), Word(Coil, 5, 1, true, false, false, 0)];
      Sorted(ws) && SameTypeDisjoint(ws) && Contains(ws[0], 7) && ws[0].rtype == HoldingRegister
      && UpperBound(ws, 7) == 2 && ContainingScan(ws, 2, HoldingRegister, 7) == None
  {
    var ws := [Word(HoldingRegister, 0, 10, false, true, true, 0), Word(Coil, 5, 1, true, false, false, 0)];
    assert UpperBound(ws[2..], 7) == 0;
    assert UpperBound(ws[1..], 7) == 1;
  }

  /** On a sorted store whose words of one type are disjoint and non-empty, the fixed scan finds every containing word. */
  lemma {:induction false} ContainingScanFixedComplete(ws: seq<Word>, i: nat, t: RegisterType, a: int, k: nat)
    requires i <= |ws| && Sorted(ws) && SameTypeDisjoint(ws)
    requires forall j :: 0 <= j < |ws| ==> ws[j].nbRegs > 0
    requires k < i && ws[k].rtype == t && Contains(ws[k], a)
    ensures ContainingScanFixed(ws, i, t, a).Some?
    decreases i
  {
    if k == i - 1 {
    } else {
      var w := ws[i - 1];
      if w.rtype == t && Contains(w, a) {
      } else if w.rtype == t && a >= End(w) {
        assert false;
      } else {
        ContainingScanFixedComplete(ws, i - 1, t, a, k);
      }
    }
  }

  /** Words containing a start at or below a, so they all lie below the upper bound. */
  lemma ContainingBelowUpperBound(ws: seq<Word>, a: int, k: nat)
    requires Sorted(ws) && k < |ws| && Contains(ws[k], a)
    ensures k < UpperBound(ws, a)
  {
    UpperBoundSplits(ws, a);
  }

  /** `findContaining` with the fixed stop: it returns a containing word of type t exactly when one exists. */
  lemma ContainingFixedExact(ws: seq<Word>, t: RegisterType, a: int)
    requires Sorted(ws) && SameTypeDisjoint(ws)
    requires forall j :: 0 <= j < |ws| ==> ws[j].nbRegs > 0
    ensures ContainingScanFixed(ws, UpperBound(ws, a), t, a).Some?
      <==> exists k :: 0 <= k < |ws| && ws[k].rtype == t && Contains(ws[k], a)
  {
    if k :| 0 <= k < |ws| && ws[k].rtype == t && Contains(ws[k], a) {
      ContainingBelowUpperBound(ws, a, k);
      ContainingScanFixedComplete(ws, UpperBound(ws, a), t, a, k);
    }
  }

  /**
   * A word store of fixed total capacity (the array length). `sorted` is the
   * static store's `_isSorted` and the negation of the dynamic store's
   * `_needsSorting`.
   */
  class WordStore {
    const words: array<Word>
    var count: nat
    var sorted: bool

    ghost predicate Valid()
      reads this, words
    {
      count <= words.Length && (sorted ==> Sorted(words[..count]))
    }

    /** The stored words, in storage order. */
    function Contents(): (r: seq<Word>)
      reads this, words
      requires Valid()
      ensures |r| == count
    {
      words[..count]
    }

    /** `StaticWordStore<N>()`: capacity N, empty, sorted mode. */
    constructor Static(n: nat)
      requires n > 0
      ensures Valid() && words.Length == n && Contents() == [] && sorted
    {
      words := new Word[n](_ => NullWord);
      count, sorted := 0, true;
    }

    /** `DynamicWordStore(totalCapacity)`: a capacity of 0 becomes 100; empty, bulk mode. */
    constructor Dynamic(totalCapacity: nat)
      ensures Valid() && Contents() == [] && !sorted
      ensures words.Length == if totalCapacity > 0 then totalCapacity else 100
    {
      words := new Word[if totalCapacity > 0 then totalCapacity else 100](_ => NullWord);
      count, sorted := 0, false;
    }

    /** `totalCapacity()`. */
    function TotalCapacity(): (n: nat)
      reads this
      ensures n == words.Length
    {
      words.Length
    }

    /** `hasCapacity(type)`: room for one more word of any type. */
    function HasCapacity(): (r: bool)
      reads this, words
      requires Valid()
      ensures r <==> |Contents()| < TotalCapacity()
    {
      count < words.Length
    }

    /** `clearAll()`: empties the store and marks it sorted. */
    method ClearAll()
      requires Valid()
      modifies this
      ensures Valid() && Contents() == [] && sorted
    {
      count, sorted := 0, true;
    }

    /** `clear(type)`: compacts the words not of type t towards the front, in order. */
    method ClearType(t: RegisterType)
      requires Valid()
      modifies this, words
      ensures Valid() && sorted == old(sorted)
      ensures Contents() == WithoutType(old(Contents()), t)
    {
      ghost var before := Contents();
      var kept := CompactWithout(count, t);
      if sorted {
        WithoutTypeSorted(before, t);
      }
      count := kept;
    }

    /** The compaction loop of `clear(type)` over the first n words: returns how many were kept. */
    method CompactWithout(n: nat, t: RegisterType) returns (kept: nat)
      requires n <= words.Length
      modifies words
      ensures kept <= n && words[..kept] == WithoutType(old(words[..n]), t)
    {
      ghost var before := words[..n];
      var dst := 0;
      var src := 0;
      while src < n
        invariant 0 <= dst <= src <= n
        invariant words[..dst] == WithoutType(before[..src], t)
        invariant forall k :: src <= k < n ==> words[k] == before[k]
      {
        var w := words[src];
        assert before[..src + 1][..src] == before[..src];
        if w.rtype != t {
          words[dst] := w;
          dst := dst + 1;
        }
        src := src + 1;
      }
      assert before[..src] == before;
      kept := dst;
    }

    /** `size(type)`: the number of stored words of type t. */
    method Size(t: RegisterType) returns (n: nat)
      requires Valid()
      ensures n == CountType(Contents(), t)
    {
      n := 0;
      var i := 0;
      while i < count
        invariant 0 <= i <= count
        invariant n == CountType(words[..i], t)
      {
        assert words[..i + 1][..i] == words[..i];
        if words[i].rtype == t {
          n := n + 1;
        }
        i := i + 1;
      }
      assert words[..i] == Contents();
    }

    /** `overlaps(word)`: some stored word of the same type intersects the word's range. */
    method Overlaps(w: Word) returns (r: bool)
      requires Valid()
      ensures r <==> OverlapsAny(Contents(), w)
    {
      var i := 0;
      while i < count
        invariant 0 <= i <= count
        invariant forall j :: 0 <= j < i ==> !Clashes(words[j], w)
      {
        var x := words[i];
        if x.rtype == w.rtype && w.startAddr < End(x) && x.startAddr < End(w) {
          assert Clashes(Contents()[i], w);
          return true;
        }
        i := i + 1;
      }
      r := false;
    }

    /** `std::lower_bound` over the first n words, by binary search. */
    method LowerBoundIndex(n: nat, a: int) returns (k: nat)
      requires n <= words.Length && Sorted(words[..n])
      ensures k == LowerBound(words[..n], a)
    {
      var lo, hi := 0, n;
      while lo < hi
        invariant 0 <= lo <= hi <= n
        invariant forall i :: 0 <= i < lo ==> words[i].startAddr < a
        invariant forall i :: hi <= i < n ==> words[i].startAddr >= a
      {
        var mid := (lo + hi) / 2;
        if words[mid].startAddr < a {
          assert forall i :: 0 <= i <= mid ==> words[i].startAddr <= words[mid].startAddr by {
            assert forall i :: 0 <= i < mid ==> words[..n][i] == words[i];
          }
          lo := mid + 1;
        } else {
          assert forall i :: mid <= i < n ==> words[mid].startAddr <= words[i].startAddr by {
            assert forall i :: mid < i < n ==> words[..n][i] == words[i];
          }
          hi := mid;
        }
      }
      LowerBoundUnique(words[..n], a, lo);
      k := lo;
    }

    /** `std::upper_bound` over the first n words, by binary search. */
    method UpperBoundIndex(n: nat, a: int) returns (k: nat)
      requires n <= words.Length && Sorted(words[..n])
      ensures k == UpperBound(words[..n], a)
    {
      var lo, hi := 0, n;
      while lo < hi
        invariant 0 <= lo <= hi <= n
        invariant forall i :: 0 <= i < lo ==> words[i].startAddr <= a
        invariant forall i :: hi <= i < n ==> words[i].startAddr > a
      {
        var mid := (lo + hi) / 2;
        if words[mid].startAddr <= a {
          assert forall i :: 0 <= i <= mid ==> words[i].startAddr <= words[mid].startAddr by {
            assert forall i :: 0 <= i < mid ==> words[..n][i] == words[i];
          }
          lo := mid + 1;
        } else {
          assert forall i :: mid <= i < n ==> words[mid].startAddr <= words[i].startAddr by {
            assert forall i :: mid < i < n ==> words[..n][i] == words[i];
          }
          hi := mid;
        }
      }
      UpperBoundUnique(words[..n], a, lo);
      k := lo;
    }

    /**
     * `findExact(type, address)` on a sorted store: the first word of type t
     * starting exactly at a, found by scanning forward from the lower bound.
     */
    method FindExact(t: RegisterType, a: int) returns (r: Option<nat>)
      requires Valid() && Sorted(Contents())
      ensures r == FirstExact(Contents(), t, a)
    {
      ghost var ws := Contents();
      if count == 0 {
        return None;
      }
      var i := LowerBoundIndex(count, a);
      LowerBoundSplits(ws, a);
      while i < count && words[i].startAddr == a
        invariant LowerBound(ws, a) <= i <= count
        invariant forall j :: 0 <= j < i ==> !Starts(ws[j], t, a, false)
      {
        assert ws[i] == words[i];
        if words[i].rtype == t {
          FirstFromAt(ws, t, a, false, i);
          return Some(i);
        }
        i := i + 1;
      }
      if i < count {
        assert ws[i].startAddr > a;
      }
      FirstFromNone(ws, t, a, false);
      r := None;
    }

    /**
     * `findNext(type, address)` on a sorted store: the first word of type t
     * starting strictly after a, found by scanning forward from the upper bound.
     */
    method FindNext(t: RegisterType, a: int) returns (r: Option<nat>)
      requires Valid() && Sorted(Contents())
      ensures r == FirstAfter(Contents(), t, a)
    {
      ghost var ws := Contents();
      if count == 0 {
        return None;
      }
      var i := UpperBoundIndex(count, a);
      while i < count
        invariant UpperBound(ws, a) <= i <= count
        invariant forall j :: 0 <= j < i ==> !Starts(ws[j], t, a, true)
      {
        assert ws[i] == words[i];
        UpperBoundSplits(ws, a);
        if words[i].rtype == t {
          FirstFromAt(ws, t, a, true, i);
          return Some(i);
        }
        i := i + 1;
      }
      FirstFromNone(ws, t, a, true);
      r := None;
    }

    /**
     * `findContaining(type, address)` as written: a backward scan from the
     * upper bound. A returned word has type t and contains a; a word of
     * another type ending at or before a stops the scan early, so a
     * containing word can be missed (`ContainingMissAsWritten`).
     */
    method FindContaining(t: RegisterType, a: int) returns (r: Option<nat>)
      requires Valid() && Sorted(Contents())
      ensures r == ContainingScan(Contents(), UpperBound(Contents(), a), t, a)
      ensures r.Some? ==> r.value < count && words[r.value].rtype == t && Contains(words[r.value], a)
    {
      if count == 0 {
        return None;
      }
      var i := UpperBoundIndex(count, a);
      ghost var ws := Contents();
      while i > 0
        invariant 0 <= i <= UpperBound(ws, a)
        invariant ContainingScan(ws, i, t, a) == ContainingScan(ws, UpperBound(ws, a), t, a)
      {
        i := i - 1;
        var w := words[i];
        if w.rtype == t && w.startAddr <= a < End(w) {
          return Some(i);
        }
        if a >= End(w) {
          return None;
        }
      }
      r := None;
    }

    /**
     * Moves words [k, n) up by one and stores w at k, the lower bound of its
     * start among the first n words (the shift-right loop of `insert`).
     */
    method ShiftInsert(n: nat, w: Word)
      requires n < words.Length && Sorted(words[..n])
      modifies words
      ensures words[..n + 1] == Inserted(old(words[..n]), w)
      ensures forall k :: n < k < words.Length ==> words[k] == old(words[k])
    {
      ghost var before := words[..];
      var pos := LowerBoundIndex(n, w.startAddr);
      var idx := n;
      while idx > pos
        invariant pos <= idx <= n
        invariant forall k :: 0 <= k < idx ==> words[k] == before[k]
        invariant forall k :: idx < k <= n ==> words[k] == before[k - 1]
        invariant forall k :: n < k < words.Length ==> words[k] == before[k]
      {
        words[idx] := words[idx - 1];
        idx := idx - 1;
      }
      words[pos] := w;
      ghost var prefix := before[..n];
      InsertedIndex(prefix, w);
      assert words[..n + 1] == Inserted(prefix, w);
    }

    /** The sorted-mode branch of `insert`: shift and store, then count the new word. */
    method InsertAtLowerBound(w: Word)
      requires Valid() && sorted && count < words.Length
      modifies this, words
      ensures Valid() && sorted
      ensures Contents() == Inserted(old(Contents()), w)
    {
      ghost var before := Contents();
      InsertedSorted(before, w);
      ShiftInsert(count, w);
      count := count + 1;
      assert Contents() == words[..count];
    }

    /**
     * `insert(word)`: refused when the store is full, or in sorted mode when
     * the word overlaps a stored word of its type; otherwise placed at its
     * lower bound (sorted mode) or appended (bulk mode).
     */
    method Insert(w: Word) returns (ok: bool)
      requires Valid()
      modifies this, words
      ensures Valid() && sorted == old(sorted)
      ensures ok <==> old(count) < words.Length && !(old(sorted) && OverlapsAny(old(Contents()), w))
      ensures ok && sorted ==> Contents() == Inserted(old(Contents()), w)
      ensures ok && !sorted ==> Contents() == old(Contents()) + [w]
      ensures !ok ==> Contents() == old(Contents())
    {
      if count >= words.Length {
        return false;
      }
      if sorted {
        var clash := Overlaps(w);
        if clash {
          return false;
        }
        InsertAtLowerBound(w);
      } else {
        words[count] := w;
        count := count + 1;
        assert Contents() == old(Contents()) + [w];
      }
      ok := true;
    }

    /** One step of the sort: moves word i into place among the sorted words before it. */
    method InsertPrefix(i: nat)
      requires i < words.Length && Sorted(words[..i])
      modifies words
      ensures Sorted(words[..i + 1])
      ensures multiset(words[..i + 1]) == multiset(old(words[..i])) + multiset{old(words[i])}
      ensures forall k :: i < k < words.Length ==> words[k] == old(words[k])
    {
      var w := words[i];
      ghost var prefix := words[..i];
      InsertedSorted(prefix, w);
      InsertedPermutation(prefix, w);
      ShiftInsert(i, w);
    }

    /**
     * `sortAll()`: in bulk mode, orders the words by start address and
     * switches to sorted mode; in sorted mode it does nothing. `std::sort`
     * promises an ordered permutation, and that is all this states; the
     * order is produced here by repeated sorted insertion.
     */
    method SortAll()
      requires Valid()
      modifies this, words
      ensures Valid() && sorted && count == old(count)
      ensures Sorted(Contents()) && multiset(Contents()) == multiset(old(Contents()))
      ensures old(sorted) ==> Contents() == old(Contents())
    {
      if sorted {
        return;
      }
      SortWords(count);
      sorted := true;
    }

    /** The first n words put in order by start address by repeated sorted insertion. */
    method SortWords(n: nat)
      requires n <= words.Length
      modifies words
      ensures Sorted(words[..n]) && multiset(words[..n]) == multiset(old(words[..n]))
    {
      ghost var before := words[..n];
      var i := 0;
      while i < n
        invariant 0 <= i <= n
        invariant Sorted(words[..i])
        invariant multiset(words[..i]) == multiset(before[..i])
        invariant forall k :: i <= k < n ==> words[k] == before[k]
      {
        InsertPrefix(i);
        assert before[..i + 1] == before[..i] + [before[i]];
        i := i + 1;
      }
      assert before[..i] == before;
    }
  }
}
