/**
 * The bounded byte buffer of the library (src/core/ModbusTypes.hpp): a
 * fixed-capacity byte array with a current size, and the path helper
 * `getBasename`.
 *
 * A buffer is either attached to storage (an array of `cap` bytes) or the
 * default, detached buffer of capacity 0 on which every write fails. The
 * bytes past `size` are kept: `clear` and `trim` only move the size, and
 * `resize` zero-fills the bytes it exposes.
 */
module ModbusBuffer {
  import opened Wrappers
  import opened ModbusCore

  /** n zero bytes. */
  function ZeroBytes(n: nat): (r: seq<byte>)
    ensures |r| == n && forall i :: 0 <= i < n ==> r[i] == 0
  {
    if n == 0 then [] else ZeroBytes(n - 1) + [0]
  }

  /** The contents after `push_back(b)` on a buffer of capacity cap: unchanged when full. */
  function Pushed(s: seq<byte>, b: byte, cap: nat): (r: seq<byte>)
    requires |s| <= cap
    ensures |r| <= cap
    ensures |s| < cap ==> r == s + [b]
    ensures |s| == cap ==> r == s
  {
    if |s| < cap then s + [b] else s
  }

  /** The contents after pushing the bytes of t one at a time (the encoders' pattern). */
  function PushedAll(s: seq<byte>, t: seq<byte>, cap: nat): (r: seq<byte>)
    requires |s| <= cap
    ensures |r| <= cap
    decreases |t|
  {
    if |t| == 0 then s else PushedAll(Pushed(s, t[0], cap), t[1..], cap)
  }

  /** The first min(|s|, n) bytes of s. */
  function Truncate(s: seq<byte>, n: nat): (r: seq<byte>)
    ensures |r| == Min(|s|, n) && r == s[..|r|]
  {
    if |s| <= n then s else s[..n]
  }

  /** Pushing byte by byte keeps what fits and drops the rest: a truncated concatenation. */
  lemma {:induction false} PushedAllTruncates(s: seq<byte>, t: seq<byte>, cap: nat)
    requires |s| <= cap
    ensures PushedAll(s, t, cap) == Truncate(s + t, cap)
    decreases |t|
  {
    if |t| == 0 {
      assert s + t == s;
    } else if |s| < cap {
      PushedAllTruncates(s + [t[0]], t[1..], cap);
      assert s + [t[0]] + t[1..] == s + t;
    } else {
      PushedAllTruncates(s, t[1..], cap);
      assert (s + t)[..cap] == s;
      assert (s + t[1..])[..cap] == s;
    }
  }

  /** Pushing into a buffer with room for all of t appends t. */
  lemma PushedAllFits(s: seq<byte>, t: seq<byte>, cap: nat)
    requires |s| + |t| <= cap
    ensures PushedAll(s, t, cap) == s + t
  {
    PushedAllTruncates(s, t, cap);
  }

  class ByteBuffer {
    /** The capacity (`_cap`); 0 for a detached buffer. */
    const cap: nat
    /** Whether the buffer has storage (`_data != nullptr`). */
    const attached: bool
    /** The storage, `cap` bytes. */
    const bytes: array<byte>
    /** The number of bytes in use (`_size`). */
    var size: nat

    ghost predicate Valid()
      reads this
    {
      bytes.Length == cap && size <= cap && (!attached ==> cap == 0)
    }

    /** The bytes in use. */
    function Contents(): (r: seq<byte>)
      reads this, bytes
      requires Valid()
      ensures |r| == size
    {
      bytes[..size]
    }

    /** ByteBuffer(): the detached buffer. */
    constructor Detached()
      ensures Valid() && !attached && cap == 0 && size == 0
    {
      cap, attached, size := 0, false, 0;
      bytes := new byte[0];
    }

    /** ByteBuffer(ptr, capacity): a writable buffer over `capacity` bytes, zeroed, empty. */
    constructor (capacity: nat)
      ensures Valid() && attached && cap == capacity && size == 0
      ensures fresh(bytes) && bytes[..] == ZeroBytes(capacity)
    {
      cap, attached, size := capacity, true, 0;
      bytes := new byte[capacity](_ => 0);
      new;
      assert bytes[..] == ZeroBytes(capacity);
    }

    /** ByteBuffer(const ptr, size): a read-only view whose size and capacity are the length of src. */
    constructor ReadOnly(src: seq<byte>)
      ensures Valid() && attached && cap == |src| && Contents() == src
    {
      cap, attached, size := |src|, true, |src|;
      bytes := new byte[|src|](i requires 0 <= i < |src| => src[i]);
    }

    function FreeSpace(): (r: nat)
      reads this
      requires Valid()
      ensures r == cap - size && size + r == cap
    {
      cap - size
    }

    predicate Empty()
      reads this
    {
      size == 0
    }

    /** at(i): the byte at i, or false past the size. */
    method At(i: nat) returns (ok: bool, out: byte)
      requires Valid()
      ensures ok <==> i < size
      ensures ok ==> out == Contents()[i]
    {
      if i >= size || !attached {
        return false, 0;
      }
      return true, bytes[i];
    }

    /** slice(offset, length): a view of the bytes in [offset, min(offset + length, size)), empty when offset > size. */
    function Slice(offset: nat, length: nat): (r: seq<byte>)
      reads this, bytes
      requires Valid()
      ensures offset > size ==> r == []
      ensures offset <= size ==> r == Contents()[offset..Min(offset + length, size)]
      ensures |r| <= length
    {
      if !attached || offset > size then []
      else if offset + length > size then bytes[offset..size]
      else bytes[offset..offset + length]
    }

    /** clear(): the size drops to 0; the stored bytes are left as they are. */
    method Clear()
      requires Valid()
      modifies this
      ensures Valid() && size == 0 && Contents() == []
    {
      size := 0;
    }

    /** resize(n): fails past the capacity; newly exposed bytes are zeroed. */
    method Resize(n: nat) returns (ok: bool)
      requires Valid()
      modifies this, bytes
      ensures Valid()
      ensures ok <==> n <= cap && attached
      ensures ok ==> size == n && Contents() == Truncate(old(Contents()), n) + ZeroBytes(n - Min(old(size), n))
      ensures ok ==> bytes[n..] == old(bytes[n..]) && bytes[..Min(old(size), n)] == old(bytes[..])[..Min(old(size), n)]
      ensures !ok ==> size == old(size) && bytes[..] == old(bytes[..])
    {
      if n > cap || !attached {
        return false;
      }
      if n > size {
        forall i | size <= i < n {
          bytes[i] := 0;
        }
      }
      size := n;
      ok := true;
    }

    /** trim(n): only shrinks; fails when n exceeds the size. */
    method Trim(n: nat) returns (ok: bool)
      requires Valid()
      modifies this
      ensures Valid()
      ensures ok <==> n <= old(size) && attached
      ensures ok ==> n <= old(size) && Contents() == old(Contents())[..n]
      ensures !ok ==> size == old(size)
    {
      if n > cap || !attached {
        return false;
      }
      if n > size {
        return false;
      }
      size := n;
      ok := true;
    }

    /** push_back(b): appends b, or fails without change when full. */
    method PushBack(b: byte) returns (ok: bool)
      requires Valid()
      modifies this, bytes
      ensures Valid()
      ensures ok <==> old(size) < cap
      ensures Contents() == Pushed(old(Contents()), b, cap)
      ensures ok ==> bytes[size..] == old(bytes[..])[size..]
      ensures !ok ==> bytes[..] == old(bytes[..])
    {
      if size >= cap || !attached {
        return false;
      }
      bytes[size] := b;
      size := size + 1;
      ok := true;
    }

    /** push_back(buf, len): appends all the bytes or none. */
    method PushBackAll(buf: seq<byte>) returns (ok: bool)
      requires Valid()
      modifies this, bytes
      ensures Valid()
      ensures ok <==> old(size) + |buf| <= cap && attached
      ensures ok ==> Contents() == old(Contents()) + buf && bytes[size..] == old(bytes[..])[size..]
      ensures !ok ==> size == old(size) && bytes[..] == old(bytes[..])
    {
      if size + |buf| > cap || !attached {
        return false;
      }
      forall i | 0 <= i < |buf| {
        bytes[size + i] := buf[i];
      }
      size := size + |buf|;
      ok := true;
    }

    /** write_at(pos, b): stores b at pos (within the capacity) and grows the size to cover it. */
    method WriteAt(pos: nat, b: byte) returns (ok: bool)
      requires Valid()
      modifies this, bytes
      ensures Valid()
      ensures ok <==> pos < cap
      ensures ok ==> bytes[..] == old(bytes[..])[pos := b] && size == Max(old(size), pos + 1)
      ensures !ok ==> size == old(size) && bytes[..] == old(bytes[..])
    {
      if pos >= cap || !attached {
        return false;
      }
      bytes[pos] := b;
      if pos >= size {
        size := pos + 1;
      }
      ok := true;
    }

    /** write_at(pos, buf, len): stores the bytes at pos when they fit in the capacity. */
    method WriteAllAt(pos: nat, buf: seq<byte>) returns (ok: bool)
      requires Valid()
      modifies this, bytes
      ensures Valid()
      ensures ok <==> pos + |buf| <= cap && attached
      ensures ok ==> bytes[..] == old(bytes[..pos]) + buf + old(bytes[pos + |buf|..])
      ensures ok ==> size == Max(old(size), pos + |buf|)
      ensures !ok ==> size == old(size) && bytes[..] == old(bytes[..])
    {
      if pos + |buf| > cap || !attached {
        return false;
      }
      forall i | 0 <= i < |buf| {
        bytes[pos + i] := buf[i];
      }
      assert bytes[..] == old(bytes[..pos]) + buf + old(bytes[pos + |buf|..]);
      if pos + |buf| > size {
        size := pos + |buf|;
      }
      ok := true;
    }

    /** pop_front(n): drops the first n bytes and moves the rest to the front. */
    method PopFront(n: nat) returns (ok: bool)
      requires Valid()
      modifies this, bytes
      ensures Valid()
      ensures ok <==> n <= old(size)
      ensures ok ==> Contents() == old(Contents())[n..] && bytes[old(size) - n..] == old(bytes[..])[old(size) - n..]
      ensures !ok ==> size == old(size) && bytes[..] == old(bytes[..])
    {
      if n > size {
        return false;
      }
      if n > 0 {
        var i := 0;
        while i < size - n
          invariant Valid() && size == old(size)
          invariant 0 <= i <= size - n
          invariant bytes[..i] == old(bytes[..])[n..n + i]
          invariant bytes[i..] == old(bytes[..])[i..]
        {
          bytes[i] := bytes[i + n];
          assert bytes[..i + 1] == bytes[..i] + [bytes[i]];
          i := i + 1;
        }
        size := size - n;
      }
      ok := true;
    }

    /** pop_back(n): drops the last n bytes. */
    method PopBack(n: nat) returns (ok: bool)
      requires Valid()
      modifies this
      ensures Valid()
      ensures ok <==> n <= old(size)
      ensures ok ==> Contents() == old(Contents())[..old(size) - n]
      ensures !ok ==> size == old(size)
    {
      if n > size {
        return false;
      }
      size := size - n;
      ok := true;
    }

    /** Pushing the bytes of t one at a time, as the encoders do. */
    method PushEach(t: seq<byte>)
      requires Valid()
      modifies this, bytes
      ensures Valid()
      ensures Contents() == PushedAll(old(Contents()), t, cap)
      ensures Contents() == Truncate(old(Contents()) + t, cap)
    {
      PushedAllTruncates(Contents(), t, cap);
      var i := 0;
      while i < |t|
        invariant 0 <= i <= |t| && Valid()
        invariant PushedAll(Contents(), t[i..], cap) == PushedAll(old(Contents()), t, cap)
      {
        assert t[i..][1..] == t[i + 1..];
        var _ := PushBack(t[i]);
        i := i + 1;
      }
    }
  }

  // ---------------------------------------------------------------------------
  // getBasename
  // ---------------------------------------------------------------------------

  /** The index of the last occurrence of c in p, if any. */
  function LastIndexOf(p: string, c: char): (r: Option<nat>)
    ensures r.None? <==> c !in p
    ensures r.Some? ==> r.value < |p| && p[r.value] == c && c !in p[r.value + 1..]
  {
    if |p| == 0 then None
    else if p[|p| - 1] == c then Some(|p| - 1)
    else
      var r := LastIndexOf(p[..|p| - 1], c);
      assert p == p[..|p| - 1] + [p[|p| - 1]];
      r
  }

  /**
   * Where getBasename starts its result: after the last '/', then after the
   * last '\\' only when that backslash lies strictly beyond this start, as
   * the source compares it.
   */
  function BasenameStartAsWritten(p: string): (r: nat)
    ensures r <= |p|
  {
    var slash := LastIndexOf(p, '/');
    var start := if slash.Some? then slash.value + 1 else 0;
    var back := LastIndexOf(p, '\\');
    if back.Some? && back.value > start then back.value + 1 else start
  }

  /** getBasename as written. */
  function GetBasenameAsWritten(p: string): string
  {
    p[BasenameStartAsWritten(p)..]
  }

  /** A backslash at the position the slash rule starts from is kept: "\\b" is its own basename. */
  lemma LeadingBackslashKept()
    ensures GetBasenameAsWritten("\\b") == "\\b"
    ensures GetBasenameAsWritten("a/\\b") == "\\b"
  {
    assert LastIndexOf("\\b", '/') == None;
    assert LastIndexOf("\\b", '\\') == Some(0);
    assert LastIndexOf("a/\\b", '/') == Some(1);
    assert LastIndexOf("a/\\b", '\\') == Some(2);
  }

  /** The start of the basename, comparing the backslash with `>=`: after the last separator of either kind. */
  function BasenameStart(p: string): (r: nat)
    ensures r <= |p|
    ensures '/' !in p[r..] && '\\' !in p[r..]
    ensures r > 0 ==> p[r - 1] == '/' || p[r - 1] == '\\'
    ensures r == 0 ==> '/' !in p && '\\' !in p
  {
    var slash := LastIndexOf(p, '/');
    var start := if slash.Some? then slash.value + 1 else 0;
    var back := LastIndexOf(p, '\\');
    if back.Some? && back.value >= start then back.value + 1 else start
  }

  /** getBasename: the suffix after the last '/' or '\\', or the whole path when there is neither. */
  function GetBasename(p: string): string
  {
    p[BasenameStart(p)..]
  }

  /** The basename holds no separator and is a suffix of the path that follows a separator or is the path. */
  lemma BasenameIsLastComponent(p: string)
    ensures '/' !in GetBasename(p) && '\\' !in GetBasename(p)
    ensures exists k :: 0 <= k <= |p| && GetBasename(p) == p[k..] && (k == 0 || p[k - 1] in "/\\")
    ensures ('/' !in p && '\\' !in p) ==> GetBasename(p) == p
  {
    var k := BasenameStart(p);
    assert GetBasename(p) == p[k..];
  }

  /** The two agree whenever the path has no backslash right at the slash rule's start. */
  lemma BasenameAgreesWhenSeparated(p: string)
    requires var s := LastIndexOf(p, '/'); var b := LastIndexOf(p, '\\');
      b.None? || b.value != (if s.Some? then s.value + 1 else 0)
    ensures GetBasenameAsWritten(p) == GetBasename(p)
  {
  }
}
