/**
 * The queued logger (src/utils/ModbusLogger.hpp): `logln` and `logf` build
 * a message of at most 255 characters ending in CRLF in a fresh 256-cell
 * buffer, cutting long text short with "...", and queue it for a logging
 * task; `waitQueueFlushed` waits on an event bit that is set exactly while
 * the queue is empty.
 */
module ModbusLogger {
  import opened Wrappers
  import D = ModbusDebug
  import S = ModbusLogSink

  /** EZMODBUS_LOG_MAX_MSG_SIZE: a message, terminator included. */
  const MaxMsgSize: nat := 256
  /** EZMODBUS_LOG_Q_SIZE: messages the queue holds. */
  const QueueSize: nat := 32
  /** The line ending, and what ends a message cut short. */
  const Crlf: D.CString := "\r\n"
  const CutCrlf: D.CString := "...\r\n"

  // ---------------------------------------------------------------------------
  // The messages
  // ---------------------------------------------------------------------------

  /**
   * What `logln` queues: "\r\n" for the empty line; the line and CRLF when
   * the line is shorter than 253 characters; otherwise its first 250
   * characters and "...\r\n". Trailing CR/LF in the line are kept.
   */
  function LoglnText(message: D.CString): string
  {
    if message == "" then "\r\n"
    else if |message| < MaxMsgSize - 3 then message + "\r\n"
    else message[..MaxMsgSize - 6] + "...\r\n"
  }

  /**
   * The `logln` message is a C string of at most 255 characters ending in
   * CRLF, and what comes before the CRLF is the line itself or, when the
   * line is 253 characters or more, its first 250 characters and "...".
   */
  lemma LoglnReadBack(message: D.CString)
    ensures var m := LoglnText(message);
      2 <= |m| <= MaxMsgSize - 1 && m[|m| - 2..] == "\r\n" && '\0' !in m &&
      (|message| < MaxMsgSize - 3 ==> m[..|m| - 2] == message) &&
      (|message| >= MaxMsgSize - 3 ==> m[..|m| - 2] == message[..MaxMsgSize - 6] + "...")
  {
    var m := LoglnText(message);
    if |message| >= MaxMsgSize - 3 {
      assert m[..|m| - 2] == message[..MaxMsgSize - 6] + "...";
    } else {
      assert m[..|m| - 2] == message;
    }
    assert '\0' !in m by {
      forall j | 0 <= j < |m|
        ensures m[j] != '\0'
      {
        if j < |m| - 2 && |message| >= MaxMsgSize - 3 && j < MaxMsgSize - 6 {
          assert m[j] == message[j];
        }
      }
    }
  }

  /**
   * What `logf` queues: the formatted text as `snprintf` leaves it (cut to
   * 255 characters), stripped of trailing CR/LF, then CRLF when that
   * leaves room for the terminator, and otherwise the first 250
   * characters and "...\r\n".
   */
  function LogfText(formatted: D.CString): string
  {
    var t := S.StripEol(D.Clip(formatted, MaxMsgSize - 1));
    if |t| + 2 < MaxMsgSize then t + "\r\n" else t[..MaxMsgSize - 6] + "...\r\n"
  }

  /**
   * The `logf` message ends in exactly one CRLF, with no CR or LF before
   * it, is at most 255 characters, and carries the stripped text whole or
   * cut to 250 characters followed by "...".
   */
  lemma LogfReadBack(formatted: D.CString)
    ensures var t := S.StripEol(D.Clip(formatted, MaxMsgSize - 1)); var m := LogfText(formatted);
      2 <= |m| <= MaxMsgSize - 1 && m[|m| - 2..] == "\r\n" &&
      (|m| == 2 || !S.IsEol(m[|m| - 3])) &&
      (m[..|m| - 2] == t || m[..|m| - 2] == t[..MaxMsgSize - 6] + "...")
  {
    var t := S.StripEol(D.Clip(formatted, MaxMsgSize - 1));
    var m := LogfText(formatted);
    if |t| + 2 < MaxMsgSize {
      assert m[..|m| - 2] == t;
    } else {
      assert m[..|m| - 2] == t[..MaxMsgSize - 6] + "...";
    }
  }

  /** `logf` gives a short line the same message whatever CR/LF it already ends with. */
  lemma LogfIgnoresEnding(s: D.CString, ending: D.CString)
    requires forall j :: 0 <= j < |ending| ==> S.IsEol(ending[j])
    requires |s + ending| < MaxMsgSize
    ensures LogfText(s + ending) == LogfText(s)
  {
    var t := S.StripEol(s);
    var se := s + ending;
    assert D.Clip(se, MaxMsgSize - 1) == se && D.Clip(s, MaxMsgSize - 1) == s;
    assert se[..|t|] == t;
    S.StripEolUnique(se, t);
  }

  /**
   * The two calls disagree on a 253-character line without line ending:
   * `logln` cuts it to 250 characters and "...", `logf` keeps it whole,
   * and both results fit the buffer.
   */
  lemma LoglnCutsWhatLogfKeeps(s: D.CString)
    requires |s| == MaxMsgSize - 3 && !S.IsEol(s[|s| - 1])
    ensures LoglnText(s) == s[..MaxMsgSize - 6] + "...\r\n"
    ensures LogfText(s) == s + "\r\n"
    ensures |LogfText(s)| == MaxMsgSize - 1
  {
    assert D.Clip(s, MaxMsgSize - 1) == s;
    S.StripEolUnique(s, s);
  }

  // ---------------------------------------------------------------------------
  // Building the messages in the buffer
  // ---------------------------------------------------------------------------

  /** `strcpy`. */
  method StrCpy(dst: array<char>, s: D.CString)
    requires |s| < dst.Length
    modifies dst
    ensures dst[..|s|] == s && dst[|s|] == '\0'
  {
    var end := D.Copy(dst, 0, s);
    dst[end] := '\0';
  }

  /** `strcat`: s copied over the terminator of the C string in dst. */
  method StrCat(dst: array<char>, ghost prefix: D.CString, s: D.CString)
    requires |prefix| < dst.Length && dst[..|prefix|] == prefix && dst[|prefix|] == '\0'
    requires |prefix| + |s| < dst.Length
    modifies dst
    ensures dst[..|prefix| + |s|] == prefix + s && dst[|prefix| + |s|] == '\0'
  {
    S.CLenAt(dst[..], |prefix|);
    var at := S.CLen(dst[..]);
    var end := D.Copy(dst, at, s);
    dst[end] := '\0';
  }

  /** `logln`'s message, built with `strcpy`, `strncpy` and `strcat` in a fresh buffer. */
  method BuildLogln(message: D.CString) returns (msg: string)
    ensures msg == LoglnText(message)
  {
    var buf := new char[MaxMsgSize];
    if message == "" {
      StrCpy(buf, Crlf);
      return buf[..2];
    }
    var msgLen := |message|;
    if msgLen < MaxMsgSize - 3 {
      StrCpy(buf, message);
      StrCat(buf, message, Crlf);
      return buf[..msgLen + 2];
    }
    // strncpy of the first 250 characters, then the terminator after them
    StrCpy(buf, message[..MaxMsgSize - 6]);
    StrCat(buf, message[..MaxMsgSize - 6], CutCrlf);
    return buf[..MaxMsgSize - 1];
  }

  /** The pointer loop of `logf`: terminators written over the trailing CR/LF, from the end back. */
  method ClearEol(buf: array<char>, c: D.CString)
    requires |c| < buf.Length && buf[..|c|] == c && buf[|c|] == '\0'
    modifies buf
    ensures var t := S.StripEol(c); buf[..|t|] == t && buf[|t|] == '\0' && S.CLen(buf[..]) == |t|
  {
    var end := |c| - 1;
    while end >= 0 && S.IsEol(buf[end])
      invariant -1 <= end < |c| && buf[..end + 1] == c[..end + 1] && buf[end + 1] == '\0'
      invariant forall j :: end < j < |c| ==> S.IsEol(c[j])
    {
      buf[end] := '\0';
      assert buf[..end] == c[..end];
      end := end - 1;
    }
    ghost var t := c[..end + 1];
    assert end >= 0 ==> t[|t| - 1] == buf[end];
    S.StripEolUnique(c, t);
    assert '\0' !in buf[..end + 1];
    S.CLenAt(buf[..], end + 1);
  }

  /**
   * `logf`'s message: `snprintf` leaves the text cut to 255 characters;
   * the pointer loop clears trailing CR/LF from the end, then CRLF is
   * written after the text, or the text is cut at 250 characters and
   * "...\r\n" appended.
   */
  method BuildLogf(formatted: D.CString) returns (msg: string)
    ensures msg == LogfText(formatted)
  {
    var buf := new char[MaxMsgSize];
    var c := D.Clip(formatted, MaxMsgSize - 1);
    StrCpy(buf, c);
    ClearEol(buf, c);
    ghost var t := S.StripEol(c);
    var currentLen := S.CLen(buf[..]);
    if currentLen + 2 < MaxMsgSize {
      buf[currentLen] := '\r';
      buf[currentLen + 1] := '\n';
      buf[currentLen + 2] := '\0';
      assert buf[..currentLen + 2] == t + "\r\n";
      return buf[..currentLen + 2];
    }
    buf[MaxMsgSize - 6] := '\0';
    assert buf[..MaxMsgSize - 6] == t[..MaxMsgSize - 6];
    ghost var head: D.CString := t[..MaxMsgSize - 6];
    StrCat(buf, head, CutCrlf);
    return buf[..MaxMsgSize - 1];
  }

  // ---------------------------------------------------------------------------
  // The logger
  // ---------------------------------------------------------------------------

  /** Where `sendToQueue` puts a message. */
  datatype Route = Direct | Queued | Discarded

  class Logger {
    /** Whether `begin` created the queue, the event group and the task. */
    var initialized: bool
    /** The messages waiting for the logging task, oldest first. */
    var queue: seq<string>
    /** QUEUE_EMPTY_BIT of the event group. */
    var emptyBit: bool

    /** Once started, the empty bit is set exactly while the queue is empty. */
    ghost predicate Valid()
      reads this
    {
      |queue| <= QueueSize &&
      (!initialized ==> queue == []) &&
      (initialized ==> (emptyBit <==> queue == []))
    }

    constructor ()
      ensures Valid() && !initialized && queue == []
    {
      initialized := false;
      queue := [];
      emptyBit := false;
    }

    /** `begin`: `created` stands for the queue, the event group and the task all being created. */
    method Begin(created: bool)
      requires Valid()
      modifies this
      ensures Valid()
      ensures initialized == (old(initialized) || created) && queue == old(queue)
    {
      if !initialized {
        if created {
          emptyBit := true;
          initialized := true;
        }
      }
    }

    /**
     * `sendToQueue`: on STM32 before the scheduler runs (`direct`) the
     * message is written out at once; otherwise the logger starts itself if
     * needed and queues the message without waiting, clearing the empty
     * bit, or drops it when the queue is full or the logger could not
     * start.
     */
    method SendToQueue(msg: string, direct: bool, created: bool) returns (route: Route)
      requires Valid()
      modifies this
      ensures Valid()
      ensures route == Direct <==> direct
      ensures direct ==> unchanged(this)
      ensures !direct ==> initialized == (old(initialized) || created)
      ensures route == Queued <==> !direct && initialized && |old(queue)| < QueueSize
      ensures queue == if route == Queued then old(queue) + [msg] else old(queue)
    {
      if direct {
        return Direct;
      }
      if !initialized {
        Begin(created);
      }
      if !initialized {
        return Discarded;
      }
      if |queue| >= QueueSize {
        return Discarded;
      }
      queue := queue + [msg];
      emptyBit := false;
      return Queued;
    }

    /** The `const char*` overload: the text cut to 255 characters. */
    method SendText(message: D.CString, direct: bool, created: bool) returns (route: Route)
      requires Valid()
      modifies this
      ensures Valid()
      ensures route == Direct <==> direct
      ensures queue == if route == Queued then old(queue) + [D.Clip(message, MaxMsgSize - 1)] else old(queue)
    {
      var buf := new char[MaxMsgSize];
      var n := D.Min(|message|, MaxMsgSize - 1);
      StrCpy(buf, message[..n]);
      route := SendToQueue(buf[..n], direct, created);
    }

    method Logln(message: D.CString, direct: bool, created: bool) returns (route: Route)
      requires Valid()
      modifies this
      ensures Valid()
      ensures route == Direct <==> direct
      ensures queue == if route == Queued then old(queue) + [LoglnText(message)] else old(queue)
    {
      var msg := BuildLogln(message);
      route := SendToQueue(msg, direct, created);
    }

    /** `logf` with the text the format and arguments produce. */
    method Logf(formatted: D.CString, direct: bool, created: bool) returns (route: Route)
      requires Valid()
      modifies this
      ensures Valid()
      ensures route == Direct <==> direct
      ensures queue == if route == Queued then old(queue) + [LogfText(formatted)] else old(queue)
    {
      var msg := BuildLogf(formatted);
      route := SendToQueue(msg, direct, created);
    }

    /**
     * One round of the logging task: the oldest message, when there is
     * one, is taken off the queue and written out, and the empty bit set
     * when none is left.
     */
    method LogTaskStep() returns (written: Option<string>)
      requires Valid() && initialized
      modifies this
      ensures Valid() && initialized
      ensures old(queue) == [] ==> written.None? && unchanged(this)
      ensures old(queue) != [] ==> written == Some(old(queue)[0]) && queue == old(queue)[1..]
    {
      if queue == [] {
        return None;
      }
      written := Some(queue[0]);
      queue := queue[1..];
      if |queue| == 0 {
        emptyBit := true;
      }
    }

    /** `waitQueueFlushed` returns at once exactly when the logger never started or the queue is empty. */
    method WaitQueueFlushed() returns (returnsAtOnce: bool)
      requires Valid()
      ensures returnsAtOnce <==> !initialized || queue == []
    {
      if !initialized {
        return true;
      }
      return emptyBit;
    }
  }
}
