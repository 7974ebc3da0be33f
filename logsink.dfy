/**
 * The log sink (src/utils/ModbusLogSink.cpp): `logln` and `logf` rewrite
 * the caller's buffer so that the line ends in exactly one CRLF, then hand
 * a copy to a queue that a logging task drains through the user's print
 * function, or print it on the spot before the scheduler runs. The print
 * loop copes with partial writes, a busy printer and a printer that
 * misbehaves.
 */
module ModbusLogSink {
  import opened Wrappers
  import opened ModbusCore
  import D = ModbusDebug

  /** EZMODBUS_LOG_MAX_MSG_SIZE: a message, terminator included. */
  const MaxMsgSize: nat := 256
  /** EZMODBUS_LOG_Q_SIZE: messages the queue holds. */
  const QueueSize: nat := 32
  /** How long the print loop waits on a busy printer without progress. */
  const LogPrintTimeoutMs: nat := 500

  predicate IsEol(c: char)
  {
    c == '\r' || c == '\n'
  }

  // ---------------------------------------------------------------------------
  // C strings in a buffer
  // ---------------------------------------------------------------------------

  /** `strlen`: the position of the first terminator. */
  function CLen(a: seq<char>): (n: nat)
    requires '\0' in a
    ensures n < |a| && a[n] == '\0' && '\0' !in a[..n]
  {
    if a[0] == '\0' then 0
    else
      assert a == [a[0]] + a[1..];
      var n := CLen(a[1..]);
      assert a[..n + 1] == [a[0]] + a[1..][..n];
      n + 1
  }

  /** A terminator with none before it is the one `strlen` finds. */
  lemma {:induction false} CLenAt(a: seq<char>, n: nat)
    requires n < |a| && a[n] == '\0' && '\0' !in a[..n]
    ensures CLen(a) == n
  {
    if n > 0 {
      assert a[0] in a[..n];
      assert a[1..][..n - 1] == a[..n][1..];
      CLenAt(a[1..], n - 1);
    }
  }

  // ---------------------------------------------------------------------------
  // Line-ending normalisation
  // ---------------------------------------------------------------------------

  /** The text without its trailing CR and LF characters. */
  function StripEol(s: string): (t: string)
    ensures |t| <= |s| && t == s[..|t|]
    ensures |t| == 0 || !IsEol(t[|t| - 1])
    ensures forall j :: |t| <= j < |s| ==> IsEol(s[j])
  {
    if |s| > 0 && IsEol(s[|s| - 1]) then StripEol(s[..|s| - 1]) else s
  }

  /**
   * Stripping removes exactly the trailing run of CR and LF: any prefix of
   * s that ends in another character and leaves only CR and LF behind is
   * the stripped text.
   */
  lemma {:induction false} StripEolUnique(s: string, t: string)
    requires |t| <= |s| && t == s[..|t|] && (|t| == 0 || !IsEol(t[|t| - 1]))
    requires forall j :: |t| <= j < |s| ==> IsEol(s[j])
    ensures StripEol(s) == t
    decreases |s|
  {
    if |s| > |t| {
      assert IsEol(s[|s| - 1]);
      assert s[..|s| - 1][..|t|] == t;
      StripEolUnique(s[..|s| - 1], t);
    }
  }

  /**
   * What a sink message carries: the text stripped of its trailing CR/LF
   * and followed by one CRLF; when that would not leave room for the
   * terminator, the CRLF takes the last places and the text is cut.
   */
  function Normalize(s: string): string
  {
    var t := StripEol(s);
    if |t| + 2 < MaxMsgSize then t + "\r\n" else t[..MaxMsgSize - 3] + "\r\n"
  }

  /**
   * The message is the stripped text cut to 253 characters, then exactly
   * one CRLF: at most 255 characters, no terminator inside, and when
   * nothing was cut no CR or LF just before the final CRLF.
   */
  lemma NormalizeShape(s: string)
    ensures var t := StripEol(s); var m := Normalize(s);
      m == t[..D.Min(|t|, MaxMsgSize - 3)] + "\r\n" &&
      2 <= |m| <= MaxMsgSize - 1 && m[|m| - 2..] == "\r\n" &&
      (|t| <= MaxMsgSize - 3 ==> m[..|m| - 2] == t && (|m| == 2 || !IsEol(m[|m| - 3])))
  {
  }

  /** The message of a C string is a C string. */
  lemma NormalizeKeepsCString(s: string)
    requires '\0' !in s
    ensures '\0' !in Normalize(s)
  {
    var t := StripEol(s);
    assert forall j :: 0 <= j < |t| ==> t[j] == s[j];
    assert '\0' !in t;
  }

  /** A line that already ends in any mix of CR and LF gets the same message as the bare line. */
  lemma NormalizeIgnoresEnding(s: string, ending: string)
    requires forall j :: 0 <= j < |ending| ==> IsEol(ending[j])
    ensures Normalize(s + ending) == Normalize(s)
  {
    var t := StripEol(s);
    var se := s + ending;
    assert se[..|t|] == t;
    StripEolUnique(se, t);
  }

  /**
   * After the text that remains once trailing CR/LF are stepped over: CRLF
   * and the terminator, or, when that does not fit, CRLF and the
   * terminator in the last three cells of a message.
   */
  method PutEol(buffer: array<char>, ghost t: string, pos: nat) returns (end: nat)
    requires buffer.Length >= MaxMsgSize && pos == |t| <= buffer.Length && buffer[..pos] == t
    modifies buffer
    ensures end == D.Min(pos, MaxMsgSize - 3) + 2 < buffer.Length
    ensures buffer[..end] == t[..D.Min(pos, MaxMsgSize - 3)] + "\r\n" && buffer[end] == '\0'
    ensures forall j :: end < j < buffer.Length ==> buffer[j] == old(buffer[j])
  {
    if pos + 2 < MaxMsgSize {
      buffer[pos] := '\r';
      buffer[pos + 1] := '\n';
      buffer[pos + 2] := '\0';
      end := pos + 2;
      assert t[..pos] == t;
    } else {
      buffer[MaxMsgSize - 3] := '\r';
      buffer[MaxMsgSize - 2] := '\n';
      buffer[MaxMsgSize - 1] := '\0';
      end := MaxMsgSize - 1;
    }
    assert forall j :: 0 <= j < end - 2 ==> buffer[j] == t[j];
  }

  /** The loop stepping back over trailing CR and LF. */
  method StripLen(buffer: array<char>, ghost s: string, len: nat) returns (pos: nat)
    requires len == |s| <= buffer.Length && buffer[..len] == s
    ensures pos == |StripEol(s)|
  {
    pos := len;
    while pos > 0 && IsEol(buffer[pos - 1])
      invariant pos <= len && forall j :: pos <= j < len ==> IsEol(s[j])
    {
      assert buffer[pos - 1] == s[pos - 1];
      pos := pos - 1;
    }
    assert pos > 0 ==> s[..pos][pos - 1] == buffer[pos - 1];
    StripEolUnique(s, s[..pos]);
  }

  /**
   * The tail shared by `logln` and `logf`: from the end of the text, step
   * back over CR and LF, end the line, and copy out the resulting C string.
   */
  method EndLine(buffer: array<char>, ghost s: string, len: nat) returns (msg: string)
    requires buffer.Length >= MaxMsgSize && len == |s| <= buffer.Length && buffer[..len] == s && '\0' !in s
    modifies buffer
    ensures msg == Normalize(s)
    ensures |msg| < buffer.Length && buffer[..|msg|] == msg && buffer[|msg|] == '\0'
    ensures forall j :: |msg| < j < buffer.Length ==> buffer[j] == old(buffer[j])
  {
    var pos := StripLen(buffer, s, len);
    ghost var t := StripEol(s);
    assert t == buffer[..pos];
    NormalizeShape(s);
    NormalizeKeepsCString(s);
    var end := PutEol(buffer, t, pos);
    CLenAt(buffer[..], end);
    var actualLen := CLen(buffer[..]);
    var copyLen := D.Min(actualLen, MaxMsgSize - 1);
    msg := buffer[..copyLen];
  }

  /**
   * The buffer handling of `logln`: a null or empty buffer gives "\r\n"
   * and is left alone; otherwise the buffer is rewritten by `EndLine`.
   */
  method NormalizeLine(buffer: array?<char>) returns (msg: string)
    requires buffer != null ==> buffer.Length >= MaxMsgSize && '\0' in buffer[..]
    modifies buffer
    ensures buffer == null ==> msg == "\r\n"
    ensures buffer != null ==> msg == Normalize(old(buffer[..CLen(buffer[..])]))
    ensures buffer != null && old(buffer[0]) != '\0' ==>
      |msg| < buffer.Length && buffer[..|msg|] == msg && buffer[|msg|] == '\0' &&
      forall j :: |msg| < j < buffer.Length ==> buffer[j] == old(buffer[j])
    ensures buffer != null && old(buffer[0]) == '\0' ==> unchanged(buffer)
  {
    if buffer == null || buffer[0] == '\0' {
      assert StripEol("") == "";
      return "\r\n";
    }
    var len := CLen(buffer[..]);
    msg := EndLine(buffer, buffer[..len], len);
  }

  /**
   * `vsnprintf` into the buffer: None stands for a formatting error, which
   * is reported as a negative count; otherwise the count is the length of
   * the whole text and as much of it as leaves room for the terminator is
   * written.
   */
  method Vsnprintf(buffer: array<char>, formatted: Option<D.CString>) returns (written: int)
    requires buffer.Length >= MaxMsgSize
    modifies buffer
    ensures formatted.None? ==> written < 0 && unchanged(buffer)
    ensures formatted.Some? ==>
      (written == |formatted.value| &&
       var n := D.Min(written, MaxMsgSize - 1); buffer[..n] == formatted.value[..n] && buffer[n] == '\0')
  {
    if formatted.None? {
      return -1;
    }
    var f := formatted.value;
    var n := D.Min(|f|, MaxMsgSize - 1);
    var k := 0;
    while k < n
      invariant 0 <= k <= n && buffer[..k] == f[..k]
    {
      buffer[k] := f[k];
      assert buffer[..k + 1] == buffer[..k] + [f[k]];
      assert f[..k + 1] == f[..k] + [f[k]];
      k := k + 1;
    }
    buffer[n] := '\0';
    assert buffer[..n] == f[..n];
    written := |f|;
  }

  /**
   * The buffer handling of `logf`: the formatted count is clamped to
   * 255, a formatting error becomes the empty text, and the result goes
   * through `EndLine`.
   */
  method FormatLine(buffer: array<char>, formatted: Option<D.CString>) returns (msg: string)
    requires buffer.Length >= MaxMsgSize
    modifies buffer
    ensures msg == Normalize(LogfText(formatted))
    ensures |msg| < buffer.Length && buffer[..|msg|] == msg && buffer[|msg|] == '\0'
  {
    var written := Vsnprintf(buffer, formatted);
    if written >= MaxMsgSize as int {
      buffer[MaxMsgSize - 1] := '\0';
      written := MaxMsgSize - 1;
    } else if written < 0 {
      buffer[0] := '\0';
      written := 0;
    }
    ghost var s := LogfText(formatted);
    assert buffer[..written] == s;
    msg := EndLine(buffer, s, written);
  }

  /** The text `logf` normalises: the formatted text cut to 255 characters, or nothing on a formatting error. */
  function LogfText(formatted: Option<D.CString>): (s: D.CString)
    ensures |s| <= MaxMsgSize - 1
    ensures formatted.Some? ==> |s| <= |formatted.value| && s == formatted.value[..|s|]
  {
    if formatted.None? then "" else D.Clip(formatted.value, MaxMsgSize - 1)
  }

  /**
   * `logf` with a text that fits sends what `logln` sends for a buffer
   * holding that text, and a formatting error sends the empty line.
   */
  lemma LogfMatchesLogln(formatted: Option<D.CString>)
    ensures formatted.None? ==> Normalize(LogfText(formatted)) == "\r\n"
    ensures formatted.Some? && |formatted.value| < MaxMsgSize ==>
      Normalize(LogfText(formatted)) == Normalize(formatted.value)
  {
    assert StripEol("") == "";
    if formatted.Some? && |formatted.value| < MaxMsgSize {
      assert formatted.value[..|formatted.value|] == formatted.value;
    }
  }

  // ---------------------------------------------------------------------------
  // The print loop
  // ---------------------------------------------------------------------------

  /** One call of the user's print function: what it returned and the clock read after it. */
  datatype PrintCall = PrintCall(result: int, now: u32)

  /**
   * How the print loop ends: the whole message out, an error reported, the
   * printer busy past the timeout, a count larger than what was left, or
   * (in the model only) no more calls to look at.
   */
  datatype PrintOutcome = Done | Failed | TimedOut | Invalid | OutOfCalls

  datatype PrintReport = PrintReport(sent: nat, outcome: PrintOutcome)

  /** The time from `start` to `now` on a 32-bit clock that may have wrapped around. */
  function Elapsed(start: u32, now: u32): nat
  {
    if now >= start then now - start else 0xFFFF_FFFF - start + now + 1
  }

  /** The wrap-around branch is subtraction modulo 2^32. */
  lemma ElapsedModular(start: u32, now: u32)
    ensures Elapsed(start, now) == (now - start) % 0x1_0000_0000
    ensures Elapsed(start, now) < 0x1_0000_0000
  {
  }

  /**
   * The print loop over the message's `remaining` characters, given the
   * results of successive calls: a negative result ends it, a zero result
   * retries unless the clock shows more than the timeout since the last
   * progress (`perMs` clock ticks to the millisecond), a positive result
   * no larger than what is left advances by that much and restarts the
   * timeout, a larger one ends it.
   */
  function PrintRun(remaining: nat, calls: seq<PrintCall>, perMs: nat, start: u32): (r: PrintReport)
    requires perMs > 0
    ensures r.sent <= remaining
    decreases |calls|
  {
    if remaining == 0 then PrintReport(0, Done)
    else if |calls| == 0 then PrintReport(0, OutOfCalls)
    else
      var c := calls[0];
      if c.result < 0 then PrintReport(0, Failed)
      else if c.result == 0 then
        if Elapsed(start, c.now) / perMs > LogPrintTimeoutMs then PrintReport(0, TimedOut)
        else PrintRun(remaining, calls[1..], perMs, start)
      else if c.result > remaining then PrintReport(0, Invalid)
      else
        var rest := PrintRun(remaining - c.result, calls[1..], perMs, c.now);
        PrintReport(c.result + rest.sent, rest.outcome)
  }

  /** The loop ends Done exactly when it has sent the whole message. */
  lemma {:induction false} PrintRunBounds(remaining: nat, calls: seq<PrintCall>, perMs: nat, start: u32)
    requires perMs > 0
    ensures var r := PrintRun(remaining, calls, perMs, start);
      r.outcome == Done <==> r.sent == remaining
    decreases |calls|
  {
    if remaining > 0 && |calls| > 0 {
      var c := calls[0];
      if c.result == 0 && Elapsed(start, c.now) / perMs <= LogPrintTimeoutMs {
        PrintRunBounds(remaining, calls[1..], perMs, start);
      } else if 0 < c.result <= remaining {
        PrintRunBounds(remaining - c.result, calls[1..], perMs, c.now);
      }
    }
  }

  function TotalPrinted(calls: seq<PrintCall>): int
  {
    if |calls| == 0 then 0 else calls[0].result + TotalPrinted(calls[1..])
  }

  /**
   * Partial writes add up: when every call prints something and the
   * counts add up to the message length, the whole message goes out,
   * whatever the clock says.
   */
  lemma {:induction false} PrintRunPartialWrites(remaining: nat, calls: seq<PrintCall>, perMs: nat, start: u32)
    requires perMs > 0
    requires forall k :: 0 <= k < |calls| ==> calls[k].result > 0
    requires TotalPrinted(calls) == remaining
    ensures PrintRun(remaining, calls, perMs, start) == PrintReport(remaining, Done)
    decreases |calls|
  {
    if |calls| > 0 {
      PositiveTotal(calls[1..]);
      PrintRunPartialWrites(remaining - calls[0].result, calls[1..], perMs, calls[0].now);
    }
  }

  lemma {:induction false} PositiveTotal(calls: seq<PrintCall>)
    requires forall k :: 0 <= k < |calls| ==> calls[k].result > 0
    ensures TotalPrinted(calls) >= |calls|
  {
    if |calls| > 0 {
      PositiveTotal(calls[1..]);
    }
  }

  /**
   * The print loop: the printer is handed the rest of the message each
   * time; what it reports printed is taken off the front.
   */
  method PrintLoop(msg: string, calls: seq<PrintCall>, perMs: nat, start0: u32) returns (printed: string, outcome: PrintOutcome)
    requires perMs > 0
    ensures var r := PrintRun(|msg|, calls, perMs, start0);
      printed == msg[..r.sent] && outcome == r.outcome
  {
    var ptr: nat := 0;
    var remaining: nat := |msg|;
    var start := start0;
    var k := 0;
    printed := [];
    outcome := Done;
    while remaining > 0
      invariant k <= |calls| && ptr + remaining == |msg| && printed == msg[..ptr]
      invariant var full := PrintRun(|msg|, calls, perMs, start0);
        var rest := PrintRun(remaining, calls[k..], perMs, start);
        full.sent == ptr + rest.sent && full.outcome == rest.outcome
      decreases |calls| - k, remaining
    {
      if k == |calls| {
        outcome := OutOfCalls;
        break;
      }
      var c := calls[k];
      assert calls[k..][1..] == calls[k + 1..];
      if c.result < 0 {
        outcome := Failed;
        break;
      } else if c.result == 0 {
        if Elapsed(start, c.now) / perMs > LogPrintTimeoutMs {
          outcome := TimedOut;
          break;
        }
      } else {
        if c.result > remaining {
          outcome := Invalid;
          break;
        }
        assert msg[..ptr + c.result] == msg[..ptr] + msg[ptr..ptr + c.result];
        printed := printed + msg[ptr..ptr + c.result];
        ptr := ptr + c.result;
        remaining := remaining - c.result;
        start := c.now;
      }
      k := k + 1;
    }
  }

  // ---------------------------------------------------------------------------
  // The sink
  // ---------------------------------------------------------------------------

  /** Where `sendToQueue` puts a message. */
  datatype Route = Direct | Queued | Discarded

  class LogSink {
    /** Whether `begin` created the queue and the logging task. */
    var initialized: bool
    /** The messages waiting for the logging task, oldest first. */
    var queue: seq<string>

    ghost predicate Valid()
      reads this
    {
      |queue| <= QueueSize && (!initialized ==> queue == []) &&
      forall k :: 0 <= k < |queue| ==> |queue[k]| < MaxMsgSize
    }

    constructor ()
      ensures Valid() && !initialized && queue == []
    {
      initialized := false;
      queue := [];
    }

    /** `begin`: `created` stands for the queue and the task both being created. */
    method Begin(created: bool)
      requires Valid()
      modifies this
      ensures Valid()
      ensures initialized == (old(initialized) || created) && queue == old(queue)
    {
      if !initialized {
        if created {
          initialized := true;
        }
      }
    }

    /**
     * `sendToQueue`: before the scheduler runs the message is printed on
     * the spot; otherwise the sink starts itself if needed and queues the
     * message without waiting, dropping it when the queue is full or the
     * sink could not start.
     */
    method SendToQueue(msg: string, schedulerRunning: bool, created: bool) returns (route: Route)
      requires Valid() && |msg| < MaxMsgSize
      modifies this
      ensures Valid()
      ensures route == Direct <==> !schedulerRunning
      ensures !schedulerRunning ==> unchanged(this)
      ensures schedulerRunning ==> initialized == (old(initialized) || created)
      ensures route == Queued <==> schedulerRunning && initialized && |old(queue)| < QueueSize
      ensures queue == if route == Queued then old(queue) + [msg] else old(queue)
    {
      if !schedulerRunning {
        return Direct;
      }
      if !initialized {
        Begin(created);
        if !initialized {
          return Discarded;
        }
      }
      if |queue| < QueueSize {
        queue := queue + [msg];
        return Queued;
      }
      return Discarded;
    }

    /**
     * `logln`: the buffer is normalised in place and the message sent; a
     * message printed on the spot goes through the print loop with the
     * microsecond clock.
     */
    method Logln(buffer: array?<char>, schedulerRunning: bool, created: bool, calls: seq<PrintCall>, startUs: u32)
      returns (msg: string, route: Route, printed: string)
      requires Valid()
      requires buffer != null ==> buffer.Length >= MaxMsgSize && '\0' in buffer[..]
      modifies this, buffer
      ensures Valid()
      ensures msg == Normalize(if buffer == null then "" else old(buffer[..CLen(buffer[..])]))
      ensures queue == if route == Queued then old(queue) + [msg] else old(queue)
      ensures route == Direct <==> !schedulerRunning
      ensures printed == if route == Direct then msg[..PrintRun(|msg|, calls, 1000, startUs).sent] else ""
    {
      msg := NormalizeLine(buffer);
      NormalizeShape(if buffer == null then "" else old(buffer[..CLen(buffer[..])]));
      assert StripEol("") == "";
      route := SendToQueue(msg, schedulerRunning, created);
      printed := "";
      if route == Direct {
        var outcome;
        printed, outcome := PrintLoop(msg, calls, 1000, startUs);
      }
    }

    /** `logf`: the text is formatted into the buffer, normalised and sent as by `logln`. */
    method Logf(buffer: array<char>, formatted: Option<D.CString>, schedulerRunning: bool, created: bool,
                calls: seq<PrintCall>, startUs: u32)
      returns (msg: string, route: Route, printed: string)
      requires Valid() && buffer.Length >= MaxMsgSize
      modifies this, buffer
      ensures Valid()
      ensures msg == Normalize(LogfText(formatted))
      ensures queue == if route == Queued then old(queue) + [msg] else old(queue)
      ensures route == Direct <==> !schedulerRunning
      ensures printed == if route == Direct then msg[..PrintRun(|msg|, calls, 1000, startUs).sent] else ""
    {
      msg := FormatLine(buffer, formatted);
      NormalizeShape(LogfText(formatted));
      route := SendToQueue(msg, schedulerRunning, created);
      printed := "";
      if route == Direct {
        var outcome;
        printed, outcome := PrintLoop(msg, calls, 1000, startUs);
      }
    }

    /**
     * One round of the logging task: the oldest message is taken off the
     * queue and printed with the millisecond clock. The task blocks while
     * the queue is empty; here that round does nothing.
     */
    method LogTaskStep(calls: seq<PrintCall>, startMs: u32) returns (msg: Option<string>, printed: string)
      requires Valid()
      modifies this
      ensures Valid()
      ensures old(queue) == [] ==> msg.None? && printed == "" && unchanged(this)
      ensures old(queue) != [] ==>
        msg == Some(old(queue)[0]) && queue == old(queue)[1..] && initialized == old(initialized) &&
        printed == msg.value[..PrintRun(|msg.value|, calls, 1, startMs).sent]
    {
      if queue == [] {
        return None, "";
      }
      var m := queue[0];
      queue := queue[1..];
      msg := Some(m);
      var outcome;
      printed, outcome := PrintLoop(m, calls, 1, startMs);
    }
  }
}
