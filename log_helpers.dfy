/**
 * log_helpers.c: the log channel. Every log line the ESP-IDF logger formats
 * is stored in the bounded queue `xLogQueue`, evicting the oldest record
 * when the queue is full; a task forwards the records to the BLE peer, with
 * a "# " marker in front of those that begin with a log level code. The
 * task checks for a peer only before it blocks on the queue.
 */
module LogHelpers {
  import opened Wrappers
  import opened CStrings
  import opened Links
  import BleHelpers

  /** The marker `_log_queue_processing_task` puts in front of a leveled record. */
  const PREFIX: seq<char> := "# "

  /** Precision of "%.3s", applied to the marker. */
  const PREFIX_PRECISION: nat := 3

  /** Precision of "%.252s", applied to the record. */
  const BODY_PRECISION: nat := 252

  function Min(a: nat, b: nat): nat { if a <= b then a else b }

  /**
   * The record `log_to_queue` stores for a formatted line: `vsnprintf` into
   * a `MAX_LINE_LENGTH` buffer keeps the first `MAX_LINE_LENGTH - 1`
   * characters, and the queue and `strlen` read the buffer up to its first
   * NUL: the record is the formatted text up to its first NUL, cut to
   * `MAX_LINE_LENGTH - 1` characters.
   */
  function StoredRecord(formatted: seq<char>, lineLength: nat): (r: seq<char>)
    requires lineLength >= 1
    ensures |r| < lineLength
    ensures NUL !in r
    ensures IsPrefix(r, formatted)
    ensures |r| == Min(|UpToNul(formatted)|, lineLength - 1)
    ensures NUL !in formatted && |formatted| < lineLength ==> r == formatted
    ensures NUL !in formatted && |formatted| >= lineLength ==> r == formatted[..lineLength - 1]
  {
    var kept := Truncate(formatted, lineLength - 1);
    assert UpToNul(kept) == Truncate(UpToNul(formatted), lineLength - 1) by {
      UpToNulOfTruncate(formatted, lineLength - 1);
    }
    assert NUL !in formatted ==> UpToNul(formatted) == formatted by {
      if NUL !in formatted {
        UpToNulOfPlain(formatted);
      }
    }
    UpToNul(kept)
  }

  /** The level letters ESP-IDF writes at the start of a log line. */
  predicate IsLevelCode(c: char)
  {
    c == 'I' || c == 'W' || c == 'E' || c == 'D' || c == 'V'
  }

  /** `strncmp(msg, "X ", 2) == 0` for one of the level letters X. */
  predicate HasLevelCode(msg: seq<char>)
  {
    |msg| >= 2 && IsLevelCode(msg[0]) && msg[1] == ' '
  }

  /**
   * The line `_log_queue_processing_task` sends for the record `msg` (a
   * string held in a `MAX_LINE_LENGTH` buffer): a record that starts with a
   * level code gets the "# " marker in front, the whole cut to fit the
   * buffer; any other record, including one that already starts with
   * "# ", is sent unchanged.
   */
  function FormatLine(msg: seq<char>, lineLength: nat): (r: seq<char>)
    requires lineLength >= 3 && |msg| < lineLength && NUL !in msg
    ensures |r| < lineLength
    ensures r == msg <==> !HasLevelCode(msg)
    ensures HasLevelCode(msg) ==>
      && IsPrefix(PREFIX, r)
      && IsPrefix(r[|PREFIX|..], msg)
      && |r| == Min(|PREFIX| + Min(|msg|, BODY_PRECISION), lineLength - 1)
    ensures HasLevelCode(msg) && |msg| <= BODY_PRECISION && |msg| + |PREFIX| < lineLength ==>
      r == PREFIX + msg
  {
    if HasLevelCode(msg) then
      // snprintf(mbuf, MAX_LINE_LENGTH, "%.3s%.252s", pre, msg)
      var line := Truncate(PREFIX, PREFIX_PRECISION) + Truncate(msg, BODY_PRECISION);
      var r := Truncate(line, lineLength - 1);
      assert r[0] == '#';
      r
    else
      // strcpy(mbuf, msg)
      msg
  }

  /** Formatting a line that has already been formatted changes nothing. */
  lemma FormatLineIdempotent(msg: seq<char>, lineLength: nat)
    requires lineLength >= 3 && |msg| < lineLength && NUL !in msg
    ensures NUL !in FormatLine(msg, lineLength)
    ensures FormatLine(FormatLine(msg, lineLength), lineLength) == FormatLine(msg, lineLength)
  {
    var r := FormatLine(msg, lineLength);
    if HasLevelCode(msg) {
      assert r[|PREFIX|..] == msg[..|r| - |PREFIX|];
      forall i | 0 <= i < |r| ensures r[i] != NUL {
        if i >= |PREFIX| {
          assert r[i] == r[|PREFIX|..][i - |PREFIX|] == msg[i - |PREFIX|];
        } else {
          assert r[i] == PREFIX[i];
        }
      }
      assert r[0] == '#';
    }
  }

  /** An informational record reaches the peer with the marker in front. */
  lemma InfoRecordMarked(lineLength: nat)
    requires lineLength >= 18
    ensures FormatLine("I boot complete", lineLength) == "# I boot complete"
  {
    assert HasLevelCode("I boot complete");
  }

  /** A record that continues a log line (no level code) reaches the peer as it is. */
  lemma ContinuationRecordUnchanged(lineLength: nat)
    requires lineLength >= 4
    ensures FormatLine("ok\n", lineLength) == "ok\n"
  {
    assert !HasLevelCode("ok\n");
  }

  /** The newest `n` elements of `s`, oldest first. */
  function Newest(s: seq<seq<char>>, n: nat): seq<seq<char>>
  {
    s[|s| - Min(|s|, n)..]
  }

  /**
   * The queue after `log_to_queue` stores `rec`: `rec` is the newest record,
   * the queue never holds more than `depth` records, and the records kept
   * from before are the newest ones in their old order, so a queue with
   * room loses nothing and a full one loses exactly its oldest record.
   */
  function Publish(queue: seq<seq<char>>, depth: nat, rec: seq<char>): (q: seq<seq<char>>)
    requires 0 < depth && |queue| <= depth
    ensures |q| == if |queue| < depth then |queue| + 1 else depth
    ensures q[|q| - 1] == rec
    ensures q[..|q| - 1] == Newest(queue, |q| - 1)
  {
    if |queue| < depth then queue + [rec] else queue[1..] + [rec]
  }

  /** The queue after `log_to_queue` has been called once for each of `recs`. */
  function PublishAll(queue: seq<seq<char>>, depth: nat, recs: seq<seq<char>>): (q: seq<seq<char>>)
    requires 0 < depth && |queue| <= depth
    decreases |recs|
  {
    if recs == [] then queue
    else PublishAll(Publish(queue, depth, recs[0]), depth, recs[1..])
  }

  /** One publish keeps the newest `depth` records of the old queue and the new record. */
  lemma PublishKeepsNewest(queue: seq<seq<char>>, depth: nat, rec: seq<char>)
    requires 0 < depth && |queue| <= depth
    ensures Publish(queue, depth, rec) == Newest(queue + [rec], depth)
  {
    var q := Publish(queue, depth, rec);
    assert q == q[..|q| - 1] + [rec];
    assert q == (queue + [rec])[|queue| + 1 - |q|..];
  }

  /** Keeping the newest `n` before appending more does not change the newest `n` after. */
  lemma NewestThenAppend(a: seq<seq<char>>, rest: seq<seq<char>>, n: nat)
    ensures Newest(Newest(a, n) + rest, n) == Newest(a + rest, n)
  {
    var m := Min(|a|, n);
    var j := |a| - m;
    assert Newest(a, n) + rest == (a + rest)[j..];
    if j > 0 {
      var all := a + rest;
      assert m == n;
      assert all[j..][|all| - j - n..] == all[|all| - n..];
    }
  }

  /** The newest records after one publish and then more are the newest of all of them. */
  lemma PublishThenAppend(queue: seq<seq<char>>, depth: nat, recs: seq<seq<char>>)
    requires 0 < depth && |queue| <= depth && recs != []
    ensures Newest(Publish(queue, depth, recs[0]) + recs[1..], depth) == Newest(queue + recs, depth)
  {
    PublishKeepsNewest(queue, depth, recs[0]);
    NewestThenAppend(queue + [recs[0]], recs[1..], depth);
    assert queue + [recs[0]] + recs[1..] == queue + recs;
  }

  /**
   * Drop-oldest as a whole: whatever was published, the queue holds the
   * newest `depth` records of everything it ever received, oldest first.
   */
  lemma {:induction false} PublishAllKeepsNewest(queue: seq<seq<char>>, depth: nat, recs: seq<seq<char>>)
    requires 0 < depth && |queue| <= depth
    ensures PublishAll(queue, depth, recs) == Newest(queue + recs, depth)
    decreases |recs|
  {
    if recs == [] {
      assert queue + recs == queue;
    } else {
      var q1 := Publish(queue, depth, recs[0]);
      PublishAllKeepsNewest(q1, depth, recs[1..]);
      PublishThenAppend(queue, depth, recs);
    }
  }

  /**
   * The state log_helpers.c keeps: the queue `xLogQueue`, its two sizes, and
   * whether the processing task is blocked waiting on it.
   */
  class Log {
    /** the records in `xLogQueue`, oldest first */
    var queue: seq<seq<char>>
    /** `QUEUE_LENGTH` */
    const depth: nat
    /** `CONFIG_NORDIC_UART_MAX_LINE_LENGTH` */
    const lineLength: nat
    /** the processing task is blocked in `xQueueReceive` on the empty queue */
    var waiting: bool

    /** At most `depth` records, each a string that fits a line buffer. */
    ghost predicate Valid()
      reads this
    {
      && 0 < depth
      && lineLength >= 3
      && |queue| <= depth
      && forall i :: 0 <= i < |queue| ==> |queue[i]| < lineLength && NUL !in queue[i]
    }

    /** `xQueueCreate(QUEUE_LENGTH, CONFIG_NORDIC_UART_MAX_LINE_LENGTH)` in `init_logging`. */
    constructor (queueLength: nat, maxLineLength: nat)
      requires 0 < queueLength && maxLineLength >= 3
      ensures Valid() && queue == [] && !waiting
      ensures depth == queueLength && lineLength == maxLineLength
    {
      queue := [];
      waiting := false;
      depth := queueLength;
      lineLength := maxLineLength;
    }

    /** `xQueueSend` with no wait: fails, storing nothing, when the queue is full. */
    method QueueSend(rec: seq<char>) returns (ok: bool)
      requires Valid() && |rec| < lineLength && NUL !in rec
      modifies this`queue
      ensures Valid()
      ensures ok == (|old(queue)| < depth)
      ensures queue == if ok then old(queue) + [rec] else old(queue)
    {
      ok := |queue| < depth;
      if ok {
        queue := queue + [rec];
      }
    }

    /** `xQueueReceive` with no wait: the oldest record, or nothing when empty. */
    method QueueReceive() returns (rec: Option<seq<char>>)
      requires Valid()
      modifies this`queue
      ensures Valid()
      ensures old(queue) == [] ==> rec == None && queue == []
      ensures old(queue) != [] ==> rec == Some(old(queue)[0]) && queue == old(queue)[1..]
    {
      if queue == [] {
        rec := None;
      } else {
        rec := Some(queue[0]);
        queue := queue[1..];
      }
    }

    /**
     * `log_to_queue`: store the formatted line, cut to the line limit, as
     * the newest record, dropping the oldest record while the queue is full;
     * it never blocks or fails, and returns the stored record's length.
     */
    method LogToQueue(formatted: seq<char>) returns (n: nat)
      requires Valid()
      modifies this`queue
      ensures Valid()
      ensures n == |StoredRecord(formatted, lineLength)|
      ensures queue == Publish(old(queue), depth, StoredRecord(formatted, lineLength))
    {
      var msg := StoredRecord(formatted, lineLength);
      var ok := QueueSend(msg);
      while !ok
        invariant Valid()
        invariant ok ==> queue == Publish(old(queue), depth, msg)
        invariant !ok ==> queue == old(queue) && |queue| == depth
        decreases if ok then 0 else 1
      {
        // Queue full: remove the oldest record and try again.
        var _ := QueueReceive();
        ok := QueueSend(msg);
      }
      n := |msg|;
    }

    /**
     * One pass of `_log_queue_processing_task`. The connected flag is read
     * only before the task blocks in `xQueueReceive` with no timeout: a task
     * that found a peer and an empty queue stays `waiting`, and takes the
     * next record published whatever the flag says by then. A record taken
     * leaves the queue and its formatted line goes to `nordic_uart_send`.
     * While no peer is connected and the task is not waiting, it only sleeps.
     */
    method ProcessingStep(ble: BleHelpers.Ble, uart: NordicUart) returns (sent: Option<seq<char>>)
      requires Valid()
      modifies this`queue, this`waiting, uart`sent
      ensures Valid()
      ensures !ble.connected && !old(waiting) ==>
        sent == None && queue == old(queue) && !waiting && uart.sent == old(uart.sent)
      ensures (ble.connected || old(waiting)) && old(queue) == [] ==>
        sent == None && queue == [] && waiting && uart.sent == old(uart.sent)
      ensures (ble.connected || old(waiting)) && old(queue) != [] ==>
        && queue == old(queue)[1..]
        && !waiting
        && sent == Some(FormatLine(old(queue)[0], lineLength))
        && uart.sent == old(uart.sent) + [FormatLine(old(queue)[0], lineLength)]
    {
      sent := None;
      var up := ble.IsConnected();
      if up || waiting {
        // xQueueReceive(xLogQueue, &msg, portMAX_DELAY)
        var rec := QueueReceive();
        match rec
        case None =>
          waiting := true;
        case Some(msg) =>
          waiting := false;
          var line := FormatLine(msg, lineLength);
          uart.Send(line);
          sent := Some(line);
      }
    }
  }
}
