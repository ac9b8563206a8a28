/**
 * ble_helpers.c: the BLE-bound transmit ring buffer, the two forwarding
 * tasks that run while a BLE peer is connected, and the connection
 * callback that starts and stops them.
 *
 * The file's globals (`ble_connected`, `ble_tx_buf_handle`, the two static
 * task handles of `ble_event_callback` and the line buffer of
 * `ble_to_usb_task`) are the fields of class `Ble`; each task is one step.
 */
module BleHelpers {
  import opened Wrappers
  import opened CStrings
  import opened Links

  /** Size passed to `xRingbufferCreate` for the BLE-bound buffer. */
  const TX_BUFFER_SIZE: nat := 67584

  /** Timeout, in milliseconds, of the `usb_tx` call in `ble_to_usb_task`. */
  const USB_TX_TIMEOUT_MS: nat := 1000

  /** `enum nordic_uart_callback_type`, as far as the callback tells values apart. */
  datatype UartEvent = Connected | Disconnected | OtherEvent(code: int)

  /** Bytes held by a sequence of ring-buffer items (item headers are not modelled). */
  function TotalBytes(frames: seq<seq<char>>): nat
  {
    if frames == [] then 0 else |frames[0]| + TotalBytes(frames[1..])
  }

  lemma {:induction false} TotalBytesAppend(frames: seq<seq<char>>, f: seq<char>)
    ensures TotalBytes(frames + [f]) == TotalBytes(frames) + |f|
  {
    if frames != [] {
      assert (frames + [f])[1..] == frames[1..] + [f];
      TotalBytesAppend(frames[1..], f);
    }
  }

  /** There is room for `data` in a NOSPLIT buffer holding `frames`. */
  predicate Fits(frames: seq<seq<char>>, data: seq<char>)
  {
    TotalBytes(frames) + |data| <= TX_BUFFER_SIZE
  }

  /**
   * What `xRingbufferSend` with a timeout leaves in the buffer: the whole
   * frame as one new item at the tail, or, when it does not fit, nothing.
   */
  function Enqueue(frames: seq<seq<char>>, data: seq<char>): (r: seq<seq<char>>)
    requires TotalBytes(frames) <= TX_BUFFER_SIZE
    ensures TotalBytes(r) <= TX_BUFFER_SIZE
    ensures r == frames + [data] || r == frames
    ensures r == frames + [data] <==> Fits(frames, data)
  {
    TotalBytesAppend(frames, data);
    if Fits(frames, data) then frames + [data] else frames
  }

  /** A run of `ble_tx` calls with no consumer in between. */
  function EnqueueAll(frames: seq<seq<char>>, datas: seq<seq<char>>): (r: seq<seq<char>>)
    requires TotalBytes(frames) <= TX_BUFFER_SIZE
    ensures TotalBytes(r) <= TX_BUFFER_SIZE
    ensures |frames| <= |r| && r[..|frames|] == frames
    decreases |datas|
  {
    if datas == [] then frames
    else
      var next := Enqueue(frames, datas[0]);
      var r := EnqueueAll(next, datas[1..]);
      assert r[..|frames|] == r[..|next|][..|frames|];
      r
  }

  /**
   * FIFO: frames whose total fits are all stored, whole, in the order they
   * were sent, behind what the buffer already held.
   */
  lemma {:induction false} EnqueueAllInOrder(frames: seq<seq<char>>, datas: seq<seq<char>>)
    requires TotalBytes(frames) + TotalBytes(datas) <= TX_BUFFER_SIZE
    ensures EnqueueAll(frames, datas) == frames + datas
    decreases |datas|
  {
    if datas != [] {
      TotalBytesAppend(frames, datas[0]);
      assert TotalBytes(datas) == |datas[0]| + TotalBytes(datas[1..]);
      assert Enqueue(frames, datas[0]) == frames + [datas[0]];
      EnqueueAllInOrder(frames + [datas[0]], datas[1..]);
      assert frames + [datas[0]] + datas[1..] == frames + datas;
    }
  }

  /**
   * `ble_to_usb_task`'s line buffer after `strcpy(mbuf, item)` and
   * `strcat(mbuf, "\n")`: the string it holds is the item's text with a
   * newline added, whether or not the text already ended in one.
   */
  function AppendNewline(item: seq<char>, buf: seq<char>): (r: seq<char>)
    requires |UpToNul(item)| + 2 <= |buf|
    ensures |r| == |buf|
    ensures UpToNul(r) == UpToNul(item) + ['\n']
    ensures IsPrefix(UpToNul(item) + ['\n'], r)
    ensures r[|UpToNul(item)| + 2..] == buf[|UpToNul(item)| + 2..]
  {
    var text := UpToNul(item);
    UpToNulOfTerminated(text + ['\n'], buf[|text| + 2..]);
    assert text + ['\n', NUL] + buf[|text| + 2..] == text + ['\n'] + [NUL] + buf[|text| + 2..];
    text + ['\n', NUL] + buf[|text| + 2..]
  }

  /**
   * An item the receive ring buffer may hand to `ble_to_usb_task`: it is
   * NUL-terminated (`strcpy` stops inside it), its text and the added
   * newline and NUL fit the `MAX_LINE_LENGTH + 1` line buffer, and the
   * `item_size` bytes handed to `usb_tx` lie inside that buffer.
   */
  predicate LineBufferFits(item: seq<char>, lineLength: nat)
  {
    NUL in item && |UpToNul(item)| + 2 <= lineLength + 1 && |item| <= lineLength + 1
  }

  /**
   * The first `item_size` bytes of the line buffer, which is what `usb_tx`
   * transmits, always start with the item's text followed by the newline:
   * a NUL-terminated item is at least one byte longer than its text.
   */
  lemma NewlineReachesUsb(item: seq<char>, buf: seq<char>)
    requires NUL in item && |UpToNul(item)| + 2 <= |buf| && |item| <= |buf|
    ensures IsPrefix(UpToNul(item) + ['\n'], AppendNewline(item, buf)[..|item|])
  {
    UpToNulStopsInside(item);
    var r := AppendNewline(item, buf);
    assert r[..|item|][..|UpToNul(item)| + 1] == r[..|UpToNul(item)| + 1];
  }

  /** An item that is a line plus its terminating NUL reaches USB as that line plus "\n". */
  lemma TerminatedLineForwarded(line: seq<char>, buf: seq<char>)
    requires NUL !in line && |line| + 2 <= |buf|
    ensures UpToNul(line + [NUL]) == line
    ensures AppendNewline(line + [NUL], buf)[..|line| + 1] == line + ['\n']
  {
    UpToNulOfTerminated(line, []);
    assert line + [NUL] + [] == line + [NUL];
    assert NUL in line + [NUL] by { assert (line + [NUL])[|line|] == NUL; }
    NewlineReachesUsb(line + [NUL], buf);
  }

  /** The state ble_helpers.c keeps in globals and in the statics of its tasks. */
  class Ble {
    /** `ble_connected` */
    var connected: bool
    /** `ble_to_usb_task_handle` names a running task */
    var bleToUsbTask: bool
    /** `tx_queue_processing_task_handle` names a running task */
    var txTask: bool
    /** the items in `ble_tx_buf_handle`, oldest first */
    var txFrames: seq<seq<char>>
    /** the `mbuf` line buffer of the running `ble_to_usb_task`; each new task gets a new one */
    var lineBuf: array<char>
    /** `CONFIG_NORDIC_UART_MAX_LINE_LENGTH` */
    const lineLength: nat

    /** The transmit buffer within its capacity and the line buffer of the configured size. */
    ghost predicate BuffersValid()
      reads this
    {
      && lineLength >= 3
      && lineBuf.Length == lineLength + 1
      && TotalBytes(txFrames) <= TX_BUFFER_SIZE
    }

    /** Both forwarding tasks run exactly while a peer is connected. */
    ghost predicate Valid()
      reads this
    {
      && BuffersValid()
      && bleToUsbTask == connected
      && txTask == connected
    }

    /** State after `init_ble`: an empty transmit buffer, no peer, no forwarding task. */
    constructor (maxLineLength: nat)
      requires maxLineLength >= 3
      ensures Valid() && fresh(lineBuf) && lineLength == maxLineLength
      ensures !connected && !bleToUsbTask && !txTask && txFrames == []
    {
      lineLength := maxLineLength;
      lineBuf := new char[maxLineLength + 1](_ => NUL);
      connected, bleToUsbTask, txTask := false, false, false;
      txFrames := [];
    }

    /**
     * `ble_tx`: the whole `data_len`-byte frame becomes one item at the tail
     * of the buffer, or, when it does not fit before the 1000 ms timeout,
     * nothing is stored. `stored` is the `xRingbufferSend` result.
     */
    method BleTx(data: seq<char>) returns (stored: bool)
      requires Valid()
      modifies this`txFrames
      ensures Valid()
      ensures stored == Fits(old(txFrames), data)
      ensures txFrames == Enqueue(old(txFrames), data)
    {
      stored := Fits(txFrames, data);
      txFrames := Enqueue(txFrames, data);
    }

    /**
     * `xRingbufferReceive` on `ble_tx_buf_handle` with no wait, then
     * `vRingbufferReturnItem`: the oldest item, or NULL when empty.
     */
    method TakeTxItem() returns (item: Option<seq<char>>)
      requires BuffersValid()
      modifies this`txFrames
      ensures BuffersValid()
      ensures item == None <==> old(txFrames) == []
      ensures old(txFrames) == [] ==> txFrames == []
      ensures old(txFrames) != [] ==> item == Some(old(txFrames)[0]) && txFrames == old(txFrames)[1..]
    {
      if txFrames == [] {
        item := None;
      } else {
        item := Some(txFrames[0]);
        txFrames := txFrames[1..];
      }
    }

    /** `empty_tx_buffer`: take items without waiting until none is left. */
    method EmptyTxBuffer()
      requires BuffersValid()
      modifies this`txFrames
      ensures BuffersValid() && txFrames == []
    {
      while true
        invariant BuffersValid()
        decreases |txFrames|
      {
        var item := TakeTxItem();
        if item == None {
          break;
        }
      }
    }

    /**
     * One pass of `_tx_queue_processing_task`: the oldest frame leaves the
     * buffer and its text, up to the first NUL and never longer than the
     * frame, goes to `nordic_uart_send`. With the buffer empty the task is
     * still waiting and nothing changes.
     */
    method TxStep(uart: NordicUart) returns (sent: Option<seq<char>>)
      requires Valid() && txTask
      modifies this`txFrames, uart`sent
      ensures Valid()
      ensures old(txFrames) == [] ==> sent == None && txFrames == [] && uart.sent == old(uart.sent)
      ensures old(txFrames) != [] ==>
        && txFrames == old(txFrames)[1..]
        && sent == Some(UpToNul(old(txFrames)[0]))
        && uart.sent == old(uart.sent) + [UpToNul(old(txFrames)[0])]
    {
      var item := TakeTxItem();
      match item
      case None =>
        sent := None;
      case Some(frame) =>
        // snprintf(mbuf, item_size + 1, "%.*s", item_size + 1, item)
        var line := Truncate(UpToNul(frame), |frame|);
        uart.Send(line);
        sent := Some(line);
    }

    /**
     * One pass of `ble_to_usb_task`: the oldest received item is copied into
     * the line buffer, a newline is appended, and the first `item_size`
     * bytes of the buffer are written to USB with a 1000 ms timeout before
     * the item is returned. With nothing received the task waits.
     */
    method BleToUsbStep(uart: NordicUart, cdc: CdcHost) returns (forwarded: Option<seq<char>>)
      requires Valid() && bleToUsbTask
      requires uart.rxItems != [] ==> LineBufferFits(uart.rxItems[0], lineLength)
      modifies lineBuf, uart`rxItems, cdc`written
      ensures old(uart.rxItems) == [] ==>
        && forwarded == None && uart.rxItems == []
        && lineBuf[..] == old(lineBuf[..]) && cdc.written == old(cdc.written)
      ensures old(uart.rxItems) != [] ==>
        && uart.rxItems == old(uart.rxItems)[1..]
        && lineBuf[..] == AppendNewline(old(uart.rxItems)[0], old(lineBuf[..]))
        && forwarded == Some(lineBuf[..|old(uart.rxItems)[0]|])
        && cdc.written == old(cdc.written) + [Transfer(lineBuf[..|old(uart.rxItems)[0]|], USB_TX_TIMEOUT_MS, cdc.devOpen)]
    {
      var item := uart.Receive();
      match item
      case None =>
        forwarded := None;
      case Some(it) =>
        ghost var before := lineBuf[..];
        var text := UpToNul(it);
        // strcpy(mbuf, item)
        forall i | 0 <= i < |text| {
          lineBuf[i] := text[i];
        }
        lineBuf[|text|] := NUL;
        // strcat(mbuf, "\n")
        lineBuf[|text|] := '\n';
        lineBuf[|text| + 1] := NUL;
        assert lineBuf[..] == AppendNewline(it, before);
        var payload := lineBuf[..|it|];
        cdc.DataTxBlocking(payload, USB_TX_TIMEOUT_MS);
        forwarded := Some(payload);
    }

    /**
     * `ble_event_callback`. CONNECTED starts both forwarding tasks, the
     * BLE-to-USB one with a new line buffer of unknown contents, and sets
     * the flag; DISCONNECTED deletes both tasks, discards everything still
     * waiting in the BLE-bound buffer and clears the flag (the USB-bound
     * receive buffer is left alone); any other event changes nothing.
     * DISCONNECTED needs live handles: `vTaskDelete` on a NULL handle would
     * delete the calling task.
     */
    method EventCallback(event: UartEvent)
      requires Valid()
      requires event == Disconnected ==> bleToUsbTask && txTask
      modifies this`connected, this`bleToUsbTask, this`txTask, this`txFrames, this`lineBuf
      ensures Valid()
      ensures event == Connected ==> connected && bleToUsbTask && txTask && txFrames == old(txFrames)
      ensures event == Connected ==> fresh(lineBuf)
      ensures event != Connected ==> lineBuf == old(lineBuf)
      ensures event == Disconnected ==> !connected && !bleToUsbTask && !txTask && txFrames == []
      ensures event.OtherEvent? ==>
        && connected == old(connected) && bleToUsbTask == old(bleToUsbTask)
        && txTask == old(txTask) && txFrames == old(txFrames)
    {
      match event
      case Connected =>
        // The new `ble_to_usb_task` starts with its own, uninitialized `mbuf`.
        lineBuf := new char[lineLength + 1];
        bleToUsbTask := true;
        txTask := true;
        connected := true;
      case Disconnected =>
        bleToUsbTask := false;
        txTask := false;
        EmptyTxBuffer();
        connected := false;
      case OtherEvent(_) =>
    }

    /** `ble_is_connected`. */
    method IsConnected() returns (c: bool)
      ensures c == connected
    {
      c := connected;
    }
  }
}
