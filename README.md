# Anima Link bridge core in Dafny

Anima Link is ESP32 firmware that bridges a BLE "Nordic UART" link and a USB CDC-ACM serial device.
This project models the firmware's own logic under the FreeRTOS, NimBLE and USB host plumbing, and proves what that logic promises.

- **Log channel** (`main/log_helpers.c`, module `LogHelpers`):
  - `log_to_queue` publishes to the bounded queue `xLogQueue` and drops the oldest record when the queue is full.
  - The drain task turns each record into the line it sends. It prepends `"# "` only to a record that starts with a level code (`I `, `W `, `E `, `D `, `V `), then cuts the line to the line limit.
  - The drain task reads the BLE connected flag only before it blocks on the queue. A task that found a peer and an empty queue takes the next record published even if the peer has dropped by then, and hands it to `nordic_uart_send` with no peer connected (`Scenarios.BlockedWaitAcrossDisconnect`).
- **BLE side** (`main/ble_helpers.c`, module `BleHelpers`):
  - `ble_tx` stores a whole frame in the NOSPLIT ring buffer `ble_tx_buf_handle` (67584 bytes), or stores nothing.
  - `empty_tx_buffer` drains that buffer.
  - One pass of each forwarding task is a step: BLE-bound frames go to `nordic_uart_send`; received BLE items get `"\n"` appended and go to USB.
  - `ble_event_callback` starts and stops both tasks, drains the buffer and sets the connected flag.
- **USB side** (`main/usb_helpers.c`, module `UsbHelpers`):
  - `handle_usb_rx` passes the received bytes through to `ble_tx`.
  - The connect waiter retries `cdc_acm_host_open`, then sets the line coding (115200 8N1, DTR on, RTS off) and the flag.
  - `handle_usb_event` and the USB host library task close the device, clear the flag and start a new waiter.

Each file's globals are the fields of one class (`Log`, `Ble`, `Usb`). Each FreeRTOS task is one step method, and task handles are booleans.
The foreign stacks are records of the calls made on them (`Links.NordicUart`, `Links.CdcHost`).
Bytes are modelled as `char`. `CStrings` gives the C string rules the code relies on: a buffer read as a string ends at its first NUL, and a bounded write keeps a prefix.
`CONFIG_NORDIC_UART_MAX_LINE_LENGTH` (at least 3) and `QUEUE_LENGTH` (positive) are constructor parameters. `QUEUE_LENGTH` is defined in `log_helpers.h`, which is not part of this model.
`Scenarios` runs the three models together on a few end-to-end cases.

The model follows the code in these places, where a reader might expect something else:
- The `"# "` marker goes on records that DO start with a level code and a space. Every other record, including one that already starts with `"# "`, is sent unchanged.
- The BLE-to-USB task always appends `"\n"`, even when the text already ends in one.
- The USB-to-BLE path appends nothing: received NUL-free USB bytes reach the BLE peer exactly as received (`Scenarios.UsbBytesReachBleUnchanged`), as long as the frame fits the stack of the task that sends it (see "## Left out"). A frame holding a NUL is sent only up to that NUL.
- `usb_tx` gets `item_size` bytes of the line buffer. The appended newline is sent because a NUL-terminated item is at least one byte longer than its text (`BleHelpers.NewlineReachesUsb`).
- Each ALL_FREE event starts one new connect waiter. Nothing checks whether a waiter is already running.

## Model

| member | source | states |
|---|---|---|
| `LogHelpers.StoredRecord` | main/log_helpers.c:18-19 | the stored record is a prefix of the formatted text of length min(strlen, MAX_LINE_LENGTH-1): the whole NUL-free text when it fits, exactly its first MAX_LINE_LENGTH-1 characters when it does not |
| `LogHelpers.Publish` | main/log_helpers.c:21-28 | after a publish the queue holds at most QUEUE_LENGTH records and the new record is the newest; a queue with room keeps all its records in order, a full one loses exactly its oldest |
| `LogHelpers.PublishKeepsNewest` | main/log_helpers.c:21-28 | one publish leaves the newest QUEUE_LENGTH records of the old queue followed by the new record |
| `LogHelpers.PublishAllKeepsNewest` | main/log_helpers.c:21-28 | after any run of publishes the queue is exactly the newest QUEUE_LENGTH of all records ever published, oldest first |
| `LogHelpers.Log.constructor` | main/log_helpers.c:70 | the queue is created empty with depth QUEUE_LENGTH |
| `LogHelpers.Log.QueueSend` | main/log_helpers.c:21 | a no-wait send appends the record when there is room and otherwise fails, changing nothing |
| `LogHelpers.Log.QueueReceive` | main/log_helpers.c:26 | a no-wait receive removes and returns the oldest record, or returns nothing from an empty queue |
| `LogHelpers.Log.LogToQueue` | main/log_helpers.c:17-35 | publishing never fails: the queue becomes Publish of the old queue and the stored record, stays within QUEUE_LENGTH, and the returned count is the stored record's length |
| `LogHelpers.FormatLine` | main/log_helpers.c:44-57 | a record with a level code is sent as "# " and a prefix of the record, cut to min(2 + min(len, 252), MAX_LINE_LENGTH-1) characters, and is exactly "# " + record when that fits; any other record is sent unchanged; the line equals the record iff the record has no level code |
| `LogHelpers.FormatLineIdempotent` | main/log_helpers.c:47-57 | formatting a formatted line changes nothing |
| `LogHelpers.InfoRecordMarked` | main/log_helpers.c:47-54 | "I boot complete" is sent as "# I boot complete" |
| `LogHelpers.ContinuationRecordUnchanged` | main/log_helpers.c:55-57 | a record without a level code ("ok\n") is sent unchanged |
| `LogHelpers.Log.ProcessingStep` | main/log_helpers.c:40-63 | when BLE is connected, or the task is already blocked on the queue, the oldest record leaves the queue and its formatted line is sent, or the task blocks on the empty queue; a blocked task takes the next record whatever the flag says; disconnected and not blocked, nothing changes |
| `BleHelpers.Enqueue` | main/ble_helpers.c:119-125 | a frame is stored whole at the tail exactly when it fits the 67584-byte buffer; otherwise the buffer is unchanged; the total never exceeds capacity |
| `BleHelpers.EnqueueAll` | main/ble_helpers.c:119-125 | a run of ble_tx calls never exceeds capacity and never disturbs frames already stored |
| `BleHelpers.EnqueueAllInOrder` | main/ble_helpers.c:119-125 | frames whose total fits are all stored in the order sent (FIFO, no split frames) |
| `BleHelpers.Ble.constructor` | main/ble_helpers.c:14-17 | no peer connected, no forwarding task, empty transmit buffer |
| `BleHelpers.Ble.BleTx` | main/ble_helpers.c:119-125 | the buffer becomes Enqueue(old buffer, frame); the send result says whether the frame fitted; capacity is kept |
| `BleHelpers.Ble.TakeTxItem` | main/ble_helpers.c:49-51 | a no-wait receive returns NULL exactly when the buffer is empty, else removes and returns the oldest frame |
| `BleHelpers.Ble.EmptyTxBuffer` | main/ble_helpers.c:45-53 | afterwards the transmit buffer is empty, so the next no-wait receive returns NULL |
| `BleHelpers.Ble.TxStep` | main/ble_helpers.c:58-66 | exactly the oldest frame leaves the buffer and its text up to the first NUL (never longer than the frame) goes to nordic_uart_send |
| `BleHelpers.AppendNewline` | main/ble_helpers.c:29-33 | after strcpy and strcat the line buffer holds the item's text plus "\n", even when the text already ends in "\n"; bytes past the terminator are left as they were |
| `BleHelpers.NewlineReachesUsb` | main/ble_helpers.c:29-34 | the item_size bytes handed to usb_tx always begin with the item's text followed by "\n" |
| `BleHelpers.TerminatedLineForwarded` | main/ble_helpers.c:29-34 | an item that is a line plus its NUL is written to USB as that line plus "\n" |
| `BleHelpers.Ble.BleToUsbStep` | main/ble_helpers.c:24-36 | the oldest received item is taken, the line buffer becomes AppendNewline of it, and its first item_size bytes are written to USB with a 1000 ms timeout, reaching a device only if one is open; nothing else of the USB state changes |
| `BleHelpers.Ble.EventCallback` | main/ble_helpers.c:74-100 | CONNECTED starts both tasks, the BLE-to-USB task with a new, uninitialized line buffer, and sets the flag; DISCONNECTED stops both tasks, empties the transmit buffer and clears the flag, and does not touch the receive buffer; other events change nothing; tasks run exactly while connected |
| `BleHelpers.Ble.IsConnected` | main/ble_helpers.c:102-104 | returns the flag, changing nothing |
| `UsbHelpers.HandleUsbRx` | main/usb_helpers.c:28-50 | the received bytes go to ble_tx as one frame, unchunked, and the data is reported processed |
| `UsbHelpers.Usb.constructor` | main/usb_helpers.c:159-161 | not connected, one connect waiter running |
| `UsbHelpers.Usb.HandleUsbEvent` | main/usb_helpers.c:60-78 | a device disconnect closes the device and nothing else; error, serial-state and other events change nothing; the flag is never touched |
| `UsbHelpers.FirstOk` | main/usb_helpers.c:93-96 | the index of the first ESP_OK open result: every earlier result failed |
| `UsbHelpers.Usb.WaitForAnimaConnect` | main/usb_helpers.c:80-115 | while disconnected the waiter opens at least once and repeats until the first ESP_OK; only then does it set the line coding (115200 baud, stop code 0, parity 0, 8 bits), assert DTR without RTS, set the flag and end; it does nothing while the flag is set |
| `UsbHelpers.Usb.LibTaskStep` | main/usb_helpers.c:124-139 | NO_CLIENTS frees all devices; ALL_FREE clears the flag and starts exactly one new waiter per event; the device itself is not touched |
| `UsbHelpers.Usb.IsConnected` | main/usb_helpers.c:142-144 | returns the flag, changing nothing |
| `Scenarios.DisconnectDiscardsQueuedFrames` | main/ble_helpers.c:88-96 | three frames queued when the BLE peer drops are all discarded and the task that sends them is stopped |
| `Scenarios.UsbBytesReachBleUnchanged` | main/usb_helpers.c:28-50 | NUL-free USB bytes reach the BLE peer exactly as received, with no terminator added (the task's stack limit is not modelled) |
| `Scenarios.BleLineReachesUsb` | main/ble_helpers.c:24-36 | with the device open, a NUL-terminated BLE line reaches it with "\n" appended, in one 1000 ms transfer |
| `Scenarios.BleLineAfterUnplugReachesNoDevice` | main/usb_helpers.c:66-69 | after the device is unplugged and closed, a BLE line is still handed to the CDC driver but reaches no device |
| `Scenarios.BlockedWaitAcrossDisconnect` | main/log_helpers.c:40-63 | a task blocked on the empty queue while connected takes a record published after the peer drops and sends it with no peer, leaving nothing queued |
| `Scenarios.LogWaitsForPeer` | main/log_helpers.c:40-63 | a leveled record stays queued while BLE is down and is sent as "# " + record once a peer connects |
| `Scenarios.ReconnectStartsOneWaiter` | main/usb_helpers.c:122-140 | after unplug and replug exactly one new waiter runs, and none is left once it connects |

## Left out

- FreeRTOS task creation, deletion, priorities, stack sizes and `vTaskDelay` polling are not modelled. Each task body is one step method, and a blocking receive on an empty buffer is a step that changes nothing, except in `LogHelpers.Log.ProcessingStep`, which records that the task is now blocked on the queue (`waiting`).
- Real time and timeouts are not modelled. Within one call no consumer frees space, so the 1000 ms wait of `xRingbufferSend` fails exactly when the frame does not fit.
- The ring buffer's per-item headers, alignment and NOSPLIT maximum item size belong to FreeRTOS. The capacity is the sum of frame lengths.
- `vsnprintf` formatting, the `LOG_TO_STDOUT` branch and every `ESP_LOGx` call are not modelled. `LogToQueue` takes the already formatted text.
- Concurrency and interleaving between tasks and callbacks are not modelled. The models give each queue's order, not any order across queues.
- The NULL-handle branches of the two tasks (`if (ble_tx_buf_handle)`, `if (nordic_uart_rx_buf_handle)`) and a failed `xRingbufferCreate` are not modelled. Both ring buffers are assumed to exist.
- `BleHelpers.Ble.BleToUsbStep` does not model what the CDC driver does with a NULL `cdc_dev` (before any open succeeded) or a closed one (after an unplug, `cdc_dev` is never reset). The transfer is recorded as reaching no device.
- `BleHelpers.Ble.TxStep`: `"%.*s"` with precision `item_size + 1` may read one byte past an item with no NUL in its `item_size` bytes, as frames from `handle_usb_rx` usually are. The output is cut to `item_size` characters anyway, so the model reads only the frame's own bytes and does not model that over-read. Nor does it model that `mbuf[item_size + 1]` is a variable-length array on the 5000-byte stack of `_tx_queue_processing_task`: a USB frame of a few kilobytes (the CDC input buffer holds 32768 bytes) overflows that stack, so the model's claim that any frame up to 67584 bytes reaches the peer unchanged holds only for frames that fit the task's stack.
- `usb_tx` is a one-line wrapper. `BleToUsbStep` calls the CDC transfer it wraps directly, because the two source files include each other.
- `BleHelpers.Ble.EventCallback`: a second CONNECTED without a DISCONNECTED starts two more tasks and loses the first handles in the source. Boolean handles cannot show the extra tasks.
- `BleHelpers.Ble.EventCallback` requires live task handles on DISCONNECTED. With a NULL or stale handle, `vTaskDelete` deletes the caller or is undefined, so disconnect is not claimed idempotent.
- `BleHelpers.Ble.BleToUsbStep` requires a received item that is NUL-terminated and fits the line buffer with the added newline. Otherwise `strcpy`, `strcat` or `usb_tx` go past the item or the buffer.
- `UsbHelpers.Usb.WaitForAnimaConnect` sees the open results as a finite sequence. When none is ESP_OK the waiter is reported as still retrying. Its 500 ms polling while the flag is set is modelled as making no attempt.
- `usb_host_lib_handle_events` is modelled only through its NO_CLIENTS and ALL_FREE flags. The abort of `ESP_ERROR_CHECK` on a failed `usb_host_device_free_all` is not modelled.
- The commented-out chunking code in `handle_usb_rx` is not modelled.
- The init sequences (`init_usb`, `init_ble`, `init_logging`, `app_main`) are not modelled. The constructors give the state they leave.
- The NimBLE and USB host stacks are not modelled. They are records of the calls the firmware makes on them.
