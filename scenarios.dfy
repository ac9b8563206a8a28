/**
 * End-to-end runs of the bridge through the models of the three files:
 * each builds the firmware's state, drives events and task steps in one
 * order, and states what reached each peer.
 */
module Scenarios {
  import opened Wrappers
  import opened CStrings
  import opened Links
  import opened BleHelpers
  import opened LogHelpers
  import opened UsbHelpers

  /**
   * The BLE peer drops while three USB frames wait in the BLE-bound buffer:
   * afterwards the buffer is empty and the task that would send them is
   * stopped, so none of them is ever sent.
   */
  method DisconnectDiscardsQueuedFrames(lineLength: nat) returns (left: nat, txTaskRunning: bool)
    requires lineLength >= 3
    ensures left == 0 && !txTaskRunning
  {
    var ble := new Ble(lineLength);
    ble.EventCallback(Connected);
    var _ := HandleUsbRx(ble, "one");
    var _ := HandleUsbRx(ble, "two");
    var _ := HandleUsbRx(ble, "three");
    EnqueueAllInOrder([], ["one", "two", "three"]);
    assert ble.txFrames == ["one", "two", "three"];
    ble.EventCallback(Disconnected);
    left := |ble.txFrames|;
    txTaskRunning := ble.txTask;
  }

  /**
   * NUL-free bytes received from USB reach the BLE peer exactly as received: no
   * terminator is added on this path.
   */
  method UsbBytesReachBleUnchanged(data: seq<char>) returns (sent: Option<seq<char>>)
    requires NUL !in data && |data| <= TX_BUFFER_SIZE
    ensures sent == Some(data)
  {
    var ble := new Ble(3);
    var uart := new NordicUart();
    ble.EventCallback(Connected);
    var _ := HandleUsbRx(ble, data);
    assert ble.txFrames == [data];
    sent := ble.TxStep(uart);
    UpToNulOfPlain(data);
  }

  /**
   * With the USB device open, a NUL-terminated line written by the BLE peer
   * reaches the device with "\n" appended, within a 1000 ms transfer.
   */
  method BleLineReachesUsb(line: seq<char>, lineLength: nat) returns (written: seq<Transfer>)
    requires lineLength >= 3 && NUL !in line && |line| + 1 <= lineLength
    ensures written == [Transfer(line + ['\n'], USB_TX_TIMEOUT_MS, true)]
  {
    var usb := new Usb();
    var cdc := new CdcHost();
    var _, _ := usb.WaitForAnimaConnect(cdc, [ESP_OK]);
    var ble := new Ble(lineLength);
    var uart := new NordicUart();
    ble.EventCallback(Connected);
    uart.Deliver(line + [NUL]);
    UpToNulOfTerminated(line, []);
    assert line + [NUL] + [] == line + [NUL];
    assert (line + [NUL])[|line|] == NUL;
    ghost var buf := ble.lineBuf[..];
    var _ := ble.BleToUsbStep(uart, cdc);
    TerminatedLineForwarded(line, buf);
    written := cdc.written;
  }

  /**
   * After the USB device is unplugged `cdc_dev` still names the closed
   * device: a BLE line is still handed to the CDC driver, but reaches no
   * device.
   */
  method BleLineAfterUnplugReachesNoDevice(line: seq<char>, lineLength: nat) returns (written: seq<Transfer>)
    requires lineLength >= 3 && NUL !in line && |line| + 1 <= lineLength
    ensures written == [Transfer(line + ['\n'], USB_TX_TIMEOUT_MS, false)]
  {
    var usb := new Usb();
    var cdc := new CdcHost();
    var _, _ := usb.WaitForAnimaConnect(cdc, [ESP_OK]);
    usb.HandleUsbEvent(cdc, DeviceDisconnected);
    var ble := new Ble(lineLength);
    var uart := new NordicUart();
    ble.EventCallback(Connected);
    uart.Deliver(line + [NUL]);
    UpToNulOfTerminated(line, []);
    assert line + [NUL] + [] == line + [NUL];
    assert (line + [NUL])[|line|] == NUL;
    ghost var buf := ble.lineBuf[..];
    var _ := ble.BleToUsbStep(uart, cdc);
    TerminatedLineForwarded(line, buf);
    written := cdc.written;
  }

  /**
   * A leveled log record published while no BLE peer is connected stays
   * queued; once a peer connects it is sent with the "# " marker in front.
   */
  method LogWaitsForPeer(rec: seq<char>, lineLength: nat) returns (whileDown: Option<seq<char>>, afterUp: Option<seq<char>>)
    requires HasLevelCode(rec) && NUL !in rec
    requires |rec| <= BODY_PRECISION && |rec| + |PREFIX| < lineLength
    ensures whileDown == None
    ensures afterUp == Some(PREFIX + rec)
  {
    var log := new Log(4, lineLength);
    var ble := new Ble(lineLength);
    var uart := new NordicUart();
    assert StoredRecord(rec, lineLength) == rec;
    var _ := log.LogToQueue(rec);
    assert log.queue == [rec];
    whileDown := log.ProcessingStep(ble, uart);
    ble.EventCallback(Connected);
    afterUp := log.ProcessingStep(ble, uart);
  }

  /**
   * The log task finds a peer and an empty queue and blocks on the queue;
   * the peer then drops and a record is published. The blocked task takes
   * the record anyway and hands its line to `nordic_uart_send` with no peer
   * connected, so the record is not kept for the next connection.
   */
  method BlockedWaitAcrossDisconnect(rec: seq<char>, lineLength: nat)
    returns (whileUp: Option<seq<char>>, afterDrop: Option<seq<char>>, left: nat, peer: bool)
    requires HasLevelCode(rec) && NUL !in rec
    requires |rec| <= BODY_PRECISION && |rec| + |PREFIX| < lineLength
    ensures whileUp == None
    ensures afterDrop == Some(PREFIX + rec) && left == 0 && !peer
  {
    assert StoredRecord(rec, lineLength) == rec;
    var log := new Log(4, lineLength);
    var ble := new Ble(lineLength);
    var uart := new NordicUart();
    ble.EventCallback(Connected);
    whileUp := log.ProcessingStep(ble, uart);
    assert log.waiting && log.queue == [];
    ble.EventCallback(Disconnected);
    var _ := log.LogToQueue(rec);
    assert log.queue == [rec];
    afterDrop := log.ProcessingStep(ble, uart);
    left := |log.queue|;
    peer := ble.IsConnected();
  }

  /**
   * The USB device is unplugged and plugged in again: the first waiter has
   * ended, the freed devices start exactly one new waiter, and after it
   * connects no waiter is left.
   */
  method ReconnectStartsOneWaiter() returns (afterUnplug: nat, afterReconnect: nat, connected: bool)
    ensures afterUnplug == 1 && afterReconnect == 0 && connected
  {
    var usb := new Usb();
    var cdc := new CdcHost();
    var _, _ := usb.WaitForAnimaConnect(cdc, [1, ESP_OK]);
    usb.HandleUsbEvent(cdc, DeviceDisconnected);
    usb.LibTaskStep(cdc, LibEventFlags(true, true));
    afterUnplug := usb.waiters;
    var _, _ := usb.WaitForAnimaConnect(cdc, [ESP_OK]);
    afterReconnect := usb.waiters;
    connected := usb.IsConnected();
  }
}
