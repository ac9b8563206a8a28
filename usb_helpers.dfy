/**
 * usb_helpers.c: the USB side. Bytes received from the CDC-ACM device go to
 * the BLE-bound buffer as one frame; a connect waiter opens the device and
 * sets its line coding; the USB host library task clears the connected flag
 * and starts a new waiter when all devices have been freed.
 *
 * The globals `_usb_connected` and the number of running
 * `wait_for_anima_connect` tasks are the fields of class `Usb`; `cdc_dev`
 * and the drivers behind it are the `CdcHost` record.
 */
module UsbHelpers {
  import opened Wrappers
  import opened Links
  import BleHelpers

  /** `ESP_OK` */
  const ESP_OK: int := 0

  /** The serial settings of usb_helpers.h. */
  const ANIMA_USB_BAUDRATE: nat := 115200
  const ANIMA_USB_STOP_BITS: nat := 0
  const ANIMA_USB_PARITY: nat := 0
  const ANIMA_USB_DATA_BITS: nat := 8

  /** The line coding the waiter sets: 115200 baud, one stop bit, no parity, 8 data bits. */
  const ANIMA_LINE_CODING: LineCoding :=
    LineCoding(ANIMA_USB_BAUDRATE, ANIMA_USB_STOP_BITS, ANIMA_USB_PARITY, ANIMA_USB_DATA_BITS)

  /** `dev_config` of `wait_for_anima_connect`. */
  const ANIMA_DEVICE_CONFIG: DeviceConfig := DeviceConfig(1000, 1024, 32768)

  /** The event types `handle_usb_event` switches on. */
  datatype CdcEvent =
    | HostError(errNo: int)
    | DeviceDisconnected
    | SerialState(val: int)
    | NetworkConnection
    | OtherCdcEvent(code: int)

  /** The two flags of `usb_host_lib_handle_events` that `usb_lib_task` tests. */
  datatype LibEventFlags = LibEventFlags(noClients: bool, allFree: bool)

  /**
   * The index of the first `ESP_OK` among successive `cdc_acm_host_open`
   * results, or their number when none succeeded.
   */
  function FirstOk(results: seq<int>): (k: nat)
    ensures k <= |results|
    ensures k < |results| ==> results[k] == ESP_OK
    ensures forall j :: 0 <= j < k ==> results[j] != ESP_OK
  {
    if results == [] || results[0] == ESP_OK then 0
    else 1 + FirstOk(results[1..])
  }

  /**
   * `handle_usb_rx`: the `data_len` received bytes go to `ble_tx` as a
   * single frame, and the data is reported as processed.
   */
  method HandleUsbRx(ble: BleHelpers.Ble, data: seq<char>) returns (processed: bool)
    requires ble.Valid()
    modifies ble`txFrames
    ensures ble.Valid()
    ensures processed
    ensures ble.txFrames == BleHelpers.Enqueue(old(ble.txFrames), data)
  {
    var _ := ble.BleTx(data);
    processed := true;
  }

  /** The state usb_helpers.c keeps in globals. */
  class Usb {
    /** `_usb_connected` */
    var connected: bool
    /** how many `wait_for_anima_connect` tasks are running */
    var waiters: nat

    /** State after `init_usb`: not connected, one waiter started. */
    constructor ()
      ensures !connected && waiters == 1
    {
      connected := false;
      waiters := 1;
    }

    /**
     * `handle_usb_event`: a device disconnect closes the device and nothing
     * else; an error, a serial-state notification or any other event is
     * only logged. The connected flag is never touched here.
     */
    method HandleUsbEvent(cdc: CdcHost, event: CdcEvent)
      modifies cdc`devOpen
      ensures connected == old(connected) && waiters == old(waiters)
      ensures event == DeviceDisconnected ==> !cdc.devOpen
      ensures event != DeviceDisconnected ==> unchanged(cdc)
    {
      match event
      case DeviceDisconnected =>
        cdc.Close();
      case _ =>
    }

    /**
     * `wait_for_anima_connect`, given the results the driver returns to
     * successive `cdc_acm_host_open` calls. While the flag is set the waiter
     * only polls. Otherwise it opens until one open returns `ESP_OK`, then
     * sets the line coding, asserts DTR without RTS, sets the flag and ends;
     * if no result in `results` is `ESP_OK` it is still retrying.
     */
    method WaitForAnimaConnect(cdc: CdcHost, results: seq<int>) returns (attempts: nat, done: bool)
      requires waiters > 0
      modifies this, cdc`devOpen, cdc`openCalls, cdc`config, cdc`lineCoding, cdc`dtr, cdc`rts
      ensures old(connected) ==> !done && attempts == 0 && unchanged(this) && unchanged(cdc)
      ensures !old(connected) ==> done == (FirstOk(results) < |results|)
      ensures !old(connected) ==> attempts == if done then FirstOk(results) + 1 else |results|
      ensures !old(connected) && results != [] ==> attempts >= 1
      ensures cdc.openCalls == old(cdc.openCalls) + attempts
      ensures done ==>
        && connected && waiters == old(waiters) - 1
        && cdc.devOpen && cdc.config == Some(ANIMA_DEVICE_CONFIG)
        && cdc.lineCoding == Some(ANIMA_LINE_CODING) && cdc.dtr && !cdc.rts
      ensures !done ==>
        && connected == old(connected) && waiters == old(waiters)
        && cdc.lineCoding == old(cdc.lineCoding) && cdc.dtr == old(cdc.dtr) && cdc.rts == old(cdc.rts)
    {
      attempts, done := 0, false;
      if connected {
        return;
      }
      var err := 1;
      while err != ESP_OK && attempts < |results|
        invariant attempts <= |results|
        invariant err == ESP_OK ==> attempts > 0 && results[attempts - 1] == ESP_OK
        invariant forall j :: 0 <= j < attempts && (j < attempts - 1 || err != ESP_OK) ==> results[j] != ESP_OK
        invariant attempts > 0 ==> cdc.devOpen == (err == ESP_OK) && cdc.config == Some(ANIMA_DEVICE_CONFIG)
        invariant cdc.openCalls == old(cdc.openCalls) + attempts
        invariant cdc.lineCoding == old(cdc.lineCoding) && cdc.dtr == old(cdc.dtr) && cdc.rts == old(cdc.rts)
        invariant connected == old(connected) && waiters == old(waiters)
        decreases |results| - attempts
      {
        err := cdc.Open(ANIMA_DEVICE_CONFIG, results[attempts]);
        attempts := attempts + 1;
      }
      if err != ESP_OK {
        return;
      }
      cdc.SetLineCoding(ANIMA_LINE_CODING);
      cdc.SetControlLineState(true, false);
      connected := true;
      // The task ends; a new one is started on the next disconnect.
      waiters := waiters - 1;
      done := true;
    }

    /**
     * One pass of `usb_lib_task`: with no clients left every device is
     * freed; once all are freed the flag is cleared and exactly one new
     * connect waiter is started.
     */
    method LibTaskStep(cdc: CdcHost, flags: LibEventFlags)
      modifies this, cdc`freeAllCalls
      ensures flags.noClients ==> cdc.freeAllCalls == old(cdc.freeAllCalls) + 1
      ensures !flags.noClients ==> cdc.freeAllCalls == old(cdc.freeAllCalls)
      ensures flags.allFree ==> !connected && waiters == old(waiters) + 1
      ensures !flags.allFree ==> connected == old(connected) && waiters == old(waiters)
    {
      if flags.noClients {
        cdc.FreeAll();
      }
      if flags.allFree {
        connected := false;
        waiters := waiters + 1;
      }
    }

    /** `usb_is_connected`. */
    method IsConnected() returns (c: bool)
      ensures c == connected
    {
      c := connected;
    }
  }
}
