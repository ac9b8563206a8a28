/**
 * The foreign stacks the firmware talks to, reduced to what it hands them and
 * what they hand back. Neither the NimBLE Nordic UART service nor the ESP-IDF
 * USB host and CDC-ACM drivers is modelled; each is a record of the calls made
 * on it, so that the firmware's steps can say exactly what they sent.
 */
module Links {
  import opened Wrappers

  /**
   * One blocking CDC-ACM transfer: the bytes handed over, the timeout given,
   * and whether `cdc_dev` was an open device at the time. A transfer on the
   * NULL handle (before any open succeeded) or on a closed one reaches no
   * device.
   */
  datatype Transfer = Transfer(bytes: seq<char>, timeoutMs: nat, toDevice: bool)

  /** `cdc_acm_line_coding_t`: baud rate, stop-bit code, parity code, data bits. */
  datatype LineCoding = LineCoding(baudRate: nat, stopBits: nat, parity: nat, dataBits: nat)

  /** The fields of `cdc_acm_host_device_config_t` that the firmware sets to numbers. */
  datatype DeviceConfig = DeviceConfig(connectionTimeoutMs: nat, outBufferSize: nat, inBufferSize: nat)

  /**
   * The Nordic UART service: the lines given to `nordic_uart_send`, and the
   * items its receive path has put into `nordic_uart_rx_buf_handle` and that
   * nobody has taken out yet.
   */
  class NordicUart {
    var sent: seq<seq<char>>
    var rxItems: seq<seq<char>>

    constructor ()
      ensures sent == [] && rxItems == []
    {
      sent := [];
      rxItems := [];
    }

    /**
     * `nordic_uart_send`: the line is handed to the Nordic UART service,
     * whether or not a peer is connected.
     */
    method Send(line: seq<char>)
      modifies this`sent
      ensures sent == old(sent) + [line]
      ensures rxItems == old(rxItems)
    {
      sent := sent + [line];
    }

    /** The BLE stack's receive path storing one written item. */
    method Deliver(item: seq<char>)
      modifies this`rxItems
      ensures rxItems == old(rxItems) + [item]
      ensures sent == old(sent)
    {
      rxItems := rxItems + [item];
    }

    /**
     * `xRingbufferReceive` on the receive ring buffer followed by
     * `vRingbufferReturnItem`: the oldest item, or nothing when it is empty.
     */
    method Receive() returns (item: Option<seq<char>>)
      modifies this`rxItems
      ensures old(rxItems) == [] ==> item == None && rxItems == []
      ensures old(rxItems) != [] ==> item == Some(old(rxItems)[0]) && rxItems == old(rxItems)[1..]
      ensures sent == old(sent)
    {
      if rxItems == [] {
        item := None;
      } else {
        item := Some(rxItems[0]);
        rxItems := rxItems[1..];
      }
    }
  }

  /**
   * The USB host library and the CDC-ACM host driver, seen from the firmware:
   * whether `cdc_dev` is open, how it was configured, and what was written.
   */
  class CdcHost {
    var devOpen: bool
    var openCalls: nat
    var config: Option<DeviceConfig>
    var lineCoding: Option<LineCoding>
    var dtr: bool
    var rts: bool
    var written: seq<Transfer>
    var freeAllCalls: nat

    constructor ()
      ensures !devOpen && openCalls == 0 && config == None && lineCoding == None
      ensures !dtr && !rts && written == [] && freeAllCalls == 0
    {
      devOpen, openCalls, config, lineCoding := false, 0, None, None;
      dtr, rts, written, freeAllCalls := false, false, [], 0;
    }

    /**
     * `cdc_acm_host_open` for any vendor and product id. Whether a device
     * answers is the environment's choice, given as `result` (0 is ESP_OK).
     */
    method Open(cfg: DeviceConfig, result: int) returns (err: int)
      modifies this`devOpen, this`openCalls, this`config
      ensures err == result
      ensures devOpen == (result == 0) && openCalls == old(openCalls) + 1 && config == Some(cfg)
      ensures lineCoding == old(lineCoding) && dtr == old(dtr) && rts == old(rts)
      ensures written == old(written) && freeAllCalls == old(freeAllCalls)
    {
      err := result;
      devOpen := result == 0;
      openCalls := openCalls + 1;
      config := Some(cfg);
    }

    /** `cdc_acm_host_close`. */
    method Close()
      modifies this`devOpen
      ensures !devOpen
      ensures openCalls == old(openCalls) && config == old(config) && lineCoding == old(lineCoding)
      ensures dtr == old(dtr) && rts == old(rts) && written == old(written) && freeAllCalls == old(freeAllCalls)
    {
      devOpen := false;
    }

    /** `cdc_acm_host_line_coding_set`. */
    method SetLineCoding(coding: LineCoding)
      modifies this`lineCoding
      ensures lineCoding == Some(coding)
      ensures devOpen == old(devOpen) && openCalls == old(openCalls) && config == old(config)
      ensures dtr == old(dtr) && rts == old(rts) && written == old(written) && freeAllCalls == old(freeAllCalls)
    {
      lineCoding := Some(coding);
    }

    /** `cdc_acm_host_set_control_line_state`. */
    method SetControlLineState(newDtr: bool, newRts: bool)
      modifies this`dtr, this`rts
      ensures dtr == newDtr && rts == newRts
      ensures devOpen == old(devOpen) && openCalls == old(openCalls) && config == old(config)
      ensures lineCoding == old(lineCoding) && written == old(written) && freeAllCalls == old(freeAllCalls)
    {
      dtr, rts := newDtr, newRts;
    }

    /**
     * `cdc_acm_host_data_tx_blocking` on `cdc_dev`; its error code is ignored
     * by every caller. The bytes reach a device only while one is open.
     */
    method DataTxBlocking(bytes: seq<char>, timeoutMs: nat)
      modifies this`written
      ensures written == old(written) + [Transfer(bytes, timeoutMs, devOpen)]
      ensures devOpen == old(devOpen) && openCalls == old(openCalls) && config == old(config)
      ensures lineCoding == old(lineCoding) && dtr == old(dtr) && rts == old(rts)
      ensures freeAllCalls == old(freeAllCalls)
    {
      written := written + [Transfer(bytes, timeoutMs, devOpen)];
    }

    /** `usb_host_device_free_all`. */
    method FreeAll()
      modifies this`freeAllCalls
      ensures freeAllCalls == old(freeAllCalls) + 1
      ensures devOpen == old(devOpen) && openCalls == old(openCalls) && config == old(config)
      ensures lineCoding == old(lineCoding) && dtr == old(dtr) && rts == old(rts) && written == old(written)
    {
      freeAllCalls := freeAllCalls + 1;
    }
  }
}
