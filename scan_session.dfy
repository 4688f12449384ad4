/** `cmd_lescan` as a sequence of HCI commands.  Opening the device,
    setting the scan parameters, enabling the scan, running the capture,
    disabling the scan and closing the device are calls into the Bluetooth
    library, represented here only by whether each succeeded; the model
    records which commands are issued, with which arguments, and the exit
    status.  Every failure exits with status 1 at once. */
module ScanSession {
  import opened Bytes

  const LE_PUBLIC_ADDRESS: uint8 := 0x00
  /** Scan type 0x00: passive scanning (no scan requests are sent). */
  const PASSIVE_SCAN: uint8 := 0x00
  const SCAN_INTERVAL: nat := 0x0010
  const SCAN_WINDOW: nat := 0x0010
  const FILTER_POLICY: uint8 := 0x00
  const FILTER_DUP: uint8 := 0x00
  /** Command timeout in milliseconds. */
  const TIMEOUT: nat := 10000

  datatype Command =
    | OpenDevice
    | SetScanParameters(scanType: uint8, interval: nat, window: nat, ownType: uint8, filterPolicy: uint8, timeout: nat)
    | SetScanEnable(enable: uint8, filterDup: uint8, timeout: nat)
    | Capture
    | CloseDevice

  /** The outcome of each library call, in the order they are made: the
      capture by the value `print_advertising_devices` returns. */
  datatype Outcomes = Outcomes(openOk: bool, parametersOk: bool, enableOk: bool, capture: int, disableOk: bool)

  /** The commands issued and the process exit status. */
  datatype Session = Session(commands: seq<Command>, exitStatus: nat)

  /** Whether the last command that touched scanning left it enabled. */
  predicate ScanLeftOn(cmds: seq<Command>) {
    exists i :: 0 <= i < |cmds| && cmds[i] == SetScanEnable(0x01, FILTER_DUP, TIMEOUT) &&
      forall j :: i < j < |cmds| ==> !cmds[j].SetScanEnable?
  }

  function Lescan(o: Outcomes): (s: Session)
    ensures s.exitStatus == 0 <==> o.openOk && o.parametersOk && o.enableOk && o.capture >= 0 && o.disableOk
    ensures s.exitStatus <= 1 && 1 <= |s.commands| <= 6 && s.commands[0] == OpenDevice
    ensures s.exitStatus == 0 ==> s.commands[|s.commands| - 1] == CloseDevice
  {
    var parameters := SetScanParameters(PASSIVE_SCAN, SCAN_INTERVAL, SCAN_WINDOW, LE_PUBLIC_ADDRESS, FILTER_POLICY, TIMEOUT);
    var enable := SetScanEnable(0x01, FILTER_DUP, TIMEOUT);
    var disable := SetScanEnable(0x00, FILTER_DUP, TIMEOUT);
    if !o.openOk then Session([OpenDevice], 1)
    else if !o.parametersOk then Session([OpenDevice, parameters], 1)
    else if !o.enableOk then Session([OpenDevice, parameters, enable], 1)
    else if o.capture < 0 then Session([OpenDevice, parameters, enable, Capture], 1)
    else if !o.disableOk then Session([OpenDevice, parameters, enable, Capture, disable], 1)
    else Session([OpenDevice, parameters, enable, Capture, disable, CloseDevice], 0)
  }

  /** The scan is set up passive, 10 ms interval and window (16 units of
      0.625 ms), public own address, no accept-list filtering, duplicates
      reported, and is enabled before the capture. */
  lemma PassiveSetup(o: Outcomes)
    requires o.openOk && o.parametersOk && o.enableOk
    ensures var cmds := Lescan(o).commands;
      |cmds| >= 4 && cmds[1].SetScanParameters? && cmds[1].scanType == PASSIVE_SCAN &&
      cmds[1].interval == 16 && cmds[1].window == 16 && cmds[1].ownType == LE_PUBLIC_ADDRESS &&
      cmds[1].filterPolicy == FILTER_POLICY && cmds[1].timeout == TIMEOUT &&
      cmds[2] == SetScanEnable(0x01, 0x00, 10000) &&
      cmds[3] == Capture
  {
  }

  /** A capture that fails exits with status 1 without the command that
      disables scanning: the controller is left scanning. */
  lemma CaptureFailureLeavesScanOn(o: Outcomes)
    requires o.openOk && o.parametersOk && o.enableOk && o.capture < 0
    ensures Lescan(o).exitStatus == 1
    ensures ScanLeftOn(Lescan(o).commands)
    ensures forall i :: 0 <= i < |Lescan(o).commands| ==> Lescan(o).commands[i] != SetScanEnable(0x00, FILTER_DUP, TIMEOUT)
  {
    var cmds := Lescan(o).commands;
    assert cmds[2] == SetScanEnable(0x01, FILTER_DUP, TIMEOUT);
  }

  /** Every session that exits normally disables scanning before closing. */
  lemma CleanExitDisables(o: Outcomes)
    requires Lescan(o).exitStatus == 0
    ensures !ScanLeftOn(Lescan(o).commands)
    ensures Lescan(o).commands[|Lescan(o).commands| - 2] == SetScanEnable(0x00, FILTER_DUP, TIMEOUT)
  {
  }
}
