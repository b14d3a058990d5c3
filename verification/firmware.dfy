/**
 * The firmware's global state and the routines of main.c that change it, as one
 * `Device` object. The USB driver's calls into the firmware (`usbFunctionSetup` on a
 * control request, `usbEventResetReady` on a bus reset) are methods a caller may run
 * between two iterations of the main loop, as `usbPoll` does.
 */
module Firmware {
  import opened Bytes
  import opened Keys
  import opened Reports
  import opened Setup
  import Calibration
  import MainLoop

  class Device {
    /** `reportBuffer`: the 2-byte input report handed to the driver. */
    const reportBuffer: array<Byte>
    /** `idleRate`, in 4 ms units; 0 means "send only on change". */
    var idleRate: Byte
    /** Where the driver's `usbMsgPtr` points for a control reply. */
    var msgPtr: MsgPtr
    /** Whether the LED on PB0 is lit (driven low). */
    var ledOn: bool
    /** The oscillator trim register OSCCAL. */
    var osccal: Byte
    /** EEPROM byte 0, the persisted trim. */
    var eeprom0: Byte
    /** The main loop's locals `lastKey`, `keyDidChange` and `idleCounter`. */
    var lastKey: Byte
    var keyDidChange: bool
    var idleCounter: Byte

    ghost predicate Valid()
      reads this
    {
      reportBuffer.Length == ReportSize && lastKey <= NumKeys
    }

    /** The main loop's variables as a value. */
    function Loop(): MainLoop.LoopState
      reads this
    {
      MainLoop.LoopState(lastKey, keyDidChange, idleCounter)
    }

    /**
     * Power-up: the zeroed statics, `main`'s initialised locals, and `hardwareInit`, which
     * loads OSCCAL from EEPROM byte 0 unless that holds the 0xff sentinel and lights the LED.
     */
    constructor (storedTrim: Byte, factoryTrim: Byte)
      ensures Valid() && fresh(reportBuffer)
      ensures reportBuffer[..] == [0, 0] && idleRate == 0 && msgPtr == ReportBufferPtr
      ensures osccal == Calibration.InitialTrim(storedTrim, factoryTrim) && eeprom0 == storedTrim
      ensures ledOn && Loop() == MainLoop.LoopState(0, false, 0)
    {
      var buffer := new Byte[ReportSize](_ => 0);
      assert buffer[..] == [0, 0];
      reportBuffer := buffer;
      idleRate := 0;
      msgPtr := ReportBufferPtr;
      lastKey, keyDidChange, idleCounter := 0, false, 0;
      eeprom0 := storedTrim;
      osccal := factoryTrim;
      if storedTrim != Calibration.Unprogrammed {
        osccal := storedTrim;
      }
      ledOn := true;
    }

    /** `keyPressed`: samples the pin byte, lights the LED for any key and returns its index. */
    method KeyPressed(pin: Byte) returns (key: Byte)
      modifies this`ledOn
      ensures key == KeyDecision(pin).key && ledOn == KeyDecision(pin).ledOn
      ensures key <= NumKeys && (ledOn <==> key != 0)
    {
      if AnySet(pin, Button1Mask) {
        ledOn := true;
        return 1;
      }
      if AnySet(pin, Button2Mask) {
        ledOn := true;
        return 2;
      }
      ledOn := false;
      return 0;
    }

    /** `buildReport`: copies row `key` of `keyReport` into `reportBuffer`, whatever it held. */
    method BuildReport(key: Byte)
      requires Valid() && key <= NumKeys
      modifies reportBuffer
      ensures reportBuffer[..] == KeyReportRow(key)
      ensures ReportKey(reportBuffer[..]) == key
    {
      var row := KeyReportRow(key);
      reportBuffer[0] := row[0];
      reportBuffer[1] := row[1];
      assert reportBuffer[..] == row;
      ReportRoundTrip(key);
    }

    /**
     * `usbFunctionSetup`: answers Get_Report with a freshly sampled report, Get_Idle with
     * the idle rate, stores the Set_Idle rate, and offers no data for anything else.
     */
    method FunctionSetup(data: seq<Byte>, pin: Byte) returns (len: Byte)
      requires Valid() && |data| == SetupSize
      modifies this`idleRate, this`msgPtr, this`ledOn, reportBuffer
      ensures Valid()
      ensures var rq := Classify(data);
        Reply(len, msgPtr) == ReplyFor(rq) &&
        idleRate == (if rq.SetIdle? then rq.rate else old(idleRate)) &&
        reportBuffer[..] == (if rq == GetReport then KeyReportRow(KeyDecision(pin).key) else old(reportBuffer[..])) &&
        ledOn == (if rq == GetReport then KeyDecision(pin).ledOn else old(ledOn))
    {
      msgPtr := ReportBufferPtr;
      if IsClassRequest(data[0]) {
        if data[1] == HidGetReport {
          var key := KeyPressed(pin);
          BuildReport(key);
          return ReportSize as Byte;
        } else if data[1] == HidGetIdle {
          msgPtr := IdleRatePtr;
          return 1;
        } else if data[1] == HidSetIdle {
          idleRate := data[3];
        }
      }
      return 0;
    }

    /** `calibrateOscillator`: the binary search, then the neighbourhood search, leave OSCCAL trimmed. */
    method CalibrateOscillator(measure: Byte -> int, target: int)
      requires Calibration.BinarySearch(measure, target).trial <= 253
      modifies this`osccal
      ensures osccal == Calibration.CalibratedTrim(measure, target)
    {
      var trialValue, x := Calibration.BinarySearchTrim(measure, target);
      osccal := Calibration.NeighbourhoodSearch(measure, target, trialValue, x);
    }

    /** `usbEventResetReady`: calibrates on a bus reset and persists the trim in EEPROM byte 0. */
    method UsbEventResetReady(measure: Byte -> int, target: int)
      requires Calibration.BinarySearch(measure, target).trial <= 253
      modifies this`osccal, this`eeprom0
      ensures osccal == Calibration.CalibratedTrim(measure, target) && eeprom0 == osccal
      ensures forall factoryTrim: Byte :: Calibration.InitialTrim(eeprom0, factoryTrim) == osccal
    {
      CalibrateOscillator(measure, target);
      eeprom0 := osccal;
    }

    /**
     * One iteration of the main loop after `usbPoll`, given the pin byte, the timer
     * overflow flag and `usbInterruptIsReady()`.
     */
    method MainLoopStep(pin: Byte, overflow: bool, interruptReady: bool)
      requires Valid()
      modifies this`lastKey, this`keyDidChange, this`idleCounter, this`ledOn, reportBuffer
      ensures Valid()
      ensures var r := MainLoop.LoopStep(old(Loop()), KeyDecision(pin).key, idleRate, overflow, interruptReady);
        Loop() == r.state &&
        reportBuffer[..] == (if r.built then KeyReportRow(lastKey) else old(reportBuffer[..]))
      ensures ledOn == KeyDecision(pin).ledOn
    {
      var key := KeyPressed(pin);
      if lastKey != key {
        lastKey := key;
        keyDidChange := true;
      }
      if overflow {
        if idleRate != 0 {
          if idleCounter >= MainLoop.OverflowUnits {
            idleCounter := idleCounter - MainLoop.OverflowUnits;
          } else {
            idleCounter := idleRate;
            keyDidChange := true;
          }
        }
      }
      if keyDidChange && interruptReady {
        keyDidChange := false;
        BuildReport(lastKey);
      }
    }
  }
}
