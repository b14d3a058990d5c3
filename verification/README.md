# tasta: a model of the ATtiny85 two-button USB keyboard firmware

This project models the application logic of `source/main.c`. That file is the firmware
of a two-button USB keyboard on an ATtiny85. It runs the V-USB software USB driver, which
is not part of this model. The model covers five parts:

- **Key sampling** (`keyPressed`) turns the PINB byte into a key index. Button 1 (PB4)
  wins over button 2 (PB3). The LED is lit whenever a key is reported.
- **Report building** (`keyReport`, `buildReport`) copies one 2-byte row of the key
  table into the global `reportBuffer`. The row is a modifier byte (left or right GUI)
  followed by a keycode byte that is always 0.
- **The HID class-request handler** (`usbFunctionSetup`) answers Get_Report, Get_Idle
  and Set_Idle (section 7.2 of the USB Device Class Definition for HID 1.11).
- **Oscillator calibration** (`calibrateOscillator`, `usbEventResetReady` and the
  EEPROM check in `hardwareInit`). An 8-trial binary search over OSCCAL is followed by a
  search of its two neighbours for the least deviation. The result is stored in EEPROM
  byte 0, which start-up reloads unless it holds the sentinel 0xff.
- **One iteration of the main loop.** It handles change detection, the idle-rate
  countdown (3 units of 4 ms per timer overflow) and the handoff of a pending report.

Modules:

| module | file | contents |
|---|---|---|
| `Bytes` | `bytes.dfy` | the 8-bit `Byte` type, explicit wrap-around, bit tests |
| `Keys` | `keys.dfy` | the `keyPressed` decision |
| `Reports` | `reports.dfy` | the `keyReport` table and the key index a host reads back |
| `Setup` | `setup.dfy` | SETUP packet decoding and the reply to each request |
| `Calibration` | `calibration.dfy` | binary and neighbourhood search, EEPROM sentinel |
| `MainLoop` | `mainloop.dfy` | one loop iteration as a function, and the idle-timer period |
| `Firmware` | `firmware.dfy` | class `Device`: the firmware's globals and the routines that change them |

The pure decisions are functions. The state changes are methods of `Device`, and each
method's contract ties the new state to those functions:

- `keyPressed` sets the LED.
- `buildReport` writes into the buffer array.
- `usbFunctionSetup` sets `idleRate` and `usbMsgPtr`.
- Calibration writes OSCCAL and EEPROM byte 0.
- The main loop updates `lastKey`, `keyDidChange` and `idleCounter`.

Calibration's two loops are methods with loop invariants, proved against the
specification functions `BinarySearch` and `Neighbourhood`.

The USB frame-length measurement is the parameter `measure`. It gives the frame length
the driver would report while OSCCAL holds a given trim. The calibration target is the
integer parameter `target`, which is 2356 at 16.5 MHz.

## Notes on main.c

- The input report is 2 bytes: a modifier byte and a keycode byte. Get_Report returns those 2 bytes.
- There is no error-rollover report.
- The key table maps key 1 to the left GUI modifier and key 2 to the right GUI modifier, with keycode 0 in both rows.
- `keyPressed` counts a button as pressed when its pin bit reads high. It returns the index of the first such button, with button 1 (PB4) ahead of button 2 (PB3).
- Calibration is one 8-step binary search over the whole OSCCAL range 0..255, followed by a search of the result's two neighbours.
- With idle rate N > 0 and 3 units credited per timer overflow, a forced send comes every N / 3 + 1 overflows (integer division).

## Model

| member | source | states |
|---|---|---|
| `Keys.KeyDecision` | source/main.c:98-112 | result 1 iff the PB4 bit is set, whatever PB3 is; 2 iff PB4 is clear and PB3 set; 0 iff both are clear; the index is at most NUM_KEYS = 2; the LED is on iff the index is nonzero |
| `Keys.OnlyButtonBitsMatter` | source/main.c:40-50 | two pin bytes that agree on PB3 and PB4 give the same key and LED state |
| `Firmware.Device.KeyPressed` | source/main.c:98-112 | returns the key of `KeyDecision` and leaves the LED as it says, changing nothing else |
| `Reports.KeyReportRow` | source/main.c:213-217 | every row has 2 bytes and keycode 0; the modifier is 0 only for key 0, MOD_GUI_LEFT (8) for key 1, MOD_GUI_RIGHT (128) for key 2 |
| `Reports.ReportRoundTrip` | source/main.c:213-217 | a host reading a report recovers the key index it was built from |
| `Reports.ReportsDistinct` | source/main.c:213-217 | distinct key indices give distinct reports |
| `Reports.SampledReportMatchesLed` | source/main.c:98-112 | a sampled key yields a report with a modifier exactly when the LED is lit; a one-step consequence of the contracts of `KeyDecision` and `KeyReportRow`, kept as a readable statement of the rule |
| `Firmware.Device.BuildReport` | source/main.c:219-223 | `reportBuffer` becomes row `key` of the table whatever it held before, so the same key always gives the same buffer; only the buffer changes |
| `Setup.Classify` | source/main.c:230-247 | a class-type request (bits 6..5 of bmRequestType = 01) with bRequest GET_REPORT, GET_IDLE or SET_IDLE is that request, the Set_Idle rate being the high byte of wValue; every other request is unsupported |
| `Setup.ClassifyRoundTrip` | source/main.c:230-247 | the SETUP packet a host sends for each request decodes back to that request |
| `Setup.ReplyFor` | source/main.c:229-252 | data is offered only for Get_Report and Get_Idle, and then it is the whole object `usbMsgPtr` points at (2-byte report, 1-byte idle rate); the pointer is on the idle rate only for Get_Idle |
| `Firmware.Device.FunctionSetup` | source/main.c:225-253 | returns the length and leaves the pointer as `ReplyFor` says; Get_Report rebuilds the report from a fresh sample and sets the LED; Set_Idle stores the high byte of wValue in `idleRate`; every other request leaves `idleRate`, the buffer and the LED as they were |
| `Calibration.BinarySearchTrim` | source/main.c:272-287 | the do-while loop ends with trialValue and x of `BinarySearch`; for a monotone measurement trialValue is the largest trim in 1..255 that measures below target, or 0 if there is none |
| `Calibration.NextTrial` | source/main.c:279-284 | one trial of the search; `InvariantStep` and `ProbeMoves` state what it keeps and how the tried trim moves |
| `Calibration.SearchFrom` | source/main.c:277-287 | the do-while from a given trialValue and step; specified by `SearchFindsLargest`, `ProbeCount`, `ProbeMoves` and `LastProbeDecides` |
| `Calibration.BinarySearch` | source/main.c:272-287 | the whole search from trialValue 0 and step 128; specified by `BinarySearchFindsLargest` and `BinarySearchShape`, and implemented by `BinarySearchTrim` |
| `Calibration.InvariantStep` | source/main.c:279-285 | under a monotone measurement one trial keeps trialValue at 0 or below target, and every trim above what the halved step can still reach at or above target |
| `Calibration.SearchFindsLargest` | source/main.c:277-287 | from any point of the search where every trim above the remaining window measures at or above target, a monotone measurement leads to the largest trim below target |
| `Calibration.BinarySearchFindsLargest` | source/main.c:276-287 | for a monotone measurement the search ends on the largest trim measuring below target, or 0 |
| `Calibration.BinarySearchShape` | source/main.c:272-291 | exactly 8 trims are measured, starting at 128, each the next step (64, ..., 1) above the previous one if that measured below target and below it otherwise; x is the measurement of the last trim, and the final trialValue is that trim if it measured below target and the trim below it otherwise |
| `Calibration.ProbeMoves` | source/main.c:279-285 | every two consecutive trims tried by the search differ by the next step, upward exactly when the earlier one measured below target |
| `Calibration.LastProbeDecides` | source/main.c:280-291 | the x the search ends with is the measurement of the last trim tried, and decides whether trialValue is that trim or the one below |
| `Calibration.SearchStaysBelowTop` | source/main.c:281-292 | for a monotone measurement the search's result is at most 253 exactly when trim 254 measures at or above target |
| `Calibration.Candidates` | source/main.c:292 | the neighbourhood loop measures three trims, strictly increasing and within 1 of trialValue, so exactly trialValue - 1, trialValue and trialValue + 1; for trialValue 0 it measures none |
| `Calibration.CandidatesFollowLoop` | source/main.c:292 | a trim is a candidate exactly when it lies between the loop's start value (trialValue - 1 in 8 bits, so 255 for trialValue 0) and the guard `OSCCAL <= trialValue + 1` |
| `Calibration.NeighbourhoodGuardAlwaysHolds` | source/main.c:292 | for trialValue 254 or 255 every 8-bit OSCCAL value, including the 0 that 255 + 1 wraps to, passes the loop guard |
| `Calibration.Deviation` | source/main.c:294-298 | the absolute difference between the frame length at a trim and the target; used by the neighbourhood lemmas below |
| `Calibration.Pick` | source/main.c:292-304 | the for loop's updates over a candidate list; specified by `PickKeepsFirstLeast` |
| `Calibration.Neighbourhood` | source/main.c:290-305 | the neighbourhood search from optimumValue = trialValue and optimumDev = x; specified by `NeighbourhoodChoice` and `NeighbourhoodMinimises`, and implemented by `NeighbourhoodSearch` |
| `Calibration.PickKeepsFirstLeast` | source/main.c:299-303 | the loop keeps its start unless some candidate is strictly closer; otherwise it keeps the first candidate of least deviation, strictly closer than every earlier candidate |
| `Calibration.NeighbourhoodSearch` | source/main.c:290-305 | the for loop, run with explicit 8-bit wrap of OSCCAL, ends with the optimumValue of `Neighbourhood`, which lies within 1 of trialValue |
| `Calibration.NeighbourhoodChoice` | source/main.c:290-305 | the result is within 1 of trialValue; its deviation is at most the initial optimumDev (the raw last x) and at most every candidate's; the trim changes only for a strictly smaller deviation, and then every lower candidate deviates strictly more (the lowest trim wins ties) |
| `Calibration.NeighbourhoodMinimises` | source/main.c:290-305 | when the initial optimumDev exceeds every neighbour's deviation, the result is a measured trim of least deviation |
| `Calibration.CalibratedTrim` | source/main.c:270-306 | the trim calibration leaves is never the EEPROM sentinel 0xff |
| `Firmware.Device.CalibrateOscillator` | source/main.c:270-306 | OSCCAL ends at `CalibratedTrim`, and nothing else changes |
| `Calibration.InitialTrim` | source/main.c:58-62 | the OSCCAL value start-up uses; its sentinel rule is `InitialTrimSentinel`, and the property that matters, that a calibrated trim survives a restart, is `CalibrationSurvivesRestart` |
| `Calibration.InitialTrimSentinel` | source/main.c:58-62 | start-up keeps the factory trim exactly when EEPROM byte 0 holds 0xff, and loads the stored byte otherwise; this only spells out `InitialTrim`'s definition, and the substance is `CalibrationSurvivesRestart` |
| `Calibration.CalibrationSurvivesRestart` | source/main.c:318-322 | a calibrated trim written to EEPROM is the trim the next start-up loads |
| `Firmware.Device.UsbEventResetReady` | source/main.c:318-322 | after a bus reset OSCCAL is the calibrated trim, EEPROM byte 0 equals it, and any later start-up reloads it |
| `Firmware.Device.constructor` | source/main.c:58-78 | OSCCAL is the stored trim unless EEPROM holds 0xff; the LED is lit; idle rate, report buffer and the loop variables start at zero |
| `MainLoop.LoopStep` | source/main.c:338-366 | one iteration: the sample becomes `lastKey`; a key change is never lost, because it is either built or left pending; a built report clears the flag; the full rule is `LoopStepContract`, and the idle timer's long-run behaviour is `FirstForcedSend` and `IdlePeriod` |
| `MainLoop.LoopStepContract` | source/main.c:338-366 | the sample becomes `lastKey`; something is pending exactly when the key changed, the flag was raised or the idle timer forced a send; a pending report is built exactly when the endpoint is ready, and `keyDidChange` is raised afterwards exactly when something was pending and the endpoint was not ready; the idle counter moves only on an overflow |
| `MainLoop.IdleTimer` | source/main.c:347-358 | an overflow forces a send exactly when the idle rate is nonzero and the counter is below 3, and the counter is then reset to the idle rate; otherwise it drops by 3, or stays when the idle rate is 0 |
| `MainLoop.LoopKeepsKeyInRange` | source/main.c:338-343 | `lastKey` stays a valid row index of the report table; a one-step consequence of `KeyDecision`'s bound, kept as a readable statement of the rule |
| `MainLoop.IdleRun` | source/main.c:344-358 | one forced-send flag for each of n consecutive overflows; specified by `NoIdleNoForcedSends`, `FirstForcedSend` and `IdlePeriod` |
| `MainLoop.NoIdleNoForcedSends` | source/main.c:347-358 | with idle rate 0, no number of overflows forces a send or moves the counter |
| `MainLoop.IdleRunSplit` | source/main.c:344-358 | a run of a + b overflows is the run of a followed by the run of b from the counter it leaves |
| `MainLoop.Countdown` | source/main.c:349-352 | while at least 3 units per overflow remain, overflows are silent and take 3 off the counter each |
| `MainLoop.FirstForcedSend` | source/main.c:349-357 | with idle rate N > 0, the first forced send from counter c comes on overflow c / 3 + 1 and leaves the counter at N |
| `MainLoop.IdlePeriod` | source/main.c:344-358 | with constant idle rate N > 0, forced sends recur every N / 3 + 1 overflows |
| `Firmware.Device.MainLoopStep` | source/main.c:334-368 | the loop variables move as `LoopStep` says for the sampled key; when a report is built it is the row of `lastKey`, not a new sample; otherwise the buffer is unchanged |

## Left out

- The V-USB driver is not part of this model. That covers `usbdrv.h` and its functions `usbInit`, `usbPoll`, `usbDeviceConnect`, `usbDeviceDisconnect`, `usbInterruptIsReady`, `usbMeasureFrameLength` and the driver's interrupt handler. Readiness of the interrupt endpoint is a boolean input. The frame-length measurement is the function `measure`. `usbPoll`'s calls into `usbFunctionSetup` and `usbEventResetReady` are method calls a caller makes between loop iterations.
- The constants USBRQ_TYPE_MASK (0x60), USBRQ_TYPE_CLASS (0x20) and the HID bRequest codes come from `usbdrv.h`. They are taken as section 9.3 of USB 2.0 and section 7.2 of HID 1.11 define them.
- Hardware registers and timing are left out: the watchdog, `sei`, the 255-iteration disconnect delay, the button pull-ups, the LED direction bit, the `TCCR1` set-up and the clearing of `TIFR`. The timer overflow is a boolean input.
- Driver interrupts that run concurrently with the loop are left out.
- The loop polls the timer-0 overflow flag `TOV0`, while `hardwareInit` starts only timer 1 (`TCCR1`). Which timer sets the flag is hardware behaviour, so the overflow is a boolean input.
- The target frame length is computed in floating point (`double`) in the source. The model takes it as an integer parameter.
- The frame-length measurement is an unbounded integer. So are `x` and `optimumDev`. The 16-bit `int` of the source is not modelled, because frame lengths near the target (about 2356) are far from its limits.
- `buildReport` stores a program-memory word through an `int *` cast. The model copies the row's two bytes in order instead.
- The HID report descriptor bytes and the unused `KEY_*`/`MOD_*` constants are static data, so they are left out.
- The OSCCAL values the two searches write before the final one are not kept as state. They appear only as the arguments passed to `measure`.
- `LED_ON`/`LED_OFF` refer to `LED_PORT`, which the file never defines. The model makes the LED a boolean that is on when the pin is driven low.
- The loop uses `OVERFLOW_4MS`, but the file defines `OVERFLOWS_4MS` as 3. The model uses 3.
- The loop builds a report but never sends it. The model does the same: `built` says only that `buildReport(lastKey)` ran.
- `usbMsgPtr` belongs to the driver until the first control request, so the constructor points it at the report buffer.
- `keyDidChange` is a `uchar` holding 0 or 1 in the source. The model makes it a boolean.
- Calibration.NeighbourhoodSearch: requires trialValue <= 253. For 254 and 255 the source's loop never terminates: the 8-bit OSCCAL wraps from 255 to 0 and always passes `OSCCAL <= trialValue + 1`. `NeighbourhoodGuardAlwaysHolds` states this.
- Calibration.CalibratedTrim: requires that the binary search ends at or below 253, for the same reason.
- Firmware.Device.CalibrateOscillator: requires that the binary search ends at or below 253, for the same reason.
- Firmware.Device.UsbEventResetReady: requires that the binary search ends at or below 253, for the same reason. For a monotone measurement this holds exactly when trim 254 measures at or above target (`SearchStaysBelowTop`).
