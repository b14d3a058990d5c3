/**
 * One iteration of the `main` loop in main.c, after `usbPoll`: change detection on the
 * sampled key, the idle-rate countdown on each timer overflow, and the handoff of a
 * pending report once the interrupt endpoint is ready.
 */
module MainLoop {
  import opened Bytes
  import Keys

  /** 4 ms idle-rate units credited per timer overflow (OVERFLOWS_4MS). */
  const OverflowUnits: Byte := 3

  /** The loop's own variables: `lastKey`, `keyDidChange` and `idleCounter`. */
  datatype LoopState = LoopState(lastKey: Byte, keyDidChange: bool, idleCounter: Byte)

  /** Effect of one timer overflow on the idle counter, and whether it forces a send. */
  datatype IdleTick = IdleTick(counter: Byte, forced: bool)

  /**
   * An overflow with idle rate 0 changes nothing; otherwise it takes 3 units off a counter
   * that holds at least 3, and resets a smaller one to the idle rate with a forced send.
   */
  function IdleTimer(counter: Byte, idleRate: Byte): (tick: IdleTick)
    ensures tick.forced <==> idleRate != 0 && counter < OverflowUnits
    ensures tick.forced ==> tick.counter == idleRate
    ensures !tick.forced ==> tick.counter as int == counter as int - (if idleRate == 0 then 0 else OverflowUnits as int)
  {
    if idleRate == 0 then IdleTick(counter, false)
    else if counter >= OverflowUnits then IdleTick(counter - OverflowUnits, false)
    else IdleTick(idleRate, true)
  }

  /** The loop variables after one iteration, and whether `buildReport(lastKey)` ran in it. */
  datatype StepResult = StepResult(state: LoopState, built: bool)

  /**
   * One loop iteration given the key `keyPressed` returned, the current `idleRate`, whether
   * the timer overflowed and whether `usbInterruptIsReady()` holds.
   */
  function LoopStep(s: LoopState, key: Byte, idleRate: Byte, overflow: bool, ready: bool): (r: StepResult)
    ensures r.state.lastKey == key
    ensures s.keyDidChange || key != s.lastKey ==> r.built || r.state.keyDidChange
    ensures !(r.built && r.state.keyDidChange)
  {
    var tick := if overflow then IdleTimer(s.idleCounter, idleRate) else IdleTick(s.idleCounter, false);
    var pending := s.keyDidChange || key != s.lastKey || tick.forced;
    StepResult(LoopState(key, pending && !ready, tick.counter), pending && ready)
  }

  /**
   * What one iteration promises: the sampled key becomes `lastKey`; something is pending
   * when the key changed, the flag was already raised or the idle timer forced a send; a
   * pending report is built exactly when the endpoint is ready, and otherwise stays pending
   * in `keyDidChange`; the idle counter moves only on an overflow, and then as the idle
   * timer says.
   */
  lemma LoopStepContract(s: LoopState, key: Byte, idleRate: Byte, overflow: bool, ready: bool)
    ensures var r := LoopStep(s, key, idleRate, overflow, ready);
      var forced := overflow && IdleTimer(s.idleCounter, idleRate).forced;
      var pending := s.keyDidChange || key != s.lastKey || forced;
      r.state.lastKey == key &&
      (r.built <==> ready && pending) &&
      (r.state.keyDidChange <==> !ready && pending) &&
      r.state.idleCounter == (if overflow then IdleTimer(s.idleCounter, idleRate).counter else s.idleCounter)
  {
  }

  /** A sampled key from `keyPressed` keeps `lastKey` a valid row of the report table. */
  lemma LoopKeepsKeyInRange(s: LoopState, pin: Byte, idleRate: Byte, overflow: bool, ready: bool)
    ensures LoopStep(s, Keys.KeyDecision(pin).key, idleRate, overflow, ready).state.lastKey <= Keys.NumKeys
  {
  }

  /** Whether each of `n` consecutive timer overflows forces a send, starting from `counter`. */
  function IdleRun(counter: Byte, idleRate: Byte, n: nat): (forced: seq<bool>)
    ensures |forced| == n
    decreases n
  {
    if n == 0 then []
    else
      var tick := IdleTimer(counter, idleRate);
      [tick.forced] + IdleRun(tick.counter, idleRate, n - 1)
  }

  /** The idle counter after `n` consecutive timer overflows. */
  function CounterAfter(counter: Byte, idleRate: Byte, n: nat): Byte
    decreases n
  {
    if n == 0 then counter
    else CounterAfter(IdleTimer(counter, idleRate).counter, idleRate, n - 1)
  }

  /** `n` overflows none of which forces a send. */
  function Silent(n: nat): seq<bool>
  {
    seq(n, _ => false)
  }

  /** `block` repeated `k` times. */
  function Repeat(block: seq<bool>, k: nat): seq<bool>
  {
    if k == 0 then [] else block + Repeat(block, k - 1)
  }

  /** With idle rate 0 no overflow ever forces a send and the counter never moves. */
  lemma {:induction false} NoIdleNoForcedSends(counter: Byte, n: nat)
    ensures IdleRun(counter, 0, n) == Silent(n)
    ensures CounterAfter(counter, 0, n) == counter
    decreases n
  {
    if n > 0 {
      NoIdleNoForcedSends(counter, n - 1);
      assert IdleRun(counter, 0, n) == [false] + Silent(n - 1);
    }
  }

  /** Overflows split: the run of a + b overflows is the run of a followed by the run of b. */
  lemma {:induction false} IdleRunSplit(counter: Byte, idleRate: Byte, a: nat, b: nat)
    ensures IdleRun(counter, idleRate, a + b) ==
      IdleRun(counter, idleRate, a) + IdleRun(CounterAfter(counter, idleRate, a), idleRate, b)
    ensures CounterAfter(counter, idleRate, a + b) == CounterAfter(CounterAfter(counter, idleRate, a), idleRate, b)
    decreases a
  {
    if a > 0 {
      var tick := IdleTimer(counter, idleRate);
      IdleRunSplit(tick.counter, idleRate, a - 1, b);
      assert a + b - 1 == (a - 1) + b;
    }
  }

  /** While at least 3 units per overflow remain, the counter counts down silently. */
  lemma {:induction false} Countdown(counter: Byte, idleRate: Byte, j: nat)
    requires idleRate != 0 && 3 * j <= counter as int
    ensures IdleRun(counter, idleRate, j) == Silent(j)
    ensures CounterAfter(counter, idleRate, j) as int == counter as int - 3 * j
    decreases j
  {
    if j > 0 {
      Countdown(counter - 3, idleRate, j - 1);
      assert IdleRun(counter, idleRate, j) == [false] + Silent(j - 1);
    }
  }

  /**
   * With a nonzero idle rate the first forced send from a counter c comes on overflow
   * c / 3 + 1, after which the counter holds the idle rate.
   */
  lemma FirstForcedSend(counter: Byte, idleRate: Byte)
    requires idleRate != 0
    ensures IdleRun(counter, idleRate, counter as int / 3 + 1) == Silent(counter as int / 3) + [true]
    ensures CounterAfter(counter, idleRate, counter as int / 3 + 1) == idleRate
  {
    var q := counter as int / 3;
    Countdown(counter, idleRate, q);
    IdleRunSplit(counter, idleRate, q, 1);
  }

  /**
   * With a constant idle rate N > 0, forced sends recur every N / 3 + 1 overflows: from the
   * counter a forced send leaves, every block of that many overflows is silent but for its last.
   */
  lemma {:induction false} IdlePeriod(idleRate: Byte, k: nat)
    requires idleRate != 0
    ensures var period := idleRate as int / 3 + 1;
      IdleRun(idleRate, idleRate, k * period) == Repeat(Silent(period - 1) + [true], k)
  {
    var period := idleRate as int / 3 + 1;
    if k > 0 {
      FirstForcedSend(idleRate, idleRate);
      IdlePeriod(idleRate, k - 1);
      assert k * period == period + (k - 1) * period;
      IdleRunSplit(idleRate, idleRate, period, (k - 1) * period);
    }
  }
}
