/**
 * Oscillator calibration (`calibrateOscillator` and the EEPROM check of `hardwareInit`
 * in main.c): an 8-step binary search over the 8-bit OSCCAL trim against the measured
 * USB frame length, then a search of the trim's two neighbours for the least deviation.
 * The frame-length measurement of the USB driver is the parameter `measure`: the
 * length it reports while OSCCAL holds a given trim.
 */
module Calibration {
  import opened Bytes

  /** Number of trials of the binary search: one per bit of the trim. */
  const Trials: nat := 8

  /** Step size of the search's j-th trial: 128 halved j times, so 128, 64, ..., 1, then 0. */
  function StepAt(j: nat): nat
  {
    if j == 0 then 128 else StepAt(j - 1) / 2
  }

  /** Each step is half the one before, and only the first eight are nonzero. */
  lemma {:induction false} StepAtHalves(j: nat)
    ensures IsStep(StepAt(j)) && StepAt(j + 1) == StepAt(j) / 2
    ensures StepAt(j) > 0 <==> j < Trials
  {
    if j > 0 {
      StepAtHalves(j - 1);
    }
  }

  predicate IsStep(step: int)
  {
    step == 0 || step == 1 || step == 2 || step == 4 || step == 8 ||
    step == 16 || step == 32 || step == 64 || step == 128
  }

  /** Halving a step gives a step, and loses nothing unless the step is 1. */
  lemma HalfStep(step: int)
    requires IsStep(step)
    ensures IsStep(step / 2) && (step == 1 || 2 * (step / 2) == step)
  {
  }

  /** Outcome of the binary search: final trialValue, last raw measurement x, and the trims tried. */
  datatype Probe = Probe(trial: Byte, lastX: int, probes: seq<Byte>)

  /** The binary search continued from `trialValue = trial` and `step`; `x` is the last measurement. */
  function SearchFrom(measure: Byte -> int, target: int, trial: Byte, step: nat, x: int): Probe
    requires trial as int + 2 * step <= 0x100
    decreases step
  {
    if step == 0 then Probe(trial, x, [])
    else
      var probe := (trial as int + step) as Byte;
      var rest := SearchFrom(measure, target, NextTrial(measure, target, trial, step), step / 2, measure(probe));
      rest.(probes := [probe] + rest.probes)
  }

  /** trialValue after one trial: raised by `step` when the trim `trialValue + step` measured below target. */
  function NextTrial(measure: Byte -> int, target: int, trial: Byte, step: nat): (next: Byte)
    requires 0 < step && trial as int + step < 0x100
  {
    if measure((trial as int + step) as Byte) < target then (trial as int + step) as Byte else trial
  }

  /** The whole binary search: trialValue starts at 0 and step at 128. */
  function BinarySearch(measure: Byte -> int, target: int): Probe
  {
    SearchFrom(measure, target, 0, 128, 0)
  }

  /** The frame length grows (the oscillator gets faster) as the trim grows. */
  ghost predicate Monotone(measure: Byte -> int)
  {
    forall a: Byte, b: Byte :: a <= b ==> measure(a) <= measure(b)
  }

  /** `r` is the largest trim in 1..255 measuring below target, or 0 if there is none. */
  ghost predicate IsLargestBelow(measure: Byte -> int, target: int, r: Byte)
  {
    (r == 0 || measure(r) < target) && forall t: Byte :: r < t ==> measure(t) >= target
  }

  /** Width of the range above `trial` the remaining steps can still reach. */
  function Window(step: int): int
  {
    if step == 0 then 0 else 2 * step - 1
  }

  /** Under a monotone measurement, every trim from one measuring at or above target up does too. */
  lemma AboveStaysAbove(measure: Byte -> int, target: int, p: Byte)
    requires Monotone(measure) && measure(p) >= target
    ensures forall t: Byte :: p <= t ==> measure(t) >= target
  {
  }

  /**
   * What holds before each trial of the search: trialValue is 0 or measures below target,
   * and every trim above the range the remaining steps can still reach measures at or above it.
   */
  ghost predicate SearchInvariant(measure: Byte -> int, target: int, trial: Byte, step: nat)
  {
    IsStep(step) && trial as int + 2 * step <= 0x100 &&
    (trial == 0 || measure(trial) < target) &&
    forall t: Byte :: trial as int + Window(step) < t as int ==> measure(t) >= target
  }

  /** One trial of the search keeps SearchInvariant when the measurement is monotone. */
  lemma InvariantStep(measure: Byte -> int, target: int, trial: Byte, step: nat)
    requires Monotone(measure) && SearchInvariant(measure, target, trial, step) && step > 0
    ensures SearchInvariant(measure, target, NextTrial(measure, target, trial, step), step / 2)
  {
    var probe := (trial as int + step) as Byte;
    HalfStep(step);
    assert Window(step / 2) == step - 1;
    if measure(probe) >= target {
      AboveStaysAbove(measure, target, probe);
    }
  }

  lemma {:induction false} SearchFindsLargest(measure: Byte -> int, target: int, trial: Byte, step: nat, x: int)
    requires Monotone(measure) && SearchInvariant(measure, target, trial, step)
    ensures IsLargestBelow(measure, target, SearchFrom(measure, target, trial, step, x).trial)
    decreases step
  {
    if step > 0 {
      var probe := (trial as int + step) as Byte;
      SearchStep(measure, target, trial, step, x);
      InvariantStep(measure, target, trial, step);
      SearchFindsLargest(measure, target, NextTrial(measure, target, trial, step), step / 2, measure(probe));
    }
  }

  /** For a monotone measurement the search ends on the largest trim measuring below target. */
  lemma BinarySearchFindsLargest(measure: Byte -> int, target: int)
    requires Monotone(measure)
    ensures IsLargestBelow(measure, target, BinarySearch(measure, target).trial)
  {
    SearchFindsLargest(measure, target, 0, 128, 0);
  }

  /** One step of the search: the trim it tries comes first, the rest is the search from the next trial. */
  lemma SearchStep(measure: Byte -> int, target: int, trial: Byte, step: nat, x: int)
    requires step > 0 && trial as int + 2 * step <= 0x100
    ensures var probe := (trial as int + step) as Byte;
      var rest := SearchFrom(measure, target, NextTrial(measure, target, trial, step), step / 2, measure(probe));
      SearchFrom(measure, target, trial, step, x) == rest.(probes := [probe] + rest.probes)
  {
  }

  lemma {:induction false} ProbeCount(measure: Byte -> int, target: int, trial: Byte, j: nat, x: int)
    requires j < Trials && trial as int + 2 * StepAt(j) <= 0x100
    ensures var r := SearchFrom(measure, target, trial, StepAt(j), x);
      |r.probes| == Trials - j && r.probes[0] as int == trial as int + StepAt(j)
    decreases Trials - j
  {
    var s := StepAt(j);
    StepAtHalves(j);
    StepAtHalves(j + 1);
    var probe := (trial as int + s) as Byte;
    var next := NextTrial(measure, target, trial, s);
    ProbesTail(measure, target, trial, s, x);
    if j + 1 < Trials {
      ProbeCount(measure, target, next, j + 1, measure(probe));
    } else {
      assert SearchFrom(measure, target, next, s / 2, measure(probe)).probes == [];
    }
  }

  /** The condition ProbeMoves states of consecutive trims `p` and `q` of the search, `step` apart. */
  predicate Moves(measure: Byte -> int, target: int, p: Byte, q: Byte, step: int)
  {
    (q > p <==> measure(p) < target) &&
    (q as int - p as int == step || p as int - q as int == step)
  }

  /** The trims the search tries: `trial + step` first, then those of the search from the next trial. */
  lemma ProbesTail(measure: Byte -> int, target: int, trial: Byte, step: nat, x: int)
    requires step > 0 && trial as int + 2 * step <= 0x100
    ensures var probe := (trial as int + step) as Byte;
      var r := SearchFrom(measure, target, trial, step, x);
      |r.probes| > 0 && r.probes[0] == probe &&
      r.probes[1..] == SearchFrom(measure, target, NextTrial(measure, target, trial, step), step / 2, measure(probe)).probes
  {
    SearchStep(measure, target, trial, step, x);
  }

  /** From the trim `trial + step`, the next trim tried is half a step up or down, upward exactly when it measured below target. */
  lemma NextMove(measure: Byte -> int, target: int, trial: Byte, step: nat)
    requires IsStep(step) && step >= 2 && trial as int + 2 * step <= 0x100
    ensures var probe := (trial as int + step) as Byte;
      var next := NextTrial(measure, target, trial, step);
      next as int + step / 2 < 0x100 &&
      Moves(measure, target, probe, (next as int + step / 2) as Byte, step / 2)
  {
    assert 2 * (step / 2) == step;
  }

  lemma FirstMove(measure: Byte -> int, target: int, trial: Byte, j: nat, x: int)
    requires j + 1 < Trials && trial as int + 2 * StepAt(j) <= 0x100
    ensures var r := SearchFrom(measure, target, trial, StepAt(j), x);
      |r.probes| == Trials - j && Moves(measure, target, r.probes[0], r.probes[1], StepAt(j + 1))
  {
    var s := StepAt(j);
    StepAtHalves(j);
    StepAtHalves(j + 1);
    var probe := (trial as int + s) as Byte;
    var next := NextTrial(measure, target, trial, s);
    ProbesTail(measure, target, trial, s, x);
    ProbeCount(measure, target, next, j + 1, measure(probe));
    NextMove(measure, target, trial, s);
    var r := SearchFrom(measure, target, trial, s, x);
    assert r.probes[1] == r.probes[1..][0];
  }

  /** Every two consecutive trims of `probes`, the first being the search's (j+1)-th, satisfy `Moves`. */
  predicate MovesFrom(measure: Byte -> int, target: int, probes: seq<Byte>, j: nat)
  {
    forall i :: 0 <= i < |probes| - 1 ==> Moves(measure, target, probes[i], probes[i + 1], StepAt(j + i + 1))
  }

  lemma MovesCons(measure: Byte -> int, target: int, p: Byte, rest: seq<Byte>, j: nat)
    requires |rest| > 0 && Moves(measure, target, p, rest[0], StepAt(j + 1))
    requires MovesFrom(measure, target, rest, j + 1)
    ensures MovesFrom(measure, target, [p] + rest, j)
  {
    var ps := [p] + rest;
    forall i | 0 <= i < |ps| - 1
      ensures Moves(measure, target, ps[i], ps[i + 1], StepAt(j + i + 1))
    {
      if i > 0 {
        assert ps[i] == rest[i - 1] && ps[i + 1] == rest[i];
        assert (j + 1) + (i - 1) + 1 == j + i + 1;
      }
    }
  }

  /** Each trim tried is the next step above the one before when that measured below target, else below it. */
  lemma {:induction false} ProbeMoves(measure: Byte -> int, target: int, trial: Byte, j: nat, x: int)
    requires j < Trials && trial as int + 2 * StepAt(j) <= 0x100
    ensures MovesFrom(measure, target, SearchFrom(measure, target, trial, StepAt(j), x).probes, j)
    decreases Trials - j
  {
    var s := StepAt(j);
    StepAtHalves(j);
    var probe := (trial as int + s) as Byte;
    var next := NextTrial(measure, target, trial, s);
    ProbesTail(measure, target, trial, s, x);
    var r := SearchFrom(measure, target, trial, s, x);
    if j + 1 < Trials {
      ProbeMoves(measure, target, next, j + 1, measure(probe));
      FirstMove(measure, target, trial, j, x);
      assert r.probes[1] == r.probes[1..][0];
      MovesCons(measure, target, r.probes[0], r.probes[1..], j);
      assert r.probes == [r.probes[0]] + r.probes[1..];
    } else {
      ProbeCount(measure, target, trial, j, x);
    }
  }

  lemma {:induction false} LastProbeDecides(measure: Byte -> int, target: int, trial: Byte, step: nat, x: int)
    requires step > 0 && trial as int + 2 * step <= 0x100
    ensures var r := SearchFrom(measure, target, trial, step, x);
      var last := r.probes[|r.probes| - 1];
      |r.probes| > 0 && r.lastX == measure(last) &&
      (r.trial == last <==> r.lastX < target) &&
      (r.trial != last ==> r.trial as int == last as int - 1)
    decreases step
  {
    var probe := (trial as int + step) as Byte;
    SearchStep(measure, target, trial, step, x);
    if step > 1 {
      LastProbeDecides(measure, target, NextTrial(measure, target, trial, step), step / 2, measure(probe));
    }
  }

  /**
   * The binary search measures exactly eight trims: first 128, then each one the next
   * step (64, 32, ..., 1) above the previous when that measured below target and below
   * it otherwise. The x it ends with is the measurement of the last of them, and the final
   * trialValue is that last trim when it measured below target and the trim below it otherwise.
   */
  lemma BinarySearchShape(measure: Byte -> int, target: int)
    ensures var r := BinarySearch(measure, target);
      |r.probes| == 8 && r.probes[0] == 128 &&
      (forall i :: 0 <= i < 7 ==> Moves(measure, target, r.probes[i], r.probes[i + 1], StepAt(i + 1))) &&
      r.lastX == measure(r.probes[7]) &&
      (r.trial == r.probes[7] <==> r.lastX < target) &&
      (r.trial != r.probes[7] ==> r.trial as int == r.probes[7] as int - 1)
  {
    ProbeCount(measure, target, 0, 0, 0);
    ProbeMoves(measure, target, 0, 0, 0);
    LastProbeDecides(measure, target, 0, 128, 0);
  }

  /** For a monotone measurement the search ends below 254 exactly when trim 254 measures at or above target. */
  lemma SearchStaysBelowTop(measure: Byte -> int, target: int)
    requires Monotone(measure)
    ensures BinarySearch(measure, target).trial <= 253 <==> measure(254) >= target
  {
    BinarySearchFindsLargest(measure, target);
  }

  /** The do-while loop of `calibrateOscillator`: OSCCAL takes `trialValue + step` for each step. */
  method BinarySearchTrim(measure: Byte -> int, target: int) returns (trialValue: Byte, x: int)
    ensures trialValue == BinarySearch(measure, target).trial
    ensures x == BinarySearch(measure, target).lastX
    ensures Monotone(measure) ==> IsLargestBelow(measure, target, trialValue)
  {
    var step: Byte := 128;
    trialValue := 0;
    x := 0;  // the do-while below measures before x is first read
    while step > 0
      invariant IsStep(step as int) && trialValue as int + 2 * step as int <= 0x100
      invariant SearchFrom(measure, target, trialValue, step as int, x).trial == BinarySearch(measure, target).trial
      invariant SearchFrom(measure, target, trialValue, step as int, x).lastX == BinarySearch(measure, target).lastX
      decreases step
    {
      var osccal: Byte := trialValue + step;
      x := measure(osccal);
      if x < target {
        trialValue := trialValue + step;
      }
      step := step / 2;
    }
    if Monotone(measure) {
      BinarySearchFindsLargest(measure, target);
    }
  }

  /** Absolute deviation of the frame length at `trim` from the target. */
  function Deviation(measure: Byte -> int, target: int, trim: Byte): nat
  {
    var d := measure(trim) - target;
    if d < 0 then -d else d
  }

  /** The best trim so far and the deviation it was kept for (`optimumValue`, `optimumDev`). */
  datatype Best = Best(value: Byte, dev: int)

  /** The neighbourhood loop over `candidates` in order: a candidate replaces the best only when strictly closer. */
  function Pick(measure: Byte -> int, target: int, candidates: seq<Byte>, best: Best): Best
    decreases |candidates|
  {
    if candidates == [] then best
    else
      var d := Deviation(measure, target, candidates[0]);
      Pick(measure, target, candidates[1..], if d < best.dev then Best(candidates[0], d) else best)
  }

  /** `candidates[j]` is what the neighbourhood loop keeps, starting from `best`. */
  ghost predicate KeptAt(measure: Byte -> int, target: int, candidates: seq<Byte>, best: Best, j: int, r: Best)
  {
    0 <= j < |candidates| &&
    r == Best(candidates[j], Deviation(measure, target, candidates[j])) &&
    r.dev < best.dev &&
    (forall i :: 0 <= i < j ==> Deviation(measure, target, candidates[i]) > r.dev) &&
    (forall i :: j < i < |candidates| ==> Deviation(measure, target, candidates[i]) >= r.dev)
  }

  /** The loop keeps its start when no candidate beats it, else the first candidate of least deviation. */
  lemma {:induction false} PickKeepsFirstLeast(measure: Byte -> int, target: int, candidates: seq<Byte>, best: Best)
    ensures var r := Pick(measure, target, candidates, best);
      (r == best && forall i :: 0 <= i < |candidates| ==> Deviation(measure, target, candidates[i]) >= best.dev) ||
      (exists j :: KeptAt(measure, target, candidates, best, j, r))
    decreases |candidates|
  {
    if candidates != [] {
      var c := candidates[0];
      var d := Deviation(measure, target, c);
      var best' := if d < best.dev then Best(c, d) else best;
      var rest := candidates[1..];
      var r := Pick(measure, target, rest, best');
      assert Pick(measure, target, candidates, best) == r;
      PickKeepsFirstLeast(measure, target, rest, best');
      if r == best' && forall i :: 0 <= i < |rest| ==> Deviation(measure, target, rest[i]) >= best'.dev {
        if d < best.dev {
          assert KeptAt(measure, target, candidates, best, 0, r);
        } else {
          assert forall i :: 0 < i < |candidates| ==> candidates[i] == rest[i - 1];
        }
      } else {
        var j :| KeptAt(measure, target, rest, best', j, r);
        assert forall i :: 0 < i < |candidates| ==> candidates[i] == rest[i - 1];
        assert KeptAt(measure, target, candidates, best, j + 1, r);
      }
    }
  }

  /**
   * The trims the neighbourhood loop of `calibrateOscillator` measures, in order. For
   * trialValue 0 the 8-bit OSCCAL starts at 0 - 1 = 255, which already fails the loop
   * guard, so nothing is measured.
   */
  function Candidates(trialValue: Byte): (c: seq<Byte>)
    requires trialValue <= 253
    ensures forall i, j :: 0 <= i < j < |c| ==> c[i] < c[j]
    ensures forall i :: 0 <= i < |c| ==> trialValue as int - 1 <= c[i] as int <= trialValue as int + 1
    ensures |c| == if trialValue == 0 then 0 else 3
  {
    if trialValue == 0 then [] else [trialValue - 1, trialValue, trialValue + 1]
  }

  /**
   * The candidates are exactly the OSCCAL values the for loop visits: those from its start
   * value, trialValue - 1 wrapped to 8 bits, that pass its guard `OSCCAL <= trialValue + 1`.
   */
  lemma CandidatesFollowLoop(trialValue: Byte)
    requires trialValue <= 253
    ensures forall t: Byte :: t in Candidates(trialValue) <==> Wrap(trialValue as int - 1) <= t && NeighbourhoodGuard(t, trialValue)
  {
  }

  /** The neighbourhood search: `optimumValue` starts at trialValue, `optimumDev` at the raw x. */
  function Neighbourhood(measure: Byte -> int, target: int, trialValue: Byte, lastX: int): Best
    requires trialValue <= 253
  {
    Pick(measure, target, Candidates(trialValue), Best(trialValue, lastX))
  }

  /**
   * The neighbourhood search ends on trialValue or a neighbour; it changes the trim
   * only for a deviation strictly below lastX and below every lower neighbour's, so
   * the lowest trim wins ties, and it ends with the least deviation seen.
   */
  lemma NeighbourhoodChoice(measure: Byte -> int, target: int, trialValue: Byte, lastX: int)
    requires trialValue <= 253
    ensures var r := Neighbourhood(measure, target, trialValue, lastX);
      var c := Candidates(trialValue);
      trialValue as int - 1 <= r.value as int <= trialValue as int + 1 &&
      r.dev <= lastX &&
      (forall t :: t in c ==> r.dev <= Deviation(measure, target, t)) &&
      (r.dev == lastX ==> r.value == trialValue) &&
      (r.dev < lastX ==>
        r.value in c && r.dev == Deviation(measure, target, r.value) &&
        forall t :: t in c && t < r.value ==> Deviation(measure, target, t) > r.dev)
  {
    var c := Candidates(trialValue);
    var r := Neighbourhood(measure, target, trialValue, lastX);
    PickKeepsFirstLeast(measure, target, c, Best(trialValue, lastX));
    if r != Best(trialValue, lastX) {
      var j :| KeptAt(measure, target, c, Best(trialValue, lastX), j, r);
      forall t | t in c ensures r.dev <= Deviation(measure, target, t) {
        var i :| 0 <= i < |c| && c[i] == t;
        if i == j {} else if i < j {} else {}
      }
      forall t | t in c && t < r.value ensures Deviation(measure, target, t) > r.dev {
        var i :| 0 <= i < |c| && c[i] == t;
        assert i < j;
      }
    }
  }

  /** When lastX exceeds every neighbour's deviation the result is a measured trim of least deviation. */
  lemma NeighbourhoodMinimises(measure: Byte -> int, target: int, trialValue: Byte, lastX: int)
    requires 1 <= trialValue <= 253
    requires forall t :: t in Candidates(trialValue) ==> Deviation(measure, target, t) < lastX
    ensures var r := Neighbourhood(measure, target, trialValue, lastX);
      r.value in Candidates(trialValue) &&
      forall t :: t in Candidates(trialValue) ==>
        Deviation(measure, target, r.value) <= Deviation(measure, target, t)
  {
    NeighbourhoodChoice(measure, target, trialValue, lastX);
    assert trialValue in Candidates(trialValue);
  }

  /** The for loop's condition `OSCCAL <= trialValue + 1`, compared as `int`. */
  predicate NeighbourhoodGuard(osccal: Byte, trialValue: Byte)
  {
    osccal as int <= trialValue as int + 1
  }

  /**
   * For trialValue 254 or 255 the source's loop never ends: OSCCAL is 8 bits wide, so
   * every value it takes, including 0 after 255 wraps, passes `OSCCAL <= trialValue + 1`.
   */
  lemma NeighbourhoodGuardAlwaysHolds(trialValue: Byte)
    requires trialValue >= 254
    ensures Wrap(255 + 1) == 0
    ensures forall osccal: Byte :: NeighbourhoodGuard(osccal, trialValue)
  {
  }

  /** The for loop of `calibrateOscillator` after the binary search, with OSCCAL's 8-bit wrap. */
  method NeighbourhoodSearch(measure: Byte -> int, target: int, trialValue: Byte, lastX: int)
    returns (optimumValue: Byte)
    requires trialValue <= 253
    ensures optimumValue == Neighbourhood(measure, target, trialValue, lastX).value
    ensures trialValue as int - 1 <= optimumValue as int <= trialValue as int + 1
  {
    optimumValue := trialValue;
    var optimumDev := lastX;
    var osccal := Wrap(trialValue as int - 1);
    ghost var c := Candidates(trialValue);
    while NeighbourhoodGuard(osccal, trialValue)
      invariant trialValue == 0 ==> osccal == 255 && optimumValue == trialValue
      invariant trialValue != 0 ==> trialValue as int - 1 <= osccal as int <= trialValue as int + 2
      invariant trialValue != 0 ==>
        Pick(measure, target, c[osccal as int - (trialValue as int - 1)..], Best(optimumValue, optimumDev))
        == Neighbourhood(measure, target, trialValue, lastX)
      decreases trialValue as int + 2 - osccal as int
    {
      ghost var i := osccal as int - (trialValue as int - 1);
      assert c[i..] == [osccal] + c[i + 1..];
      var x := measure(osccal) - target;
      if x < 0 {
        x := -x;
      }
      assert x == Deviation(measure, target, osccal);
      if x < optimumDev {
        optimumDev := x;
        optimumValue := osccal;
      }
      osccal := Wrap(osccal as int + 1);
    }
    if trialValue != 0 {
      assert osccal as int == trialValue as int + 2;
      assert c[osccal as int - (trialValue as int - 1)..] == [];
      assert Pick(measure, target, [], Best(optimumValue, optimumDev)) == Best(optimumValue, optimumDev);
    } else {
      assert c == [];
    }
    NeighbourhoodChoice(measure, target, trialValue, lastX);
  }

  /** The trim `calibrateOscillator` leaves in OSCCAL. */
  function CalibratedTrim(measure: Byte -> int, target: int): (r: Byte)
    requires BinarySearch(measure, target).trial <= 253
    ensures r != 0xff
  {
    var p := BinarySearch(measure, target);
    NeighbourhoodChoice(measure, target, p.trial, p.lastX);
    Neighbourhood(measure, target, p.trial, p.lastX).value
  }

  /** EEPROM byte 0 holding 0xff means "never calibrated". */
  const Unprogrammed: Byte := 0xff

  /** The OSCCAL `hardwareInit` starts with: the stored byte unless it is the sentinel. */
  function InitialTrim(stored: Byte, factoryTrim: Byte): Byte
  {
    if stored != Unprogrammed then stored else factoryTrim
  }

  /** A calibrated trim written to EEPROM is the trim the next start-up loads. */
  lemma CalibrationSurvivesRestart(measure: Byte -> int, target: int, factoryTrim: Byte)
    requires BinarySearch(measure, target).trial <= 253
    ensures InitialTrim(CalibratedTrim(measure, target), factoryTrim) == CalibratedTrim(measure, target)
  {
  }

  /** Start-up keeps the factory trim exactly when EEPROM holds the sentinel. */
  lemma InitialTrimSentinel(stored: Byte, factoryTrim: Byte)
    ensures stored == Unprogrammed ==> InitialTrim(stored, factoryTrim) == factoryTrim
    ensures stored != Unprogrammed ==> InitialTrim(stored, factoryTrim) == stored
  {
  }
}
