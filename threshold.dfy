/** The alert threshold of frontend/app/index.tsx: a counter the user steps
    up and down between 15 and 40, compared against a fixed current
    temperature. */
module Threshold {

  const InitialThreshold: int := 30
  const MaxThreshold: int := 40
  const MinThreshold: int := 15

  /** `currentTemp`, hard-coded to 25 degrees (index.tsx:13). */
  const CurrentTemp: int := 25

  /** The updater `prev => prev < 40 ? prev + 1 : prev` (index.tsx:20). */
  function Increased(prev: int): (next: int)
  {
    if prev < MaxThreshold then prev + 1 else prev
  }

  /** The updater `prev => prev > 15 ? prev - 1 : prev` (index.tsx:23). */
  function Decreased(prev: int): (next: int)
  {
    if prev > MinThreshold then prev - 1 else prev
  }

  /** `currentTemp > threshold` (index.tsx:17): equality is within threshold. */
  function IsAboveThreshold(currentTemp: int, threshold: int): (above: bool)
  {
    currentTemp > threshold
  }

  predicate InRange(t: int)
  {
    MinThreshold <= t <= MaxThreshold
  }

  /** One step moves by exactly one unless it is at its bound, never leaves
      the range, and the two steps undo each other away from the bounds. */
  lemma StepsSpec(t: int)
    requires InRange(t)
    ensures InRange(Increased(t)) && InRange(Decreased(t))
    ensures Increased(t) == (if t < MaxThreshold then t + 1 else t)
    ensures Decreased(t) == (if t > MinThreshold then t - 1 else t)
    ensures t < MaxThreshold ==> Decreased(Increased(t)) == t
    ensures t > MinThreshold ==> Increased(Decreased(t)) == t
  {
  }

  /** A button press on the screen. */
  datatype Press = Increase | Decrease

  /** The threshold after a run of presses, oldest first. */
  function Run(t: int, presses: seq<Press>): (t': int)
    decreases |presses|
  {
    if presses == [] then t
    else Run(if presses[0] == Increase then Increased(t) else Decreased(t), presses[1..])
  }

  /** Any run of presses keeps the threshold within [15, 40]. */
  lemma {:induction false} RunStaysInRange(t: int, presses: seq<Press>)
    requires InRange(t)
    ensures InRange(Run(t, presses))
    decreases |presses|
  {
    if presses != [] {
      var t' := if presses[0] == Increase then Increased(t) else Decreased(t);
      StepsSpec(t);
      RunStaysInRange(t', presses[1..]);
    }
  }

  /** `n` presses of one button. */
  function Repeat(p: Press, n: nat): (r: seq<Press>)
    ensures |r| == n
    ensures forall i :: 0 <= i < n ==> r[i] == p
  {
    if n == 0 then [] else [p] + Repeat(p, n - 1)
  }

  lemma {:induction false} RunUp(t: int, n: nat)
    requires InRange(t) && t + n <= MaxThreshold
    ensures Run(t, Repeat(Increase, n)) == t + n
    decreases n
  {
    if n > 0 {
      assert Repeat(Increase, n)[1..] == Repeat(Increase, n - 1);
      RunUp(t + 1, n - 1);
    }
  }

  lemma {:induction false} RunDown(t: int, n: nat)
    requires InRange(t) && t - n >= MinThreshold
    ensures Run(t, Repeat(Decrease, n)) == t - n
    decreases n
  {
    if n > 0 {
      assert Repeat(Decrease, n)[1..] == Repeat(Decrease, n - 1);
      RunDown(t - 1, n - 1);
    }
  }

  /** The thresholds reachable from the initial 30 are exactly [15, 40]. */
  lemma Reachable(t: int)
    ensures InRange(t) <==> exists presses :: Run(InitialThreshold, presses) == t
  {
    if InRange(t) {
      if t >= InitialThreshold {
        RunUp(InitialThreshold, t - InitialThreshold);
      } else {
        RunDown(InitialThreshold, InitialThreshold - t);
      }
    }
    forall presses | Run(InitialThreshold, presses) == t
      ensures InRange(t)
    {
      RunStaysInRange(InitialThreshold, presses);
    }
  }

  /** With the current temperature fixed at 25, the status after any run of
      presses reads "above" exactly when the threshold is in [15, 24]. */
  lemma StatusAfterPresses(presses: seq<Press>)
    ensures IsAboveThreshold(CurrentTemp, Run(InitialThreshold, presses)) <==>
      MinThreshold <= Run(InitialThreshold, presses) <= 24
  {
    RunStaysInRange(InitialThreshold, presses);
  }

  /** The `threshold` state cell of the screen (index.tsx:15). */
  class ThresholdControl {
    var threshold: int

    ghost predicate Valid()
      reads this
    {
      InRange(threshold)
    }

    /** `useState(30)` (index.tsx:15). */
    constructor ()
      ensures Valid() && threshold == InitialThreshold
    {
      threshold := InitialThreshold;
    }

    /** `increaseThreshold` (index.tsx:19-21). */
    method IncreaseThreshold()
      requires Valid()
      modifies this
      ensures Valid() && threshold == Increased(old(threshold))
    {
      StepsSpec(threshold);
      threshold := Increased(threshold);
    }

    /** `decreaseThreshold` (index.tsx:22-24). */
    method DecreaseThreshold()
      requires Valid()
      modifies this
      ensures Valid() && threshold == Decreased(old(threshold))
    {
      StepsSpec(threshold);
      threshold := Decreased(threshold);
    }

    /** `isAboveThreshold` as the screen computes it on each render (index.tsx:17). */
    method Status() returns (above: bool)
      requires Valid()
      ensures above <==> MinThreshold <= threshold < CurrentTemp
    {
      above := IsAboveThreshold(CurrentTemp, threshold);
    }
  }
}
