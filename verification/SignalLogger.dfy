/** Telling voice from silence by level, with hysteresis between two thresholds and a hangover,
    and counting the changes. */
module SignalLogger {
  import Arithmetic
  import opened Bytes

  /** Frames at the start of a stream that only set the state, without counting changes. */
  const WARM_UP := 10

  /** A frame's time of arrival and its level in dBFS. */
  datatype Frame = Frame(now: int, level: real)

  datatype Config = Config(hangover: int, noiseFloor: real, enterOffset: real, exitOffset: real)

  datatype State = State(lastSignalTime: int, lastIsSignal: bool, framesProcessed: nat, stateChanges: nat)

  predicate AboveEnter(c: Config, f: Frame) {
    f.level > c.noiseFloor + c.enterOffset
  }

  predicate BelowExit(c: Config, f: Frame) {
    f.level < c.noiseFloor + c.exitOffset
  }

  function Step(c: Config, s: State, f: Frame): State {
    var heard := State(if AboveEnter(c, f) then f.now else s.lastSignalTime,
                       s.lastIsSignal, s.framesProcessed + 1, s.stateChanges);
    if heard.framesProcessed <= WARM_UP then heard.(lastIsSignal := AboveEnter(c, f))
    else if AboveEnter(c, f) && !s.lastIsSignal then
      heard.(lastIsSignal := true, stateChanges := s.stateChanges + 1)
    else if BelowExit(c, f) && s.lastIsSignal && f.now - heard.lastSignalTime >= c.hangover then
      heard.(lastIsSignal := false, stateChanges := s.stateChanges + 1)
    else heard
  }

  /** The zero time lies before every frame; it is never compared with. */
  const Start := State(0, false, 0, 0)

  function Run(c: Config, frames: seq<Frame>): State {
    if frames == [] then Start else Step(c, Run(c, frames[..|frames| - 1]), frames[|frames| - 1])
  }

  class SignalLogger {
    const config: Config
    var lastSignalTime: int
    var lastIsSignal: bool
    var framesProcessed: nat
    var stateChanges: nat
    var forwarded: seq<Frame>

    function Fields(): State
      reads this
    {
      State(lastSignalTime, lastIsSignal, framesProcessed, stateChanges)
    }

    constructor (config: Config)
      ensures this.config == config && Fields() == Start && forwarded == []
    {
      this.config := config;
      lastSignalTime, lastIsSignal, framesProcessed, stateChanges, forwarded := 0, false, 0, 0, [];
    }

    method WriteSample(f: Frame, nextOk: bool) returns (ok: bool)
      modifies this
      ensures Fields() == Step(config, old(Fields()), f)
      ensures forwarded == old(forwarded) + [f] && ok == nextOk
    {
      var aboveEnter := f.level > config.noiseFloor + config.enterOffset;
      var belowExit := f.level < config.noiseFloor + config.exitOffset;
      if aboveEnter {
        lastSignalTime := f.now;
      }
      framesProcessed := framesProcessed + 1;
      if framesProcessed <= WARM_UP {
        lastIsSignal := aboveEnter;
        forwarded := forwarded + [f];
        return nextOk;
      }
      if aboveEnter && !lastIsSignal {
        lastIsSignal := true;
        stateChanges := stateChanges + 1;
      } else if belowExit && lastIsSignal {
        if f.now - lastSignalTime >= config.hangover {
          lastIsSignal := false;
          stateChanges := stateChanges + 1;
        }
      }
      forwarded := forwarded + [f];
      return nextOk;
    }
  }

  /** Frame k is quiet, and has been for the hangover since frame j. */
  predicate RunsOut(c: Config, frames: seq<Frame>, j: nat, k: nat)
    requires j < |frames| && k < |frames|
  {
    frames[k].level < c.noiseFloor + c.exitOffset && frames[k].now - frames[j].now >= c.hangover
  }

  /** Frame j, no earlier than the tenth frame, was louder than the upper threshold; since then none
      was, and none saw the hangover run out. */
  ghost predicate HeldBy(c: Config, frames: seq<Frame>, j: nat) {
    && 9 <= j < |frames|
    && frames[j].level > c.noiseFloor + c.enterOffset
    && forall k :: j < k < |frames| ==> frames[k].level <= c.noiseFloor + c.enterOffset && !RunsOut(c, frames, j, k)
  }

  lemma {:induction false} HeldOneLonger(c: Config, frames: seq<Frame>, j: nat)
    requires |frames| > WARM_UP && j < |frames| - 1
    ensures var n := |frames| - 1;
      HeldBy(c, frames, j)
      <==> (HeldBy(c, frames[..n], j) && !AboveEnter(c, frames[n]) && !RunsOut(c, frames, j, n))
  {
    var n := |frames| - 1;
    if HeldBy(c, frames[..n], j) && !AboveEnter(c, frames[n]) && !RunsOut(c, frames, j, n) {
      forall k | j < k < |frames|
        ensures frames[k].level <= c.noiseFloor + c.enterOffset && !RunsOut(c, frames, j, k)
      {
        if k < n {
          assert frames[..n][k] == frames[k];
          assert !RunsOut(c, frames[..n], j, k);
        }
      }
    }
    if HeldBy(c, frames, j) {
      forall k | j < k < n
        ensures frames[..n][k].level <= c.noiseFloor + c.enterOffset && !RunsOut(c, frames[..n], j, k)
      {
        assert !RunsOut(c, frames, j, k);
      }
    }
  }

  function LastLoud(c: Config, frames: seq<Frame>): (j: Option<nat>)
    ensures j.Some? ==> j.value < |frames| && AboveEnter(c, frames[j.value])
  {
    if frames == [] then None
    else
      var n := |frames| - 1;
      if AboveEnter(c, frames[n]) then Some(n) else LastLoud(c, frames[..n])
  }

  lemma {:induction false} HeldByLastLoud(c: Config, frames: seq<Frame>, j: nat)
    requires HeldBy(c, frames, j)
    ensures LastLoud(c, frames) == Some(j)
  {
    if j < |frames| - 1 {
      var n := |frames| - 1;
      if n >= WARM_UP {
        HeldOneLonger(c, frames, j);
      }
      HeldByLastLoud(c, frames[..n], j);
    }
  }

  lemma {:induction false} LastSignalTime(c: Config, frames: seq<Frame>)
    requires LastLoud(c, frames).Some?
    ensures Run(c, frames).lastSignalTime == frames[LastLoud(c, frames).value].now
  {
    var n := |frames| - 1;
    if !AboveEnter(c, frames[n]) {
      LastSignalTime(c, frames[..n]);
    }
  }

  lemma {:induction false} Processed(c: Config, frames: seq<Frame>)
    ensures Run(c, frames).framesProcessed == |frames|
    ensures |frames| <= WARM_UP ==> Run(c, frames).stateChanges == 0
  {
    if frames != [] {
      Processed(c, frames[..|frames| - 1]);
    }
  }

  ghost predicate Held(c: Config, frames: seq<Frame>) {
    var j := LastLoud(c, frames);
    j.Some? && HeldBy(c, frames, j.value)
  }

  lemma {:induction false} HeldExact(c: Config, frames: seq<Frame>)
    requires c.hangover > 0 && |frames| >= WARM_UP
    ensures Run(c, frames).lastIsSignal <==> Held(c, frames)
  {
    var n := |frames| - 1;
    var f := frames[n];
    Processed(c, frames[..n]);
    if n + 1 > WARM_UP && !AboveEnter(c, f) {
      HeldExact(c, frames[..n]);
      var j := LastLoud(c, frames[..n]);
      if j.Some? {
        HeldOneLonger(c, frames, j.value);
        LastSignalTime(c, frames[..n]);
      }
    }
  }

  /** After ten frames, for any thresholds, even with exit above enter: voice is reported exactly
      when some frame holds it. Up to then it is reported exactly when the last frame is loud. */
  lemma {:induction false} SignalExact(c: Config, frames: seq<Frame>)
    requires c.hangover > 0
    ensures |frames| >= 10 ==> (Run(c, frames).lastIsSignal <==> exists j: nat :: HeldBy(c, frames, j))
    ensures 0 < |frames| <= 10 ==>
              (Run(c, frames).lastIsSignal <==> frames[|frames| - 1].level > c.noiseFloor + c.enterOffset)
  {
    if |frames| >= 10 {
      HeldExact(c, frames);
      forall j: nat | HeldBy(c, frames, j)
        ensures Held(c, frames)
      {
        HeldByLastLoud(c, frames, j);
      }
    }
    if 0 < |frames| <= 10 {
      Processed(c, frames[..|frames| - 1]);
    }
  }

  // Counting changes

  /** Frames after the tenth at which the reported state differs from the one before. */
  function Flips(c: Config, frames: seq<Frame>): nat {
    if |frames| <= 10 then 0
    else
      var before := frames[..|frames| - 1];
      Flips(c, before) + (if Run(c, frames).lastIsSignal != Run(c, before).lastIsSignal then 1 else 0)
  }

  /** Every counted change is a change and every change is counted, so they alternate. */
  lemma {:induction false} ChangesAreFlips(c: Config, frames: seq<Frame>)
    ensures Run(c, frames).stateChanges == Flips(c, frames)
  {
    Processed(c, frames);
    if frames != [] {
      ChangesAreFlips(c, frames[..|frames| - 1]);
      Processed(c, frames[..|frames| - 1]);
    }
  }

  ghost predicate Ordered(frames: seq<Frame>) {
    forall i, j :: 0 <= i <= j < |frames| ==> frames[i].now <= frames[j].now
  }

  /** While voice is reported the last change may be unpaid for; each pair of changes before it
      took a hangover. */
  lemma {:induction false} PairsCostAHangover(c: Config, frames: seq<Frame>)
    requires c.hangover > 0 && frames != [] && Ordered(frames)
    ensures var s := Run(c, frames); var first := frames[0].now;
      && (s.lastIsSignal ==>
        && first <= s.lastSignalTime <= frames[|frames| - 1].now
        && s.stateChanges <= 2 * ((s.lastSignalTime - first) / c.hangover) + 1)
      && (!s.lastIsSignal ==> s.stateChanges <= 2 * ((frames[|frames| - 1].now - first) / c.hangover))
  {
    var n := |frames| - 1;
    var f, first := frames[n], frames[0].now;
    Arithmetic.DivisionMonotonic(0, f.now - first, c.hangover);
    Processed(c, frames);
    if n > 0 {
      var s := Run(c, frames[..n]);
      var before := frames[n - 1].now;
      PairsCostAHangover(c, frames[..n]);
      assert frames[..n][0].now == first && frames[..n][n - 1].now == before;
      Arithmetic.DivisionMonotonic(before - first, f.now - first, c.hangover);
      if s.lastIsSignal {
        Arithmetic.DivisionMonotonic(s.lastSignalTime - first, f.now - first, c.hangover);
        Arithmetic.DivisionStep(s.lastSignalTime - first, c.hangover);
        if f.now - s.lastSignalTime >= c.hangover {
          Arithmetic.DivisionMonotonic(s.lastSignalTime - first + c.hangover, f.now - first, c.hangover);
        }
      }
    }
  }

  /** However the level moves, the changes reported number at most two per elapsed hangover, and
      one more. */
  lemma {:induction false} ChangesBounded(c: Config, frames: seq<Frame>)
    requires c.hangover > 0 && frames != [] && Ordered(frames)
    ensures Run(c, frames).stateChanges
      <= 2 * ((frames[|frames| - 1].now - frames[0].now) / c.hangover) + 1
  {
    PairsCostAHangover(c, frames);
    var s := Run(c, frames);
    if s.lastIsSignal {
      Arithmetic.DivisionMonotonic(s.lastSignalTime - frames[0].now,
                                   frames[|frames| - 1].now - frames[0].now, c.hangover);
    }
  }
}
