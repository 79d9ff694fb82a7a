/** Filling silence-suppression gaps of an RTP audio stream: gaps are recognised from 16-bit
    sequence numbers and 32-bit timestamps that wrap, and silence frames stand in for them. */
module SilenceFiller {
  import Arithmetic
  import opened Bytes

  /** Gaps beyond this many times the filling limit are taken for a timestamp reset. */
  const RESET_FACTOR := 100

  const DEFAULT_MAX_GAP := 25
  const FRAMES_PER_SECOND := 50

  datatype Packet = Packet(seqNo: uint16, timestamp: uint32, payload: bytes)

  /** What the two sinks are given: silence for the PCM sink, packets for the encoded sink. */
  datatype Output = Silence(samples: nat) | Forwarded(packet: Packet)

  datatype Config = Config(maxGapSize: nat, rtpSamplesPerFrame: uint32, pcmSamplesPerFrame: nat)

  ghost predicate Usable(c: Config) {
    c.rtpSamplesPerFrame > 0
  }

  /** The filler's counters. */
  datatype State = State(lastTS: uint32, lastSeq: uint16, packets: nat, gapCount: nat, gapSizeSum: nat)

  const Start := State(0, 0, 0, 0, 0)

  /** A packet together with how the sinks behave while it is handled: how many silence frames
      the PCM sink takes before it reports an error. */
  datatype Arrival = Arrival(packet: Packet, pcmAccepts: nat)

  function WholeFrames(ticks: uint32, ticksPerFrame: uint32): nat
    requires ticksPerFrame > 0
  {
    ticks / ticksPerFrame
  }

  /** Distance of a sequence number from the one expected after last. */
  function SeqDiff(last: uint16, seqNo: uint16): uint16 {
    (seqNo - (last + 1) % 0x1_0000) % 0x1_0000
  }

  /** Distance of a timestamp from the one expected after last. */
  function TsDiff(last: uint32, timestamp: uint32, step: uint32): uint32 {
    (timestamp - (last + step) % 0x1_0000_0000) % 0x1_0000_0000
  }

  /** The whole frames missing before p, 0 unless p follows the last packet in sequence. */
  function Missed(c: Config, s: State, p: Packet): (frames: nat)
    requires Usable(c)
  {
    if s.packets == 0 || SeqDiff(s.lastSeq, p.seqNo) != 0 then 0
    else WholeFrames(TsDiff(s.lastTS, p.timestamp, c.rtpSamplesPerFrame), c.rtpSamplesPerFrame)
  }

  function Fill(c: Config, missed: nat): nat {
    if missed <= c.maxGapSize then missed else 0
  }

  function Silences(samples: nat, n: nat): (o: seq<Output>)
    ensures |o| == n
    ensures forall i :: 0 <= i < n ==> o[i] == Silence(samples)
  {
    seq(n, i => Silence(samples))
  }

  function Emit(c: Config, missed: nat, a: Arrival): seq<Output> {
    var n := Fill(c, missed);
    if a.pcmAccepts < n then Silences(c.pcmSamplesPerFrame, a.pcmAccepts)
    else Silences(c.pcmSamplesPerFrame, n) + [Forwarded(a.packet)]
  }

  function Count(c: Config, s: State, missed: nat, p: Packet): State {
    var s' := s.(lastTS := p.timestamp, lastSeq := p.seqNo, packets := s.packets + 1);
    if 0 < missed <= c.maxGapSize * RESET_FACTOR
    then s'.(gapCount := s.gapCount + 1, gapSizeSum := s.gapSizeSum + missed)
    else s'
  }

  /** The filler's state and both sinks' contents, interleaved, after a run. */
  function Run(c: Config, run: seq<Arrival>): (r: (State, seq<Output>))
    requires Usable(c)
  {
    if run == [] then (Start, [])
    else
      var (s, out) := Run(c, run[..|run| - 1]);
      var a := run[|run| - 1];
      var missed := Missed(c, s, a.packet);
      (Count(c, s, missed, a.packet), out + Emit(c, missed, a))
  }

  /** The limit in force: the last positive one given, or 25 frames. */
  predicate LimitGiven(limit: nat, given: seq<int>) {
    || (limit == 25 && forall i | 0 <= i < |given| :: given[i] <= 0)
    || (exists k | 0 <= k < |given| :: limit == given[k] > 0 && forall i | k < i < |given| :: given[i] <= 0)
  }

  lemma {:induction false} OneMoreOption(limit: nat, given: seq<int>, option: int)
    requires LimitGiven(limit, given)
    ensures LimitGiven(if option > 0 then option else limit, given + [option])
  {
    var all := given + [option];
    if option > 0 {
      assert all[|given|] == option;
    } else if k :| 0 <= k < |given| && limit == given[k] > 0 && forall i | k < i < |given| :: given[i] <= 0 {
      assert all[k] == given[k];
    }
  }

  class Filler {
    const config: Config
    var lastTS: uint32
    var lastSeq: uint16
    var packets: nat
    var gapCount: nat
    var gapSizeSum: nat
    var output: seq<Output>

    function Counters(): State
      reads this
    {
      State(lastTS, lastSeq, packets, gapCount, gapSizeSum)
    }

    /** A filler for these clock rates; each option that is positive replaces the limit of 25 frames. */
    constructor (rtpClockRate: uint32, pcmSampleRate: nat, maxGapSizes: seq<int>)
      ensures Counters() == Start && output == []
      ensures config.rtpSamplesPerFrame * 50 <= rtpClockRate < (config.rtpSamplesPerFrame + 1) * 50
      ensures config.pcmSamplesPerFrame * 50 <= pcmSampleRate < (config.pcmSamplesPerFrame + 1) * 50
      ensures Usable(config) <==> rtpClockRate >= 50
      ensures LimitGiven(config.maxGapSize, maxGapSizes)
    {
      var maxGap: nat := DEFAULT_MAX_GAP;
      for i := 0 to |maxGapSizes|
        invariant LimitGiven(maxGap, maxGapSizes[..i])
      {
        OneMoreOption(maxGap, maxGapSizes[..i], maxGapSizes[i]);
        assert maxGapSizes[..i + 1] == maxGapSizes[..i] + [maxGapSizes[i]];
        if maxGapSizes[i] > 0 {
          maxGap := maxGapSizes[i];
        }
      }
      assert maxGapSizes[..|maxGapSizes|] == maxGapSizes;
      config := Config(maxGap, rtpClockRate / FRAMES_PER_SECOND, pcmSampleRate / FRAMES_PER_SECOND);
      lastTS, lastSeq, packets, gapCount, gapSizeSum, output := 0, 0, 0, 0, 0, [];
    }

    method IsSilenceSuppression(p: Packet) returns (gap: bool, missed: nat)
      requires Usable(config)
      modifies `packets, `lastSeq, `lastTS
      ensures missed == Missed(config, old(Counters()), p) && gap == (missed > 0)
      ensures packets == old(packets) + 1 && lastSeq == p.seqNo && lastTS == p.timestamp
    {
      packets := packets + 1;
      var prevSeq, prevTS := lastSeq, lastTS;
      lastSeq, lastTS := p.seqNo, p.timestamp;
      if packets == 1 {
        return false, 0;
      }
      hide SeqDiff, TsDiff, WholeFrames;
      var seqDiff := SeqDiff(prevSeq, p.seqNo);
      var tsDiff := TsDiff(prevTS, p.timestamp, config.rtpSamplesPerFrame);
      if seqDiff != 0 {
        return false, 0;
      }
      var frames := WholeFrames(tsDiff, config.rtpSamplesPerFrame);
      if frames == 0 {
        return false, 0;
      }
      return true, frames;
    }

    method FillWithSilence(framesToFill: nat, accepts: nat) returns (ok: bool)
      modifies `output
      ensures ok == (framesToFill <= accepts)
      ensures output == old(output)
        + Silences(config.pcmSamplesPerFrame, if ok then framesToFill else accepts)
    {
      var left := framesToFill;
      while left > 0
        invariant 0 <= left <= framesToFill && framesToFill - left <= accepts
        invariant output == old(output) + Silences(config.pcmSamplesPerFrame, framesToFill - left)
      {
        if framesToFill - left == accepts {
          return false;
        }
        output := output + [Silence(config.pcmSamplesPerFrame)];
        left := left - 1;
      }
      return true;
    }

    method HandleRTP(p: Packet, pcmAccepts: nat, encodedOk: bool) returns (ok: bool)
      requires Usable(config)
      modifies this
      ensures var missed := Missed(config, old(Counters()), p);
        && Counters() == Count(config, old(Counters()), missed, p)
        && output == old(output) + Emit(config, missed, Arrival(p, pcmAccepts))
        && ok == (Fill(config, missed) <= pcmAccepts && encodedOk)
    {
      var gap, missed := IsSilenceSuppression(p);
      if gap && missed <= config.maxGapSize * RESET_FACTOR {
        gapCount := gapCount + 1;
        gapSizeSum := gapSizeSum + missed;
        if missed <= config.maxGapSize {
          var filled := FillWithSilence(missed, pcmAccepts);
          if !filled {
            return false;
          }
        }
      }
      output := output + [Forwarded(p)];
      return encodedOk;
    }
  }

  // One packet of any run

  /** Whether p continues the sequence of prev, its timestamp being this many whole frames, and less
      than one frame more, beyond the next one expected. */
  predicate Skips(c: Config, prev: Packet, p: Packet, frames: nat) {
    var over := (p.timestamp - prev.timestamp - c.rtpSamplesPerFrame) % 0x1_0000_0000;
    && p.seqNo == (prev.seqNo + 1) % 0x1_0000
    && frames * c.rtpSamplesPerFrame <= over < (frames + 1) * c.rtpSamplesPerFrame
  }

  /** Whether p skips this many frames after the last packet of the run. */
  predicate SkipsAfter(c: Config, run: seq<Arrival>, p: Packet, frames: nat) {
    run != [] && Skips(c, run[|run| - 1].packet, p, frames)
  }

  lemma {:induction false} SeqDiffZero(last: uint16, seqNo: uint16)
    ensures SeqDiff(last, seqNo) == 0 <==> seqNo == (last + 1) % 0x1_0000
  {
    SameResidue(last, seqNo);
  }

  lemma {:induction false} SameResidue(last: int, seqNo: int)
    requires 0 <= last < 0x1_0000 && 0 <= seqNo < 0x1_0000
    ensures (seqNo - (last + 1) % 0x1_0000) % 0x1_0000 == 0 <==> seqNo == (last + 1) % 0x1_0000
  {
    Residue(seqNo, (last + 1) % 0x1_0000);
  }

  lemma {:induction false} Residue(a: int, b: int)
    requires 0 <= a < 0x1_0000 && 0 <= b < 0x1_0000
    ensures (a - b) % 0x1_0000 == 0 <==> a == b
  {
  }

  lemma {:induction false} TsDiffIs(last: int, timestamp: int, step: int)
    ensures (timestamp - (last + step) % 0x1_0000_0000) % 0x1_0000_0000 == (timestamp - last - step) % 0x1_0000_0000
  {
  }

  lemma {:induction false} WholeFramesIs(over: nat, f: nat, frames: nat)
    requires f > 0
    ensures over / f == frames <==> frames * f <= over < (frames + 1) * f
  {
    assert (frames + 1) * f == frames * f + f;
    if frames * f <= over < (frames + 1) * f {
      Arithmetic.DivisionUnique(over, f, frames, over - frames * f);
    }
  }

  /** A packet is found to follow a gap exactly when it does. */
  lemma {:induction false} MissedExact(c: Config, s: State, prev: Packet, p: Packet, frames: nat)
    requires Usable(c) && s.packets > 0 && s.lastSeq == prev.seqNo && s.lastTS == prev.timestamp && frames > 0
    ensures Missed(c, s, p) == frames <==> Skips(c, prev, p, frames)
  {
    hide SeqDiff;
    SeqDiffZero(prev.seqNo, p.seqNo);
    TsDiffIs(prev.timestamp, p.timestamp, c.rtpSamplesPerFrame);
    var over := TsDiff(prev.timestamp, p.timestamp, c.rtpSamplesPerFrame);
    assert over == (p.timestamp - prev.timestamp - c.rtpSamplesPerFrame) % 0x1_0000_0000;
    WholeFramesIs(over, c.rtpSamplesPerFrame, frames);
  }

  /** What one more packet of any run adds, whatever came before: the silence that stands in for the
      frames it skips, up to the limit and until the PCM sink refuses, then the packet itself unless
      its silence was refused. The first packet and a packet out of sequence get no silence. Gaps up
      to a hundred times the limit are counted. */
  lemma {:induction false} PacketHandled(c: Config, run: seq<Arrival>, a: Arrival) returns (skipped: nat)
    requires Usable(c)
    ensures forall n: nat | n > 0 :: skipped == n <==> SkipsAfter(c, run, a.packet, n)
    ensures
      var (before, out) := Run(c, run);
      var (after, now) := Run(c, run + [a]);
      var silent := if skipped > c.maxGapSize then 0 else skipped;
      && (a.pcmAccepts >= silent ==>
            now == out + seq(silent, i => Silence(c.pcmSamplesPerFrame)) + [Forwarded(a.packet)])
      && (a.pcmAccepts < silent ==> now == out + seq(a.pcmAccepts, i => Silence(c.pcmSamplesPerFrame)))
      && after.gapCount == before.gapCount + (if 0 < skipped <= 100 * c.maxGapSize then 1 else 0)
      && after.gapSizeSum == before.gapSizeSum + (if 0 < skipped <= 100 * c.maxGapSize then skipped else 0)
  {
    var (before, out) := Run(c, run);
    skipped := Missed(c, before, a.packet);
    assert (run + [a])[..|run|] == run;
    if run != [] {
      LastSeen(c, run, |run| - 1);
      assert run[..|run|] == run;
    }
    forall n: nat | n > 0
      ensures skipped == n <==> SkipsAfter(c, run, a.packet, n)
    {
      if run != [] {
        MissedExact(c, before, run[|run| - 1].packet, a.packet, n);
      }
    }
    hide Missed, SkipsAfter;
  }

  // Whole runs

  function Forwards(out: seq<Output>): seq<Packet> {
    if out == [] then []
    else
      Forwards(out[..|out| - 1])
      + (if out[|out| - 1].Forwarded? then [out[|out| - 1].packet] else [])
  }

  lemma {:induction false} ForwardsAppend(a: seq<Output>, b: seq<Output>)
    ensures Forwards(a + b) == Forwards(a) + Forwards(b)
  {
    if b == [] {
      assert a + b == a;
    } else {
      var n := |b| - 1;
      ForwardsAppend(a, b[..n]);
      assert (a + b)[..|a + b| - 1] == a + b[..n];
    }
  }

  lemma {:induction false} SilencesForwardNothing(samples: nat, n: nat)
    ensures Forwards(Silences(samples, n)) == []
  {
    if n > 0 {
      SilencesForwardNothing(samples, n - 1);
      assert Silences(samples, n)[..n - 1] == Silences(samples, n - 1);
    }
  }

  /** Whether the PCM sink failed while silence was written before the last packet. */
  ghost predicate SilenceFailed(c: Config, before: seq<Arrival>, a: Arrival)
    requires Usable(c)
  {
    a.pcmAccepts < Fill(c, Missed(c, Run(c, before).0, a.packet))
  }

  /** The packets of a run for which no PCM failure occurred, in arrival order. */
  ghost function Delivered(c: Config, run: seq<Arrival>): seq<Packet>
    requires Usable(c)
  {
    if run == [] then []
    else
      var n := |run| - 1;
      Delivered(c, run[..n]) + if SilenceFailed(c, run[..n], run[n]) then [] else [run[n].packet]
  }

  lemma {:induction false} EmitForwards(c: Config, missed: nat, a: Arrival)
    ensures Forwards(Emit(c, missed, a)) == if a.pcmAccepts < Fill(c, missed) then [] else [a.packet]
  {
    var n := Fill(c, missed);
    SilencesForwardNothing(c.pcmSamplesPerFrame, if a.pcmAccepts < n then a.pcmAccepts else n);
    ForwardsAppend(Silences(c.pcmSamplesPerFrame, n), [Forwarded(a.packet)]);
    assert [Forwarded(a.packet)][..0] == [];
  }

  /** For any run at all, wrapped, lossy or out of order: every packet is forwarded once and in
      arrival order, except exactly those whose silence the PCM sink refused. */
  lemma {:induction false} ForwardedInOrder(c: Config, run: seq<Arrival>)
    requires Usable(c)
    ensures Forwards(Run(c, run).1) == Delivered(c, run)
  {
    if run != [] {
      var n := |run| - 1;
      ForwardedInOrder(c, run[..n]);
      var (s, out) := Run(c, run[..n]);
      var missed := Missed(c, s, run[n].packet);
      ForwardsAppend(out, Emit(c, missed, run[n]));
      EmitForwards(c, missed, run[n]);
    }
  }

  // The timeline of an in-order stream

  /** Frames from the first packet of a stream to its packet k, when gaps[i] frames are missing
      between packets i and i + 1. */
  function Distance(gaps: seq<nat>, k: nat): (d: nat)
    requires k <= |gaps|
    ensures d >= k
  {
    if k == 0 then 0 else Distance(gaps, k - 1) + gaps[k - 1] + 1
  }

  ghost predicate SentAt(c: Config, run: seq<Arrival>, gaps: seq<nat>, k: nat)
    requires |run| == |gaps| + 1 && k < |run|
  {
    && run[k].packet.seqNo == (run[0].packet.seqNo + k) % 0x1_0000
    && run[k].packet.timestamp
      == (run[0].packet.timestamp + Distance(gaps, k) * c.rtpSamplesPerFrame) % 0x1_0000_0000
    && run[k].pcmAccepts >= c.maxGapSize
  }

  /** An in-order stream without loss, starting anywhere: consecutive sequence numbers, and
      timestamps that advance by whole frames, both wrapping. Silence is always accepted. */
  ghost predicate InOrder(c: Config, run: seq<Arrival>, gaps: seq<nat>)
    requires |run| == |gaps| + 1
  {
    && (forall k :: 0 <= k < |run| ==> SentAt(c, run, gaps, k))
    && forall i :: 0 <= i < |gaps| ==> gaps[i] * c.rtpSamplesPerFrame < 0x1_0000_0000
  }

  /** Packet j stands at its true distance in frames, and back to the packet before is silence. */
  ghost predicate Placed(c: Config, out: seq<Output>, run: seq<Arrival>, gaps: seq<nat>, j: nat)
    requires |run| == |gaps| + 1 && j <= |gaps|
  {
    && Distance(gaps, j) < |out|
    && out[Distance(gaps, j)] == Forwarded(run[j].packet)
    && (j > 0 ==> forall i :: Distance(gaps, j - 1) < i < Distance(gaps, j) ==>
      out[i] == Silence(c.pcmSamplesPerFrame))
  }

  ghost predicate OnTimeline(c: Config, out: seq<Output>, run: seq<Arrival>, gaps: seq<nat>, k: nat)
    requires |run| == |gaps| + 1 && k <= |gaps|
  {
    && |out| == Distance(gaps, k) + 1
    && forall j :: 0 <= j <= k ==> Placed(c, out, run, gaps, j)
  }

  lemma {:induction false} NextSequence(s0: uint16, k: nat)
    ensures SeqDiff((s0 + k) % 0x1_0000, (s0 + (k + 1)) % 0x1_0000) == 0
  {
  }

  /** Timestamps d and e frames after t0, e being gap + 1 frames after d. */
  lemma {:induction false} FramesMissing(t0: uint32, d: nat, gap: nat, e: nat, f: uint32)
    requires f > 0 && gap * f < 0x1_0000_0000 && e == d + gap + 1
    ensures TsDiff((t0 + d * f) % 0x1_0000_0000, (t0 + e * f) % 0x1_0000_0000, f) / f == gap
  {
    var from, over := d * f, gap * f;
    Distributed(d, gap, e, f);
    WrappedAdvance(t0 + from, over, f);
    hide TsDiff;
    Arithmetic.DivisionUnique(over, f, gap, 0);
  }

  lemma {:induction false} Distributed(d: nat, gap: nat, e: nat, f: int)
    requires e == d + gap + 1
    ensures e * f == d * f + gap * f + f
  {
  }

  lemma {:induction false} WrappedAdvance(b: int, g: uint32, f: uint32)
    ensures TsDiff(b % 0x1_0000_0000, (b + g + f) % 0x1_0000_0000, f) == g
  {
  }

  lemma {:induction false} MissedInOrder(c: Config, s: State, p: Packet, s0: uint16, t0: uint32,
                                         k: nat, d: nat, gap: nat, e: nat)
    requires Usable(c) && s.packets > 0 && gap * c.rtpSamplesPerFrame < 0x1_0000_0000
    requires s.lastSeq == (s0 + k) % 0x1_0000 && p.seqNo == (s0 + (k + 1)) % 0x1_0000
    requires s.lastTS == (t0 + d * c.rtpSamplesPerFrame) % 0x1_0000_0000
    requires p.timestamp == (t0 + e * c.rtpSamplesPerFrame) % 0x1_0000_0000 && e == d + gap + 1
    ensures Missed(c, s, p) == gap
  {
    hide SeqDiff, TsDiff;
    NextSequence(s0, k);
    FramesMissing(t0, d, gap, e, c.rtpSamplesPerFrame);
  }

  /** In an in-order stream the gap found before packet k + 1 is exactly the missing frames. */
  lemma {:induction false} GapDetected(c: Config, run: seq<Arrival>, gaps: seq<nat>, k: nat)
    requires Usable(c) && |run| == |gaps| + 1 && InOrder(c, run, gaps) && k < |gaps|
    ensures Missed(c, Run(c, run[..k + 1]).0, run[k + 1].packet) == gaps[k]
  {
    LastSeen(c, run, k);
    assert Distance(gaps, k + 1) == Distance(gaps, k) + gaps[k] + 1;
    assert SentAt(c, run, gaps, k) && SentAt(c, run, gaps, k + 1);
    hide Run, Missed, Distance, InOrder;
    MissedInOrder(c, Run(c, run[..k + 1]).0, run[k + 1].packet, run[0].packet.seqNo, run[0].packet.timestamp,
                  k, Distance(gaps, k), gaps[k], Distance(gaps, k + 1));
  }

  lemma {:induction false} LastSeen(c: Config, run: seq<Arrival>, k: nat)
    requires Usable(c) && k < |run|
    ensures var s := Run(c, run[..k + 1]).0;
      s.packets == k + 1 && s.lastSeq == run[k].packet.seqNo && s.lastTS == run[k].packet.timestamp
  {
    assert run[..k + 1][..k] == run[..k];
    if k > 0 {
      LastSeen(c, run, k - 1);
    }
  }

  lemma {:induction false} OneMore(c: Config, run: seq<Arrival>, gaps: seq<nat>, k: nat)
    requires Usable(c) && |run| == |gaps| + 1 && InOrder(c, run, gaps) && k < |gaps|
    ensures Run(c, run[..k + 2]).1
      == Run(c, run[..k + 1]).1
        + (Silences(c.pcmSamplesPerFrame, Fill(c, gaps[k])) + [Forwarded(run[k + 1].packet)])
  {
    assert run[..k + 2][..k + 1] == run[..k + 1];
    assert SentAt(c, run, gaps, k + 1);
    GapDetected(c, run, gaps, k);
    hide InOrder, Distance, Missed;
  }

  lemma {:induction false} FirstPacket(c: Config, run: seq<Arrival>)
    requires Usable(c) && |run| > 0
    ensures Run(c, run[..1]).1 == [Forwarded(run[0].packet)]
  {
    assert run[..1][..0] == [];
  }

  lemma {:induction false} StillPlaced(c: Config, out: seq<Output>, tail: seq<Output>, run: seq<Arrival>,
                                       gaps: seq<nat>, j: nat)
    requires |run| == |gaps| + 1 && j <= |gaps| && Placed(c, out, run, gaps, j)
    ensures Placed(c, out + tail, run, gaps, j)
  {
    hide Distance;
  }

  lemma {:induction false} OneGapLater(c: Config, out: seq<Output>, run: seq<Arrival>, gaps: seq<nat>, k: nat)
    requires |run| == |gaps| + 1 && k < |gaps| && OnTimeline(c, out, run, gaps, k)
    ensures OnTimeline(c, out + (Silences(c.pcmSamplesPerFrame, gaps[k]) + [Forwarded(run[k + 1].packet)]),
                       run, gaps, k + 1)
  {
    assert Distance(gaps, k + 1) == Distance(gaps, k) + gaps[k] + 1;
    var tail := Silences(c.pcmSamplesPerFrame, gaps[k]) + [Forwarded(run[k + 1].packet)];
    assert Placed(c, out + tail, run, gaps, k + 1) by {
      hide Distance, Silences;
    }
    forall j | 0 <= j <= k
      ensures Placed(c, out + tail, run, gaps, j)
    {
      StillPlaced(c, out, tail, run, gaps, j);
    }
    hide Placed, Distance, Silences;
  }

  lemma {:induction false} TimelineTo(c: Config, run: seq<Arrival>, gaps: seq<nat>, k: nat)
    requires Usable(c) && |run| == |gaps| + 1 && InOrder(c, run, gaps) && k <= |gaps|
    requires forall i :: 0 <= i < k ==> gaps[i] <= c.maxGapSize
    ensures OnTimeline(c, Run(c, run[..k + 1]).1, run, gaps, k)
  {
    hide Run, Missed, Emit, InOrder, Silences;
    if k == 0 {
      FirstPacket(c, run);
    } else {
      TimelineTo(c, run, gaps, k - 1);
      hide Placed, OnTimeline;
      OneMore(c, run, gaps, k - 1);
      OneGapLater(c, Run(c, run[..k]).1, run, gaps, k - 1);
      assert Fill(c, gaps[k - 1]) == gaps[k - 1];
    }
  }

  /** How far an in-order stream's output has got: never beyond its timeline, and exactly there
      when, and only when, no gap so far exceeded the limit. */
  lemma {:induction false} LengthTo(c: Config, run: seq<Arrival>, gaps: seq<nat>, k: nat)
    requires Usable(c) && |run| == |gaps| + 1 && InOrder(c, run, gaps) && k <= |gaps|
    ensures var n := |Run(c, run[..k + 1]).1|;
      && n <= Distance(gaps, k) + 1
      && (n == Distance(gaps, k) + 1 <==> forall i :: 0 <= i < k ==> gaps[i] <= c.maxGapSize)
  {
    hide Run, InOrder, Missed, Emit;
    if k == 0 {
      FirstPacket(c, run);
    } else {
      LengthTo(c, run, gaps, k - 1);
      OneMore(c, run, gaps, k - 1);
    }
  }

  /** For in-order streams of any length, over any number of sequence and timestamp wraps: the
      output is on the stream's timeline exactly when no gap exceeds the filling limit. */
  lemma {:induction false} TimelineExact(c: Config, run: seq<Arrival>, gaps: seq<nat>)
    requires Usable(c) && |run| == |gaps| + 1 && InOrder(c, run, gaps)
    ensures OnTimeline(c, Run(c, run).1, run, gaps, |gaps|)
      <==> forall i :: 0 <= i < |gaps| ==> gaps[i] <= c.maxGapSize
  {
    assert run[..|gaps| + 1] == run;
    LengthTo(c, run, gaps, |gaps|);
    if forall i :: 0 <= i < |gaps| ==> gaps[i] <= c.maxGapSize {
      TimelineTo(c, run, gaps, |gaps|);
    }
  }

  // Independence of the starting sequence number and timestamp

  function Shift(p: Packet, ds: uint16, dt: uint32): Packet {
    p.(seqNo := (p.seqNo + ds) % 0x1_0000, timestamp := (p.timestamp + dt) % 0x1_0000_0000)
  }

  function ShiftRun(run: seq<Arrival>, ds: uint16, dt: uint32): (r: seq<Arrival>)
    ensures |r| == |run|
  {
    seq(|run|, i requires 0 <= i < |run| => run[i].(packet := Shift(run[i].packet, ds, dt)))
  }

  function ShiftOutput(out: seq<Output>, ds: uint16, dt: uint32): (r: seq<Output>)
    ensures |r| == |out|
  {
    seq(|out|, i requires 0 <= i < |out| =>
      if out[i].Silence? then out[i] else Forwarded(Shift(out[i].packet, ds, dt)))
  }

  ghost predicate Shifted(s: State, t: State, ds: uint16, dt: uint32) {
    && t.packets == s.packets && t.gapCount == s.gapCount && t.gapSizeSum == s.gapSizeSum
    && (s.packets > 0 ==> t.lastSeq == (s.lastSeq + ds) % 0x1_0000 && t.lastTS == (s.lastTS + dt) % 0x1_0000_0000)
  }

  lemma {:induction false} MissedShift(c: Config, s: State, t: State, p: Packet, ds: uint16, dt: uint32)
    requires Usable(c) && Shifted(s, t, ds, dt)
    ensures Missed(c, t, Shift(p, ds, dt)) == Missed(c, s, p)
  {
    hide WholeFrames, SeqDiff, TsDiff;
    if s.packets > 0 {
      ShiftedSequence(p.seqNo, s.lastSeq, ds);
      ShiftedTimestamp(p.timestamp, s.lastTS, c.rtpSamplesPerFrame, dt);
    }
  }

  lemma {:induction false} ShiftedModulo(x: int, y: int, step: int, d: int)
    ensures ((x + d) % 0x1_0000_0000 - ((y + d) % 0x1_0000_0000 + step) % 0x1_0000_0000) % 0x1_0000_0000
      == (x - (y + step) % 0x1_0000_0000) % 0x1_0000_0000
  {
  }

  lemma {:induction false} ShiftedShortModulo(x: int, y: int, d: int)
    ensures ((x + d) % 0x1_0000 - ((y + d) % 0x1_0000 + 1) % 0x1_0000) % 0x1_0000
      == (x - (y + 1) % 0x1_0000) % 0x1_0000
  {
  }

  lemma {:induction false} ShiftedSequence(x: uint16, y: uint16, d: uint16)
    ensures SeqDiff((y + d) % 0x1_0000, (x + d) % 0x1_0000) == SeqDiff(y, x)
  {
    ShiftedShortModulo(x, y, d);
  }

  lemma {:induction false} ShiftedTimestamp(x: uint32, y: uint32, step: uint32, d: uint32)
    ensures TsDiff((y + d) % 0x1_0000_0000, (x + d) % 0x1_0000_0000, step) == TsDiff(y, x, step)
  {
    ShiftedModulo(x, y, step, d);
  }

  /** Adding constants to all sequence numbers and timestamps, with wrap-around, changes nothing
      but those fields of what is forwarded; the gap statistics stay the same. */
  lemma {:induction false} ShiftInvariant(c: Config, run: seq<Arrival>, ds: uint16, dt: uint32)
    requires Usable(c)
    ensures Shifted(Run(c, run).0, Run(c, ShiftRun(run, ds, dt)).0, ds, dt)
    ensures Run(c, ShiftRun(run, ds, dt)).1 == ShiftOutput(Run(c, run).1, ds, dt)
  {
    hide SeqDiff, TsDiff, WholeFrames, Count;
    StartShifted(ds, dt);
    var shifted := ShiftRun(run, ds, dt);
    if run != [] {
      var n := |run| - 1;
      ShiftInvariant(c, run[..n], ds, dt);
      assert shifted[..n] == ShiftRun(run[..n], ds, dt);
      assert shifted[n] == run[n].(packet := Shift(run[n].packet, ds, dt));
      hide ShiftRun, Shift;
      var (s, out) := Run(c, run[..n]);
      var (t, outT) := Run(c, shifted[..n]);
      MissedShift(c, s, t, run[n].packet, ds, dt);
      var missed := Missed(c, s, run[n].packet);
      EmitShift(c, missed, run[n], ds, dt);
      CountShift(c, s, t, missed, run[n].packet, ds, dt);
      hide Missed, Emit, ShiftOutput, Shifted;
      ShiftOutputAppend(out, Emit(c, missed, run[n]), ds, dt);
    }
  }

  lemma {:induction false} StartShifted(ds: uint16, dt: uint32)
    ensures Shifted(Start, Start, ds, dt)
  {
  }

  lemma {:induction false} CountShift(c: Config, s: State, t: State, missed: nat, p: Packet, ds: uint16, dt: uint32)
    requires Shifted(s, t, ds, dt)
    ensures Shifted(Count(c, s, missed, p), Count(c, t, missed, Shift(p, ds, dt)), ds, dt)
  {
  }

  lemma {:induction false} ShiftOutputAppend(a: seq<Output>, b: seq<Output>, ds: uint16, dt: uint32)
    ensures ShiftOutput(a + b, ds, dt) == ShiftOutput(a, ds, dt) + ShiftOutput(b, ds, dt)
  {
  }

  lemma {:induction false} EmitShift(c: Config, missed: nat, a: Arrival, ds: uint16, dt: uint32)
    ensures Emit(c, missed, a.(packet := Shift(a.packet, ds, dt))) == ShiftOutput(Emit(c, missed, a), ds, dt)
  {
  }
}
