/** Re-chunking of PCM audio into the fixed frames an Opus codec takes, over an input buffer
    that is shifted in place, with codec and writer errors part-way. */
module OpusEncoder {
  import Arithmetic

  type sample = x: int | -0x8000 <= x < 0x8000

  /** Consecutive codec errors are logged, and counted, up to this many. */
  const MAX_LOGGED_ERRORS := 5

  datatype Outcome = Success | CodecError | WriterError

  /** One call's input, with how many of its frames the codec encodes, and the writer takes,
      before failing. */
  datatype Call = Call(input: seq<sample>, encodes: nat, writes: nat)

  /** Frames handed to the codec so far, those whose encoding the writer took, the samples kept
      for the next frame, and the error count. */
  datatype State = State(handed: seq<seq<sample>>, written: seq<seq<sample>>, residual: seq<sample>, errors: nat)

  const Start := State([], [], [], 0)

  /** Encoding whole frames of the residual, the next one being the j-th of the call. */
  function Drain(samples: nat, s: State, c: Call, j: nat): (State, Outcome)
    requires samples > 0
    decreases |s.residual|
  {
    if |s.residual| < samples then (s, Success)
    else
      var frame := s.residual[..samples];
      var s' := State(s.handed + [frame], s.written, s.residual[samples..], 0);
      if j == c.encodes then
        (s'.(errors := if s.errors < MAX_LOGGED_ERRORS then s.errors + 1 else s.errors), CodecError)
      else if j == c.writes then (s', WriterError)
      else Drain(samples, s'.(written := s.written + [frame]), c, j + 1)
  }

  function Write(samples: nat, s: State, c: Call): (State, Outcome)
    requires samples > 0
  {
    Drain(samples, s.(residual := s.residual + c.input), c, 0)
  }

  function Run(samples: nat, calls: seq<Call>): State
    requires samples > 0
  {
    if calls == [] then Start else Write(samples, Run(samples, calls[..|calls| - 1]), calls[|calls| - 1]).0
  }

  class Encoder {
    const samples: nat
    var inbuf: array<sample>
    var len: nat
    var errors: nat
    var handed: seq<seq<sample>>
    var written: seq<seq<sample>>

    ghost predicate Valid()
      reads this
    {
      len <= inbuf.Length && samples > 0
    }

    function Contents(): State
      requires Valid()
      reads this, inbuf
    {
      State(handed, written, inbuf[..len], errors)
    }

    constructor (samples: nat)
      requires samples > 0
      ensures Valid() && fresh(inbuf) && this.samples == samples && Contents() == Start
    {
      this.samples := samples;
      inbuf := new sample[0];
      len, errors, handed, written := 0, 0, [], [];
    }

    method Grow(capacity: nat)
      requires Valid() && len <= capacity
      modifies `inbuf
      ensures Valid() && fresh(inbuf) && inbuf.Length == capacity
      ensures Contents() == old(Contents())
    {
      var larger := new sample[capacity];
      for k := 0 to len
        modifies larger
        invariant forall i :: 0 <= i < k ==> larger[i] == inbuf[i]
      {
        larger[k] := inbuf[k];
      }
      assert larger[..len] == inbuf[..len];
      inbuf := larger;
    }

    /** Appending in place while the capacity lasts, else into a larger buffer; how much larger
        makes no difference. */
    method Append(input: seq<sample>)
      requires Valid()
      modifies `inbuf, `len, inbuf
      ensures Valid() && (inbuf == old(inbuf) || fresh(inbuf))
      ensures Contents() == old(Contents()).(residual := old(Contents()).residual + input)
    {
      if len + |input| > inbuf.Length {
        Grow(2 * (len + |input|));
      }
      label Room:
      for k := 0 to |input|
        modifies inbuf
        invariant forall i :: 0 <= i < len ==> inbuf[i] == old@Room(inbuf[i])
        invariant forall i :: len <= i < len + k ==> inbuf[i] == input[i - len]
      {
        inbuf[len + k] := input[k];
      }
      assert inbuf[..len + |input|] == old@Room(inbuf[..len]) + input;
      len := len + |input|;
    }

    /** Moving the samples behind the first frame to the front of the same buffer. */
    method ShiftFrame()
      requires Valid() && len >= samples
      modifies `len, inbuf
      ensures Valid() && inbuf == old(inbuf)
      ensures Contents() == old(Contents()).(residual := old(Contents()).residual[samples..])
    {
      var sz := len - samples;
      for k := 0 to sz
        modifies inbuf
        invariant forall i :: 0 <= i < k ==> inbuf[i] == old(inbuf[samples + i])
        invariant forall i :: k <= i < len ==> inbuf[i] == old(inbuf[i])
      {
        inbuf[k] := inbuf[samples + k];
      }
      len := sz;
    }

    method WriteSample(c: Call) returns (outcome: Outcome)
      requires Valid()
      modifies this, inbuf
      ensures Valid() && (inbuf == old(inbuf) || fresh(inbuf))
      ensures (Contents(), outcome) == Write(samples, old(Contents()), c)
    {
      ghost var target := Write(samples, old(Contents()), c);
      Append(c.input);
      var j := 0;
      hide Write;
      while len >= samples
        invariant Valid() && (inbuf == old(inbuf) || fresh(inbuf))
        invariant target == Drain(samples, Contents(), c, j)
        decreases len
      {
        var frame := inbuf[..samples];
        assert frame == Contents().residual[..samples];
        var encoded := j != c.encodes;
        handed := handed + [frame];
        ShiftFrame();
        if !encoded {
          if errors < MAX_LOGGED_ERRORS {
            errors := errors + 1;
          }
          return CodecError;
        }
        errors := 0;
        if j == c.writes {
          return WriterError;
        }
        written := written + [frame];
        j := j + 1;
      }
      return Success;
    }

    /** Handing over what is left, of whatever length, before the writer is closed. */
    method Close(encodeOk: bool, writeOk: bool, closeOk: bool) returns (ok: bool)
      requires Valid()
      modifies `handed, `written
      ensures Valid() && Contents().residual == old(Contents()).residual
      ensures handed == old(handed) + (if len == 0 then [] else [Contents().residual])
      ensures written == old(written) + (if len > 0 && encodeOk && writeOk then [Contents().residual] else [])
      ensures ok == ((len == 0 || (encodeOk && writeOk)) && closeOk)
    {
      var flushed := true;
      if len > 0 {
        var frame := inbuf[..len];
        handed := handed + [frame];
        flushed := encodeOk && writeOk;
        if flushed {
          written := written + [frame];
        }
      }
      return flushed && closeOk;
    }
  }

  function Joined(parts: seq<seq<sample>>): seq<sample> {
    if parts == [] then [] else Joined(parts[..|parts| - 1]) + parts[|parts| - 1]
  }

  lemma {:induction false} JoinedMore(parts: seq<seq<sample>>, part: seq<sample>, rest: seq<sample>)
    ensures Joined(parts + [part]) + rest == Joined(parts) + (part + rest)
  {
    assert (parts + [part])[..|parts|] == parts;
  }

  function Inputs(calls: seq<Call>): seq<seq<sample>> {
    seq(|calls|, i requires 0 <= i < |calls| => calls[i].input)
  }

  /** Every frame handed over is exactly one codec frame long. */
  ghost predicate Framed(samples: nat, frames: seq<seq<sample>>) {
    forall j :: 0 <= j < |frames| ==> |frames[j]| == samples
  }

  lemma {:induction false} DrainConserves(samples: nat, s: State, c: Call, j: nat)
    requires samples > 0 && Framed(samples, s.handed)
    ensures var (s', outcome) := Drain(samples, s, c, j);
      && Joined(s'.handed) + s'.residual == Joined(s.handed) + s.residual
      && Framed(samples, s'.handed)
      && (outcome == Success ==> |s'.residual| < samples)
    decreases |s.residual|
  {
    if |s.residual| >= samples {
      var frame, rest := s.residual[..samples], s.residual[samples..];
      assert frame + rest == s.residual;
      JoinedMore(s.handed, frame, rest);
      hide Joined;
      if j != c.encodes && j != c.writes {
        DrainConserves(samples, State(s.handed + [frame], s.written + [frame], rest, 0), c, j + 1);
      }
    }
  }

  /** Over any run of calls, whatever failed: the frames handed to the codec followed by the
      residual are exactly all the input, and every frame has exactly the codec's length. */
  lemma {:induction false} NothingLost(samples: nat, calls: seq<Call>)
    requires samples > 0
    ensures var s := Run(samples, calls);
      Joined(s.handed) + s.residual == Joined(Inputs(calls)) && Framed(samples, s.handed)
  {
    if calls != [] {
      var n := |calls| - 1;
      NothingLost(samples, calls[..n]);
      var s := Run(samples, calls[..n]);
      DrainConserves(samples, s.(residual := s.residual + calls[n].input), calls[n], 0);
      assert Inputs(calls)[..n] == Inputs(calls[..n]);
      assert Joined(s.handed) + (s.residual + calls[n].input) == Joined(s.handed) + s.residual + calls[n].input;
    }
  }

  /** There is only one way to cut samples into whole frames and a shorter rest. */
  lemma {:induction false} CutOnce(samples: nat, f: seq<seq<sample>>, r: seq<sample>,
                                   g: seq<seq<sample>>, q: seq<sample>)
    requires Framed(samples, f) && Framed(samples, g) && |r| < samples && |q| < samples
    requires Joined(f) + r == Joined(g) + q
    ensures f == g && r == q
  {
    JoinedLength(samples, f);
    JoinedLength(samples, g);
    Arithmetic.DivisionUnique(|Joined(f)| + |r|, samples, |f|, |r|);
    Arithmetic.DivisionUnique(|Joined(g)| + |q|, samples, |g|, |q|);
    assert |Joined(f) + r| == |Joined(g) + q|;
    var n := |Joined(f)|;
    assert (Joined(f) + r)[..n] == Joined(f) && (Joined(g) + q)[..n] == Joined(g);
    assert (Joined(f) + r)[n..] == r && (Joined(g) + q)[n..] == q;
    SameFrames(samples, f, g);
  }

  lemma {:induction false} JoinedLength(samples: nat, f: seq<seq<sample>>)
    requires Framed(samples, f)
    ensures |Joined(f)| == |f| * samples
  {
    if f != [] {
      var n := |f| - 1;
      JoinedLength(samples, f[..n]);
      assert |f| * samples == n * samples + samples;
    }
  }

  lemma {:induction false} SameFrames(samples: nat, f: seq<seq<sample>>, g: seq<seq<sample>>)
    requires Framed(samples, f) && Framed(samples, g) && |f| == |g| && Joined(f) == Joined(g)
    ensures f == g
  {
    if f != [] {
      var n := |f| - 1;
      var front, back := Joined(f[..n]), Joined(g[..n]);
      JoinedLength(samples, f[..n]);
      JoinedLength(samples, g[..n]);
      assert (front + f[n])[..|front|] == front && (back + g[n])[..|back|] == back;
      assert (front + f[n])[|front|..] == f[n] && (back + g[n])[|back|..] == g[n];
      SameFrames(samples, f[..n], g[..n]);
      assert f == f[..n] + [f[n]] && g == g[..n] + [g[n]];
    }
  }

  /** The whole frames of some samples, in order. */
  function Chunks(samples: nat, r: seq<sample>): seq<seq<sample>>
    requires samples > 0
  {
    if |r| < samples then [] else [r[..samples]] + Chunks(samples, r[samples..])
  }

  lemma {:induction false} JoinedFront(part: seq<sample>, parts: seq<seq<sample>>)
    ensures Joined([part] + parts) == part + Joined(parts)
    decreases |parts|
  {
    if parts == [] {
      assert [part] + [] == [part] && [part][..0] == [];
    } else {
      var n, all := |parts| - 1, [part] + parts;
      JoinedFront(part, parts[..n]);
      assert all[..n + 1] == [part] + parts[..n] && all[n + 1] == parts[n];
      assert Joined(all) == Joined(all[..n + 1]) + all[n + 1];
      assert Joined(parts) == Joined(parts[..n]) + parts[n];
      hide Joined;
      assert part + Joined(parts[..n]) + parts[n] == part + (Joined(parts[..n]) + parts[n]);
    }
  }

  /** They are the only way to cut the samples into frames of the codec's length and a shorter rest. */
  lemma {:induction false} ChunksExact(samples: nat, r: seq<sample>, frames: seq<seq<sample>>, rest: seq<sample>)
    requires samples > 0 && Framed(samples, frames) && |rest| < samples && r == Joined(frames) + rest
    ensures Chunks(samples, r) == frames
  {
    var tail := ChunksCut(samples, r);
    CutOnce(samples, Chunks(samples, r), tail, frames, rest);
  }

  lemma {:induction false} ChunksCut(samples: nat, r: seq<sample>) returns (tail: seq<sample>)
    requires samples > 0
    ensures Framed(samples, Chunks(samples, r)) && |tail| < samples && Joined(Chunks(samples, r)) + tail == r
    decreases |r|
  {
    tail := r;
    if |r| >= samples {
      tail := ChunksCut(samples, r[samples..]);
      var rest := Chunks(samples, r[samples..]);
      JoinedFront(r[..samples], rest);
      assert r == r[..samples] + r[samples..];
      assert r[..samples] + (Joined(rest) + tail) == r[..samples] + Joined(rest) + tail;
    }
  }

  lemma {:induction false} DrainExact(samples: nat, s: State, c: Call, j: nat)
    requires samples > 0 && j <= c.encodes && j <= c.writes
    ensures
      var frames := Chunks(samples, s.residual);
      var k := (if c.encodes <= c.writes then c.encodes else c.writes) - j;
      var (t, outcome) := Drain(samples, s, c, j);
      && (k >= |frames| ==>
            && outcome == Success
            && t.handed == s.handed + frames && t.written == s.written + frames
            && t.errors == (if frames == [] then s.errors else 0))
      && (k < |frames| ==>
            && outcome == (if c.encodes <= c.writes then CodecError else WriterError)
            && t.handed == s.handed + frames[..k + 1] && t.written == s.written + frames[..k]
            && t.errors == (if outcome == WriterError then 0
                            else if k > 0 then 1
                            else if s.errors < 5 then s.errors + 1 else s.errors))
    decreases |s.residual|
  {
    var frames := Chunks(samples, s.residual);
    if |s.residual| < samples {
      assert s.handed + [] == s.handed && s.written + [] == s.written;
    } else {
      var frame, rest := s.residual[..samples], s.residual[samples..];
      var more := Chunks(samples, rest);
      var k := (if c.encodes <= c.writes then c.encodes else c.writes) - j;
      assert frames == [frame] + more;
      assert [frame] + more[..0] == [frame] == frames[..1] && frames[..0] == [];
      if k > 0 {
        DrainExact(samples, State(s.handed + [frame], s.written + [frame], rest, 0), c, j + 1);
        Shifted(s.handed, frame, more);
        Shifted(s.written, frame, more);
      } else {
        assert s.written + [] == s.written;
      }
    }
  }

  lemma {:induction false} Shifted(a: seq<seq<sample>>, frame: seq<sample>, more: seq<seq<sample>>)
    ensures a + [frame] + more == a + ([frame] + more)
    ensures forall k | 0 <= k <= |more| :: a + [frame] + more[..k] == a + ([frame] + more)[..k + 1]
  {
    forall k | 0 <= k <= |more|
      ensures a + [frame] + more[..k] == a + ([frame] + more)[..k + 1]
    {
      assert ([frame] + more)[..k + 1] == [frame] + more[..k];
    }
  }

  /** What one call does, from any state: of the frames that the kept and the new samples make up,
      all are handed over and written up to the first that the codec or the writer refuses; that
      frame is handed over and lost, and the call fails with the error of whoever refused it. The
      count of successive codec errors stops at five and starts again after any encoded frame. */
  lemma {:induction false} CallExact(samples: nat, s: State, c: Call)
    requires samples > 0
    ensures
      var frames := Chunks(samples, s.residual + c.input);
      var k := if c.encodes <= c.writes then c.encodes else c.writes;
      var (t, outcome) := Write(samples, s, c);
      && (k >= |frames| ==>
            && outcome == Success
            && t.handed == s.handed + frames && t.written == s.written + frames
            && t.errors == (if frames == [] then s.errors else 0))
      && (k < |frames| ==>
            && outcome == (if c.encodes <= c.writes then CodecError else WriterError)
            && t.handed == s.handed + frames[..k + 1] && t.written == s.written + frames[..k]
            && t.errors == (if outcome == WriterError then 0
                            else if k > 0 then 1
                            else if s.errors < 5 then s.errors + 1 else s.errors))
  {
    DrainExact(samples, s.(residual := s.residual + c.input), c, 0);
  }

  predicate LastSucceeds(samples: nat, calls: seq<Call>)
    requires samples > 0
  {
    calls == [] || Write(samples, Run(samples, calls[..|calls| - 1]), calls[|calls| - 1]).1 == Success
  }

  /** How the input was split into calls, and which earlier calls failed, makes no difference to
      the frames handed to the codec once a call has succeeded. */
  lemma {:induction false} SplitDoesNotMatter(samples: nat, calls: seq<Call>, others: seq<Call>)
    requires samples > 0
    requires LastSucceeds(samples, calls) && LastSucceeds(samples, others)
    requires Joined(Inputs(calls)) == Joined(Inputs(others))
    ensures Run(samples, calls).handed == Run(samples, others).handed
    ensures Run(samples, calls).residual == Run(samples, others).residual
  {
    NothingLost(samples, calls);
    NothingLost(samples, others);
    ResidualShort(samples, calls);
    ResidualShort(samples, others);
    var s, t := Run(samples, calls), Run(samples, others);
    CutOnce(samples, s.handed, s.residual, t.handed, t.residual);
  }

  lemma {:induction false} ResidualShort(samples: nat, calls: seq<Call>)
    requires samples > 0 && LastSucceeds(samples, calls)
    ensures |Run(samples, calls).residual| < samples
  {
    if calls != [] {
      var n := |calls| - 1;
      var s := Run(samples, calls[..n]);
      NothingLost(samples, calls[..n]);
      DrainConserves(samples, s.(residual := s.residual + calls[n].input), calls[n], 0);
    }
  }

  function Failures(samples: nat, calls: seq<Call>): nat
    requires samples > 0
  {
    if calls == [] then 0
    else Failures(samples, calls[..|calls| - 1]) + (if LastSucceeds(samples, calls) then 0 else 1)
  }

  lemma {:induction false} DrainLosesOne(samples: nat, s: State, c: Call, j: nat)
    requires samples > 0
    ensures var (s', outcome) := Drain(samples, s, c, j);
      |s'.handed| - |s'.written| == |s.handed| - |s.written| + (if outcome == Success then 0 else 1)
    decreases |s.residual|
  {
    if |s.residual| >= samples && j != c.encodes && j != c.writes {
      var frame, rest := s.residual[..samples], s.residual[samples..];
      DrainLosesOne(samples, State(s.handed + [frame], s.written + [frame], rest, 0), c, j + 1);
    }
  }

  /** Each call that fails costs exactly one frame of audio; nothing else keeps a frame from the
      writer. */
  lemma {:induction false} OneFramePerFailure(samples: nat, calls: seq<Call>)
    requires samples > 0
    ensures var s := Run(samples, calls); |s.handed| == |s.written| + Failures(samples, calls)
  {
    if calls != [] {
      var n := |calls| - 1;
      OneFramePerFailure(samples, calls[..n]);
      var s := Run(samples, calls[..n]);
      DrainLosesOne(samples, s.(residual := s.residual + calls[n].input), calls[n], 0);
    }
  }

  /** With Close, which hands over the residual, the codec has been given all the input. */
  lemma {:induction false} CloseHandsOverAll(samples: nat, calls: seq<Call>)
    requires samples > 0
    ensures var s := Run(samples, calls);
      Joined(s.handed + (if s.residual == [] then [] else [s.residual])) == Joined(Inputs(calls))
  {
    NothingLost(samples, calls);
    var s := Run(samples, calls);
    JoinedMore(s.handed, s.residual, []);
    assert s.handed + [] == s.handed;
  }
}
