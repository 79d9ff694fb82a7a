/** Reassembly of RTP payloads into an Annex-B stream: single NAL unit packets, STAP-A and
    FU-A (sections 5.6, 5.7.1 and 5.8 of RFC 6184), discarding FU-A assemblies broken by loss. */
module H264Depacketizer {
  import opened Bytes

  const STARTCODE: bytes := [0, 0, 0, 1]

  /** An RTP payload with its unwrapped sequence number. */
  datatype Packet = Packet(extSeq: int, body: bytes)

  /** The local variables of the reassembly loop. */
  datatype State = State(out: bytes, fuBuf: bytes, fuActive: bool, prevSeq: Option<int>)

  const Start := State([], [], false, None)

  /** What one STAP-A body contributes, reading length-prefixed NAL units from offset i. */
  function StapOutput(body: bytes, i: nat): (o: bytes)
    decreases |body| - i
  {
    if i + 2 > |body| then []
    else
      var size := GetU16(body, i);
      if size == 0 || i + 2 + size > |body| then []
      else STARTCODE + body[i + 2..i + 2 + size] + StapOutput(body, i + 2 + size)
  }

  /** A gap in the sequence numbers abandons the assembly in progress. */
  function CheckGap(s: State, extSeq: int): State {
    var lost := s.prevSeq.Some? && extSeq != s.prevSeq.value + 1;
    var s' := if lost && s.fuActive then s.(fuActive := false, fuBuf := []) else s;
    s'.(prevSeq := Some(extSeq))
  }

  function FuStep(s: State, body: bytes): State
    requires |body| >= 2
  {
    var start := body[1] >= 0x80;
    var end := body[1] / 0x40 % 2 == 1;
    var s1 :=
      if start then s.(fuBuf := [body[0] / 0x20 * 0x20 + body[1] % 0x20] + body[2..], fuActive := true)
      else if s.fuActive then s.(fuBuf := s.fuBuf + body[2..])
      else s;
    if end && s1.fuActive then s1.(out := s1.out + (STARTCODE + s1.fuBuf), fuActive := false, fuBuf := [])
    else s1
  }

  function BodyStep(s: State, body: bytes): State {
    if body == [] then s
    else
      var nalType := body[0] % 0x20;
      if 1 <= nalType <= 23 then s.(out := s.out + (STARTCODE + body))
      else if nalType == 24 then s.(out := s.out + StapOutput(body, 1))
      else if nalType == 28 && |body| >= 2 then FuStep(s, body)
      else s
  }

  function Step(s: State, p: Packet): State {
    BodyStep(CheckGap(s, p.extSeq), p.body)
  }

  function Run(s: State, packets: seq<Packet>): State
    decreases packets
  {
    if packets == [] then s else Run(Step(s, packets[0]), packets[1..])
  }

  lemma {:induction false} RunAppend(s: State, a: seq<Packet>, b: seq<Packet>)
    ensures Run(s, a + b) == Run(Run(s, a), b)
    decreases a
  {
    if a == [] {
      assert a + b == b;
    } else {
      RunAppend(Step(s, a[0]), a[1..], b);
      assert (a + b)[1..] == a[1..] + b;
    }
  }

  lemma {:induction false} RunOne(s: State, packets: seq<Packet>, k: nat)
    requires k < |packets|
    ensures Run(s, packets[k..]) == Run(Step(s, packets[k]), packets[k + 1..])
  {
    assert packets[k..][0] == packets[k] && packets[k..][1..] == packets[k + 1..];
    hide Step;
  }

  /** The reassembly loop. */
  method Depacketize(packets: seq<Packet>) returns (annexB: bytes)
    ensures annexB == Run(Start, packets).out
  {
    annexB := [];
    var fuBuf: bytes := [];
    var fuActive := false;
    var prevSeq: Option<int> := None;
    for k := 0 to |packets|
      invariant Run(Start, packets) == Run(State(annexB, fuBuf, fuActive, prevSeq), packets[k..])
    {
      ghost var s := State(annexB, fuBuf, fuActive, prevSeq);
      RunOne(s, packets, k);
      hide Run, StapOutput;
      var extSeq, body := packets[k].extSeq, packets[k].body;
      if prevSeq.Some? && extSeq != prevSeq.value + 1 && fuActive {
        fuActive := false;
        fuBuf := [];
      }
      prevSeq := Some(extSeq);
      if body == [] {
        continue;
      }
      var nalType := body[0] % 0x20;
      if 1 <= nalType <= 23 {
        annexB := annexB + (STARTCODE + body);
      } else if nalType == 24 {
        var nals := UnpackStap(body);
        annexB := annexB + nals;
      } else if nalType == 28 {
        if |body| < 2 {
          continue;
        }
        var start := body[1] >= 0x80;
        var end := body[1] / 0x40 % 2 == 1;
        if start {
          fuBuf := [body[0] / 0x20 * 0x20 + body[1] % 0x20] + body[2..];
          fuActive := true;
        } else if fuActive {
          fuBuf := fuBuf + body[2..];
        }
        if end && fuActive {
          annexB := annexB + (STARTCODE + fuBuf);
          fuActive := false;
          fuBuf := [];
        }
      }
      assert State(annexB, fuBuf, fuActive, prevSeq) == Step(s, packets[k]);
    }
  }

  lemma {:induction false} NextNal(done: bytes, body: bytes, i: nat)
    requires i + 2 <= |body|
    ensures var size := GetU16(body, i);
      done + StapOutput(body, i)
      == (if size == 0 || i + 2 + size > |body| then done
          else done + (STARTCODE + body[i + 2..i + 2 + size]) + StapOutput(body, i + 2 + size))
  {
    hide GetU16;
    var size := GetU16(body, i);
    if size != 0 && i + 2 + size <= |body| {
      var rest := StapOutput(body, i + 2 + size);
      assert StapOutput(body, i) == STARTCODE + body[i + 2..i + 2 + size] + rest;
      hide StapOutput;
      Middle(done, STARTCODE + body[i + 2..i + 2 + size], rest);
    }
  }

  /** The inner loop over one aggregation packet. */
  method UnpackStap(body: bytes) returns (o: bytes)
    requires body != []
    ensures o == StapOutput(body, 1)
  {
    o := [];
    var i := 1;
    while i + 2 <= |body|
      invariant 1 <= i <= |body|
      invariant StapOutput(body, 1) == o + StapOutput(body, i)
    {
      NextNal(o, body, i);
      hide StapOutput, GetU16;
      var size := GetU16(body, i);
      if size == 0 || i + 2 + size > |body| {
        return;
      }
      o := o + (STARTCODE + body[i + 2..i + 2 + size]);
      i := i + 2 + size;
    }
  }
}
