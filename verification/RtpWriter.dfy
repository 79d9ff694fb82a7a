/** Writing encoded H.264 access units as RTP: sequence numbers, timestamps and the marker bit
    (section 5.1 of RFC 6184), over runs in which writes may fail part-way. */
module RtpWriter {
  import Arithmetic
  import opened Bytes

  const VIDEO_CLOCK_RATE := 90000
  const DEFAULT_FPS := 30

  datatype Packet = Packet(seqNo: uint16, timestamp: uint32, marker: bool, payload: bytes)

  /** One access unit: whether it holds any data, the payloads the packetizer makes of it (possibly
      none), its duration in clock ticks (0 when unknown), and how many packets the network takes
      before a write fails. */
  datatype Unit = Unit(hasData: bool, payloads: seq<bytes>, ticks: uint32, accepts: nat)

  datatype State = State(seqNo: uint16, ts: uint32, started: bool)

  function Increment(frameDur: uint32, u: Unit): uint32 {
    if u.ticks == 0 then frameDur else u.ticks
  }

  predicate Complete(u: Unit) {
    u.accepts >= |u.payloads|
  }

  /** The payloads of u that reach the network. */
  function Sent(u: Unit): seq<bytes> {
    if Complete(u) then u.payloads else u.payloads[..u.accepts]
  }

  function Packets(seqNo: uint16, ts: uint32, u: Unit): (p: seq<Packet>)
    ensures |p| == |Sent(u)|
  {
    seq(|Sent(u)|, i requires 0 <= i < |Sent(u)| =>
      Packet((seqNo + i) % 0x1_0000, ts, i == |u.payloads| - 1, u.payloads[i]))
  }

  function Advance(frameDur: uint32, s: State, u: Unit): State {
    if !u.hasData then s
    else
      State((s.seqNo + |Sent(u)|) % 0x1_0000,
            if s.started then (s.ts + Increment(frameDur, u)) % 0x1_0000_0000 else s.ts,
            true)
  }

  function Write(frameDur: uint32, s: State, u: Unit): seq<Packet> {
    if !u.hasData then [] else Packets(s.seqNo, Advance(frameDur, s, u).ts, u)
  }

  /** State and packets on the network after writing every unit in turn. */
  function Run(frameDur: uint32, s: State, units: seq<Unit>): (State, seq<Packet>) {
    if units == [] then (s, [])
    else
      var (before, out) := Run(frameDur, s, units[..|units| - 1]);
      var u := units[|units| - 1];
      (Advance(frameDur, before, u), out + Write(frameDur, before, u))
  }

  lemma {:induction false} NextPacket(sent: seq<Packet>, seqNo: uint16, ts: uint32, u: Unit, i: nat)
    requires i < |Sent(u)|
    ensures var all := Packets(seqNo, ts, u);
      sent + all[..i + 1] == sent + all[..i]
        + [Packet((seqNo + i) % 0x1_0000, ts, i == |u.payloads| - 1, u.payloads[i])]
    ensures ((seqNo + i) % 0x1_0000 + 1) % 0x1_0000 == (seqNo + (i + 1)) % 0x1_0000
  {
    var all := Packets(seqNo, ts, u);
    assert all[..i + 1] == all[..i] + [all[i]];
  }

  class H264RTPWriter {
    const frameDur: uint32
    var seqNo: uint16
    var ts: uint32
    var started: bool
    var network: seq<Packet>

    function Fields(): State
      reads this
    {
      State(seqNo, ts, started)
    }

    /** The initial sequence number and timestamp are random; rates default when not positive. */
    constructor (clockRate: int, fps: int, seqNo: uint16, ts: uint32)
      ensures Fields() == State(seqNo, ts, false) && network == []
      ensures
        var rate, perSecond := if clockRate > 0 then clockRate else 90000, if fps > 0 then fps else 30;
        && (rate < 0x1_0000_0000 ==> frameDur * perSecond <= rate < (frameDur + 1) * perSecond)
        && (perSecond <= rate < 0x1_0000_0000 ==> 0 < frameDur)
        && (rate < perSecond ==> frameDur == 0)
    {
      var rate := if clockRate <= 0 then VIDEO_CLOCK_RATE else clockRate;
      var perSecond := if fps <= 0 then DEFAULT_FPS else fps;
      FrameDuration(rate, perSecond);
      frameDur := rate / perSecond % 0x1_0000_0000;
      this.seqNo, this.ts, started, network := seqNo, ts, false, [];
      new;
      Quotient(rate, perSecond);
    }

    method WriteVideoSample(u: Unit) returns (ok: bool)
      modifies this
      ensures Fields() == Advance(frameDur, old(Fields()), u)
      ensures network == old(network) + Write(frameDur, old(Fields()), u)
      ensures ok == (u.hasData ==> Complete(u))
    {
      if !u.hasData {
        return true;
      }
      if started {
        var inc := frameDur;
        if u.ticks > 0 {
          inc := u.ticks;
        }
        if inc == 0 {
          inc := frameDur;
        }
        ts := (ts + inc) % 0x1_0000_0000;
      }
      started := true;
      ghost var after := Advance(frameDur, old(Fields()), u);
      assert after == State((old(seqNo) + |Sent(u)|) % 0x1_0000, ts, true);
      ghost var all := Packets(old(seqNo), ts, u);
      assert Write(frameDur, old(Fields()), u) == all;
      assert |Sent(u)| == (if Complete(u) then |u.payloads| else u.accepts);
      hide Write, Advance, Packets, Sent;
      for i := 0 to |u.payloads|
        invariant i <= |Sent(u)|
        invariant seqNo == (old(seqNo) + i) % 0x1_0000
        invariant started && ts == after.ts
        invariant network == old(network) + all[..i]
      {
        if i == u.accepts {
          assert all[..i] == all;
          return false;
        }
        var hdr := Packet(seqNo, ts, i == |u.payloads| - 1, u.payloads[i]);
        NextPacket(old(network), old(seqNo), ts, u, i);
        network := network + [hdr];
        seqNo := (seqNo + 1) % 0x1_0000;
      }
      assert all[..|all|] == all;
      return true;
    }
  }

  lemma {:induction false} FrameDuration(rate: nat, fps: nat)
    requires fps > 0
    ensures 0 <= rate / fps <= rate
    ensures fps <= rate <==> rate / fps > 0
  {
    var q := rate / fps;
    assert rate == q * fps + rate % fps;
    Arithmetic.MultipleApart(q, fps);
  }

  lemma {:induction false} Quotient(rate: nat, fps: nat)
    requires fps > 0
    ensures (rate / fps) * fps <= rate < (rate / fps + 1) * fps
  {
    assert (rate / fps + 1) * fps == (rate / fps) * fps + fps;
  }

  /** The clock ticks from the first to the last of these units that hold data: each unit but the
      very first advances the clock by its own duration, or by the fallback when that is unknown. */
  function Ticks(frameDur: uint32, started: bool, units: seq<Unit>): nat {
    if units == [] then 0
    else
      var before, u := units[..|units| - 1], units[|units| - 1];
      var first := !started && forall v | v in before :: !v.hasData;
      Ticks(frameDur, started, before)
        + (if !u.hasData || first then 0 else if u.ticks > 0 then u.ticks else frameDur)
  }

  lemma {:induction false} WrappedTicks(a: nat, b: nat)
    ensures (a % 0x1_0000_0000 + b) % 0x1_0000_0000 == (a + b) % 0x1_0000_0000
  {
  }

  lemma {:induction false} ClockAfter(frameDur: uint32, s: State, units: seq<Unit>)
    ensures
      var now := Run(frameDur, s, units).0;
      && now.ts == (s.ts + Ticks(frameDur, s.started, units)) % 0x1_0000_0000
      && (now.started <==> s.started || exists u | u in units :: u.hasData)
  {
    hide Write, Sent;
    if units != [] {
      var n := |units| - 1;
      ClockAfter(frameDur, s, units[..n]);
      assert units == units[..n] + [units[n]];
      var elapsed := Ticks(frameDur, s.started, units[..n]);
      WrappedTicks(s.ts + elapsed, Ticks(frameDur, s.started, units) - elapsed);
    }
  }

  /** What one more unit of any run puts on the network: its payloads up to the first failing write,
      numbered on from all packets before, with the time of the unit in clock ticks since the run
      began, and the marker on the last payload alone. A unit without data does nothing. */
  lemma {:induction false} UnitWritten(frameDur: uint32, s: State, units: seq<Unit>, u: Unit)
    ensures
      var (_, out) := Run(frameDur, s, units);
      var (_, now) := Run(frameDur, s, units + [u]);
      var sent := if u.accepts < |u.payloads| then u.accepts else |u.payloads|;
      if !u.hasData then Run(frameDur, s, units + [u]) == Run(frameDur, s, units)
      else
        && |now| == |out| + sent && now[..|out|] == out
        && forall i | 0 <= i < sent ::
             now[|out| + i] == Packet((s.seqNo + |out| + i) % 0x1_0000,
                                      (s.ts + Ticks(frameDur, s.started, units + [u])) % 0x1_0000_0000,
                                      i == |u.payloads| - 1, u.payloads[i])
  {
    hide Ticks, Increment, Packets, Sent;
    var all := units + [u];
    assert all[..|units|] == units;
    var (before, out) := Run(frameDur, s, units);
    SequenceAfter(frameDur, s, units);
    ClockAfter(frameDur, s, all);
    if u.hasData {
      PacketsAre((s.seqNo + |out|) % 0x1_0000, s.seqNo + |out|, Advance(frameDur, before, u).ts, u);
    } else {
      assert out + [] == out;
    }
  }

  lemma {:induction false} PacketsAre(seqNo: uint16, count: nat, ts: uint32, u: Unit)
    requires seqNo == count % 0x1_0000
    ensures
      var p := Packets(seqNo, ts, u);
      && |p| == (if u.accepts < |u.payloads| then u.accepts else |u.payloads|)
      && forall i | 0 <= i < |p| :: p[i] == Packet((count + i) % 0x1_0000, ts, i == |u.payloads| - 1, u.payloads[i])
  {
    var p := Packets(seqNo, ts, u);
    forall i | 0 <= i < |p|
      ensures p[i].seqNo == (count + i) % 0x1_0000
    {
      WrappedSum(count, i);
    }
  }

  /** The k-th packet on the network carries the k-th sequence number, whatever failed before. */
  lemma {:induction false} SequenceExact(frameDur: uint32, s: State, units: seq<Unit>, k: nat)
    requires k < |Run(frameDur, s, units).1|
    ensures Run(frameDur, s, units).1[k].seqNo == (s.seqNo + k) % 0x1_0000
  {
    var n := |units| - 1;
    var (before, out) := Run(frameDur, s, units[..n]);
    hide Advance;
    SequenceAfter(frameDur, s, units[..n]);
    if k < |out| {
      SequenceExact(frameDur, s, units[..n], k);
    } else {
      assert Run(frameDur, s, units).1[k] == Write(frameDur, before, units[n])[k - |out|];
      WrappedSum(s.seqNo + |out|, k - |out|);
    }
  }

  lemma {:induction false} WrappedSum(a: nat, b: nat)
    ensures (a % 0x1_0000 + b) % 0x1_0000 == (a + b) % 0x1_0000
  {
  }

  lemma {:induction false} SequenceAfter(frameDur: uint32, s: State, units: seq<Unit>)
    ensures var (s', out) := Run(frameDur, s, units); s'.seqNo == (s.seqNo + |out|) % 0x1_0000
  {
    if units != [] {
      SequenceAfter(frameDur, s, units[..|units| - 1]);
    }
  }

  // A receiver's view

  /** A receiver that collects packets until a marker, dropping an access unit it was collecting
      when the timestamp changes. */
  datatype Receiver = Receiver(units: seq<seq<bytes>>, pending: seq<bytes>, ts: uint32)

  const Empty := Receiver([], [], 0)

  function Collect(r: Receiver, p: Packet): Receiver {
    var kept := if r.pending != [] && r.ts == p.timestamp then r.pending else [];
    if p.marker then Receiver(r.units + [kept + [p.payload]], [], p.timestamp)
    else Receiver(r.units, kept + [p.payload], p.timestamp)
  }

  function Receive(r: Receiver, packets: seq<Packet>): Receiver {
    if packets == [] then r
    else Collect(Receive(r, packets[..|packets| - 1]), packets[|packets| - 1])
  }

  /** The units written in full, by their payloads. */
  function Written(units: seq<Unit>): seq<seq<bytes>> {
    if units == [] then []
    else
      var u := units[|units| - 1];
      Written(units[..|units| - 1])
        + (if u.hasData && Complete(u) && u.payloads != [] then [u.payloads] else [])
  }

  predicate Emits(u: Unit) {
    u.hasData && Sent(u) != []
  }

  predicate Full(u: Unit) {
    Emits(u) && Complete(u)
  }

  /** Ticks since the last unit that put a packet on the network. */
  function Lag(frameDur: uint32, units: seq<Unit>): nat {
    if units == [] then 0
    else
      var u := units[|units| - 1];
      if Emits(u) then 0
      else Lag(frameDur, units[..|units| - 1]) + (if u.hasData then Increment(frameDur, u) else 0)
  }

  /** Whether the last unit that put a packet on the network broke off before its marker. */
  predicate LastBroken(units: seq<Unit>) {
    if units == [] then false
    else
      var u := units[|units| - 1];
      if Emits(u) then !Complete(u) else LastBroken(units[..|units| - 1])
  }

  /** Whether u, complete, carries the timestamp of the broken unit right before it on the
      network: the ticks in between add up to a multiple of 2^32. */
  predicate Glues(frameDur: uint32, before: seq<Unit>, u: Unit) {
    && Full(u) && LastBroken(before)
    && (Lag(frameDur, before) + Increment(frameDur, u)) % 0x1_0000_0000 == 0
  }

  ghost predicate NoGlue(frameDur: uint32, units: seq<Unit>) {
    forall i :: 0 <= i < |units| ==> !Glues(frameDur, units[..i], units[i])
  }

  lemma {:induction false} ReceiveAppend(r: Receiver, a: seq<Packet>, b: seq<Packet>)
    ensures Receive(r, a + b) == Receive(Receive(r, a), b)
  {
    if b == [] {
      assert a + b == a;
    } else {
      var n := |b| - 1;
      ReceiveAppend(r, a, b[..n]);
      assert (a + b)[..|a + b| - 1] == a + b[..n];
    }
  }

  /** What a receiver keeps when a packet with this timestamp arrives. */
  function Kept(r: Receiver, ts: uint32): seq<bytes> {
    if r.pending != [] && r.ts == ts then r.pending else []
  }

  /** The first i packets of a unit. */
  lemma {:induction false} CollectUnit(r: Receiver, seqNo: uint16, ts: uint32, u: Unit, i: nat)
    requires 0 < i <= |Sent(u)|
    ensures Receive(r, Packets(seqNo, ts, u)[..i])
      == (if i == |u.payloads| then Receiver(r.units + [Kept(r, ts) + u.payloads], [], ts)
          else Receiver(r.units, Kept(r, ts) + u.payloads[..i], ts))
  {
    var all := Packets(seqNo, ts, u);
    var p := Packet((seqNo + (i - 1)) % 0x1_0000, ts, i == |u.payloads|, u.payloads[i - 1]);
    assert all[..i][..i - 1] == all[..i - 1] && all[..i][i - 1] == p;
    assert u.payloads[..i] == u.payloads[..i - 1] + [u.payloads[i - 1]];
    assert u.payloads[..|u.payloads|] == u.payloads;
    hide Packets, Sent;
    if i == 1 {
      assert all[..0] == [] && u.payloads[..0] == [];
    } else {
      CollectUnit(r, seqNo, ts, u, i - 1);
      assert Kept(r, ts) + u.payloads[..i] == (Kept(r, ts) + u.payloads[..i - 1]) + [u.payloads[i - 1]];
    }
  }

  lemma {:induction false} CollectAll(r: Receiver, seqNo: uint16, ts: uint32, u: Unit)
    ensures var r' := Receive(r, Packets(seqNo, ts, u));
      && (Sent(u) == [] ==> r' == r)
      && (Sent(u) != [] ==>
        && r'.ts == ts
        && (r'.pending == [] <==> Complete(u))
        && r'.units == r.units + (if Complete(u) then [Kept(r, ts) + u.payloads] else []))
  {
    var all := Packets(seqNo, ts, u);
    if |all| > 0 {
      CollectUnit(r, seqNo, ts, u, |all|);
      assert all[..|all|] == all;
    }
  }

  /** A receiver and a writer agree: something is pending exactly after a broken unit, and it was
      sent lag ticks ago. */
  ghost predicate InStep(now: State, r: Receiver, lag: nat, broken: bool) {
    && (r.pending != [] <==> broken)
    && (broken ==> now.started && (r.ts + lag) % 0x1_0000_0000 == now.ts)
  }

  function NextLag(frameDur: uint32, lag: nat, u: Unit): nat {
    if Emits(u) then 0 else lag + (if u.hasData then Increment(frameDur, u) else 0)
  }

  lemma {:induction false} LongerLag(ts: uint32, lag: nat, now: uint32, inc: uint32)
    requires (ts + lag) % 0x1_0000_0000 == now
    ensures (ts + (lag + inc)) % 0x1_0000_0000 == (now + inc) % 0x1_0000_0000
    ensures ts == (now + inc) % 0x1_0000_0000 <==> (lag + inc) % 0x1_0000_0000 == 0
  {
  }

  /** One unit: what the receiver adds to its list, with the broken unit before when the
      timestamp did not move. */
  lemma {:induction false} StayInStep(frameDur: uint32, before: State, r: Receiver, lag: nat, broken: bool, u: Unit)
    requires InStep(before, r, lag, broken)
    ensures var r' := Receive(r, Write(frameDur, before, u));
      var glued := broken && (lag + Increment(frameDur, u)) % 0x1_0000_0000 == 0;
      && InStep(Advance(frameDur, before, u), r', NextLag(frameDur, lag, u), if Emits(u) then !Complete(u) else broken)
      && r'.units == r.units + (if Full(u) then [(if glued then r.pending else []) + u.payloads] else [])
      && (broken ==> r.pending != [])
  {
    if u.hasData {
      var ts := Advance(frameDur, before, u).ts;
      assert Write(frameDur, before, u) == Packets(before.seqNo, ts, u);
      hide Increment, Receive, Packets, Complete, Write;
      CollectAll(r, before.seqNo, ts, u);
      hide Sent;
      if broken {
        LongerLag(r.ts, lag, before.ts, Increment(frameDur, u));
      }
    }
  }

  lemma {:induction false} NoGluePrefix(frameDur: uint32, units: seq<Unit>)
    requires units != []
    ensures var n := |units| - 1;
      NoGlue(frameDur, units) <==> (NoGlue(frameDur, units[..n]) && !Glues(frameDur, units[..n], units[n]))
  {
    var n := |units| - 1;
    hide Glues;
    assert forall i :: 0 <= i < n ==> units[..n][..i] == units[..i];
    if NoGlue(frameDur, units[..n]) && !Glues(frameDur, units[..n], units[n]) {
      forall i | 0 <= i < |units|
        ensures !Glues(frameDur, units[..i], units[i])
      {
        assert i < n ==> !Glues(frameDur, units[..n][..i], units[..n][i]);
      }
    }
    if NoGlue(frameDur, units) {
      forall i | 0 <= i < n
        ensures !Glues(frameDur, units[..n][..i], units[..n][i])
      {
        assert !Glues(frameDur, units[..i], units[i]);
      }
    }
  }

  /** Adding a unit to both lists, perhaps glued to something on one side. */
  lemma {:induction false} AddedBoth(a: seq<seq<bytes>>, b: seq<seq<bytes>>, full: bool, glued: seq<bytes>,
                                     payloads: seq<bytes>)
    requires |a| == |b|
    ensures var a', b' := a + (if full then [glued + payloads] else []), b + (if full then [payloads] else []);
      |a'| == |b'| && (a' == b' <==> a == b && (full ==> glued == []))
  {
    var x, y := glued + payloads, payloads;
    assert (a + [x])[..|a|] == a && (b + [y])[..|b|] == b;
    assert (a + [x])[|a|] == x && (b + [y])[|b|] == y;
    assert |x| == |glued| + |payloads|;
    assert [] + payloads == payloads && a + [] == a && b + [] == b;
  }

  lemma {:induction false} OneMoreUnit(frameDur: uint32, s: State, units: seq<Unit>)
    requires units != []
    ensures var pre, u := units[..|units| - 1], units[|units| - 1];
      var (before, out) := Run(frameDur, s, pre);
      && Run(frameDur, s, units) == (Advance(frameDur, before, u), out + Write(frameDur, before, u))
      && Written(units) == Written(pre) + (if Full(u) then [u.payloads] else [])
      && Lag(frameDur, units) == NextLag(frameDur, Lag(frameDur, pre), u)
      && LastBroken(units) == (if Emits(u) then !Complete(u) else LastBroken(pre))
  {
    hide Advance, Write;
  }

  lemma {:induction false} ReceiverInStep(frameDur: uint32, s: State, units: seq<Unit>)
    ensures var (now, out) := Run(frameDur, s, units); var r := Receive(Empty, out);
      && InStep(now, r, Lag(frameDur, units), LastBroken(units))
      && |r.units| == |Written(units)|
      && (r.units == Written(units) <==> NoGlue(frameDur, units))
  {
    if units != [] {
      var pre, u := units[..|units| - 1], units[|units| - 1];
      var (before, out) := Run(frameDur, s, pre);
      var r, lag, broken := Receive(Empty, out), Lag(frameDur, pre), LastBroken(pre);
      var glued := broken && (lag + Increment(frameDur, u)) % 0x1_0000_0000 == 0;
      assert Glues(frameDur, pre, u) <==> Full(u) && glued;
      OneMoreUnit(frameDur, s, units);
      hide *;
      ReceiverInStep(frameDur, s, pre);
      NoGluePrefix(frameDur, units);
      ReceiveAppend(Empty, out, Write(frameDur, before, u));
      StayInStep(frameDur, before, r, lag, broken, u);
      AddedBoth(r.units, Written(pre), Full(u), if glued then r.pending else [], u.payloads);
    }
  }

  /** Over any run of writes, from any state, some failing part-way: a receiver that cuts the
      packets at markers and timestamp changes gets exactly the access units written in full, in
      order, if and only if no complete unit carries the timestamp of a broken one right before it. */
  lemma {:induction false} ReceiverExact(frameDur: uint32, s: State, units: seq<Unit>)
    ensures Receive(Empty, Run(frameDur, s, units).1).units == Written(units) <==> NoGlue(frameDur, units)
  {
    ReceiverInStep(frameDur, s, units);
  }

  /** Units that put packets on the network are less than one timestamp wrap apart. */
  ghost predicate Paced(frameDur: uint32, units: seq<Unit>) {
    forall i :: 0 <= i < |units| && Emits(units[i]) ==>
      Lag(frameDur, units[..i]) + Increment(frameDur, units[i]) < 0x1_0000_0000
  }

  /** In particular nothing is glued when the fallback increment is positive and units are paced. */
  lemma {:induction false} ReceiverSeesWritten(frameDur: uint32, s: State, units: seq<Unit>)
    requires frameDur > 0 && Paced(frameDur, units)
    ensures NoGlue(frameDur, units) && Receive(Empty, Run(frameDur, s, units).1).units == Written(units)
  {
    forall i | 0 <= i < |units|
      ensures !Glues(frameDur, units[..i], units[i])
    {
      var elapsed := Lag(frameDur, units[..i]) + Increment(frameDur, units[i]);
      assert elapsed > 0;
      hide Lag, LastBroken, Increment, Emits;
      assert elapsed < 0x1_0000_0000 ==> elapsed % 0x1_0000_0000 == elapsed;
    }
    ReceiverExact(frameDur, s, units);
  }

  /** The timestamp moves between any two access units exactly when the frame duration, the
      fallback increment, is positive; it is 0 when the frame rate exceeds the clock rate. */
  lemma {:induction false} AdvancesExactly(frameDur: uint32)
    ensures frameDur > 0 <==>
      forall s: State, u: Unit :: s.started && u.hasData ==> Advance(frameDur, s, u).ts != s.ts
  {
    if frameDur == 0 {
      var s, u := State(0, 0, true), Unit(true, [], 0, 0);
      assert Advance(frameDur, s, u).ts == s.ts;
    }
  }

  /** With a zero frame duration a broken unit and the next one are glued together. */
  lemma {:induction false} ZeroFrameDurationGlues()
    ensures var units := [Unit(true, [[1], [2]], 0, 1), Unit(true, [[3]], 0, 1)];
      && Written(units) == [[[3]]]
      && Receive(Empty, Run(0, State(0, 0, false), units).1).units == [[[1], [3]]]
  {
    var u, v := Unit(true, [[1], [2]], 0, 1), Unit(true, [[3]], 0, 1);
    assert [u, v][..1] == [u] && [u][..0] == [];
    var p, q := Packet(0, 0, false, [1]), Packet(1, 0, true, [3]);
    assert Packets(0, 0, u) == [p] && Packets(1, 0, v) == [q];
    assert Write(0, State(0, 0, false), u) == [p] && Write(0, State(1, 0, true), v) == [q];
    assert [] + [p] == [p] && [p] + [q] == [p, q] && [[1]] + [[3]] == [[1], [3]];
    assert Run(0, State(0, 0, false), []) == (State(0, 0, false), []);
    assert Run(0, State(0, 0, false), [u]) == (State(1, 0, true), [p]);
    assert Run(0, State(0, 0, false), [u, v]).1 == [p, q];
    assert [p, q][..1] == [p] && [p][..0] == [];
    assert Receive(Empty, [p]) == Receiver([], [[1]], 0);
    assert Collect(Receiver([], [[1]], 0), q) == Receiver([[[1], [3]]], [], 0);
    assert Receive(Empty, [p, q]) == Receiver([[[1], [3]]], [], 0);
    assert Written([u]) == [];
  }
}
