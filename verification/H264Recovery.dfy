/** The sender's side of RFC 6184 as a specification, and what the depacketizer recovers
    from any packetization after any packets are lost. */
module H264Recovery {
  import AnnexBStream
  import opened Bytes
  import opened H264Depacketizer

  /** One packetization choice. The RFC wants at least two fragments in a FU-A; one is covered too. */
  datatype AnyUnit =
    | Single(nal: bytes)
    | Stap(indicator: byte, nals: seq<bytes>)
    | Fua(header: byte, fragments: seq<bytes>)

  predicate Valid(u: AnyUnit) {
    match u
    case Single(nal) => nal != [] && 1 <= nal[0] % 0x20 <= 23
    case Stap(indicator, nals) => indicator % 0x20 == 24 && forall n | n in nals :: 0 < |n| < 0x1_0000
    case Fua(_, fragments) => fragments != []
  }

  type Unit = u: AnyUnit | Valid(u) witness Single([1])

  function Nals(u: Unit): seq<bytes> {
    match u
    case Single(nal) => [nal]
    case Stap(_, nals) => nals
    case Fua(header, fragments) => [[header] + Flatten(fragments)]
  }

  function StapBody(nals: seq<bytes>): bytes
    requires forall n | n in nals :: |n| < 0x1_0000
  {
    if nals == [] then [] else PutU16(|nals[0]|) + nals[0] + StapBody(nals[1..])
  }

  /** FU indicator keeps F and NRI of the NAL header, FU header carries S, E and its type. */
  function FuBody(header: byte, fragment: bytes, first: bool, last: bool): bytes {
    [header / 0x20 * 0x20 + 28,
     (if first then 0x80 else 0) + (if last then 0x40 else 0) + header % 0x20] + fragment
  }

  function Payloads(u: Unit): (ps: seq<bytes>)
    ensures |ps| > 0
  {
    match u
    case Single(nal) => [nal]
    case Stap(indicator, nals) => [[indicator] + StapBody(nals)]
    case Fua(header, fragments) =>
      seq(|fragments|, i requires 0 <= i < |fragments| =>
        FuBody(header, fragments[i], i == 0, i == |fragments| - 1))
  }

  function Number(payloads: seq<bytes>, base: int): (ps: seq<Packet>)
    ensures |ps| == |payloads|
    ensures forall i | 0 <= i < |ps| :: ps[i] == Packet(base + i, payloads[i])
  {
    seq(|payloads|, i requires 0 <= i < |payloads| => Packet(base + i, payloads[i]))
  }

  /** The packets of a stream, numbered consecutively from base. */
  function Transmit(units: seq<Unit>, base: int): seq<Packet>
  {
    if units == [] then []
    else Number(Payloads(units[0]), base) + Transmit(units[1..], base + |Payloads(units[0])|)
  }

  /** The packets whose sequence number was not lost. */
  function Survivors(packets: seq<Packet>, lost: set<int>): (r: seq<Packet>) {
    if packets == [] then []
    else if packets[0].extSeq in lost then Survivors(packets[1..], lost)
    else [packets[0]] + Survivors(packets[1..], lost)
  }

  /** Did the n packets numbered from base all survive? */
  predicate Intact(base: int, n: nat, lost: set<int>) {
    forall s | base <= s < base + n :: s !in lost
  }

  /** The NAL units of one unit, if all its packets survived. */
  function RecoveredUnit(u: Unit, base: int, lost: set<int>): seq<bytes> {
    if Intact(base, |Payloads(u)|, lost) then Nals(u) else []
  }

  /** The NAL units all of whose packets survived, in order. */
  function Recovered(units: seq<Unit>, base: int, lost: set<int>): seq<bytes> {
    if units == [] then []
    else RecoveredUnit(units[0], base, lost) + Recovered(units[1..], base + |Payloads(units[0])|, lost)
  }

  function AnnexB(nals: seq<bytes>): bytes {
    if nals == [] then [] else STARTCODE + nals[0] + AnnexB(nals[1..])
  }

  /** A recording with more NAL units appended. */
  function Extend(out: bytes, nals: seq<bytes>): bytes {
    out + AnnexB(nals)
  }

  lemma {:induction false} ExtendTwice(out: bytes, a: seq<bytes>, b: seq<bytes>)
    ensures Extend(Extend(out, a), b) == Extend(out, a + b)
    ensures Extend(out, []) == out
  {
    AnnexBAppend(a, b);
  }

  lemma {:induction false} ExtendOne(out: bytes, nal: bytes)
    ensures Extend(out, [nal]) == out + (STARTCODE + nal)
  {
    assert AnnexB([nal]) == STARTCODE + nal + AnnexB([]);
  }

  lemma {:induction false} AnnexBAppend(a: seq<bytes>, b: seq<bytes>)
    ensures AnnexB(a + b) == AnnexB(a) + AnnexB(b)
  {
    if a == [] {
      assert a + b == b;
    } else {
      AnnexBAppend(a[1..], b);
      assert (a + b)[1..] == a[1..] + b;
      Middle(STARTCODE + a[0], AnnexB(a[1..]), AnnexB(b));
    }
  }

  lemma {:induction false} SurvivorsAppend(a: seq<Packet>, b: seq<Packet>, lost: set<int>)
    ensures Survivors(a + b, lost) == Survivors(a, lost) + Survivors(b, lost)
    decreases |a|
  {
    if a == [] {
      assert a + b == b;
    } else {
      SurvivorsAppend(a[1..], b, lost);
      assert (a + b)[0] == a[0];
      assert (a + b)[1..] == a[1..] + b;
    }
  }

  /** The survivors of a run of packets, one packet at a time. */
  lemma {:induction false} RunSurvivors(s: State, p: Packet, rest: seq<Packet>, lost: set<int>)
    ensures Run(s, Survivors([p] + rest, lost)) ==
            if p.extSeq in lost then Run(s, Survivors(rest, lost)) else Run(Step(s, p), Survivors(rest, lost))
  {
    var all := [p] + rest;
    assert all[0] == p && all[1..] == rest;
    if p.extSeq !in lost {
      var kept := [p] + Survivors(rest, lost);
      assert Survivors(all, lost) == kept;
      assert kept[0] == p && kept[1..] == Survivors(rest, lost);
    }
  }

  /** One length-prefixed NAL unit where the reader looks. */
  lemma {:induction false} StapStep(body: bytes, i: nat, nal: bytes)
    requires 0 < |nal| < 0x1_0000 && i + 2 + |nal| <= |body|
    requires GetU16(body, i) == |nal| && body[i + 2..i + 2 + |nal|] == nal
    ensures StapOutput(body, i) == STARTCODE + nal + StapOutput(body, i + 2 + |nal|)
  {
  }

  lemma {:induction false} StapPrefix(prefix: bytes, nal: bytes, rest: bytes)
    requires 0 < |nal| < 0x1_0000
    ensures
      var next := prefix + (PutU16(|nal|) + nal);
      && prefix + (PutU16(|nal|) + nal + rest) == next + rest
      && StapOutput(next + rest, |prefix|) == STARTCODE + nal + StapOutput(next + rest, |next|)
  {
    hide *;
    var size := PutU16(|nal|);
    var next := prefix + (size + nal);
    assert size + nal + rest == size + (nal + rest);
    Middle(prefix, size + nal, rest);
    U16At(prefix, |nal|, nal + rest);
    Middle(prefix + size, nal, rest);
    assert next + rest == (prefix + size) + (nal + rest);
    StapStep(next + rest, |prefix|, nal);
  }

  /** A STAP-A body unpacks to the NAL units it was packed from, whatever precedes it. */
  lemma {:induction false} StapRoundTrip(prefix: bytes, nals: seq<bytes>)
    requires forall n | n in nals :: 0 < |n| < 0x1_0000
    ensures StapOutput(prefix + StapBody(nals), |prefix|) == AnnexB(nals)
    decreases |nals|
  {
    if nals != [] {
      StapPrefix(prefix, nals[0], StapBody(nals[1..]));
      StapRoundTrip(prefix + (PutU16(|nals[0]|) + nals[0]), nals[1..]);
    }
  }

  /** Between units: whatever assembly is still open, the next packet will show a gap. */
  predicate Quiet(s: State, base: int) {
    && (s.prevSeq.Some? ==> s.prevSeq.value < base)
    && (s.fuActive ==> s.prevSeq.Some? && s.prevSeq.value < base - 1)
  }

  lemma {:induction false} QuietAfter(s: State, n: int)
    requires s.prevSeq == Some(n)
    ensures !s.fuActive ==> Quiet(s, n + 1)
    ensures Quiet(s, n + 2)
  {
  }

  /** A fragment after the first continues an assembly only when no gap precedes it. */
  lemma {:induction false} FuaStep(s: State, header: byte, fragment: bytes, first: bool, last: bool, n: int)
    ensures
      var s' := Step(s, Packet(n, FuBody(header, fragment, first, last)));
      var buf := if first then [header] + fragment else s.fuBuf + fragment;
      && s'.prevSeq == Some(n)
      && (first || (s.fuActive && s.prevSeq == Some(n - 1)) ==>
            s'.out == (if last then Extend(s.out, [buf]) else s.out)
            && s'.fuActive == !last && (!last ==> s'.fuBuf == buf))
      && (!first && Quiet(s, n) ==> s'.out == s.out && !s'.fuActive)
  {
    var body := FuBody(header, fragment, first, last);
    assert body[2..] == fragment;
    assert body[0] % 0x20 == 28;
    assert body[0] / 0x20 == header / 0x20;
    assert body[1] % 0x20 == header % 0x20;
    ExtendOne(s.out, if first then [header] + fragment else s.fuBuf + fragment);
  }

  function FuaPacket(header: byte, fragments: seq<bytes>, i: nat, base: int): Packet
    requires i < |fragments|
  {
    Packet(base + i, FuBody(header, fragments[i], i == 0, i == |fragments| - 1))
  }

  /** The packets of a FU-A from fragment i on. */
  function FuaRest(header: byte, fragments: seq<bytes>, i: nat, base: int): seq<Packet>
    requires i <= |fragments| && fragments != []
  {
    Number(Payloads(Fua(header, fragments)), base)[i..]
  }

  lemma {:induction false} RunFuaRest(s: State, header: byte, fragments: seq<bytes>, i: nat, base: int, lost: set<int>)
    requires i < |fragments|
    ensures
      var p := FuaPacket(header, fragments, i, base);
      var rest := Survivors(FuaRest(header, fragments, i + 1, base), lost);
      Run(s, Survivors(FuaRest(header, fragments, i, base), lost)) ==
      if p.extSeq in lost then Run(s, rest) else Run(Step(s, p), rest)
  {
    var p := FuaPacket(header, fragments, i, base);
    assert FuaRest(header, fragments, i, base) == [p] + FuaRest(header, fragments, i + 1, base);
    RunSurvivors(s, p, FuaRest(header, fragments, i + 1, base), lost);
  }

  /** The NAL unit rebuilt from the first i fragments. */
  function Assembled(header: byte, fragments: seq<bytes>, i: nat): bytes
    requires i <= |fragments|
  {
    [header] + Flatten(fragments[..i])
  }

  lemma {:induction false} AssembledNext(header: byte, fragments: seq<bytes>, i: nat)
    requires i < |fragments|
    ensures Assembled(header, fragments, i + 1) == Assembled(header, fragments, i) + fragments[i]
  {
    assert fragments[..i + 1] == fragments[..i] + [fragments[i]];
    FlattenAppend(fragments[..i], [fragments[i]]);
    assert Flatten([fragments[i]]) == fragments[i];
  }

  lemma {:induction false} AssembledAll(header: byte, fragments: seq<bytes>)
    requires fragments != []
    ensures [Assembled(header, fragments, |fragments|)] == Nals(Fua(header, fragments))
  {
    assert fragments[..|fragments|] == fragments;
  }

  lemma {:induction false} BrokenStep(s: State, header: byte, fragments: seq<bytes>, i: nat, base: int)
    requires 0 < i < |fragments| && Quiet(s, base + i)
    ensures Quiet(s, base + (i + 1))
    ensures
      var s' := Step(s, FuaPacket(header, fragments, i, base));
      Quiet(s', base + (i + 1)) && s'.out == s.out
  {
    hide Step, FuBody;
    FuaStep(s, header, fragments[i], false, i == |fragments| - 1, base + i);
    QuietAfter(Step(s, FuaPacket(header, fragments, i, base)), base + i);
  }

  lemma {:induction false} NumberOf(header: byte, fragments: seq<bytes>, i: nat, base: int)
    requires i < |fragments|
    ensures FuaPacket(header, fragments, i, base).extSeq == base + i
  {
  }

  lemma {:induction false} NoRest(s: State, header: byte, fragments: seq<bytes>, base: int, lost: set<int>)
    requires fragments != []
    ensures Run(s, Survivors(FuaRest(header, fragments, |fragments|, base), lost)) == s
  {
    assert FuaRest(header, fragments, |fragments|, base) == [];
  }

  /** Once a fragment is lost, the rest of the unit contributes nothing. */
  lemma {:induction false} FuaBroken(s: State, header: byte, fragments: seq<bytes>, i: nat, base: int, lost: set<int>)
    requires 0 < i <= |fragments| && Quiet(s, base + i)
    ensures
      var s' := Run(s, Survivors(FuaRest(header, fragments, i, base), lost));
      Quiet(s', base + |fragments|) && s'.out == s.out
    decreases |fragments| - i
  {
    hide *;
    if i == |fragments| {
      NoRest(s, header, fragments, base, lost);
    } else {
      NumberOf(header, fragments, i, base);
      BrokenStep(s, header, fragments, i, base);
      RunFuaRest(s, header, fragments, i, base, lost);
      if base + i in lost {
        FuaBroken(s, header, fragments, i + 1, base, lost);
      } else {
        FuaBroken(Step(s, FuaPacket(header, fragments, i, base)), header, fragments, i + 1, base, lost);
      }
    }
  }

  /** What a FU-A contributes when the fragments from i on decide. */
  function FuaNals(header: byte, fragments: seq<bytes>, i: nat, base: int, lost: set<int>): seq<bytes>
    requires i <= |fragments|
  {
    if Intact(base + i, |fragments| - i, lost) then [Assembled(header, fragments, |fragments|)] else []
  }

  lemma {:induction false} FuaNalsNext(out: bytes, header: byte, fragments: seq<bytes>, i: nat, base: int, lost: set<int>)
    requires i < |fragments|
    ensures FuaNals(header, fragments, i, base, lost)
            == if base + i in lost then [] else FuaNals(header, fragments, i + 1, base, lost)
    ensures FuaNals(header, fragments, |fragments|, base, lost) == [Assembled(header, fragments, |fragments|)]
    ensures Extend(out, []) == out
  {
    ExtendTwice(out, [], []);
  }

  /** One more intact fragment extends the assembly, and the last one emits it. */
  lemma {:induction false} FuaNext(s: State, header: byte, fragments: seq<bytes>, i: nat, base: int)
    requires 0 < i < |fragments|
    requires s.fuActive && s.prevSeq == Some(base + i - 1) && s.fuBuf == Assembled(header, fragments, i)
    ensures
      var s' := Step(s, FuaPacket(header, fragments, i, base));
      && s'.prevSeq == Some(base + i)
      && if i == |fragments| - 1 then
           !s'.fuActive && s'.out == Extend(s.out, [Assembled(header, fragments, |fragments|)])
         else
           s'.fuActive && s'.out == s.out && s'.fuBuf == Assembled(header, fragments, i + 1)
  {
    var last := i == |fragments| - 1;
    assert FuaPacket(header, fragments, i, base) == Packet(base + i, FuBody(header, fragments[i], false, last));
    hide *;
    AssembledNext(header, fragments, i);
    FuaStep(s, header, fragments[i], false, last, base + i);
  }

  /** With fragments before i intact, the unit is emitted exactly when the rest survives. */
  lemma {:induction false} FuaIntact(s: State, header: byte, fragments: seq<bytes>, i: nat, base: int, lost: set<int>)
    requires 0 < i < |fragments|
    requires s.fuActive && s.prevSeq == Some(base + i - 1) && s.fuBuf == Assembled(header, fragments, i)
    ensures
      var s' := Run(s, Survivors(FuaRest(header, fragments, i, base), lost));
      && Quiet(s', base + |fragments|)
      && s'.out == Extend(s.out, FuaNals(header, fragments, i, base, lost))
    decreases |fragments| - i
  {
    hide *;
    var p := FuaPacket(header, fragments, i, base);
    NumberOf(header, fragments, i, base);
    RunFuaRest(s, header, fragments, i, base, lost);
    FuaNalsNext(s.out, header, fragments, i, base, lost);
    if base + i in lost {
      QuietAfter(s, base + i - 1);
      FuaBroken(s, header, fragments, i + 1, base, lost);
    } else {
      FuaNext(s, header, fragments, i, base);
      if i == |fragments| - 1 {
        QuietAfter(Step(s, p), base + i);
        FuaBroken(Step(s, p), header, fragments, i + 1, base, lost);
      } else {
        FuaIntact(Step(s, p), header, fragments, i + 1, base, lost);
      }
    }
  }

  lemma {:induction false} FirstFragment(s: State, header: byte, fragments: seq<bytes>, base: int)
    requires fragments != [] && Quiet(s, base)
    ensures FuaPacket(header, fragments, 0, base) == Packet(base, FuBody(header, fragments[0], true, |fragments| == 1))
    ensures Assembled(header, fragments, 0) == [header] && Quiet(s, base + 1)
  {
    hide FuBody;
  }

  lemma {:induction false} FuaUnit(s: State, header: byte, fragments: seq<bytes>, base: int, lost: set<int>)
    requires fragments != [] && Quiet(s, base)
    ensures
      var s' := Run(s, Survivors(FuaRest(header, fragments, 0, base), lost));
      && Quiet(s', base + |fragments|)
      && s'.out == Extend(s.out, FuaNals(header, fragments, 0, base, lost))
  {
    hide *;
    var p := FuaPacket(header, fragments, 0, base);
    FirstFragment(s, header, fragments, base);
    RunFuaRest(s, header, fragments, 0, base, lost);
    FuaNalsNext(s.out, header, fragments, 0, base, lost);
    if base in lost {
      FuaBroken(s, header, fragments, 1, base, lost);
    } else {
      AssembledNext(header, fragments, 0);
      FuaStep(s, header, fragments[0], true, |fragments| == 1, base);
      if |fragments| == 1 {
        QuietAfter(Step(s, p), base);
        FuaBroken(Step(s, p), header, fragments, 1, base, lost);
      } else {
        FuaIntact(Step(s, p), header, fragments, 1, base, lost);
      }
    }
  }

  /** One unit of any kind adds its NAL units exactly when all its packets survive. */
  lemma {:induction false} UnitRecovered(s: State, u: Unit, base: int, lost: set<int>)
    requires Quiet(s, base)
    ensures
      var s' := Run(s, Survivors(Number(Payloads(u), base), lost));
      && Quiet(s', base + |Payloads(u)|)
      && s'.out == Extend(s.out, RecoveredUnit(u, base, lost))
  {
    if u.Fua? {
      assert FuaRest(u.header, u.fragments, 0, base) == Number(Payloads(u), base);
      FuaUnit(s, u.header, u.fragments, base, lost);
      AssembledAll(u.header, u.fragments);
      assert FuaNals(u.header, u.fragments, 0, base, lost) == RecoveredUnit(u, base, lost);
    } else {
      var p := Packet(base, Payloads(u)[0]);
      assert Number(Payloads(u), base) == [p] + [];
      RunSurvivors(s, p, [], lost);
      match u
      case Single(nal) =>
        ExtendOne(s.out, nal);
      case Stap(indicator, nals) =>
        StapRoundTrip([indicator], nals);
    }
  }

  lemma {:induction false} RunTransmit(s: State, units: seq<Unit>, base: int, lost: set<int>)
    requires units != []
    ensures
      var later := Transmit(units[1..], base + |Payloads(units[0])|);
      Run(s, Survivors(Transmit(units, base), lost)) ==
      Run(Run(s, Survivors(Number(Payloads(units[0]), base), lost)), Survivors(later, lost))
  {
    var now := Number(Payloads(units[0]), base);
    var later := Transmit(units[1..], base + |Payloads(units[0])|);
    SurvivorsAppend(now, later, lost);
    RunAppend(s, Survivors(now, lost), Survivors(later, lost));
  }

  lemma {:induction false} StreamRecovered(s: State, units: seq<Unit>, base: int, lost: set<int>)
    requires Quiet(s, base)
    ensures Run(s, Survivors(Transmit(units, base), lost)).out == Extend(s.out, Recovered(units, base, lost))
    decreases |units|
  {
    if units != [] {
      var u, rest := units[0], units[1..];
      var next := base + |Payloads(u)|;
      assert Recovered(units, base, lost) == RecoveredUnit(u, base, lost) + Recovered(rest, next, lost);
      hide *;
      UnitRecovered(s, u, base, lost);
      RunTransmit(s, units, base, lost);
      StreamRecovered(Run(s, Survivors(Number(Payloads(u), base), lost)), rest, next, lost);
      ExtendTwice(s.out, RecoveredUnit(u, base, lost), Recovered(rest, next, lost));
    }
  }

  lemma {:induction false} AnnexBIsStream(nals: seq<bytes>)
    ensures AnnexB(nals) == AnnexBStream.Stream(nals)
  {
    if nals != [] {
      AnnexBIsStream(nals[1..]);
    }
  }

  /** However NAL units are packetized and whichever packets are lost, the recording is the
      Annex-B form of exactly the NAL units all of whose packets survived, in order; and a reader
      that cuts it at start codes gets them back if and only if none contains one or ends in zero. */
  lemma {:induction false} LossyRecovery(units: seq<Unit>, base: int, lost: set<int>)
    ensures Run(Start, Survivors(Transmit(units, base), lost)).out == AnnexB(Recovered(units, base, lost))
    ensures AnnexBStream.Cut(Run(Start, Survivors(Transmit(units, base), lost)).out) == Recovered(units, base, lost)
      <==> AnnexBStream.AllPlain(Recovered(units, base, lost))
  {
    StreamRecovered(Start, units, base, lost);
    assert Extend([], Recovered(units, base, lost)) == AnnexB(Recovered(units, base, lost));
    ReadBack(Recovered(units, base, lost));
  }

  lemma {:induction false} ReadBack(nals: seq<bytes>)
    ensures AnnexBStream.Cut(AnnexB(nals)) == nals <==> AnnexBStream.AllPlain(nals)
  {
    hide *;
    AnnexBIsStream(nals);
    AnnexBStream.CutExact(nals);
  }

  function AllNals(units: seq<Unit>): seq<bytes> {
    if units == [] then [] else Nals(units[0]) + AllNals(units[1..])
  }

  lemma {:induction false} NothingLost(units: seq<Unit>, base: int)
    ensures Survivors(Transmit(units, base), {}) == Transmit(units, base)
    ensures Recovered(units, base, {}) == AllNals(units)
    decreases |units|
  {
    AllSurvive(Transmit(units, base));
    hide Survivors, Transmit, Payloads, Nals;
    if units != [] {
      NothingLost(units[1..], base + |Payloads(units[0])|);
    }
  }

  lemma {:induction false} AllSurvive(packets: seq<Packet>)
    ensures Survivors(packets, {}) == packets
  {
    if packets != [] {
      AllSurvive(packets[1..]);
      assert packets == [packets[0]] + packets[1..];
    }
  }

  /** Without loss, depacketizing undoes every packetization. */
  lemma {:induction false} LosslessRoundTrip(units: seq<Unit>, base: int)
    ensures Run(Start, Transmit(units, base)).out == AnnexB(AllNals(units))
  {
    NothingLost(units, base);
    LossyRecovery(units, base, {});
  }

  // ---------------------------------------------------------------- packets of other kinds

  /** Payloads the depacketizer passes over: empty, of an undefined or uncommon type (table 1 of
      RFC 6184: 0, STAP-B, MTAPs, FU-B, 30 and 31), or a FU-A without its FU header. */
  predicate PassedOver(body: bytes) {
    body == []
    || body[0] % 0x20 == 0 || body[0] % 0x20 == 25 || body[0] % 0x20 == 26 || body[0] % 0x20 == 27
    || body[0] % 0x20 == 29 || body[0] % 0x20 == 30 || body[0] % 0x20 == 31
    || (body[0] % 0x20 == 28 && |body| == 1)
  }

  /** What a sender may put on the wire: a packetized unit, or a packet that is passed over. */
  datatype Item = Packed(u: Unit) | Alien(body: bytes)

  function ItemPackets(item: Item, base: int): (ps: seq<Packet>)
    ensures |ps| > 0
  {
    if item.Packed? then Number(Payloads(item.u), base) else [Packet(base, item.body)]
  }

  function TransmitItems(items: seq<Item>, base: int): seq<Packet> {
    if items == [] then []
    else ItemPackets(items[0], base) + TransmitItems(items[1..], base + |ItemPackets(items[0], base)|)
  }

  function RecoveredItem(item: Item, base: int, lost: set<int>): seq<bytes> {
    if item.Packed? then RecoveredUnit(item.u, base, lost) else []
  }

  function RecoveredItems(items: seq<Item>, base: int, lost: set<int>): seq<bytes> {
    if items == [] then []
    else
      RecoveredItem(items[0], base, lost)
      + RecoveredItems(items[1..], base + |ItemPackets(items[0], base)|, lost)
  }

  lemma {:induction false} PassOver(s: State, n: int, body: bytes)
    requires PassedOver(body) && Quiet(s, n)
    ensures var s' := Step(s, Packet(n, body)); s'.out == s.out && Quiet(s', n + 1)
    ensures Quiet(s, n + 1)
  {
  }

  lemma {:induction false} ItemRecovered(s: State, item: Item, base: int, lost: set<int>)
    requires Quiet(s, base) && (item.Alien? ==> PassedOver(item.body))
    ensures
      var s' := Run(s, Survivors(ItemPackets(item, base), lost));
      && Quiet(s', base + |ItemPackets(item, base)|)
      && s'.out == Extend(s.out, RecoveredItem(item, base, lost))
  {
    if item.Packed? {
      UnitRecovered(s, item.u, base, lost);
    } else {
      var p := Packet(base, item.body);
      assert ItemPackets(item, base) == [p] + [];
      RunSurvivors(s, p, [], lost);
      PassOver(s, base, item.body);
      ExtendTwice(s.out, [], []);
      hide Step, AnnexB;
    }
  }

  lemma {:induction false} ItemsRecovered(s: State, items: seq<Item>, base: int, lost: set<int>)
    requires Quiet(s, base) && forall item | item in items :: item.Alien? ==> PassedOver(item.body)
    ensures Run(s, Survivors(TransmitItems(items, base), lost)).out == Extend(s.out, RecoveredItems(items, base, lost))
    decreases |items|
  {
    hide *;
    if items == [] {
      NoItems(s, items, base, lost);
    } else {
      var item, rest := items[0], items[1..];
      var next := base + |ItemPackets(item, base)|;
      assert item in items;
      ItemsFirst(s, items, base, lost);
      ItemRecovered(s, item, base, lost);
      ItemsRecovered(Run(s, Survivors(ItemPackets(item, base), lost)), rest, next, lost);
      ExtendTwice(s.out, RecoveredItem(item, base, lost), RecoveredItems(rest, next, lost));
    }
  }

  lemma {:induction false} NoItems(s: State, items: seq<Item>, base: int, lost: set<int>)
    requires items == []
    ensures Run(s, Survivors(TransmitItems(items, base), lost)).out == Extend(s.out, RecoveredItems(items, base, lost))
  {
    ExtendTwice(s.out, [], []);
  }

  lemma {:induction false} ItemsFirst(s: State, items: seq<Item>, base: int, lost: set<int>)
    requires items != []
    ensures
      var now, next := ItemPackets(items[0], base), base + |ItemPackets(items[0], base)|;
      && Run(s, Survivors(TransmitItems(items, base), lost))
        == Run(Run(s, Survivors(now, lost)), Survivors(TransmitItems(items[1..], next), lost))
      && RecoveredItems(items, base, lost)
        == RecoveredItem(items[0], base, lost) + RecoveredItems(items[1..], next, lost)
  {
    hide ItemPackets, RecoveredItem, Run, Survivors;
    var now, next := ItemPackets(items[0], base), base + |ItemPackets(items[0], base)|;
    SurvivorsAppend(now, TransmitItems(items[1..], next), lost);
    RunAppend(s, Survivors(now, lost), Survivors(TransmitItems(items[1..], next), lost));
  }

  /** Packets of other kinds between the units change nothing about what is recovered. */
  lemma {:induction false} AliensPassedOver(items: seq<Item>, base: int, lost: set<int>)
    requires forall item | item in items :: item.Alien? ==> PassedOver(item.body)
    ensures Run(Start, Survivors(TransmitItems(items, base), lost)).out == AnnexB(RecoveredItems(items, base, lost))
  {
    ItemsRecovered(Start, items, base, lost);
    assert Extend([], RecoveredItems(items, base, lost)) == AnnexB(RecoveredItems(items, base, lost));
  }
}
