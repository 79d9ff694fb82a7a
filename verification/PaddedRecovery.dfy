/** The recorder does not strip RTP padding (section 5.1 of RFC 3550), so the depacketizer sees it
    behind the payload. What that does to a recording, and exactly when it does nothing. */
module PaddedRecovery {
  import opened Bytes
  import opened H264Depacketizer
  import opened H264Recovery

  /** The padding behind the packet with each true sequence number. */
  type Padding = int -> bytes

  function Pad(p: Packet, pad: Padding): Packet {
    p.(body := p.body + pad(p.extSeq))
  }

  function PadAll(packets: seq<Packet>, pad: Padding): (r: seq<Packet>)
    ensures |r| == |packets|
    ensures forall i | 0 <= i < |r| :: r[i] == Pad(packets[i], pad)
  {
    seq(|packets|, i requires 0 <= i < |packets| => Pad(packets[i], pad))
  }

  /** The NAL units an aggregation packet's reader takes padding for, from offset i on. */
  function Mistaken(padding: bytes, i: nat): (nals: seq<bytes>)
    ensures forall n | n in nals :: 0 < |n| < 0x1_0000
    decreases |padding| - i
  {
    if i + 2 > |padding| then []
    else
      var size := GetU16(padding, i);
      if size == 0 || i + 2 + size > |padding| then []
      else [padding[i + 2..i + 2 + size]] + Mistaken(padding, i + 2 + size)
  }

  /** The padding behind the i-th packet of a unit that starts at base. */
  function Behind(pad: Padding, base: int, i: nat): bytes {
    pad(base + i)
  }

  /** The unit the depacketizer makes of a padded one. */
  function PaddedUnit(u: Unit, base: int, pad: Padding): (r: Unit)
    ensures |Payloads(r)| == |Payloads(u)|
  {
    match u
    case Single(nal) => Single(nal + pad(base))
    case Stap(indicator, nals) => Stap(indicator, nals + Mistaken(pad(base), 0))
    case Fua(header, fragments) =>
      Fua(header, seq(|fragments|, i requires 0 <= i < |fragments| => fragments[i] + Behind(pad, base, i)))
  }

  function PaddedUnits(units: seq<Unit>, base: int, pad: Padding): seq<Unit> {
    if units == [] then []
    else [PaddedUnit(units[0], base, pad)] + PaddedUnits(units[1..], base + |Payloads(units[0])|, pad)
  }

  // ---------------------------------------------------------------- what is recorded

  lemma {:induction false} LengthBehind(prefix: bytes, padding: bytes, i: nat)
    requires i + 2 <= |padding|
    ensures GetU16(prefix + padding, |prefix| + i) == GetU16(padding, i)
  {
    var b := prefix + padding;
    assert b[|prefix| + i] == padding[i] && b[|prefix| + i + 1] == padding[i + 1];
  }

  lemma {:induction false} SliceBehind(prefix: bytes, padding: bytes, i: nat, j: nat)
    requires i <= j <= |padding|
    ensures (prefix + padding)[|prefix| + i..|prefix| + j] == padding[i..j]
  {
  }

  lemma {:induction false} AnnexBFirst(nal: bytes, nals: seq<bytes>)
    ensures AnnexB([nal] + nals) == STARTCODE + nal + AnnexB(nals)
  {
    assert ([nal] + nals)[1..] == nals;
  }

  lemma {:induction false} ReadsBehind(prefix: bytes, padding: bytes, i: nat)
    requires i <= |padding|
    ensures StapOutput(prefix + padding, |prefix| + i) == AnnexB(Mistaken(padding, i))
    decreases |padding| - i
  {
    hide GetU16, AnnexB;
    assert AnnexB([]) == [] by {
      NoNals();
    }
    if i + 2 <= |padding| {
      LengthBehind(prefix, padding, i);
      var size := GetU16(padding, i);
      if size != 0 && i + 2 + size <= |padding| {
        var nal := padding[i + 2..i + 2 + size];
        SliceBehind(prefix, padding, i + 2, i + 2 + size);
        ReadsBehind(prefix, padding, i + 2 + size);
        AnnexBFirst(nal, Mistaken(padding, i + 2 + size));
      }
    }
  }

  lemma {:induction false} NoNals()
    ensures AnnexB([]) == []
  {
  }

  lemma {:induction false} StapBodyStep(prefix: bytes, nals: seq<bytes>, padding: bytes)
    requires nals != [] && forall n | n in nals :: 0 < |n| < 0x1_0000
    ensures
      var next := prefix + (PutU16(|nals[0]|) + nals[0]);
      prefix + (StapBody(nals) + padding) == next + (StapBody(nals[1..]) + padding)
  {
    var head, rest := PutU16(|nals[0]|) + nals[0], StapBody(nals[1..]);
    assert StapBody(nals) == head + rest;
    hide *;
    Middle(prefix, head, rest + padding);
    Middle(head, rest, padding);
  }

  /** Reading an aggregation packet with padding goes on behind its NAL units. */
  lemma {:induction false} PaddedStap(prefix: bytes, nals: seq<bytes>, padding: bytes)
    requires forall n | n in nals :: 0 < |n| < 0x1_0000
    ensures StapOutput(prefix + (StapBody(nals) + padding), |prefix|) == Extend(AnnexB(nals), Mistaken(padding, 0))
    decreases |nals|
  {
    hide *;
    if nals == [] {
      NothingPacked(nals, padding);
      ReadsBehind(prefix, padding, 0);
    } else {
      var nal, later := nals[0], nals[1..];
      var next, rest := prefix + (PutU16(|nal|) + nal), StapBody(later) + padding;
      StapBodyStep(prefix, nals, padding);
      StapPrefix(prefix, nal, rest);
      PaddedStap(next, later, padding);
      ExtendFirst(nals, Mistaken(padding, 0));
    }
  }

  lemma {:induction false} NothingPacked(nals: seq<bytes>, padding: bytes)
    requires nals == []
    ensures StapBody(nals) + padding == padding
    ensures Extend(AnnexB(nals), Mistaken(padding, 0)) == AnnexB(Mistaken(padding, 0))
  {
  }

  lemma {:induction false} ExtendFirst(nals: seq<bytes>, more: seq<bytes>)
    requires nals != []
    ensures Extend(AnnexB(nals), more) == STARTCODE + nals[0] + Extend(AnnexB(nals[1..]), more)
  {
    var head, rest, tail := STARTCODE + nals[0], AnnexB(nals[1..]), AnnexB(more);
    assert AnnexB(nals) == head + rest;
    assert Extend(AnnexB(nals), more) == (head + rest) + tail && Extend(rest, more) == rest + tail;
    hide *;
    Middle(head, rest, tail);
  }

  lemma {:induction false} PaddedFuaPayloads(u: Unit, base: int, pad: Padding)
    requires u.Fua?
    ensures PadAll(Number(Payloads(u), base), pad) == Number(Payloads(PaddedUnit(u, base, pad)), base)
  {
    var n := |u.fragments|;
    forall i | 0 <= i < n
      ensures Payloads(u)[i] + pad(base + i) == Payloads(PaddedUnit(u, base, pad))[i]
    {
      assert Behind(pad, base, i) == pad(base + i);
    }
  }

  /** The depacketizer's state after the survivors among some packets. */
  function After(s: State, packets: seq<Packet>, lost: set<int>): State {
    Run(s, Survivors(packets, lost))
  }

  function UnitPackets(u: Unit, base: int): seq<Packet> {
    Number(Payloads(u), base)
  }

  lemma {:induction false} PaddedUnitRun(s: State, u: Unit, base: int, lost: set<int>, pad: Padding)
    ensures After(s, PadAll(UnitPackets(u, base), pad), lost) == After(s, UnitPackets(PaddedUnit(u, base, pad), base), lost)
  {
    if u.Fua? {
      PaddedFuaPayloads(u, base, pad);
    } else {
      var p, q := Packet(base, Payloads(u)[0] + pad(base)), Packet(base, Payloads(PaddedUnit(u, base, pad))[0]);
      assert PadAll(UnitPackets(u, base), pad) == [p] + [];
      assert UnitPackets(PaddedUnit(u, base, pad), base) == [q] + [];
      PaddedStep(s, u, base, pad);
      OnePacket(s, p, q, lost);
      hide *;
    }
  }

  lemma {:induction false} OnePacket(s: State, p: Packet, q: Packet, lost: set<int>)
    requires p.extSeq == q.extSeq && Step(s, p) == Step(s, q)
    ensures After(s, [p] + [], lost) == After(s, [q] + [], lost)
  {
    hide Run, Survivors, Step;
    RunSurvivors(s, p, [], lost);
    RunSurvivors(s, q, [], lost);
  }

  lemma {:induction false} PaddedStep(s: State, u: Unit, base: int, pad: Padding)
    requires !u.Fua?
    ensures Step(s, Packet(base, Payloads(u)[0] + pad(base)))
      == Step(s, Packet(base, Payloads(PaddedUnit(u, base, pad))[0]))
  {
    match u
    case Single(nal) =>
    case Stap(indicator, nals) =>
      var all := nals + Mistaken(pad(base), 0);
      assert Payloads(u)[0] + pad(base) == [indicator] + (StapBody(nals) + pad(base));
      PaddedStap([indicator], nals, pad(base));
      StapRoundTrip([indicator], all);
      AnnexBAppend(nals, Mistaken(pad(base), 0));
  }

  lemma {:induction false} AfterAppend(s: State, a: seq<Packet>, b: seq<Packet>, lost: set<int>)
    ensures After(s, a + b, lost) == After(After(s, a, lost), b, lost)
  {
    hide Run, Survivors;
    SurvivorsAppend(a, b, lost);
    RunAppend(s, Survivors(a, lost), Survivors(b, lost));
  }

  /** A stream, a unit at a time, with its padding or as packetized. */
  lemma {:induction false} AfterUnit(s: State, units: seq<Unit>, base: int, lost: set<int>, pad: Padding)
    requires units != []
    ensures var u, later := units[0], Transmit(units[1..], base + |Payloads(units[0])|);
      && After(s, Transmit(units, base), lost) == After(After(s, UnitPackets(u, base), lost), later, lost)
      && After(s, PadAll(Transmit(units, base), pad), lost)
        == After(After(s, PadAll(UnitPackets(u, base), pad), lost), PadAll(later, pad), lost)
  {
    var u, later := units[0], Transmit(units[1..], base + |Payloads(units[0])|);
    assert Transmit(units, base) == UnitPackets(u, base) + later;
    hide *;
    AfterAppend(s, UnitPackets(u, base), later, lost);
    PadAllAppend(UnitPackets(u, base), later, pad);
    AfterAppend(s, PadAll(UnitPackets(u, base), pad), PadAll(later, pad), lost);
  }

  lemma {:induction false} PadAllAppend(a: seq<Packet>, b: seq<Packet>, pad: Padding)
    ensures PadAll(a + b, pad) == PadAll(a, pad) + PadAll(b, pad)
  {
  }

  lemma {:induction false} PaddedUnitsFirst(units: seq<Unit>, base: int, pad: Padding)
    requires units != []
    ensures var padded := PaddedUnits(units, base, pad);
      && padded != [] && padded[0] == PaddedUnit(units[0], base, pad)
      && padded[1..] == PaddedUnits(units[1..], base + |Payloads(units[0])|, pad)
      && |Payloads(padded[0])| == |Payloads(units[0])|
  {
    hide PaddedUnit, Payloads;
  }

  lemma {:induction false} PaddedRun(s: State, units: seq<Unit>, base: int, lost: set<int>, pad: Padding)
    ensures After(s, PadAll(Transmit(units, base), pad), lost)
      == After(s, Transmit(PaddedUnits(units, base, pad), base), lost)
    decreases |units|
  {
    hide *;
    if units == [] {
      NothingSent(units, base, pad);
    } else {
      var u, next := units[0], base + |Payloads(units[0])|;
      var padded := PaddedUnits(units, base, pad);
      PaddedUnitsFirst(units, base, pad);
      AfterUnit(s, units, base, lost, pad);
      AfterUnit(s, padded, base, lost, pad);
      PaddedUnitRun(s, u, base, lost, pad);
      PaddedRun(After(s, PadAll(UnitPackets(u, base), pad), lost), units[1..], next, lost, pad);
    }
  }

  lemma {:induction false} NothingSent(units: seq<Unit>, base: int, pad: Padding)
    requires units == []
    ensures PadAll(Transmit(units, base), pad) == [] && Transmit(PaddedUnits(units, base, pad), base) == []
  {
  }

  /** However NAL units are packetized, padded and lost: the recording is that of the padded units. */
  lemma {:induction false} PaddedRecording(units: seq<Unit>, base: int, lost: set<int>, pad: Padding)
    ensures Run(Start, Survivors(PadAll(Transmit(units, base), pad), lost)).out
      == AnnexB(Recovered(PaddedUnits(units, base, pad), base, lost))
  {
    PaddedRun(Start, units, base, lost, pad);
    LossyRecovery(PaddedUnits(units, base, pad), base, lost);
  }

  // ---------------------------------------------------------------- when padding does no harm

  /** Padding that adds nothing: none at all, except behind an aggregation packet, where it is
      enough that it does not begin like a length and that many bytes. */
  predicate Harmless(u: Unit, base: int, pad: Padding) {
    match u
    case Single(_) => pad(base) == []
    case Stap(_, _) => Mistaken(pad(base), 0) == []
    case Fua(_, fragments) => forall i | 0 <= i < |fragments| :: Behind(pad, base, i) == []
  }

  /** All units that survive the loss have harmless padding. */
  predicate NoneLeaks(units: seq<Unit>, base: int, lost: set<int>, pad: Padding) {
    units == []
    || ((Intact(base, |Payloads(units[0])|, lost) ==> Harmless(units[0], base, pad))
        && NoneLeaks(units[1..], base + |Payloads(units[0])|, lost, pad))
  }

  lemma {:induction false} AnnexBOne(nal: bytes)
    ensures |AnnexB([nal])| == 4 + |nal|
  {
    assert AnnexB([nal]) == STARTCODE + nal + AnnexB([]);
  }

  lemma {:induction false} AnnexBNonEmpty(nals: seq<bytes>)
    ensures AnnexB(nals) == [] <==> nals == []
  {
    if nals != [] {
      assert |AnnexB(nals)| >= |STARTCODE|;
    }
  }

  /** Parts that each begin another's parts join to no more, and to as much only if equal. */
  lemma {:induction false} FlattenGrows(a: seq<bytes>, b: seq<bytes>)
    requires |a| == |b| && forall i | 0 <= i < |a| :: |a[i]| <= |b[i]| && a[i] == b[i][..|a[i]|]
    ensures |Flatten(a)| <= |Flatten(b)|
    ensures |Flatten(a)| == |Flatten(b)| <==> a == b
  {
    if a != [] {
      FlattenGrows(a[1..], b[1..]);
      assert Flatten(a) == a[0] + Flatten(a[1..]) && Flatten(b) == b[0] + Flatten(b[1..]);
      hide Flatten;
      assert a == [a[0]] + a[1..] && b == [b[0]] + b[1..];
      if |a[0]| == |b[0]| {
        assert a[0] == b[0][..|b[0]|] == b[0];
      }
    }
  }

  lemma {:induction false} PaddedFragments(u: Unit, base: int, pad: Padding)
    requires u.Fua?
    ensures var padded := PaddedUnit(u, base, pad);
      && |Flatten(u.fragments)| <= |Flatten(padded.fragments)|
      && (|Flatten(u.fragments)| == |Flatten(padded.fragments)| <==> Harmless(u, base, pad))
      && (Harmless(u, base, pad) ==> padded.fragments == u.fragments)
  {
    var a, b := u.fragments, PaddedUnit(u, base, pad).fragments;
    assert forall i | 0 <= i < |a| :: b[i] == a[i] + Behind(pad, base, i);
    hide Behind, PaddedUnit;
    FlattenGrows(a, b);
    hide Flatten;
    forall i | 0 <= i < |a| ensures b[i] == a[i] <==> Behind(pad, base, i) == [] {
      assert |b[i]| == |a[i]| + |Behind(pad, base, i)|;
    }
    if Harmless(u, base, pad) {
      assert a == b;
    }
  }

  /** Padding never shortens what a unit contributes, and leaves its length only if harmless. */
  lemma {:induction false} UnitGrows(u: Unit, base: int, pad: Padding)
    ensures var before, after := AnnexB(Nals(u)), AnnexB(Nals(PaddedUnit(u, base, pad)));
      && |before| <= |after|
      && (|before| == |after| <==> Harmless(u, base, pad))
      && (Harmless(u, base, pad) ==> before == after)
  {
    match u
    case Single(nal) =>
      AnnexBOne(nal);
      AnnexBOne(nal + pad(base));
      assert Harmless(u, base, pad) ==> nal + pad(base) == nal;
    case Stap(_, nals) =>
      var more := Mistaken(pad(base), 0);
      AnnexBAppend(nals, more);
      AnnexBNonEmpty(more);
      hide AnnexB, Mistaken;
    case Fua(header, fragments) =>
      var padded := PaddedUnit(u, base, pad);
      PaddedFragments(u, base, pad);
      AnnexBOne([header] + Flatten(fragments));
      AnnexBOne([header] + Flatten(padded.fragments));
      hide AnnexB, Flatten, Harmless;
  }

  lemma {:induction false} RecoveredUnitGrows(u: Unit, base: int, lost: set<int>, pad: Padding)
    ensures var before, after := AnnexB(RecoveredUnit(u, base, lost)),
                                 AnnexB(RecoveredUnit(PaddedUnit(u, base, pad), base, lost));
      var harmless := Intact(base, |Payloads(u)|, lost) ==> Harmless(u, base, pad);
      && |before| <= |after|
      && (|before| == |after| <==> harmless)
      && (harmless ==> before == after)
  {
    UnitGrows(u, base, pad);
    hide PaddedUnit, Nals, Payloads, Harmless, AnnexB, Intact;
  }

  lemma {:induction false} RecoveredFirst(units: seq<Unit>, base: int, lost: set<int>)
    requires units != []
    ensures AnnexB(Recovered(units, base, lost))
      == AnnexB(RecoveredUnit(units[0], base, lost))
        + AnnexB(Recovered(units[1..], base + |Payloads(units[0])|, lost))
  {
    hide RecoveredUnit, Payloads, AnnexB;
    AnnexBAppend(RecoveredUnit(units[0], base, lost), Recovered(units[1..], base + |Payloads(units[0])|, lost));
  }

  lemma {:induction false} GrownTogether(a: bytes, a': bytes, b: bytes, b': bytes, same: bool, alike: bool)
    requires |a| <= |a'| && (|a| == |a'| <==> same) && (same ==> a == a')
    requires |b| <= |b'| && (|b| == |b'| <==> alike) && (alike ==> b == b')
    ensures |a + b| <= |a' + b'| && (|a + b| == |a' + b'| <==> same && alike)
    ensures same && alike ==> a + b == a' + b'
  {
  }

  lemma {:induction false} NothingLeaks(units: seq<Unit>, base: int, lost: set<int>, pad: Padding)
    requires units == []
    ensures Recovered(units, base, lost) == [] && Recovered(PaddedUnits(units, base, pad), base, lost) == []
    ensures NoneLeaks(units, base, lost, pad)
  {
  }

  lemma {:induction false} LeaksFirst(units: seq<Unit>, base: int, lost: set<int>, pad: Padding)
    requires units != []
    ensures NoneLeaks(units, base, lost, pad)
      <==> ((Intact(base, |Payloads(units[0])|, lost) ==> Harmless(units[0], base, pad))
            && NoneLeaks(units[1..], base + |Payloads(units[0])|, lost, pad))
  {
    hide Intact, Harmless, Payloads;
  }

  lemma {:induction false} RecordingGrows(units: seq<Unit>, base: int, lost: set<int>, pad: Padding)
    ensures var before, after := AnnexB(Recovered(units, base, lost)),
                                 AnnexB(Recovered(PaddedUnits(units, base, pad), base, lost));
      && |before| <= |after|
      && (|before| == |after| <==> NoneLeaks(units, base, lost, pad))
      && (NoneLeaks(units, base, lost, pad) ==> before == after)
    decreases |units|
  {
    hide *;
    if units == [] {
      NothingLeaks(units, base, lost, pad);
    } else {
      var next := base + |Payloads(units[0])|;
      var leaksHere := Intact(base, |Payloads(units[0])|, lost) && !Harmless(units[0], base, pad);
      LeaksFirst(units, base, lost, pad);
      PaddedUnitsFirst(units, base, pad);
      RecoveredFirst(units, base, lost);
      RecoveredFirst(PaddedUnits(units, base, pad), base, lost);
      RecoveredUnitGrows(units[0], base, lost, pad);
      RecordingGrows(units[1..], next, lost, pad);
      GrownTogether(AnnexB(RecoveredUnit(units[0], base, lost)),
                    AnnexB(RecoveredUnit(PaddedUnit(units[0], base, pad), base, lost)),
                    AnnexB(Recovered(units[1..], next, lost)),
                    AnnexB(Recovered(PaddedUnits(units[1..], next, pad), next, lost)),
                    !leaksHere, NoneLeaks(units[1..], next, lost, pad));
    }
  }

  /** The recording of padded packets is the Annex-B form of exactly the NAL units whose packets
      survived if and only if none of the surviving units' padding leaks into it. */
  lemma {:induction false} PaddingExact(units: seq<Unit>, base: int, lost: set<int>, pad: Padding)
    ensures Run(Start, Survivors(PadAll(Transmit(units, base), pad), lost)).out == AnnexB(Recovered(units, base, lost))
      <==> NoneLeaks(units, base, lost, pad)
  {
    PaddedRecording(units, base, lost, pad);
    RecordingGrows(units, base, lost, pad);
    hide *;
  }

  lemma {:induction false} UnpaddedNeverLeaks(units: seq<Unit>, base: int, lost: set<int>, pad: Padding)
    requires forall n: int :: pad(n) == []
    ensures NoneLeaks(units, base, lost, pad)
    decreases |units|
  {
    if units != [] {
      UnpaddedNeverLeaks(units[1..], base + |Payloads(units[0])|, lost, pad);
    }
  }

  // ---------------------------------------------------------------- padding and arrival

  lemma {:induction false} SurvivorsPadded(packets: seq<Packet>, lost: set<int>, pad: Padding)
    ensures Survivors(PadAll(packets, pad), lost) == PadAll(Survivors(packets, lost), pad)
  {
    if packets != [] {
      SurvivorsPadded(packets[1..], lost, pad);
      assert PadAll(packets, pad)[1..] == PadAll(packets[1..], pad);
    }
  }

  lemma {:induction false} PadAllBag(a: seq<Packet>, b: seq<Packet>, pad: Padding)
    requires multiset(a) == multiset(b)
    ensures multiset(PadAll(a, pad)) == multiset(PadAll(b, pad))
    decreases |a|
  {
    hide *;
    SameLength(a, b);
    if a == [] {
      assert a == b;
    } else {
      assert a[0] in a;
      var k := IndexIn(a[0], b);
      DropBag(a, 0);
      DropBag(b, k);
      PadAllBag(Drop(a, 0), Drop(b, k), pad);
      PadWithout(a, 0, pad);
      PadWithout(b, k, pad);
    }
  }

  lemma {:induction false} SameLength(a: seq<Packet>, b: seq<Packet>)
    requires multiset(a) == multiset(b)
    ensures |a| == |b|
    ensures forall p | p in a :: p in b
  {
    assert |a| == |multiset(a)| == |multiset(b)| == |b|;
    forall p | p in a ensures p in b {
      assert p in multiset(a);
    }
  }

  lemma {:induction false} IndexIn(p: Packet, packets: seq<Packet>) returns (k: nat)
    requires p in packets
    ensures k < |packets| && packets[k] == p
  {
    k :| k < |packets| && packets[k] == p;
  }

  /** All packets but the k-th. */
  function Drop(a: seq<Packet>, k: nat): seq<Packet>
    requires k < |a|
  {
    a[..k] + a[k + 1..]
  }

  lemma {:induction false} DropBag(a: seq<Packet>, k: nat)
    requires k < |a|
    ensures |Drop(a, k)| == |a| - 1 && multiset(Drop(a, k)) == multiset(a) - multiset{a[k]}
  {
    assert a == a[..k] + [a[k]] + a[k + 1..];
  }

  lemma {:induction false} PadWithout(a: seq<Packet>, k: nat, pad: Padding)
    requires k < |a|
    ensures multiset(PadAll(a, pad)) == multiset(PadAll(Drop(a, k), pad)) + multiset{Pad(a[k], pad)}
  {
    var padded := PadAll(a, pad);
    assert PadAll(Drop(a, k), pad) == Drop(padded, k);
    DropBag(padded, k);
    hide *;
    assert padded[k] in multiset(padded);
  }
}
