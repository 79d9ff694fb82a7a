/** Restoring the sending order of captured RTP packets from 16-bit sequence numbers. */
module Reordering {
  import opened Bytes
  import opened H264Depacketizer

  /** A captured packet: the sequence number on the wire and the payload. */
  datatype RawPacket = RawPacket(rawSeq: uint16, body: bytes)

  const HALF_RANGE := 0x8000

  /** The sort key: distance from the first captured packet, modulo 2^16. */
  function Offset(rawSeq: uint16, baseSeq: uint16): (o: uint16) {
    (rawSeq - baseSeq) % 0x1_0000
  }

  function Insert(p: RawPacket, sorted: seq<RawPacket>, baseSeq: uint16): seq<RawPacket> {
    if sorted == [] || Offset(p.rawSeq, baseSeq) <= Offset(sorted[0].rawSeq, baseSeq) then [p] + sorted
    else [sorted[0]] + Insert(p, sorted[1..], baseSeq)
  }

  /** The stable sort by offset. */
  function SortByOffset(packets: seq<RawPacket>, baseSeq: uint16): seq<RawPacket> {
    if packets == [] then [] else Insert(packets[0], SortByOffset(packets[1..], baseSeq), baseSeq)
  }

  /** Larger forward distances are taken for backward jumps and not followed. */
  function Advance(extSeq: int, prevRaw: Option<uint16>, rawSeq: uint16): int {
    if prevRaw.None? then extSeq
    else
      var diff := Offset(rawSeq, prevRaw.value);
      if diff <= HALF_RANGE then extSeq + diff else extSeq
  }

  function Unwrap(extSeq: int, prevRaw: Option<uint16>, packets: seq<RawPacket>): (r: seq<Packet>)
    ensures |r| == |packets|
    decreases |packets|
  {
    if packets == [] then []
    else
      var ext := Advance(extSeq, prevRaw, packets[0].rawSeq);
      [Packet(ext, packets[0].body)] + Unwrap(ext, Some(packets[0].rawSeq), packets[1..])
  }

  lemma {:induction false} UnwrapOne(done: seq<Packet>, extSeq: int, prevRaw: Option<uint16>,
                                     ordered: seq<RawPacket>, k: nat)
    requires k < |ordered|
    ensures var p := ordered[k]; var ext := Advance(extSeq, prevRaw, p.rawSeq);
      done + Unwrap(extSeq, prevRaw, ordered[k..])
      == done + [Packet(ext, p.body)] + Unwrap(ext, Some(p.rawSeq), ordered[k + 1..])
  {
    assert ordered[k..][0] == ordered[k] && ordered[k..][1..] == ordered[k + 1..];
  }

  method UnwrapSequence(ordered: seq<RawPacket>) returns (r: seq<Packet>)
    ensures r == Unwrap(0, None, ordered)
  {
    r := [];
    var extSeq := 0;
    var prevRaw: Option<uint16> := None;
    for k := 0 to |ordered|
      invariant Unwrap(0, None, ordered) == r + Unwrap(extSeq, prevRaw, ordered[k..])
    {
      UnwrapOne(r, extSeq, prevRaw, ordered, k);
      hide Unwrap, Offset;
      var rawSeq := ordered[k].rawSeq;
      if prevRaw.Some? {
        var diff := Offset(rawSeq, prevRaw.value);
        if diff <= HALF_RANGE {
          extSeq := extSeq + diff;
        }
      }
      prevRaw := Some(rawSeq);
      r := r + [Packet(extSeq, ordered[k].body)];
    }
  }

  /** What the recorder writes for the packets of one stream in capture order. */
  function Recording(captured: seq<RawPacket>): bytes
    requires captured != []
  {
    Run(Start, Unwrap(0, None, SortByOffset(captured, captured[0].rawSeq))).out
  }

  method RecordStream(captured: seq<RawPacket>) returns (annexB: bytes)
    requires captured != []
    ensures annexB == Recording(captured)
  {
    var ordered := SortByOffset(captured, captured[0].rawSeq);
    var packets := UnwrapSequence(ordered);
    annexB := Depacketize(packets);
  }

  // The sender's view: packets with their true, unbounded sequence numbers.

  function Raw(p: Packet): RawPacket {
    RawPacket(p.extSeq % 0x1_0000, p.body)
  }

  function Captured(packets: seq<Packet>): (r: seq<RawPacket>)
    ensures |r| == |packets|
    ensures forall i | 0 <= i < |r| :: r[i] == Raw(packets[i])
  {
    seq(|packets|, i requires 0 <= i < |packets| => Raw(packets[i]))
  }

  predicate Increasing(packets: seq<Packet>) {
    forall i, j | 0 <= i < j < |packets| :: packets[i].extSeq < packets[j].extSeq
  }

  /** All true numbers lie in one 16-bit window that starts at base. */
  predicate Within(packets: seq<Packet>, base: int) {
    forall p | p in packets :: base <= p.extSeq < base + 0x1_0000
  }

  function InsertTrue(p: Packet, sorted: seq<Packet>): seq<Packet> {
    if sorted == [] || p.extSeq <= sorted[0].extSeq then [p] + sorted
    else [sorted[0]] + InsertTrue(p, sorted[1..])
  }

  function SortTrue(packets: seq<Packet>): seq<Packet> {
    if packets == [] then [] else InsertTrue(packets[0], SortTrue(packets[1..]))
  }

  predicate Sorted(packets: seq<Packet>) {
    forall i, j | 0 <= i < j < |packets| :: packets[i].extSeq <= packets[j].extSeq
  }

  lemma {:induction false} InsertTrueBag(p: Packet, sorted: seq<Packet>)
    ensures multiset(InsertTrue(p, sorted)) == multiset(sorted) + multiset{p}
  {
    if sorted != [] && p.extSeq > sorted[0].extSeq {
      InsertTrueBag(p, sorted[1..]);
      assert sorted == [sorted[0]] + sorted[1..];
    }
  }

  lemma {:induction false} InsertTrueSorted(p: Packet, sorted: seq<Packet>)
    requires Sorted(sorted)
    ensures Sorted(InsertTrue(p, sorted))
    ensures InsertTrue(p, sorted)[0].extSeq == p.extSeq
            || (sorted != [] && InsertTrue(p, sorted)[0].extSeq == sorted[0].extSeq)
  {
    if sorted != [] && p.extSeq > sorted[0].extSeq {
      var rest := InsertTrue(p, sorted[1..]);
      InsertTrueSorted(p, sorted[1..]);
      assert sorted[0].extSeq <= rest[0].extSeq;
    }
  }

  lemma {:induction false} SortTrueSorted(packets: seq<Packet>)
    ensures Sorted(SortTrue(packets))
    ensures multiset(SortTrue(packets)) == multiset(packets)
  {
    if packets != [] {
      SortTrueSorted(packets[1..]);
      InsertTrueSorted(packets[0], SortTrue(packets[1..]));
      InsertTrueBag(packets[0], SortTrue(packets[1..]));
      assert packets == [packets[0]] + packets[1..];
    }
  }

  /** A set of packets has one increasing arrangement. */
  lemma {:induction false} ArrangementUnique(a: seq<Packet>, b: seq<Packet>)
    requires Sorted(a) && Increasing(b) && multiset(a) == multiset(b)
    ensures a == b
    decreases |a|
  {
    assert |a| == |multiset(a)| == |multiset(b)| == |b|;
    if a != [] {
      SameLowest(a, b);
      ArrangementTail(a, b);
      ArrangementUnique(a[1..], b[1..]);
      hide Sorted, Increasing;
      assert a == [a[0]] + a[1..] && b == [b[0]] + b[1..];
    }
  }

  lemma {:induction false} SameLowest(a: seq<Packet>, b: seq<Packet>)
    requires Sorted(a) && Increasing(b) && multiset(a) == multiset(b) && a != [] && b != []
    ensures a[0] == b[0]
  {
    assert a[0] in multiset(b) && b[0] in multiset(a);
    assert forall p | p in a :: a[0].extSeq <= p.extSeq;
    assert forall p | p in b :: p == b[0] || b[0].extSeq < p.extSeq;
  }

  lemma {:induction false} ArrangementTail(a: seq<Packet>, b: seq<Packet>)
    requires a != [] && b != [] && a[0] == b[0] && multiset(a) == multiset(b)
    ensures multiset(a[1..]) == multiset(b[1..])
  {
    assert a == [a[0]] + a[1..] && b == [b[0]] + b[1..];
    assert multiset(a[1..]) == multiset(a) - multiset{a[0]};
    assert multiset(b[1..]) == multiset(b) - multiset{b[0]};
  }

  /** Inside one window, sorting wire numbers by offset is sorting true numbers. */
  lemma {:induction false} InsertCommutes(p: Packet, sorted: seq<Packet>, base: int)
    requires Within(sorted, base) && base <= p.extSeq < base + 0x1_0000
    ensures Insert(Raw(p), Captured(sorted), base % 0x1_0000) == Captured(InsertTrue(p, sorted))
  {
    if sorted != [] {
      OffsetInWindow(p, base);
      OffsetInWindow(sorted[0], base);
      assert Captured(sorted)[1..] == Captured(sorted[1..]);
      if p.extSeq <= sorted[0].extSeq {
        assert ([p] + sorted)[1..] == sorted;
      } else {
        InsertCommutes(p, sorted[1..], base);
        var r := InsertTrue(p, sorted[1..]);
        assert ([sorted[0]] + r)[1..] == r;
      }
    }
  }

  lemma {:induction false} OffsetInWindow(p: Packet, base: int)
    requires base <= p.extSeq < base + 0x1_0000
    ensures Offset(Raw(p).rawSeq, base % 0x1_0000) == p.extSeq - base
  {
  }

  lemma {:induction false} SortCommutes(arrivals: seq<Packet>, base: int)
    requires Within(arrivals, base)
    ensures SortByOffset(Captured(arrivals), base % 0x1_0000) == Captured(SortTrue(arrivals))
  {
    if arrivals != [] {
      var rest := arrivals[1..];
      var sorted := SortTrue(rest);
      SortCommutes(rest, base);
      SortTrueSorted(rest);
      forall p | p in sorted ensures base <= p.extSeq < base + 0x1_0000 {
        assert p in multiset(rest);
      }
      assert Captured(arrivals)[0] == Raw(arrivals[0]) && Captured(arrivals)[1..] == Captured(rest);
      assert SortTrue(arrivals) == InsertTrue(arrivals[0], sorted);
      assert SortByOffset(Captured(arrivals), base % 0x1_0000)
          == Insert(Raw(arrivals[0]), SortByOffset(Captured(rest), base % 0x1_0000), base % 0x1_0000);
      InsertCommutes(arrivals[0], sorted, base);
    }
  }

  /** Packets numbered within one window come out in sending order exactly when the
      first one captured is the first one sent. */
  lemma {:induction false} OrderRestored(sent: seq<Packet>, arrivals: seq<Packet>)
    requires sent != [] && Increasing(sent) && Within(sent, sent[0].extSeq)
    requires multiset(arrivals) == multiset(sent)
    ensures arrivals != []
    ensures SortByOffset(Captured(arrivals), Captured(arrivals)[0].rawSeq) == Captured(sent)
            <==> arrivals[0].extSeq == sent[0].extSeq
  {
    assert |arrivals| == |multiset(arrivals)| == |multiset(sent)| == |sent|;
    if arrivals[0].extSeq == sent[0].extSeq {
      SortRestores(sent, arrivals);
    } else {
      assert arrivals[0] in multiset(sent);
      var raw := Captured(arrivals)[0].rawSeq;
      assert raw == arrivals[0].extSeq % 0x1_0000 && Captured(sent)[0].rawSeq == sent[0].extSeq % 0x1_0000;
      hide SortByOffset, Captured, Increasing;
      SmallestFirst(Captured(arrivals), raw);
      OffsetZero(arrivals[0].extSeq, sent[0].extSeq);
    }
  }

  lemma {:induction false} OffsetZero(a: int, b: int)
    requires b <= a < b + 0x1_0000
    ensures Offset(a % 0x1_0000, a % 0x1_0000) == 0
    ensures Offset(b % 0x1_0000, a % 0x1_0000) == 0 ==> a == b
  {
  }

  lemma {:induction false} SortRestores(sent: seq<Packet>, arrivals: seq<Packet>)
    requires sent != [] && Increasing(sent) && Within(sent, sent[0].extSeq)
    requires multiset(arrivals) == multiset(sent)
    ensures SortByOffset(Captured(arrivals), sent[0].extSeq % 0x1_0000) == Captured(sent)
  {
    var base := sent[0].extSeq;
    forall p | p in arrivals ensures base <= p.extSeq < base + 0x1_0000 {
      assert p in multiset(sent);
    }
    SortCommutes(arrivals, base);
    SortTrueSorted(arrivals);
    ArrangementUnique(SortTrue(arrivals), sent);
  }

  /** Sorting puts the smallest offset first. */
  lemma {:induction false} SmallestFirst(packets: seq<RawPacket>, baseSeq: uint16)
    requires packets != []
    ensures SortByOffset(packets, baseSeq) != []
    ensures Offset(SortByOffset(packets, baseSeq)[0].rawSeq, baseSeq) <= Offset(packets[0].rawSeq, baseSeq)
  {
  }

  // What unwrapping does to a stream in sending order.

  /** What a distance between true numbers adds to the unwrapped number. */
  function Jump(gap: int): int {
    if gap % 0x1_0000 <= HALF_RANGE then gap % 0x1_0000 else 0
  }

  lemma {:induction false} AdvanceTrue(extSeq: int, p: Packet, q: Packet)
    ensures Advance(extSeq, Some(Raw(p).rawSeq), Raw(q).rawSeq) == extSeq + Jump(q.extSeq - p.extSeq)
  {
    WrappedDistance(p.extSeq, q.extSeq);
  }

  lemma {:induction false} WrappedDistance(p: int, q: int)
    ensures (q % 0x1_0000 - p % 0x1_0000) % 0x1_0000 == (q - p) % 0x1_0000
  {
  }

  lemma {:induction false} UnwrapFirst(extSeq: int, prevRaw: Option<uint16>, sent: seq<Packet>)
    requires sent != []
    ensures
      var ext := Advance(extSeq, prevRaw, Raw(sent[0]).rawSeq);
      Unwrap(extSeq, prevRaw, Captured(sent)) ==
      [Packet(ext, sent[0].body)] + Unwrap(ext, Some(Raw(sent[0]).rawSeq), Captured(sent[1..]))
  {
    assert Captured(sent)[1..] == Captured(sent[1..]);
  }

  lemma {:induction false} UnwrapSteps(extSeq: int, prevRaw: Option<uint16>, sent: seq<Packet>, i: nat)
    requires i < |sent|
    ensures
      var r := Unwrap(extSeq, prevRaw, Captured(sent));
      && r[i].body == sent[i].body
      && r[0].extSeq == Advance(extSeq, prevRaw, Raw(sent[0]).rawSeq)
      && (i > 0 ==> r[i].extSeq == r[i - 1].extSeq + Jump(sent[i].extSeq - sent[i - 1].extSeq))
    decreases i
  {
    UnwrapFirst(extSeq, prevRaw, sent);
    if i > 0 {
      var ext := Advance(extSeq, prevRaw, Raw(sent[0]).rawSeq);
      UnwrapSteps(ext, Some(Raw(sent[0]).rawSeq), sent[1..], i - 1);
      if i == 1 {
        AdvanceTrue(ext, sent[0], sent[1]);
      }
    }
  }

  function Gap(sent: seq<Packet>, i: nat): int
    requires 0 < i < |sent|
  {
    sent[i].extSeq - sent[i - 1].extSeq
  }

  lemma {:induction false} UnwrapNoLargeGap(sent: seq<Packet>, i: nat)
    requires sent != [] && Increasing(sent) && i < |sent|
    requires forall k | 0 < k < |sent| :: Gap(sent, k) <= HALF_RANGE
    ensures Unwrap(0, None, Captured(sent))[i].extSeq == sent[i].extSeq - sent[0].extSeq
  {
    UnwrapSteps(0, None, sent, i);
    if i > 0 {
      assert Gap(sent, i) <= HALF_RANGE;
      UnwrapNoLargeGap(sent, i - 1);
    }
  }

  /** For packets in sending order, with gaps of any size: unwrapped numbers are the true numbers
      counted from the first packet exactly when no gap exceeds half the range. */
  lemma {:induction false} UnwrapExact(sent: seq<Packet>)
    requires sent != [] && Increasing(sent)
    ensures
      (forall i | 0 <= i < |sent| :: Unwrap(0, None, Captured(sent))[i].extSeq == sent[i].extSeq - sent[0].extSeq)
      <==> (forall k | 0 < k < |sent| :: Gap(sent, k) <= 0x8000)
  {
    if k :| 0 < k < |sent| && Gap(sent, k) > HALF_RANGE {
      UnwrapSteps(0, None, sent, k);
    } else {
      forall i | 0 <= i < |sent|
        ensures Unwrap(0, None, Captured(sent))[i].extSeq == sent[i].extSeq - sent[0].extSeq
      {
        UnwrapNoLargeGap(sent, i);
      }
    }
  }

  /** The depacketizer looks at sequence numbers only to tell neighbours from gaps. */
  predicate SameNeighbours(a: seq<Packet>, b: seq<Packet>) {
    && |a| == |b|
    && (forall i | 0 <= i < |a| :: a[i].body == b[i].body)
    && (forall i | 0 < i < |a| :: a[i].extSeq == a[i - 1].extSeq + 1 <==> b[i].extSeq == b[i - 1].extSeq + 1)
  }

  lemma {:induction false} OnlyNeighboursMatter(s: State, t: State, a: seq<Packet>, b: seq<Packet>)
    requires s.(prevSeq := None) == t.(prevSeq := None) && (s.prevSeq.Some? <==> t.prevSeq.Some?)
    requires SameNeighbours(a, b)
    requires a != [] && s.prevSeq.Some? ==>
               (a[0].extSeq == s.prevSeq.value + 1 <==> b[0].extSeq == t.prevSeq.value + 1)
    ensures Run(s, a).out == Run(t, b).out
    decreases |a|
  {
    if a != [] {
      var s', t' := Step(s, a[0]), Step(t, b[0]);
      assert s' == BodyStep(CheckGap(s, a[0].extSeq), a[0].body);
      assert s'.prevSeq == Some(a[0].extSeq) && t'.prevSeq == Some(b[0].extSeq);
      OnlyNeighboursMatter(s', t', a[1..], b[1..]);
    }
  }

  lemma {:induction false} JumpByOne(gap: int)
    requires 0 < gap < 0x1_0000
    ensures Jump(gap) == 1 <==> gap == 1
  {
  }

  /** Whatever the gaps, a stream within one window is recorded as if its true numbers were known,
      and independently of the order in which packets after the first arrive. */
  lemma {:induction false} RecordingExact(sent: seq<Packet>, arrivals: seq<Packet>)
    requires sent != [] && Increasing(sent) && Within(sent, sent[0].extSeq)
    requires multiset(arrivals) == multiset(sent)
    requires arrivals != [] && arrivals[0].extSeq == sent[0].extSeq
    ensures Recording(Captured(arrivals)) == Run(Start, sent).out
  {
    OrderRestored(sent, arrivals);
    var r := Unwrap(0, None, Captured(sent));
    forall i | 0 <= i < |sent|
      ensures r[i].body == sent[i].body
      ensures i > 0 ==> (r[i].extSeq == r[i - 1].extSeq + 1 <==> sent[i].extSeq == sent[i - 1].extSeq + 1)
    {
      hide Unwrap, Jump, SortByOffset;
      UnwrapSteps(0, None, sent, i);
      if i > 0 {
        assert sent[i] in sent && sent[i - 1] in sent;
        JumpByOne(Gap(sent, i));
      }
    }
    hide Unwrap, SortByOffset;
    OnlyNeighboursMatter(Start, Start, r, sent);
  }
}
