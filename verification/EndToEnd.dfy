/** From a sender's NAL units, through packetization, loss, reordering and a capture file shared
    with other traffic, to the recorded Annex-B stream. */
module EndToEnd {
  import AnnexBStream
  import opened Bytes
  import opened Capture
  import opened CaptureRoundTrip
  import opened H264Depacketizer
  import opened H264Recovery
  import opened PaddedRecovery
  import PcapFormat
  import opened Reordering
  import opened Recorder

  // ---------------------------------------------------------------- RTP headers

  datatype Extension = Extension(profile: uint16, words: seq<uint32>)

  /** What surrounds the payload of an RTP packet, padding at its end included (section 5.1 of
      RFC 3550). */
  datatype Header = Header(marker: bool, payloadType: byte, timestamp: uint32, ssrc: uint32,
                           csrcs: seq<uint32>, extension: Option<Extension>, padding: bytes)

  /** Media, not RTCP: the parser takes payload types 72 to 76 for RTCP. The last octet of padding
      counts its octets. */
  predicate Encodable(h: Header) {
    && h.payloadType < 0x80 && !(72 <= h.payloadType < 77)
    && (h.padding != [] ==> h.padding[|h.padding| - 1] == |h.padding|)
    && |h.csrcs| < 16
    && (h.extension.Some? ==> |h.extension.value.words| < 0x1_0000)
  }

  function Words(ws: seq<uint32>): (b: bytes)
    ensures |b| == 4 * |ws|
  {
    if ws == [] then [] else PutU32(ws[0]) + Words(ws[1..])
  }

  function FixedPart(h: Header, rawSeq: uint16): (b: bytes)
    requires Encodable(h)
    ensures |b| == 12
  {
    [0x80 + (if h.padding == [] then 0 else 0x20) + (if h.extension.Some? then 0x10 else 0) + |h.csrcs|,
     (if h.marker then 0x80 else 0) + h.payloadType]
    + PutU16(rawSeq) + PutU32(h.timestamp) + PutU32(h.ssrc)
  }

  function ExtensionPart(e: Option<Extension>): bytes
    requires e.Some? ==> |e.value.words| < 0x1_0000
  {
    if e.None? then []
    else PutU16(e.value.profile) + PutU16(|e.value.words|) + Words(e.value.words)
  }

  function RtpBytes(h: Header, p: RawPacket): (b: bytes)
    requires Encodable(h)
  {
    FixedPart(h, p.rawSeq) + (Words(h.csrcs) + (ExtensionPart(h.extension) + (p.body + h.padding)))
  }

  lemma {:induction false} FixedPartParses(h: Header, rawSeq: uint16, rest: bytes)
    requires Encodable(h)
    ensures
      var b := FixedPart(h, rawSeq) + rest;
      && b[0] / 0x40 == 2 && b[0] % 0x10 == |h.csrcs| && (b[0] / 0x10 % 2 == 1 <==> h.extension.Some?)
      && b[1] % 0x80 == h.payloadType
      && GetU16(b, 2) == rawSeq && GetU32(b, 4) == h.timestamp && GetU32(b, 8) == h.ssrc
  {
    var f := FixedPart(h, rawSeq);
    var b := f + rest;
    assert f[2..4] == PutU16(rawSeq) && f[4..8] == PutU32(h.timestamp) && f[8..12] == PutU32(h.ssrc);
    assert b[2] == PutU16(rawSeq)[0] && b[3] == PutU16(rawSeq)[1];
    assert b[4..8] == f[4..8] && b[8..12] == f[8..12];
    U32At(b, 4, h.timestamp);
    U32At(b, 8, h.ssrc);
  }

  lemma {:induction false} ExtensionPartParses(before: bytes, e: Extension, body: bytes)
    requires |e.words| < 0x1_0000
    ensures
      var b := before + (ExtensionPart(Some(e)) + body);
      && |b| >= |before| + 4 + 4 * |e.words| && GetU16(b, |before| + 2) == |e.words|
      && b[|before| + 4 + 4 * |e.words|..] == body
  {
    var x := ExtensionPart(Some(e));
    var b := before + (x + body);
    assert x[2] == PutU16(|e.words|)[0] && x[3] == PutU16(|e.words|)[1];
    assert b[|before| + 2] == x[2] && b[|before| + 3] == x[3];
    assert |x| == 4 + 4 * |e.words|;
  }

  /** Every RTP packet that is not RTCP is parsed; what is taken for its payload is the payload
      with the padding left on, so it is the payload exactly when there is no padding. */
  lemma {:induction false} RtpRoundTrip(h: Header, p: RawPacket)
    requires Encodable(h)
    ensures |RtpBytes(h, p)| >= 12 && GetU32(RtpBytes(h, p), 8) == h.ssrc
    ensures ParseRtp(RtpBytes(h, p)) == Some(Rtp(p.rawSeq, h.timestamp, h.payloadType, p.body + h.padding))
    ensures ParseRtp(RtpBytes(h, p)).value.body == p.body <==> h.padding == []
  {
    var body := p.body + h.padding;
    var tail := ExtensionPart(h.extension) + body;
    var before := FixedPart(h, p.rawSeq) + Words(h.csrcs);
    assert RtpBytes(h, p) == before + tail;
    FixedPartParses(h, p.rawSeq, Words(h.csrcs) + tail);
    hide FixedPart, Words;
    if h.extension.Some? {
      ExtensionPartParses(before, h.extension.value, body);
    } else {
      assert RtpBytes(h, p)[|before|..] == body;
    }
    assert |body| == |p.body| + |h.padding|;
  }

  /** The parts of an RTP packet: twelve octets, four for each CSRC counted in the first octet, and
      if its X bit is set an extension of as many words as it announces; the rest is left over. */
  ghost predicate RtpParts(p: bytes, csrcs: bytes, extension: bytes, body: bytes) {
    && |p| >= 12 && p == p[..12] + csrcs + extension + body
    && |csrcs| == 4 * (p[0] % 16)
    && (if p[0] / 16 % 2 == 1 then |extension| >= 4 && |extension| == 4 + 4 * GetU16(extension, 2) else extension == [])
  }

  /** A payload is taken for media if and only if it is of version 2, not RTCP, whose packet types
      200 to 204 come to 72 to 76 without the marker, and long enough for its own header. */
  lemma {:induction false} RtpExact(p: bytes)
    ensures ParseRtp(p).Some?
      <==> (|p| >= 12 && p[0] / 64 == 2 && p[1] % 128 !in {72, 73, 74, 75, 76}
            && exists csrcs, extension, body :: RtpParts(p, csrcs, extension, body))
    ensures forall csrcs, extension, body :: ParseRtp(p).Some? && RtpParts(p, csrcs, extension, body) ==>
      ParseRtp(p).value == Rtp(GetU16(p, 2), GetU32(p, 4), p[1] % 128, body)
  {
    if |p| >= 12 {
      forall csrcs, extension, body | RtpParts(p, csrcs, extension, body)
        ensures RtpLength(p) <= |p| && body == p[RtpLength(p)..] && RtpFits(p)
      {
        PartsMeasured(p, csrcs, extension, body);
      }
      if RtpFits(p) {
        PartsFound(p);
      }
      ParsesIfFits(p);
    }
  }

  /** Where the parser looks for the body. */
  function RtpLength(p: bytes): nat
    requires |p| >= 12
  {
    var fixed := 12 + 4 * (p[0] % 16);
    if p[0] / 16 % 2 == 1 && |p| >= fixed + 4 then fixed + 4 + 4 * GetU16(p, fixed + 2) else fixed
  }

  predicate RtpFits(p: bytes)
    requires |p| >= 12
  {
    RtpLength(p) <= |p| && (p[0] / 16 % 2 == 1 ==> |p| >= 12 + 4 * (p[0] % 16) + 4)
  }

  lemma {:induction false} ParsesIfFits(p: bytes)
    requires |p| >= 12
    ensures ParseRtp(p).Some? <==> p[0] / 64 == 2 && p[1] % 128 !in {72, 73, 74, 75, 76} && RtpFits(p)
    ensures ParseRtp(p).Some? ==>
      ParseRtp(p).value == Rtp(GetU16(p, 2), GetU32(p, 4), p[1] % 128, p[RtpLength(p)..])
  {
  }

  lemma {:induction false} PartsMeasured(p: bytes, csrcs: bytes, extension: bytes, body: bytes)
    requires RtpParts(p, csrcs, extension, body)
    ensures RtpFits(p) && body == p[RtpLength(p)..]
  {
    var fixed := 12 + |csrcs|;
    assert |p| == fixed + |extension| + |body|;
    if extension != [] {
      assert p[fixed + 2] == extension[2] && p[fixed + 3] == extension[3];
      assert GetU16(p, fixed + 2) == GetU16(extension, 2);
    }
    hide GetU16;
  }

  lemma {:induction false} PartsFound(p: bytes)
    requires |p| >= 12 && RtpFits(p)
    ensures exists csrcs, extension, body :: RtpParts(p, csrcs, extension, body)
  {
    var fixed := 12 + 4 * (p[0] % 16);
    var csrcs, extension, body := p[12..fixed], p[fixed..RtpLength(p)], p[RtpLength(p)..];
    assert p == p[..12] + csrcs + extension + body;
    if p[0] / 16 % 2 == 1 {
      assert extension[2] == p[fixed + 2] && extension[3] == p[fixed + 3];
    }
    hide RtpFits;
    assert RtpParts(p, csrcs, extension, body);
  }

  // ---------------------------------------------------------------- grouping by source

  /** The packets of one source, in capture order. */
  function PacketsOf(entries: seq<Entry>, ssrc: uint32): seq<RawPacket> {
    if entries == [] then []
    else
      var rest := PacketsOf(entries[1..], ssrc);
      if entries[0].ssrc == ssrc then [entries[0].packet] + rest else rest
  }

  function PacketsIn(sources: seq<Source>, ssrc: uint32): seq<RawPacket> {
    if sources == [] then []
    else if sources[0].ssrc == ssrc then sources[0].packets
    else PacketsIn(sources[1..], ssrc)
  }

  predicate Distinct(sources: seq<Source>) {
    forall i, j | 0 <= i < j < |sources| :: sources[i].ssrc != sources[j].ssrc
  }

  lemma {:induction false} AppendGroups(sources: seq<Source>, e: Entry, ssrc: uint32)
    ensures PacketsIn(Append(sources, e), ssrc)
            == PacketsIn(sources, ssrc) + (if e.ssrc == ssrc then [e.packet] else [])
  {
    if sources != [] && sources[0].ssrc != e.ssrc {
      AppendGroups(sources[1..], e, ssrc);
      var rest := Append(sources[1..], e);
      assert ([sources[0]] + rest)[1..] == rest;
    }
  }

  lemma {:induction false} AppendDistinct(sources: seq<Source>, e: Entry)
    requires Distinct(sources)
    ensures Distinct(Append(sources, e))
    ensures forall i | 0 <= i < |Append(sources, e)| ::
              Append(sources, e)[i].ssrc == e.ssrc || exists t | t in sources :: t.ssrc == Append(sources, e)[i].ssrc
  {
    if sources != [] && sources[0].ssrc != e.ssrc {
      AppendDistinct(sources[1..], e);
      var rest := Append(sources[1..], e);
      forall i | 0 <= i < |rest| ensures rest[i].ssrc != sources[0].ssrc {
        if t :| t in sources[1..] && t.ssrc == rest[i].ssrc {
          var j :| 0 <= j < |sources[1..]| && sources[1..][j] == t;
          assert sources[j + 1] == t;
        }
      }
    }
  }

  /** Grouping splits the entries by source without reordering or losing any. */
  lemma {:induction false} GroupSplits(sources: seq<Source>, entries: seq<Entry>, ssrc: uint32)
    requires Distinct(sources)
    ensures PacketsIn(Group(sources, entries), ssrc) == PacketsIn(sources, ssrc) + PacketsOf(entries, ssrc)
    ensures Distinct(Group(sources, entries))
    decreases |entries|
  {
    if entries != [] {
      AppendGroups(sources, entries[0], ssrc);
      AppendDistinct(sources, entries[0]);
      GroupSplits(Append(sources, entries[0]), entries[1..], ssrc);
    }
  }

  lemma {:induction false} PacketsInMember(sources: seq<Source>, i: nat)
    requires Distinct(sources) && i < |sources|
    ensures PacketsIn(sources, sources[i].ssrc) == sources[i].packets
    decreases i
  {
    if i > 0 {
      assert sources[0].ssrc != sources[i].ssrc;
      PacketsInMember(sources[1..], i - 1);
    }
  }

  lemma {:induction false} PacketsInFound(sources: seq<Source>, ssrc: uint32) returns (i: nat)
    requires PacketsIn(sources, ssrc) != []
    ensures i < |sources| && sources[i].ssrc == ssrc
  {
    if sources[0].ssrc == ssrc {
      i := 0;
    } else {
      i := PacketsInFound(sources[1..], ssrc);
      i := i + 1;
    }
  }

  /** A source with more packets than every other one is the one recorded. */
  lemma {:induction false} BusiestIs(entries: seq<Entry>, ssrc: uint32)
    requires forall other: uint32 | other != ssrc :: |PacketsOf(entries, other)| < |PacketsOf(entries, ssrc)|
    requires PacketsOf(entries, ssrc) != []
    ensures Group([], entries) != [] && Busiest(Group([], entries)).packets == PacketsOf(entries, ssrc)
  {
    var sources := Group([], entries);
    GroupSplits([], entries, ssrc);
    var i := PacketsInFound(sources, ssrc);
    PacketsInMember(sources, i);
    var best := Busiest(sources);
    assert sources[i] in sources;
    var j :| 0 <= j < |sources| && sources[j] == best;
    PacketsInMember(sources, j);
    GroupSplits([], entries, best.ssrc);
  }

  /** The sources of a capture in order of their first packets. */
  function Appearance(entries: seq<Entry>): seq<uint32> {
    if entries == [] then []
    else
      var before, last := Appearance(entries[..|entries| - 1]), entries[|entries| - 1].ssrc;
      if last in before then before else before + [last]
  }

  predicate InOrder(sources: seq<Source>, order: seq<uint32>) {
    |sources| == |order| && forall i | 0 <= i < |sources| :: sources[i].ssrc == order[i]
  }

  lemma {:induction false} AppendInOrder(sources: seq<Source>, order: seq<uint32>, e: Entry)
    requires InOrder(sources, order)
    ensures InOrder(Append(sources, e), if e.ssrc in order then order else order + [e.ssrc])
    decreases |sources|
  {
    if sources != [] && sources[0].ssrc != e.ssrc {
      AppendInOrder(sources[1..], order[1..], e);
      assert order == [order[0]] + order[1..];
      assert [order[0]] + (order[1..] + [e.ssrc]) == order + [e.ssrc];
    }
  }

  lemma {:induction false} GroupLast(sources: seq<Source>, entries: seq<Entry>)
    requires entries != []
    ensures Group(sources, entries) == Append(Group(sources, entries[..|entries| - 1]), entries[|entries| - 1])
    decreases |entries|
  {
    hide Append;
    if |entries| > 1 {
      GroupLast(Append(sources, entries[0]), entries[1..]);
      assert entries[1..][..|entries| - 2] == entries[..|entries| - 1][1..];
    } else {
      assert entries[1..] == [] && Group(Append(sources, entries[0]), entries[1..]) == Append(sources, entries[0]);
    }
  }

  lemma {:induction false} GroupInOrder(entries: seq<Entry>)
    ensures InOrder(Group([], entries), Appearance(entries))
    decreases |entries|
  {
    hide Append;
    if entries != [] {
      GroupLast([], entries);
      GroupInOrder(entries[..|entries| - 1]);
      AppendInOrder(Group([], entries[..|entries| - 1]), Appearance(entries[..|entries| - 1]), entries[|entries| - 1]);
    }
  }

  /** The source recorded is the one with the most packets, and of several the one whose first packet
      came first. */
  lemma {:induction false} BusiestExact(entries: seq<Entry>) returns (k: nat)
    requires entries != []
    ensures
      var order := Appearance(entries);
      && k < |order| && Group([], entries) != []
      && Busiest(Group([], entries)).packets == PacketsOf(entries, order[k])
      && (forall j | 0 <= j < k :: |PacketsOf(entries, order[j])| < |PacketsOf(entries, order[k])|)
      && (forall j | k <= j < |order| :: |PacketsOf(entries, order[j])| <= |PacketsOf(entries, order[k])|)
  {
    var sources := Group([], entries);
    GroupInOrder(entries);
    FirstAppears(entries);
    hide Group, Busiest, Appearance, PacketsOf;
    k := BusiestIsFirst(sources);
    forall j | 0 <= j < |sources| ensures sources[j].packets == PacketsOf(entries, sources[j].ssrc) {
      GroupSplits([], entries, sources[j].ssrc);
      PacketsInMember(sources, j);
    }
  }

  lemma {:induction false} FirstAppears(entries: seq<Entry>)
    requires entries != []
    ensures Appearance(entries) != []
  {
    assert entries[|entries| - 1].ssrc in Appearance(entries);
  }

  /** Why a file is refused. */
  lemma {:induction false} BadCaptures(file: bytes, port: int, direction: Direction, hostIsLittle: bool)
    ensures
      var r := Extracted(file, port, direction, hostIsLittle);
      && (r == BadCapture(TooShort) <==> |file| < 24)
      && (r == BadCapture(PcapNg) <==> |file| >= 24 && file[..4] == [0x0A, 0x0D, 0x0D, 0x0A])
      && (r == BadCapture(UnknownMagic) <==>
            |file| >= 24 && file[..4] != [0x0A, 0x0D, 0x0D, 0x0A]
            && file[..4] != [0xA1, 0xB2, 0xC3, 0xD4] && file[..4] != [0xA1, 0xB2, 0x3C, 0x4D]
            && file[..4] != [0xD4, 0xC3, 0xB2, 0xA1] && file[..4] != [0x4D, 0x3C, 0xB2, 0xA1])
  {
    PcapFormat.RefusedExactly(file);
    if |file| >= 24 {
      PcapFormat.ClassicMagic(file[..4]);
    }
    hide Frames;
  }

  // ---------------------------------------------------------------- the whole path

  /** The entries of the datagrams a capture session sent to the video port. */
  function EntriesSent(s: Session, ds: seq<Datagram>): seq<Entry> {
    Entries(Sent(s, ds), s.dstPort, In)
  }

  /** One captured datagram: a packet of the recorded source, numbered truly, or anything else. */
  datatype Traffic = Media(header: Header, packet: Packet) | Other(payload: bytes)

  predicate Foreign(payload: bytes, ssrc: uint32) {
    ParseRtp(payload).Some? ==> GetU32(payload, 8) != ssrc
  }

  /** A datagram carries an RTP packet of the source with its padding, or is not from the source. */
  predicate Carries(d: Datagram, t: Traffic, ssrc: uint32, pad: Padding) {
    match t
    case Media(h, p) =>
      && Encodable(h) && h.ssrc == ssrc && h.padding == pad(p.extSeq)
      && d.payload == RtpBytes(h, Raw(p))
    case Other(payload) => d.payload == payload && Foreign(payload, ssrc)
  }

  /** The packets of the source, in order of arrival. */
  function Arrivals(traffic: seq<Traffic>): seq<Packet> {
    if traffic == [] then []
    else
      var rest := Arrivals(traffic[1..]);
      if traffic[0].Media? then [traffic[0].packet] + rest else rest
  }

  /** How many of the other datagrams are RTP packets of some source. */
  function Competing(traffic: seq<Traffic>, other: uint32): nat {
    if traffic == [] then 0
    else
      var t := traffic[0];
      var hit := t.Other? && ParseRtp(t.payload).Some? && GetU32(t.payload, 8) == other;
      Competing(traffic[1..], other) + (if hit then 1 else 0)
  }

  lemma {:induction false} EntryOfMedia(s: Session, h: Header, p: Packet, pad: Padding)
    requires Encodable(h) && h.padding == pad(p.extSeq)
    ensures EntryOf(Udp(s.srcPort, s.dstPort, RtpBytes(h, Raw(p))), s.dstPort, In)
      == Some(Entry(h.ssrc, Raw(Pad(p, pad))))
  {
    RtpRoundTrip(h, Raw(p));
    hide RtpBytes, ParseRtp, Encodable;
  }

  lemma {:induction false} FirstEntry(s: Session, ds: seq<Datagram>)
    requires ds != []
    ensures var e := EntryOf(Udp(s.srcPort, s.dstPort, ds[0].payload), s.dstPort, In);
      EntriesSent(s, ds) == (if e.Some? then [e.value] else []) + EntriesSent(s, ds[1..])
  {
    hide EntryOf;
    var first := Udp(s.srcPort, s.dstPort, ds[0].payload);
    assert ([first] + Sent(s, ds[1..]))[1..] == Sent(s, ds[1..]);
  }

  lemma {:induction false} PacketsOfFirst(e: Entry, entries: seq<Entry>, ssrc: uint32)
    ensures PacketsOf([e] + entries, ssrc)
      == (if e.ssrc == ssrc then [e.packet] else []) + PacketsOf(entries, ssrc)
  {
    assert ([e] + entries)[1..] == entries;
  }

  lemma {:induction false} CapturedFirst(p: Packet, packets: seq<Packet>, pad: Padding)
    ensures Captured(PadAll([p] + packets, pad)) == [Raw(Pad(p, pad))] + Captured(PadAll(packets, pad))
  {
  }

  /** What the tool finds in the capture: of the source, the packets in order of arrival with their
      padding; of any other, as many as there are. */
  lemma {:induction false} TrafficParses(s: Session, ds: seq<Datagram>, traffic: seq<Traffic>, ssrc: uint32, pad: Padding)
    requires |ds| == |traffic| && forall i | 0 <= i < |ds| :: Carries(ds[i], traffic[i], ssrc, pad)
    ensures PacketsOf(EntriesSent(s, ds), ssrc) == Captured(PadAll(Arrivals(traffic), pad))
    ensures forall other: uint32 | other != ssrc :: |PacketsOf(EntriesSent(s, ds), other)| == Competing(traffic, other)
    decreases |ds|
  {
    if ds == [] {
      assert EntriesSent(s, ds) == [] && Arrivals(traffic) == [];
    } else {
      var d, t, later := ds[0], traffic[0], EntriesSent(s, ds[1..]);
      var e := EntryOf(Udp(s.srcPort, s.dstPort, d.payload), s.dstPort, In);
      TrafficParses(s, ds[1..], traffic[1..], ssrc, pad);
      FirstEntry(s, ds);
      match t {
        case Media(h, p) =>
          assert Carries(d, t, ssrc, pad);
          EntryOfMedia(s, h, p, pad);
          CapturedFirst(p, Arrivals(traffic[1..]), pad);
        case Other(payload) =>
          assert Carries(d, t, ssrc, pad);
      }
      hide EntriesSent, Captured, PadAll, RtpBytes, ParseRtp;
      if e.Some? {
        PacketsOfFirst(e.value, later, ssrc);
        forall other: uint32 | other != ssrc
          ensures |PacketsOf(EntriesSent(s, ds), other)| == Competing(traffic, other)
        {
          PacketsOfFirst(e.value, later, other);
        }
      } else {
        assert [] + later == later;
      }
    }
  }

  /** Recording the arrivals of a source whose packets are padded. */
  lemma {:induction false} PaddedArrivals(units: seq<Unit>, base: int, lost: set<int>, arrivals: seq<Packet>, pad: Padding)
    requires var survivors := Survivors(Transmit(units, base), lost);
      && multiset(arrivals) == multiset(survivors)
      && survivors != [] && arrivals != [] && arrivals[0].extSeq == survivors[0].extSeq
      && Within(survivors, survivors[0].extSeq)
    ensures Recording(Captured(PadAll(arrivals, pad)))
      == Run(Start, Survivors(PadAll(Transmit(units, base), pad), lost)).out
  {
    var sent := Survivors(Transmit(units, base), lost);
    TransmitIncreasing(units, base);
    SurvivorsIncreasing(Transmit(units, base), lost);
    SurvivorsPadded(Transmit(units, base), lost, pad);
    PadAllBag(arrivals, sent, pad);
    hide Survivors, Transmit, Recording, Run, Captured;
    PaddedInOrder(sent, pad);
    RecordingExact(PadAll(sent, pad), PadAll(arrivals, pad));
  }

  lemma {:induction false} PaddedInOrder(sent: seq<Packet>, pad: Padding)
    requires sent != [] && Increasing(sent) && Within(sent, sent[0].extSeq)
    ensures Increasing(PadAll(sent, pad)) && Within(PadAll(sent, pad), PadAll(sent, pad)[0].extSeq)
  {
    var padded := PadAll(sent, pad);
    forall p | p in padded ensures sent[0].extSeq <= p.extSeq < sent[0].extSeq + 0x1_0000 {
      var i :| 0 <= i < |padded| && padded[i] == p;
      assert sent[i] in sent;
    }
  }

  /** Take any NAL units, packetized in any valid way and numbered from base; let any packets be
      lost and the rest, as RTP packets with any headers, CSRCs, extensions and padding, arrive in
      any order after the first; let the capture also hold any other datagrams and sources, as long
      as this source has the most packets. The capture is written, and the recording made from it
      is the Annex-B form of exactly the NAL units whose packets all survived if and only if no
      padding of those leaks into it. */
  lemma {:induction false} ToolCaptureIsFaithful(s: Session, ds: seq<Datagram>, traffic: seq<Traffic>, hostIsLittle: bool,
                            units: seq<Unit>, base: int, lost: set<int>, ssrc: uint32, pad: Padding)
    requires forall d | d in ds :: |d.payload| <= MAX_PAYLOAD
    requires |ds| == |traffic| && forall i | 0 <= i < |ds| :: Carries(ds[i], traffic[i], ssrc, pad)
    requires forall other: uint32 | other != ssrc :: Competing(traffic, other) < |Arrivals(traffic)|
    requires
      var survivors, arrivals := Survivors(Transmit(units, base), lost), Arrivals(traffic);
      && multiset(arrivals) == multiset(survivors)
      && survivors != [] && arrivals != [] && arrivals[0].extSeq == survivors[0].extSeq
      && Within(survivors, survivors[0].extSeq)
    ensures Records(s, ds).Some?
    ensures
      var recorded := Extracted(GLOBAL_HEADER + Records(s, ds).value, s.dstPort, In, hostIsLittle);
      && recorded == Wrote(AnnexB(Recovered(PaddedUnits(units, base, pad), base, lost)))
      && (recorded == Wrote(AnnexB(Recovered(units, base, lost))) <==> NoneLeaks(units, base, lost, pad))
  {
    var arrivals := Arrivals(traffic);
    CaptureReadsBack(s, ds, hostIsLittle);
    TrafficParses(s, ds, traffic, ssrc, pad);
    assert |Captured(PadAll(arrivals, pad))| == |arrivals|;
    BusiestIs(EntriesSent(s, ds), ssrc);
    PaddedArrivals(units, base, lost, arrivals, pad);
    PaddedRecording(units, base, lost, pad);
    PaddingExact(units, base, lost, pad);
    hide Records, PacketsOf, Recording, Run, Survivors, PadAll, Transmit, Recovered, AnnexB, PaddedUnits, NoneLeaks;
  }

  function Unpadded(n: int): bytes {
    []
  }

  lemma {:induction false} NoPadding()
    ensures forall n: int :: Unpadded(n) == []
  {
  }

  /** Without padding, the recording is always faithful. */
  lemma {:induction false} UnpaddedIsFaithful(s: Session, ds: seq<Datagram>, traffic: seq<Traffic>, hostIsLittle: bool,
                            units: seq<Unit>, base: int, lost: set<int>, ssrc: uint32)
    requires forall d | d in ds :: |d.payload| <= MAX_PAYLOAD
    requires |ds| == |traffic| && forall i | 0 <= i < |ds| :: Carries(ds[i], traffic[i], ssrc, Unpadded)
    requires forall other: uint32 | other != ssrc :: Competing(traffic, other) < |Arrivals(traffic)|
    requires
      var survivors, arrivals := Survivors(Transmit(units, base), lost), Arrivals(traffic);
      && multiset(arrivals) == multiset(survivors)
      && survivors != [] && arrivals != [] && arrivals[0].extSeq == survivors[0].extSeq
      && Within(survivors, survivors[0].extSeq)
    ensures Records(s, ds).Some?
    ensures Extracted(GLOBAL_HEADER + Records(s, ds).value, s.dstPort, In, hostIsLittle)
            == Wrote(AnnexB(Recovered(units, base, lost)))
  {
    hide *;
    ToolCaptureIsFaithful(s, ds, traffic, hostIsLittle, units, base, lost, ssrc, Unpadded);
    NoPadding();
    UnpaddedNeverLeaks(units, base, lost, Unpadded);
  }

  // ---------------------------------------------------------------- any capture

  /** Which end of a datagram has to be the port asked for: In for what arrived there, Out for what
      left from there. */
  predicate Concerned(srcPort: uint16, dstPort: uint16, port: int, direction: Direction) {
    || (direction == In && dstPort == port)
    || (direction == Out && srcPort == port)
    || (direction == Both && (srcPort == port || dstPort == port))
  }

  /** A datagram is taken for video of a source if and only if the port asked for is at the end
      asked for and it holds an RTP packet; the source is then the packet's SSRC. */
  lemma {:induction false} EntryExact(u: Udp, port: int, direction: Direction)
    ensures EntryOf(u, port, direction).Some?
      <==> Concerned(u.srcPort, u.dstPort, port, direction) && ParseRtp(u.payload).Some?
    ensures EntryOf(u, port, direction).Some? ==>
      EntryOf(u, port, direction).value
      == Entry(GetU32(u.payload, 8), RawPacket(ParseRtp(u.payload).value.rawSeq, ParseRtp(u.payload).value.body))
  {
  }

  /** One frame of a capture: a packet of the recorded source in its layers, or anything else. */
  datatype Seen =
    | OfSource(layer: PcapFormat.Layer, ipHeader: bytes, srcPort: uint16, dstPort: uint16, checksum: uint16,
               behind: bytes, header: Header, packet: Packet)
    | Unrelated

  /** What the capture is read with. */
  datatype Reading = Reading(linkType: uint32, hostIsLittle: bool, port: int, direction: Direction)

  predicate OfOther(frame: bytes, r: Reading, ssrc: uint32) {
    var u := UdpOf(Frame(r.linkType, frame), r.hostIsLittle);
    u.Some? && Concerned(u.value.srcPort, u.value.dstPort, r.port, r.direction) ==> Foreign(u.value.payload, ssrc)
  }

  /** A frame holds an RTP packet of the source for the port, with its padding; or it does not, being
      no UDP over IPv4, between other ports, of another source, or no RTP. */
  predicate Shows(frame: bytes, t: Seen, r: Reading, ssrc: uint32, pad: Padding) {
    match t
    case OfSource(layer, ipHeader, srcPort, dstPort, checksum, behind, h, p) =>
      && PcapFormat.WellFormed(layer) && PcapFormat.LinkType(layer) == r.linkType && PcapFormat.Ipv4Header(ipHeader)
      && Concerned(srcPort, dstPort, r.port, r.direction)
      && Encodable(h) && h.ssrc == ssrc && h.padding == pad(p.extSeq)
      && |RtpBytes(h, Raw(p))| < 0x1_0000 - 8
      && frame == PcapFormat.Encapsulated(layer,
        PcapFormat.UdpPacket(ipHeader, Udp(srcPort, dstPort, RtpBytes(h, Raw(p))), checksum, behind), r.hostIsLittle)
    case Unrelated => OfOther(frame, r, ssrc)
  }

  function SeenArrivals(seen: seq<Seen>): seq<Packet> {
    if seen == [] then []
    else
      var rest := SeenArrivals(seen[1..]);
      if seen[0].OfSource? then [seen[0].packet] + rest else rest
  }

  /** Whether a frame is an RTP packet of some source for the port. */
  predicate Counts(frame: bytes, r: Reading, other: uint32) {
    var u := UdpOf(Frame(r.linkType, frame), r.hostIsLittle);
    u.Some? && Concerned(u.value.srcPort, u.value.dstPort, r.port, r.direction)
    && ParseRtp(u.value.payload).Some? && GetU32(u.value.payload, 8) == other
  }

  function Rivals(rs: PcapFormat.Items, r: Reading, other: uint32): nat {
    if rs == [] then 0 else Rivals(rs[1..], r, other) + (if Counts(rs[0].frame, r, other) then 1 else 0)
  }

  /** What the tool makes of one frame. */
  function EntryIn(frame: bytes, r: Reading): Option<Entry> {
    var u := UdpOf(Frame(r.linkType, frame), r.hostIsLittle);
    if u.None? then None else EntryOf(u.value, r.port, r.direction)
  }

  function EntriesIn(rs: PcapFormat.Items, r: Reading): seq<Entry> {
    Entries(UdpPackets(PcapFormat.FramesIn(rs, r.linkType), r.hostIsLittle), r.port, r.direction)
  }

  lemma {:induction false} SourceEntry(frame: bytes, t: Seen, r: Reading, ssrc: uint32, pad: Padding)
    requires t.OfSource? && Shows(frame, t, r, ssrc, pad)
    ensures EntryIn(frame, r) == Some(Entry(ssrc, Raw(Pad(t.packet, pad))))
  {
    var rtp := RtpBytes(t.header, Raw(t.packet));
    var u := Udp(t.srcPort, t.dstPort, rtp);
    var ip := PcapFormat.UdpPacket(t.ipHeader, u, t.checksum, t.behind);
    RtpRoundTrip(t.header, Raw(t.packet));
    hide ParseRtp, Encodable, PcapFormat.Encapsulated, PcapFormat.UdpPacket, L3FromLink, ParseUdp;
    PcapFormat.UdpReads(t.ipHeader, u, t.checksum, t.behind);
    PcapFormat.LinkReads(t.layer, ip, r.hostIsLittle);
    EntryExact(u, r.port, r.direction);
  }

  lemma {:induction false} OtherEntry(frame: bytes, r: Reading, ssrc: uint32)
    requires OfOther(frame, r, ssrc)
    ensures EntryIn(frame, r).Some? ==> EntryIn(frame, r).value.ssrc != ssrc
  {
    var u := UdpOf(Frame(r.linkType, frame), r.hostIsLittle);
    if u.Some? {
      EntryExact(u.value, r.port, r.direction);
    }
  }

  lemma {:induction false} CountedEntry(frame: bytes, r: Reading, other: uint32)
    ensures Counts(frame, r, other) <==> EntryIn(frame, r).Some? && EntryIn(frame, r).value.ssrc == other
  {
    var u := UdpOf(Frame(r.linkType, frame), r.hostIsLittle);
    if u.Some? {
      EntryExact(u.value, r.port, r.direction);
    }
  }

  lemma {:induction false} FirstEntryIn(rs: PcapFormat.Items, r: Reading)
    requires rs != []
    ensures var e := EntryIn(rs[0].frame, r);
      EntriesIn(rs, r) == (if e.Some? then [e.value] else []) + EntriesIn(rs[1..], r)
  {
    var first, later := Frame(r.linkType, rs[0].frame), PcapFormat.FramesIn(rs[1..], r.linkType);
    assert ([first] + later)[1..] == later;
    var u, us := UdpOf(first, r.hostIsLittle), UdpPackets(later, r.hostIsLittle);
    if u.Some? {
      assert ([u.value] + us)[1..] == us;
    }
    hide EntryOf, UdpOf;
  }

  /** What the tool finds in a capture: of the source, its packets in order of arrival with their
      padding; of any other, as many as there are. */
  lemma {:induction false} CaptureParses(rs: PcapFormat.Items, seen: seq<Seen>, r: Reading, ssrc: uint32, pad: Padding)
    requires |rs| == |seen| && forall i | 0 <= i < |rs| :: Shows(rs[i].frame, seen[i], r, ssrc, pad)
    ensures PacketsOf(EntriesIn(rs, r), ssrc) == Captured(PadAll(SeenArrivals(seen), pad))
    decreases |rs|
  {
    if rs == [] {
      assert EntriesIn(rs, r) == [] && SeenArrivals(seen) == [];
    } else {
      var t, e, later := seen[0], EntryIn(rs[0].frame, r), EntriesIn(rs[1..], r);
      CaptureParses(rs[1..], seen[1..], r, ssrc, pad);
      FirstEntryIn(rs, r);
      assert Shows(rs[0].frame, t, r, ssrc, pad);
      if t.OfSource? {
        SourceEntry(rs[0].frame, t, r, ssrc, pad);
        CapturedFirst(t.packet, SeenArrivals(seen[1..]), pad);
      } else {
        OtherEntry(rs[0].frame, r, ssrc);
      }
      hide EntriesIn, EntryIn, Captured, PadAll, Shows;
      if e.Some? {
        PacketsOfFirst(e.value, later, ssrc);
      } else {
        assert [] + later == later;
      }
    }
  }

  lemma {:induction false} RivalsCounted(rs: PcapFormat.Items, r: Reading, other: uint32)
    ensures |PacketsOf(EntriesIn(rs, r), other)| == Rivals(rs, r, other)
    decreases |rs|
  {
    if rs == [] {
      assert EntriesIn(rs, r) == [];
    } else {
      var e, later := EntryIn(rs[0].frame, r), EntriesIn(rs[1..], r);
      RivalsCounted(rs[1..], r, other);
      FirstEntryIn(rs, r);
      CountedEntry(rs[0].frame, r, other);
      hide EntriesIn, EntryIn, Counts;
      if e.Some? {
        PacketsOfFirst(e.value, later, other);
      } else {
        assert [] + later == later;
      }
    }
  }

  predicate HoldsVideo(frame: bytes, r: Reading) {
    var u := UdpOf(Frame(r.linkType, frame), r.hostIsLittle);
    u.Some? && Concerned(u.value.srcPort, u.value.dstPort, r.port, r.direction) && ParseRtp(u.value.payload).Some?
  }

  lemma {:induction false} EntriesMatter(rs: PcapFormat.Items, r: Reading)
    ensures EntriesIn(rs, r) == [] <==> forall i | 0 <= i < |rs| :: !HoldsVideo(rs[i].frame, r)
  {
    if rs != [] {
      var u := UdpOf(Frame(r.linkType, rs[0].frame), r.hostIsLittle);
      if u.Some? {
        EntryExact(u.value, r.port, r.direction);
      }
      assert EntryIn(rs[0].frame, r).Some? <==> HoldsVideo(rs[0].frame, r);
      FirstEntryIn(rs, r);
      EntriesMatter(rs[1..], r);
      hide EntriesIn, EntryIn, HoldsVideo;
      assert forall i | 0 <= i < |rs| - 1 :: rs[1..][i] == rs[i + 1];
      if forall i | 0 <= i < |rs[1..]| :: !HoldsVideo(rs[1..][i].frame, r) {
        forall i | 0 < i < |rs| ensures !HoldsVideo(rs[i].frame, r) {
          assert rs[1..][i - 1] == rs[i];
        }
      }
    }
  }

  lemma {:induction false} GroupsMatter(sources: seq<Source>, entries: seq<Entry>)
    ensures Group(sources, entries) == [] <==> sources == [] && entries == []
    decreases |entries|
  {
    if entries != [] {
      GroupsMatter(Append(sources, entries[0]), entries[1..]);
    }
  }

  /** Nothing is recorded exactly when no frame holds an RTP packet for the port. */
  lemma {:induction false} NothingRecorded(f: PcapFormat.Format, skipped: bytes, rs: PcapFormat.Items, tail: bytes, r: Reading)
    requires |skipped| == 16 && PcapFormat.CutOff(tail, f.big) && r.linkType == f.linkType
    ensures
      var file := PcapFormat.FileHeader(f, skipped) + (PcapFormat.ItemsBytes(rs, f.big) + tail);
      Extracted(file, r.port, r.direction, r.hostIsLittle) == NoVideo
      <==> forall i | 0 <= i < |rs| :: !HoldsVideo(rs[i].frame, r)
  {
    PcapFormat.FileReadsBack(f, skipped, rs, tail);
    EntriesMatter(rs, r);
    GroupsMatter([], EntriesIn(rs, r));
    hide Frames, HoldsVideo, Recording, Group, Entries, PcapFormat.FileHeader, PcapFormat.ItemsBytes;
  }

  /** Take any NAL units, packetized in any valid way and numbered from base; let any packets be
      lost and the rest, as RTP packets with any headers, CSRCs, extensions and padding, arrive in
      any order after the first, between any ports of which the one asked for is at the end asked
      for. Let them be captured in a file of either byte order, in any link layer the tool knows,
      with any IP options, cut off anywhere in its last record, among any other frames, between
      other ports or of other sources, as long as this source has the most packets for the port. The
      recording is then the Annex-B form of exactly the NAL units whose packets all survived if and
      only if no padding of those leaks into it; and a reader of the recording gets back what was
      recorded if and only if no unit contains a start code or ends in zero. */
  lemma {:induction false} RecordingIsFaithful(f: PcapFormat.Format, skipped: bytes, rs: PcapFormat.Items, tail: bytes,
                            seen: seq<Seen>, r: Reading,
                            units: seq<Unit>, base: int, lost: set<int>, ssrc: uint32, pad: Padding)
    requires |skipped| == 16 && PcapFormat.CutOff(tail, f.big) && r.linkType == f.linkType
    requires |rs| == |seen| && forall i | 0 <= i < |rs| :: Shows(rs[i].frame, seen[i], r, ssrc, pad)
    requires forall other: uint32 | other != ssrc :: Rivals(rs, r, other) < |SeenArrivals(seen)|
    requires
      var survivors, arrivals := Survivors(Transmit(units, base), lost), SeenArrivals(seen);
      && multiset(arrivals) == multiset(survivors)
      && survivors != [] && arrivals != [] && arrivals[0].extSeq == survivors[0].extSeq
      && Within(survivors, survivors[0].extSeq)
    ensures
      var file := PcapFormat.FileHeader(f, skipped) + (PcapFormat.ItemsBytes(rs, f.big) + tail);
      var recorded := Extracted(file, r.port, r.direction, r.hostIsLittle);
      var nals := Recovered(PaddedUnits(units, base, pad), base, lost);
      && recorded == Wrote(AnnexB(nals))
      && (recorded == Wrote(AnnexB(Recovered(units, base, lost))) <==> NoneLeaks(units, base, lost, pad))
      && (AnnexBStream.Cut(recorded.annexB) == nals <==> AnnexBStream.AllPlain(nals))
  {
    var arrivals := SeenArrivals(seen);
    PcapFormat.FileReadsBack(f, skipped, rs, tail);
    CaptureParses(rs, seen, r, ssrc, pad);
    forall other: uint32 ensures |PacketsOf(EntriesIn(rs, r), other)| == Rivals(rs, r, other) {
      RivalsCounted(rs, r, other);
    }
    assert |Captured(PadAll(arrivals, pad))| == |arrivals|;
    BusiestIs(EntriesIn(rs, r), ssrc);
    PaddedArrivals(units, base, lost, arrivals, pad);
    PaddedRecording(units, base, lost, pad);
    PaddingExact(units, base, lost, pad);
    ReadBack(Recovered(PaddedUnits(units, base, pad), base, lost));
    hide Frames, PacketsOf, Recording, Run, Survivors, PadAll, Transmit, Recovered, AnnexB, PaddedUnits, NoneLeaks,
         Rivals, Shows, PcapFormat.FileHeader, PcapFormat.ItemsBytes, AnnexBStream.Cut, AnnexBStream.AllPlain;
  }

  lemma {:induction false} TransmitNumbered(units: seq<Unit>, base: int, k: nat)
    requires k < |Transmit(units, base)|
    ensures Transmit(units, base)[k].extSeq == base + k
    decreases |units|
  {
    var n := |Payloads(units[0])|;
    if k >= n {
      TransmitNumbered(units[1..], base + n, k - n);
    }
  }

  lemma {:induction false} TransmitIncreasing(units: seq<Unit>, base: int)
    ensures Increasing(Transmit(units, base))
  {
    forall k: nat | k < |Transmit(units, base)| ensures Transmit(units, base)[k].extSeq == base + k {
      TransmitNumbered(units, base, k);
    }
  }

  lemma {:induction false} SurvivorsIncreasing(packets: seq<Packet>, lost: set<int>)
    requires Increasing(packets)
    ensures Increasing(Survivors(packets, lost))
    ensures forall p | p in Survivors(packets, lost) :: p in packets
  {
    if packets != [] {
      SurvivorsIncreasing(packets[1..], lost);
      var rest := Survivors(packets[1..], lost);
      forall p | p in rest ensures packets[0].extSeq < p.extSeq && p in packets {
        assert p in packets[1..];
      }
    }
  }
}
