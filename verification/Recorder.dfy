/** The recorder as a whole: from a capture file to the Annex-B stream of its busiest video source. */
module Recorder {
  import opened Bytes
  import opened Capture
  import opened H264Depacketizer
  import opened Reordering

  datatype Rtp = Rtp(rawSeq: uint16, timestamp: uint32, payloadType: byte, body: bytes)

  /** An RTP packet that is not RTCP; CSRC list and header extension are skipped. */
  function ParseRtp(p: bytes): Option<Rtp> {
    if |p| < 12 || p[0] / 0x40 != 2 || 72 <= p[1] % 0x80 < 77 then None
    else
      var fixed := 12 + p[0] % 0x10 * 4;
      var hasExt := p[0] / 0x10 % 2 == 1;
      if hasExt && |p| < fixed + 4 then None
      else
        var offset := if hasExt then fixed + 4 + GetU16(p, fixed + 2) as int * 4 else fixed;
        if offset > |p| then None
        else Some(Rtp(GetU16(p, 2), GetU32(p, 4), p[1] % 0x80, p[offset..]))
  }

  datatype Direction = In | Out | Both

  predicate Matches(u: Udp, port: int, direction: Direction) {
    match direction
    case In => u.dstPort == port
    case Out => u.srcPort == port
    case Both => port == u.srcPort || port == u.dstPort
  }

  datatype Entry = Entry(ssrc: uint32, packet: RawPacket)

  function EntryOf(u: Udp, port: int, direction: Direction): Option<Entry> {
    if !Matches(u, port, direction) then None
    else
      var rtp := ParseRtp(u.payload);
      if rtp.None? then None
      else Some(Entry(GetU32(u.payload, 8), RawPacket(rtp.value.rawSeq, rtp.value.body)))
  }

  /** The video packets of a capture, in capture order. */
  function Entries(us: seq<Udp>, port: int, direction: Direction): seq<Entry> {
    if us == [] then []
    else
      var rest := Entries(us[1..], port, direction);
      var e := EntryOf(us[0], port, direction);
      if e.None? then rest else [e.value] + rest
  }

  /** The packets of one synchronization source. */
  datatype AnySource = Source(ssrc: uint32, packets: seq<RawPacket>)
  type Source = s: AnySource | s.packets != [] witness Source(0, [RawPacket(0, [])])

  /** Append to the packets of a source, creating it at the end when new. */
  function Append(sources: seq<Source>, e: Entry): seq<Source> {
    if sources == [] then [Source(e.ssrc, [e.packet])]
    else if sources[0].ssrc == e.ssrc then
      [Source(e.ssrc, sources[0].packets + [e.packet])] + sources[1..]
    else [sources[0]] + Append(sources[1..], e)
  }

  function Group(sources: seq<Source>, entries: seq<Entry>): seq<Source>
    decreases |entries|
  {
    if entries == [] then sources else Group(Append(sources, entries[0]), entries[1..])
  }

  /** The first source with the most packets. */
  function Busiest(sources: seq<Source>): (s: Source)
    requires sources != []
    ensures s in sources
    ensures forall other | other in sources :: |other.packets| <= |s.packets|
  {
    if |sources| == 1 then sources[0]
    else
      var rest := Busiest(sources[1..]);
      assert sources == [sources[0]] + sources[1..];
      if |rest.packets| > |sources[0].packets| then rest else sources[0]
  }

  /** Of several sources with the most packets it is the one seen first. */
  lemma {:induction false} BusiestIsFirst(sources: seq<Source>) returns (k: nat)
    requires sources != []
    ensures k < |sources| && sources[k] == Busiest(sources)
    ensures forall j | 0 <= j < k :: |sources[j].packets| < |sources[k].packets|
    ensures forall j | k <= j < |sources| :: |sources[j].packets| <= |sources[k].packets|
  {
    if |sources| == 1 {
      k := 0;
    } else {
      var rest := sources[1..];
      var later := BusiestIsFirst(rest);
      assert forall j | 0 < j < |sources| :: sources[j] == rest[j - 1];
      k := if |rest[later].packets| > |sources[0].packets| then later + 1 else 0;
    }
  }

  datatype Outcome = BadCapture(error: PcapError) | NoVideo | Wrote(annexB: bytes)

  function Extracted(file: bytes, port: int, direction: Direction, hostIsLittle: bool): Outcome {
    var frames := Frames(file);
    if frames.Err? then BadCapture(frames.error)
    else
      var sources := Group([], Entries(UdpPackets(frames.value, hostIsLittle), port, direction));
      if sources == [] then NoVideo
      else Wrote(Recording(Busiest(sources).packets))
  }

  /** The collecting loop of the tool's entry point. */
  method Collect(frames: seq<Frame>, port: int, direction: Direction, hostIsLittle: bool)
    returns (sources: seq<Source>)
    ensures sources == Group([], Entries(UdpPackets(frames, hostIsLittle), port, direction))
  {
    sources := [];
    for k := 0 to |frames|
      invariant Group([], Entries(UdpPackets(frames, hostIsLittle), port, direction))
             == Group(sources, Entries(UdpPackets(frames[k..], hostIsLittle), port, direction))
    {
      var ip := L3FromLink(frames[k].linkType, frames[k].data, hostIsLittle);
      ghost var here, later := UdpPackets(frames[k..], hostIsLittle), UdpPackets(frames[k + 1..], hostIsLittle);
      assert frames[k..][0] == frames[k] && frames[k..][1..] == frames[k + 1..];
      if ip.None? {
        continue;
      }
      var udp := ParseUdp(ip.value);
      if udp.None? {
        continue;
      }
      assert here == [udp.value] + later;
      assert here[1..] == later;
      var entry := EntryOf(udp.value, port, direction);
      if entry.None? {
        continue;
      }
      ghost var es := Entries(here, port, direction);
      assert es == [entry.value] + Entries(later, port, direction);
      assert es[1..] == Entries(later, port, direction);
      sources := Append(sources, entry.value);
    }
  }

  method Extract(file: bytes, port: int, direction: Direction, hostIsLittle: bool) returns (r: Outcome)
    ensures r == Extracted(file, port, direction, hostIsLittle)
  {
    var frames := ReadPcap(file);
    if frames.Err? {
      return BadCapture(frames.error);
    }
    var sources := Collect(frames.value, port, direction, hostIsLittle);
    if sources == [] {
      return NoVideo;
    }
    var annexB := RecordStream(Busiest(sources).packets);
    r := Wrote(annexB);
  }
}
