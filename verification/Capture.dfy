/** The packet capture tools: writing UDP datagrams into a classic pcap file with synthetic
    Ethernet, IPv4 and UDP headers, and reading such files back. */
module Capture {
  import opened Bytes

  // ---------------------------------------------------------------- writing

  /** Sum of the big-endian 16-bit words of an even-length header. */
  function WordSum(header: bytes): (total: nat)
    requires |header| % 2 == 0
    ensures total <= |header| / 2 * 0xFFFF
  {
    if header == [] then 0 else GetU16(header, 0) + WordSum(header[2..])
  }

  function Padded(header: bytes): (p: bytes)
    ensures |p| % 2 == 0
  {
    if |header| % 2 == 1 then header + [0] else header
  }

  /** The two end-around-carry folds the tool performs. */
  function FoldTwice(total: nat): (f: nat) {
    var t := total / 0x1_0000 + total % 0x1_0000;
    t + t / 0x1_0000
  }

  function Checksum(header: bytes): (c: uint16) {
    (-1 - FoldTwice(WordSum(Padded(header)))) % 0x1_0000
  }

  lemma {:induction false} FirstWord(h: bytes, i: nat)
    requires |h| % 2 == 0 && i % 2 == 0 && i < |h|
    ensures WordSum(h[i..]) == h[i] as int * 0x100 + h[i + 1] as int + WordSum(h[i + 2..])
  {
    var rest := h[i..];
    assert rest[2..] == h[i + 2..] && rest[0] == h[i] && rest[1] == h[i + 1];
  }

  method SumWords(h: bytes) returns (total: nat)
    requires |h| % 2 == 0
    ensures total == WordSum(h)
  {
    total := 0;
    var i := 0;
    while i < |h|
      invariant 0 <= i <= |h| && i % 2 == 0
      invariant WordSum(h) == total + WordSum(h[i..])
    {
      FirstWord(h, i);
      hide WordSum;
      total := total + (h[i] as int * 0x100 + h[i + 1] as int);
      i := i + 2;
    }
  }

  method Ipv4Checksum(header: bytes) returns (c: uint16)
    ensures c == Checksum(header)
  {
    var total := SumWords(Padded(header));
    total := total / 0x1_0000 + total % 0x1_0000;
    total := total + total / 0x1_0000;
    c := (-1 - total as int) % 0x1_0000;
  }

  const ETHERNET: bytes := [0, 0, 0, 0, 0, 2, 0, 0, 0, 0, 0, 1, 8, 0]

  const MAX_PAYLOAD := 65507

  type Ip = b: bytes | |b| == 4 witness [0, 0, 0, 0]

  function IpHeader(totalLen: uint16, checksum: uint16, srcIp: Ip, dstIp: Ip): (h: bytes)
    ensures |h| == 20
  {
    [0x45, 0] + PutU16(totalLen) + [0, 0, 0x40, 0, 64, 17] + PutU16(checksum) + srcIp + dstIp
  }

  function UdpDatagram(payload: bytes, srcPort: uint16, dstPort: uint16): (u: bytes)
    requires |payload| <= MAX_PAYLOAD
  {
    PutU16(srcPort) + PutU16(dstPort) + PutU16(8 + |payload|) + PutU16(0) + payload
  }

  /** None is the struct.error of a length field that does not fit in 16 bits. */
  function BuildFrame(payload: bytes, srcIp: Ip, dstIp: Ip, srcPort: uint16, dstPort: uint16): (f: Option<bytes>)
    ensures f.Some? <==> |payload| <= 65507
  {
    var udpLen := 8 + |payload|;
    var totalLen := 20 + udpLen;
    if udpLen >= 0x1_0000 || totalLen >= 0x1_0000 then None
    else
      var udp := UdpDatagram(payload, srcPort, dstPort);
      var csum := Checksum(IpHeader(totalLen, 0, srcIp, dstIp));
      Some(ETHERNET + IpHeader(totalLen, csum, srcIp, dstIp) + udp)
  }

  /** One received datagram with its capture time. */
  datatype Datagram = Datagram(payload: bytes, seconds: uint32, micros: uint32)

  /** The addresses and ports of one capture session. */
  datatype Session = Session(srcIp: Ip, dstIp: Ip, srcPort: uint16, dstPort: uint16)

  const GLOBAL_HEADER: bytes :=
    [0xA1, 0xB2, 0xC3, 0xD4, 0, 2, 0, 4, 0, 0, 0, 0, 0, 0, 0, 0, 0, 0, 0xFF, 0xFF, 0, 0, 0, 1]

  function Record(frame: bytes, d: Datagram): bytes
    requires |frame| < 0x1_0000_0000
  {
    PutU32(d.seconds) + PutU32(d.micros) + PutU32(|frame|) + PutU32(|frame|) + frame
  }

  function FrameOf(s: Session, d: Datagram): Option<bytes> {
    BuildFrame(d.payload, s.srcIp, s.dstIp, s.srcPort, s.dstPort)
  }

  /** Everything written after the global header; a datagram that does not fit stops the tool. */
  function Records(s: Session, ds: seq<Datagram>): Option<bytes> {
    if ds == [] then Some([])
    else
      var frame := FrameOf(s, ds[0]);
      if frame.None? || Records(s, ds[1..]).None? then None
      else
        assert |frame.value| <= 42 + MAX_PAYLOAD;
        Some(Record(frame.value, ds[0]) + Records(s, ds[1..]).value)
  }

  /** The capture loop: None when building a frame fails. */
  method WriteCapture(s: Session, ds: seq<Datagram>) returns (file: Option<bytes>)
    ensures file.Some? <==> Records(s, ds).Some?
    ensures file.Some? ==> file.value == GLOBAL_HEADER + Records(s, ds).value
  {
    var written := GLOBAL_HEADER;
    for k := 0 to |ds|
      invariant Records(s, ds).Some? <==> Records(s, ds[k..]).Some?
      invariant Records(s, ds).Some? ==> GLOBAL_HEADER + Records(s, ds).value == written + Records(s, ds[k..]).value
    {
      assert ds[k..][1..] == ds[k + 1..];
      var frame := FrameOf(s, ds[k]);
      if frame.None? {
        return None;
      }
      assert |frame.value| <= 42 + MAX_PAYLOAD;
      written := written + Record(frame.value, ds[k]);
    }
    file := Some(written);
  }

  // ---------------------------------------------------------------- reading

  datatype PcapError = TooShort | PcapNg | UnknownMagic
  datatype Result<+T> = Ok(value: T) | Err(error: PcapError)

  datatype Frame = Frame(linkType: uint32, data: bytes)

  function Field(file: bytes, i: nat, big: bool): uint32
    requires i + 4 <= |file|
  {
    if big then GetU32(file, i) else GetU32Little(file, i)
  }

  /** The byte order announced by the magic number. */
  function ByteOrder(magic: bytes): Result<bool> {
    if magic == [0xA1, 0xB2, 0xC3, 0xD4] || magic == [0xA1, 0xB2, 0x3C, 0x4D] then Ok(true)
    else if magic == [0xD4, 0xC3, 0xB2, 0xA1] || magic == [0x4D, 0x3C, 0xB2, 0xA1] then Ok(false)
    else if magic == [0x0A, 0x0D, 0x0D, 0x0A] then Err(PcapNg)
    else Err(UnknownMagic)
  }

  /** The complete records from position pos on; a truncated tail is dropped. */
  function FramesFrom(file: bytes, pos: nat, big: bool, linkType: uint32): seq<Frame>
    decreases |file| - pos
  {
    if pos + 16 > |file| then []
    else
      var incl := Field(file, pos + 8, big);
      if pos + 16 + incl > |file| then []
      else [Frame(linkType, file[pos + 16..pos + 16 + incl])] + FramesFrom(file, pos + 16 + incl, big, linkType)
  }

  function Frames(file: bytes): Result<seq<Frame>> {
    if |file| < 24 then Err(TooShort)
    else
      var order := ByteOrder(file[..4]);
      if order.Err? then Err(order.error)
      else Ok(FramesFrom(file, 24, order.value, Field(file, 20, order.value)))
  }

  method ReadPcap(file: bytes) returns (r: Result<seq<Frame>>)
    ensures r == Frames(file)
  {
    if |file| < 24 {
      return Err(TooShort);
    }
    var order := ByteOrder(file[..4]);
    if order.Err? {
      return Err(order.error);
    }
    var big := order.value;
    var linkType := Field(file, 20, big);
    var frames := ReadRecords(file, big, linkType);
    r := Ok(frames);
  }

  lemma {:induction false} NextRecord(done: seq<Frame>, file: bytes, pos: nat, big: bool, linkType: uint32)
    requires pos + 16 <= |file|
    ensures var incl := Field(file, pos + 8, big);
      done + FramesFrom(file, pos, big, linkType)
      == (if pos + 16 + incl > |file| then done
          else done + [Frame(linkType, file[pos + 16..pos + 16 + incl])]
               + FramesFrom(file, pos + 16 + incl, big, linkType))
  {
    hide Field;
  }

  method ReadRecords(file: bytes, big: bool, linkType: uint32) returns (frames: seq<Frame>)
    requires |file| >= 24
    ensures frames == FramesFrom(file, 24, big, linkType)
  {
    frames := [];
    var pos := 24;
    while pos + 16 <= |file|
      invariant 24 <= pos <= |file|
      invariant FramesFrom(file, 24, big, linkType) == frames + FramesFrom(file, pos, big, linkType)
    {
      NextRecord(frames, file, pos, big, linkType);
      hide FramesFrom, Field;
      var incl := Field(file, pos + 8, big);
      if pos + 16 + incl > |file| {
        return;
      }
      var frame := Frame(linkType, file[pos + 16..pos + 16 + incl]);
      frames := frames + [frame];
      pos := pos + 16 + incl;
    }
  }

  /** The IPv4 packet inside a link-layer frame. hostIsLittle is the reader's own byte order,
      which the NULL link type's address family is decoded with. */
  function L3FromLink(linkType: uint32, frame: bytes, hostIsLittle: bool): Option<bytes> {
    if linkType == 1 then
      if |frame| < 14 then None
      else
        var ethType := GetU16(frame, 12);
        if ethType == 0x0800 then Some(frame[14..])
        else if ethType == 0x8100 && |frame| >= 18 then
          if GetU16(frame, 16) == 0x0800 then Some(frame[18..]) else None
        else None
    else if linkType == 0 then
      if |frame| < 4 then None
      else
        var family := if hostIsLittle then GetU32Little(frame, 0) else GetU32(frame, 0);
        if family == 2 then Some(frame[4..]) else None
    else if linkType == 101 || linkType == 12 || linkType == 14 then Some(frame)
    else if linkType == 113 then
      if |frame| > 16 then Some(frame[16..]) else None
    else None
  }

  datatype Udp = Udp(srcPort: uint16, dstPort: uint16, payload: bytes)

  function ParseUdp(ip: bytes): Option<Udp> {
    if |ip| < 20 || ip[0] / 0x10 != 4 || ip[9] != 17 then None
    else
      var ihl := ip[0] % 0x10 * 4;
      var udp := if ihl <= |ip| then ip[ihl..] else [];
      if |udp| < 8 then None
      else
        var ulen := GetU16(udp, 4);
        var payload := if 8 <= ulen <= |udp| then udp[8..ulen] else udp[8..];
        Some(Udp(GetU16(udp, 0), GetU16(udp, 2), payload))
  }

  function UdpOf(f: Frame, hostIsLittle: bool): Option<Udp> {
    var ip := L3FromLink(f.linkType, f.data, hostIsLittle);
    if ip.None? then None else ParseUdp(ip.value)
  }

  /** The datagrams of a capture, skipping every frame that is not UDP over IPv4. */
  function UdpPackets(frames: seq<Frame>, hostIsLittle: bool): seq<Udp> {
    if frames == [] then []
    else
      var rest := UdpPackets(frames[1..], hostIsLittle);
      var udp := UdpOf(frames[0], hostIsLittle);
      if udp.None? then rest else [udp.value] + rest
  }
}
