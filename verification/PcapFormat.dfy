/** The formats of a packet capture as their own documents give them: classic pcap files in either
    byte order, link layers, IPv4 and UDP; and that the reader accepts exactly these. */
module PcapFormat {
  import opened Bytes
  import opened Capture

  // ---------------------------------------------------------------- files

  /** A file's byte order, time resolution and link type. */
  datatype Format = Format(big: bool, nano: bool, linkType: uint32)

  datatype Item = Item(seconds: uint32, fraction: uint32, original: uint32, frame: bytes)

  type Items = rs: seq<Item> | forall r | r in rs :: |r.frame| < 0x1_0000_0000 witness []

  function Put32(v: uint32, big: bool): (b: bytes)
    ensures |b| == 4
  {
    if big then [v / 0x100_0000, v / 0x1_0000 % 0x100, v / 0x100 % 0x100, v % 0x100]
    else [v % 0x100, v / 0x100 % 0x100, v / 0x1_0000 % 0x100, v / 0x100_0000]
  }

  function Magic(f: Format): uint32 {
    if f.nano then 0xA1B2_3C4D else 0xA1B2_C3D4
  }

  /** Magic, sixteen octets the reader skips, link type. */
  function FileHeader(f: Format, skipped: bytes): (b: bytes)
    requires |skipped| == 16
    ensures |b| == 24
  {
    Put32(Magic(f), f.big) + skipped + Put32(f.linkType, f.big)
  }

  function ItemBytes(r: Item, big: bool): (b: bytes)
    requires |r.frame| < 0x1_0000_0000
    ensures |b| == 16 + |r.frame|
  {
    Put32(r.seconds, big) + Put32(r.fraction, big) + Put32(|r.frame|, big) + Put32(r.original, big) + r.frame
  }

  function ItemsBytes(rs: Items, big: bool): bytes {
    if rs == [] then [] else ItemBytes(rs[0], big) + ItemsBytes(rs[1..], big)
  }

  /** A file cut off inside its last record. */
  ghost predicate CutOff(tail: bytes, big: bool) {
    |tail| < 16 || exists r: Item :: |r.frame| < 0x1_0000_0000 && tail < ItemBytes(r, big)
  }

  function FramesIn(rs: Items, linkType: uint32): seq<Frame> {
    if rs == [] then [] else [Frame(linkType, rs[0].frame)] + FramesIn(rs[1..], linkType)
  }

  lemma {:induction false} Put32Reads(b: bytes, i: nat, v: uint32, big: bool)
    requires i + 4 <= |b| && b[i..i + 4] == Put32(v, big)
    ensures Field(b, i, big) == v
  {
    var f := b[i..i + 4];
    assert f[0] == b[i] && f[1] == b[i + 1] && f[2] == b[i + 2] && f[3] == b[i + 3];
    Base256(v);
  }

  lemma {:induction false} Base256(v: uint32)
    ensures v == v / 0x100_0000 * 0x100_0000 + v / 0x1_0000 % 0x100 * 0x1_0000 + v / 0x100 % 0x100 * 0x100 + v % 0x100
  {
  }

  /** Where the reader finds a record's length and frame. */
  lemma {:induction false} ItemLayout(prefix: bytes, r: Item, big: bool, rest: bytes)
    requires |r.frame| < 0x1_0000_0000
    ensures
      var file, pos := prefix + (ItemBytes(r, big) + rest), |prefix|;
      && Field(file, pos + 8, big) == |r.frame|
      && file[pos + 16..pos + 16 + |r.frame|] == r.frame
  {
    var times, len, original := Put32(r.seconds, big) + Put32(r.fraction, big), Put32(|r.frame|, big), Put32(r.original, big);
    var file := prefix + (ItemBytes(r, big) + rest);
    assert ItemBytes(r, big) + rest == times + (len + (original + (r.frame + rest)));
    hide ItemBytes, Put32;
    assert file == (prefix + times) + (len + (original + (r.frame + rest)));
    Middle(prefix + times, len, original + (r.frame + rest));
    Put32Reads(file, |prefix| + 8, |r.frame|, big);
    assert file == (prefix + times + len + original) + (r.frame + rest);
    Middle(prefix + times + len + original, r.frame, rest);
  }

  lemma {:induction false} ItemReads(prefix: bytes, r: Item, f: Format, rest: bytes)
    requires |r.frame| < 0x1_0000_0000
    ensures
      var file := prefix + (ItemBytes(r, f.big) + rest);
      FramesFrom(file, |prefix|, f.big, f.linkType)
      == [Frame(f.linkType, r.frame)] + FramesFrom(file, |prefix + ItemBytes(r, f.big)|, f.big, f.linkType)
  {
    hide ItemBytes, Field;
    ItemLayout(prefix, r, f.big, rest);
  }

  lemma {:induction false} TailReads(prefix: bytes, tail: bytes, f: Format)
    requires CutOff(tail, f.big)
    ensures FramesFrom(prefix + tail, |prefix|, f.big, f.linkType) == []
  {
    if |tail| >= 16 {
      var r: Item :| |r.frame| < 0x1_0000_0000 && tail < ItemBytes(r, f.big);
      var whole := prefix + (ItemBytes(r, f.big) + []);
      ItemLayout(prefix, r, f.big, []);
      hide ItemBytes;
      assert (prefix + tail)[|prefix| + 8..|prefix| + 12] == tail[8..12];
      assert whole[|prefix| + 8..|prefix| + 12] == ItemBytes(r, f.big)[8..12] == tail[8..12];
      SameField(prefix + tail, whole, |prefix| + 8, f.big);
    }
  }

  lemma {:induction false} SameField(a: bytes, b: bytes, i: nat, big: bool)
    requires i + 4 <= |a| && i + 4 <= |b| && a[i..i + 4] == b[i..i + 4]
    ensures Field(a, i, big) == Field(b, i, big)
  {
    var f, g := a[i..i + 4], b[i..i + 4];
    assert f[0] == a[i] && f[1] == a[i + 1] && f[2] == a[i + 2] && f[3] == a[i + 3];
    assert g[0] == b[i] && g[1] == b[i + 1] && g[2] == b[i + 2] && g[3] == b[i + 3];
  }

  lemma {:induction false} ItemsRead(prefix: bytes, rs: Items, f: Format, tail: bytes)
    requires CutOff(tail, f.big)
    ensures FramesFrom(prefix + (ItemsBytes(rs, f.big) + tail), |prefix|, f.big, f.linkType) == FramesIn(rs, f.linkType)
    decreases |rs|
  {
    hide *;
    if rs == [] {
      NoItems(rs, f);
      assert [] + tail == tail;
      TailReads(prefix, tail, f);
    } else {
      var first, later := ItemBytes(rs[0], f.big), ItemsBytes(rs[1..], f.big);
      FirstItem(rs, f);
      assert (first + later) + tail == first + (later + tail);
      ItemReads(prefix, rs[0], f, later + tail);
      Middle(prefix, first, later + tail);
      ItemsRead(prefix + first, rs[1..], f, tail);
    }
  }

  lemma {:induction false} NoItems(rs: Items, f: Format)
    requires rs == []
    ensures ItemsBytes(rs, f.big) == [] && FramesIn(rs, f.linkType) == []
  {
  }

  lemma {:induction false} FirstItem(rs: Items, f: Format)
    requires rs != []
    ensures ItemsBytes(rs, f.big) == ItemBytes(rs[0], f.big) + ItemsBytes(rs[1..], f.big)
    ensures FramesIn(rs, f.linkType) == [Frame(f.linkType, rs[0].frame)] + FramesIn(rs[1..], f.linkType)
  {
  }

  lemma {:induction false} HeaderReads(f: Format, skipped: bytes, rest: bytes)
    requires |skipped| == 16
    ensures var file := FileHeader(f, skipped) + rest;
      && ByteOrder(file[..4]) == Ok(f.big)
      && Field(file, 20, f.big) == f.linkType
  {
    var file := FileHeader(f, skipped) + rest;
    assert file[..4] == Put32(Magic(f), f.big);
    assert file[20..24] == Put32(f.linkType, f.big);
    Put32Reads(file, 20, f.linkType, f.big);
    hide Field;
  }

  /** A capture of either byte order and time resolution, even cut off inside its last record, is
      read as exactly its frames. */
  lemma {:induction false} FileReadsBack(f: Format, skipped: bytes, rs: Items, tail: bytes)
    requires |skipped| == 16 && CutOff(tail, f.big)
    ensures Frames(FileHeader(f, skipped) + (ItemsBytes(rs, f.big) + tail)) == Ok(FramesIn(rs, f.linkType))
  {
    HeaderReads(f, skipped, ItemsBytes(rs, f.big) + tail);
    ItemsRead(FileHeader(f, skipped), rs, f, tail);
    hide FileHeader, ItemsBytes, FramesIn, FramesFrom, Field, ByteOrder;
  }

  /** Any other file is refused, with pcapng told apart. */
  lemma {:induction false} RefusedExactly(file: bytes)
    ensures Frames(file) == Err(TooShort) <==> |file| < 24
    ensures Frames(file) == Err(PcapNg) <==> |file| >= 24 && file[..4] == [0x0A, 0x0D, 0x0D, 0x0A]
    ensures Frames(file).Ok?
      <==> |file| >= 24 && exists f: Format :: file[..4] == Put32(Magic(f), f.big)
  {
    hide FramesFrom, Field;
    Magics();
  }

  lemma {:induction false} ClassicMagic(m: bytes)
    ensures (exists f: Format :: m == Put32(Magic(f), f.big)) <==>
            || m == [0xA1, 0xB2, 0xC3, 0xD4] || m == [0xA1, 0xB2, 0x3C, 0x4D]
            || m == [0xD4, 0xC3, 0xB2, 0xA1] || m == [0x4D, 0x3C, 0xB2, 0xA1]
  {
    Magics();
    hide Put32, Magic;
    assert forall f: Format :: f.big in {true, false} && f.nano in {true, false};
  }

  /** The first octets of a file of each byte order and time resolution. */
  lemma {:induction false} Magics()
    ensures Put32(Magic(Format(true, false, 0)), true) == [0xA1, 0xB2, 0xC3, 0xD4]
    ensures Put32(Magic(Format(true, true, 0)), true) == [0xA1, 0xB2, 0x3C, 0x4D]
    ensures Put32(Magic(Format(false, false, 0)), false) == [0xD4, 0xC3, 0xB2, 0xA1]
    ensures Put32(Magic(Format(false, true, 0)), false) == [0x4D, 0x3C, 0xB2, 0xA1]
    ensures forall f: Format :: Put32(Magic(f), f.big) == Put32(Magic(Format(f.big, f.nano, 0)), f.big)
  {
  }

  // ---------------------------------------------------------------- link layers

  datatype Layer =
    | Ethernet(macs: bytes)
    | Vlan(macs: bytes, tag: bytes)
    | Null
    | Raw(linkType: uint32)
    | LinuxCooked(header: bytes)

  predicate WellFormed(l: Layer) {
    match l
    case Ethernet(macs) => |macs| == 12
    case Vlan(macs, tag) => |macs| == 12 && |tag| == 2
    case Null => true
    case Raw(linkType) => linkType == 101 || linkType == 12 || linkType == 14
    case LinuxCooked(header) => |header| == 16
  }

  function LinkType(l: Layer): uint32 {
    match l
    case Ethernet(_) => 1
    case Vlan(_, _) => 1
    case Null => 0
    case Raw(linkType) => linkType
    case LinuxCooked(_) => 113
  }

  /** An IPv4 packet in a frame; the address family of Null is in the capturing host's order. */
  function Encapsulated(l: Layer, ip: bytes, hostIsLittle: bool): bytes {
    match l
    case Ethernet(macs) => macs + [0x08, 0x00] + ip
    case Vlan(macs, tag) => macs + [0x81, 0x00] + tag + [0x08, 0x00] + ip
    case Null => (if hostIsLittle then [2, 0, 0, 0] else [0, 0, 0, 2]) + ip
    case Raw(_) => ip
    case LinuxCooked(header) => header + ip
  }

  ghost predicate Frames4(linkType: uint32, frame: bytes, ip: bytes, hostIsLittle: bool) {
    exists l: Layer :: WellFormed(l) && LinkType(l) == linkType && Encapsulated(l, ip, hostIsLittle) == frame
      && (l.LinuxCooked? ==> ip != [])
  }

  lemma {:induction false} LinkReads(l: Layer, ip: bytes, hostIsLittle: bool)
    requires WellFormed(l) && (l.LinuxCooked? ==> ip != [])
    ensures L3FromLink(LinkType(l), Encapsulated(l, ip, hostIsLittle), hostIsLittle) == Some(ip)
  {
    var frame := Encapsulated(l, ip, hostIsLittle);
    match l
    case Ethernet(macs) =>
      assert frame[12] == 8 && frame[13] == 0 && frame[14..] == ip;
    case Vlan(macs, tag) =>
      assert frame[12] == 0x81 && frame[13] == 0 && frame[16] == 8 && frame[17] == 0 && frame[18..] == ip;
    case Null =>
      assert frame[4..] == ip;
    case Raw(_) =>
    case LinuxCooked(header) =>
      assert frame[16..] == ip;
  }

  lemma {:induction false} TwoOctets(b: bytes, i: nat)
    requires i + 2 <= |b|
    ensures GetU16(b, i) == 0x0800 ==> b[i..i + 2] == [0x08, 0x00]
    ensures GetU16(b, i) == 0x8100 ==> b[i..i + 2] == [0x81, 0x00]
  {
    assert b[i..i + 2] == [b[i], b[i + 1]];
  }

  lemma {:induction false} FamilyOctets(b: bytes, hostIsLittle: bool)
    requires |b| >= 4 && (if hostIsLittle then GetU32Little(b, 0) else GetU32(b, 0)) == 2
    ensures b[..4] == (if hostIsLittle then [2, 0, 0, 0] else [0, 0, 0, 2])
  {
    assert b[..4] == [b[0], b[1], b[2], b[3]];
  }

  /** The layer a frame was read with. */
  lemma {:induction false} LinkOf(linkType: uint32, frame: bytes, hostIsLittle: bool) returns (l: Layer)
    requires L3FromLink(linkType, frame, hostIsLittle).Some?
    ensures var ip := L3FromLink(linkType, frame, hostIsLittle).value;
      && WellFormed(l) && LinkType(l) == linkType && Encapsulated(l, ip, hostIsLittle) == frame
      && (l.LinuxCooked? ==> ip != [])
  {
    if linkType == 1 {
      TwoOctets(frame, 12);
      if GetU16(frame, 12) == 0x0800 {
        l := Ethernet(frame[..12]);
        assert frame == frame[..12] + frame[12..14] + frame[14..];
      } else {
        TwoOctets(frame, 16);
        l := Vlan(frame[..12], frame[14..16]);
        assert frame == frame[..12] + frame[12..14] + frame[14..16] + frame[16..18] + frame[18..];
      }
    } else if linkType == 0 {
      FamilyOctets(frame, hostIsLittle);
      l := Null;
      assert frame == frame[..4] + frame[4..];
    } else if linkType == 113 {
      l := LinuxCooked(frame[..16]);
      assert frame == frame[..16] + frame[16..];
    } else {
      l := Raw(linkType);
    }
  }

  /** The reader finds an IPv4 packet in a frame if and only if the frame is that packet in one of
      the link layers above. */
  lemma {:induction false} LinkExact(linkType: uint32, frame: bytes, ip: bytes, hostIsLittle: bool)
    ensures L3FromLink(linkType, frame, hostIsLittle) == Some(ip) <==> Frames4(linkType, frame, ip, hostIsLittle)
  {
    if L3FromLink(linkType, frame, hostIsLittle) == Some(ip) {
      var l := LinkOf(linkType, frame, hostIsLittle);
    }
    if Frames4(linkType, frame, ip, hostIsLittle) {
      var l: Layer :| WellFormed(l) && LinkType(l) == linkType && Encapsulated(l, ip, hostIsLittle) == frame
        && (l.LinuxCooked? ==> ip != []);
      LinkReads(l, ip, hostIsLittle);
    }
  }

  // ---------------------------------------------------------------- UDP over IPv4

  /** What precedes the UDP header; its low four bits count 32-bit words (section 3.1 of RFC 791). */
  predicate Ipv4Header(header: bytes) {
    |header| > 0 && header[0] / 16 == 4 && |header| == 4 * (header[0] % 16) && |header| >= 20 && header[9] == 17
  }

  /** A UDP datagram (RFC 768), with octets of the frame behind it that are not part of it. */
  function UdpPacket(header: bytes, u: Udp, checksum: uint16, behind: bytes): bytes
    requires |u.payload| < 0x1_0000 - 8
  {
    header + (PutU16(u.srcPort) + (PutU16(u.dstPort) + (PutU16(8 + |u.payload|) + (PutU16(checksum) + (u.payload + behind)))))
  }

  lemma {:induction false} UdpLayout(u: Udp, checksum: uint16, behind: bytes)
    requires |u.payload| < 0x1_0000 - 8
    ensures var udp := UdpPacket([], u, checksum, behind);
      && |udp| == 8 + |u.payload| + |behind|
      && GetU16(udp, 0) == u.srcPort && GetU16(udp, 2) == u.dstPort && GetU16(udp, 4) == 8 + |u.payload|
      && udp[8..8 + |u.payload|] == u.payload
  {
    var a, b, c, e := PutU16(u.srcPort), PutU16(u.dstPort), PutU16(8 + |u.payload|), PutU16(checksum);
    var tail := u.payload + behind;
    assert UdpPacket([], u, checksum, behind) == [] + (a + (b + (c + (e + tail))));
    hide UdpPacket, PutU16, GetU16;
    U16At([], u.srcPort, b + (c + (e + tail)));
    U16At(a, u.dstPort, c + (e + tail));
    U16At(a + b, 8 + |u.payload|, e + tail);
    assert [] + (a + (b + (c + (e + tail)))) == a + (b + (c + (e + tail)));
    assert a + (b + (c + (e + tail))) == (a + b) + (c + (e + tail)) == (a + b + c + e) + tail;
    Middle(a + b + c + e, u.payload, behind);
  }

  /** Ports and payload are read whatever options the header has, and what stands behind the
      datagram is left out. */
  lemma {:induction false} UdpReads(header: bytes, u: Udp, checksum: uint16, behind: bytes)
    requires Ipv4Header(header) && |u.payload| < 0x1_0000 - 8
    ensures ParseUdp(UdpPacket(header, u, checksum, behind)) == Some(u)
  {
    var udp := UdpPacket([], u, checksum, behind);
    var ip := UdpPacket(header, u, checksum, behind);
    assert ip == header + udp;
    UdpLayout(u, checksum, behind);
    hide UdpPacket, GetU16;
    assert ip[0] == header[0] && ip[9] == header[9] && ip[|header|..] == udp;
  }

  /** A packet is taken for UDP over IPv4 exactly when it is long enough for the headers it
      announces; when its UDP length does not fit, all that follows is payload. */
  lemma {:induction false} UdpExact(ip: bytes)
    ensures ParseUdp(ip).Some?
      <==> |ip| >= 20 && ip[0] / 16 == 4 && ip[9] == 17 && |ip| >= 4 * (ip[0] % 16) + 8
    ensures ParseUdp(ip).Some? ==>
      var udp, u := ip[4 * (ip[0] % 16)..], ParseUdp(ip).value;
      && u.srcPort == udp[0] as int * 256 + udp[1] && u.dstPort == udp[2] as int * 256 + udp[3]
      && var length := udp[4] as int * 256 + udp[5];
        u.payload == (if 8 <= length <= |udp| then udp[8..length] else udp[8..])
  {
    if |ip| >= 20 {
      var words := ip[0] % 16;
      assert 4 * words == words * 4;
    }
  }
}
