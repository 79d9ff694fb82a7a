/** What the capture writer and reader guarantee together, and why the IPv4 checksum is right. */
module CaptureRoundTrip {
  import opened Bytes
  import opened Capture
  import PcapFormat

  // ---------------------------------------------------------------- checksum

  /** One's-complement folding carried through to the end (section 3.1 of RFC 791). */
  function OnesFold(total: nat): (f: uint16)
    decreases total
  {
    if total < 0x1_0000 then total else OnesFold(total / 0x1_0000 + total % 0x1_0000)
  }

  /** Folding keeps the residue modulo 0xFFFF and never turns a non-zero sum into zero. */
  lemma {:induction false} OnesFoldResidue(total: nat)
    ensures OnesFold(total) % 0xFFFF == total % 0xFFFF
    ensures OnesFold(total) == 0 <==> total == 0
    decreases total
  {
    if total >= 0x1_0000 {
      var hi, lo := total / 0x1_0000, total % 0x1_0000;
      OnesFoldResidue(hi + lo);
      assert total == 0xFFFF * hi + (hi + lo);
      ResidueShift(hi, hi + lo);
    }
  }

  lemma {:induction false} ResidueShift(k: nat, r: nat)
    ensures (0xFFFF * k + r) % 0xFFFF == r % 0xFFFF
  {
  }

  /** Two folds are a complete folding for every sum below 2^32. */
  lemma {:induction false} TwoFolds(total: nat)
    requires total < 0x1_0000_0000
    ensures FoldTwice(total) % 0x1_0000 == OnesFold(total)
  {
    var hi, lo := total / 0x1_0000, total % 0x1_0000;
    assert hi < 0x1_0000;
    SmallFold(hi + lo);
    if hi == 0 {
      SmallFold(lo);
    }
  }

  lemma {:induction false} SmallFold(t: nat)
    requires t < 0x1_FFFF
    ensures OnesFold(t) == if t < 0x1_0000 then t else t - 0xFFFF
    ensures (t + t / 0x1_0000) % 0x1_0000 == OnesFold(t)
  {
    if t >= 0x1_0000 {
      assert t / 0x1_0000 == 1 && t % 0x1_0000 == t - 0x1_0000;
      assert OnesFold(t) == OnesFold(t - 0xFFFF);
    }
  }

  /** So they suffice for every input of up to 131072 bytes. */
  lemma {:induction false} TwoFoldsSuffice(header: bytes)
    requires |header| <= 131072
    ensures Checksum(header) == 0xFFFF - OnesFold(WordSum(if |header| % 2 == 1 then header + [0] else header))
  {
    hide OnesFold, WordSum, FoldTwice;
    var p := Padded(header);
    assert |p| <= 131072;
    assert Checksum(header) == (-1 - FoldTwice(WordSum(p))) % 0x1_0000;
    hide *;
    WordSumBound(p);
    TwoFolds(WordSum(p));
    Negate(FoldTwice(WordSum(p)));
  }

  lemma {:induction false} WordSumBound(header: bytes)
    requires |header| % 2 == 0 && |header| <= 131072
    ensures WordSum(header) < 0x1_0000_0000
  {
  }

  lemma {:induction false} Negate(total: nat)
    ensures (-1 - total) % 0x1_0000 == 0xFFFF - total % 0x1_0000
  {
  }

  lemma {:induction false} WordSumAppend(a: bytes, b: bytes)
    requires |a| % 2 == 0 && |b| % 2 == 0
    ensures WordSum(a + b) == WordSum(a) + WordSum(b)
    decreases |a|
  {
    if a == [] {
      assert a + b == b;
    } else {
      WordSumAppend(a[2..], b);
      assert (a + b)[2..] == a[2..] + b;
      assert GetU16(a + b, 0) == GetU16(a, 0);
    }
  }

  lemma {:induction false} HeaderSum(totalLen: uint16, checksum: uint16, srcIp: Ip, dstIp: Ip)
    ensures WordSum(IpHeader(totalLen, checksum, srcIp, dstIp))
            == WordSum(IpHeader(totalLen, 0, srcIp, dstIp)) + checksum
    ensures WordSum(IpHeader(totalLen, 0, srcIp, dstIp)) > 0
  {
    var front := [0x45, 0] + PutU16(totalLen) + [0, 0, 0x40, 0, 64, 17];
    var back := srcIp + dstIp;
    forall c: uint16 ensures WordSum(IpHeader(totalLen, c, srcIp, dstIp)) == WordSum(front) + c + WordSum(back) {
      assert IpHeader(totalLen, c, srcIp, dstIp) == front + (PutU16(c) + back);
      WordSumAppend(front, PutU16(c) + back);
      WordSumAppend(PutU16(c), back);
      assert PutU16(c)[2..] == [];
    }
    assert GetU16(front, 0) == 0x4500;
  }

  /** The header of every frame sums to 0xFFFF, which is how a receiver checks it. */
  lemma {:induction false} HeaderVerifies(totalLen: uint16, srcIp: Ip, dstIp: Ip)
    ensures
      var csum := Checksum(IpHeader(totalLen, 0, srcIp, dstIp));
      OnesFold(WordSum(IpHeader(totalLen, csum, srcIp, dstIp))) == 0xFFFF
  {
    var blank := IpHeader(totalLen, 0, srcIp, dstIp);
    var csum := Checksum(blank);
    TwoFoldsSuffice(blank);
    HeaderSum(totalLen, csum, srcIp, dstIp);
    assert Padded(blank) == blank;
    Complement(WordSum(blank));
  }

  lemma {:induction false} Complement(sum: nat)
    requires sum > 0
    ensures OnesFold(sum + (0xFFFF - OnesFold(sum))) == 0xFFFF
  {
    var f := OnesFold(sum);
    OnesFoldResidue(sum);
    OnesFoldResidue(sum + (0xFFFF - f));
    assert sum + (0xFFFF - f) == 0xFFFF * (sum / 0xFFFF - f / 0xFFFF + 1);
    MultipleOf(sum / 0xFFFF - f / 0xFFFF + 1);
  }

  lemma {:induction false} MultipleOf(k: int)
    ensures 0xFFFF * k % 0xFFFF == 0
  {
  }

  // ---------------------------------------------------------------- round trip

  lemma {:induction false} UdpFields(payload: bytes, srcPort: uint16, dstPort: uint16)
    requires |payload| <= MAX_PAYLOAD
    ensures var udp := UdpDatagram(payload, srcPort, dstPort);
      && |udp| == 8 + |payload| && udp[8..] == payload
      && GetU16(udp, 0) == srcPort && GetU16(udp, 2) == dstPort && GetU16(udp, 4) == 8 + |payload|
  {
    var udp := UdpDatagram(payload, srcPort, dstPort);
    var a, b, c, e := PutU16(srcPort), PutU16(dstPort), PutU16(8 + |payload|), PutU16(0);
    assert udp == [] + (a + (b + (c + (e + payload))));
    assert udp == a + (b + (c + (e + payload)));
    assert udp == (a + b) + (c + (e + payload));
    hide *;
    U16At([], srcPort, b + (c + (e + payload)));
    U16At(a, dstPort, c + (e + payload));
    U16At(a + b, 8 + |payload|, e + payload);
  }

  lemma {:induction false} UdpParses(header: bytes, payload: bytes, srcPort: uint16, dstPort: uint16)
    requires |header| == 20 && header[0] == 0x45 && header[9] == 17
    requires |payload| <= MAX_PAYLOAD
    ensures ParseUdp(header + UdpDatagram(payload, srcPort, dstPort)) == Some(Udp(srcPort, dstPort, payload))
  {
    var udp := UdpDatagram(payload, srcPort, dstPort);
    var ip := header + udp;
    assert ip[0] == 0x45 && ip[9] == 17;
    assert ip[20..] == udp;
    UdpFields(payload, srcPort, dstPort);
    hide *;
    ParsesAt(ip, udp);
  }

  lemma {:induction false} ParsesAt(ip: bytes, udp: bytes)
    requires |ip| >= 20 && ip[0] == 0x45 && ip[9] == 17 && ip[20..] == udp
    requires |udp| >= 8 && GetU16(udp, 4) == |udp|
    ensures ParseUdp(ip) == Some(Udp(GetU16(udp, 0), GetU16(udp, 2), udp[8..]))
  {
    hide GetU16;
    assert udp[8..|udp|] == udp[8..];
  }

  lemma {:induction false} EthernetParses(packet: bytes, hostIsLittle: bool)
    ensures L3FromLink(1, ETHERNET + packet, hostIsLittle) == Some(packet)
  {
    var frame := ETHERNET + packet;
    assert frame[14..] == packet;
    assert frame[12] == 8 && frame[13] == 0;
  }

  lemma {:induction false} FrameParses(s: Session, d: Datagram, hostIsLittle: bool)
    requires FrameOf(s, d).Some?
    ensures UdpOf(Frame(1, FrameOf(s, d).value), hostIsLittle) == Some(Udp(s.srcPort, s.dstPort, d.payload))
  {
    var totalLen := 28 + |d.payload|;
    var csum := Checksum(IpHeader(totalLen, 0, s.srcIp, s.dstIp));
    var header := IpHeader(totalLen, csum, s.srcIp, s.dstIp);
    var packet := header + UdpDatagram(d.payload, s.srcPort, s.dstPort);
    var frame := FrameOf(s, d).value;
    assert frame == ETHERNET + packet;
    assert header[0] == 0x45 && header[9] == 17;
    assert L3FromLink(1, frame, hostIsLittle) == Some(packet) ==>
             UdpOf(Frame(1, frame), hostIsLittle) == ParseUdp(packet);
    hide *;
    EthernetParses(packet, hostIsLittle);
    UdpParses(header, d.payload, s.srcPort, s.dstPort);
  }

  function FramesOf(s: Session, ds: seq<Datagram>): seq<Frame>
    requires forall d | d in ds :: |d.payload| <= MAX_PAYLOAD
  {
    if ds == [] then [] else [Frame(1, FrameOf(s, ds[0]).value)] + FramesOf(s, ds[1..])
  }

  function Sent(s: Session, ds: seq<Datagram>): seq<Udp> {
    if ds == [] then [] else [Udp(s.srcPort, s.dstPort, ds[0].payload)] + Sent(s, ds[1..])
  }

  lemma {:induction false} RecordsExist(s: Session, ds: seq<Datagram>)
    ensures Records(s, ds).Some? <==> forall d | d in ds :: |d.payload| <= MAX_PAYLOAD
  {
    if ds != [] {
      RecordsExist(s, ds[1..]);
      assert forall d :: d in ds <==> d == ds[0] || d in ds[1..];
    }
  }

  /** The length field and the data of a record lie where the reader looks. */
  lemma {:induction false} RecordLayout(prefix: bytes, frame: bytes, d: Datagram, rest: bytes)
    requires |frame| < 0x1_0000_0000
    ensures
      var file := prefix + (Record(frame, d) + rest);
      var pos := |prefix|;
      && |Record(frame, d)| == 16 + |frame|
      && file[pos + 8..pos + 12] == PutU32(|frame|)
      && file[pos + 16..pos + 16 + |frame|] == frame
  {
    var times := PutU32(d.seconds) + PutU32(d.micros);
    var len := PutU32(|frame|);
    var file := prefix + (Record(frame, d) + rest);
    assert Record(frame, d) + rest == times + (len + (len + (frame + rest)));
    assert file == (prefix + times) + (len + (len + (frame + rest)));
    Middle(prefix + times, len, len + (frame + rest));
    assert file == (prefix + times + len + len) + (frame + rest);
    Middle(prefix + times + len + len, frame, rest);
  }

  lemma {:induction false} FramesStep(file: bytes, pos: nat, frame: bytes)
    requires pos + 16 + |frame| <= |file| && |frame| < 0x1_0000_0000
    requires file[pos + 8..pos + 12] == PutU32(|frame|)
    requires file[pos + 16..pos + 16 + |frame|] == frame
    ensures FramesFrom(file, pos, true, 1) == [Frame(1, frame)] + FramesFrom(file, pos + 16 + |frame|, true, 1)
  {
    U32At(file, pos + 8, |frame|);
  }

  /** One record is read back whatever surrounds it. */
  lemma {:induction false} RecordParses(file: bytes, prefix: bytes, frame: bytes, d: Datagram, rest: bytes)
    requires |frame| < 0x1_0000_0000 && file == prefix + (Record(frame, d) + rest)
    ensures |prefix + Record(frame, d)| == |prefix| + 16 + |frame|
    ensures FramesFrom(file, |prefix|, true, 1)
            == [Frame(1, frame)] + FramesFrom(file, |prefix + Record(frame, d)|, true, 1)
  {
    hide *;
    RecordLayout(prefix, frame, d, rest);
    FramesStep(file, |prefix|, frame);
  }

  lemma {:induction false} RecordsParse(file: bytes, prefix: bytes, s: Session, ds: seq<Datagram>)
    requires forall d | d in ds :: |d.payload| <= MAX_PAYLOAD
    requires Records(s, ds).Some? && file == prefix + Records(s, ds).value
    ensures FramesFrom(file, |prefix|, true, 1) == FramesOf(s, ds)
    decreases |ds|
  {
    if ds == [] {
      assert file == prefix;
    } else {
      var frame, rest := FrameOf(s, ds[0]).value, Records(s, ds[1..]).value;
      assert |frame| <= 42 + MAX_PAYLOAD;
      assert FramesOf(s, ds) == [Frame(1, frame)] + FramesOf(s, ds[1..]);
      assert Records(s, ds).value == Record(frame, ds[0]) + rest;
      hide *;
      RecordParses(file, prefix, frame, ds[0], rest);
      Middle(prefix, Record(frame, ds[0]), rest);
      RecordsParse(file, prefix + Record(frame, ds[0]), s, ds[1..]);
    }
  }

  lemma {:induction false} FramesCarry(s: Session, ds: seq<Datagram>, hostIsLittle: bool)
    requires forall d | d in ds :: |d.payload| <= MAX_PAYLOAD
    ensures UdpPackets(FramesOf(s, ds), hostIsLittle) == Sent(s, ds)
    decreases |ds|
  {
    if ds != [] {
      FrameParses(s, ds[0], hostIsLittle);
      FramesCarry(s, ds[1..], hostIsLittle);
      var fs := FramesOf(s, ds);
      assert fs[0] == Frame(1, FrameOf(s, ds[0]).value) && fs[1..] == FramesOf(s, ds[1..]);
    }
  }

  lemma {:induction false} GlobalHeaderReads(records: bytes)
    ensures Frames(GLOBAL_HEADER + records) == Ok(FramesFrom(GLOBAL_HEADER + records, 24, true, 1))
  {
    var file := GLOBAL_HEADER + records;
    assert file[..4] == GLOBAL_HEADER[..4] == [0xA1, 0xB2, 0xC3, 0xD4];
    assert file[20] == 0 && file[21] == 0 && file[22] == 0 && file[23] == 1;
  }

  /** The tool writes a capture exactly when every payload fits, and reading it back returns
      every datagram's ports and payload, in order. */
  lemma {:induction false} CaptureReadsBack(s: Session, ds: seq<Datagram>, hostIsLittle: bool)
    ensures Records(s, ds).Some? <==> forall d | d in ds :: |d.payload| <= MAX_PAYLOAD
    ensures Records(s, ds).Some? ==>
              && Frames(GLOBAL_HEADER + Records(s, ds).value).Ok?
              && UdpPackets(Frames(GLOBAL_HEADER + Records(s, ds).value).value, hostIsLittle) == Sent(s, ds)
  {
    RecordsExist(s, ds);
    if Records(s, ds).Some? {
      GlobalHeaderReads(Records(s, ds).value);
      RecordsParse(GLOBAL_HEADER + Records(s, ds).value, GLOBAL_HEADER, s, ds);
      FramesCarry(s, ds, hostIsLittle);
    }
  }

  // ---------------------------------------------------------------- the format written

  /** What the tool writes of one datagram: an Ethernet frame with fixed addresses, an IPv4 header
      without options, not to be fragmented, with a time to live of 64 and a valid checksum, and a
      UDP header without one. */
  lemma {:induction false} FrameWritten(s: Session, d: Datagram) returns (header: bytes)
    requires |d.payload| <= 65507
    ensures |header| == 20 && header[..2] == [0x45, 0] && GetU16(header, 2) == 28 + |d.payload|
    ensures header[4..10] == [0, 0, 0x40, 0, 64, 17] && header[12..16] == s.srcIp && header[16..20] == s.dstIp
    ensures OnesFold(WordSum(header)) == 0xFFFF
    ensures FrameOf(s, d) == Some(PcapFormat.Encapsulated(
      PcapFormat.Ethernet([0, 0, 0, 0, 0, 2, 0, 0, 0, 0, 0, 1]),
      PcapFormat.UdpPacket(header, Udp(s.srcPort, s.dstPort, d.payload), 0, []), true))
  {
    var totalLen := 28 + |d.payload|;
    var csum := Checksum(IpHeader(totalLen, 0, s.srcIp, s.dstIp));
    header := IpHeader(totalLen, csum, s.srcIp, s.dstIp);
    HeaderVerifies(totalLen, s.srcIp, s.dstIp);
    HeaderFields(totalLen, csum, s.srcIp, s.dstIp);
    FrameParts(s, d, header);
    hide *;
  }

  lemma {:induction false} HeaderFields(totalLen: uint16, checksum: uint16, srcIp: Ip, dstIp: Ip)
    ensures var header := IpHeader(totalLen, checksum, srcIp, dstIp);
      && |header| == 20 && header[..2] == [0x45, 0] && GetU16(header, 2) == totalLen
      && header[4..10] == [0, 0, 0x40, 0, 64, 17] && header[12..16] == srcIp && header[16..20] == dstIp
  {
    var header := IpHeader(totalLen, checksum, srcIp, dstIp);
    assert header[2] == PutU16(totalLen)[0] && header[3] == PutU16(totalLen)[1];
  }

  lemma {:induction false} FrameParts(s: Session, d: Datagram, header: bytes)
    requires |d.payload| <= 65507
    requires header == IpHeader(28 + |d.payload|, Checksum(IpHeader(28 + |d.payload|, 0, s.srcIp, s.dstIp)), s.srcIp, s.dstIp)
    ensures FrameOf(s, d) == Some(PcapFormat.Encapsulated(
      PcapFormat.Ethernet([0, 0, 0, 0, 0, 2, 0, 0, 0, 0, 0, 1]),
      PcapFormat.UdpPacket(header, Udp(s.srcPort, s.dstPort, d.payload), 0, []), true))
  {
    UdpParts(s.srcPort, s.dstPort, d.payload);
    var macs: bytes := [0, 0, 0, 0, 0, 2, 0, 0, 0, 0, 0, 1];
    var udp := UdpDatagram(d.payload, s.srcPort, s.dstPort);
    assert ETHERNET == macs + [8, 0];
    assert FrameOf(s, d) == Some(ETHERNET + header + udp);
    hide Checksum, IpHeader, PutU16, UdpDatagram;
    FrameJoined(macs, [8, 0], header, udp);
  }

  lemma {:induction false} UdpParts(srcPort: uint16, dstPort: uint16, payload: bytes)
    requires |payload| <= 65507
    ensures UdpDatagram(payload, srcPort, dstPort)
         == PutU16(srcPort) + (PutU16(dstPort) + (PutU16(8 + |payload|) + (PutU16(0) + (payload + []))))
  {
    hide PutU16;
    assert payload + [] == payload;
  }

  lemma {:induction false} FrameJoined(a: bytes, b: bytes, c: bytes, e: bytes)
    ensures (a + b) + c + e == a + b + (c + e)
  {
  }

  lemma {:induction false} FrameLength(s: Session, d: Datagram)
    requires |d.payload| <= 65507
    ensures FrameOf(s, d).Some? && |FrameOf(s, d).value| == 42 + |d.payload|
  {
  }

  /** The records of one capture session. */
  function ItemsOf(s: Session, ds: seq<Datagram>): (rs: PcapFormat.Items)
    requires forall d | d in ds :: |d.payload| <= 65507
    ensures |rs| == |ds|
  {
    if ds == [] then []
    else
      FrameLength(s, ds[0]);
      var frame := FrameOf(s, ds[0]).value;
      [PcapFormat.Item(ds[0].seconds, ds[0].micros, |frame|, frame)] + ItemsOf(s, ds[1..])
  }

  lemma {:induction false} RecordIsItem(frame: bytes, d: Datagram)
    requires |frame| < 0x1_0000_0000
    ensures Record(frame, d) == PcapFormat.ItemBytes(PcapFormat.Item(d.seconds, d.micros, |frame|, frame), true)
  {
    BigEndian(d.seconds);
    BigEndian(d.micros);
    BigEndian(|frame|);
    hide PutU32, PcapFormat.Put32;
  }

  lemma {:induction false} BigEndian(v: uint32)
    ensures PutU32(v) == PcapFormat.Put32(v, true)
  {
    var hi, lo := v / 0x1_0000, v % 0x1_0000;
    HighDigit(v);
    LowDigit(v);
    assert PutU32(v) == [hi / 0x100, hi % 0x100, lo / 0x100, lo % 0x100];
  }

  lemma {:induction false} HighDigit(v: uint32)
    ensures v / 0x1_0000 / 0x100 == v / 0x100_0000
  {
  }

  lemma {:induction false} LowDigit(v: uint32)
    ensures v % 0x1_0000 / 0x100 == v / 0x100 % 0x100 && v % 0x1_0000 % 0x100 == v % 0x100
  {
  }

  lemma {:induction false} RecordsAreItems(s: Session, ds: seq<Datagram>)
    requires forall d | d in ds :: |d.payload| <= 65507
    ensures Records(s, ds) == Some(PcapFormat.ItemsBytes(ItemsOf(s, ds), true))
  {
    hide Record, PcapFormat.ItemBytes, FrameOf;
    if ds != [] {
      assert ds[0] in ds;
      FrameLength(s, ds[0]);
      RecordsExist(s, ds);
      RecordIsItem(FrameOf(s, ds[0]).value, ds[0]);
      RecordsAreItems(s, ds[1..]);
      var rs := ItemsOf(s, ds);
      assert rs[1..] == ItemsOf(s, ds[1..]);
    }
  }

  /** The file the tool writes is a big-endian pcap file of version 2.4 in microseconds, with
      Ethernet frames of up to 65535 octets, each stamped with its own time. */
  lemma {:induction false} ToolWritesPcap(s: Session, ds: seq<Datagram>)
    requires forall d | d in ds :: |d.payload| <= 65507
    ensures Records(s, ds).Some?
    ensures GLOBAL_HEADER + Records(s, ds).value
      == PcapFormat.FileHeader(PcapFormat.Format(true, false, 1), [0, 2, 0, 4, 0, 0, 0, 0, 0, 0, 0, 0, 0, 0, 0xFF, 0xFF])
        + PcapFormat.ItemsBytes(ItemsOf(s, ds), true)
  {
    hide *;
    RecordsAreItems(s, ds);
    ToolHeader();
  }

  lemma {:induction false} ToolHeader()
    ensures GLOBAL_HEADER == PcapFormat.FileHeader(PcapFormat.Format(true, false, 1), [0, 2, 0, 4, 0, 0, 0, 0, 0, 0, 0, 0, 0, 0, 0xFF, 0xFF])
  {
  }
}
