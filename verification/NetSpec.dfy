/** ARP, IPv4 and ICMP echo frames as byte sequences, and the reply a host gives to a frame. */
module NetSpec {

  import opened Bytes
  import opened Checksum

  type Mac = m: seq<byte> | |m| == 6 witness [0, 0, 0, 0, 0, 0]

  type Ip = a: nat | a < WORD32

  const MTU: nat := 1514
  const ETH_ARP: nat := 0x0806
  const ETH_IPV4: nat := 0x0800
  const PROTO_ICMP: byte := 1

  function ToBe16(v: nat): (s: seq<byte>)
    requires v <= ONES
    ensures |s| == 2 && Be16(s[0], s[1]) == v
  {
    [v / 256, v % 256]
  }

  function ToBe32(v: Ip): (s: seq<byte>)
    ensures |s| == 4
  {
    [v / 0x100_0000, v / 0x1_0000 % 256, v / 256 % 256, v % 256]
  }

  function Be32(s: seq<byte>): (v: Ip)
    requires |s| == 4
  {
    var a: int, b: int, c: int, d: int := s[0], s[1], s[2], s[3];
    a * 0x100_0000 + b * 0x1_0000 + c * 256 + d
  }

  lemma Be32Back(v: Ip)
    ensures Be32(ToBe32(v)) == v
  {
    var h, l := v / 0x1_0000, v % 0x1_0000;
    assert v / 0x100_0000 == h / 256;
    assert v / 256 == h * 256 + l / 256;
    assert v / 256 % 256 == l / 256;
    assert v % 256 == l % 256;
  }

  // ----- building frames -----

  function EthHeader(dst: Mac, src: Mac, etype: nat): (s: seq<byte>)
    requires etype <= ONES
    ensures |s| == 14 && s[0..6] == dst && s[6..12] == src && Be16(s[12], s[13]) == etype
  {
    dst + src + ToBe16(etype)
  }

  function ArpBody(oper: nat, sha: Mac, spa: Ip, tha: Mac, tpa: Ip): (s: seq<byte>)
    requires oper <= ONES
    ensures |s| == 28
  {
    [0, 1, 8, 0, 6, 4] + ToBe16(oper) + sha + ToBe32(spa) + tha + ToBe32(tpa)
  }

  /** The header up to the checksum, and what follows it. */
  function IpFront(proto: byte, len: nat): (s: seq<byte>)
    ensures |s| == 10
  {
    [0x45, 0] + ToBe16((20 + len) % 0x1_0000) + [0, 1, 0x40, 0, 64, proto]
  }

  function IpBack(src: Ip, dst: Ip): (s: seq<byte>)
    ensures |s| == 8
  {
    ToBe32(src) + ToBe32(dst)
  }

  function Ipv4Header(proto: byte, src: Ip, dst: Ip, len: nat): (s: seq<byte>)
    ensures |s| == 20
  {
    var a, b := IpFront(proto, len), IpBack(src, dst);
    a + ToBe16(Sum16(a + [0, 0] + b)) + b
  }

  /** The echo reply to an echo request: type, code and checksum are new, the rest is returned. */
  function EchoBody(payload: seq<byte>): (s: seq<byte>)
    requires |payload| >= 8
    ensures |s| == |payload|
  {
    [0, 0] + ToBe16(Sum16([0, 0] + [0, 0] + payload[4..])) + payload[4..]
  }

  // ----- reading frames -----

  datatype Packet = Malformed | Packet(payload: seq<byte>, proto: byte, src: Ip, dst: Ip)

  /** ipv4::parse: the total length and a header length below 20 are not looked at. */
  function ParseIp(p: seq<byte>): Packet
  {
    if |p| < 20 then Malformed
    else
      var ihl := p[0] % 16 * 4;
      if |p| < ihl then Malformed
      else Packet(p[ihl..], p[9], Be32(p[12..16]), Be32(p[16..20]))
  }

  // ----- the reply to a frame; empty for none -----

  predicate ArpForUs(payload: seq<byte>, ip: Ip)
  {
    |payload| >= 28 && Be16(payload[6], payload[7]) == 1 && Be32(payload[24..28]) == ip
  }

  function ArpReply(payload: seq<byte>, mac: Mac, ip: Ip): seq<byte>
  {
    if !ArpForUs(payload, ip) then []
    else
      EthHeader(payload[8..14], mac, ETH_ARP) + ArpBody(2, mac, ip, payload[8..14], Be32(payload[14..18]))
  }

  /** An echo request whose reply fits in room bytes. */
  predicate IsEcho(payload: seq<byte>, room: nat)
  {
    8 <= |payload| && 34 + |payload| <= room && payload[0] == 8
  }

  function EchoReply(payload: seq<byte>, mac: Mac, ip: Ip, srcMac: Mac, srcIp: Ip, room: nat): seq<byte>
  {
    if !IsEcho(payload, room) then []
    else
      EthHeader(srcMac, mac, ETH_IPV4) + Ipv4Header(PROTO_ICMP, ip, srcIp, |payload|) + EchoBody(payload)
  }

  function Reply(pkt: seq<byte>, mac: Mac, ip: Ip): seq<byte>
  {
    if |pkt| < 14 then []
    else
      var etype := Be16(pkt[12], pkt[13]);
      if etype == ETH_ARP then ArpReply(pkt[14..], mac, ip)
      else if etype == ETH_IPV4 then
        match ParseIp(pkt[14..])
        case Malformed => []
        case Packet(payload, proto, src, dst) =>
          if dst != ip || proto != PROTO_ICMP then []
          else EchoReply(payload, mac, ip, pkt[6..12], src, MTU)
      else []
  }

  // ----- what replies look like to others -----

  function EtherType(f: seq<byte>): nat
    requires |f| >= 14
  {
    Be16(f[12], f[13])
  }

  /** An ARP reply goes to the sender of the request and binds our address to our MAC. */
  lemma SmallBytes()
    ensures ToBe16(2) == [0, 2] && ToBe16(ETH_ARP) == [8, 6] && ToBe16(ETH_IPV4) == [8, 0]
  {
  }

  lemma EthHeaderType(dst: Mac, src: Mac, etype: nat)
    requires etype <= ONES
    ensures EthHeader(dst, src, etype)[12] == ToBe16(etype)[0] && EthHeader(dst, src, etype)[13] == ToBe16(etype)[1]
  {
  }

  lemma ArpReplyReads(pkt: seq<byte>, mac: Mac, ip: Ip)
    requires |pkt| >= 14 && EtherType(pkt) == ETH_ARP && Reply(pkt, mac, ip) != []
    ensures var r, q := Reply(pkt, mac, ip), pkt[14..];
            && |r| == 42 && r[12] == 8 && r[13] == 6
            && r[0..6] == q[8..14] && r[6..12] == mac
            && (var p := r[14..];
                && p[0..6] == [0, 1, 8, 0, 6, 4] && p[6] == 0 && p[7] == 2
                && p[8..14] == mac && Be32(p[14..18]) == ip
                && p[18..24] == q[8..14] && Be32(p[24..28]) == Be32(q[14..18]))
  {
    hide Be16, Be32, ToBe16, ToBe32, EthHeader;
    var q := pkt[14..];
    var r := Reply(pkt, mac, ip);
    var h := EthHeader(q[8..14], mac, ETH_ARP);
    var p := ArpBody(2, mac, ip, q[8..14], Be32(q[14..18]));
    assert r == h + p;
    assert r[0..6] == h[0..6] && r[6..12] == h[6..12] && r[12] == h[12] && r[13] == h[13];
    assert r[14..] == p;
    assert p[6] == ToBe16(2)[0] && p[7] == ToBe16(2)[1];
    SmallBytes();
    EthHeaderType(q[8..14], mac, ETH_ARP);
    assert p[14..18] == ToBe32(ip) && p[24..28] == ToBe32(Be32(q[14..18]));
    Be32Back(ip);
    Be32Back(Be32(q[14..18]));
  }

  /** The header and the body of an echo reply both check to zero. */
  lemma EchoChecks(payload: seq<byte>, src: Ip, dst: Ip)
    requires |payload| >= 8
    ensures Sum16(Ipv4Header(PROTO_ICMP, src, dst, |payload|)) == 0
    ensures Sum16(EchoBody(payload)) == 0
  {
    hide Sum16, IpFront, IpBack;
    ChecksToZero(IpFront(PROTO_ICMP, |payload|), IpBack(src, dst));
    ChecksToZero([0, 0], payload[4..]);
  }

  /** A frame taken apart. */
  lemma Parts(h: seq<byte>, i: seq<byte>, b: seq<byte>)
    requires |h| == 14 && |i| == 20 && |b| >= 4
    ensures var r := h + i + b;
            && r[0..6] == h[0..6] && r[6..12] == h[6..12] && r[12] == h[12] && r[13] == h[13]
            && r[14..34] == i && r[34..] == b && r[38..] == b[4..] && r[15] == i[1] && r[18..23] == i[4..9]
            && r[14..][0] == i[0] && r[14..][9] == i[9]
            && r[14..][12..16] == i[12..16] && r[14..][16..20] == i[16..20] && r[14..][20..] == b
  {
  }

  /** An IPv4 reply parses as ICMP from us to the requester, and carries the request's data back. */
  lemma EchoReplyReads(pkt: seq<byte>, mac: Mac, ip: Ip)
    requires |pkt| >= 14 && EtherType(pkt) == ETH_IPV4 && Reply(pkt, mac, ip) != []
    ensures var r, q := Reply(pkt, mac, ip), ParseIp(pkt[14..]);
            && q.Packet? && q.dst == ip
            && |r| == 34 + |q.payload| && r[12] == 8 && r[13] == 0
            && r[0..6] == pkt[6..12] && r[6..12] == mac
            && ParseIp(r[14..]) == Datagram(r[14..]) == Packet(r[34..], 1, ip, q.src)
            && TotalLength(r[14..]) == |r| - 14 && r[15] == 0 && r[18..23] == [0, 1, 0x40, 0, 64]
            && Sum16(r[14..34]) == 0 && Sum16(r[34..]) == 0
            && r[34] == 0 && r[35] == 0 && r[38..] == q.payload[4..]
  {
    hide Be16, ToBe16, Sum16, EthHeader, Ipv4Header, EchoBody, ToBe32, Be32, ArpReply, Datagram;
    var q := ParseIp(pkt[14..]);
    var h, i, b := EthHeader(pkt[6..12], mac, ETH_IPV4), Ipv4Header(PROTO_ICMP, ip, q.src, |q.payload|), EchoBody(q.payload);
    var r := Reply(pkt, mac, ip);
    assert r == h + i + b;
    Parts(h, i, b);
    HeaderReads(PROTO_ICMP, ip, q.src, |q.payload|);
    EchoChecks(q.payload, ip, q.src);
    EchoBodyReads(q.payload);
    SmallBytes();
    EthHeaderType(pkt[6..12], mac, ETH_IPV4);
    DatagramParts(i, b);
    assert r[14..] == i + b;
  }

  /** A header of 20 bytes and a body that make one datagram, nothing in front or behind. */
  lemma DatagramParts(i: seq<byte>, b: seq<byte>)
    requires |i| == 20 && i[0] == 0x45 && Be16(i[2], i[3]) == 20 + |b|
    ensures TotalLength(i + b) == 20 + |b|
    ensures Datagram(i + b) == Packet(b, i[9], Be32(i[12..16]), Be32(i[16..20]))
  {
    hide Be16, Be32;
    var p := i + b;
    assert p[0] == 0x45 && p[2] == i[2] && p[3] == i[3] && p[9] == i[9];
    assert p[12..16] == i[12..16] && p[16..20] == i[16..20] && p[20..20 + |b|] == b;
  }

  lemma HeaderReads(proto: byte, src: Ip, dst: Ip, len: nat)
    ensures var h := Ipv4Header(proto, src, dst, len);
            && h[0] == 0x45 && h[9] == proto && Be32(h[12..16]) == src && Be32(h[16..20]) == dst
            && h[1] == 0 && Be16(h[2], h[3]) == (20 + len) % 0x1_0000 && h[4..9] == [0, 1, 0x40, 0, 64]
  {
    hide Sum16, Be32, ToBe32, Be16, ToBe16;
    var h := Ipv4Header(proto, src, dst, len);
    assert h[12..16] == ToBe32(src) && h[16..20] == ToBe32(dst);
    var w := ToBe16((20 + len) % 0x1_0000);
    assert h[2] == w[0] && h[3] == w[1];
    Be32Back(src);
    Be32Back(dst);
  }

  lemma EchoBodyReads(payload: seq<byte>)
    requires |payload| >= 8
    ensures var b := EchoBody(payload); b[0] == 0 && b[1] == 0 && b[4..] == payload[4..]
  {
    hide Sum16;
  }

  /** A reply is sent exactly for an ARP request for our address or an echo request to it that fits. */
  lemma RepliesIff(pkt: seq<byte>, mac: Mac, ip: Ip)
    ensures Reply(pkt, mac, ip) != [] <==>
            |pkt| >= 14 &&
            ((EtherType(pkt) == ETH_ARP && ArpForUs(pkt[14..], ip)) ||
             (EtherType(pkt) == ETH_IPV4 && var q := ParseIp(pkt[14..]);
               q.Packet? && q.dst == ip && q.proto == PROTO_ICMP && IsEcho(q.payload, 1514)))
  {
    hide Be16, Be32, EthHeader, ArpBody, Ipv4Header, EchoBody;
  }

  /** No reply storm: nobody, whatever its addresses, answers a reply. */
  lemma NoStorm(pkt: seq<byte>, mac: Mac, ip: Ip, mac2: Mac, ip2: Ip)
    ensures Reply(Reply(pkt, mac, ip), mac2, ip2) == []
  {
    hide Reply, Sum16, Be32;
    var r := Reply(pkt, mac, ip);
    RepliesIff(pkt, mac, ip);
    RepliesIff(r, mac2, ip2);
    if r != [] {
      if EtherType(pkt) == ETH_ARP {
        ArpReplyReads(pkt, mac, ip);
        assert Be16(r[14..][6], r[14..][7]) == 2;
      } else {
        EchoReplyReads(pkt, mac, ip);
        assert r[34..][0] == r[34] == 0;
      }
    }
  }

  // ----- what ipv4::parse leaves unchecked -----

  function HeaderBytes(p: seq<byte>): (n: nat)
    requires |p| >= 20
    ensures n <= 60
  {
    p[0] % 16 * 4
  }

  function TotalLength(p: seq<byte>): (n: nat)
    requires |p| >= 20
  {
    Be16(p[2], p[3])
  }

  /** Section 3.1 of RFC 791: version 4, a header of at least 20 bytes, and the data up to the total length. */
  function Datagram(p: seq<byte>): Packet
  {
    if |p| < 20 then Malformed
    else
      var ihl, len := HeaderBytes(p), TotalLength(p);
      if p[0] / 16 != 4 || ihl < 20 || len < ihl || |p| < len then Malformed
      else Packet(p[ihl..len], p[9], Be32(p[12..16]), Be32(p[16..20]))
  }

  /**
   ipv4::parse reads a packet as section 3.1 of RFC 791 does exactly when it is too short anyway, or
   has version 4, a header of at least 20 bytes, and nothing behind its total length.
   */
  lemma ParseIff(p: seq<byte>)
    ensures ParseIp(p) == Datagram(p)
            <==> |p| < 20 || |p| < HeaderBytes(p) || (p[0] / 16 == 4 && HeaderBytes(p) >= 20 && TotalLength(p) == |p|)
  {
    hide Be16, Be32;
    if |p| >= 20 && HeaderBytes(p) <= TotalLength(p) <= |p| {
      assert |p[HeaderBytes(p)..TotalLength(p)]| == TotalLength(p) - HeaderBytes(p);
      assert TotalLength(p) == |p| ==> p[HeaderBytes(p)..TotalLength(p)] == p[HeaderBytes(p)..];
    }
  }

  /** An echo reply carries the data of the request's datagram exactly when the frame ends with the datagram. */
  lemma PaddingIff(pkt: seq<byte>, mac: Mac, ip: Ip)
    requires |pkt| >= 14 && EtherType(pkt) == ETH_IPV4 && Reply(pkt, mac, ip) != []
    requires HeaderBytes(pkt[14..]) + 4 <= TotalLength(pkt[14..]) <= |pkt| - 14
    ensures var p := pkt[14..];
            Reply(pkt, mac, ip)[38..] == p[HeaderBytes(p) + 4..TotalLength(p)] <==> |pkt| == 14 + TotalLength(p)
  {
    hide Reply, Be16, Be32, EtherType, Sum16;
    var p := pkt[14..];
    EchoReplyReads(pkt, mac, ip);
    var q := ParseIp(p).payload;
    assert q == p[HeaderBytes(p)..] && q[4..] == p[HeaderBytes(p) + 4..];
    assert |q[4..]| == |p| - HeaderBytes(p) - 4;
    assert |p[HeaderBytes(p) + 4..TotalLength(p)]| == TotalLength(p) - HeaderBytes(p) - 4;
    assert TotalLength(p) == |p| ==> p[HeaderBytes(p) + 4..TotalLength(p)] == p[HeaderBytes(p) + 4..];
  }

  function PingFrame(): (f: seq<byte>)
    ensures |f| == 14 && f[12] == 8 && f[13] == 0
  {
    [0, 0, 0, 0, 0, 2] + [0, 0, 0, 0, 0, 1] + [8, 0]
  }

  lemma FramedPing(p: seq<byte>)
    ensures (PingFrame() + p)[14..] == p && EtherType(PingFrame() + p) == ETH_IPV4
  {
  }

  /** A datagram of 28 bytes, a ping without data from 10.0.0.1 to 10.0.0.2, padded to the shortest frame. */
  function PaddedPing(): (p: seq<byte>)
    ensures |p| == 46 && p[0] == 0x45 && p[2] == 0 && p[3] == 28 && p[9] == PROTO_ICMP
    ensures p[16] == 10 && p[17] == 0 && p[18] == 0 && p[19] == 2 && p[20] == 8
  {
    PingHeader() + [8] + seq(25, i => 0)
  }

  function PingHeader(): (p: seq<byte>)
    ensures |p| == 20 && p[0] == 0x45 && p[2] == 0 && p[3] == 28 && p[9] == PROTO_ICMP
    ensures p[16] == 10 && p[17] == 0 && p[18] == 0 && p[19] == 2
  {
    [0x45, 0, 0, 28, 0, 0, 0, 0, 64, 1, 0, 0, 10, 0, 0, 1, 10, 0, 0, 2]
  }

  lemma ForTen(p: seq<byte>)
    requires |p| >= 20 && p[16] == 10 && p[17] == 0 && p[18] == 0 && p[19] == 2
    ensures Be32(p[16..20]) == 0x0A00_0002
  {
    var a := p[16..20];
    assert a[0] == 10 && a[1] == 0 && a[2] == 0 && a[3] == 2;
  }

  /** Its 18 bytes of padding come back as data. */
  lemma PaddingReturned(mac: Mac)
    ensures TotalLength(PaddedPing()) == 28 && |Reply(PingFrame() + PaddedPing(), mac, 0x0A00_0002)| == 60
  {
    hide Reply, PingFrame, PaddedPing, Sum16, Be32, EtherType;
    var p, f := PaddedPing(), PingFrame() + PaddedPing();
    FramedPing(p);
    ForTen(p);
    assert p[20..][0] == p[20];
    RepliesIff(f, mac, 0x0A00_0002);
    EchoReplyReads(f, mac, 0x0A00_0002);
  }

  /**
   A header that claims fewer than 20 bytes is answered exactly when the byte at its claimed end
   looks like an echo request: part of the identification, the time to live, or an address.
   */
  lemma ShortHeaderIff(pkt: seq<byte>, mac: Mac, ip: Ip)
    requires |pkt| >= 34 && EtherType(pkt) == ETH_IPV4 && HeaderBytes(pkt[14..]) < 20
    ensures var p := pkt[14..];
            var ihl := HeaderBytes(p);
            Reply(pkt, mac, ip) != []
            <==> Be32(p[16..20]) == ip && p[9] == PROTO_ICMP && ihl + 8 <= |p| && 34 + |p| - ihl <= MTU
                 && ((ihl == 4 && p[4] == 8) || (ihl == 8 && p[8] == 8) || (ihl == 12 && p[12] == 8) || (ihl == 16 && p[16] == 8))
  {
    hide Reply, Be32, Be16, EtherType;
    var p := pkt[14..];
    RepliesIff(pkt, mac, ip);
    assert p[HeaderBytes(p)..][0] == p[HeaderBytes(p)];
  }

  function ShortPing(): (p: seq<byte>)
    ensures |p| == 20 && p[0] == 0x41 && p[4] == 8 && p[9] == PROTO_ICMP
    ensures p[16] == 10 && p[17] == 0 && p[18] == 0 && p[19] == 2
  {
    [0x41, 0, 0, 20, 8, 0, 0, 0, 64, 1, 0, 0, 10, 0, 0, 1, 10, 0, 0, 2]
  }

  /** A header of claimed length 4 whose identification begins with 8 is answered, from its fifth byte on. */
  lemma ShortHeaderAnswered(mac: Mac)
    ensures Datagram(ShortPing()) == Malformed && |Reply(PingFrame() + ShortPing(), mac, 0x0A00_0002)| == 50
  {
    hide Reply, PingFrame, ShortPing, Sum16, Be32, EtherType;
    var p, f := ShortPing(), PingFrame() + ShortPing();
    FramedPing(p);
    ForTen(p);
    ShortHeaderIff(f, mac, 0x0A00_0002);
    EchoReplyReads(f, mac, 0x0A00_0002);
  }
}
