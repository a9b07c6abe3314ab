/** The packet responder: replies written stage by stage into the caller's buffer. */
module Net {

  import opened Bytes
  import opened Checksum
  import opened NetSpec

  /** buf holds s at position at, and is otherwise what it was. */
  twostate predicate Holds(buf: array<byte>, at: nat, s: seq<byte>)
    requires at + |s| <= buf.Length
    reads buf
  {
    buf[..] == old(buf[..at]) + s + old(buf[at + |s|..])
  }

  /** The header bytes in place, one write after the other. */
  lemma Assembled(was: seq<byte>, dst: Mac, src: Mac, hi: byte, lo: byte)
    requires |was| >= 14
    ensures var m1 := was[..0] + dst + was[6..];
            var m2 := m1[..6] + src + m1[12..];
            |m2| == |was| && m2[12 := hi][13 := lo] == dst + src + [hi, lo] + was[14..]
  {
  }

  /** write_frame: the Ethernet header, or nothing into a buffer that is too short. */
  method WriteFrame(buf: array<byte>, dst: Mac, src: Mac, etype: nat) returns (n: nat)
    requires etype <= ONES
    modifies buf
    ensures buf.Length < 14 ==> n == 0 && buf[..] == old(buf[..])
    ensures buf.Length >= 14 ==> n == 14 && Holds(buf, 0, EthHeader(dst, src, etype))
  {
    hide Be16;
    if buf.Length < 14 { return 0; }
    ghost var was := buf[..];
    Blit(buf, 0, dst);
    Blit(buf, 6, src);
    var hi: byte, lo: byte := etype / 256 % 256, etype % 256;
    buf[12] := hi;
    buf[13] := lo;
    Assembled(was, dst, src, hi, lo);
    return 14;
  }

  /** arp::handle: the reply to a request for our address, if the buffer has room for it. */
  method ArpHandle(payload: seq<byte>, mac: Mac, ip: Ip, out: array<byte>) returns (n: nat)
    modifies out
    ensures n == if out.Length >= 42 then |ArpReply(payload, mac, ip)| else 0
    ensures out[..n] == if n > 0 then ArpReply(payload, mac, ip) else []
  {
    hide EthHeader, Be16, Be32, ToBe32;
    if |payload| < 28 { return 0; }
    var oper := Be16(payload[6], payload[7]);
    var senderIp, targetIp := Be32(payload[14..18]), Be32(payload[24..28]);
    if oper != 1 || targetIp != ip { return 0; }
    var sender := payload[8..14];
    var hlen := WriteFrame(out, sender, mac, ETH_ARP);
    if out.Length < hlen + 28 { return 0; }
    ghost var h := EthHeader(sender, mac, ETH_ARP);
    assert out[..14] == h;
    WriteArp(out, h, mac, ip, sender, senderIp);
    return hlen + 28;
  }

  /** The 28 bytes behind the Ethernet header. */
  method WriteArp(out: array<byte>, ghost h: seq<byte>, mac: Mac, ip: Ip, sender: Mac, senderIp: Ip)
    requires out.Length >= 42 && |h| == 14 && out[..14] == h
    modifies out
    ensures out[..42] == h + ArpBody(2, mac, ip, sender, senderIp)
  {
    hide Be16, ToBe32;
    Append(out, 14, [0, 1], 42);
    Append(out, 16, [8, 0], 42);
    Append(out, 18, [6, 4], 42);
    Append(out, 20, [0, 2], 42);
    Append(out, 22, mac, 42);
    Append(out, 28, ToBe32(ip), 42);
    Append(out, 32, sender, 42);
    Append(out, 38, ToBe32(senderIp), 42);
    ArpPieces(h, mac, ip, sender, senderIp);
  }

  lemma ArpPieces(h: seq<byte>, mac: Mac, ip: Ip, sender: Mac, senderIp: Ip)
    ensures h + [0, 1] + [8, 0] + [6, 4] + [0, 2] + mac + ToBe32(ip) + sender + ToBe32(senderIp)
            == h + ArpBody(2, mac, ip, sender, senderIp)
  {
    hide ToBe32;
    assert ToBe16(2) == [0, 2];
  }

  /** A word in the middle of a buffer replaced. */
  lemma Patched(pre: seq<byte>, a: seq<byte>, z: seq<byte>, b: seq<byte>, post: seq<byte>, w: seq<byte>)
    requires |z| == |w|
    ensures var all := pre + a + z + b + post;
            all[..|pre| + |a|] + w + all[|pre| + |a| + |w|..] == pre + (a + w + b) + post
  {
  }

  /** ipv4::write into the part of the buffer from at on: the header with its checksum. */
  method Ipv4Write(buf: array<byte>, at: nat, proto: byte, src: Ip, dst: Ip, len: nat) returns (n: nat)
    requires at <= buf.Length
    modifies buf
    ensures buf.Length - at < 20 + len ==> n == 0 && buf[..] == old(buf[..])
    ensures buf.Length - at >= 20 + len ==> n == 20 && Holds(buf, at, Ipv4Header(proto, src, dst, len))
  {
    hide Be16, ToBe32, Sum16;
    if buf.Length - at < 20 + len { return 0; }
    ghost var before, after := buf[..at], buf[at + 20..];
    ghost var a, b := IpFront(proto, len), IpBack(src, dst);
    HeaderWithoutSum(buf, at, proto, src, dst, len);
    ghost var all := buf[..];
    assert all == all[..at + 20] + all[at + 20..] == before + a + [0, 0] + b + after;
    assert buf[at..at + 20] == a + [0, 0] + b;
    var c := Compute(buf[at..at + 20]);
    Blit(buf, at + 10, ToBe16(c));
    Patched(before, a, [0, 0], b, after, ToBe16(c));
    return 20;
  }

  /** The 20 bytes with a zero checksum. */
  method HeaderWithoutSum(buf: array<byte>, at: nat, proto: byte, src: Ip, dst: Ip, len: nat)
    requires at + 20 <= buf.Length
    modifies buf
    ensures buf[..at + 20] == old(buf[..at]) + IpFront(proto, len) + [0, 0] + IpBack(src, dst)
    ensures buf[at + 20..] == old(buf[at + 20..])
  {
    hide Be16, ToBe32, ToBe16;
    ghost var before := buf[..at];
    Append(buf, at, [0x45, 0], at + 20);
    Append(buf, at + 2, ToBe16((20 + len) % 0x1_0000), at + 20);
    Append(buf, at + 4, [0, 1], at + 20);
    Append(buf, at + 6, [0x40, 0], at + 20);
    Append(buf, at + 8, [64, proto], at + 20);
    assert buf[..at + 10] == before + IpFront(proto, len);
    Append(buf, at + 10, [0, 0], at + 20);
    Append(buf, at + 12, ToBe32(src), at + 20);
    Append(buf, at + 16, ToBe32(dst), at + 20);
  }

  /** icmp::handle: the echo reply, written in stages with the checksum patched in last. */
  method IcmpHandle(payload: seq<byte>, mac: Mac, ip: Ip, srcMac: Mac, srcIp: Ip, out: array<byte>) returns (n: nat)
    modifies out
    ensures n == |EchoReply(payload, mac, ip, srcMac, srcIp, out.Length)|
    ensures n > 0 ==> n == 34 + |payload| <= out.Length
    ensures |payload| <= 131074 ==> out[..n] == EchoReply(payload, mac, ip, srcMac, srcIp, out.Length)
  {
    hide EthHeader, Ipv4Header, Sum16, Be16, EchoBody;
    if |payload| < 8 { return 0; }
    if payload[0] != 8 { return 0; }
    var len := |payload|;
    if out.Length < 14 + 20 + len { return 0; }
    var eh := WriteFrame(out, srcMac, mac, ETH_IPV4);
    ghost var h := EthHeader(srcMac, mac, ETH_IPV4);
    assert out[..14] == h;
    var ih := Ipv4Write(out, eh, PROTO_ICMP, ip, srcIp, len);
    eh := eh + ih;
    ghost var hi := h + Ipv4Header(PROTO_ICMP, ip, srcIp, len);
    assert out[..34] == hi;
    WriteEcho(out, hi, payload);
    return eh + len;
  }

  /** Write w at position at, as seen in the first n bytes. */
  method Patch(buf: array<byte>, at: nat, w: seq<byte>, ghost n: nat)
    requires at + |w| <= n <= buf.Length
    modifies buf
    ensures var was := old(buf[..n]); buf[..n] == was[..at] + w + was[at + |w|..]
  {
    ghost var was := buf[..];
    Blit(buf, at, w);
    TakeSplice(was, at, w, n);
    assert buf[..] == was[..at] + w + was[at + |w|..];
    assert buf[..n] == buf[..][..n];
    assert old(buf[..n]) == was[..n];
  }

  lemma TakeSplice(was: seq<byte>, at: nat, w: seq<byte>, n: nat)
    requires at + |w| <= n <= |was|
    ensures (was[..at] + w + was[at + |w|..])[..n] == was[..n][..at] + w + was[..n][at + |w|..]
  {
  }

  lemma Zeroed(m: seq<byte>, hi: seq<byte>, payload: seq<byte>)
    requires |hi| == 34 && |payload| >= 8 && 34 + |payload| <= |m| && m[..34 + |payload|] == hi + payload
    ensures var z := m[34 := 0][35 := 0][36 := 0][37 := 0];
            && z[34..34 + |payload|] == [0, 0] + [0, 0] + payload[4..]
            && z[..34 + |payload|] == hi + [0, 0] + [0, 0] + payload[4..] + []
  {
    assert forall k :: 0 <= k < 34 + |payload| ==> m[k] == m[..34 + |payload|][k] == (hi + payload)[k];
  }

  /** The body of the reply: the request copied, type and code cleared, the checksum computed and stored. */
  method WriteEcho(out: array<byte>, ghost hi: seq<byte>, payload: seq<byte>)
    requires |payload| >= 8 && |hi| == 34 && 34 + |payload| <= out.Length && out[..34] == hi
    modifies out
    ensures |payload| <= 131074 ==> out[..34 + |payload|] == hi + EchoBody(payload)
  {
    hide Sum16, Be16, ToBe16;
    var len := |payload|;
    CopyCleared(out, hi, payload);
    var c := Compute(out[34..34 + len]);
    Patch(out, 36, ToBe16(c), 34 + len);
    Patched(hi, [0, 0], [0, 0], payload[4..], [], ToBe16(c));
  }

  /** The request copied, with type, code and checksum zero. */
  method CopyCleared(out: array<byte>, ghost hi: seq<byte>, payload: seq<byte>)
    requires |payload| >= 8 && |hi| == 34 && 34 + |payload| <= out.Length && out[..34] == hi
    modifies out
    ensures out[34..34 + |payload|] == [0, 0] + [0, 0] + payload[4..]
    ensures out[..34 + |payload|] == hi + [0, 0] + [0, 0] + payload[4..] + []
  {
    var len := |payload|;
    Append(out, 34, payload, 34 + len);
    ghost var was := out[..];
    out[34], out[35], out[36], out[37] := 0, 0, 0, 0;
    Zeroed(was, hi, payload);
    assert out[..] == was[34 := 0][35 := 0][36 := 0][37 := 0];
    assert out[34..34 + len] == out[..][34..34 + len];
    assert out[..34 + len] == out[..][..34 + len];
  }

  /** net_process_packet: ok exactly when there is a reply, which is then in the buffer. */
  method ProcessPacket(pkt: seq<byte>, mac: Mac, ip: Ip, out: array<byte>) returns (ok: bool, n: nat)
    requires out.Length == MTU
    modifies out
    ensures ok <==> Reply(pkt, mac, ip) != []
    ensures ok ==> n == |Reply(pkt, mac, ip)| && out[..n] == Reply(pkt, mac, ip)
  {
    hide ArpReply, EchoReply, Be16;
    if |pkt| < 14 { return false, 0; }
    var etype := Be16(pkt[12], pkt[13]);
    var srcMac, payload := pkt[6..12], pkt[14..];
    n := 0;
    if etype == ETH_ARP {
      n := ArpHandle(payload, mac, ip, out);
    } else if etype == ETH_IPV4 {
      match ParseIp(payload) {
        case Malformed =>
        case Packet(body, proto, src, dst) =>
          if dst != ip { return false, 0; }
          if proto == PROTO_ICMP { n := IcmpHandle(body, mac, ip, srcMac, src, out); }
      }
    }
    return n > 0, n;
  }

  /** The request that net_arp_announce makes up, from and for our own address. */
  function FakeRequest(mac: Mac, ip: Ip): (s: seq<byte>)
    ensures |s| == 28
  {
    ArpBody(1, mac, ip, [0, 0, 0, 0, 0, 0], ip)
  }

  /**
   net_arp_announce: an ARP reply that binds our address to our MAC. It is addressed to our own
   MAC, so it is a broadcast exactly when our MAC is the broadcast address.
   */
  method Announce(mac: Mac, ip: Ip, out: array<byte>) returns (n: nat)
    requires out.Length == 42
    modifies out
    ensures n == 42 && EtherType(out[..]) == ETH_ARP
    ensures out[..] == EthHeader(mac, mac, ETH_ARP) + ArpBody(2, mac, ip, mac, ip)
    ensures out[0..6] == [255, 255, 255, 255, 255, 255] <==> mac == [255, 255, 255, 255, 255, 255]
  {
    hide Be16, Be32, ToBe32, EthHeader, ToBe16;
    var fake := FakeRequest(mac, ip);
    assert fake[8..14] == mac && fake[14..18] == ToBe32(ip) && fake[24..28] == ToBe32(ip);
    assert fake[6] == ToBe16(1)[0] && fake[7] == ToBe16(1)[1];
    Be32Back(ip);
    n := ArpHandle(fake, mac, ip, out);
    assert out[..] == out[..42];
    assert out[0..6] == EthHeader(mac, mac, ETH_ARP)[0..6] == mac;
  }
}
