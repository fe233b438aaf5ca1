/**
 Extraction of a `Packet` from an Ethernet frame, with the bounds checks and
 early exits of the BPF parser.  Every byte read is within the frame.
 */
module Parser {
  import opened Types
  import opened Packets
  import opened Address
  import opened Conntrack

  type Frame = seq<u8>

  const ETH_LEN: nat := 14
  const IP4_LEN: nat := 20
  const IP6_LEN: nat := 40
  const TCP_LEN: nat := 20
  const UDP_LEN: nat := 8
  const ICMP_LEN: nat := 8

  /** Two bytes in network order. */
  function Be16(f: Frame, i: nat): u16
    requires i + 2 <= |f|
  {
    var hi: int := f[i];
    0x100 * hi + f[i + 1]
  }

  /** Four address bytes at `i`, as the word the BPF program loads. */
  function AddrAt(f: Frame, i: nat): u32
    requires i + 4 <= |f|
  {
    EncodeIp4(Ip4(f[i], f[i + 1], f[i + 2], f[i + 3]))
  }

  predicate BitSet(b: u8, i: nat)
    requires i < 8
  {
    ByteBits(b)[7 - i]
  }

  function FlagsOf(b: u8): TcpFlags {
    TcpFlags(BitSet(b, 0), BitSet(b, 1), BitSet(b, 2), BitSet(b, 3), BitSet(b, 4), BitSet(b, 5))
  }

  /** More-fragments bit or a non-zero fragment offset. */
  predicate IsFragment(f: Frame)
    requires ETH_LEN + IP4_LEN <= |f|
  {
    f[ETH_LEN + 6] % 0x40 != 0 || f[ETH_LEN + 7] != 0
  }

  // ------------------------------------------------------ which frames parse

  /** Offset of the transport header of an unfragmented IPv4 frame, if its IP header is acceptable. */
  function L4Offset4(f: Frame): Option<nat> {
    if ETH_LEN + IP4_LEN <= |f| && !IsFragment(f) && f[ETH_LEN] % 0x10 >= 5
    then Some(ETH_LEN + 4 * (f[ETH_LEN] % 0x10)) else None
  }

  function L4Of(f: Frame, o: nat, p: Packet, proto: u8): Option<Packet> {
    if proto == 6 && o + TCP_LEN <= |f| then
      Some(p.(srcPort := Be16(f, o), dstPort := Be16(f, o + 2), flags := FlagsOf(f[o + 13]), proto := PROTO_TCP))
    else if proto == 17 && o + UDP_LEN <= |f| then
      Some(p.(srcPort := Be16(f, o), dstPort := Be16(f, o + 2), proto := PROTO_UDP))
    else None
  }

  function IcmpOf(f: Frame, o: nat, p: Packet, proto: u8, echoRequest: u8, echoReply: u8): Option<Packet> {
    if o + ICMP_LEN <= |f| then
      var q := p.(icmpType := f[o], icmpCode := f[o + 1], proto := proto);
      Some(if f[o] == echoRequest || f[o] == echoReply
           then q.(srcPort := Be16(f, o + 4), dstPort := Be16(f, o + 4)) else q)
    else None
  }

  const BLANK := Packet(0, 0, 0, 0, 0, NO_FLAGS, 0, 0, 0, 0, false)

  /** The packet in a frame, `None` for frames the datapath passes without evaluation. */
  function Parse(f: Frame, direction: u8): Option<Packet> {
    if |f| < ETH_LEN then None
    else if Be16(f, 12) == 0x0800 then
      if L4Offset4(f).None? then None
      else
        var p := BLANK.(direction := direction, srcIp := AddrAt(f, ETH_LEN + 12), dstIp := AddrAt(f, ETH_LEN + 16),
                        size := Be16(f, ETH_LEN + 2));
        if f[ETH_LEN + 9] == 1 then IcmpOf(f, L4Offset4(f).value, p, PROTO_ICMP, 8, 0)
        else L4Of(f, L4Offset4(f).value, p, f[ETH_LEN + 9])
    else if Be16(f, 12) == 0x86DD && ETH_LEN + IP6_LEN <= |f| then
      var p := BLANK.(direction := direction, isIpv6 := true, size := ToU16(Be16(f, ETH_LEN + 4) + IP6_LEN));
      if f[ETH_LEN + 6] == 58 then IcmpOf(f, ETH_LEN + IP6_LEN, p, PROTO_ICMPV6, 128, 129)
      else L4Of(f, ETH_LEN + IP6_LEN, p, f[ETH_LEN + 6])
    else None
  }

  // ------------------------------------------------------ the parser itself

  method ParseTransport(f: Frame, l4: nat, proto: u8, icmpProto: u8, icmpOut: u8, echoRequest: u8, echoReply: u8,
                        ctx0: Packet) returns (r: Option<Packet>)
    requires icmpProto != 6 && icmpProto != 17
    ensures r == if proto == icmpProto then IcmpOf(f, l4, ctx0, icmpOut, echoRequest, echoReply)
                 else L4Of(f, l4, ctx0, proto)
  {
    var ctx := ctx0;
    if proto == 6 {
      if l4 + TCP_LEN > |f| { return None; }
      ctx := ctx.(srcPort := Be16(f, l4));
      ctx := ctx.(dstPort := Be16(f, l4 + 2));
      ctx := ctx.(flags := FlagsOf(f[l4 + 13]));
      ctx := ctx.(proto := PROTO_TCP);
    } else if proto == 17 {
      if l4 + UDP_LEN > |f| { return None; }
      ctx := ctx.(srcPort := Be16(f, l4));
      ctx := ctx.(dstPort := Be16(f, l4 + 2));
      ctx := ctx.(proto := PROTO_UDP);
    } else if proto == icmpProto {
      if l4 + ICMP_LEN > |f| { return None; }
      ctx := ctx.(icmpType := f[l4], icmpCode := f[l4 + 1]);
      ctx := ctx.(proto := icmpOut);
      if f[l4] == echoRequest || f[l4] == echoReply {
        ctx := ctx.(srcPort := Be16(f, l4 + 4));
        ctx := ctx.(dstPort := ctx.srcPort);
      }
    } else {
      return None;
    }
    return Some(ctx);
  }

  method ParseIpv4(f: Frame, ctx0: Packet) returns (r: Option<Packet>)
    requires |f| >= ETH_LEN && Be16(f, 12) == 0x0800 && ctx0 == BLANK.(direction := ctx0.direction)
    ensures r == Parse(f, ctx0.direction)
  {
    var ctx := ctx0;
    if ETH_LEN + IP4_LEN > |f| { return None; }
    if IsFragment(f) { return None; }
    var ihl := f[ETH_LEN] % 0x10;
    if ihl < 5 { return None; }
    ctx := ctx.(srcIp := AddrAt(f, ETH_LEN + 12));
    ctx := ctx.(dstIp := AddrAt(f, ETH_LEN + 16));
    ctx := ctx.(size := Be16(f, ETH_LEN + 2));
    r := ParseTransport(f, ETH_LEN + 4 * ihl, f[ETH_LEN + 9], 1, PROTO_ICMP, 8, 0, ctx);
  }

  method ParseIpv6(f: Frame, ctx0: Packet) returns (r: Option<Packet>)
    requires |f| >= ETH_LEN && Be16(f, 12) == 0x86DD && ctx0 == BLANK.(direction := ctx0.direction)
    ensures r == Parse(f, ctx0.direction)
  {
    var ctx := ctx0;
    if ETH_LEN + IP6_LEN > |f| { return None; }
    ctx := ctx.(srcIp := 0, dstIp := 0);
    ctx := ctx.(size := ToU16(Be16(f, ETH_LEN + 4) + IP6_LEN));
    ctx := ctx.(isIpv6 := true);
    r := ParseTransport(f, ETH_LEN + IP6_LEN, f[ETH_LEN + 6], 58, PROTO_ICMPV6, 128, 129, ctx);
  }

  method ParsePacket(f: Frame, direction: u8) returns (r: Option<Packet>)
    ensures r == Parse(f, direction)
  {
    var ctx := BLANK.(direction := direction);
    if ETH_LEN > |f| { return None; }
    if Be16(f, 12) == 0x0800 {
      r := ParseIpv4(f, ctx);
    } else if Be16(f, 12) == 0x86DD {
      r := ParseIpv6(f, ctx);
    } else {
      r := None;
    }
  }

  // ---------------------------------------------------- frames and their fields

  /** Only headers are read: payload appended to a parsed frame changes nothing. */
  lemma PayloadIgnored(f: Frame, payload: Frame, direction: u8)
    requires Parse(f, direction).Some?
    ensures Parse(f + payload, direction) == Parse(f, direction)
  {
    var g := f + payload;
    assert forall i | 0 <= i < |f| :: g[i] == f[i];
    assert Be16(g, 12) == Be16(f, 12);
    if Be16(f, 12) == 0x0800 {
      assert L4Offset4(g) == L4Offset4(f) && Be16(g, ETH_LEN + 2) == Be16(f, ETH_LEN + 2);
      assert AddrAt(g, ETH_LEN + 12) == AddrAt(f, ETH_LEN + 12) && AddrAt(g, ETH_LEN + 16) == AddrAt(f, ETH_LEN + 16);
      var p := BLANK.(direction := direction, srcIp := AddrAt(f, ETH_LEN + 12), dstIp := AddrAt(f, ETH_LEN + 16),
                      size := Be16(f, ETH_LEN + 2));
      TransportExtends(f, payload, L4Offset4(f).value, p, f[ETH_LEN + 9], PROTO_ICMP, 8, 0);
    } else {
      var p := BLANK.(direction := direction, isIpv6 := true, size := ToU16(Be16(f, ETH_LEN + 4) + IP6_LEN));
      TransportExtends(f, payload, ETH_LEN + IP6_LEN, p, f[ETH_LEN + 6], PROTO_ICMPV6, 128, 129);
    }
  }

  lemma TransportExtends(f: Frame, payload: Frame, o: nat, p: Packet, proto: u8, icmp: u8, echoRequest: u8, echoReply: u8)
    ensures L4Of(f, o, p, proto).Some? ==> L4Of(f + payload, o, p, proto) == L4Of(f, o, p, proto)
    ensures IcmpOf(f, o, p, icmp, echoRequest, echoReply).Some? ==>
            IcmpOf(f + payload, o, p, icmp, echoRequest, echoReply) == IcmpOf(f, o, p, icmp, echoRequest, echoReply)
  {
    var g := f + payload;
    assert forall i | 0 <= i < |f| :: g[i] == f[i];
  }

  function Put16(x: u16): Frame { [x / 0x100, x % 0x100] }

  /** The flag byte, from its high bit to its low one. */
  function FlagByte(t: TcpFlags): u8 { ByteOf([false, false, t.urg, t.ack, t.psh, t.rst, t.syn, t.fin]) }

  /** The transport header of `p`; `fill` supplies the 16 bytes the parser does not look at. */
  function EmitL4(p: Packet, fill: Frame): Frame
    requires |fill| == 16
  {
    if p.proto == PROTO_TCP then
      Put16(p.srcPort) + Put16(p.dstPort) + fill[..9] + [FlagByte(p.flags)] + fill[9..15]
    else if p.proto == PROTO_UDP then
      Put16(p.srcPort) + Put16(p.dstPort) + fill[..4]
    else
      [p.icmpType, p.icmpCode] + fill[..2] + Put16(p.srcPort) + fill[2..4]
  }

  /** An IPv4 frame for `p` with IP options `opts`. */
  function EmitIpv4(p: Packet, macs: Frame, noise: Frame, opts: Frame, fill: Frame): Frame
    requires |macs| == 12 && |noise| == 6 && |opts| % 4 == 0 && |opts| <= 40 && |fill| == 16
  {
    var a, b := DecodeIp4(p.srcIp), DecodeIp4(p.dstIp);
    macs + [0x08, 0x00] +
    ([0x45 + |opts| / 4, noise[0]] + Put16(p.size) + noise[1..3] + [0x40, 0] + [noise[3]] +
     [if p.proto == PROTO_TCP then 6 else if p.proto == PROTO_UDP then 17 else 1] + noise[4..6] +
     ToSlice(a) + ToSlice(b)) + opts + EmitL4(p, fill)
  }

  /** Packets a transport header can carry: fields of other protocols are blank, echo messages hold one identifier. */
  predicate WireL4(p: Packet, icmp: u8, echoRequest: u8, echoReply: u8) {
    && (p.proto == PROTO_TCP || p.proto == PROTO_UDP || p.proto == icmp)
    && (p.proto != PROTO_TCP ==> p.flags == NO_FLAGS)
    && (p.proto != icmp ==> p.icmpType == 0 && p.icmpCode == 0)
    && (p.proto == icmp ==>
          p.srcPort == p.dstPort && ((p.icmpType == echoRequest || p.icmpType == echoReply) || p.srcPort == 0))
  }

  predicate WireIpv4(p: Packet) { !p.isIpv6 && WireL4(p, PROTO_ICMP, 8, 0) }

  /** Addresses of IPv6 packets are not kept. */
  predicate WireIpv6(p: Packet) { p.isIpv6 && p.srcIp == 0 && p.dstIp == 0 && WireL4(p, PROTO_ICMPV6, 128, 129) }

  /** An IPv6 frame for `p`; `lead` is version, class and label, `addrs` hop limit and both addresses. */
  function EmitIpv6(p: Packet, macs: Frame, lead: Frame, addrs: Frame, fill: Frame): Frame
    requires |macs| == 12 && |lead| == 4 && |addrs| == 33 && |fill| == 16
  {
    macs + [0x86, 0xDD] +
    (lead + Put16((p.size + 0x10000 - IP6_LEN) % 0x10000) +
     [if p.proto == PROTO_TCP then 6 else if p.proto == PROTO_UDP then 17 else 58] + addrs) + EmitL4(p, fill)
  }

  lemma Be16Put(x: u16)
    ensures Be16(Put16(x), 0) == x
  {
  }

  lemma FlagRoundTrip(t: TcpFlags)
    ensures FlagsOf(FlagByte(t)) == t
  {
    BitsOfFromBits([false, false, t.urg, t.ack, t.psh, t.rst, t.syn, t.fin]);
  }

  lemma EmitL4At(pre: Frame, p: Packet, fill: Frame, q: Packet, icmp: u8, echoRequest: u8, echoReply: u8)
    requires |fill| == 16 && icmp != PROTO_TCP && icmp != PROTO_UDP && WireL4(p, icmp, echoRequest, echoReply)
    requires q == p.(srcPort := 0, dstPort := 0, flags := NO_FLAGS, icmpType := 0, icmpCode := 0, proto := 0)
    ensures var f := pre + EmitL4(p, fill);
            (if p.proto == icmp then IcmpOf(f, |pre|, q, icmp, echoRequest, echoReply)
             else L4Of(f, |pre|, q, if p.proto == PROTO_TCP then 6 else 17)) == Some(p)
  {
    if p.proto == icmp {
      IcmpAt(pre, p, fill);
    } else {
      PortsAt(pre, p, fill);
      if p.proto == PROTO_TCP { FlagsAt(pre, p, fill); }
    }
  }

  lemma PortsAt(pre: Frame, p: Packet, fill: Frame)
    requires |fill| == 16 && (p.proto == PROTO_TCP || p.proto == PROTO_UDP)
    ensures var f := pre + EmitL4(p, fill);
            && |f| == |pre| + (if p.proto == PROTO_TCP then TCP_LEN else UDP_LEN)
            && Be16(f, |pre|) == p.srcPort && Be16(f, |pre| + 2) == p.dstPort
  {
    var l4 := EmitL4(p, fill);
    var f := pre + l4;
    assert f[|pre|] == l4[0] && f[|pre| + 1] == l4[1] && f[|pre| + 2] == l4[2] && f[|pre| + 3] == l4[3];
    Be16Put(p.srcPort);
    Be16Put(p.dstPort);
  }

  lemma FlagsAt(pre: Frame, p: Packet, fill: Frame)
    requires |fill| == 16 && p.proto == PROTO_TCP
    ensures var f := pre + EmitL4(p, fill); |f| == |pre| + TCP_LEN && FlagsOf(f[|pre| + 13]) == p.flags
  {
    FlagRoundTrip(p.flags);
    assert EmitL4(p, fill)[13] == FlagByte(p.flags);
  }

  lemma IcmpAt(pre: Frame, p: Packet, fill: Frame)
    requires |fill| == 16 && p.proto != PROTO_TCP && p.proto != PROTO_UDP
    ensures var f := pre + EmitL4(p, fill);
            && |f| == |pre| + ICMP_LEN
            && f[|pre|] == p.icmpType && f[|pre| + 1] == p.icmpCode && Be16(f, |pre| + 4) == p.srcPort
  {
    var l4 := EmitL4(p, fill);
    var f := pre + l4;
    assert f[|pre| + 4] == l4[4] == Put16(p.srcPort)[0] && f[|pre| + 5] == l4[5] == Put16(p.srcPort)[1];
    Be16Put(p.srcPort);
  }

  /** Every IPv4 packet survives emission and parsing, whatever the bytes the parser skips. */
  lemma ParseEmit(p: Packet, macs: Frame, noise: Frame, opts: Frame, fill: Frame)
    requires |macs| == 12 && |noise| == 6 && |opts| % 4 == 0 && |opts| <= 40 && |fill| == 16
    requires WireIpv4(p)
    ensures Parse(EmitIpv4(p, macs, noise, opts, fill), p.direction) == Some(p)
  {
    var f := EmitIpv4(p, macs, noise, opts, fill);
    var pre := f[..ETH_LEN + IP4_LEN + |opts|];
    assert f == pre + EmitL4(p, fill);
    var q := p.(srcPort := 0, dstPort := 0, flags := NO_FLAGS, icmpType := 0, icmpCode := 0, proto := 0);
    EmitL4At(pre, p, fill, q, PROTO_ICMP, 8, 0);
    HeaderFields(p, macs, noise, opts, fill);
  }

  lemma HeaderFields(p: Packet, macs: Frame, noise: Frame, opts: Frame, fill: Frame)
    requires |macs| == 12 && |noise| == 6 && |opts| % 4 == 0 && |opts| <= 40 && |fill| == 16
    ensures var f := EmitIpv4(p, macs, noise, opts, fill);
            && |f| >= ETH_LEN + IP4_LEN + |opts| && Be16(f, 12) == 0x0800
            && L4Offset4(f) == Some(ETH_LEN + IP4_LEN + |opts|)
            && AddrAt(f, ETH_LEN + 12) == p.srcIp && AddrAt(f, ETH_LEN + 16) == p.dstIp
            && Be16(f, ETH_LEN + 2) == p.size
            && f[ETH_LEN + 9] == if p.proto == PROTO_TCP then 6 else if p.proto == PROTO_UDP then 17 else 1
  {
    var f := EmitIpv4(p, macs, noise, opts, fill);
    EncodeDecode(p.srcIp);
    EncodeDecode(p.dstIp);
    Be16Put(p.size);
  }

  lemma HeaderFields6(p: Packet, macs: Frame, lead: Frame, addrs: Frame, fill: Frame)
    requires |macs| == 12 && |lead| == 4 && |addrs| == 33 && |fill| == 16
    ensures var f := EmitIpv6(p, macs, lead, addrs, fill);
            && |f| >= ETH_LEN + IP6_LEN && Be16(f, 12) == 0x86DD
            && ToU16(Be16(f, ETH_LEN + 4) + IP6_LEN) == p.size
            && f[ETH_LEN + 6] == if p.proto == PROTO_TCP then 6 else if p.proto == PROTO_UDP then 17 else 58
  {
    var f := EmitIpv6(p, macs, lead, addrs, fill);
    var len := (p.size + 0x10000 - IP6_LEN) % 0x10000;
    Be16Put(len);
    assert f[ETH_LEN + 4] == Put16(len)[0] && f[ETH_LEN + 5] == Put16(len)[1];
  }

  /** Every IPv6 packet survives emission and parsing, up to its addresses, which the parser drops. */
  lemma ParseEmit6(p: Packet, macs: Frame, lead: Frame, addrs: Frame, fill: Frame)
    requires |macs| == 12 && |lead| == 4 && |addrs| == 33 && |fill| == 16
    requires WireIpv6(p)
    ensures Parse(EmitIpv6(p, macs, lead, addrs, fill), p.direction) == Some(p)
  {
    var f := EmitIpv6(p, macs, lead, addrs, fill);
    var pre := f[..ETH_LEN + IP6_LEN];
    assert f == pre + EmitL4(p, fill);
    var q := p.(srcPort := 0, dstPort := 0, flags := NO_FLAGS, icmpType := 0, icmpCode := 0, proto := 0);
    EmitL4At(pre, p, fill, q, PROTO_ICMPV6, 128, 129);
    HeaderFields6(p, macs, lead, addrs, fill);
  }

  /** Packets that some frame carries. */
  predicate OnWire(p: Packet) { WireIpv4(p) || WireIpv6(p) }

  lemma ParsedIsOnWire(f: Frame, direction: u8)
    requires Parse(f, direction).Some?
    ensures OnWire(Parse(f, direction).value) && Parse(f, direction).value.direction == direction
  {
  }

  function Zeros(n: nat): (f: Frame)
    ensures |f| == n
  {
    seq(n, _ => 0)
  }

  /** Exactly the packets that the parser can return. */
  lemma ParsedExactly(p: Packet)
    ensures (exists f: Frame :: Parse(f, p.direction) == Some(p)) <==> OnWire(p)
  {
    if f: Frame :| Parse(f, p.direction) == Some(p) {
      ParsedIsOnWire(f, p.direction);
    }
    if WireIpv4(p) { ParseEmit(p, Zeros(12), Zeros(6), [], Zeros(16)); }
    if WireIpv6(p) { ParseEmit6(p, Zeros(12), Zeros(4), Zeros(33), Zeros(16)); }
  }

  /** An ICMP echo request and its reply always meet in one conntrack entry, over IPv4 and IPv6. */
  lemma EchoSharesKey(f: Frame, g: Frame, d: u8, d': u8)
    requires Parse(f, d).Some? && Parse(g, d').Some?
    requires var p, q := Parse(f, d).value, Parse(g, d').value;
             && q.proto == p.proto && q.srcIp == p.dstIp && q.dstIp == p.srcIp && q.srcPort == p.srcPort
             && ((p.proto == PROTO_ICMP && p.icmpType == 8 && q.icmpType == 0)
                 || (p.proto == PROTO_ICMPV6 && p.icmpType == 128 && q.icmpType == 129))
    ensures BuildKey(Parse(f, d).value) == BuildKey(Parse(g, d').value)
  {
    var p, q := Parse(f, d).value, Parse(g, d').value;
    assert p.srcPort == p.dstPort && q.srcPort == q.dstPort;
    KeySharedExactly(p, q);
  }
}
