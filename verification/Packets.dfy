/** Parsed packets (`struct pkt_ctx`) and the constants shared by user space and BPF. */
module Packets {
  import opened Types

  const PROTO_ANY: u8 := 1
  const PROTO_TCP: u8 := 2
  const PROTO_UDP: u8 := 3
  const PROTO_ICMP: u8 := 4
  const PROTO_ICMPV6: u8 := 5

  const ACTION_ALLOW: u8 := 1
  const ACTION_DENY: u8 := 2
  const ACTION_LOG: u8 := 3

  const DIR_INGRESS: u8 := 1
  const DIR_EGRESS: u8 := 2

  const CT_NONE: u8 := 1
  const CT_NEW: u8 := 2
  const CT_ESTABLISHED: u8 := 3
  const CT_RELATED: u8 := 4
  const CT_INVALID: u8 := 5

  /** The TCP_FLAG_* bits of `tcp_flags`. */
  datatype TcpFlags = TcpFlags(fin: bool, syn: bool, rst: bool, psh: bool, ack: bool, urg: bool)

  const NO_FLAGS := TcpFlags(false, false, false, false, false, false)

  datatype Packet = Packet(
    srcIp: u32,        // address bytes read as a little-endian word; 0 for IPv6
    dstIp: u32,
    srcPort: u16,
    dstPort: u16,
    size: u16,
    flags: TcpFlags,
    icmpType: u8,
    icmpCode: u8,
    proto: u8,
    direction: u8,
    isIpv6: bool)
}
