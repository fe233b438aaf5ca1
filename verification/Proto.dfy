/** The policy bundle as it travels from the control plane to the agent. */
module Proto {
  import opened Types

  /** `ip` is 4 bytes for IPv4 or 16 bytes for IPv6; nothing in transit enforces that. */
  datatype ProtoCidr = ProtoCidr(ip: seq<u8>, prefixLen: u32)

  datatype ProtoPorts = ProtoPorts(start: u32, end: u32)

  datatype ProtoMatch = ProtoMatch(
    protocol: i32,
    srcCidrs: seq<ProtoCidr>,
    dstCidrs: seq<ProtoCidr>,
    srcPorts: seq<ProtoPorts>,
    dstPorts: seq<ProtoPorts>,
    tcpFlagsMatch: u32,
    tcpFlagsMask: u32)

  datatype EffectiveRule = EffectiveRule(
    ruleId: string,
    direction: i32,
    criteria: ProtoMatch,
    state: i32,
    action: i32,
    logEnabled: bool,
    rateLimit: u32)

  /** A missing rule is nil in the repeated field. */
  datatype Bundle = Bundle(
    generation: int,
    rules: seq<Option<EffectiveRule>>,
    ingress: i32,
    egress: i32,
    requiresConntrack: bool)
}
