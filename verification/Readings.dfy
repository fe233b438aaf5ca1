/**
 Two readings of rules that the bundle's documentation gives and the agent does
 not follow: LOG as an action after which evaluation goes on, and the filter on
 TCP flags.  For each, when the agent's decisions agree with it.
 */
module Readings {
  import opened Types
  import opened Packets
  import opened Address
  import opened Parser
  import opened Matcher
  import opened Datapath
  import opened Proto
  import opened Uuids
  import opened BundleCompiler
  import opened PolicyHandler

  // ---------------------------------------------------------- LOG goes on

  /** The action of the first rule of `i..n` that is hit and is not LOG, 0 if there is none. */
  function Continuing(rules: seq<RuleEntry>, hits: seq<bool>, i: nat, n: nat): u8
    requires i <= n <= |rules| == |hits|
    decreases n - i
  {
    if i == n then 0
    else if hits[i] && rules[i].action != ACTION_LOG then rules[i].action
    else Continuing(rules, hits, i + 1, n)
  }

  /** The decision if evaluation goes on after LOG. */
  function ContinuingAction(pol: Policy, p: Packet, ctState: u8): u8
    requires pol.Valid()
  {
    var a := Continuing(pol.rules, Hits(pol.rules, p, ctState, pol.ipsets), 0, pol.Active());
    if a != 0 then a else DefaultAction(pol, p)
  }

  lemma {:induction false} ContinuingSkips(rules: seq<RuleEntry>, hits: seq<bool>, i: nat, n: nat)
    requires i <= n <= |rules| == |hits|
    ensures Continuing(rules, hits, i, n) == Continuing(rules, hits, FirstTrue(hits, i, n), n)
    decreases n - i
  {
    if i < n && !hits[i] { ContinuingSkips(rules, hits, i + 1, n); }
  }

  predicate StopsAtLog(pol: Policy, p: Packet, ctState: u8)
    requires pol.Valid()
  {
    var i := Matched(pol, p, ctState);
    i < pol.Active() && pol.rules[i].action == ACTION_LOG
  }

  /** The datapath and the continuing reading differ on a packet exactly when it stops at a LOG before a denial. */
  lemma LogStopsExactly(pol: Policy, p: Packet, ctState: u8)
    requires pol.Valid()
    ensures (ActionFor(pol, p, ctState) != ACTION_DENY) == (ContinuingAction(pol, p, ctState) != ACTION_DENY)
       <==> !(StopsAtLog(pol, p, ctState) && ContinuingAction(pol, p, ctState) == ACTION_DENY)
    ensures !StopsAtLog(pol, p, ctState) ==> ActionFor(pol, p, ctState) == ContinuingAction(pol, p, ctState)
  {
    ContinuingSkips(pol.rules, Hits(pol.rules, p, ctState, pol.ipsets), 0, pol.Active());
  }

  /** The first rule of a bundle, from `i` on, that matches and is not LOG. */
  function RefFinal(b: Bundle, i: nat, p: Packet, ctState: u8): (r: nat)
    requires i <= |b.rules|
    ensures i <= r <= |b.rules| && (r < |b.rules| ==> RefMatchesAt(b, r, p, ctState))
    decreases |b.rules| - i
  {
    if i == |b.rules| || (RefMatchesAt(b, i, p, ctState) && ToU8(b.rules[i].value.action) != ACTION_LOG) then i
    else RefFinal(b, i + 1, p, ctState)
  }

  /** The bundle's decision if LOG is not terminal. */
  function RefContinuing(b: Bundle, p: Packet, ctState: u8): u8 {
    var i := RefFinal(b, 0, p, ctState);
    if i < |b.rules| then ToU8(b.rules[i].value.action) else RefDefault(b, p)
  }

  lemma {:induction false} RefFinalSkips(b: Bundle, i: nat, m: nat, p: Packet, ctState: u8)
    requires i <= m <= |b.rules| && forall j | i <= j < m :: !RefMatchesAt(b, j, p, ctState)
    ensures RefFinal(b, i, p, ctState) == RefFinal(b, m, p, ctState)
    decreases m - i
  {
    if i < m {
      assert !RefMatchesAt(b, i, p, ctState);
      RefFinalSkips(b, i + 1, m, p, ctState);
    }
  }

  predicate FirstIsLog(b: Bundle, p: Packet, ctState: u8) {
    var i := RefFirst(b, 0, p, ctState);
    i < |b.rules| && ToU8(b.rules[i].value.action) == ACTION_LOG
  }

  /** The same for bundles: maps that implement a bundle differ from its continuing reading exactly so. */
  lemma LogReadingExactly(pol: Policy, b: Bundle, p: Packet, ctState: u8)
    requires pol.Valid() && Implements(pol, b)
    ensures (ActionFor(pol, p, ctState) != ACTION_DENY) == (RefContinuing(b, p, ctState) != ACTION_DENY)
       <==> !(FirstIsLog(b, p, ctState) && RefContinuing(b, p, ctState) == ACTION_DENY)
    ensures !FirstIsLog(b, p, ctState) ==> ActionFor(pol, p, ctState) == RefContinuing(b, p, ctState)
  {
    RefFinalSkips(b, 0, RefFirst(b, 0, p, ctState), p, ctState);
    assert ActionFor(pol, p, ctState) == RefAction(b, p, ctState);
  }

  predicate NoLogRules(b: Bundle) {
    forall i | 0 <= i < |b.rules| && b.rules[i].Some? :: ToU8(b.rules[i].value.action) != ACTION_LOG
  }

  /** A bundle without LOG rules is decided by its continuing reading. */
  lemma NoLogNoDifference(pol: Policy, b: Bundle, p: Packet, ctState: u8)
    requires pol.Valid() && Implements(pol, b) && NoLogRules(b)
    ensures ActionFor(pol, p, ctState) == RefContinuing(b, p, ctState)
  {
    LogReadingExactly(pol, b, p, ctState);
  }

  /** A bundle rule for all ingress packets. */
  function AnyIngress(id: string, action: i32): EffectiveRule {
    EffectiveRule(id, DIR_INGRESS, ProtoMatch(PROTO_ANY, [], [], [], [], 0, 0), 0, action, false, 0)
  }

  /** What `Apply` asks of a bundle: it compiles, its values are valid, and all its rules are kept. */
  ghost predicate Accepted(b: Bundle) {
    FitsInt32(b) && NoFailure(b, |b.rules|) && Enforceable(b) && KeptCount(b) == |b.rules|
  }

  /** A rule that compiles, is kept and has valid values. */
  predicate FineRule(o: Option<EffectiveRule>) { !FailRule(o) && !DeadRule(o.value) && ValidRule(o.value) }

  lemma {:induction false} NoneDead(b: Bundle, n: nat)
    requires n <= |b.rules| && forall i | 0 <= i < |b.rules| :: FineRule(b.rules[i])
    ensures DeadIndices(b, n) == []
  {
    if n > 0 { NoneDead(b, n - 1); }
  }

  lemma FineIsAccepted(b: Bundle)
    requires |b.rules| <= 2 && forall i | 0 <= i < |b.rules| :: FineRule(b.rules[i])
    ensures Accepted(b)
  {
    NoneDead(b, |b.rules|);
    forall j: nat | j < |b.rules| ensures !FailsAt(b, j) {}
  }

  /**
   [LOG ingress, DENY ingress], under any printed id: the agent accepts the
   bundle, the datapath then lets an ingress packet in, and the continuing
   reading denies it.
   */
  lemma LogLetsIn(pol: Policy, b: Bundle, u: Uuid, p: Packet, ctState: u8)
    requires b.rules == [Some(AnyIngress(UuidToStr(u), ACTION_LOG)), Some(AnyIngress(UuidToStr(u), ACTION_DENY))]
    requires pol.Valid() && p.direction == DIR_INGRESS
    ensures Accepted(b)
    ensures Implements(pol, b) ==> ActionFor(pol, p, ctState) == ACTION_LOG
    ensures RefContinuing(b, p, ctState) == ACTION_DENY
  {
    UuidRoundTrip(u);
    LogThenDeny(b, UuidToStr(u), p, ctState);
    assert Implements(pol, b) ==> ActionFor(pol, p, ctState) == RefAction(b, p, ctState);
  }

  lemma LogThenDeny(b: Bundle, id: string, p: Packet, ctState: u8)
    requires b.rules == [Some(AnyIngress(id, ACTION_LOG)), Some(AnyIngress(id, ACTION_DENY))]
    requires ParseUuid(id).Some? && p.direction == DIR_INGRESS
    ensures Accepted(b) && RefAction(b, p, ctState) == ACTION_LOG && RefContinuing(b, p, ctState) == ACTION_DENY
  {
    AnyIngressMatches(id, ACTION_LOG, p, ctState);
    AnyIngressMatches(id, ACTION_DENY, p, ctState);
    assert FineRule(b.rules[0]) && FineRule(b.rules[1]);
    FineIsAccepted(b);
    RefFirstUnique(b, 0, p, ctState);
    LoggedThenDenied(b, p, ctState);
  }

  lemma AnyIngressMatches(id: string, action: i32, p: Packet, ctState: u8)
    requires p.direction == DIR_INGRESS && ParseUuid(id).Some? && ACTION_ALLOW <= action <= ACTION_LOG
    ensures RefMatches(AnyIngress(id, action), p, ctState) && FineRule(Some(AnyIngress(id, action)))
  {
  }

  lemma LoggedThenDenied(b: Bundle, p: Packet, ctState: u8)
    requires |b.rules| == 2 && RefMatchesAt(b, 0, p, ctState) && RefMatchesAt(b, 1, p, ctState)
    requires ToU8(b.rules[0].value.action) == ACTION_LOG && ToU8(b.rules[1].value.action) == ACTION_DENY
    ensures RefContinuing(b, p, ctState) == ACTION_DENY
  {
    assert RefFinal(b, 0, p, ctState) == RefFinal(b, 1, p, ctState) == 1;
  }

  // ---------------------------------------------------- the filter on flags

  predicate Bit(x: nat, i: nat) { if i == 0 then x % 2 == 1 else Bit(x / 2, i - 1) }

  /** Bit `i` of the `tcp_flags` of a parsed packet. */
  predicate FlagBit(f: TcpFlags, i: nat) {
    if i == 0 then f.fin else if i == 1 then f.syn else if i == 2 then f.rst
    else if i == 3 then f.psh else if i == 4 then f.ack else i == 5 && f.urg
  }

  /** The bits the mask inspects have the value required. */
  predicate FilterPasses(m: ProtoMatch, f: TcpFlags) {
    forall i | 0 <= i < 32 :: Bit(m.tcpFlagsMask, i) ==> Bit(m.tcpFlagsMatch, i) == FlagBit(f, i)
  }

  /** The filter inspects no flag, and requires no bit that is never set. */
  predicate FilterIsIdle(m: ProtoMatch) {
    forall i | 0 <= i < 32 :: Bit(m.tcpFlagsMask, i) ==> i >= 6 && !Bit(m.tcpFlagsMatch, i)
  }

  lemma IdleExactly(m: ProtoMatch)
    ensures FilterIsIdle(m) <==> forall f :: FilterPasses(m, f)
  {
    if forall f :: FilterPasses(m, f) {
      var all := TcpFlags(true, true, true, true, true, true);
      assert FilterPasses(m, NO_FLAGS) && FilterPasses(m, all);
      forall i | 0 <= i < 32
        ensures Bit(m.tcpFlagsMask, i) ==> i >= 6 && !Bit(m.tcpFlagsMatch, i)
      {
        assert !FlagBit(NO_FLAGS, i) && (i < 6 ==> FlagBit(all, i));
      }
    }
  }

  /** A packet as the datapath sees it. */
  predicate Seen(p: Packet) { OnWire(p) && (p.direction == DIR_INGRESS || p.direction == DIR_EGRESS) }

  predicate FlagMatches(er: EffectiveRule, p: Packet, ctState: u8) {
    RefMatches(er, p, ctState) && FilterPasses(er.criteria, p.flags)
  }

  // Which packets a rule can match, by its fields.

  predicate SideCan(cidrs: seq<ProtoCidr>) { cidrs == [] || exists i | 0 <= i < |cidrs| :: Usable(cidrs[i]) }

  predicate RangeCan(r: ProtoPorts) { r.start <= r.end && r.start <= 65535 }

  predicate PortsCan(ports: seq<ProtoPorts>) { ports == [] || exists i | 0 <= i < |ports| :: RangeCan(ports[i]) }

  function Later(a: nat, b: nat): nat { if a < b then b else a }

  predicate RangesMeet(r: ProtoPorts, q: ProtoPorts) {
    var start := Later(r.start, q.start);
    start <= r.end && start <= q.end && start <= 65535
  }

  /** Some port is in both lists. */
  predicate PortsMeet(a: seq<ProtoPorts>, b: seq<ProtoPorts>) {
    if a == [] then PortsCan(b)
    else if b == [] then PortsCan(a)
    else exists i, j | 0 <= i < |a| && 0 <= j < |b| :: RangesMeet(a[i], b[j])
  }

  predicate AnyProtocol(proto: u8) { proto == 0 || proto == PROTO_ANY }

  /** Addresses and ports as a rule of the protocol needs them: ICMP has one port field, IPv6 no addresses. */
  predicate FieldsCan(m: ProtoMatch, proto: u8) {
    && (if proto == PROTO_ICMPV6 then m.srcCidrs == [] && m.dstCidrs == [] else SideCan(m.srcCidrs) && SideCan(m.dstCidrs))
    && (if proto == PROTO_ICMP || proto == PROTO_ICMPV6 then PortsMeet(m.srcPorts, m.dstPorts)
        else PortsCan(m.srcPorts) && PortsCan(m.dstPorts))
  }

  /** The rule can match a TCP packet, or one of another protocol. */
  predicate CanMatch(er: EffectiveRule, tcp: bool) {
    var proto := ToU8(er.criteria.protocol);
    && (ToU8(er.direction) == DIR_INGRESS || ToU8(er.direction) == DIR_EGRESS)
    && (AnyProtocol(proto) || (if tcp then proto == PROTO_TCP else PROTO_UDP <= proto <= PROTO_ICMPV6))
    && FieldsCan(er.criteria, proto)
    && ToU8(er.state) != CT_RELATED
  }

  ghost predicate MatchesSome(er: EffectiveRule, tcp: bool) {
    exists p: Packet, ctState: u8 :: Seen(p) && (p.proto == PROTO_TCP) == tcp && RefMatches(er, p, ctState)
  }

  lemma SideCanExactly(cidrs: seq<ProtoCidr>) returns (w: u32)
    ensures SideCan(cidrs) ==> SideHolds(cidrs, false, DecodeIp4(w))
    ensures forall ip, isIpv6 :: SideHolds(cidrs, isIpv6, ip) ==> SideCan(cidrs) && (isIpv6 ==> cidrs == [])
  {
    w := 0;
    if cidrs != [] && SideCan(cidrs) {
      var i :| 0 <= i < |cidrs| && Usable(cidrs[i]);
      var ip := To4(cidrs[i].ip).value;
      w := EncodeIp4(ip);
      DecodeEncode(ip);
      assert CidrHolds(cidrs[i], DecodeIp4(w));
    }
  }

  lemma PortsCanExactly(ports: seq<ProtoPorts>) returns (port: u16)
    ensures PortsCan(ports) ==> PortsHold(ports, port)
    ensures forall q: u16 :: PortsHold(ports, q) ==> PortsCan(ports)
  {
    port := 0;
    if ports != [] && PortsCan(ports) {
      var i :| 0 <= i < |ports| && RangeCan(ports[i]);
      port := ports[i].start;
    }
    forall q: u16 | PortsHold(ports, q) ensures PortsCan(ports) {
      if ports != [] {
        var i :| 0 <= i < |ports| && ports[i].start <= q <= ports[i].end;
        assert RangeCan(ports[i]);
      }
    }
  }

  lemma PortsMeetExactly(a: seq<ProtoPorts>, b: seq<ProtoPorts>) returns (port: u16)
    ensures PortsMeet(a, b) ==> PortsHold(a, port) && PortsHold(b, port)
    ensures forall q: u16 :: PortsHold(a, q) && PortsHold(b, q) ==> PortsMeet(a, b)
  {
    port := PortsCanExactly(if a == [] then b else a);
    if a != [] && b != [] && PortsMeet(a, b) {
      var i, j :| 0 <= i < |a| && 0 <= j < |b| && RangesMeet(a[i], b[j]);
      port := Later(a[i].start, b[j].start);
    }
    forall q: u16 | PortsHold(a, q) && PortsHold(b, q) ensures PortsMeet(a, b) {
      if a != [] && b != [] {
        var i :| 0 <= i < |a| && a[i].start <= q <= a[i].end;
        var j :| 0 <= j < |b| && b[j].start <= q <= b[j].end;
        assert RangesMeet(a[i], b[j]);
      }
    }
  }

  lemma MatchedCan(er: EffectiveRule, p: Packet, ctState: u8)
    requires Seen(p) && RefMatches(er, p, ctState)
    ensures CanMatch(er, p.proto == PROTO_TCP)
  {
    var m := er.criteria;
    var w := SideCanExactly(m.srcCidrs);
    w := SideCanExactly(m.dstCidrs);
    var q := PortsCanExactly(m.srcPorts);
    q := PortsCanExactly(m.dstPorts);
    q := PortsMeetExactly(m.srcPorts, m.dstPorts);
  }

  /** A packet of the rule's direction with chosen protocol, addresses and ports. */
  function Sample(er: EffectiveRule, proto: u8, src: u32, dst: u32, sport: u16, dport: u16): Packet {
    var p := Packet(src, dst, sport, dport, 0, NO_FLAGS, 0, 0, proto, ToU8(er.direction), proto == PROTO_ICMPV6);
    if proto == PROTO_ICMP then p.(icmpType := 8) else if proto == PROTO_ICMPV6 then p.(icmpType := 128) else p
  }

  /** The protocol of a sample: the rule's own, or one that a rule for any protocol matches. */
  function SampleProto(er: EffectiveRule, tcp: bool): u8 {
    var proto := ToU8(er.criteria.protocol);
    if tcp then PROTO_TCP else if AnyProtocol(proto) then PROTO_UDP else proto
  }

  lemma SamplePorts(m: ProtoMatch, proto: u8) returns (sport: u16, dport: u16)
    requires FieldsCan(m, proto)
    ensures PortsHold(m.srcPorts, sport) && PortsHold(m.dstPorts, dport)
    ensures proto == PROTO_ICMP || proto == PROTO_ICMPV6 ==> sport == dport
  {
    if proto == PROTO_ICMP || proto == PROTO_ICMPV6 {
      sport := PortsMeetExactly(m.srcPorts, m.dstPorts);
      dport := sport;
    } else {
      sport := PortsCanExactly(m.srcPorts);
      dport := PortsCanExactly(m.dstPorts);
    }
  }

  lemma SampleAddresses(m: ProtoMatch, proto: u8) returns (src: u32, dst: u32)
    requires FieldsCan(m, proto)
    ensures SideHolds(m.srcCidrs, proto == PROTO_ICMPV6, DecodeIp4(src))
    ensures SideHolds(m.dstCidrs, proto == PROTO_ICMPV6, DecodeIp4(dst))
    ensures proto == PROTO_ICMPV6 ==> src == dst == 0
  {
    src, dst := 0, 0;
    if proto != PROTO_ICMPV6 {
      src := SideCanExactly(m.srcCidrs);
      dst := SideCanExactly(m.dstCidrs);
    }
  }

  lemma CanIsMatched(er: EffectiveRule, tcp: bool)
    requires CanMatch(er, tcp)
    ensures MatchesSome(er, tcp)
  {
    var proto := ToU8(er.criteria.protocol);
    var src, dst := SampleAddresses(er.criteria, proto);
    var sport, dport := SamplePorts(er.criteria, proto);
    var p := Sample(er, SampleProto(er, tcp), src, dst, sport, dport);
    SampleIsSeen(er, SampleProto(er, tcp), src, dst, sport, dport);
    assert RefMatches(er, p, ToU8(er.state));
  }

  lemma SampleIsSeen(er: EffectiveRule, proto: u8, src: u32, dst: u32, sport: u16, dport: u16)
    requires PROTO_TCP <= proto <= PROTO_ICMPV6 && (ToU8(er.direction) == DIR_INGRESS || ToU8(er.direction) == DIR_EGRESS)
    requires proto == PROTO_ICMP || proto == PROTO_ICMPV6 ==> sport == dport
    requires proto == PROTO_ICMPV6 ==> src == dst == 0
    ensures Seen(Sample(er, proto, src, dst, sport, dport))
  {
  }

  /** The fields of a rule say exactly whether it matches any packet. */
  lemma CanMatchExactly(er: EffectiveRule, tcp: bool)
    ensures MatchesSome(er, tcp) <==> CanMatch(er, tcp)
  {
    if MatchesSome(er, tcp) {
      var p: Packet, ctState: u8 :| Seen(p) && (p.proto == PROTO_TCP) == tcp && RefMatches(er, p, ctState);
      MatchedCan(er, p, ctState);
    }
    if CanMatch(er, tcp) { CanIsMatched(er, tcp); }
  }

  /** Leaving the filter out changes no decision of the rule. */
  ghost predicate FlagsDoNotMatter(er: EffectiveRule) {
    forall p: Packet, ctState: u8 | Seen(p) :: FlagMatches(er, p, ctState) == RefMatches(er, p, ctState)
  }

  /**
   The agent leaves the filter out.  That changes no decision of a rule exactly
   when the filter is idle if the rule can match TCP, and asks for no bit if it
   can match anything else; its fields say whether it can.
   */
  lemma FlagsIgnoredExactly(er: EffectiveRule)
    ensures FlagsDoNotMatter(er)
       <==> && (CanMatch(er, true) ==> FilterIsIdle(er.criteria))
            && (CanMatch(er, false) ==> FilterPasses(er.criteria, NO_FLAGS))
  {
    CanMatchExactly(er, true);
    CanMatchExactly(er, false);
    IdleExactly(er.criteria);
    if FlagsDoNotMatter(er) && MatchesSome(er, true) {
      var p: Packet, ctState: u8 :| Seen(p) && p.proto == PROTO_TCP && RefMatches(er, p, ctState);
      forall f ensures FilterPasses(er.criteria, f) {
        assert FlagMatches(er, p.(flags := f), ctState) == RefMatches(er, p.(flags := f), ctState);
      }
    }
  }

  /** Allow TCP connections to be opened: the filter asks for SYN. */
  function SynOnly(id: string): EffectiveRule {
    EffectiveRule(id, DIR_INGRESS, ProtoMatch(PROTO_TCP, [], [], [], [], 2, 2), 0, ACTION_ALLOW, false, 0)
  }

  lemma SynIsAsked(id: string, f: TcpFlags)
    requires !f.syn
    ensures !FilterPasses(SynOnly(id).criteria, f) && !FilterIsIdle(SynOnly(id).criteria)
  {
    assert Bit(1, 0);
    assert Bit(2, 1);
  }

  lemma SynRule(id: string, p: Packet, ctState: u8)
    requires ParseUuid(id).Some? && p.direction == DIR_INGRESS && p.proto == PROTO_TCP
    ensures RefMatches(SynOnly(id), p, ctState) && FineRule(Some(SynOnly(id))) && CanMatch(SynOnly(id), true)
  {
  }

  /**
   [ALLOW ingress TCP with SYN], ingress denied otherwise, under any printed id:
   the agent accepts the bundle, and the datapath then lets in TCP packets
   without SYN too, which the rule with its filter does not match.
   */
  lemma FlagsLetIn(pol: Policy, b: Bundle, u: Uuid, p: Packet, ctState: u8)
    requires b.rules == [Some(SynOnly(UuidToStr(u)))] && b.ingress == ACTION_DENY && pol.Valid()
    requires p.direction == DIR_INGRESS && p.proto == PROTO_TCP && !p.flags.syn
    ensures Accepted(b) && !FlagsDoNotMatter(b.rules[0].value)
    ensures !FlagMatches(b.rules[0].value, p, ctState)
    ensures Implements(pol, b) ==> ActionFor(pol, p, ctState) == ACTION_ALLOW
  {
    var id := UuidToStr(u);
    UuidRoundTrip(u);
    SynRule(id, p, ctState);
    SynIsAsked(id, p.flags);
    FlagsIgnoredExactly(b.rules[0].value);
    FineIsAccepted(b);
    RefFirstUnique(b, 0, p, ctState);
    assert Implements(pol, b) ==> ActionFor(pol, p, ctState) == RefAction(b, p, ctState);
  }
}
