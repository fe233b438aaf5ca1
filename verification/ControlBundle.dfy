/**
 From an effective ruleset to a bundle, and the path from the control plane's
 tables to a packet's verdict on the host.
 */
module ControlBundle {
  import opened Types
  import opened Packets
  import opened Address
  import opened Matcher
  import opened Datapath
  import opened Loader
  import opened Proto
  import opened Store
  import opened Ruleset
  import opened Uuids
  import opened BundleCompiler
  import opened PolicyHandler

  // ---------------------------------------------------- names to enum values

  function ProtoProtocol(s: ProtocolName): i32 {
    match s
    case Tcp => PROTO_TCP
    case Udp => PROTO_UDP
    case Icmp => PROTO_ICMP
    case Icmpv6 => PROTO_ICMPV6
    case OtherProtocol(_) => PROTO_ANY
  }

  function ProtoAction(s: ActionName): i32 {
    match s
    case Allow => ACTION_ALLOW
    case Log => ACTION_LOG
    case _ => ACTION_DENY
  }

  function ProtoDirection(s: DirectionName): i32 { if s.Egress? then DIR_EGRESS else DIR_INGRESS }

  /** A missing state reads as the empty text. */
  function ProtoState(s: Option<StateName>): i32 {
    match s
    case Some(New) => CT_NEW
    case Some(Established) => CT_ESTABLISHED
    case Some(Related) => CT_RELATED
    case Some(Invalid) => CT_INVALID
    case _ => CT_NONE
  }

  // ----------------------------------------------------------- the bundle

  /** DENY is logged unless silent, LOG always, ALLOW on request. */
  predicate LogWanted(r: Rule) {
    r.log || ProtoAction(r.action) == ACTION_LOG || (ProtoAction(r.action) == ACTION_DENY && !r.silent)
  }

  function EffectiveOf(rr: Resolved): EffectiveRule {
    EffectiveRule(rr.rule.id, ProtoDirection(rr.rule.direction),
                  ProtoMatch(ProtoProtocol(rr.spec.protocol), rr.src, rr.dst, rr.srcPorts, rr.dstPorts,
                             rr.spec.tcpFlagsMatch, rr.spec.tcpFlagsMask),
                  ProtoState(rr.rule.state), ProtoAction(rr.rule.action), LogWanted(rr.rule), 0)
  }

  /** The bundle of a ruleset: same rules, same order, and the conntrack flag as needed. */
  ghost predicate IsBundleOf(b: Bundle, rs: EffectiveRuleset) {
    && |b.rules| == |rs.rules| && (forall i | 0 <= i < |b.rules| :: b.rules[i] == Some(EffectiveOf(rs.rules[i])))
    && b.ingress == ProtoAction(rs.ingress) && b.egress == ProtoAction(rs.egress)
    && (b.requiresConntrack <==> exists i | 0 <= i < |rs.rules| :: ProtoState(rs.rules[i].rule.state) != CT_NONE)
  }

  method BuildProtoBundle(rs: EffectiveRuleset, generation: int) returns (b: Bundle)
    ensures IsBundleOf(b, rs) && b.generation == generation
  {
    var rules: seq<Option<EffectiveRule>> := [];
    var requiresCT := false;
    for i := 0 to |rs.rules|
      invariant |rules| == i && forall j | 0 <= j < i :: rules[j] == Some(EffectiveOf(rs.rules[j]))
      invariant requiresCT <==> exists j | 0 <= j < i :: ProtoState(rs.rules[j].rule.state) != CT_NONE
    {
      var rr := rs.rules[i];
      var state := ProtoState(rr.rule.state);
      if state != CT_NONE && state != 0 { requiresCT := true; }
      var action := ProtoAction(rr.rule.action);
      var logEnabled := rr.rule.log;
      if action == ACTION_LOG || (action == ACTION_DENY && !rr.rule.silent) { logEnabled := true; }
      rules := rules + [Some(EffectiveRule(rr.rule.id, ProtoDirection(rr.rule.direction),
                                           ProtoMatch(ProtoProtocol(rr.spec.protocol), rr.src, rr.dst, rr.srcPorts, rr.dstPorts,
                                                      rr.spec.tcpFlagsMatch, rr.spec.tcpFlagsMask),
                                           state, action, logEnabled, 0))];
    }
    return Bundle(generation, rules, ProtoAction(rs.ingress), ProtoAction(rs.egress), requiresCT);
  }

  /** Conntrack is switched on exactly when some rule has a state predicate. */
  lemma RequiresConntrackExactly(b: Bundle, rs: EffectiveRuleset)
    requires IsBundleOf(b, rs)
    ensures !b.requiresConntrack <==> StatelessBundle(b)
  {
    forall i | 0 <= i < |b.rules|
      ensures b.rules[i].Some?
      ensures ToU8(b.rules[i].value.state) == 0 || ToU8(b.rules[i].value.state) == CT_NONE
         <==> ProtoState(rs.rules[i].rule.state) == CT_NONE
    {
      StateFits(rs.rules[i].rule.state);
    }
  }

  lemma StateFits(s: Option<StateName>)
    ensures ToU8(ProtoState(s)) == ProtoState(s) != 0
  {
  }

  /** The text of a rule id column. */
  ghost predicate Printed(id: string) { exists u: Uuid :: id == UuidToStr(u) }

  /** A bundle the control plane builds is rejected by the agent's compiler only for its port ranges. */
  lemma ControlBundleFailsExactly(b: Bundle, rs: EffectiveRuleset, i: nat)
    requires IsBundleOf(b, rs) && i < |b.rules| && Printed(rs.rules[i].rule.id)
    ensures FailRule(b.rules[i]) <==>
            !DeadSide(rs.rules[i].src) && !DeadSide(rs.rules[i].dst)
            && !(PortsOk(rs.rules[i].srcPorts) && PortsOk(rs.rules[i].dstPorts))
  {
    ControlIdParses(rs.rules[i].rule.id);
    ActionFits(rs.rules[i].rule.action);
    assert b.rules[i] == Some(EffectiveOf(rs.rules[i]));
  }

  lemma ControlIdParses(id: string)
    requires Printed(id)
    ensures ParseUuid(id).Some?
  {
    var u: Uuid :| id == UuidToStr(u);
    UuidRoundTrip(u);
  }

  lemma ControlRuleValid(rr: Resolved)
    ensures ValidRule(EffectiveOf(rr))
  {
  }

  /** The ports of a rule fit, as far as any packet can reach it. */
  predicate PortsFit(rr: Resolved) {
    DeadSide(rr.src) || DeadSide(rr.dst) || (PortsOk(rr.srcPorts) && PortsOk(rr.dstPorts))
  }

  /**
   The agent's compiler and validation accept a control-plane bundle exactly
   when the ports fit.  `Handler.Apply` then fails only for the number of kept
   rules or for a kernel write.
   */
  lemma ControlBundleAccepted(b: Bundle, rs: EffectiveRuleset)
    requires IsBundleOf(b, rs) && forall i | 0 <= i < |rs.rules| :: Printed(rs.rules[i].rule.id)
    ensures NoFailure(b, |b.rules|) <==> forall i | 0 <= i < |rs.rules| :: PortsFit(rs.rules[i])
    ensures Enforceable(b)
  {
    forall i: nat | i < |b.rules| ensures FailsAt(b, i) <==> !PortsFit(rs.rules[i]) {
      ControlBundleFailsExactly(b, rs, i);
    }
    forall i | 0 <= i < |b.rules| ensures b.rules[i].Some? && ValidRule(b.rules[i].value) {
      ControlRuleValid(rs.rules[i]);
    }
  }

  // ------------------------------------------------------------- silent rules

  lemma ActionFits(s: ActionName)
    ensures ToU8(ProtoAction(s)) == ProtoAction(s)
  {
  }

  /**
   The bundle asks for no log on silent DENY rules, the datapath logs every
   DENY: the two agree exactly when the rule is not a silent, unlogged DENY.
   */
  lemma SilentRespectedExactly(rr: Resolved, s: RuleSpec, sets: IpSets)
    requires RuleCompiled(EffectiveOf(rr), s, sets) && Convertible(s)
    ensures Logs(Converted(s)) == LogWanted(rr.rule) <==>
            !(ProtoAction(rr.rule.action) == ACTION_DENY && rr.rule.silent && !rr.rule.log)
  {
    ActionFits(rr.rule.action);
  }

  /** A silent DENY of all ingress packets that asks for no log. */
  function SilentDeny(u: Uuid, p: PolicyRow): Resolved {
    var m := MatchSpec(OtherProtocol(""), "", "", "", "", "", "", [], [], [], [], 0, 0);
    Resolved(Rule(UuidToStr(u), p.id, "", 0, Ingress, Some(m), None, Deny, false, true), p, m, [], [], [], [])
  }

  function SilentSpec(u: Uuid): RuleSpec {
    RuleSpec(u, 0, ACTION_DENY, false, 0, SpecMatch(PROTO_ANY, DIR_INGRESS, CT_NONE, [], [], [], [], 0, 0))
  }

  /** The agent compiles and accepts the rule, and the datapath logs what it denies. */
  lemma SilentDenyIsLogged(t: Tables, u: Uuid, p: PolicyRow)
    ensures ResolveRule(t, p, SilentDeny(u, p).rule) == Some(SilentDeny(u, p))
    ensures RuleCompiled(EffectiveOf(SilentDeny(u, p)), SilentSpec(u), map[]) && Convertible(SilentSpec(u))
    ensures Logs(Converted(SilentSpec(u))) && !LogWanted(SilentDeny(u, p).rule)
  {
    UuidRoundTrip(u);
    assert ToPorts([]) == [];
  }

  // ------------------------------------------------- restrictions that are lost

  /** One address side of a stored rule restricts addresses. */
  predicate Restricted(ipSet: string, hostSet: string, inline: seq<Option<ProtoCidr>>) {
    ipSet != "" || hostSet != "" || inline != []
  }

  /** The group holds no address: an empty set, a set of ports, or hosts none of which has one. */
  predicate HoldsNoAddress(t: Tables, id: string) {
    id in t.groups && match t.groups[id]
      case IpSet(cidrs) => cidrs == []
      case PortSet(ports) => AllParsed(ports).Some?
      case HostSet(sel) => forall h | h in t.hosts && Selected(sel, h) :: h.ip.None?
      case Unreadable => false
  }

  /** The restriction comes out as an empty list. */
  predicate RestrictionLost(t: Tables, ipSet: string, hostSet: string, inline: seq<Option<ProtoCidr>>) {
    if ipSet != "" then HoldsNoAddress(t, ipSet)
    else if hostSet != "" then HoldsNoAddress(t, hostSet)
    else exists i | 0 <= i < |inline| :: inline[i].None?
  }

  lemma {:induction false} AllParsedExactly<T>(s: seq<Option<T>>)
    ensures AllParsed(s).None? <==> exists i | 0 <= i < |s| :: s[i].None?
    ensures AllParsed(s).Some? ==> |AllParsed(s).value| == |s|
  {
    if s != [] {
      AllParsedExactly(s[1..]);
      assert forall i | 1 <= i < |s| :: s[i] == s[1..][i - 1];
    }
  }

  lemma NoAddressExactly(t: Tables, id: string)
    ensures ResolveGroup(t, id).Some? && ResolveGroup(t, id).value.cidrs == [] <==> HoldsNoAddress(t, id)
  {
    if id in t.groups {
      match t.groups[id]
      case IpSet(cidrs) => AllParsedExactly(cidrs);
      case HostSet(sel) => NoHostAddress(t.hosts, sel);
      case _ =>
    }
  }

  lemma NoHostAddress(hosts: seq<Host>, sel: Selector)
    ensures HostCidrs(Filtered(hosts, sel)) == [] <==> forall h | h in hosts && Selected(sel, h) :: h.ip.None?
  {
    var picked := Filtered(hosts, sel);
    var cidrs := HostCidrs(picked);
    if cidrs != [] {
      HostCidrsMembers(picked, cidrs[0]);
      var h :| h in picked && h.ip == Some(cidrs[0]);
      FilteredMembers(hosts, sel, h);
    }
    if h :| h in hosts && Selected(sel, h) && h.ip.Some? {
      FilteredMembers(hosts, sel, h);
      HostCidrsMembers(picked, h.ip.value);
    }
  }

  /** A list of addresses lets every packet pass exactly when it is empty. */
  lemma OpenExactly(cidrs: seq<ProtoCidr>)
    ensures (forall isIpv6: bool, ip: Ip4 :: SideHolds(cidrs, isIpv6, ip)) <==> cidrs == []
  {
    assert cidrs != [] ==> !SideHolds(cidrs, true, Ip4(0, 0, 0, 0));
  }

  /**
   An empty list means any address.  A side of a stored rule that resolves lets
   every packet pass exactly when it restricts nothing or its restriction is
   lost: a group without addresses, or an inline list with an unreadable text.
   */
  lemma RestrictionLostExactly(t: Tables, ipSet: string, hostSet: string, inline: seq<Option<ProtoCidr>>)
    requires ResolveSide(t, ipSet, hostSet, inline).Some?
    ensures (forall isIpv6: bool, ip: Ip4 :: SideHolds(ResolveSide(t, ipSet, hostSet, inline).value, isIpv6, ip))
       <==> !Restricted(ipSet, hostSet, inline) || RestrictionLost(t, ipSet, hostSet, inline)
  {
    OpenExactly(ResolveSide(t, ipSet, hostSet, inline).value);
    NoAddressExactly(t, ipSet);
    NoAddressExactly(t, hostSet);
    AllParsedExactly(inline);
  }

  /** One unreadable text among readable ones: the side then holds for every address. */
  lemma BadTextOpensSide(t: Tables, c: ProtoCidr, isIpv6: bool, ip: Ip4)
    ensures ResolveSide(t, "", "", [Some(c), None]).Some?
    ensures SideHolds(ResolveSide(t, "", "", [Some(c), None]).value, isIpv6, ip)
    ensures Restricted("", "", [Some(c), None])
  {
    assert [Some(c), None][1].None?;
    RestrictionLostExactly(t, "", "", [Some(c), None]);
  }

  // ------------------------------------------------- from tables to verdicts

  predicate RuleHolds(rr: Resolved, p: Packet, ctState: u8) { RefMatches(EffectiveOf(rr), p, ctState) }

  /** `rr` is the matching rule of least (policy priority, rule priority, id) among those that feed the host. */
  ghost predicate LeastMatch(t: Tables, labels: Labels, rr: Resolved, p: Packet, ctState: u8) {
    && Feeds(t, t.policies, labels, rr) && RuleHolds(rr, p, ctState)
    && forall q | Feeds(t, t.policies, labels, q) && RuleHolds(q, p, ctState) :: !KeyLess(KeyOf(q), KeyOf(rr))
  }

  lemma LeastMatchIsFirst(t: Tables, labels: Labels, b: Bundle, rr: Resolved, p: Packet, ctState: u8)
    requires UniqueIds(t) && Compile(t, labels).Some? && IsBundleOf(b, Compile(t, labels).value)
    requires LeastMatch(t, labels, rr, p, ctState)
    ensures var i := RefFirst(b, 0, p, ctState);
            i < |b.rules| && b.rules[i] == Some(EffectiveOf(rr))
  {
    CompileExactly(t, labels);
    var rules := Compile(t, labels).value.rules;
    assert rr in rules;
    var k :| 0 <= k < |rules| && rules[k] == rr;
    forall j: nat | j < k ensures !RefMatchesAt(b, j, p, ctState) {
      assert rules[j] in rules && KeyLess(KeyOf(rules[j]), KeyOf(rules[k]));
      assert !RuleHolds(rules[j], p, ctState);
    }
    RefFirstUnique(b, k, p, ctState);
  }

  /**
   End to end: on a host whose datapath implements the bundle built from the
   tables, a packet gets the action of the least matching rule, in (policy
   priority, rule priority, id) order, of the policies that select the host.
   */
  lemma VerdictOfLeastMatch(t: Tables, labels: Labels, b: Bundle, pol: Policy, rr: Resolved, p: Packet, ctState: u8)
    requires UniqueIds(t) && Compile(t, labels).Some? && IsBundleOf(b, Compile(t, labels).value)
    requires pol.Valid() && Implements(pol, b)
    requires LeastMatch(t, labels, rr, p, ctState)
    ensures ActionFor(pol, p, ctState) == ProtoAction(rr.rule.action)
  {
    LeastMatchIsFirst(t, labels, b, rr, p, ctState);
    ActionFits(rr.rule.action);
    assert ActionFor(pol, p, ctState) == RefAction(b, p, ctState);
  }

  /** When no rule that feeds the host matches, the tenant's default for the direction decides. */
  lemma VerdictOfDefault(t: Tables, labels: Labels, b: Bundle, pol: Policy, p: Packet, ctState: u8)
    requires UniqueIds(t) && Compile(t, labels).Some? && IsBundleOf(b, Compile(t, labels).value)
    requires pol.Valid() && Implements(pol, b)
    requires forall q | Feeds(t, t.policies, labels, q) :: !RuleHolds(q, p, ctState)
    ensures ActionFor(pol, p, ctState) ==
            ProtoAction(if p.direction == DIR_INGRESS then t.defaultIngress else t.defaultEgress)
  {
    CompileExactly(t, labels);
    var rules := Compile(t, labels).value.rules;
    var i := RefFirst(b, 0, p, ctState);
    if i < |b.rules| {
      assert rules[i] in rules && b.rules[i] == Some(EffectiveOf(rules[i]));
      assert RuleHolds(rules[i], p, ctState);
      assert false;
    }
    ActionFits(t.defaultIngress);
    ActionFits(t.defaultEgress);
    assert ActionFor(pol, p, ctState) == RefAction(b, p, ctState);
  }

  /** If any rule that feeds the host matches, there is a least one. */
  lemma LeastMatchExists(t: Tables, labels: Labels, q: Resolved, p: Packet, ctState: u8) returns (rr: Resolved)
    requires UniqueIds(t) && Compile(t, labels).Some?
    requires Feeds(t, t.policies, labels, q) && RuleHolds(q, p, ctState)
    ensures LeastMatch(t, labels, rr, p, ctState)
  {
    CompileExactly(t, labels);
    var rules := Compile(t, labels).value.rules;
    assert q in rules;
    var k := FirstHolding(rules, p, ctState);
    rr := rules[k];
    assert rr in rules;
    forall x | Feeds(t, t.policies, labels, x) && RuleHolds(x, p, ctState)
      ensures !KeyLess(KeyOf(x), KeyOf(rr))
    {
      FirstIsLeast(rules, k, x, p, ctState);
    }
  }

  lemma FirstIsLeast(rules: seq<Resolved>, k: nat, x: Resolved, p: Packet, ctState: u8)
    requires Ordered(rules) && k < |rules| && forall j | 0 <= j < k :: !RuleHolds(rules[j], p, ctState)
    requires x in rules && RuleHolds(x, p, ctState)
    ensures !KeyLess(KeyOf(x), KeyOf(rules[k]))
  {
    var j :| 0 <= j < |rules| && rules[j] == x;
    KeyTrichotomy(KeyOf(x), KeyOf(rules[k]));
  }

  lemma {:induction false} FirstHolding(rules: seq<Resolved>, p: Packet, ctState: u8) returns (k: nat)
    requires exists q :: q in rules && RuleHolds(q, p, ctState)
    ensures k < |rules| && RuleHolds(rules[k], p, ctState) && forall j | 0 <= j < k :: !RuleHolds(rules[j], p, ctState)
    decreases |rules|
  {
    if RuleHolds(rules[0], p, ctState) {
      k := 0;
    } else {
      assert rules == [rules[0]] + rules[1..];
      k := FirstHolding(rules[1..], p, ctState);
      k := k + 1;
    }
  }

  /** Every packet: the least matching rule decides, or no rule matches and the default does. */
  lemma EveryVerdict(t: Tables, labels: Labels, b: Bundle, pol: Policy, p: Packet, ctState: u8)
    requires UniqueIds(t) && Compile(t, labels).Some? && IsBundleOf(b, Compile(t, labels).value)
    requires pol.Valid() && Implements(pol, b)
    ensures (exists rr :: LeastMatch(t, labels, rr, p, ctState) && ActionFor(pol, p, ctState) == ProtoAction(rr.rule.action))
         || ((forall q | Feeds(t, t.policies, labels, q) :: !RuleHolds(q, p, ctState))
             && ActionFor(pol, p, ctState) ==
                ProtoAction(if p.direction == DIR_INGRESS then t.defaultIngress else t.defaultEgress))
  {
    if q :| Feeds(t, t.policies, labels, q) && RuleHolds(q, p, ctState) {
      var rr := LeastMatchExists(t, labels, q, p, ctState);
      VerdictOfLeastMatch(t, labels, b, pol, rr, p, ctState);
    } else {
      VerdictOfDefault(t, labels, b, pol, p, ctState);
    }
  }

  /** A rule matches whatever the order of its addresses. */
  lemma AlikeHold(a: Resolved, b: Resolved, p: Packet, ctState: u8)
    requires Alike(a, b)
    ensures RuleHolds(a, p, ctState) <==> RuleHolds(b, p, ctState)
  {
    SideAlike(a.src, b.src, p.isIpv6, DecodeIp4(p.srcIp));
    SideAlike(a.dst, b.dst, p.isIpv6, DecodeIp4(p.dstIp));
    assert a.rule == Stripped(a).rule == b.rule && a.spec == Stripped(a).spec == b.spec;
    assert a.srcPorts == Stripped(a).srcPorts == b.srcPorts && a.dstPorts == Stripped(a).dstPorts == b.dstPorts;
  }

  lemma SideAlike(a: seq<ProtoCidr>, b: seq<ProtoCidr>, isIpv6: bool, ip: Ip4)
    requires SameCidrs(a, b)
    ensures SideHolds(a, isIpv6, ip) <==> SideHolds(b, isIpv6, ip)
  {
    AnyHoldsAlike(a, b, ip);
    AnyHoldsAlike(b, a, ip);
    assert a != [] ==> a[0] in b;
    assert b != [] ==> b[0] in a;
  }

  lemma AnyHoldsAlike(a: seq<ProtoCidr>, b: seq<ProtoCidr>, ip: Ip4)
    requires SameCidrs(a, b)
    ensures AnyHolds(a, ip) ==> AnyHolds(b, ip)
  {
    if i :| 0 <= i < |a| && CidrHolds(a[i], ip) {
      assert a[i] in b;
      var j :| 0 <= j < |b| && b[j] == a[i];
      assert CidrHolds(b[j], ip);
    }
  }

  /** The like of a least match is a least match. */
  lemma LeastMatchAlike(t: Tables, u: Tables, labels: Labels, rr: Resolved, p: Packet, ctState: u8) returns (qq: Resolved)
    requires SameContents(t, u) && LeastMatch(t, labels, rr, p, ctState)
    ensures LeastMatch(u, labels, qq, p, ctState) && qq.rule == rr.rule
  {
    qq := FeedsAlike(t, u, labels, rr);
    assert rr.rule == Stripped(rr).rule == qq.rule && rr.policy == Stripped(rr).policy == qq.policy;
    AlikeHold(rr, qq, p, ctState);
    forall x | Feeds(u, u.policies, labels, x) && RuleHolds(x, p, ctState)
      ensures !KeyLess(KeyOf(x), KeyOf(qq))
    {
      SameContentsBack(t, u);
      var y := FeedsAlike(u, t, labels, x);
      AlikeHold(x, y, p, ctState);
      assert KeyOf(y) == KeyOf(Stripped(y)) == KeyOf(Stripped(x)) == KeyOf(x);
    }
  }

  lemma NoMatchAlike(t: Tables, u: Tables, labels: Labels, p: Packet, ctState: u8)
    requires SameContents(t, u) && forall q | Feeds(t, t.policies, labels, q) :: !RuleHolds(q, p, ctState)
    ensures forall q | Feeds(u, u.policies, labels, q) :: !RuleHolds(q, p, ctState)
  {
    forall x | Feeds(u, u.policies, labels, x) ensures !RuleHolds(x, p, ctState) {
      SameContentsBack(t, u);
      var y := FeedsAlike(u, t, labels, x);
      AlikeHold(x, y, p, ctState);
    }
  }

  /** Any two listings of the same tables, hosts included, lead to the same verdict for every packet. */
  lemma SameTablesSameVerdicts(t: Tables, u: Tables, labels: Labels, b: Bundle, c: Bundle, pol: Policy, pol': Policy,
                               p: Packet, ctState: u8)
    requires UniqueIds(t) && UniqueIds(u) && SameContents(t, u)
    requires Compile(t, labels).Some? && IsBundleOf(b, Compile(t, labels).value)
    requires Compile(u, labels).Some? && IsBundleOf(c, Compile(u, labels).value)
    requires pol.Valid() && pol'.Valid() && Implements(pol, b) && Implements(pol', c)
    ensures ActionFor(pol, p, ctState) == ActionFor(pol', p, ctState)
  {
    if q :| Feeds(t, t.policies, labels, q) && RuleHolds(q, p, ctState) {
      var rr := LeastMatchExists(t, labels, q, p, ctState);
      var qq := LeastMatchAlike(t, u, labels, rr, p, ctState);
      VerdictOfLeastMatch(t, labels, b, pol, rr, p, ctState);
      VerdictOfLeastMatch(u, labels, c, pol', qq, p, ctState);
    } else {
      NoMatchAlike(t, u, labels, p, ctState);
      VerdictOfDefault(t, labels, b, pol, p, ctState);
      VerdictOfDefault(u, labels, c, pol', p, ctState);
    }
  }
}
