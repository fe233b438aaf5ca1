/**
 The agent's bundle compiler: from the rules of a bundle to rule
 specifications, spilled address sets and configuration, and the proof that a
 compiled bundle, once converted and published, decides every packet as the
 bundle's own rules do.
 */
module BundleCompiler {
  import opened Types
  import opened Packets
  import opened Address
  import opened Matcher
  import opened Loader
  import opened Proto
  import opened Uuids

  // ------------------------------------------------- the bundle's own meaning

  /** Prefixes the agent can enforce: IPv4, with a prefix length that parses. */
  predicate Usable(c: ProtoCidr) { To4(c.ip).Some? && c.prefixLen <= 32 }

  predicate CidrHolds(c: ProtoCidr, ip: Ip4) { Usable(c) && PrefixAgree(To4(c.ip).value, ip, c.prefixLen) }

  predicate AnyHolds(cidrs: seq<ProtoCidr>, ip: Ip4) { exists i | 0 <= i < |cidrs| :: CidrHolds(cidrs[i], ip) }

  /** Address test of one side: no restriction, or an IPv4 packet inside some usable prefix. */
  predicate SideHolds(cidrs: seq<ProtoCidr>, isIpv6: bool, ip: Ip4) {
    cidrs == [] || (!isIpv6 && AnyHolds(cidrs, ip))
  }

  predicate PortsHold(ports: seq<ProtoPorts>, port: u16) {
    ports == [] || exists i | 0 <= i < |ports| :: ports[i].start <= port <= ports[i].end
  }

  /** Reference match of a bundle rule.  TCP flag criteria are not part of it: the agent does not carry them. */
  predicate RefMatches(er: EffectiveRule, p: Packet, ctState: u8) {
    var m := er.criteria;
    && ToU8(er.direction) == p.direction
    && (ToU8(m.protocol) == 0 || ToU8(m.protocol) == PROTO_ANY || ToU8(m.protocol) == p.proto)
    && SideHolds(m.srcCidrs, p.isIpv6, DecodeIp4(p.srcIp))
    && SideHolds(m.dstCidrs, p.isIpv6, DecodeIp4(p.dstIp))
    && PortsHold(m.srcPorts, p.srcPort)
    && PortsHold(m.dstPorts, p.dstPort)
    && (ToU8(er.state) == 0 || StateMatch(ToU8(er.state), ctState))
  }

  predicate RefMatchesAt(b: Bundle, i: nat, p: Packet, ctState: u8)
    requires i < |b.rules|
  {
    b.rules[i].Some? && RefMatches(b.rules[i].value, p, ctState)
  }

  /** The first bundle rule, in order, whose reference match holds. */
  function RefFirst(b: Bundle, i: nat, p: Packet, ctState: u8): (r: nat)
    requires i <= |b.rules|
    ensures i <= r <= |b.rules|
    ensures forall j | i <= j < r :: !RefMatchesAt(b, j, p, ctState)
    ensures r < |b.rules| ==> RefMatchesAt(b, r, p, ctState)
    decreases |b.rules| - i
  {
    if i == |b.rules| || RefMatchesAt(b, i, p, ctState) then i else RefFirst(b, i + 1, p, ctState)
  }

  /** The direction's default; an unspecified default allows. */
  function RefDefault(b: Bundle, p: Packet): u8 {
    var a := ToU8(if p.direction == DIR_INGRESS then b.ingress else b.egress);
    if a == 0 then ACTION_ALLOW else a
  }

  function RefAction(b: Bundle, p: Packet, ctState: u8): u8 {
    var i := RefFirst(b, 0, p, ctState);
    if i < |b.rules| then ToU8(b.rules[i].value.action) else RefDefault(b, p)
  }

  // -------------------------------------------------- compiling one side

  /** `net.ParseCIDR` of a usable prefix: host bits cleared. */
  function ToCidr4(c: ProtoCidr): CIDR4
    requires Usable(c)
  {
    CIDR4(ToSlice(To4(c.ip).value.And(NetMask(c.prefixLen))), c.prefixLen)
  }

  function UsableCidrs(cidrs: seq<ProtoCidr>): seq<CIDR4> {
    if cidrs == [] then []
    else
      var n := |cidrs| - 1;
      UsableCidrs(cidrs[..n]) + (if Usable(cidrs[n]) then [ToCidr4(cidrs[n])] else [])
  }

  lemma ToCidr4Meaning(c: ProtoCidr, ip: Ip4)
    requires Usable(c)
    ensures ValidCidr(ToCidr4(c)) && (Contains(ToCidr4(c), ip) <==> CidrHolds(c, ip))
  {
    MaskingKeepsPrefix(To4(c.ip).value, ip, c.prefixLen);
  }

  lemma AnyContainsAppend(u: seq<CIDR4>, c: CIDR4, ip: Ip4)
    requires AllValid(u) && ValidCidr(c)
    ensures AllValid(u + [c]) && (AnyContains(u + [c], ip) <==> AnyContains(u, ip) || Contains(c, ip))
  {
    var v := u + [c];
    assert forall i | 0 <= i < |u| :: v[i] == u[i];
    assert v[|u|] == c;
  }

  lemma AnyHoldsAppend(s: seq<ProtoCidr>, c: ProtoCidr, ip: Ip4)
    ensures AnyHolds(s + [c], ip) <==> AnyHolds(s, ip) || CidrHolds(c, ip)
  {
    var t := s + [c];
    assert forall i | 0 <= i < |s| :: t[i] == s[i];
    assert t[|s|] == c;
  }

  /** Dropping IPv6 and malformed prefixes and clearing host bits keeps exactly the enforceable addresses. */
  lemma {:induction false} UsableCidrsMeaning(cidrs: seq<ProtoCidr>, ip: Ip4)
    ensures AllValid(UsableCidrs(cidrs)) && (AnyContains(UsableCidrs(cidrs), ip) <==> AnyHolds(cidrs, ip))
  {
    if cidrs != [] {
      var n := |cidrs| - 1;
      var front, c := cidrs[..n], cidrs[n];
      UsableCidrsMeaning(front, ip);
      assert cidrs == front + [c];
      AnyHoldsAppend(front, c, ip);
      if Usable(c) {
        ToCidr4Meaning(c, ip);
        AnyContainsAppend(UsableCidrs(front), ToCidr4(c), ip);
      } else {
        assert UsableCidrs(cidrs) == UsableCidrs(front);
      }
    }
  }

  /** A side that no packet satisfies: prefixes are listed, none is enforceable. */
  predicate DeadSide(cidrs: seq<ProtoCidr>) { cidrs != [] && UsableCidrs(cidrs) == [] }

  predicate DeadRule(er: EffectiveRule) { DeadSide(er.criteria.srcCidrs) || DeadSide(er.criteria.dstCidrs) }

  type IpSets = map<u32, seq<CIDR4>>

  /** How one side of a rule was compiled: unrestricted, inline, or spilled to a set of its own. */
  predicate SideCompiled(cidrs: seq<ProtoCidr>, inline: seq<CIDR4>, id: u32, sets: IpSets) {
    if cidrs == [] then inline == [] && id == 0
    else
      var u := UsableCidrs(cidrs);
      u != [] && if |u| <= IPSET_INLINE_MAX then inline == u && id == 0
                 else inline == [] && id != 0 && id in sets && sets[id] == u
  }

  lemma SideMeaning(cidrs: seq<ProtoCidr>, inline: seq<CIDR4>, id: u32, sets: IpSets, w: u32, isIpv6: bool)
    requires SideCompiled(cidrs, inline, id, sets) && SetsValid(sets) && AllValid(inline)
    ensures (inline == [] || (!isIpv6 && AnyContains(inline, DecodeIp4(w)))) && IpsetMatch(w, id, isIpv6, TrieOf(sets))
       <==> SideHolds(cidrs, isIpv6, DecodeIp4(w))
  {
    UsableCidrsMeaning(cidrs, DecodeIp4(w));
    if id != 0 { SpilledSetExactly(sets, id, w); }
  }

  class CompileState {
    var nextID: u32
    var ipsets: IpSets

    constructor ()
      ensures nextID == 0 && ipsets == map[]
    {
      nextID, ipsets := 0, map[];
    }

    /** Ids handed out so far are `1..nextID`. */
    ghost predicate Inv()
      reads this
    {
      SetsValid(ipsets) && forall k | k in ipsets :: 0 < k <= nextID
    }

    method AllocIPSet(cidrs: seq<CIDR4>) returns (id: u32)
      modifies this
      ensures id == nextID == (old(nextID) + 1) % TWO_32 && ipsets == old(ipsets)[id := cidrs]
    {
      nextID := (nextID + 1) % TWO_32;
      ipsets := ipsets[nextID := cidrs];
      return nextID;
    }
  }

  predicate Grows(a: IpSets, b: IpSets) { forall k | k in a :: k in b && b[k] == a[k] }

  /** `compileCIDRs`; `skip` stands for the warning that makes the caller skip the rule. */
  method CompileCIDRs(cidrs: seq<ProtoCidr>, state: CompileState) returns (inline: seq<CIDR4>, id: u32, skip: bool)
    modifies state
    ensures skip <==> DeadSide(cidrs)
    ensures skip ==> unchanged(state)
    ensures old(state.Inv()) && old(state.nextID) + 1 < TWO_32 ==>
            && state.Inv() && state.nextID <= old(state.nextID) + 1 && Grows(old(state.ipsets), state.ipsets)
            && (!skip ==> SideCompiled(cidrs, inline, id, state.ipsets))
    ensures AllValid(inline)
  {
    if |cidrs| == 0 { return [], 0, false; }
    var out: seq<CIDR4> := [];
    for i := 0 to |cidrs|
      invariant out == UsableCidrs(cidrs[..i]) && unchanged(state)
    {
      assert cidrs[..i + 1][..i] == cidrs[..i];
      var c := cidrs[i];
      if To4(c.ip).None? { continue; }
      if c.prefixLen > 32 { continue; }
      out := out + [ToCidr4(c)];
    }
    assert cidrs[..|cidrs|] == cidrs;
    UsableCidrsMeaning(cidrs, Ip4(0, 0, 0, 0));
    if |out| == 0 { return [], 0, true; }
    if |out| > IPSET_INLINE_MAX {
      id := state.AllocIPSet(out);
      return [], id, false;
    }
    return out, 0, false;
  }

  // --------------------------------------------------------------- ports

  predicate PortOk(p: ProtoPorts) { p.start <= p.end <= 65535 }

  predicate PortsOk(ports: seq<ProtoPorts>) { |ports| <= 8 && forall i | 0 <= i < |ports| :: PortOk(ports[i]) }

  function ToPorts(ports: seq<ProtoPorts>): (s: seq<PortRange>)
    requires PortsOk(ports)
    ensures |s| == |ports|
  {
    seq(|ports|, i requires 0 <= i < |ports| => PortRange(ports[i].start, ports[i].end))
  }

  method CompilePorts(ports: seq<ProtoPorts>) returns (r: Option<seq<PortRange>>)
    ensures r == if PortsOk(ports) then Some(ToPorts(ports)) else None
  {
    if |ports| > 8 { return None; }
    var out: seq<PortRange> := [];
    for i := 0 to |ports|
      invariant forall j | 0 <= j < i :: PortOk(ports[j])
      invariant |out| == i && forall j | 0 <= j < i :: out[j] == PortRange(ports[j].start, ports[j].end)
    {
      var p := ports[i];
      if p.start > 65535 || p.end > 65535 { return None; }
      if p.start > p.end { return None; }
      out := out + [PortRange(p.start, p.end)];
    }
    assert out == ToPorts(ports);
    return Some(out);
  }

  lemma PortsMeaning(ports: seq<ProtoPorts>, port: u16)
    requires PortsOk(ports)
    ensures PortsMatch(port, ToPorts(ports)) <==> PortsHold(ports, port)
  {
    var s := ToPorts(ports);
    assert forall i | 0 <= i < |s| :: s[i].start == ports[i].start && s[i].end == ports[i].end;
  }

  // ------------------------------------------------------------ one rule

  datatype Outcome = Spec(s: RuleSpec) | Skip | Fail

  function OrElse(x: u8, d: u8): u8 { if x == 0 then d else x }

  /** A rule specification that stands for a bundle rule, given the spilled sets. */
  predicate RuleCompiled(er: EffectiveRule, s: RuleSpec, sets: IpSets) {
    var m := er.criteria;
    && s.action == ToU8(er.action) && s.criteria.direction == ToU8(er.direction)
    && s.criteria.protocol == OrElse(ToU8(m.protocol), PROTO_ANY)
    && s.criteria.state == OrElse(ToU8(er.state), CT_NONE)
    && ParseUuid(er.ruleId) == Some(s.id) && s.logEnabled == er.logEnabled && s.rateLimit == ToU16(er.rateLimit)
    && SideCompiled(m.srcCidrs, s.criteria.srcCidrs, s.criteria.srcIpset, sets)
    && SideCompiled(m.dstCidrs, s.criteria.dstCidrs, s.criteria.dstIpset, sets)
    && PortsOk(m.srcPorts) && s.criteria.srcPorts == ToPorts(m.srcPorts)
    && PortsOk(m.dstPorts) && s.criteria.dstPorts == ToPorts(m.dstPorts)
  }

  /** Rules that make the whole compilation fail. */
  predicate FailRule(o: Option<EffectiveRule>) {
    || o.None? || ToU8(o.value.action) == 0 || ToU8(o.value.direction) == 0 || ParseUuid(o.value.ruleId).None?
    || (!DeadRule(o.value) && !(PortsOk(o.value.criteria.srcPorts) && PortsOk(o.value.criteria.dstPorts)))
  }

  method CompileRule(o: Option<EffectiveRule>, priority: i32, state: CompileState) returns (r: Outcome)
    modifies state
    ensures r.Fail? <==> FailRule(o)
    ensures !r.Fail? ==> (r.Skip? <==> DeadRule(o.value))
    ensures r.Spec? ==> r.s.priority == priority
    ensures old(state.Inv()) && old(state.nextID) + 2 < TWO_32 ==>
            && state.Inv() && state.nextID <= old(state.nextID) + 2 && Grows(old(state.ipsets), state.ipsets)
            && (r.Spec? ==> RuleCompiled(o.value, r.s, state.ipsets))
  {
    if o.None? { return Fail; }
    var er := o.value;
    var action := ToU8(er.action);
    if action == 0 { return Fail; }
    var direction := ToU8(er.direction);
    if direction == 0 { return Fail; }
    var protocol := ToU8(er.criteria.protocol);
    if protocol == 0 { protocol := PROTO_ANY; }
    var cs := ToU8(er.state);
    if cs == 0 { cs := CT_NONE; }
    var id := ParseUuid(er.ruleId);
    if id.None? { return Fail; }
    var src, srcSet, srcSkip := CompileCIDRs(er.criteria.srcCidrs, state);
    if srcSkip { return Skip; }
    var dst, dstSet, dstSkip := CompileCIDRs(er.criteria.dstCidrs, state);
    if dstSkip { return Skip; }
    var srcPorts := CompilePorts(er.criteria.srcPorts);
    if srcPorts.None? { return Fail; }
    var dstPorts := CompilePorts(er.criteria.dstPorts);
    if dstPorts.None? { return Fail; }
    return Spec(RuleSpec(id.value, priority, action, er.logEnabled, ToU16(er.rateLimit),
                         SpecMatch(protocol, direction, cs, src, dst, srcPorts.value, dstPorts.value, srcSet, dstSet)));
  }

  /** A compiled and convertible rule matches exactly the packets its bundle rule matches. */
  lemma RuleMeaning(er: EffectiveRule, s: RuleSpec, sets: IpSets, p: Packet, ctState: u8)
    requires RuleCompiled(er, s, sets) && SetsValid(sets) && Convertible(s)
    ensures SpecMatches(s, TrieOf(sets), p, ctState) <==> RefMatches(er, p, ctState)
  {
    var m, c := er.criteria, s.criteria;
    SideMeaning(m.srcCidrs, c.srcCidrs, c.srcIpset, sets, p.srcIp, p.isIpv6);
    SideMeaning(m.dstCidrs, c.dstCidrs, c.dstIpset, sets, p.dstIp, p.isIpv6);
    PortsMeaning(m.srcPorts, p.srcPort);
    PortsMeaning(m.dstPorts, p.dstPort);
  }

  lemma DeadNeverMatches(er: EffectiveRule, p: Packet, ctState: u8)
    requires DeadRule(er)
    ensures !RefMatches(er, p, ctState)
  {
    UsableCidrsMeaning(er.criteria.srcCidrs, DecodeIp4(p.srcIp));
    UsableCidrsMeaning(er.criteria.dstCidrs, DecodeIp4(p.dstIp));
  }

  // ---------------------------------------------------------- the bundle

  datatype CompileResult = CompileResult(rules: seq<RuleSpec>, config: Config, ipsets: IpSets, skipped: seq<nat>)

  function ConfigOf(b: Bundle): Config {
    Config(b.requiresConntrack, false,
           if b.ingress != 0 then ToU8(b.ingress) else ACTION_ALLOW,
           if b.egress != 0 then ToU8(b.egress) else ACTION_ALLOW)
  }

  /** Bundle rule `i` is either kept, under its own index as priority, or dead. */
  ghost predicate AccountedAt(b: Bundle, rules: seq<RuleSpec>, i: nat)
    requires i < |b.rules|
  {
    (exists k | 0 <= k < |rules| :: rules[k].priority == i) || (b.rules[i].Some? && DeadRule(b.rules[i].value))
  }

  ghost predicate Accounted(b: Bundle, rules: seq<RuleSpec>, n: nat)
    requires n <= |b.rules|
  {
    forall i: nat | i < n :: AccountedAt(b, rules, i)
  }

  /** Specification `k` was compiled from one of the first `n` bundle rules, the one its priority names. */
  ghost predicate KeptAt(b: Bundle, rules: seq<RuleSpec>, sets: IpSets, n: nat, k: nat)
    requires n <= |b.rules| && k < |rules|
  {
    && 0 <= rules[k].priority < n
    && b.rules[rules[k].priority].Some? && RuleCompiled(b.rules[rules[k].priority].value, rules[k], sets)
  }

  ghost predicate Increasing(rules: seq<RuleSpec>) {
    forall k, l | 0 <= k < l < |rules| :: rules[k].priority < rules[l].priority
  }

  ghost predicate Kept(b: Bundle, rules: seq<RuleSpec>, sets: IpSets, n: nat)
    requires n <= |b.rules|
  {
    Increasing(rules) && forall k: nat | k < |rules| :: KeptAt(b, rules, sets, n, k)
  }

  /** A compilation result that represents a bundle. */
  ghost predicate Represents(b: Bundle, c: CompileResult) {
    && SetsValid(c.ipsets) && 0 !in c.ipsets
    && Kept(b, c.rules, c.ipsets, |b.rules|) && Accounted(b, c.rules, |b.rules|)
  }

  /** Indices, and so priorities, that an `int32` holds. */
  predicate FitsInt32(b: Bundle) { |b.rules| < 0x8000_0000 }

  lemma KeptGrows(b: Bundle, rules: seq<RuleSpec>, sets: IpSets, sets': IpSets, n: nat)
    requires n < |b.rules| && Kept(b, rules, sets, n) && Grows(sets, sets')
    ensures Kept(b, rules, sets', n + 1)
  {
    var m := n + 1;
    forall k: nat | k < |rules| ensures KeptAt(b, rules, sets', m, k) {
      assert KeptAt(b, rules, sets, n, k);
    }
  }

  lemma AccountedAppend(b: Bundle, rules: seq<RuleSpec>, s: RuleSpec, n: nat)
    requires n < |b.rules| && Accounted(b, rules, n) && s.priority == n
    ensures Accounted(b, rules + [s], n + 1)
  {
    var t := rules + [s];
    forall i: nat | i < n + 1 ensures AccountedAt(b, t, i) {
      if i == n {
        assert t[|rules|].priority == i;
      } else {
        assert AccountedAt(b, rules, i);
        if k :| 0 <= k < |rules| && rules[k].priority == i {
          assert t[k].priority == i;
        }
      }
    }
  }

  lemma KeptAppend(b: Bundle, rules: seq<RuleSpec>, s: RuleSpec, sets: IpSets, n: nat)
    requires n < |b.rules| && Kept(b, rules, sets, n + 1) && (forall k | 0 <= k < |rules| :: rules[k].priority < n)
    requires s.priority == n && b.rules[n].Some? && RuleCompiled(b.rules[n].value, s, sets)
    ensures Kept(b, rules + [s], sets, n + 1)
  {
    var t, m := rules + [s], n + 1;
    forall k: nat | k < |t| ensures KeptAt(b, t, sets, m, k) {
      if k < |rules| { assert t[k] == rules[k] && KeptAt(b, rules, sets, m, k); }
    }
  }

  function Appended(rules: seq<RuleSpec>, o: Outcome): seq<RuleSpec> { if o.Spec? then rules + [o.s] else rules }

  /** One iteration of the compile loop, for a rule that is kept or skipped. */
  lemma LoopStep(b: Bundle, rules: seq<RuleSpec>, sets: IpSets, o: Outcome, sets': IpSets, n: nat)
    requires n < |b.rules| && Kept(b, rules, sets, n) && Accounted(b, rules, n) && Grows(sets, sets')
    requires b.rules[n].Some? && (o.Skip? || o.Spec?)
    requires o.Skip? ==> DeadRule(b.rules[n].value)
    requires o.Spec? ==> o.s.priority == n && RuleCompiled(b.rules[n].value, o.s, sets')
    ensures Kept(b, Appended(rules, o), sets', n + 1) && Accounted(b, Appended(rules, o), n + 1)
  {
    KeptGrows(b, rules, sets, sets', n);
    if o.Spec? {
      forall k | 0 <= k < |rules| ensures rules[k].priority < n { assert KeptAt(b, rules, sets, n, k); }
      KeptAppend(b, rules, o.s, sets', n);
      AccountedAppend(b, rules, o.s, n);
    } else {
      assert AccountedAt(b, rules, n);
    }
  }

  /** Rule `i` of the bundle is one that no packet matches. */
  predicate DeadAt(b: Bundle, i: nat)
    requires i < |b.rules|
  {
    b.rules[i].Some? && DeadRule(b.rules[i].value)
  }

  /** The indices of the dead rules among the first `n`. */
  function DeadIndices(b: Bundle, n: nat): seq<nat>
    requires n <= |b.rules|
  {
    if n == 0 then [] else DeadIndices(b, n - 1) + (if DeadAt(b, n - 1) then [n - 1] else [])
  }

  predicate FailsAt(b: Bundle, j: nat)
    requires j < |b.rules|
  {
    FailRule(b.rules[j])
  }

  ghost predicate NoFailure(b: Bundle, n: nat)
    requires n <= |b.rules|
  {
    forall j | 0 <= j < n :: !FailsAt(b, j)
  }

  /** Invariant of the rule loop, as long as indices fit the priority type. */
  ghost predicate LoopInv(b: Bundle, rules: seq<RuleSpec>, state: CompileState, n: nat)
    requires n <= |b.rules|
    reads state
  {
    FitsInt32(b) ==>
      state.Inv() && state.nextID <= 2 * n && Kept(b, rules, state.ipsets, n) && Accounted(b, rules, n)
  }

  /** The first `n` rules are accounted for: kept, or dead and listed as skipped. */
  ghost predicate Progress(b: Bundle, rules: seq<RuleSpec>, skipped: seq<nat>, state: CompileState, n: nat)
    requires n <= |b.rules|
    reads state
  {
    LoopInv(b, rules, state, n) && skipped == DeadIndices(b, n) && |rules| + |skipped| == n
  }

  /** The body of the rule loop. */
  method CompileNext(b: Bundle, i: nat, state: CompileState, rules: seq<RuleSpec>, skipped: seq<nat>)
    returns (ok: bool, rules': seq<RuleSpec>, skipped': seq<nat>)
    requires i < |b.rules| && Progress(b, rules, skipped, state, i)
    modifies state
    ensures ok <==> !FailsAt(b, i)
    ensures ok ==> Progress(b, rules', skipped', state, i + 1)
  {
    ghost var sets := state.ipsets;
    var o := CompileRule(b.rules[i], ToI32(i), state);
    if o.Fail? { return false, [], []; }
    if FitsInt32(b) {
      assert ToI32(i) == i;
      LoopStep(b, rules, sets, o, state.ipsets, i);
    }
    return true, Appended(rules, o), if o.Skip? then skipped + [i] else skipped;
  }

  /** The rule loop of `CompileBundle`. */
  method CompileRules(b: Bundle, state: CompileState) returns (ok: bool, rules: seq<RuleSpec>, skipped: seq<nat>)
    requires state.nextID == 0 && state.ipsets == map[]
    modifies state
    ensures ok <==> NoFailure(b, |b.rules|)
    ensures ok ==> Progress(b, rules, skipped, state, |b.rules|)
  {
    rules, skipped := [], [];
    for i := 0 to |b.rules|
      invariant NoFailure(b, i)
      invariant Progress(b, rules, skipped, state, i)
    {
      ok, rules, skipped := CompileNext(b, i, state, rules, skipped);
      if !ok { return false, [], []; }
    }
    return true, rules, skipped;
  }

  method CompileBundle(bundle: Option<Bundle>) returns (r: Result<CompileResult, ()>)
    ensures r.Err? <==> bundle.None? || !NoFailure(bundle.value, |bundle.value.rules|)
    ensures r.Ok? ==> r.value.config == ConfigOf(bundle.value)
    ensures r.Ok? ==>
            var dead := DeadIndices(bundle.value, |bundle.value.rules|);
            r.value.skipped == dead && |r.value.rules| + |dead| == |bundle.value.rules|
    ensures r.Ok? && FitsInt32(bundle.value) ==> Represents(bundle.value, r.value)
  {
    if bundle.None? { return Err(()); }
    var b := bundle.value;
    var config := DEFAULT_CONFIG;
    if b.ingress != 0 { config := config.(ingress := ToU8(b.ingress)); }
    if b.egress != 0 { config := config.(egress := ToU8(b.egress)); }
    config := config.(ctEnabled := b.requiresConntrack);
    var state := new CompileState();
    var ok, rules, skipped := CompileRules(b, state);
    if !ok { return Err(()); }
    return Ok(CompileResult(rules, config, state.ipsets, skipped));
  }

  // ------------------------------------------------ compilation keeps meaning

  lemma RepresentsSorted(b: Bundle, c: CompileResult)
    requires Represents(b, c)
    ensures Sorted(c.rules)
  {
    assert Increasing(c.rules);
  }

  lemma RefFirstUnique(b: Bundle, i: nat, p: Packet, ctState: u8)
    requires i <= |b.rules| && (forall j | 0 <= j < i :: !RefMatchesAt(b, j, p, ctState))
    requires i < |b.rules| ==> RefMatchesAt(b, i, p, ctState)
    ensures RefFirst(b, 0, p, ctState) == i
  {
  }

  lemma SlotMeaning(b: Bundle, c: CompileResult, l: nat, p: Packet, ctState: u8)
    requires Represents(b, c) && AllConvertible(c.rules) && l < |c.rules|
    ensures 0 <= c.rules[l].priority < |b.rules|
    ensures RuleMatches(p, ctState, Converted(c.rules[l]).criteria, TrieOf(c.ipsets))
       <==> RefMatchesAt(b, c.rules[l].priority, p, ctState)
  {
    assert KeptAt(b, c.rules, c.ipsets, |b.rules|, l);
    ConversionKeepsMeaning(c.rules[l], TrieOf(c.ipsets), p, ctState);
    RuleMeaning(b.rules[c.rules[l].priority].value, c.rules[l], c.ipsets, p, ctState);
  }

  /** A bundle rule before the one kept as number `k` cannot match unless a kept rule before `k` does. */
  lemma NothingEarlier(b: Bundle, c: CompileResult, k: nat, j: nat, p: Packet, ctState: u8)
    requires Represents(b, c) && k <= |c.rules|
    requires j < |b.rules| && (k < |c.rules| ==> j < c.rules[k].priority)
    requires forall l | 0 <= l < k :: 0 <= c.rules[l].priority < |b.rules| && !RefMatchesAt(b, c.rules[l].priority, p, ctState)
    ensures !RefMatchesAt(b, j, p, ctState)
  {
    assert AccountedAt(b, c.rules, j);
    if l :| 0 <= l < |c.rules| && c.rules[l].priority == j {
      assert l < k;
    } else {
      DeadNeverMatches(b.rules[j].value, p, ctState);
    }
  }

  /** The first match among the converted rules is the first match of the bundle. */
  lemma FirstMatchPreserved(b: Bundle, c: CompileResult, slots: seq<RuleEntry>, p: Packet, ctState: u8)
    requires Represents(b, c) && AllConvertible(c.rules)
    requires |c.rules| <= |slots| && slots[..|c.rules|] == ConvertAll(c.rules)
    ensures var k := FirstMatch(slots, 0, |c.rules|, p, ctState, TrieOf(c.ipsets));
            RefFirst(b, 0, p, ctState) == if k < |c.rules| then c.rules[k].priority else |b.rules|
  {
    var n := |c.rules|;
    var k := FirstMatch(slots, 0, n, p, ctState, TrieOf(c.ipsets));
    FirstMatchIsLeast(slots, 0, n, p, ctState, TrieOf(c.ipsets));
    forall l | 0 <= l < n
      ensures 0 <= c.rules[l].priority < |b.rules|
      ensures Hit(slots, l, p, ctState, TrieOf(c.ipsets)) <==> RefMatchesAt(b, c.rules[l].priority, p, ctState)
    {
      SlotHit(b, c, slots, l, p, ctState);
    }
    var i := if k < n then c.rules[k].priority else |b.rules|;
    forall j | 0 <= j < i ensures !RefMatchesAt(b, j, p, ctState) {
      NothingEarlier(b, c, k, j, p, ctState);
    }
    RefFirstUnique(b, i, p, ctState);
  }

  lemma SlotHit(b: Bundle, c: CompileResult, slots: seq<RuleEntry>, l: nat, p: Packet, ctState: u8)
    requires Represents(b, c) && AllConvertible(c.rules) && l < |c.rules|
    requires |c.rules| <= |slots| && slots[..|c.rules|] == ConvertAll(c.rules)
    ensures 0 <= c.rules[l].priority < |b.rules|
    ensures Hit(slots, l, p, ctState, TrieOf(c.ipsets)) <==> RefMatchesAt(b, c.rules[l].priority, p, ctState)
  {
    assert slots[l] == slots[..|c.rules|][l];
    SlotMeaning(b, c, l, p, ctState);
  }
}
