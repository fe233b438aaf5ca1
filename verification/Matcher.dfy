/**
 The rule engine of the BPF program: inline CIDR and port lists, the LPM trie
 of spilled address sets, single-rule match and the two evaluation loops.
 Each loop is proved against a quantified statement of what it decides.
 */
module Matcher {
  import opened Types
  import opened Packets
  import opened Address

  const MAX_RULES: nat := 2048

  datatype Cidr4 = Cidr4(addr: u32, mask: u32)

  datatype PortRange = PortRange(start: u16, end: u16)

  type Cidrs8 = s: seq<Cidr4> | |s| == 8 witness seq(8, _ => Cidr4(0, 0))
  type Ports8 = s: seq<PortRange> | |s| == 8 witness seq(8, _ => PortRange(0, 0))

  datatype RuleMatch = RuleMatch(
    protocol: u8,
    direction: u8,
    nSrcCidrs: u8,
    nDstCidrs: u8,
    nSrcPorts: u8,
    nDstPorts: u8,
    state: u8,
    srcCidrs: Cidrs8,
    dstCidrs: Cidrs8,
    srcPorts: Ports8,
    dstPorts: Ports8,
    srcIpsetId: u32,
    dstIpsetId: u32)

  datatype RuleEntry = RuleEntry(
    action: u8,
    logEnabled: bool,
    rateLimit: u16,
    ruleIdHi: u64,
    ruleIdLo: u64,
    criteria: RuleMatch)

  // -------------------------------------------------------------- LPM trie

  datatype LpmKey = LpmKey(prefixlen: u32, ipsetId: u32, addr: u32)

  /** The key bytes in memory order: the set id as stored by the host, then the address. */
  function KeyBits(k: LpmKey): (s: seq<bool>)
    ensures |s| == 64
  {
    DecodeIp4(k.ipsetId).Bits() + DecodeIp4(k.addr).Bits()
  }

  predicate Covers(stored: LpmKey, key: LpmKey) {
    && stored.prefixlen <= key.prefixlen && stored.prefixlen <= 64
    && KeyBits(stored)[..stored.prefixlen] == KeyBits(key)[..stored.prefixlen]
  }

  /** The kernel trie as a trusted contract: a lookup succeeds when some stored prefix covers the key. */
  predicate LpmLookup(trie: set<LpmKey>, key: LpmKey) {
    exists s | s in trie :: Covers(s, key)
  }

  /** A stored prefix covers a probe exactly when the set ids are equal and the address prefix agrees. */
  lemma CoversExactly(id: u32, addr: u32, ones: nat, probe: u32, ip: u32)
    requires ones <= 32
    ensures Covers(LpmKey(32 + ones, id, addr), LpmKey(64, probe, ip)) <==>
            id == probe && PrefixAgree(DecodeIp4(addr), DecodeIp4(ip), ones)
  {
    var p, p' := DecodeIp4(id).Bits(), DecodeIp4(probe).Bits();
    TakeAcross(p, DecodeIp4(addr).Bits(), p', DecodeIp4(ip).Bits(), 32 + ones);
    assert p[..32] == p && p'[..32] == p';
    SameBitsSameWord(id, probe);
  }

  lemma SameBitsSameWord(x: u32, y: u32)
    ensures DecodeIp4(x).Bits() == DecodeIp4(y).Bits() <==> x == y
  {
    var a, b := DecodeIp4(x), DecodeIp4(y);
    EncodeDecode(x);
    EncodeDecode(y);
    if a.Bits() == b.Bits() {
      assert ByteBits(a.b0) == a.Bits()[..8] == b.Bits()[..8] == ByteBits(b.b0);
      assert ByteBits(a.b1) == a.Bits()[8..16] == b.Bits()[8..16] == ByteBits(b.b1);
      assert ByteBits(a.b2) == a.Bits()[16..24] == b.Bits()[16..24] == ByteBits(b.b2);
      assert ByteBits(a.b3) == a.Bits()[24..] == b.Bits()[24..] == ByteBits(b.b3);
      ByteBitsInjective(a.b0, b.b0);
      ByteBitsInjective(a.b1, b.b1);
      ByteBitsInjective(a.b2, b.b2);
      ByteBitsInjective(a.b3, b.b3);
    }
  }

  // ------------------------------------------------------ what a rule means

  function Min8(n: u8): nat { if n < 8 then n else 8 }

  predicate InCidr(ip: u32, c: Cidr4) { AndWord(ip, c.mask) == AndWord(c.addr, c.mask) }

  predicate CidrsMatch(ip: u32, cidrs: seq<Cidr4>, isIpv6: bool) {
    cidrs == [] || (!isIpv6 && exists i | 0 <= i < |cidrs| :: InCidr(ip, cidrs[i]))
  }

  predicate PortsMatch(port: u16, ranges: seq<PortRange>) {
    ranges == [] || exists i | 0 <= i < |ranges| :: ranges[i].start <= port <= ranges[i].end
  }

  predicate IpsetMatch(ip: u32, id: u32, isIpv6: bool, trie: set<LpmKey>) {
    id == 0 || (!isIpv6 && LpmLookup(trie, LpmKey(64, id, ip)))
  }

  predicate StateMatch(state: u8, ctState: u8) {
    state == CT_NONE || (ctState != 0 && state != CT_RELATED && state == ctState)
  }

  predicate RuleMatches(p: Packet, ctState: u8, m: RuleMatch, trie: set<LpmKey>) {
    && m.direction == p.direction
    && (m.protocol == PROTO_ANY || m.protocol == p.proto)
    && CidrsMatch(p.srcIp, m.srcCidrs[..Min8(m.nSrcCidrs)], p.isIpv6)
    && CidrsMatch(p.dstIp, m.dstCidrs[..Min8(m.nDstCidrs)], p.isIpv6)
    && IpsetMatch(p.srcIp, m.srcIpsetId, p.isIpv6, trie)
    && IpsetMatch(p.dstIp, m.dstIpsetId, p.isIpv6, trie)
    && PortsMatch(p.srcPort, m.srcPorts[..Min8(m.nSrcPorts)])
    && PortsMatch(p.dstPort, m.dstPorts[..Min8(m.nDstPorts)])
    && StateMatch(m.state, ctState)
  }

  /** Rule `i` of a list matches the packet. */
  predicate Hit(rules: seq<RuleEntry>, i: nat, p: Packet, ctState: u8, trie: set<LpmKey>)
    requires i < |rules|
  {
    RuleMatches(p, ctState, rules[i].criteria, trie)
  }

  /** Which rules of a list match the packet. */
  function Hits(rules: seq<RuleEntry>, p: Packet, ctState: u8, trie: set<LpmKey>): (s: seq<bool>)
    ensures |s| == |rules|
  {
    seq(|rules|, i requires 0 <= i < |rules| => Hit(rules, i, p, ctState, trie))
  }

  /** Index of the first true value of `s[i..n]`, `n` if there is none. */
  function FirstTrue(s: seq<bool>, i: nat, n: nat): (r: nat)
    requires i <= n <= |s|
    ensures i <= r <= n && (forall j | i <= j < r :: !s[j]) && (r < n ==> s[r])
    decreases n - i
  {
    if i == n || s[i] then i else FirstTrue(s, i + 1, n)
  }

  /** Index of the first of `rules[i..n]` that matches, `n` if none does. */
  function FirstMatch(rules: seq<RuleEntry>, i: nat, n: nat, p: Packet, ctState: u8, trie: set<LpmKey>): (r: nat)
    requires i <= n <= |rules|
    ensures i <= r <= n
  {
    FirstTrue(Hits(rules, p, ctState, trie), i, n)
  }

  /** It matches, and nothing before it does. */
  lemma FirstMatchIsLeast(rules: seq<RuleEntry>, i: nat, n: nat, p: Packet, ctState: u8, trie: set<LpmKey>)
    requires i <= n <= |rules|
    ensures var r := FirstMatch(rules, i, n, p, ctState, trie);
            && (forall j | i <= j < r :: !Hit(rules, j, p, ctState, trie))
            && (r < n ==> Hit(rules, r, p, ctState, trie))
  {
    var s := Hits(rules, p, ctState, trie);
    assert forall j | 0 <= j < |rules| :: Hit(rules, j, p, ctState, trie) == s[j];
  }

  /** No other index has these properties. */
  lemma FirstMatchIs(rules: seq<RuleEntry>, i: nat, n: nat, r: nat, p: Packet, ctState: u8, trie: set<LpmKey>)
    requires i <= r <= n <= |rules|
    requires forall j | i <= j < r :: !Hit(rules, j, p, ctState, trie)
    requires r < n ==> Hit(rules, r, p, ctState, trie)
    ensures FirstMatch(rules, i, n, p, ctState, trie) == r
  {
    var s := Hits(rules, p, ctState, trie);
    assert forall j | 0 <= j < |rules| :: Hit(rules, j, p, ctState, trie) == s[j];
    FirstTrueIs(s, i, n, r);
  }

  lemma FirstTrueIs(s: seq<bool>, i: nat, n: nat, r: nat)
    requires i <= r <= n <= |s| && (forall j | i <= j < r :: !s[j]) && (r < n ==> s[r])
    ensures FirstTrue(s, i, n) == r
  {
  }

  // ---------------------------------------------------------------- loops

  method MatchCidrs4(ip: u32, cidrs: Cidrs8, n: u8, isIpv6: bool) returns (r: bool)
    ensures r == CidrsMatch(ip, cidrs[..Min8(n)], isIpv6)
  {
    if n == 0 { return true; }
    if isIpv6 { return false; }
    for i := 0 to 8
      invariant i <= Min8(n)
      invariant forall j | 0 <= j < i :: !InCidr(ip, cidrs[j])
    {
      if i >= n { break; }
      if InCidr(ip, cidrs[i]) {
        assert InCidr(ip, cidrs[..Min8(n)][i]);
        return true;
      }
    }
    return false;
  }

  method MatchPortRanges(port: u16, ranges: Ports8, n: u8) returns (r: bool)
    ensures r == PortsMatch(port, ranges[..Min8(n)])
  {
    if n == 0 { return true; }
    for i := 0 to 8
      invariant i <= Min8(n)
      invariant forall j | 0 <= j < i :: !(ranges[j].start <= port <= ranges[j].end)
    {
      if i >= n { break; }
      if port >= ranges[i].start && port <= ranges[i].end {
        assert ranges[..Min8(n)][i].start <= port <= ranges[..Min8(n)][i].end;
        return true;
      }
    }
    return false;
  }

  method MatchRule(p: Packet, ctState: u8, m: RuleMatch, trie: set<LpmKey>) returns (r: bool)
    ensures r == RuleMatches(p, ctState, m, trie)
  {
    if m.direction != p.direction { return false; }
    if m.protocol != PROTO_ANY && m.protocol != p.proto { return false; }
    var src := MatchCidrs4(p.srcIp, m.srcCidrs, m.nSrcCidrs, p.isIpv6);
    if !src { return false; }
    var dst := MatchCidrs4(p.dstIp, m.dstCidrs, m.nDstCidrs, p.isIpv6);
    if !dst { return false; }
    if m.srcIpsetId != 0 {
      if p.isIpv6 { return false; }
      if !LpmLookup(trie, LpmKey(64, m.srcIpsetId, p.srcIp)) { return false; }
    }
    if m.dstIpsetId != 0 {
      if p.isIpv6 { return false; }
      if !LpmLookup(trie, LpmKey(64, m.dstIpsetId, p.dstIp)) { return false; }
    }
    var sports := MatchPortRanges(p.srcPort, m.srcPorts, m.nSrcPorts);
    if !sports { return false; }
    var dports := MatchPortRanges(p.dstPort, m.dstPorts, m.nDstPorts);
    if !dports { return false; }
    if m.state != CT_NONE {
      if ctState == 0 { return false; }
      if m.state == CT_RELATED { return false; }
      if m.state != ctState { return false; }
    }
    return true;
  }

  /** Rules a loop variant looks at: the published count, cut at the variant's bound. */
  function Bound(count: u32, limit: nat): nat { if count > limit then limit else count }

  /** What both loop variants return: action and index of the first match, action 0 if there is none. */
  predicate EvalResult(rules: seq<RuleEntry>, n: nat, p: Packet, ctState: u8, trie: set<LpmKey>, action: u8, idx: nat)
    requires n <= |rules|
  {
    var i := FirstMatch(rules, 0, n, p, ctState, trie);
    if i < n then action == rules[i].action && (action != 0 ==> idx == i) else action == 0
  }

  /** `eval_one`: the callback of the bpf_loop variant. */
  method EvalOne(rules: seq<RuleEntry>, i: nat, p: Packet, ctState: u8, trie: set<LpmKey>,
                 idx0: nat, action0: u8) returns (stop: bool, idx: nat, action: u8)
    requires i < |rules|
    ensures stop == RuleMatches(p, ctState, rules[i].criteria, trie)
    ensures stop ==> idx == i && action == rules[i].action
    ensures !stop ==> idx == idx0 && action == action0
  {
    idx, action := idx0, action0;
    var m := MatchRule(p, ctState, rules[i].criteria, trie);
    if !m { return false, idx, action; }
    return true, i, rules[i].action;
  }

  /** The kernel >= 5.17 variant: bpf_loop over at most MAX_RULES slots. */
  method EvalRulesLoop(rules: seq<RuleEntry>, count: u32, p: Packet, ctState: u8, trie: set<LpmKey>)
    returns (action: u8, idx: nat)
    requires |rules| == MAX_RULES
    ensures EvalResult(rules, Bound(count, MAX_RULES), p, ctState, trie, action, idx)
  {
    var n := if count > MAX_RULES then MAX_RULES else count;
    action, idx := 0, 0;
    for i := 0 to n
      invariant action == 0 && idx == 0
      invariant FirstMatch(rules, 0, n, p, ctState, trie) == FirstMatch(rules, i, n, p, ctState, trie)
    {
      var stop;
      stop, idx, action := EvalOne(rules, i, p, ctState, trie, idx, action);
      if stop { break; }
    }
    if action != 0 { return action, idx; }
    return 0, 0;
  }

  /** The kernel 5.15/5.16 variant: a bounded loop over at most `evalMax` slots. */
  method EvalRulesCompat(rules: seq<RuleEntry>, count: u32, evalMax: nat, p: Packet, ctState: u8, trie: set<LpmKey>)
    returns (action: u8, idx: nat)
    requires evalMax <= |rules|
    ensures EvalResult(rules, Bound(count, evalMax), p, ctState, trie, action, idx)
  {
    var n := if count > evalMax then evalMax else count;
    for i := 0 to evalMax
      invariant i <= n
      invariant FirstMatch(rules, 0, n, p, ctState, trie) == FirstMatch(rules, i, n, p, ctState, trie)
    {
      if i >= n { break; }
      var m := MatchRule(p, ctState, rules[i].criteria, trie);
      if !m { continue; }
      return rules[i].action, i;
    }
    return 0, 0;
  }
}
