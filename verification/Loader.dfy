/**
 The agent's loader: conversion of rule specifications to BPF map values and
 the writes that publish rules, address sets and configuration.  Any single
 kernel write may fail.
 */
module Loader {
  import opened Types
  import opened Packets
  import opened Address
  import opened Matcher
  import opened Datapath

  const IPSET_INLINE_MAX: nat := 8

  /** An IPv4 prefix: address bytes and prefix length. */
  datatype CIDR4 = CIDR4(ip: seq<u8>, ones: int)

  datatype SpecMatch = SpecMatch(
    protocol: u8,
    direction: u8,
    state: u8,
    srcCidrs: seq<CIDR4>,
    dstCidrs: seq<CIDR4>,
    srcPorts: seq<PortRange>,
    dstPorts: seq<PortRange>,
    srcIpset: u32,
    dstIpset: u32)

  datatype RuleSpec = RuleSpec(
    id: Uuid,
    priority: i32,
    action: u8,
    logEnabled: bool,
    rateLimit: u16,
    criteria: SpecMatch)

  datatype Config = Config(ctEnabled: bool, flowEvents: bool, ingress: u8, egress: u8)

  const DEFAULT_CONFIG := Config(false, false, ACTION_ALLOW, ACTION_ALLOW)

  datatype Error = TooMany | Invalid | ReservedId | KernelWrite

  // ----------------------------------------------------------- prefixes

  predicate ValidCidr(c: CIDR4) { To4(c.ip).Some? && 0 <= c.ones <= 32 }

  predicate AllValid(cidrs: seq<CIDR4>) { forall i | 0 <= i < |cidrs| :: ValidCidr(cidrs[i]) }

  /** Reference meaning of a prefix: its first `ones` bits in network order. */
  predicate Contains(c: CIDR4, ip: Ip4)
    requires ValidCidr(c)
  {
    PrefixAgree(To4(c.ip).value, ip, c.ones)
  }

  predicate AnyContains(cidrs: seq<CIDR4>, ip: Ip4)
    requires AllValid(cidrs)
  {
    exists i | 0 <= i < |cidrs| :: Contains(cidrs[i], ip)
  }

  function EncodeCidr(c: CIDR4): Cidr4
    requires ValidCidr(c)
  {
    Cidr4(EncodeIp4(To4(c.ip).value), EncodeIp4(NetMask(c.ones)))
  }

  function EncodeCidrs(cidrs: seq<CIDR4>): (s: seq<Cidr4>)
    requires AllValid(cidrs)
    ensures |s| == |cidrs| && forall i | 0 <= i < |s| :: s[i] == EncodeCidr(cidrs[i])
  {
    seq(|cidrs|, i requires 0 <= i < |cidrs| => EncodeCidr(cidrs[i]))
  }

  /** Key of one prefix of address set `id` in the LPM trie. */
  function KeyFor(id: u32, c: CIDR4): LpmKey
    requires ValidCidr(c)
  {
    LpmKey(32 + c.ones, id, EncodeIp4(To4(c.ip).value))
  }

  lemma InlinePrefix(c: CIDR4, w: u32)
    requires ValidCidr(c)
    ensures InCidr(w, EncodeCidr(c)) <==> Contains(c, DecodeIp4(w))
  {
    var a := To4(c.ip).value;
    EncodeDecode(w);
    MaskedCompareIsPrefix(DecodeIp4(w), a, c.ones);
  }

  lemma SpilledPrefix(id: u32, c: CIDR4, probe: u32, w: u32)
    requires ValidCidr(c)
    ensures Covers(KeyFor(id, c), LpmKey(64, probe, w)) <==> id == probe && Contains(c, DecodeIp4(w))
  {
    DecodeEncode(To4(c.ip).value);
    CoversExactly(id, EncodeIp4(To4(c.ip).value), c.ones, probe, w);
  }

  function IpsetKeys(id: u32, cidrs: seq<CIDR4>): set<LpmKey>
    requires AllValid(cidrs)
  {
    set i | 0 <= i < |cidrs| :: KeyFor(id, cidrs[i])
  }

  predicate SetsValid(sets: map<u32, seq<CIDR4>>) { forall id | id in sets :: AllValid(sets[id]) }

  /** The trie contents for a family of address sets. */
  function TrieOf(sets: map<u32, seq<CIDR4>>): set<LpmKey>
    requires SetsValid(sets)
  {
    set id, k | id in sets && k in IpsetKeys(id, sets[id]) :: k
  }

  /** The inline loop decides membership in the plain prefix list. */
  lemma InlineListExactly(cidrs: seq<CIDR4>, w: u32)
    requires AllValid(cidrs) && cidrs != []
    ensures CidrsMatch(w, EncodeCidrs(cidrs), false) <==> AnyContains(cidrs, DecodeIp4(w))
  {
    var s := EncodeCidrs(cidrs);
    if CidrsMatch(w, s, false) {
      var i :| 0 <= i < |s| && InCidr(w, s[i]);
      InlinePrefix(cidrs[i], w);
    }
    if AnyContains(cidrs, DecodeIp4(w)) {
      var i :| 0 <= i < |cidrs| && Contains(cidrs[i], DecodeIp4(w));
      InlinePrefix(cidrs[i], w);
      assert InCidr(w, s[i]);
    }
  }

  /** The trie lookup decides membership in the set it names, whatever other sets are stored. */
  lemma SpilledSetExactly(sets: map<u32, seq<CIDR4>>, probe: u32, w: u32)
    requires SetsValid(sets)
    ensures LpmLookup(TrieOf(sets), LpmKey(64, probe, w)) <==>
            probe in sets && AnyContains(sets[probe], DecodeIp4(w))
  {
    var key := LpmKey(64, probe, w);
    if LpmLookup(TrieOf(sets), key) {
      var s :| s in TrieOf(sets) && Covers(s, key);
      var id :| id in sets && s in IpsetKeys(id, sets[id]);
      var i :| 0 <= i < |sets[id]| && s == KeyFor(id, sets[id][i]);
      SpilledPrefix(id, sets[id][i], probe, w);
    }
    if probe in sets && AnyContains(sets[probe], DecodeIp4(w)) {
      var i :| 0 <= i < |sets[probe]| && Contains(sets[probe][i], DecodeIp4(w));
      SpilledPrefix(probe, sets[probe][i], probe, w);
      assert KeyFor(probe, sets[probe][i]) in IpsetKeys(probe, sets[probe]);
    }
  }

  /** Inline list, spilled set and prefix list give the same answer for every list and address. */
  lemma InlineAndSpilledAgree(cidrs: seq<CIDR4>, sets: map<u32, seq<CIDR4>>, id: u32, w: u32)
    requires SetsValid(sets)
    requires id in sets && sets[id] == cidrs && cidrs != []
    ensures CidrsMatch(w, EncodeCidrs(cidrs), false) == LpmLookup(TrieOf(sets), LpmKey(64, id, w))
    ensures LpmLookup(TrieOf(sets), LpmKey(64, id, w)) == AnyContains(cidrs, DecodeIp4(w))
  {
    InlineListExactly(cidrs, w);
    SpilledSetExactly(sets, id, w);
  }

  // ------------------------------------------------------ rule conversion

  predicate PortsOrdered(ports: seq<PortRange>) {
    forall i | 0 <= i < |ports| :: ports[i].start <= ports[i].end
  }

  /** `validateRule`. */
  predicate Validated(r: RuleSpec) {
    && (r.action == ACTION_ALLOW || r.action == ACTION_DENY || r.action == ACTION_LOG)
    && PROTO_ANY <= r.criteria.protocol <= PROTO_ICMPV6
    && (r.criteria.direction == DIR_INGRESS || r.criteria.direction == DIR_EGRESS)
    && |r.criteria.srcCidrs| <= IPSET_INLINE_MAX && |r.criteria.dstCidrs| <= IPSET_INLINE_MAX
    && |r.criteria.srcPorts| <= 8 && |r.criteria.dstPorts| <= 8
    && PortsOrdered(r.criteria.srcPorts) && PortsOrdered(r.criteria.dstPorts)
  }

  /** Rules that `toRuleEntry` accepts. */
  predicate Convertible(r: RuleSpec) {
    Validated(r) && AllValid(r.criteria.srcCidrs) && AllValid(r.criteria.dstCidrs)
  }

  function PadCidrs(s: seq<Cidr4>): Cidrs8
    requires |s| <= 8
  {
    s + seq(8 - |s|, _ => Cidr4(0, 0))
  }

  function PadPorts(s: seq<PortRange>): Ports8
    requires |s| <= 8
  {
    s + seq(8 - |s|, _ => PortRange(0, 0))
  }

  /** A big-endian load is a little-endian load of the reversed bytes. */
  function BigEndian32(b: seq<u8>): (x: int)
    requires |b| == 4
    ensures 0 <= x < TWO_32
  {
    EncodeIp4(Ip4(b[3], b[2], b[1], b[0]))
  }

  /** `binary.BigEndian.Uint64` of eight bytes. */
  function BigEndian64(b: seq<u8>): (x: u64)
    requires |b| == 8
  {
    BigEndian32(b[..4]) * TWO_32 + BigEndian32(b[4..])
  }

  /** The map value of a rule: `toRuleEntry` on a rule it accepts. */
  function Converted(r: RuleSpec): (e: RuleEntry)
    requires Convertible(r)
  {
    var m := r.criteria;
    RuleEntry(r.action, r.logEnabled, r.rateLimit, BigEndian64(r.id[..8]), BigEndian64(r.id[8..]),
              RuleMatch(m.protocol, m.direction, |m.srcCidrs|, |m.dstCidrs|, |m.srcPorts|, |m.dstPorts|,
                        if m.state == 0 then CT_NONE else m.state,
                        PadCidrs(EncodeCidrs(m.srcCidrs)), PadCidrs(EncodeCidrs(m.dstCidrs)),
                        PadPorts(m.srcPorts), PadPorts(m.dstPorts), m.srcIpset, m.dstIpset))
  }

  /** Reference meaning of a rule specification. */
  ghost predicate SpecMatches(r: RuleSpec, trie: set<LpmKey>, p: Packet, ctState: u8)
    requires Convertible(r)
  {
    var m := r.criteria;
    && m.direction == p.direction
    && (m.protocol == PROTO_ANY || m.protocol == p.proto)
    && (m.srcCidrs == [] || (!p.isIpv6 && AnyContains(m.srcCidrs, DecodeIp4(p.srcIp))))
    && (m.dstCidrs == [] || (!p.isIpv6 && AnyContains(m.dstCidrs, DecodeIp4(p.dstIp))))
    && IpsetMatch(p.srcIp, m.srcIpset, p.isIpv6, trie)
    && IpsetMatch(p.dstIp, m.dstIpset, p.isIpv6, trie)
    && PortsMatch(p.srcPort, m.srcPorts)
    && PortsMatch(p.dstPort, m.dstPorts)
    && (m.state == 0 || StateMatch(m.state, ctState))
  }

  lemma PaddedCidrs(cidrs: seq<CIDR4>, w: u32, isIpv6: bool)
    requires AllValid(cidrs) && |cidrs| <= 8
    ensures CidrsMatch(w, PadCidrs(EncodeCidrs(cidrs))[..Min8(|cidrs|)], isIpv6) <==>
            cidrs == [] || (!isIpv6 && AnyContains(cidrs, DecodeIp4(w)))
  {
    assert PadCidrs(EncodeCidrs(cidrs))[..Min8(|cidrs|)] == EncodeCidrs(cidrs);
    if cidrs != [] { InlineListExactly(cidrs, w); }
  }

  /** Conversion to the padded, masked, little-endian wire form keeps a rule's meaning. */
  lemma ConversionKeepsMeaning(r: RuleSpec, trie: set<LpmKey>, p: Packet, ctState: u8)
    requires Convertible(r)
    ensures RuleMatches(p, ctState, Converted(r).criteria, trie) <==> SpecMatches(r, trie, p, ctState)
  {
    var m := r.criteria;
    PaddedCidrs(m.srcCidrs, p.srcIp, p.isIpv6);
    PaddedCidrs(m.dstCidrs, p.dstIp, p.isIpv6);
    assert PadPorts(m.srcPorts)[..Min8(|m.srcPorts|)] == m.srcPorts;
    assert PadPorts(m.dstPorts)[..Min8(|m.dstPorts|)] == m.dstPorts;
  }

  lemma BigEndian32Injective(a: seq<u8>, b: seq<u8>)
    requires |a| == |b| == 4 && BigEndian32(a) == BigEndian32(b)
    ensures a == b
  {
    DecodeEncode(Ip4(a[3], a[2], a[1], a[0]));
    DecodeEncode(Ip4(b[3], b[2], b[1], b[0]));
  }

  /** The two telemetry words identify a rule: distinct ids give distinct pairs. */
  lemma RuleIdInjective(r: RuleSpec, q: RuleSpec)
    requires Convertible(r) && Convertible(q)
    requires Converted(r).ruleIdHi == Converted(q).ruleIdHi && Converted(r).ruleIdLo == Converted(q).ruleIdLo
    ensures r.id == q.id
  {
    BigEndian64Injective(r.id[..8], q.id[..8]);
    BigEndian64Injective(r.id[8..], q.id[8..]);
    assert r.id == r.id[..8] + r.id[8..] && q.id == q.id[..8] + q.id[8..];
  }

  lemma BigEndian64Injective(a: seq<u8>, b: seq<u8>)
    requires |a| == |b| == 8 && BigEndian64(a) == BigEndian64(b)
    ensures a == b
  {
    BigEndian32Injective(a[..4], b[..4]);
    BigEndian32Injective(a[4..], b[4..]);
    assert a == a[..4] + a[4..] && b == b[..4] + b[4..];
  }

  /** `encodeCIDR4`. */
  method EncodeCIDR4(c: CIDR4) returns (r: Option<Cidr4>)
    ensures r == if ValidCidr(c) then Some(EncodeCidr(c)) else None
  {
    if To4(c.ip).None? { return None; }
    if c.ones < 0 || c.ones > 32 { return None; }
    return Some(Cidr4(EncodeIp4(To4(c.ip).value), EncodeIp4(NetMask(c.ones))));
  }

  /** The loop that fills an eight-entry prefix array. */
  method FillCidrs(cidrs: seq<CIDR4>) returns (r: Option<Cidrs8>)
    requires |cidrs| <= 8
    ensures r == if AllValid(cidrs) then Some(PadCidrs(EncodeCidrs(cidrs))) else None
  {
    var out: Cidrs8 := seq(8, _ => Cidr4(0, 0));
    for i := 0 to |cidrs|
      invariant AllValid(cidrs[..i])
      invariant forall j | 0 <= j < 8 :: out[j] == if j < i then EncodeCidr(cidrs[..i][j]) else Cidr4(0, 0)
    {
      var enc := EncodeCIDR4(cidrs[i]);
      if enc.None? { return None; }
      out := out[i := enc.value];
      assert forall j | 0 <= j < i :: cidrs[..i + 1][j] == cidrs[..i][j];
    }
    assert cidrs[..|cidrs|] == cidrs;
    assert out == PadCidrs(EncodeCidrs(cidrs));
    return Some(out);
  }

  method FillPorts(ports: seq<PortRange>) returns (out: Ports8)
    requires |ports| <= 8
    ensures out == PadPorts(ports)
  {
    out := seq(8, _ => PortRange(0, 0));
    for i := 0 to |ports|
      invariant out == PadPorts(ports[..i])
    {
      out := out[i := ports[i]];
      assert out == PadPorts(ports[..i + 1]);
    }
    assert ports[..|ports|] == ports;
  }

  method ToRuleEntry(r: RuleSpec) returns (e: Option<RuleEntry>)
    ensures e == if Convertible(r) then Some(Converted(r)) else None
  {
    if !Validated(r) { return None; }
    var src := FillCidrs(r.criteria.srcCidrs);
    if src.None? { return None; }
    var dst := FillCidrs(r.criteria.dstCidrs);
    if dst.None? { return None; }
    var sports := FillPorts(r.criteria.srcPorts);
    var dports := FillPorts(r.criteria.dstPorts);
    var m := r.criteria;
    return Some(RuleEntry(r.action, r.logEnabled, r.rateLimit, BigEndian64(r.id[..8]), BigEndian64(r.id[8..]),
                          RuleMatch(m.protocol, m.direction, |m.srcCidrs|, |m.dstCidrs|, |m.srcPorts|, |m.dstPorts|,
                                    if m.state == 0 then CT_NONE else m.state, src.value, dst.value, sports, dports,
                                    m.srcIpset, m.dstIpset)));
  }

  // ------------------------------------------------------- stable sorting

  function Insert(r: RuleSpec, s: seq<RuleSpec>): seq<RuleSpec> {
    if s == [] || r.priority <= s[0].priority then [r] + s else [s[0]] + Insert(r, s[1..])
  }

  /** `sort.SliceStable` by priority. */
  function StableSort(s: seq<RuleSpec>): seq<RuleSpec> {
    if s == [] then [] else Insert(s[0], StableSort(s[1..]))
  }

  ghost predicate Sorted(s: seq<RuleSpec>) {
    forall i, j | 0 <= i <= j < |s| :: s[i].priority <= s[j].priority
  }

  /** The rules of one priority, in order. */
  function OfPriority(s: seq<RuleSpec>, pr: int): seq<RuleSpec> {
    if s == [] then [] else (if s[0].priority == pr then [s[0]] else []) + OfPriority(s[1..], pr)
  }

  lemma {:induction false} InsertSorted(r: RuleSpec, s: seq<RuleSpec>)
    requires Sorted(s)
    ensures Sorted(Insert(r, s)) && |Insert(r, s)| == |s| + 1
    ensures forall q | q in Insert(r, s) :: q == r || q in s
  {
    if s != [] && r.priority > s[0].priority {
      InsertSorted(r, s[1..]);
      var t := Insert(r, s[1..]);
      forall q | q in t ensures s[0].priority <= q.priority { }
    }
  }

  lemma {:induction false} InsertStable(r: RuleSpec, s: seq<RuleSpec>, pr: int)
    requires Sorted(s)
    ensures OfPriority(Insert(r, s), pr) == OfPriority([r] + s, pr)
  {
    assert ([r] + s)[1..] == s;
    if s != [] && r.priority > s[0].priority {
      InsertStable(r, s[1..], pr);
      assert ([s[0]] + Insert(r, s[1..]))[1..] == Insert(r, s[1..]);
      assert ([r] + s[1..])[1..] == s[1..];
    }
  }

  /** The sort yields an ordered list and keeps the order among equal priorities: a stable sort. */
  lemma {:induction false} StableSortSpec(s: seq<RuleSpec>, pr: int)
    ensures Sorted(StableSort(s)) && |StableSort(s)| == |s|
    ensures OfPriority(StableSort(s), pr) == OfPriority(s, pr)
  {
    if s != [] {
      StableSortSpec(s[1..], pr);
      InsertSorted(s[0], StableSort(s[1..]));
      InsertStable(s[0], StableSort(s[1..]), pr);
      assert ([s[0]] + StableSort(s[1..]))[1..] == StableSort(s[1..]);
    }
  }

  /** Rules already in priority order are left in place. */
  lemma {:induction false} SortedUntouched(s: seq<RuleSpec>)
    requires Sorted(s)
    ensures StableSort(s) == s
  {
    if s != [] {
      SortedUntouched(s[1..]);
      assert s == [s[0]] + s[1..];
    }
  }

  // --------------------------------------------------------- publishing

  predicate AllConvertible(s: seq<RuleSpec>) { forall i | 0 <= i < |s| :: Convertible(s[i]) }

  function ConvertAll(s: seq<RuleSpec>): (es: seq<RuleEntry>)
    requires AllConvertible(s)
    ensures |es| == |s| && forall i | 0 <= i < |s| :: es[i] == Converted(s[i])
  {
    seq(|s|, i requires 0 <= i < |s| => Converted(s[i]))
  }

  /** The conversion loop: all rules, or nothing. */
  method ConvertRules(sorted: seq<RuleSpec>) returns (r: Option<seq<RuleEntry>>)
    ensures r == if AllConvertible(sorted) then Some(ConvertAll(sorted)) else None
  {
    var entries: seq<RuleEntry> := [];
    for i := 0 to |sorted|
      invariant |entries| == i
      invariant forall j | 0 <= j < i :: Convertible(sorted[j]) && entries[j] == Converted(sorted[j])
    {
      var e := ToRuleEntry(sorted[i]);
      if e.None? { return None; }
      entries := entries + [e.value];
    }
    assert entries == ConvertAll(sorted);
    return Some(entries);
  }

  /** Policy `m` differs from `a` by the first `k` entries, written over its rules. */
  predicate SlotsWritten(a: Policy, entries: seq<RuleEntry>, k: nat, m: Policy)
    requires k <= |entries| <= |a.rules|
  {
    m == a.(rules := entries[..k] + a.rules[k..])
  }

  /** A policy published while `entries` replace the rules of `a`. */
  ghost predicate Replacing(a: Policy, entries: seq<RuleEntry>, m: Policy)
    requires |entries| <= MAX_RULES <= |a.rules|
  {
    || (exists k: nat :: k <= |entries| && SlotsWritten(a, entries, k, m))
    || m == a.(rules := entries + a.rules[|entries|..], count := |entries|)
  }

  lemma SlotWritten(a: Policy, entries: seq<RuleEntry>, k: nat, b: Policy, c: Policy)
    requires k < |entries| <= |a.rules| && SlotsWritten(a, entries, k, b) && c == b.(rules := b.rules[k := entries[k]])
    ensures SlotsWritten(a, entries, k + 1, c) && OneWrite(b, c)
  {
    assert c.rules == entries[..k + 1] + a.rules[k + 1..];
    assert SlotWrite(b, c, k);
  }

  /** The write loop: a prefix of the entries, all of them if no write fails. */
  method WriteSlots(maps: BpfMaps, entries: seq<RuleEntry>) returns (ok: bool, ghost mids: seq<Policy>)
    requires maps.Valid() && |entries| <= MAX_RULES
    modifies maps`rules
    ensures maps.Valid()
    ensures ok ==> maps.rules == entries + old(maps.rules)[|entries|..]
    ensures exists n: nat :: n <= |entries| && maps.rules == entries[..n] + old(maps.rules)[n..]
    ensures Trace(old(maps.Published()), mids, maps.Published())
    ensures forall m | m in mids :: Replacing(old(maps.Published()), entries, m)
  {
    ghost var a := maps.Published();
    mids := [];
    assert maps.rules == entries[..0] + a.rules[0..];
    for i := 0 to |entries|
      invariant maps.Valid() && SlotsWritten(a, entries, i, maps.Published())
      invariant Trace(a, mids, maps.Published())
      invariant forall m | m in mids :: Replacing(a, entries, m)
    {
      var fail: bool := *;
      if fail { return false, mids; }
      ghost var before := maps.Published();
      maps.rules := maps.rules[i := entries[i]];
      SlotWritten(a, entries, i, before, maps.Published());
      TraceStep(a, mids, before, maps.Published());
      mids := mids + [maps.Published()];
    }
    assert entries[..|entries|] == entries;
    return true, mids;
  }

  /**
   `PushRules`.  Nothing is written unless every rule converts; on success the
   first slots hold the sorted rules, the count is theirs and later slots are
   stale; a failed kernel write leaves the old count in force.
   */
  method PushRules(maps: BpfMaps, rules: seq<RuleSpec>) returns (r: Result<(), Error>, ghost mids: seq<Policy>)
    requires maps.Valid()
    modifies maps`rules, maps`ruleCount
    ensures maps.Valid()
    ensures r.Ok? ==>
            && |rules| <= maps.MaxRules() && |StableSort(rules)| == |rules| && AllConvertible(StableSort(rules))
            && maps.ruleCount == |rules|
            && maps.rules == ConvertAll(StableSort(rules)) + old(maps.rules)[|rules|..]
    ensures r == Err(TooMany) <==> |rules| > maps.MaxRules()
    ensures r == Err(Invalid) <==> |rules| <= maps.MaxRules() && !AllConvertible(StableSort(rules))
    ensures r.Err? ==> r.error == TooMany || r.error == Invalid || r.error == KernelWrite
    ensures r.Err? && r.error != KernelWrite ==> unchanged(maps)
    ensures r.Err? ==> maps.ruleCount == old(maps.ruleCount)
    ensures Trace(old(maps.Published()), mids, maps.Published())
    ensures forall m | m in mids :: |StableSort(rules)| <= MAX_RULES && AllConvertible(StableSort(rules))
                                    && Replacing(old(maps.Published()), ConvertAll(StableSort(rules)), m)
  {
    mids := [];
    if |rules| > maps.MaxRules() { return Err(TooMany), []; }
    var sorted := StableSort(rules);
    StableSortSpec(rules, 0);
    var entries := ConvertRules(sorted);
    if entries.None? { return Err(Invalid), []; }
    ghost var a := maps.Published();
    var ok;
    ok, mids := WriteSlots(maps, entries.value);
    if !ok { return Err(KernelWrite), mids; }
    var fail: bool := *;
    if fail { return Err(KernelWrite), mids; }
    ghost var before := maps.Published();
    maps.ruleCount := |entries.value|;
    assert Replacing(a, entries.value, maps.Published());
    TraceStep(a, mids, before, maps.Published());
    return Ok(()), mids + [maps.Published()];
  }

  /** A policy published while only address sets change. */
  predicate SetsOnly(a: Policy, m: Policy) { m == a.(ipsets := m.ipsets) }

  /** `PushIPSet`: adds the set's prefixes to the trie, keeping what is there. */
  method PushIPSet(maps: BpfMaps, id: u32, cidrs: seq<CIDR4>) returns (r: Result<(), Error>, ghost mids: seq<Policy>)
    requires maps.Valid()
    modifies maps`ipsets
    ensures maps.Valid()
    ensures r.Ok? ==> id != 0 && AllValid(cidrs) && maps.ipsets == old(maps.ipsets) + IpsetKeys(id, cidrs)
    ensures old(maps.ipsets) <= maps.ipsets
    ensures AllValid(cidrs) ==> maps.ipsets <= old(maps.ipsets) + IpsetKeys(id, cidrs)
    ensures id == 0 || !AllValid(cidrs) ==> r.Err?
    ensures r.Err? && id != 0 && AllValid(cidrs) ==> r.error == KernelWrite
    ensures Trace(old(maps.Published()), mids, maps.Published()) && forall m | m in mids :: SetsOnly(old(maps.Published()), m)
  {
    mids := [];
    if id == 0 { return Err(ReservedId), []; }
    ghost var a := maps.Published();
    for i := 0 to |cidrs|
      invariant AllValid(cidrs[..i]) && maps.ipsets == old(maps.ipsets) + IpsetKeys(id, cidrs[..i])
      invariant SetsOnly(a, maps.Published())
      invariant Trace(a, mids, maps.Published()) && forall m | m in mids :: SetsOnly(a, m)
    {
      var c := cidrs[i];
      if AllValid(cidrs) { SomeKeys(id, cidrs, i); }
      if To4(c.ip).None? || c.ones < 0 || c.ones > 32 { return Err(Invalid), mids; }
      var fail: bool := *;
      if fail { return Err(KernelWrite), mids; }
      ghost var before := maps.Published();
      maps.ipsets := maps.ipsets + {KeyFor(id, c)};
      KeysGrow(id, cidrs, i);
      assert KeyWrite(before, maps.Published(), KeyFor(id, c));
      TraceStep(a, mids, before, maps.Published());
      mids := mids + [maps.Published()];
    }
    assert cidrs[..|cidrs|] == cidrs;
    return Ok(()), mids;
  }

  lemma SomeKeys(id: u32, cidrs: seq<CIDR4>, i: nat)
    requires i <= |cidrs| && AllValid(cidrs)
    ensures AllValid(cidrs[..i]) && IpsetKeys(id, cidrs[..i]) <= IpsetKeys(id, cidrs)
  {
    var s := cidrs[..i];
    forall k | k in IpsetKeys(id, s) ensures k in IpsetKeys(id, cidrs) {
      var j :| 0 <= j < |s| && k == KeyFor(id, s[j]);
      assert k == KeyFor(id, cidrs[j]);
    }
  }

  lemma KeysGrow(id: u32, cidrs: seq<CIDR4>, i: nat)
    requires i < |cidrs| && AllValid(cidrs[..i]) && ValidCidr(cidrs[i])
    ensures AllValid(cidrs[..i + 1])
    ensures IpsetKeys(id, cidrs[..i + 1]) == IpsetKeys(id, cidrs[..i]) + {KeyFor(id, cidrs[i])}
  {
    assert forall j | 0 <= j < i :: cidrs[..i + 1][j] == cidrs[..i][j];
    assert cidrs[..i + 1][i] == cidrs[i] && cidrs[..i + 1][..i] == cidrs[..i];
    SomeKeys(id, cidrs[..i + 1], i);
    NoOtherKeys(id, cidrs, i);
    assert KeyFor(id, cidrs[..i + 1][i]) in IpsetKeys(id, cidrs[..i + 1]);
  }

  lemma NoOtherKeys(id: u32, cidrs: seq<CIDR4>, i: nat)
    requires i < |cidrs| && AllValid(cidrs[..i]) && AllValid(cidrs[..i + 1]) && ValidCidr(cidrs[i])
    ensures IpsetKeys(id, cidrs[..i + 1]) <= IpsetKeys(id, cidrs[..i]) + {KeyFor(id, cidrs[i])}
  {
    var s, t := cidrs[..i], cidrs[..i + 1];
    forall k | k in IpsetKeys(id, t) ensures k in IpsetKeys(id, s) + {KeyFor(id, cidrs[i])} {
      var j :| 0 <= j < |t| && k == KeyFor(id, t[j]);
      if j < i { assert s[j] == t[j]; }
    }
  }

  /** `ClearIPSets`: lists the keys, then deletes them one by one. */
  method ClearIPSets(maps: BpfMaps) returns (r: Result<(), Error>, ghost mids: seq<Policy>)
    requires maps.Valid()
    modifies maps`ipsets
    ensures maps.Valid()
    ensures r.Ok? ==> maps.ipsets == {}
    ensures maps.ipsets <= old(maps.ipsets)
    ensures r.Err? ==> r.error == KernelWrite
    ensures Trace(old(maps.Published()), mids, maps.Published()) && forall m | m in mids :: SetsOnly(old(maps.Published()), m)
  {
    var toDelete := maps.ipsets;
    ghost var a := maps.Published();
    mids := [];
    while toDelete != {}
      invariant toDelete == maps.ipsets <= old(maps.ipsets)
      invariant maps.Valid() && SetsOnly(a, maps.Published())
      invariant Trace(a, mids, maps.Published()) && forall m | m in mids :: SetsOnly(a, m)
      decreases |toDelete|
    {
      var k :| k in toDelete;
      var fail: bool := *;
      if fail { return Err(KernelWrite), mids; }
      ghost var before := maps.Published();
      maps.ipsets := maps.ipsets - {k};
      toDelete := toDelete - {k};
      assert KeyWrite(before, maps.Published(), k);
      TraceStep(a, mids, before, maps.Published());
      mids := mids + [maps.Published()];
    }
    return Ok(()), mids;
  }

  function Normalised(action: u8): u32 { if action == 0 then ACTION_ALLOW else action }

  /** The configuration as the three words of the map. */
  function ConfigWords(cfg: Config): (w: seq<u32>)
    ensures |w| == 3
  {
    [(if cfg.ctEnabled then 1 else 0) + (if cfg.flowEvents then 2 else 0), Normalised(cfg.ingress), Normalised(cfg.egress)]
  }

  /** Policy `m` is `a` with the first `n` words of a configuration written. */
  predicate WordsWritten(a: Policy, words: seq<u32>, n: nat, m: Policy)
    requires |words| == 3
  {
    m == a.(flags := if n > 0 then words[0] else a.flags,
            ingress := if n > 1 then words[1] else a.ingress,
            egress := if n > 2 then words[2] else a.egress)
  }

  /** A policy published while a configuration is written. */
  ghost predicate Configuring(a: Policy, words: seq<u32>, m: Policy)
    requires |words| == 3
  {
    exists n: nat :: n <= 3 && WordsWritten(a, words, n, m)
  }

  lemma WordWritten(a: Policy, words: seq<u32>, n: nat, b: Policy, c: Policy)
    requires |words| == 3 && n < 3 && WordsWritten(a, words, n, b)
    requires c == if n == 0 then b.(flags := words[0]) else if n == 1 then b.(ingress := words[1]) else b.(egress := words[2])
    ensures WordsWritten(a, words, n + 1, c) && OneWrite(b, c)
  {
  }

  /** One word of the configuration. */
  method WriteWord(maps: BpfMaps, words: seq<u32>, n: nat, ghost a: Policy, ghost mids: seq<Policy>)
    returns (ok: bool, ghost mids': seq<Policy>)
    requires maps.Valid() && |words| == 3 && n < 3 && WordsWritten(a, words, n, maps.Published())
    requires Trace(a, mids, maps.Published()) && forall m | m in mids :: Configuring(a, words, m)
    modifies maps`config
    ensures maps.Valid() && (if ok then WordsWritten(a, words, n + 1, maps.Published()) else WordsWritten(a, words, n, maps.Published()))
    ensures Trace(a, mids', maps.Published()) && forall m | m in mids' :: Configuring(a, words, m)
  {
    var fail: bool := *;
    if fail { return false, mids; }
    ghost var before := maps.Published();
    maps.config := maps.config[n := words[n]];
    WordWritten(a, words, n, before, maps.Published());
    TraceStep(a, mids, before, maps.Published());
    return true, mids + [maps.Published()];
  }

  /** `SetConfig`: three slots, written in order; a failure leaves the words written before it. */
  method SetConfig(maps: BpfMaps, cfg: Config) returns (r: Result<(), Error>, ghost mids: seq<Policy>)
    requires maps.Valid()
    modifies maps`config
    ensures maps.Valid()
    ensures r.Ok? ==> maps.config == ConfigWords(cfg)
    ensures r.Err? ==>
            r.error == KernelWrite && exists n: nat :: n < 3 && WordsWritten(old(maps.Published()), ConfigWords(cfg), n, maps.Published())
    ensures Trace(old(maps.Published()), mids, maps.Published())
    ensures forall m | m in mids :: Configuring(old(maps.Published()), ConfigWords(cfg), m)
  {
    var flags := 0;
    if cfg.ctEnabled { flags := flags + 1; }
    if cfg.flowEvents { flags := flags + 2; }
    var ingress: u32 := cfg.ingress;
    if ingress == 0 { ingress := ACTION_ALLOW; }
    var egress: u32 := cfg.egress;
    if egress == 0 { egress := ACTION_ALLOW; }
    var words := [flags, ingress, egress];
    assert words == ConfigWords(cfg);
    ghost var a := maps.Published();
    var ok;
    ok, mids := WriteWord(maps, words, 0, a, []);
    if !ok { return Err(KernelWrite), mids; }
    ok, mids := WriteWord(maps, words, 1, a, mids);
    if !ok { return Err(KernelWrite), mids; }
    ok, mids := WriteWord(maps, words, 2, a, mids);
    if !ok { return Err(KernelWrite), mids; }
    assert maps.config == [maps.config[0], maps.config[1], maps.config[2]];
    return Ok(()), mids;
  }
}
