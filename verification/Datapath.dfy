/**
 The BPF maps and the packet program that runs over them.  One packet is one
 atomic step; a step reads what user space published (a `Policy`) and updates
 the conntrack table, counters, token buckets and log events.
 */
module Datapath {
  import opened Types
  import opened Packets
  import opened Conntrack
  import opened Matcher
  import opened RateLimit
  import opened Parser

  // ----------------------------------------------- decisions, as functions

  /** What user space publishes to the datapath; `limit` is the loop bound of the loaded variant. */
  datatype Policy = Policy(
    rules: seq<RuleEntry>,
    count: u32,
    ipsets: set<LpmKey>,
    flags: u32,
    ingress: u32,
    egress: u32,
    limit: nat)
  {
    predicate Valid() { |rules| == MAX_RULES && limit <= MAX_RULES }

    /** Number of rules the loop looks at. */
    function Active(): (n: nat)
      requires Valid()
      ensures n <= |rules|
    {
      Bound(count, limit)
    }

    predicate CtEnabled() { flags % 2 == 1 }
  }

  function CtState(pol: Policy, ct: CtTable, p: Packet): u8 {
    if pol.CtEnabled() then Lookup(ct, p) else 0
  }

  function Matched(pol: Policy, p: Packet, ctState: u8): (i: nat)
    requires pol.Valid()
    ensures i <= pol.Active()
  {
    FirstMatch(pol.rules, 0, pol.Active(), p, ctState, pol.ipsets)
  }

  function DefaultAction(pol: Policy, p: Packet): u8 {
    var slot := if p.direction == DIR_INGRESS then pol.ingress else pol.egress;
    if slot != 0 then ToU8(slot) else ACTION_ALLOW
  }

  /** The action applied: that of the first match, the direction's default if there is none. */
  function ActionFor(pol: Policy, p: Packet, ctState: u8): u8
    requires pol.Valid()
  {
    var i := Matched(pol, p, ctState);
    if i < pol.Active() && pol.rules[i].action != 0 then pol.rules[i].action else DefaultAction(pol, p)
  }

  predicate Accepts(pol: Policy, ct: CtTable, p: Packet)
    requires pol.Valid()
  {
    ActionFor(pol, p, CtState(pol, ct, p)) != ACTION_DENY
  }

  /** The conntrack table after one packet. */
  function NextTable(pol: Policy, ct: CtTable, p: Packet, now: u64): CtTable
    requires pol.Valid()
  {
    if pol.CtEnabled() && Accepts(pol, ct, p) then Update(ct, p, now) else ct
  }

  // ------------------------------------------------ updates, write by write

  predicate SlotWrite(a: Policy, b: Policy, i: nat) {
    i < |a.rules| && i < |b.rules| && b == a.(rules := a.rules[i := b.rules[i]])
  }

  predicate KeyWrite(a: Policy, b: Policy, k: LpmKey) {
    b == a.(ipsets := a.ipsets + {k}) || b == a.(ipsets := a.ipsets - {k})
  }

  /** Two published policies a single map write apart. */
  ghost predicate OneWrite(a: Policy, b: Policy) {
    || (exists k :: KeyWrite(a, b, k))
    || b == a.(flags := b.flags) || b == a.(ingress := b.ingress) || b == a.(egress := b.egress)
    || b == a.(count := b.count)
    || (exists i: nat :: SlotWrite(a, b, i))
  }

  /** The policy before write `i`. */
  function Nth(a: Policy, mids: seq<Policy>, i: nat): Policy
    requires i <= |mids|
  {
    if i == 0 then a else mids[i - 1]
  }

  ghost predicate WriteAt(a: Policy, mids: seq<Policy>, i: nat)
    requires i < |mids|
  {
    OneWrite(Nth(a, mids, i), mids[i])
  }

  /** The policies published after each single write of an update that leads from `a` to `b`. */
  ghost predicate Trace(a: Policy, mids: seq<Policy>, b: Policy) {
    (forall i: nat | i < |mids| :: WriteAt(a, mids, i)) && b == Nth(a, mids, |mids|)
  }

  lemma TraceStep(a: Policy, mids: seq<Policy>, b: Policy, c: Policy)
    requires Trace(a, mids, b) && OneWrite(b, c)
    ensures Trace(a, mids + [c], c)
  {
    var all := mids + [c];
    forall i: nat | i < |all| ensures WriteAt(a, all, i) {
      if i < |mids| { assert WriteAt(a, mids, i) && Nth(a, all, i) == Nth(a, mids, i); }
    }
  }

  lemma TraceJoin(a: Policy, mids: seq<Policy>, b: Policy, more: seq<Policy>, c: Policy)
    requires Trace(a, mids, b) && Trace(b, more, c)
    ensures Trace(a, mids + more, c)
  {
    var all := mids + more;
    forall i: nat | i < |all| ensures WriteAt(a, all, i) {
      if i < |mids| {
        assert WriteAt(a, mids, i) && Nth(a, all, i) == Nth(a, mids, i);
      } else {
        assert WriteAt(b, more, i - |mids|) && Nth(a, all, i) == Nth(b, more, i - |mids|);
      }
    }
  }

  // ---------------------------------------------------------- the BPF maps

  datatype Counter = Counter(packets: u64, bytes: u64)

  function Bump(c: Counter, size: u16): Counter {
    Counter((c.packets + 1) % TWO_64, (c.bytes + size) % TWO_64)
  }

  datatype LogEvent = LogEvent(tsNs: u64, ruleIdHi: u64, ruleIdLo: u64, packet: Packet, action: u8, ctState: u8)

  /** The maps that logging touches. */
  datatype Logging = Logging(buckets: seq<Bucket>, suppressed: u64, events: seq<LogEvent>)

  /** Whether a matched rule is logged at all. */
  predicate Logs(e: RuleEntry) { e.logEnabled || e.action == ACTION_LOG || e.action == ACTION_DENY }

  /** One log attempt for the rule in slot `i`; `ringSpace` says whether the ring buffer has room. */
  function LogStep(l: Logging, i: nat, e: RuleEntry, p: Packet, ctState: u8, now: u64, ringSpace: bool): Logging
    requires i < |l.buckets|
  {
    var emit := Emits(l.buckets[i], e.rateLimit, now);
    Logging(
      l.buckets[i := Check(l.buckets[i], e.rateLimit, now)],
      if emit then l.suppressed else (l.suppressed + 1) % TWO_64,
      if emit && ringSpace then l.events + [LogEvent(now, e.ruleIdHi, e.ruleIdLo, p, e.action, ctState)] else l.events)
  }

  function Logged(l: Logging, i: nat, e: RuleEntry, p: Packet, ctState: u8, now: u64, ringSpace: bool): Logging
    requires i < |l.buckets|
  {
    if Logs(e) then LogStep(l, i, e, p, ctState, now, ringSpace) else l
  }

  /** Whether rule `i` of a policy is the one applied. */
  predicate Applied(pol: Policy, i: nat)
    requires pol.Valid()
  {
    i < pol.Active() && pol.rules[i].action != 0
  }

  /** The logging maps after one packet: only the slot of the applied rule is touched. */
  function LoggingAfter(pol: Policy, ctState: u8, p: Packet, l: Logging, now: u64, ringSpace: bool): Logging
    requires pol.Valid() && |l.buckets| == MAX_RULES
  {
    var i := Matched(pol, p, ctState);
    if Applied(pol, i) then Logged(l, i, pol.rules[i], p, ctState, now, ringSpace) else l
  }

  /** The counters after one packet: the applied rule's slot counts it. */
  function CountersAfter(pol: Policy, ctState: u8, p: Packet, counters: seq<Counter>): seq<Counter>
    requires pol.Valid() && |counters| == MAX_RULES
  {
    var i := Matched(pol, p, ctState);
    if Applied(pol, i) then counters[i := Bump(counters[i], p.size)] else counters
  }

  const COMPAT_EVAL_MAX: nat := 32
  const FULL_EVAL_MAX: nat := 64

  class BpfMaps {
    /** Whether the bpf_loop variant (kernel >= 5.17) is loaded. */
    const loopVariant: bool

    var rules: seq<RuleEntry>
    var ruleCount: u32
    var ipsets: set<LpmKey>
    var config: seq<u32>
    var conntrack: CtTable
    var counters: seq<Counter>    // one CPU's view of the per-CPU maps
    var buckets: seq<Bucket>
    var suppressed: u64
    var events: seq<LogEvent>

    ghost predicate Valid()
      reads this
    {
      |rules| == MAX_RULES && |counters| == MAX_RULES && |buckets| == MAX_RULES && |config| == 3
    }

    function Limit(): nat { if loopVariant then MAX_RULES else COMPAT_EVAL_MAX }

    /** `maxRules`: how many rules user space may publish to this variant. */
    function MaxRules(): nat { if loopVariant then FULL_EVAL_MAX else COMPAT_EVAL_MAX }

    function Published(): (pol: Policy)
      requires Valid()
      reads this
      ensures pol.Valid()
    {
      Policy(rules, ruleCount, ipsets, config[0], config[1], config[2], Limit())
    }

    function LogMaps(): Logging
      reads this
    {
      Logging(buckets, suppressed, events)
    }

    /** Maps as the kernel creates them: zero-filled arrays, empty hash and trie. */
    constructor (loopVariant: bool, blank: RuleEntry)
      requires blank.action == 0
      ensures Valid() && this.loopVariant == loopVariant
      ensures ruleCount == 0 && ipsets == {} && config == [0, 0, 0] && conntrack == map[] && suppressed == 0
      ensures events == [] && rules == seq(MAX_RULES, _ => blank)
      ensures counters == seq(MAX_RULES, _ => Counter(0, 0)) && buckets == seq(MAX_RULES, _ => UNUSED)
    {
      this.loopVariant := loopVariant;
      rules := seq(MAX_RULES, _ => blank);
      counters := seq(MAX_RULES, _ => Counter(0, 0));
      buckets := seq(MAX_RULES, _ => UNUSED);
      ruleCount, ipsets, config, conntrack, suppressed, events := 0, {}, [0, 0, 0], map[], 0, [];
    }

    method CtUpdate(p: Packet, now: u64)
      modifies `conntrack
      ensures conntrack == Update(old(conntrack), p, now)
    {
      var key := BuildKey(p);
      var isReply := IsReply(p);
      if key in conntrack {
        var e := conntrack[key].(lastSeenNs := now);
        if isReply {
          e := e.(packetsRev := (e.packetsRev + 1) % TWO_64, bytesRev := (e.bytesRev + p.size) % TWO_64);
        } else {
          e := e.(packetsFwd := (e.packetsFwd + 1) % TWO_64, bytesFwd := (e.bytesFwd + p.size) % TWO_64);
        }
        if p.proto == PROTO_TCP {
          var newTcp := TcpFsm(e.tcpState, p.flags, isReply);
          if newTcp != e.tcpState {
            e := e.(tcpState := newTcp, state := TcpToCt(newTcp));
            if newTcp == CS_ESTABLISHED && e.establishedNs == 0 {
              e := e.(establishedNs := now);
            }
          }
        } else if isReply && e.state == CT_NEW {
          e := e.(state := CT_ESTABLISHED);
        }
        conntrack := conntrack[key := e];
        return;
      }
      if p.proto == PROTO_TCP && !p.flags.syn { return; }
      var fresh_ := CtEntry(now, 0, 1, p.size, 0, 0, CT_NEW, 0);
      if p.proto == PROTO_TCP {
        var ts := TcpFsm(CS_NONE, p.flags, isReply);
        fresh_ := fresh_.(tcpState := ts, state := TcpToCt(ts));
      }
      conntrack := conntrack[key := fresh_];
    }

    method CheckRateLimit(idx: nat, rate: u16, now: u64) returns (emit: bool)
      requires Valid() && idx < MAX_RULES
      modifies `buckets, `suppressed
      ensures Valid()
      ensures emit == Emits(old(buckets[idx]), rate, now)
      ensures buckets == old(buckets)[idx := Check(old(buckets[idx]), rate, now)]
      ensures suppressed == if emit then old(suppressed) else (old(suppressed) + 1) % TWO_64
    {
      if rate == 0 {
        assert buckets == buckets[idx := buckets[idx]];
        return true;
      }
      var tb := buckets[idx];
      if tb.lastNs == 0 {
        tb := Bucket(now, rate);
      } else {
        var elapsed: u64 := (now - tb.lastNs) % TWO_64;
        if elapsed > SECOND { elapsed := SECOND; }
        var add: u32 := Added(rate, elapsed);
        var refilled: u32 := (tb.tokens + add) % TWO_32;
        tb := Bucket(now, if refilled > rate then rate else refilled);
      }
      if tb.tokens == 0 {
        buckets := buckets[idx := tb];
        suppressed := (suppressed + 1) % TWO_64;
        return false;
      }
      buckets := buckets[idx := tb.(tokens := tb.tokens - 1)];
      return true;
    }

    method EmitLog(p: Packet, idx: nat, e: RuleEntry, ctState: u8, now: u64, ringSpace: bool)
      requires Valid() && idx < MAX_RULES
      modifies `buckets, `suppressed, `events
      ensures Valid()
      ensures LogMaps() == LogStep(old(LogMaps()), idx, e, p, ctState, now, ringSpace)
    {
      var emit := CheckRateLimit(idx, e.rateLimit, now);
      if !emit { return; }
      if !ringSpace { return; }
      events := events + [LogEvent(now, e.ruleIdHi, e.ruleIdLo, p, e.action, ctState)];
    }

    method ApplyAction(p: Packet, idx: nat, ctState: u8, now: u64, ringSpace: bool) returns (accept: bool)
      requires Valid() && idx < MAX_RULES
      modifies `counters, `buckets, `suppressed, `events
      ensures Valid()
      ensures accept == (rules[idx].action != ACTION_DENY)
      ensures counters == old(counters)[idx := Bump(old(counters[idx]), p.size)]
      ensures LogMaps() == Logged(old(LogMaps()), idx, rules[idx], p, ctState, now, ringSpace)
    {
      var e := rules[idx];
      counters := counters[idx := Bump(counters[idx], p.size)];
      if e.logEnabled || e.action == ACTION_LOG || e.action == ACTION_DENY {
        EmitLog(p, idx, e, ctState, now, ringSpace);
      }
      return e.action != ACTION_DENY;
    }

    method EvalRules(p: Packet, ctState: u8) returns (action: u8, idx: nat)
      requires Valid()
      ensures EvalResult(rules, Published().Active(), p, ctState, ipsets, action, idx)
    {
      if loopVariant {
        action, idx := EvalRulesLoop(rules, ruleCount, p, ctState, ipsets);
      } else {
        action, idx := EvalRulesCompat(rules, ruleCount, COMPAT_EVAL_MAX, p, ctState, ipsets);
      }
    }

    /** Conntrack sees accepted packets only, and only while it is switched on. */
    method TrackAccepted(p: Packet, accept: bool, now: u64)
      requires Valid() && accept == Accepts(Published(), conntrack, p)
      modifies `conntrack
      ensures conntrack == NextTable(Published(), old(conntrack), p, now)
    {
      if config[0] % 2 == 1 && accept { CtUpdate(p, now); }
    }

    /** The branch of `run_datapath` taken when a rule matched. */
    method HandleMatch(p: Packet, idx: nat, ctState: u8, now: u64, ringSpace: bool) returns (accept: bool)
      requires Valid() && ctState == CtState(Published(), conntrack, p)
      requires idx == Matched(Published(), p, ctState) && Applied(Published(), idx)
      modifies `conntrack, `counters, `buckets, `suppressed, `events
      ensures Valid() && Published() == old(Published())
      ensures accept == Accepts(Published(), old(conntrack), p)
      ensures conntrack == NextTable(Published(), old(conntrack), p, now)
      ensures counters == old(counters)[idx := Bump(old(counters)[idx], p.size)]
      ensures LogMaps() == Logged(old(LogMaps()), idx, rules[idx], p, ctState, now, ringSpace)
    {
      assert Accepts(Published(), conntrack, p) == (rules[idx].action != ACTION_DENY);
      TrackAccepted(p, rules[idx].action != ACTION_DENY, now);
      accept := ApplyAction(p, idx, ctState, now, ringSpace);
    }

    /** The branch of `run_datapath` taken when no rule matched: no counter, no log. */
    method HandleDefault(p: Packet, ctState: u8, now: u64) returns (accept: bool)
      requires Valid() && ctState == CtState(Published(), conntrack, p)
      requires !Applied(Published(), Matched(Published(), p, ctState))
      modifies `conntrack
      ensures Valid() && Published() == old(Published())
      ensures accept == Accepts(Published(), old(conntrack), p)
      ensures conntrack == NextTable(Published(), old(conntrack), p, now)
    {
      var def := DefaultAction(Published(), p);
      TrackAccepted(p, def != ACTION_DENY, now);
      return def != ACTION_DENY;
    }

    /** The part of `run_datapath` that follows parsing. */
    method HandlePacket(p: Packet, now: u64, ringSpace: bool) returns (accept: bool)
      requires Valid()
      modifies `conntrack, `counters, `buckets, `suppressed, `events
      ensures Valid() && Published() == old(Published())
      ensures accept == Accepts(Published(), old(conntrack), p)
      ensures conntrack == NextTable(Published(), old(conntrack), p, now)
      ensures var ctState := CtState(Published(), old(conntrack), p);
              && counters == CountersAfter(Published(), ctState, p, old(counters))
              && LogMaps() == LoggingAfter(Published(), ctState, p, old(LogMaps()), now, ringSpace)
    {
      var ctState := 0;
      if config[0] % 2 == 1 { ctState := Lookup(conntrack, p); }
      var action, idx := EvalRules(p, ctState);
      if action != 0 {
        accept := HandleMatch(p, idx, ctState, now, ringSpace);
      } else {
        accept := HandleDefault(p, ctState, now);
      }
    }

    /**
     `run_datapath`.  An unparsed frame passes and changes nothing; a parsed
     packet gets the verdict of `Accepts`, only the slot of the matched rule
     counts it, and a dropped packet leaves the conntrack table alone.
     */
    method RunDatapath(f: Frame, direction: u8, now: u64, ringSpace: bool) returns (accept: bool)
      requires Valid()
      modifies `conntrack, `counters, `buckets, `suppressed, `events
      ensures Valid() && Published() == old(Published())
      ensures Parse(f, direction).None? ==> accept && unchanged(this)
      ensures Parse(f, direction).Some? ==>
              var p := Parse(f, direction).value;
              var ctState := CtState(Published(), old(conntrack), p);
              && accept == Accepts(Published(), old(conntrack), p)
              && conntrack == NextTable(Published(), old(conntrack), p, now)
              && counters == CountersAfter(Published(), ctState, p, old(counters))
              && LogMaps() == LoggingAfter(Published(), ctState, p, old(LogMaps()), now, ringSpace)
    {
      var parsed := ParsePacket(f, direction);
      if parsed.None? { return true; }
      accept := HandlePacket(parsed.value, now, ringSpace);
    }
  }
}
