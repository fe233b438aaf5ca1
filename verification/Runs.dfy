/**
 Whole runs of the datapath: any interleaving of packets, table removals (LRU
 eviction or garbage collection of any entry) and policy changes.
 */
module Runs {
  import opened Types
  import opened Packets
  import opened Conntrack
  import opened Matcher
  import opened Datapath

  datatype Event =
    | Arrive(p: Packet, now: u64)
    | Remove(k: CtKey)
    | Install(pol: Policy)

  datatype State = State(pol: Policy, ct: CtTable)

  predicate ValidEvent(ev: Event) {
    match ev
    case Arrive(p, _) => p.direction == DIR_INGRESS || p.direction == DIR_EGRESS
    case Remove(_) => true
    case Install(pol) => pol.Valid()
  }

  predicate ValidRun(s0: State, evs: seq<Event>) {
    s0.pol.Valid() && forall i | 0 <= i < |evs| :: ValidEvent(evs[i])
  }

  function Next(s: State, ev: Event): (s': State)
    requires s.pol.Valid() && ValidEvent(ev)
    ensures s'.pol.Valid()
  {
    match ev
    case Arrive(p, now) => s.(ct := NextTable(s.pol, s.ct, p, now))
    case Remove(k) => s.(ct := s.ct - {k})
    case Install(pol) => s.(pol := pol)
  }

  function StateAfter(s0: State, evs: seq<Event>): (s: State)
    requires ValidRun(s0, evs)
    ensures s.pol.Valid()
  {
    if evs == [] then s0 else Next(StateAfter(s0, evs[..|evs| - 1]), evs[|evs| - 1])
  }

  /** Event `i` of the run is a packet the datapath accepted. */
  predicate AcceptedAt(s0: State, evs: seq<Event>, i: nat)
    requires ValidRun(s0, evs) && i < |evs|
  {
    evs[i].Arrive? && (var s := StateAfter(s0, evs[..i]); Accepts(s.pol, s.ct, evs[i].p))
  }

  lemma AcceptedInPrefix(s0: State, evs: seq<Event>, n: nat, i: nat)
    requires ValidRun(s0, evs) && i < n <= |evs|
    ensures AcceptedAt(s0, evs[..n], i) == AcceptedAt(s0, evs, i)
  {
    assert evs[..n][..i] == evs[..i];
  }

  // ------------------------------------------------ stateful ingress safety

  /** Ingress is closed by default and every rule that opens it asks for a tracked flow. */
  predicate StatefulIngress(pol: Policy)
    requires pol.Valid()
  {
    && ToU8(pol.ingress) == ACTION_DENY
    && forall i | 0 <= i < pol.Active() ::
         pol.rules[i].criteria.direction == DIR_INGRESS && pol.rules[i].action != ACTION_DENY ==>
           pol.rules[i].criteria.state != CT_NONE
  }

  ghost predicate AlwaysStateful(s0: State, evs: seq<Event>)
    requires ValidRun(s0, evs)
  {
    StatefulIngress(s0.pol) && forall i | 0 <= i < |evs| && evs[i].Install? :: StatefulIngress(evs[i].pol)
  }

  lemma IngressNeedsEntry(pol: Policy, ct: CtTable, p: Packet)
    requires pol.Valid() && StatefulIngress(pol) && p.direction == DIR_INGRESS && Accepts(pol, ct, p)
    ensures BuildKey(p) in ct
  {
    var i := Matched(pol, p, CtState(pol, ct, p));
    assert i < pol.Active() && pol.rules[i].action != ACTION_DENY;
    assert RuleMatches(p, CtState(pol, ct, p), pol.rules[i].criteria, pol.ipsets);
  }

  predicate EgressAt(s0: State, evs: seq<Event>, j: nat, k: CtKey)
    requires ValidRun(s0, evs) && j < |evs|
  {
    AcceptedAt(s0, evs, j) && evs[j].p.direction == DIR_EGRESS && BuildKey(evs[j].p) == k
  }

  /** An accepted egress packet with key `k` occurs before position `n`. */
  ghost predicate EgressBefore(s0: State, evs: seq<Event>, n: nat, k: CtKey)
    requires ValidRun(s0, evs) && n <= |evs|
  {
    exists j: nat | j < n :: EgressAt(s0, evs, j, k)
  }

  lemma EgressBeforeExtends(s0: State, evs: seq<Event>, n: nat, k: CtKey)
    requires ValidRun(s0, evs) && n <= |evs| && EgressBefore(s0, evs[..n], n, k)
    ensures EgressBefore(s0, evs, n, k)
  {
    var j: nat :| j < n && EgressAt(s0, evs[..n], j, k);
    AcceptedInPrefix(s0, evs, n, j);
    assert EgressAt(s0, evs, j, k);
  }

  lemma StatefulThroughout(s0: State, evs: seq<Event>)
    requires ValidRun(s0, evs) && AlwaysStateful(s0, evs)
    ensures StatefulIngress(StateAfter(s0, evs).pol)
  {
    if evs != [] {
      StatefulThroughout(s0, evs[..|evs| - 1]);
    }
  }

  lemma {:induction false} EntriesComeFromEgress(s0: State, evs: seq<Event>)
    requires ValidRun(s0, evs) && AlwaysStateful(s0, evs) && s0.ct == map[]
    ensures forall k | k in StateAfter(s0, evs).ct :: EgressBefore(s0, evs, |evs|, k)
  {
    if evs != [] {
      var n := |evs| - 1;
      var g, ev := evs[..n], evs[n];
      EntriesComeFromEgress(s0, g);
      StatefulThroughout(s0, g);
      var s := StateAfter(s0, g);
      forall k | k in StateAfter(s0, evs).ct ensures EgressBefore(s0, evs, |evs|, k) {
        if k in s.ct {
          EgressBeforeExtends(s0, evs, n, k);
        } else {
          assert ev.Arrive? && BuildKey(ev.p) == k && AcceptedAt(s0, evs, n);
          if ev.p.direction == DIR_INGRESS { IngressNeedsEntry(s.pol, s.ct, ev.p); }
          assert EgressAt(s0, evs, n, k);
        }
      }
    }
  }

  /**
   Stateful ingress safety: when ingress is closed by default and opened only
   by rules with a conntrack predicate, every accepted ingress packet of a run
   that starts with an empty table follows an accepted egress packet of its flow.
   */
  lemma StatefulIngressSafety(s0: State, evs: seq<Event>, i: nat)
    requires ValidRun(s0, evs) && AlwaysStateful(s0, evs) && s0.ct == map[]
    requires i < |evs| && AcceptedAt(s0, evs, i) && evs[i].p.direction == DIR_INGRESS
    ensures EgressBefore(s0, evs, i, BuildKey(evs[i].p))
  {
    var g := evs[..i];
    var s := StateAfter(s0, g);
    StatefulThroughout(s0, g);
    IngressNeedsEntry(s.pol, s.ct, evs[i].p);
    EntriesComeFromEgress(s0, g);
    EgressBeforeExtends(s0, evs, i, BuildKey(evs[i].p));
  }

  // ------------------------------------------ one table, independent flows

  /** Event `n` was accepted while tracking was on. */
  predicate TrackedAt(s0: State, evs: seq<Event>, n: nat)
    requires ValidRun(s0, evs) && n < |evs|
  {
    AcceptedAt(s0, evs, n) && StateAfter(s0, evs[..n]).pol.CtEnabled()
  }

  /** The accepted packets of flow `k` since its entry was created. */
  ghost function Live(s0: State, evs: seq<Event>, k: CtKey): seq<Arrival>
    requires ValidRun(s0, evs)
  {
    if evs == [] then [] else
    var n := |evs| - 1;
    var h := Live(s0, evs[..n], k);
    match evs[n]
    case Arrive(p, now) =>
      if BuildKey(p) == k && TrackedAt(s0, evs, n) && (h != [] || Trackable(p)) then h + [Arrival(p, now)] else h
    case Remove(k') => if k' == k then [] else h
    case Install(_) => h
  }

  /**
   The shared table is a product of per-flow automata: it holds exactly the
   flows with a live history, and each entry is the fold of that history alone.
   */
  lemma {:induction false} TableIsFlowProduct(s0: State, evs: seq<Event>, k: CtKey)
    requires ValidRun(s0, evs) && s0.ct == map[]
    ensures var ct, h := StateAfter(s0, evs).ct, Live(s0, evs, k);
            && (k in ct <==> h != [])
            && (h != [] ==> FlowHistory(h) && BuildKey(h[0].p) == k && ct[k] == Fold(h))
  {
    if evs != [] {
      var n := |evs| - 1;
      var g, ev := evs[..n], evs[n];
      TableIsFlowProduct(s0, g, k);
      var s, h := StateAfter(s0, g), Live(s0, g, k);
      if ev.Arrive? && BuildKey(ev.p) == k && TrackedAt(s0, evs, n) && (h != [] || Trackable(ev.p)) {
        var h' := h + [Arrival(ev.p, ev.now)];
        assert Live(s0, evs, k) == h' && h'[..|h|] == h;
        if h == [] {
          assert Fold(h') == FirstEntry(ev.p, ev.now);
        } else {
          assert Fold(h') == Advance(Fold(h), ev.p, ev.now);
        }
      }
    }
  }

  /** What an entry says about the packets `h` of its flow. */
  ghost predicate EntryExplained(k: CtKey, e: CtEntry, h: seq<Arrival>) {
    && Canonical(k)
    && CountsAre(e, |h|, TotalSize(h))
    && (k.proto == PROTO_TCP ==>
          e.state == TcpToCt(e.tcpState) && (e.state == CT_ESTABLISHED ==> HandshakeSeen(h)))
    && (k.proto != PROTO_TCP ==>
          (e.state == CT_ESTABLISHED <==> exists i :: 1 <= i < |h| && IsReply(h[i].p)))
  }

  lemma HistoryExplains(h: seq<Arrival>)
    requires FlowHistory(h)
    ensures EntryExplained(BuildKey(h[0].p), Fold(h), h)
  {
    FoldCounts(h);
    if h[0].p.proto == PROTO_TCP {
      TcpStateAgrees(h);
      HandshakeSafety(h);
    } else {
      NonTcpEstablishedExactly(h);
    }
  }

  /**
   Every entry of every reachable table has a canonical key, counts its live
   history, and is ESTABLISHED only after a complete handshake (TCP), or
   exactly after a packet from the higher address (other protocols).
   */
  lemma EntryInvariants(s0: State, evs: seq<Event>, k: CtKey)
    requires ValidRun(s0, evs) && s0.ct == map[] && k in StateAfter(s0, evs).ct
    ensures EntryExplained(k, StateAfter(s0, evs).ct[k], Live(s0, evs, k))
  {
    TableIsFlowProduct(s0, evs, k);
    HistoryExplains(Live(s0, evs, k));
  }

  /** A packet changes at most the entry of its own flow, and a dropped packet changes none. */
  lemma StepIsLocal(s: State, p: Packet, now: u64, k: CtKey)
    requires s.pol.Valid() && ValidEvent(Arrive(p, now))
    ensures var ct' := Next(s, Arrive(p, now)).ct;
            && (!Accepts(s.pol, s.ct, p) ==> ct' == s.ct)
            && (k != BuildKey(p) ==> (k in ct' <==> k in s.ct) && (k in ct' ==> ct'[k] == s.ct[k]))
  {
  }

  // ------------------------------------------------------ non-interference

  /** No active rule carries a conntrack predicate. */
  predicate Stateless(pol: Policy)
    requires pol.Valid()
  {
    forall i | 0 <= i < pol.Active() :: pol.rules[i].criteria.state == CT_NONE
  }

  predicate SameButFlags(a: Policy, b: Policy) { a.(flags := 0) == b.(flags := 0) }

  lemma {:induction false} FirstMatchIgnoresState(rules: seq<RuleEntry>, i: nat, n: nat, p: Packet, c: u8, d: u8, trie: set<LpmKey>)
    requires i <= n <= |rules| && forall j | 0 <= j < n :: rules[j].criteria.state == CT_NONE
    ensures FirstMatch(rules, i, n, p, c, trie) == FirstMatch(rules, i, n, p, d, trie)
    decreases n - i
  {
    if i < n {
      assert RuleMatches(p, c, rules[i].criteria, trie) == RuleMatches(p, d, rules[i].criteria, trie);
      FirstMatchIgnoresState(rules, i + 1, n, p, c, d, trie);
    }
  }

  /** Without state predicates, the matched index and the verdict ignore the table and the conntrack flag. */
  lemma StatelessIgnoresConntrack(a: Policy, b: Policy, ct: CtTable, ct': CtTable, p: Packet)
    requires a.Valid() && b.Valid() && Stateless(a) && SameButFlags(a, b)
    ensures Matched(a, p, CtState(a, ct, p)) == Matched(b, p, CtState(b, ct', p))
    ensures Accepts(a, ct, p) == Accepts(b, ct', p)
  {
    FirstMatchIgnoresState(a.rules, 0, a.Active(), p, CtState(a, ct, p), CtState(b, ct', p), a.ipsets);
  }

  /** Two runs that see the same packets and the same policies, up to flags, clocks and removals. */
  ghost predicate SimilarRuns(s0: State, evs: seq<Event>, t0: State, fvs: seq<Event>) {
    && SameButFlags(s0.pol, t0.pol) && |evs| == |fvs|
    && forall i | 0 <= i < |evs| ::
         match evs[i]
         case Arrive(p, _) => fvs[i].Arrive? && fvs[i].p == p
         case Remove(_) => fvs[i].Remove?
         case Install(pol) => fvs[i].Install? && SameButFlags(pol, fvs[i].pol)
  }

  ghost predicate AlwaysStateless(s0: State, evs: seq<Event>)
    requires ValidRun(s0, evs)
  {
    Stateless(s0.pol) && forall i | 0 <= i < |evs| && evs[i].Install? :: Stateless(evs[i].pol)
  }

  lemma {:induction false} SimilarPolicies(s0: State, evs: seq<Event>, t0: State, fvs: seq<Event>)
    requires ValidRun(s0, evs) && ValidRun(t0, fvs) && SimilarRuns(s0, evs, t0, fvs) && AlwaysStateless(s0, evs)
    ensures SameButFlags(StateAfter(s0, evs).pol, StateAfter(t0, fvs).pol) && Stateless(StateAfter(s0, evs).pol)
  {
    if evs != [] {
      SimilarPolicies(s0, evs[..|evs| - 1], t0, fvs[..|fvs| - 1]);
    }
  }

  /** Conntrack non-interference over whole runs: similar runs accept the same packets, by the same rule. */
  lemma NonInterference(s0: State, evs: seq<Event>, t0: State, fvs: seq<Event>, i: nat)
    requires ValidRun(s0, evs) && ValidRun(t0, fvs) && SimilarRuns(s0, evs, t0, fvs) && AlwaysStateless(s0, evs)
    requires i < |evs|
    ensures AcceptedAt(s0, evs, i) == AcceptedAt(t0, fvs, i)
    ensures evs[i].Arrive? ==>
            var s, t := StateAfter(s0, evs[..i]), StateAfter(t0, fvs[..i]);
            Matched(s.pol, evs[i].p, CtState(s.pol, s.ct, evs[i].p)) == Matched(t.pol, evs[i].p, CtState(t.pol, t.ct, evs[i].p))
  {
    SimilarPolicies(s0, evs[..i], t0, fvs[..i]);
    var s, t := StateAfter(s0, evs[..i]), StateAfter(t0, fvs[..i]);
    if evs[i].Arrive? {
      StatelessIgnoresConntrack(s.pol, t.pol, s.ct, t.ct, evs[i].p);
    }
  }
}
