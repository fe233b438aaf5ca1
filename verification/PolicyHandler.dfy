/**
 Applying a bundle: compile, replace address sets and configuration, publish
 the rules.  After a successful `Apply`, from whatever state earlier bundles
 left, the datapath decides every packet as the bundle's rules do.
 */
module PolicyHandler {
  import opened Types
  import opened Packets
  import opened Address
  import opened Matcher
  import opened Datapath
  import opened Loader
  import opened Proto
  import opened BundleCompiler
  import opened Runs

  // -------------------------------------------- what a published policy means

  /** The maps hold a compiled bundle: rules in the first slots, sets in the trie, defaults in the config. */
  ghost predicate Holds(pol: Policy, c: CompileResult)
    requires pol.Valid()
  {
    && SetsValid(c.ipsets) && AllConvertible(c.rules) && |c.rules| <= pol.limit
    && pol.count == |c.rules| && pol.rules[..|c.rules|] == ConvertAll(c.rules) && pol.ipsets == TrieOf(c.ipsets)
    && pol.ingress == Normalised(c.config.ingress) && pol.egress == Normalised(c.config.egress)
    && pol.flags == (if c.config.ctEnabled then 1 else 0) + (if c.config.flowEvents then 2 else 0)
  }

  /** Every packet gets the action of the first bundle rule that matches it, else the direction's default. */
  ghost predicate Implements(pol: Policy, b: Bundle)
    requires pol.Valid()
  {
    && pol.CtEnabled() == b.requiresConntrack
    && forall p: Packet, ctState: u8 :: ActionFor(pol, p, ctState) == RefAction(b, p, ctState)
  }

  lemma DefaultPreserved(pol: Policy, b: Bundle, c: CompileResult, p: Packet)
    requires pol.Valid() && Holds(pol, c) && c.config == ConfigOf(b)
    ensures DefaultAction(pol, p) == RefDefault(b, p)
  {
  }

  lemma ActionPreserved(pol: Policy, b: Bundle, c: CompileResult, p: Packet, ctState: u8)
    requires pol.Valid() && Holds(pol, c) && Represents(b, c) && c.config == ConfigOf(b)
    ensures ActionFor(pol, p, ctState) == RefAction(b, p, ctState)
  {
    FirstMatchPreserved(b, c, pol.rules, p, ctState);
    DefaultPreserved(pol, b, c, p);
    var k := Matched(pol, p, ctState);
    if k < |c.rules| {
      assert pol.rules[k] == pol.rules[..|c.rules|][k] == Converted(c.rules[k]);
      assert KeptAt(b, c.rules, c.ipsets, |b.rules|, k);
    }
  }

  /** Compilation preserves meaning, for every packet and every conntrack state. */
  lemma CompilationPreservesMeaning(pol: Policy, b: Bundle, c: CompileResult)
    requires pol.Valid() && Holds(pol, c) && Represents(b, c) && c.config == ConfigOf(b)
    ensures Implements(pol, b)
  {
    forall p: Packet, ctState: u8 ensures ActionFor(pol, p, ctState) == RefAction(b, p, ctState) {
      ActionPreserved(pol, b, c, p, ctState);
    }
  }

  // ------------------------------------------------------------ the handler

  datatype ApplyResult = ApplyResult(generation: int, rules: seq<RuleSpec>, skipped: seq<nat>)

  datatype ApplyError = CompileFailed | IpsetsFailed(e: Error) | ConfigFailed(e: Error) | RulesFailed(e: Error)

  /** The failure is that of a kernel write, not of the bundle. */
  predicate KernelFault(e: ApplyError) { !e.CompileFailed? && e.e == KernelWrite }

  // ------------------------------------------------ which bundles are accepted

  /** Enum values that `validateRule` accepts. */
  predicate ValidRule(er: EffectiveRule) {
    && ACTION_ALLOW <= ToU8(er.action) <= ACTION_LOG
    && (ToU8(er.direction) == DIR_INGRESS || ToU8(er.direction) == DIR_EGRESS)
    && ToU8(er.criteria.protocol) <= PROTO_ICMPV6
  }

  /** Every rule that is not dead has valid enum values. */
  predicate Enforceable(b: Bundle) {
    forall i | 0 <= i < |b.rules| && b.rules[i].Some? && !DeadRule(b.rules[i].value) :: ValidRule(b.rules[i].value)
  }

  /** How many rules of the bundle are kept. */
  function KeptCount(b: Bundle): int { |b.rules| - |DeadIndices(b, |b.rules|)| }

  lemma CompiledIsConvertible(er: EffectiveRule, s: RuleSpec, sets: IpSets)
    requires RuleCompiled(er, s, sets)
    ensures Convertible(s) <==> ValidRule(er)
  {
    UsableCidrsMeaning(er.criteria.srcCidrs, Ip4(0, 0, 0, 0));
    UsableCidrsMeaning(er.criteria.dstCidrs, Ip4(0, 0, 0, 0));
    assert PortsOrdered(ToPorts(er.criteria.srcPorts)) && PortsOrdered(ToPorts(er.criteria.dstPorts));
  }

  /** The compiled rules pass validation exactly when the bundle is enforceable. */
  lemma ConvertibleExactly(b: Bundle, c: CompileResult)
    requires Represents(b, c)
    ensures AllConvertible(c.rules) <==> Enforceable(b)
  {
    if Enforceable(b) {
      forall k: nat | k < |c.rules| ensures Convertible(c.rules[k]) {
        assert KeptAt(b, c.rules, c.ipsets, |b.rules|, k);
        CompiledIsConvertible(b.rules[c.rules[k].priority].value, c.rules[k], c.ipsets);
      }
    }
    if AllConvertible(c.rules) {
      forall i: nat | i < |b.rules| && b.rules[i].Some? && !DeadRule(b.rules[i].value) ensures ValidRule(b.rules[i].value) {
        assert AccountedAt(b, c.rules, i);
        var k :| 0 <= k < |c.rules| && c.rules[k].priority == i;
        assert KeptAt(b, c.rules, c.ipsets, |b.rules|, k);
        CompiledIsConvertible(b.rules[i].value, c.rules[k], c.ipsets);
      }
    }
  }

  /** Compiled rules and sets that no validation turns away. */
  ghost predicate Fitting(c: CompileResult) {
    Sorted(c.rules) && AllConvertible(c.rules) && SetsValid(c.ipsets) && 0 !in c.ipsets
  }

  // -------------------------------------------------- while a bundle is installed

  /** A policy published while a compiled bundle replaces policy `a`. */
  ghost predicate Installing(a: Policy, c: CompileResult, m: Policy)
    requires a.Valid()
  {
    && m.Valid() && m.limit == a.limit && (m.ingress == a.ingress || m.ingress == Normalised(c.config.ingress))
    && ((m.rules == a.rules && m.count == a.count)
        || (|StableSort(c.rules)| <= MAX_RULES && AllConvertible(StableSort(c.rules))
            && RulesMixed(a, ConvertAll(StableSort(c.rules)), m)))
  }

  /** New entries up to some slot and old ones after it, under the old count; or all of the new ones, under theirs. */
  ghost predicate RulesMixed(a: Policy, entries: seq<RuleEntry>, m: Policy)
    requires |entries| <= |a.rules|
  {
    exists k: nat :: k <= |entries| && MixedAt(a, entries, m, k)
  }

  predicate MixedAt(a: Policy, entries: seq<RuleEntry>, m: Policy, k: nat)
    requires k <= |entries| <= |a.rules|
  {
    m.rules == entries[..k] + a.rules[k..] && (m.count == a.count || (k == |entries| && m.count == |entries|))
  }

  lemma SetsAreInstalling(a: Policy, c: CompileResult, b: Policy, m: Policy)
    requires a.Valid() && SetsOnly(a, b) && SetsOnly(b, m)
    ensures Installing(a, c, m)
  {
  }

  lemma ConfigIsInstalling(a: Policy, c: CompileResult, b: Policy, m: Policy)
    requires a.Valid() && SetsOnly(a, b) && Configuring(b, ConfigWords(c.config), m)
    ensures Installing(a, c, m)
  {
  }

  lemma RulesAreInstalling(a: Policy, c: CompileResult, b: Policy, m: Policy)
    requires a.Valid() && b == a.(ipsets := b.ipsets, flags := b.flags, ingress := Normalised(c.config.ingress), egress := b.egress)
    requires |StableSort(c.rules)| <= MAX_RULES && AllConvertible(StableSort(c.rules))
    requires Replacing(b, ConvertAll(StableSort(c.rules)), m)
    ensures Installing(a, c, m)
  {
    var entries := ConvertAll(StableSort(c.rules));
    if k: nat :| k <= |entries| && SlotsWritten(b, entries, k, m) {
      assert MixedAt(a, entries, m, k);
    } else {
      assert entries[..|entries|] == entries;
      assert MixedAt(a, entries, m, |entries|);
    }
  }

  /** What `StatefulIngress` asks of one rule. */
  predicate StatefulEntry(e: RuleEntry) {
    e.criteria.direction == DIR_INGRESS && e.action != ACTION_DENY ==> e.criteria.state != CT_NONE
  }

  lemma BundleEntriesStateful(b: Bundle, c: CompileResult, k: nat)
    requires Represents(b, c) && StatefulIngressBundle(b) && k < |c.rules| && Convertible(c.rules[k])
    ensures StatefulEntry(Converted(c.rules[k]))
  {
    assert KeptAt(b, c.rules, c.ipsets, |b.rules|, k);
  }

  lemma MixedStateful(a: Policy, entries: seq<RuleEntry>, m: Policy)
    requires a.Valid() && m.Valid() && m.limit == a.limit && StatefulIngress(a) && |entries| <= MAX_RULES
    requires (forall j | 0 <= j < |entries| :: StatefulEntry(entries[j])) && RulesMixed(a, entries, m)
    requires ToU8(m.ingress) == ACTION_DENY
    ensures StatefulIngress(m)
  {
    var k: nat :| k <= |entries| && MixedAt(a, entries, m, k);
    forall i | 0 <= i < m.Active() ensures StatefulEntry(m.rules[i]) {
      if i < k {
        assert m.rules[i] == entries[i];
      } else {
        assert m.rules[i] == a.rules[i] && StatefulEntry(a.rules[i]);
      }
    }
  }

  /** Between two stateful-ingress bundles, every policy published on the way is stateful too. */
  lemma InstallingStateful(a: Policy, b: Bundle, c: CompileResult, m: Policy)
    requires a.Valid() && StatefulIngress(a) && Installing(a, c, m)
    requires StatefulIngressBundle(b) && Represents(b, c) && c.config == ConfigOf(b)
    ensures StatefulIngress(m)
  {
    RepresentsSorted(b, c);
    SortedUntouched(c.rules);
    assert ToU8(m.ingress) == ACTION_DENY;
    if !(m.rules == a.rules && m.count == a.count) {
      forall j | 0 <= j < |c.rules| ensures StatefulEntry(ConvertAll(c.rules)[j]) {
        BundleEntriesStateful(b, c, j);
      }
      MixedStateful(a, ConvertAll(c.rules), m);
    }
  }

  class Handler {
    const maps: BpfMaps
    var current: Option<ApplyResult>

    constructor (maps: BpfMaps)
      requires maps.Valid() && maps.ruleCount == 0
      ensures this.maps == maps && current == None && InStep()
    {
      this.maps := maps;
      current := None;
    }

    /** Rule `i` of the current result is in slot `i`, and no other slot is active. */
    ghost predicate InStep()
      reads this, maps
    {
      maps.Valid() && match current
        case None => maps.ruleCount == 0
        case Some(ar) => && |ar.rules| <= maps.MaxRules() && maps.ruleCount == |ar.rules| && AllConvertible(ar.rules)
                         && maps.rules[..|ar.rules|] == ConvertAll(ar.rules)
    }

    /** The loop over the spilled sets, in the map's arbitrary order. */
    method PushSets(sets: IpSets) returns (failure: Option<Error>, ghost mids: seq<Policy>)
      requires maps.Valid() && maps.ipsets == {}
      modifies maps`ipsets
      ensures maps.Valid()
      ensures failure.None? ==> SetsValid(sets) && maps.ipsets == TrieOf(sets)
      ensures failure.Some? && SetsValid(sets) && 0 !in sets ==> failure.value == KernelWrite
      ensures Trace(old(maps.Published()), mids, maps.Published()) && forall m | m in mids :: SetsOnly(old(maps.Published()), m)
    {
      var todo := sets.Keys;
      ghost var a := maps.Published();
      assert TrieOf(Only(sets, {})) == {};
      mids := [];
      while todo != {}
        invariant maps.Valid() && SetsOnly(a, maps.Published())
        invariant todo <= sets.Keys && SetsValid(Only(sets, sets.Keys - todo))
        invariant maps.ipsets == TrieOf(Only(sets, sets.Keys - todo))
        invariant Trace(a, mids, maps.Published()) && forall m | m in mids :: SetsOnly(a, m)
        decreases |todo|
      {
        var id :| id in todo;
        ghost var before := maps.Published();
        var r;
        ghost var more;
        r, more := PushIPSet(maps, id, sets[id]);
        TraceJoin(a, mids, before, more, maps.Published());
        mids := mids + more;
        if r.Err? { return Some(r.error), mids; }
        OnlyGrows(sets, todo, id);
        todo := todo - {id};
      }
      assert Only(sets, sets.Keys - todo) == sets;
      return None, mids;
    }

    /** Address sets and configuration: what `Apply` replaces before the rules. */
    method InstallSets(c: CompileResult) returns (e: Option<ApplyError>, ghost mids: seq<Policy>)
      requires maps.Valid()
      modifies maps`ipsets, maps`config
      ensures maps.Valid()
      ensures e.None? ==> SetsValid(c.ipsets) && maps.ipsets == TrieOf(c.ipsets) && maps.config == ConfigWords(c.config)
      ensures e.Some? && SetsValid(c.ipsets) && 0 !in c.ipsets ==> KernelFault(e.value)
      ensures e.Some? ==> e.value.IpsetsFailed? || e.value.ConfigFailed?
      ensures Trace(old(maps.Published()), mids, maps.Published())
      ensures forall m | m in mids :: Installing(old(maps.Published()), c, m)
    {
      ghost var a := maps.Published();
      var cleared;
      cleared, mids := ClearIPSets(maps);
      forall m | m in mids ensures Installing(a, c, m) { SetsAreInstalling(a, c, a, m); }
      if cleared.Err? { return Some(IpsetsFailed(cleared.error)), mids; }
      ghost var b := maps.Published();
      var pushed;
      ghost var more;
      pushed, more := PushSets(c.ipsets);
      TraceJoin(a, mids, b, more, maps.Published());
      forall m | m in more ensures Installing(a, c, m) { SetsAreInstalling(a, c, b, m); }
      mids := mids + more;
      if pushed.Some? { return Some(IpsetsFailed(pushed.value)), mids; }
      b := maps.Published();
      var configured;
      configured, more := SetConfig(maps, c.config);
      TraceJoin(a, mids, b, more, maps.Published());
      forall m | m in more ensures Installing(a, c, m) { ConfigIsInstalling(a, c, b, m); }
      mids := mids + more;
      if configured.Err? { return Some(ConfigFailed(configured.error)), mids; }
      return None, mids;
    }

    /** The map writes of `Apply`, in order. */
    method Install(c: CompileResult) returns (e: Option<ApplyError>, ghost mids: seq<Policy>)
      requires maps.Valid()
      modifies maps`rules, maps`ruleCount, maps`ipsets, maps`config
      ensures maps.Valid()
      ensures e.None? && Sorted(c.rules) ==> Holds(maps.Published(), c) && |c.rules| <= maps.MaxRules()
      ensures e.Some? && e.value != RulesFailed(KernelWrite) ==>
              maps.rules == old(maps.rules) && maps.ruleCount == old(maps.ruleCount)
      ensures e.Some? && Fitting(c) && |c.rules| <= maps.MaxRules() ==> KernelFault(e.value)
      ensures e.Some? ==> !e.value.CompileFailed?
      ensures Trace(old(maps.Published()), mids, maps.Published())
      ensures forall m | m in mids :: Installing(old(maps.Published()), c, m)
    {
      ghost var a := maps.Published();
      e, mids := InstallSets(c);
      if e.Some? { return; }
      ghost var b := maps.Published();
      var published;
      ghost var more;
      published, more := PushRules(maps, c.rules);
      TraceJoin(a, mids, b, more, maps.Published());
      forall m | m in more ensures Installing(a, c, m) { RulesAreInstalling(a, c, b, m); }
      mids := mids + more;
      if Sorted(c.rules) { SortedUntouched(c.rules); }
      if published.Err? { return Some(RulesFailed(published.error)), mids; }
      if Sorted(c.rules) { assert maps.rules[..|c.rules|] == ConvertAll(c.rules); }
      return None, mids;
    }

    /**
     `Apply`.  On success the datapath implements the bundle.  It succeeds, up
     to failing kernel writes, exactly on bundles that compile, are enforceable
     and keep no more rules than the loaded variant takes.  A failing call
     keeps `current`, and keeps the rule slots too unless the failure is a
     kernel write of a rule or of the rule count.  `mids` are the policies
     published after each single write.
     */
    method Apply(bundle: Option<Bundle>) returns (r: Result<ApplyResult, ApplyError>, ghost mids: seq<Policy>)
      requires maps.Valid()
      modifies this, maps`rules, maps`ruleCount, maps`ipsets, maps`config
      ensures maps.Valid()
      ensures r.Ok? ==> bundle.Some? && current == Some(r.value) && r.value.generation == bundle.value.generation
                        && r.value.skipped == DeadIndices(bundle.value, |bundle.value.rules|)
      ensures r.Ok? && FitsInt32(bundle.value) ==>
              && Implements(maps.Published(), bundle.value) && InStep()
              && (StatelessBundle(bundle.value) ==> Stateless(maps.Published()))
              && (StatefulIngressBundle(bundle.value) ==> StatefulIngress(maps.Published()))
      ensures r.Err? ==> current == old(current)
      ensures r.Err? && r.error != RulesFailed(KernelWrite) ==>
              maps.rules == old(maps.rules) && maps.ruleCount == old(maps.ruleCount) && (old(InStep()) ==> InStep())
      ensures r == Err(CompileFailed) <==> bundle.None? || !NoFailure(bundle.value, |bundle.value.rules|)
      ensures r.Ok? && FitsInt32(bundle.value) ==> Enforceable(bundle.value) && KeptCount(bundle.value) <= maps.MaxRules()
      ensures r.Err? && r.error != CompileFailed && FitsInt32(bundle.value) && Enforceable(bundle.value) ==>
              KeptCount(bundle.value) <= maps.MaxRules() ==> KernelFault(r.error)
      ensures Trace(old(maps.Published()), mids, maps.Published())
      ensures bundle.Some? && FitsInt32(bundle.value) && StatefulIngressBundle(bundle.value) && StatefulIngress(old(maps.Published()))
              ==> forall m | m in mids :: m.Valid() && StatefulIngress(m)
    {
      mids := [];
      var res := CompileBundle(bundle);
      if res.Err? { return Err(CompileFailed), []; }
      var c := res.value;
      ghost var a := maps.Published();
      var failure;
      failure, mids := Install(c);
      if FitsInt32(bundle.value) {
        RepresentsSorted(bundle.value, c);
        ConvertibleExactly(bundle.value, c);
        if StatefulIngressBundle(bundle.value) && StatefulIngress(a) {
          forall m | m in mids ensures m.Valid() && StatefulIngress(m) { InstallingStateful(a, bundle.value, c, m); }
        }
      }
      if failure.Some? { return Err(failure.value), mids; }
      var ar := ApplyResult(bundle.value.generation, c.rules, c.skipped);
      current := Some(ar);
      if FitsInt32(bundle.value) {
        CompilationPreservesMeaning(maps.Published(), bundle.value, c);
        ConditionsSurviveCompilation(maps.Published(), bundle.value, c);
      }
      return Ok(ar), mids;
    }

    /** `Current`, with the attribution the counter poller relies on: counter slot `i` counts rule `i`. */
    method Current() returns (ar: Option<ApplyResult>)
      requires InStep()
      ensures ar == current
      ensures ar.Some? ==> forall i | 0 <= i < |ar.value.rules| ::
                Convertible(ar.value.rules[i]) && maps.rules[i] == Converted(ar.value.rules[i])
    {
      if current.Some? {
        var n := |current.value.rules|;
        assert forall i | 0 <= i < n :: maps.rules[i] == maps.rules[..n][i];
      }
      return current;
    }
  }

  /** The sets with ids in `ids`. */
  ghost function Only(sets: IpSets, ids: set<u32>): IpSets { map k | k in sets && k in ids :: sets[k] }

  lemma OnlyGrows(sets: IpSets, todo: set<u32>, id: u32)
    requires id in todo && todo <= sets.Keys && SetsValid(Only(sets, sets.Keys - todo)) && AllValid(sets[id])
    ensures var was, now := Only(sets, sets.Keys - todo), Only(sets, sets.Keys - (todo - {id}));
            SetsValid(now) && TrieOf(now) == TrieOf(was) + IpsetKeys(id, sets[id])
  {
    var was := Only(sets, sets.Keys - todo);
    TrieGrows(was, id, sets[id]);
    assert Only(sets, sets.Keys - (todo - {id})) == was[id := sets[id]];
  }

  lemma TrieGrows(sets: IpSets, id: u32, cidrs: seq<CIDR4>)
    requires SetsValid(sets) && id !in sets && AllValid(cidrs)
    ensures SetsValid(sets[id := cidrs]) && TrieOf(sets[id := cidrs]) == TrieOf(sets) + IpsetKeys(id, cidrs)
  {
    var t := sets[id := cidrs];
    assert SetsValid(t);
    forall k | k in TrieOf(t) ensures k in TrieOf(sets) + IpsetKeys(id, cidrs) {
      var j :| j in t && k in IpsetKeys(j, t[j]);
      if j != id { assert j in sets && k in IpsetKeys(j, sets[j]); }
    }
    forall k | k in TrieOf(sets) ensures k in TrieOf(t) {
      var j :| j in sets && k in IpsetKeys(j, sets[j]);
      assert j in t && t[j] == sets[j];
    }
    forall k | k in IpsetKeys(id, cidrs) ensures k in TrieOf(t) {
      assert id in t && t[id] == cidrs;
    }
  }

  // ------------------------------- bundle-level conditions for the run theorems

  /** Bundles without conntrack predicates. */
  predicate StatelessBundle(b: Bundle) {
    forall i | 0 <= i < |b.rules| && b.rules[i].Some? ::
      ToU8(b.rules[i].value.state) == 0 || ToU8(b.rules[i].value.state) == CT_NONE
  }

  /** Bundles that close ingress by default and open it only with a conntrack predicate. */
  predicate StatefulIngressBundle(b: Bundle) {
    && ToU8(b.ingress) == ACTION_DENY
    && forall i | 0 <= i < |b.rules| && b.rules[i].Some? ::
         var er := b.rules[i].value;
         ToU8(er.direction) == DIR_INGRESS && ToU8(er.action) != ACTION_DENY ==>
           ToU8(er.state) != 0 && ToU8(er.state) != CT_NONE
  }

  /** A compiled bundle keeps both conditions, so the run theorems apply to the published policy. */
  lemma ConditionsSurviveCompilation(pol: Policy, b: Bundle, c: CompileResult)
    requires pol.Valid() && Holds(pol, c) && Represents(b, c) && c.config == ConfigOf(b)
    ensures StatelessBundle(b) ==> Stateless(pol)
    ensures StatefulIngressBundle(b) ==> StatefulIngress(pol)
  {
    forall k | 0 <= k < |c.rules|
      ensures KeptAt(b, c.rules, c.ipsets, |b.rules|, k)
      ensures var er := b.rules[c.rules[k].priority].value;
              && pol.rules[k].action == ToU8(er.action)
              && pol.rules[k].criteria.direction == ToU8(er.direction)
              && pol.rules[k].criteria.state == OrElse(ToU8(er.state), CT_NONE)
    {
      assert pol.rules[k] == pol.rules[..|c.rules|][k] == Converted(c.rules[k]);
    }
  }
}
