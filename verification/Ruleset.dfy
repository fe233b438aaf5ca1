/**
 The control plane's ruleset compiler: the rules of the policies that select a
 host, resolved and put in (policy priority, rule priority, rule id) order.
 With unique rule ids the result does not depend on any listing order.
 */
module Ruleset {
  import opened Types
  import opened Proto
  import opened Store
  import L = Lexical

  // ---------------------------------------------------------- resolving rules

  datatype Resolved = Resolved(
    rule: Rule,
    policy: PolicyRow,
    spec: MatchSpec,
    src: seq<ProtoCidr>,
    dst: seq<ProtoCidr>,
    srcPorts: seq<ProtoPorts>,
    dstPorts: seq<ProtoPorts>)

  datatype ResolvedGroup = ResolvedGroup(cidrs: seq<ProtoCidr>, ports: seq<ProtoPorts>)

  /** The list without its wrappers, if every text parsed. */
  function AllParsed<T>(s: seq<Option<T>>): Option<seq<T>> {
    if s == [] then Some([])
    else
      var rest := AllParsed(s[1..]);
      if s[0].Some? && rest.Some? then Some([s[0].value] + rest.value) else None
  }

  /** Inline lists: a list with an unparseable text counts as empty. */
  function Inline<T>(s: seq<Option<T>>): seq<T> { if AllParsed(s).Some? then AllParsed(s).value else [] }

  function HostCidrs(hosts: seq<Host>): seq<ProtoCidr> {
    if hosts == [] then []
    else (if hosts[0].ip.Some? then [hosts[0].ip.value] else []) + HostCidrs(hosts[1..])
  }

  function ResolveGroup(t: Tables, id: string): Option<ResolvedGroup> {
    if id !in t.groups then None
    else match t.groups[id]
      case IpSet(cidrs) => if AllParsed(cidrs).Some? then Some(ResolvedGroup(AllParsed(cidrs).value, [])) else None
      case PortSet(ports) => if AllParsed(ports).Some? then Some(ResolvedGroup([], AllParsed(ports).value)) else None
      case HostSet(sel) => Some(ResolvedGroup(HostCidrs(Filtered(t.hosts, sel)), []))
      case Unreadable => None
  }

  /** One address side: address set, else host set, else the inline list. */
  function ResolveSide(t: Tables, ipSet: string, hostSet: string, inline: seq<Option<ProtoCidr>>): Option<seq<ProtoCidr>> {
    if ipSet != "" then (if ResolveGroup(t, ipSet).Some? then Some(ResolveGroup(t, ipSet).value.cidrs) else None)
    else if hostSet != "" then (if ResolveGroup(t, hostSet).Some? then Some(ResolveGroup(t, hostSet).value.cidrs) else None)
    else Some(Inline(inline))
  }

  function ResolvePorts(t: Tables, portSet: string, inline: seq<Option<ProtoPorts>>): Option<seq<ProtoPorts>> {
    if portSet != "" then (if ResolveGroup(t, portSet).Some? then Some(ResolveGroup(t, portSet).value.ports) else None)
    else Some(Inline(inline))
  }

  function ResolveRule(t: Tables, p: PolicyRow, r: Rule): (rr: Option<Resolved>)
    ensures rr.Some? ==> rr.value.rule == r && rr.value.policy == p
  {
    if r.criteria.None? then None
    else
      var m := r.criteria.value;
      var src := ResolveSide(t, m.srcIpSet, m.srcHostSet, m.srcCidrs);
      var dst := ResolveSide(t, m.dstIpSet, m.dstHostSet, m.dstCidrs);
      var sp := ResolvePorts(t, m.srcPortSet, m.srcPorts);
      var dp := ResolvePorts(t, m.dstPortSet, m.dstPorts);
      if src.Some? && dst.Some? && sp.Some? && dp.Some?
      then Some(Resolved(r, p, m, src.value, dst.value, sp.value, dp.value)) else None
  }

  /** Resolution looks at groups and hosts only, not at the policy or rule tables. */
  lemma ResolveDependsOn(t: Tables, u: Tables, p: PolicyRow, r: Rule)
    requires t.groups == u.groups && t.hosts == u.hosts
    ensures ResolveRule(t, p, r) == ResolveRule(u, p, r)
  {
  }

  // ------------------------------------------------------------------ order

  datatype Key = Key(policyPriority: int, rulePriority: int, id: string)

  function KeyOf(rr: Resolved): Key { Key(rr.policy.priority, rr.rule.priority, rr.rule.id) }

  predicate KeyLess(a: Key, b: Key) {
    || a.policyPriority < b.policyPriority
    || (a.policyPriority == b.policyPriority &&
        (a.rulePriority < b.rulePriority || (a.rulePriority == b.rulePriority && L.Less(a.id, b.id))))
  }

  lemma KeyLessTransitive(a: Key, b: Key, c: Key)
    requires KeyLess(a, b) && KeyLess(b, c)
    ensures KeyLess(a, c)
  {
    if a.policyPriority == b.policyPriority == c.policyPriority && a.rulePriority == b.rulePriority == c.rulePriority {
      L.LessTransitive(a.id, b.id, c.id);
    }
  }

  lemma KeyTrichotomy(a: Key, b: Key)
    ensures a == b || KeyLess(a, b) || KeyLess(b, a)
    ensures !(KeyLess(a, b) && KeyLess(b, a)) && !KeyLess(a, a)
  {
    L.Total(a.id, b.id);
    if KeyLess(a, b) && KeyLess(b, a) { L.Antisymmetric(a.id, b.id); }
  }

  ghost predicate Ordered(s: seq<Resolved>) {
    forall i, j | 0 <= i < j < |s| :: KeyLess(KeyOf(s[i]), KeyOf(s[j]))
  }

  ghost predicate DistinctIds(s: seq<Resolved>) {
    forall i, j | 0 <= i < j < |s| :: s[i].rule.id != s[j].rule.id
  }

  /** `slices.SortFunc`, by insertion. */
  function Insert(x: Resolved, s: seq<Resolved>): seq<Resolved> {
    if s == [] || !KeyLess(KeyOf(s[0]), KeyOf(x)) then [x] + s else [s[0]] + Insert(x, s[1..])
  }

  function SortRules(s: seq<Resolved>): seq<Resolved> {
    if s == [] then [] else Insert(s[0], SortRules(s[1..]))
  }

  lemma {:induction false} InsertIsPermutation(x: Resolved, s: seq<Resolved>)
    ensures multiset(Insert(x, s)) == multiset(s) + multiset{x}
  {
    if s != [] && KeyLess(KeyOf(s[0]), KeyOf(x)) {
      InsertIsPermutation(x, s[1..]);
      assert s == [s[0]] + s[1..];
    }
  }

  lemma {:induction false} SortIsPermutation(s: seq<Resolved>)
    ensures multiset(SortRules(s)) == multiset(s)
  {
    if s != [] {
      SortIsPermutation(s[1..]);
      InsertIsPermutation(s[0], SortRules(s[1..]));
      assert s == [s[0]] + s[1..];
    }
  }

  lemma SameMembers(s: seq<Resolved>, t: seq<Resolved>)
    requires multiset(s) == multiset(t)
    ensures forall x :: x in s <==> x in t
  {
    forall x ensures x in s <==> x in t {
      assert x in s <==> x in multiset(s);
      assert x in t <==> x in multiset(t);
    }
  }

  lemma OrderedPrepend(x: Resolved, s: seq<Resolved>)
    requires Ordered(s) && forall y | y in s :: KeyLess(KeyOf(x), KeyOf(y))
    ensures Ordered([x] + s)
  {
    assert forall j | 0 <= j < |s| :: s[j] in s;
  }

  lemma HeadBelowInserted(x: Resolved, s: seq<Resolved>, y: Resolved)
    requires Ordered(s) && s != [] && KeyLess(KeyOf(s[0]), KeyOf(x)) && y in Insert(x, s[1..])
    ensures KeyLess(KeyOf(s[0]), KeyOf(y))
  {
    InsertIsPermutation(x, s[1..]);
    assert y in multiset(Insert(x, s[1..]));
    if y != x {
      assert y in multiset(s[1..]);
      var k :| 0 <= k < |s[1..]| && s[1..][k] == y;
      assert s[k + 1] == y;
    }
  }

  lemma {:induction false} InsertKeepsOrder(x: Resolved, s: seq<Resolved>)
    requires Ordered(s) && forall y | y in s :: y.rule.id != x.rule.id
    ensures Ordered(Insert(x, s))
  {
    if s == [] {
    } else if !KeyLess(KeyOf(s[0]), KeyOf(x)) {
      KeyTrichotomy(KeyOf(x), KeyOf(s[0]));
      forall y | y in s ensures KeyLess(KeyOf(x), KeyOf(y)) {
        LeastFirst(s, y);
        if y != s[0] { KeyLessTransitive(KeyOf(x), KeyOf(s[0]), KeyOf(y)); }
      }
      OrderedPrepend(x, s);
    } else {
      InsertKeepsOrder(x, s[1..]);
      forall y | y in Insert(x, s[1..]) ensures KeyLess(KeyOf(s[0]), KeyOf(y)) {
        HeadBelowInserted(x, s, y);
      }
      OrderedPrepend(s[0], Insert(x, s[1..]));
    }
  }

  lemma {:induction false} SortIsOrdered(s: seq<Resolved>)
    requires DistinctIds(s)
    ensures Ordered(SortRules(s))
  {
    if s != [] {
      SortIsOrdered(s[1..]);
      SortIsPermutation(s[1..]);
      SameMembers(SortRules(s[1..]), s[1..]);
      forall y | y in SortRules(s[1..]) ensures y.rule.id != s[0].rule.id {
        var k :| 0 <= k < |s[1..]| && s[1..][k] == y;
        assert s[k + 1] == y;
      }
      InsertKeepsOrder(s[0], SortRules(s[1..]));
    }
  }

  lemma SameHeads(s: seq<Resolved>, t: seq<Resolved>)
    requires Ordered(s) && Ordered(t) && s != [] && t != [] && s[0] in t && t[0] in s
    ensures s[0] == t[0]
  {
    LeastFirst(s, t[0]);
    LeastFirst(t, s[0]);
    KeyTrichotomy(KeyOf(s[0]), KeyOf(t[0]));
  }

  /** An ordered list is determined by its members. */
  lemma {:induction false} OrderedUnique(s: seq<Resolved>, t: seq<Resolved>)
    requires Ordered(s) && Ordered(t) && forall x :: x in s <==> x in t
    ensures s == t
  {
    assert t != [] ==> t[0] in t;
    if s != [] {
      assert s[0] in s && s[0] in t;
      SameHeads(s, t);
      TailMembers(s);
      TailMembers(t);
      OrderedTail(s);
      OrderedTail(t);
      OrderedUnique(s[1..], t[1..]);
      assert s == [s[0]] + s[1..] && t == [t[0]] + t[1..];
    }
  }

  lemma OrderedTail(s: seq<Resolved>)
    requires Ordered(s) && s != []
    ensures Ordered(s[1..])
  {
  }

  lemma LeastFirst(s: seq<Resolved>, x: Resolved)
    requires Ordered(s) && x in s
    ensures x == s[0] || KeyLess(KeyOf(s[0]), KeyOf(x))
  {
  }

  lemma TailMembers(s: seq<Resolved>)
    requires Ordered(s) && s != []
    ensures forall x :: x in s[1..] <==> x in s && x != s[0]
  {
    forall x | x in s[1..] ensures x != s[0] {
      var k :| 0 <= k < |s[1..]| && s[1..][k] == x;
      KeyTrichotomy(KeyOf(s[0]), KeyOf(s[k + 1]));
    }
    assert s == [s[0]] + s[1..];
  }

  // -------------------------------------------------------------- compiling

  datatype EffectiveRuleset = EffectiveRuleset(rules: seq<Resolved>, ingress: ActionName, egress: ActionName)

  predicate Applies(p: PolicyRow, labels: Labels) { p.selector.Some? && MatchesLabels(p.selector.value, labels) }

  function ResolveAll(t: Tables, p: PolicyRow, rules: seq<Rule>): Option<seq<Resolved>> {
    if rules == [] then Some([])
    else
      var n := |rules| - 1;
      var front, rr := ResolveAll(t, p, rules[..n]), ResolveRule(t, p, rules[n]);
      if front.Some? && rr.Some? then Some(front.value + [rr.value]) else None
  }

  /** The resolved rules of the policies that apply, in listing order. */
  function Collect(t: Tables, ps: seq<PolicyRow>, labels: Labels): Option<seq<Resolved>> {
    if ps == [] then Some([])
    else
      var n := |ps| - 1;
      var front := Collect(t, ps[..n], labels);
      if front.None? || !Applies(ps[n], labels) then front
      else
        var own := ResolveAll(t, ps[n], t.RulesOf(ps[n]));
        if own.Some? then Some(front.value + own.value) else None
  }

  function Compile(t: Tables, labels: Labels): Option<EffectiveRuleset> {
    var c := Collect(t, t.policies, labels);
    if c.Some? then Some(EffectiveRuleset(SortRules(c.value), t.defaultIngress, t.defaultEgress)) else None
  }

  /** `resolveRulesForPolicy`. */
  method ResolveRulesForPolicy(t: Tables, p: PolicyRow) returns (r: Option<seq<Resolved>>)
    ensures r == ResolveAll(t, p, t.RulesOf(p))
  {
    var rules := t.RulesOf(p);
    var resolved: seq<Resolved> := [];
    for i := 0 to |rules|
      invariant ResolveAll(t, p, rules[..i]) == Some(resolved)
    {
      var next := ResolveNext(t, p, rules, i, rules[i], resolved);
      if next.None? { return None; }
      resolved := next.value;
    }
    assert rules[..|rules|] == rules;
    return Some(resolved);
  }

  /** One turn of the resolving loops; the first failure decides. */
  method ResolveNext(t: Tables, p: PolicyRow, ghost rules: seq<Rule>, ghost i: nat, rule: Rule, resolved: seq<Resolved>)
    returns (r: Option<seq<Resolved>>)
    requires i < |rules| && rules[i] == rule && ResolveAll(t, p, rules[..i]) == Some(resolved)
    ensures r == ResolveAll(t, p, rules[..i + 1])
    ensures r.None? ==> ResolveAll(t, p, rules).None?
  {
    assert rules[..i + 1][..i] == rules[..i];
    var rr := ResolveRule(t, p, rule);
    if rr.None? {
      FailureSticks(t, p, rules, i + 1);
      return None;
    }
    return Some(resolved + [rr.value]);
  }

  lemma {:induction false} FailureSticks(t: Tables, p: PolicyRow, rules: seq<Rule>, n: nat)
    requires n <= |rules| && ResolveAll(t, p, rules[..n]).None?
    ensures ResolveAll(t, p, rules).None?
    decreases |rules| - n
  {
    if n < |rules| {
      assert rules[..n + 1][..n] == rules[..n];
      FailureSticks(t, p, rules, n + 1);
    } else {
      assert rules[..n] == rules;
    }
  }

  lemma {:induction false} CollectFailureSticks(t: Tables, ps: seq<PolicyRow>, labels: Labels, n: nat)
    requires n <= |ps| && Collect(t, ps[..n], labels).None?
    ensures Collect(t, ps, labels).None?
    decreases |ps| - n
  {
    if n < |ps| {
      assert ps[..n + 1][..n] == ps[..n];
      CollectFailureSticks(t, ps, labels, n + 1);
    } else {
      assert ps[..n] == ps;
    }
  }

  /** One policy more, in terms of those before it. */
  lemma CollectOneMore(t: Tables, ps: seq<PolicyRow>, labels: Labels, i: nat)
    requires i < |ps|
    ensures !Applies(ps[i], labels) ==> Collect(t, ps[..i + 1], labels) == Collect(t, ps[..i], labels)
    ensures Applies(ps[i], labels) ==>
            var front, rules := Collect(t, ps[..i], labels), ResolveAll(t, ps[i], t.RulesOf(ps[i]));
            Collect(t, ps[..i + 1], labels) == if front.Some? && rules.Some? then Some(front.value + rules.value) else None
  {
    assert ps[..i + 1][..i] == ps[..i] && ps[..i + 1][i] == ps[i];
  }

  function HostLabels(hosts: seq<Host>, id: string): Option<Labels> {
    if hosts == [] then None else if hosts[0].id == id then Some(hosts[0].labels) else HostLabels(hosts[1..], id)
  }

  /** `Compile` for one host. */
  method CompileHost(t: Tables, hostId: string) returns (r: Option<EffectiveRuleset>)
    ensures r == if HostLabels(t.hosts, hostId).Some? then Compile(t, HostLabels(t.hosts, hostId).value) else None
  {
    var labels := HostLabels(t.hosts, hostId);
    if labels.None? { return None; }
    var resolved: seq<Resolved> := [];
    for i := 0 to |t.policies|
      invariant Collect(t, t.policies[..i], labels.value) == Some(resolved)
    {
      var p := t.policies[i];
      CollectOneMore(t, t.policies, labels.value, i);
      if p.selector.None? { continue; }
      if !MatchesLabels(p.selector.value, labels.value) { continue; }
      var rules := ResolveRulesForPolicy(t, p);
      if rules.None? {
        CollectFailureSticks(t, t.policies, labels.value, i + 1);
        return None;
      }
      resolved := resolved + rules.value;
    }
    assert t.policies[..|t.policies|] == t.policies;
    return Some(EffectiveRuleset(SortRules(resolved), t.defaultIngress, t.defaultEgress));
  }

  // ------------------------------------------------- what a compilation holds

  /** Rule `rr` belongs to the compilation of policies `ps`. */
  predicate Feeds(t: Tables, ps: seq<PolicyRow>, labels: Labels, rr: Resolved) {
    && rr.policy in ps && Applies(rr.policy, labels)
    && rr.rule in t.RulesOf(rr.policy) && ResolveRule(t, rr.policy, rr.rule) == Some(rr)
  }

  lemma {:induction false} ResolveAllSucceeds(t: Tables, p: PolicyRow, rules: seq<Rule>)
    ensures ResolveAll(t, p, rules).Some? <==> forall r | r in rules :: ResolveRule(t, p, r).Some?
    ensures rules == t.RulesOf(p) ==> (ResolveAll(t, p, rules).Some? <==> Resolves(t, p))
    ensures ResolveAll(t, p, rules).Some? ==>
            && |ResolveAll(t, p, rules).value| == |rules|
            && forall i | 0 <= i < |rules| :: ResolveAll(t, p, rules).value[i].rule == rules[i]
  {
    if rules != [] {
      var n := |rules| - 1;
      ResolveAllSucceeds(t, p, rules[..n]);
      assert rules == rules[..n] + [rules[n]];
    }
  }

  lemma {:induction false} ResolveAllMembers(t: Tables, p: PolicyRow, rules: seq<Rule>, rr: Resolved)
    requires ResolveAll(t, p, rules).Some?
    ensures rr in ResolveAll(t, p, rules).value <==>
            rr.policy == p && rr.rule in rules && ResolveRule(t, p, rr.rule) == Some(rr)
  {
    if rules != [] {
      var n := |rules| - 1;
      ResolveAllMembers(t, p, rules[..n], rr);
      assert rules == rules[..n] + [rules[n]];
    }
  }

  /** Every rule of every applying policy resolves. */
  ghost predicate AllResolve(t: Tables, ps: seq<PolicyRow>, labels: Labels) {
    forall p | p in ps && Applies(p, labels) :: Resolves(t, p)
  }

  predicate Resolves(t: Tables, p: PolicyRow) { forall r | r in t.RulesOf(p) :: ResolveRule(t, p, r).Some? }

  lemma {:induction false} CollectSucceeds(t: Tables, ps: seq<PolicyRow>, labels: Labels)
    ensures Collect(t, ps, labels).Some? <==> AllResolve(t, ps, labels)
  {
    if ps != [] {
      var n := |ps| - 1;
      CollectSucceeds(t, ps[..n], labels);
      ResolveAllSucceeds(t, ps[n], t.RulesOf(ps[n]));
      assert ps == ps[..n] + [ps[n]];
    }
  }

  lemma {:induction false} CollectMembers(t: Tables, ps: seq<PolicyRow>, labels: Labels, rr: Resolved)
    requires Collect(t, ps, labels).Some?
    ensures rr in Collect(t, ps, labels).value <==> Feeds(t, ps, labels, rr)
  {
    if ps != [] {
      var n := |ps| - 1;
      CollectMembers(t, ps[..n], labels, rr);
      assert ps == ps[..n] + [ps[n]];
      if Applies(ps[n], labels) { ResolveAllMembers(t, ps[n], t.RulesOf(ps[n]), rr); }
    }
  }

  /** Primary keys: policy ids, and rule ids across all policies, are unique. */
  ghost predicate UniqueIds(t: Tables) {
    && (forall i, j | 0 <= i < j < |t.policies| :: t.policies[i] != t.policies[j])
    && (forall p | p in t.policies :: UniqueWithin(t.RulesOf(p)))
    && (forall p, q | p in t.policies && q in t.policies && p != q :: UniqueAcross(t.RulesOf(p), t.RulesOf(q)))
  }

  ghost predicate UniqueWithin(rules: seq<Rule>) {
    forall i, j | 0 <= i < j < |rules| :: rules[i].id != rules[j].id
  }

  ghost predicate UniqueAcross(a: seq<Rule>, b: seq<Rule>) {
    forall i, j | 0 <= i < |a| && 0 <= j < |b| :: a[i].id != b[j].id
  }

  lemma AppendDistinct(a: seq<Resolved>, b: seq<Resolved>)
    requires DistinctIds(a) && DistinctIds(b)
    requires forall x, y | x in a && y in b :: x.rule.id != y.rule.id
    ensures DistinctIds(a + b)
  {
    var c := a + b;
    forall i, j | 0 <= i < j < |c| ensures c[i].rule.id != c[j].rule.id {
      if i < |a| && j >= |a| {
        assert c[i] in a && c[j] in b;
      }
    }
  }

  lemma {:induction false} CollectDistinct(t: Tables, n: nat, labels: Labels)
    requires UniqueIds(t) && n <= |t.policies| && Collect(t, t.policies[..n], labels).Some?
    ensures DistinctIds(Collect(t, t.policies[..n], labels).value)
  {
    if n > 0 {
      var ps, p := t.policies[..n], t.policies[n - 1];
      assert ps[..n - 1] == t.policies[..n - 1];
      CollectDistinct(t, n - 1, labels);
      if Applies(p, labels) {
        var a, b := Collect(t, ps[..n - 1], labels).value, ResolveAll(t, p, t.RulesOf(p)).value;
        forall x, y | x in a && y in b ensures x.rule.id != y.rule.id {
          CollectMembers(t, ps[..n - 1], labels, x);
          ResolveAllMembers(t, p, t.RulesOf(p), y);
          BlocksDiffer(t, n - 1, x, y);
        }
        BlockDistinct(t, p);
        AppendDistinct(a, b);
      }
    }
  }

  lemma BlockDistinct(t: Tables, p: PolicyRow)
    requires UniqueWithin(t.RulesOf(p)) && ResolveAll(t, p, t.RulesOf(p)).Some?
    ensures DistinctIds(ResolveAll(t, p, t.RulesOf(p)).value)
  {
    ResolveAllSucceeds(t, p, t.RulesOf(p));
  }

  lemma BlocksDiffer(t: Tables, n: nat, x: Resolved, y: Resolved)
    requires UniqueIds(t) && n < |t.policies| && x.policy in t.policies[..n] && y.policy == t.policies[n]
    requires x.rule in t.RulesOf(x.policy) && y.rule in t.RulesOf(y.policy)
    ensures x.rule.id != y.rule.id
  {
    var k :| 0 <= k < n && t.policies[..n][k] == x.policy;
    assert t.policies[k] != t.policies[n];
    assert UniqueAcross(t.RulesOf(x.policy), t.RulesOf(y.policy));
  }

  /**
   The compiled ruleset is the ordered list of exactly the rules that feed it;
   with unique ids there is one such list.
   */
  lemma CompileExactly(t: Tables, labels: Labels)
    requires UniqueIds(t)
    ensures Compile(t, labels).Some? <==> AllResolve(t, t.policies, labels)
    ensures Compile(t, labels).Some? ==>
            && Ordered(Compile(t, labels).value.rules)
            && forall rr :: rr in Compile(t, labels).value.rules <==> Feeds(t, t.policies, labels, rr)
  {
    var c := Collect(t, t.policies, labels);
    CollectSucceeds(t, t.policies, labels);
    if c.Some? {
      forall rr ensures rr in c.value <==> Feeds(t, t.policies, labels, rr) {
        CollectMembers(t, t.policies, labels, rr);
      }
      assert t.policies[..|t.policies|] == t.policies;
      CollectDistinct(t, |t.policies|, labels);
      SortIsOrdered(c.value);
      SortIsPermutation(c.value);
      SameMembers(SortRules(c.value), c.value);
    }
  }

  lemma {:induction false} InsertDistinct(x: Resolved, s: seq<Resolved>)
    requires DistinctIds(s) && forall y | y in s :: y.rule.id != x.rule.id
    ensures DistinctIds(Insert(x, s))
  {
    if s != [] && KeyLess(KeyOf(s[0]), KeyOf(x)) {
      InsertDistinct(x, s[1..]);
      var r := Insert(x, s[1..]);
      InsertIsPermutation(x, s[1..]);
      forall y | y in r ensures y.rule.id != s[0].rule.id {
        assert y in multiset(r);
        if y in s[1..] { var k :| 0 <= k < |s[1..]| && s[1..][k] == y; }
      }
      PrependDistinct(s[0], r);
    } else {
      PrependDistinct(x, s);
    }
  }

  lemma PrependDistinct(x: Resolved, s: seq<Resolved>)
    requires DistinctIds(s) && forall y | y in s :: y.rule.id != x.rule.id
    ensures DistinctIds([x] + s)
  {
    assert forall j | 0 <= j < |s| :: s[j] in s;
  }

  lemma {:induction false} SortDistinct(s: seq<Resolved>)
    requires DistinctIds(s)
    ensures DistinctIds(SortRules(s))
  {
    if s != [] {
      SortDistinct(s[1..]);
      SortIsPermutation(s[1..]);
      SameMembers(SortRules(s[1..]), s[1..]);
      forall y | y in SortRules(s[1..]) ensures y.rule.id != s[0].rule.id {
        var k :| 0 <= k < |s[1..]| && s[1..][k] == y;
      }
      InsertDistinct(s[0], SortRules(s[1..]));
    }
  }

  /** With unique ids in the store, a compiled ruleset lists no id twice. */
  lemma CompiledDistinct(t: Tables, labels: Labels)
    requires UniqueIds(t) && Compile(t, labels).Some?
    ensures DistinctIds(Compile(t, labels).value.rules)
  {
    assert t.policies[..|t.policies|] == t.policies;
    CollectDistinct(t, |t.policies|, labels);
    SortDistinct(Collect(t, t.policies, labels).value);
  }

  /** Two stores whose compilations for a host are fed by the same rules compile to the same list. */
  lemma SameFeedsSameRules(t: Tables, u: Tables, labels: Labels)
    requires UniqueIds(t) && UniqueIds(u)
    requires AllResolve(t, t.policies, labels) <==> AllResolve(u, u.policies, labels)
    requires forall rr :: Feeds(t, t.policies, labels, rr) <==> Feeds(u, u.policies, labels, rr)
    requires t.defaultIngress == u.defaultIngress && t.defaultEgress == u.defaultEgress
    ensures Compile(t, labels) == Compile(u, labels)
  {
    CompileExactly(t, labels);
    CompileExactly(u, labels);
    if Compile(t, labels).Some? {
      OrderedUnique(Compile(t, labels).value.rules, Compile(u, labels).value.rules);
    }
  }

  // --------------------------------------------------------- listing orders

  /** The same rows, hosts included, listed in any order. */
  ghost predicate SameContents(t: Tables, u: Tables) {
    && (forall p :: p in t.policies <==> p in u.policies)
    && (forall p, r | p in t.policies :: r in t.RulesOf(p) <==> r in u.RulesOf(p))
    && t.groups == u.groups && (forall h :: h in t.hosts <==> h in u.hosts)
    && t.defaultIngress == u.defaultIngress && t.defaultEgress == u.defaultEgress
  }

  ghost predicate SameCidrs(a: seq<ProtoCidr>, b: seq<ProtoCidr>) { forall c :: c in a <==> c in b }

  function Stripped(rr: Resolved): Resolved { rr.(src := [], dst := []) }

  /** The same rule, its addresses listed in any order. */
  ghost predicate Alike(a: Resolved, b: Resolved) {
    Stripped(a) == Stripped(b) && SameCidrs(a.src, b.src) && SameCidrs(a.dst, b.dst)
  }

  lemma {:induction false} HostCidrsMembers(hosts: seq<Host>, c: ProtoCidr)
    ensures c in HostCidrs(hosts) <==> exists h :: h in hosts && h.ip == Some(c)
  {
    if hosts != [] {
      HostCidrsMembers(hosts[1..], c);
      assert hosts == [hosts[0]] + hosts[1..];
    }
  }

  /** A host set holds the same addresses whatever the order of the hosts. */
  lemma HostSetsAlike(hosts: seq<Host>, others: seq<Host>, sel: Selector)
    requires forall h :: h in hosts <==> h in others
    ensures SameCidrs(HostCidrs(Filtered(hosts, sel)), HostCidrs(Filtered(others, sel)))
  {
    var a, b := Filtered(hosts, sel), Filtered(others, sel);
    forall h ensures h in a <==> h in b {
      FilteredMembers(hosts, sel, h);
      FilteredMembers(others, sel, h);
    }
    forall c ensures c in HostCidrs(a) <==> c in HostCidrs(b) {
      HostCidrsMembers(a, c);
      HostCidrsMembers(b, c);
    }
  }

  lemma GroupsAlike(t: Tables, u: Tables, id: string)
    requires t.groups == u.groups && forall h :: h in t.hosts <==> h in u.hosts
    ensures ResolveGroup(t, id).Some? <==> ResolveGroup(u, id).Some?
    ensures ResolveGroup(t, id).Some? ==>
            && SameCidrs(ResolveGroup(t, id).value.cidrs, ResolveGroup(u, id).value.cidrs)
            && ResolveGroup(t, id).value.ports == ResolveGroup(u, id).value.ports
  {
    if id in t.groups && t.groups[id].HostSet? {
      HostSetsAlike(t.hosts, u.hosts, t.groups[id].selector);
    }
  }

  lemma SidesAlike(t: Tables, u: Tables, ipSet: string, hostSet: string, inline: seq<Option<ProtoCidr>>)
    requires t.groups == u.groups && forall h :: h in t.hosts <==> h in u.hosts
    ensures var a, b := ResolveSide(t, ipSet, hostSet, inline), ResolveSide(u, ipSet, hostSet, inline);
            (a.Some? <==> b.Some?) && (a.Some? ==> SameCidrs(a.value, b.value))
  {
    GroupsAlike(t, u, ipSet);
    GroupsAlike(t, u, hostSet);
  }

  lemma PortsAlike(t: Tables, u: Tables, portSet: string, inline: seq<Option<ProtoPorts>>)
    requires t.groups == u.groups && forall h :: h in t.hosts <==> h in u.hosts
    ensures ResolvePorts(t, portSet, inline) == ResolvePorts(u, portSet, inline)
  {
    GroupsAlike(t, u, portSet);
  }

  lemma ResolveAlike(t: Tables, u: Tables, p: PolicyRow, r: Rule)
    requires t.groups == u.groups && forall h :: h in t.hosts <==> h in u.hosts
    ensures ResolveRule(t, p, r).Some? <==> ResolveRule(u, p, r).Some?
    ensures ResolveRule(t, p, r).Some? ==> Alike(ResolveRule(t, p, r).value, ResolveRule(u, p, r).value)
  {
    if r.criteria.Some? {
      var m := r.criteria.value;
      SidesAlike(t, u, m.srcIpSet, m.srcHostSet, m.srcCidrs);
      SidesAlike(t, u, m.dstIpSet, m.dstHostSet, m.dstCidrs);
      PortsAlike(t, u, m.srcPortSet, m.srcPorts);
      PortsAlike(t, u, m.dstPortSet, m.dstPorts);
    }
  }

  /** What feeds a host from one listing has its like in the other. */
  lemma FeedsAlike(t: Tables, u: Tables, labels: Labels, rr: Resolved) returns (qq: Resolved)
    requires SameContents(t, u) && Feeds(t, t.policies, labels, rr)
    ensures Feeds(u, u.policies, labels, qq) && Alike(rr, qq)
  {
    ResolveAlike(t, u, rr.policy, rr.rule);
    qq := ResolveRule(u, rr.policy, rr.rule).value;
  }

  function StrippedAll(s: seq<Resolved>): (r: seq<Resolved>)
    ensures |r| == |s| && forall i | 0 <= i < |s| :: r[i] == Stripped(s[i])
  {
    seq(|s|, i requires 0 <= i < |s| => Stripped(s[i]))
  }

  lemma StrippedOrdered(s: seq<Resolved>)
    requires Ordered(s)
    ensures Ordered(StrippedAll(s))
  {
    var r := StrippedAll(s);
    assert forall i | 0 <= i < |s| :: KeyOf(r[i]) == KeyOf(s[i]);
  }

  lemma StrippedMember(t: Tables, u: Tables, labels: Labels, x: Resolved)
    requires UniqueIds(t) && UniqueIds(u) && SameContents(t, u)
    requires Compile(t, labels).Some? && Compile(u, labels).Some? && x in StrippedAll(Compile(t, labels).value.rules)
    ensures x in StrippedAll(Compile(u, labels).value.rules)
  {
    var s, v := Compile(t, labels).value.rules, Compile(u, labels).value.rules;
    CompileExactly(t, labels);
    CompileExactly(u, labels);
    var rr := StrippedFrom(s, x);
    var qq := FeedsAlike(t, u, labels, rr);
    assert qq in v && Stripped(qq) == x;
    StrippedInto(v, qq);
  }

  lemma StrippedFrom(s: seq<Resolved>, x: Resolved) returns (rr: Resolved)
    requires x in StrippedAll(s)
    ensures rr in s && Stripped(rr) == x
  {
    var i :| 0 <= i < |s| && StrippedAll(s)[i] == x;
    rr := s[i];
  }

  lemma StrippedInto(s: seq<Resolved>, rr: Resolved)
    requires rr in s
    ensures Stripped(rr) in StrippedAll(s)
  {
    var i :| 0 <= i < |s| && s[i] == rr;
    assert StrippedAll(s)[i] == Stripped(rr);
  }

  lemma SameContentsBack(t: Tables, u: Tables)
    requires SameContents(t, u)
    ensures SameContents(u, t)
  {
  }

  lemma BothResolve(t: Tables, u: Tables, labels: Labels)
    requires SameContents(t, u) && AllResolve(t, t.policies, labels)
    ensures AllResolve(u, u.policies, labels)
  {
    forall p | p in u.policies && Applies(p, labels) ensures Resolves(u, p) {
      assert Resolves(t, p);
      forall r | r in u.RulesOf(p) ensures ResolveRule(u, p, r).Some? { ResolveAlike(t, u, p, r); }
    }
  }

  /** Rulesets with the same defaults and, rule by rule, the same rules up to the order of addresses. */
  ghost predicate AlikeRulesets(a: EffectiveRuleset, b: EffectiveRuleset) {
    && a.ingress == b.ingress && a.egress == b.egress && |a.rules| == |b.rules|
    && forall i | 0 <= i < |a.rules| :: Alike(a.rules[i], b.rules[i])
  }

  /**
   Store-order independence: any two listings of the same rows compile to the
   same ruleset, up to the order of addresses taken from host sets, which is
   the listing order of the hosts.
   */
  lemma StoreOrderIndependent(t: Tables, u: Tables, labels: Labels)
    requires UniqueIds(t) && UniqueIds(u) && SameContents(t, u)
    ensures Compile(t, labels).Some? <==> Compile(u, labels).Some?
    ensures Compile(t, labels).Some? ==> AlikeRulesets(Compile(t, labels).value, Compile(u, labels).value)
    ensures t.hosts == u.hosts ==> Compile(t, labels) == Compile(u, labels)
  {
    SameContentsBack(t, u);
    CompileExactly(t, labels);
    CompileExactly(u, labels);
    if AllResolve(t, t.policies, labels) { BothResolve(t, u, labels); }
    if AllResolve(u, u.policies, labels) { BothResolve(u, t, labels); }
    if Compile(t, labels).Some? { AlignedRules(t, u, labels); }
    if t.hosts == u.hosts { SameHostsSameRules(t, u, labels); }
  }

  lemma AlignedRules(t: Tables, u: Tables, labels: Labels)
    requires UniqueIds(t) && UniqueIds(u) && SameContents(t, u)
    requires Compile(t, labels).Some? && Compile(u, labels).Some?
    ensures AlikeRulesets(Compile(t, labels).value, Compile(u, labels).value)
  {
    var a, b := Compile(t, labels).value.rules, Compile(u, labels).value.rules;
    CompileExactly(t, labels);
    CompileExactly(u, labels);
    StrippedOrdered(a);
    StrippedOrdered(b);
    SameContentsBack(t, u);
    forall x ensures x in StrippedAll(a) <==> x in StrippedAll(b) {
      if x in StrippedAll(a) { StrippedMember(t, u, labels, x); }
      if x in StrippedAll(b) { StrippedMember(u, t, labels, x); }
    }
    OrderedUnique(StrippedAll(a), StrippedAll(b));
    forall i | 0 <= i < |a| ensures Alike(a[i], b[i]) {
      assert a[i] in a && b[i] in b && Stripped(a[i]) == StrippedAll(a)[i] == StrippedAll(b)[i] == Stripped(b[i]);
      ResolveAlike(t, u, a[i].policy, a[i].rule);
    }
  }

  lemma SameHostsSameRules(t: Tables, u: Tables, labels: Labels)
    requires UniqueIds(t) && UniqueIds(u) && SameContents(t, u) && t.hosts == u.hosts
    ensures Compile(t, labels) == Compile(u, labels)
  {
    forall rr ensures Feeds(t, t.policies, labels, rr) <==> Feeds(u, u.policies, labels, rr) {
      ResolveDependsOn(t, u, rr.policy, rr.rule);
    }
    forall p | p in t.policies ensures Resolves(t, p) <==> Resolves(u, p) {
      forall r ensures ResolveRule(t, p, r) == ResolveRule(u, p, r) { ResolveDependsOn(t, u, p, r); }
    }
    SameFeedsSameRules(t, u, labels);
  }
}
