/**
 Previewing a policy change: compile every host with the policy's rules
 replaced in memory and report the difference to the stored rules.
 */
module DryRun {
  import opened Types
  import opened Store
  import opened Ruleset
  import L = Lexical

  /** A rule as submitted; `id` is what its text scans to, the printed zero UUID when it is empty or malformed. */
  datatype Draft = Draft(
    id: string,
    name: string,
    priority: i32,
    direction: DirectionName,
    criteria: Option<MatchSpec>,
    state: Option<StateName>,
    action: ActionName,
    log: bool,
    silent: bool)

  function FromDraft(pid: string, d: Draft): Rule {
    Rule(d.id, pid, d.name, d.priority,
         if d.direction.NoDirection? then Ingress else d.direction, d.criteria, d.state,
         if d.action.NoAction? then Deny else d.action, d.log, d.silent)
  }

  function DraftRules(pid: string, ds: seq<Draft>): (rules: seq<Rule>)
    ensures |rules| == |ds|
  {
    seq(|ds|, i requires 0 <= i < |ds| => FromDraft(pid, ds[i]))
  }

  /** The tables as they would be with the policy's rules replaced. */
  function Overridden(t: Tables, pid: string, ds: seq<Draft>): Tables {
    t.(rules := t.rules[pid := DraftRules(pid, ds)])
  }

  // ------------------------------------------------------------ compilation

  lemma {:induction false} ResolveAllDependsOn(t: Tables, u: Tables, p: PolicyRow, rules: seq<Rule>)
    requires t.groups == u.groups && t.hosts == u.hosts
    ensures ResolveAll(t, p, rules) == ResolveAll(u, p, rules)
  {
    if rules != [] {
      ResolveAllDependsOn(t, u, p, rules[..|rules| - 1]);
      ResolveDependsOn(t, u, p, rules[|rules| - 1]);
    }
  }

  /** `resolveOverrideRules`. */
  method ResolveOverrideRules(t: Tables, p: PolicyRow, ds: seq<Draft>) returns (r: Option<seq<Resolved>>)
    ensures r == ResolveAll(t, p, DraftRules(p.id, ds))
  {
    ghost var rules := DraftRules(p.id, ds);
    var resolved: seq<Resolved> := [];
    for i := 0 to |ds|
      invariant ResolveAll(t, p, rules[..i]) == Some(resolved)
    {
      var dir := ds[i].direction;
      if dir.NoDirection? { dir := Ingress; }
      var action := ds[i].action;
      if action.NoAction? { action := Deny; }
      var rule := Rule(ds[i].id, p.id, ds[i].name, ds[i].priority, dir,
                       ds[i].criteria, ds[i].state, action, ds[i].log, ds[i].silent);
      assert rule == rules[i];
      var next := ResolveNext(t, p, rules, i, rule, resolved);
      if next.None? { return None; }
      resolved := next.value;
    }
    assert rules[..|rules|] == rules;
    return Some(resolved);
  }

  /** The rules of one policy, from memory if it is the overridden one. */
  method RulesUnderOverride(t: Tables, p: PolicyRow, pid: string, ds: seq<Draft>) returns (r: Option<seq<Resolved>>)
    ensures r == ResolveAll(Overridden(t, pid, ds), p, Overridden(t, pid, ds).RulesOf(p))
  {
    ghost var u := Overridden(t, pid, ds);
    ResolveAllDependsOn(t, u, p, u.RulesOf(p));
    if p.id == pid {
      r := ResolveOverrideRules(t, p, ds);
    } else {
      r := ResolveRulesForPolicy(t, p);
    }
  }

  /** `CompileWithOverride` compiles as the stored compiler would on the overridden tables. */
  method CompileWithOverride(t: Tables, hostId: string, pid: string, ds: seq<Draft>) returns (r: Option<EffectiveRuleset>)
    ensures r == if HostLabels(t.hosts, hostId).Some?
                 then Compile(Overridden(t, pid, ds), HostLabels(t.hosts, hostId).value) else None
  {
    var labels := HostLabels(t.hosts, hostId);
    if labels.None? { return None; }
    ghost var u := Overridden(t, pid, ds);
    var resolved: seq<Resolved> := [];
    for i := 0 to |t.policies|
      invariant Collect(u, t.policies[..i], labels.value) == Some(resolved)
    {
      var p := t.policies[i];
      CollectOneMore(u, t.policies, labels.value, i);
      if p.selector.None? { continue; }
      if !MatchesLabels(p.selector.value, labels.value) { continue; }
      var rules := RulesUnderOverride(t, p, pid, ds);
      if rules.None? {
        CollectFailureSticks(u, t.policies, labels.value, i + 1);
        return None;
      }
      resolved := resolved + rules.value;
    }
    assert t.policies[..|t.policies|] == t.policies;
    return Some(EffectiveRuleset(SortRules(resolved), t.defaultIngress, t.defaultEgress));
  }

  // ------------------------------------------------------------- differences

  datatype Face = Face(action: ActionName, direction: DirectionName)

  /** The map the diff builds from a ruleset; a later rule with the same id wins. */
  function IdMap(rules: seq<Resolved>): map<string, Face> {
    if rules == [] then map[]
    else
      var n := |rules| - 1;
      IdMap(rules[..n])[rules[n].rule.id := Face(rules[n].rule.action, rules[n].rule.direction)]
  }

  method BuildIdMap(rules: seq<Resolved>) returns (m: map<string, Face>)
    ensures m == IdMap(rules)
  {
    m := map[];
    for i := 0 to |rules|
      invariant m == IdMap(rules[..i])
    {
      assert rules[..i + 1][..i] == rules[..i];
      m := m[rules[i].rule.id := Face(rules[i].rule.action, rules[i].rule.direction)];
    }
    assert rules[..|rules|] == rules;
  }

  /** With distinct ids the map lists exactly the rules, each with its own action and direction. */
  lemma {:induction false} IdMapExactly(rules: seq<Resolved>, id: string)
    requires DistinctIds(rules)
    ensures id in IdMap(rules) <==> exists i :: 0 <= i < |rules| && rules[i].rule.id == id
    ensures forall i | 0 <= i < |rules| && rules[i].rule.id == id ::
              id in IdMap(rules) && IdMap(rules)[id] == Face(rules[i].rule.action, rules[i].rule.direction)
  {
    if rules != [] {
      var n := |rules| - 1;
      IdMapExactly(rules[..n], id);
      if exists i :: 0 <= i < n && rules[i].rule.id == id {
        var i :| 0 <= i < n && rules[i].rule.id == id;
        assert rules[..n][i].rule.id == id;
      }
    }
  }

  datatype Diff = Diff(added: seq<string>, removed: seq<string>, changed: seq<string>)

  /** A diff of two id maps: sorted, without repetition, and exact. */
  ghost predicate IsDiff(d: Diff, before: map<string, Face>, after: map<string, Face>) {
    && L.StrictlySorted(d.added) && L.StrictlySorted(d.removed) && L.StrictlySorted(d.changed)
    && (forall id :: id in d.added <==> id in after && id !in before)
    && (forall id :: id in d.removed <==> id in before && id !in after)
    && (forall id :: id in d.changed <==> id in before && id in after && before[id] != after[id])
  }

  /** The loop over the new map. */
  method NewOrChanged(before: map<string, Face>, after: map<string, Face>) returns (added: set<string>, changed: set<string>)
    ensures forall id :: id in added <==> id in after && id !in before
    ensures forall id :: id in changed <==> id in before && id in after && before[id] != after[id]
  {
    added, changed := {}, {};
    var todo := after.Keys;
    while todo != {}
      invariant todo <= after.Keys
      invariant forall id :: id in added <==> id in after.Keys - todo && id !in before
      invariant forall id :: id in changed <==> id in after.Keys - todo && id in before && before[id] != after[id]
      decreases |todo|
    {
      var id :| id in todo;
      todo := todo - {id};
      if id !in before {
        added := added + {id};
      } else if after[id] != before[id] {
        changed := changed + {id};
      }
    }
  }

  /** The loop over the old map. */
  method Gone(before: map<string, Face>, after: map<string, Face>) returns (removed: set<string>)
    ensures forall id :: id in removed <==> id in before && id !in after
  {
    removed := {};
    var todo := before.Keys;
    while todo != {}
      invariant todo <= before.Keys
      invariant forall id :: id in removed <==> id in before.Keys - todo && id !in after
      decreases |todo|
    {
      var id :| id in todo;
      todo := todo - {id};
      if id !in after { removed := removed + {id}; }
    }
  }

  /** `diffRulesets`. */
  method DiffRulesets(before: seq<Resolved>, after: seq<Resolved>) returns (d: Diff)
    ensures IsDiff(d, IdMap(before), IdMap(after))
  {
    var beforeMap := BuildIdMap(before);
    var afterMap := BuildIdMap(after);
    var added, changed := NewOrChanged(beforeMap, afterMap);
    var removed := Gone(beforeMap, afterMap);
    var a := L.SortedList(added);
    var r := L.SortedList(removed);
    var c := L.SortedList(changed);
    return Diff(a, r, c);
  }

  /** A diff is empty exactly when the two maps are equal. */
  lemma EmptyDiffExactly(d: Diff, before: map<string, Face>, after: map<string, Face>)
    requires IsDiff(d, before, after)
    ensures d == Diff([], [], []) <==> before == after
  {
    assert |d.added| > 0 ==> d.added[0] in d.added;
    assert |d.removed| > 0 ==> d.removed[0] in d.removed;
    assert |d.changed| > 0 ==> d.changed[0] in d.changed;
    if d == Diff([], [], []) {
      forall id ensures id in before <==> id in after {
        assert id !in d.added && id !in d.removed;
      }
      forall id | id in before ensures before[id] == after[id] {
        assert id !in d.changed;
      }
    }
  }

  // ----------------------------------------------------------------- preview

  /** Both compilations of the host succeed and differ in some rule id, action or direction. */
  predicate Affected(t: Tables, pid: string, ds: seq<Draft>, hostId: string) {
    && HostLabels(t.hosts, hostId).Some?
    && var labels := HostLabels(t.hosts, hostId).value;
       && Compile(t, labels).Some? && Compile(Overridden(t, pid, ds), labels).Some?
       && IdMap(Compile(t, labels).value.rules) != IdMap(Compile(Overridden(t, pid, ds), labels).value.rules)
  }

  datatype HostDiff = HostDiff(id: string, hostname: string, diff: Diff)

  function AffectedHosts(t: Tables, pid: string, ds: seq<Draft>, n: nat): seq<Host>
    requires n <= |t.hosts|
  {
    if n == 0 then []
    else AffectedHosts(t, pid, ds, n - 1) +
         (if Affected(t, pid, ds, t.hosts[n - 1].id) then [t.hosts[n - 1]] else [])
  }

  /** `d` is the diff of an affected host. */
  ghost predicate DiffFor(t: Tables, pid: string, ds: seq<Draft>, hostId: string, d: Diff) {
    && Affected(t, pid, ds, hostId)
    && var labels := HostLabels(t.hosts, hostId).value;
       IsDiff(d, IdMap(Compile(t, labels).value.rules), IdMap(Compile(Overridden(t, pid, ds), labels).value.rules))
  }

  /** The report lists exactly the given hosts, in order. */
  ghost predicate Lines(report: seq<HostDiff>, hs: seq<Host>) {
    |report| == |hs| && forall i | 0 <= i < |hs| :: report[i].id == hs[i].id && report[i].hostname == hs[i].hostname
  }

  ghost predicate DiffsHold(t: Tables, pid: string, ds: seq<Draft>, report: seq<HostDiff>) {
    forall i | 0 <= i < |report| :: DiffFor(t, pid, ds, report[i].id, report[i].diff)
  }

  /** The preview of one host: its diff, if it is affected. */
  method PreviewHost(t: Tables, pid: string, ds: seq<Draft>, hostId: string) returns (r: Option<Diff>)
    ensures r.Some? <==> Affected(t, pid, ds, hostId)
    ensures r.Some? ==> DiffFor(t, pid, ds, hostId, r.value)
  {
    var before := CompileHost(t, hostId);
    if before.None? { return None; }
    var after := CompileWithOverride(t, hostId, pid, ds);
    if after.None? { return None; }
    var d := DiffRulesets(before.value.rules, after.value.rules);
    EmptyDiffExactly(d, IdMap(before.value.rules), IdMap(after.value.rules));
    if |d.added| == 0 && |d.removed| == 0 && |d.changed| == 0 {
      assert d == Diff([], [], []);
      return None;
    }
    return Some(d);
  }

  /** `DryRunPreview`: the affected hosts, in listing order, each with its exact diff. */
  method DryRunPreview(t: Tables, pid: string, ds: seq<Draft>) returns (report: seq<HostDiff>)
    ensures Lines(report, AffectedHosts(t, pid, ds, |t.hosts|)) && DiffsHold(t, pid, ds, report)
  {
    report := [];
    for i := 0 to |t.hosts|
      invariant Lines(report, AffectedHosts(t, pid, ds, i)) && DiffsHold(t, pid, ds, report)
    {
      var d := PreviewHost(t, pid, ds, t.hosts[i].id);
      if d.None? { continue; }
      ghost var before := report;
      report := report + [HostDiff(t.hosts[i].id, t.hosts[i].hostname, d.value)];
      OneLineMore(t, pid, ds, before, AffectedHosts(t, pid, ds, i), t.hosts[i], d.value);
    }
  }

  lemma OneLineMore(t: Tables, pid: string, ds: seq<Draft>, report: seq<HostDiff>, hs: seq<Host>, h: Host, d: Diff)
    requires Lines(report, hs) && DiffsHold(t, pid, ds, report) && DiffFor(t, pid, ds, h.id, d)
    ensures Lines(report + [HostDiff(h.id, h.hostname, d)], hs + [h])
    ensures DiffsHold(t, pid, ds, report + [HostDiff(h.id, h.hostname, d)])
  {
    var all := report + [HostDiff(h.id, h.hostname, d)];
    forall i | 0 <= i < |all| ensures DiffFor(t, pid, ds, all[i].id, all[i].diff) {
      if i < |report| { assert all[i] == report[i] && DiffFor(t, pid, ds, report[i].id, report[i].diff); }
    }
  }

  // ------------------------------------------------ what a preview can report

  /** Rows as the schema's CHECK constraints and foreign key admit them. */
  predicate StoredRule(pid: string, r: Rule) {
    r.policyId == pid && !r.direction.NoDirection? && !r.action.NoAction?
  }

  function DraftOf(r: Rule): Draft {
    Draft(r.id, r.name, r.priority, r.direction, r.criteria, r.state, r.action, r.log, r.silent)
  }

  function DraftsOf(rules: seq<Rule>): (ds: seq<Draft>)
    ensures |ds| == |rules|
  {
    seq(|rules|, i requires 0 <= i < |rules| => DraftOf(rules[i]))
  }

  lemma {:induction false} CollectUnchanged(t: Tables, u: Tables, ps: seq<PolicyRow>, labels: Labels)
    requires t.groups == u.groups && t.hosts == u.hosts
    requires forall p | p in ps && Applies(p, labels) :: t.RulesOf(p) == u.RulesOf(p)
    ensures Collect(t, ps, labels) == Collect(u, ps, labels)
  {
    if ps != [] {
      var n := |ps| - 1;
      assert ps == ps[..n] + [ps[n]];
      CollectUnchanged(t, u, ps[..n], labels);
      if Applies(ps[n], labels) { ResolveAllDependsOn(t, u, ps[n], t.RulesOf(ps[n])); }
    }
  }

  /** A preview with the policy's own stored rules lists no host. */
  lemma OwnRulesAffectNobody(t: Tables, pid: string, hostId: string)
    requires forall i | 0 <= i < |t.RulesOfId(pid)| :: StoredRule(pid, t.RulesOfId(pid)[i])
    ensures !Affected(t, pid, DraftsOf(t.RulesOfId(pid)), hostId)
  {
    var ds := DraftsOf(t.RulesOfId(pid));
    assert DraftRules(pid, ds) == t.RulesOfId(pid);
    var u := Overridden(t, pid, ds);
    assert forall p: PolicyRow :: u.RulesOf(p) == t.RulesOf(p);
    if HostLabels(t.hosts, hostId).Some? {
      CollectUnchanged(t, u, t.policies, HostLabels(t.hosts, hostId).value);
    }
  }

  /** A host that the policy's selector does not match is never listed, whatever the drafts. */
  lemma UnselectedNeverListed(t: Tables, pid: string, ds: seq<Draft>, hostId: string)
    requires HostLabels(t.hosts, hostId).Some?
    requires forall p | p in t.policies && p.id == pid :: !Applies(p, HostLabels(t.hosts, hostId).value)
    ensures !Affected(t, pid, ds, hostId)
  {
    CollectUnchanged(t, Overridden(t, pid, ds), t.policies, HostLabels(t.hosts, hostId).value);
  }

  ghost predicate Lists(rules: seq<Resolved>, id: string) {
    exists i :: 0 <= i < |rules| && rules[i].rule.id == id
  }

  /** Two rules of one id with another action or direction. */
  predicate Otherwise(x: Resolved, y: Resolved, id: string) {
    x.rule.id == id == y.rule.id && (x.rule.action != y.rule.action || x.rule.direction != y.rule.direction)
  }

  /** The rulesets disagree on the action or direction of a common id. */
  ghost predicate FaceChanged(before: seq<Resolved>, after: seq<Resolved>, id: string) {
    exists i, j :: 0 <= i < |before| && 0 <= j < |after| && Otherwise(before[i], after[j], id)
  }

  /** For unique ids: added and removed are the id differences, changed the common ids with another action or direction. */
  lemma DiffExactly(d: Diff, before: seq<Resolved>, after: seq<Resolved>, id: string)
    requires DistinctIds(before) && DistinctIds(after) && IsDiff(d, IdMap(before), IdMap(after))
    ensures id in d.added <==> Lists(after, id) && !Lists(before, id)
    ensures id in d.removed <==> Lists(before, id) && !Lists(after, id)
    ensures id in d.changed <==> FaceChanged(before, after, id)
  {
    IdMapExactly(before, id);
    IdMapExactly(after, id);
    if id in d.changed {
      var i :| 0 <= i < |before| && before[i].rule.id == id;
      var j :| 0 <= j < |after| && after[j].rule.id == id;
      assert Otherwise(before[i], after[j], id);
    }
  }

  /** Some rule with this id feeds a host with the labels. */
  ghost predicate Fed(t: Tables, labels: Labels, id: string) {
    exists rr :: Feeds(t, t.policies, labels, rr) && rr.rule.id == id
  }

  lemma ListsExactly(t: Tables, labels: Labels, id: string)
    requires UniqueIds(t) && Compile(t, labels).Some?
    ensures Lists(Compile(t, labels).value.rules, id) <==> Fed(t, labels, id)
  {
    var rules := Compile(t, labels).value.rules;
    CompileExactly(t, labels);
    if Lists(rules, id) {
      var i :| 0 <= i < |rules| && rules[i].rule.id == id;
      assert rules[i] in rules;
    }
    if Fed(t, labels, id) {
      var rr :| Feeds(t, t.policies, labels, rr) && rr.rule.id == id;
      assert rr in rules;
      var i :| 0 <= i < |rules| && rules[i] == rr;
    }
  }

  /** Rules with this id feed the host from both stores, and differ in action or direction. */
  ghost predicate FedOtherwise(t: Tables, u: Tables, labels: Labels, id: string) {
    exists x, y :: Feeds(t, t.policies, labels, x) && Feeds(u, u.policies, labels, y) && Otherwise(x, y, id)
  }

  lemma FaceOfMembers(before: seq<Resolved>, after: seq<Resolved>, id: string)
    ensures FaceChanged(before, after, id) <==> exists x, y :: x in before && y in after && Otherwise(x, y, id)
  {
    if FaceChanged(before, after, id) {
      var i, j :| 0 <= i < |before| && 0 <= j < |after| && Otherwise(before[i], after[j], id);
      assert before[i] in before && after[j] in after;
    }
    if x, y :| x in before && y in after && Otherwise(x, y, id) {
      var i :| 0 <= i < |before| && before[i] == x;
      var j :| 0 <= j < |after| && after[j] == y;
    }
  }

  lemma FaceChangedExactly(t: Tables, u: Tables, labels: Labels, id: string)
    requires UniqueIds(t) && UniqueIds(u) && Compile(t, labels).Some? && Compile(u, labels).Some?
    ensures FaceChanged(Compile(t, labels).value.rules, Compile(u, labels).value.rules, id) <==> FedOtherwise(t, u, labels, id)
  {
    var before, after := Compile(t, labels).value.rules, Compile(u, labels).value.rules;
    CompileExactly(t, labels);
    CompileExactly(u, labels);
    FaceOfMembers(before, after, id);
    if FaceChanged(before, after, id) {
      var x, y :| x in before && y in after && Otherwise(x, y, id);
    } else {
      assert forall x, y | x in before && y in after :: !Otherwise(x, y, id);
    }
  }

  /**
   A line of the preview, in terms of the rules alone: when stored and drafted
   ids are unique, it names exactly the ids that would newly feed the host,
   those that would no longer do so, and those that would with another action
   or direction.
   */
  lemma PreviewExactly(t: Tables, pid: string, ds: seq<Draft>, report: seq<HostDiff>, i: nat, id: string)
    requires UniqueIds(t) && UniqueIds(Overridden(t, pid, ds)) && DiffsHold(t, pid, ds, report) && i < |report|
    ensures HostLabels(t.hosts, report[i].id).Some?
    ensures var labels, u, d := HostLabels(t.hosts, report[i].id).value, Overridden(t, pid, ds), report[i].diff;
            && (id in d.added <==> Fed(u, labels, id) && !Fed(t, labels, id))
            && (id in d.removed <==> Fed(t, labels, id) && !Fed(u, labels, id))
            && (id in d.changed <==> FedOtherwise(t, u, labels, id))
  {
    assert DiffFor(t, pid, ds, report[i].id, report[i].diff);
    var labels, u := HostLabels(t.hosts, report[i].id).value, Overridden(t, pid, ds);
    CompiledDistinct(t, labels);
    CompiledDistinct(u, labels);
    DiffExactly(report[i].diff, Compile(t, labels).value.rules, Compile(u, labels).value.rules, id);
    ListsExactly(t, labels, id);
    ListsExactly(u, labels, id);
    FaceChangedExactly(t, u, labels, id);
  }
}
