/**
 Propagation of a policy update: which hosts are recompiled, and that no host
 whose ruleset changed is missed.
 */
module Cascade {
  import opened Types
  import opened Proto
  import opened Store
  import opened Ruleset
  import opened ControlBundle

  /** Host ids are primary keys. */
  ghost predicate UniqueHosts(hosts: seq<Host>) {
    forall i, j | 0 <= i < j < |hosts| :: hosts[i].id != hosts[j].id
  }

  ghost predicate Distinct(ids: seq<string>) {
    forall i, j | 0 <= i < j < |ids| :: ids[i] != ids[j]
  }

  /** `GetPolicy`. */
  function FindPolicy(ps: seq<PolicyRow>, id: string): Option<PolicyRow> {
    if ps == [] then None else if ps[0].id == id then Some(ps[0]) else FindPolicy(ps[1..], id)
  }

  ghost predicate SelectedId(hosts: seq<Host>, sel: Selector, id: string) {
    exists h | h in hosts :: h.id == id && Selected(sel, h)
  }

  /** `ResolveHostIDs`. */
  method ResolveHostIDs(hosts: seq<Host>, sel: Selector) returns (ids: seq<string>)
    ensures forall id :: id in ids <==> SelectedId(hosts, sel, id)
  {
    var matched := ResolveHosts(hosts, sel);
    ids := [];
    for i := 0 to |matched|
      invariant |ids| == i && forall j | 0 <= j < i :: ids[j] == matched[j].id
    {
      ids := ids + [matched[i].id];
    }
    forall id ensures id in ids <==> SelectedId(hosts, sel, id) {
      if id in ids {
        var j :| 0 <= j < |ids| && ids[j] == id;
        assert matched[j] in matched;
      }
      if SelectedId(hosts, sel, id) {
        var h :| h in hosts && h.id == id && Selected(sel, h);
        assert h in matched;
        var j :| 0 <= j < |matched| && matched[j] == h;
        assert ids[j] == id;
      }
    }
  }

  /** The union of both selections as a list without repetition, in the host map's arbitrary order. */
  method UnionOf(a: seq<string>, b: seq<string>) returns (ids: seq<string>)
    ensures Distinct(ids) && forall id :: id in ids <==> id in a || id in b
  {
    var hostSet: set<string> := {};
    for i := 0 to |a|
      invariant forall id :: id in hostSet <==> id in a[..i]
    {
      hostSet := hostSet + {a[i]};
    }
    assert a[..|a|] == a;
    for i := 0 to |b|
      invariant forall id :: id in hostSet <==> id in a || id in b[..i]
    {
      hostSet := hostSet + {b[i]};
    }
    assert b[..|b|] == b;
    ids := [];
    ghost var all := hostSet;
    while hostSet != {}
      invariant hostSet <= all && Distinct(ids) && forall id :: id in ids <==> id in all - hostSet
      decreases |hostSet|
    {
      var id :| id in hostSet;
      hostSet := hostSet - {id};
      assert id !in ids && forall j | 0 <= j < |ids| :: ids[j] in ids;
      ids := ids + [id];
    }
  }

  /** Hosts that the update of policy `pid` recompiles, given its old selector. */
  method HostsToRecompile(t: Tables, pid: string, oldSel: Selector) returns (r: Option<seq<string>>)
    ensures r.Some? <==> FindPolicy(t.policies, pid).Some? && FindPolicy(t.policies, pid).value.selector.Some?
    ensures r.Some? ==>
            var newSel := FindPolicy(t.policies, pid).value.selector.value;
            Distinct(r.value) &&
            forall id :: id in r.value <==> SelectedId(t.hosts, oldSel, id) || SelectedId(t.hosts, newSel, id)
  {
    var oldIds := ResolveHostIDs(t.hosts, oldSel);
    var policy := FindPolicy(t.policies, pid);
    if policy.None? { return None; }
    if policy.value.selector.None? { return None; }
    var newIds := ResolveHostIDs(t.hosts, policy.value.selector.value);
    var ids := UnionOf(oldIds, newIds);
    return Some(ids);
  }

  // --------------------------------------------------------------- coverage

  /** Tables before and after an update that touches only policy `pid` and its rules. */
  ghost predicate UpdatedOnly(t: Tables, u: Tables, pid: string) {
    && (forall p: PolicyRow | p.id != pid :: p in t.policies <==> p in u.policies)
    && (forall p: PolicyRow, r: Rule | p.id != pid :: r in t.RulesOf(p) <==> r in u.RulesOf(p))
    && t.groups == u.groups && t.hosts == u.hosts
    && t.defaultIngress == u.defaultIngress && t.defaultEgress == u.defaultEgress
  }

  /** The policy's stored selector decodes to `sel`, or does not decode at all. */
  ghost predicate SelectorIs(t: Tables, pid: string, sel: Selector) {
    forall p | p in t.policies && p.id == pid :: p.selector.None? || p.selector == Some(sel)
  }

  lemma Unaffected(t: Tables, u: Tables, pid: string, oldSel: Selector, newSel: Selector, labels: Labels)
    requires UniqueIds(t) && UniqueIds(u) && UpdatedOnly(t, u, pid)
    requires SelectorIs(t, pid, oldSel) && SelectorIs(u, pid, newSel)
    requires !MatchesLabels(oldSel, labels) && !MatchesLabels(newSel, labels)
    ensures Compile(t, labels) == Compile(u, labels)
  {
    forall rr ensures Feeds(t, t.policies, labels, rr) <==> Feeds(u, u.policies, labels, rr) {
      ResolveDependsOn(t, u, rr.policy, rr.rule);
    }
    forall p, r ensures ResolveRule(t, p, r) == ResolveRule(u, p, r) {
      ResolveDependsOn(t, u, p, r);
    }
    SameResolution(t, u, pid, labels);
    SameFeedsSameRules(t, u, labels);
  }

  lemma SameResolution(t: Tables, u: Tables, pid: string, labels: Labels)
    requires UpdatedOnly(t, u, pid) && forall p, r :: ResolveRule(t, p, r) == ResolveRule(u, p, r)
    requires forall p | (p in t.policies || p in u.policies) && p.id == pid :: !Applies(p, labels)
    ensures AllResolve(t, t.policies, labels) <==> AllResolve(u, u.policies, labels)
  {
    forall p: PolicyRow | p.id != pid ensures Resolves(t, p) <==> Resolves(u, p) {}
  }

  /**
   Cascade coverage: an active host with readable labels whose compiled
   ruleset differs before and after the update is among those recompiled.
   */
  lemma CascadeCoverage(t: Tables, u: Tables, pid: string, oldSel: Selector, newSel: Selector, h: Host)
    requires UniqueIds(t) && UniqueIds(u) && UpdatedOnly(t, u, pid)
    requires SelectorIs(t, pid, oldSel) && SelectorIs(u, pid, newSel)
    requires h in u.hosts && h.status.Active? && h.labelsReadable
    requires Compile(t, h.labels) != Compile(u, h.labels)
    ensures SelectedId(u.hosts, oldSel, h.id) || SelectedId(u.hosts, newSel, h.id)
  {
    if !MatchesLabels(oldSel, h.labels) && !MatchesLabels(newSel, h.labels) {
      Unaffected(t, u, pid, oldSel, newSel, h.labels);
    }
  }

  // --------------------------------------------------------------- dispatch

  lemma {:induction false} LabelsOfHost(hosts: seq<Host>, h: Host)
    requires UniqueHosts(hosts) && h in hosts
    ensures HostLabels(hosts, h.id) == Some(h.labels)
  {
    if hosts[0] != h {
      var k :| 0 <= k < |hosts| && hosts[k] == h;
      assert hosts[1..][k - 1] == h;
      LabelsOfHost(hosts[1..], h);
    }
  }

  datatype Update = Update(hostId: string, bundle: Bundle)

  type Generations = map<string, int>

  /** `hosts.current_generation`, 0 until a host reports one. */
  function GenerationOf(current: Generations, id: string): int { if id in current then current[id] else 0 }

  /** A dispatched bundle is the one the tables prescribe for its host, numbered one past the host's generation. */
  ghost predicate FreshBundle(t: Tables, current: Generations, d: Update) {
    && HostLabels(t.hosts, d.hostId).Some?
    && Compile(t, HostLabels(t.hosts, d.hostId).value).Some?
    && IsBundleOf(d.bundle, Compile(t, HostLabels(t.hosts, d.hostId).value).value)
    && d.bundle.generation == GenerationOf(current, d.hostId) + 1
  }

  predicate Builds(t: Tables, id: string) {
    HostLabels(t.hosts, id).Some? && Compile(t, HostLabels(t.hosts, id).value).Some?
  }

  /** The listed hosts whose bundle builds. */
  function Building(t: Tables, ids: seq<string>): seq<string> {
    if ids == [] then []
    else
      var n := |ids| - 1;
      Building(t, ids[..n]) + (if Builds(t, ids[n]) then [ids[n]] else [])
  }

  lemma {:induction false} BuildingMembers(t: Tables, ids: seq<string>, id: string)
    ensures id in Building(t, ids) <==> id in ids && Builds(t, id)
  {
    if ids != [] {
      var n := |ids| - 1;
      BuildingMembers(t, ids[..n], id);
      assert ids == ids[..n] + [ids[n]];
    }
  }

  lemma {:induction false} BuildingDistinct(t: Tables, ids: seq<string>)
    requires Distinct(ids)
    ensures Distinct(Building(t, ids))
  {
    if ids != [] {
      var n := |ids| - 1;
      BuildingDistinct(t, ids[..n]);
      BuildingMembers(t, ids[..n], ids[n]);
      var b := Building(t, ids[..n]);
      assert forall j | 0 <= j < |b| :: b[j] in b;
    }
  }

  /** The updates from position `from` on are fresh bundles for the listed hosts, in order. */
  ghost predicate Delivers(updates: seq<Update>, from: nat, t: Tables, current: Generations, ids: seq<string>) {
    && |updates| == from + |ids|
    && forall k | 0 <= k < |ids| :: IsFor(updates[from + k], t, current, ids[k])
  }

  ghost predicate IsFor(d: Update, t: Tables, current: Generations, id: string) {
    d.hostId == id && FreshBundle(t, current, d)
  }

  /** From position `from` on there is exactly one update for the host, and it is a fresh bundle. */
  ghost predicate SentOnce(updates: seq<Update>, from: nat, t: Tables, current: Generations, id: string) {
    exists k :: from <= k < |updates| && IsFor(updates[k], t, current, id)
                && forall l | from <= l < |updates| && l != k :: updates[l].hostId != id
  }

  lemma DeliveredOnce(updates: seq<Update>, from: nat, t: Tables, current: Generations, ids: seq<string>, id: string)
    requires Delivers(updates, from, t, current, ids) && Distinct(ids) && id in ids
    ensures SentOnce(updates, from, t, current, id)
  {
    var k :| 0 <= k < |ids| && ids[k] == id;
    assert IsFor(updates[from + k], t, current, id);
    forall l | from <= l < |updates| && l != from + k ensures updates[l].hostId != id {
      assert IsFor(updates[from + (l - from)], t, current, ids[l - from]);
    }
  }

  /** Policy ids are primary keys. */
  ghost predicate UniquePolicies(ps: seq<PolicyRow>) {
    forall i, j | 0 <= i < j < |ps| :: ps[i].id != ps[j].id
  }

  lemma {:induction false} PolicyOfId(ps: seq<PolicyRow>, p: PolicyRow)
    requires UniquePolicies(ps) && p in ps
    ensures FindPolicy(ps, p.id) == Some(p)
  {
    if ps[0] != p {
      var k :| 0 <= k < |ps| && ps[k] == p;
      assert ps[1..][k - 1] == p;
      PolicyOfId(ps[1..], p);
    }
  }

  /** Keys and consistency of the tables around an update of policy `pid` from selector `oldSel`. */
  ghost predicate IsUpdate(t: Tables, u: Tables, pid: string, oldSel: Selector) {
    && UniqueIds(t) && UniqueIds(u) && UniqueHosts(u.hosts) && UniquePolicies(u.policies)
    && UpdatedOnly(t, u, pid) && SelectorIs(t, pid, oldSel)
  }

  /** The host's ruleset changed, and there is one to send. */
  ghost predicate Changed(t: Tables, u: Tables, h: Host) {
    && h in u.hosts && h.status.Active? && h.labelsReadable
    && Compile(t, h.labels) != Compile(u, h.labels) && Compile(u, h.labels).Some?
  }

  lemma ChangedIsListed(t: Tables, u: Tables, pid: string, oldSel: Selector, h: Host)
    requires IsUpdate(t, u, pid, oldSel) && Changed(t, u, h)
    requires FindPolicy(u.policies, pid).Some? && FindPolicy(u.policies, pid).value.selector.Some?
    ensures SelectedId(u.hosts, oldSel, h.id) || SelectedId(u.hosts, FindPolicy(u.policies, pid).value.selector.value, h.id)
    ensures Builds(u, h.id)
  {
    var newSel := FindPolicy(u.policies, pid).value.selector.value;
    forall p | p in u.policies && p.id == pid ensures p.selector == Some(newSel) {
      PolicyOfId(u.policies, p);
    }
    CascadeCoverage(t, u, pid, oldSel, newSel, h);
    LabelsOfHost(u.hosts, h);
  }

  /** The desired generation of each listed host has risen by one, unless its increment failed. */
  ghost predicate Bumped(was: map<string, int>, now: map<string, int>, ids: seq<string>, fails: set<string>) {
    now.Keys == was.Keys && forall id | id in now :: BumpedAt(was, now, ids, fails, id)
  }

  predicate BumpedAt(was: map<string, int>, now: map<string, int>, ids: seq<string>, fails: set<string>, id: string)
    requires id in was && id in now
  {
    now[id] == was[id] + (if id in ids && id !in fails then 1 else 0)
  }

  function Bump(m: map<string, int>, id: string, fails: bool): map<string, int> {
    if id in m && !fails then m[id := m[id] + 1] else m
  }

  lemma BumpedMore(was: map<string, int>, now: map<string, int>, ids: seq<string>, fails: set<string>, id: string)
    requires Bumped(was, now, ids, fails) && id !in ids
    ensures Bumped(was, Bump(now, id, id in fails), ids + [id], fails)
  {
    var next := Bump(now, id, id in fails);
    forall x | x in next ensures BumpedAt(was, next, ids + [id], fails, x) {
      assert BumpedAt(was, now, ids, fails, x);
    }
  }

  /** The old or the new selector of the policy selects the host. */
  ghost predicate Listed(u: Tables, pid: string, oldSel: Selector, id: string)
    requires FindPolicy(u.policies, pid).Some? && FindPolicy(u.policies, pid).value.selector.Some?
  {
    SelectedId(u.hosts, oldSel, id) || SelectedId(u.hosts, FindPolicy(u.policies, pid).value.selector.value, id)
  }

  /** By how much the host's desired generation rises. */
  ghost function Rise(u: Tables, pid: string, oldSel: Selector, fails: set<string>, id: string): int
    requires FindPolicy(u.policies, pid).Some? && FindPolicy(u.policies, pid).value.selector.Some?
  {
    if Listed(u, pid, oldSel, id) && id !in fails then 1 else 0
  }

  lemma DeliveredIsListed(u: Tables, pid: string, oldSel: Selector, ids: seq<string>,
                          updates: seq<Update>, from: nat, current: Generations, k: nat)
    requires FindPolicy(u.policies, pid).Some? && FindPolicy(u.policies, pid).value.selector.Some?
    requires forall id | id in ids :: Listed(u, pid, oldSel, id)
    requires Delivers(updates, from, u, current, Building(u, ids)) && from <= k < |updates|
    ensures Listed(u, pid, oldSel, updates[k].hostId) && FreshBundle(u, current, updates[k])
  {
    var b := Building(u, ids);
    assert IsFor(updates[from + (k - from)], u, current, b[k - from]);
    assert b[k - from] in b;
    BuildingMembers(u, ids, b[k - from]);
  }

  class Recompiler {
    var current: Generations
    var desired: map<string, int>      // hosts.desired_generation
    var dispatched: seq<Update>

    constructor ()
      ensures current == map[] && desired == map[] && dispatched == []
    {
      current, desired, dispatched := map[], map[], [];
    }

    /** One turn of the dispatch loop; a failed increment is ignored. */
    method RecompileOne(t: Tables, id: string, bumpFails: bool) returns (ok: bool)
      modifies `desired, `dispatched
      ensures desired == Bump(old(desired), id, bumpFails)
      ensures ok == Builds(t, id)
      ensures !ok ==> dispatched == old(dispatched)
      ensures ok ==>
              && |dispatched| == |old(dispatched)| + 1 && dispatched[..|old(dispatched)|] == old(dispatched)
              && IsFor(dispatched[|old(dispatched)|], t, current, id)
    {
      if id in desired && !bumpFails { desired := desired[id := desired[id] + 1]; }
      var rs := CompileHost(t, id);
      if rs.None? { return false; }
      var b := BuildProtoBundle(rs.value, GenerationOf(current, id) + 1);
      dispatched := dispatched + [Update(id, b)];
      return true;
    }

    lemma DeliversMore(before: seq<Update>, from: nat, t: Tables, done: seq<string>, id: string)
      requires Delivers(before, from, t, current, done)
      requires |dispatched| == |before| + 1 && dispatched[..|before|] == before && IsFor(dispatched[|before|], t, current, id)
      ensures Delivers(dispatched, from, t, current, done + [id])
      ensures from <= |before| && dispatched[..from] == before[..from]
    {
      assert forall k | 0 <= k < |before| :: dispatched[k] == dispatched[..|before|][k] == before[k];
      forall k | 0 <= k < |done + [id]| ensures IsFor(dispatched[from + k], t, current, (done + [id])[k]) {
        if k < |done| { assert IsFor(before[from + k], t, current, done[k]); }
      }
    }

    /** `recompileAndDispatch`: the listed hosts that build get one fresh bundle each, in order, and no other host does. */
    method RecompileAndDispatch(t: Tables, hostIds: seq<string>, bumpFails: set<string>) returns (failures: nat)
      requires Distinct(hostIds)
      modifies `desired, `dispatched
      ensures Bumped(old(desired), desired, hostIds, bumpFails)
      ensures |old(dispatched)| <= |dispatched| && dispatched[..|old(dispatched)|] == old(dispatched)
      ensures Delivers(dispatched, |old(dispatched)|, t, current, Building(t, hostIds))
      ensures failures == |hostIds| - |Building(t, hostIds)|
    {
      failures := 0;
      ghost var n := |dispatched|;
      for i := 0 to |hostIds|
        invariant Bumped(old(desired), desired, hostIds[..i], bumpFails)
        invariant n <= |dispatched| && dispatched[..n] == old(dispatched)
        invariant Delivers(dispatched, n, t, current, Building(t, hostIds[..i]))
        invariant failures == i - |Building(t, hostIds[..i])|
      {
        ghost var before := dispatched;
        BumpedMore(old(desired), desired, hostIds[..i], bumpFails, hostIds[i]);
        var ok := RecompileOne(t, hostIds[i], hostIds[i] in bumpFails);
        assert hostIds[..i + 1][..i] == hostIds[..i];
        assert hostIds[..i + 1] == hostIds[..i] + [hostIds[i]];
        if ok {
          DeliversMore(before, n, t, Building(t, hostIds[..i]), hostIds[i]);
        } else {
          failures := failures + 1;
        }
      }
      assert hostIds[..|hostIds|] == hostIds;
    }

    /**
     `OnPolicyChangedWithOldSelector`, after the update from `t` to `u`: every
     active host with readable labels whose ruleset changed is sent exactly one
     bundle, the one the new tables prescribe.
     */
    method OnPolicyChangedWithOldSelector(ghost t: Tables, u: Tables, pid: string, oldSel: Selector, bumpFails: set<string>)
      returns (failures: Option<nat>)
      modifies `desired, `dispatched
      ensures failures.Some? <==> FindPolicy(u.policies, pid).Some? && FindPolicy(u.policies, pid).value.selector.Some?
      ensures failures.None? ==> unchanged(this)
      ensures |old(dispatched)| <= |dispatched| && dispatched[..|old(dispatched)|] == old(dispatched)
      ensures desired.Keys == old(desired).Keys
      ensures failures.Some? ==> forall id | id in desired :: desired[id] == old(desired)[id] + Rise(u, pid, oldSel, bumpFails, id)
      ensures failures.Some? ==> forall k | |old(dispatched)| <= k < |dispatched| ::
                Listed(u, pid, oldSel, dispatched[k].hostId) && FreshBundle(u, current, dispatched[k])
      ensures failures.Some? && IsUpdate(t, u, pid, oldSel) ==>
              forall h | Changed(t, u, h) :: SentOnce(dispatched, |old(dispatched)|, u, current, h.id)
    {
      var ids := HostsToRecompile(u, pid, oldSel);
      if ids.None? { return None; }
      ghost var n := |dispatched|;
      ghost var was := desired;
      var failed := RecompileAndDispatch(u, ids.value, bumpFails);
      forall id | id in desired ensures desired[id] == was[id] + Rise(u, pid, oldSel, bumpFails, id) {
        assert BumpedAt(was, desired, ids.value, bumpFails, id);
      }
      forall k | n <= k < |dispatched|
        ensures Listed(u, pid, oldSel, dispatched[k].hostId) && FreshBundle(u, current, dispatched[k])
      {
        DeliveredIsListed(u, pid, oldSel, ids.value, dispatched, n, current, k);
      }
      if IsUpdate(t, u, pid, oldSel) {
        forall h | Changed(t, u, h) ensures SentOnce(dispatched, n, u, current, h.id) {
          ChangedIsListed(t, u, pid, oldSel, h);
          BuildingMembers(u, ids.value, h.id);
          BuildingDistinct(u, ids.value);
          DeliveredOnce(dispatched, n, u, current, Building(u, ids.value), h.id);
        }
      }
      return Some(failed);
    }
  }
}
