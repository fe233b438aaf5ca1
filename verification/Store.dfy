/**
 The control plane's tables and label selectors.  Text columns that the code
 compares with a fixed list of names are enumerations with a case for any
 other text.
 */
module Store {
  import opened Types
  import opened Proto

  type Labels = map<string, string>

  datatype ActionName = Allow | Deny | Log | NoAction | OtherAction(text: string)
  datatype DirectionName = Ingress | Egress | NoDirection | OtherDirection(text: string)
  datatype StateName = New | Established | Related | Invalid | OtherState(text: string)
  datatype ProtocolName = Tcp | Udp | Icmp | Icmpv6 | OtherProtocol(text: string)
  datatype Operator = In | NotIn | Exists | DoesNotExist | OtherOperator(text: string)
  datatype Status = Active | OtherStatus(text: string)

  datatype Requirement = Requirement(key: string, operator: Operator, values: seq<string>)

  datatype Selector = Selector(matchLabels: map<string, string>, expressions: seq<Requirement>)

  /**
   A host row.  `labels` is the map the JSON decoder leaves behind, even when
   it reports an error; `ip` is the prefix of the "ip" label, if it parses.
   */
  datatype Host = Host(
    id: string,
    hostname: string,
    status: Status,
    labels: Labels,
    labelsReadable: bool,
    ip: Option<ProtoCidr>)

  /** `rules.match`; each inline text carries the result of parsing it. */
  datatype MatchSpec = MatchSpec(
    protocol: ProtocolName,
    srcIpSet: string,
    dstIpSet: string,
    srcPortSet: string,
    dstPortSet: string,
    srcHostSet: string,
    dstHostSet: string,
    srcCidrs: seq<Option<ProtoCidr>>,
    dstCidrs: seq<Option<ProtoCidr>>,
    srcPorts: seq<Option<ProtoPorts>>,
    dstPorts: seq<Option<ProtoPorts>>,
    tcpFlagsMask: u32,
    tcpFlagsMatch: u32)

  /** A rule row; `id` is the printed UUID, `criteria` is `None` when the stored JSON does not decode. */
  datatype Rule = Rule(
    id: string,
    policyId: string,
    name: string,
    priority: i32,
    direction: DirectionName,
    criteria: Option<MatchSpec>,
    state: Option<StateName>,
    action: ActionName,
    log: bool,
    silent: bool)

  /** A policy row; `selector` is `None` when the stored JSON does not decode. */
  datatype PolicyRow = PolicyRow(id: string, name: string, priority: i32, selector: Option<Selector>)

  datatype Group =
    | IpSet(cidrs: seq<Option<ProtoCidr>>)
    | PortSet(ports: seq<Option<ProtoPorts>>)
    | HostSet(selector: Selector)
    | Unreadable

  datatype Tables = Tables(
    policies: seq<PolicyRow>,
    rules: map<string, seq<Rule>>,
    groups: map<string, Group>,
    hosts: seq<Host>,
    defaultIngress: ActionName,
    defaultEgress: ActionName)
  {
    /** `ListRulesByPolicy`. */
    function RulesOf(p: PolicyRow): seq<Rule> { RulesOfId(p.id) }

    function RulesOfId(pid: string): seq<Rule> { if pid in rules then rules[pid] else [] }
  }

  // -------------------------------------------------------------- selectors

  /** A missing label reads as the empty string. */
  function LabelOrEmpty(labels: Labels, k: string): string { if k in labels then labels[k] else "" }

  predicate EvalExpression(e: Requirement, labels: Labels) {
    match e.operator
    case In => e.key in labels && labels[e.key] in e.values
    case NotIn => e.key !in labels || labels[e.key] !in e.values
    case Exists => e.key in labels
    case DoesNotExist => e.key !in labels
    case OtherOperator(_) => false
  }

  predicate MatchesLabels(sel: Selector, labels: Labels) {
    && (forall k | k in sel.matchLabels :: LabelOrEmpty(labels, k) == sel.matchLabels[k])
    && (forall i | 0 <= i < |sel.expressions| :: EvalExpression(sel.expressions[i], labels))
  }

  /** Hosts a selector resolves to: active, with readable labels that match. */
  predicate Selected(sel: Selector, h: Host) {
    h.status.Active? && h.labelsReadable && MatchesLabels(sel, h.labels)
  }

  function Filtered(hosts: seq<Host>, sel: Selector): seq<Host> {
    if hosts == [] then []
    else
      var n := |hosts| - 1;
      Filtered(hosts[..n], sel) + (if Selected(sel, hosts[n]) then [hosts[n]] else [])
  }

  lemma {:induction false} FilteredMembers(hosts: seq<Host>, sel: Selector, h: Host)
    ensures h in Filtered(hosts, sel) <==> h in hosts && Selected(sel, h)
  {
    if hosts != [] {
      var n := |hosts| - 1;
      FilteredMembers(hosts[..n], sel, h);
      assert hosts == hosts[..n] + [hosts[n]];
    }
  }

  /** `ResolveHosts`. */
  method ResolveHosts(hosts: seq<Host>, sel: Selector) returns (matched: seq<Host>)
    ensures matched == Filtered(hosts, sel)
    ensures forall h :: h in matched <==> h in hosts && Selected(sel, h)
  {
    matched := [];
    for i := 0 to |hosts|
      invariant matched == Filtered(hosts[..i], sel)
    {
      assert hosts[..i + 1][..i] == hosts[..i];
      if !hosts[i].status.Active? { continue; }
      if !hosts[i].labelsReadable { continue; }
      if MatchesLabels(sel, hosts[i].labels) { matched := matched + [hosts[i]]; }
    }
    assert hosts[..|hosts|] == hosts;
    forall h ensures h in matched <==> h in hosts && Selected(sel, h) {
      FilteredMembers(hosts, sel, h);
    }
  }
}
