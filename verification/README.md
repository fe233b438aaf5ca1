# qf verification

A Dafny 4.11 model of the qf host firewall, with proofs about it. qf has a
control plane that turns policies into an ordered rule bundle, an agent that
compiles a bundle into BPF map contents, and a BPF program that decides every
packet from those maps and a connection-tracking table. The model follows one
rule all the way: store tables, compiled ruleset, bundle, agent compiler, map
slots, verdict on a frame.

`dafny verify dfyconfig.toml` checks the whole project.

## Main results

- **A bundle means what it says.** `PolicyHandler.Handler.Apply` succeeds only
  when the published maps give every packet, in every conntrack state, the
  action of the first bundle rule whose plain reading holds, or else the
  direction's default. Skipped rules, spilled address sets, re-sorting and
  stale slots beyond the count do not change it. Up to failing kernel writes it
  succeeds exactly on bundles that compile, hold valid values and keep few
  enough rules. `ControlBundle` extends this up to the store: every verdict is
  that of the least matching rule by (policy priority, rule priority, rule id),
  or the tenant's default, and does not depend on the order in which the store
  lists policies, rules or hosts.
- **The masked word compare, the LPM trie and CIDR containment agree**
  (section 3.1 of RFC 4632): `Loader.InlineAndSpilledAgree`, down to
  `Address.MaskedCompareIsPrefix` on bits in network order.
- **Stateful ingress is safe over whole runs**: `Runs.StatefulIngressSafety`,
  under any evictions and any policy changes that keep the condition. `Apply`
  keeps it after every single map write between two such bundles, failed calls
  included. `Interleaving.InterleavedIngressSafety` drops the assumption that a
  packet is one step: any number of CPUs, one map access at a time.
- **The shared conntrack table is a product of per-flow automata**:
  `Runs.TableIsFlowProduct` and `Runs.EntryInvariants` give counters, TCP state
  and the handshake (section 3.5 of RFC 9293) behind every entry of every run.
- **Conntrack does not interfere with stateless bundles**:
  `Runs.NonInterference`, with `ControlBundle.RequiresConntrackExactly`
  connecting it to the flag the control plane sets.
- **Updating the rules is a protocol of single map writes**: `SlotProtocol`
  proves what every interleaving with packet evaluation keeps;
  `SlotAtomicity` gives exactly the outcomes a packet can meet while rules are
  replaced, and exactly when the update looks atomic to it.
- **Ordering, cascade and dry run agree with compilation**: `Ruleset`,
  `Cascade`, `DryRun`. After a policy update every active host whose ruleset
  changed is sent exactly one bundle, the one the new tables prescribe.
- **Where documentation and code part, the exact condition**: `Readings`,
  `SlotAtomicity.AtomicExactly`, `LoginLimiter.FivePerMinuteExactly`,
  `RateLimit.BoundHoldsExactly`, `RateLimit.DocumentedLimitExactly`,
  `ControlBundle.SilentRespectedExactly`, `ControlBundle.RestrictionLostExactly`,
  each with an input on which they part.
- **Bounds and round trips**: token bucket, login limiter, bounded FIFO disk
  buffer, partition calendar, structured data of section 6.3 of RFC 5424.

## Layout

| file | models |
|---|---|
| Types, Packets, Address | machine integers, parsed packets, IPv4 words, masks and prefixes |
| Parser, Conntrack, Matcher, RateLimit, Datapath | the BPF program and its maps (`agent/bpf`) |
| Runs, Interleaving | whole runs of the datapath, packet by packet and access by access |
| Loader, SlotProtocol, SlotAtomicity, ConntrackGc | the agent's map writers (`agent/internal/loader`) |
| Proto, Uuids, BundleCompiler, PolicyHandler | bundles and their compilation (`agent/internal/policy`, `agent/internal/handler`) |
| Readings | two documented readings of rules, against the agent |
| Lexical, Store, Ruleset, ControlBundle, Cascade, DryRun | the control plane (`cp/internal/policy`) |
| LoginLimiter, Syslog, DiskBuffer, Calendar, PartitionNames, Partitions | smaller stateful parts |

## Where the code and its documentation differ

The model does what the code does.

- `proto/qf/v1/common.proto:14-16` calls LOG non-terminal. The datapath stops
  at the first match whatever its action, so LOG is a terminal accept. The two
  readings differ on a packet exactly when it stops at a LOG rule and the rules
  after it deny (`Readings.LogReadingExactly`); `Readings.LogLetsIn` gives a
  bundle that the agent accepts and on which they do, and without LOG rules they
  never do.
- `agent/internal/loader/rules.go:87` calls the rule update atomic. It writes
  slots one at a time and the count last, while packets read slot by slot. A
  packet can tell exactly when some slot it can get to holds, in its old or its
  new content, a rule that is neither the one met before nor the one met after,
  or it can pass all slots although it meets a rule before and after
  (`SlotAtomicity.AtomicExactly`).
  `SlotAtomicity.DeniedBeforeAndAfterAllowedBetween` is a run in which a packet
  denied before and after is let in;
  `SlotAtomicity.DeniedBeforeAndAfterMissedBetween` is one in which two rules
  merely change places and the packet meets neither.
- The direction bit of a conntrack entry is address order, not who opened the
  connection, and the order is that of the little-endian words: the last octet
  decides first (`Address.WordOrderExactly`). "Lower" and "higher" address mean
  this order throughout. A textbook handshake is recognised exactly when the
  lower address opens it (`Conntrack.HandshakeRecognisedExactly`), so not when
  10.0.0.2 opens one with 192.168.0.1 (`Conntrack.OpeningNotRecognised`).
- A `silent` DENY rule without `log` is still logged: the datapath logs every
  DENY (`ControlBundle.SilentRespectedExactly`,
  `ControlBundle.SilentDenyIsLogged`).
- The token bucket treats a last-seen time of 0 as "never used", so its bound
  holds exactly when the clock does not read 0
  (`RateLimit.BoundHoldsExactly`).
- `proto/qf/v1/agent.proto:261-263` calls `log_rate_limit_per_sec` a maximum. The
  agent cuts it to 16 bits, where 0 means no limit, so it is kept exactly when it
  is not a multiple of 65536 (`RateLimit.DocumentedLimitExactly`,
  `RateLimit.LimitOf65536IsLost`).
- The login limiter is described as a sliding window of 5 attempts a minute.
  Its windows are fixed. Five hold exactly for minutes that begin no later than
  the address's first attempt, or exactly one window after it
  (`LoginLimiter.FivePerMinuteExactly`); in every other minute nine can get
  through, and no more.
- Conntrack state `related` is accepted in bundles; the matcher turns every
  packet away from such a rule.
- `tcp_flags` conditions are put into bundles and the agent does not carry them
  into rules, so the reference meaning of a rule has none. A rule is decided as
  its flag filter asks exactly when the filter is idle if the rule can match TCP
  packets, and asks for no bit if it can match others; the rule's fields say
  which (`Readings.FlagsIgnoredExactly`). `Readings.FlagsLetIn` gives an accepted
  bundle that lets in packets its filter excludes.
- An empty address list means any address, and a stored restriction can come out
  as one: a group that holds no address, or an inline list with one unreadable
  text, restricts nothing (`ControlBundle.RestrictionLostExactly`,
  `ControlBundle.BadTextOpensSide`).
- Names of daily partitions are written with as many year digits as needed and
  read with exactly four, so they are read back exactly up to the year 9999
  (`PartitionNames.DailyRoundTripExactly`).

## Model

| member | source | states |
|---|---|---|
| `Address.DecodeEncode` | agent/internal/loader/conntrack.go:188-201 | an IPv4 address survives encoding to the datapath's little-endian word and back |
| `Address.EncodeDecode` | agent/internal/loader/conntrack.go:188-201 | every word survives decoding to an address and back, so the two forms are in bijection |
| `Address.WordOrderExactly` | agent/bpf/conntrack.h:24-36 | words compare as addresses read from the last octet to the first |
| `Address.MaskedCompareIsPrefix` | agent/bpf/matcher.h:11-26 | comparing masked little-endian words decides exactly whether the first `ones` bits agree in network order, for every prefix length 0 to 32 |
| `Address.MaskingKeepsPrefix` | agent/internal/policy/compiler.go:174-180 | clearing the host bits of a network address changes no containment answer |
| `Conntrack.KeySharedExactly` | agent/bpf/conntrack.h:21-41 | two packets share a key iff protocol and tuple are equal, or mirrored with distinct addresses; then the direction bits tell the two ends apart; mirrored packets share one iff addresses differ or ports are equal; keys are canonical |
| `Conntrack.AdvanceCounts` | agent/bpf/conntrack.h:134-160 | a further packet adds one packet and its size to the sum of both directions, modulo 2^64 |
| `Conntrack.FoldCounts` | agent/bpf/conntrack.h:124-180 | forward plus reverse counters of an entry are the number and total size of its packets, modulo 2^64 |
| `Conntrack.TcpStateAgrees` | agent/bpf/conntrack.h:90-100 | the coarse state of a TCP entry is always the image of its TCP state, whatever its history |
| `Conntrack.NonTcpEstablishedExactly` | agent/bpf/conntrack.h:124-180 | a non-TCP entry is established iff a packet after the first came from the higher address |
| `Conntrack.HandshakeSafety` | agent/bpf/conntrack.h:47-87 | an entry in ESTABLISHED, FIN_WAIT or LAST_ACK has a SYN, then a SYN+ACK from the higher address, then an ACK from the lower one in its history, with no RST since; the two earlier states have the corresponding part |
| `Conntrack.HandshakeRecognisedExactly` | agent/bpf/conntrack.h:47-87 | a three-way handshake ends in established iff the lower address opened it |
| `Conntrack.OpeningNotRecognised` | agent/bpf/conntrack.h:24-36 | a regular handshake that 10.0.0.2 opens with 192.168.0.1 does not become established |
| `Conntrack.HigherInitiatorNeverEstablished` | agent/bpf/conntrack.h:47-87 | with no SYN+ACK from the higher address in its history, a TCP entry is never established |
| `Parser.ParseTransport` | agent/bpf/parser.h:30-77 | the transport step reads ports, flags and ICMP fields as the frame layout gives them, and skips truncated or unknown transports |
| `Parser.ParseIpv4` | agent/bpf/parser.h:11-77 | the step-by-step IPv4 parser computes the meaning of the frame: header length with options, fragments skipped, truncation skipped |
| `Parser.ParseIpv6` | agent/bpf/parser.h:81-142 | the step-by-step IPv6 parser computes the meaning of the frame, with truncation skipped and extension headers not followed |
| `Parser.ParsePacket` | agent/bpf/parser.h:150-170 | any frame, however short, gets the packet the layout defines or is skipped |
| `Parser.PayloadIgnored` | agent/bpf/parser.h:11-170 | bytes after a parsed frame never change what is parsed |
| `Parser.FlagRoundTrip` | agent/bpf/parser.h:38-77 | TCP flags survive the flag byte |
| `Parser.ParseEmit` | agent/bpf/parser.h:11-77 | every IPv4 packet put on the wire, with any options and unused header bytes, parses back to itself |
| `Parser.ParseEmit6` | agent/bpf/parser.h:81-142 | every IPv6 packet put on the wire parses back to itself, its addresses dropped and its size wrapping at 16 bits, whatever the bytes not looked at |
| `Parser.ParsedExactly` | agent/bpf/parser.h:11-170 | the packets some frame parses to are exactly those with blank fields of other protocols, one identifier for echo messages and no addresses for IPv6 |
| `Parser.EchoSharesKey` | agent/bpf/parser.h:65-70 | an echo request and its reply always share a conntrack key, for ICMP and ICMPv6 |
| `Matcher.CoversExactly` | agent/bpf/matcher.h:70-92 | a stored trie key covers a probe iff the set ids are equal and the address agrees on the prefix |
| `Matcher.FirstMatchIsLeast` | agent/bpf/matcher.h:144-211 | the evaluated index matches if it is inside the range, and nothing before it does |
| `Matcher.FirstMatchIs` | agent/bpf/matcher.h:144-211 | no other index has these properties |
| `Matcher.MatchCidrs4` | agent/bpf/matcher.h:10-26 | the bounded loop answers "no list, or an IPv4 address inside some listed network" |
| `Matcher.MatchPortRanges` | agent/bpf/matcher.h:32-45 | the bounded loop answers "no list, or inside some listed range" |
| `Matcher.MatchRule` | agent/bpf/matcher.h:51-115 | the early-exit chain is the conjunction of all criteria |
| `Matcher.EvalOne` | agent/bpf/matcher.h:144-155 | the callback stops exactly at a match and leaves its context alone otherwise |
| `Matcher.EvalRulesLoop` | agent/bpf/matcher.h:157-173 | the `bpf_loop` variant returns index and action of the first match below the published count |
| `Matcher.EvalRulesCompat` | agent/bpf/matcher.h:186-211 | the unrolled variant computes the same within its own bound |
| `RateLimit.RefillExact` | agent/bpf/tc_filter.c:31-43 | for any bucket that earlier checks can leave in a slot, the 32-bit and 64-bit arithmetic never overflows and the refill is rate times the capped elapsed time, cut at the rate |
| `RateLimit.TokensWithinRate` | agent/bpf/tc_filter.c:16-53 | after any checks on a monotone clock the bucket holds at most `rate` tokens |
| `RateLimit.Potential` | agent/bpf/tc_filter.c:16-53 | emitted events plus remaining tokens never exceed the rate plus what the elapsed time earned |
| `RateLimit.EmissionBound` | agent/bpf/tc_filter.c:16-53 | events over a span of T ns are at most R + R*T/10^9, for every monotone sequence of checks and every bucket that earlier checks, at this or other rates, left in the slot |
| `RateLimit.SlotStaysReady` | agent/bpf/tc_filter.c:16-53 | a check at any rate leaves a bucket from which the bound holds again, so slots may change rules |
| `RateLimit.EmittedPlusSuppressed` | agent/bpf/tc_filter.c:45-52 | every check is either an emission or a suppression |
| `RateLimit.ClockZeroAlwaysEmits` | agent/bpf/tc_filter.c:28-31 | on a clock that reads 0 the bucket is re-initialised every time and never suppresses |
| `RateLimit.BoundHoldsExactly` | agent/bpf/tc_filter.c:16-53 | the bound holds for all monotone clocks starting at t iff t is not 0 |
| `RateLimit.DocumentedLimitExactly` | agent/internal/policy/compiler.go:142 | a limit given in a bundle is kept, in the sense of the bound, iff it is not a multiple of 65536 |
| `RateLimit.LimitOf65536IsLost` | agent/internal/policy/compiler.go:142 | under a limit of 65536 every check emits |
| `Datapath.BpfMaps.constructor` | agent/bpf/maps.h:6-86 | maps start zero-filled and empty |
| `Datapath.BpfMaps.CtUpdate` | agent/bpf/conntrack.h:124-180 | the in-place update is one step of the flow automaton; TCP packets without SYN open no entry |
| `Datapath.BpfMaps.CheckRateLimit` | agent/bpf/tc_filter.c:16-53 | one bucket changes by the abstract check, and the suppressed counter counts exactly the refusals |
| `Datapath.BpfMaps.EmitLog` | agent/bpf/tc_filter.c:55-81 | an event is appended iff the bucket and the ring buffer allow it, carrying the rule's id, the packet and the state it was decided in |
| `Datapath.BpfMaps.ApplyAction` | agent/bpf/tc_filter.c:94-107 | verdict, the one counter that moves, and all logging state after a match |
| `Datapath.BpfMaps.EvalRules` | agent/bpf/matcher.h:119-211 | whichever variant is loaded, evaluation is first match over the published rules |
| `Datapath.BpfMaps.TrackAccepted` | agent/bpf/tc_filter.c:138-151 | conntrack is updated for accepted packets only, and only while it is switched on |
| `Datapath.BpfMaps.HandleMatch` | agent/bpf/tc_filter.c:134-145 | a matched packet: verdict, table, counters and logging together |
| `Datapath.BpfMaps.HandleDefault` | agent/bpf/tc_filter.c:148-152 | an unmatched packet: the direction's default, no counter, no log |
| `Datapath.BpfMaps.HandlePacket` | agent/bpf/tc_filter.c:119-152 | a parsed packet gets the policy's verdict; dropped packets leave the table alone; only the applied rule's slot counts and logs |
| `Datapath.BpfMaps.RunDatapath` | agent/bpf/tc_filter.c:110-153 | the same from the raw frame; an unparsed frame passes and changes nothing |
| `Runs.IngressNeedsEntry` | agent/bpf/matcher.h:105-112 | with default-deny ingress and conntrack conditions on all non-deny ingress rules, an accepted ingress packet has an entry |
| `Runs.EntriesComeFromEgress` | agent/bpf/tc_filter.c:119-152 | under that policy every table entry goes back to an accepted egress packet with its key |
| `Runs.StatefulIngressSafety` | agent/bpf/tc_filter.c:119-152 | in every run from an empty table, with any removals and installs that keep the condition, each accepted ingress packet is preceded by an accepted egress packet with the same key |
| `Runs.TableIsFlowProduct` | agent/bpf/conntrack.h:105-180 | in every run, an entry exists iff its key has live packets, and equals the fold over exactly those accepted packets since it was last inserted |
| `Runs.HistoryExplains` | agent/bpf/conntrack.h:124-180 | counters, TCP state and handshake of an entry follow from its history |
| `Runs.EntryInvariants` | agent/bpf/conntrack.h:105-180 | the same for every entry of every run, and its key is canonical |
| `Runs.StepIsLocal` | agent/bpf/tc_filter.c:134-152 | a packet touches no other key's entry, and a dropped packet touches none |
| `Runs.StatelessIgnoresConntrack` | agent/bpf/matcher.h:105-112 | with no conntrack conditions, verdict and matched rule do not depend on the conntrack flag or on any table contents |
| `Runs.NonInterference` | agent/bpf/tc_filter.c:119-152 | two runs that differ only in conntrack flags, clocks, removals and initial tables accept the same packets by the same rules |
| `Interleaving.StepKeepsInv` | agent/bpf/tc_filter.c:110-153 | every single access of a CPU, every write and every eviction keeps: entries and decisions to accept ingress packets have their key among the accepted egress packets |
| `Interleaving.UntrackedScanDenies` | agent/bpf/matcher.h:105-112 | an untracked ingress packet stops at DENY rules only, whatever is written while it scans |
| `Interleaving.InterleavedIngressSafety` | agent/bpf/tc_filter.c:119-152 | over every interleaving of single accesses of any number of CPUs with rewrites between stateful-ingress policies, an accepted ingress packet is preceded by an accepted egress packet with the same key |
| `Interleaving.BundleWritesEnabled` | agent/internal/handler/policy.go:57-70 | the slot and default writes for a stateful-ingress bundle are among those rewrites |
| `Interleaving.BundleCountEnabled` | agent/internal/loader/rules.go:123-126 | so is the write of the count, once the slots are written |
| `Loader.InlineListExactly` | agent/internal/loader/rules.go:235-247 | an encoded inline list matches a word iff some network of the list contains the address |
| `Loader.SpilledSetExactly` | agent/internal/loader/ipset.go:20-41 | the trie of all pushed sets answers for one id exactly from that id's networks: sets never leak into each other |
| `Loader.InlineAndSpilledAgree` | agent/bpf/matcher.h:70-92 | inline compare, trie lookup and prefix containment give the same answer for every list and address |
| `Loader.ConversionKeepsMeaning` | agent/internal/loader/rules.go:136-191 | the fixed-size map entry matches a packet iff the rule specification does |
| `Loader.RuleIdInjective` | agent/internal/loader/rules.go:136-146 | two rules with the same id words have the same id |
| `Loader.EncodeCIDR4` | agent/internal/loader/rules.go:235-247 | fails iff the address is not IPv4 or the prefix is out of range |
| `Loader.FillCidrs` | agent/internal/loader/rules.go:136-191 | fills the eight-entry array from the front, or fails iff some network is invalid |
| `Loader.FillPorts` | agent/internal/loader/rules.go:136-191 | fills the eight-entry port array from the front |
| `Loader.ToRuleEntry` | agent/internal/loader/rules.go:136-232 | converts iff the rule is valid |
| `Loader.StableSortSpec` | agent/internal/loader/rules.go:99-103 | the sort orders by priority, loses nothing, and keeps rules of equal priority in their order |
| `Loader.SortedUntouched` | agent/internal/loader/rules.go:99-103 | an ordered list is left as it is |
| `Loader.ConvertRules` | agent/internal/loader/rules.go:105-113 | all rules are converted before anything is written, or none |
| `Loader.WriteSlots` | agent/internal/loader/rules.go:115-122 | even a failed write leaves a prefix of the new entries followed by the old slots; so does every policy published on the way |
| `Loader.PushRules` | agent/internal/loader/rules.go:94-128 | on success slots are the converted sorted rules followed by stale ones, and the count is theirs; exact error conditions; only a failed kernel write changes slots, and no failure changes the count; every policy published on the way is a mixture under the old count or the new rules under theirs |
| `Loader.PushIPSet` | agent/internal/loader/ipset.go:20-41 | adds exactly the set's keys; fails for id 0, for invalid networks, or by a kernel write; never removes, and writes one key at a time |
| `Loader.ClearIPSets` | agent/internal/loader/ipset.go:44-61 | empties the trie one key at a time, failing only by a kernel write; never adds |
| `Loader.SetConfig` | agent/internal/loader/config.go:26-54 | writes the two flags and the two defaults, with an unset default as ALLOW; a failure is a kernel write and leaves exactly the words before it written |
| `Loader.WriteWord` | agent/internal/loader/config.go:34-52 | one word more of the configuration, or none |
| `Uuids.UuidRoundTrip` | agent/internal/policy/compiler.go:209-221 | every id the control plane prints is parsed back to the same 16 bytes |
| `Uuids.UuidToStrInjective` | cp/internal/policy/selector.go:127-130 | distinct ids print differently |
| `BundleCompiler.RefFirst` | agent/internal/policy/compiler.go:54-89 | the first bundle rule, in order, whose plain reading holds |
| `BundleCompiler.UsableCidrsMeaning` | agent/internal/policy/compiler.go:164-189 | dropping IPv6 and malformed networks and masking host bits keeps exactly the IPv4 addresses meant |
| `BundleCompiler.SideMeaning` | agent/internal/policy/compiler.go:164-189 | an address side means the same whether compiled inline or spilled to a set |
| `BundleCompiler.CompileState.constructor` | agent/internal/policy/compiler.go:26-30 | compilation starts with no sets |
| `BundleCompiler.CompileState.AllocIPSet` | agent/internal/policy/compiler.go:32-39 | the next 32-bit id gets the list, other sets stay |
| `BundleCompiler.CompileCIDRs` | agent/internal/policy/compiler.go:164-189 | skips iff a non-empty list has nothing usable; otherwise the side is represented and earlier sets are untouched |
| `BundleCompiler.CompilePorts` | agent/internal/policy/compiler.go:191-207 | succeeds iff there are at most eight ordered 16-bit ranges |
| `BundleCompiler.PortsMeaning` | agent/internal/policy/compiler.go:191-207 | compiled ranges hold the same ports |
| `BundleCompiler.CompileRule` | agent/internal/policy/compiler.go:91-156 | exact failure condition; a skip exactly for a rule that cannot match; otherwise the specification represents the rule |
| `BundleCompiler.RuleMeaning` | agent/internal/policy/compiler.go:91-156 | a compiled rule matches a packet iff the bundle rule's plain reading holds |
| `BundleCompiler.DeadNeverMatches` | agent/internal/policy/compiler.go:164-189 | a skipped rule matches no packet |
| `BundleCompiler.CompileNext` | agent/internal/policy/compiler.go:72-85 | one rule more is accounted for, or compilation fails exactly there |
| `BundleCompiler.CompileRules` | agent/internal/policy/compiler.go:72-87 | succeeds iff no rule fails, and then represents every rule in order and reports exactly the dead ones as skipped |
| `BundleCompiler.CompileBundle` | agent/internal/policy/compiler.go:54-89 | fails iff the bundle is missing or has a failing rule; the result represents the bundle, keeps every rule that is not dead and lists the dead ones |
| `BundleCompiler.SlotMeaning` | agent/internal/policy/compiler.go:54-89 | a slot matches a packet iff the bundle rule it came from does |
| `BundleCompiler.NothingEarlier` | agent/internal/policy/compiler.go:54-89 | no bundle rule before a slot's origin matches when the earlier slots do not |
| `BundleCompiler.FirstMatchPreserved` | agent/internal/policy/compiler.go:54-189 | first match over the slots is the slot of the bundle's first match, and there is none iff the bundle has none |
| `PolicyHandler.ActionPreserved` | agent/bpf/tc_filter.c:110-153 | maps that hold a compiled bundle give each packet the bundle's action |
| `PolicyHandler.CompilationPreservesMeaning` | agent/internal/policy/compiler.go:54-189 | such maps implement the bundle for every packet and conntrack state |
| `PolicyHandler.ConvertibleExactly` | agent/internal/loader/rules.go:193-232 | the compiled rules pass validation iff every rule of the bundle that is not dead has valid action, direction and protocol values |
| `PolicyHandler.InstallingStateful` | agent/internal/handler/policy.go:57-70 | between two stateful-ingress bundles every policy published on the way is stateful-ingress |
| `PolicyHandler.Handler.constructor` | agent/internal/handler/policy.go:43-45 | starts in step with empty rule slots |
| `PolicyHandler.Handler.PushSets` | agent/internal/handler/policy.go:60-64 | success leaves the trie of exactly the compiled sets; valid sets fail only by a kernel write |
| `PolicyHandler.Handler.InstallSets` | agent/internal/handler/policy.go:57-67 | address sets and configuration are replaced write by write, and for valid sets only a kernel write can fail |
| `PolicyHandler.Handler.Install` | agent/internal/handler/policy.go:57-70 | success leaves maps that hold the compiled bundle; failures other than a kernel write keep slots and count; fitting rules and sets fail only by a kernel write; the trace of single writes runs from the old to the new policy |
| `PolicyHandler.Handler.Apply` | agent/internal/handler/policy.go:50-83 | whatever came before, success means the maps implement the bundle and `current` describes the slots; it fails exactly for bundles that do not compile, hold invalid values or keep too many rules, or by a kernel write; failure keeps `current`, and slots too unless a kernel write failed; stateful ingress holds after every single write |
| `PolicyHandler.Handler.Current` | agent/internal/grpcclient/counterpoller.go:75-98 | counter slot i belongs to rule i of the current result |
| `PolicyHandler.ConditionsSurviveCompilation` | agent/internal/policy/compiler.go:91-156 | stateless bundles give stateless maps, stateful-ingress bundles give stateful-ingress maps |
| `ConntrackGc.RecanonicaliseExactly` | agent/internal/loader/conntrack.go:148-182 | decoding a key and making it canonical again is the identity iff the key was canonical |
| `ConntrackGc.SameKeyAsDatapath` | agent/internal/loader/conntrack.go:170-182 | the agent computes the key the datapath computes |
| `ConntrackGc.Examine` | agent/internal/loader/conntrack.go:114-131 | the expiry decision, with the unsigned age as the code computes it |
| `ConntrackGc.SweepOne` | agent/internal/loader/conntrack.go:116-139 | deletes the examined entry and no other |
| `ConntrackGc.Sweep` | agent/internal/loader/conntrack.go:108-144 | over a canonical table, exactly the collectable entries whose delete succeeds go, and they are counted |
| `ConntrackGc.LookupEitherEnd` | agent/internal/loader/conntrack.go:67-78 | a flow is found from either end iff its addresses differ or its ports are equal |
| `SlotProtocol.StepKeepsInv` | agent/internal/loader/rules.go:94-128 | every single map access keeps "each slot below the count holds a validated rule of some push" |
| `SlotProtocol.SlotSafety` | agent/internal/loader/rules.go:94-128 | the invariant holds in every state of every interleaving of writes and evaluation |
| `SlotProtocol.HitsAreValidated` | agent/bpf/matcher.h:144-211 | an evaluation that hits, however interleaved, returns a valid action |
| `SlotAtomicity.OutcomesExactly` | agent/bpf/matcher.h:144-211 | while rules are pushed, a packet can meet exactly: the old or new content of a slot that matches, when no slot before it matches in both contents; no rule, when no slot below the old count matches in both; or the outcome of the new rules |
| `SlotAtomicity.UndividedExactly` | agent/internal/loader/rules.go:87-128 | the condition on the two rulesets says that every outcome the packet can meet is the old or the new one |
| `SlotAtomicity.TornOutcome` | agent/internal/loader/rules.go:115-126 | what a packet meets when it is evaluated entirely between two writes: the new first match if it is already written, else the old rules from there on |
| `SlotAtomicity.AtomicExactly` | agent/internal/loader/rules.go:87-128 | over all runs that go on with one push and evaluations of a packet: the packet always meets the rule met before or after iff no slot it can get to holds a third rule for it in its old or new content, and it cannot pass all slots although it meets a rule before and after |
| `SlotAtomicity.DeniedBeforeAndAfterAllowedBetween` | agent/internal/loader/rules.go:87-128 | a run from the first world in which a packet denied before and after an update is met by an ALLOW rule during it, though no single snapshot of the slots allows it |
| `SlotAtomicity.DeniedBeforeAndAfterMissedBetween` | agent/internal/loader/rules.go:87-128 | a run in which two rules change places and a packet denied by the same rule before and after meets no rule, though no slot holds another rule for it |
| `Lexical.SortedList` | cp/internal/policy/dryrun.go:228-236 | lists a set of ids once each in string order |
| `Store.FilteredMembers` | cp/internal/policy/selector.go:79-104 | the resolved hosts are exactly the selected ones |
| `Store.ResolveHosts` | cp/internal/policy/selector.go:79-104 | keeps store order and exactly the active hosts with readable labels that match |
| `Ruleset.ResolveDependsOn` | cp/internal/policy/ruleset.go:160-227 | resolving a rule depends on object groups and hosts only |
| `Ruleset.SortIsPermutation` | cp/internal/policy/ruleset.go:121-130 | sorting loses and duplicates nothing |
| `Ruleset.SortIsOrdered` | cp/internal/policy/ruleset.go:121-130 | with distinct ids the result is strictly ordered by (policy priority, rule priority, rule id) |
| `Ruleset.OrderedUnique` | cp/internal/policy/ruleset.go:121-130 | there is only one such order of a set of rules |
| `Ruleset.ResolveRulesForPolicy` | cp/internal/policy/ruleset.go:139-158 | all rules of the policy resolved in order, or an error iff one fails |
| `Ruleset.ResolveNext` | cp/internal/policy/ruleset.go:146-157 | one rule more, and the first failure decides |
| `Ruleset.CompileHost` | cp/internal/policy/ruleset.go:74-137 | the ruleset of the host's labels, or an error for an unknown host |
| `Ruleset.CollectMembers` | cp/internal/policy/ruleset.go:105-119 | the collected rules are exactly those of the policies whose selector matches |
| `Ruleset.CompileExactly` | cp/internal/policy/ruleset.go:74-137 | compilation succeeds iff every applicable rule resolves, and returns exactly those rules in the one order |
| `Ruleset.CompiledDistinct` | cp/internal/policy/ruleset.go:105-137 | with unique ids in the store a compiled ruleset lists no id twice |
| `Ruleset.HostSetsAlike` | cp/internal/policy/resolver.go:121-156 | a host set holds the same addresses whatever the order of the hosts |
| `Ruleset.ResolveAlike` | cp/internal/policy/ruleset.go:160-227 | so does every rule, and whether it resolves does not depend on that order |
| `Ruleset.SameFeedsSameRules` | cp/internal/policy/ruleset.go:105-137 | stores that feed a host the same rules and defaults give it the same ruleset |
| `Ruleset.StoreOrderIndependent` | cp/internal/policy/ruleset.go:105-137 | listing policies, rules or hosts in another order changes no success, no rule and no order of rules; only addresses taken from host sets follow the order of the hosts, and with that order kept the rulesets are equal |
| `ControlBundle.BuildProtoBundle` | cp/internal/policy/bundle.go:71-120 | one bundle rule per ruleset rule in order, with flag, defaults and generation |
| `ControlBundle.RequiresConntrackExactly` | cp/internal/policy/bundle.go:71-120 | the flag is clear iff no rule of the bundle has a conntrack condition |
| `ControlBundle.ControlBundleFailsExactly` | agent/internal/policy/compiler.go:91-156 | the agent rejects a control-plane rule iff its ports do not fit and its address lists are usable |
| `ControlBundle.ControlBundleAccepted` | agent/internal/policy/compiler.go:54-89 | a control-plane bundle compiles iff the ports of its live rules fit, and its values are always valid |
| `ControlBundle.SilentRespectedExactly` | agent/bpf/tc_filter.c:103 | logging in the datapath agrees with what the rule asks for iff the rule is not a silent DENY without log |
| `ControlBundle.SilentDenyIsLogged` | agent/bpf/tc_filter.c:103 | a silent DENY that resolves, compiles and is accepted, and is logged |
| `ControlBundle.RestrictionLostExactly` | cp/internal/policy/ruleset.go:168-202 | a side of a stored rule lets every packet pass iff it restricts nothing, refers to a group without addresses, or is an inline list with an unreadable text |
| `ControlBundle.BadTextOpensSide` | cp/internal/policy/ruleset.go:229-239 | one unreadable text beside a readable one opens the side to every address |
| `ControlBundle.LeastMatchIsFirst` | cp/internal/policy/bundle.go:71-120 | the least matching rule of the store is the bundle's first match |
| `ControlBundle.VerdictOfLeastMatch` | cp/internal/policy/ruleset.go:74-137 | from store to packet: the verdict is the action of the least matching rule of the policies selecting the host |
| `ControlBundle.VerdictOfDefault` | cp/internal/policy/ruleset.go:74-137 | if no such rule matches, the verdict is the tenant's default for the direction |
| `ControlBundle.LeastMatchExists` | cp/internal/policy/ruleset.go:121-130 | whenever some rule that feeds the host matches there is a least one |
| `ControlBundle.EveryVerdict` | cp/internal/policy/ruleset.go:74-137 | every packet is decided by the least matching rule, or by the default when none matches |
| `ControlBundle.AlikeHold` | agent/internal/policy/compiler.go:164-189 | a rule matches the same packets whatever the order of its addresses |
| `ControlBundle.SameTablesSameVerdicts` | cp/internal/policy/bundle.go:71-120 | two listings of the same store, hosts included, lead to the same verdict on every packet |
| `Readings.LogStopsExactly` | agent/bpf/matcher.h:144-173 | the datapath and the reading that goes on after LOG differ on a packet iff it stops at a LOG rule and the rest denies |
| `Readings.LogReadingExactly` | proto/qf/v1/common.proto:14-16 | the same for bundles and the maps that implement them |
| `Readings.NoLogNoDifference` | proto/qf/v1/common.proto:14-16 | bundles without LOG rules are decided by that reading |
| `Readings.LogLetsIn` | proto/qf/v1/common.proto:14-16 | a bundle that the agent accepts and whose maps let packets in which that reading denies |
| `Readings.IdleExactly` | proto/qf/v1/agent.proto:275-279 | a flag filter passes every combination of flags iff it inspects none of the six flags and requires no bit that is never set |
| `Readings.CanMatchExactly` | agent/bpf/matcher.h:51-115 | a rule matches some TCP packet, or some other packet, that a frame can carry iff its direction, protocol, addresses, ports and state allow it, field by field |
| `Readings.FlagsIgnoredExactly` | agent/internal/policy/compiler.go:137-154 | leaving the filter out changes no decision of a rule iff the filter is idle if the rule can match TCP and asks for no bit if it can match anything else |
| `Readings.FlagsLetIn` | agent/internal/policy/compiler.go:137-154 | a bundle that the agent accepts and whose maps let in TCP packets without SYN, which its one rule with its filter does not match |
| `Cascade.ResolveHostIDs` | cp/internal/policy/selector.go:107-117 | the ids of exactly the selected hosts |
| `Cascade.UnionOf` | cp/internal/policy/cascade.go:109-120 | the union, each id once |
| `Cascade.HostsToRecompile` | cp/internal/policy/cascade.go:80-124 | exactly the hosts of the old or the new selector, each once; an error iff the policy or its new selector is unreadable |
| `Cascade.Unaffected` | cp/internal/policy/cascade.go:76-124 | a host matched by neither selector compiles to the same ruleset before and after |
| `Cascade.CascadeCoverage` | cp/internal/policy/cascade.go:76-124 | every active host whose ruleset changes is in the recompiled set |
| `Cascade.LabelsOfHost` | cp/internal/policy/ruleset.go:74-103 | a host id leads back to that host's labels |
| `Cascade.Recompiler.constructor` | cp/internal/policy/cascade.go:35-42 | starts with nothing dispatched |
| `Cascade.Recompiler.RecompileOne` | cp/internal/policy/cascade.go:232-257 | the desired generation rises even when the build fails, unless the increment itself fails; a bundle is sent iff it builds, and it is the bundle of the current store numbered one past the host's generation |
| `Cascade.Recompiler.RecompileAndDispatch` | cp/internal/policy/cascade.go:230-262 | every listed host's generation rises by one, unless its increment fails, and no other's; exactly the listed hosts that build are sent a bundle, one each, in order; failures are the others |
| `Cascade.ChangedIsListed` | cp/internal/policy/cascade.go:76-124 | a host whose ruleset changed and builds is selected by the old or the new selector |
| `Cascade.Recompiler.OnPolicyChangedWithOldSelector` | cp/internal/policy/cascade.go:80-124 | after an update every active host with readable labels whose ruleset changed is sent exactly one bundle, that of the new tables with the next generation; with an unreadable new selector nothing happens |
| `DryRun.ResolveOverrideRules` | cp/internal/policy/dryrun.go:118-158 | drafts resolve as stored rules would |
| `DryRun.RulesUnderOverride` | cp/internal/policy/dryrun.go:80-100 | only the overridden policy's rules are replaced |
| `DryRun.CompileWithOverride` | cp/internal/policy/dryrun.go:43-116 | equals compiling a store in which the policy has the drafts |
| `DryRun.BuildIdMap` | cp/internal/policy/dryrun.go:202-237 | the loop builds the map of ids to action and direction |
| `DryRun.IdMapExactly` | cp/internal/policy/dryrun.go:202-237 | with distinct ids the map holds exactly the listed ids with their faces |
| `DryRun.NewOrChanged` | cp/internal/policy/dryrun.go:202-237 | the two loops find exactly the new ids and the common ids that differ |
| `DryRun.Gone` | cp/internal/policy/dryrun.go:202-237 | exactly the ids that disappeared |
| `DryRun.DiffRulesets` | cp/internal/policy/dryrun.go:202-237 | the three sorted lists are exactly added, removed and changed |
| `DryRun.EmptyDiffExactly` | cp/internal/policy/dryrun.go:162-200 | the diff is empty iff ids, actions and directions are all the same |
| `DryRun.PreviewHost` | cp/internal/policy/dryrun.go:162-200 | a host is reported iff both compilations succeed and differ, with the right diff |
| `DryRun.DryRunPreview` | cp/internal/policy/dryrun.go:162-200 | the report lists exactly the affected hosts in store order |
| `DryRun.OwnRulesAffectNobody` | cp/internal/policy/dryrun.go:43-116 | overriding a policy with its own stored rules, if any, reports no host |
| `DryRun.UnselectedNeverListed` | cp/internal/policy/dryrun.go:43-116 | a host the policy does not select is never reported |
| `DryRun.DiffExactly` | cp/internal/policy/dryrun.go:202-237 | for distinct ids, the lists are the id-set differences and the common ids whose action or direction changed |
| `DryRun.PreviewExactly` | cp/internal/policy/dryrun.go:162-237 | a line of the preview names exactly the ids that would newly feed the host, those that would no longer, and those that would with another action or direction |
| `LoginLimiter.Limiter.constructor` | cp/internal/api/ratelimit.go:27-29 | starts with no windows |
| `LoginLimiter.Limiter.Allow` | cp/internal/api/ratelimit.go:32-53 | decision and new windows, the pruning included |
| `LoginLimiter.SharedMapAgrees` | cp/internal/api/ratelimit.go:32-53 | after any calls on a monotone clock, the pruned shared map decides for an address as that address's own unpruned window does |
| `LoginLimiter.DecisionsAreLocal` | cp/internal/api/ratelimit.go:32-53 | every decision depends only on earlier calls from the same address |
| `LoginLimiter.AdmittedBound` | cp/internal/api/ratelimit.go:32-53 | how many attempts a minute has admitted so far, by where the current window starts |
| `LoginLimiter.AtMostNinePerMinute` | cp/internal/api/ratelimit.go:11-14 | any half-open minute admits at most 9 attempts from an address |
| `LoginLimiter.NineIsReached` | cp/internal/api/ratelimit.go:32-53 | nine are reached in every minute that begins inside an open window |
| `LoginLimiter.CleanMinute` | cp/internal/api/ratelimit.go:32-53 | a minute with no window open as it begins admits at most five |
| `LoginLimiter.FivePerMinuteExactly` | cp/internal/api/ratelimit.go:11-14 | however an address goes on after its first attempt, a minute admits at most five iff it begins no later than that attempt or exactly one window after it |
| `Syslog.SdEscapeIsSinglePass` | cp/internal/forwarder/syslog.go:193-198 | the three replacements in sequence equal one pass that escapes each special character once |
| `Syslog.WriteParam` | cp/internal/forwarder/syslog.go:184-190 | appends one well-formed parameter |
| `Syslog.BuildSD` | cp/internal/forwarder/syslog.go:161-182 | the fixed parameters in order, then the optional ones that are not empty |
| `Syslog.ReadBackValue` | cp/internal/forwarder/syslog.go:193-198 | a reader after section 6.3.3 of RFC 5424 recovers any value and stops at its closing quote |
| `Syslog.ReadBackParams` | cp/internal/forwarder/syslog.go:184-190 | a list of parameters is recovered in order, whatever follows the element |
| `Syslog.StructuredDataRoundTrip` | cp/internal/forwarder/syslog.go:161-198 | from the printed element the reader recovers the id and exactly the names and values, for arbitrary strings |
| `DiskBuffer.Buffer.constructor` | agent/internal/grpcclient/diskbuffer.go:31-36 | starts empty |
| `DiskBuffer.Buffer.SortedFiles` | agent/internal/grpcclient/diskbuffer.go:123-142 | lists the directory oldest first |
| `DiskBuffer.Buffer.Sizes` | agent/internal/grpcclient/diskbuffer.go:103-111 | sizes and their total |
| `DiskBuffer.Buffer.RemoveOldest` | agent/internal/grpcclient/diskbuffer.go:113-119 | removes the head of the queue only |
| `DiskBuffer.Buffer.Evict` | agent/internal/grpcclient/diskbuffer.go:97-120 | removes oldest files until the total fits, and then it fits |
| `DiskBuffer.Buffer.Write` | agent/internal/grpcclient/diskbuffer.go:40-58 | appends the message and evicts; the size is within the cap afterwards |
| `DiskBuffer.Buffer.ReplayOne` | agent/internal/grpcclient/diskbuffer.go:69-92 | one file is sent and removed, dropped if corrupt, or kept when replay stops |
| `DiskBuffer.Buffer.Replay` | agent/internal/grpcclient/diskbuffer.go:63-94 | sends a prefix in order, keeps the rest, and without an error leaves nothing |
| `DiskBuffer.EvictedFits` | agent/internal/grpcclient/diskbuffer.go:97-120 | what is left fits the cap, for every queue |
| `DiskBuffer.EvictedIsLongestSuffix` | agent/internal/grpcclient/diskbuffer.go:97-120 | eviction keeps the longest suffix that fits: no file goes that could stay |
| `DiskBuffer.RunsAreChronological` | agent/internal/grpcclient/diskbuffer.go:40-142 | over every run of writes and replays, delivered and buffered messages together are in time order and all were written |
| `DiskBuffer.BoundedFifo` | agent/internal/grpcclient/diskbuffer.go:40-142 | delivered followed by buffered is a subsequence of what was written, each at most once |
| `DiskBuffer.LosslessUnderCap` | agent/internal/grpcclient/diskbuffer.go:40-142 | if everything written fits the cap, nothing is lost: delivered followed by buffered is exactly what was written |
| `Calendar.IsoWeekStart` | cp/internal/ingest/partitions.go:179-185 | a Monday, within the six days before |
| `Calendar.MondayRoundTrip` | cp/internal/ingest/partitions.go:187-196 | every Monday is the start computed from its own ISO year and week (section 4.1.4 of ISO 8601:2004) |
| `Calendar.WeekNumbers` | cp/internal/ingest/partitions.go:62-69 | ISO week numbers run from 1 to the 52 or 53 weeks of their year |
| `Calendar.YearWeekRoundTripExactly` | cp/internal/ingest/partitions.go:187-196 | year and week come back from their Monday iff the year has that week |
| `Calendar.DateRoundTrip` | cp/internal/ingest/partitions.go:159-165 | year, month and day of a day number are a valid date of that day |
| `PartitionNames.DailyRoundTripExactly` | cp/internal/ingest/partitions.go:159-165 | a day is read back from its partition's name up to the year 9999, and from no later name |
| `PartitionNames.WeeklyRoundTrip` | cp/internal/ingest/partitions.go:167-177 | a Monday is read back from its partition's name |
| `PartitionNames.NamesAreDistinct` | cp/internal/ingest/partitions.go:49-69 | different days, and different weeks, never share a name |
| `PartitionNames.NameReadsBack` | cp/internal/ingest/partitions.go:159-177 | what is read from a created name is its own start or nothing |
| `Partitions.CreatePartition` | cp/internal/ingest/partitions.go:77-86 | an existing table is left as it is |
| `Partitions.CreateAhead` | cp/internal/ingest/partitions.go:53-69 | only coming partitions appear, existing ones stay, and all are there if no statement failed |
| `Partitions.DropExpired` | cp/internal/ingest/partitions.go:88-114 | only partitions whose name reads as expired go, and none is left if no statement failed |
| `Partitions.NewIsNotExpired` | cp/internal/ingest/partitions.go:49-75 | a run never drops what it creates |
| `Partitions.RunTable` | cp/internal/ingest/partitions.go:49-75 | creation and dropping together, for any failures |
| `Partitions.Database.constructor` | cp/internal/ingest/partitions.go:30-32 | starts without partitions |
| `Partitions.Database.Run` | cp/internal/ingest/partitions.go:49-75 | each table with its own granularity and time to live: 7, 14 and 30 days |
| `Partitions.RunKeepsSound` | cp/internal/ingest/partitions.go:49-75 | names keep telling the truth about the days a partition holds |
| `Partitions.NothingYoungDropped` | cp/internal/ingest/partitions.go:88-114 | a dropped partition ends at or before today minus the time to live |
| `Partitions.WindowTiled` | cp/internal/ingest/partitions.go:53-69 | after a run on a table that holds only what the manager creates, each day of the look-ahead is held by its own partition and by no other of the table: no gap, no overlap |
| `Partitions.GridTiled` | cp/internal/ingest/partitions.go:53-69 | on any table with truthful names the same holds among the partitions named as the manager names them |
| `Partitions.RunKeepsCells` | cp/internal/ingest/partitions.go:49-75 | a run adds nothing but partitions with their own names and days |
| `Partitions.TiledOverRuns` | cp/internal/ingest/partitions.go:34-75 | over any runs from empty tables, after each run whose creates went through the look-ahead is tiled |
| `Partitions.Persists` | cp/internal/ingest/partitions.go:88-114 | over any runs, whatever fails in them, a partition stays until it is expired |
| `Partitions.Retained` | cp/internal/ingest/partitions.go:49-114 | a day that one run looked ahead to is covered after every later run until it is older than the time to live |
| `Partitions.NoGaps` | cp/internal/ingest/partitions.go:34-75 | with pauses of at most 8 days (21 for weeks) between runs, every day since the first run that is within the time to live, up to the end of the look-ahead, is covered |
| `Partitions.ReachExactly` | cp/internal/ingest/partitions.go:53-69 | 8 and 21 days are the longest pauses after which the next run begins no later than the last one ended |
| `Partitions.CreatedNamesAreValid` | cp/internal/ingest/partitions.go:138-148 | names the manager gives pass its own guard before a drop |
| `Partitions.OldIsGone` | cp/internal/ingest/partitions.go:88-114 | after a run whose drops went through, partitions past their time to live are gone |

## Left out

- Calls of the kernel: the LPM trie and the hash map are taken by their contracts; LRU eviction and garbage collection are removals of any entry in `Runs`; the ring buffer is a flag that says whether there is room.
- Per-CPU maps are modelled for one CPU, and a packet reads the clock once.
- A packet is one atomic step in `Runs`. `Interleaving`, `SlotProtocol` and `SlotAtomicity` go down to single accesses, with a slot read or written as a whole and a conntrack entry updated as a whole; in `SlotAtomicity` there is one evaluation and one push at a time, and address sets are unchanged while atomicity is judged.
- BundleCompiler.CompileBundle: priorities are 32-bit, so the representation is claimed for bundles of fewer than 2^31 rules; a protobuf message of at most 2 GiB cannot hold more.
- Capacities of the maps: the trie takes 65536 prefixes in all, so a bundle that spills more always fails; here that failure counts as one of a kernel write. The conntrack table's capacity is covered by evictions.
- PolicyHandler.Handler.Apply: claims no rollback of IP sets and config, which are replaced before the rules can fail.
- Conntrack.FoldCounts: counts are modulo 2^64, as the fields are.
- ConntrackGc.Sweep: makes no claim about real ages, because the code compares wall-clock time with the kernel's monotonic clock; the unsigned difference is modelled as computed.
- Cascade.Recompiler.OnPolicyChangedWithOldSelector: policy deletion, label changes, object groups and default-policy changes are not covered; nothing is claimed for hosts whose new ruleset does not build.
- Partitions.OldIsGone: daily partitions after the year 9999 are never dropped by name, so it stops there.
- PartitionNames: signs and spaces that `fmt.Sscanf` would accept are left out, since the name guard refuses to drop such tables, and so are numerals beyond 64 bits.
- Partitions: the row-by-row pruning of `system_events`.
- DiskBuffer: failing directory operations, and two writes in the same nanosecond.
- Syslog: the header line before the structured data, and the connection.
- LoginLimiter: how the client address is taken from a request.
- Store: parsing of JSON selectors and labels, CIDR and port texts and the case folding of protocol names; a field that fails to parse is an absent value.
- The generation hand-shake on reconnect, flow collection, stream registries and hubs.
- Signatures, PKI, authentication and enrolment.
- REST handlers, store queries, migrations, metrics, configuration, the user interface, loading and attaching BPF programs, reconnect backoff.
