/**
 Stateful ingress without atomic packets: any number of CPUs evaluate packets
 one map access at a time, while user space rewrites rules, sets and
 configuration one write at a time and entries of the conntrack table are
 evicted.
 */
module Interleaving {
  import opened Types
  import opened Packets
  import opened Conntrack
  import opened Matcher
  import opened Loader
  import opened Proto
  import opened BundleCompiler
  import opened PolicyHandler

  /** What one CPU has read so far of the packet at hand. */
  datatype Cpu =
    | Free
    | Flagged(p: Packet, tracking: bool)
    | Looked(p: Packet, tracking: bool, ctState: u8)
    | Scanning(p: Packet, tracking: bool, ctState: u8, n: nat, i: nat)
    | Missed(p: Packet, tracking: bool, ctState: u8)
    | Decided(p: Packet, tracking: bool, action: u8)

  /** `bound` and `seen` are history: the largest count published and the keys of accepted egress packets. */
  datatype World = World(
    slots: seq<RuleEntry>,
    count: nat,
    trie: set<LpmKey>,
    flags: u32,
    ingress: u32,
    egress: u32,
    ct: CtTable,
    cpus: seq<Cpu>,
    bound: nat,
    seen: set<CtKey>)

  datatype Access =
    | WriteSlot(slot: nat, e: RuleEntry)
    | WriteCount(n: nat)
    | WriteTrie(trie: set<LpmKey>)
    | WriteFlags(word: u32)
    | WriteIngress(word: u32)
    | WriteEgress(word: u32)
    | Evict(k: CtKey)
    | ReadFlags(c: nat, p: Packet)
    | LookUp(c: nat)
    | LoadCount(c: nat, limit: nat)   // the loop bound of the loaded variant
    | LoadSlot(c: nat)
    | EndScan(c: nat)
    | ReadDefault(c: nat)
    | Finish(c: nat, now: u64)

  predicate Directed(p: Packet) { p.direction == DIR_INGRESS || p.direction == DIR_EGRESS }

  predicate IsCpu(w: World, c: nat) { c < |w.cpus| }

  /** User space publishes stateful-ingress policies only: closed by default, opened only for tracked flows. */
  predicate Enabled(w: World, a: Access) {
    match a
    case WriteSlot(slot, e) => slot < |w.slots| && StatefulEntry(e)
    case WriteCount(n) => n <= |w.slots| && forall i | 0 <= i < n :: StatefulEntry(w.slots[i])
    case WriteTrie(_) => true
    case WriteFlags(_) => true
    case WriteIngress(word) => ToU8(word) == ACTION_DENY
    case WriteEgress(_) => true
    case Evict(_) => true
    case ReadFlags(c, p) => IsCpu(w, c) && w.cpus[c].Free? && Directed(p)
    case LookUp(c) => IsCpu(w, c) && w.cpus[c].Flagged?
    case LoadCount(c, _) => IsCpu(w, c) && w.cpus[c].Looked?
    case LoadSlot(c) => IsCpu(w, c) && w.cpus[c].Scanning? && w.cpus[c].i < w.cpus[c].n && w.cpus[c].i < |w.slots|
    case EndScan(c) => IsCpu(w, c) && w.cpus[c].Scanning? && w.cpus[c].i == w.cpus[c].n
    case ReadDefault(c) => IsCpu(w, c) && w.cpus[c].Missed?
    case Finish(c, _) => IsCpu(w, c) && w.cpus[c].Decided?
  }

  function DefaultOf(w: World, p: Packet): u8 {
    var word := if p.direction == DIR_INGRESS then w.ingress else w.egress;
    if word != 0 then ToU8(word) else ACTION_ALLOW
  }

  /** The CPU after it has read the slot it is at; an unset action counts as no match. */
  function AfterSlot(w: World, cpu: Cpu): Cpu
    requires cpu.Scanning? && cpu.i < |w.slots|
  {
    if !Hit(w.slots, cpu.i, cpu.p, cpu.ctState, w.trie) then cpu.(i := cpu.i + 1)
    else if w.slots[cpu.i].action == 0 then Missed(cpu.p, cpu.tracking, cpu.ctState)
    else Decided(cpu.p, cpu.tracking, w.slots[cpu.i].action)
  }

  /** What the access leaves the CPU with. */
  function CpuAfter(w: World, a: Access): Cpu
    requires Enabled(w, a) && (a.ReadFlags? || a.LookUp? || a.LoadCount? || a.LoadSlot? || a.EndScan? || a.ReadDefault?)
  {
    match a
    case ReadFlags(c, p) => Flagged(p, w.flags % 2 == 1)
    case LookUp(c) =>
      var cpu := w.cpus[c];
      Looked(cpu.p, cpu.tracking, if cpu.tracking then Lookup(w.ct, cpu.p) else 0)
    case LoadCount(c, limit) =>
      Scanning(w.cpus[c].p, w.cpus[c].tracking, w.cpus[c].ctState, if w.count > limit then limit else w.count, 0)
    case LoadSlot(c) => AfterSlot(w, w.cpus[c])
    case EndScan(c) => Missed(w.cpus[c].p, w.cpus[c].tracking, w.cpus[c].ctState)
    case ReadDefault(c) => Decided(w.cpus[c].p, w.cpus[c].tracking, DefaultOf(w, w.cpus[c].p))
  }

  /** The access is the end of an accepted packet. */
  predicate Accepts(w: World, a: Access) { a.Finish? && Enabled(w, a) && w.cpus[a.c].action != ACTION_DENY }

  function Step(w: World, a: Access): World
    requires Enabled(w, a)
  {
    match a
    case WriteSlot(slot, e) => w.(slots := w.slots[slot := e])
    case WriteCount(n) => w.(count := n, bound := if n > w.bound then n else w.bound)
    case WriteTrie(trie) => w.(trie := trie)
    case WriteFlags(word) => w.(flags := word)
    case WriteIngress(word) => w.(ingress := word)
    case WriteEgress(word) => w.(egress := word)
    case Evict(k) => w.(ct := w.ct - {k})
    case Finish(c, now) =>
      var cpu, accepted := w.cpus[c], Accepts(w, a);
      w.(ct := if accepted && cpu.tracking then Update(w.ct, cpu.p, now) else w.ct,
         seen := if accepted && cpu.p.direction == DIR_EGRESS then w.seen + {BuildKey(cpu.p)} else w.seen,
         cpus := w.cpus[c := Free])
    case _ => w.(cpus := w.cpus[a.c := CpuAfter(w, a)])
  }

  // ------------------------------------------------------------ the invariant

  predicate Published(w: World) {
    && ToU8(w.ingress) == ACTION_DENY && w.count <= w.bound <= |w.slots|
    && forall i | 0 <= i < w.bound :: StatefulEntry(w.slots[i])
  }

  /** An ingress packet that found a tracked flow, or is about to be accepted, has its key seen. */
  predicate CpuOk(w: World, cpu: Cpu) {
    (cpu.Free? || Directed(cpu.p)) && match cpu
    case Free => true
    case Flagged(_, _) => true
    case Looked(p, _, ctState) => Vouched(w, p, ctState)
    case Scanning(p, _, ctState, n, i) => Vouched(w, p, ctState) && n <= w.bound && i <= n
    case Missed(p, _, ctState) => Vouched(w, p, ctState)
    case Decided(p, _, action) => p.direction == DIR_INGRESS && action != ACTION_DENY ==> BuildKey(p) in w.seen
  }

  predicate Vouched(w: World, p: Packet, ctState: u8) {
    p.direction == DIR_INGRESS && ctState != 0 ==> BuildKey(p) in w.seen
  }

  ghost predicate Inv(w: World) {
    && Published(w) && (forall k | k in w.ct :: k in w.seen)
    && forall c | 0 <= c < |w.cpus| :: CpuOk(w, w.cpus[c])
  }

  /** An untracked ingress packet stops at DENY rules only, whatever is written meanwhile. */
  lemma UntrackedScanDenies(w: World, cpu: Cpu)
    requires Published(w) && cpu.Scanning? && cpu.i < cpu.n <= w.bound
    requires cpu.p.direction == DIR_INGRESS && cpu.ctState == 0
    ensures AfterSlot(w, cpu).Decided? ==> AfterSlot(w, cpu).action == ACTION_DENY
  {
    assert StatefulEntry(w.slots[cpu.i]);
  }

  lemma SlotKeepsCpu(w: World, cpu: Cpu)
    requires Published(w) && CpuOk(w, cpu) && cpu.Scanning? && cpu.i < cpu.n
    ensures CpuOk(w, AfterSlot(w, cpu))
  {
    if cpu.p.direction == DIR_INGRESS && cpu.ctState == 0 { UntrackedScanDenies(w, cpu); }
  }

  lemma LookupFinds(w: World, p: Packet)
    ensures Lookup(w.ct, p) != 0 ==> BuildKey(p) in w.ct
  {
  }

  /** Reads: only the reading CPU changes. */
  lemma ReadKeepsInv(w: World, a: Access)
    requires Inv(w) && Enabled(w, a)
    requires a.ReadFlags? || a.LookUp? || a.LoadCount? || a.LoadSlot? || a.EndScan? || a.ReadDefault?
    ensures Inv(Step(w, a))
  {
    assert CpuOk(w, w.cpus[a.c]);
    if a.LookUp? { LookupFinds(w, w.cpus[a.c].p); }
    if a.LoadSlot? { SlotKeepsCpu(w, w.cpus[a.c]); }
    assert CpuOk(w, CpuAfter(w, a));
    OneCpu(w, a.c, CpuAfter(w, a));
  }

  lemma OneCpu(w: World, c: nat, cpu: Cpu)
    requires Inv(w) && c < |w.cpus| && CpuOk(w, cpu)
    ensures Inv(w.(cpus := w.cpus[c := cpu]))
  {
    var w' := w.(cpus := w.cpus[c := cpu]);
    forall d | 0 <= d < |w'.cpus| ensures CpuOk(w', w'.cpus[d]) {
      assert CpuOk(w, w'.cpus[d]);
    }
  }

  /** Writes and evictions: no CPU's obligations grow. */
  lemma WriteKeepsInv(w: World, a: Access)
    requires Inv(w) && Enabled(w, a)
    requires a.WriteSlot? || a.WriteCount? || a.WriteTrie? || a.WriteFlags? || a.WriteIngress? || a.WriteEgress? || a.Evict?
    ensures Inv(Step(w, a))
  {
    var w' := Step(w, a);
    forall c | 0 <= c < |w'.cpus| ensures CpuOk(w', w'.cpus[c]) {
      assert CpuOk(w, w.cpus[c]);
    }
  }

  lemma UpdateKeys(ct: CtTable, p: Packet, now: u64)
    ensures forall k | k in Update(ct, p, now) :: k in ct || k == BuildKey(p)
  {
  }

  lemma FinishKeepsInv(w: World, a: Access)
    requires Inv(w) && a.Finish? && Enabled(w, a)
    ensures Inv(Step(w, a))
  {
    var w', p := Step(w, a), w.cpus[a.c].p;
    assert CpuOk(w, w.cpus[a.c]);
    UpdateKeys(w.ct, p, a.now);
    forall c | 0 <= c < |w'.cpus| ensures CpuOk(w', w'.cpus[c]) {
      assert CpuOk(w, w.cpus[c]);
    }
    assert Accepts(w, a) ==> BuildKey(p) in w'.seen;
  }

  lemma StepKeepsInv(w: World, a: Access)
    requires Inv(w) && Enabled(w, a)
    ensures Inv(Step(w, a))
  {
    match a
    case Finish(_, _) => FinishKeepsInv(w, a);
    case ReadFlags(_, _) => ReadKeepsInv(w, a);
    case LookUp(_) => ReadKeepsInv(w, a);
    case LoadCount(_, _) => ReadKeepsInv(w, a);
    case LoadSlot(_) => ReadKeepsInv(w, a);
    case EndScan(_) => ReadKeepsInv(w, a);
    case ReadDefault(_) => ReadKeepsInv(w, a);
    case _ => WriteKeepsInv(w, a);
  }

  // --------------------------------------------------------------- whole runs

  /** No packet under way, an empty conntrack table, and a stateful-ingress policy published. */
  predicate Init(w: World) {
    Published(w) && w.ct == map[] && w.seen == {} && forall c | 0 <= c < |w.cpus| :: w.cpus[c].Free?
  }

  ghost predicate StepAt(ws: seq<World>, accesses: seq<Access>, i: nat)
    requires |ws| == |accesses| + 1 && i < |accesses|
  {
    Enabled(ws[i], accesses[i]) && ws[i + 1] == Step(ws[i], accesses[i])
  }

  ghost predicate IsRun(ws: seq<World>, accesses: seq<Access>) {
    |ws| == |accesses| + 1 && Init(ws[0]) && forall i: nat | i < |accesses| :: StepAt(ws, accesses, i)
  }

  lemma {:induction false} InvHolds(ws: seq<World>, accesses: seq<Access>, i: nat)
    requires IsRun(ws, accesses) && i < |ws|
    ensures Inv(ws[i])
  {
    if i > 0 {
      InvHolds(ws, accesses, i - 1);
      assert StepAt(ws, accesses, i - 1);
      StepKeepsInv(ws[i - 1], accesses[i - 1]);
    }
  }

  /** Access `j` ends the acceptance of an egress packet with the key. */
  ghost predicate EgressAt(ws: seq<World>, accesses: seq<Access>, j: nat, k: CtKey)
    requires |ws| == |accesses| + 1 && j < |accesses|
  {
    Accepts(ws[j], accesses[j])
    && ws[j].cpus[accesses[j].c].p.direction == DIR_EGRESS && BuildKey(ws[j].cpus[accesses[j].c].p) == k
  }

  lemma {:induction false} SeenWasAccepted(ws: seq<World>, accesses: seq<Access>, i: nat, k: CtKey)
    requires IsRun(ws, accesses) && i < |ws| && k in ws[i].seen
    ensures exists j: nat :: j < i && EgressAt(ws, accesses, j, k)
  {
    if i > 0 {
      assert StepAt(ws, accesses, i - 1);
      if k in ws[i - 1].seen {
        SeenWasAccepted(ws, accesses, i - 1, k);
      } else {
        assert EgressAt(ws, accesses, i - 1, k);
      }
    }
  }

  /**
   Stateful ingress safety over every interleaving of single accesses of any
   number of CPUs with rewrites between stateful-ingress policies: when an
   ingress packet is accepted, an egress packet with its key was before.
   */
  lemma InterleavedIngressSafety(ws: seq<World>, accesses: seq<Access>, i: nat)
    requires IsRun(ws, accesses) && i < |accesses| && Accepts(ws[i], accesses[i])
    requires ws[i].cpus[accesses[i].c].p.direction == DIR_INGRESS
    ensures exists j: nat :: j < i && EgressAt(ws, accesses, j, BuildKey(ws[i].cpus[accesses[i].c].p))
  {
    InvHolds(ws, accesses, i);
    var cpu := ws[i].cpus[accesses[i].c];
    assert CpuOk(ws[i], cpu);
    SeenWasAccepted(ws, accesses, i, BuildKey(cpu.p));
  }

  /** What `Apply` writes for a stateful-ingress bundle, in whatever world, is what user space may write. */
  lemma BundleWritesEnabled(w: World, b: Bundle, c: CompileResult, k: nat, slot: nat)
    requires Represents(b, c) && c.config == ConfigOf(b) && StatefulIngressBundle(b)
    requires k < |c.rules| && Convertible(c.rules[k]) && slot < |w.slots|
    ensures Enabled(w, WriteSlot(slot, Converted(c.rules[k])))
    ensures Enabled(w, WriteIngress(Normalised(c.config.ingress)))
  {
    BundleEntriesStateful(b, c, k);
  }

  /** And the count that `PushRules` writes last is one that user space may write then. */
  lemma BundleCountEnabled(w: World, b: Bundle, c: CompileResult)
    requires Represents(b, c) && StatefulIngressBundle(b) && AllConvertible(c.rules)
    requires |c.rules| <= |w.slots| && w.slots[..|c.rules|] == ConvertAll(c.rules)
    ensures Enabled(w, WriteCount(|c.rules|))
  {
    forall i | 0 <= i < |c.rules| ensures StatefulEntry(w.slots[i]) {
      assert w.slots[i] == w.slots[..|c.rules|][i];
      BundleEntriesStateful(b, c, i);
    }
  }
}
