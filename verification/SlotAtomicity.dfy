/**
 What a packet can meet while one push is under way, over every interleaving of
 the push's single writes with the packet's single reads.
 */
module SlotAtomicity {
  import opened Types
  import opened Packets
  import opened Matcher
  import opened Loader
  import opened SlotProtocol

  // ------------------------------------------------------------- accesses

  /** The accesses lead from one world to the other, through `ws`. */
  ghost predicate Links(ws: seq<World>, accesses: seq<Access>, w: World, w': World) {
    Path(ws, accesses) && ws[0] == w && ws[|accesses|] == w'
  }

  /** The accesses lead from one world to the other. */
  ghost predicate Leads(w: World, accesses: seq<Access>, w': World) { exists ws :: Links(ws, accesses, w, w') }

  lemma LeadsNowhere(w: World)
    ensures Leads(w, [], w)
  {
    assert Links([w], [], w, w);
  }

  lemma LeadsOne(w: World, a: Access)
    requires Enabled(w, a)
    ensures Leads(w, [a], Step(w, a))
  {
    var ws := [w, Step(w, a)];
    assert StepAt(ws, [a], 0);
    assert Links(ws, [a], w, Step(w, a));
  }

  /** Two paths, end to end. */
  lemma JoinPaths(ws: seq<World>, first: seq<Access>, vs: seq<World>, more: seq<Access>)
    requires Path(ws, first) && Path(vs, more) && ws[|first|] == vs[0]
    ensures Path(ws + vs[1..], first + more)
    ensures (ws + vs[1..])[|first|] == ws[|first|] && (ws + vs[1..])[|first| + |more|] == vs[|more|]
  {
    var us, all := ws + vs[1..], first + more;
    forall i: nat | i < |all| ensures StepAt(us, all, i) {
      if i < |first| {
        assert StepAt(ws, first, i) && us[i] == ws[i] && us[i + 1] == ws[i + 1];
      } else {
        assert StepAt(vs, more, i - |first|) && us[i] == vs[i - |first|] && us[i + 1] == vs[i + 1 - |first|];
      }
    }
  }

  lemma LeadsOn(w: World, first: seq<Access>, mid: World, more: seq<Access>, w': World)
    requires Leads(w, first, mid) && Leads(mid, more, w')
    ensures Leads(w, first + more, w')
  {
    var ws :| Links(ws, first, w, mid);
    var vs :| Links(vs, more, mid, w');
    JoinPaths(ws, first, vs, more);
    assert Links(ws + vs[1..], first + more, w, w');
  }

  lemma LeadsFurther(w: World, accesses: seq<Access>, mid: World, a: Access)
    requires Leads(w, accesses, mid) && Enabled(mid, a)
    ensures Leads(w, accesses + [a], Step(mid, a))
  {
    LeadsOne(mid, a);
    LeadsOn(w, accesses, mid, [a], Step(mid, a));
  }

  // ------------------------------------------------------ what can be met

  /**
   A push seen by one packet: the slots and count before, the entries pushed,
   and which of the old and of the new entries match the packet.
   */
  datatype View = View(old_: seq<RuleEntry>, n: nat, next: seq<RuleEntry>, oldHits: seq<bool>, newHits: seq<bool>)
  {
    predicate Valid() { n <= |old_| && |next| <= |old_| && |oldHits| == |old_| && |newHits| == |next| }

    /** Both contents of slot `i` match, so no packet gets past it. */
    predicate Blocks(i: nat)
      requires Valid() && i < |old_|
    {
      oldHits[i] && (i < |next| ==> newHits[i])
    }

    /** A packet can get as far as slot `i`. */
    predicate Open(i: nat)
      requires Valid() && i <= |old_|
    {
      forall j | 0 <= j < i :: !Blocks(j)
    }

    /** The packet stops at the old or the new content of a slot it can get to, or passes all slots. */
    predicate Possible(hit: Option<(nat, RuleEntry)>)
      requires Valid()
    {
      match hit
      case None => Open(n)
      case Some((i, e)) =>
        i < n && Open(i) && ((oldHits[i] && e == old_[i]) || (i < |next| && newHits[i] && e == next[i]))
    }

    function Before(): Option<(nat, RuleEntry)>
      requires Valid()
    {
      var i := FirstTrue(oldHits, 0, n);
      if i < n then Some((i, old_[i])) else None
    }

    function After(): Option<(nat, RuleEntry)>
      requires Valid()
    {
      var i := FirstTrue(newHits, 0, |next|);
      if i < |next| then Some((i, next[i])) else None
    }

    /** The rule met is the one met before or the one met after the push. */
    predicate Consistent(hit: Option<(nat, RuleEntry)>)
      requires Valid()
    {
      Rule(hit) == Rule(Before()) || Rule(hit) == Rule(After())
    }

    /**
     No slot the packet can get to holds a third rule for it, and it can pass
     all slots only if it meets no rule before or no rule after.
     */
    predicate Undivided()
      requires Valid()
    {
      && (forall i | 0 <= i < n :: Open(i) ==> Agrees(i))
      && (Open(n) ==> Consistent(None))
    }

    predicate Agrees(i: nat)
      requires Valid() && i < n
    {
      && (oldHits[i] ==> Consistent(Some((i, old_[i]))))
      && (i < |next| && newHits[i] ==> Consistent(Some((i, next[i]))))
    }
  }

  function Rule(hit: Option<(nat, RuleEntry)>): Option<RuleEntry> {
    if hit.Some? then Some(hit.value.1) else None
  }

  lemma UndividedExactly(v: View)
    requires v.Valid()
    ensures v.Undivided() <==> forall hit :: v.Possible(hit) ==> v.Consistent(hit)
  {
    if v.Undivided() {
      forall hit | v.Possible(hit)
        ensures v.Consistent(hit)
      {
        if hit.Some? { assert v.Agrees(hit.value.0); }
      }
    }
    if forall hit :: v.Possible(hit) ==> v.Consistent(hit) {
      forall i | 0 <= i < v.n && v.Open(i)
        ensures v.Agrees(i)
      {
        assert v.oldHits[i] ==> v.Possible(Some((i, v.old_[i])));
        assert i < |v.next| && v.newHits[i] ==> v.Possible(Some((i, v.next[i])));
      }
      assert v.Open(v.n) ==> v.Possible(None);
    }
  }

  // ------------------------------------------- one push and one packet

  /** No push and no evaluation under way. */
  predicate Quiet(w: World) {
    |w.slots| == MAX_RULES && w.count <= MAX_RULES && w.writer.Idle? && !w.reader.Scanning?
  }

  /** The push does not fail validation. */
  predicate Pushable(rules: seq<RuleSpec>) { AllConvertible(rules) && |rules| <= MAX_RULES }

  function ViewOf(w: World, rules: seq<RuleSpec>, p: Packet, ctState: u8): (v: View)
    requires Quiet(w) && Pushable(rules)
    ensures v.Valid()
  {
    var next := ConvertAll(rules);
    View(w.slots, w.count, next, Hits(w.slots, p, ctState, w.trie), Hits(next, p, ctState, w.trie))
  }

  /** The slots when `k` entries of `next` have been written over `slots`. */
  function Torn(slots: seq<RuleEntry>, next: seq<RuleEntry>, k: nat): (t: seq<RuleEntry>)
    requires k <= |next| <= |slots|
    ensures |t| == |slots| && forall j | 0 <= j < |t| :: t[j] == if j < k then next[j] else slots[j]
  {
    next[..k] + slots[k..]
  }

  /** An access by the push of `rules` or by the evaluation of the packet. */
  predicate Involved(a: Access, rules: seq<RuleSpec>, p: Packet, ctState: u8) {
    match a
    case BeginPush(rs) => rs == rules
    case LoadCount(q, c) => q == p && c == ctState
    case ReplaceTrie(_) => false
    case _ => true
  }

  /** The packet is evaluated while `rules` are pushed at most once, however interleaved. */
  ghost predicate Watched(accesses: seq<Access>, rules: seq<RuleSpec>, p: Packet, ctState: u8) {
    && (forall i | 0 <= i < |accesses| :: Involved(accesses[i], rules, p, ctState))
    && (forall i, j | 0 <= i < j < |accesses| :: !(accesses[i].BeginPush? && accesses[j].BeginPush?))
  }

  ghost predicate Evaluated(accesses: seq<Access>) { exists i :: 0 <= i < |accesses| && accesses[i].LoadCount? }

  // ------------------------------------------- nothing else can be met

  /** How far the push is. */
  datatype Phase = Fresh | Under(k: nat) | Stopped(k: nat) | Complete

  function Written(ph: Phase, v: View): nat {
    match ph
    case Fresh => 0
    case Under(k) => k
    case Stopped(k) => k
    case Complete => |v.next|
  }

  predicate InPhase(w: World, v: View, ph: Phase)
    requires v.Valid()
  {
    && Written(ph, v) <= |v.next| && w.slots == Torn(v.old_, v.next, Written(ph, v))
    && w.count == (if ph.Complete? then |v.next| else v.n)
    && w.writer == (if ph.Under? then Writing(v.next, ph.k) else Idle)
  }

  predicate ReaderOk(r: Reader, v: View, ph: Phase, p: Packet, ctState: u8)
    requires v.Valid()
  {
    match r
    case Waiting => true
    case Scanning(q, c, m, i) => q == p && c == ctState && i <= m && (ScanOk(v, m, i) || (ph.Complete? && NewScanOk(v, m, i)))
    case Done(hit) => v.Possible(hit) || hit == v.After()
  }

  predicate ScanOk(v: View, m: nat, i: nat)
    requires v.Valid()
  {
    m == v.n && i <= m && v.Open(i)
  }

  predicate NewScanOk(v: View, m: nat, i: nat)
    requires v.Valid()
  {
    m == |v.next| && i <= m && forall j | 0 <= j < i :: !v.newHits[j]
  }

  lemma SlotHits(w: World, v: View, ph: Phase, i: nat, p: Packet, ctState: u8)
    requires v.Valid() && InPhase(w, v, ph) && i < |w.slots|
    requires v.oldHits == Hits(v.old_, p, ctState, w.trie) && v.newHits == Hits(v.next, p, ctState, w.trie)
    ensures Hit(w.slots, i, p, ctState, w.trie) == if i < Written(ph, v) then v.newHits[i] else v.oldHits[i]
  {
    if i < Written(ph, v) {
      assert w.slots[i] == v.next[i];
      assert v.newHits[i] == Hit(v.next, i, p, ctState, w.trie);
    } else {
      assert w.slots[i] == v.old_[i];
      assert v.oldHits[i] == Hit(v.old_, i, p, ctState, w.trie);
    }
  }

  /** One more slot is read; `new` says whether its new content is there. */
  lemma ScanGoesOn(v: View, m: nat, i: nat, fresh_: bool)
    requires v.Valid() && ScanOk(v, m, i) && i < m && (fresh_ ==> i < |v.next|)
    ensures var hit, e := if fresh_ then v.newHits[i] else v.oldHits[i], if fresh_ then v.next[i] else v.old_[i];
            if hit then v.Possible(Some((i, e))) else ScanOk(v, m, i + 1)
  {
  }

  lemma NewScanGoesOn(v: View, m: nat, i: nat)
    requires v.Valid() && NewScanOk(v, m, i) && i < m
    ensures if v.newHits[i] then v.After() == Some((i, v.next[i])) else NewScanOk(v, m, i + 1)
  {
    if v.newHits[i] { FirstTrueIs(v.newHits, 0, |v.next|, i); }
  }

  /** What holds while the push and the packet are under way; the first evaluation may still be to come. */
  ghost predicate Tracks(w0: World, w: World, v: View, ph: Phase, evaluated: bool, p: Packet, ctState: u8)
    requires v.Valid()
  {
    && v.oldHits == Hits(v.old_, p, ctState, w.trie) && v.newHits == Hits(v.next, p, ctState, w.trie)
    && |v.old_| == MAX_RULES && InPhase(w, v, ph)
    && (if evaluated then ReaderOk(w.reader, v, ph, p, ctState) else w.reader == w0.reader && !w.reader.Scanning?)
  }

  function NextPhase(ph: Phase, a: Access): Phase {
    match a
    case BeginPush(_) => Under(0)
    case WriteSlot => if ph.Under? then Under(ph.k + 1) else ph
    case PublishCount => Complete
    case AbortPush => if ph.Under? then Stopped(ph.k) else ph
    case _ => ph
  }

  lemma WriterStep(w0: World, w: World, a: Access, v: View, ph: Phase, evaluated: bool, p: Packet, ctState: u8)
    requires v.Valid() && Tracks(w0, w, v, ph, evaluated, p, ctState) && Enabled(w, a)
    requires a.WriteSlot? || a.PublishCount? || a.AbortPush? || (a.BeginPush? && ph.Fresh? && ConvertAll(a.rules) == v.next)
    ensures Tracks(w0, Step(w, a), v, NextPhase(ph, a), evaluated, p, ctState)
  {
    var w' := Step(w, a);
    if a.BeginPush? {
      assert w'.slots == Torn(v.old_, v.next, 0);
    } else if a.WriteSlot? {
      assert w'.slots == Torn(v.old_, v.next, ph.k + 1);
    }
    assert InPhase(w', v, NextPhase(ph, a));
  }

  lemma LoadCountStep(w0: World, w: World, v: View, ph: Phase, evaluated: bool, p: Packet, ctState: u8)
    requires v.Valid() && Tracks(w0, w, v, ph, evaluated, p, ctState) && Enabled(w, LoadCount(p, ctState))
    ensures Tracks(w0, Step(w, LoadCount(p, ctState)), v, ph, true, p, ctState)
  {
    assert v.Open(0);
    assert if ph.Complete? then NewScanOk(v, |v.next|, 0) else ScanOk(v, v.n, 0);
  }

  lemma LoadSlotStep(w0: World, w: World, v: View, ph: Phase, evaluated: bool, p: Packet, ctState: u8)
    requires v.Valid() && Tracks(w0, w, v, ph, evaluated, p, ctState) && Enabled(w, LoadSlot)
    ensures Tracks(w0, Step(w, LoadSlot), v, ph, evaluated, p, ctState)
  {
    var i, m := w.reader.i, w.reader.n;
    SlotHits(w, v, ph, i, p, ctState);
    if ScanOk(v, m, i) {
      ScanGoesOn(v, m, i, i < Written(ph, v));
    } else {
      NewScanGoesOn(v, m, i);
    }
  }

  lemma EndScanStep(w0: World, w: World, v: View, ph: Phase, evaluated: bool, p: Packet, ctState: u8)
    requires v.Valid() && Tracks(w0, w, v, ph, evaluated, p, ctState) && Enabled(w, EndScan)
    ensures Tracks(w0, Step(w, EndScan), v, ph, evaluated, p, ctState)
  {
    var m := w.reader.n;
    if ScanOk(v, m, m) {
      assert v.Possible(None);
    } else {
      FirstTrueIs(v.newHits, 0, m, m);
    }
  }

  lemma StepTracks(w0: World, w: World, a: Access, v: View, ph: Phase, evaluated: bool, rules: seq<RuleSpec>, p: Packet, ctState: u8)
    requires v.Valid() && Tracks(w0, w, v, ph, evaluated, p, ctState) && Enabled(w, a)
    requires Involved(a, rules, p, ctState) && AllConvertible(rules) && v.next == ConvertAll(rules)
    requires a.BeginPush? ==> ph.Fresh?
    ensures Tracks(w0, Step(w, a), v, NextPhase(ph, a), evaluated || a.LoadCount?, p, ctState)
  {
    match a
    case LoadCount(_, _) => LoadCountStep(w0, w, v, ph, evaluated, p, ctState);
    case LoadSlot => LoadSlotStep(w0, w, v, ph, evaluated, p, ctState);
    case EndScan => EndScanStep(w0, w, v, ph, evaluated, p, ctState);
    case _ => WriterStep(w0, w, a, v, ph, evaluated, p, ctState);
  }

  ghost predicate NotBegun(accesses: seq<Access>) { forall i | 0 <= i < |accesses| :: !accesses[i].BeginPush? }

  lemma WatchedPrefix(accesses: seq<Access>, a: Access, rules: seq<RuleSpec>, p: Packet, ctState: u8)
    requires Watched(accesses + [a], rules, p, ctState)
    ensures Watched(accesses, rules, p, ctState) && Involved(a, rules, p, ctState) && (a.BeginPush? ==> NotBegun(accesses))
    ensures Evaluated(accesses + [a]) <==> Evaluated(accesses) || a.LoadCount?
    ensures NotBegun(accesses + [a]) <==> NotBegun(accesses) && !a.BeginPush?
  {
    var b := accesses + [a];
    assert b[|accesses|] == a && forall i | 0 <= i < |accesses| :: b[i] == accesses[i];
  }

  lemma StartTracks(w0: World, rules: seq<RuleSpec>, p: Packet, ctState: u8)
    requires Quiet(w0) && Pushable(rules)
    ensures Tracks(w0, w0, ViewOf(w0, rules, p, ctState), Fresh, false, p, ctState)
  {
    var v := ViewOf(w0, rules, p, ctState);
    assert w0.slots == Torn(v.old_, v.next, 0);
  }

  /** Along every path of the push and the packet. */
  lemma {:induction false} AllTracked(ws: seq<World>, accesses: seq<Access>, n: nat, rules: seq<RuleSpec>, p: Packet, ctState: u8)
    returns (ph: Phase)
    requires Path(ws, accesses) && n <= |accesses| && Quiet(ws[0]) && Pushable(rules)
    requires Watched(accesses[..n], rules, p, ctState)
    ensures Tracks(ws[0], ws[n], ViewOf(ws[0], rules, p, ctState), ph, Evaluated(accesses[..n]), p, ctState)
    ensures NotBegun(accesses[..n]) ==> ph.Fresh?
    decreases n
  {
    if n == 0 {
      StartTracks(ws[0], rules, p, ctState);
      ph := Fresh;
    } else {
      var first, a := accesses[..n - 1], accesses[n - 1];
      assert accesses[..n] == first + [a];
      WatchedPrefix(first, a, rules, p, ctState);
      var ph0 := AllTracked(ws, accesses, n - 1, rules, p, ctState);
      assert StepAt(ws, accesses, n - 1);
      StepTracks(ws[0], ws[n - 1], a, ViewOf(ws[0], rules, p, ctState), ph0, Evaluated(first), rules, p, ctState);
      ph := NextPhase(ph0, a);
    }
  }

  // ------------------------------------------------ all of it can be met

  /** Accesses that neither begin a push nor an evaluation. */
  ghost predicate Plain(accesses: seq<Access>) {
    forall i | 0 <= i < |accesses| :: accesses[i].WriteSlot? || accesses[i].LoadSlot? || accesses[i].EndScan?
  }

  /** Accesses of the push and the packet that do not begin a push. */
  ghost predicate Tame(more: seq<Access>, rules: seq<RuleSpec>, p: Packet, ctState: u8) {
    forall i | 0 <= i < |more| :: !more[i].BeginPush? && Involved(more[i], rules, p, ctState)
  }

  lemma PlainIsTame(more: seq<Access>, rules: seq<RuleSpec>, p: Packet, ctState: u8)
    requires Plain(more)
    ensures Tame(more, rules, p, ctState)
  {
  }

  lemma WatchedMore(first: seq<Access>, more: seq<Access>, rules: seq<RuleSpec>, p: Packet, ctState: u8)
    requires Watched(first, rules, p, ctState)
    requires Tame(more, rules, p, ctState)
    ensures Watched(first + more, rules, p, ctState)
  {
    var b := first + more;
    forall i | 0 <= i < |b|
      ensures Involved(b[i], rules, p, ctState) && (i >= |first| ==> !b[i].BeginPush?)
    {
      if i >= |first| { assert b[i] == more[i - |first|]; }
    }
  }

  lemma WatchedOn(first: seq<Access>, more: seq<Access>, rules: seq<RuleSpec>, p: Packet, ctState: u8)
    requires Watched(first, rules, p, ctState) && Evaluated(first) && Plain(more)
    ensures Watched(first + more, rules, p, ctState) && Evaluated(first + more)
  {
    PlainIsTame(more, rules, p, ctState);
    WatchedMore(first, more, rules, p, ctState);
    var k :| 0 <= k < |first| && first[k].LoadCount?;
    assert (first + more)[k].LoadCount?;
  }

  /** The writer goes on until `m` entries are written. */
  lemma {:induction false} WriteUpTo(w: World, v: View, k: nat, m: nat) returns (more: seq<Access>, w': World)
    requires v.Valid() && InPhase(w, v, Under(k)) && k <= m <= |v.next|
    ensures Plain(more) && Leads(w, more, w')
    ensures InPhase(w', v, Under(m)) && w'.reader == w.reader && w'.trie == w.trie
    decreases m - k
  {
    if k == m {
      LeadsNowhere(w);
      more, w' := [], w;
    } else {
      var u := Step(w, WriteSlot);
      assert u.slots == Torn(v.old_, v.next, k + 1);
      var rest;
      rest, w' := WriteUpTo(u, v, k + 1, m);
      more := [WriteSlot] + rest;
      LeadsOne(w, WriteSlot);
      LeadsOn(w, [WriteSlot], u, rest, w');
    }
  }

  /** The packet reads slot `i` in its old or, after the writer caught up, in its new content. */
  lemma ReadAt(w: World, v: View, k: nat, p: Packet, ctState: u8, i: nat, fresh_: bool)
    returns (more: seq<Access>, w': World, k': nat)
    requires v.Valid() && |v.old_| == MAX_RULES && InPhase(w, v, Under(k)) && k <= i < v.n && (fresh_ ==> i < |v.next|)
    requires v.oldHits == Hits(v.old_, p, ctState, w.trie) && v.newHits == Hits(v.next, p, ctState, w.trie)
    requires w.reader == Scanning(p, ctState, v.n, i)
    ensures Plain(more) && Leads(w, more, w') && InPhase(w', v, Under(k')) && k' <= i + 1 && w'.trie == w.trie
    ensures var hit, e := if fresh_ then v.newHits[i] else v.oldHits[i], if fresh_ then v.next[i] else v.old_[i];
            w'.reader == if hit then Done(Some((i, e))) else Scanning(p, ctState, v.n, i + 1)
  {
    var before, u;
    k' := if fresh_ then i + 1 else k;
    before, u := WriteUpTo(w, v, k, k');
    SlotHits(u, v, Under(k'), i, p, ctState);
    w' := Step(u, LoadSlot);
    more := before + [LoadSlot];
    LeadsFurther(w, before, u, LoadSlot);
  }

  lemma BeginAndLoad(w0: World, rules: seq<RuleSpec>, p: Packet, ctState: u8) returns (accesses: seq<Access>, w: World)
    requires Quiet(w0) && Pushable(rules)
    ensures Watched(accesses, rules, p, ctState) && Evaluated(accesses) && Leads(w0, accesses, w)
    ensures var v := ViewOf(w0, rules, p, ctState);
            InPhase(w, v, Under(0)) && w.trie == w0.trie && w.reader == Scanning(p, ctState, v.n, 0)
  {
    var v := ViewOf(w0, rules, p, ctState);
    var l := LoadCount(p, ctState);
    var first, u := BeginOnly(w0, rules, p, ctState);
    LeadsFurther(w0, first, u, l);
    WatchedMore(first, [l], rules, p, ctState);
    accesses := first + [l];
    w := Step(u, l);
    assert accesses[|first|].LoadCount?;
  }

  /** The packet can get to every slot with no blocked one before it. */
  lemma {:induction false} Reach(w0: World, rules: seq<RuleSpec>, p: Packet, ctState: u8, i: nat)
    returns (accesses: seq<Access>, w: World, k: nat)
    requires Quiet(w0) && Pushable(rules) && i <= w0.count && ViewOf(w0, rules, p, ctState).Open(i)
    ensures Watched(accesses, rules, p, ctState) && Evaluated(accesses) && Leads(w0, accesses, w)
    ensures var v := ViewOf(w0, rules, p, ctState);
            InPhase(w, v, Under(k)) && k <= i && w.trie == w0.trie && w.reader == Scanning(p, ctState, v.n, i)
  {
    if i == 0 {
      accesses, w := BeginAndLoad(w0, rules, p, ctState);
      k := 0;
    } else {
      var v := ViewOf(w0, rules, p, ctState);
      var first, u, k0 := Reach(w0, rules, p, ctState, i - 1);
      assert !v.Blocks(i - 1);
      var more;
      more, w, k := ReadAt(u, v, k0, p, ctState, i - 1, v.oldHits[i - 1]);
      LeadsOn(w0, first, u, more, w);
      WatchedOn(first, more, rules, p, ctState);
      accesses := first + more;
    }
  }

  /** Some interleaving of the push with the packet ends in this outcome. */
  ghost predicate CanMeet(w0: World, rules: seq<RuleSpec>, p: Packet, ctState: u8, hit: Option<(nat, RuleEntry)>) {
    exists accesses, w :: Meets(w0, accesses, w, rules, p, ctState, hit)
  }

  ghost predicate Meets(w0: World, accesses: seq<Access>, w: World, rules: seq<RuleSpec>, p: Packet, ctState: u8,
                        hit: Option<(nat, RuleEntry)>)
  {
    Watched(accesses, rules, p, ctState) && Evaluated(accesses) && Leads(w0, accesses, w) && w.reader == Done(hit)
  }

  lemma MeetsOn(w0: World, first: seq<Access>, u: World, more: seq<Access>, w: World,
                rules: seq<RuleSpec>, p: Packet, ctState: u8, hit: Option<(nat, RuleEntry)>)
    requires Watched(first, rules, p, ctState) && Evaluated(first) && Leads(w0, first, u)
    requires Plain(more) && Leads(u, more, w) && w.reader == Done(hit)
    ensures CanMeet(w0, rules, p, ctState, hit)
  {
    LeadsOn(w0, first, u, more, w);
    WatchedOn(first, more, rules, p, ctState);
    assert Meets(w0, first + more, w, rules, p, ctState, hit);
  }

  lemma PossibleIsMet(w0: World, rules: seq<RuleSpec>, p: Packet, ctState: u8, hit: Option<(nat, RuleEntry)>)
    requires Quiet(w0) && Pushable(rules) && ViewOf(w0, rules, p, ctState).Possible(hit)
    ensures CanMeet(w0, rules, p, ctState, hit)
  {
    var v := ViewOf(w0, rules, p, ctState);
    var i := if hit.Some? then hit.value.0 else v.n;
    var first, u, k := Reach(w0, rules, p, ctState, i);
    var more, w;
    if hit.Some? {
      var k';
      more, w, k' := ReadAt(u, v, k, p, ctState, i, !(v.oldHits[i] && hit.value.1 == v.old_[i]));
    } else {
      LeadsOne(u, EndScan);
      more, w := [EndScan], Step(u, EndScan);
    }
    MeetsOn(w0, first, u, more, w, rules, p, ctState, hit);
  }

  lemma {:induction false} FinishNewScan(w: World, v: View, p: Packet, ctState: u8, i: nat) returns (more: seq<Access>, w': World)
    requires v.Valid() && |v.old_| == MAX_RULES && InPhase(w, v, Complete) && NewScanOk(v, |v.next|, i)
    requires v.oldHits == Hits(v.old_, p, ctState, w.trie) && v.newHits == Hits(v.next, p, ctState, w.trie)
    requires w.reader == Scanning(p, ctState, |v.next|, i)
    ensures Plain(more) && Leads(w, more, w') && w'.reader == Done(v.After())
    decreases |v.next| - i
  {
    if i == |v.next| {
      FirstTrueIs(v.newHits, 0, i, i);
      LeadsOne(w, EndScan);
      return [EndScan], Step(w, EndScan);
    }
    SlotHits(w, v, Complete, i, p, ctState);
    NewScanGoesOn(v, |v.next|, i);
    LeadsOne(w, LoadSlot);
    var u := Step(w, LoadSlot);
    if v.newHits[i] { return [LoadSlot], u; }
    var rest;
    rest, w' := FinishNewScan(u, v, p, ctState, i + 1);
    more := [LoadSlot] + rest;
    LeadsOn(w, [LoadSlot], u, rest, w');
  }

  /** The whole push. */
  lemma FullPush(w0: World, rules: seq<RuleSpec>, p: Packet, ctState: u8) returns (accesses: seq<Access>, w: World)
    requires Quiet(w0) && Pushable(rules)
    ensures Watched(accesses, rules, p, ctState) && Leads(w0, accesses, w)
    ensures InPhase(w, ViewOf(w0, rules, p, ctState), Complete) && w.trie == w0.trie && w.reader == w0.reader
  {
    var first, x := AllWritten(w0, rules, p, ctState);
    LeadsFurther(w0, first, x, PublishCount);
    WatchedMore(first, [PublishCount], rules, p, ctState);
    accesses, w := first + [PublishCount], Step(x, PublishCount);
  }

  lemma AllWritten(w0: World, rules: seq<RuleSpec>, p: Packet, ctState: u8) returns (accesses: seq<Access>, w: World)
    requires Quiet(w0) && Pushable(rules)
    ensures Watched(accesses, rules, p, ctState) && Leads(w0, accesses, w)
    ensures var v := ViewOf(w0, rules, p, ctState);
            InPhase(w, v, Under(|v.next|)) && w.trie == w0.trie && w.reader == w0.reader
  {
    var v := ViewOf(w0, rules, p, ctState);
    var first, u := BeginOnly(w0, rules, p, ctState);
    var more, x := WriteUpTo(u, v, 0, |v.next|);
    LeadsOn(w0, first, u, more, x);
    PlainIsTame(more, rules, p, ctState);
    WatchedMore(first, more, rules, p, ctState);
    accesses, w := first + more, x;
  }

  lemma BeginOnly(w0: World, rules: seq<RuleSpec>, p: Packet, ctState: u8) returns (first: seq<Access>, w: World)
    requires Quiet(w0) && Pushable(rules)
    ensures Watched(first, rules, p, ctState) && Leads(w0, first, w) && w.trie == w0.trie && w.reader == w0.reader
    ensures InPhase(w, ViewOf(w0, rules, p, ctState), Under(0))
  {
    var v := ViewOf(w0, rules, p, ctState);
    LeadsOne(w0, BeginPush(rules));
    first, w := [BeginPush(rules)], Step(w0, BeginPush(rules));
    assert w.slots == Torn(v.old_, v.next, 0);
  }

  lemma PushAndLoad(w0: World, rules: seq<RuleSpec>, p: Packet, ctState: u8) returns (accesses: seq<Access>, w: World)
    requires Quiet(w0) && Pushable(rules)
    ensures Watched(accesses, rules, p, ctState) && Evaluated(accesses) && Leads(w0, accesses, w)
    ensures var v := ViewOf(w0, rules, p, ctState);
            InPhase(w, v, Complete) && w.trie == w0.trie && w.reader == Scanning(p, ctState, |v.next|, 0)
  {
    var l := LoadCount(p, ctState);
    var first, x := FullPush(w0, rules, p, ctState);
    LeadsFurther(w0, first, x, l);
    WatchedMore(first, [l], rules, p, ctState);
    accesses, w := first + [l], Step(x, l);
    assert accesses[|first|].LoadCount?;
  }

  lemma AfterIsMet(w0: World, rules: seq<RuleSpec>, p: Packet, ctState: u8)
    requires Quiet(w0) && Pushable(rules)
    ensures CanMeet(w0, rules, p, ctState, ViewOf(w0, rules, p, ctState).After())
  {
    var v := ViewOf(w0, rules, p, ctState);
    var first, u := PushAndLoad(w0, rules, p, ctState);
    var more, w := FinishNewScan(u, v, p, ctState, 0);
    MeetsOn(w0, first, u, more, w, rules, p, ctState, v.After());
  }

  /** Exactly what a packet can meet while the rules are pushed. */
  lemma OutcomesExactly(w0: World, rules: seq<RuleSpec>, p: Packet, ctState: u8, hit: Option<(nat, RuleEntry)>)
    requires Quiet(w0) && Pushable(rules)
    ensures var v := ViewOf(w0, rules, p, ctState);
            CanMeet(w0, rules, p, ctState, hit) <==> v.Possible(hit) || hit == v.After()
  {
    var v := ViewOf(w0, rules, p, ctState);
    if accesses, w :| Meets(w0, accesses, w, rules, p, ctState, hit) {
      var ws :| Links(ws, accesses, w0, w);
      assert accesses[..|accesses|] == accesses;
      var ph := AllTracked(ws, accesses, |accesses|, rules, p, ctState);
      assert ReaderOk(w.reader, v, ph, p, ctState);
    }
    if v.Possible(hit) { PossibleIsMet(w0, rules, p, ctState, hit); }
    AfterIsMet(w0, rules, p, ctState);
  }

  // --------------------------------------------------------- over all runs

  /** `us` is a run that goes on from the run `ws` by the accesses `more`. */
  ghost predicate Continues(us: seq<World>, ws: seq<World>, accesses: seq<Access>, more: seq<Access>) {
    |ws| == |accesses| + 1 && IsRun(us, accesses + more) && us[|accesses|] == ws[|accesses|]
  }

  /** Accesses that go on from a run make a run. */
  lemma RunsGoOn(ws: seq<World>, accesses: seq<Access>, more: seq<Access>, w': World) returns (us: seq<World>)
    requires IsRun(ws, accesses) && Leads(ws[|accesses|], more, w')
    ensures Continues(us, ws, accesses, more) && us[|accesses| + |more|] == w'
  {
    var vs :| Links(vs, more, ws[|accesses|], w');
    JoinPaths(ws, accesses, vs, more);
    us := ws + vs[1..];
  }

  /** And a run is made of accesses that go on. */
  lemma RunLeads(us: seq<World>, ws: seq<World>, accesses: seq<Access>, more: seq<Access>)
    requires Continues(us, ws, accesses, more)
    ensures Leads(ws[|accesses|], more, us[|accesses| + |more|])
  {
    var n := |accesses|;
    var vs := us[n..];
    forall i: nat | i < |more| ensures StepAt(vs, more, i) {
      assert StepAt(us, accesses + more, n + i) && vs[i] == us[n + i] && vs[i + 1] == us[n + i + 1];
    }
    assert Links(vs, more, ws[n], us[n + |more|]);
  }

  /** The run goes on with one push of `rules` and evaluations of the packet, the last of which ends in `hit`. */
  ghost predicate EndsIn(us: seq<World>, ws: seq<World>, accesses: seq<Access>, more: seq<Access>,
                         rules: seq<RuleSpec>, p: Packet, ctState: u8, hit: Option<(nat, RuleEntry)>)
  {
    && Continues(us, ws, accesses, more) && Watched(more, rules, p, ctState) && Evaluated(more)
    && us[|accesses| + |more|].reader == Done(hit)
  }

  /** The packet sees the push as one step: it meets the rule met before or the rule met after. */
  ghost predicate AtomicFor(ws: seq<World>, accesses: seq<Access>, rules: seq<RuleSpec>, p: Packet, ctState: u8)
    requires IsRun(ws, accesses) && Quiet(ws[|accesses|]) && Pushable(rules)
  {
    forall us, more, hit | EndsIn(us, ws, accesses, more, rules, p, ctState, hit) ::
      ViewOf(ws[|accesses|], rules, p, ctState).Consistent(hit)
  }

  /** What runs end in is what can be met. */
  lemma RunsEndIn(us: seq<World>, ws: seq<World>, accesses: seq<Access>, more: seq<Access>,
                  rules: seq<RuleSpec>, p: Packet, ctState: u8, hit: Option<(nat, RuleEntry)>)
    requires EndsIn(us, ws, accesses, more, rules, p, ctState, hit)
    ensures CanMeet(ws[|accesses|], rules, p, ctState, hit)
  {
    RunLeads(us, ws, accesses, more);
    assert Meets(ws[|accesses|], more, us[|accesses| + |more|], rules, p, ctState, hit);
  }

  /** And what can be met, some run ends in. */
  lemma SomeRunEndsIn(ws: seq<World>, accesses: seq<Access>, rules: seq<RuleSpec>, p: Packet, ctState: u8,
                      hit: Option<(nat, RuleEntry)>) returns (us: seq<World>, more: seq<Access>)
    requires IsRun(ws, accesses) && CanMeet(ws[|accesses|], rules, p, ctState, hit)
    ensures EndsIn(us, ws, accesses, more, rules, p, ctState, hit)
  {
    var m, w :| Meets(ws[|accesses|], m, w, rules, p, ctState, hit);
    more := m;
    us := RunsGoOn(ws, accesses, m, w);
  }

  /**
   The documentation calls the push atomic.  In the runs it is so for a packet
   exactly when no slot the packet can get to holds, in its old or its new
   content, a third rule for it, and it cannot pass all slots although it meets
   a rule before and after: a matter of the two rulesets alone.
   */
  lemma AtomicExactly(ws: seq<World>, accesses: seq<Access>, rules: seq<RuleSpec>, p: Packet, ctState: u8)
    requires IsRun(ws, accesses) && Quiet(ws[|accesses|]) && Pushable(rules)
    ensures AtomicFor(ws, accesses, rules, p, ctState) <==> ViewOf(ws[|accesses|], rules, p, ctState).Undivided()
  {
    var w0 := ws[|accesses|];
    var v := ViewOf(w0, rules, p, ctState);
    UndividedExactly(v);
    if v.Undivided() {
      forall us, more, hit | EndsIn(us, ws, accesses, more, rules, p, ctState, hit)
        ensures v.Consistent(hit)
      {
        RunsEndIn(us, ws, accesses, more, rules, p, ctState, hit);
        OutcomesExactly(w0, rules, p, ctState, hit);
      }
    } else {
      var hit :| v.Possible(hit) && !v.Consistent(hit);
      PossibleIsMet(w0, rules, p, ctState, hit);
      var us, more := SomeRunEndsIn(ws, accesses, rules, p, ctState, hit);
    }
  }

  // -------------------------------------------------------- a torn verdict

  /** A rule for all packets of one direction. */
  function Blanket(direction: u8, action: u8): (r: RuleSpec)
    requires (direction == DIR_INGRESS || direction == DIR_EGRESS) && ACTION_ALLOW <= action <= ACTION_LOG
    ensures Convertible(r) && r.action == action
  {
    RuleSpec(seq(16, _ => 0), 0, action, false, 0, SpecMatch(PROTO_ANY, direction, 0, [], [], [], [], 0, 0))
  }

  lemma BlanketHits(direction: u8, action: u8, p: Packet, ctState: u8, trie: set<LpmKey>)
    requires (direction == DIR_INGRESS || direction == DIR_EGRESS) && ACTION_ALLOW <= action <= ACTION_LOG
    ensures RuleMatches(p, ctState, Converted(Blanket(direction, action)).criteria, trie) <==> p.direction == direction
    ensures Converted(Blanket(direction, action)).action == action
  {
    ConversionKeepsMeaning(Blanket(direction, action), trie, p, ctState);
  }

  lemma BlanketAt(entries: seq<RuleEntry>, i: nat, direction: u8, action: u8, p: Packet, ctState: u8, trie: set<LpmKey>)
    requires (direction == DIR_INGRESS || direction == DIR_EGRESS) && ACTION_ALLOW <= action <= ACTION_LOG
    requires i < |entries| && entries[i] == Converted(Blanket(direction, action))
    ensures Hits(entries, p, ctState, trie)[i] <==> p.direction == direction
  {
    BlanketHits(direction, action, p, ctState, trie);
    assert Hits(entries, p, ctState, trie)[i] == Hit(entries, i, p, ctState, trie);
  }

  /** From the first world on, a run pushes `rules` and nothing else. */
  lemma PushFromStart(w: World, rules: seq<RuleSpec>, p: Packet, ctState: u8) returns (ws: seq<World>, accesses: seq<Access>)
    requires Init(w) && Pushable(rules)
    ensures IsRun(ws, accesses) && Quiet(ws[|accesses|])
    ensures var end := ws[|accesses|];
            end.count == |rules| && end.slots == Torn(w.slots, ConvertAll(rules), |rules|) && end.trie == w.trie
  {
    var w';
    accesses, w' := FullPush(w, rules, p, ctState);
    assert IsRun([w], []);
    ws := RunsGoOn([w], [], accesses, w');
    assert [] + accesses == accesses;
  }

  lemma WitnessView(w0: World, was: seq<RuleSpec>, next: seq<RuleSpec>, p: Packet, ctState: u8)
    requires was == [Blanket(DIR_EGRESS, ACTION_DENY), Blanket(DIR_INGRESS, ACTION_DENY)]
    requires next == [Blanket(DIR_INGRESS, ACTION_DENY), Blanket(DIR_INGRESS, ACTION_ALLOW)]
    requires Quiet(w0) && w0.count == 2 && w0.slots[0] == Converted(was[0]) && w0.slots[1] == Converted(was[1])
    requires p.direction == DIR_INGRESS
    ensures var v := ViewOf(w0, next, p, ctState);
            && v.Before() == Some((1, Converted(was[1]))) && v.After() == Some((0, Converted(next[0])))
            && v.Possible(Some((1, Converted(next[1]))))
  {
    var v := ViewOf(w0, next, p, ctState);
    assert !v.oldHits[0] by { BlanketAt(w0.slots, 0, DIR_EGRESS, ACTION_DENY, p, ctState, w0.trie); }
    assert v.oldHits[1] by { BlanketAt(w0.slots, 1, DIR_INGRESS, ACTION_DENY, p, ctState, w0.trie); }
    assert v.newHits[0] by { BlanketAt(v.next, 0, DIR_INGRESS, ACTION_DENY, p, ctState, w0.trie); }
    assert v.newHits[1] by { BlanketAt(v.next, 1, DIR_INGRESS, ACTION_ALLOW, p, ctState, w0.trie); }
    Crossing(v);
  }

  /** Slot 0 can be passed in its old content, slot 1 met in its new one. */
  lemma Crossing(v: View)
    requires v.Valid() && v.n == |v.next| == 2 && !v.oldHits[0] && v.oldHits[1] && v.newHits[0] && v.newHits[1]
    ensures v.Before() == Some((1, v.old_[1])) && v.After() == Some((0, v.next[0])) && v.Possible(Some((1, v.next[1])))
  {
    FirstTrueIs(v.oldHits, 0, 2, 1);
    FirstTrueIs(v.newHits, 0, 2, 0);
  }

  /**
   Replacing [deny egress, deny ingress] by [deny ingress, allow ingress]: an
   ingress packet is denied before and after, and a run ends in allowing it.
   No snapshot of the slots during the push shows this: the packet reads slot 0
   before and slot 1 after the writes.
   */
  lemma DeniedBeforeAndAfterAllowedBetween(w: World, p: Packet, ctState: u8)
    returns (ws: seq<World>, accesses: seq<Access>, us: seq<World>, more: seq<Access>, next: seq<RuleSpec>)
    requires Init(w) && p.direction == DIR_INGRESS
    ensures IsRun(ws, accesses) && Quiet(ws[|accesses|]) && Pushable(next) && |next| == 2
    ensures var v := ViewOf(ws[|accesses|], next, p, ctState);
            && v.Before().Some? && v.Before().value.1.action == ACTION_DENY
            && v.After().Some? && v.After().value.1.action == ACTION_DENY
    ensures ws[|accesses|].count == 2
    ensures EndsIn(us, ws, accesses, more, next, p, ctState, Some((1, Converted(next[1]))))
    ensures Converted(next[1]).action == ACTION_ALLOW
    ensures forall k: nat | k <= 2 :: SnapshotDenies(ws[|accesses|], ConvertAll(next), k, p, ctState)
  {
    var was := [Blanket(DIR_EGRESS, ACTION_DENY), Blanket(DIR_INGRESS, ACTION_DENY)];
    next := [Blanket(DIR_INGRESS, ACTION_DENY), Blanket(DIR_INGRESS, ACTION_ALLOW)];
    ws, accesses := PushFromStart(w, was, p, ctState);
    WitnessView(ws[|accesses|], was, next, p, ctState);
    PossibleIsMet(ws[|accesses|], next, p, ctState, Some((1, Converted(next[1]))));
    us, more := SomeRunEndsIn(ws, accesses, next, p, ctState, Some((1, Converted(next[1]))));
    forall k: nat | k <= 2 ensures SnapshotDenies(ws[|accesses|], ConvertAll(next), k, p, ctState) {
      SnapshotsDeny(ws[|accesses|], next, k, p, ctState);
    }
  }

  /** A packet evaluated when `k` entries are written, and until it is done, is denied. */
  predicate SnapshotDenies(w0: World, next: seq<RuleEntry>, k: nat, p: Packet, ctState: u8)
    requires k <= |next| <= |w0.slots| && w0.count <= |w0.slots|
  {
    var o := Outcome(Torn(w0.slots, next, k), 0, w0.count, p, ctState, w0.trie);
    o.Some? && o.value.action == ACTION_DENY
  }

  lemma SnapshotsDeny(w0: World, next: seq<RuleSpec>, k: nat, p: Packet, ctState: u8)
    requires Quiet(w0) && Pushable(next) && |next| == w0.count == 2 && k <= 2
    requires var v := ViewOf(w0, next, p, ctState);
             && v.Before().Some? && v.Before().value.1.action == ACTION_DENY
             && v.After().Some? && v.After().value.0 == 0 && v.After().value.1.action == ACTION_DENY
    ensures SnapshotDenies(w0, ConvertAll(next), k, p, ctState)
  {
    TornOutcome(w0.slots, 2, ConvertAll(next), k, p, ctState, w0.trie);
  }

  /** Neither content of slot 0 then slot 1 need be met: old 0 and new 1 do not match. */
  lemma Swapping(v: View)
    requires v.Valid() && v.n == |v.next| == 2 && !v.oldHits[0] && v.oldHits[1] && v.newHits[0] && !v.newHits[1]
    ensures v.Before() == Some((1, v.old_[1])) && v.After() == Some((0, v.next[0])) && v.Possible(None)
    ensures v.old_[1] == v.next[0] ==> v.Agrees(0) && v.Agrees(1)
  {
    FirstTrueIs(v.oldHits, 0, 2, 1);
    FirstTrueIs(v.newHits, 0, 2, 0);
    assert v.Open(2);
  }

  lemma SwapView(w0: World, was: seq<RuleSpec>, next: seq<RuleSpec>, p: Packet, ctState: u8)
    requires was == [Blanket(DIR_EGRESS, ACTION_DENY), Blanket(DIR_INGRESS, ACTION_DENY)] && next == [was[1], was[0]]
    requires Quiet(w0) && w0.count == 2 && w0.slots[0] == Converted(was[0]) && w0.slots[1] == Converted(was[1])
    requires p.direction == DIR_INGRESS
    ensures var v := ViewOf(w0, next, p, ctState);
            && v.Before() == Some((1, Converted(was[1]))) && v.After() == Some((0, Converted(was[1])))
            && v.Possible(None) && v.Agrees(0) && v.Agrees(1)
  {
    var v := ViewOf(w0, next, p, ctState);
    assert !v.oldHits[0] by { BlanketAt(w0.slots, 0, DIR_EGRESS, ACTION_DENY, p, ctState, w0.trie); }
    assert v.oldHits[1] by { BlanketAt(w0.slots, 1, DIR_INGRESS, ACTION_DENY, p, ctState, w0.trie); }
    assert v.newHits[0] by { BlanketAt(v.next, 0, DIR_INGRESS, ACTION_DENY, p, ctState, w0.trie); }
    assert !v.newHits[1] by { BlanketAt(v.next, 1, DIR_EGRESS, ACTION_DENY, p, ctState, w0.trie); }
    Swapping(v);
  }

  /**
   Swapping the two rules of [deny egress, deny ingress]: an ingress packet is
   denied by the same rule before and after, no slot holds another rule for it,
   and a run ends with it meeting no rule at all, so that the default decides.
   */
  lemma DeniedBeforeAndAfterMissedBetween(w: World, p: Packet, ctState: u8)
    returns (ws: seq<World>, accesses: seq<Access>, us: seq<World>, more: seq<Access>, next: seq<RuleSpec>)
    requires Init(w) && p.direction == DIR_INGRESS
    ensures IsRun(ws, accesses) && Quiet(ws[|accesses|]) && Pushable(next) && ws[|accesses|].count == |next| == 2
    ensures var v := ViewOf(ws[|accesses|], next, p, ctState);
            && v.Before().Some? && v.Before().value.1.action == ACTION_DENY && Rule(v.After()) == Rule(v.Before())
            && v.Agrees(0) && v.Agrees(1)
    ensures EndsIn(us, ws, accesses, more, next, p, ctState, None)
  {
    var was := [Blanket(DIR_EGRESS, ACTION_DENY), Blanket(DIR_INGRESS, ACTION_DENY)];
    next := [was[1], was[0]];
    ws, accesses := PushFromStart(w, was, p, ctState);
    SwapView(ws[|accesses|], was, next, p, ctState);
    PossibleIsMet(ws[|accesses|], next, p, ctState, None);
    us, more := SomeRunEndsIn(ws, accesses, next, p, ctState, None);
  }

  // ------------------------------------------------ single snapshots

  /** What a packet meets in slots `from..n`. */
  function Outcome(slots: seq<RuleEntry>, from: nat, n: nat, p: Packet, ctState: u8, trie: set<LpmKey>): Option<RuleEntry>
    requires from <= n <= |slots|
  {
    var i := FirstMatch(slots, from, n, p, ctState, trie);
    if i < n then Some(slots[i]) else None
  }

  function Least(a: nat, b: nat): nat { if a < b then a else b }

  /**
   A packet evaluated entirely between two writes meets the new rules written
   so far, then what is left of the old ones.
   */
  lemma TornOutcome(slots: seq<RuleEntry>, n: nat, next: seq<RuleEntry>, k: nat, p: Packet, ctState: u8, trie: set<LpmKey>)
    requires n <= |slots| && k <= |next| <= |slots|
    ensures var a := FirstMatch(next, 0, |next|, p, ctState, trie);
            Outcome(Torn(slots, next, k), 0, n, p, ctState, trie) ==
            if a < k && a < n then Some(next[a]) else Outcome(slots, Least(k, n), n, p, ctState, trie)
  {
    var t := Torn(slots, next, k);
    var x, y, z := Hits(t, p, ctState, trie), Hits(slots, p, ctState, trie), Hits(next, p, ctState, trie);
    assert forall j | 0 <= j < |t| :: x[j] == if j < k then z[j] else y[j];
    var a := FirstTrue(z, 0, |next|);
    if a < k && a < n {
      FirstTrueIs(x, 0, n, a);
    } else {
      FirstTrueIs(x, 0, n, FirstTrue(y, Least(k, n), n));
    }
  }
}
