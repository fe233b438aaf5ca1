/**
 `PushRules` writes the rule slots one by one and then the count, while the
 datapath keeps reading them: it loads the count, then one slot after another.
 This module looks at every interleaving of those single accesses, and at the
 verdicts a packet can get while a push is under way.
 */
module SlotProtocol {
  import opened Types
  import opened Packets
  import opened Matcher
  import opened Loader

  // ------------------------------------------------------- the interleaving

  datatype Writer = Idle | Writing(entries: seq<RuleEntry>, next: nat)

  datatype Reader =
    | Waiting
    | Scanning(p: Packet, ctState: u8, n: nat, i: nat)
    | Done(hit: Option<(nat, RuleEntry)>)

  /** `pushed` and `bound` are history: the rulesets pushed so far and the largest count published. */
  datatype World = World(
    slots: seq<RuleEntry>,
    count: nat,
    trie: set<LpmKey>,
    writer: Writer,
    reader: Reader,
    pushed: seq<seq<RuleSpec>>,
    bound: nat)

  datatype Access =
    | BeginPush(rules: seq<RuleSpec>)
    | WriteSlot
    | PublishCount
    | AbortPush                        // a kernel write failed
    | ReplaceTrie(trie: set<LpmKey>)   // address sets are replaced at any time
    | LoadCount(p: Packet, ctState: u8)
    | LoadSlot
    | EndScan

  predicate Enabled(w: World, a: Access) {
    match a
    case BeginPush(rules) => w.writer.Idle? && AllConvertible(rules) && |rules| <= MAX_RULES
    case WriteSlot => w.writer.Writing? && w.writer.next < |w.writer.entries| && w.writer.next < |w.slots|
    case PublishCount => w.writer.Writing? && w.writer.next == |w.writer.entries|
    case AbortPush => w.writer.Writing?
    case ReplaceTrie(_) => true
    case LoadCount(_, _) => !w.reader.Scanning?
    case LoadSlot => w.reader.Scanning? && w.reader.i < w.reader.n && w.reader.i < |w.slots|
    case EndScan => w.reader.Scanning? && w.reader.i == w.reader.n
  }

  function Max(a: nat, b: nat): nat { if a < b then b else a }

  function Step(w: World, a: Access): World
    requires Enabled(w, a)
  {
    match a
    case BeginPush(rules) => w.(writer := Writing(ConvertAll(rules), 0), pushed := w.pushed + [rules])
    case WriteSlot =>
      w.(slots := w.slots[w.writer.next := w.writer.entries[w.writer.next]],
         writer := Writing(w.writer.entries, w.writer.next + 1))
    case PublishCount =>
      w.(count := |w.writer.entries|, writer := Idle, bound := Max(w.bound, |w.writer.entries|))
    case AbortPush => w.(writer := Idle)
    case ReplaceTrie(trie) => w.(trie := trie)
    case LoadCount(p, ctState) =>
      w.(reader := Scanning(p, ctState, if w.count > MAX_RULES then MAX_RULES else w.count, 0))
    case LoadSlot =>
      var e := w.slots[w.reader.i];
      if Hit(w.slots, w.reader.i, w.reader.p, w.reader.ctState, w.trie)
      then w.(reader := Done(Some((w.reader.i, e))))
      else w.(reader := Scanning(w.reader.p, w.reader.ctState, w.reader.n, w.reader.i + 1))
    case EndScan => w.(reader := Done(None))
  }

  predicate Init(w: World) {
    |w.slots| == MAX_RULES && w.count == 0 && w.writer.Idle? && w.reader.Waiting? && w.pushed == [] && w.bound == 0
  }

  /** Entry `e` is rule `i` of some ruleset that was pushed. */
  ghost predicate FromPush(pushed: seq<seq<RuleSpec>>, i: nat, e: RuleEntry) {
    exists k: nat | k < |pushed| :: IsRule(pushed[k], i, e)
  }

  predicate IsRule(rules: seq<RuleSpec>, i: nat, e: RuleEntry) {
    i < |rules| && Convertible(rules[i]) && e == Converted(rules[i])
  }

  ghost predicate Inv(w: World) {
    && |w.slots| == MAX_RULES && w.count <= w.bound <= MAX_RULES
    && (forall i: nat | i < w.bound :: FromPush(w.pushed, i, w.slots[i]))
    && (w.writer.Writing? ==>
          && |w.writer.entries| <= MAX_RULES && w.writer.next <= |w.writer.entries|
          && (forall i: nat | i < |w.writer.entries| :: FromPush(w.pushed, i, w.writer.entries[i]))
          && (forall i: nat | i < w.writer.next :: w.slots[i] == w.writer.entries[i]))
    && (w.reader.Scanning? ==> w.reader.i <= w.reader.n <= w.bound)
    && (w.reader.Done? && w.reader.hit.Some? ==> FromPush(w.pushed, w.reader.hit.value.0, w.reader.hit.value.1))
  }

  lemma FromPushGrows(pushed: seq<seq<RuleSpec>>, rules: seq<RuleSpec>, i: nat, e: RuleEntry)
    requires FromPush(pushed, i, e)
    ensures FromPush(pushed + [rules], i, e)
  {
    var k: nat :| k < |pushed| && IsRule(pushed[k], i, e);
    assert (pushed + [rules])[k] == pushed[k];
  }

  lemma BeginKeepsInv(w: World, rules: seq<RuleSpec>)
    requires Inv(w) && Enabled(w, BeginPush(rules))
    ensures Inv(Step(w, BeginPush(rules)))
  {
    var w' := Step(w, BeginPush(rules));
    forall i: nat | i < w.bound ensures FromPush(w'.pushed, i, w'.slots[i]) {
      FromPushGrows(w.pushed, rules, i, w.slots[i]);
    }
    forall i: nat | i < |rules| ensures FromPush(w'.pushed, i, w'.writer.entries[i]) {
      assert w'.pushed[|w.pushed|] == rules && IsRule(rules, i, w'.writer.entries[i]);
    }
    if w.reader.Done? && w.reader.hit.Some? {
      FromPushGrows(w.pushed, rules, w.reader.hit.value.0, w.reader.hit.value.1);
    }
  }

  lemma WriteKeepsInv(w: World)
    requires Inv(w) && Enabled(w, WriteSlot)
    ensures Inv(Step(w, WriteSlot))
  {
  }

  lemma PublishKeepsInv(w: World)
    requires Inv(w) && Enabled(w, PublishCount)
    ensures Inv(Step(w, PublishCount))
  {
  }

  lemma LoadKeepsInv(w: World)
    requires Inv(w) && Enabled(w, LoadSlot)
    ensures Inv(Step(w, LoadSlot))
  {
    assert FromPush(w.pushed, w.reader.i, w.slots[w.reader.i]);
  }

  /** The accesses that touch neither slots nor writer progress. */
  lemma OtherKeepsInv(w: World, a: Access)
    requires Inv(w) && Enabled(w, a) && (a.AbortPush? || a.ReplaceTrie? || a.LoadCount? || a.EndScan?)
    ensures Inv(Step(w, a))
  {
  }

  lemma StepKeepsInv(w: World, a: Access)
    requires Inv(w) && Enabled(w, a)
    ensures Inv(Step(w, a))
  {
    match a
    case BeginPush(rules) => BeginKeepsInv(w, rules);
    case WriteSlot => WriteKeepsInv(w);
    case PublishCount => PublishKeepsInv(w);
    case LoadSlot => LoadKeepsInv(w);
    case _ => OtherKeepsInv(w, a);
  }

  ghost predicate StepsTo(w: World, a: Access, w': World) { Enabled(w, a) && w' == Step(w, a) }

  ghost predicate StepAt(ws: seq<World>, accesses: seq<Access>, i: nat)
    requires |ws| == |accesses| + 1 && i < |accesses|
  {
    StepsTo(ws[i], accesses[i], ws[i + 1])
  }

  /** The worlds an access sequence goes through. */
  ghost predicate Path(ws: seq<World>, accesses: seq<Access>) {
    |ws| == |accesses| + 1 && forall i: nat | i < |accesses| :: StepAt(ws, accesses, i)
  }

  ghost predicate IsRun(ws: seq<World>, accesses: seq<Access>) { Path(ws, accesses) && Init(ws[0]) }

  /**
   Slot safety over every interleaving, aborted pushes included: whatever slot
   below a published count holds, and whatever a reader stops at, is a
   validated rule that some push put at that very index.
   */
  lemma {:induction false} SlotSafety(ws: seq<World>, accesses: seq<Access>, i: nat)
    requires IsRun(ws, accesses) && i < |ws|
    ensures Inv(ws[i])
  {
    if i > 0 {
      SlotSafety(ws, accesses, i - 1);
      assert StepAt(ws, accesses, i - 1);
      StepKeepsInv(ws[i - 1], accesses[i - 1]);
    }
  }

  /** A reader that stops at a rule applies an ALLOW, DENY or LOG action, never an unset one. */
  lemma HitsAreValidated(ws: seq<World>, accesses: seq<Access>, i: nat)
    requires IsRun(ws, accesses) && i < |ws| && ws[i].reader.Done? && ws[i].reader.hit.Some?
    ensures ACTION_ALLOW <= ws[i].reader.hit.value.1.action <= ACTION_LOG
  {
    SlotSafety(ws, accesses, i);
    var h := ws[i].reader.hit.value;
    var k: nat :| k < |ws[i].pushed| && IsRule(ws[i].pushed[k], h.0, h.1);
  }
}
