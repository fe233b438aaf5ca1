/**
 The partition manager: one run creates the partitions of the coming days and
 weeks and drops the expired ones.

 A partitioned table is a map from partition names to the days they hold.
 Statements may fail; a failure is logged and the run goes on, so `ok` says
 whether every statement of a loop went through.
 */
module Partitions {
  import opened Types
  import opened Calendar
  import opened PartitionNames

  /** The days from `from` up to, not including, `to`. */
  datatype Range = Range(from: int, to: int)

  type Table = map<string, Range>

  const TTL_LOG: nat := 7
  const TTL_FLOW: nat := 14
  const TTL_COUNTER: nat := 30

  function Span(kind: Kind): nat { if kind == Daily then 1 else 7 }

  /** How many partitions a run looks after, the current one included. */
  function Ahead(kind: Kind): nat { if kind == Daily then 8 else 3 }

  /** Days after the start of a partition at which its age begins to count. */
  function Slack(kind: Kind): nat { if kind == Daily then 0 else 7 }

  /** The start of the partition that holds a day. */
  function CellOf(kind: Kind, day: nat): (s: nat)
    ensures OnGrid(kind, s) && s <= day < s + Span(kind)
  {
    if kind == Daily then day else IsoWeekStart(day)
  }

  function StartAt(kind: Kind, first: nat, i: nat): nat { first + i * Span(kind) }

  lemma StartAtOnGrid(kind: Kind, first: nat, i: nat)
    requires OnGrid(kind, first)
    ensures OnGrid(kind, StartAt(kind, first, i))
  {
  }

  function CellRange(kind: Kind, start: int): Range { Range(start, start + Span(kind)) }

  /** The name guard applied before a table is dropped. */
  predicate ValidName(name: string) {
    name != "" && 'a' <= name[0] <= 'z' && forall i :: 0 <= i < |name| ==> NameChar(name[i])
  }

  predicate NameChar(c: char) { 'a' <= c <= 'z' || IsDigit(c) || c == '_' }

  /** What a run drops. */
  predicate Expired(kind: Kind, base: string, name: string, cutoff: int) {
    var p := Parse(kind, base, name);
    p.Some? && p.value + Slack(kind) < cutoff && ValidName(name)
  }

  predicate SoundAt(kind: Kind, base: string, t: Table, start: nat) {
    var n := NameOf(kind, base, start);
    n in t ==> t[n] == CellRange(kind, start)
  }

  predicate ReadsTrue(kind: Kind, base: string, t: Table, n: string) {
    var p := Parse(kind, base, n);
    n in t && p.Some? ==> t[n] == CellRange(kind, p.value)
  }

  /** Names tell the truth: the days a partition holds are those its name says. */
  ghost predicate Sound(kind: Kind, base: string, t: Table) {
    && (forall start: nat :: OnGrid(kind, start) ==> SoundAt(kind, base, t, start))
    && (forall n :: ReadsTrue(kind, base, t, n))
  }

  /** The name is one of those the run at hand creates. */
  predicate Wanted(kind: Kind, base: string, first: nat, n: string, r: Range) {
    exists i: nat :: i < Ahead(kind) && IsCell(kind, base, StartAt(kind, first, i), n, r)
  }

  predicate IsCell(kind: Kind, base: string, start: nat, n: string, r: Range) {
    n == NameOf(kind, base, start) && r == CellRange(kind, start)
  }

  /** What becomes of a name while partitions are created. */
  ghost predicate CreateFate(kind: Kind, base: string, first: nat, t: Table, t': Table, n: string) {
    && (n in t ==> n in t' && t'[n] == t[n])
    && (n in t' && n !in t ==> Wanted(kind, base, first, n, t'[n]))
  }

  predicate CreatedAt(kind: Kind, base: string, first: nat, t': Table, i: nat) {
    NameOf(kind, base, StartAt(kind, first, i)) in t'
  }

  /** The first `k` coming partitions were asked for; all are there if `ok`. */
  ghost predicate Created(kind: Kind, base: string, first: nat, t: Table, t': Table, ok: bool, k: nat) {
    && (forall n :: CreateFate(kind, base, first, t, t', n))
    && (ok ==> forall i: nat :: i < k ==> CreatedAt(kind, base, first, t', i))
  }

  /** What becomes of a name while expired partitions are dropped; none is left if `ok`. */
  predicate DropFate(kind: Kind, base: string, cutoff: int, t: Table, t': Table, ok: bool, n: string) {
    && (n in t' ==> n in t && t'[n] == t[n])
    && (n in t && n !in t' ==> Expired(kind, base, n, cutoff))
    && (ok && n in t' ==> !Expired(kind, base, n, cutoff))
  }

  ghost predicate Dropped(kind: Kind, base: string, cutoff: int, t: Table, t': Table, ok: bool) {
    forall n :: DropFate(kind, base, cutoff, t, t', ok, n)
  }

  /** What one run does to a name. */
  ghost predicate RunFate(kind: Kind, base: string, ttl: nat, today: nat, t: Table, t': Table, r: Outcome, n: string) {
    && (n in t && n !in t' ==> Expired(kind, base, n, today - ttl))
    && (n in t && n in t' ==> t'[n] == t[n])
    && (n in t' && n !in t ==> Wanted(kind, base, CellOf(kind, today), n, t'[n]))
    && (r.dropped && n in t' ==> !Expired(kind, base, n, today - ttl))
  }

  /** What one run does to a table. */
  ghost predicate RanTo(kind: Kind, base: string, ttl: nat, today: nat, t: Table, t': Table, r: Outcome) {
    && (forall n :: RunFate(kind, base, ttl, today, t, t', r, n))
    && (r.created ==> forall i: nat :: i < Ahead(kind) ==> CreatedAt(kind, base, CellOf(kind, today), t', i))
  }

  // ------------------------------------------------------------------ the run

  /** `CREATE TABLE IF NOT EXISTS`, which may fail. */
  method CreatePartition(t: Table, name: string, r: Range, fails: bool) returns (t': Table)
    ensures forall n :: n in t ==> n in t' && t'[n] == t[n]
    ensures forall n :: n in t' && n !in t ==> n == name && t'[n] == r
    ensures !fails ==> name in t'
  {
    t' := if fails || name in t then t else t[name := r];
  }

  lemma CreatedNext(kind: Kind, base: string, first: nat, t: Table, mid: Table, t': Table, ok: bool, fails: bool, k: nat)
    requires Created(kind, base, first, t, mid, ok, k) && k < Ahead(kind)
    requires forall n :: n in mid ==> n in t' && t'[n] == mid[n]
    requires var start := StartAt(kind, first, k); var name := NameOf(kind, base, start);
             (forall n :: n in t' && n !in mid ==> n == name && t'[n] == CellRange(kind, start)) && (!fails ==> name in t')
    ensures Created(kind, base, first, t, t', ok && !fails, k + 1)
  {
    forall n
      ensures CreateFate(kind, base, first, t, t', n)
    {
      assert CreateFate(kind, base, first, t, mid, n);
      if n in t' && n !in mid { assert IsCell(kind, base, StartAt(kind, first, k), n, t'[n]); }
    }
    if ok && !fails {
      forall i: nat | i < k + 1
        ensures CreatedAt(kind, base, first, t', i)
      {
        assert i < k ==> CreatedAt(kind, base, first, mid, i);
      }
    }
  }

  /** Asks for each coming partition. */
  method CreateAhead(kind: Kind, base: string, first: nat, t: Table, fails: set<nat>) returns (t': Table, ok: bool)
    ensures Created(kind, base, first, t, t', ok, Ahead(kind))
    ensures fails == {} ==> ok
  {
    t' := t;
    ok := true;
    for i := 0 to Ahead(kind)
      invariant Created(kind, base, first, t, t', ok, i)
      invariant fails == {} ==> ok
    {
      ghost var mid := t';
      var start := StartAt(kind, first, i);
      t' := CreatePartition(t', NameOf(kind, base, start), CellRange(kind, start), i in fails);
      CreatedNext(kind, base, first, t, mid, t', ok, i in fails, i);
      ok := ok && i !in fails;
    }
  }

  /** The listed partitions, dropped where the name reads as expired. */
  method DropExpired(kind: Kind, base: string, cutoff: int, t: Table, fails: set<string>) returns (t': Table, ok: bool)
    ensures Dropped(kind, base, cutoff, t, t', ok)
    ensures fails == {} ==> ok
  {
    t' := t;
    ok := true;
    var names := t.Keys;
    while names != {}
      invariant names <= t.Keys
      invariant forall n :: n in t' ==> n in t && t'[n] == t[n]
      invariant forall n :: n in names ==> n in t'
      invariant forall n :: n in t && n !in t' ==> Expired(kind, base, n, cutoff)
      invariant ok ==> forall n :: n in t' && n !in names ==> !Expired(kind, base, n, cutoff)
      invariant fails == {} ==> ok
      decreases names
    {
      var name :| name in names;
      names := names - {name};
      var p := Parse(kind, base, name);
      if p.Some? && p.value + Slack(kind) < cutoff && ValidName(name) {
        if name in fails {
          ok := false;
        } else {
          t' := t' - {name};
        }
      }
    }
  }

  /** What a run creates, the same run does not drop. */
  lemma NewIsNotExpired(kind: Kind, base: string, ttl: nat, today: nat, i: nat)
    ensures !Expired(kind, base, NameOf(kind, base, StartAt(kind, CellOf(kind, today), i)), today - ttl)
  {
    var start := StartAt(kind, CellOf(kind, today), i);
    StartAtOnGrid(kind, CellOf(kind, today), i);
    NameReadsBack(kind, base, start);
  }

  lemma RunIsCreateThenDrop(kind: Kind, base: string, ttl: nat, today: nat,
                            t: Table, mid: Table, t': Table, r: Outcome)
    requires Created(kind, base, CellOf(kind, today), t, mid, r.created, Ahead(kind))
    requires Dropped(kind, base, today - ttl, mid, t', r.dropped)
    ensures RanTo(kind, base, ttl, today, t, t', r)
  {
    forall n
      ensures RunFate(kind, base, ttl, today, t, t', r, n)
    {
      assert CreateFate(kind, base, CellOf(kind, today), t, mid, n);
      assert DropFate(kind, base, today - ttl, mid, t', r.dropped, n);
    }
    if r.created {
      forall i: nat | i < Ahead(kind)
        ensures CreatedAt(kind, base, CellOf(kind, today), t', i)
      {
        assert CreatedAt(kind, base, CellOf(kind, today), mid, i);
        NewIsNotExpired(kind, base, ttl, today, i);
        assert DropFate(kind, base, today - ttl, mid, t', r.dropped, NameOf(kind, base, StartAt(kind, CellOf(kind, today), i)));
      }
    }
  }

  /** Statements of a run that fail on one table. */
  datatype Failures = Failures(creates: set<nat>, drops: set<string>)

  /** Whether all creates, and all drops, of a run on one table went through. */
  datatype Outcome = Outcome(created: bool, dropped: bool)

  /** Without failures everything goes through. */
  predicate Reports(f: Failures, r: Outcome) {
    (f.creates == {} ==> r.created) && (f.drops == {} ==> r.dropped)
  }

  /** One table's share of a run. */
  method RunTable(kind: Kind, base: string, ttl: nat, today: nat, t: Table, f: Failures) returns (t': Table, r: Outcome)
    ensures RanTo(kind, base, ttl, today, t, t', r) && Reports(f, r)
  {
    var mid, created := CreateAhead(kind, base, CellOf(kind, today), t, f.creates);
    var dropped;
    t', dropped := DropExpired(kind, base, today - ttl, mid, f.drops);
    r := Outcome(created, dropped);
    RunIsCreateThenDrop(kind, base, ttl, today, t, mid, t', r);
  }

  /** The database the manager works on: two event tables by day, the counters by week. */
  class Database {
    var logs: Table
    var flows: Table
    var counters: Table

    constructor ()
      ensures logs == flows == counters == map[]
    {
      logs, flows, counters := map[], map[], map[];
    }

    /** One run: each table with its own granularity and time to live. */
    method Run(today: nat, l: Failures, f: Failures, c: Failures) returns (lr: Outcome, fr: Outcome, cr: Outcome)
      modifies this
      ensures RanTo(Daily, "log_events", TTL_LOG, today, old(logs), logs, lr) && Reports(l, lr)
      ensures RanTo(Daily, "flow_events", TTL_FLOW, today, old(flows), flows, fr) && Reports(f, fr)
      ensures RanTo(Weekly, "counter_snapshots", TTL_COUNTER, today, old(counters), counters, cr) && Reports(c, cr)
    {
      logs, lr := RunTable(Daily, "log_events", TTL_LOG, today, logs, l);
      flows, fr := RunTable(Daily, "flow_events", TTL_FLOW, today, flows, f);
      counters, cr := RunTable(Weekly, "counter_snapshots", TTL_COUNTER, today, counters, c);
    }
  }

  // ----------------------------------------------------------------- one run

  /** A cell's partition is the only one created under its name. */
  lemma WantedIsSound(kind: Kind, base: string, first: nat, n: string, r: Range, start: nat)
    requires OnGrid(kind, first) && OnGrid(kind, start) && Wanted(kind, base, first, n, r)
    ensures n == NameOf(kind, base, start) ==> r == CellRange(kind, start)
  {
    if n == NameOf(kind, base, start) {
      var i: nat :| i < Ahead(kind) && IsCell(kind, base, StartAt(kind, first, i), n, r);
      StartAtOnGrid(kind, first, i);
      NamesAreDistinct(kind, base, start, StartAt(kind, first, i));
    }
  }

  lemma WantedReadsBack(kind: Kind, base: string, first: nat, n: string, r: Range)
    requires OnGrid(kind, first) && Wanted(kind, base, first, n, r)
    ensures var p := Parse(kind, base, n); p.Some? ==> r == CellRange(kind, p.value)
  {
    var i: nat :| i < Ahead(kind) && IsCell(kind, base, StartAt(kind, first, i), n, r);
    StartAtOnGrid(kind, first, i);
    NameReadsBack(kind, base, StartAt(kind, first, i));
  }

  /** A run, whatever fails in it, keeps names truthful. */
  lemma RunKeepsSound(kind: Kind, base: string, ttl: nat, today: nat, t: Table, t': Table, r: Outcome)
    requires Sound(kind, base, t) && RanTo(kind, base, ttl, today, t, t', r)
    ensures Sound(kind, base, t')
  {
    var first := CellOf(kind, today);
    forall start: nat | OnGrid(kind, start)
      ensures SoundAt(kind, base, t', start)
    {
      var n := NameOf(kind, base, start);
      assert SoundAt(kind, base, t, start) && RunFate(kind, base, ttl, today, t, t', r, n);
      if n in t' && n !in t { WantedIsSound(kind, base, first, n, t'[n], start); }
    }
    forall n
      ensures ReadsTrue(kind, base, t', n)
    {
      assert ReadsTrue(kind, base, t, n) && RunFate(kind, base, ttl, today, t, t', r, n);
      if n in t' && n !in t { WantedReadsBack(kind, base, first, n, t'[n]); }
    }
  }

  /** A run drops no day that is within the time to live. */
  lemma NothingYoungDropped(kind: Kind, base: string, ttl: nat, today: nat,
                            t: Table, t': Table, r: Outcome, n: string)
    requires Sound(kind, base, t) && RanTo(kind, base, ttl, today, t, t', r)
    requires n in t && n !in t'
    ensures t[n].to <= today - ttl
  {
    assert ReadsTrue(kind, base, t, n) && RunFate(kind, base, ttl, today, t, t', r, n);
  }

  /** Among the partitions of cells, each day of the window is held by its own cell's and no other's. */
  lemma GridTiled(kind: Kind, base: string, ttl: nat, today: nat, t: Table, t': Table, r: Outcome, day: nat, start: nat)
    requires Sound(kind, base, t) && RanTo(kind, base, ttl, today, t, t', r) && r.created
    requires CellOf(kind, today) <= day < CellOf(kind, today) + Ahead(kind) * Span(kind)
    requires OnGrid(kind, start) && NameOf(kind, base, start) in t'
    ensures NameOf(kind, base, CellOf(kind, day)) in t'
    ensures var held := t'[NameOf(kind, base, start)]; held.from <= day < held.to <==> start == CellOf(kind, day)
  {
    WindowIsThere(kind, base, ttl, today, t, t', r, day);
    RunKeepsSound(kind, base, ttl, today, t, t', r);
    assert SoundAt(kind, base, t', start);
    CellUnique(kind, start, day);
  }

  lemma CellUnique(kind: Kind, start: nat, day: nat)
    requires OnGrid(kind, start)
    ensures start <= day < start + Span(kind) <==> start == CellOf(kind, day)
  {
    if kind == Weekly {
      var j := MondaysApart(start, CellOf(kind, day));
    }
  }

  /** The name is that of a cell, and its partition holds the cell's days. */
  ghost predicate CellAt(kind: Kind, base: string, t: Table, n: string) {
    n in t ==> exists start: nat :: OnGrid(kind, start) && IsCell(kind, base, start, n, t[n])
  }

  /** A table with nothing but what the manager creates. */
  ghost predicate AllCells(kind: Kind, base: string, t: Table) { forall n :: CellAt(kind, base, t, n) }

  lemma CellsAreSound(kind: Kind, base: string, t: Table)
    requires AllCells(kind, base, t)
    ensures Sound(kind, base, t)
  {
    forall start: nat | OnGrid(kind, start) ensures SoundAt(kind, base, t, start) {
      var n := NameOf(kind, base, start);
      assert CellAt(kind, base, t, n);
      if n in t {
        var s: nat :| OnGrid(kind, s) && IsCell(kind, base, s, n, t[n]);
        NamesAreDistinct(kind, base, s, start);
      }
    }
    forall n ensures ReadsTrue(kind, base, t, n) {
      assert CellAt(kind, base, t, n);
      if n in t {
        var s: nat :| OnGrid(kind, s) && IsCell(kind, base, s, n, t[n]);
        NameReadsBack(kind, base, s);
      }
    }
  }

  /** A run, whatever fails in it, adds nothing but cells. */
  lemma RunKeepsCells(kind: Kind, base: string, ttl: nat, today: nat, t: Table, t': Table, r: Outcome)
    requires AllCells(kind, base, t) && RanTo(kind, base, ttl, today, t, t', r)
    ensures AllCells(kind, base, t')
  {
    forall n ensures CellAt(kind, base, t', n) {
      assert CellAt(kind, base, t, n) && RunFate(kind, base, ttl, today, t, t', r, n);
      if n in t' && n !in t {
        var first := CellOf(kind, today);
        var i: nat :| i < Ahead(kind) && IsCell(kind, base, StartAt(kind, first, i), n, t'[n]);
        StartAtOnGrid(kind, first, i);
      }
    }
  }

  /** After a run whose creates went through, each day of the window is held by its own cell's partition and no other. */
  lemma WindowTiled(kind: Kind, base: string, ttl: nat, today: nat, t: Table, t': Table, r: Outcome, day: nat, n: string)
    requires AllCells(kind, base, t) && RanTo(kind, base, ttl, today, t, t', r) && r.created
    requires CellOf(kind, today) <= day < CellOf(kind, today) + Ahead(kind) * Span(kind)
    ensures n in t' && t'[n].from <= day < t'[n].to <==> n == NameOf(kind, base, CellOf(kind, day))
  {
    CellsAreSound(kind, base, t);
    RunKeepsCells(kind, base, ttl, today, t, t', r);
    assert CellAt(kind, base, t', n);
    if n in t' {
      var start: nat :| OnGrid(kind, start) && IsCell(kind, base, start, n, t'[n]);
      GridTiled(kind, base, ttl, today, t, t', r, day, start);
      if n == NameOf(kind, base, CellOf(kind, day)) { NamesAreDistinct(kind, base, start, CellOf(kind, day)); }
    } else {
      WindowIsThere(kind, base, ttl, today, t, t', r, day);
    }
  }

  lemma WindowIsThere(kind: Kind, base: string, ttl: nat, today: nat, t: Table, t': Table, r: Outcome, day: nat)
    requires RanTo(kind, base, ttl, today, t, t', r) && r.created
    requires CellOf(kind, today) <= day < CellOf(kind, today) + Ahead(kind) * Span(kind)
    ensures NameOf(kind, base, CellOf(kind, day)) in t'
  {
    var first := CellOf(kind, today);
    CellBounds(kind, first, day);
    var k := CellIndex(kind, first, CellOf(kind, day));
    assert CreatedAt(kind, base, first, t', k);
  }

  // ---------------------------------------------------------------- many runs

  /** A table after each of a series of runs, and how the runs went. */
  datatype History = History(tables: seq<Table>, days: seq<nat>, outcomes: seq<Outcome>)

  ghost predicate IsHistory(kind: Kind, base: string, ttl: nat, h: History) {
    && |h.tables| == |h.days| + 1 && |h.outcomes| == |h.days|
    && Sound(kind, base, h.tables[0])
    && (forall i :: 0 <= i < |h.days| ==> RanAt(kind, base, ttl, h, i))
    && (forall i, j :: 0 <= i <= j < |h.days| ==> h.days[i] <= h.days[j])
  }

  ghost predicate RanAt(kind: Kind, base: string, ttl: nat, h: History, i: nat)
    requires |h.tables| == |h.days| + 1 && |h.outcomes| == |h.days| && i < |h.days|
  {
    RanTo(kind, base, ttl, h.days[i], h.tables[i], h.tables[i + 1], h.outcomes[i])
  }

  /** Some partition of the table holds the day. */
  ghost predicate Covered(t: Table, day: int) { exists n :: n in t && t[n].from <= day < t[n].to }

  lemma SoundStep(kind: Kind, base: string, ttl: nat, h: History, k: nat)
    requires IsHistory(kind, base, ttl, h) && 0 < k <= |h.days| && Sound(kind, base, h.tables[k - 1])
    ensures Sound(kind, base, h.tables[k])
  {
    assert RanAt(kind, base, ttl, h, k - 1);
    RunKeepsSound(kind, base, ttl, h.days[k - 1], h.tables[k - 1], h.tables[k], h.outcomes[k - 1]);
  }

  lemma {:induction false} AllSound(kind: Kind, base: string, ttl: nat, h: History, k: nat)
    requires IsHistory(kind, base, ttl, h) && k <= |h.days|
    ensures Sound(kind, base, h.tables[k])
  {
    if k > 0 {
      AllSound(kind, base, ttl, h, k - 1);
      SoundStep(kind, base, ttl, h, k);
    }
  }

  /** From empty tables on, a table never holds anything but cells. */
  lemma {:induction false} OnlyCells(kind: Kind, base: string, ttl: nat, h: History, k: nat)
    requires IsHistory(kind, base, ttl, h) && h.tables[0] == map[] && k <= |h.days|
    ensures AllCells(kind, base, h.tables[k])
  {
    if k > 0 {
      OnlyCells(kind, base, ttl, h, k - 1);
      assert RanAt(kind, base, ttl, h, k - 1);
      RunKeepsCells(kind, base, ttl, h.days[k - 1], h.tables[k - 1], h.tables[k], h.outcomes[k - 1]);
    }
  }

  /** Over any runs from empty tables: after each run whose creates went through the window is tiled. */
  lemma TiledOverRuns(kind: Kind, base: string, ttl: nat, h: History, j: nat, day: nat, n: string)
    requires IsHistory(kind, base, ttl, h) && h.tables[0] == map[] && j < |h.days| && h.outcomes[j].created
    requires CellOf(kind, h.days[j]) <= day < CellOf(kind, h.days[j]) + Ahead(kind) * Span(kind)
    ensures var t := h.tables[j + 1];
            n in t && t[n].from <= day < t[n].to <==> n == NameOf(kind, base, CellOf(kind, day))
  {
    OnlyCells(kind, base, ttl, h, j);
    assert RanAt(kind, base, ttl, h, j);
    WindowTiled(kind, base, ttl, h.days[j], h.tables[j], h.tables[j + 1], h.outcomes[j], day, n);
  }

  lemma PersistsOnce(kind: Kind, base: string, ttl: nat, today: nat, t: Table, t': Table, r: Outcome, start: nat)
    requires RanTo(kind, base, ttl, today, t, t', r) && OnGrid(kind, start)
    requires NameOf(kind, base, start) in t && start + Slack(kind) >= today - ttl
    ensures NameOf(kind, base, start) in t'
  {
    assert RunFate(kind, base, ttl, today, t, t', r, NameOf(kind, base, start));
    NameReadsBack(kind, base, start);
  }

  /** Once there, a partition stays as long as it is not expired, whatever fails. */
  lemma {:induction false} Persists(kind: Kind, base: string, ttl: nat, h: History, start: nat, i: nat, j: nat)
    requires IsHistory(kind, base, ttl, h) && OnGrid(kind, start) && i <= j < |h.days|
    requires NameOf(kind, base, start) in h.tables[i + 1] && start + Slack(kind) >= h.days[j] - ttl
    ensures NameOf(kind, base, start) in h.tables[j + 1]
    decreases j - i
  {
    if i < j {
      Persists(kind, base, ttl, h, start, i, j - 1);
      assert RanAt(kind, base, ttl, h, j);
      PersistsOnce(kind, base, ttl, h.days[j], h.tables[j], h.tables[j + 1], h.outcomes[j], start);
    }
  }

  lemma CellIndex(kind: Kind, first: nat, start: nat) returns (i: nat)
    requires OnGrid(kind, first) && OnGrid(kind, start) && first <= start < first + Ahead(kind) * Span(kind)
    ensures i < Ahead(kind) && StartAt(kind, first, i) == start
  {
    i := (start - first) / Span(kind);
    if kind == Weekly {
      var j := MondaysApart(start, first);
    }
  }

  /** A day some run looked ahead to stays covered until it is older than the time to live. */
  lemma Retained(kind: Kind, base: string, ttl: nat, h: History, i: nat, j: nat, day: nat)
    requires IsHistory(kind, base, ttl, h) && i <= j < |h.days| && h.outcomes[i].created
    requires CellOf(kind, h.days[i]) <= day < CellOf(kind, h.days[i]) + Ahead(kind) * Span(kind)
    requires day >= h.days[j] - ttl
    ensures Covered(h.tables[j + 1], day)
  {
    var t, start := h.tables[j + 1], CellOf(kind, day);
    assert NameOf(kind, base, start) in t by { CellRetained(kind, base, ttl, h, i, j, day); }
    assert Sound(kind, base, t) by { AllSound(kind, base, ttl, h, j + 1); }
    NameCovers(kind, base, t, start, day);
  }

  lemma CellRetained(kind: Kind, base: string, ttl: nat, h: History, i: nat, j: nat, day: nat)
    requires IsHistory(kind, base, ttl, h) && i <= j < |h.days| && h.outcomes[i].created
    requires CellOf(kind, h.days[i]) <= day < CellOf(kind, h.days[i]) + Ahead(kind) * Span(kind)
    requires day >= h.days[j] - ttl
    ensures NameOf(kind, base, CellOf(kind, day)) in h.tables[j + 1]
  {
    CellBounds(kind, CellOf(kind, h.days[i]), day);
    ReachedIsThere(kind, base, ttl, h, i, CellOf(kind, day));
    Persists(kind, base, ttl, h, CellOf(kind, day), i, j);
  }

  lemma ReachedIsThere(kind: Kind, base: string, ttl: nat, h: History, i: nat, start: nat)
    requires IsHistory(kind, base, ttl, h) && i < |h.days| && h.outcomes[i].created && OnGrid(kind, start)
    requires CellOf(kind, h.days[i]) <= start < CellOf(kind, h.days[i]) + Ahead(kind) * Span(kind)
    ensures NameOf(kind, base, start) in h.tables[i + 1]
  {
    var first := CellOf(kind, h.days[i]);
    var k := CellIndex(kind, first, start);
    assert RanAt(kind, base, ttl, h, i);
    assert CreatedAt(kind, base, first, h.tables[i + 1], k);
  }

  lemma NameCovers(kind: Kind, base: string, t: Table, start: nat, day: nat)
    requires Sound(kind, base, t) && OnGrid(kind, start) && NameOf(kind, base, start) in t
    requires start <= day < start + Span(kind)
    ensures Covered(t, day)
  {
    assert SoundAt(kind, base, t, start);
  }

  lemma CellBounds(kind: Kind, first: nat, day: nat)
    requires OnGrid(kind, first) && first <= day < first + Ahead(kind) * Span(kind)
    ensures first <= CellOf(kind, day) < first + Ahead(kind) * Span(kind)
  {
    if kind == Weekly {
      var j := MondaysApart(CellOf(kind, day), first);
    }
  }

  /** The longest pause between two runs that leaves no day uncreated. */
  function Reach(kind: Kind): nat { if kind == Daily then 8 else 21 }

  lemma CellsAdvance(kind: Kind, x: nat, y: nat)
    requires x <= y <= x + Reach(kind)
    ensures CellOf(kind, y) <= CellOf(kind, x) + Ahead(kind) * Span(kind)
  {
    if kind == Weekly {
      var j := MondaysApart(CellOf(kind, y), CellOf(kind, x));
    }
  }

  /** It is the longest: one day more, and some run begins past the end of the one before. */
  lemma ReachExactly(kind: Kind, pause: nat)
    ensures (forall x: nat, y: nat | x <= y <= x + pause :: CellOf(kind, y) <= CellOf(kind, x) + Ahead(kind) * Span(kind))
       <==> pause <= Reach(kind)
  {
    if pause <= Reach(kind) {
      forall x: nat, y: nat | x <= y <= x + pause
        ensures CellOf(kind, y) <= CellOf(kind, x) + Ahead(kind) * Span(kind)
      {
        CellsAdvance(kind, x, y);
      }
    } else {
      assert CellOf(kind, 6 + Reach(kind) + 1) > CellOf(kind, 6) + Ahead(kind) * Span(kind);
    }
  }

  lemma {:induction false} SomeRunReached(kind: Kind, days: seq<nat>, j: nat, day: nat) returns (i: nat)
    requires j < |days| && (forall k :: 0 < k <= j ==> days[k - 1] <= days[k] <= days[k - 1] + Reach(kind))
    requires CellOf(kind, days[0]) <= day < CellOf(kind, days[j]) + Ahead(kind) * Span(kind)
    ensures i <= j && CellOf(kind, days[i]) <= day < CellOf(kind, days[i]) + Ahead(kind) * Span(kind)
    decreases j
  {
    if CellOf(kind, days[j]) <= day {
      i := j;
    } else {
      CellsAdvance(kind, days[j - 1], days[j]);
      i := SomeRunReached(kind, days, j - 1, day);
    }
  }

  /**
   With no pause longer than the reach, every day from the first run up to the
   end of the look-ahead that is not older than the time to live is covered.
   */
  lemma NoGaps(kind: Kind, base: string, ttl: nat, h: History, j: nat, day: nat)
    requires IsHistory(kind, base, ttl, h) && j < |h.days| && (forall k :: 0 <= k <= j ==> h.outcomes[k].created)
    requires forall k :: 0 < k <= j ==> h.days[k] <= h.days[k - 1] + Reach(kind)
    requires CellOf(kind, h.days[0]) <= day < CellOf(kind, h.days[j]) + Ahead(kind) * Span(kind)
    requires day >= h.days[j] - ttl
    ensures Covered(h.tables[j + 1], day)
  {
    var i := SomeRunReached(kind, h.days, j, day);
    Retained(kind, base, ttl, h, i, j, day);
  }

  /** Names the manager gives pass its own guard, so an expired partition does go. */
  lemma CreatedNamesAreValid(kind: Kind, base: string, start: nat)
    requires ValidName(base)
    ensures ValidName(NameOf(kind, base, start))
  {
    var n := NameOf(kind, base, start);
    SuffixOf(kind, base, start);
    var s := n[|base| + 1..];
    SuffixChars(kind, start);
    forall i | 0 <= i < |n|
      ensures NameChar(n[i])
    {
      if i < |base| { assert n[i] == base[i]; }
      if i > |base| { assert n[i] == s[i - |base| - 1]; }
    }
  }

  lemma SuffixChars(kind: Kind, start: nat)
    ensures var s := if kind == Daily then DailySuffix(start) else WeeklySuffix(start);
            forall i :: 0 <= i < |s| ==> NameChar(s[i])
  {
  }

  /** After a run whose drops went through, an old cell's partition is gone; up to year 9999 for days. */
  lemma OldIsGone(kind: Kind, base: string, ttl: nat, h: History, j: nat, start: nat)
    requires IsHistory(kind, base, ttl, h) && j < |h.days| && h.outcomes[j].dropped && ValidName(base)
    requires OnGrid(kind, start) && start + Slack(kind) < h.days[j] - ttl
    requires kind == Weekly || DateOf(start).year <= 9999
    ensures NameOf(kind, base, start) !in h.tables[j + 1]
  {
    var n := NameOf(kind, base, start);
    assert RanAt(kind, base, ttl, h, j);
    assert RunFate(kind, base, ttl, h.days[j], h.tables[j], h.tables[j + 1], h.outcomes[j], n);
    NameReadsBack(kind, base, start);
    CreatedNamesAreValid(kind, base, start);
  }
}
