/**
 The agent's disk buffer: a directory of timestamped files that is drained in
 order and kept under a size cap by dropping the oldest.  Reads, size queries
 and deletions succeed; timestamps are strictly increasing.
 */
module DiskBuffer {
  import opened Types

  type Message = seq<u8>

  /** A file holds a message, or bytes that do not decode. */
  datatype File = File(content: Option<Message>, size: nat)

  datatype Entry = Entry(ns: int, file: File)

  const MAX_BYTES: nat := 100 * 1024 * 1024

  // ------------------------------------------------- directories as sequences

  ghost predicate Increasing(q: seq<Entry>) {
    forall i, j | 0 <= i < j < |q| :: q[i].ns < q[j].ns
  }

  /** `q` lists the directory in chronological order. */
  ghost predicate Lists(q: seq<Entry>, files: map<int, File>) {
    && Increasing(q)
    && (forall i | 0 <= i < |q| :: q[i].ns in files && files[q[i].ns] == q[i].file)
    && (forall ns | ns in files :: exists i | 0 <= i < |q| :: q[i].ns == ns)
  }

  function Total(q: seq<Entry>): nat { if q == [] then 0 else q[0].file.size + Total(q[1..]) }

  /** What eviction keeps: the oldest entries go until the rest fits. */
  function Evicted(q: seq<Entry>): seq<Entry> {
    if Total(q) <= MAX_BYTES then q else Evicted(q[1..])
  }

  /** The file system's answers while one file is replayed. */
  datatype Turn = Turn(cancelled: bool, sent: bool)

  datatype Replayed = Replayed(delivered: seq<Entry>, rest: seq<Entry>)

  function TurnAt(turns: seq<Turn>): Turn { if turns == [] then Turn(false, true) else turns[0] }

  function Tail(turns: seq<Turn>): seq<Turn> { if turns == [] then [] else turns[1..] }

  /** Replay: good entries are delivered in order, corrupt ones dropped, until a stop. */
  function ReplayOf(q: seq<Entry>, turns: seq<Turn>): Replayed
    decreases |q|
  {
    if q == [] || TurnAt(turns).cancelled then Replayed([], q)
    else if q[0].file.content.None? then ReplayOf(q[1..], Tail(turns))
    else if !TurnAt(turns).sent then Replayed([], q)
    else
      var r := ReplayOf(q[1..], Tail(turns));
      Replayed([q[0]] + r.delivered, r.rest)
  }

  // --------------------------------------------------------------- the buffer

  class Buffer {
    var files: map<int, File>
    ghost var queue: seq<Entry>

    ghost predicate Valid()
      reads this
    {
      Lists(queue, files)
    }

    constructor ()
      ensures Valid() && queue == []
    {
      files, queue := map[], [];
    }

    /** `sortedFiles`: the file names in chronological order. */
    method SortedFiles() returns (names: seq<int>)
      requires Valid()
      ensures |names| == |queue| && forall i | 0 <= i < |names| :: names[i] == queue[i].ns
    {
      names := SortNames(files.Keys);
      SameListing(names, queue, files);
    }

    /** The sizes of the listed files, and their sum. */
    method Sizes(names: seq<int>) returns (sizes: seq<nat>, total: nat)
      requires Valid() && |names| == |queue| && forall i | 0 <= i < |names| :: names[i] == queue[i].ns
      ensures |sizes| == |names| && (forall i | 0 <= i < |sizes| :: sizes[i] == queue[i].file.size) && total == Total(queue)
    {
      total, sizes := 0, [];
      assert queue[0..] == queue;
      for i := 0 to |names|
        invariant |sizes| == i && forall j | 0 <= j < i :: sizes[j] == queue[j].file.size
        invariant total + Total(queue[i..]) == Total(queue)
      {
        sizes := sizes + [files[names[i]].size];
        total := total + files[names[i]].size;
        assert queue[i..][1..] == queue[i + 1..];
      }
    }

    /** `os.Remove` of the oldest file. */
    method RemoveOldest(name: int)
      requires Valid() && queue != [] && name == queue[0].ns
      modifies this
      ensures Valid() && queue == old(queue)[1..]
    {
      DropOldest(queue, files);
      files := files - {name};
      queue := queue[1..];
    }

    /** `evict`: removes the shortest oldest prefix that brings the total under the cap. */
    method Evict()
      requires Valid()
      modifies this
      ensures Valid() && queue == Evicted(old(queue)) && Total(queue) <= MAX_BYTES
    {
      var names := SortedFiles();
      var sizes, total := Sizes(names);
      ghost var before := queue;
      assert before[0..] == before;
      for i := 0 to |names|
        invariant Valid() && queue == before[i..] && total == Total(queue) && Evicted(queue) == Evicted(before)
      {
        if total <= MAX_BYTES { break; }
        RemoveOldest(names[i]);
        assert before[i..][1..] == before[i + 1..];
        total := total - sizes[i];
      }
      EvictedFits(queue);
    }

    /** `Write`: the message becomes the newest entry, then the oldest make room. */
    method Write(msg: Message, ns: int)
      requires Valid() && forall i | 0 <= i < |queue| :: queue[i].ns < ns
      modifies this
      ensures Valid() && Total(queue) <= MAX_BYTES
      ensures queue == Evicted(old(queue) + [Entry(ns, File(Some(msg), |msg|))])
    {
      var file := File(Some(msg), |msg|);
      AppendNewest(queue, files, Entry(ns, file));
      files := files[ns := file];
      queue := queue + [Entry(ns, file)];
      Evict();
    }

    /** One turn of the replay loop: stop, or remove the file, sending it first if it decodes. */
    method ReplayOne(name: int, turn: Turn) returns (stop: bool, msg: Option<Message>)
      requires Valid() && queue != [] && name == queue[0].ns
      modifies this
      ensures Valid()
      ensures stop <==> turn.cancelled || (old(queue)[0].file.content.Some? && !turn.sent)
      ensures stop ==> queue == old(queue) && msg.None?
      ensures !stop ==> queue == old(queue)[1..] && msg == old(queue)[0].file.content
    {
      if turn.cancelled { return true, None; }
      var file := files[name];
      if file.content.None? {
        RemoveOldest(name);
        return false, None;
      }
      if !turn.sent { return true, None; }
      RemoveOldest(name);
      return false, file.content;
    }

    /** `Replay`; `err` says that it stopped early. */
    method Replay(turns: seq<Turn>) returns (ghost delivered: seq<Entry>, sent: seq<Message>, err: bool)
      requires Valid()
      modifies this
      ensures Valid() && Replayed(delivered, queue) == ReplayOf(old(queue), turns)
      ensures Carries(delivered, sent)
      ensures !err ==> queue == []
    {
      var names := SortedFiles();
      var left := turns;
      delivered, sent, err := [], [], false;
      ghost var before := queue;
      assert before[0..] == before;
      JoinNothing(ReplayOf(before, turns));
      for i := 0 to |names|
        invariant Valid() && queue == before[i..] && Carries(delivered, sent)
        invariant Continues(before, turns, delivered, queue, left)
      {
        ghost var q := queue;
        ReplayTurn(before, turns, delivered, q, left);
        var stop, msg := ReplayOne(names[i], TurnAt(left));
        if stop { return delivered, sent, true; }
        assert before[i..][1..] == before[i + 1..];
        if msg.Some? {
          CarriesOneMore(delivered, sent, q[0], msg.value);
          delivered, sent := delivered + [q[0]], sent + [msg.value];
        }
        left := Tail(left);
      }
      JoinRest(before, turns, delivered, left);
    }
  }

  /** The messages sent are the contents of the delivered entries. */
  ghost predicate Carries(delivered: seq<Entry>, sent: seq<Message>) {
    |sent| == |delivered| && forall i | 0 <= i < |sent| :: delivered[i].file.content == Some(sent[i])
  }

  ghost function Joined(d: seq<Entry>, r: Replayed): Replayed { Replayed(d + r.delivered, r.rest) }

  /** What remains to be replayed, joined to what was delivered, is the whole replay. */
  ghost predicate Continues(before: seq<Entry>, turns: seq<Turn>, d: seq<Entry>, q: seq<Entry>, left: seq<Turn>) {
    Joined(d, ReplayOf(q, left)) == ReplayOf(before, turns)
  }

  lemma JoinNothing(r: Replayed)
    ensures Joined([], r) == r
  {
    assert [] + r.delivered == r.delivered;
  }

  lemma JoinRest(before: seq<Entry>, turns: seq<Turn>, d: seq<Entry>, left: seq<Turn>)
    requires Continues(before, turns, d, [], left)
    ensures ReplayOf(before, turns) == Replayed(d, [])
  {
    assert d + [] == d;
  }

  lemma CarriesOneMore(delivered: seq<Entry>, sent: seq<Message>, e: Entry, msg: Message)
    requires Carries(delivered, sent) && e.file.content == Some(msg)
    ensures Carries(delivered + [e], sent + [msg])
  {
  }

  /** One turn of the loop, seen from the specification. */
  lemma ReplayTurn(before: seq<Entry>, turns: seq<Turn>, d: seq<Entry>, q: seq<Entry>, left: seq<Turn>)
    requires q != [] && Continues(before, turns, d, q, left)
    ensures TurnAt(left).cancelled || (q[0].file.content.Some? && !TurnAt(left).sent) ==>
            ReplayOf(before, turns) == Replayed(d, q)
    ensures !TurnAt(left).cancelled && q[0].file.content.None? ==> Continues(before, turns, d, q[1..], Tail(left))
    ensures !TurnAt(left).cancelled && q[0].file.content.Some? && TurnAt(left).sent ==>
            Continues(before, turns, d + [q[0]], q[1..], Tail(left))
  {
    var rest := ReplayOf(q[1..], Tail(left));
    assert d + ([q[0]] + rest.delivered) == d + [q[0]] + rest.delivered;
    assert d + [] == d;
  }

  function Insert(names: seq<int>, ns: int): seq<int> {
    if names == [] || ns <= names[0] then [ns] + names else [names[0]] + Insert(names[1..], ns)
  }

  ghost predicate Ascending(names: seq<int>) {
    forall i, j | 0 <= i < j < |names| :: names[i] < names[j]
  }

  /** The directory's names, sorted by their number. */
  method SortNames(keys: set<int>) returns (names: seq<int>)
    ensures Ascending(names) && forall ns: int :: ns in names <==> ns in keys
  {
    names := [];
    var todo := keys;
    while todo != {}
      invariant todo <= keys && Ascending(names) && forall ns: int :: ns in names <==> ns in keys && ns !in todo
      decreases |todo|
    {
      assert (forall x: int :: x !in todo) ==> todo == {};
      var ns :| ns in todo;
      todo := todo - {ns};
      InsertSorted(names, ns);
      names := Insert(names, ns);
    }
  }

  lemma {:induction false} InsertSorted(names: seq<int>, ns: int)
    requires Ascending(names) && ns !in names
    ensures Ascending(Insert(names, ns)) && forall x: int :: x in Insert(names, ns) <==> x in names || x == ns
  {
    if names != [] && ns > names[0] {
      InsertSorted(names[1..], ns);
      var u := Insert(names[1..], ns);
      assert names == [names[0]] + names[1..];
      forall j | 0 <= j < |u| ensures names[0] < u[j] {
        assert u[j] in u;
      }
    }
  }

  /** A chronological listing is determined by the directory. */
  lemma {:induction false} SameListing(names: seq<int>, q: seq<Entry>, files: map<int, File>)
    requires Ascending(names) && Increasing(q)
    requires forall ns :: ns in names <==> exists i | 0 <= i < |q| :: q[i].ns == ns
    ensures |names| == |q| && forall i | 0 <= i < |names| :: names[i] == q[i].ns
  {
    assert q != [] ==> q[0].ns in names;
    if names != [] {
      assert names[0] in names;
      HeadsAgree(names, q);
      forall ns ensures ns in names[1..] <==> exists i | 0 <= i < |q[1..]| :: q[1..][i].ns == ns {
        TailsAgree(names, q, ns);
      }
      SameListing(names[1..], q[1..], files);
      assert forall i | 1 <= i < |names| :: names[i] == names[1..][i - 1] && q[i] == q[1..][i - 1];
    }
  }

  lemma HeadsAgree(names: seq<int>, q: seq<Entry>)
    requires Ascending(names) && Increasing(q) && names != [] && q != []
    requires q[0].ns in names && exists i | 0 <= i < |q| :: q[i].ns == names[0]
    ensures names[0] == q[0].ns
  {
  }

  lemma TailsAgree(names: seq<int>, q: seq<Entry>, ns: int)
    requires Ascending(names) && Increasing(q)
    requires names != [] && q != [] && names[0] == q[0].ns
    requires ns in names <==> exists i | 0 <= i < |q| :: q[i].ns == ns
    ensures ns in names[1..] <==> exists i | 0 <= i < |q[1..]| :: q[1..][i].ns == ns
  {
    assert names == [names[0]] + names[1..];
    if i :| 0 <= i < |q| && q[i].ns == ns {
      if i > 0 { assert q[1..][i - 1].ns == ns; }
    }
    if i :| 0 <= i < |q[1..]| && q[1..][i].ns == ns {
      assert q[i + 1].ns == ns && q[0].ns < q[i + 1].ns;
    }
  }

  lemma AppendNewest(q: seq<Entry>, files: map<int, File>, e: Entry)
    requires Lists(q, files) && forall i | 0 <= i < |q| :: q[i].ns < e.ns
    ensures Lists(q + [e], files[e.ns := e.file])
  {
    var t, fs := q + [e], files[e.ns := e.file];
    forall ns | ns in fs ensures exists i | 0 <= i < |t| :: t[i].ns == ns {
      if ns == e.ns {
        assert t[|q|].ns == ns;
      } else {
        var i :| 0 <= i < |q| && q[i].ns == ns;
        assert t[i].ns == ns;
      }
    }
  }

  lemma DropOldest(q: seq<Entry>, files: map<int, File>)
    requires Lists(q, files) && q != []
    ensures Lists(q[1..], files - {q[0].ns})
  {
    var t, fs := q[1..], files - {q[0].ns};
    forall ns | ns in fs ensures exists i | 0 <= i < |t| :: t[i].ns == ns {
      var i :| 0 <= i < |q| && q[i].ns == ns;
      assert t[i - 1].ns == ns;
    }
  }

  // ---------------------------------------------------------------- eviction

  lemma {:induction false} EvictedFits(q: seq<Entry>)
    ensures Total(Evicted(q)) <= MAX_BYTES
  {
    if Total(q) > MAX_BYTES { EvictedFits(q[1..]); }
  }

  /** Only the shortest sufficient prefix of the oldest entries is dropped. */
  lemma {:induction false} EvictedIsLongestSuffix(q: seq<Entry>)
    ensures exists k: nat :: k <= |q| && Evicted(q) == q[k..] && forall j: nat | j < k :: Total(q[j..]) > MAX_BYTES
  {
    if Total(q) <= MAX_BYTES {
      assert q[0..] == q;
    } else {
      EvictedIsLongestSuffix(q[1..]);
      var k: nat :| k <= |q[1..]| && Evicted(q[1..]) == q[1..][k..] && forall j: nat | j < k :: Total(q[1..][j..]) > MAX_BYTES;
      assert q[1..][k..] == q[k + 1..];
      forall j: nat | j < k + 1 ensures Total(q[j..]) > MAX_BYTES {
        if j == 0 { assert q[0..] == q; } else { assert q[1..][j - 1..] == q[j..]; }
      }
    }
  }

  // -------------------------------------------------------------------- runs

  datatype Event = Wrote(msg: Message, ns: int) | Replays(turns: seq<Turn>)

  /** `written` and `delivered` are the history of a run; `queue` is what the directory lists. */
  datatype State = State(written: seq<Entry>, delivered: seq<Entry>, queue: seq<Entry>)

  function Next(s: State, ev: Event): State {
    match ev
    case Wrote(msg, ns) =>
      var e := Entry(ns, File(Some(msg), |msg|));
      State(s.written + [e], s.delivered, Evicted(s.queue + [e]))
    case Replays(turns) =>
      var r := ReplayOf(s.queue, turns);
      State(s.written, s.delivered + r.delivered, r.rest)
  }

  function StateAfter(evs: seq<Event>): State {
    if evs == [] then State([], [], []) else Next(StateAfter(evs[..|evs| - 1]), evs[|evs| - 1])
  }

  /** Clock readings of successive writes increase. */
  ghost predicate ClockIncreases(evs: seq<Event>) {
    forall i, j | 0 <= i < j < |evs| && evs[i].Wrote? && evs[j].Wrote? :: evs[i].ns < evs[j].ns
  }

  /** `s` is `t` with some elements left out. */
  predicate Subsequence(s: seq<Entry>, t: seq<Entry>) {
    if s == [] then true
    else if t == [] then false
    else if s[|s| - 1] == t[|t| - 1] then Subsequence(s[..|s| - 1], t[..|t| - 1])
    else Subsequence(s, t[..|t| - 1])
  }

  ghost predicate Chronological(s: State) {
    Increasing(s.written) && Increasing(s.delivered + s.queue)
    && forall e | e in s.delivered + s.queue :: e in s.written
  }

  lemma {:induction false} ReplaySplits(q: seq<Entry>, turns: seq<Turn>)
    requires Increasing(q)
    ensures var r := ReplayOf(q, turns);
            Increasing(r.delivered + r.rest) && forall e | e in r.delivered + r.rest :: e in q
    decreases |q|
  {
    if q != [] && !TurnAt(turns).cancelled {
      ReplaySplits(q[1..], Tail(turns));
      var r := ReplayOf(q[1..], Tail(turns));
      assert q == [q[0]] + q[1..];
      if q[0].file.content.Some? && TurnAt(turns).sent {
        var d := r.delivered + r.rest;
        forall e | e in d ensures q[0].ns < e.ns {
          assert e in q[1..];
        }
        assert [q[0]] + r.delivered + r.rest == [q[0]] + d;
        PrependIncreasing(q[0], d);
      }
    }
  }

  lemma PrependIncreasing(e: Entry, d: seq<Entry>)
    requires Increasing(d) && forall x | x in d :: e.ns < x.ns
    ensures Increasing([e] + d)
  {
    assert forall j | 0 <= j < |d| :: d[j] in d;
  }

  lemma JoinIncreasing(a: seq<Entry>, q: seq<Entry>, r: seq<Entry>)
    requires Increasing(a + q) && Increasing(r) && forall e | e in r :: e in q
    ensures Increasing(a + r)
  {
    var s, t := a + q, a + r;
    forall i, j | 0 <= i < j < |t| ensures t[i].ns < t[j].ns {
      if j < |a| {
        assert s[i] == a[i] && s[j] == a[j];
      } else if i < |a| {
        assert t[j] in r;
        var k :| 0 <= k < |q| && q[k] == t[j];
        assert s[i] == a[i] && s[|a| + k] == q[k];
      } else {
        assert t[i] == r[i - |a|] && t[j] == r[j - |a|];
      }
    }
  }

  lemma EvictedMembers(q: seq<Entry>)
    requires Increasing(q)
    ensures Increasing(Evicted(q)) && forall e | e in Evicted(q) :: e in q
  {
    EvictedIsLongestSuffix(q);
  }

  lemma WriteKeepsOrder(s: State, e: Entry)
    requires Chronological(s) && forall x | x in s.written :: x.ns < e.ns
    ensures Chronological(State(s.written + [e], s.delivered, Evicted(s.queue + [e])))
  {
    var d := s.delivered + s.queue;
    assert s.delivered + (s.queue + [e]) == d + [e];
    AppendIncreasing(d, e);
    AppendIncreasing(s.written, e);
    SuffixIncreasing(s.delivered, s.queue + [e]);
    EvictedMembers(s.queue + [e]);
    JoinIncreasing(s.delivered, s.queue + [e], Evicted(s.queue + [e]));
  }

  lemma ReplayKeepsOrder(s: State, turns: seq<Turn>)
    requires Chronological(s)
    ensures Chronological(Next(s, Replays(turns)))
  {
    SuffixIncreasing(s.delivered, s.queue);
    ReplaySplits(s.queue, turns);
    var r := ReplayOf(s.queue, turns);
    JoinIncreasing(s.delivered, s.queue, r.delivered + r.rest);
    assert s.delivered + r.delivered + r.rest == s.delivered + (r.delivered + r.rest);
  }

  lemma SuffixIncreasing(a: seq<Entry>, q: seq<Entry>)
    requires Increasing(a + q)
    ensures Increasing(q)
  {
    var s := a + q;
    assert forall i | 0 <= i < |q| :: q[i] == s[|a| + i];
  }

  lemma AppendIncreasing(d: seq<Entry>, e: Entry)
    requires Increasing(d) && forall x | x in d :: x.ns < e.ns
    ensures Increasing(d + [e])
  {
    assert forall i | 0 <= i < |d| :: d[i] in d;
  }

  lemma {:induction false} RunsAreChronological(evs: seq<Event>)
    requires ClockIncreases(evs)
    ensures Chronological(StateAfter(evs))
    ensures forall x | x in StateAfter(evs).written :: exists i :: 0 <= i < |evs| && evs[i].Wrote? && evs[i].ns == x.ns
  {
    if evs != [] {
      var n := |evs| - 1;
      var g, ev := evs[..n], evs[n];
      RunsAreChronological(g);
      var s := StateAfter(g);
      forall x | x in s.written ensures exists i :: 0 <= i < n && evs[i].Wrote? && evs[i].ns == x.ns {
        var i :| 0 <= i < |g| && g[i].Wrote? && g[i].ns == x.ns;
        assert evs[i] == g[i];
      }
      match ev {
        case Wrote(msg, ns) => WriteKeepsOrder(s, Entry(ns, File(Some(msg), |msg|)));
        case Replays(turns) => ReplayKeepsOrder(s, turns);
      }
    }
  }

  lemma {:induction false} IncreasingSubset(s: seq<Entry>, t: seq<Entry>)
    requires Increasing(s) && Increasing(t) && forall e | e in s :: e in t
    ensures Subsequence(s, t)
  {
    if s != [] {
      var a := s[|s| - 1];
      assert a in s && a in t;
      var b := t[|t| - 1];
      if a == b {
        var front, rest := s[..|s| - 1], t[..|t| - 1];
        forall e | e in front ensures e in rest {
          NotLast(s, t, e);
        }
        IncreasingSubset(front, rest);
      } else {
        var k :| 0 <= k < |t| && t[k] == a;
        forall e | e in s ensures e in t[..|t| - 1] {
          BelowLast(s, t, k, e);
        }
        IncreasingSubset(s, t[..|t| - 1]);
      }
    }
  }

  lemma NotLast(s: seq<Entry>, t: seq<Entry>, e: Entry)
    requires Increasing(s) && s != [] && t != [] && s[|s| - 1] == t[|t| - 1] && e in s[..|s| - 1] && e in t
    ensures e in t[..|t| - 1]
  {
    var i :| 0 <= i < |s| - 1 && s[..|s| - 1][i] == e;
    assert s[i].ns < s[|s| - 1].ns;
    var k :| 0 <= k < |t| && t[k] == e;
    assert t[..|t| - 1][k] == e;
  }

  lemma BelowLast(s: seq<Entry>, t: seq<Entry>, k: nat, e: Entry)
    requires Increasing(s) && Increasing(t) && s != [] && k < |t| - 1 && t[k] == s[|s| - 1] && e in s && e in t
    ensures e in t[..|t| - 1]
  {
    var i :| 0 <= i < |s| && s[i] == e;
    var m :| 0 <= m < |t| && t[m] == e;
    assert t[k].ns < t[|t| - 1].ns;
    assert t[..|t| - 1][m] == e;
  }

  /**
   FIFO over every run of writes and possibly failing replays: what has been
   delivered, followed by what is still buffered, is a subsequence of what was
   written, and no entry occurs in it twice.
   */
  lemma BoundedFifo(evs: seq<Event>)
    requires ClockIncreases(evs)
    ensures var s := StateAfter(evs);
            Subsequence(s.delivered + s.queue, s.written) && Increasing(s.delivered + s.queue)
  {
    RunsAreChronological(evs);
    var s := StateAfter(evs);
    IncreasingSubset(s.delivered + s.queue, s.written);
  }

  // -------------------------------------------------------- nothing else is lost

  lemma {:induction false} TotalAppend(a: seq<Entry>, b: seq<Entry>)
    ensures Total(a + b) == Total(a) + Total(b)
  {
    if a == [] {
      assert a + b == b;
    } else {
      TotalAppend(a[1..], b);
      assert (a + b)[1..] == a[1..] + b;
    }
  }

  lemma Assoc(a: seq<Entry>, b: seq<Entry>, c: seq<Entry>)
    ensures (a + b) + c == a + (b + c)
  {
  }

  lemma {:induction false} ReplayConserves(q: seq<Entry>, turns: seq<Turn>)
    requires forall e | e in q :: e.file.content.Some?
    ensures ReplayOf(q, turns).delivered + ReplayOf(q, turns).rest == q
    decreases |q|
  {
    if q != [] && !TurnAt(turns).cancelled && TurnAt(turns).sent {
      assert q[0] in q;
      ReplayConserves(q[1..], Tail(turns));
      var r := ReplayOf(q[1..], Tail(turns));
      Assoc([q[0]], r.delivered, r.rest);
      assert q == [q[0]] + q[1..];
    }
  }

  /** As long as all that was written fits under the cap, every message is delivered or still buffered, in order. */
  lemma {:induction false} LosslessUnderCap(evs: seq<Event>)
    requires Total(StateAfter(evs).written) <= MAX_BYTES
    ensures var s := StateAfter(evs);
            s.delivered + s.queue == s.written && forall e | e in s.written :: e.file.content.Some?
  {
    if evs != [] {
      var n := |evs| - 1;
      var g, ev := evs[..n], evs[n];
      var s := StateAfter(g);
      match ev {
        case Wrote(msg, ns) =>
          var e := Entry(ns, File(Some(msg), |msg|));
          TotalAppend(s.written, [e]);
          LosslessUnderCap(g);
          Assoc(s.delivered, s.queue, [e]);
          TotalAppend(s.delivered, s.queue + [e]);
        case Replays(turns) =>
          LosslessUnderCap(g);
          ReplayConserves(s.queue, turns);
          Assoc(s.delivered, ReplayOf(s.queue, turns).delivered, ReplayOf(s.queue, turns).rest);
      }
    }
  }
}
