/**
 The login rate limiter: a window per address, opened by an attempt, that
 admits five attempts within a minute.  Expired windows are pruned whenever a
 window is opened.
 */
module LoginLimiter {
  import opened Types

  const MAX_ATTEMPTS: nat := 5
  const WINDOW: int := 60_000_000_000

  datatype Window = Window(count: nat, start: int)

  predicate Expired(w: Window, now: int) { now - w.start >= WINDOW }

  // ---------------------------------------------------- one address by itself

  predicate Admits(w: Option<Window>, now: int) {
    w.None? || Expired(w.value, now) || w.value.count < MAX_ATTEMPTS
  }

  function Next(w: Option<Window>, now: int): Window {
    if w.None? || Expired(w.value, now) then Window(1, now)
    else if w.value.count >= MAX_ATTEMPTS then w.value
    else Window(w.value.count + 1, w.value.start)
  }

  /** The window of an address after attempts at the given times. */
  function After(times: seq<int>): Option<Window> {
    if times == [] then None else Some(Next(After(times[..|times| - 1]), times[|times| - 1]))
  }

  // ---------------------------------------------------------- the limiter

  type Windows = map<string, Window>

  function Lookup(ws: Windows, ip: string): Option<Window> { if ip in ws then Some(ws[ip]) else None }

  /** The windows after one call: a new window also prunes the expired ones. */
  function Step(ws: Windows, ip: string, now: int): Windows {
    var opens := Lookup(ws, ip).None? || Expired(ws[ip], now);
    var kept := if opens then map k | k in ws && !Expired(ws[k], now) :: ws[k] else ws;
    kept[ip := Next(Lookup(ws, ip), now)]
  }

  class Limiter {
    var windows: Windows

    constructor ()
      ensures windows == map[]
    {
      windows := map[];
    }

    method Allow(ip: string, now: int) returns (ok: bool)
      modifies this
      ensures ok == Admits(Lookup(old(windows), ip), now)
      ensures windows == Step(old(windows), ip, now)
    {
      if ip !in windows || now - windows[ip].start >= WINDOW {
        var before := windows;
        var todo := windows.Keys;
        while todo != {}
          invariant todo <= before.Keys
          invariant windows == map k | k in before && (k in todo || !Expired(before[k], now)) :: before[k]
          decreases |todo|
        {
          var k :| k in todo;
          todo := todo - {k};
          if now - before[k].start >= WINDOW { windows := windows - {k}; }
        }
        windows := windows[ip := Window(1, now)];
        return true;
      }
      var w := windows[ip];
      if w.count >= MAX_ATTEMPTS {
        assert windows == windows[ip := w];
        return false;
      }
      windows := windows[ip := w.(count := w.count + 1)];
      return true;
    }
  }

  // --------------------------------------------------------------- call runs

  datatype Call = Call(ip: string, now: int)

  ghost predicate Monotone(calls: seq<Call>) {
    forall i, j | 0 <= i <= j < |calls| :: calls[i].now <= calls[j].now
  }

  function RunOf(calls: seq<Call>): Windows {
    if calls == [] then map[] else Step(RunOf(calls[..|calls| - 1]), calls[|calls| - 1].ip, calls[|calls| - 1].now)
  }

  /** The times at which one address called. */
  function TimesOf(calls: seq<Call>, ip: string): seq<int> {
    if calls == [] then []
    else
      var n := |calls| - 1;
      TimesOf(calls[..n], ip) + (if calls[n].ip == ip then [calls[n].now] else [])
  }

  /** What the shared, pruned map says of an address, compared with that address by itself. */
  ghost predicate Agrees(ws: Windows, ip: string, alone: Option<Window>, now: int) {
    Lookup(ws, ip) == alone || (ip !in ws && alone.Some? && Expired(alone.value, now))
  }

  lemma {:induction false} SharedMapAgrees(calls: seq<Call>, ip: string, now: int)
    requires Monotone(calls) && (calls != [] ==> calls[|calls| - 1].now <= now)
    ensures Agrees(RunOf(calls), ip, After(TimesOf(calls, ip)), now)
  {
    if calls != [] {
      var n := |calls| - 1;
      var g, c := calls[..n], calls[n];
      SharedMapAgrees(g, ip, c.now);
      if c.ip == ip {
        var ts := TimesOf(calls, ip);
        assert ts[..|ts| - 1] == TimesOf(g, ip) && ts[|ts| - 1] == c.now;
      } else {
        assert TimesOf(calls, ip) == TimesOf(g, ip);
      }
    }
  }

  /**
   Neither pruning nor other addresses matter: call `i` is admitted exactly
   when its address, taken by itself and never pruned, would admit it.
   */
  lemma DecisionsAreLocal(calls: seq<Call>, i: nat)
    requires Monotone(calls) && i < |calls|
    ensures Admits(Lookup(RunOf(calls[..i]), calls[i].ip), calls[i].now)
       <==> Admits(After(TimesOf(calls[..i], calls[i].ip)), calls[i].now)
  {
    SharedMapAgrees(calls[..i], calls[i].ip, calls[i].now);
  }

  // ------------------------------------------------------- how many get through

  /** Admitted attempts with a time in the minute that starts at `a`. */
  function AdmittedIn(times: seq<int>, a: int): nat {
    if times == [] then 0
    else
      var n := |times| - 1;
      AdmittedIn(times[..n], a) +
      (if a <= times[n] < a + WINDOW && Admits(After(times[..n]), times[n]) then 1 else 0)
  }

  ghost predicate Increasing(times: seq<int>) {
    forall i, j | 0 <= i <= j < |times| :: times[i] <= times[j]
  }

  /** Only the current window and the tail of one earlier window can fall into the minute. */
  lemma {:induction false} AdmittedBound(times: seq<int>, a: int)
    requires Increasing(times) && times != []
    ensures var w := After(times).value;
            && 1 <= w.count <= MAX_ATTEMPTS && w.start <= times[|times| - 1]
            && (times[|times| - 1] < a ==> AdmittedIn(times, a) == 0)
            && (w.start < a ==> AdmittedIn(times, a) <= w.count - 1)
            && (a <= w.start < a + WINDOW ==> AdmittedIn(times, a) <= 4 + w.count)
            && AdmittedIn(times, a) <= 9
  {
    var n := |times| - 1;
    if n == 0 {
      assert times[..0] == [];
    } else {
      AdmittedBound(times[..n], a);
    }
  }

  /** Any half-open minute admits at most nine attempts of one address. */
  lemma AtMostNinePerMinute(times: seq<int>, a: int)
    requires Increasing(times)
    ensures AdmittedIn(times, a) <= 9
  {
    if times != [] { AdmittedBound(times, a); }
  }

  lemma Extend(times: seq<int>, t: int, a: int)
    ensures After(times + [t]) == Some(Next(After(times), t))
    ensures AdmittedIn(times + [t], a) ==
            AdmittedIn(times, a) + (if a <= t < a + WINDOW && Admits(After(times), t) then 1 else 0)
  {
    assert (times + [t])[..|times|] == times;
  }

  function Repeated(t: int, k: nat): seq<int> { seq(k, _ => t) }

  /** A window with room for `k` attempts admits a burst of `k`. */
  lemma {:induction false} Burst(times: seq<int>, w: Window, t: int, a: int, k: nat)
    requires After(times) == Some(w) && !Expired(w, t) && w.count + k <= MAX_ATTEMPTS && a <= t < a + WINDOW
    ensures After(times + Repeated(t, k)) == Some(Window(w.count + k, w.start))
    ensures AdmittedIn(times + Repeated(t, k), a) == AdmittedIn(times, a) + k
  {
    if k == 0 {
      assert times + Repeated(t, 0) == times;
    } else {
      Burst(times, w, t, a, k - 1);
      OneRepeatMore(times, t, k);
      OneMoreAdmitted(times + Repeated(t, k - 1), Window(w.count + k - 1, w.start), t, a);
    }
  }

  lemma OneRepeatMore(times: seq<int>, t: int, k: nat)
    requires k > 0
    ensures times + Repeated(t, k) == (times + Repeated(t, k - 1)) + [t]
  {
  }

  lemma OneMoreAdmitted(times: seq<int>, w: Window, t: int, a: int)
    requires After(times) == Some(w) && !Expired(w, t) && w.count < MAX_ATTEMPTS && a <= t < a + WINDOW
    ensures After(times + [t]) == Some(Window(w.count + 1, w.start))
    ensures AdmittedIn(times + [t], a) == AdmittedIn(times, a) + 1
  {
    Extend(times, t, a);
  }

  /** Four more attempts in a window opened at `s`, then five in the next. */
  function NineMore(s: int, a: int): seq<int> { Repeated(a, 4) + [s + WINDOW] + Repeated(s + WINDOW, 4) }

  lemma NineMoreIncreasing(s: int, a: int)
    requires a - WINDOW < s < a
    ensures Increasing([s] + NineMore(s, a))
  {
    var t := NineMore(s, a);
    assert forall i | 0 <= i < 9 :: t[i] == if i < 4 then a else s + WINDOW;
  }

  lemma IncreasingPrepend(s: int, times: seq<int>)
    requires Increasing(times) && times != [] && s <= times[0]
    ensures Increasing([s] + times)
  {
  }

  lemma NineFollow(pre: seq<int>, s: int, a: int)
    requires After(pre) == Some(Window(1, s)) && AdmittedIn(pre, a) == 0 && a - WINDOW < s < a
    ensures AdmittedIn(pre + NineMore(s, a), a) == 9
  {
    var m := s + WINDOW;
    Burst(pre, Window(1, s), a, a, 4);
    Extend(pre + Repeated(a, 4), m, a);
    Burst(pre + Repeated(a, 4) + [m], Window(1, m), m, a, 4);
    assert pre + NineMore(s, a) == pre + Repeated(a, 4) + [m] + Repeated(m, 4);
  }

  /** Nine is attained in a minute whenever a window is open as it begins. */
  lemma NineIsReached(s: int, a: int)
    requires a - WINDOW < s < a
    ensures Increasing([s] + NineMore(s, a)) && AdmittedIn([s] + NineMore(s, a), a) == 9
  {
    Extend([], s, a);
    assert [] + [s] == [s];
    NineFollow([s], s, a);
    NineMoreIncreasing(s, a);
  }

  /** An attempt more than a window later opens a window of its own. */
  lemma SecondWindow(s: int, a: int)
    requires s < a - WINDOW
    ensures After([s, a - 1]) == Some(Window(1, a - 1)) && AdmittedIn([s, a - 1], a) == 0
  {
    Extend([], s, a);
    assert [] + [s] == [s];
    Extend([s], a - 1, a);
    assert [s] + [a - 1] == [s, a - 1];
  }

  lemma NineIsReachedLater(s: int, a: int) returns (times: seq<int>)
    requires s < a - WINDOW
    ensures Increasing(times) && times != [] && times[0] == s && AdmittedIn(times, a) == 9
  {
    var pre, more := [s, a - 1], NineMore(a - 1, a);
    SecondWindow(s, a);
    NineFollow(pre, a - 1, a);
    NineMoreIncreasing(a - 1, a);
    IncreasingPrepend(s, [a - 1] + more);
    times := pre + more;
    assert times == [s] + ([a - 1] + more);
  }

  /** No window that is open at `a` was opened before it. */
  lemma {:induction false} CleanMinute(times: seq<int>, a: int)
    requires Increasing(times) && times != [] && (times[0] >= a || times[0] == a - WINDOW)
    ensures var w := After(times).value;
            && w.start <= times[|times| - 1] && 1 <= w.count <= MAX_ATTEMPTS
            && (w.start < a ==> w.start == a - WINDOW && AdmittedIn(times, a) == 0)
            && (a <= w.start < a + WINDOW ==> AdmittedIn(times, a) <= w.count)
            && AdmittedIn(times, a) <= MAX_ATTEMPTS
  {
    var n := |times| - 1;
    if n == 0 {
      assert times[..0] == [];
    } else {
      CleanMinute(times[..n], a);
    }
  }

  /** However an address that first calls at `s` goes on, the minute admits at most five of its attempts. */
  ghost predicate FivePerMinute(s: int, a: int) {
    forall times: seq<int> | Increasing(times) && times != [] && times[0] == s :: AdmittedIn(times, a) <= MAX_ATTEMPTS
  }

  /** Five a minute hold exactly for minutes that begin no later than the address does, or with its second window. */
  lemma FivePerMinuteExactly(s: int, a: int)
    ensures FivePerMinute(s, a) <==> s >= a || s == a - WINDOW
  {
    if s >= a || s == a - WINDOW {
      forall times: seq<int> | Increasing(times) && times != [] && times[0] == s
        ensures AdmittedIn(times, a) <= MAX_ATTEMPTS
      {
        CleanMinute(times, a);
      }
    } else if s > a - WINDOW {
      NineIsReached(s, a);
      assert ([s] + NineMore(s, a))[0] == s;
    } else {
      var times := NineIsReachedLater(s, a);
    }
  }
}
