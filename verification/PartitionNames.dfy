/**
 The table names under which partitions are created, and how the partition
 manager reads a start date back out of a name.
 */
module PartitionNames {
  import opened Types
  import opened Calendar

  /** Daily partitions of the event tables, weekly ones of the counter table. */
  datatype Kind = Daily | Weekly

  // ----------------------------------------------------------------- numerals

  predicate IsDigit(c: char) { '0' <= c <= '9' }

  predicate AllDigits(s: string) { forall i :: 0 <= i < |s| ==> IsDigit(s[i]) }

  function DigitOf(d: int): (c: char)
    requires 0 <= d < 10
    ensures IsDigit(c)
  {
    '0' + d as char
  }

  /** The decimal numeral of `n`, padded with zeros on the left to `w` characters. */
  function Pad(n: nat, w: nat): (s: string)
    ensures |s| >= 1 && |s| >= w && AllDigits(s)
    decreases n, w
  {
    if n < 10 && w <= 1 then [DigitOf(n)]
    else Pad(n / 10, if w == 0 then 0 else w - 1) + [DigitOf(n % 10)]
  }

  function Value(s: string): nat
    requires AllDigits(s)
  {
    if s == [] then 0 else 10 * Value(s[..|s| - 1]) + (s[|s| - 1] - '0') as nat
  }

  lemma {:induction false} PadValue(n: nat, w: nat)
    ensures Value(Pad(n, w)) == n
    decreases n, w
  {
    var s := Pad(n, w);
    if n < 10 && w <= 1 {
      assert s[..|s| - 1] == [];
    } else {
      var v := if w == 0 then 0 else w - 1;
      PadValue(n / 10, v);
      assert s[..|s| - 1] == Pad(n / 10, v);
    }
  }

  function Pow10(w: nat): nat { if w == 0 then 1 else 10 * Pow10(w - 1) }

  lemma {:induction false} PadWidth(n: nat, w: nat)
    requires w >= 1
    ensures |Pad(n, w)| == w <==> n < Pow10(w)
    decreases w
  {
    if w == 1 {
      assert Pow10(1) == 10 * Pow10(0);
    } else {
      PadWidth(n / 10, w - 1);
    }
  }

  // -------------------------------------------------------------------- names

  /** A Monday for the weekly kind, any day for the daily kind. */
  predicate OnGrid(kind: Kind, start: nat) { kind == Weekly ==> start % 7 == 0 }

  function DailySuffix(day: nat): string {
    var d := DateOf(day);
    Pad(d.year, 4) + "_" + Pad(d.month, 2) + "_" + Pad(d.day, 2)
  }

  function WeeklySuffix(monday: nat): string {
    var w := IsoWeek(monday);
    Pad(w.0, 4) + "_" + Pad(w.1, 2)
  }

  /** The name of the partition of `base` that starts on the given day. */
  function NameOf(kind: Kind, base: string, start: nat): string {
    base + "_" + if kind == Daily then DailySuffix(start) else WeeklySuffix(start)
  }

  // ------------------------------------------------------------------ reading

  /** `time.Parse` with layout year, month and day of four, two and two digits. */
  function ParseDate(s: string): Option<int> {
    if |s| != 10 || s[4] != '_' || s[7] != '_' then None
    else if !AllDigits(s[..4]) || !AllDigits(s[5..7]) || !AllDigits(s[8..]) then None
    else
      var d := Date(Value(s[..4]), Value(s[5..7]), Value(s[8..]));
      if ValidDate(d) then Some(DayNumber(d)) else None
  }

  /** Length of the digits a text starts with. */
  function Digits(s: string): (k: nat)
    ensures k <= |s| && AllDigits(s[..k]) && (k < |s| ==> !IsDigit(s[k]))
  {
    if s == [] || !IsDigit(s[0]) then 0
    else
      var k := Digits(s[1..]);
      assert forall i :: 0 <= i < k ==> s[..k + 1][i + 1] == s[1..][..k][i];
      k + 1
  }

  lemma {:induction false} DigitsUnique(s: string, k: nat)
    requires k <= |s| && AllDigits(s[..k]) && (k < |s| ==> !IsDigit(s[k]))
    ensures Digits(s) == k
  {
    if k > 0 {
      assert s[..k][0] == s[0];
      assert s[1..][..k - 1] == s[..k][1..];
      DigitsUnique(s[1..], k - 1);
    }
  }

  /** Two numerals with an underscore between; whatever follows is ignored, as `fmt.Sscanf` does. */
  function ParseYearWeek(s: string): Option<(nat, nat)> {
    var k := Digits(s);
    if k == 0 || k == |s| || s[k] != '_' then None
    else
      var rest := s[k + 1..];
      var j := Digits(rest);
      if j == 0 then None else Some((Value(s[..k]), Value(rest[..j])))
  }

  function ParseSuffix(kind: Kind, s: string): Option<int> {
    if kind == Daily then ParseDate(s)
    else match ParseYearWeek(s)
         case None => None
         case Some(yw) => Some(IsoWeekStartYW(yw.0, yw.1))
  }

  /** The start of a partition as read from its name. */
  function Parse(kind: Kind, base: string, name: string): Option<int> {
    if |name| <= |base| + 1 then None else ParseSuffix(kind, name[|base| + 1..])
  }

  // -------------------------------------------------------------- round trips

  lemma DailyParts(day: nat)
    ensures var d := DateOf(day);
            var s, n := DailySuffix(day), |Pad(d.year, 4)|;
            |s| == n + 6 && s[..n] == Pad(d.year, 4) && s[n] == '_'
            && s[n + 1..n + 3] == Pad(d.month, 2) && s[n + 3] == '_' && s[n + 4..] == Pad(d.day, 2)
  {
    var d := DateOf(day);
    assert Pow10(2) == 10 * Pow10(1) && Pow10(1) == 10 * Pow10(0);
    PadWidth(d.month, 2);
    PadWidth(d.day, 2);
  }

  /** A day comes back from its partition's name exactly up to the year 9999. */
  lemma DailyRoundTripExactly(day: nat)
    ensures DateOf(day).year <= 9999 ==> ParseDate(DailySuffix(day)) == Some(day)
    ensures DateOf(day).year > 9999 ==> ParseDate(DailySuffix(day)) == None
  {
    var d := DateOf(day);
    DailyParts(day);
    FourDigits(d.year);
    if d.year <= 9999 { DailyReadsBack(day); }
  }

  lemma FourDigits(n: nat)
    ensures |Pad(n, 4)| == 4 <==> n <= 9999
  {
    assert Pow10(2) == 10 * Pow10(1) && Pow10(1) == 10 * Pow10(0);
    assert Pow10(4) == 10 * Pow10(3) && Pow10(3) == 10 * Pow10(2);
    PadWidth(n, 4);
  }

  lemma DailyReadsBack(day: nat)
    requires |Pad(DateOf(day).year, 4)| == 4
    ensures ParseDate(DailySuffix(day)) == Some(day)
  {
    var d := DateOf(day);
    DailyParts(day);
    PadValue(d.year, 4);
    PadValue(d.month, 2);
    PadValue(d.day, 2);
    DateRoundTrip(day);
  }

  /** Every Monday comes back from its partition's name. */
  lemma WeeklyRoundTrip(monday: nat)
    requires monday % 7 == 0
    ensures ParseSuffix(Weekly, WeeklySuffix(monday)) == Some(monday)
  {
    var w := IsoWeek(monday);
    NumeralsReadBack(w.0, w.1);
    MondayRoundTrip(monday);
  }

  lemma NumeralsReadBack(y: nat, w: nat)
    ensures ParseYearWeek(Pad(y, 4) + "_" + Pad(w, 2)) == Some((y, w))
  {
    var a, b := Pad(y, 4), Pad(w, 2);
    var s := a + "_" + b;
    assert s[..|a|] == a && s[|a| + 1..] == b && b[..|b|] == b;
    DigitsUnique(s, |a|);
    DigitsUnique(b, |b|);
    PadValue(y, 4);
    PadValue(w, 2);
  }

  lemma DailyInjective(x: nat, y: nat)
    requires DailySuffix(x) == DailySuffix(y)
    ensures x == y
  {
    DailyParts(x);
    DailyParts(y);
    var d, e := DateOf(x), DateOf(y);
    SameNumeral(d.year, e.year, 4);
    SameNumeral(d.month, e.month, 2);
    SameNumeral(d.day, e.day, 2);
    DateRoundTrip(x);
    DateRoundTrip(y);
  }

  lemma SameNumeral(m: nat, n: nat, w: nat)
    requires Pad(m, w) == Pad(n, w)
    ensures m == n
  {
    PadValue(m, w);
    PadValue(n, w);
  }

  lemma SuffixOf(kind: Kind, base: string, start: nat)
    ensures |NameOf(kind, base, start)| > |base| + 1
    ensures NameOf(kind, base, start)[|base| + 1..] == if kind == Daily then DailySuffix(start) else WeeklySuffix(start)
  {
  }

  /** No two partitions of a table have the same name. */
  lemma NamesAreDistinct(kind: Kind, base: string, x: nat, y: nat)
    requires OnGrid(kind, x) && OnGrid(kind, y) && NameOf(kind, base, x) == NameOf(kind, base, y)
    ensures x == y
  {
    SuffixOf(kind, base, x);
    SuffixOf(kind, base, y);
    if kind == Daily {
      DailyInjective(x, y);
    } else {
      WeeklyRoundTrip(x);
      WeeklyRoundTrip(y);
    }
  }

  /** What is read from a created name is never another partition's start. */
  lemma NameReadsBack(kind: Kind, base: string, start: nat)
    requires OnGrid(kind, start)
    ensures var p := Parse(kind, base, NameOf(kind, base, start)); p.None? || p == Some(start)
    ensures kind == Weekly || DateOf(start).year <= 9999
            ==> Parse(kind, base, NameOf(kind, base, start)) == Some(start)
  {
    SuffixOf(kind, base, start);
    if kind == Daily {
      DailyRoundTripExactly(start);
    } else {
      WeeklyRoundTrip(start);
    }
  }
}
