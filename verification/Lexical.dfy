/** Byte-wise string order, as Go compares strings, and sorting by it. */
module Lexical {

  predicate Leq(a: string, b: string) {
    a == [] || (b != [] && (a[0] < b[0] || (a[0] == b[0] && Leq(a[1..], b[1..]))))
  }

  predicate Less(a: string, b: string) { a != b && Leq(a, b) }

  lemma {:induction false} Total(a: string, b: string)
    ensures Leq(a, b) || Leq(b, a)
  {
    if a != [] && b != [] { Total(a[1..], b[1..]); }
  }

  lemma {:induction false} Antisymmetric(a: string, b: string)
    requires Leq(a, b) && Leq(b, a)
    ensures a == b
  {
    if a != [] && b != [] {
      Antisymmetric(a[1..], b[1..]);
      assert a == [a[0]] + a[1..] && b == [b[0]] + b[1..];
    }
  }

  lemma {:induction false} Transitive(a: string, b: string, c: string)
    requires Leq(a, b) && Leq(b, c)
    ensures Leq(a, c)
  {
    if a != [] && a[0] == b[0] && b[0] == c[0] { Transitive(a[1..], b[1..], c[1..]); }
  }

  lemma LessTransitive(a: string, b: string, c: string)
    requires Less(a, b) && Less(b, c)
    ensures Less(a, c)
  {
    Transitive(a, b, c);
    if a == c { Antisymmetric(a, b); }
  }

  // ------------------------------------------------ sorted lists of strings

  ghost predicate StrictlySorted(s: seq<string>) {
    forall i, j | 0 <= i < j < |s| :: Less(s[i], s[j])
  }

  /** `slices.Sort`, by insertion. */
  function Insert(x: string, s: seq<string>): seq<string> {
    if s == [] || Leq(x, s[0]) then [x] + s else [s[0]] + Insert(x, s[1..])
  }

  lemma {:induction false} InsertMembers(x: string, s: seq<string>)
    ensures forall y :: y in Insert(x, s) <==> y == x || y in s
  {
    if s != [] && !Leq(x, s[0]) {
      InsertMembers(x, s[1..]);
      assert s == [s[0]] + s[1..];
    }
  }

  lemma {:induction false} InsertKeepsOrder(x: string, s: seq<string>)
    requires StrictlySorted(s) && x !in s
    ensures StrictlySorted(Insert(x, s))
  {
    if s == [] {
    } else if Leq(x, s[0]) {
      var t := [x] + s;
      forall i, j | 0 <= i < j < |t| ensures Less(t[i], t[j]) {
        if i == 0 && j > 1 { LessTransitive(x, s[0], s[j - 1]); }
      }
    } else {
      Total(x, s[0]);
      var u := Insert(x, s[1..]);
      InsertKeepsOrder(x, s[1..]);
      InsertMembers(x, s[1..]);
      var t := [s[0]] + u;
      forall i, j | 0 <= i < j < |t| ensures Less(t[i], t[j]) {
        if i == 0 {
          assert t[j] == u[j - 1] && u[j - 1] in u;
          if u[j - 1] != x {
            var k :| 0 <= k < |s[1..]| && s[1..][k] == u[j - 1];
            assert s[k + 1] == t[j];
          }
        }
      }
    }
  }

  /** Lists a set in increasing order. */
  method SortedList(ids: set<string>) returns (s: seq<string>)
    ensures StrictlySorted(s) && forall x :: x in s <==> x in ids
  {
    s := [];
    var todo := ids;
    while todo != {}
      invariant StrictlySorted(s) && todo <= ids && forall x :: x in s <==> x in ids - todo
      decreases |todo|
    {
      var x :| x in todo;
      InsertKeepsOrder(x, s);
      InsertMembers(x, s);
      s := Insert(x, s);
      todo := todo - {x};
    }
  }
}
