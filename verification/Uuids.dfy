/** Rule identifiers: the control plane prints them, the agent parses them back. */
module Uuids {
  import opened Types

  // ------------------------------------------------------ agent: parseUUID

  function HexValue(c: char): (r: Option<int>)
    ensures r.Some? ==> 0 <= r.value < 16
  {
    if '0' <= c <= '9' then Some(c as int - '0' as int)
    else if 'a' <= c <= 'f' then Some(c as int - 'a' as int + 10)
    else if 'A' <= c <= 'F' then Some(c as int - 'A' as int + 10)
    else None
  }

  function DecodeHex(s: string): Option<seq<u8>> {
    if s == [] then Some([])
    else if |s| == 1 || HexValue(s[0]).None? || HexValue(s[1]).None? || DecodeHex(s[2..]).None? then None
    else Some([16 * HexValue(s[0]).value + HexValue(s[1]).value] + DecodeHex(s[2..]).value)
  }

  function WithoutDashes(s: string): string {
    if s == [] then []
    else if s[0] == '-' then WithoutDashes(s[1..])
    else [s[0]] + WithoutDashes(s[1..])
  }

  function ParseUuid(s: string): Option<Uuid> {
    var b := DecodeHex(WithoutDashes(s));
    if b.Some? && |b.value| == 16 then Some(b.value) else None
  }

  // ------------------------------------------ control plane: pgUUIDToStr

  function HexDigit(n: int): char
    requires 0 <= n < 16
  {
    if n < 10 then '0' + n as char else 'a' + (n - 10) as char
  }

  function Hex(b: seq<u8>): string {
    if b == [] then [] else [HexDigit(b[0] / 16), HexDigit(b[0] % 16)] + Hex(b[1..])
  }

  function UuidToStr(u: Uuid): string {
    Hex(u[..4]) + "-" + Hex(u[4..6]) + "-" + Hex(u[6..8]) + "-" + Hex(u[8..10]) + "-" + Hex(u[10..])
  }

  // ------------------------------------------------------------ round trip

  lemma HexDigitValue(n: int)
    requires 0 <= n < 16
    ensures HexValue(HexDigit(n)) == Some(n) && HexDigit(n) != '-'
  {
  }

  lemma {:induction false} DecodeHexOfHex(b: seq<u8>)
    ensures DecodeHex(Hex(b)) == Some(b)
  {
    if b != [] {
      DecodeHexOfHex(b[1..]);
      HexDigitValue(b[0] / 16);
      HexDigitValue(b[0] % 16);
      assert Hex(b)[2..] == Hex(b[1..]);
      assert b == [b[0]] + b[1..];
    }
  }

  lemma {:induction false} HexAppend(a: seq<u8>, b: seq<u8>)
    ensures Hex(a + b) == Hex(a) + Hex(b)
  {
    if a == [] {
      assert a + b == b;
    } else {
      HexAppend(a[1..], b);
      assert (a + b)[1..] == a[1..] + b;
    }
  }

  lemma {:induction false} WithoutDashesAppend(s: string, t: string)
    ensures WithoutDashes(s + t) == WithoutDashes(s) + WithoutDashes(t)
  {
    if s == [] {
      assert s + t == t;
    } else {
      WithoutDashesAppend(s[1..], t);
      assert (s + t)[1..] == s[1..] + t && (s + t)[0] == s[0];
      assert [s[0]] + (WithoutDashes(s[1..]) + WithoutDashes(t)) == [s[0]] + WithoutDashes(s[1..]) + WithoutDashes(t);
    }
  }

  lemma {:induction false} HexHasNoDash(b: seq<u8>)
    ensures WithoutDashes(Hex(b)) == Hex(b)
  {
    if b != [] {
      HexHasNoDash(b[1..]);
      HexDigitValue(b[0] / 16);
      HexDigitValue(b[0] % 16);
      var h := Hex(b);
      assert h[1..][1..] == Hex(b[1..]);
      assert WithoutDashes(h) == [h[0]] + ([h[1]] + WithoutDashes(h[1..][1..]));
    }
  }

  lemma DashedPart(b: seq<u8>, rest: string)
    ensures WithoutDashes(Hex(b) + "-" + rest) == Hex(b) + WithoutDashes(rest)
  {
    assert Hex(b) + "-" + rest == Hex(b) + ("-" + rest);
    WithoutDashesAppend(Hex(b), "-" + rest);
    HexHasNoDash(b);
    assert ("-" + rest)[1..] == rest;
  }

  lemma HexInParts(u: Uuid)
    ensures Hex(u) == Hex(u[..4]) + (Hex(u[4..6]) + (Hex(u[6..8]) + (Hex(u[8..10]) + Hex(u[10..]))))
  {
    HexTail(u, 0, 4);
    HexTail(u, 4, 6);
    HexTail(u, 6, 8);
    HexTail(u, 8, 10);
    assert u[0..] == u && u[0..4] == u[..4];
  }

  lemma HexTail(b: seq<u8>, i: nat, j: nat)
    requires i <= j <= |b|
    ensures Hex(b[i..]) == Hex(b[i..j]) + Hex(b[j..])
  {
    HexAppend(b[i..j], b[j..]);
    assert b[i..] == b[i..j] + b[j..];
  }

  /** The agent reads back every identifier the control plane prints. */
  lemma UuidRoundTrip(u: Uuid)
    ensures ParseUuid(UuidToStr(u)) == Some(u)
  {
    var e := Hex(u[10..]);
    var d := Hex(u[8..10]) + "-" + e;
    var c := Hex(u[6..8]) + "-" + d;
    var b := Hex(u[4..6]) + "-" + c;
    assert UuidToStr(u) == Hex(u[..4]) + "-" + b;
    DashedPart(u[..4], b);
    DashedPart(u[4..6], c);
    DashedPart(u[6..8], d);
    DashedPart(u[8..10], e);
    HexHasNoDash(u[10..]);
    HexInParts(u);
    DecodeHexOfHex(u);
  }

  lemma UuidToStrInjective(u: Uuid, v: Uuid)
    requires UuidToStr(u) == UuidToStr(v)
    ensures u == v
  {
    UuidRoundTrip(u);
    UuidRoundTrip(v);
  }
}
