/**
 The structured-data part of forwarded syslog lines: escaping, printing, and a
 reader that follows section 6.3 of RFC 5424.
 */
module Syslog {
  import opened Types

  // --------------------------------------------------------------- escaping

  /** `strings.ReplaceAll` of a single character. */
  function ReplaceAll(s: string, c: char, rep: string): string {
    if s == [] then [] else (if s[0] == c then rep else [s[0]]) + ReplaceAll(s[1..], c, rep)
  }

  /** `sdEscape`: three replacements, one after the other. */
  function SdEscape(s: string): string {
    ReplaceAll(ReplaceAll(ReplaceAll(s, '\\', "\\\\"), '"', "\\\""), ']', "\\]")
  }

  predicate Special(c: char) { c == '\\' || c == '"' || c == ']' }

  function EscapeChar(c: char): string { if Special(c) then ['\\', c] else [c] }

  /** The single-pass escape. */
  function Escape(s: string): string {
    if s == [] then [] else EscapeChar(s[0]) + Escape(s[1..])
  }

  lemma {:induction false} ReplaceAllAppend(s: string, t: string, c: char, rep: string)
    ensures ReplaceAll(s + t, c, rep) == ReplaceAll(s, c, rep) + ReplaceAll(t, c, rep)
  {
    if s == [] {
      assert s + t == t;
    } else {
      ReplaceAllAppend(s[1..], t, c, rep);
      assert (s + t)[1..] == s[1..] + t && (s + t)[0] == s[0];
      var h := if s[0] == c then rep else [s[0]];
      assert h + (ReplaceAll(s[1..], c, rep) + ReplaceAll(t, c, rep)) == h + ReplaceAll(s[1..], c, rep) + ReplaceAll(t, c, rep);
    }
  }

  lemma ReplaceInOne(x: char, c: char, rep: string)
    ensures ReplaceAll([x], c, rep) == if x == c then rep else [x]
  {
    assert [x][1..] == [];
  }

  lemma ReplaceInPair(x: char, y: char, c: char, rep: string)
    requires x != c
    ensures ReplaceAll([x, y], c, rep) == [x] + if y == c then rep else [y]
  {
    assert [x, y][1..] == [y];
    ReplaceInOne(y, c, rep);
  }

  lemma EscapeOneChar(x: char)
    ensures SdEscape([x]) == EscapeChar(x)
  {
    var a := ReplaceAll([x], '\\', "\\\\");
    ReplaceInOne(x, '\\', "\\\\");
    if x == '\\' {
      ReplaceInPair('\\', '\\', '"', "\\\"");
      ReplaceInPair('\\', '\\', ']', "\\]");
    } else {
      ReplaceInOne(x, '"', "\\\"");
      if x == '"' { ReplaceInPair('\\', '"', ']', "\\]"); } else { ReplaceInOne(x, ']', "\\]"); }
    }
  }

  /** The order of the three replacements is right: together they are the single-pass escape. */
  lemma {:induction false} SdEscapeIsSinglePass(s: string)
    ensures SdEscape(s) == Escape(s)
  {
    if s == [] {
      assert SdEscape([]) == [];
    } else {
      var h, t := [s[0]], s[1..];
      assert s == h + t;
      SdEscapeIsSinglePass(t);
      EscapeOneChar(s[0]);
      ReplaceAllAppend(h, t, '\\', "\\\\");
      var h1, t1 := ReplaceAll(h, '\\', "\\\\"), ReplaceAll(t, '\\', "\\\\");
      ReplaceAllAppend(h1, t1, '"', "\\\"");
      ReplaceAllAppend(ReplaceAll(h1, '"', "\\\""), ReplaceAll(t1, '"', "\\\""), ']', "\\]");
    }
  }

  // --------------------------------------------------------------- printing

  datatype LogEvent = LogEvent(
    direction: string,
    srcIp: string,
    srcPort: nat,
    dstIp: string,
    dstPort: nat,
    protocol: nat,
    ruleId: string,
    tenantId: string,
    ctState: string)

  datatype Field = Direction | Src | SrcPort | Dst | DstPort | Proto | RuleId | TenantId | CtState

  function NameOf(f: Field): string {
    match f
    case Direction => "direction"
    case Src => "src"
    case SrcPort => "src_port"
    case Dst => "dst"
    case DstPort => "dst_port"
    case Proto => "proto"
    case RuleId => "rule_id"
    case TenantId => "tenant_id"
    case CtState => "ct_state"
  }

  datatype Param = Param(name: string, value: string)

  function Decimal(n: nat): string {
    if n < 10 then [Digit(n)] else Decimal(n / 10) + [Digit(n % 10)]
  }

  function Digit(n: nat): char
    requires n < 10
  {
    '0' + n as char
  }

  /** A parameter that is left out when its value is empty. */
  function Optional(f: Field, v: string): seq<Param> { if v != [] then [Param(NameOf(f), v)] else [] }

  function FixedParams(ev: LogEvent): seq<Param> {
    [Param(NameOf(Direction), ev.direction), Param(NameOf(Src), ev.srcIp), Param(NameOf(SrcPort), Decimal(ev.srcPort)),
     Param(NameOf(Dst), ev.dstIp), Param(NameOf(DstPort), Decimal(ev.dstPort)), Param(NameOf(Proto), Decimal(ev.protocol))]
  }

  /** The parameters of an event: six fixed ones, then three optional ones. */
  function ParamsOf(ev: LogEvent): seq<Param> {
    FixedParams(ev) + Optional(RuleId, ev.ruleId) + Optional(TenantId, ev.tenantId) + Optional(CtState, ev.ctState)
  }

  function RenderParam(p: Param): string { [' '] + (p.name + (['=', '"'] + (Escape(p.value) + ['"']))) }

  function RenderParams(ps: seq<Param>): string {
    if ps == [] then [] else RenderParam(ps[0]) + RenderParams(ps[1..])
  }

  const SD_ID: string := "qf@32473"

  lemma Assoc(a: string, b: string, c: string)
    ensures (a + b) + c == a + (b + c)
  {
  }

  lemma {:induction false} RenderOneMore(ps: seq<Param>, p: Param)
    ensures RenderParams(ps + [p]) == RenderParams(ps) + RenderParam(p)
  {
    if ps == [] {
      assert ps + [p] == [p] && [p][1..] == [];
      assert RenderParams([p]) == RenderParam(p) + [];
    } else {
      RenderOneMore(ps[1..], p);
      assert (ps + [p])[1..] == ps[1..] + [p] && (ps + [p])[0] == ps[0];
      Assoc(RenderParam(ps[0]), RenderParams(ps[1..]), RenderParam(p));
    }
  }

  lemma FiveWrites(sb: string, a: string, b: string, c: string, d: string, e: string)
    ensures sb + a + b + c + d + e == sb + (a + (b + (c + (d + e))))
  {
  }

  /** `writeParam`: appends one parameter to the builder. */
  method WriteParam(sb0: string, k: string, v: string) returns (sb: string)
    ensures sb == sb0 + RenderParam(Param(k, v))
  {
    sb := sb0 + [' '];
    sb := sb + k;
    sb := sb + ['=', '"'];
    var esc := SdEscape(v);
    sb := sb + esc;
    sb := sb + ['"'];
    SdEscapeIsSinglePass(v);
    FiveWrites(sb0, [' '], k, ['=', '"'], esc, ['"']);
  }

  /** Writes a parameter after those in `done`. */
  method WriteNext(sb0: string, f: Field, v: string, ghost head: string, ghost done: seq<Param>) returns (sb: string)
    requires sb0 == head + RenderParams(done)
    ensures sb == head + RenderParams(done + [Param(NameOf(f), v)])
  {
    sb := WriteParam(sb0, NameOf(f), v);
    RenderOneMore(done, Param(NameOf(f), v));
    Assoc(head, RenderParams(done), RenderParam(Param(NameOf(f), v)));
  }

  method WriteOptional(sb0: string, f: Field, v: string, ghost head: string, ghost done: seq<Param>) returns (sb: string)
    requires sb0 == head + RenderParams(done)
    ensures sb == head + RenderParams(done + Optional(f, v))
  {
    if v != [] {
      sb := WriteNext(sb0, f, v, head, done);
    } else {
      sb := sb0;
      assert done + [] == done;
    }
  }

  method WriteFixed(sb0: string, ev: LogEvent) returns (sb: string)
    ensures sb == sb0 + RenderParams(FixedParams(ev))
  {
    ghost var ps := FixedParams(ev);
    assert ps[..0] == [] && sb0 + [] == sb0;
    sb := WriteNext(sb0, Direction, ev.direction, sb0, ps[..0]);
    assert ps[..1] == ps[..0] + [ps[0]];
    sb := WriteNext(sb, Src, ev.srcIp, sb0, ps[..1]);
    assert ps[..2] == ps[..1] + [ps[1]];
    sb := WriteNext(sb, SrcPort, Decimal(ev.srcPort), sb0, ps[..2]);
    assert ps[..3] == ps[..2] + [ps[2]];
    sb := WriteNext(sb, Dst, ev.dstIp, sb0, ps[..3]);
    assert ps[..4] == ps[..3] + [ps[3]];
    sb := WriteNext(sb, DstPort, Decimal(ev.dstPort), sb0, ps[..4]);
    assert ps[..5] == ps[..4] + [ps[4]];
    sb := WriteNext(sb, Proto, Decimal(ev.protocol), sb0, ps[..5]);
    assert ps == ps[..5] + [ps[5]];
  }

  function Rendered(ev: LogEvent): string { ['['] + SD_ID + RenderParams(ParamsOf(ev)) + [']'] }

  /** `buildSD`. */
  method BuildSD(ev: LogEvent) returns (sb: string)
    ensures sb == Rendered(ev)
  {
    var head := ['['] + SD_ID;
    sb := WriteFixed(head, ev);
    ghost var ps := FixedParams(ev);
    sb := WriteOptional(sb, RuleId, ev.ruleId, head, ps);
    ps := ps + Optional(RuleId, ev.ruleId);
    sb := WriteOptional(sb, TenantId, ev.tenantId, head, ps);
    ps := ps + Optional(TenantId, ev.tenantId);
    sb := WriteOptional(sb, CtState, ev.ctState, head, ps);
    sb := sb + [']'];
  }

  // ----------------------------------------------------------------- reading

  /** Characters of an SD-NAME. */
  predicate NameChar(c: char) { c != '=' && c != ' ' && c != ']' && c != '"' }

  predicate IsName(s: string) { forall i | 0 <= i < |s| :: NameChar(s[i]) }

  /** A maximal run of name characters, and what follows. */
  function ReadName(s: string): (r: (string, string))
    ensures r.0 + r.1 == s
  {
    if s == [] || !NameChar(s[0]) then ([], s)
    else var r := ReadName(s[1..]); ([s[0]] + r.0, r.1)
  }

  /** A PARAM-VALUE up to its closing quote; an unescaped `]` or an open end is an error. */
  function ReadValue(s: string): (r: Option<(string, string)>)
    ensures r.Some? ==> |r.value.1| < |s|
  {
    if s == [] then None
    else if s[0] == '"' then Some(([], s[1..]))
    else if s[0] == ']' then None
    else if s[0] == '\\' && |s| > 1 && Special(s[1]) then
      var r := ReadValue(s[2..]);
      if r.None? then None else Some(([s[1]] + r.value.0, r.value.1))
    else
      var r := ReadValue(s[1..]);
      if r.None? then None else Some(([s[0]] + r.value.0, r.value.1))
  }

  /** The parameters up to the closing bracket, and what follows it. */
  function ReadParams(s: string): Option<(seq<Param>, string)>
    decreases |s|
  {
    if s == [] then None
    else if s[0] == ']' then Some(([], s[1..]))
    else if s[0] != ' ' then None
    else
      var n := ReadName(s[1..]);
      assert |n.1| <= |s| - 1;
      if |n.1| < 2 || n.1[0] != '=' || n.1[1] != '"' then None
      else
        var v := ReadValue(n.1[2..]);
        if v.None? then None
        else
          var rest := ReadParams(v.value.1);
          if rest.None? then None else Some(([Param(n.0, v.value.0)] + rest.value.0, rest.value.1))
  }

  datatype Element = Element(id: string, params: seq<Param>, rest: string)

  /** An SD-ELEMENT at the front of a text. */
  function ReadElement(s: string): Option<Element> {
    if s == [] || s[0] != '[' then None
    else
      var n := ReadName(s[1..]);
      var ps := ReadParams(n.1);
      if ps.None? then None else Some(Element(n.0, ps.value.0, ps.value.1))
  }

  // -------------------------------------------------------------- round trip

  lemma ReadEscaped(c: char, u: string)
    requires Special(c) && ReadValue(u).Some?
    ensures ReadValue(['\\', c] + u) == Some(([c] + ReadValue(u).value.0, ReadValue(u).value.1))
  {
    assert (['\\', c] + u)[2..] == u;
  }

  lemma ReadPlain(c: char, u: string)
    requires !Special(c) && ReadValue(u).Some?
    ensures ReadValue([c] + u) == Some(([c] + ReadValue(u).value.0, ReadValue(u).value.1))
  {
    assert ([c] + u)[1..] == u;
  }

  lemma {:induction false} ReadBackValue(v: string, tail: string)
    ensures ReadValue(Escape(v) + (['"'] + tail)) == Some((v, tail))
  {
    if v == [] {
      assert Escape(v) + (['"'] + tail) == ['"'] + tail;
      assert (['"'] + tail)[1..] == tail;
    } else {
      var u := Escape(v[1..]) + (['"'] + tail);
      ReadBackValue(v[1..], tail);
      Assoc(EscapeChar(v[0]), Escape(v[1..]), ['"'] + tail);
      assert v == [v[0]] + v[1..];
      if Special(v[0]) { ReadEscaped(v[0], u); } else { ReadPlain(v[0], u); }
    }
  }

  lemma {:induction false} ReadBackName(n: string, tail: string)
    requires IsName(n) && tail != [] && !NameChar(tail[0])
    ensures ReadName(n + tail) == (n, tail)
  {
    if n == [] {
      assert n + tail == tail;
    } else {
      ReadBackName(n[1..], tail);
      assert (n + tail)[1..] == n[1..] + tail;
      assert n == [n[0]] + n[1..];
    }
  }

  /** Reading one printed parameter in front of anything that reads. */
  lemma ReadOneParam(p: Param, rest: string)
    requires IsName(p.name) && ReadParams(rest).Some?
    ensures ReadParams(RenderParam(p) + rest) == Some(([p] + ReadParams(rest).value.0, ReadParams(rest).value.1))
  {
    var value := Escape(p.value) + (['"'] + rest);
    var s := RenderParam(p) + rest;
    OneParamText(p.name, Escape(p.value), rest);
    assert s == [' '] + (p.name + (['=', '"'] + value));
    assert s[1..] == p.name + (['=', '"'] + value);
    ReadBackName(p.name, ['=', '"'] + value);
    assert (['=', '"'] + value)[2..] == value;
    ReadBackValue(p.value, rest);
  }

  lemma OneParamText(name: string, esc: string, rest: string)
    ensures [' '] + (name + (['=', '"'] + (esc + ['"']))) + rest == [' '] + (name + (['=', '"'] + (esc + (['"'] + rest))))
  {
    Assoc([' '], name + (['=', '"'] + (esc + ['"'])), rest);
    Assoc(name, ['=', '"'] + (esc + ['"']), rest);
    Assoc(['=', '"'], esc + ['"'], rest);
    Assoc(esc, ['"'], rest);
  }

  lemma {:induction false} ReadBackParams(ps: seq<Param>, tail: string)
    requires forall i | 0 <= i < |ps| :: IsName(ps[i].name)
    ensures ReadParams(RenderParams(ps) + ([']'] + tail)) == Some((ps, tail))
  {
    if ps == [] {
      assert RenderParams(ps) + ([']'] + tail) == [']'] + tail;
      assert ([']'] + tail)[1..] == tail;
    } else {
      ReadBackParams(ps[1..], tail);
      Assoc(RenderParam(ps[0]), RenderParams(ps[1..]), [']'] + tail);
      ReadOneParam(ps[0], RenderParams(ps[1..]) + ([']'] + tail));
      assert ps == [ps[0]] + ps[1..];
    }
  }

  lemma FieldNames(f: Field)
    ensures IsName(NameOf(f))
  {
  }

  lemma ParamNames(ev: LogEvent)
    ensures forall i | 0 <= i < |ParamsOf(ev)| :: IsName(ParamsOf(ev)[i].name)
  {
    forall f: Field ensures IsName(NameOf(f)) { FieldNames(f); }
    forall p | p in ParamsOf(ev) ensures exists f: Field :: p.name == NameOf(f) {
      if p in FixedParams(ev) { FixedNames(ev, p); }
    }
    assert forall i | 0 <= i < |ParamsOf(ev)| :: ParamsOf(ev)[i] in ParamsOf(ev);
  }

  lemma FixedNames(ev: LogEvent, p: Param)
    requires p in FixedParams(ev)
    ensures exists f: Field :: p.name == NameOf(f)
  {
    var fs := [Direction, Src, SrcPort, Dst, DstPort, Proto];
    var i :| 0 <= i < 6 && FixedParams(ev)[i] == p;
    assert p.name == NameOf(fs[i]);
  }

  /**
   Round trip: whatever texts an event carries, a reader of the printed
   element gets back its parameters, names and values, and the text after it.
   */
  lemma StructuredDataRoundTrip(ev: LogEvent, tail: string)
    ensures ReadElement(Rendered(ev) + tail) == Some(Element(SD_ID, ParamsOf(ev), tail))
  {
    var ps := ParamsOf(ev);
    var body := RenderParams(ps) + ([']'] + tail);
    Assoc(['['] + SD_ID + RenderParams(ps), [']'], tail);
    Assoc(['['] + SD_ID, RenderParams(ps), [']'] + tail);
    assert (Rendered(ev) + tail)[1..] == SD_ID + body;
    assert body[0] == ' ';
    ReadBackName(SD_ID, body);
    ParamNames(ev);
    ReadBackParams(ps, tail);
  }
}
