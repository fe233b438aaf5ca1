/**
 The connection-tracking table of the BPF program: canonical flow keys, the TCP
 automaton and the entry update, and what one entry says about the packets
 that produced it.
 */
module Conntrack {
  import opened Types
  import opened Packets
  import opened Address

  // ------------------------------------------------------- canonical keys

  datatype CtKey = CtKey(srcIp: u32, dstIp: u32, srcPort: u16, dstPort: u16, proto: u8)

  /** The direction bit: the packet travels from the higher to the lower address. */
  predicate IsReply(p: Packet) { p.srcIp > p.dstIp }

  function BuildKey(p: Packet): CtKey {
    if p.srcIp <= p.dstIp then CtKey(p.srcIp, p.dstIp, p.srcPort, p.dstPort, p.proto)
    else CtKey(p.dstIp, p.srcIp, p.dstPort, p.srcPort, p.proto)
  }

  predicate Canonical(k: CtKey) { k.srcIp <= k.dstIp }

  predicate SameTuple(p: Packet, q: Packet) {
    p.srcIp == q.srcIp && p.dstIp == q.dstIp && p.srcPort == q.srcPort && p.dstPort == q.dstPort
  }

  predicate Mirrored(p: Packet, q: Packet) {
    p.srcIp == q.dstIp && p.dstIp == q.srcIp && p.srcPort == q.dstPort && p.dstPort == q.srcPort
  }

  /** Which packets share an entry, and what the direction bit then says. */
  lemma KeySharedExactly(p: Packet, q: Packet)
    ensures BuildKey(p) == BuildKey(q) <==>
            p.proto == q.proto && (SameTuple(p, q) || (Mirrored(p, q) && p.srcIp != p.dstIp))
    ensures BuildKey(p) == BuildKey(q) && p.srcIp != p.dstIp ==> (IsReply(p) == IsReply(q)) == SameTuple(p, q)
    ensures Mirrored(p, q) && p.proto == q.proto ==>
            (BuildKey(p) == BuildKey(q) <==> p.srcIp != p.dstIp || p.srcPort == p.dstPort)
    ensures Canonical(BuildKey(p))
  {
  }

  // -------------------------------------------------------- TCP automaton

  const CS_NONE: u8 := 0
  const CS_SYN_SENT: u8 := 1
  const CS_SYN_RCVD: u8 := 2
  const CS_ESTABLISHED: u8 := 3
  const CS_FIN_WAIT: u8 := 4
  const CS_LAST_ACK: u8 := 5
  const CS_CLOSED: u8 := 6

  function TcpFsm(cur: u8, f: TcpFlags, isReply: bool): u8 {
    if f.rst then CS_CLOSED
    else if cur == CS_NONE && f.syn && !f.ack then CS_SYN_SENT
    else if cur == CS_SYN_SENT && isReply && f.syn && f.ack then CS_SYN_RCVD
    else if cur == CS_SYN_RCVD && !isReply && f.ack && !f.syn then CS_ESTABLISHED
    else if cur == CS_ESTABLISHED && f.fin then CS_FIN_WAIT
    else if cur == CS_FIN_WAIT && f.fin then CS_LAST_ACK
    else if cur == CS_LAST_ACK && f.ack then CS_CLOSED
    else if cur == CS_CLOSED && f.syn && !f.ack then CS_SYN_SENT
    else cur
  }

  function TcpToCt(tcpState: u8): u8 {
    if tcpState == CS_NONE then 0
    else if tcpState <= CS_SYN_RCVD then CT_NEW
    else if tcpState == CS_CLOSED then CT_INVALID
    else CT_ESTABLISHED
  }

  // -------------------------------------------------------------- entries

  datatype CtEntry = CtEntry(
    lastSeenNs: u64,
    establishedNs: u64,
    packetsFwd: u64,
    bytesFwd: u64,
    packetsRev: u64,
    bytesRev: u64,
    state: u8,
    tcpState: u8)

  type CtTable = map<CtKey, CtEntry>

  /** Mid-flow TCP never creates an entry. */
  predicate Trackable(p: Packet) { p.proto == PROTO_TCP ==> p.flags.syn }

  function FirstEntry(p: Packet, now: u64): CtEntry {
    if p.proto == PROTO_TCP then
      var ts := TcpFsm(CS_NONE, p.flags, IsReply(p));
      CtEntry(now, 0, 1, p.size, 0, 0, TcpToCt(ts), ts)
    else
      CtEntry(now, 0, 1, p.size, 0, 0, CT_NEW, 0)
  }

  function Advance(e: CtEntry, p: Packet, now: u64): CtEntry {
    var c :=
      if IsReply(p) then
        e.(lastSeenNs := now, packetsRev := (e.packetsRev + 1) % TWO_64, bytesRev := (e.bytesRev + p.size) % TWO_64)
      else
        e.(lastSeenNs := now, packetsFwd := (e.packetsFwd + 1) % TWO_64, bytesFwd := (e.bytesFwd + p.size) % TWO_64);
    if p.proto == PROTO_TCP then
      var ts := TcpFsm(e.tcpState, p.flags, IsReply(p));
      if ts == e.tcpState then c
      else c.(tcpState := ts, state := TcpToCt(ts),
              establishedNs := if ts == CS_ESTABLISHED && e.establishedNs == 0 then now else e.establishedNs)
    else if IsReply(p) && e.state == CT_NEW then c.(state := CT_ESTABLISHED)
    else c
  }

  /** `ct_lookup`: the tracked state of the packet's flow, 0 if untracked. */
  function Lookup(ct: CtTable, p: Packet): u8 {
    var k := BuildKey(p);
    if k in ct then ct[k].state else 0
  }

  /** `ct_update`: the table after an accepted packet. */
  function Update(ct: CtTable, p: Packet, now: u64): CtTable {
    var k := BuildKey(p);
    if k in ct then ct[k := Advance(ct[k], p, now)]
    else if Trackable(p) then ct[k := FirstEntry(p, now)]
    else ct
  }

  // ------------------------------------------- one flow as a packet history

  datatype Arrival = Arrival(p: Packet, now: u64)

  /** Packets of one flow, the first of which created the entry. */
  ghost predicate FlowHistory(h: seq<Arrival>) {
    h != [] && Trackable(h[0].p) && forall i | 0 <= i < |h| :: BuildKey(h[i].p) == BuildKey(h[0].p)
  }

  /** The per-flow automaton: the entry reached by a history. */
  ghost function Fold(h: seq<Arrival>): CtEntry
    requires h != []
  {
    var a := h[|h| - 1];
    if |h| == 1 then FirstEntry(a.p, a.now) else Advance(Fold(h[..|h| - 1]), a.p, a.now)
  }

  ghost function TotalSize(h: seq<Arrival>): nat {
    if h == [] then 0 else TotalSize(h[..|h| - 1]) + h[|h| - 1].p.size
  }

  lemma AddMod(a: int, b: int)
    ensures (a % 0x1_0000_0000_0000_0000 + b) % 0x1_0000_0000_0000_0000 == (a + b) % 0x1_0000_0000_0000_0000
  {
  }

  lemma Congruent(a: int, b: int, d: int)
    requires a % TWO_64 == b % TWO_64
    ensures (a + d) % TWO_64 == (b + d) % TWO_64
  {
    AddMod(a, d);
    AddMod(b, d);
  }

  /** One packet adds one to the packet total and its size to the byte total. */
  lemma AdvanceCounts(e: CtEntry, p: Packet, now: u64)
    ensures var e' := Advance(e, p, now);
            && (e'.packetsFwd + e'.packetsRev) % TWO_64 == (e.packetsFwd + e.packetsRev + 1) % TWO_64
            && (e'.bytesFwd + e'.bytesRev) % TWO_64 == (e.bytesFwd + e.bytesRev + p.size) % TWO_64
  {
    var e' := Advance(e, p, now);
    AdvanceFields(e, p, now);
    OneSide(e.packetsFwd, e.packetsRev, 1, IsReply(p), e'.packetsFwd, e'.packetsRev);
    OneSide(e.bytesFwd, e.bytesRev, p.size, IsReply(p), e'.bytesFwd, e'.bytesRev);
  }

  lemma AdvanceFields(e: CtEntry, p: Packet, now: u64)
    ensures var e' := Advance(e, p, now);
            && e'.packetsFwd == (if IsReply(p) then e.packetsFwd else (e.packetsFwd + 1) % TWO_64)
            && e'.packetsRev == (if IsReply(p) then (e.packetsRev + 1) % TWO_64 else e.packetsRev)
            && e'.bytesFwd == (if IsReply(p) then e.bytesFwd else (e.bytesFwd + p.size) % TWO_64)
            && e'.bytesRev == (if IsReply(p) then (e.bytesRev + p.size) % TWO_64 else e.bytesRev)
  {
  }

  /** Adding to either of two wrapping counters adds to their sum. */
  lemma OneSide(x: u64, y: u64, d: int, second: bool, x': u64, y': u64)
    requires x' == (if second then x else (x + d) % TWO_64) && y' == (if second then (y + d) % TWO_64 else y)
    ensures (x' + y') % TWO_64 == (x + y + d) % TWO_64
  {
    AddMod(x + d, y);
    AddMod(y + d, x);
  }

  predicate SameMod(a: int, b: int) { a % TWO_64 == b % TWO_64 }

  lemma SameModStep(a: int, b: int, c: int, d: int)
    requires SameMod(b, c + d) && SameMod(c, a)
    ensures SameMod(b, a + d)
  {
    Congruent(c, a, d);
  }

  /** The counters of both directions sum to these totals, modulo 2^64. */
  predicate CountsAre(e: CtEntry, packets: int, bytes: int) {
    SameMod(e.packetsFwd + e.packetsRev, packets) && SameMod(e.bytesFwd + e.bytesRev, bytes)
  }

  lemma CountsStep(e: CtEntry, p: Packet, now: u64, packets: int, bytes: int)
    requires CountsAre(e, packets, bytes)
    ensures CountsAre(Advance(e, p, now), packets + 1, bytes + p.size)
  {
    var e' := Advance(e, p, now);
    AdvanceCounts(e, p, now);
    SameModStep(packets, e'.packetsFwd + e'.packetsRev, e.packetsFwd + e.packetsRev, 1);
    SameModStep(bytes, e'.bytesFwd + e'.bytesRev, e.bytesFwd + e.bytesRev, p.size);
  }

  /** Conservation: an entry's counters are the packet and byte totals of its history, modulo 2^64. */
  lemma {:induction false} FoldCounts(h: seq<Arrival>)
    requires h != []
    ensures CountsAre(Fold(h), |h|, TotalSize(h))
  {
    if |h| > 1 {
      var g, a := h[..|h| - 1], h[|h| - 1];
      FoldCounts(g);
      CountsStep(Fold(g), a.p, a.now, |g|, TotalSize(g));
    } else {
      assert TotalSize(h[..0]) == 0;
    }
  }

  lemma HistoryPrefix(h: seq<Arrival>)
    requires FlowHistory(h) && |h| > 1
    ensures FlowHistory(h[..|h| - 1])
  {
  }

  /** The public state of a TCP entry is always the image of its automaton state. */
  lemma {:induction false} TcpStateAgrees(h: seq<Arrival>)
    requires FlowHistory(h) && h[0].p.proto == PROTO_TCP
    ensures Fold(h).state == TcpToCt(Fold(h).tcpState) && Fold(h).tcpState <= CS_CLOSED
  {
    if |h| > 1 {
      HistoryPrefix(h);
      TcpStateAgrees(h[..|h| - 1]);
      assert BuildKey(h[|h| - 1].p) == BuildKey(h[0].p);
    }
  }

  /** A non-TCP flow is ESTABLISHED exactly when some packet after the first came from the higher address. */
  lemma {:induction false} NonTcpEstablishedExactly(h: seq<Arrival>)
    requires FlowHistory(h) && h[0].p.proto != PROTO_TCP
    ensures Fold(h).tcpState == CS_NONE && (Fold(h).state == CT_NEW || Fold(h).state == CT_ESTABLISHED)
    ensures Fold(h).state == CT_ESTABLISHED <==> exists i :: 1 <= i < |h| && IsReply(h[i].p)
  {
    if |h| > 1 {
      var g := h[..|h| - 1];
      HistoryPrefix(h);
      NonTcpEstablishedExactly(g);
      assert BuildKey(h[|h| - 1].p) == BuildKey(h[0].p);
      if Fold(g).state == CT_ESTABLISHED {
        var i :| 1 <= i < |g| && IsReply(g[i].p);
        assert IsReply(h[i].p);
      } else {
        forall i | 1 <= i < |g| ensures !IsReply(h[i].p) {
          assert g[i] == h[i];
        }
      }
    }
  }

  // ----------------------------------------------------- handshake safety

  predicate SynAt(h: seq<Arrival>, i: nat)
    requires i < |h|
  {
    h[i].p.flags.syn && !h[i].p.flags.ack
  }

  predicate SynAckAt(h: seq<Arrival>, j: nat)
    requires j < |h|
  {
    h[j].p.flags.syn && h[j].p.flags.ack && IsReply(h[j].p)
  }

  predicate AckAt(h: seq<Arrival>, k: nat)
    requires k < |h|
  {
    h[k].p.flags.ack && !h[k].p.flags.syn && !IsReply(h[k].p)
  }

  ghost predicate NoRstFrom(h: seq<Arrival>, i: nat) {
    forall m | i <= m < |h| :: !h[m].p.flags.rst
  }

  ghost predicate SynSeen(h: seq<Arrival>) {
    exists i: nat | i < |h| :: SynAt(h, i) && NoRstFrom(h, i)
  }

  ghost predicate SynAckSeen(h: seq<Arrival>) {
    exists i: nat, j: nat | i < j < |h| :: SynAt(h, i) && NoRstFrom(h, i) && SynAckAt(h, j)
  }

  /** In order, with no RST from the first on: SYN, SYN+ACK from the higher side, ACK from the lower side. */
  ghost predicate HandshakeSeen(h: seq<Arrival>) {
    exists i: nat, j: nat, k: nat | i < j < k < |h| ::
      SynAt(h, i) && NoRstFrom(h, i) && SynAckAt(h, j) && AckAt(h, k)
  }

  /** Handshake safety: an open TCP entry has a complete handshake in its history. */
  lemma {:induction false} HandshakeSafety(h: seq<Arrival>)
    requires FlowHistory(h) && h[0].p.proto == PROTO_TCP
    ensures Fold(h).tcpState == CS_SYN_SENT ==> SynSeen(h)
    ensures Fold(h).tcpState == CS_SYN_RCVD ==> SynAckSeen(h)
    ensures CS_ESTABLISHED <= Fold(h).tcpState <= CS_LAST_ACK ==> HandshakeSeen(h)
  {
    var n := |h| - 1;
    var a := h[n];
    if n == 0 {
      if Fold(h).tcpState == CS_SYN_SENT { assert SynAt(h, 0); }
    } else {
      var g := h[..n];
      HistoryPrefix(h);
      HandshakeSafety(g);
      assert BuildKey(a.p) == BuildKey(h[0].p);
      var cur, ts := Fold(g).tcpState, Fold(h).tcpState;
      if !a.p.flags.rst {
        if ts == CS_SYN_SENT && cur != CS_SYN_SENT {
          assert SynAt(h, n);
        } else if ts == CS_SYN_SENT {
          var i: nat :| i < |g| && SynAt(g, i) && NoRstFrom(g, i);
          RstFreeExtends(h, i);
          assert SynAt(h, i);
        } else if ts == CS_SYN_RCVD {
          SynAckStep(h);
        } else if CS_ESTABLISHED <= ts <= CS_LAST_ACK {
          AckStep(h);
        }
      }
    }
  }

  lemma RstFreeExtends(h: seq<Arrival>, i: nat)
    requires |h| > 0 && i < |h| - 1 && NoRstFrom(h[..|h| - 1], i) && !h[|h| - 1].p.flags.rst
    ensures NoRstFrom(h, i)
  {
    var g := h[..|h| - 1];
    forall m | i <= m < |h| ensures !h[m].p.flags.rst {
      if m < |g| { assert g[m] == h[m]; }
    }
  }

  lemma SynAckStep(h: seq<Arrival>)
    requires |h| > 1 && !h[|h| - 1].p.flags.rst
    requires SynAckSeen(h[..|h| - 1]) || (SynSeen(h[..|h| - 1]) && SynAckAt(h, |h| - 1))
    ensures SynAckSeen(h)
  {
    var g, n := h[..|h| - 1], |h| - 1;
    if SynAckSeen(g) {
      var i: nat, j: nat :| i < j < |g| && SynAt(g, i) && NoRstFrom(g, i) && SynAckAt(g, j);
      RstFreeExtends(h, i);
      assert SynAt(h, i) && SynAckAt(h, j);
    } else {
      var i: nat :| i < |g| && SynAt(g, i) && NoRstFrom(g, i);
      RstFreeExtends(h, i);
      assert SynAt(h, i) && SynAckAt(h, n);
    }
  }

  lemma AckStep(h: seq<Arrival>)
    requires |h| > 1 && !h[|h| - 1].p.flags.rst
    requires HandshakeSeen(h[..|h| - 1]) || (SynAckSeen(h[..|h| - 1]) && AckAt(h, |h| - 1))
    ensures HandshakeSeen(h)
  {
    var g, n := h[..|h| - 1], |h| - 1;
    if HandshakeSeen(g) {
      var i: nat, j: nat, k: nat :| i < j < k < |g| && SynAt(g, i) && NoRstFrom(g, i) && SynAckAt(g, j) && AckAt(g, k);
      RstFreeExtends(h, i);
      assert SynAt(h, i) && SynAckAt(h, j) && AckAt(h, k);
    } else {
      var i: nat, j: nat :| i < j < |g| && SynAt(g, i) && NoRstFrom(g, i) && SynAckAt(g, j);
      RstFreeExtends(h, i);
      assert SynAt(h, i) && SynAckAt(h, j) && AckAt(h, n);
    }
  }

  /** The three segments of section 3.5 of RFC 9293, with one side opening and the other answering. */
  ghost predicate ThreeWayHandshake(h: seq<Arrival>) {
    && |h| == 3 && FlowHistory(h) && h[0].p.proto == PROTO_TCP && NoRstFrom(h, 0)
    && h[0].p.flags.syn && !h[0].p.flags.ack
    && h[1].p.flags.syn && h[1].p.flags.ack
    && h[2].p.flags.ack && !h[2].p.flags.syn
    && IsReply(h[1].p) != IsReply(h[0].p) && IsReply(h[2].p) == IsReply(h[0].p)
  }

  /**
   The tracker's direction is address order, not who opened the connection: a
   regular handshake is recognised exactly when the lower address opened it.
   */
  lemma HandshakeRecognisedExactly(h: seq<Arrival>)
    requires ThreeWayHandshake(h)
    ensures Fold(h).state == CT_ESTABLISHED <==> !IsReply(h[0].p)
  {
    assert BuildKey(h[1].p) == BuildKey(h[0].p) && BuildKey(h[2].p) == BuildKey(h[0].p);
    assert h[..2][..1] == h[..1];
    assert Fold(h[..1]) == FirstEntry(h[0].p, h[0].now);
    assert Fold(h[..2]) == Advance(Fold(h[..1]), h[1].p, h[1].now);
    assert Fold(h) == Advance(Fold(h[..2]), h[2].p, h[2].now);
  }

  /** A flow whose higher-address side never answers with SYN+ACK stays out of ESTABLISHED for ever. */
  lemma HigherInitiatorNeverEstablished(h: seq<Arrival>)
    requires FlowHistory(h) && h[0].p.proto == PROTO_TCP
    requires forall i: nat | i < |h| :: !SynAckAt(h, i)
    ensures Fold(h).state != CT_ESTABLISHED
  {
    TcpStateAgrees(h);
    HandshakeSafety(h);
  }

  /** A TCP segment between two addresses. */
  function Segment(src: Ip4, dst: Ip4, sport: u16, dport: u16, syn: bool, ack: bool): Packet {
    Packet(EncodeIp4(src), EncodeIp4(dst), sport, dport, 60, TcpFlags(false, syn, false, false, ack, false), 0, 0,
           PROTO_TCP, DIR_EGRESS, false)
  }

  const CLIENT := Ip4(10, 0, 0, 2)
  const SERVER := Ip4(192, 168, 0, 1)

  /** The handshake that 10.0.0.2 opens with 192.168.0.1. */
  function Opening(sport: u16, dport: u16): seq<Arrival> {
    [Arrival(Segment(CLIENT, SERVER, sport, dport, true, false), 1),
     Arrival(Segment(SERVER, CLIENT, dport, sport, true, true), 2),
     Arrival(Segment(CLIENT, SERVER, sport, dport, false, true), 3)]
  }

  /** It is a regular handshake and is not recognised: the client's last byte is the higher one. */
  lemma OpeningNotRecognised(sport: u16, dport: u16)
    ensures ThreeWayHandshake(Opening(sport, dport)) && Fold(Opening(sport, dport)).state != CT_ESTABLISHED
  {
    var h := Opening(sport, dport);
    WordOrderExactly(SERVER, CLIENT);
    assert IsReply(h[0].p) && !IsReply(h[1].p) && IsReply(h[2].p);
    assert BuildKey(h[1].p) == BuildKey(h[0].p) == BuildKey(h[2].p);
    HandshakeRecognisedExactly(h);
  }
}
