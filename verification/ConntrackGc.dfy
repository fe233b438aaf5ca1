/**
 User space's view of the conntrack table: decoding and re-canonicalising
 keys, lookup by either direction, and the garbage-collection sweep.
 */
module ConntrackGc {
  import opened Types
  import opened Packets
  import opened Address
  import opened Conntrack
  import opened Datapath

  /** A 5-tuple with addresses as byte slices. */
  datatype FlowKey = FlowKey(srcIp: seq<u8>, dstIp: seq<u8>, srcPort: u16, dstPort: u16, proto: u8)

  datatype FlowEntry = FlowEntry(key: FlowKey, entry: CtEntry)

  /** `encodeIP4`: 0 for anything that is not IPv4. */
  function EncodeNetIp(ip: seq<u8>): u32 { if To4(ip).Some? then EncodeIp4(To4(ip).value) else 0 }

  function DecodeNetIp(w: u32): seq<u8> { ToSlice(DecodeIp4(w)) }

  /** `canonicalCtKey`. */
  function CanonicalCtKey(k: FlowKey): CtKey {
    var s, d := EncodeNetIp(k.srcIp), EncodeNetIp(k.dstIp);
    if s <= d then CtKey(s, d, k.srcPort, k.dstPort, k.proto) else CtKey(d, s, k.dstPort, k.srcPort, k.proto)
  }

  /** `fromCtKV`. */
  function FromCtKV(k: CtKey, e: CtEntry): FlowEntry {
    FlowEntry(FlowKey(DecodeNetIp(k.srcIp), DecodeNetIp(k.dstIp), k.srcPort, k.dstPort, k.proto), e)
  }

  lemma NetIpRoundTrip(w: u32)
    ensures EncodeNetIp(DecodeNetIp(w)) == w
  {
    EncodeDecode(w);
  }

  /** Decoding and re-canonicalising a table key gives it back exactly when it is canonical. */
  lemma RecanonicaliseExactly(k: CtKey, e: CtEntry)
    ensures CanonicalCtKey(FromCtKV(k, e).key) == k <==> Canonical(k)
  {
    NetIpRoundTrip(k.srcIp);
    NetIpRoundTrip(k.dstIp);
  }

  /** User space and the BPF program build the same key for a packet's 5-tuple. */
  lemma SameKeyAsDatapath(p: Packet)
    ensures CanonicalCtKey(FlowKey(DecodeNetIp(p.srcIp), DecodeNetIp(p.dstIp), p.srcPort, p.dstPort, p.proto)) == BuildKey(p)
  {
    NetIpRoundTrip(p.srcIp);
    NetIpRoundTrip(p.dstIp);
  }

  datatype Timeouts = Timeouts(nowNs: u64, udp: u64, icmp: u64)

  /** Entries a sweep deletes: idle UDP, ICMP and closed TCP, with the code's wrapping 64-bit age. */
  predicate Collectable(proto: u8, e: CtEntry, t: Timeouts) {
    var age := (t.nowNs - e.lastSeenNs) % TWO_64;
    || (proto == PROTO_UDP && age > t.udp)
    || (proto == PROTO_ICMP && age > t.icmp)
    || (proto == PROTO_TCP && e.tcpState == CS_CLOSED && age > t.udp)
  }

  /** The test at the head of the sweep loop. */
  method Examine(e: FlowEntry, t: Timeouts) returns (expired: bool)
    ensures expired == Collectable(e.key.proto, e.entry, t)
  {
    var timeout := 0;
    if e.key.proto == PROTO_UDP {
      timeout := t.udp;
    } else if e.key.proto == PROTO_ICMP {
      timeout := t.icmp;
    } else if e.key.proto == PROTO_TCP {
      if e.entry.tcpState != CS_CLOSED { return false; }
      timeout := t.udp;
    } else {
      return false;
    }
    return (t.nowNs - e.entry.lastSeenNs) % TWO_64 > timeout;
  }

  datatype Fate = Kept | Deleted | Refused

  /** One turn of the sweep loop: the decoded key, re-canonicalised, names the examined entry. */
  method SweepOne(maps: BpfMaps, k: CtKey, e: CtEntry, t: Timeouts) returns (fate: Fate)
    requires Canonical(k)
    modifies maps`conntrack
    ensures fate.Kept? <==> !Collectable(k.proto, e, t)
    ensures maps.conntrack == if fate.Deleted? then old(maps.conntrack) - {k} else old(maps.conntrack)
  {
    var decoded := FromCtKV(k, e);
    var expired := Examine(decoded, t);
    if !expired { return Kept; }
    var bk := CanonicalCtKey(decoded.key);
    RecanonicaliseExactly(k, e);
    var fail: bool := *;
    if fail { return Refused; }
    maps.conntrack := maps.conntrack - {bk};
    return Deleted;
  }

  ghost predicate Collected(dump: CtTable, examined: set<CtKey>, refused: set<CtKey>, gone: set<CtKey>, t: Timeouts) {
    && gone <= examined <= dump.Keys
    && forall k | k in examined :: k in gone <==> Collectable(k.proto, dump[k], t) && k !in refused
  }

  /**
   `sweepConntrack`.  The sweep deletes exactly the collectable entries, less
   the deletions the kernel refused, and changes no other.
   */
  method Sweep(maps: BpfMaps, t: Timeouts) returns (deleted: nat, refused: set<CtKey>, ghost gone: set<CtKey>)
    requires forall k | k in maps.conntrack :: Canonical(k)
    modifies maps`conntrack
    ensures Collected(old(maps.conntrack), old(maps.conntrack).Keys, refused, gone, t)
    ensures maps.conntrack == old(maps.conntrack) - gone && deleted == |gone|
  {
    var dump := maps.conntrack;
    var todo := dump.Keys;
    deleted, refused, gone := 0, {}, {};
    while todo != {}
      invariant todo <= dump.Keys && refused <= dump.Keys - todo
      invariant Collected(dump, dump.Keys - todo, refused, gone, t)
      invariant maps.conntrack == dump - gone && deleted == |gone|
      decreases |todo|
    {
      var k :| k in todo;
      todo := todo - {k};
      var fate := SweepOne(maps, k, dump[k], t);
      match fate {
        case Kept =>
        case Refused => refused := refused + {k};
        case Deleted => gone, deleted := gone + {k}, deleted + 1;
      }
    }
    assert dump.Keys - todo == dump.Keys;
  }

  /** A lookup finds the same key from either end of a flow exactly when the addresses differ or the ports agree. */
  lemma LookupEitherEnd(a: u32, b: u32, x: u16, y: u16, proto: u8)
    ensures CanonicalCtKey(FlowKey(DecodeNetIp(a), DecodeNetIp(b), x, y, proto))
         == CanonicalCtKey(FlowKey(DecodeNetIp(b), DecodeNetIp(a), y, x, proto))
       <==> a != b || x == y
  {
    NetIpRoundTrip(a);
    NetIpRoundTrip(b);
  }
}
