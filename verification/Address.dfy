/**
 IPv4 addresses as the agent and the BPF program see them.

 User space works on the four bytes of an address in network order; the BPF
 program works on the 32-bit word obtained by loading those bytes on a
 little-endian machine.  Bits are listed from the most significant bit of the
 first byte, as in section 3.1 of RFC 4632.
 */
module Address {
  import opened Types

  // ---------------------------------------------------------------- bits

  /** The `k` low bits of `x`, most significant first. */
  function ToBits(x: nat, k: nat): (s: seq<bool>)
    ensures |s| == k
  {
    if k == 0 then [] else ToBits(x / 2, k - 1) + [x % 2 == 1]
  }

  function FromBits(s: seq<bool>): nat {
    if s == [] then 0 else 2 * FromBits(s[..|s| - 1]) + (if s[|s| - 1] then 1 else 0)
  }

  lemma {:induction false} BitsOfFromBits(s: seq<bool>)
    ensures ToBits(FromBits(s), |s|) == s
  {
    if s != [] {
      var h := s[..|s| - 1];
      BitsOfFromBits(h);
      assert FromBits(s) / 2 == FromBits(h);
      assert s == h + [s[|s| - 1]];
    }
  }

  function Pow2(k: nat): nat { if k == 0 then 1 else 2 * Pow2(k - 1) }

  lemma {:induction false} FromBitsBound(s: seq<bool>)
    ensures FromBits(s) < Pow2(|s|)
  {
    if s != [] { FromBitsBound(s[..|s| - 1]); }
  }

  lemma {:induction false} FromBitsOfBits(x: nat, k: nat)
    requires x < Pow2(k)
    ensures FromBits(ToBits(x, k)) == x
  {
    if k > 0 {
      FromBitsOfBits(x / 2, k - 1);
      var s := ToBits(x, k);
      assert s[..|s| - 1] == ToBits(x / 2, k - 1);
    }
  }

  function ByteBits(b: u8): (s: seq<bool>)
    ensures |s| == 8
  {
    ToBits(b, 8)
  }

  lemma Pow2Byte()
    ensures Pow2(8) == 256
  {
    assert Pow2(4) == 16;
  }

  lemma ByteBitsInjective(x: u8, y: u8)
    ensures ByteBits(x) == ByteBits(y) <==> x == y
  {
    Pow2Byte();
    FromBitsOfBits(x, 8);
    FromBitsOfBits(y, 8);
  }

  function BitsAnd(s: seq<bool>, t: seq<bool>): (r: seq<bool>)
    requires |s| == |t|
    ensures |r| == |s|
  {
    seq(|s|, i requires 0 <= i < |s| => s[i] && t[i])
  }

  function ByteOf(s: seq<bool>): u8
    requires |s| == 8
  {
    Pow2Byte();
    FromBitsBound(s);
    FromBits(s)
  }

  /** Bitwise AND of two bytes. */
  function AndByte(x: u8, m: u8): u8 { ByteOf(BitsAnd(ByteBits(x), ByteBits(m))) }

  // ----------------------------------------------------------- addresses

  datatype Ip4 = Ip4(b0: u8, b1: u8, b2: u8, b3: u8) {

    /** The 32 bits of the address in network order. */
    function Bits(): (s: seq<bool>)
      ensures |s| == 32
    {
      ByteBits(b0) + ByteBits(b1) + ByteBits(b2) + ByteBits(b3)
    }

    function And(m: Ip4): Ip4 {
      Ip4(AndByte(b0, m.b0), AndByte(b1, m.b1), AndByte(b2, m.b2), AndByte(b3, m.b3))
    }
  }

  /** `binary.LittleEndian.Uint32` of the four network-order bytes. */
  function EncodeIp4(ip: Ip4): u32 {
    ip.b0 + 0x100 * (ip.b1 + 0x100 * (ip.b2 + 0x100 * ip.b3))
  }

  /** `binary.LittleEndian.PutUint32`. */
  function DecodeIp4(w: u32): Ip4 {
    var w1 := w / 0x100;
    var w2 := w1 / 0x100;
    Ip4(w % 0x100, w1 % 0x100, w2 % 0x100, w2 / 0x100)
  }

  lemma LowByte(b: u8, rest: nat)
    ensures (b + 0x100 * rest) % 0x100 == b && (b + 0x100 * rest) / 0x100 == rest
  {
  }

  lemma DecodeEncode(ip: Ip4)
    ensures DecodeIp4(EncodeIp4(ip)) == ip
  {
    LowByte(ip.b2, ip.b3);
    LowByte(ip.b1, ip.b2 + 0x100 * ip.b3);
    LowByte(ip.b0, ip.b1 + 0x100 * (ip.b2 + 0x100 * ip.b3));
  }

  lemma EncodeDecode(w: u32)
    ensures EncodeIp4(DecodeIp4(w)) == w
  {
  }

  /** Bitwise AND of two 32-bit words, byte lane by byte lane. */
  /** Order of words is order of addresses read from their last byte to their first. */
  predicate LastByteFirst(a: Ip4, b: Ip4) {
    || a.b3 < b.b3
    || (a.b3 == b.b3 && (a.b2 < b.b2 || (a.b2 == b.b2 && (a.b1 < b.b1 || (a.b1 == b.b1 && a.b0 < b.b0)))))
  }

  lemma WordOrderExactly(a: Ip4, b: Ip4)
    ensures EncodeIp4(a) < EncodeIp4(b) <==> LastByteFirst(a, b)
  {
  }

  function AndWord(x: u32, y: u32): u32 { EncodeIp4(DecodeIp4(x).And(DecodeIp4(y))) }

  /** `net.IP.To4`: a 4-byte address, or a 16-byte IPv4-mapped one. */
  function To4(ip: seq<u8>): Option<Ip4> {
    if |ip| == 4 then Some(Ip4(ip[0], ip[1], ip[2], ip[3]))
    else if |ip| == 16 && (forall i | 0 <= i < 10 :: ip[i] == 0) && ip[10] == 0xff && ip[11] == 0xff then
      Some(Ip4(ip[12], ip[13], ip[14], ip[15]))
    else None
  }

  function ToSlice(ip: Ip4): seq<u8> { [ip.b0, ip.b1, ip.b2, ip.b3] }

  // --------------------------------------------------------------- masks

  /** One byte of `net.CIDRMask` when `n` mask bits are still to be placed: its first `n` bits are set. */
  function MaskByte(n: int): u8 { ByteOf(seq(8, i => i < n)) }

  function NetMask(ones: int): Ip4 {
    Ip4(MaskByte(ones), MaskByte(ones - 8), MaskByte(ones - 16), MaskByte(ones - 24))
  }

  /** The first `n` bits of `a` and `b`, in network order, are equal. */
  predicate PrefixAgree(a: Ip4, b: Ip4, n: nat)
    requires n <= 32
  {
    a.Bits()[..n] == b.Bits()[..n]
  }

  /** Number of the first `n` bits that fall into an eight-bit group. */
  function Clamp(n: int): nat { if n < 0 then 0 else if n > 8 then 8 else n }

  lemma MaskByteBits(n: int)
    ensures forall i | 0 <= i < 8 :: ByteBits(MaskByte(n))[i] == (i < n)
  {
    BitsOfFromBits(seq(8, i => i < n));
  }

  lemma AndByteBits(x: u8, m: u8)
    ensures ByteBits(AndByte(x, m)) == BitsAnd(ByteBits(x), ByteBits(m))
  {
    BitsOfFromBits(BitsAnd(ByteBits(x), ByteBits(m)));
  }

  lemma MaskByteCompare(x: u8, y: u8, n: int)
    ensures AndByte(x, MaskByte(n)) == AndByte(y, MaskByte(n))
       <==> ByteBits(x)[..Clamp(n)] == ByteBits(y)[..Clamp(n)]
  {
    var m := MaskByte(n);
    AndByteBits(x, m);
    AndByteBits(y, m);
    ByteBitsInjective(AndByte(x, m), AndByte(y, m));
    MaskByteBits(n);
    AndKeepsPrefix(ByteBits(x), ByteBits(y), ByteBits(m), Clamp(n));
  }

  lemma AndKeepsPrefix(s: seq<bool>, t: seq<bool>, m: seq<bool>, n: nat)
    requires n <= |s| == |t| == |m|
    requires forall i | 0 <= i < |m| :: m[i] == (i < n)
    ensures BitsAnd(s, m) == BitsAnd(t, m) <==> s[..n] == t[..n]
  {
    if BitsAnd(s, m) == BitsAnd(t, m) {
      forall i | 0 <= i < n ensures s[i] == t[i] {
        assert BitsAnd(s, m)[i] == BitsAnd(t, m)[i];
      }
    }
    if s[..n] == t[..n] {
      forall i | 0 <= i < |s| ensures BitsAnd(s, m)[i] == BitsAnd(t, m)[i] {
        if i < n { assert s[..n][i] == t[..n][i]; }
      }
    }
  }

  lemma TakeAcross(p: seq<bool>, q: seq<bool>, p': seq<bool>, q': seq<bool>, n: nat)
    requires |p| == |p'| && |q| == |q'| && n <= |p| + |q|
    ensures (p + q)[..n] == (p' + q')[..n] <==>
            && p[..if n < |p| then n else |p|] == p'[..if n < |p| then n else |p|]
            && q[..if n < |p| then 0 else n - |p|] == q'[..if n < |p| then 0 else n - |p|]
  {
    if n <= |p| {
      assert (p + q)[..n] == p[..n] && (p' + q')[..n] == p'[..n];
    } else {
      assert (p + q)[..n] == p + q[..n - |p|] && (p' + q')[..n] == p' + q'[..n - |p|];
      assert p[..|p|] == p && p'[..|p|] == p';
      assert p == (p + q[..n - |p|])[..|p|] && p' == (p' + q'[..n - |p|])[..|p|];
      assert q[..n - |p|] == (p + q[..n - |p|])[|p|..] && q'[..n - |p|] == (p' + q'[..n - |p|])[|p|..];
    }
  }

  lemma FourGroups(p: seq<bool>, q: seq<bool>, r: seq<bool>, s: seq<bool>,
                   p': seq<bool>, q': seq<bool>, r': seq<bool>, s': seq<bool>, n: nat)
    requires |p| == |q| == |r| == |s| == |p'| == |q'| == |r'| == |s'| == 8 && n <= 32
    ensures (p + q + r + s)[..n] == (p' + q' + r' + s')[..n] <==>
            && p[..Clamp(n)] == p'[..Clamp(n)] && q[..Clamp(n - 8)] == q'[..Clamp(n - 8)]
            && r[..Clamp(n - 16)] == r'[..Clamp(n - 16)] && s[..Clamp(n - 24)] == s'[..Clamp(n - 24)]
  {
    TakeAcross(p + q + r, s, p' + q' + r', s', n);
    TakeAcross(p + q, r, p' + q', r', if n < 24 then n else 24);
    TakeAcross(p, q, p', q', if n < 16 then n else 16);
  }

  /**
   The datapath's masked compare of two little-endian words decides exactly
   whether the first `ones` network-order bits agree.
   */
  lemma MaskedCompareIsPrefix(a: Ip4, b: Ip4, ones: nat)
    requires ones <= 32
    ensures AndWord(EncodeIp4(a), EncodeIp4(NetMask(ones))) == AndWord(EncodeIp4(b), EncodeIp4(NetMask(ones)))
       <==> PrefixAgree(a, b, ones)
  {
    var m := NetMask(ones);
    DecodeEncode(a);
    DecodeEncode(b);
    DecodeEncode(m);
    DecodeEncode(a.And(m));
    DecodeEncode(b.And(m));
    MaskByteCompare(a.b0, b.b0, ones);
    MaskByteCompare(a.b1, b.b1, ones - 8);
    MaskByteCompare(a.b2, b.b2, ones - 16);
    MaskByteCompare(a.b3, b.b3, ones - 24);
    FourGroups(ByteBits(a.b0), ByteBits(a.b1), ByteBits(a.b2), ByteBits(a.b3),
               ByteBits(b.b0), ByteBits(b.b1), ByteBits(b.b2), ByteBits(b.b3), ones);
  }

  lemma AndByteTwice(x: u8, m: u8)
    ensures AndByte(AndByte(x, m), m) == AndByte(x, m)
  {
    AndByteBits(x, m);
    AndByteBits(AndByte(x, m), m);
    ByteBitsInjective(AndByte(AndByte(x, m), m), AndByte(x, m));
  }

  /** Clearing the host bits of a prefix, as `net.ParseCIDR` does, changes no membership. */
  lemma MaskingKeepsPrefix(a: Ip4, b: Ip4, ones: nat)
    requires ones <= 32
    ensures PrefixAgree(a.And(NetMask(ones)), b, ones) <==> PrefixAgree(a, b, ones)
  {
    var m := NetMask(ones);
    MaskedCompareIsPrefix(a, b, ones);
    MaskedCompareIsPrefix(a.And(m), b, ones);
    DecodeEncode(a);
    DecodeEncode(m);
    DecodeEncode(a.And(m));
    AndByteTwice(a.b0, m.b0);
    AndByteTwice(a.b1, m.b1);
    AndByteTwice(a.b2, m.b2);
    AndByteTwice(a.b3, m.b3);
  }
}
