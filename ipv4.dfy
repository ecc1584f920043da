/** IPv4 addresses as Go's net package holds them, and the uint32 view the allocator computes with. */
module Ipv4 {
  import opened Wrappers
  import opened Words

  type Byte = x: nat | x < 0x100

  /** A net.IP: 4 bytes, or 16 bytes holding an IPv4 address behind the IPv4-in-IPv6 prefix. */
  type IP = seq<Byte>

  const V4InV6Prefix: seq<Byte> := [0, 0, 0, 0, 0, 0, 0, 0, 0, 0, 0xFF, 0xFF]

  /** net.IPv4(a, b, c, d), which builds the 16-byte form. */
  function IPv4(a: Byte, b: Byte, c: Byte, d: Byte): IP
  {
    V4InV6Prefix + [a, b, c, d]
  }

  /** ip.To4(): the 4-byte form of an IPv4 address, None (Go's nil) for anything else. */
  function To4(ip: IP): (r: Option<seq<Byte>>)
    ensures r.Some? ==> |ip| >= 4 && r.value == ip[|ip| - 4..]
    ensures r.Some? <==> |ip| == 4 || (|ip| == 16 && ip[..12] == V4InV6Prefix)
  {
    if |ip| == 4 then Some(ip)
    else if |ip| == 16 && ip[..12] == V4InV6Prefix then Some(ip[12..])
    else None
  }

  /**
   * IPToUint32: binary.BigEndian.Uint32 of ip.To4(). The four bytes are shifted
   * into disjoint byte lanes, so or-ing them is the base-256 sum written here.
   * Go panics on a nil To4, so callers must pass an IPv4 address.
   */
  function IPToUint32(ip: IP): Word
    requires To4(ip).Some?
  {
    var b := To4(ip).value;
    var b0: nat, b1: nat, b2: nat, b3: nat := b[0], b[1], b[2], b[3];
    b0 * 0x100_0000 + b1 * 0x1_0000 + b2 * 0x100 + b3
  }

  /** Uint32ToIP: binary.BigEndian.PutUint32 into four bytes, then net.IPv4 of them. */
  function Uint32ToIP(u: Word): IP
  {
    IPv4(u / 0x100_0000, u / 0x1_0000 % 0x100, u / 0x100 % 0x100, u % 0x100)
  }

  lemma Uint32RoundTrip(u: Word)
    ensures To4(Uint32ToIP(u)).Some?
    ensures IPToUint32(Uint32ToIP(u)) == u
  {
    var ip := Uint32ToIP(u);
    assert ip[..12] == V4InV6Prefix;
    assert ip[12..] == [u / 0x100_0000, u / 0x1_0000 % 0x100, u / 0x100 % 0x100, u % 0x100];
    Recompose(u);
  }

  /** The base-256 digits of b0 b1 b2 b3 are b0, b1, b2 and b3. */
  lemma Digits(b0: Byte, b1: Byte, b2: Byte, b3: Byte)
    ensures var u := b0 * 0x100_0000 + b1 * 0x1_0000 + b2 * 0x100 + b3;
      u / 0x100_0000 == b0 && u / 0x1_0000 % 0x100 == b1 && u / 0x100 % 0x100 == b2 && u % 0x100 == b3
  {
    var u := b0 * 0x100_0000 + b1 * 0x1_0000 + b2 * 0x100 + b3;
    DivMod(b0, b1 * 0x1_0000 + b2 * 0x100 + b3, 0x100_0000);
    DivMod(b0 * 0x100 + b1, b2 * 0x100 + b3, 0x1_0000);
    DivMod(b0, b1, 0x100);
    DivMod(b0 * 0x1_0000 + b1 * 0x100 + b2, b3, 0x100);
    DivMod(b0 * 0x100 + b1, b2, 0x100);
  }

  /** Quotient and remainder of q * m + r by m, for r < m. */
  lemma DivMod(q: nat, r: nat, m: nat)
    requires r < m
    ensures (q * m + r) / m == q && (q * m + r) % m == r
  {
    var a := q * m + r;
    var d, e := a / m, a % m;
    assert (d - q) * m == r - e;
    MulAway(d - q, m);
  }

  /** A nonzero multiple of m is at least m away from zero. */
  lemma MulAway(x: int, m: int)
    requires m >= 0
    ensures x >= 1 ==> x * m >= m
    ensures x <= -1 ==> x * m <= -m
  {
  }

  /** A word is the base-256 sum of the four bytes Uint32ToIP takes from it. */
  lemma Recompose(u: Word)
    ensures u == u / 0x100_0000 * 0x100_0000 + u / 0x1_0000 % 0x100 * 0x1_0000 + u / 0x100 % 0x100 * 0x100 + u % 0x100
  {
    var q1, q2 := u / 0x100, u / 0x1_0000;
    assert u == q1 * 0x100 + u % 0x100;
    assert q1 / 0x100 == q2;
    assert q1 == q2 * 0x100 + q1 % 0x100;
    assert q2 / 0x100 == u / 0x100_0000;
    assert q2 == q2 / 0x100 * 0x100 + q2 % 0x100;
  }

  /** Converting an IPv4 address to uint32 and back yields its 16-byte form, which has the same 4 bytes. */
  lemma IPRoundTrip(ip: IP)
    requires To4(ip).Some?
    ensures Uint32ToIP(IPToUint32(ip)) == V4InV6Prefix + To4(ip).value
    ensures To4(Uint32ToIP(IPToUint32(ip))) == To4(ip)
  {
    var b := To4(ip).value;
    Digits(b[0], b[1], b[2], b[3]);
    assert b == [b[0], b[1], b[2], b[3]];
    assert Uint32ToIP(IPToUint32(ip))[..12] == V4InV6Prefix;
  }

  /** Distinct uint32 values give distinct addresses. */
  lemma Uint32ToIPInjective(u: Word, v: Word)
    requires Uint32ToIP(u) == Uint32ToIP(v)
    ensures u == v
  {
    Uint32RoundTrip(u);
    Uint32RoundTrip(v);
  }

  type PrefixLen = x: nat | x <= 32

  /**
   * A parsed CIDR block: the address as a uint32 and the prefix length. This is also
   * the allocator's map key, standing for IPNet.String(), which prints exactly these two.
   */
  datatype IPNet = IPNet(ip: Word, prefix: PrefixLen)

  /** net.CIDRMask(prefix, 32) as a uint32: the top `prefix` bits set. */
  function Mask(prefix: PrefixLen): Word
  {
    Shl(0xFFFF_FFFF, 32 - prefix)
  }

  /** IPNet.Contains: ip agrees with the network address under the mask. */
  predicate Contains(n: IPNet, ip: Word)
  {
    And(ip, Mask(n.prefix)) == And(n.ip, Mask(n.prefix))
  }

  /** A network as net.ParseCIDR returns it: its address is masked to the prefix. */
  predicate Aligned(n: IPNet)
  {
    And(n.ip, Mask(n.prefix)) == n.ip
  }

  lemma BitMask(p: PrefixLen, i: nat)
    ensures Bit(Mask(p), i) == (32 - p <= i < 32)
  {
    BitShl(0xFFFF_FFFF, 32 - p, i);
    if 32 - p <= i {
      BitAllOnes(i - (32 - p));
    }
  }

  /** x and y agree on every bit from position k up to 31. */
  predicate AgreeFrom(x: Word, y: Word, k: nat)
  {
    forall i: nat :: k <= i < 32 ==> Bit(x, i) == Bit(y, i)
  }

  /** Every bit of x below position k is clear. */
  predicate ClearBelow(x: Word, k: nat)
  {
    forall i: nat :: i < k ==> !Bit(x, i)
  }

  lemma BitMasked(x: Word, p: PrefixLen, i: nat)
    ensures Bit(And(x, Mask(p)), i) == (Bit(x, i) && 32 - p <= i < 32)
  {
    BitAnd(x, Mask(p), i);
    BitMask(p, i);
  }

  lemma ContainsToBits(n: IPNet, ip: Word)
    requires Contains(n, ip)
    ensures AgreeFrom(ip, n.ip, 32 - n.prefix)
  {
    forall i: nat | 32 - n.prefix <= i < 32
      ensures Bit(ip, i) == Bit(n.ip, i)
    {
      BitMasked(ip, n.prefix, i);
      BitMasked(n.ip, n.prefix, i);
    }
  }

  lemma BitsToContains(n: IPNet, ip: Word)
    requires AgreeFrom(ip, n.ip, 32 - n.prefix)
    ensures Contains(n, ip)
  {
    forall i: nat | i < 32
      ensures Bit(And(ip, Mask(n.prefix)), i) == Bit(And(n.ip, Mask(n.prefix)), i)
    {
      BitMasked(ip, n.prefix, i);
      BitMasked(n.ip, n.prefix, i);
    }
    Ext(And(ip, Mask(n.prefix)), And(n.ip, Mask(n.prefix)));
  }

  /** Contains holds exactly when ip agrees with the network address on the top `prefix` bits. */
  lemma ContainsBits(n: IPNet, ip: Word)
    ensures Contains(n, ip) <==> AgreeFrom(ip, n.ip, 32 - n.prefix)
  {
    if Contains(n, ip) {
      ContainsToBits(n, ip);
    }
    if AgreeFrom(ip, n.ip, 32 - n.prefix) {
      BitsToContains(n, ip);
    }
  }

  /** A network is aligned exactly when every bit below its prefix is clear. */
  lemma AlignedBits(n: IPNet)
    ensures Aligned(n) <==> ClearBelow(n.ip, 32 - n.prefix)
  {
    var k := 32 - n.prefix;
    if Aligned(n) {
      forall i: nat | i < k
        ensures !Bit(n.ip, i)
      {
        BitMasked(n.ip, n.prefix, i);
      }
    }
    if ClearBelow(n.ip, k) {
      forall i: nat | i < 32
        ensures Bit(And(n.ip, Mask(n.prefix)), i) == Bit(n.ip, i)
      {
        BitMasked(n.ip, n.prefix, i);
      }
      Ext(And(n.ip, Mask(n.prefix)), n.ip);
    }
  }

  lemma MaskIdempotent(x: Word, p: PrefixLen)
    ensures And(And(x, Mask(p)), Mask(p)) == And(x, Mask(p))
  {
    forall i: nat | i < 32
      ensures Bit(And(And(x, Mask(p)), Mask(p)), i) == Bit(And(x, Mask(p)), i)
    {
      BitMasked(And(x, Mask(p)), p, i);
      BitMasked(x, p, i);
    }
    Ext(And(And(x, Mask(p)), Mask(p)), And(x, Mask(p)));
  }

  /**
   * The network net.ParseCIDR returns for an address and a prefix length read from text:
   * the address masked to the prefix. The result is aligned and holds the address read.
   */
  function Masked(n: IPNet): (r: IPNet)
    ensures r.prefix == n.prefix && Aligned(r) && Contains(r, n.ip)
    ensures Aligned(n) ==> r == n
  {
    MaskIdempotent(n.ip, n.prefix);
    var r := IPNet(And(n.ip, Mask(n.prefix)), n.prefix);
    r
  }
}
