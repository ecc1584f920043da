/**
 * The subnet-number layout of newSubnetAllocator and allocateNetwork. Subnet number n
 * occupies the subnetBits bits just above the hostBits host bits. When that field starts
 * inside an octet and runs into the next one, its bits are rotated so that the subnets
 * whose bits in the shared octet are all zero come first.
 */
module Rotation {
  import opened Words
  import opened Ipv4

  /** Number of subnet bits between the prefix and the host part. */
  function SubnetBits(prefix: PrefixLen, hostBits: nat): nat
    requires hostBits <= 32 - prefix
  {
    32 - prefix - hostBits
  }

  /** The field starts inside an octet and its last bit lies in a higher octet. */
  predicate Straddles(hostBits: nat, subnetBits: nat)
    requires hostBits >= 1
  {
    hostBits % 8 != 0 && (hostBits - 1) / 8 != (hostBits + subnetBits - 1) / 8
  }

  /** The four rotation fields of SubnetAllocator. */
  datatype Params = Params(leftShift: nat, leftMask: Word, rightShift: nat, rightMask: Word)

  /** The width facts of the straddling case, kept apart as an isolated arithmetic step. */
  lemma StraddleWidth(hostBits: nat, subnetBits: nat)
    requires hostBits >= 1 && Straddles(hostBits, subnetBits)
    ensures 8 - hostBits % 8 < subnetBits
    ensures (hostBits + 8 - hostBits % 8) % 8 == 0
  {
  }

  /**
   * The rotation parameters newSubnetAllocator derives. In the straddling case the low
   * leftShift bits of the field fill the shared octet up to the next octet boundary, and
   * the field is rotated by that amount; otherwise nothing is rotated.
   */
  function ParamsFor(prefix: PrefixLen, hostBits: nat): (r: Params)
    requires 1 <= hostBits <= 32 - prefix
    ensures r.leftShift + r.rightShift <= SubnetBits(prefix, hostBits)
    ensures Straddles(hostBits, SubnetBits(prefix, hostBits)) ==>
      1 <= r.leftShift <= 7 && (hostBits + r.leftShift) % 8 == 0 &&
      r.leftShift + r.rightShift == SubnetBits(prefix, hostBits) && r.rightShift >= 1
    ensures !Straddles(hostBits, SubnetBits(prefix, hostBits)) ==> r.leftShift == 0 && r.rightShift == 0
  {
    var subnetBits := SubnetBits(prefix, hostBits);
    if Straddles(hostBits, subnetBits) then
      StraddleWidth(hostBits, subnetBits);
      var leftShift := 8 - hostBits % 8;
      Params(leftShift, LowMask(32 - prefix), subnetBits - leftShift, Shl(LowMask(leftShift), hostBits))
    else
      Params(0, 0xFFFF_FFFF, 0, 0)
  }

  /** The uint32 address allocateNetwork builds for subnet number n over base address base. */
  function Address(base: Word, hostBits: nat, r: Params, n: Word): Word
  {
    var shifted := Shl(n, hostBits);
    Or(Or(base, And(Shl(shifted, r.leftShift), r.leftMask)), And(Shr(shifted, r.rightShift), r.rightMask))
  }

  /**
   * The bit of the subnet number that lands at position j of a field of width bits
   * rotated by rightShift: (j + rightShift) mod width.
   */
  function FieldIndex(j: nat, rightShift: nat, width: nat): (r: nat)
    requires j < width && rightShift <= width
    ensures r < width
  {
    if j + rightShift < width then j + rightShift else j + rightShift - width
  }

  /** FieldIndex is the rotation modulo width: an isolated arithmetic step. */
  lemma FieldIndexMod(j: nat, rightShift: nat, width: nat)
    requires j < width && rightShift <= width
    ensures FieldIndex(j, rightShift, width) == (j + rightShift) % width
  {
  }

  /** The rotation parameters of the straddling case: both masks, spelled out. */
  predicate StraddleShape(hostBits: nat, width: nat, r: Params)
  {
    hostBits + r.leftShift + r.rightShift == width <= 32 &&
    r.leftMask == LowMask(width) && r.rightMask == Shl(LowMask(r.leftShift), hostBits)
  }

  /**
   * In the straddling case leftMask keeps exactly the host and subnet bits, those below
   * the prefix, and rightMask exactly the leftShift bits of the shared octet from hostBits.
   */
  lemma StraddleParams(prefix: PrefixLen, hostBits: nat)
    requires 1 <= hostBits <= 32 - prefix
    requires Straddles(hostBits, SubnetBits(prefix, hostBits))
    ensures StraddleShape(hostBits, 32 - prefix, ParamsFor(prefix, hostBits))
    ensures forall i: nat :: Bit(ParamsFor(prefix, hostBits).leftMask, i) <==> i < 32 - prefix
    ensures var r := ParamsFor(prefix, hostBits);
      forall i: nat :: Bit(r.rightMask, i) <==> hostBits <= i < hostBits + r.leftShift
  {
    var r := ParamsFor(prefix, hostBits);
    forall i: nat
      ensures Bit(r.leftMask, i) <==> i < 32 - prefix
      ensures Bit(r.rightMask, i) <==> hostBits <= i < hostBits + r.leftShift
    {
      BitLowMask(32 - prefix, i);
      BitShl(LowMask(r.leftShift), hostBits, i);
      if hostBits <= i {
        BitLowMask(r.leftShift, i - hostBits);
      }
    }
  }

  lemma BitLeftStraddle(shifted: Word, leftShift: nat, width: nat, i: nat)
    requires width <= 32
    ensures Bit(And(Shl(shifted, leftShift), LowMask(width)), i) <==>
      leftShift <= i < width && Bit(shifted, i - leftShift)
  {
    BitAnd(Shl(shifted, leftShift), LowMask(width), i);
    BitShl(shifted, leftShift, i);
    BitLowMask(width, i);
  }

  lemma BitRightStraddle(shifted: Word, rightShift: nat, leftShift: nat, hostBits: nat, i: nat)
    requires hostBits + leftShift <= 32
    ensures Bit(And(Shr(shifted, rightShift), Shl(LowMask(leftShift), hostBits)), i) <==>
      hostBits <= i < hostBits + leftShift && Bit(shifted, rightShift + i)
  {
    BitAnd(Shr(shifted, rightShift), Shl(LowMask(leftShift), hostBits), i);
    BitShr(shifted, rightShift, i);
    BitShl(LowMask(leftShift), hostBits, i);
    if hostBits <= i {
      BitLowMask(leftShift, i - hostBits);
    }
  }

  /** Bit i of the address is set in the base, the left part or the right part. */
  lemma BitAddressParts(base: Word, hostBits: nat, r: Params, n: Word, i: nat)
    ensures var shifted := Shl(n, hostBits);
      Bit(Address(base, hostBits, r, n), i) <==>
        Bit(base, i) || Bit(And(Shl(shifted, r.leftShift), r.leftMask), i) ||
        Bit(And(Shr(shifted, r.rightShift), r.rightMask), i)
  {
    var shifted := Shl(n, hostBits);
    var left := And(Shl(shifted, r.leftShift), r.leftMask);
    var right := And(Shr(shifted, r.rightShift), r.rightMask);
    BitOr(Or(base, left), right, i);
    BitOr(base, left, i);
  }

  /** Bit i of the two rotated parts in the straddling case. */
  lemma BitStraddleParts(hostBits: nat, width: nat, r: Params, n: Word, i: nat)
    requires StraddleShape(hostBits, width, r)
    ensures var shifted := Shl(n, hostBits);
      (Bit(And(Shl(shifted, r.leftShift), r.leftMask), i) <==>
         hostBits + r.leftShift <= i < width && Bit(n, i - hostBits - r.leftShift)) &&
      (Bit(And(Shr(shifted, r.rightShift), r.rightMask), i) <==>
         hostBits <= i < hostBits + r.leftShift && Bit(n, i - hostBits + r.rightShift))
  {
    var shifted := Shl(n, hostBits);
    BitLeftStraddle(shifted, r.leftShift, width, i);
    BitRightStraddle(shifted, r.rightShift, r.leftShift, hostBits, i);
    if i >= r.leftShift {
      BitShl(n, hostBits, i - r.leftShift);
    }
    BitShl(n, hostBits, r.rightShift + i);
  }

  /** The address bits in the straddling case, for rotation parameters of that shape. */
  lemma BitAddressStraddle(base: Word, hostBits: nat, width: nat, r: Params, n: Word, i: nat)
    requires StraddleShape(hostBits, width, r)
    ensures Bit(Address(base, hostBits, r, n), i) <==>
      Bit(base, i) || (hostBits <= i < width && Bit(n, FieldIndex(i - hostBits, r.rightShift, width - hostBits)))
  {
    var shifted := Shl(n, hostBits);
    BitAddressParts(base, hostBits, r, n, i);
    BitStraddleParts(hostBits, width, r, n, i);
    CombineStraddle(Bit(Address(base, hostBits, r, n), i), Bit(base, i),
      Bit(And(Shl(shifted, r.leftShift), r.leftMask), i), Bit(And(Shr(shifted, r.rightShift), r.rightMask), i),
      n, hostBits, width, r.leftShift, r.rightShift, i);
  }

  /**
   * Joins the two straddle parts into one rotated field: an isolated propositional step,
   * kept apart so that it is proved without the bit lemmas around its caller.
   */
  lemma CombineStraddle(a: bool, b: bool, left: bool, right: bool, n: nat,
                        hostBits: nat, width: nat, leftShift: nat, rightShift: nat, i: nat)
    requires hostBits + leftShift + rightShift == width
    requires a <==> b || left || right
    requires left <==> hostBits + leftShift <= i < width && Bit(n, i - hostBits - leftShift)
    requires right <==> hostBits <= i < hostBits + leftShift && Bit(n, i - hostBits + rightShift)
    ensures a <==> b || (hostBits <= i < width && Bit(n, FieldIndex(i - hostBits, rightShift, width - hostBits)))
  {
  }

  /** Bit i of the two parts when nothing is rotated: the whole field, and nothing. */
  lemma BitPlainParts(hostBits: nat, width: nat, n: Word, i: nat)
    requires hostBits <= width <= 32 && n < Pow2(width - hostBits)
    ensures var shifted := Shl(n, hostBits);
      (Bit(And(Shl(shifted, 0), 0xFFFF_FFFF), i) <==> hostBits <= i < width && Bit(n, i - hostBits)) &&
      !Bit(And(Shr(shifted, 0), 0), i)
  {
    var shifted := Shl(n, hostBits);
    ShlUnfold(shifted, 0);
    ShrUnfold(shifted, 0);
    BitAnd(shifted, 0xFFFF_FFFF, i);
    BitAnd(shifted, 0, i);
    BitZero(i);
    BitAllOnes(i);
    BitShl(n, hostBits, i);
    if width <= i < 32 {
      BitBelow(n, width - hostBits, i - hostBits);
    }
  }

  /** The address bits when nothing is rotated: n's bits sit just above the host bits. */
  lemma BitAddressPlain(base: Word, hostBits: nat, width: nat, n: Word, i: nat)
    requires hostBits <= width <= 32 && n < Pow2(width - hostBits)
    ensures Bit(Address(base, hostBits, Params(0, 0xFFFF_FFFF, 0, 0), n), i) <==>
      Bit(base, i) || (hostBits <= i < width && Bit(n, FieldIndex(i - hostBits, 0, width - hostBits)))
  {
    BitAddressParts(base, hostBits, Params(0, 0xFFFF_FFFF, 0, 0), n, i);
    BitPlainParts(hostBits, width, n, i);
  }

  /**
   * Bit i of the address: the base address's bit, or, inside the field (bits hostBits up
   * to 32 - prefix, field position j), bit (j + rightShift) mod subnetBits of n. So the
   * field holds n's subnetBits bits rotated left by leftShift.
   */
  lemma BitAddress(base: Word, prefix: PrefixLen, hostBits: nat, n: Word, i: nat)
    requires 1 <= hostBits <= 32 - prefix
    requires n < Pow2(SubnetBits(prefix, hostBits))
    ensures var r := ParamsFor(prefix, hostBits);
      Bit(Address(base, hostBits, r, n), i) <==>
        Bit(base, i) ||
        (hostBits <= i < 32 - prefix &&
         Bit(n, FieldIndex(i - hostBits, r.rightShift, SubnetBits(prefix, hostBits))))
  {
    var r := ParamsFor(prefix, hostBits);
    if Straddles(hostBits, SubnetBits(prefix, hostBits)) {
      StraddleParams(prefix, hostBits);
      BitAddressStraddle(base, hostBits, 32 - prefix, r, n, i);
    } else {
      BitAddressPlain(base, hostBits, 32 - prefix, n, i);
    }
  }

  // ---- consequences of the layout

  /**
   * a <= b scales by c. Kept apart so that the nonlinear step is proved without the
   * Pow2 facts around its callers.
   */
  lemma MulLe(a: nat, b: nat, c: nat)
    requires a <= b
    ensures a * c <= b * c
  {
  }

  /** Below a multiple of c by less than c: a * c + v stays below b * c when a < b. */
  lemma MulBelow(a: nat, b: nat, c: nat, v: nat)
    requires a < b && v < c
    ensures a * c + v < b * c
  {
    MulLe(a + 1, b, c);
  }

  /** A number whose low w bits are clear is a multiple of 2^w. */
  lemma ClearBelowMultiple(x: Word, w: nat)
    requires ClearBelow(x, w)
    ensures x == x / Pow2(w) * Pow2(w)
  {
    var p := Pow2(w);
    var low := x % p;
    assert x == x / p * p + low;
    forall j: nat | j < w
      ensures Bit(low, j) == Bit(0, j)
    {
      BitConcat(x / p, low, w, j);
      BitZero(j);
    }
    ExtBits(low, 0, w);
  }

  /** A word-sized multiple of 2^w leaves room for any value below 2^w. */
  lemma MultipleRoom(high: nat, w: nat, v: nat)
    requires w <= 32 && high * Pow2(w) < WordLimit && v < Pow2(w)
    ensures high * Pow2(w) + v < WordLimit
  {
    var p := Pow2(w);
    Pow2Word();
    Pow2Add(32 - w, w);
    var q := Pow2(32 - w);
    assert high < q by {
      if high >= q {
        MulLe(q, high, p);
      }
    }
    MulBelow(high, q, p, v);
  }

  /** Adding a value below 2^w to a word whose low w bits are clear sets exactly the bits of either. */
  lemma BitSum(base: Word, v: nat, w: nat, i: nat)
    requires w <= 32 && ClearBelow(base, w) && v < Pow2(w)
    ensures base + v < WordLimit
    ensures Bit(base + v, i) <==> Bit(base, i) || Bit(v, i)
  {
    var high := base / Pow2(w);
    ClearBelowMultiple(base, w);
    MultipleRoom(high, w, v);
    BitConcat(high, v, w, i);
    BitConcat(high, 0, w, i);
    if i >= w {
      BitBelow(v, w, i);
    } else {
      BitZero(i);
    }
  }

  /** The bits of n * 2^s: n's bits, moved up by s. */
  lemma BitScaled(n: nat, s: nat, i: nat)
    ensures Bit(n * Pow2(s), i) <==> s <= i && Bit(n, i - s)
  {
    BitConcat(n, 0, s, i);
    if i < s {
      BitZero(i);
    }
  }

  /** Outside the field, the address carries the network address's bits. */
  lemma AddressOutsideBit(net: IPNet, hostBits: nat, n: Word, i: nat)
    requires 1 <= hostBits <= 32 - net.prefix
    requires n < Pow2(SubnetBits(net.prefix, hostBits))
    requires i < hostBits || 32 - net.prefix <= i
    ensures Bit(Address(net.ip, hostBits, ParamsFor(net.prefix, hostBits), n), i) == Bit(net.ip, i)
  {
    BitAddress(net.ip, net.prefix, hostBits, n, i);
  }

  /**
   * Inside the field of an aligned network, position j of the address carries bit
   * (j + rightShift) mod subnetBits of the subnet number and nothing else.
   */
  lemma AddressFieldBit(net: IPNet, hostBits: nat, n: Word, j: nat)
    requires Aligned(net)
    requires 1 <= hostBits <= 32 - net.prefix
    requires n < Pow2(SubnetBits(net.prefix, hostBits))
    requires j < SubnetBits(net.prefix, hostBits)
    ensures Bit(Address(net.ip, hostBits, ParamsFor(net.prefix, hostBits), n), hostBits + j) ==
      Bit(n, FieldIndex(j, ParamsFor(net.prefix, hostBits).rightShift, SubnetBits(net.prefix, hostBits)))
  {
    var i := hostBits + j;
    assert i - hostBits == j;
    AlignedBits(net);
    assert !Bit(net.ip, i);
    BitAddress(net.ip, net.prefix, hostBits, n, i);
  }

  /**
   * Every candidate address lies inside the cluster network: the bits above the field
   * are the network's own.
   */
  lemma AddressInside(net: IPNet, hostBits: nat, n: Word)
    requires 1 <= hostBits <= 32 - net.prefix
    requires n < Pow2(SubnetBits(net.prefix, hostBits))
    ensures Contains(net, Address(net.ip, hostBits, ParamsFor(net.prefix, hostBits), n))
  {
    var a := Address(net.ip, hostBits, ParamsFor(net.prefix, hostBits), n);
    forall i: nat | 32 - net.prefix <= i < 32
      ensures Bit(a, i) == Bit(net.ip, i)
    {
      AddressOutsideBit(net, hostBits, n, i);
    }
    BitsToContains(net, a);
  }

  /** Every candidate is a network address of its own: its host bits are clear. */
  lemma AddressAligned(net: IPNet, hostBits: nat, n: Word)
    requires Aligned(net)
    requires 1 <= hostBits <= 32 - net.prefix
    requires n < Pow2(SubnetBits(net.prefix, hostBits))
    ensures Aligned(IPNet(Address(net.ip, hostBits, ParamsFor(net.prefix, hostBits), n), 32 - hostBits))
  {
    var a := Address(net.ip, hostBits, ParamsFor(net.prefix, hostBits), n);
    AlignedBits(net);
    forall i: nat | i < hostBits
      ensures !Bit(a, i)
    {
      AddressOutsideBit(net, hostBits, n, i);
    }
    AlignedBits(IPNet(a, 32 - hostBits));
  }

  /** The field position that holds bit k of the subnet number. */
  lemma FieldIndexOnto(k: nat, rightShift: nat, width: nat) returns (j: nat)
    requires k < width && rightShift <= width
    ensures j < width && FieldIndex(j, rightShift, width) == k
  {
    j := if k >= rightShift then k - rightShift else k + width - rightShift;
  }

  /** Different subnet numbers give different addresses. */
  lemma AddressInjective(net: IPNet, hostBits: nat, n1: Word, n2: Word)
    requires Aligned(net)
    requires 1 <= hostBits <= 32 - net.prefix
    requires n1 < Pow2(SubnetBits(net.prefix, hostBits)) && n2 < Pow2(SubnetBits(net.prefix, hostBits))
    requires n1 != n2
    ensures Address(net.ip, hostBits, ParamsFor(net.prefix, hostBits), n1) !=
            Address(net.ip, hostBits, ParamsFor(net.prefix, hostBits), n2)
  {
    var sb := SubnetBits(net.prefix, hostBits);
    var k := BitDiffer(n1, n2, sb);
    var j := FieldIndexOnto(k, ParamsFor(net.prefix, hostBits).rightShift, sb);
    AddressFieldBit(net, hostBits, n1, j);
    AddressFieldBit(net, hostBits, n2, j);
  }

  lemma BitUnrotated(net: IPNet, hostBits: nat, n: Word, i: nat)
    requires 1 <= hostBits <= 32 - net.prefix
    requires n < Pow2(SubnetBits(net.prefix, hostBits))
    requires !Straddles(hostBits, SubnetBits(net.prefix, hostBits))
    ensures Bit(Address(net.ip, hostBits, ParamsFor(net.prefix, hostBits), n), i) <==>
      Bit(net.ip, i) || Bit(Shl(n, hostBits), i)
  {
    BitAddress(net.ip, net.prefix, hostBits, n, i);
    BitShl(n, hostBits, i);
    if i >= 32 - net.prefix {
      BitBelow(n, SubnetBits(net.prefix, hostBits), i - hostBits);
    }
  }

  /** Without rotation, subnet n is the network address with n shifted hostBits to the left. */
  lemma AddressUnrotated(net: IPNet, hostBits: nat, n: Word)
    requires 1 <= hostBits <= 32 - net.prefix
    requires n < Pow2(SubnetBits(net.prefix, hostBits))
    requires !Straddles(hostBits, SubnetBits(net.prefix, hostBits))
    ensures Address(net.ip, hostBits, ParamsFor(net.prefix, hostBits), n) == Or(net.ip, Shl(n, hostBits))
  {
    var a := Address(net.ip, hostBits, ParamsFor(net.prefix, hostBits), n);
    forall i: nat | i < 32
      ensures Bit(a, i) == Bit(Or(net.ip, Shl(n, hostBits)), i)
    {
      BitUnrotated(net, hostBits, n, i);
      BitOr(net.ip, Shl(n, hostBits), i);
    }
    Ext(a, Or(net.ip, Shl(n, hostBits)));
  }

  lemma BitRotatedLow(net: IPNet, hostBits: nat, n: Word, i: nat)
    requires 1 <= hostBits <= 32 - net.prefix
    requires Straddles(hostBits, SubnetBits(net.prefix, hostBits))
    requires n < Pow2(ParamsFor(net.prefix, hostBits).rightShift)
    ensures var r := ParamsFor(net.prefix, hostBits);
      Bit(Address(net.ip, hostBits, r, n), i) <==> Bit(net.ip, i) || Bit(Shl(n, hostBits + r.leftShift), i)
  {
    var sb := SubnetBits(net.prefix, hostBits);
    var r := ParamsFor(net.prefix, hostBits);
    var s := hostBits + r.leftShift;
    Pow2Monotone(r.rightShift, sb);
    BitAddress(net.ip, net.prefix, hostBits, n, i);
    BitShl(n, s, i);
    if hostBits <= i < s {
      BitBelow(n, r.rightShift, FieldIndex(i - hostBits, r.rightShift, sb));
    }
    if i >= 32 - net.prefix {
      BitBelow(n, r.rightShift, i - s);
    }
  }

  /**
   * With rotation, the first 2^rightShift subnet numbers, those whose bits in the shared
   * octet are all zero, are laid out as if the field started at the octet boundary
   * hostBits + leftShift.
   */
  lemma AddressRotatedLow(net: IPNet, hostBits: nat, n: Word)
    requires 1 <= hostBits <= 32 - net.prefix
    requires Straddles(hostBits, SubnetBits(net.prefix, hostBits))
    requires n < Pow2(ParamsFor(net.prefix, hostBits).rightShift)
    ensures var r := ParamsFor(net.prefix, hostBits);
      Address(net.ip, hostBits, r, n) == Or(net.ip, Shl(n, hostBits + r.leftShift))
  {
    var r := ParamsFor(net.prefix, hostBits);
    var a := Address(net.ip, hostBits, r, n);
    var b := Or(net.ip, Shl(n, hostBits + r.leftShift));
    forall i: nat | i < 32
      ensures Bit(a, i) == Bit(b, i)
    {
      BitRotatedLow(net, hostBits, n, i);
      BitOr(net.ip, Shl(n, hostBits + r.leftShift), i);
    }
    Ext(a, b);
  }

  /**
   * With rotation, the bits of the shared octet, from hostBits up to the octet boundary,
   * are all clear in the address of subnet n exactly when n is one of the first
   * 2^rightShift subnet numbers, those that AddressRotatedLow lays out unrotated.
   */
  lemma AddressSharedOctetClear(net: IPNet, hostBits: nat, n: Word)
    requires Aligned(net)
    requires 1 <= hostBits <= 32 - net.prefix
    requires Straddles(hostBits, SubnetBits(net.prefix, hostBits))
    requires n < Pow2(SubnetBits(net.prefix, hostBits))
    ensures var r := ParamsFor(net.prefix, hostBits);
      (forall i: nat :: hostBits <= i < hostBits + r.leftShift ==> !Bit(Address(net.ip, hostBits, r, n), i))
      <==> n < Pow2(r.rightShift)
  {
    var sb := SubnetBits(net.prefix, hostBits);
    var r := ParamsFor(net.prefix, hostBits);
    var a := Address(net.ip, hostBits, r, n);
    if n < Pow2(r.rightShift) {
      forall i: nat | hostBits <= i < hostBits + r.leftShift
        ensures !Bit(a, i)
      {
        var j := i - hostBits;
        AddressFieldBit(net, hostBits, n, j);
        BitBelow(n, r.rightShift, j + r.rightShift);
      }
    } else {
      var k := BitAtLeast(n, r.rightShift, sb);
      var j := k - r.rightShift;
      AddressFieldBit(net, hostBits, n, j);
      assert Bit(a, hostBits + j);
    }
  }
}
