/**
 * A worked configuration: the cluster network 10.1.0.0/16 with 6 host bits. Its
 * 10-bit subnet field starts two bits below the third octet, so newSubnetAllocator
 * rotates it, and a fresh allocator walks the third octet first: 10.1.0.0/26,
 * 10.1.1.0/26, ..., 10.1.255.0/26, and only then 10.1.0.64/26.
 */
module Scenario {
  import opened Wrappers
  import opened Words
  import opened Ipv4
  import opened Rotation
  import opened Allocator

  /** 10.1.0.0/16. */
  const Net: IPNet := IPNet(0x0A01_0000, 16)

  /** The low 16 bits of 10.1.0.0 are clear, so 10.1.0.0/16 is already masked. */
  lemma NetClear()
    ensures ClearBelow(Net.ip, 16) && Aligned(Net)
  {
    Pow2Word();
    forall i: nat | i < 16
      ensures !Bit(Net.ip, i)
    {
      BitScaled(0x0A01, 16, i);
    }
    AlignedBits(Net);
  }

  /** newSubnetAllocator("10.1.0.0/16", 6) succeeds: 1024 subnets, rotated by 2 bits. */
  lemma ScenarioConfig() returns (c: Config)
    ensures ConfigFor(Some(Net), 6) == Ok(c)
    ensures c.network == Net && c.hostBits == 6 && SubnetCount(c) == 1024
    ensures Straddles(6, SubnetBits(16, 6))
    ensures c.params.leftShift == 2 && c.params.rightShift == 8
  {
    NetClear();
    c := ConfigFor(Some(Net), 6).value;
    assert Pow2(10) == 1024 by {
      Pow2Add(8, 2);
      Pow2Byte();
      Pow2Unfold(2);
      Pow2Unfold(1);
      Pow2Unfold(0);
    }
  }

  /** The word 10.1.k.0: 10.1.0.0 plus k in the third octet. */
  lemma ThirdOctet(k: nat)
    requires k < 256
    ensures Or(Net.ip, Shl(k, 8)) == Net.ip + k * 256
  {
    NetClear();
    Pow2Byte();
    Pow2Add(8, 8);
    Pow2Word();
    assert k * 256 < Pow2(16);
    forall i: nat | i < 32
      ensures Bit(Or(Net.ip, Shl(k, 8)), i) == Bit(Net.ip + k * 256, i)
    {
      BitOr(Net.ip, Shl(k, 8), i);
      BitShl(k, 8, i);
      BitSum(Net.ip, k * 256, 16, i);
      BitScaled(k, 8, i);
    }
    BitSum(Net.ip, k * 256, 16, 0);
    Ext(Or(Net.ip, Shl(k, 8)), Net.ip + k * 256);
  }

  /** Subnet number k < 256 is 10.1.k.0/26: the rotation puts the low 8 bits of k in the third octet. */
  lemma CandidateThirdOctet(c: Config, k: nat)
    requires ConfigFor(Some(Net), 6) == Ok(c) && k < 256
    ensures ValidConfig(c) && k < SubnetCount(c)
    ensures Candidate(c, k) == IPNet(Net.ip + k * 256, 26)
  {
    var c' := ScenarioConfig();
    Pow2Byte();
    AddressRotatedLow(Net, 6, k);
    ThirdOctet(k);
  }

  /** Allocation k + 1, for k < 256, of a fresh allocator over the network returns 10.1.k.0/26. */
  lemma WalkThirdOctet(k: nat)
    requires k < 256
    ensures var c := ConfigFor(Some(Net), 6).value;
      Allocate(c, Run(c, k)).0 == Ok(IPNet(0x0A01_0000 + k * 0x100, 26))
  {
    var c := ScenarioConfig();
    CandidateThirdOctet(c, k);
    FreshRun(c, k);
    FreshStep(c, k);
  }

  /** The word 10.1.0.64. */
  lemma SecondPassWord(a: Word)
    requires forall i: nat :: i < 32 ==> (Bit(a, i) <==> Bit(Net.ip, i) || i == 6)
    ensures a == 0x0A01_0040
  {
    Pow2Word();
    forall i: nat | i < 32
      ensures Bit(a, i) == Bit(0x0A01_0040, i)
    {
      BitConcat(0x0A01, 0x40, 16, i);
      BitConcat(0x0A01, 0, 16, i);
      assert Pow2(6) == 0x40 by {
        Pow2Unfold(6);
        Pow2Unfold(5);
        Pow2Unfold(4);
        Pow2Unfold(3);
        Pow2Unfold(2);
        Pow2Unfold(1);
        Pow2Unfold(0);
      }
      if i < 16 {
        BitPow2(6, i);
        BitZero(i);
      }
    }
    Ext(a, 0x0A01_0040);
  }

  /** Inside the field, only position 6 carries bit 8 of the subnet number, which 256 has set. */
  lemma FieldOf256(n: Word, i: nat)
    requires n == Pow2(8) && 6 <= i < 16
    ensures Bit(n, FieldIndex(i - 6, 8, 10)) <==> i == 6
  {
    BitPow2(8, FieldIndex(i - 6, 8, 10));
  }

  /**
   * Allocation 257 of a fresh allocator returns 10.1.0.64/26: subnet number 256 is the
   * first with a bit in the shared octet, and that bit lands at position 6.
   */
  lemma SecondPass()
    ensures var c := ConfigFor(Some(Net), 6).value;
      Allocate(c, Run(c, 256)).0 == Ok(IPNet(0x0A01_0040, 26))
  {
    var c := ScenarioConfig();
    FreshRun(c, 256);
    FreshStep(c, 256);
    var n: Word := 256;
    Pow2Byte();
    var a := Address(Net.ip, 6, c.params, n);
    forall i: nat | i < 32
      ensures Bit(a, i) <==> Bit(Net.ip, i) || i == 6
    {
      BitAddress(Net.ip, 16, 6, n, i);
      if 6 <= i < 16 {
        FieldOf256(n, i);
      }
    }
    SecondPassWord(a);
  }
}
