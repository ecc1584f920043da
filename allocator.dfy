/**
 * One SubnetAllocator. It hands out the subnets of one cluster network. Between calls it
 * keeps two things: the set of subnets in use, and the cursor `next`, where the next
 * scan starts.
 *
 * Each operation is given twice:
 * - as a function from the old state to the result and the new state, which the lemmas
 *   reason about;
 * - as a method of the SubnetAllocator class, which updates the fields in place and is
 *   proved to agree with that function.
 */
module Allocator {
  import opened Wrappers
  import opened Words
  import opened Ipv4
  import opened Rotation

  /** The errors a SubnetAllocator reports. The message texts are not modelled. */
  datatype Error =
    | ParseFailed        // the network string does not parse
    | ZeroHostBits       // a host capacity of zero bits
    | HostBitsTooLarge   // more host bits than the network has
    | NotInNetwork       // the subnet's address lies outside the network
    | AlreadyAvailable   // releasing a subnet that is not in use
    | Full               // ErrSubnetAllocatorFull

  /** The fields of a SubnetAllocator that are fixed at construction. */
  datatype Config = Config(network: IPNet, hostBits: nat, params: Params)

  /** The invariant newSubnetAllocator establishes: a masked network, a valid hostBits, the rotation parameters it derives. */
  predicate ValidConfig(c: Config)
  {
    Aligned(c.network) && 1 <= c.hostBits <= 32 - c.network.prefix &&
    c.params == ParamsFor(c.network.prefix, c.hostBits)
  }

  /**
   * newSubnetAllocator's checks and derived fields. The network is what net.ParseCIDR
   * read (None when the text does not parse). The allocator keeps it masked.
   */
  function ConfigFor(network: Option<IPNet>, hostBits: Word): (r: Result<Config, Error>)
    ensures network.None? ==> r == Err(ParseFailed)
    ensures network.Some? ==> (r.Ok? <==> 1 <= hostBits <= 32 - network.value.prefix)
    ensures network.Some? && hostBits == 0 ==> r == Err(ZeroHostBits)
    ensures network.Some? && hostBits > 32 - network.value.prefix ==> r == Err(HostBitsTooLarge)
    ensures r.Ok? ==> ValidConfig(r.value) && r.value.network == Masked(network.value) && r.value.hostBits == hostBits
  {
    if network.None? then Err(ParseFailed)
    else
      var net := Masked(network.value);
      if hostBits == 0 then Err(ZeroHostBits)
      else if hostBits > 32 - net.prefix then Err(HostBitsTooLarge)
      else Ok(Config(net, hostBits, ParamsFor(net.prefix, hostBits)))
  }

  /** numSubnets, `1 << numSubnetBits`: a power of two, at most 2^31 because hostBits >= 1. */
  function SubnetCount(c: Config): (r: nat)
    requires ValidConfig(c)
    ensures r == Pow2(SubnetBits(c.network.prefix, c.hostBits)) && 1 <= r <= 0x8000_0000
  {
    var subnetBits := SubnetBits(c.network.prefix, c.hostBits);
    ShlOnePow2(subnetBits);
    Pow2Monotone(subnetBits, 31);
    Pow2Half();
    Shl(1, subnetBits)
  }

  /**
   * genSubnet for subnet number n. It lies inside the network, it is aligned, and its
   * prefix length is netMaskSize + numSubnetBits.
   */
  function Candidate(c: Config, n: nat): IPNet
    requires ValidConfig(c) && n < SubnetCount(c)
  {
    IPNet(Address(c.network.ip, c.hostBits, c.params, n), c.network.prefix + SubnetBits(c.network.prefix, c.hostBits))
  }

  /** genSubnet lies inside the network, is aligned, and has prefix length netMaskSize + numSubnetBits. */
  lemma CandidateInside(c: Config, n: nat)
    requires ValidConfig(c) && n < SubnetCount(c)
    ensures Candidate(c, n).prefix == c.network.prefix + SubnetBits(c.network.prefix, c.hostBits)
    ensures Contains(c.network, Candidate(c, n).ip) && Aligned(Candidate(c, n))
  {
    AddressInside(c.network, c.hostBits, n);
    AddressAligned(c.network, c.hostBits, n);
  }

  /** Different subnet numbers give different subnets. */
  lemma CandidateInjective(c: Config, n1: nat, n2: nat)
    requires ValidConfig(c) && n1 < SubnetCount(c) && n2 < SubnetCount(c)
    ensures Candidate(c, n1) == Candidate(c, n2) <==> n1 == n2
  {
    if n1 != n2 {
      AddressInjective(c.network, c.hostBits, n1, n2);
    }
  }

  /** The subnet number tried at step i of a scan that starts at next. */
  function Slot(c: Config, next: nat, i: nat): (r: nat)
    requires ValidConfig(c)
    ensures r < SubnetCount(c)
  {
    (i + next) % SubnetCount(c)
  }

  /** With next <= numSubnets, every subnet number is tried at some step of a scan. */
  lemma SlotOnto(c: Config, next: nat, n: nat) returns (i: nat)
    requires ValidConfig(c) && next <= SubnetCount(c) && n < SubnetCount(c)
    ensures i < SubnetCount(c) && Slot(c, next, i) == n
  {
    var count := SubnetCount(c);
    i := if n >= next then n - next else n + count - next;
    ModOnce(i + next, count);
  }

  /**
   * The remainder of a number below 2m, as the scan's wrap-around takes it. Kept apart
   * so that the modular step is proved without the configuration facts around its callers.
   */
  lemma ModOnce(a: nat, m: nat)
    requires 0 < m && a < 2 * m
    ensures a % m == (if a < m then a else a - m)
  {
    if a >= m {
      assert a == m + (a - m);
    }
  }

  /**
   * The first step, from step i on, of a scan starting at next whose candidate is not
   * in use. Every step before it holds a candidate in use. None means that every
   * step from i on does.
   */
  function FirstFree(c: Config, inUse: set<IPNet>, next: nat, i: nat): (r: Option<nat>)
    requires ValidConfig(c) && i <= SubnetCount(c)
    ensures r.Some? ==> i <= r.value < SubnetCount(c) && Candidate(c, Slot(c, next, r.value)) !in inUse
    ensures r.Some? ==> forall k: nat :: i <= k < r.value ==> Candidate(c, Slot(c, next, k)) in inUse
    ensures r.None? ==> forall k: nat :: i <= k < SubnetCount(c) ==> Candidate(c, Slot(c, next, k)) in inUse
    decreases SubnetCount(c) - i
  {
    if i == SubnetCount(c) then None
    else if Candidate(c, Slot(c, next, i)) !in inUse then Some(i)
    else FirstFree(c, inUse, next, i + 1)
  }

  /** The fields a SubnetAllocator updates: the keys allocMap maps to true, and next. */
  datatype AllocState = AllocState(inUse: set<IPNet>, next: nat)

  /** A fresh allocator: nothing in use, next = 0. */
  const Initial: AllocState := AllocState({}, 0)

  predicate ValidState(c: Config, s: AllocState)
    requires ValidConfig(c)
  {
    s.next <= SubnetCount(c)
  }

  /** Every key in use lies inside the network. Allocate, Mark and Release keep this. */
  predicate InNetwork(c: Config, s: AllocState)
  {
    forall subnet :: subnet in s.inUse ==> Contains(c.network, subnet.ip)
  }

  /** Every subnet of the network is in use. */
  predicate AllInUse(c: Config, inUse: set<IPNet>)
    requires ValidConfig(c)
  {
    forall n: nat :: n < SubnetCount(c) ==> Candidate(c, n) in inUse
  }

  /**
   * allocateNetwork's loop from step i on. Step i tries subnet number (i + next) mod
   * numSubnets: a free candidate is allocated and next moves past it; one in use moves
   * the scan on. When no step is left the network is full and next goes back to 0.
   * Split into ScanFrom, ScanFromGuard and ScanFromStep as the recursive definitions of
   * Words are, so that the candidates stay out of proofs that do not unfold a step.
   */
  function ScanFrom(c: Config, s: AllocState, i: nat): (Result<IPNet, Error>, AllocState)
    requires ValidConfig(c) && i <= SubnetCount(c)
    decreases SubnetCount(c) - i, 2
  {
    ScanFromGuard(c, s, i)
  }

  function ScanFromGuard(c: Config, s: AllocState, i: nat): (Result<IPNet, Error>, AllocState)
    requires ValidConfig(c) && i <= SubnetCount(c)
    decreases SubnetCount(c) - i, 1
  {
    ScanFromStep(c, s, i)
  }

  function ScanFromStep(c: Config, s: AllocState, i: nat): (Result<IPNet, Error>, AllocState)
    requires ValidConfig(c) && i <= SubnetCount(c)
    decreases SubnetCount(c) - i, 0
  {
    if i == SubnetCount(c) then (Err(Full), AllocState(s.inUse, 0))
    else
      var n := Slot(c, s.next, i);
      if Candidate(c, n) !in s.inUse then (Ok(Candidate(c, n)), AllocState(s.inUse + {Candidate(c, n)}, n + 1))
      else ScanFrom(c, s, i + 1)
  }

  /**
   * The loop stops at the first free step: from step i on, it allocates the candidate
   * FirstFree finds, or reports Full when FirstFree finds none.
   */
  lemma {:induction false} ScanFromFirstFree(c: Config, s: AllocState, i: nat)
    requires ValidConfig(c) && i <= SubnetCount(c)
    ensures ScanFrom(c, s, i) ==
      match FirstFree(c, s.inUse, s.next, i)
      case Some(j) =>
        var n := Slot(c, s.next, j);
        (Ok(Candidate(c, n)), AllocState(s.inUse + {Candidate(c, n)}, n + 1))
      case None => (Err(Full), AllocState(s.inUse, 0))
    decreases SubnetCount(c) - i
  {
    assert ScanFrom(c, s, i) == ScanFromStep(c, s, i);
    if i < SubnetCount(c) && Candidate(c, Slot(c, s.next, i)) in s.inUse {
      ScanFromFirstFree(c, s, i + 1);
    }
  }

  /**
   * allocateNetwork: the loop from step 0. It hands out the first free candidate of the
   * scan from next and moves next past it; when there is none it reports Full and resets
   * next to 0.
   */
  function Allocate(c: Config, s: AllocState): (r: (Result<IPNet, Error>, AllocState))
    requires ValidConfig(c) && ValidState(c, s)
    ensures ValidState(c, r.1)
    ensures r.0.Ok? ==> r.0.value !in s.inUse && r.1.inUse == s.inUse + {r.0.value}
    ensures r.0.Ok? ==> r.0.value.prefix == c.network.prefix + SubnetBits(c.network.prefix, c.hostBits)
    ensures r.0.Err? ==> r.0.error == Full && r.1 == AllocState(s.inUse, 0)
  {
    ScanFromFirstFree(c, s, 0);
    ScanFrom(c, s, 0)
  }

  /**
   * A successful allocation returns the subnet of the first scan step i whose candidate is
   * free. Every earlier step's candidate is in use, and next becomes the number after
   * the one returned.
   */
  lemma AllocateFirstFree(c: Config, s: AllocState) returns (i: nat)
    requires ValidConfig(c) && ValidState(c, s)
    requires Allocate(c, s).0.Ok?
    ensures i < SubnetCount(c)
    ensures var n := Slot(c, s.next, i);
      Allocate(c, s).0.value == Candidate(c, n) && Allocate(c, s).1.next == n + 1
    ensures forall k: nat :: k < i ==> Candidate(c, Slot(c, s.next, k)) in s.inUse
  {
    ScanFromFirstFree(c, s, 0);
    i := FirstFree(c, s.inUse, s.next, 0).value;
  }

  /** Allocation fails exactly when every subnet of the network is in use. */
  lemma AllocateFullIff(c: Config, s: AllocState)
    requires ValidConfig(c) && ValidState(c, s)
    ensures Allocate(c, s).0.Err? <==> AllInUse(c, s.inUse)
  {
    ScanFromFirstFree(c, s, 0);
    if Allocate(c, s).0.Err? {
      forall n: nat | n < SubnetCount(c)
        ensures Candidate(c, n) in s.inUse
      {
        var i := SlotOnto(c, s.next, n);
      }
    } else {
      var i := AllocateFirstFree(c, s);
      assert Candidate(c, Slot(c, s.next, i)) !in s.inUse;
    }
  }

  /**
   * markAllocatedNetwork. A subnet whose address lies in the network becomes allocated.
   * next does not move.
   */
  function Mark(c: Config, s: AllocState, subnet: IPNet): (r: (Result<(), Error>, AllocState))
    ensures r.0.Ok? <==> Contains(c.network, subnet.ip)
    ensures r.0.Err? ==> r.0.error == NotInNetwork && r.1 == s
    ensures r.0.Ok? ==> subnet in r.1.inUse && r.1.next == s.next
  {
    if !Contains(c.network, subnet.ip) then (Err(NotInNetwork), s)
    else (Ok(()), AllocState(s.inUse + {subnet}, s.next))
  }

  /**
   * releaseNetwork. An allocated subnet whose address lies in the network becomes free.
   * next does not move.
   */
  function Release(c: Config, s: AllocState, subnet: IPNet): (r: (Result<(), Error>, AllocState))
    ensures r.0.Ok? <==> Contains(c.network, subnet.ip) && subnet in s.inUse
    ensures !Contains(c.network, subnet.ip) ==> r.0 == Err(NotInNetwork)
    ensures Contains(c.network, subnet.ip) && subnet !in s.inUse ==> r.0 == Err(AlreadyAvailable)
    ensures r.0.Err? ==> r.1 == s
    ensures r.0.Ok? ==> subnet !in r.1.inUse && r.1.next == s.next
  {
    if !Contains(c.network, subnet.ip) then (Err(NotInNetwork), s)
    else if subnet !in s.inUse then (Err(AlreadyAvailable), s)
    else (Ok(()), AllocState(s.inUse - {subnet}, s.next))
  }

  /** Marking changes nothing but the marked key. */
  lemma MarkOnlyThatKey(c: Config, s: AllocState, subnet: IPNet, other: IPNet)
    requires other != subnet
    ensures other in Mark(c, s, subnet).1.inUse <==> other in s.inUse
  {
  }

  /** Releasing changes nothing but the released key. */
  lemma ReleaseOnlyThatKey(c: Config, s: AllocState, subnet: IPNet, other: IPNet)
    requires other != subnet
    ensures other in Release(c, s, subnet).1.inUse <==> other in s.inUse
  {
  }

  /** Marking twice is marking once. */
  lemma MarkIdempotent(c: Config, s: AllocState, subnet: IPNet)
    ensures Mark(c, Mark(c, s, subnet).1, subnet) == Mark(c, s, subnet)
  {
    if Contains(c.network, subnet.ip) {
      assert Mark(c, s, subnet).1.inUse + {subnet} == Mark(c, s, subnet).1.inUse;
    }
  }

  /** Releasing a subnet that marking just allocated restores the state. */
  lemma ReleaseUndoesMark(c: Config, s: AllocState, subnet: IPNet)
    requires Contains(c.network, subnet.ip) && subnet !in s.inUse
    ensures Release(c, Mark(c, s, subnet).1, subnet) == (Ok(()), s)
  {
    assert s.inUse + {subnet} - {subnet} == s.inUse;
  }

  /** Marking a subnet that was just released restores the state. */
  lemma MarkUndoesRelease(c: Config, s: AllocState, subnet: IPNet)
    requires Contains(c.network, subnet.ip) && subnet in s.inUse
    ensures Mark(c, Release(c, s, subnet).1, subnet) == (Ok(()), s)
  {
    assert s.inUse - {subnet} + {subnet} == s.inUse;
  }

  /** The subnet an allocation returns can be released, which frees it again. */
  lemma ReleaseUndoesAllocate(c: Config, s: AllocState)
    requires ValidConfig(c) && ValidState(c, s)
    requires Allocate(c, s).0.Ok?
    ensures var (result, s1) := Allocate(c, s);
      Release(c, s1, result.value) == (Ok(()), AllocState(s.inUse, s1.next))
  {
    var (result, s1) := Allocate(c, s);
    var i := AllocateFirstFree(c, s);
    CandidateInside(c, Slot(c, s.next, i));
    assert s.inUse + {result.value} - {result.value} == s.inUse;
  }

  /** Allocation keeps every allocated key inside the network. */
  lemma AllocateInNetwork(c: Config, s: AllocState)
    requires ValidConfig(c) && ValidState(c, s) && InNetwork(c, s)
    ensures InNetwork(c, Allocate(c, s).1)
  {
    if Allocate(c, s).0.Ok? {
      var i := AllocateFirstFree(c, s);
      CandidateInside(c, Slot(c, s.next, i));
    }
  }

  /** Marking keeps every allocated key inside the network. */
  lemma MarkInNetwork(c: Config, s: AllocState, subnet: IPNet)
    requires InNetwork(c, s)
    ensures InNetwork(c, Mark(c, s, subnet).1)
  {
  }

  /** Releasing keeps every allocated key inside the network. */
  lemma ReleaseInNetwork(c: Config, s: AllocState, subnet: IPNet)
    requires InNetwork(c, s)
    ensures InNetwork(c, Release(c, s, subnet).1)
  {
  }

  // ---- a fresh allocator

  /** Candidates 0 to k - 1. */
  function FirstCandidates(c: Config, k: nat): (r: set<IPNet>)
    requires ValidConfig(c) && k <= SubnetCount(c)
  {
    if k == 0 then {} else FirstCandidates(c, k - 1) + {Candidate(c, k - 1)}
  }

  lemma {:induction false} InFirstCandidates(c: Config, k: nat, n: nat)
    requires ValidConfig(c) && k <= SubnetCount(c) && n < SubnetCount(c)
    ensures Candidate(c, n) in FirstCandidates(c, k) <==> n < k
    decreases k
  {
    if k > 0 {
      InFirstCandidates(c, k - 1, n);
      CandidateInjective(c, n, k - 1);
    }
  }

  /** The state after k allocations on a fresh allocator. */
  function Run(c: Config, k: nat): (r: AllocState)
    requires ValidConfig(c)
    ensures ValidState(c, r)
  {
    if k == 0 then Initial else Allocate(c, Run(c, k - 1)).1
  }

  /**
   * A fresh allocator hands out subnet numbers 0, 1, 2, ... in order: after k allocations
   * it holds exactly candidates 0 to k - 1, and next = k.
   */
  lemma {:induction false} FreshRun(c: Config, k: nat)
    requires ValidConfig(c) && k <= SubnetCount(c)
    ensures Run(c, k) == AllocState(FirstCandidates(c, k), k)
    decreases k
  {
    if k > 0 {
      FreshRun(c, k - 1);
      FreshStep(c, k - 1);
    }
  }

  /** Allocation number k + 1 of a fresh allocator returns candidate k. */
  lemma FreshStep(c: Config, k: nat)
    requires ValidConfig(c) && k < SubnetCount(c)
    ensures Allocate(c, AllocState(FirstCandidates(c, k), k)) ==
      (Ok(Candidate(c, k)), AllocState(FirstCandidates(c, k + 1), k + 1))
  {
    ModOnce(k, SubnetCount(c));
    assert Slot(c, k, 0) == k;
    InFirstCandidates(c, k, k);
    assert FirstFree(c, FirstCandidates(c, k), k, 0) == Some(0);
    ScanFromFirstFree(c, AllocState(FirstCandidates(c, k), k), 0);
  }

  /** Once all subnets are handed out, a fresh allocator's next allocation reports Full. */
  lemma FreshExhausted(c: Config)
    requires ValidConfig(c)
    ensures Allocate(c, Run(c, SubnetCount(c))).0 == Err(Full)
  {
    FreshRun(c, SubnetCount(c));
    forall n: nat | n < SubnetCount(c)
      ensures Candidate(c, n) in FirstCandidates(c, SubnetCount(c))
    {
      InFirstCandidates(c, SubnetCount(c), n);
    }
    AllocateFullIff(c, Run(c, SubnetCount(c)));
  }

  /** With every subnet in use, releasing one and allocating again hands the released one back. */
  lemma RefillAfterRelease(c: Config, s: AllocState, n: nat)
    requires ValidConfig(c) && ValidState(c, s) && n < SubnetCount(c)
    requires AllInUse(c, s.inUse)
    ensures var (released, s1) := Release(c, s, Candidate(c, n));
      released == Ok(()) && ValidState(c, s1) && Allocate(c, s1).0 == Ok(Candidate(c, n))
  {
    CandidateInside(c, n);
    var s1 := Release(c, s, Candidate(c, n)).1;
    AllocateFullIff(c, s1);
    var i := AllocateFirstFree(c, s1);
    assert Candidate(c, Slot(c, s1.next, i)) in s.inUse;
  }

  /** A SubnetAllocator: its fixed configuration and the two fields it updates. */
  class SubnetAllocator {
    const config: Config
    var inUse: set<IPNet>
    var next: nat

    ghost predicate Valid()
      reads this
    {
      ValidConfig(config) && ValidState(config, State())
    }

    function State(): AllocState
      reads this
    {
      AllocState(inUse, next)
    }

    constructor(config: Config)
      requires ValidConfig(config)
      ensures this.config == config && State() == Initial && Valid()
    {
      this.config := config;
      inUse := {};
      next := 0;
    }

    /** allocateNetwork: the wrap-around scan from next over all numSubnets subnet numbers. */
    method AllocateNetwork() returns (r: Result<IPNet, Error>)
      requires Valid()
      modifies this
      ensures Valid()
      ensures (r, State()) == Allocate(config, old(State()))
    {
      ScanFromFirstFree(config, State(), 0);
      var count := SubnetCount(config);
      var i := 0;
      while i < count
        invariant i <= count
        invariant State() == old(State())
        invariant FirstFree(config, inUse, next, i) == FirstFree(config, inUse, next, 0)
        decreases count - i
      {
        var n := (i + next) % count;
        var subnet := Candidate(config, n);
        if subnet !in inUse {
          inUse := inUse + {subnet};
          next := n + 1;
          return Ok(subnet);
        }
        i := i + 1;
      }
      next := 0;
      return Err(Full);
    }

    /** markAllocatedNetwork. */
    method MarkAllocatedNetwork(subnet: IPNet) returns (r: Result<(), Error>)
      requires Valid()
      modifies this
      ensures Valid()
      ensures (r, State()) == Mark(config, old(State()), subnet)
    {
      if !Contains(config.network, subnet.ip) {
        return Err(NotInNetwork);
      }
      if subnet !in inUse {
        inUse := inUse + {subnet};
      } else {
        assert inUse + {subnet} == inUse;
      }
      return Ok(());
    }

    /** releaseNetwork. */
    method ReleaseNetwork(subnet: IPNet) returns (r: Result<(), Error>)
      requires Valid()
      modifies this
      ensures Valid()
      ensures (r, State()) == Release(config, old(State()), subnet)
    {
      if !Contains(config.network, subnet.ip) {
        return Err(NotInNetwork);
      }
      if subnet !in inUse {
        return Err(AlreadyAvailable);
      }
      inUse := inUse - {subnet};
      return Ok(());
    }
  }

  /** newSubnetAllocator: a fresh allocator, or the first check that fails. */
  method NewSubnetAllocator(network: Option<IPNet>, hostBits: Word) returns (r: Result<SubnetAllocator, Error>)
    ensures r.Err? ==> ConfigFor(network, hostBits) == Err(r.error)
    ensures r.Ok? ==> ConfigFor(network, hostBits) == Ok(r.value.config)
    ensures r.Ok? ==> fresh(r.value) && r.value.Valid() && r.value.State() == Initial
  {
    var config := ConfigFor(network, hostBits);
    if config.Err? {
      return Err(config.error);
    }
    var allocator := new SubnetAllocator(config.value);
    return Ok(allocator);
  }
}
