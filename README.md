# Subnet allocator model

A Dafny model of the OpenShift SDN master's subnet allocator
(`pkg/network/master/subnet_allocator.go`). The master owns one `SubnetAllocator` per
configured cluster network and hands each node a subnet of one of them.

A `SubnetAllocator` splits its cluster network into `2^subnetBits` subnets of `hostBits`
host bits each. It keeps two things between calls:

- the set of subnets in use (the keys its `allocMap` maps to true);
- the cursor `next`, where the next wrap-around scan starts.

When the subnet-number field starts inside an octet and runs into the next one,
`newSubnetAllocator` derives four rotation values (`leftShift`, `leftMask`, `rightShift`,
`rightMask`). `allocateNetwork` uses them to rotate the subnet number, so that the subnets
whose bits in the shared octet are all zero are handed out first.

The modules follow the file's parts:

- `Words`: Go's `uint32` arithmetic. A word is a natural number below 2^32. `&`, `|`,
  `<<` and `>>` are defined bit by bit, with Go's truncation written out: `<<` by 32 or
  more gives 0. Subtraction wraps modulo 2^32, so `uint32(1)<<32 - 1` is all ones.
  Words are bounded naturals with a library of bit lemmas rather than `bv32`, because the
  rotation is stated position by position and the same proofs over `bv32` were slow and
  brittle in the solver.
- `Ipv4`: `net.IP` byte forms, `To4`, `IPToUint32` / `Uint32ToIP`, and a parsed CIDR
  `IPNet(ip, prefix)` with `Contains` and the masking `net.ParseCIDR` does.
- `Rotation`: the rotation parameters and the candidate-address expression of
  `allocateNetwork`, with their bit-level meaning.
- `Allocator`:
  - the per-allocator operations as functions from the old state to the result and the
    new state;
  - the `SubnetAllocator` class, whose methods update `inUse` and `next` in place and are
    proved to agree with those functions.
- `Scenario`: the worked example in the source's comment. The network 10.1.0.0/16 with
  6 host bits hands out 10.1.0.0/26 … 10.1.255.0/26 first, then 10.1.0.64/26.
- `Master`: the `OsdnMaster` class, covering routing by cluster network, allocation with
  fallback across allocators, and the start-up construction and marking pass. A cluster
  network holds its CIDR through a `NetPointer` object, as Go's holds a `*net.IPNet`. The
  allocator map compares keys by that pointer, so two separately parsed cluster networks
  with the same CIDR are two keys.

Since `next` is the scan's starting subnet number, one might expect `next < numSubnets`
to hold between calls. It need not: line 115 sets `next = n + 1` after handing out
subnet `n`, so `next` reaches `numSubnets` when `n` is the last subnet number. The
model's invariant is therefore `next <= numSubnets` (`Allocator.ValidState`). The next
scan starts at `numSubnets mod numSubnets = 0`, so nothing goes wrong.

## Model

| member | source | states |
|---|---|---|
| Words.BitAnd | pkg/network/master/subnet_allocator.go:110 | bit i of `x & y` is set exactly when bit i is set in both |
| Words.BitOr | pkg/network/master/subnet_allocator.go:110 | bit i of the bitwise or of x and y is set exactly when bit i is set in either |
| Words.BitShl | pkg/network/master/subnet_allocator.go:109-110 | bit i of `x << s` is bit i - s of x for s <= i < 32, and clear otherwise; the bits shifted past bit 31 are lost |
| Words.BitShr | pkg/network/master/subnet_allocator.go:110 | bit i of `x >> s` is bit s + i of x |
| Words.ShlOnePow2 | pkg/network/master/subnet_allocator.go:104 | `1 << k` is 2^k for k < 32 and 0 from 32 on |
| Words.BitLowMask | pkg/network/master/subnet_allocator.go:58 | `uint32(1)<<k - 1` has exactly bits 0 to min(k, 32) - 1 set, so a zero prefix length gives all ones |
| Ipv4.To4 | pkg/network/master/subnet_allocator.go:142 | a 4-byte address, or a 16-byte one behind the IPv4-in-IPv6 prefix, yields its last 4 bytes; anything else yields nil |
| Ipv4.Uint32RoundTrip | pkg/network/master/subnet_allocator.go:141-149 | `Uint32ToIP` gives an IPv4 address, and `IPToUint32` of it returns the original word |
| Ipv4.IPRoundTrip | pkg/network/master/subnet_allocator.go:141-149 | converting an IPv4 address to uint32 and back yields its 16-byte form, with the same 4 bytes |
| Ipv4.Uint32ToIPInjective | pkg/network/master/subnet_allocator.go:145-149 | different words give different addresses |
| Ipv4.ContainsBits | pkg/network/master/subnet_allocator.go:84 | a network contains an address exactly when the two agree on the top `prefix` bits |
| Ipv4.AlignedBits | pkg/network/master/subnet_allocator.go:28 | a network is masked exactly when every bit below its prefix is clear |
| Ipv4.MaskIdempotent | pkg/network/master/subnet_allocator.go:219 | masking an address twice is masking it once |
| Ipv4.Masked | pkg/network/master/subnet_allocator.go:28 | the network read from a CIDR keeps its prefix length, is masked, and contains the address read; a masked network is left as it is |
| Rotation.ParamsFor | pkg/network/master/subnet_allocator.go:56-66 | the straddling case has leftShift in 1..7, which brings hostBits up to an octet boundary, and leftShift + rightShift = subnetBits; otherwise both shifts are 0 |
| Rotation.StraddleParams | pkg/network/master/subnet_allocator.go:56-60 | in the straddling case, bit i of leftMask is set exactly when i < 32 - prefix (host and subnet bits), and bit i of rightMask exactly when hostBits <= i < hostBits + leftShift (the shared octet) |
| Rotation.BitAddress | pkg/network/master/subnet_allocator.go:109-110 | bit i of the candidate address is bit i of the base, or, inside the subnet field, bit (i - hostBits + rightShift) mod subnetBits of n |
| Rotation.AddressInside | pkg/network/master/subnet_allocator.go:109-110 | for every n < 2^subnetBits the candidate lies inside the parent network |
| Rotation.AddressAligned | pkg/network/master/subnet_allocator.go:109-112 | the candidate's low hostBits bits are zero over a masked base, so the /(32 - hostBits) subnet is masked |
| Rotation.AddressInjective | pkg/network/master/subnet_allocator.go:109-110 | distinct subnet numbers give distinct addresses |
| Rotation.AddressUnrotated | pkg/network/master/subnet_allocator.go:61-66 | outside the straddling case the candidate is base OR (n << hostBits) |
| Rotation.AddressRotatedLow | pkg/network/master/subnet_allocator.go:47-53 | in the straddling case, a subnet number below 2^rightShift lands at base OR (n << (hostBits + leftShift)), leaving the shared octet zero |
| Rotation.AddressSharedOctetClear | pkg/network/master/subnet_allocator.go:47-60 | in the straddling case, the shared-octet bits hostBits .. hostBits + leftShift - 1 of the address of subnet n are all clear if and only if n < 2^rightShift, so the subnets handed out first are exactly those |
| Allocator.ConfigFor | pkg/network/master/subnet_allocator.go:27-78 | an unparsable network, zero host bits and more host bits than the network has fail with their own errors; otherwise the allocator is built over the masked network with these host bits and the derived rotation values |
| Allocator.SubnetCount | pkg/network/master/subnet_allocator.go:103-104 | numSubnets is 2^subnetBits, between 1 and 2^31 |
| Allocator.CandidateInside | pkg/network/master/subnet_allocator.go:110-112 | genSubnet has prefix netMaskSize + numSubnetBits, lies inside the network and is masked |
| Allocator.CandidateInjective | pkg/network/master/subnet_allocator.go:108-112 | two subnet numbers give the same genSubnet exactly when they are equal |
| Allocator.Slot | pkg/network/master/subnet_allocator.go:108 | the number tried at step i is below numSubnets |
| Allocator.SlotOnto | pkg/network/master/subnet_allocator.go:106-108 | with next <= numSubnets, every subnet number is tried at some step of the scan |
| Allocator.FirstFree | pkg/network/master/subnet_allocator.go:106-118 | the step found holds a candidate not in use, and every step before it holds one in use; None means every step holds one in use |
| Allocator.ScanFromFirstFree | pkg/network/master/subnet_allocator.go:106-121 | the loop, step by step from step i, hands out and records the candidate of the first free step and sets next to its number + 1; when every step holds a subnet in use it reports Full and sets next to 0 |
| Allocator.Run | pkg/network/master/subnet_allocator.go:115 | after any number of allocations from a fresh allocator, next <= numSubnets |
| Allocator.Allocate | pkg/network/master/subnet_allocator.go:93-122 | a success returns a subnet not in use, with prefix netMaskSize + numSubnetBits, and adds exactly it; a failure is Full, leaves the keys as they were and resets next to 0; next <= numSubnets holds afterwards |
| Allocator.AllocateFirstFree | pkg/network/master/subnet_allocator.go:106-116 | a success returns the candidate of the first scan step (i + next) mod numSubnets whose candidate is free, every earlier step's candidate being in use, and next becomes n + 1 |
| Allocator.AllocateFullIff | pkg/network/master/subnet_allocator.go:106-121 | allocation fails exactly when every candidate of the network is in use |
| Allocator.Mark | pkg/network/master/subnet_allocator.go:80-91 | marking succeeds exactly when the network contains the subnet's address; a failure is NotInNetwork and changes nothing; a success leaves the subnet in use and next unchanged |
| Allocator.Release | pkg/network/master/subnet_allocator.go:124-139 | release succeeds exactly when the address is in the network and the subnet is in use; it fails with NotInNetwork, else with AlreadyAvailable, changing nothing; a success frees the subnet and leaves next unchanged |
| Allocator.MarkOnlyThatKey | pkg/network/master/subnet_allocator.go:87-89 | marking changes no key but the marked one |
| Allocator.ReleaseOnlyThatKey | pkg/network/master/subnet_allocator.go:132-137 | releasing changes no key but the released one |
| Allocator.MarkIdempotent | pkg/network/master/subnet_allocator.go:87-89 | marking the same subnet twice gives the same result and state as marking it once |
| Allocator.ReleaseUndoesMark | pkg/network/master/subnet_allocator.go:124-139 | releasing a subnet that marking just allocated succeeds and restores the state |
| Allocator.MarkUndoesRelease | pkg/network/master/subnet_allocator.go:80-91 | marking a subnet that was just released succeeds and restores the state |
| Allocator.ReleaseUndoesAllocate | pkg/network/master/subnet_allocator.go:113-137 | the subnet an allocation returns can be released, which restores the keys in use |
| Allocator.AllocateInNetwork | pkg/network/master/subnet_allocator.go:110-114 | allocation keeps every key in use inside the network |
| Allocator.MarkInNetwork | pkg/network/master/subnet_allocator.go:84-89 | marking keeps every key in use inside the network |
| Allocator.ReleaseInNetwork | pkg/network/master/subnet_allocator.go:128-137 | releasing keeps every key in use inside the network |
| Allocator.FreshRun | pkg/network/master/subnet_allocator.go:106-117 | after k allocations a fresh allocator holds exactly candidates 0 to k - 1, with next = k |
| Allocator.FreshStep | pkg/network/master/subnet_allocator.go:106-117 | allocation k + 1 of a fresh allocator returns candidate k |
| Allocator.FreshExhausted | pkg/network/master/subnet_allocator.go:120-121 | once all numSubnets subnets are handed out, the next allocation reports Full |
| Allocator.RefillAfterRelease | pkg/network/master/subnet_allocator.go:106-138 | with every subnet in use, releasing one succeeds, and the next allocation hands that one back |
| Allocator.SubnetAllocator.constructor | pkg/network/master/subnet_allocator.go:68-77 | a new allocator has nothing in use and next = 0 |
| Allocator.SubnetAllocator.AllocateNetwork | pkg/network/master/subnet_allocator.go:93-122 | the in-place scan returns and leaves exactly what Allocate gives for the old state |
| Allocator.SubnetAllocator.MarkAllocatedNetwork | pkg/network/master/subnet_allocator.go:80-91 | the in-place update returns and leaves exactly what Mark gives |
| Allocator.SubnetAllocator.ReleaseNetwork | pkg/network/master/subnet_allocator.go:124-139 | the in-place update returns and leaves exactly what Release gives |
| Allocator.NewSubnetAllocator | pkg/network/master/subnet_allocator.go:27-78 | fails with ConfigFor's error, or returns a new valid allocator with ConfigFor's configuration and nothing in use |
| Scenario.ScenarioConfig | pkg/network/master/subnet_allocator.go:41-66 | 10.1.0.0/16 with 6 host bits gives 1024 subnets, straddles the third octet, and has leftShift 2 and rightShift 8 |
| Scenario.WalkThirdOctet | pkg/network/master/subnet_allocator.go:49-51 | for k < 256, allocation k + 1 of a fresh allocator returns 10.1.k.0/26 |
| Scenario.SecondPass | pkg/network/master/subnet_allocator.go:51-53 | allocation 257 returns 10.1.0.64/26 |
| Master.Lift | pkg/network/master/subnet_allocator.go:182-185 | an allocator's success passes through, and its error is passed on unchanged |
| Master.FindClusterNetwork | pkg/network/master/subnet_allocator.go:224-233 | the index found holds the address and no earlier cluster network does; None means none does |
| Master.AllocateScan | pkg/network/master/subnet_allocator.go:192-204 | trying the allocators in turn keeps every one valid and their number unchanged |
| Master.AllocateScanFirst | pkg/network/master/subnet_allocator.go:192-204 | the scan succeeds exactly at the first allocator that is not full, with what its own allocateNetwork returns; each full one passed has only next reset; the others are untouched; when all are full, the error names the node and Full |
| Master.SkipsFullPool | pkg/network/master/subnet_allocator.go:194-196 | with a full allocator ahead of a fresh one, allocation resets the full one and hands out the fresh one's first subnet |
| Master.FirstInvalid | pkg/network/master/subnet_allocator.go:154-158 | the index found is a cluster network whose allocator cannot be built, and every earlier one can; None means all can |
| Master.FirstInvalidAt | pkg/network/master/subnet_allocator.go:154-158 | a failing network after networks that all build is the first invalid one |
| Master.RegisterOutside | pkg/network/master/subnet_allocator.go:160 | registering leaves the map entry of an unlisted cluster network as it was |
| Master.RegisterLast | pkg/network/master/subnet_allocator.go:160 | a cluster network maps to the allocator built at its last occurrence |
| Master.RegisterValues | pkg/network/master/subnet_allocator.go:160 | every allocator in the registered map was there before or was just built |
| Master.SeparateEntriesKeepTheirAllocators | pkg/network/master/subnet_allocator.go:153-160 | two cluster networks whose CIDRs were parsed separately are two map keys, even with equal contents, so each keeps the allocator built for it |
| Master.OsdnMaster.GetSubnetAllocator | pkg/network/master/subnet_allocator.go:218-234 | an unparsable subnet, no cluster network holding its masked address, or no allocator for the first one that does, each fail with their own error; otherwise the first such network's allocator and the masked subnet are returned |
| Master.OsdnMaster.MarkedInKeys | pkg/network/master/subnet_allocator.go:168-172 | marking the listed subnets records a key in an allocator exactly when some listed subnet routes there, lies in its network and masks to that key |
| Master.OsdnMaster.MarkAllocatedNetwork | pkg/network/master/subnet_allocator.go:177-186 | a routing error changes nothing; otherwise the routed allocator changes as Mark says; every allocator gains exactly the subnet's key when the subnet is routed to it and lies in its network, and keeps its next |
| Master.OsdnMaster.ReleaseNetwork | pkg/network/master/subnet_allocator.go:207-216 | a routing error changes nothing; otherwise the routed allocator changes as Release says, and every other allocator is untouched |
| Master.OsdnMaster.AddAllocator | pkg/network/master/subnet_allocator.go:155-160 | a failing network changes nothing and returns its error; otherwise a new allocator with that network's configuration and nothing in use is appended and registered under it |
| Master.OsdnMaster.BuildAllocators | pkg/network/master/subnet_allocator.go:154-161 | an allocator is appended for each cluster network in order up to the first that fails, and registered under it; the result is that failure's error, or success |
| Master.OsdnMaster.MarkListed | pkg/network/master/subnet_allocator.go:168-172 | marking every listed subnet, and ignoring failures, adds to each allocator exactly the keys routed to it and keeps its next |
| Master.OsdnMaster.InitSubnetAllocators | pkg/network/master/subnet_allocator.go:153-175 | the construction pass as BuildAllocators; a construction or listing error is returned and leaves the new allocators empty; otherwise each allocator holds its old keys plus those the listed subnets route to it |
| Master.OsdnMaster.AllocateIn | pkg/network/master/subnet_allocator.go:193 | asking allocator i changes it as Allocate says and leaves every other allocator as it was |
| Master.OsdnMaster.AllocateNetwork | pkg/network/master/subnet_allocator.go:188-205 | the result and every allocator's new state are those of AllocateScan over the old states |

## Left out

- The mutex (lines 24, 81-82, 98-99, 125-126). Each operation is modelled as one atomic
  step, since the lock only serialises them.
- `net.ParseCIDR` text parsing (lines 28, 219). A network or subnet comes in already
  parsed, as `Option<IPNet>`, where `None` stands for text that does not parse. The
  masking `ParseCIDR` applies is modelled, by `Ipv4.Masked`.
- `IPNet.String()`, used as the allocation-map key (lines 87-88, 113-114, 132-136) and
  as the master's result (line 201). The key is the `IPNet` value itself. It holds the
  address and the prefix length, the two things the string prints.
- IPv6 cluster networks. `IPNet` holds a 32-bit address only; on an IPv6 network Go's
  `IPToUint32` would receive a nil `To4`. `Ipv4.IPToUint32` requires an IPv4 address.
- The `net.IP` round trip inside `allocateNetwork` (lines 101, 111). The network address
  is kept as a word and the candidate is built as a word. `Ipv4.Uint32RoundTrip` shows
  that converting to `net.IP` and back loses nothing.
- The `HostSubnets().List` call (line 164). Its outcome is the `subnets` parameter of
  `InitSubnetAllocators`, with `None` standing for a failed call.
- `utilruntime.HandleError` logging (lines 170, 198). Failures are skipped as the code
  skips them, and nothing is recorded.
- Error message texts. Errors are datatype variants: `Allocator.Error` and
  `Master.MasterError`.
- A nil allocator in `subnetAllocatorMap` (line 227). The model's map holds only built
  allocators, so only the missing-key half of that check is modelled.
- `Allocator.SubnetAllocator.AllocateNetwork` has only one error, `Full`. The master
  handles any other allocator error like `Full` (lines 197-199), which `AllocateScan`
  does for every error.
- `Master.OsdnMaster.BuildAllocators` returns a ghost sequence of the allocators it
  built, which the Go code does not. It exists only to state the result.
