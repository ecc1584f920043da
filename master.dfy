/**
 * The OsdnMaster side: one SubnetAllocator per cluster network. The master routes
 * mark and release requests to the allocator of the first cluster network that
 * holds the subnet. It asks the allocators in list order for a new subnet, skipping
 * the full ones.
 */
module Master {
  import opened Wrappers
  import opened Words
  import opened Ipv4
  import opened Allocator

  /**
   * A parsed cluster CIDR, held by pointer. Two entries parsed separately are two
   * objects even when they hold the same network.
   */
  class NetPointer {
    const net: IPNet

    constructor(net: IPNet)
      ensures this.net == net
    {
      this.net := net;
    }
  }

  /**
   * One configured cluster network: a pointer to its CIDR and the host bits of each
   * node subnet. As a map key it compares the pointer, not the network it points to.
   */
  datatype ClusterNetwork = ClusterNetwork(clusterCIDR: NetPointer, hostSubnetLength: Word)

  /** The errors the master reports. The message texts are not modelled. */
  datatype MasterError =
    | SubnetParseFailed                                   // the subnet string does not parse
    | AllocatorNotFound(cn: ClusterNetwork)               // no allocator registered for the network
    | NotInClusterNetworks                                // no cluster network holds the subnet
    | AllocatorFailed(error: Error)                       // the allocator's own error, passed through
    | AllocationFailed(node: string, last: Option<Error>) // every allocator failed; the last error, if any
    | ListFailed                                          // listing the recorded HostSubnets failed

  /** An allocator's error, as the master passes it on. */
  function Lift(r: Result<(), Error>): (m: Result<(), MasterError>)
    ensures m.Ok? <==> r.Ok?
    ensures r.Err? ==> m == Err(AllocatorFailed(r.error))
  {
    if r.Ok? then Ok(()) else Err(AllocatorFailed(r.error))
  }

  /**
   * The index of the first cluster network whose CIDR holds ip, or None when none does.
   */
  function FindClusterNetwork(cns: seq<ClusterNetwork>, ip: Word): (r: Option<nat>)
    ensures r.Some? ==> r.value < |cns| && Contains(cns[r.value].clusterCIDR.net, ip)
    ensures r.Some? ==> forall k :: 0 <= k < r.value ==> !Contains(cns[k].clusterCIDR.net, ip)
    ensures r.None? ==> forall k :: 0 <= k < |cns| ==> !Contains(cns[k].clusterCIDR.net, ip)
  {
    if cns == [] then None
    else if Contains(cns[0].clusterCIDR.net, ip) then Some(0)
    else
      match FindClusterNetwork(cns[1..], ip)
      case None => None
      case Some(k) => Some(k + 1)
  }

  /** One allocator as the master's allocation scan sees it: its configuration and its state. */
  datatype Pool = Pool(config: Config, state: AllocState)

  predicate ValidPool(p: Pool)
  {
    ValidConfig(p.config) && ValidState(p.config, p.state)
  }

  /** A pool after an allocation that found it full: next is back at 0. */
  function Reset(p: Pool): Pool
  {
    Pool(p.config, AllocState(p.state.inUse, 0))
  }

  /**
   * OsdnMaster.allocateNetwork from list position i on. Pools before i have been
   * tried already; last is the error of the latest failed try. Each pool is asked in
   * turn. The first success is returned. A failure moves on to the next pool, and
   * when none is left the error names the node and the last error.
   */
  function AllocateScan(pools: seq<Pool>, i: nat, node: string, last: Option<Error>)
    : (r: (Result<IPNet, MasterError>, seq<Pool>))
    requires i <= |pools| && forall k :: 0 <= k < |pools| ==> ValidPool(pools[k])
    ensures |r.1| == |pools| && forall k :: 0 <= k < |pools| ==> ValidPool(r.1[k])
    decreases |pools| - i
  {
    if i == |pools| then (Err(AllocationFailed(node, last)), pools)
    else
      assert ValidPool(pools[i]);
      var (result, state) := Allocate(pools[i].config, pools[i].state);
      var tried := pools[i := Pool(pools[i].config, state)];
      if result.Ok? then (Ok(result.value), tried)
      else AllocateScan(tried, i + 1, node, Some(result.error))
  }

  /**
   * What the scan does, in full. It stops at j, the first pool from i on that is
   * not full. It allocates there, exactly as that pool's own allocateNetwork does.
   * Each full pool it passed has next reset and nothing else changed. Every other
   * pool is untouched. When every pool from i on is full, the error names the node
   * and the last error: Full when at least one pool was tried.
   */
  lemma {:induction false} AllocateScanFirst(pools: seq<Pool>, i: nat, node: string, last: Option<Error>)
    returns (j: nat)
    requires i <= |pools| && forall k :: 0 <= k < |pools| ==> ValidPool(pools[k])
    ensures i <= j <= |pools|
    ensures var r := AllocateScan(pools, i, node, last);
      (r.0.Ok? <==> j < |pools|) &&
      (forall k :: i <= k < j ==> AllInUse(pools[k].config, pools[k].state.inUse) && r.1[k] == Reset(pools[k])) &&
      (forall k :: 0 <= k < |pools| && (k < i || j < k) ==> r.1[k] == pools[k]) &&
      (j < |pools| ==>
        !AllInUse(pools[j].config, pools[j].state.inUse) &&
        Allocate(pools[j].config, pools[j].state) == (Ok(r.0.value), r.1[j].state) &&
        r.1[j].config == pools[j].config) &&
      (j == |pools| ==> r.0 == Err(AllocationFailed(node, if i < |pools| then Some(Full) else last)))
    decreases |pools| - i
  {
    if i == |pools| {
      j := i;
    } else {
      var (result, state) := Allocate(pools[i].config, pools[i].state);
      var tried := pools[i := Pool(pools[i].config, state)];
      AllocateFullIff(pools[i].config, pools[i].state);
      if result.Ok? {
        j := i;
      } else {
        assert ValidPool(tried[i]);
        j := AllocateScanFirst(tried, i + 1, node, Some(result.error));
        var r := AllocateScan(pools, i, node, last);
        assert r == AllocateScan(tried, i + 1, node, Some(result.error));
        forall k | i <= k < j
          ensures AllInUse(pools[k].config, pools[k].state.inUse) && r.1[k] == Reset(pools[k])
        {
          if k > i {
            assert tried[k] == pools[k];
          }
        }
        forall k | 0 <= k < |pools| && (k < i || j < k)
          ensures r.1[k] == pools[k]
        {
          assert tried[k] == pools[k];
        }
      }
    }
  }

  /**
   * With a full pool ahead of an unused one, allocateNetwork skips the full pool (only
   * resetting its next) and hands out the unused pool's first subnet.
   */
  lemma SkipsFullPool(full: Pool, idle: Pool, node: string)
    requires ValidPool(full) && ValidPool(idle) && idle.state == Initial
    requires AllInUse(full.config, full.state.inUse)
    ensures AllocateScan([full, idle], 0, node, None) ==
      (Ok(Candidate(idle.config, 0)), [Reset(full), Pool(idle.config, AllocState({Candidate(idle.config, 0)}, 1))])
  {
    var pools := [full, idle];
    assert forall k :: 0 <= k < |pools| ==> ValidPool(pools[k]);
    var j := AllocateScanFirst(pools, 0, node, None);
    AllocateFullIff(idle.config, idle.state);
    FreshStep(idle.config, 0);
    assert FirstCandidates(idle.config, 1) == {Candidate(idle.config, 0)};
    assert j == 1;
    var r := AllocateScan(pools, 0, node, None);
    assert r.1[0] == Reset(full) && r.1[1] == Pool(idle.config, AllocState({Candidate(idle.config, 0)}, 1));
    assert r.1 == [Reset(full), Pool(idle.config, AllocState({Candidate(idle.config, 0)}, 1))];
  }

  /** newSubnetAllocator's outcome for one cluster network, whose CIDR it re-reads as text. */
  function ConfigOf(cn: ClusterNetwork): Result<Config, Error>
  {
    ConfigFor(Some(cn.clusterCIDR.net), cn.hostSubnetLength)
  }

  /** The index of the first cluster network whose allocator cannot be built, if any. */
  function FirstInvalid(cns: seq<ClusterNetwork>): (r: Option<nat>)
    ensures r.Some? ==> r.value < |cns| && ConfigOf(cns[r.value]).Err?
    ensures r.Some? ==> forall k :: 0 <= k < r.value ==> ConfigOf(cns[k]).Ok?
    ensures r.None? ==> forall k :: 0 <= k < |cns| ==> ConfigOf(cns[k]).Ok?
  {
    if cns == [] then None
    else if ConfigOf(cns[0]).Err? then Some(0)
    else
      match FirstInvalid(cns[1..])
      case None => None
      case Some(k) => Some(k + 1)
  }

  /**
   * The allocator map after registering sas[k] under cns[k] for each k in order: a
   * later entry for the same cluster network replaces an earlier one.
   */
  function Register(m: map<ClusterNetwork, SubnetAllocator>, cns: seq<ClusterNetwork>, sas: seq<SubnetAllocator>)
    : map<ClusterNetwork, SubnetAllocator>
    requires |cns| == |sas|
    decreases |cns|
  {
    if cns == [] then m
    else
      var n := |cns| - 1;
      Register(m, cns[..n], sas[..n])[cns[n] := sas[n]]
  }

  /** Registering leaves the entry of a cluster network outside cns as it was. */
  lemma {:induction false} RegisterOutside(m: map<ClusterNetwork, SubnetAllocator>, cns: seq<ClusterNetwork>,
                                           sas: seq<SubnetAllocator>, cn: ClusterNetwork)
    requires |cns| == |sas| && cn !in cns
    ensures var r := Register(m, cns, sas);
      (cn in r <==> cn in m) && (cn in m ==> r[cn] == m[cn])
    decreases |cns|
  {
    if cns != [] {
      var n := |cns| - 1;
      assert cns == cns[..n] + [cns[n]];
      RegisterOutside(m, cns[..n], sas[..n], cn);
    }
  }

  /** A cluster network maps to the allocator registered at its last occurrence in cns. */
  lemma {:induction false} RegisterLast(m: map<ClusterNetwork, SubnetAllocator>, cns: seq<ClusterNetwork>,
                                        sas: seq<SubnetAllocator>, k: nat)
    requires |cns| == |sas| && k < |cns|
    requires forall l :: k < l < |cns| ==> cns[l] != cns[k]
    ensures var r := Register(m, cns, sas);
      cns[k] in r && r[cns[k]] == sas[k]
    decreases |cns|
  {
    var n := |cns| - 1;
    if k < n {
      RegisterLast(m, cns[..n], sas[..n], k);
    }
  }

  /**
   * Two cluster networks parsed separately keep one allocator each, even when they
   * hold the same network and host bits: the first entry's allocator is not replaced.
   */
  lemma SeparateEntriesKeepTheirAllocators(m: map<ClusterNetwork, SubnetAllocator>, p0: NetPointer, p1: NetPointer,
                                           hostBits: Word, a0: SubnetAllocator, a1: SubnetAllocator)
    requires p0 != p1
    ensures var cn0, cn1 := ClusterNetwork(p0, hostBits), ClusterNetwork(p1, hostBits);
      var r := Register(m, [cn0, cn1], [a0, a1]);
      cn0 in r && r[cn0] == a0 && cn1 in r && r[cn1] == a1
  {
    var cn0, cn1 := ClusterNetwork(p0, hostBits), ClusterNetwork(p1, hostBits);
    RegisterLast(m, [cn0, cn1], [a0, a1], 0);
    RegisterLast(m, [cn0, cn1], [a0, a1], 1);
  }

  /** Every allocator the registered map names was in the old map or among sas. */
  lemma {:induction false} RegisterValues(m: map<ClusterNetwork, SubnetAllocator>, cns: seq<ClusterNetwork>,
                                          sas: seq<SubnetAllocator>, cn: ClusterNetwork)
    requires |cns| == |sas|
    requires cn in Register(m, cns, sas)
    ensures Register(m, cns, sas)[cn] in m.Values || Register(m, cns, sas)[cn] in sas
    decreases |cns|
  {
    if cns != [] {
      var n := |cns| - 1;
      if cn != cns[n] {
        RegisterValues(m, cns[..n], sas[..n], cn);
        var v := Register(m, cns, sas)[cn];
        if v in sas[..n] {
          var i :| 0 <= i < n && sas[..n][i] == v;
          assert sas[i] == v;
        }
      }
    }
  }

  /** A network whose allocator cannot be built, after networks whose allocators can, is the first invalid one. */
  lemma {:induction false} FirstInvalidAt(cns: seq<ClusterNetwork>, k: nat)
    requires k <= |cns| && (k < |cns| ==> ConfigOf(cns[k]).Err?)
    requires forall l :: 0 <= l < k ==> ConfigOf(cns[l]).Ok?
    ensures FirstInvalid(cns) == if k < |cns| then Some(k) else None
  {
    if k > 0 {
      assert forall l :: 0 <= l < k - 1 ==> cns[1..][l] == cns[l + 1];
      FirstInvalidAt(cns[1..], k - 1);
    }
  }

  /**
   * The master: the configured cluster networks, the allocators in configuration
   * order, and the map from cluster network to allocator that routing uses.
   */
  class OsdnMaster {
    const clusterNetworks: seq<ClusterNetwork>
    var allocatorList: seq<SubnetAllocator>
    var allocatorMap: map<ClusterNetwork, SubnetAllocator>

    /** The allocators are distinct and valid, and every allocator the map names is in the list. */
    ghost predicate Valid()
      reads this, allocatorList
    {
      (forall p, q :: 0 <= p < q < |allocatorList| ==> allocatorList[p] != allocatorList[q]) &&
      (forall k :: 0 <= k < |allocatorList| ==> allocatorList[k].Valid()) &&
      (forall cn :: cn in allocatorMap ==> allocatorMap[cn] in allocatorList)
    }

    /** Each allocator's configuration and state, in list order. */
    function Pools(): seq<Pool>
      reads this, allocatorList
    {
      var list := allocatorList;
      seq(|list|, k requires 0 <= k < |list| reads list => Pool(list[k].config, list[k].State()))
    }

    /** A master with no allocators yet. */
    constructor(clusterNetworks: seq<ClusterNetwork>)
      ensures this.clusterNetworks == clusterNetworks
      ensures allocatorList == [] && allocatorMap == map[] && Valid()
    {
      this.clusterNetworks := clusterNetworks;
      allocatorList := [];
      allocatorMap := map[];
    }

    /**
     * getSubnetAllocator. The subnet is what net.ParseCIDR read (None when it does not
     * parse); the allocator is asked about the masked network. The first cluster network
     * that holds the masked address decides, and its allocator must be registered.
     */
    function GetSubnetAllocator(subnet: Option<IPNet>): (r: Result<(SubnetAllocator, IPNet), MasterError>)
      reads this
      ensures subnet.None? ==> r == Err(SubnetParseFailed)
      ensures subnet.Some? ==>
        var ipnet := Masked(subnet.value);
        var found := FindClusterNetwork(clusterNetworks, ipnet.ip);
        (found.None? ==> r == Err(NotInClusterNetworks)) &&
        (found.Some? && clusterNetworks[found.value] !in allocatorMap ==>
          r == Err(AllocatorNotFound(clusterNetworks[found.value]))) &&
        (found.Some? && clusterNetworks[found.value] in allocatorMap ==>
          r == Ok((allocatorMap[clusterNetworks[found.value]], ipnet)))
    {
      if subnet.None? then Err(SubnetParseFailed)
      else
        var ipnet := Masked(subnet.value);
        match FindClusterNetwork(clusterNetworks, ipnet.ip)
        case None => Err(NotInClusterNetworks)
        case Some(k) =>
          if clusterNetworks[k] !in allocatorMap then Err(AllocatorNotFound(clusterNetworks[k]))
          else Ok((allocatorMap[clusterNetworks[k]], ipnet))
    }

    /** getSubnetAllocator sends this subnet to allocator a. */
    predicate Routes(subnet: Option<IPNet>, a: SubnetAllocator)
      reads this
    {
      var g := GetSubnetAllocator(subnet);
      g.Ok? && g.value.0 == a
    }

    /** markAllocatedNetwork records this subnet in allocator a: it routes there and lies in a's network. */
    predicate MarksIn(subnet: Option<IPNet>, a: SubnetAllocator)
      reads this
      ensures MarksIn(subnet, a) ==> subnet.Some?
    {
      subnet.Some? && Routes(subnet, a) && Contains(a.config.network, Masked(subnet.value).ip)
    }

    /** The keys that marking every listed subnet, in order, records in allocator a. */
    function MarkedIn(subnets: seq<Option<IPNet>>, a: SubnetAllocator): set<IPNet>
      reads this
      decreases |subnets|
    {
      if subnets == [] then {}
      else
        var last := |subnets| - 1;
        MarkedIn(subnets[..last], a) + if MarksIn(subnets[last], a) then {Masked(subnets[last].value)} else {}
    }

    /** A key is marked in a exactly when some listed subnet that a records masks to it. */
    lemma {:induction false} MarkedInKeys(subnets: seq<Option<IPNet>>, a: SubnetAllocator, key: IPNet)
      ensures key in MarkedIn(subnets, a) <==>
        exists t :: 0 <= t < |subnets| && MarksIn(subnets[t], a) && key == Masked(subnets[t].value)
      decreases |subnets|
    {
      if subnets != [] {
        var last := |subnets| - 1;
        var init := subnets[..last];
        MarkedInKeys(init, a, key);
        assert forall t :: 0 <= t < last ==> init[t] == subnets[t];
      }
    }

    /**
     * markAllocatedNetwork: route the subnet, then mark it in that allocator. A routing
     * error changes nothing; otherwise the chosen allocator changes as its own
     * markAllocatedNetwork says, and no other allocator changes.
     */
    method MarkAllocatedNetwork(subnet: Option<IPNet>) returns (r: Result<(), MasterError>)
      requires Valid()
      modifies allocatorList
      ensures Valid()
      ensures var g := GetSubnetAllocator(subnet);
        (g.Err? ==> r == Err(g.error) && Pools() == old(Pools())) &&
        (g.Ok? ==> var (mark, state) := Mark(g.value.0.config, old(g.value.0.State()), g.value.1);
          r == Lift(mark) && g.value.0.State() == state)
      ensures forall k :: 0 <= k < |allocatorList| ==>
        allocatorList[k].inUse ==
          old(allocatorList[k].inUse) + (if MarksIn(subnet, allocatorList[k]) then {Masked(subnet.value)} else {}) &&
        allocatorList[k].next == old(allocatorList[k].next)
    {
      var g := GetSubnetAllocator(subnet);
      if g.Err? {
        return Err(g.error);
      }
      var (sa, ipnet) := g.value;
      var mark := sa.MarkAllocatedNetwork(ipnet);
      r := Lift(mark);
    }

    /**
     * releaseNetwork: route the subnet, then release it in that allocator. A routing
     * error changes nothing; otherwise the chosen allocator changes as its own
     * releaseNetwork says, and no other allocator changes.
     */
    method ReleaseNetwork(subnet: Option<IPNet>) returns (r: Result<(), MasterError>)
      requires Valid()
      modifies allocatorList
      ensures Valid()
      ensures var g := GetSubnetAllocator(subnet);
        (g.Err? ==> r == Err(g.error) && Pools() == old(Pools())) &&
        (g.Ok? ==> var (release, state) := Release(g.value.0.config, old(g.value.0.State()), g.value.1);
          r == Lift(release) && g.value.0.State() == state)
      ensures forall k :: 0 <= k < |allocatorList| && !Routes(subnet, allocatorList[k]) ==>
        allocatorList[k].State() == old(allocatorList[k].State())
    {
      var g := GetSubnetAllocator(subnet);
      if g.Err? {
        return Err(g.error);
      }
      var (sa, ipnet) := g.value;
      var release := sa.ReleaseNetwork(ipnet);
      r := Lift(release);
    }

    /**
     * One step of initSubnetAllocators' construction loop: build the allocator for cn,
     * then append it to the list and register it under cn. On failure nothing changes.
     */
    method AddAllocator(cn: ClusterNetwork) returns (r: Result<SubnetAllocator, Error>)
      requires Valid()
      modifies this
      ensures Valid()
      ensures r.Err? ==>
        ConfigOf(cn) == Err(r.error) && allocatorList == old(allocatorList) && allocatorMap == old(allocatorMap)
      ensures r.Ok? ==>
        allocatorList == old(allocatorList) + [r.value] && fresh(r.value) && ConfigOf(cn) == Ok(r.value.config) &&
        r.value.State() == Initial && allocatorMap == old(allocatorMap)[cn := r.value]
    {
      r := NewSubnetAllocator(Some(cn.clusterCIDR.net), cn.hostSubnetLength);
      if r.Ok? {
        allocatorList := allocatorList + [r.value];
        allocatorMap := allocatorMap[cn := r.value];
      }
    }

    /**
     * The construction half of initSubnetAllocators: one allocator per cluster network,
     * in order, appended to the list and registered under its network. It stops at the
     * first network whose allocator cannot be built; the ones built before it stay.
     */
    method BuildAllocators() returns (r: Result<(), MasterError>, ghost built: seq<SubnetAllocator>)
      requires Valid()
      modifies this
      ensures Valid()
      ensures var bad := FirstInvalid(clusterNetworks);
        |built| == if bad.Some? then bad.value else |clusterNetworks|
      ensures allocatorList == old(allocatorList) + built
      ensures forall l :: 0 <= l < |built| ==>
        fresh(built[l]) && ConfigOf(clusterNetworks[l]) == Ok(built[l].config) && built[l].State() == Initial
      ensures allocatorMap == Register(old(allocatorMap), clusterNetworks[..|built|], built)
      ensures r == if FirstInvalid(clusterNetworks).Some?
        then Err(AllocatorFailed(ConfigOf(clusterNetworks[FirstInvalid(clusterNetworks).value]).error))
        else Ok(())
    {
      built := [];
      var k := 0;
      while k < |clusterNetworks|
        invariant k <= |clusterNetworks| && |built| == k
        invariant Valid()
        invariant allocatorList == old(allocatorList) + built
        invariant forall l :: 0 <= l < k ==>
          fresh(built[l]) && ConfigOf(clusterNetworks[l]) == Ok(built[l].config) && built[l].State() == Initial
        invariant allocatorMap == Register(old(allocatorMap), clusterNetworks[..k], built)
        decreases |clusterNetworks| - k
      {
        var cn := clusterNetworks[k];
        var added := AddAllocator(cn);
        if added.Err? {
          FirstInvalidAt(clusterNetworks, k);
          r := Err(AllocatorFailed(added.error));
          return;
        }
        assert clusterNetworks[..k + 1][..k] == clusterNetworks[..k];
        assert (built + [added.value])[..k] == built;
        built := built + [added.value];
        k := k + 1;
      }
      FirstInvalidAt(clusterNetworks, k);
      assert clusterNetworks[..k] == clusterNetworks;
      r := Ok(());
    }

    /**
     * The marking half of initSubnetAllocators: mark every listed subnet, skipping
     * any that cannot be marked. Each allocator gains exactly the keys routed to it.
     */
    method MarkListed(subnets: seq<Option<IPNet>>)
      requires Valid()
      modifies allocatorList
      ensures Valid()
      ensures forall l :: 0 <= l < |allocatorList| ==>
        allocatorList[l].inUse == old(allocatorList[l].inUse) + MarkedIn(subnets, allocatorList[l]) &&
        allocatorList[l].next == old(allocatorList[l].next)
    {
      var t := 0;
      while t < |subnets|
        invariant t <= |subnets|
        invariant Valid()
        invariant forall l :: 0 <= l < |allocatorList| ==>
          allocatorList[l].inUse == old(allocatorList[l].inUse) + MarkedIn(subnets[..t], allocatorList[l]) &&
          allocatorList[l].next == old(allocatorList[l].next)
        decreases |subnets| - t
      {
        var _ := MarkAllocatedNetwork(subnets[t]);
        assert subnets[..t + 1][..t] == subnets[..t];
        t := t + 1;
      }
      assert subnets[..t] == subnets;
    }

    /**
     * initSubnetAllocators. subnets is what listing the recorded HostSubnets returned,
     * None when listing failed.
     */
    method InitSubnetAllocators(subnets: Option<seq<Option<IPNet>>>) returns (r: Result<(), MasterError>)
      requires Valid()
      modifies this, allocatorList
      ensures Valid()
      ensures var bad := FirstInvalid(clusterNetworks);
        var built := if bad.Some? then bad.value else |clusterNetworks|;
        var n0 := |old(allocatorList)|;
        |allocatorList| == n0 + built && allocatorList[..n0] == old(allocatorList) &&
        (forall k :: n0 <= k < |allocatorList| ==>
          fresh(allocatorList[k]) && allocatorList[k].config == ConfigOf(clusterNetworks[k - n0]).value) &&
        allocatorMap == Register(old(allocatorMap), clusterNetworks[..built], allocatorList[n0..])
      ensures r == if FirstInvalid(clusterNetworks).Some?
        then Err(AllocatorFailed(ConfigOf(clusterNetworks[FirstInvalid(clusterNetworks).value]).error))
        else if subnets.None? then Err(ListFailed) else Ok(())
      ensures r.Err? ==> forall k :: 0 <= k < |allocatorList| ==>
        allocatorList[k].State() == if k < |old(allocatorList)| then old(allocatorList[k].State()) else Initial
      ensures r.Ok? ==> forall k :: 0 <= k < |allocatorList| ==>
        allocatorList[k].inUse ==
          (if k < |old(allocatorList)| then old(allocatorList[k].inUse) else {}) + MarkedIn(subnets.value, allocatorList[k]) &&
        allocatorList[k].next == if k < |old(allocatorList)| then old(allocatorList[k].next) else 0
    {
      ghost var n0 := |allocatorList|;
      ghost var built;
      r, built := BuildAllocators();
      assert allocatorList[n0..] == built;
      assert forall k :: 0 <= k < n0 ==> allocatorList[k] == old(allocatorList)[k];
      if r.Err? {
        return;
      }
      if subnets.None? {
        return Err(ListFailed);
      }
      MarkListed(subnets.value);
    }

    /** One step of allocateNetwork: allocator i allocates; every other allocator is untouched. */
    method AllocateIn(i: nat) returns (sn: Result<IPNet, Error>)
      requires Valid() && i < |allocatorList|
      modifies allocatorList[i]
      ensures Valid()
      ensures (sn, Pools()[i].state) == Allocate(old(Pools())[i].config, old(Pools())[i].state)
      ensures Pools() == old(Pools())[i := Pool(old(Pools())[i].config, Pools()[i].state)]
    {
      ghost var before := Pools();
      assert forall k :: 0 <= k < |Pools()| ==> ValidPool(Pools()[k]);
      sn := allocatorList[i].AllocateNetwork();
      assert Pools() == before[i := Pool(before[i].config, allocatorList[i].State())];
    }

    /** allocateNetwork: ask each allocator in list order until one hands out a subnet. */
    method AllocateNetwork(node: string) returns (r: Result<IPNet, MasterError>)
      requires Valid()
      modifies allocatorList
      ensures Valid()
      ensures (r, Pools()) == AllocateScan(old(Pools()), 0, node, None)
    {
      ghost var pools0 := Pools();
      assert forall k :: 0 <= k < |Pools()| ==> ValidPool(Pools()[k]);
      var i := 0;
      var last: Option<Error> := None;
      while i < |allocatorList|
        invariant i <= |allocatorList|
        invariant Valid()
        invariant AllocateScan(Pools(), i, node, last) == AllocateScan(pools0, 0, node, None)
        decreases |allocatorList| - i
      {
        var sn := AllocateIn(i);
        if sn.Ok? {
          return Ok(sn.value);
        }
        last := Some(sn.error);
        i := i + 1;
      }
      r := Err(AllocationFailed(node, last));
    }
  }
}
