/** The agent object: its handlers call the mutable allocators and the data plane in the order of
    cmd/node-agent/main.go, and are proved to perform the steps of module NodeAgent. */
module AgentHandler {
  import opened Base
  import opened Labels
  import opened NodeAgent
  import NodeIpam
  import Checkpoint
  import Identities
  import DataPlane

  class NodeAgentHandler {
    const allocator: NodeIpam.NodeAllocator
    const identityAllocator: Identities.IdentityAllocator
    const dp: DataPlane.EBPFDataPlane
    var podEndpoints: map<string, Info>

    ghost function Model(): Agent
      reads this, allocator, allocator.bitmap, identityAllocator, dp, dp.maps
    {
      Agent(allocator.Model(), identityAllocator.Model(), podEndpoints, dp.Model())
    }

    /** NewNodeAgent followed by loading the programs; `saved` is the checkpoint, if there is one.
        A restore that fails half-way is kept as it is, as in the source. */
    constructor (podCIDR: Cidr, saved: Option<seq<Checkpoint.Saved>>)
      ensures Model() == Boot(podCIDR, saved)
      ensures fresh(allocator) && fresh(allocator.bitmap) && fresh(identityAllocator) && fresh(dp) && fresh(dp.maps)
    {
      allocator := new NodeIpam.NodeAllocator(podCIDR);
      identityAllocator := new Identities.IdentityAllocator();
      dp := new DataPlane.EBPFDataPlane();
      podEndpoints := map[];
      new;
      if saved.Some? {
        var _ := Checkpoint.Restore(allocator, saved.value);
      }
      var _ := allocator.Allocate(GATEWAY, KUBE_SYSTEM);
      dp.LoadPrograms();
    }

    method Attach(id: uint32, podName: string, podNamespace: string, ifName: string, netns: string,
                  netnsOk: bool, dpOk: bool, ifIndex: int)
      returns (ip: Option<uint32>)
      modifies this, allocator, allocator.bitmap, identityAllocator, dp, dp.maps
      ensures (Model(), ip) == Attached(old(Model()), id, podName, podNamespace, ifName, netns, netnsOk, dpOk, ifIndex)
    {
      ip := allocator.Allocate(podName, podNamespace);
      if ip.None? {
        var _ := identityAllocator.ReleaseIdentity(id);
        return;
      }
      if !netnsOk {
        allocator.Release(podName, podNamespace);
        var _ := identityAllocator.ReleaseIdentity(id);
        return None;
      }
      if !dpOk {
        allocator.Release(podName, podNamespace);
        var _ := identityAllocator.ReleaseIdentity(id);
        return None;
      }
      dp.AddPodEndpoint(ip.value, id, ifIndex);
      podEndpoints := podEndpoints[NodeIpam.PodKey(podName, podNamespace) := Info(ip.value, id, ifName, netns)];
    }

    method HandleAdd(podName: string, podNamespace: string, args: Labels, ifName: string, netns: string,
                     netnsOk: bool, dpOk: bool, ifIndex: int)
      returns (ip: Option<uint32>, gateway: uint32)
      requires Identities.Linked(identityAllocator.Model())
      modifies this, allocator, allocator.bitmap, identityAllocator, dp, dp.maps
      ensures var labels := PodLabels(podName, podNamespace, args);
              (Model(), ip) == Add(old(Model()),
                                   AddReq(podName, podNamespace, labels, IdentityHash(labels), ifName, netns),
                                   AddEnv([], netnsOk, dpOk, ifIndex))
      ensures gateway == NextIP(allocator.baseIP)
    {
      gateway := NextIP(allocator.baseIP);
      var id := identityAllocator.AllocateIdentity(PodLabels(podName, podNamespace, args));
      ip := Attach(id, podName, podNamespace, ifName, netns, netnsOk, dpOk, ifIndex);
    }

    method HandleDel(podName: string, podNamespace: string)
      modifies this, allocator, allocator.bitmap, identityAllocator, dp, dp.maps
      ensures Model() == Del(old(Model()), NodeIpam.PodKey(podName, podNamespace))
    {
      var podKey := NodeIpam.PodKey(podName, podNamespace);
      if podKey !in podEndpoints {
        allocator.Release(podName, podNamespace);
        return;
      }
      var info := podEndpoints[podKey];
      dp.RemovePodEndpoint(info.ip);
      allocator.Release(podName, podNamespace);
      var _ := identityAllocator.ReleaseIdentity(info.identity);
      podEndpoints := podEndpoints - {podKey};
    }

    /** `dpFails` are the pods whose endpoint the data plane refuses; endpoints are visited in any order. */
    method Reconcile(dpFails: set<string>) returns (released: seq<uint32>, ghost order: seq<string>)
      modifies allocator, allocator.bitmap, dp, dp.maps
      ensures Model() == Reconciled(old(Model()), order)
      ensures NodeIpam.Lists(released, old(allocator.Model()),
                             old(allocator.records).Keys - (podEndpoints.Keys + {GatewayKey()}))
      ensures forall k :: k in order <==> k in podEndpoints && k !in dpFails
    {
      var activePods := podEndpoints.Keys + {GatewayKey()};
      released := allocator.Reconcile(activePods);
      var rest := podEndpoints.Keys;
      order := [];
      while rest != {}
        invariant rest <= podEndpoints.Keys
        invariant allocator.Model() == NodeIpam.Retained(old(allocator.Model()), activePods)
        invariant dp.Model() == Reprogrammed(old(dp.Model()), podEndpoints, order)
        invariant forall k :: k in order <==> k in podEndpoints && k !in rest && k !in dpFails
        decreases |rest|
      {
        var k :| k in rest;
        rest := rest - {k};
        if k !in dpFails {
          dp.AddPodEndpoint(podEndpoints[k].ip, podEndpoints[k].identity, 0);
          assert (order + [k])[..|order|] == order;
          order := order + [k];
        }
      }
    }
  }
}
