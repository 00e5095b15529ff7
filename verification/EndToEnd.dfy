/** Theorems that join the components: packets between pods, compiled policies and packets, and pods of
    the whole cluster. */
module EndToEnd {
  import opened Base
  import opened Rules
  import opened PolicyMap
  import BlockIpam
  import Checkpoint
  import Compiler
  import DataPlane
  import NodeAgent
  import NodeIpam
  import PolicyStore

  /** The identity look-up of the packet program on the pinned maps of an agent. */
  function KernelReader(storage: DataPlane.Storage): uint32 -> uint32 {
    (ip: uint32) => DataPlane.KernelIdentity(storage, ip)
  }

  lemma PodIdentitySeen(s: NodeAgent.Agent, k: string)
    requires NodeAgent.TableInv(s) && k in s.tracked
    ensures KernelReader(s.dp.storage)(s.tracked[k].ip) == s.tracked[k].identity
  {
    assert NodeAgent.MapsTo(s.dp, s.tracked[k].ip, s.tracked[k].identity);
    DataPlane.KernelSees(s.dp, s.tracked[k].ip);
  }

  /** An address of no tracked pod reads as the wildcard identity. */
  lemma OtherAddressUnknown(s: NodeAgent.Agent, ip: uint32)
    requires NodeAgent.TableInv(s) && !NodeAgent.TrackedAt(s.tracked, ip)
    ensures KernelReader(s.dp.storage)(ip) == 0
  {
    DataPlane.KernelSees(s.dp, ip);
  }

  /** After any benign agent run, from a checkpoint or not, with the policy map holding the merged policies, a packet between two
      tracked pods is dropped exactly when the highest-priority rule for their two identities, the
      protocol and the port does not allow it. */
  lemma PacketBetweenPods(cidr: Cidr, saved: Option<seq<Checkpoint.Saved>>, ops: seq<NodeAgent.Op>, k: string,
                          l: string, policies: seq<Option<seq<Rule>>>, proto: uint8, port: uint16)
    requires NodeAgent.Benign(NodeAgent.Boot(cidr, saved), ops)
    requires k in NodeAgent.Run(NodeAgent.Boot(cidr, saved), ops).tracked
    requires l in NodeAgent.Run(NodeAgent.Boot(cidr, saved), ops).tracked
    requires AllExpressible(Flatten(policies))
    ensures var s := NodeAgent.Run(NodeAgent.Boot(cidr, saved), ops);
            var p := Packet(s.tracked[k].ip, s.tracked[l].ip, proto, port);
            HandlePacket(p, KernelReader(s.dp.storage), Entries(Merge(policies))) == Drop <==>
            Denies(Flatten(policies), MapKey(s.tracked[k].identity, s.tracked[l].identity, proto, port))
  {
    NodeAgent.RunTable(cidr, saved, ops);
    var s := NodeAgent.Run(NodeAgent.Boot(cidr, saved), ops);
    PodIdentitySeen(s, k);
    PodIdentitySeen(s, l);
    PacketVerdict(policies, Packet(s.tracked[k].ip, s.tracked[l].ip, proto, port), KernelReader(s.dp.storage));
  }

  // ---------------------------------------------------------------- what compiled policies can drop

  lemma AllowNeverDrops(rules: seq<Rule>, p: Packet, identity: uint32 -> uint32)
    requires forall r | r in rules :: r.verdict == ALLOW
    ensures HandlePacket(p, identity, Entries(rules)) == Pass
  {
    EntryIsLast(rules, PacketKey(p, identity));
    assert forall i | 0 <= i < |rules| :: rules[i].verdict == ALLOW;
  }

  lemma RebuiltAllows(s: PolicyStore.Store, h: Compiler.Hashes, platform: Option<int>, order: seq<string>,
                      lists: seq<Option<seq<Rule>>>)
    requires PolicyStore.Compiles(s, h, platform, order, lists)
    ensures forall r | r in Merge(lists) :: r.verdict == ALLOW
  {
    PolicyStore.TableAllows(s.st, h, s.policies, order);
    MergeShape(lists);
  }

  lemma {:induction false} StoreAllows(st: Compiler.St, h: Compiler.Hashes, platform: Option<int>, sections: seq<PolicyStore.Section>)
    ensures forall r | r in PolicyStore.Run(st, h, platform, sections).store.compiled.GetOr([]) :: r.verdict == ALLOW
    decreases |sections|
  {
    if sections != [] {
      var x, sec := PolicyStore.Run(st, h, platform, sections[..|sections| - 1]), sections[|sections| - 1];
      StoreAllows(st, h, platform, sections[..|sections| - 1]);
      if (sec.Finish? || sec.RecompileOnly?) && PolicyStore.Compiles(x.store, h, platform, sec.order, sec.lists) {
        RebuiltAllows(x.store, h, platform, sec.order, sec.lists);
      }
    }
  }

  /** Whatever policies its callers add and remove, in every interleaving and whatever the pods and
      identities are, the map built from the store's result drops no packet at all: the rules only allow,
      and the packet program lets through what no entry decides. */
  lemma StoreNeverDrops(st: Compiler.St, h: Compiler.Hashes, platform: Option<int>, sections: seq<PolicyStore.Section>,
                        p: Packet, identity: uint32 -> uint32)
    ensures var compiled := PolicyStore.Run(st, h, platform, sections).store.compiled.GetOr([]);
            HandlePacket(p, identity, Entries(compiled)) == Pass
  {
    StoreAllows(st, h, platform, sections);
    AllowNeverDrops(PolicyStore.Run(st, h, platform, sections).store.compiled.GetOr([]), p, identity);
  }

  // ---------------------------------------------------------------- pods of the whole cluster

  /** Tracked addresses are strictly inside the agent's block, whether or not the allocator still records
      them. */
  ghost predicate Inside(s: NodeAgent.Agent) {
    && NodeIpam.Valid(s.pool)
    && (forall k | k in s.tracked :: s.pool.base < s.tracked[k].ip < s.pool.base + |s.pool.bitmap| - 1)
  }

  /** Every step, a failing repeat ADD included, keeps them there. */
  lemma StepInside(s: NodeAgent.Agent, op: NodeAgent.Op)
    requires Inside(s)
    ensures var t := NodeAgent.Step(s, op);
            Inside(t) && t.pool.base == s.pool.base && |t.pool.bitmap| == |s.pool.bitmap|
  {
    NodeAgent.PoolStep(s, op);
    if op.AddOp? && NodeAgent.Add(s, op.req, op.env).1.Some? {
      NodeAgent.AddParts(s, op.req, op.env);
      NodeAgent.AllocatedRecords(s.pool, op.req.podName, op.req.podNamespace);
      assert NodeIpam.RecordOk(NodeAgent.Step(s, op).pool, op.req.Key());
    }
  }

  lemma {:induction false} RunInside(s: NodeAgent.Agent, ops: seq<NodeAgent.Op>)
    requires Inside(s)
    ensures var t := NodeAgent.Run(s, ops);
            Inside(t) && t.pool.base == s.pool.base && |t.pool.bitmap| == |s.pool.bitmap|
    decreases |ops|
  {
    if ops != [] {
      RunInside(s, ops[..|ops| - 1]);
      StepInside(NodeAgent.Run(s, ops[..|ops| - 1]), ops[|ops| - 1]);
    }
  }

  /** In every run of an agent, restarted or not, whatever fails and repeats, a tracked address is strictly
      inside the block. */
  lemma TrackedInside(cidr: Cidr, saved: Option<seq<Checkpoint.Saved>>, ops: seq<NodeAgent.Op>, k: string)
    requires k in NodeAgent.Run(NodeAgent.Boot(cidr, saved), ops).tracked
    ensures cidr.ip < NodeAgent.Run(NodeAgent.Boot(cidr, saved), ops).tracked[k].ip < cidr.ip + cidr.Size() - 1
  {
    NodeAgent.BootValid(cidr, saved);
    RunInside(NodeAgent.Boot(cidr, saved), ops);
  }

  /** Any run of an agent on a block, with any checkpoint. */
  datatype AgentRun = AgentRun(saved: Option<seq<Checkpoint.Saved>>, ops: seq<NodeAgent.Op>)

  ghost function TrackedBy(cidr: Cidr, r: AgentRun): map<string, NodeAgent.Info> {
    NodeAgent.Run(NodeAgent.Boot(cidr, r.saved), r.ops).tracked
  }

  /** Two agents on blocks the controller issued at different times, for the same or other nodes and
      across releases, never track pods with the same address. */
  lemma ClusterPodsDistinct(cluster: Cidr, blockSize: nat, control: seq<BlockIpam.Op>, i: nat, j: nat,
                            first: Cidr, second: Cidr, a: AgentRun, b: AgentRun, k: string, l: string)
    requires cluster.ones <= blockSize <= 32
    requires var issued := BlockIpam.Run(BlockIpam.Start(cluster, blockSize), control).issued;
             i < j < |issued| && issued[i] == first && issued[j] == second
    requires k in TrackedBy(first, a) && l in TrackedBy(second, b)
    ensures TrackedBy(first, a)[k].ip != TrackedBy(second, b)[l].ip
  {
    BlockIpam.IssuedBlocksSafe(cluster, blockSize, control);
    assert BlockIpam.Disjoint(first, second);
    TrackedInside(first, a.saved, a.ops, k);
    TrackedInside(second, b.saved, b.ops, l);
  }
}
