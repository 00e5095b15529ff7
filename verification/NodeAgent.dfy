/** The node agent (cmd/node-agent/main.go): ADD, DEL and reconcile over the address pool, the identities,
    the endpoint table and the data plane, with the failures of pod-network setup and data-plane
    programming chosen by the environment. */
module NodeAgent {
  import opened Base
  import opened Labels
  import NodeIpam
  import Checkpoint
  import Identities
  import DataPlane

  const GATEWAY := "gateway"
  const KUBE_SYSTEM := "kube-system"

  function GatewayKey(): string {
    NodeIpam.PodKey(GATEWAY, KUBE_SYSTEM)
  }

  /** nextIP: the gateway address an ADD advertises. */
  function NextIP(ip: uint32): uint32 {
    (ip + 1) % TWO32
  }

  datatype Info = Info(ip: uint32, identity: uint32, ifName: string, netns: string)

  datatype Agent = Agent(pool: NodeIpam.Pool, ids: Identities.Ids, tracked: map<string, Info>, dp: DataPlane.Dp)

  /** An ADD request with the label map it builds and the hash of that map. */
  datatype AddReq = AddReq(podName: string, podNamespace: string, labels: Labels, hash: Digest, ifName: string, netns: string) {
    function Key(): string { NodeIpam.PodKey(podName, podNamespace) }
  }

  datatype Selector = Selector(labels: Labels, hash: Digest)

  /** What the environment does during an ADD: identity allocations of policy compilations that run
      between the agent's own identity calls, and the outcomes of the two fallible steps. */
  datatype AddEnv = AddEnv(interleaved: seq<Selector>, netnsOk: bool, dpOk: bool, ifIndex: int)

  function AcquireAll(s: Identities.Ids, sels: seq<Selector>): Identities.Ids {
    if sels == [] then s
    else Identities.Acquired(AcquireAll(s, sels[..|sels| - 1]), sels[|sels| - 1].labels, sels[|sels| - 1].hash).0
  }

  /** HandleAdd from the address on: a failure undoes the address and drops the identity reference. */
  function Attached(s: Agent, id: uint32, podName: string, podNamespace: string, ifName: string, netns: string,
                    netnsOk: bool, dpOk: bool, ifIndex: int): (Agent, Option<uint32>) {
    var key := NodeIpam.PodKey(podName, podNamespace);
    var (pool1, ip) := NodeIpam.Allocated(s.pool, podName, podNamespace);
    if ip.None? then (s.(ids := Identities.Dropped(s.ids, id)), None)
    else if !netnsOk || !dpOk then
      (s.(pool := NodeIpam.Released(pool1, key), ids := Identities.Dropped(s.ids, id)), None)
    else
      (Agent(pool1, s.ids, s.tracked[key := Info(ip.value, id, ifName, netns)],
             DataPlane.WithEndpoint(s.dp, ip.value, id, ifIndex)), ip)
  }

  /** HandleAdd: the identity first, then address, pod network, data plane and tracking. */
  function Add(s: Agent, req: AddReq, env: AddEnv): (Agent, Option<uint32>) {
    var (ids1, id) := Identities.Acquired(s.ids, req.labels, req.hash);
    Attached(s.(ids := AcquireAll(ids1, env.interleaved)), id, req.podName, req.podNamespace, req.ifName, req.netns,
             env.netnsOk, env.dpOk, env.ifIndex)
  }

  function Del(s: Agent, key: string): Agent {
    if key !in s.tracked then s.(pool := NodeIpam.Released(s.pool, key))
    else
      Agent(NodeIpam.Released(s.pool, key),
            Identities.Dropped(s.ids, s.tracked[key].identity),
            s.tracked - {key},
            DataPlane.WithoutEndpoint(s.dp, s.tracked[key].ip))
  }

  /** Endpoints are programmed again, interface index 0, in the order met; failed ones are not in `order`. */
  function Reprogrammed(d: DataPlane.Dp, tracked: map<string, Info>, order: seq<string>): DataPlane.Dp {
    if order == [] then d
    else
      var before := Reprogrammed(d, tracked, order[..|order| - 1]);
      var k := order[|order| - 1];
      if k in tracked then DataPlane.WithEndpoint(before, tracked[k].ip, tracked[k].identity, 0) else before
  }

  ghost function Reconciled(s: Agent, order: seq<string>): Agent {
    s.(pool := NodeIpam.Retained(s.pool, s.tracked.Keys + {GatewayKey()}),
       dp := Reprogrammed(s.dp, s.tracked, order))
  }

  datatype Op =
    | AddOp(req: AddReq, env: AddEnv)
    | DelOp(podName: string, podNamespace: string)
    | ReconcileOp(order: seq<string>)
    | PolicyOp(sel: Selector)

  ghost function Step(s: Agent, op: Op): Agent {
    match op
    case AddOp(req, env) => Add(s, req, env).0
    case DelOp(n, ns) => Del(s, NodeIpam.PodKey(n, ns))
    case ReconcileOp(order) => Reconciled(s, order)
    case PolicyOp(sel) => s.(ids := Identities.Acquired(s.ids, sel.labels, sel.hash).0)
  }

  ghost function Run(s: Agent, ops: seq<Op>): Agent {
    if ops == [] then s else Step(Run(s, ops[..|ops| - 1]), ops[|ops| - 1])
  }

  /** A new agent whose allocator is `pool`: the gateway address is requested first. */
  function StartFrom(pool: NodeIpam.Pool): Agent {
    Agent(NodeIpam.Allocated(pool, GATEWAY, KUBE_SYSTEM).0, Identities.Empty(), map[], DataPlane.Loaded())
  }

  /** The pool NewNodeAgent starts with: a checkpoint, if there is one, is replayed, and what a replay
      that stops half-way has allocated is kept. */
  function BootPool(cidr: Cidr, saved: Option<seq<Checkpoint.Saved>>): NodeIpam.Pool {
    match saved
    case None => NodeIpam.Fresh(cidr)
    case Some(rs) => Checkpoint.Restored(NodeIpam.Fresh(cidr), rs).0
  }

  function Boot(cidr: Cidr, saved: Option<seq<Checkpoint.Saved>>): Agent {
    StartFrom(BootPool(cidr, saved))
  }

  // ================================================================ addresses, endpoints, data plane

  ghost predicate Recorded(s: Agent) {
    forall k | k in s.tracked :: k in s.pool.records && s.pool.records[k].ip == s.tracked[k].ip
  }

  predicate MapsTo(d: DataPlane.Dp, ip: uint32, id: uint32) {
    ip in d.identityMap && d.identityMap[ip] == id
  }

  ghost predicate Programmed(tracked: map<string, Info>, d: DataPlane.Dp) {
    forall k | k in tracked :: MapsTo(d, tracked[k].ip, tracked[k].identity)
  }

  ghost predicate TrackedAt(tracked: map<string, Info>, ip: uint32) {
    exists k :: k in tracked && tracked[k].ip == ip
  }

  ghost predicate NoStray(tracked: map<string, Info>, d: DataPlane.Dp) {
    forall ip | ip in d.identityMap :: TrackedAt(tracked, ip)
  }

  /** Tracked addresses are the allocator's records, and the IP-to-identity map is the endpoint table's. */
  ghost predicate TableInv(s: Agent) {
    && NodeIpam.Valid(s.pool)
    && Recorded(s)
    && Programmed(s.tracked, s.dp)
    && NoStray(s.tracked, s.dp)
    && DataPlane.Mirrored(s.dp)
  }

  ghost predicate DistinctTracked(tracked: map<string, Info>) {
    forall k, l | k in tracked && l in tracked && tracked[k].ip == tracked[l].ip :: k == l
  }

  lemma TrackedDistinct(s: Agent)
    requires Recorded(s) && NodeIpam.DistinctIPs(s.pool)
    ensures DistinctTracked(s.tracked)
  {
  }

  /** A failing ADD for a pod that is already tracked. */
  predicate FailingRepeat(s: Agent, op: Op) {
    op.AddOp? && op.req.Key() in s.tracked && !(op.env.netnsOk && op.env.dpOk)
  }

  // ---------------------------------------------------------------- pool facts

  lemma PoolStep(s: Agent, op: Op)
    requires NodeIpam.Valid(s.pool)
    ensures var p := Step(s, op).pool;
            NodeIpam.Valid(p) && p.base == s.pool.base && |p.bitmap| == |s.pool.bitmap|
  {
    match op
    case AddOp(req, env) =>
      NodeIpam.AllocatedValid(s.pool, req.podName, req.podNamespace);
      NodeIpam.ReleasedValid(NodeIpam.Allocated(s.pool, req.podName, req.podNamespace).0, req.Key());
    case DelOp(n, ns) => NodeIpam.ReleasedValid(s.pool, NodeIpam.PodKey(n, ns));
    case ReconcileOp(order) => NodeIpam.RetainedValid(s.pool, s.tracked.Keys + {GatewayKey()});
    case PolicyOp(sel) =>
  }

  lemma AllocatedRecords(p: NodeIpam.Pool, podName: string, podNamespace: string)
    ensures var (q, ip) := NodeIpam.Allocated(p, podName, podNamespace);
            var key := NodeIpam.PodKey(podName, podNamespace);
            && (forall k | k in p.records :: k in q.records && q.records[k] == p.records[k])
            && (forall k | k in q.records :: k in p.records || k == key)
            && (ip.Some? ==> key in q.records && q.records[key].ip == ip.value)
            && (ip.None? ==> q == p && key !in p.records)
            && (key in p.records ==> ip == Some(p.records[key].ip) && q == p)
  {
  }

  /** An address no record holds is not in the data plane either. */
  lemma FreshAddressUnprogrammed(s: Agent, podName: string, podNamespace: string)
    requires TableInv(s) && NodeIpam.PodKey(podName, podNamespace) !in s.pool.records
    ensures var ip := NodeIpam.Allocated(s.pool, podName, podNamespace).1;
            ip.Some? ==> ip.value !in s.dp.identityMap
  {
    NodeIpam.AllocatedExact(s.pool, podName, podNamespace);
    var ip := NodeIpam.Allocated(s.pool, podName, podNamespace).1;
    assert ip.Some? ==> !TrackedAt(s.tracked, ip.value);
  }

  // ---------------------------------------------------------------- ADD

  /** The parts of a successful ADD. */
  lemma AddParts(s: Agent, req: AddReq, env: AddEnv)
    requires Add(s, req, env).1.Some?
    ensures var (t, ip) := Add(s, req, env);
            var (q, ip') := NodeIpam.Allocated(s.pool, req.podName, req.podNamespace);
            && ip == ip' && t.pool == q
            && req.Key() in t.tracked && t.tracked[req.Key()].ip == ip.value
            && t.tracked[req.Key()].ifName == req.ifName && t.tracked[req.Key()].netns == req.netns
            && t.tracked == s.tracked[req.Key() := t.tracked[req.Key()]]
            && t.dp == DataPlane.WithEndpoint(s.dp, ip.value, t.tracked[req.Key()].identity, env.ifIndex)
  {
  }

  lemma AddSucceeds(s: Agent, req: AddReq, env: AddEnv)
    requires TableInv(s) && Add(s, req, env).1.Some?
    ensures TableInv(Add(s, req, env).0)
  {
    var (t, ip) := Add(s, req, env);
    AddParts(s, req, env);
    NodeIpam.AllocatedValid(s.pool, req.podName, req.podNamespace);
    AllocatedRecords(s.pool, req.podName, req.podNamespace);
    var info := t.tracked[req.Key()];
    AddTable(s, t.pool, t.ids, req.Key(), info, env.ifIndex);
  }

  /** Tracking a pod with its record and programming it keeps the tables consistent. */
  lemma AddTable(s: Agent, pool: NodeIpam.Pool, ids: Identities.Ids, key: string, info: Info, ifIndex: int)
    requires TableInv(s) && NodeIpam.Valid(pool)
    requires forall k | k in s.pool.records :: k in pool.records && pool.records[k] == s.pool.records[k]
    requires key in pool.records && pool.records[key].ip == info.ip
    ensures TableInv(Agent(pool, ids, s.tracked[key := info], DataPlane.WithEndpoint(s.dp, info.ip, info.identity, ifIndex)))
  {
    var t := Agent(pool, ids, s.tracked[key := info], DataPlane.WithEndpoint(s.dp, info.ip, info.identity, ifIndex));
    assert Recorded(t);
    TrackedDistinct(t);
    DataPlane.WithEndpointMirrored(s.dp, info.ip, info.identity, ifIndex);
    AddProgrammed(s.tracked, s.dp, key, info, ifIndex);
    AddNoStray(s.tracked, s.dp, key, info, ifIndex);
  }

  lemma AddProgrammed(tracked: map<string, Info>, d: DataPlane.Dp, key: string, info: Info, ifIndex: int)
    requires Programmed(tracked, d) && DistinctTracked(tracked[key := info])
    ensures Programmed(tracked[key := info], DataPlane.WithEndpoint(d, info.ip, info.identity, ifIndex))
  {
    var e := DataPlane.WithEndpoint(d, info.ip, info.identity, ifIndex);
    var after := tracked[key := info];
    forall k | k in after
      ensures MapsTo(e, after[k].ip, after[k].identity)
    {
      if k != key {
        assert MapsTo(d, tracked[k].ip, tracked[k].identity);
        assert key in after && after[k].ip != info.ip;
      }
    }
  }

  lemma AddNoStray(tracked: map<string, Info>, d: DataPlane.Dp, key: string, info: Info, ifIndex: int)
    requires NoStray(tracked, d) && (key in tracked ==> tracked[key].ip == info.ip)
    ensures NoStray(tracked[key := info], DataPlane.WithEndpoint(d, info.ip, info.identity, ifIndex))
  {
    var e := DataPlane.WithEndpoint(d, info.ip, info.identity, ifIndex);
    var after := tracked[key := info];
    forall ip | ip in e.identityMap
      ensures TrackedAt(after, ip)
    {
      if ip == info.ip {
        assert key in after && after[key].ip == ip;
      } else {
        assert TrackedAt(tracked, ip);
        var k :| k in tracked && tracked[k].ip == ip;
        assert k in after && after[k].ip == ip;
      }
    }
  }

  lemma AddFails(s: Agent, req: AddReq, env: AddEnv)
    requires TableInv(s) && Add(s, req, env).1.None?
    ensures TableInv(Add(s, req, env).0) <==> req.Key() !in s.tracked
  {
    var t := Add(s, req, env).0;
    PoolStep(s, AddOp(req, env));
    AllocatedRecords(s.pool, req.podName, req.podNamespace);
    if req.Key() in s.tracked {
      assert req.Key() in s.pool.records;
      assert req.Key() !in t.pool.records;
      assert !Recorded(t);
    } else {
      assert Recorded(t);
    }
  }

  // ---------------------------------------------------------------- DEL

  lemma DelTable(s: Agent, key: string)
    requires TableInv(s)
    ensures TableInv(Del(s, key))
  {
    var t := Del(s, key);
    NodeIpam.ReleasedValid(s.pool, key);
    assert Recorded(t);
    if key in s.tracked {
      DataPlane.WithoutEndpointMirrored(s.dp, s.tracked[key].ip);
      TrackedDistinct(s);
      DelProgrammed(s.tracked, s.dp, key);
    }
  }

  /** After a DEL, tracked or not before, nothing is left of the pod: no tracking, no address, no identity in
      the data plane. */
  lemma DelForgets(s: Agent, key: string)
    ensures var t := Del(s, key);
            && key !in t.tracked && key !in t.pool.records
            && (key in s.tracked ==> s.tracked[key].ip !in t.dp.identityMap && s.tracked[key].ip !in t.dp.endpoints)
  {
  }

  lemma DelProgrammed(tracked: map<string, Info>, d: DataPlane.Dp, key: string)
    requires Programmed(tracked, d) && NoStray(tracked, d) && DistinctTracked(tracked) && key in tracked
    ensures Programmed(tracked - {key}, DataPlane.WithoutEndpoint(d, tracked[key].ip))
    ensures NoStray(tracked - {key}, DataPlane.WithoutEndpoint(d, tracked[key].ip))
  {
    var e := DataPlane.WithoutEndpoint(d, tracked[key].ip);
    var after := tracked - {key};
    forall k | k in after
      ensures MapsTo(e, after[k].ip, after[k].identity)
    {
      assert MapsTo(d, tracked[k].ip, tracked[k].identity);
    }
    forall ip | ip in e.identityMap
      ensures TrackedAt(after, ip)
    {
      assert TrackedAt(tracked, ip);
      var k :| k in tracked && tracked[k].ip == ip;
      assert k in after && after[k].ip == ip;
    }
  }

  // ---------------------------------------------------------------- reconcile

  /** Programming an endpoint again, with any interface index, leaves the IP-to-identity map as it is. */
  lemma {:induction false} ReprogrammedSame(d: DataPlane.Dp, tracked: map<string, Info>, order: seq<string>)
    requires Programmed(tracked, d) && DataPlane.Mirrored(d)
    ensures var e := Reprogrammed(d, tracked, order);
            e.identityMap == d.identityMap && DataPlane.Mirrored(e)
    decreases |order|
  {
    if order != [] {
      var before := Reprogrammed(d, tracked, order[..|order| - 1]);
      var k := order[|order| - 1];
      ReprogrammedSame(d, tracked, order[..|order| - 1]);
      if k in tracked {
        assert MapsTo(d, tracked[k].ip, tracked[k].identity);
        DataPlane.WithEndpointMirrored(before, tracked[k].ip, tracked[k].identity, 0);
        assert before.identityMap[tracked[k].ip := tracked[k].identity] == before.identityMap;
      }
    }
  }

  /** From any data plane, a pod of the sweep with an address of its own is programmed with its identity and
      interface index 0. */
  ghost predicate Repaired(d: DataPlane.Dp, info: Info) {
    && MapsTo(d, info.ip, info.identity)
    && info.ip in d.endpoints && d.endpoints[info.ip] == DataPlane.Endpoint(info.identity, 0)
    && DataPlane.KernelIdentity(d.storage, info.ip) == info.identity
  }

  ghost predicate OwnAddress(tracked: map<string, Info>, k: string) {
    k in tracked && forall l | l in tracked && l != k :: tracked[l].ip != tracked[k].ip
  }

  lemma {:induction false} SweepRepairs(d: DataPlane.Dp, tracked: map<string, Info>, order: seq<string>, k: string)
    requires DataPlane.IDENTITY_MAP in d.storage && k in order && OwnAddress(tracked, k)
    ensures Repaired(Reprogrammed(d, tracked, order), tracked[k])
    ensures DataPlane.IDENTITY_MAP in Reprogrammed(d, tracked, order).storage
    decreases |order|
  {
    var n := |order| - 1;
    var before := Reprogrammed(d, tracked, order[..n]);
    ReprogrammedMaps(d, tracked, order[..n]);
    if order[n] == k {
      DataPlane.EndpointSeen(before, tracked[k].ip, tracked[k].identity, 0);
    } else {
      assert k in order[..n];
      SweepRepairs(d, tracked, order[..n], k);
      if order[n] in tracked {
        var l := tracked[order[n]];
        DataPlane.EndpointElsewhere(before, l.ip, l.identity, 0, tracked[k].ip);
      }
    }
  }

  lemma {:induction false} ReprogrammedMaps(d: DataPlane.Dp, tracked: map<string, Info>, order: seq<string>)
    ensures Reprogrammed(d, tracked, order).storage.Keys == d.storage.Keys
    decreases |order|
  {
    if order != [] {
      ReprogrammedMaps(d, tracked, order[..|order| - 1]);
    }
  }

  lemma ReconcileTable(s: Agent, order: seq<string>)
    requires TableInv(s)
    ensures TableInv(Reconciled(s, order))
  {
    var t := Reconciled(s, order);
    NodeIpam.RetainedValid(s.pool, s.tracked.Keys + {GatewayKey()});
    ReprogrammedSame(s.dp, s.tracked, order);
    assert Recorded(t);
    forall k | k in t.tracked
      ensures MapsTo(t.dp, t.tracked[k].ip, t.tracked[k].identity)
    {
      assert MapsTo(s.dp, s.tracked[k].ip, s.tracked[k].identity);
    }
  }

  // ---------------------------------------------------------------- other pods

  /** The step is an ADD or DEL of this pod. */
  predicate NamesPod(op: Op, podName: string, podNamespace: string) {
    || (op.AddOp? && op.req.podName == podName && op.req.podNamespace == podNamespace)
    || (op.DelOp? && op.podName == podName && op.podNamespace == podNamespace)
  }

  /** A pod is tracked and recorded alike. */
  ghost predicate SamePod(s: Agent, t: Agent, key: string) {
    && (key in t.tracked <==> key in s.tracked) && (key in s.tracked ==> t.tracked[key] == s.tracked[key])
    && (key in t.pool.records <==> key in s.pool.records)
    && (key in s.pool.records ==> t.pool.records[key] == s.pool.records[key])
  }

  /** ADD and DEL of one pod, failing or not, leave every other pod's tracking and address as they were. */
  lemma StepLeavesOthers(s: Agent, op: Op, m: string, ms: string, n: string, ns: string)
    requires NamesPod(op, m, ms) && '/' !in m && '/' !in n && (m, ms) != (n, ns)
    ensures SamePod(s, Step(s, op), NodeIpam.PodKey(n, ns))
  {
    NodeIpam.PodKeyExact(m, ms, n, ns);
    if op.AddOp? {
      AllocatedRecords(s.pool, m, ms);
    }
  }

  // ---------------------------------------------------------------- every step, every run

  /** From a consistent state a step leads to a consistent state exactly when it is not a failing
      ADD for a pod that is already tracked. */
  lemma StepTable(s: Agent, op: Op)
    requires TableInv(s)
    ensures TableInv(Step(s, op)) <==> !FailingRepeat(s, op)
  {
    match op
    case AddOp(req, env) =>
      AllocatedRecords(s.pool, req.podName, req.podNamespace);
      if Add(s, req, env).1.Some? {
        AddSucceeds(s, req, env);
      } else {
        AddFails(s, req, env);
        assert req.Key() in s.tracked ==> req.Key() in s.pool.records;
      }
    case DelOp(n, ns) => DelTable(s, NodeIpam.PodKey(n, ns));
    case ReconcileOp(order) => ReconcileTable(s, order);
    case PolicyOp(sel) =>
  }

  /** No step of the run is a failing repeat ADD. */
  ghost predicate Benign(s: Agent, ops: seq<Op>)
    decreases |ops|
  {
    ops == [] ||
    (Benign(s, ops[..|ops| - 1]) && !FailingRepeat(Run(s, ops[..|ops| - 1]), ops[|ops| - 1]))
  }

  lemma StartTable(pool: NodeIpam.Pool)
    requires NodeIpam.Valid(pool)
    ensures TableInv(StartFrom(pool))
  {
    NodeIpam.AllocatedValid(pool, GATEWAY, KUBE_SYSTEM);
    DataPlane.LoadedMirrored();
  }

  lemma {:induction false} RunFromTable(s: Agent, ops: seq<Op>)
    requires TableInv(s) && Benign(s, ops)
    ensures TableInv(Run(s, ops))
    decreases |ops|
  {
    if ops != [] {
      RunFromTable(s, ops[..|ops| - 1]);
      StepTable(Run(s, ops[..|ops| - 1]), ops[|ops| - 1]);
    }
  }

  lemma BootValid(cidr: Cidr, saved: Option<seq<Checkpoint.Saved>>)
    ensures NodeIpam.Valid(BootPool(cidr, saved)) && NodeIpam.Valid(Boot(cidr, saved).pool)
    ensures Boot(cidr, saved).pool.base == cidr.ip && |Boot(cidr, saved).pool.bitmap| == cidr.Size()
  {
    if saved.Some? {
      Checkpoint.RestoredValid(NodeIpam.Fresh(cidr), saved.value);
    }
    NodeIpam.AllocatedValid(BootPool(cidr, saved), GATEWAY, KUBE_SYSTEM);
  }

  /** Over every run from a start with or without a checkpoint, failures anywhere except in a repeat ADD:
      tracked pods hold their allocator records, no two share an address, and the data plane maps exactly
      the tracked addresses. */
  lemma RunTable(cidr: Cidr, saved: Option<seq<Checkpoint.Saved>>, ops: seq<Op>)
    requires Benign(Boot(cidr, saved), ops)
    ensures TableInv(Run(Boot(cidr, saved), ops)) && DistinctTracked(Run(Boot(cidr, saved), ops).tracked)
  {
    BootValid(cidr, saved);
    StartTable(BootPool(cidr, saved));
    RunFromTable(Boot(cidr, saved), ops);
    TrackedDistinct(Run(Boot(cidr, saved), ops));
  }

  // ---------------------------------------------------------------- the failing case

  lemma FirstFreeAddress(p: NodeIpam.Pool, podName: string, podNamespace: string, i: nat)
    requires NodeIpam.Shaped(p) && NodeIpam.PodKey(podName, podNamespace) !in p.records
    requires 1 <= i < |p.bitmap| - 1 && !p.bitmap[i] && forall j | 1 <= j < i :: p.bitmap[j]
    ensures var (q, ip) := NodeIpam.Allocated(p, podName, podNamespace);
            ip == Some(p.base + i) && q.bitmap == p.bitmap[i := true]
  {
    NodeIpam.FirstFreeIs(p.bitmap, 1, i);
    NodeIpam.NoWrap(p.base, i);
  }

  /** A failing repeat ADD frees the address of the tracked pod, and if that is then the least free one
      the next new pod is given it: two tracked pods with one address. */
  lemma FreedAddressReused(s: Agent, again: AddReq, env: AddEnv, other: AddReq, ok: AddEnv)
    requires TableInv(s) && again.Key() in s.tracked && other.Key() !in s.pool.records
    requires !env.netnsOk && ok.netnsOk && ok.dpOk
    requires forall a | s.pool.base < a < s.tracked[again.Key()].ip :: NodeIpam.Held(s.pool, a)
    ensures var t := Add(Add(s, again, env).0, other, ok).0;
            && again.Key() in t.tracked && other.Key() in t.tracked && again.Key() != other.Key()
            && t.tracked[other.Key()].ip == t.tracked[again.Key()].ip
  {
    var ip := s.tracked[again.Key()].ip;
    var mid := Add(s, again, env).0;
    assert mid.tracked == s.tracked && mid.pool == NodeIpam.Released(s.pool, again.Key());
    NodeIpam.ReleasedValid(s.pool, again.Key());
    assert NodeIpam.RecordOk(s.pool, again.Key());
    forall j | 1 <= j < ip - s.pool.base
      ensures mid.pool.bitmap[j]
    {
      NodeIpam.BitIsRecord(s.pool, s.pool.base + j);
    }
    FirstFreeAddress(mid.pool, other.podName, other.podNamespace, ip - s.pool.base);
  }

  /** The first pod of an agent gets the address after the gateway's. */
  lemma FirstPod(cidr: Cidr, a: AddReq, env: AddEnv)
    requires cidr.Size() >= 4 && a.Key() != GatewayKey() && env.netnsOk && env.dpOk
    ensures var s := Add(Boot(cidr, None), a, env).0;
            && s.pool.base == cidr.ip && s.pool.records.Keys == {GatewayKey(), a.Key()}
            && s.pool.records[GatewayKey()].ip == cidr.ip + 1
            && a.Key() in s.tracked && s.tracked[a.Key()].ip == cidr.ip + 2
  {
    var p := NodeIpam.Fresh(cidr);
    FirstFreeAddress(p, GATEWAY, KUBE_SYSTEM, 1);
    BootValid(cidr, None);
    FirstFreeAddress(Boot(cidr, None).pool, a.podName, a.podNamespace, 2);
    AllocatedRecords(p, GATEWAY, KUBE_SYSTEM);
    AllocatedRecords(Boot(cidr, None).pool, a.podName, a.podNamespace);
  }

  lemma FirstPodTable(cidr: Cidr, a: AddReq, env: AddEnv)
    requires cidr.Size() >= 4 && a.Key() != GatewayKey() && env.netnsOk && env.dpOk
    ensures TableInv(Add(Boot(cidr, None), a, env).0) && NodeIpam.Held(Add(Boot(cidr, None), a, env).0.pool, cidr.ip + 1)
  {
    FirstPod(cidr, a, env);
    BootValid(cidr, None);
    StartTable(BootPool(cidr, None));
    AddSucceeds(Boot(cidr, None), a, env);
  }

  lemma RunThree(s: Agent, a: Op, b: Op, c: Op)
    ensures Run(s, [a, b, c]) == Step(Step(Step(s, a), b), c)
  {
    assert [a, b, c][..2] == [a, b] && [a, b][..1] == [a] && [a][..0] == [];
    assert Run(s, []) == s;
    assert Run(s, [a]) == Step(s, a);
    assert Run(s, [a, b]) == Step(Step(s, a), b);
  }

  /** The failure happens on every block with two usable addresses: an ADD, a failing repeat of it, and
      the ADD of another pod leave both pods tracked with one address. */
  lemma FailedRepeatSharesAddress(cidr: Cidr, a: AddReq, b: AddReq, ok: AddEnv, bad: AddEnv)
    requires cidr.Size() >= 4 && a.Key() != b.Key() && a.Key() != GatewayKey() && b.Key() != GatewayKey()
    requires ok.netnsOk && ok.dpOk && !bad.netnsOk
    ensures var t := Run(Boot(cidr, None), [AddOp(a, ok), AddOp(a, bad), AddOp(b, ok)]);
            && a.Key() in t.tracked && b.Key() in t.tracked
            && t.tracked[a.Key()].ip == t.tracked[b.Key()].ip
            && !DistinctTracked(t.tracked)
  {
    var s := Add(Boot(cidr, None), a, ok).0;
    FirstPod(cidr, a, ok);
    FirstPodTable(cidr, a, ok);
    FreedAddressReused(s, a, bad, b, ok);
    RunThree(Boot(cidr, None), AddOp(a, ok), AddOp(a, bad), AddOp(b, ok));
  }

  // ================================================================ gateway

  /** The gateway's own record holds the first usable address, and the gateway is not a pod. */
  predicate GatewayInv(s: Agent) {
    && GatewayKey() in s.pool.records
    && s.pool.records[GatewayKey()].ip == s.pool.base + 1
    && GatewayKey() !in s.tracked
  }

  /** A request that names the gateway pod. */
  predicate NamesGateway(op: Op) {
    || (op.AddOp? && op.req.Key() == GatewayKey())
    || (op.DelOp? && NodeIpam.PodKey(op.podName, op.podNamespace) == GatewayKey())
  }

  /** The reservation survives a step exactly when the step does not name the gateway. */
  lemma StepGateway(s: Agent, op: Op)
    requires GatewayInv(s)
    ensures GatewayInv(Step(s, op)) <==> !NamesGateway(op)
    ensures Step(s, op).pool.base == s.pool.base
  {
    match op
    case AddOp(req, env) =>
      AllocatedRecords(s.pool, req.podName, req.podNamespace);
    case DelOp(n, ns) =>
    case ReconcileOp(order) =>
    case PolicyOp(sel) =>
  }

  /** The gateway is reserved whenever the block has a usable address. */
  ghost predicate Reserved(s: Agent) {
    NodeIpam.Valid(s.pool) && (GatewayInv(s) || (NodeIpam.Usable(|s.pool.bitmap|) == 0 && s.tracked == map[]))
  }

  lemma TinyBlockRefuses(s: Agent, req: AddReq, env: AddEnv)
    requires NodeIpam.Valid(s.pool) && NodeIpam.Usable(|s.pool.bitmap|) == 0
    ensures Add(s, req, env).1.None? && Add(s, req, env).0.tracked == s.tracked
  {
    NodeIpam.Conservation(s.pool);
    assert s.pool.records == map[];
    NodeIpam.AllocatedExact(s.pool, req.podName, req.podNamespace);
  }

  lemma StepReserved(s: Agent, op: Op)
    requires Reserved(s) && !NamesGateway(op)
    ensures Reserved(Step(s, op)) && Step(s, op).pool.base == s.pool.base
  {
    PoolStep(s, op);
    if GatewayInv(s) {
      StepGateway(s, op);
    } else if op.AddOp? {
      TinyBlockRefuses(s, op.req, op.env);
    }
  }

  lemma {:induction false} RunReserved(s: Agent, ops: seq<Op>)
    requires Reserved(s) && forall op | op in ops :: !NamesGateway(op)
    ensures Reserved(Run(s, ops)) && Run(s, ops).pool.base == s.pool.base
    decreases |ops|
  {
    if ops != [] {
      RunReserved(s, ops[..|ops| - 1]);
      StepReserved(Run(s, ops[..|ops| - 1]), ops[|ops| - 1]);
    }
  }

  lemma AddGivesAllocated(s: Agent, req: AddReq, env: AddEnv)
    ensures Add(s, req, env).1.Some? ==> Add(s, req, env).1 == NodeIpam.Allocated(s.pool, req.podName, req.podNamespace).1
  {
  }

  /** A pool never gives two keys one address. */
  lemma AllocatedApart(p: NodeIpam.Pool, podName: string, podNamespace: string, other: string)
    requires NodeIpam.Valid(p) && other in p.records && other != NodeIpam.PodKey(podName, podNamespace)
    ensures NodeIpam.Allocated(p, podName, podNamespace).1 != Some(p.records[other].ip)
  {
    AllocatedRecords(p, podName, podNamespace);
    NodeIpam.AllocatedValid(p, podName, podNamespace);
  }

  lemma ReservedKeepsAway(s: Agent, req: AddReq, env: AddEnv)
    requires Reserved(s) && req.Key() != GatewayKey()
    ensures Add(s, req, env).1 != Some(NextIP(s.pool.base))
  {
    if NodeIpam.Usable(|s.pool.bitmap|) == 0 {
      TinyBlockRefuses(s, req, env);
    } else {
      AddGivesAllocated(s, req, env);
      AllocatedApart(s.pool, req.podName, req.podNamespace, GatewayKey());
    }
  }

  lemma PackedGateway(q: NodeIpam.Pool, cidr: Cidr, rs: seq<Checkpoint.Saved>)
    requires Checkpoint.Packed(q, cidr, rs) && GatewayKey() in q.records
    requires Checkpoint.DistinctKeys(rs)
    ensures q.records[GatewayKey()].ip == q.base + 1 <==> rs[0].Key() == GatewayKey()
  {
    var r :| r in rs && r.Key() == GatewayKey();
    var i :| 0 <= i < |rs| && rs[i] == r;
    assert q.records[rs[i].Key()].ip == cidr.ip + 1 + i;
  }

  lemma GatewayAfterPacked(q: NodeIpam.Pool, cidr: Cidr, rs: seq<Checkpoint.Saved>)
    requires Checkpoint.Packed(q, cidr, rs)
    requires Checkpoint.DistinctKeys(rs) && |rs| <= NodeIpam.Usable(cidr.Size())
    ensures GatewayInv(StartFrom(q)) <==>
            NodeIpam.Usable(cidr.Size()) > 0 && (rs == [] || rs[0].Key() == GatewayKey())
  {
    var p := StartFrom(q).pool;
    AllocatedRecords(q, GATEWAY, KUBE_SYSTEM);
    if GatewayKey() in q.records {
      PackedGateway(q, cidr, rs);
    } else if |rs| == NodeIpam.Usable(cidr.Size()) {
      NodeIpam.FirstFreeIs(q.bitmap, 1, |rs| + 1);
      assert rs != [] ==> rs[0].Key() in q.records;
    } else {
      Checkpoint.PackedNext(q, cidr, rs, Checkpoint.Saved(GATEWAY, KUBE_SYSTEM, 0));
      assert p.records[GatewayKey()].ip == cidr.ip + 1 + |rs|;
      assert rs != [] ==> rs[0].Key() in q.records;
    }
  }

  /** The checkpoint is absent or empty, or lists the gateway first. */
  predicate GatewayFirst(saved: Option<seq<Checkpoint.Saved>>) {
    saved.Some? && saved.value != [] ==> saved.value[0].Key() == GatewayKey()
  }

  function Replayed(saved: Option<seq<Checkpoint.Saved>>, room: nat): seq<Checkpoint.Saved> {
    Checkpoint.Taken(saved.GetOr([]), room)
  }

  lemma BootPacked(cidr: Cidr, saved: Option<seq<Checkpoint.Saved>>)
    ensures var rs := Replayed(saved, NodeIpam.Usable(cidr.Size()));
            && Checkpoint.Packed(BootPool(cidr, saved), cidr, rs)
            && Checkpoint.DistinctKeys(rs) && |rs| <= NodeIpam.Usable(cidr.Size())
            && (rs == [] <==> NodeIpam.Usable(cidr.Size()) == 0 || saved.GetOr([]) == [])
            && (rs != [] ==> rs[0] == saved.GetOr([])[0])
  {
    Checkpoint.RestorePacks(cidr, saved.GetOr([]));
    Checkpoint.FirstsKeys(saved.GetOr([]));
  }

  /** After a start the gateway holds the advertised address exactly when the block has a usable address
      and the checkpoint, whatever else it lists, does not put another pod first. */
  lemma RestartGateway(cidr: Cidr, saved: Option<seq<Checkpoint.Saved>>)
    ensures GatewayInv(Boot(cidr, saved)) <==> NodeIpam.Usable(cidr.Size()) > 0 && GatewayFirst(saved)
  {
    BootPacked(cidr, saved);
    GatewayAfterPacked(BootPool(cidr, saved), cidr, Replayed(saved, NodeIpam.Usable(cidr.Size())));
  }

  /** An ADD after the run hands out the gateway address that ADDs advertise. */
  ghost predicate GivesGateway(cidr: Cidr, saved: Option<seq<Checkpoint.Saved>>, ops: seq<Op>, req: AddReq, env: AddEnv) {
    forall u :: Unfold(u) ==> Add(Run(Boot(cidr, saved), ops), req, env).1 == Some(NextIP(cidr.ip))
  }

  /** No pod is ever given it, in any run without requests for the gateway pod. */
  ghost predicate NeverGiven(cidr: Cidr, saved: Option<seq<Checkpoint.Saved>>) {
    forall ops: seq<Op>, req: AddReq, env: AddEnv | req.Key() != GatewayKey() && (forall op | op in ops :: !NamesGateway(op)) ::
      !GivesGateway(cidr, saved, ops, req, env)
  }

  lemma GatewayKept(cidr: Cidr, saved: Option<seq<Checkpoint.Saved>>, ops: seq<Op>, req: AddReq, env: AddEnv)
    requires GatewayFirst(saved) || NodeIpam.Usable(cidr.Size()) == 0
    requires req.Key() != GatewayKey() && forall op | op in ops :: !NamesGateway(op)
    ensures !GivesGateway(cidr, saved, ops, req, env)
  {
    assert Unfold(Unit);
    BootValid(cidr, saved);
    RestartGateway(cidr, saved);
    RunReserved(Boot(cidr, saved), ops);
    ReservedKeepsAway(Run(Boot(cidr, saved), ops), req, env);
  }

  lemma FirstReplayed(cidr: Cidr, saved: Option<seq<Checkpoint.Saved>>)
    requires saved.GetOr([]) != [] && NodeIpam.Usable(cidr.Size()) > 0
    ensures var records := Boot(cidr, saved).pool.records;
            var key := saved.GetOr([])[0].Key();
            key in records && records[key].ip == cidr.ip + 1
  {
    BootPacked(cidr, saved);
    var rs := Replayed(saved, NodeIpam.Usable(cidr.Size()));
    assert rs[0].Key() in BootPool(cidr, saved).records;
    AllocatedRecords(BootPool(cidr, saved), GATEWAY, KUBE_SYSTEM);
  }

  lemma GatewayInBlock(cidr: Cidr)
    requires NodeIpam.Usable(cidr.Size()) > 0
    ensures NextIP(cidr.ip) == cidr.ip + 1
  {
    CidrFits(cidr);
  }

  lemma AddOfRecorded(s: Agent, req: AddReq, env: AddEnv)
    requires req.Key() in s.pool.records && env.netnsOk && env.dpOk
    ensures Add(s, req, env).1 == Some(s.pool.records[req.Key()].ip)
  {
  }

  /** The pod a checkpoint lists first gets the gateway address with its next ADD. */
  lemma FirstReplayedGets(cidr: Cidr, saved: Option<seq<Checkpoint.Saved>>, req: AddReq, env: AddEnv)
    requires saved.GetOr([]) != [] && NodeIpam.Usable(cidr.Size()) > 0
    requires req.Key() == saved.GetOr([])[0].Key() && env.netnsOk && env.dpOk
    ensures GivesGateway(cidr, saved, [], req, env)
  {
    FirstReplayed(cidr, saved);
    GatewayInBlock(cidr);
    AddOfRecorded(Boot(cidr, saved), req, env);
    assert Run(Boot(cidr, saved), []) == Boot(cidr, saved);
  }

  lemma GatewayGiven(cidr: Cidr, saved: Option<seq<Checkpoint.Saved>>, req: AddReq, env: AddEnv)
    requires GivesGateway(cidr, saved, [], req, env) && req.Key() != GatewayKey()
    ensures !NeverGiven(cidr, saved)
  {
  }

  /** In every run without requests for the gateway pod, failing repeat ADDs included, no ADD hands out
      the gateway address it advertises, if and only if the agent started without a checkpoint, or with one
      that lists the gateway first, or on a block without usable addresses. */
  lemma GatewayNeverGiven(cidr: Cidr, saved: Option<seq<Checkpoint.Saved>>)
    ensures NeverGiven(cidr, saved) <==> GatewayFirst(saved) || NodeIpam.Usable(cidr.Size()) == 0
  {
    if GatewayFirst(saved) || NodeIpam.Usable(cidr.Size()) == 0 {
      forall ops: seq<Op>, req: AddReq, env: AddEnv | req.Key() != GatewayKey() && (forall op | op in ops :: !NamesGateway(op))
        ensures !GivesGateway(cidr, saved, ops, req, env)
      {
        GatewayKept(cidr, saved, ops, req, env);
      }
    } else {
      var r, env := saved.value[0], AddEnv([], true, true, 0);
      var req := AddReq(r.podName, r.podNamespace, map[], Blank, "", "");
      FirstReplayedGets(cidr, saved, req, env);
      GatewayGiven(cidr, saved, req, env);
    }
  }

  // ================================================================ reconcile

  /** Addresses recorded for neither a tracked pod nor the gateway. */
  ghost function Leaked(s: Agent): set<uint32> {
    NodeIpam.OrphanIPs(s.pool, s.tracked.Keys + {GatewayKey()})
  }

  /** A sweep keeps exactly the tracked pods and the gateway, with their addresses, leaves the
      IP-to-identity map alone, and afterwards nothing is leaked. */
  lemma SweepExact(s: Agent, order: seq<string>)
    requires TableInv(s) && GatewayInv(s)
    ensures var t := Reconciled(s, order);
            && t.pool.records.Keys == s.tracked.Keys + {GatewayKey()}
            && (forall k | k in t.pool.records :: t.pool.records[k] == s.pool.records[k])
            && t.dp.identityMap == s.dp.identityMap
            && t.tracked == s.tracked
            && Leaked(t) == {}
            && (forall ip: uint32 :: NodeIpam.Held(t.pool, ip) <==> NodeIpam.Held(s.pool, ip) && ip !in Leaked(s))
  {
    ReprogrammedSame(s.dp, s.tracked, order);
    SweepPool(s.pool, s.tracked.Keys + {GatewayKey()});
  }

  /** After a start no pod is tracked, so the first sweep releases every reservation the checkpoint restored
      and leaves at most the gateway's. */
  lemma SweepForgetsRestored(cidr: Cidr, saved: Option<seq<Checkpoint.Saved>>, order: seq<string>)
    ensures var s := Boot(cidr, saved);
            var t := Reconciled(s, order);
            && t.pool.records.Keys == s.pool.records.Keys * {GatewayKey()}
            && (forall k | k in s.pool.records && k != GatewayKey() :: !NodeIpam.Held(t.pool, s.pool.records[k].ip))
  {
    BootValid(cidr, saved);
    var s := Boot(cidr, saved);
    NodeIpam.RetainedExact(s.pool, {GatewayKey()});
    assert s.tracked.Keys + {GatewayKey()} == {GatewayKey()};
    var t := Reconciled(s, order);
    forall k | k in s.pool.records && k != GatewayKey()
      ensures !NodeIpam.Held(t.pool, s.pool.records[k].ip)
    {
      assert s.pool.records[k].ip in NodeIpam.OrphanIPs(s.pool, {GatewayKey()});
    }
  }

  /** When every active key is recorded, a sweep of the pool keeps exactly those and leaves no orphan. */
  lemma SweepPool(p: NodeIpam.Pool, active: set<string>)
    requires NodeIpam.Valid(p) && active <= p.records.Keys
    ensures var q := NodeIpam.Retained(p, active);
            && q.records.Keys == active
            && (forall k | k in q.records :: q.records[k] == p.records[k])
            && NodeIpam.OrphanIPs(q, active) == {}
            && (forall ip: uint32 :: NodeIpam.Held(q, ip) <==> NodeIpam.Held(p, ip) && ip !in NodeIpam.OrphanIPs(p, active))
  {
    NodeIpam.RetainedExact(p, active);
  }
}
