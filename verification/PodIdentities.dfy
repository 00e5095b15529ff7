/** The identities of tracked pods over agent runs: their references and numbers, who shares one, and what an
    undone ADD leaves behind (cmd/node-agent/main.go, pkg/policy/identity.go). */
module PodIdentities {
  import opened Base
  import opened Labels
  import opened NodeAgent
  import NodeIpam
  import Identities
  import DataPlane

  // ================================================================ references

  function UsersOf(tracked: map<string, Info>, id: uint32): set<string> {
    set k | k in tracked && tracked[k].identity == id
  }

  lemma UsersPut(tracked: map<string, Info>, key: string, info: Info, id: uint32)
    ensures |UsersOf(tracked[key := info], id)| <= |UsersOf(tracked, id)| + if info.identity == id then 1 else 0
  {
    var before, after := UsersOf(tracked, id), UsersOf(tracked[key := info], id);
    if info.identity == id {
      assert after <= before + {key};
      SubsetSize(after, before + {key});
    } else {
      SubsetSize(after, before);
    }
  }

  lemma UsersRemove(tracked: map<string, Info>, key: string, id: uint32)
    requires key in tracked
    ensures |UsersOf(tracked - {key}, id)| == |UsersOf(tracked, id)| - if tracked[key].identity == id then 1 else 0
  {
    if tracked[key].identity == id {
      assert UsersOf(tracked - {key}, id) == UsersOf(tracked, id) - {key};
    } else {
      assert UsersOf(tracked - {key}, id) == UsersOf(tracked, id);
    }
  }

  lemma {:induction false} SubsetSize<T>(a: set<T>, b: set<T>)
    requires a <= b
    ensures |a| <= |b|
    decreases |a|
  {
    if a != {} {
      var x :| x in a;
      SubsetSize(a - {x}, b - {x});
    }
  }

  /** Each identity has at least as many references as tracked pods using it. */
  ghost predicate Covered(s: Identities.Ids, tracked: map<string, Info>) {
    forall id: uint32 :: |UsersOf(tracked, id)| <= Identities.Refs(s, id)
  }

  ghost predicate RefInv(s: Agent, created: nat) {
    forall u :: Unfold(u) ==> Identities.Inv(s.ids, created) && Covered(s.ids, s.tracked)
  }

  lemma RefInvIds(s: Agent, created: nat)
    requires RefInv(s, created)
    ensures Identities.Inv(s.ids, created) && Covered(s.ids, s.tracked)
  {
    assert Unfold(Unit);
  }

  lemma RefInvFrom(s: Agent, created: nat)
    requires Identities.Inv(s.ids, created) && Covered(s.ids, s.tracked)
    ensures RefInv(s, created)
  {
  }

  function AllCreations(s: Identities.Ids, sels: seq<Selector>): nat {
    if sels == [] then 0
    else AllCreations(s, sels[..|sels| - 1]) + Identities.Creations(AcquireAll(s, sels[..|sels| - 1]), sels[|sels| - 1].hash)
  }

  /** How many identities a step creates. */
  function StepCreations(s: Agent, op: Op): nat {
    match op
    case AddOp(req, env) =>
      Identities.Creations(s.ids, req.hash)
      + AllCreations(Identities.Acquired(s.ids, req.labels, req.hash).0, env.interleaved)
    case PolicyOp(sel) => Identities.Creations(s.ids, sel.hash)
    case _ => 0
  }

  ghost function RunCreations(s: Agent, ops: seq<Op>): nat {
    if ops == [] then 0
    else RunCreations(s, ops[..|ops| - 1]) + StepCreations(Run(s, ops[..|ops| - 1]), ops[|ops| - 1])
  }

  lemma {:induction false} AcquireAllInv(s: Identities.Ids, created: nat, sels: seq<Selector>)
    requires Identities.Inv(s, created) && created + AllCreations(s, sels) < TWO32
    ensures Identities.Inv(AcquireAll(s, sels), created + AllCreations(s, sels))
    ensures forall id :: Identities.Refs(s, id) <= Identities.Refs(AcquireAll(s, sels), id)
    decreases |sels|
  {
    if sels != [] {
      var n := |sels| - 1;
      AcquireAllInv(s, created, sels[..n]);
      Identities.AcquiredInv(AcquireAll(s, sels[..n]), created + AllCreations(s, sels[..n]), sels[n].labels, sels[n].hash);
    }
  }

  lemma AddIdsInv(ids: Identities.Ids, created: nat, req: AddReq, sels: seq<Selector>)
    requires Identities.Inv(ids, created)
    requires created + Identities.Creations(ids, req.hash)
             + AllCreations(Identities.Acquired(ids, req.labels, req.hash).0, sels) < TWO32
    ensures var (ids1, id) := Identities.Acquired(ids, req.labels, req.hash);
            var ids2 := AcquireAll(ids1, sels);
            && Identities.Inv(ids2, created + Identities.Creations(ids, req.hash) + AllCreations(ids1, sels))
            && (forall j :: Identities.Refs(ids, j) + (if j == id then 1 else 0) <= Identities.Refs(ids2, j))
  {
    var (ids1, id) := Identities.Acquired(ids, req.labels, req.hash);
    Identities.AcquiredInv(ids, created, req.labels, req.hash);
    AcquireAllInv(ids1, created + Identities.Creations(ids, req.hash), sels);
    forall j
      ensures Identities.Refs(ids, j) + (if j == id then 1 else 0) <= Identities.Refs(AcquireAll(ids1, sels), j)
    {
      assert Identities.Refs(ids1, j) <= Identities.Refs(AcquireAll(ids1, sels), j);
    }
  }

  lemma CoveredPut(ids: Identities.Ids, ids2: Identities.Ids, tracked: map<string, Info>, key: string, info: Info)
    requires Covered(ids, tracked)
    requires forall j :: Identities.Refs(ids, j) + (if j == info.identity then 1 else 0) <= Identities.Refs(ids2, j)
    ensures Covered(ids2, tracked[key := info])
  {
    forall j: uint32
      ensures |UsersOf(tracked[key := info], j)| <= Identities.Refs(ids2, j)
    {
      assert |UsersOf(tracked, j)| <= Identities.Refs(ids, j);
      UsersPut(tracked, key, info, j);
    }
  }

  lemma CoveredDrop(ids: Identities.Ids, ids2: Identities.Ids, created: nat, tracked: map<string, Info>, id: uint32)
    requires Covered(ids, tracked) && Identities.Inv(ids2, created)
    requires forall j :: Identities.Refs(ids, j) + (if j == id then 1 else 0) <= Identities.Refs(ids2, j)
    ensures Covered(Identities.Dropped(ids2, id), tracked)
  {
    Identities.DroppedInv(ids2, created, id);
    forall j: uint32
      ensures |UsersOf(tracked, j)| <= Identities.Refs(Identities.Dropped(ids2, id), j)
    {
      assert |UsersOf(tracked, j)| <= Identities.Refs(ids, j);
    }
  }

  lemma AddRefs(s: Agent, created: nat, req: AddReq, env: AddEnv)
    requires RefInv(s, created) && created + StepCreations(s, AddOp(req, env)) < TWO32
    ensures RefInv(Add(s, req, env).0, created + StepCreations(s, AddOp(req, env)))
  {
    RefInvIds(s, created);
    var (ids1, id) := Identities.Acquired(s.ids, req.labels, req.hash);
    var n := created + StepCreations(s, AddOp(req, env));
    AddIdsInv(s.ids, created, req, env.interleaved);
    var ids2 := AcquireAll(ids1, env.interleaved);
    var (t, ip) := Add(s, req, env);
    if ip.None? {
      Identities.DroppedInv(ids2, n, id);
      CoveredDrop(s.ids, ids2, n, s.tracked, id);
      RefInvFrom(t, n);
    } else {
      CoveredPut(s.ids, ids2, s.tracked, req.Key(), Info(ip.value, id, req.ifName, req.netns));
      RefInvFrom(t, n);
    }
  }

  lemma DelRefs(s: Agent, created: nat, key: string)
    requires RefInv(s, created)
    ensures RefInv(Del(s, key), created)
  {
    assert Unfold(Unit);
    if key in s.tracked {
      var t := Del(s, key);
      Identities.DroppedInv(s.ids, created, s.tracked[key].identity);
      forall j: uint32
        ensures |UsersOf(t.tracked, j)| <= Identities.Refs(t.ids, j)
      {
        assert |UsersOf(s.tracked, j)| <= Identities.Refs(s.ids, j);
        UsersRemove(s.tracked, key, j);
      }
    }
  }

  lemma StepRefs(s: Agent, created: nat, op: Op)
    requires RefInv(s, created) && created + StepCreations(s, op) < TWO32
    ensures RefInv(Step(s, op), created + StepCreations(s, op))
  {
    assert Unfold(Unit);
    match op
    case AddOp(req, env) => AddRefs(s, created, req, env);
    case DelOp(n, ns) => DelRefs(s, created, NodeIpam.PodKey(n, ns));
    case ReconcileOp(order) =>
    case PolicyOp(sel) =>
      Identities.AcquiredInv(s.ids, created, sel.labels, sel.hash);
      var t := Step(s, op);
      forall j: uint32
        ensures |UsersOf(t.tracked, j)| <= Identities.Refs(t.ids, j)
      {
        assert |UsersOf(s.tracked, j)| <= Identities.Refs(s.ids, j);
      }
  }

  /** One step from `before` to `after`, with the number of identities created up to either. */
  ghost predicate Follows(before: Agent, created: nat, op: Op, after: Agent, total: nat) {
    forall u :: Unfold(u) ==> after == Step(before, op) && total == created + StepCreations(before, op)
  }

  lemma RunLast(s: Agent, ops: seq<Op>)
    requires ops != []
    ensures var n := |ops| - 1;
            Follows(Run(s, ops[..n]), RunCreations(s, ops[..n]), ops[n], Run(s, ops), RunCreations(s, ops))
    ensures RunCreations(s, ops[..|ops| - 1]) <= RunCreations(s, ops)
  {
  }

  lemma FollowsRefs(before: Agent, created: nat, op: Op, after: Agent, total: nat)
    requires Follows(before, created, op, after, total) && RefInv(before, created) && total < TWO32
    ensures RefInv(after, total)
  {
    assert Unfold(Unit);
    StepRefs(before, created, op);
  }

  lemma {:induction false} RunRefs(s: Agent, ops: seq<Op>)
    requires RefInv(s, 0) && RunCreations(s, ops) < TWO32
    ensures RefInv(Run(s, ops), RunCreations(s, ops))
    decreases |ops|
  {
    if ops != [] {
      var n := |ops| - 1;
      RunLast(s, ops);
      RunRefs(s, ops[..n]);
      FollowsRefs(Run(s, ops[..n]), RunCreations(s, ops[..n]), ops[n], Run(s, ops), RunCreations(s, ops));
    }
  }

  /** The identity of a tracked pod is live. */
  lemma CoveredLive(s: Agent, created: nat, k: string)
    requires RefInv(s, created) && k in s.tracked
    ensures s.tracked[k].identity in s.ids.identities
    ensures 1 <= s.tracked[k].identity <= created
  {
    assert Unfold(Unit);
    var id := s.tracked[k].identity;
    assert k in UsersOf(s.tracked, id);
    assert |UsersOf(s.tracked, id)| <= Identities.Refs(s.ids, id);
    assert id in s.ids.identities ==> Identities.IdentityOk(s.ids, created, id);
  }

  /** Over every run with fewer than 2^32 identity creations, whatever fails and repeats, and with policy
      compilations allocating in between: references cover users, so no identity in use is collected,
      and none is the wildcard 0. */
  lemma RunIdentities(pool: NodeIpam.Pool, ops: seq<Op>)
    requires RunCreations(StartFrom(pool), ops) < TWO32
    ensures var s := Run(StartFrom(pool), ops);
            && Covered(s.ids, s.tracked)
            && (forall k | k in s.tracked :: s.tracked[k].identity in s.ids.identities && s.tracked[k].identity != 0)
  {
    assert Unfold(Unit);
    var start := StartFrom(pool);
    assert forall id: uint32 :: UsersOf(start.tracked, id) == {};
    RunRefs(start, ops);
    var s := Run(start, ops);
    forall k | k in s.tracked
      ensures s.tracked[k].identity in s.ids.identities && s.tracked[k].identity != 0
    {
      CoveredLive(s, RunCreations(start, ops), k);
    }
  }

  // ---------------------------------------------------------------- issued numbers

  function AcquireOps(sels: seq<Selector>): seq<Identities.Op> {
    if sels == [] then []
    else AcquireOps(sels[..|sels| - 1]) + [Identities.Acquire(sels[|sels| - 1].labels, sels[|sels| - 1].hash)]
  }

  /** The calls a step makes to the identity allocator. */
  function IdOps(s: Agent, op: Op): seq<Identities.Op> {
    match op
    case AddOp(req, env) =>
      [Identities.Acquire(req.labels, req.hash)] + AcquireOps(env.interleaved)
      + (if Add(s, req, env).1.Some? then [] else [Identities.Drop(Identities.Acquired(s.ids, req.labels, req.hash).1)])
    case DelOp(n, ns) =>
      var key := NodeIpam.PodKey(n, ns);
      if key in s.tracked then [Identities.Drop(s.tracked[key].identity)] else []
    case ReconcileOp(order) => []
    case PolicyOp(sel) => [Identities.Acquire(sel.labels, sel.hash)]
  }

  ghost function RunIdOps(s: Agent, ops: seq<Op>): seq<Identities.Op> {
    if ops == [] then [] else RunIdOps(s, ops[..|ops| - 1]) + IdOps(Run(s, ops[..|ops| - 1]), ops[|ops| - 1])
  }

  lemma OneIdOp(t: Identities.Traced, op: Identities.Op)
    ensures Identities.RunFrom(t, [op]) == Identities.Step(t, op)
  {
    assert [op][..0] == [];
  }

  lemma {:induction false} AcquireOpsRun(t: Identities.Traced, sels: seq<Selector>)
    ensures var u := Identities.RunFrom(t, AcquireOps(sels));
            u.ids == AcquireAll(t.ids, sels) && |u.issued| == |t.issued| + AllCreations(t.ids, sels)
    decreases |sels|
  {
    if sels != [] {
      var n := |sels| - 1;
      var last := Identities.Acquire(sels[n].labels, sels[n].hash);
      AcquireOpsRun(t, sels[..n]);
      Identities.RunAppend(t, AcquireOps(sels[..n]), [last]);
      OneIdOp(Identities.RunFrom(t, AcquireOps(sels[..n])), last);
    }
  }

  /** The identity calls of an ADD: acquire, the interleaved acquisitions, and a drop when it fails. */
  lemma AddIdOps(t: Identities.Traced, labels: Labels, hash: Digest, sels: seq<Selector>, drops: seq<Identities.Op>)
    requires drops == [] || drops == [Identities.Drop(Identities.Acquired(t.ids, labels, hash).1)]
    ensures var (ids1, id) := Identities.Acquired(t.ids, labels, hash);
            var ids2 := AcquireAll(ids1, sels);
            var u := Identities.RunFrom(t, [Identities.Acquire(labels, hash)] + AcquireOps(sels) + drops);
            && u.ids == (if drops == [] then ids2 else Identities.Dropped(ids2, id))
            && |u.issued| == |t.issued| + Identities.Creations(t.ids, hash) + AllCreations(ids1, sels)
  {
    var first := Identities.Acquire(labels, hash);
    Identities.RunAppend(t, [first] + AcquireOps(sels), drops);
    Identities.RunAppend(t, [first], AcquireOps(sels));
    OneIdOp(t, first);
    AcquireOpsRun(Identities.Step(t, first), sels);
    if drops != [] {
      OneIdOp(Identities.RunFrom(t, [first] + AcquireOps(sels)), drops[0]);
    }
  }

  /** A step changes the identities exactly as its calls do, and creates as many as they issue. */
  lemma StepIdOps(s: Agent, op: Op, t: Identities.Traced)
    requires t.ids == s.ids
    ensures var u := Identities.RunFrom(t, IdOps(s, op));
            u.ids == Step(s, op).ids && |u.issued| == |t.issued| + StepCreations(s, op)
  {
    match op
    case AddOp(req, env) =>
      AddIdOps(t, req.labels, req.hash, env.interleaved,
               if Add(s, req, env).1.Some? then []
               else [Identities.Drop(Identities.Acquired(s.ids, req.labels, req.hash).1)]);
    case DelOp(n, ns) =>
      var key := NodeIpam.PodKey(n, ns);
      if key in s.tracked {
        OneIdOp(t, Identities.Drop(s.tracked[key].identity));
      }
    case ReconcileOp(order) =>
    case PolicyOp(sel) => OneIdOp(t, Identities.Acquire(sel.labels, sel.hash));
  }

  lemma {:induction false} RunIdOpsExact(s: Agent, ops: seq<Op>)
    requires s.ids == Identities.Empty()
    ensures var u := Identities.Run(RunIdOps(s, ops));
            u.ids == Run(s, ops).ids && |u.issued| == RunCreations(s, ops)
    decreases |ops|
  {
    if ops != [] {
      var n := |ops| - 1;
      var before := RunIdOps(s, ops[..n]);
      RunIdOpsExact(s, ops[..n]);
      Identities.RunAppend(Identities.Traced(Identities.Empty(), []), before, IdOps(Run(s, ops[..n]), ops[n]));
      StepIdOps(Run(s, ops[..n]), ops[n], Identities.Run(before));
    }
  }

  /** The numbers an agent issues over a whole run are 1, 2, 3, ...: with fewer than 2^32 creations none
      is the wildcard 0 and none is ever issued twice, however often identities are collected. */
  lemma AgentIssuesInOrder(pool: NodeIpam.Pool, ops: seq<Op>)
    requires RunCreations(StartFrom(pool), ops) < TWO32
    ensures var u := Identities.Run(RunIdOps(StartFrom(pool), ops));
            && u.ids == Run(StartFrom(pool), ops).ids
            && |u.issued| == RunCreations(StartFrom(pool), ops)
            && (forall i | 0 <= i < |u.issued| :: u.issued[i] == i + 1)
  {
    RunIdOpsExact(StartFrom(pool), ops);
    Identities.IssuedInOrder(RunIdOps(StartFrom(pool), ops));
  }

  // ================================================================ shared identities

  /** The agent with the request of the last successful ADD of each tracked pod. */
  datatype Traced = Traced(agent: Agent, requests: map<string, AddReq>)

  ghost function StepT(t: Traced, op: Op): Traced {
    Traced(Step(t.agent, op),
           match op
           case AddOp(req, env) =>
             if Add(t.agent, req, env).1.Some? then t.requests[req.Key() := req] else t.requests
           case DelOp(n, ns) => t.requests - {NodeIpam.PodKey(n, ns)}
           case _ => t.requests)
  }

  ghost function RunT(t: Traced, ops: seq<Op>): Traced {
    if ops == [] then t else StepT(RunT(t, ops[..|ops| - 1]), ops[|ops| - 1])
  }

  lemma {:induction false} RunTAgent(t: Traced, ops: seq<Op>)
    ensures RunT(t, ops).agent == Run(t.agent, ops)
    decreases |ops|
  {
    if ops != [] {
      RunTAgent(t, ops[..|ops| - 1]);
    }
  }

  /** Each tracked pod's identity is live and carries the hash of the pod's request. */
  ghost predicate Bound(ids: Identities.Ids, tracked: map<string, Info>, requests: map<string, AddReq>) {
    && requests.Keys == tracked.Keys
    && (forall k | k in tracked ::
          && tracked[k].identity in ids.identities
          && ids.identities[tracked[k].identity].hash == requests[k].hash)
  }

  ghost predicate BoundT(t: Traced) {
    Bound(t.agent.ids, t.agent.tracked, t.requests)
  }

  lemma {:induction false} AcquireAllGrows(s: Identities.Ids, created: nat, sels: seq<Selector>)
    requires Identities.Inv(s, created) && created + AllCreations(s, sels) < TWO32
    ensures Identities.Grows(s, AcquireAll(s, sels))
    decreases |sels|
  {
    if sels != [] {
      var n := |sels| - 1;
      AcquireAllGrows(s, created, sels[..n]);
      AcquireAllInv(s, created, sels[..n]);
      Identities.AcquiredGrows(AcquireAll(s, sels[..n]), created + AllCreations(s, sels[..n]), sels[n].labels, sels[n].hash);
    }
  }

  /** What a step needs of its identities to keep the pods it does not touch bound. */
  lemma BoundKept(t: Traced, created: nat, after: Agent, requests: map<string, AddReq>)
    requires BoundT(t) && RefInv(after, created)
    requires Identities.Stable(t.agent.ids, after.ids)
    requires after.tracked.Keys == requests.Keys
    requires forall k | k in after.tracked ::
               k in t.agent.tracked && after.tracked[k] == t.agent.tracked[k] && requests[k] == t.requests[k]
    ensures BoundT(Traced(after, requests))
  {
    forall k | k in after.tracked
      ensures after.tracked[k].identity in after.ids.identities
    {
      CoveredLive(after, created, k);
    }
  }

  /** The identities after the two acquisition phases of an ADD. */
  lemma AddIdentities(ids: Identities.Ids, created: nat, req: AddReq, sels: seq<Selector>)
    requires Identities.Inv(ids, created)
    requires created + Identities.Creations(ids, req.hash)
             + AllCreations(Identities.Acquired(ids, req.labels, req.hash).0, sels) < TWO32
    ensures var (ids1, id) := Identities.Acquired(ids, req.labels, req.hash);
            var ids2 := AcquireAll(ids1, sels);
            && Identities.Grows(ids, ids2)
            && id in ids2.identities && ids2.identities[id].hash == req.hash
  {
    var (ids1, id) := Identities.Acquired(ids, req.labels, req.hash);
    Identities.AcquiredGrows(ids, created, req.labels, req.hash);
    Identities.AcquiredInv(ids, created, req.labels, req.hash);
    AcquireAllGrows(ids1, created + Identities.Creations(ids, req.hash), sels);
  }

  /** A pod newly tracked with a live identity that carries its hash. */
  lemma BoundPut(t: Traced, ids: Identities.Ids, info: Info, req: AddReq)
    requires BoundT(t) && Identities.Grows(t.agent.ids, ids)
    requires info.identity in ids.identities && ids.identities[info.identity].hash == req.hash
    ensures Bound(ids, t.agent.tracked[req.Key() := info], t.requests[req.Key() := req])
  {
  }

  /** A pod that is not tracked after all: its reference is dropped and the others stay bound. */
  lemma BoundFailed(t: Traced, created: nat, ids: Identities.Ids, id: uint32, after: Agent)
    requires BoundT(t) && RefInv(after, created)
    requires Identities.Grows(t.agent.ids, ids)
    requires after.ids == Identities.Dropped(ids, id) && after.tracked == t.agent.tracked
    ensures BoundT(Traced(after, t.requests))
  {
    Identities.DroppedStable(ids, id);
    StableTrans(t.agent.ids, ids, after.ids);
    BoundKept(t, created, after, t.requests);
  }

  lemma StableTrans(a: Identities.Ids, b: Identities.Ids, c: Identities.Ids)
    requires Identities.Grows(a, b) && Identities.Stable(b, c)
    ensures Identities.Stable(a, c)
  {
  }

  lemma AddBound(t: Traced, created: nat, req: AddReq, env: AddEnv)
    requires BoundT(t) && RefInv(t.agent, created)
    requires created + StepCreations(t.agent, AddOp(req, env)) < TWO32
    ensures BoundT(StepT(t, AddOp(req, env)))
  {
    RefInvIds(t.agent, created);
    var (ids1, id) := Identities.Acquired(t.agent.ids, req.labels, req.hash);
    var ids2 := AcquireAll(ids1, env.interleaved);
    AddIdentities(t.agent.ids, created, req, env.interleaved);
    var (after, ip) := Add(t.agent, req, env);
    if ip.None? {
      AddRefs(t.agent, created, req, env);
      BoundFailed(t, created + StepCreations(t.agent, AddOp(req, env)), ids2, id, after);
    } else {
      BoundPut(t, ids2, Info(ip.value, id, req.ifName, req.netns), req);
    }
  }

  lemma DelBound(t: Traced, created: nat, key: string)
    requires BoundT(t) && RefInv(t.agent, created)
    ensures BoundT(Traced(Del(t.agent, key), t.requests - {key}))
  {
    if key in t.agent.tracked {
      DelRefs(t.agent, created, key);
      Identities.DroppedStable(t.agent.ids, t.agent.tracked[key].identity);
      BoundKept(t, created, Del(t.agent, key), t.requests - {key});
    } else {
      assert t.requests - {key} == t.requests;
    }
  }

  lemma StepBound(t: Traced, created: nat, op: Op)
    requires BoundT(t) && RefInv(t.agent, created)
    requires created + StepCreations(t.agent, op) < TWO32
    ensures BoundT(StepT(t, op))
  {
    RefInvIds(t.agent, created);
    match op
    case AddOp(req, env) => AddBound(t, created, req, env);
    case DelOp(n, ns) => DelBound(t, created, NodeIpam.PodKey(n, ns));
    case ReconcileOp(order) =>
    case PolicyOp(sel) => Identities.AcquiredGrows(t.agent.ids, created, sel.labels, sel.hash);
  }

  lemma {:induction false} RunBound(t: Traced, ops: seq<Op>)
    requires BoundT(t) && RefInv(t.agent, 0) && RunCreations(t.agent, ops) < TWO32
    ensures BoundT(RunT(t, ops))
    decreases |ops|
  {
    if ops != [] {
      var n := |ops| - 1;
      RunBound(t, ops[..n]);
      RunTAgent(t, ops[..n]);
      RunRefs(t.agent, ops[..n]);
      StepBound(RunT(t, ops[..n]), RunCreations(t.agent, ops[..n]), ops[n]);
    }
  }

  ghost predicate SharesByHash(tracked: map<string, Info>, requests: map<string, AddReq>) {
    && requests.Keys == tracked.Keys
    && (forall k, l | k in tracked && l in tracked ::
          tracked[k].identity == tracked[l].identity <==> requests[k].hash == requests[l].hash)
  }

  lemma BoundShares(t: Traced, created: nat)
    requires BoundT(t) && Identities.Inv(t.agent.ids, created)
    ensures SharesByHash(t.agent.tracked, t.requests)
  {
    forall k, l | k in t.agent.tracked && l in t.agent.tracked
      ensures t.agent.tracked[k].identity == t.agent.tracked[l].identity <==> t.requests[k].hash == t.requests[l].hash
    {
      assert Identities.IdentityOk(t.agent.ids, created, t.agent.tracked[k].identity);
      assert Identities.IdentityOk(t.agent.ids, created, t.agent.tracked[l].identity);
    }
  }

  /** In every run, whatever fails, repeats or is allocated for policies in between, two tracked pods
      share an identity exactly when the label hashes of their ADDs are equal. */
  lemma SharingIsEqualHashes(pool: NodeIpam.Pool, ops: seq<Op>)
    requires RunCreations(StartFrom(pool), ops) < TWO32
    ensures var t := RunT(Traced(StartFrom(pool), map[]), ops);
            t.agent == Run(StartFrom(pool), ops) && SharesByHash(t.agent.tracked, t.requests)
  {
    var start := Traced(StartFrom(pool), map[]);
    assert forall id: uint32 :: UsersOf(start.agent.tracked, id) == {};
    RunBound(start, ops);
    RunTAgent(start, ops);
    assert RefInv(start.agent, 0);
    RunRefs(start.agent, ops);
    RefInvIds(Run(start.agent, ops), RunCreations(start.agent, ops));
    BoundShares(RunT(start, ops), RunCreations(start.agent, ops));
  }

  /** The request the CNI plugin sends for a CNI_ARGS string, with the labels HandleAdd builds from it. */
  ghost predicate Requests(req: AddReq, args: string) {
    && req.podName == ArgOr(Parsed(args), "K8S_POD_NAME")
    && req.podNamespace == ArgOr(Parsed(args), "K8S_POD_NAMESPACE")
    && req.labels == PodLabels(req.podName, req.podNamespace, Parsed(args))
    && req.hash == IdentityHash(req.labels)
  }

  ghost predicate FromPlugin(req: AddReq) {
    forall u :: Unfold(u) ==> exists args :: Requests(req, args)
  }

  lemma PluginHashes(a: AddReq, b: AddReq)
    requires FromPlugin(a) && FromPlugin(b)
    ensures a.hash == b.hash <==> a.labels == b.labels
  {
    assert Unfold(Unit);
    var x :| Requests(a, x);
    var y :| Requests(b, y);
    RequestLabelsReadable(x);
    RequestLabelsReadable(y);
    HashInjective(a.labels, b.labels);
  }

  ghost predicate AllFromPlugin(requests: map<string, AddReq>) {
    forall k | k in requests :: FromPlugin(requests[k])
  }

  lemma StepFromPlugin(t: Traced, op: Op)
    requires AllFromPlugin(t.requests) && (op.AddOp? ==> FromPlugin(op.req))
    ensures AllFromPlugin(StepT(t, op).requests)
  {
  }

  lemma {:induction false} RequestsFromAdds(t: Traced, ops: seq<Op>)
    requires AllFromPlugin(t.requests) && forall op | op in ops :: op.AddOp? ==> FromPlugin(op.req)
    ensures AllFromPlugin(RunT(t, ops).requests)
    decreases |ops|
  {
    if ops != [] {
      RequestsFromAdds(t, ops[..|ops| - 1]);
      StepFromPlugin(RunT(t, ops[..|ops| - 1]), ops[|ops| - 1]);
    }
  }

  ghost predicate SharesByLabels(tracked: map<string, Info>, requests: map<string, AddReq>) {
    && requests.Keys == tracked.Keys
    && (forall k, l | k in tracked && l in tracked ::
          tracked[k].identity == tracked[l].identity <==> requests[k].labels == requests[l].labels)
  }

  /** Hence, when ADDs come from the CNI plugin, two tracked pods share an identity exactly when their
      label maps are equal. Policy selectors may be anything, such as one whose label text is that of a
      pod with other labels. */
  lemma SharingIsEqualLabels(pool: NodeIpam.Pool, ops: seq<Op>)
    requires forall op | op in ops :: op.AddOp? ==> FromPlugin(op.req)
    requires RunCreations(StartFrom(pool), ops) < TWO32
    ensures var t := RunT(Traced(StartFrom(pool), map[]), ops);
            t.agent == Run(StartFrom(pool), ops) && SharesByLabels(t.agent.tracked, t.requests)
  {
    SharingIsEqualHashes(pool, ops);
    RequestsFromAdds(Traced(StartFrom(pool), map[]), ops);
    var t := RunT(Traced(StartFrom(pool), map[]), ops);
    forall k, l | k in t.agent.tracked && l in t.agent.tracked
      ensures t.agent.tracked[k].identity == t.agent.tracked[l].identity <==> t.requests[k].labels == t.requests[l].labels
    {
      PluginHashes(t.requests[k], t.requests[l]);
    }
  }

  /** A request from CNI_ARGS that name neither of the two labels HandleAdd adds. */
  ghost predicate PlainRequest(req: AddReq) {
    forall u :: Unfold(u) ==> exists args :: Requests(req, args) && Plain(Parsed(args))
  }

  predicate Plain(args: Labels) {
    "coordino.io/pod-name" !in args && "coordino.io/ns" !in args
  }

  lemma PlainFromPlugin(req: AddReq)
    requires PlainRequest(req)
    ensures FromPlugin(req)
  {
    assert Unfold(Unit);
  }

  lemma PlainLabels(a: AddReq, b: AddReq)
    requires PlainRequest(a) && PlainRequest(b) && a.labels == b.labels
    ensures a.podName == b.podName && a.podNamespace == b.podNamespace
  {
    assert Unfold(Unit);
    var x :| Requests(a, x) && Plain(Parsed(x));
    var y :| Requests(b, y) && Plain(Parsed(y));
    PodLabelsExact(a.podName, a.podNamespace, Parsed(x), "");
    PodLabelsExact(b.podName, b.podNamespace, Parsed(y), "");
  }

  /** Each pod's request is plain and is its own. */
  ghost predicate OwnRequests(requests: map<string, AddReq>) {
    forall k | k in requests :: OwnRequest(requests[k], k)
  }

  ghost predicate OwnRequest(req: AddReq, k: string) {
    PlainRequest(req) && req.Key() == k
  }

  /** A step keeps each pod's request, or puts that of its own ADD. */
  lemma StepRequests(t: Traced, op: Op)
    ensures forall k | k in StepT(t, op).requests ::
              || (k in t.requests && StepT(t, op).requests[k] == t.requests[k])
              || (op.AddOp? && k == op.req.Key() && StepT(t, op).requests[k] == op.req)
  {
  }

  lemma StepOwn(t: Traced, op: Op)
    requires OwnRequests(t.requests) && (op.AddOp? ==> PlainRequest(op.req))
    ensures OwnRequests(StepT(t, op).requests)
  {
    StepRequests(t, op);
    var after := StepT(t, op).requests;
    forall k | k in after
      ensures OwnRequest(after[k], k)
    {
      assert k in t.requests ==> OwnRequest(t.requests[k], k);
    }
  }

  lemma {:induction false} RunOwn(t: Traced, ops: seq<Op>)
    requires OwnRequests(t.requests) && forall op | op in ops :: op.AddOp? ==> PlainRequest(op.req)
    ensures OwnRequests(RunT(t, ops).requests)
    decreases |ops|
  {
    if ops != [] {
      RunOwn(t, ops[..|ops| - 1]);
      StepOwn(RunT(t, ops[..|ops| - 1]), ops[|ops| - 1]);
    }
  }

  ghost predicate IdentitiesDiffer(tracked: map<string, Info>, requests: map<string, AddReq>) {
    && requests.Keys == tracked.Keys
    && (forall k, l | k in tracked && l in tracked && k != l :: tracked[k].identity != tracked[l].identity)
    && (forall k, l | k in tracked && l in tracked
                      && (requests[k].podName, requests[k].podNamespace) != (requests[l].podName, requests[l].podNamespace) ::
          tracked[k].identity != tracked[l].identity)
  }

  /** In every run whose ADDs come from the plugin with such arguments, no two tracked pods, and in particular
      no two of different name or namespace, share an identity. */
  lemma PodsNeverShare(pool: NodeIpam.Pool, ops: seq<Op>)
    requires forall op | op in ops :: op.AddOp? ==> PlainRequest(op.req)
    requires RunCreations(StartFrom(pool), ops) < TWO32
    ensures var t := RunT(Traced(StartFrom(pool), map[]), ops);
            IdentitiesDiffer(t.agent.tracked, t.requests)
  {
    forall op | op in ops && op.AddOp?
      ensures FromPlugin(op.req)
    {
      PlainFromPlugin(op.req);
    }
    SharingIsEqualLabels(pool, ops);
    RunOwn(Traced(StartFrom(pool), map[]), ops);
    var t := RunT(Traced(StartFrom(pool), map[]), ops);
    forall k, l | k in t.agent.tracked && l in t.agent.tracked
      ensures t.agent.tracked[k].identity == t.agent.tracked[l].identity ==>
                k == l && (t.requests[k].podName, t.requests[k].podNamespace) == (t.requests[l].podName, t.requests[l].podNamespace)
    {
      if t.agent.tracked[k].identity == t.agent.tracked[l].identity {
        assert OwnRequest(t.requests[k], k) && OwnRequest(t.requests[l], l);
        PlainLabels(t.requests[k], t.requests[l]);
      }
    }
  }

  // ================================================================ undoing

  /** How often some selectors acquire the identity of a hash. */
  function Acquisitions(sels: seq<Selector>, hash: Digest): nat {
    if sels == [] then 0
    else Acquisitions(sels[..|sels| - 1], hash) + if sels[|sels| - 1].hash == hash then 1 else 0
  }

  lemma {:induction false} AcquireAllHashRefs(s: Identities.Ids, created: nat, sels: seq<Selector>)
    requires Identities.Inv(s, created) && created + AllCreations(s, sels) < TWO32
    ensures forall g :: Identities.HashRefs(AcquireAll(s, sels), g) == Identities.HashRefs(s, g) + Acquisitions(sels, g)
    decreases |sels|
  {
    if sels != [] {
      var n := |sels| - 1;
      AcquireAllHashRefs(s, created, sels[..n]);
      AcquireAllInv(s, created, sels[..n]);
      Identities.AcquiredHashRefs(AcquireAll(s, sels[..n]), created + AllCreations(s, sels[..n]), sels[n].labels, sels[n].hash);
    }
  }

  /** Every hash has its old references and those of the selectors, and no others. */
  ghost predicate OnlyAcquired(before: Identities.Ids, after: Identities.Ids, sels: seq<Selector>) {
    forall g :: Identities.HashRefs(after, g) == Identities.HashRefs(before, g) + Acquisitions(sels, g)
  }

  /** An identity live before is live under the same number. */
  ghost predicate NumbersKept(before: Identities.Ids, after: Identities.Ids) {
    forall g | g in before.byHash :: g in after.byHash && after.byHash[g] == before.byHash[g]
  }

  lemma DroppedAgain(ids: Identities.Ids, created: nat, req: AddReq, sels: seq<Selector>)
    requires Identities.Inv(ids, created)
    requires created + Identities.Creations(ids, req.hash)
             + AllCreations(Identities.Acquired(ids, req.labels, req.hash).0, sels) < TWO32
    ensures var (ids1, id) := Identities.Acquired(ids, req.labels, req.hash);
            OnlyAcquired(ids, Identities.Dropped(AcquireAll(ids1, sels), id), sels)
  {
    var (ids1, id) := Identities.Acquired(ids, req.labels, req.hash);
    var n := created + Identities.Creations(ids, req.hash);
    Identities.AcquiredInv(ids, created, req.labels, req.hash);
    Identities.AcquiredHashRefs(ids, created, req.labels, req.hash);
    AcquireAllHashRefs(ids1, n, sels);
    AcquireAllInv(ids1, n, sels);
    AddIdentities(ids, created, req, sels);
    Identities.DroppedHashRefs(AcquireAll(ids1, sels), n + AllCreations(ids1, sels), id);
  }

  lemma NumbersAgain(ids: Identities.Ids, created: nat, later: Identities.Ids, n: nat, id: uint32, sels: seq<Selector>)
    requires Identities.Inv(ids, created) && Identities.Inv(later, n) && Identities.Grows(ids, later)
    requires OnlyAcquired(ids, Identities.Dropped(later, id), sels)
    ensures NumbersKept(ids, Identities.Dropped(later, id))
  {
    var after := Identities.Dropped(later, id);
    Identities.DroppedInv(later, n, id);
    forall g | g in ids.byHash
      ensures g in after.byHash && after.byHash[g] == ids.byHash[g]
    {
      Identities.LiveIsReferenced(ids, created, g);
      assert Identities.HashRefs(after, g) == Identities.HashRefs(ids, g) + Acquisitions(sels, g);
      Identities.LiveIsReferenced(after, n, g);
      assert ids.byHash[g] in later.identities;
      assert Identities.IdentityOk(later, n, ids.byHash[g]);
    }
  }

  /** Identities after an ADD whose reference is gone again: exactly those of before and of the selectors
      allocated meanwhile; without such selectors only the counter may have moved. */
  ghost predicate IdsUndone(before: Identities.Ids, after: Identities.Ids, req: AddReq, sels: seq<Selector>) {
    && OnlyAcquired(before, after, sels)
    && NumbersKept(before, after)
    && (sels == [] ==>
          && after.identities == before.identities && after.byHash == before.byHash
          && after.nextID == if req.hash in before.byHash then before.nextID else Identities.Next(before.nextID))
  }

  lemma AddDropUndone(ids: Identities.Ids, created: nat, req: AddReq, sels: seq<Selector>)
    requires Identities.Inv(ids, created)
    requires created + Identities.Creations(ids, req.hash)
             + AllCreations(Identities.Acquired(ids, req.labels, req.hash).0, sels) < TWO32
    ensures var (ids1, id) := Identities.Acquired(ids, req.labels, req.hash);
            IdsUndone(ids, Identities.Dropped(AcquireAll(ids1, sels), id), req, sels)
  {
    var (ids1, id) := Identities.Acquired(ids, req.labels, req.hash);
    DroppedAgain(ids, created, req, sels);
    AddIdsInv(ids, created, req, sels);
    AddIdentities(ids, created, req, sels);
    NumbersAgain(ids, created, AcquireAll(ids1, sels), created + Identities.Creations(ids, req.hash) + AllCreations(ids1, sels),
                 id, sels);
    Identities.AcquireDropInverse(ids, created, req.labels, req.hash);
  }

  /** An ADD that fails for a pod neither tracked nor allocated leaves no trace but the identity counter,
      and what policy compilations allocated while it ran. */
  lemma FailedAddUndone(s: Agent, created: nat, req: AddReq, env: AddEnv)
    requires NodeIpam.Valid(s.pool) && Identities.Inv(s.ids, created)
    requires created + StepCreations(s, AddOp(req, env)) < TWO32
    requires req.Key() !in s.pool.records && Add(s, req, env).1.None?
    ensures var t := Add(s, req, env).0;
            && t.pool == s.pool && t.tracked == s.tracked && t.dp == s.dp
            && IdsUndone(s.ids, t.ids, req, env.interleaved)
  {
    AddDropUndone(s.ids, created, req, env.interleaved);
    NodeIpam.AllocateReleaseInverse(s.pool, req.podName, req.podNamespace);
  }

  /** So does an ADD followed by the DEL of the same pod, down to the bytes of the pinned maps. */
  lemma AddThenDelUndone(s: Agent, created: nat, req: AddReq, env: AddEnv)
    requires TableInv(s) && Identities.Inv(s.ids, created)
    requires created + StepCreations(s, AddOp(req, env)) < TWO32
    requires req.Key() !in s.pool.records && Add(s, req, env).1.Some?
    ensures var t := Del(Add(s, req, env).0, req.Key());
            && t.pool == s.pool && t.tracked == s.tracked && t.dp == s.dp
            && IdsUndone(s.ids, t.ids, req, env.interleaved)
  {
    AddDropUndone(s.ids, created, req, env.interleaved);
    NodeIpam.AllocateReleaseInverse(s.pool, req.podName, req.podNamespace);
    FreshAddressUnprogrammed(s, req.podName, req.podNamespace);
    AddParts(s, req, env);
    var (mid, ip) := Add(s, req, env);
    var info := mid.tracked[req.Key()];
    DataPlane.AddRemoveInverse(s.dp, ip.value, info.identity, env.ifIndex);
    assert req.Key() !in s.tracked;
    assert s.tracked[req.Key() := info] - {req.Key()} == s.tracked;
  }
}
