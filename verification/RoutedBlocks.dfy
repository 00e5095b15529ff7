/** The block controller (pkg/ipam/controller.go) and a routing backend together: requests that name nodes
    with their current primary blocks. */
module RoutedBlocks {
  import opened Base
  import opened Routing
  import BlockIpam

  /** The controller, the node each issued block went to, and the nodes and routes of a backend. */
  datatype Joint = Joint(t: BlockIpam.Traced, owner: map<Prefix, string>, table: Table)

  datatype JointOp = Control(op: BlockIpam.Op) | Route(request: Routing.Op)

  function JointStep(j: Joint, local: string, ifc: string, op: JointOp): (j': Joint)
    requires BlockIpam.WellFormed(j.t.ctrl)
    ensures BlockIpam.WellFormed(j'.t.ctrl)
  {
    match op
    case Control(o) =>
      var t := BlockIpam.Step(j.t, o);
      Joint(t, if |t.issued| > |j.t.issued| then j.owner[t.issued[|t.issued| - 1] := o.node] else j.owner, j.table)
    case Route(o) => j.(table := Routing.Step(j.table, local, ifc, o))
  }

  function JointRun(j: Joint, local: string, ifc: string, ops: seq<JointOp>): (j': Joint)
    requires BlockIpam.WellFormed(j.t.ctrl)
    ensures BlockIpam.WellFormed(j'.t.ctrl)
    decreases |ops|
  {
    if ops == [] then j else JointStep(JointRun(j, local, ifc, ops[..|ops| - 1]), local, ifc, ops[|ops| - 1])
  }

  function Start(cluster: Cidr, blockSize: nat): Joint {
    Joint(BlockIpam.Start(cluster, blockSize), map[], Empty())
  }

  // ---------------------------------------------------------------- requests

  /** The node is named with its first block. */
  predicate HasPrimary(c: BlockIpam.Ctrl, n: NodeInfo) {
    BlockIpam.BlocksOf(c, n.name) != [] && n.podCIDR == BlockIpam.BlocksOf(c, n.name)[0]
  }

  predicate Faithful(c: BlockIpam.Ctrl, local: string, op: Routing.Op) {
    match op
    case AddNode(n) => HasPrimary(c, n)
    case RemoveNode(x) => true
    case UpdateNode(n) => HasPrimary(c, n)
    case SyncRoutes(list, order) => ProperOrder(local, op) && forall n | n in list :: HasPrimary(c, n)
  }

  /** No node that an addition or a synchronisation finds installed has another block by now. */
  predicate Steady(nodes: Nodes, local: string, op: Routing.Op) {
    match op
    case AddNode(n) => SameCIDR(nodes, n)
    case RemoveNode(x) => true
    case UpdateNode(n) => true
    case SyncRoutes(list, order) => forall x | x in Desired(local, list) :: SameCIDR(nodes, Desired(local, list)[x])
  }

  // ---------------------------------------------------------------- blocks have one owner for ever

  predicate OwnedBy(owner: map<Prefix, string>, b: Prefix, x: string) {
    b in owner && owner[b] == x
  }

  ghost predicate IssuedOwned(j: Joint) {
    j.owner.Keys == Elements(j.t.issued)
  }

  ghost predicate AssignedOwned(j: Joint) {
    forall n, a | BlockIpam.Assignment(j.t.ctrl, n, a) :: OwnedBy(j.owner, j.t.ctrl.assignments[n][a], n)
  }

  ghost predicate RoutedOwned(j: Joint) {
    forall x | x in j.table.nodes :: OwnedBy(j.owner, j.table.nodes[x].podCIDR, x)
  }

  ghost predicate JointInv(j: Joint, ifc: string) {
    && BlockIpam.Inv(j.t) && Mirror(j.table, ifc)
    && IssuedOwned(j) && AssignedOwned(j) && RoutedOwned(j)
  }

  lemma NextUnowned(j: Joint)
    requires BlockIpam.Inv(j.t) && IssuedOwned(j) && j.t.ctrl.next < BlockIpam.TotalBlocks(j.t.ctrl)
    ensures BlockIpam.BlockAt(j.t.ctrl.cluster, j.t.ctrl.blockSize, j.t.ctrl.next) !in j.owner
  {
    var c := j.t.ctrl;
    forall i | 0 <= i < |j.t.issued|
      ensures j.t.issued[i] != BlockIpam.BlockAt(c.cluster, c.blockSize, c.next)
    {
      BlockIpam.BlocksDisjoint(c.cluster, c.blockSize, i, c.next);
    }
  }

  /** A new block gets its owner; the others keep theirs. */
  lemma AssignedNextOwned(j: Joint, node: string)
    requires BlockIpam.Inv(j.t) && IssuedOwned(j) && AssignedOwned(j)
    requires j.t.ctrl.next < BlockIpam.TotalBlocks(j.t.ctrl)
    ensures var b := BlockIpam.BlockAt(j.t.ctrl.cluster, j.t.ctrl.blockSize, j.t.ctrl.next);
            && b !in j.owner
            && AssignedOwned(Joint(BlockIpam.Log(j.t, BlockIpam.AssignedNext(j.t.ctrl, node).0), j.owner[b := node], j.table))
  {
    NextUnowned(j);
    var c := j.t.ctrl;
    var b := BlockIpam.BlockAt(c.cluster, c.blockSize, c.next);
    var d := BlockIpam.AssignedNext(c, node).0;
    forall n, a | BlockIpam.Assignment(d, n, a)
      ensures OwnedBy(j.owner[b := node], d.assignments[n][a], n)
    {
      if n != node || a != |BlockIpam.BlocksOf(c, node)| {
        assert BlockIpam.Assignment(c, n, a);
      }
    }
  }

  ghost predicate Controlled(j: Joint) {
    BlockIpam.Inv(j.t) && IssuedOwned(j) && AssignedOwned(j)
  }

  lemma NextControlled(j: Joint, local: string, ifc: string, op: BlockIpam.Op)
    requires Controlled(j) && BlockIpam.Step(j.t, op) == BlockIpam.Log(j.t, BlockIpam.AssignedNext(j.t.ctrl, op.node).0)
    ensures var k := JointStep(j, local, ifc, Control(op));
            Controlled(k) && forall b | b in j.owner :: b in k.owner && k.owner[b] == j.owner[b]
  {
    BlockIpam.StepInv(j.t, op);
    if j.t.ctrl.next < BlockIpam.TotalBlocks(j.t.ctrl) {
      AssignedNextOwned(j, op.node);
      ElementsSnoc(j.t.issued, BlockIpam.BlockAt(j.t.ctrl.cluster, j.t.ctrl.blockSize, j.t.ctrl.next));
    }
  }

  lemma ControlStep(j: Joint, local: string, ifc: string, op: BlockIpam.Op)
    requires Controlled(j)
    ensures var k := JointStep(j, local, ifc, Control(op));
            Controlled(k) && forall b | b in j.owner :: b in k.owner && k.owner[b] == j.owner[b]
  {
    match op
    case Assign(n) =>
      if BlockIpam.BlocksOf(j.t.ctrl, n) == [] {
        NextControlled(j, local, ifc, op);
      }
    case AssignSecondary(n) => NextControlled(j, local, ifc, op);
    case ReleaseAll(n) =>
      BlockIpam.StepInv(j.t, op);
      var c := BlockIpam.Unassigned(j.t.ctrl, n);
      assert forall m, a :: BlockIpam.Assignment(c, m, a) ==> BlockIpam.Assignment(j.t.ctrl, m, a);
  }

  // ---------------------------------------------------------------- when a request is safe

  lemma PrimaryOwned(j: Joint, n: NodeInfo)
    requires AssignedOwned(j) && HasPrimary(j.t.ctrl, n)
    ensures OwnedBy(j.owner, n.podCIDR, n.name)
  {
    assert BlockIpam.Assignment(j.t.ctrl, n.name, 0);
  }

  lemma {:induction false} DesiredListed(local: string, list: seq<NodeInfo>)
    ensures forall x | x in Desired(local, list) :: Desired(local, list)[x] in list && Desired(local, list)[x].name == x
    decreases |list|
  {
    if list != [] {
      DesiredListed(local, list[..|list| - 1]);
    }
  }

  lemma DesiredOwned(j: Joint, local: string, list: seq<NodeInfo>)
    requires AssignedOwned(j) && forall n | n in list :: HasPrimary(j.t.ctrl, n)
    ensures forall x | x in Desired(local, list) ::
              Desired(local, list)[x].name == x && OwnedBy(j.owner, Desired(local, list)[x].podCIDR, x)
  {
    DesiredListed(local, list);
    forall x | x in Desired(local, list)
      ensures OwnedBy(j.owner, Desired(local, list)[x].podCIDR, x)
    {
      PrimaryOwned(j, Desired(local, list)[x]);
    }
  }

  lemma SyncSafe(j: Joint, desired: Nodes)
    requires RoutedOwned(j)
    requires forall x | x in desired :: desired[x].name == x && OwnedBy(j.owner, desired[x].podCIDR, x)
    ensures DistinctCIDRs(desired)
    ensures OldStillWanted(j.table.nodes, desired) <==> forall x | x in desired :: SameCIDR(j.table.nodes, desired[x])
  {
    var nodes := j.table.nodes;
    if forall x | x in desired :: SameCIDR(nodes, desired[x]) {
      forall x | x in nodes && x in desired
        ensures Destination(desired, nodes[x].podCIDR)
      {
        assert SameCIDR(nodes, desired[x]);
      }
    }
    if OldStillWanted(nodes, desired) {
      forall x | x in desired
        ensures SameCIDR(nodes, desired[x])
      {
        if x in nodes {
          assert Destination(desired, nodes[x].podCIDR);
          var y :| y in desired && desired[y].podCIDR == nodes[x].podCIDR;
          assert OwnedBy(j.owner, nodes[x].podCIDR, x) && OwnedBy(j.owner, desired[y].podCIDR, y);
        }
      }
    }
  }

  /** For requests with current primary blocks only a changed block can make a step unsafe. */
  lemma SafeIsSteady(j: Joint, local: string, op: Routing.Op)
    requires AssignedOwned(j) && RoutedOwned(j) && Faithful(j.t.ctrl, local, op)
    ensures Safe(j.table.nodes, local, op) <==> Steady(j.table.nodes, local, op)
  {
    match op
    case AddNode(n) => PrimaryOwned(j, n);
    case RemoveNode(x) =>
    case UpdateNode(n) => PrimaryOwned(j, n);
    case SyncRoutes(list, order) =>
      DesiredOwned(j, local, list);
      SyncSafe(j, Desired(local, list));
  }

  /** What a request leaves installed is named with blocks of its own. */
  lemma NodesOwned(j: Joint, local: string, op: Routing.Op)
    requires AssignedOwned(j) && RoutedOwned(j) && Faithful(j.t.ctrl, local, op)
    ensures var nodes := NodeStep(j.table.nodes, local, op);
            forall x | x in nodes :: OwnedBy(j.owner, nodes[x].podCIDR, x)
  {
    match op
    case AddNode(n) => PrimaryOwned(j, n);
    case RemoveNode(x) =>
    case UpdateNode(n) => PrimaryOwned(j, n);
    case SyncRoutes(list, order) => DesiredOwned(j, local, list);
  }

  lemma RouteStepExact(j: Joint, local: string, ifc: string, op: Routing.Op)
    requires JointInv(j, ifc) && Faithful(j.t.ctrl, local, op)
    ensures Mirror(JointStep(j, local, ifc, Route(op)).table, ifc) <==> Steady(j.table.nodes, local, op)
    ensures Steady(j.table.nodes, local, op) ==> JointInv(JointStep(j, local, ifc, Route(op)), ifc)
  {
    StepExact(j.table, local, ifc, op);
    SafeIsSteady(j, local, op);
    NodesOwned(j, local, op);
  }

  /** Every routing request of the run named current primary blocks and was steady. */
  ghost predicate GoodRun(j: Joint, local: string, ifc: string, ops: seq<JointOp>)
    requires BlockIpam.WellFormed(j.t.ctrl)
    decreases |ops|
  {
    ops == [] ||
    (var before, op := JointRun(j, local, ifc, ops[..|ops| - 1]), ops[|ops| - 1];
     && GoodRun(j, local, ifc, ops[..|ops| - 1])
     && (op.Route? ==> Faithful(before.t.ctrl, local, op.request) && Steady(before.table.nodes, local, op.request)))
  }

  lemma {:induction false} JointRunInv(cluster: Cidr, blockSize: nat, local: string, ifc: string, ops: seq<JointOp>)
    requires cluster.ones <= blockSize <= 32 && GoodRun(Start(cluster, blockSize), local, ifc, ops)
    ensures JointInv(JointRun(Start(cluster, blockSize), local, ifc, ops), ifc)
    decreases |ops|
  {
    if ops != [] {
      var before, op := JointRun(Start(cluster, blockSize), local, ifc, ops[..|ops| - 1]), ops[|ops| - 1];
      JointRunInv(cluster, blockSize, local, ifc, ops[..|ops| - 1]);
      match op {
        case Control(o) => ControlStep(before, local, ifc, o);
        case Route(o) => RouteStepExact(before, local, ifc, o);
      }
    }
  }

  /** Over every joint run of assignments, releases and routing requests that name current primary blocks:
      the installed CIDRs are distinct and the routes mirror them, and a further such request keeps it so if
      and only if no node it finds installed has been given another block meanwhile. */
  lemma PrimaryBlocksExact(cluster: Cidr, blockSize: nat, local: string, ifc: string, ops: seq<JointOp>, next: Routing.Op)
    requires cluster.ones <= blockSize <= 32 && GoodRun(Start(cluster, blockSize), local, ifc, ops)
    requires Faithful(JointRun(Start(cluster, blockSize), local, ifc, ops).t.ctrl, local, next)
    ensures var j := JointRun(Start(cluster, blockSize), local, ifc, ops);
            && Mirror(j.table, ifc)
            && (Mirror(Routing.Step(j.table, local, ifc, next), ifc) <==> Steady(j.table.nodes, local, next))
  {
    JointRunInv(cluster, blockSize, local, ifc, ops);
    RouteStepExact(JointRun(Start(cluster, blockSize), local, ifc, ops), local, ifc, next);
  }

  // ---------------------------------------------------------------- the failing case

  /** A node is assigned a block and installed, and then released and assigned again. */
  function Reassigned(first: NodeInfo): seq<JointOp> {
    [Control(BlockIpam.Assign(first.name)), Route(AddNode(first)),
     Control(BlockIpam.ReleaseAll(first.name)), Control(BlockIpam.Assign(first.name))]
  }

  lemma RunSnoc(j: Joint, local: string, ifc: string, ops: seq<JointOp>, op: JointOp)
    requires BlockIpam.WellFormed(j.t.ctrl)
    ensures var before := JointRun(j, local, ifc, ops);
            && JointRun(j, local, ifc, ops + [op]) == JointStep(before, local, ifc, op)
            && (GoodRun(j, local, ifc, ops + [op]) <==>
                && GoodRun(j, local, ifc, ops)
                && (op.Route? ==> Faithful(before.t.ctrl, local, op.request) && Steady(before.table.nodes, local, op.request)))
  {
    assert (ops + [op])[..|ops|] == ops;
  }

  /** Its first block, and after release the second. */
  lemma AssignTwice(c: BlockIpam.Ctrl, x: string)
    requires BlockIpam.WellFormed(c) && c.assignments == map[] && c.next == 0 && BlockIpam.TotalBlocks(c) >= 2
    ensures var d := BlockIpam.Assigned(c, x).0;
            && BlockIpam.BlocksOf(d, x) == [BlockIpam.BlockAt(c.cluster, c.blockSize, 0)]
            && BlockIpam.BlocksOf(BlockIpam.Assigned(BlockIpam.Unassigned(d, x), x).0, x) ==
               [BlockIpam.BlockAt(c.cluster, c.blockSize, 1)]
  {
  }

  lemma ReassignedState(cluster: Cidr, blockSize: nat, local: string, ifc: string, first: NodeInfo)
    requires cluster.ones < blockSize <= 32 && first.podCIDR == BlockIpam.BlockAt(cluster, blockSize, 0)
    ensures var j := JointRun(Start(cluster, blockSize), local, ifc, Reassigned(first));
            && GoodRun(Start(cluster, blockSize), local, ifc, Reassigned(first))
            && j.table.nodes == map[first.name := first]
            && BlockIpam.BlocksOf(j.t.ctrl, first.name) == [BlockIpam.BlockAt(cluster, blockSize, 1)]
  {
    var x, start := first.name, Start(cluster, blockSize);
    AssignTwice(start.t.ctrl, x);
    var a, b, c, d := Control(BlockIpam.Assign(x)), Route(AddNode(first)), Control(BlockIpam.ReleaseAll(x)), Control(BlockIpam.Assign(x));
    assert [] + [a] == [a] && [a] + [b] == [a, b] && [a, b] + [c] == [a, b, c] && [a, b, c] + [d] == Reassigned(first);
    RunSnoc(start, local, ifc, [], a);
    RunSnoc(start, local, ifc, [a], b);
    RunSnoc(start, local, ifc, [a, b], c);
    RunSnoc(start, local, ifc, [a, b, c], d);
  }

  /** Synchronising with the new block then leaves the route of the old one behind. */
  lemma ReassignLeavesStale(cluster: Cidr, blockSize: nat, local: string, ifc: string, first: NodeInfo, second: NodeInfo)
    requires cluster.ones < blockSize <= 32 && first.name == second.name != local
    requires first.podCIDR == BlockIpam.BlockAt(cluster, blockSize, 0)
    requires second.podCIDR == BlockIpam.BlockAt(cluster, blockSize, 1)
    ensures var j := JointRun(Start(cluster, blockSize), local, ifc, Reassigned(first));
            var sync := SyncRoutes([second], [second.name]);
            && GoodRun(Start(cluster, blockSize), local, ifc, Reassigned(first))
            && Faithful(j.t.ctrl, local, sync)
            && !Mirror(Routing.Step(j.table, local, ifc, sync), ifc)
  {
    ReassignedState(cluster, blockSize, local, ifc, first);
    var j := JointRun(Start(cluster, blockSize), local, ifc, Reassigned(first));
    var sync := SyncRoutes([second], [second.name]);
    DesiredOne(local, second);
    assert BlockIpam.TotalBlocks(Start(cluster, blockSize).t.ctrl) >= 2;
    BlockIpam.BlocksDisjoint(cluster, blockSize, 0, 1);
    assert !SameCIDR(j.table.nodes, Desired(local, [second])[second.name]);
    PrimaryBlocksExact(cluster, blockSize, local, ifc, Reassigned(first), sync);
  }

  lemma DesiredOne(local: string, n: NodeInfo)
    requires n.name != local
    ensures Desired(local, [n]) == map[n.name := n]
  {
    assert [n][..0] == [];
    assert Desired(local, []) == map[];
  }
}
