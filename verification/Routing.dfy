/** The routing backends (pkg/routing/bgp.go, pkg/routing/vxlan.go): both refine one table of nodes. */
module Routing {
  import opened Base

  datatype NodeInfo = NodeInfo(name: string, podCIDR: Prefix, nodeIP: uint32, publicIP: string)

  /** A route; BGP leaves the interface empty. */
  datatype PodRoute = PodRoute(destCIDR: Prefix, nextHop: uint32, nodeName: string, interfaceName: string)

  type Nodes = map<string, NodeInfo>
  type Routes = map<Prefix, PodRoute>

  function RouteOf(n: NodeInfo, interfaceName: string): PodRoute {
    PodRoute(n.podCIDR, n.nodeIP, n.name, interfaceName)
  }

  /** The part of a backend both have: its nodes and its routes by destination. */
  datatype Table = Table(nodes: Nodes, routes: Routes)

  function Empty(): Table {
    Table(map[], map[])
  }

  function Put(t: Table, n: NodeInfo, ifc: string): Table {
    Table(t.nodes[n.name := n], t.routes[n.podCIDR := RouteOf(n, ifc)])
  }

  function Removed(t: Table, name: string): Table {
    if name !in t.nodes then t
    else Table(t.nodes - {name}, t.routes - {t.nodes[name].podCIDR})
  }

  function Updated(t: Table, n: NodeInfo, ifc: string): Table {
    Put(Table(t.nodes, if n.name in t.nodes then t.routes - {t.nodes[n.name].podCIDR} else t.routes), n, ifc)
  }

  /** The nodes SyncRoutes wants: every listed node but the local one, the last of a name winning. */
  function Desired(local: string, list: seq<NodeInfo>): Nodes {
    if list == [] then map[]
    else
      var n := list[|list| - 1];
      var before := Desired(local, list[..|list| - 1]);
      if n.name == local then before else before[n.name := n]
  }

  function Dropped(t: Table, names: set<string>): Table {
    Table(t.nodes - names, t.routes - set x | x in names && x in t.nodes :: t.nodes[x].podCIDR)
  }

  /** What SyncRoutes leaves when the desired nodes are added in the order `order` of their names. */
  function Added(t: Table, desired: Nodes, order: seq<string>, ifc: string): Table {
    if order == [] then t
    else
      var before := Added(t, desired, order[..|order| - 1], ifc);
      var x := order[|order| - 1];
      if x in desired then Put(before, desired[x], ifc) else before
  }

  function Synced(t: Table, desired: Nodes, order: seq<string>, ifc: string): Table {
    Added(Dropped(t, t.nodes.Keys - desired.Keys), desired, order, ifc)
  }

  // ---------------------------------------------------------------- the abstract table

  predicate Named(nodes: Nodes) {
    forall x | x in nodes :: nodes[x].name == x
  }

  ghost predicate DistinctCIDRs(nodes: Nodes) {
    forall x, y | x in nodes && y in nodes && nodes[x].podCIDR == nodes[y].podCIDR :: x == y
  }

  ghost predicate Destination(nodes: Nodes, c: Prefix) {
    exists x :: x in nodes && nodes[x].podCIDR == c
  }

  predicate HasRoute(t: Table, n: NodeInfo, ifc: string) {
    n.podCIDR in t.routes && t.routes[n.podCIDR] == RouteOf(n, ifc)
  }

  ghost predicate AllRouted(t: Table, ifc: string) {
    forall x | x in t.nodes :: HasRoute(t, t.nodes[x], ifc)
  }

  ghost predicate NoStale(t: Table) {
    forall c | c in t.routes :: Destination(t.nodes, c)
  }

  /** There is a route for each node's CIDR, and no other. */
  ghost predicate Mirror(t: Table, ifc: string) {
    Named(t.nodes) && DistinctCIDRs(t.nodes) && AllRouted(t, ifc) && NoStale(t)
  }

  /** No other node has this CIDR. */
  ghost predicate Free(nodes: Nodes, n: NodeInfo) {
    forall x | x in nodes && x != n.name :: nodes[x].podCIDR != n.podCIDR
  }

  predicate SameCIDR(nodes: Nodes, n: NodeInfo) {
    n.name in nodes ==> nodes[n.name].podCIDR == n.podCIDR
  }

  lemma PutRoutes(t: Table, n: NodeInfo, ifc: string)
    requires AllRouted(t, ifc) && DistinctCIDRs(t.nodes) && Free(t.nodes, n)
    ensures AllRouted(Put(t, n, ifc), ifc) && DistinctCIDRs(Put(t, n, ifc).nodes)
  {
    var u := Put(t, n, ifc);
    forall x | x in u.nodes
      ensures HasRoute(u, u.nodes[x], ifc)
    {
      assert x != n.name ==> HasRoute(t, t.nodes[x], ifc);
    }
  }

  lemma PutNoStale(t: Table, n: NodeInfo, ifc: string)
    requires NoStale(t) && SameCIDR(t.nodes, n)
    ensures NoStale(Put(t, n, ifc))
  {
    var u := Put(t, n, ifc);
    forall c | c in u.routes
      ensures Destination(u.nodes, c)
    {
      if c == n.podCIDR {
        assert n.name in u.nodes && u.nodes[n.name].podCIDR == c;
      } else {
        assert Destination(t.nodes, c);
        var x :| x in t.nodes && t.nodes[x].podCIDR == c;
        assert x in u.nodes && u.nodes[x].podCIDR == c;
      }
    }
  }

  lemma PutNeeds(t: Table, n: NodeInfo, ifc: string)
    requires AllRouted(t, ifc) && DistinctCIDRs(t.nodes)
    requires DistinctCIDRs(Put(t, n, ifc).nodes) && NoStale(Put(t, n, ifc))
    ensures Free(t.nodes, n) && SameCIDR(t.nodes, n)
  {
    var u := Put(t, n, ifc);
    assert n.name in u.nodes && u.nodes[n.name] == n;
    forall x | x in t.nodes && x != n.name
      ensures t.nodes[x].podCIDR != n.podCIDR
    {
      assert x in u.nodes && u.nodes[x] == t.nodes[x];
    }
    if n.name in t.nodes {
      var c := t.nodes[n.name].podCIDR;
      assert HasRoute(t, t.nodes[n.name], ifc);
      assert c in u.routes && Destination(u.nodes, c);
      var x :| x in u.nodes && u.nodes[x].podCIDR == c;
      assert x != n.name ==> x in t.nodes;
    }
  }

  /** Adding keeps routes and nodes in step exactly when the CIDR is free and a known node keeps its own. */
  lemma AddExact(t: Table, n: NodeInfo, ifc: string)
    requires Mirror(t, ifc)
    ensures Mirror(Put(t, n, ifc), ifc) <==> Free(t.nodes, n) && SameCIDR(t.nodes, n)
  {
    if Free(t.nodes, n) && SameCIDR(t.nodes, n) {
      PutRoutes(t, n, ifc);
      PutNoStale(t, n, ifc);
    }
    if Mirror(Put(t, n, ifc), ifc) {
      PutNeeds(t, n, ifc);
    }
  }

  lemma RemoveKeeps(t: Table, name: string, ifc: string)
    requires Mirror(t, ifc)
    ensures Mirror(Removed(t, name), ifc)
  {
    var u := Removed(t, name);
    forall x | x in u.nodes
      ensures HasRoute(u, u.nodes[x], ifc)
    {
      assert HasRoute(t, t.nodes[x], ifc);
    }
    forall c | c in u.routes
      ensures Destination(u.nodes, c)
    {
      assert Destination(t.nodes, c);
      var x :| x in t.nodes && t.nodes[x].podCIDR == c;
      assert x in u.nodes && u.nodes[x].podCIDR == c;
    }
  }

  /** Updating may change the node's CIDR, and needs only that no other node has the new one. */
  lemma UpdateExact(t: Table, n: NodeInfo, ifc: string)
    requires Mirror(t, ifc)
    ensures Mirror(Updated(t, n, ifc), ifc) <==> Free(t.nodes, n)
  {
    var r := Removed(t, n.name);
    RemoveKeeps(t, n.name, ifc);
    AddExact(r, n, ifc);
    UpdateIsRemovePut(t, n, ifc);
    FreeWithout(t.nodes, n);
  }

  lemma UpdateIsRemovePut(t: Table, n: NodeInfo, ifc: string)
    ensures Put(Removed(t, n.name), n, ifc) == Updated(t, n, ifc)
  {
    assert (t.nodes - {n.name})[n.name := n] == t.nodes[n.name := n];
  }

  lemma FreeWithout(nodes: Nodes, n: NodeInfo)
    ensures Free(nodes - {n.name}, n) <==> Free(nodes, n)
  {
    assert forall x | x in nodes && x != n.name :: x in nodes - {n.name};
  }

  // ---------------------------------------------------------------- synchronising

  function CIDRsOf(nodes: Nodes, names: set<string>): set<Prefix> {
    set x | x in names && x in nodes :: nodes[x].podCIDR
  }

  lemma {:induction false} AddedNodes(t: Table, desired: Nodes, order: seq<string>, ifc: string)
    requires Named(desired) && Elements(order) <= desired.Keys
    ensures var u := Added(t, desired, order, ifc);
            && u.nodes.Keys == t.nodes.Keys + Elements(order)
            && (forall x | x in u.nodes :: u.nodes[x] == if x in Elements(order) then desired[x] else t.nodes[x])
            && u.routes.Keys == t.routes.Keys + CIDRsOf(desired, Elements(order))
    decreases |order|
  {
    if order != [] {
      var n := |order| - 1;
      ElementsSnoc(order[..n], order[n]);
      assert order[..n] + [order[n]] == order;
      AddedNodes(t, desired, order[..n], ifc);
    }
  }

  lemma {:induction false} AddedRoutes(t: Table, desired: Nodes, order: seq<string>, ifc: string)
    requires Named(desired) && DistinctCIDRs(desired) && Elements(order) <= desired.Keys
    ensures forall x | x in Elements(order) :: HasRoute(Added(t, desired, order, ifc), desired[x], ifc)
    decreases |order|
  {
    if order != [] {
      var n := |order| - 1;
      ElementsSnoc(order[..n], order[n]);
      assert order[..n] + [order[n]] == order;
      AddedRoutes(t, desired, order[..n], ifc);
      var before := Added(t, desired, order[..n], ifc);
      forall x | x in Elements(order)
        ensures HasRoute(Added(t, desired, order, ifc), desired[x], ifc)
      {
        if x != order[n] {
          assert HasRoute(before, desired[x], ifc);
        }
      }
    }
  }

  /** Dropping the nodes that are no longer desired keeps nodes and routes in step. */
  lemma DroppedKeeps(t: Table, names: set<string>, ifc: string)
    requires Mirror(t, ifc)
    ensures Mirror(Dropped(t, names), ifc)
  {
    var u := Dropped(t, names);
    forall x | x in u.nodes
      ensures HasRoute(u, u.nodes[x], ifc)
    {
      assert HasRoute(t, t.nodes[x], ifc);
    }
    forall c | c in u.routes
      ensures Destination(u.nodes, c)
    {
      assert Destination(t.nodes, c);
      var x :| x in t.nodes && t.nodes[x].podCIDR == c;
      assert x in u.nodes && u.nodes[x].podCIDR == c;
    }
  }

  /** Each surviving node's old CIDR is still some desired node's CIDR. */
  ghost predicate OldStillWanted(nodes: Nodes, desired: Nodes) {
    forall x | x in nodes && x in desired :: Destination(desired, nodes[x].podCIDR)
  }

  lemma SyncedNodes(t: Table, desired: Nodes, order: seq<string>, ifc: string)
    requires Named(desired) && Elements(order) == desired.Keys
    ensures Synced(t, desired, order, ifc).nodes == desired
    ensures Synced(t, desired, order, ifc).routes.Keys ==
            Dropped(t, t.nodes.Keys - desired.Keys).routes.Keys + CIDRsOf(desired, desired.Keys)
  {
    var d := Dropped(t, t.nodes.Keys - desired.Keys);
    AddedNodes(d, desired, order, ifc);
    assert Synced(t, desired, order, ifc).nodes.Keys == desired.Keys;
  }

  lemma SyncKeeps(t: Table, desired: Nodes, order: seq<string>, ifc: string)
    requires Mirror(t, ifc) && Named(desired) && Elements(order) == desired.Keys
    requires DistinctCIDRs(desired) && OldStillWanted(t.nodes, desired)
    ensures Mirror(Synced(t, desired, order, ifc), ifc)
  {
    var d := Dropped(t, t.nodes.Keys - desired.Keys);
    var u := Synced(t, desired, order, ifc);
    DroppedKeeps(t, t.nodes.Keys - desired.Keys, ifc);
    SyncedNodes(t, desired, order, ifc);
    AddedRoutes(d, desired, order, ifc);
    forall c | c in u.routes
      ensures Destination(u.nodes, c)
    {
      if c in d.routes {
        assert Destination(d.nodes, c);
        var x :| x in d.nodes && d.nodes[x].podCIDR == c;
        assert x in t.nodes && x in desired && t.nodes[x].podCIDR == c;
      } else {
        assert c in CIDRsOf(desired, desired.Keys);
      }
    }
  }

  lemma SyncNeeds(t: Table, desired: Nodes, order: seq<string>, ifc: string)
    requires Mirror(t, ifc) && Named(desired) && Elements(order) == desired.Keys
    requires Mirror(Synced(t, desired, order, ifc), ifc)
    ensures DistinctCIDRs(desired) && OldStillWanted(t.nodes, desired)
  {
    var d := Dropped(t, t.nodes.Keys - desired.Keys);
    DroppedKeeps(t, t.nodes.Keys - desired.Keys, ifc);
    SyncedNodes(t, desired, order, ifc);
    forall x | x in t.nodes && x in desired
      ensures Destination(desired, t.nodes[x].podCIDR)
    {
      assert x in d.nodes && HasRoute(d, d.nodes[x], ifc);
    }
  }

  /** SyncRoutes always installs the desired nodes, in any order; routes and nodes are in step afterwards
      exactly when the desired CIDRs are distinct and no surviving node leaves an unwanted CIDR behind. */
  lemma SyncExact(t: Table, desired: Nodes, order: seq<string>, ifc: string)
    requires Mirror(t, ifc) && Named(desired) && Elements(order) == desired.Keys
    ensures Synced(t, desired, order, ifc).nodes == desired
    ensures Mirror(Synced(t, desired, order, ifc), ifc) <==> DistinctCIDRs(desired) && OldStillWanted(t.nodes, desired)
  {
    SyncedNodes(t, desired, order, ifc);
    if DistinctCIDRs(desired) && OldStillWanted(t.nodes, desired) {
      SyncKeeps(t, desired, order, ifc);
    }
    if Mirror(Synced(t, desired, order, ifc), ifc) {
      SyncNeeds(t, desired, order, ifc);
    }
  }

  /** A node that survives with another CIDR leaves its old route behind. */
  lemma SyncLeavesStale(n: NodeInfo, m: NodeInfo, ifc: string)
    requires n.name == m.name && n.podCIDR != m.podCIDR
    ensures var t := Synced(Put(Empty(), n, ifc), map[m.name := m], [m.name], ifc);
            t.nodes == map[m.name := m] && n.podCIDR in t.routes && !Destination(t.nodes, n.podCIDR)
  {
    var t, desired := Put(Empty(), n, ifc), map[m.name := m];
    SyncedNodes(t, desired, [m.name], ifc);
    assert t.nodes.Keys - desired.Keys == {};
    DroppedNone(t);
  }

  lemma {:induction false} DesiredNamed(local: string, list: seq<NodeInfo>)
    ensures Named(Desired(local, list)) && local !in Desired(local, list)
    decreases |list|
  {
    if list != [] {
      DesiredNamed(local, list[..|list| - 1]);
    }
  }

  /** `list[i]` is the last node listed under this name. */
  predicate LastListed(list: seq<NodeInfo>, x: string, i: int) {
    && 0 <= i < |list| && list[i].name == x
    && forall j | i < j < |list| :: list[j].name != x
  }

  /** SyncRoutes wants exactly the listed nodes other than the local one, the last of each name. */
  lemma {:induction false} DesiredExact(local: string, list: seq<NodeInfo>, x: string)
    ensures x in Desired(local, list) <==> x != local && exists i :: LastListed(list, x, i)
    ensures forall i | LastListed(list, x, i) && x != local :: x in Desired(local, list) && Desired(local, list)[x] == list[i]
    decreases |list|
  {
    if list != [] {
      var n := |list| - 1;
      DesiredExact(local, list[..n], x);
      if list[n].name == x {
        assert LastListed(list, x, n);
      } else {
        assert forall i :: LastListed(list, x, i) <==> LastListed(list[..n], x, i);
      }
    }
  }

  // ---------------------------------------------------------------- runs

  /** `order` is the order in which Go ranges over the desired nodes. */
  datatype Op =
    | AddNode(node: NodeInfo)
    | RemoveNode(name: string)
    | UpdateNode(node: NodeInfo)
    | SyncRoutes(list: seq<NodeInfo>, order: seq<string>)

  function Step(t: Table, local: string, ifc: string, op: Op): Table {
    match op
    case AddNode(n) => Put(t, n, ifc)
    case RemoveNode(x) => Removed(t, x)
    case UpdateNode(n) => Updated(t, n, ifc)
    case SyncRoutes(list, order) => Synced(t, Desired(local, list), order, ifc)
  }

  /** The specification both backends refine: a table of nodes and nothing else. */
  function NodeStep(nodes: Nodes, local: string, op: Op): Nodes {
    match op
    case AddNode(n) => nodes[n.name := n]
    case RemoveNode(x) => nodes - {x}
    case UpdateNode(n) => nodes[n.name := n]
    case SyncRoutes(list, order) => Desired(local, list)
  }

  /** When a step is safe, in terms of the node table and the request alone. */
  ghost predicate Safe(nodes: Nodes, local: string, op: Op) {
    match op
    case AddNode(n) => Free(nodes, n) && SameCIDR(nodes, n)
    case RemoveNode(x) => true
    case UpdateNode(n) => Free(nodes, n)
    case SyncRoutes(list, order) =>
      DistinctCIDRs(Desired(local, list)) && OldStillWanted(nodes, Desired(local, list))
  }

  predicate ProperOrder(local: string, op: Op) {
    op.SyncRoutes? ==> Elements(op.order) == Desired(local, op.list).Keys
  }

  /** A step refines the node table, and keeps routes in step with it exactly when it is safe. */
  lemma StepExact(t: Table, local: string, ifc: string, op: Op)
    requires Mirror(t, ifc) && ProperOrder(local, op)
    ensures Step(t, local, ifc, op).nodes == NodeStep(t.nodes, local, op)
    ensures Mirror(Step(t, local, ifc, op), ifc) <==> Safe(t.nodes, local, op)
  {
    match op
    case AddNode(n) => AddExact(t, n, ifc);
    case RemoveNode(x) => RemoveKeeps(t, x, ifc);
    case UpdateNode(n) => UpdateExact(t, n, ifc);
    case SyncRoutes(list, order) =>
      DesiredNamed(local, list);
      SyncExact(t, Desired(local, list), order, ifc);
  }

  function Run(local: string, ifc: string, ops: seq<Op>): Table {
    if ops == [] then Empty() else Step(Run(local, ifc, ops[..|ops| - 1]), local, ifc, ops[|ops| - 1])
  }

  function NodeRun(local: string, ops: seq<Op>): Nodes {
    if ops == [] then map[] else NodeStep(NodeRun(local, ops[..|ops| - 1]), local, ops[|ops| - 1])
  }

  ghost predicate SafeRun(local: string, ops: seq<Op>)
    decreases |ops|
  {
    ops == [] ||
    (&& SafeRun(local, ops[..|ops| - 1])
     && ProperOrder(local, ops[|ops| - 1])
     && Safe(NodeRun(local, ops[..|ops| - 1]), local, ops[|ops| - 1]))
  }

  lemma {:induction false} RunRefines(local: string, ifc: string, ops: seq<Op>)
    requires SafeRun(local, ops)
    ensures Mirror(Run(local, ifc, ops), ifc) && Run(local, ifc, ops).nodes == NodeRun(local, ops)
    decreases |ops|
  {
    if ops != [] {
      RunRefines(local, ifc, ops[..|ops| - 1]);
      StepExact(Run(local, ifc, ops[..|ops| - 1]), local, ifc, ops[|ops| - 1]);
    }
  }

  /** What a route says. */
  predicate RouteTo(routes: Routes, n: NodeInfo, ifc: string) {
    && n.podCIDR in routes
    && routes[n.podCIDR].destCIDR == n.podCIDR
    && routes[n.podCIDR].nextHop == n.nodeIP
    && routes[n.podCIDR].nodeName == n.name
    && routes[n.podCIDR].interfaceName == ifc
  }

  /** After every safe run the route for a node's CIDR leads to the node's address, and each route is some
      node's. */
  lemma RoutesLeadToNodes(local: string, ifc: string, ops: seq<Op>)
    requires SafeRun(local, ops)
    ensures var nodes, routes := NodeRun(local, ops), Run(local, ifc, ops).routes;
            && (forall x | x in nodes :: nodes[x].name == x && RouteTo(routes, nodes[x], ifc))
            && (forall c | c in routes :: Destination(nodes, c))
  {
    RunRefines(local, ifc, ops);
    var t := Run(local, ifc, ops);
    forall x | x in t.nodes
      ensures RouteTo(t.routes, t.nodes[x], ifc)
    {
      assert HasRoute(t, t.nodes[x], ifc);
    }
  }

  /** The same route out of another interface. */
  function Via(r: PodRoute, ifc: string): PodRoute {
    r.(interfaceName := ifc)
  }

  lemma MirrorsAgree(t: Table, u: Table, a: string, b: string)
    requires Mirror(t, a) && Mirror(u, b) && t.nodes == u.nodes
    ensures u.routes == map c | c in t.routes :: Via(t.routes[c], b)
  {
    forall c
      ensures c in t.routes <==> c in u.routes
      ensures c in t.routes ==> u.routes[c] == Via(t.routes[c], b)
    {
      if c in t.routes || c in u.routes {
        assert Destination(t.nodes, c) by {
          assert c in t.routes ==> Destination(t.nodes, c);
          assert c in u.routes ==> Destination(u.nodes, c);
        }
        var x :| x in t.nodes && t.nodes[x].podCIDR == c;
        assert HasRoute(t, t.nodes[x], a) && HasRoute(u, u.nodes[x], b);
      }
    }
  }

  // ---------------------------------------------------------------- the VXLAN forwarding table

  /** The last MAC byte is the number of nodes when the entry was written. */
  datatype FDBEntry = FDBEntry(macByte: nat, remoteIP: uint32, nodeName: string)

  datatype Overlay = Overlay(table: Table, fdb: map<string, FDBEntry>)

  function WithFdb(v: Overlay, t: Table, n: NodeInfo): Overlay {
    Overlay(t, v.fdb[n.name := FDBEntry(|t.nodes|, n.nodeIP, n.name)])
  }

  function OverlayAdded(v: Overlay, desired: Nodes, order: seq<string>, ifc: string): Overlay {
    if order == [] then v
    else
      var before := OverlayAdded(v, desired, order[..|order| - 1], ifc);
      var x := order[|order| - 1];
      if x in desired then WithFdb(before, Put(before.table, desired[x], ifc), desired[x]) else before
  }

  function OverlayStep(v: Overlay, local: string, ifc: string, op: Op): Overlay {
    match op
    case AddNode(n) => WithFdb(v, Put(v.table, n, ifc), n)
    case RemoveNode(x) => if x in v.table.nodes then Overlay(Removed(v.table, x), v.fdb - {x}) else v
    case UpdateNode(n) => WithFdb(v, Updated(v.table, n, ifc), n)
    case SyncRoutes(list, order) =>
      var desired := Desired(local, list);
      var gone := v.table.nodes.Keys - desired.Keys;
      OverlayAdded(OverlayDropped(v, gone), desired, order, ifc)
  }

  function OverlayDropped(v: Overlay, gone: set<string>): Overlay {
    Overlay(Dropped(v.table, gone), v.fdb - gone)
  }

  /** Every node has a forwarding entry to its own address, and there is no other entry. */
  ghost predicate FdbMirror(v: Overlay) {
    && v.fdb.Keys == v.table.nodes.Keys
    && (forall x | x in v.fdb :: v.fdb[x].remoteIP == v.table.nodes[x].nodeIP && v.fdb[x].nodeName == x)
  }

  lemma {:induction false} OverlayAddedKeeps(v: Overlay, desired: Nodes, order: seq<string>, ifc: string)
    requires FdbMirror(v) && Named(desired)
    ensures FdbMirror(OverlayAdded(v, desired, order, ifc))
    ensures OverlayAdded(v, desired, order, ifc).table == Added(v.table, desired, order, ifc)
    decreases |order|
  {
    if order != [] {
      OverlayAddedKeeps(v, desired, order[..|order| - 1], ifc);
    }
  }

  /** Every step, safe or not, keeps the forwarding table in step with the nodes. */
  lemma OverlayStepKeeps(v: Overlay, local: string, ifc: string, op: Op)
    requires FdbMirror(v)
    ensures FdbMirror(OverlayStep(v, local, ifc, op))
    ensures OverlayStep(v, local, ifc, op).table == Step(v.table, local, ifc, op)
  {
    if op.SyncRoutes? {
      var desired := Desired(local, op.list);
      var gone := v.table.nodes.Keys - desired.Keys;
      DesiredNamed(local, op.list);
      OverlayAddedKeeps(OverlayDropped(v, gone), desired, op.order, ifc);
    }
  }

  function OverlayRun(local: string, ifc: string, ops: seq<Op>): Overlay {
    if ops == [] then Overlay(Empty(), map[])
    else OverlayStep(OverlayRun(local, ifc, ops[..|ops| - 1]), local, ifc, ops[|ops| - 1])
  }

  lemma {:induction false} OverlayRunMirrors(local: string, ifc: string, ops: seq<Op>)
    ensures FdbMirror(OverlayRun(local, ifc, ops)) && OverlayRun(local, ifc, ops).table == Run(local, ifc, ops)
    decreases |ops|
  {
    if ops != [] {
      OverlayRunMirrors(local, ifc, ops[..|ops| - 1]);
      OverlayStepKeeps(OverlayRun(local, ifc, ops[..|ops| - 1]), local, ifc, ops[|ops| - 1]);
    }
  }

  // ---------------------------------------------------------------- the two backends together

  /** The same request; each backend may range over its map in its own order. */
  predicate SameRequest(a: Op, b: Op) {
    if a.SyncRoutes? && b.SyncRoutes? then a.list == b.list else a == b
  }

  ghost predicate SameRequests(a: seq<Op>, b: seq<Op>) {
    |a| == |b| && forall i | 0 <= i < |a| :: SameRequest(a[i], b[i])
  }

  ghost predicate ProperOrders(local: string, ops: seq<Op>) {
    forall i | 0 <= i < |ops| :: ProperOrder(local, ops[i])
  }

  lemma {:induction false} SameRequestsSafe(local: string, a: seq<Op>, b: seq<Op>)
    requires SafeRun(local, a) && SameRequests(a, b) && ProperOrders(local, b)
    ensures SafeRun(local, b) && NodeRun(local, a) == NodeRun(local, b)
    decreases |a|
  {
    if a != [] {
      var n := |a| - 1;
      assert SameRequest(a[n], b[n]) && ProperOrder(local, b[n]);
      SameRequestsSafe(local, a[..n], b[..n]);
    }
  }

  /** In every safe run both backends hold the same nodes, and the same routes up to the interface name,
      although each ranges over its maps in its own order. */
  lemma BackendsAgree(local: string, ifc: string, a: seq<Op>, b: seq<Op>)
    requires SafeRun(local, a) && SameRequests(a, b) && ProperOrders(local, b)
    ensures var bgp, vxlan := Run(local, "", a), OverlayRun(local, ifc, b);
            && bgp.nodes == vxlan.table.nodes == NodeRun(local, a)
            && vxlan.table.routes == (map c | c in bgp.routes :: Via(bgp.routes[c], ifc))
            && FdbMirror(vxlan)
  {
    SameRequestsSafe(local, a, b);
    RunRefines(local, "", a);
    RunRefines(local, ifc, b);
    OverlayRunMirrors(local, ifc, b);
    MirrorsAgree(Run(local, "", a), Run(local, ifc, b), "", ifc);
  }

  /** The simulated MAC addresses are not unique: a node added after a removal repeats one. */
  lemma MacRepeats(a: NodeInfo, b: NodeInfo, c: NodeInfo, local: string, ifc: string)
    requires a.name != b.name && b.name != c.name && a.name != c.name
    ensures var v := OverlayRun(local, ifc, [AddNode(a), AddNode(b), RemoveNode(a.name), AddNode(c)]);
            && b.name in v.fdb && c.name in v.fdb && v.fdb[b.name].macByte == v.fdb[c.name].macByte
  {
    var one, two := [AddNode(a)], [AddNode(a), AddNode(b)];
    var three := two + [RemoveNode(a.name)];
    var four := [AddNode(a), AddNode(b), RemoveNode(a.name), AddNode(c)];
    assert one[..0] == [] && two[..1] == one && three[..2] == two && four[..3] == three;
    var v0 := OverlayRun(local, ifc, []);
    var v1 := OverlayRun(local, ifc, one);
    assert v1.table.nodes == map[a.name := a];
    var v2 := OverlayRun(local, ifc, two);
    assert v2.table.nodes.Keys == {a.name, b.name} && v2.fdb[b.name].macByte == 2;
    var v3 := OverlayRun(local, ifc, three);
    assert v3.table.nodes.Keys == {b.name} && v3.fdb[b.name].macByte == 2;
    var v4 := OverlayRun(local, ifc, four);
    assert v4.table.nodes.Keys == {b.name, c.name};
  }

  // ---------------------------------------------------------------- the mutable backends

  /** Nodes of a list by name, without the local one: the first loop of SyncRoutes in both backends. */
  method DesiredNodes(local: string, list: seq<NodeInfo>) returns (desired: Nodes)
    ensures desired == Desired(local, list)
  {
    desired := map[];
    for i := 0 to |list|
      invariant desired == Desired(local, list[..i])
    {
      assert list[..i + 1][..i] == list[..i];
      if list[i].name == local {
        continue;
      }
      desired := desired[list[i].name := list[i]];
    }
    assert list[..|list|] == list;
  }

  class BGPBackend {
    var localName: string
    var peers: Nodes
    var routes: Routes
    var running: bool

    ghost function Model(): Table
      reads this
    {
      Table(peers, routes)
    }

    constructor ()
      ensures Model() == Empty() && !running
    {
      localName, peers, routes, running := "", map[], map[], false;
    }

    method Init(local: NodeInfo)
      modifies this
      ensures running && localName == local.name && Model() == old(Model())
    {
      localName, running := local.name, true;
    }

    method AddNode(node: NodeInfo) returns (ok: bool)
      modifies this`peers, this`routes
      ensures ok <==> running
      ensures Model() == if running then Step(old(Model()), localName, "", Op.AddNode(node)) else old(Model())
    {
      ok := running;
      if ok {
        peers := peers[node.name := node];
        routes := routes[node.podCIDR := PodRoute(node.podCIDR, node.nodeIP, node.name, "")];
      }
    }

    method RemoveNode(name: string)
      modifies this`peers, this`routes
      ensures Model() == Step(old(Model()), localName, "", Op.RemoveNode(name))
    {
      if name in peers {
        routes := routes - {peers[name].podCIDR};
        peers := peers - {name};
      }
    }

    method UpdateNode(node: NodeInfo)
      modifies this`peers, this`routes
      ensures Model() == Step(old(Model()), localName, "", Op.UpdateNode(node))
    {
      if node.name in peers {
        routes := routes - {peers[node.name].podCIDR};
      }
      peers := peers[node.name := node];
      routes := routes[node.podCIDR := PodRoute(node.podCIDR, node.nodeIP, node.name, "")];
    }

    method DropStale(desired: Nodes)
      modifies this`peers, this`routes
      ensures Model() == Dropped(old(Model()), old(peers).Keys - desired.Keys)
    {
      ghost var t := Model();
      ghost var gone := {};
      var rest := peers.Keys;
      DroppedNone(t);
      while rest != {}
        invariant gone !! rest && gone <= t.nodes.Keys - desired.Keys <= gone + rest
        invariant rest <= t.nodes.Keys
        invariant Model() == Dropped(t, gone)
        decreases |rest|
      {
        var x :| x in rest;
        rest := rest - {x};
        if x !in desired {
          RemoveStale(t, gone, x);
          gone := gone + {x};
        }
      }
      assert gone == t.nodes.Keys - desired.Keys;
    }

    method RemoveStale(ghost t: Table, ghost gone: set<string>, x: string)
      requires x in t.nodes && x !in gone && Model() == Dropped(t, gone)
      modifies this`peers, this`routes
      ensures Model() == Dropped(t, gone + {x})
    {
      DroppedOneMore(t, gone, x);
      RemoveNode(x);
    }

    method Install(node: NodeInfo)
      modifies this`peers, this`routes
      ensures Model() == Put(old(Model()), node, "")
    {
      peers := peers[node.name := node];
      routes := routes[node.podCIDR := PodRoute(node.podCIDR, node.nodeIP, node.name, "")];
    }

    method InstallAll(desired: Nodes) returns (ghost order: seq<string>)
      requires Named(desired)
      modifies this`peers, this`routes
      ensures Elements(order) == desired.Keys && Model() == Added(old(Model()), desired, order, "")
    {
      ghost var t := Model();
      var rest := desired.Keys;
      order := [];
      RestAll(rest);
      assert Installed(t, desired, order);
      while rest != {}
        invariant Rest(rest, order, desired.Keys)
        invariant Installed(t, desired, order)
        decreases |rest|
      {
        var x :| x in rest;
        RestNext(rest, order, desired.Keys, x);
        rest := rest - {x};
        InstallNext(t, desired, order, x);
        order := order + [x];
      }
      RestNone(order, desired.Keys);
      assert Unfold(Unit);
    }

    ghost predicate Installed(t: Table, desired: Nodes, order: seq<string>)
      reads this
    {
      forall u :: Unfold(u) ==> Model() == Added(t, desired, order, "")
    }

    method InstallNext(ghost t: Table, desired: Nodes, ghost order: seq<string>, x: string)
      requires x in desired && Installed(t, desired, order)
      modifies this`peers, this`routes
      ensures Installed(t, desired, order + [x])
    {
      assert Unfold(Unit);
      assert (order + [x])[..|order|] == order;
      Install(desired[x]);
    }

    method SyncRoutes(list: seq<NodeInfo>) returns (ghost order: seq<string>)
      modifies this`peers, this`routes
      ensures ProperOrder(localName, Op.SyncRoutes(list, order))
      ensures Model() == Step(old(Model()), localName, "", Op.SyncRoutes(list, order))
    {
      var desired := DesiredNodes(localName, list);
      DesiredNamed(localName, list);
      DropStale(desired);
      order := InstallAll(desired);
    }
  }

  lemma DroppedNone(t: Table)
    ensures Dropped(t, {}) == t
  {
    assert t.nodes - {} == t.nodes;
    assert Dropped(t, {}).routes == t.routes;
  }

  lemma DroppedOneMore(t: Table, gone: set<string>, x: string)
    requires x in t.nodes && x !in gone
    ensures x in Dropped(t, gone).nodes && Dropped(t, gone + {x}) == Removed(Dropped(t, gone), x)
  {
    var d, e := Dropped(t, gone), Dropped(t, gone + {x});
    assert CIDRsOf(t.nodes, gone + {x}) == CIDRsOf(t.nodes, gone) + {t.nodes[x].podCIDR};
    assert e.nodes == d.nodes - {x};
    assert e.routes == t.routes - CIDRsOf(t.nodes, gone + {x});
    assert d.routes == t.routes - CIDRsOf(t.nodes, gone);
    assert e.routes == d.routes - {t.nodes[x].podCIDR};
  }

  lemma OverlayDroppedNone(v: Overlay)
    ensures OverlayDropped(v, {}) == v
  {
    DroppedNone(v.table);
    assert v.fdb - {} == v.fdb;
  }

  lemma OverlayDroppedOneMore(v: Overlay, gone: set<string>, x: string)
    requires x in v.table.nodes && x !in gone
    ensures var w := OverlayDropped(v, gone);
            x in w.table.nodes && OverlayDropped(v, gone + {x}) == Overlay(Removed(w.table, x), w.fdb - {x})
  {
    DroppedOneMore(v.table, gone, x);
    assert v.fdb - gone - {x} == v.fdb - (gone + {x});
  }

  lemma OverlayAddedNext(v: Overlay, desired: Nodes, order: seq<string>, x: string, ifc: string)
    requires x in desired
    ensures var before := OverlayAdded(v, desired, order, ifc);
            OverlayAdded(v, desired, order + [x], ifc) == WithFdb(before, Put(before.table, desired[x], ifc), desired[x])
  {
    assert (order + [x])[..|order|] == order;
  }

  class VXLANBackend {
    const interfaceName: string
    var localName: string
    var nodes: Nodes
    var fdb: map<string, FDBEntry>
    var routes: Routes
    var running: bool

    ghost function Model(): Overlay
      reads this
    {
      Overlay(Table(nodes, routes), fdb)
    }

    /** An empty interface name stands for the default. */
    constructor (interfaceName: string)
      ensures Model() == Overlay(Empty(), map[]) && !running
      ensures this.interfaceName == if interfaceName == "" then "coordino_vxlan" else interfaceName
    {
      this.interfaceName := if interfaceName == "" then "coordino_vxlan" else interfaceName;
      localName, nodes, fdb, routes, running := "", map[], map[], map[], false;
    }

    method Init(local: NodeInfo)
      modifies this
      ensures running && localName == local.name && Model() == old(Model())
    {
      localName, running := local.name, true;
    }

    method Install(node: NodeInfo)
      modifies this`nodes, this`fdb, this`routes
      ensures Model() == WithFdb(old(Model()), Put(old(Model()).table, node, interfaceName), node)
    {
      nodes := nodes[node.name := node];
      fdb := fdb[node.name := FDBEntry(|nodes|, node.nodeIP, node.name)];
      routes := routes[node.podCIDR := PodRoute(node.podCIDR, node.nodeIP, node.name, interfaceName)];
    }

    method AddNode(node: NodeInfo) returns (ok: bool)
      modifies this`nodes, this`fdb, this`routes
      ensures ok <==> running
      ensures Model() == if running then OverlayStep(old(Model()), localName, interfaceName, Op.AddNode(node)) else old(Model())
    {
      ok := running;
      if ok {
        Install(node);
      }
    }

    method Uninstall(name: string)
      requires name in nodes
      modifies this`nodes, this`fdb, this`routes
      ensures Model() == Overlay(Removed(old(Model()).table, name), old(fdb) - {name})
    {
      routes := routes - {nodes[name].podCIDR};
      fdb := fdb - {name};
      nodes := nodes - {name};
    }

    method RemoveNode(name: string)
      modifies this`nodes, this`fdb, this`routes
      ensures Model() == OverlayStep(old(Model()), localName, interfaceName, Op.RemoveNode(name))
    {
      if name in nodes {
        Uninstall(name);
      }
    }

    method UpdateNode(node: NodeInfo)
      modifies this`nodes, this`fdb, this`routes
      ensures Model() == OverlayStep(old(Model()), localName, interfaceName, Op.UpdateNode(node))
    {
      if node.name in nodes {
        routes := routes - {nodes[node.name].podCIDR};
      }
      Install(node);
    }

    method DropStale(desired: Nodes)
      modifies this`nodes, this`fdb, this`routes
      ensures Model() == OverlayDropped(old(Model()), old(nodes).Keys - desired.Keys)
    {
      ghost var v := Model();
      ghost var gone := {};
      var rest := nodes.Keys;
      OverlayDroppedNone(v);
      while rest != {}
        invariant gone !! rest && gone <= v.table.nodes.Keys - desired.Keys <= gone + rest
        invariant rest <= v.table.nodes.Keys
        invariant Model() == OverlayDropped(v, gone)
        decreases |rest|
      {
        var x :| x in rest;
        rest := rest - {x};
        if x !in desired {
          OverlayDroppedOneMore(v, gone, x);
          Uninstall(x);
          gone := gone + {x};
        }
      }
      assert gone == v.table.nodes.Keys - desired.Keys;
    }

    method InstallAll(desired: Nodes) returns (ghost order: seq<string>)
      requires Named(desired)
      modifies this`nodes, this`fdb, this`routes
      ensures Elements(order) == desired.Keys && Model() == OverlayAdded(old(Model()), desired, order, interfaceName)
    {
      ghost var v := Model();
      var rest := desired.Keys;
      order := [];
      RestAll(rest);
      assert Installed(v, desired, order);
      while rest != {}
        invariant Rest(rest, order, desired.Keys)
        invariant Installed(v, desired, order)
        decreases |rest|
      {
        var x :| x in rest;
        RestNext(rest, order, desired.Keys, x);
        rest := rest - {x};
        InstallNext(v, desired, order, x);
        order := order + [x];
      }
      RestNone(order, desired.Keys);
      assert Unfold(Unit);
    }

    ghost predicate Installed(v: Overlay, desired: Nodes, order: seq<string>)
      reads this
    {
      forall u :: Unfold(u) ==> Model() == OverlayAdded(v, desired, order, interfaceName)
    }

    method InstallNext(ghost v: Overlay, desired: Nodes, ghost order: seq<string>, x: string)
      requires x in desired && Installed(v, desired, order)
      modifies this`nodes, this`fdb, this`routes
      ensures Installed(v, desired, order + [x])
    {
      assert Unfold(Unit);
      OverlayAddedNext(v, desired, order, x, interfaceName);
      Install(desired[x]);
    }

    method SyncRoutes(list: seq<NodeInfo>) returns (ghost order: seq<string>)
      modifies this`nodes, this`fdb, this`routes
      ensures ProperOrder(localName, Op.SyncRoutes(list, order))
      ensures Model() == OverlayStep(old(Model()), localName, interfaceName, Op.SyncRoutes(list, order))
    {
      var desired := DesiredNodes(localName, list);
      DesiredNamed(localName, list);
      DropStale(desired);
      order := InstallAll(desired);
    }
  }
}
