/** The cluster-wide block controller (pkg/ipam/controller.go), and the cluster it makes together with
    one bitmap allocator per block. */
module BlockIpam {
  import opened Base
  import NodeIpam

  datatype Ctrl = Ctrl(cluster: Cidr, blockSize: nat, assignments: map<string, seq<Prefix>>, next: nat)

  /** Outside this range the shift in the source panics or its mask is nil. */
  predicate WellFormed(c: Ctrl) {
    c.cluster.ones <= c.blockSize <= 32
  }

  function TotalBlocks(c: Ctrl): nat
    requires WellFormed(c)
  {
    Pow2(c.blockSize - c.cluster.ones)
  }

  /** The i-th block, in the 32-bit arithmetic of the source. */
  function BlockAt(cluster: Cidr, blockSize: nat, i: nat): Prefix
    requires blockSize <= 32
  {
    Prefix((cluster.ip + (i % TWO32) * Pow2(32 - blockSize)) % TWO32, blockSize)
  }

  function BlocksOf(c: Ctrl, node: string): seq<Prefix> {
    if node in c.assignments then c.assignments[node] else []
  }

  function AssignedNext(c: Ctrl, node: string): (Ctrl, Option<Prefix>)
    requires WellFormed(c)
  {
    if c.next >= TotalBlocks(c) then (c, None)
    else
      var b := BlockAt(c.cluster, c.blockSize, c.next);
      (c.(assignments := c.assignments[node := BlocksOf(c, node) + [b]], next := c.next + 1), Some(b))
  }

  function Assigned(c: Ctrl, node: string): (Ctrl, Option<Prefix>)
    requires WellFormed(c)
  {
    if BlocksOf(c, node) != [] then (c, Some(BlocksOf(c, node)[0])) else AssignedNext(c, node)
  }

  function Unassigned(c: Ctrl, node: string): Ctrl {
    c.(assignments := c.assignments - {node})
  }

  class IPAMController {
    const clusterCIDR: Cidr
    const blockSize: nat
    var assignments: map<string, seq<Prefix>>
    var nextBlockIndex: nat

    ghost function Model(): Ctrl
      reads this
    {
      Ctrl(clusterCIDR, blockSize, assignments, nextBlockIndex)
    }

    constructor (clusterCIDR: Cidr, blockSize: nat)
      ensures Model() == Ctrl(clusterCIDR, blockSize, map[], 0)
    {
      this.clusterCIDR, this.blockSize := clusterCIDR, blockSize;
      assignments, nextBlockIndex := map[], 0;
    }

    method AssignNextBlock(node: string) returns (b: Option<Prefix>)
      requires WellFormed(Model())
      modifies this
      ensures (Model(), b) == AssignedNext(old(Model()), node)
    {
      if nextBlockIndex >= Pow2(blockSize - clusterCIDR.ones) {
        return None;
      }
      var ip := (clusterCIDR.ip + (nextBlockIndex % TWO32) * Pow2(32 - blockSize)) % TWO32;
      var block := Prefix(ip, blockSize);
      var blocks := if node in assignments then assignments[node] else [];
      assignments := assignments[node := blocks + [block]];
      nextBlockIndex := nextBlockIndex + 1;
      return Some(block);
    }

    method AssignBlock(node: string) returns (b: Option<Prefix>)
      requires WellFormed(Model())
      modifies this
      ensures (Model(), b) == Assigned(old(Model()), node)
    {
      if node in assignments && |assignments[node]| > 0 {
        return Some(assignments[node][0]);
      }
      b := AssignNextBlock(node);
    }

    method AssignSecondaryBlock(node: string) returns (b: Option<Prefix>)
      requires WellFormed(Model())
      modifies this
      ensures (Model(), b) == AssignedNext(old(Model()), node)
    {
      b := AssignNextBlock(node);
    }

    method ReleaseBlocks(node: string)
      modifies this
      ensures Model() == Unassigned(old(Model()), node)
    {
      assignments := assignments - {node};
    }

    method IsBlockAvailable() returns (r: bool)
      requires WellFormed(Model())
      ensures r <==> forall node :: AssignedNext(Model(), node).1.Some?
    {
      r := nextBlockIndex < Pow2(blockSize - clusterCIDR.ones);
      if !r {
        assert AssignedNext(Model(), "").1.None?;
      }
    }
  }

  // ---------------------------------------------------------------- geometry of the blocks

  lemma MultipleMod(x: nat, s: nat)
    requires s >= 1
    ensures (x * s) % s == 0
  {
    var r := (x * s) % s;
    var q := (x * s) / s;
    assert x * s == q * s + r;
    assert (x - q) * s == r;
    if x - q >= 1 {
      MulMonotone(s, 1, x - q);
    } else if x - q <= -1 {
      MulMonotone(s, x - q, -1);
    }
  }

  lemma BlockFits(n: nat, s: nat, i: nat)
    requires s >= 1 && i < n
    ensures 0 <= i * s <= n * s - s && i < n * s
  {
    MulMonotone(s, i + 1, n);
    MulMonotone(s, 0, i);
    MulMonotone(n, 1, s);
    assert s * (i + 1) == i * s + s;
  }

  lemma BlockAligned(ip: nat, n: nat, s: nat, i: nat)
    requires s >= 1 && n * s >= 1 && ip % (n * s) == 0
    ensures (ip + i * s) % s == 0
  {
    var k := ip / (n * s);
    assert ip == k * (n * s);
    MulAssoc(k, n, s);
    MulMonotone(k, 0, n);
    assert ip + i * s == (k * n + i) * s;
    MultipleMod(k * n + i, s);
  }

  lemma BlockArithmetic(ip: nat, n: nat, s: nat, i: nat)
    requires s >= 1 && i < n && n * s >= 1 && ip % (n * s) == 0 && ip + n * s <= TWO32
    ensures (ip + i * s) % s == 0 && 0 <= i * s <= n * s - s
    ensures (ip + (i % TWO32) * s) % TWO32 == ip + i * s
  {
    BlockFits(n, s, i);
    BlockAligned(ip, n, s, i);
    assert i % TWO32 == i;
  }

  /** Every block with an index below the total lies inside the cluster CIDR, is aligned to its own
      size, and its address is computed without 32-bit wrap-around. */
  lemma BlockPlace(cluster: Cidr, blockSize: nat, i: nat)
    requires cluster.ones <= blockSize <= 32 && i < Pow2(blockSize - cluster.ones)
    ensures var b := BlockAt(cluster, blockSize, i);
            && b.ip == cluster.ip + i * Pow2(32 - blockSize)
            && b.Masked()
            && b.Size() == Pow2(32 - blockSize)
            && cluster.ip <= b.ip
            && b.ip + b.Size() <= cluster.ip + cluster.Size() <= TWO32
  {
    var n, s := Pow2(blockSize - cluster.ones), Pow2(32 - blockSize);
    Pow2Add(blockSize - cluster.ones, 32 - blockSize);
    assert cluster.Size() == n * s;
    CidrFits(cluster);
    BlockArithmetic(cluster.ip, n, s, i);
  }

  ghost predicate Disjoint(a: Prefix, b: Prefix)
    requires a.ones <= 32 && b.ones <= 32
  {
    a.ip + a.Size() <= b.ip || b.ip + b.Size() <= a.ip
  }

  lemma BlocksDisjoint(cluster: Cidr, blockSize: nat, i: nat, j: nat)
    requires cluster.ones <= blockSize <= 32 && i < j < Pow2(blockSize - cluster.ones)
    ensures var a, b := BlockAt(cluster, blockSize, i), BlockAt(cluster, blockSize, j);
            Disjoint(a, b) && a.ip != b.ip
  {
    var s := Pow2(32 - blockSize);
    BlockPlace(cluster, blockSize, i);
    BlockPlace(cluster, blockSize, j);
    MulMonotone(s, i + 1, j);
    assert s * (i + 1) == i * s + s;
  }

  // ---------------------------------------------------------------- runs of the controller

  datatype Op = Assign(node: string) | AssignSecondary(node: string) | ReleaseAll(node: string)

  /** The controller with the history of the blocks it has handed out. */
  datatype Traced = Traced(ctrl: Ctrl, issued: seq<Prefix>)

  function Step(t: Traced, op: Op): (t': Traced)
    requires WellFormed(t.ctrl)
    ensures WellFormed(t'.ctrl)
  {
    match op
    case Assign(n) => Log(t, Assigned(t.ctrl, n).0)
    case AssignSecondary(n) => Log(t, AssignedNext(t.ctrl, n).0)
    case ReleaseAll(n) => Log(t, Unassigned(t.ctrl, n))
  }

  /** A step that advanced the index issued one block. */
  function Log(t: Traced, c: Ctrl): Traced
    requires WellFormed(t.ctrl)
  {
    Traced(c, if c.next > t.ctrl.next then t.issued + [BlockAt(t.ctrl.cluster, t.ctrl.blockSize, t.ctrl.next)] else t.issued)
  }

  function Run(t: Traced, ops: seq<Op>): (t': Traced)
    requires WellFormed(t.ctrl)
    ensures WellFormed(t'.ctrl)
    decreases |ops|
  {
    if ops == [] then t else Step(Run(t, ops[..|ops| - 1]), ops[|ops| - 1])
  }

  function Start(cluster: Cidr, blockSize: nat): Traced {
    Traced(Ctrl(cluster, blockSize, map[], 0), [])
  }

  ghost predicate Indexed(cluster: Cidr, blockSize: nat, next: nat, b: Prefix)
    requires blockSize <= 32
  {
    exists i: nat :: i < next && b == BlockAt(cluster, blockSize, i)
  }

  ghost predicate Assignment(c: Ctrl, n: string, a: int) {
    n in c.assignments && 0 <= a < |c.assignments[n]|
  }

  /** Assigned blocks carry indices below `next`, and no block is assigned twice. */
  ghost predicate AssignedOnce(c: Ctrl)
    requires WellFormed(c)
  {
    && (forall n, a | Assignment(c, n, a) :: Indexed(c.cluster, c.blockSize, c.next, c.assignments[n][a]))
    && (forall n, a, m, b | Assignment(c, n, a) && Assignment(c, m, b) && c.assignments[n][a] == c.assignments[m][b] ::
          n == m && a == b)
  }

  ghost predicate Inv(t: Traced) {
    && WellFormed(t.ctrl)
    && t.ctrl.next == |t.issued| <= TotalBlocks(t.ctrl)
    && InOrder(t)
    && AssignedOnce(t.ctrl)
  }

  ghost predicate InOrder(t: Traced)
    requires WellFormed(t.ctrl)
  {
    forall i | 0 <= i < |t.issued| :: t.issued[i] == BlockAt(t.ctrl.cluster, t.ctrl.blockSize, i)
  }

  lemma AssignedNextInOrder(t: Traced, node: string)
    requires WellFormed(t.ctrl) && InOrder(t) && t.ctrl.next == |t.issued|
    ensures InOrder(Log(t, AssignedNext(t.ctrl, node).0))
  {
  }

  lemma NextIsNew(c: Ctrl, b: Prefix)
    requires WellFormed(c) && c.next < TotalBlocks(c) && Indexed(c.cluster, c.blockSize, c.next, b)
    ensures b != BlockAt(c.cluster, c.blockSize, c.next)
    ensures Indexed(c.cluster, c.blockSize, c.next + 1, b)
  {
    var i: nat :| i < c.next && b == BlockAt(c.cluster, c.blockSize, i);
    BlocksDisjoint(c.cluster, c.blockSize, i, c.next);
  }

  lemma AssignedNextOnce(c: Ctrl, node: string)
    requires WellFormed(c) && AssignedOnce(c)
    ensures AssignedOnce(AssignedNext(c, node).0)
  {
    if c.next < TotalBlocks(c) {
      var d := AssignedNext(c, node).0;
      var b := BlockAt(c.cluster, c.blockSize, c.next);
      assert Indexed(c.cluster, c.blockSize, c.next + 1, b);
      forall n, a | Assignment(d, n, a)
        ensures Indexed(d.cluster, d.blockSize, d.next, d.assignments[n][a])
        ensures (n == node && a == |BlocksOf(c, node)|) ||
                (Assignment(c, n, a) && d.assignments[n][a] == c.assignments[n][a] && c.assignments[n][a] != b)
      {
        if n != node || a != |BlocksOf(c, node)| {
          assert Assignment(c, n, a);
          NextIsNew(c, c.assignments[n][a]);
        }
      }
    }
  }

  lemma UnassignedOnce(c: Ctrl, node: string)
    requires WellFormed(c) && AssignedOnce(c)
    ensures AssignedOnce(Unassigned(c, node))
  {
    assert forall n, a :: Assignment(Unassigned(c, node), n, a) ==> Assignment(c, n, a);
  }

  lemma AssignedNextInv(t: Traced, node: string)
    requires Inv(t)
    ensures Inv(Log(t, AssignedNext(t.ctrl, node).0))
  {
    AssignedNextOnce(t.ctrl, node);
    AssignedNextInOrder(t, node);
  }

  lemma StepInv(t: Traced, op: Op)
    requires Inv(t)
    ensures Inv(Step(t, op)) && t.issued <= Step(t, op).issued
    ensures Step(t, op).ctrl.cluster == t.ctrl.cluster && Step(t, op).ctrl.blockSize == t.ctrl.blockSize
  {
    match op
    case Assign(n) =>
      if BlocksOf(t.ctrl, n) == [] {
        AssignedNextInv(t, n);
      }
    case AssignSecondary(n) => AssignedNextInv(t, n);
    case ReleaseAll(n) => UnassignedOnce(t.ctrl, n);
  }

  lemma {:induction false} RunInv(cluster: Cidr, blockSize: nat, ops: seq<Op>)
    requires cluster.ones <= blockSize <= 32
    ensures var t := Run(Start(cluster, blockSize), ops);
            Inv(t) && t.ctrl.cluster == cluster && t.ctrl.blockSize == blockSize
    decreases |ops|
  {
    if ops != [] {
      RunInv(cluster, blockSize, ops[..|ops| - 1]);
      StepInv(Run(Start(cluster, blockSize), ops[..|ops| - 1]), ops[|ops| - 1]);
    }
  }

  lemma IssuedDisjoint(t: Traced)
    requires Inv(t)
    ensures forall i, j | 0 <= i < j < |t.issued| :: Disjoint(t.issued[i], t.issued[j])
  {
    forall i, j | 0 <= i < j < |t.issued|
      ensures Disjoint(t.issued[i], t.issued[j])
    {
      BlocksDisjoint(t.ctrl.cluster, t.ctrl.blockSize, i, j);
    }
  }

  /** All blocks ever issued are aligned, inside the cluster CIDR and pairwise disjoint, across releases. */
  lemma IssuedBlocksSafe(cluster: Cidr, blockSize: nat, ops: seq<Op>)
    requires cluster.ones <= blockSize <= 32
    ensures var issued := Run(Start(cluster, blockSize), ops).issued;
            && (forall i | 0 <= i < |issued| ::
                  && issued[i].Masked() && issued[i].ones == blockSize
                  && cluster.ip <= issued[i].ip
                  && issued[i].ip + issued[i].Size() <= cluster.ip + cluster.Size())
            && (forall i, j | 0 <= i < j < |issued| :: Disjoint(issued[i], issued[j]))
  {
    RunInv(cluster, blockSize, ops);
    var t := Run(Start(cluster, blockSize), ops);
    forall i | 0 <= i < |t.issued|
      ensures t.issued[i].Masked() && t.issued[i].ones == blockSize && cluster.ip <= t.issued[i].ip
      ensures t.issued[i].ip + t.issued[i].Size() <= cluster.ip + cluster.Size()
    {
      BlockPlace(t.ctrl.cluster, t.ctrl.blockSize, i);
    }
    IssuedDisjoint(t);
  }

  // ---------------------------------------------------------------- the blocks callers are given

  /** What a request returns. */
  function Answer(c: Ctrl, op: Op): Option<Prefix>
    requires WellFormed(c)
  {
    match op
    case Assign(n) => Assigned(c, n).1
    case AssignSecondary(n) => AssignedNext(c, n).1
    case ReleaseAll(n) => None
  }

  /** A secondary assignment, or one to a node without blocks. */
  predicate Fresh(c: Ctrl, op: Op) {
    op.AssignSecondary? || (op.Assign? && BlocksOf(c, op.node) == [])
  }

  /** A returned block is one of the node's afterwards; a fresh one is the next in the cluster. */
  lemma AnswerOwned(t: Traced, op: Op)
    requires Inv(t) && Answer(t.ctrl, op).Some?
    ensures var b, blocks := Answer(t.ctrl, op).value, BlocksOf(Step(t, op).ctrl, op.node);
            && b in blocks
            && (op.Assign? ==> blocks[0] == b)
            && (Fresh(t.ctrl, op) ==> t.ctrl.next < TotalBlocks(t.ctrl) && b == BlockAt(t.ctrl.cluster, t.ctrl.blockSize, t.ctrl.next))
  {
    if Fresh(t.ctrl, op) {
      var blocks := BlocksOf(Step(t, op).ctrl, op.node);
      assert blocks[|blocks| - 1] == Answer(t.ctrl, op).value;
    }
  }

  /** The block was issued, and nobody but the node has it. */
  ghost predicate HeldBy(c: Ctrl, n: string, b: Prefix)
    requires WellFormed(c)
  {
    && Indexed(c.cluster, c.blockSize, c.next, b)
    && (forall m, a | Assignment(c, m, a) && c.assignments[m][a] == b :: m == n)
  }

  lemma AnswerHeld(t: Traced, op: Op)
    requires Inv(t) && Answer(t.ctrl, op).Some?
    ensures HeldBy(Step(t, op).ctrl, op.node, Answer(t.ctrl, op).value)
  {
    AnswerOwned(t, op);
    StepInv(t, op);
    var c, b := Step(t, op).ctrl, Answer(t.ctrl, op).value;
    var a :| 0 <= a < |BlocksOf(c, op.node)| && BlocksOf(c, op.node)[a] == b;
    assert Assignment(c, op.node, a);
  }

  lemma NextHeld(c: Ctrl, node: string, n: string, b: Prefix)
    requires WellFormed(c) && HeldBy(c, n, b)
    ensures HeldBy(AssignedNext(c, node).0, n, b)
  {
    if c.next < TotalBlocks(c) {
      NextIsNew(c, b);
      var d := AssignedNext(c, node).0;
      forall m, a | Assignment(d, m, a) && d.assignments[m][a] == b
        ensures m == n
      {
        assert m != node || a < |BlocksOf(c, node)| ==> Assignment(c, m, a);
      }
    }
  }

  /** Nobody else ever gets it, whatever is released. */
  lemma StepHeld(t: Traced, op: Op, n: string, b: Prefix)
    requires Inv(t) && HeldBy(t.ctrl, n, b)
    ensures HeldBy(Step(t, op).ctrl, n, b)
  {
    match op
    case Assign(m) => NextHeld(t.ctrl, m, n, b);
    case AssignSecondary(m) => NextHeld(t.ctrl, m, n, b);
    case ReleaseAll(m) =>
      assert forall k, a :: Assignment(Unassigned(t.ctrl, m), k, a) ==> Assignment(t.ctrl, k, a);
  }

  /** The controller before request i of a run, and what that request returns. */
  function Before(cluster: Cidr, blockSize: nat, ops: seq<Op>, i: nat): (t: Traced)
    requires cluster.ones <= blockSize <= 32 && i <= |ops|
    ensures WellFormed(t.ctrl)
  {
    Run(Start(cluster, blockSize), ops[..i])
  }

  function Given(cluster: Cidr, blockSize: nat, ops: seq<Op>, i: nat): Option<Prefix>
    requires cluster.ones <= blockSize <= 32 && i < |ops|
  {
    Answer(Before(cluster, blockSize, ops, i).ctrl, ops[i])
  }

  lemma BeforeNext(cluster: Cidr, blockSize: nat, ops: seq<Op>, i: nat)
    requires cluster.ones <= blockSize <= 32 && i < |ops|
    ensures var t := Before(cluster, blockSize, ops, i);
            && Inv(t) && t.ctrl.cluster == cluster && t.ctrl.blockSize == blockSize
            && Before(cluster, blockSize, ops, i + 1) == Step(t, ops[i])
  {
    assert ops[..i + 1][..i] == ops[..i];
    RunInv(cluster, blockSize, ops[..i]);
  }

  lemma GivenHeld(cluster: Cidr, blockSize: nat, ops: seq<Op>, i: nat, j: nat)
    requires cluster.ones <= blockSize <= 32 && i < j <= |ops| && Given(cluster, blockSize, ops, i).Some?
    ensures HeldBy(Before(cluster, blockSize, ops, j).ctrl, ops[i].node, Given(cluster, blockSize, ops, i).value)
    decreases j
  {
    BeforeNext(cluster, blockSize, ops, j - 1);
    if j == i + 1 {
      AnswerHeld(Before(cluster, blockSize, ops, i), ops[i]);
    } else {
      GivenHeld(cluster, blockSize, ops, i, j - 1);
      StepHeld(Before(cluster, blockSize, ops, j - 1), ops[j - 1], ops[i].node, Given(cluster, blockSize, ops, i).value);
    }
  }

  /** Blocks with different indices are disjoint, in either order. */
  lemma BlocksApart(cluster: Cidr, blockSize: nat, i: nat, j: nat)
    requires cluster.ones <= blockSize <= 32 && i < Pow2(blockSize - cluster.ones) && j < Pow2(blockSize - cluster.ones) && i != j
    ensures Disjoint(BlockAt(cluster, blockSize, i), BlockAt(cluster, blockSize, j))
  {
    if i < j {
      BlocksDisjoint(cluster, blockSize, i, j);
    } else {
      BlocksDisjoint(cluster, blockSize, j, i);
    }
  }

  lemma IndexOf(c: Ctrl, b: Prefix) returns (i: nat)
    requires WellFormed(c) && Indexed(c.cluster, c.blockSize, c.next, b)
    ensures i < c.next && b == BlockAt(c.cluster, c.blockSize, i) && b.ones == c.blockSize
  {
    i :| i < c.next && b == BlockAt(c.cluster, c.blockSize, i);
  }

  lemma SameOrApart(t: Traced, a: Prefix, b: Prefix)
    requires Inv(t)
    requires Indexed(t.ctrl.cluster, t.ctrl.blockSize, t.ctrl.next, a) && Indexed(t.ctrl.cluster, t.ctrl.blockSize, t.ctrl.next, b)
    ensures a.ones == b.ones == t.ctrl.blockSize && (a == b || Disjoint(a, b))
  {
    var x := IndexOf(t.ctrl, a);
    var y := IndexOf(t.ctrl, b);
    if x != y {
      BlocksApart(t.ctrl.cluster, t.ctrl.blockSize, x, y);
    }
  }

  /** Over every run: a returned block is one of the node's; blocks returned to different nodes never overlap,
      across releases; and a block newly taken overlaps none returned before. */
  lemma AnswersSafe(cluster: Cidr, blockSize: nat, ops: seq<Op>, i: nat, j: nat)
    requires cluster.ones <= blockSize <= 32 && i < j < |ops|
    requires Given(cluster, blockSize, ops, i).Some? && Given(cluster, blockSize, ops, j).Some?
    ensures var a, b := Given(cluster, blockSize, ops, i).value, Given(cluster, blockSize, ops, j).value;
            && a.ones == b.ones == blockSize
            && b in BlocksOf(Before(cluster, blockSize, ops, j + 1).ctrl, ops[j].node)
            && (ops[i].node != ops[j].node ==> Disjoint(a, b))
            && (Fresh(Before(cluster, blockSize, ops, j).ctrl, ops[j]) ==> Disjoint(a, b))
  {
    var a, b := Given(cluster, blockSize, ops, i).value, Given(cluster, blockSize, ops, j).value;
    var t, u := Before(cluster, blockSize, ops, j), Before(cluster, blockSize, ops, j + 1);
    BeforeNext(cluster, blockSize, ops, j);
    StepInv(t, ops[j]);
    GivenHeld(cluster, blockSize, ops, i, j);
    GivenHeld(cluster, blockSize, ops, i, j + 1);
    GivenHeld(cluster, blockSize, ops, j, j + 1);
    AnswerOwned(t, ops[j]);
    if Fresh(t.ctrl, ops[j]) {
      NextIsNew(t.ctrl, a);
    } else if a == b {
      var k :| 0 <= k < |BlocksOf(u.ctrl, ops[j].node)| && BlocksOf(u.ctrl, ops[j].node)[k] == b;
      assert Assignment(u.ctrl, ops[j].node, k);
    }
    SameOrApart(u, a, b);
  }

  predicate NotReleased(ops: seq<Op>, i: nat, j: nat, n: string) {
    forall k | i < k < j && k < |ops| :: ops[k] != ReleaseAll(n)
  }

  lemma StepFirst(t: Traced, op: Op, n: string)
    requires WellFormed(t.ctrl) && BlocksOf(t.ctrl, n) != [] && op != ReleaseAll(n)
    ensures BlocksOf(Step(t, op).ctrl, n) != [] && BlocksOf(Step(t, op).ctrl, n)[0] == BlocksOf(t.ctrl, n)[0]
  {
  }

  /** A release takes all blocks of that node and of no other. */
  lemma ReleaseExact(t: Traced, n: string, m: string)
    requires WellFormed(t.ctrl)
    ensures BlocksOf(Step(t, ReleaseAll(n)).ctrl, m) == if m == n then [] else BlocksOf(t.ctrl, m)
    ensures Step(t, ReleaseAll(n)).issued == t.issued
  {
  }

  /** The node's first block is the given one. */
  ghost predicate FirstIs(t: Traced, n: string, b: Option<Prefix>) {
    BlocksOf(t.ctrl, n) != [] && Some(BlocksOf(t.ctrl, n)[0]) == b
  }

  lemma GivenFirst(cluster: Cidr, blockSize: nat, ops: seq<Op>, i: nat)
    requires cluster.ones <= blockSize <= 32 && i < |ops| && ops[i].Assign? && Given(cluster, blockSize, ops, i).Some?
    ensures FirstIs(Before(cluster, blockSize, ops, i + 1), ops[i].node, Given(cluster, blockSize, ops, i))
  {
    BeforeNext(cluster, blockSize, ops, i);
    AnswerOwned(Before(cluster, blockSize, ops, i), ops[i]);
  }

  lemma FirstNext(cluster: Cidr, blockSize: nat, ops: seq<Op>, j: nat, n: string, b: Option<Prefix>)
    requires cluster.ones <= blockSize <= 32 && j < |ops| && ops[j] != ReleaseAll(n)
    requires FirstIs(Before(cluster, blockSize, ops, j), n, b)
    ensures FirstIs(Before(cluster, blockSize, ops, j + 1), n, b)
  {
    assert ops[..j + 1][..j] == ops[..j];
    StepFirst(Before(cluster, blockSize, ops, j), ops[j], n);
  }

  lemma {:induction false} FirstKept(cluster: Cidr, blockSize: nat, ops: seq<Op>, i: nat, j: nat)
    requires cluster.ones <= blockSize <= 32 && i < j <= |ops| && ops[i].Assign? && Given(cluster, blockSize, ops, i).Some?
    requires NotReleased(ops, i, j, ops[i].node)
    ensures FirstIs(Before(cluster, blockSize, ops, j), ops[i].node, Given(cluster, blockSize, ops, i))
    decreases j
  {
    if j == i + 1 {
      GivenFirst(cluster, blockSize, ops, i);
    } else {
      FirstKept(cluster, blockSize, ops, i, j - 1);
      FirstNext(cluster, blockSize, ops, j - 1, ops[i].node, Given(cluster, blockSize, ops, i));
    }
  }

  /** Until a node is released, assigning to it again returns the same block. */
  lemma AssignAgain(cluster: Cidr, blockSize: nat, ops: seq<Op>, i: nat, j: nat)
    requires cluster.ones <= blockSize <= 32 && i < j < |ops|
    requires ops[i].Assign? && ops[j] == ops[i] && Given(cluster, blockSize, ops, i).Some?
    requires NotReleased(ops, i, j, ops[i].node)
    ensures Given(cluster, blockSize, ops, j) == Given(cluster, blockSize, ops, i)
  {
    FirstKept(cluster, blockSize, ops, i, j);
  }

  /** An assignment fails exactly when the node has no block to return and the issued blocks fill the cluster. */
  lemma AnswerFails(cluster: Cidr, blockSize: nat, ops: seq<Op>, j: nat)
    requires cluster.ones <= blockSize <= 32 && j < |ops| && !ops[j].ReleaseAll?
    ensures var t := Before(cluster, blockSize, ops, j);
            Given(cluster, blockSize, ops, j).None? <==>
            Fresh(t.ctrl, ops[j]) && |t.issued| * Pow2(32 - blockSize) == cluster.Size()
  {
    BeforeNext(cluster, blockSize, ops, j);
    var t := Before(cluster, blockSize, ops, j);
    FillsCluster(cluster, blockSize, |t.issued|);
    AnswerNone(t.ctrl, ops[j]);
  }

  lemma AnswerNone(c: Ctrl, op: Op)
    requires WellFormed(c) && !op.ReleaseAll?
    ensures Answer(c, op).None? <==> Fresh(c, op) && c.next >= TotalBlocks(c)
  {
  }

  lemma FillsCluster(cluster: Cidr, blockSize: nat, n: nat)
    requires cluster.ones <= blockSize <= 32
    ensures n * Pow2(32 - blockSize) == cluster.Size() <==> n == Pow2(blockSize - cluster.ones)
  {
    Pow2Add(blockSize - cluster.ones, 32 - blockSize);
    SameMultiple(n, Pow2(blockSize - cluster.ones), Pow2(32 - blockSize));
  }

  lemma SameMultiple(a: nat, b: nat, s: nat)
    requires s >= 1
    ensures a * s == b * s <==> a == b
  {
    if a < b {
      MulMonotone(s, a + 1, b);
      assert s * (a + 1) == a * s + s;
    } else if b < a {
      MulMonotone(s, b + 1, a);
      assert s * (b + 1) == b * s + s;
    }
  }

  // ---------------------------------------------------------------- the cluster

  /** One bitmap allocator per issued block; allocators of released nodes may still be in use. */
  datatype Cluster = Cluster(t: Traced, pools: seq<NodeIpam.Pool>)

  datatype ClusterOp = Control(op: Op) | OnBlock(block: nat, nodeOp: NodeIpam.Op)

  /** A block number that has not been issued yet has no allocator: the step does nothing. */
  ghost function ClusterStep(c: Cluster, op: ClusterOp): (c': Cluster)
    requires WellFormed(c.t.ctrl)
    ensures WellFormed(c'.t.ctrl)
  {
    match op
    case Control(o) =>
      var t := Step(c.t, o);
      Cluster(t, if |t.issued| > |c.t.issued| && t.issued[|t.issued| - 1].Masked()
                 then c.pools + [NodeIpam.Fresh(t.issued[|t.issued| - 1])] else c.pools)
    case OnBlock(i, o) =>
      if i < |c.pools| then c.(pools := c.pools[i := NodeIpam.Step(c.pools[i], o)]) else c
  }

  ghost function ClusterRun(c: Cluster, ops: seq<ClusterOp>): (c': Cluster)
    requires WellFormed(c.t.ctrl)
    ensures WellFormed(c'.t.ctrl)
    decreases |ops|
  {
    if ops == [] then c else ClusterStep(ClusterRun(c, ops[..|ops| - 1]), ops[|ops| - 1])
  }

  ghost predicate PoolOn(p: NodeIpam.Pool, b: Prefix) {
    b.Masked() && p.base == b.ip && |p.bitmap| == b.Size() && NodeIpam.Valid(p)
  }

  ghost predicate ClusterInv(c: Cluster) {
    && Inv(c.t)
    && |c.pools| == |c.t.issued|
    && (forall i | 0 <= i < |c.pools| :: PoolOn(c.pools[i], c.t.issued[i]))
  }

  lemma ClusterStepInv(c: Cluster, op: ClusterOp)
    requires ClusterInv(c)
    ensures ClusterInv(ClusterStep(c, op))
    ensures ClusterStep(c, op).t.ctrl.cluster == c.t.ctrl.cluster && ClusterStep(c, op).t.ctrl.blockSize == c.t.ctrl.blockSize
  {
    match op
    case Control(o) =>
      StepInv(c.t, o);
      if |Step(c.t, o).issued| > |c.t.issued| {
        IssuedPool(c.t, o);
      }
    case OnBlock(i, o) =>
      if i < |c.pools| {
        NodeIpam.StepValid(c.pools[i], o);
      }
  }

  /** The allocator of a newly issued block. */
  lemma IssuedPool(t: Traced, op: Op)
    requires Inv(t) && |Step(t, op).issued| > |t.issued|
    ensures var n := |t.issued|;
            && n < TotalBlocks(t.ctrl)
            && Step(t, op).issued == t.issued + [BlockAt(t.ctrl.cluster, t.ctrl.blockSize, n)]
            && Step(t, op).issued[n].Masked()
            && PoolOn(NodeIpam.Fresh(Step(t, op).issued[n]), Step(t, op).issued[n])
  {
    BlockPlace(t.ctrl.cluster, t.ctrl.blockSize, |t.issued|);
  }

  lemma {:induction false} ClusterRunInv(c: Cluster, ops: seq<ClusterOp>)
    requires ClusterInv(c)
    ensures ClusterInv(ClusterRun(c, ops))
    ensures ClusterRun(c, ops).t.ctrl.cluster == c.t.ctrl.cluster && ClusterRun(c, ops).t.ctrl.blockSize == c.t.ctrl.blockSize
    decreases |ops|
  {
    if ops != [] {
      ClusterRunInv(c, ops[..|ops| - 1]);
      ClusterStepInv(ClusterRun(c, ops[..|ops| - 1]), ops[|ops| - 1]);
    }
  }

  /** The address pod k holds on block i. */
  ghost predicate Live(c: Cluster, i: nat, k: string, ip: uint32) {
    i < |c.pools| && k in c.pools[i].records && c.pools[i].records[k].ip == ip
  }

  lemma PoolInside(p: NodeIpam.Pool, b: Prefix, k: string)
    requires PoolOn(p, b) && k in p.records
    ensures b.ip < p.records[k].ip < b.ip + b.Size() - 1
  {
    assert NodeIpam.RecordOk(p, k);
  }

  lemma LiveInside(c: Cluster, i: nat, k: string, ip: uint32)
    requires ClusterInv(c) && Live(c, i, k, ip)
    ensures c.t.issued[i].ip < ip < c.t.issued[i].ip + Pow2(32 - c.t.ctrl.blockSize) - 1
    ensures c.t.ctrl.cluster.Contains(ip)
  {
    PoolInside(c.pools[i], c.t.issued[i], k);
    BlockPlace(c.t.ctrl.cluster, c.t.ctrl.blockSize, i);
  }

  lemma LiveUnique(c: Cluster, i: nat, k: string, j: nat, l: string, ip: uint32)
    requires ClusterInv(c) && Live(c, i, k, ip) && Live(c, j, l, ip)
    ensures i == j && k == l
  {
    LiveInside(c, i, k, ip);
    LiveInside(c, j, l, ip);
    if i < j {
      BlocksDisjoint(c.t.ctrl.cluster, c.t.ctrl.blockSize, i, j);
      BlockPlace(c.t.ctrl.cluster, c.t.ctrl.blockSize, i);
      BlockPlace(c.t.ctrl.cluster, c.t.ctrl.blockSize, j);
    } else if j < i {
      BlocksDisjoint(c.t.ctrl.cluster, c.t.ctrl.blockSize, j, i);
      BlockPlace(c.t.ctrl.cluster, c.t.ctrl.blockSize, i);
      BlockPlace(c.t.ctrl.cluster, c.t.ctrl.blockSize, j);
    } else {
      assert PoolOn(c.pools[i], c.t.issued[i]);
    }
  }

  /** Every live address is inside the cluster CIDR and strictly inside its block. */
  ghost predicate AllInside(c: Cluster) {
    && c.t.ctrl.blockSize <= 32
    && |c.pools| == |c.t.issued|
    && (forall i: nat, k, ip: uint32 | Live(c, i, k, ip) ::
          && c.t.ctrl.cluster.Contains(ip)
          && c.t.issued[i].ip < ip < c.t.issued[i].ip + Pow2(32 - c.t.ctrl.blockSize) - 1)
  }

  ghost predicate NoneShared(c: Cluster) {
    forall i: nat, k, j: nat, l, ip: uint32 | Live(c, i, k, ip) && Live(c, j, l, ip) :: i == j && k == l
  }

  lemma InvNoneShared(c: Cluster)
    requires ClusterInv(c)
    ensures NoneShared(c)
  {
    forall i: nat, k, j: nat, l, ip: uint32 | Live(c, i, k, ip) && Live(c, j, l, ip)
      ensures i == j && k == l
    {
      LiveUnique(c, i, k, j, l, ip);
    }
  }

  lemma InvAllInside(c: Cluster)
    requires ClusterInv(c)
    ensures AllInside(c)
  {
    forall i: nat, k, ip: uint32 | Live(c, i, k, ip)
      ensures c.t.ctrl.cluster.Contains(ip)
      ensures c.t.issued[i].ip < ip < c.t.issued[i].ip + Pow2(32 - c.t.ctrl.blockSize) - 1
    {
      LiveInside(c, i, k, ip);
    }
  }

  /** Over any run of block assignment and per-block allocation, no two pods of the cluster ever hold
      the same address, and no pod holds the network or broadcast address of its block. */
  lemma ClusterAddressesUnique(cluster: Cidr, blockSize: nat, ops: seq<ClusterOp>)
    requires cluster.ones <= blockSize <= 32
    ensures var c := ClusterRun(Cluster(Start(cluster, blockSize), []), ops);
            AllInside(c) && NoneShared(c) && c.t.ctrl.cluster == cluster && c.t.ctrl.blockSize == blockSize
  {
    var start := Cluster(Start(cluster, blockSize), []);
    ClusterRunInv(start, ops);
    InvAllInside(ClusterRun(start, ops));
    InvNoneShared(ClusterRun(start, ops));
  }
}
