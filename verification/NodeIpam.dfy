/** The per-node bitmap allocator (pkg/ipam/ipam.go). */
module NodeIpam {
  import opened Base

  datatype Record = Record(ip: uint32, podName: string, podNamespace: string)

  function PodKey(podName: string, podNamespace: string): string {
    podName + "/" + podNamespace
  }

  /** Pod names hold no slash, so different pods have different keys. */
  lemma PodKeyExact(n: string, ns: string, m: string, ms: string)
    requires '/' !in n && '/' !in m
    ensures PodKey(n, ns) == PodKey(m, ms) <==> n == m && ns == ms
  {
    if PodKey(n, ns) == PodKey(m, ms) {
      CutOnce('/', n, ns, m, ms);
    }
  }

  /** The value of an allocator: its first address, one bit per address, and the records by pod key. */
  datatype Pool = Pool(base: uint32, bitmap: seq<bool>, records: map<string, Record>)

  /** The block ends at or before the last IPv4 address, as every CIDR does. */
  predicate Shaped(p: Pool) {
    1 <= |p.bitmap| <= TWO32 - p.base
  }

  function Fresh(cidr: Cidr): (p: Pool)
    ensures Valid(p)
  {
    CidrFits(cidr);
    Pool(cidr.ip, seq(cidr.Size(), _ => false), map[])
  }

  /** 32-bit address arithmetic of the source, wrap-around included. */
  function Address(base: uint32, i: nat): uint32 {
    (base + i) % TWO32
  }

  function Offset(base: uint32, ip: uint32): uint32 {
    (ip - base) % TWO32
  }

  /** The first clear bit at or after i and before the broadcast address; |bitmap| or more means none. */
  function FirstFree(bitmap: seq<bool>, i: nat): (r: nat)
    ensures i <= r
    ensures r + 1 < |bitmap| ==> !bitmap[r]
    ensures forall j | i <= j < r && j + 1 < |bitmap| :: bitmap[j]
    decreases |bitmap| - i
  {
    if i + 1 >= |bitmap| then i
    else if !bitmap[i] then i
    else FirstFree(bitmap, i + 1)
  }

  lemma {:induction false} FirstFreeIs(bitmap: seq<bool>, i: nat, k: nat)
    requires i <= k && forall j | i <= j < k && j + 1 < |bitmap| :: bitmap[j]
    ensures k + 1 < |bitmap| && !bitmap[k] ==> FirstFree(bitmap, i) == k
    ensures k + 1 >= |bitmap| ==> FirstFree(bitmap, i) + 1 >= |bitmap|
    decreases k - i
  {
    if i < k {
      FirstFreeIs(bitmap, i + 1, k);
    }
  }

  function Allocated(p: Pool, podName: string, podNamespace: string): (Pool, Option<uint32>) {
    var key := PodKey(podName, podNamespace);
    if key in p.records then (p, Some(p.records[key].ip))
    else
      var i := FirstFree(p.bitmap, 1);
      if i + 1 < |p.bitmap| then
        var ip := Address(p.base, i);
        (Pool(p.base, p.bitmap[i := true], p.records[key := Record(ip, podName, podNamespace)]), Some(ip))
      else (p, None)
  }

  function ClearBit(bitmap: seq<bool>, i: nat): seq<bool> {
    if i < |bitmap| then bitmap[i := false] else bitmap
  }

  function Released(p: Pool, key: string): Pool {
    if key !in p.records then p
    else Pool(p.base, ClearBit(p.bitmap, Offset(p.base, p.records[key].ip)), p.records - {key})
  }

  ghost predicate OrphanAt(p: Pool, gone: set<string>, i: int) {
    exists k :: k in p.records && k in gone && Offset(p.base, p.records[k].ip) == i
  }

  /** The pool without the records of `gone`, their bits cleared. */
  ghost function Dropped(p: Pool, gone: set<string>): Pool {
    Pool(p.base,
         seq(|p.bitmap|, i requires 0 <= i < |p.bitmap| => p.bitmap[i] && !OrphanAt(p, gone, i)),
         p.records - gone)
  }

  /** What Reconcile leaves: the records of active pods, with the bits of all others cleared. */
  ghost function Retained(p: Pool, active: set<string>): Pool {
    Dropped(p, p.records.Keys - active)
  }

  /** The addresses Reconcile frees. */
  ghost function OrphanIPs(p: Pool, active: set<string>): set<uint32> {
    set k | k in p.records && k !in active :: p.records[k].ip
  }

  /** Clear bits among the usable offsets i .. size-2. */
  function Free(bitmap: seq<bool>, i: nat): nat
    decreases |bitmap| - i
  {
    if i + 1 >= |bitmap| then 0
    else (if bitmap[i] then 0 else 1) + Free(bitmap, i + 1)
  }

  function Usable(size: nat): nat {
    if size <= 2 then 0 else size - 2
  }

  // ---------------------------------------------------------------- invariant

  /** A record sits strictly inside the block, and its bit is set. */
  predicate RecordOk(p: Pool, k: string)
    requires k in p.records
  {
    var i := p.records[k].ip - p.base;
    1 <= i < |p.bitmap| - 1 && p.bitmap[i]
  }

  ghost predicate Held(p: Pool, ip: int) {
    exists k :: k in p.records && p.records[k].ip == ip
  }

  ghost predicate DistinctIPs(p: Pool) {
    forall k, l | k in p.records && l in p.records && p.records[k].ip == p.records[l].ip :: k == l
  }

  ghost predicate RecordsOk(p: Pool) {
    forall k | k in p.records :: RecordOk(p, k)
  }

  ghost predicate BitsHeld(p: Pool) {
    forall a | 0 <= a - p.base < |p.bitmap| && p.bitmap[a - p.base] :: Held(p, a)
  }

  /** The bitmap and the record map agree: bit i is set exactly when one record holds base + i. */
  ghost predicate Valid(p: Pool) {
    Shaped(p) && RecordsOk(p) && DistinctIPs(p) && BitsHeld(p)
  }

  /** Inside a block the 32-bit additions and subtractions of the source never wrap. */
  lemma NoWrap(base: uint32, i: nat)
    requires base + i < TWO32
    ensures Address(base, i) == base + i && Offset(base, base + i) == i
  {
  }

  lemma BitIsRecord(p: Pool, a: int)
    requires RecordsOk(p) && BitsHeld(p) && 0 <= a - p.base < |p.bitmap|
    ensures p.bitmap[a - p.base] <==> Held(p, a)
    ensures Held(p, a) ==> 1 <= a - p.base < |p.bitmap| - 1
  {
    if Held(p, a) {
      var k :| k in p.records && p.records[k].ip == a;
      assert RecordOk(p, k);
    }
  }

  /** Placing a record at a clear usable offset. */
  function Placed(p: Pool, key: string, i: nat, r: Record): Pool
    requires i < |p.bitmap|
  {
    Pool(p.base, p.bitmap[i := true], p.records[key := r])
  }

  lemma PlacedDistinct(p: Pool, key: string, i: nat, r: Record)
    requires RecordsOk(p) && DistinctIPs(p)
    requires key !in p.records && 1 <= i < |p.bitmap| - 1 && !p.bitmap[i] && r.ip == p.base + i
    ensures DistinctIPs(Placed(p, key, i, r))
  {
    var q := Placed(p, key, i, r);
    forall k, l | k in q.records && l in q.records && q.records[k].ip == q.records[l].ip
      ensures k == l
    {
      assert k == key || RecordOk(p, k);
      assert l == key || RecordOk(p, l);
    }
  }

  lemma PlacedHeld(p: Pool, key: string, i: nat, r: Record)
    requires BitsHeld(p) && key !in p.records && i < |p.bitmap| && r.ip == p.base + i
    ensures BitsHeld(Placed(p, key, i, r))
  {
    var q := Placed(p, key, i, r);
    forall a | 0 <= a - q.base < |q.bitmap| && q.bitmap[a - q.base]
      ensures Held(q, a)
    {
      if a == r.ip {
        assert key in q.records && q.records[key].ip == a;
      } else {
        assert Held(p, a);
        var k :| k in p.records && p.records[k].ip == a;
        assert k in q.records && q.records[k] == p.records[k];
      }
    }
  }

  lemma AllocatedValid(p: Pool, podName: string, podNamespace: string)
    requires Valid(p)
    ensures var q := Allocated(p, podName, podNamespace).0;
            Valid(q) && q.base == p.base && |q.bitmap| == |p.bitmap|
  {
    var key := PodKey(podName, podNamespace);
    var i := FirstFree(p.bitmap, 1);
    if key !in p.records && i + 1 < |p.bitmap| {
      NoWrap(p.base, i);
      var r := Record(p.base + i, podName, podNamespace);
      PlacedDistinct(p, key, i, r);
      PlacedHeld(p, key, i, r);
      assert Allocated(p, podName, podNamespace).0 == Placed(p, key, i, r);
    }
  }

  /** Removing a key: Released, and each step of Reconcile, on a valid pool. */
  function Removed(p: Pool, key: string): Pool
    requires key in p.records && RecordOk(p, key)
  {
    Pool(p.base, p.bitmap[p.records[key].ip - p.base := false], p.records - {key})
  }

  lemma RemovedRecords(p: Pool, key: string)
    requires RecordsOk(p) && DistinctIPs(p) && key in p.records && RecordOk(p, key)
    ensures RecordsOk(Removed(p, key)) && DistinctIPs(Removed(p, key))
  {
    forall k | k in Removed(p, key).records
      ensures RecordOk(Removed(p, key), k)
    {
      assert RecordOk(p, k);
    }
  }

  lemma RemovedHeld(p: Pool, key: string)
    requires BitsHeld(p) && key in p.records && RecordOk(p, key)
    ensures BitsHeld(Removed(p, key))
  {
    var q := Removed(p, key);
    forall a | 0 <= a - q.base < |q.bitmap| && q.bitmap[a - q.base]
      ensures Held(q, a)
    {
      assert Held(p, a);
      var k :| k in p.records && p.records[k].ip == a;
      assert k in q.records && q.records[k] == p.records[k];
    }
  }

  lemma ReleasedValid(p: Pool, key: string)
    requires Valid(p)
    ensures var q := Released(p, key);
            Valid(q) && q.base == p.base && |q.bitmap| == |p.bitmap|
    ensures key in p.records ==> RecordOk(p, key) && Released(p, key) == Removed(p, key)
  {
    if key in p.records {
      assert RecordOk(p, key);
      NoWrap(p.base, p.records[key].ip - p.base);
      RemovedRecords(p, key);
      RemovedHeld(p, key);
    }
  }

  lemma DroppedRecords(p: Pool, gone: set<string>)
    requires Shaped(p) && RecordsOk(p) && DistinctIPs(p)
    ensures RecordsOk(Dropped(p, gone)) && DistinctIPs(Dropped(p, gone))
  {
    var q := Dropped(p, gone);
    forall k | k in q.records
      ensures RecordOk(q, k)
    {
      var i := p.records[k].ip - p.base;
      assert RecordOk(p, k);
      assert !OrphanAt(p, gone, i);
    }
  }

  lemma DroppedHeld(p: Pool, gone: set<string>)
    requires Shaped(p) && BitsHeld(p)
    ensures BitsHeld(Dropped(p, gone))
  {
    var q := Dropped(p, gone);
    forall a | 0 <= a - q.base < |q.bitmap| && q.bitmap[a - q.base]
      ensures Held(q, a)
    {
      assert Held(p, a);
      var k :| k in p.records && p.records[k].ip == a;
      NoWrap(p.base, a - p.base);
      assert !OrphanAt(p, gone, a - p.base);
      assert k in q.records && q.records[k] == p.records[k];
    }
  }

  lemma RetainedValid(p: Pool, active: set<string>)
    requires Valid(p)
    ensures var q := Retained(p, active);
            Valid(q) && q.base == p.base && |q.bitmap| == |p.bitmap|
  {
    DroppedRecords(p, p.records.Keys - active);
    DroppedHeld(p, p.records.Keys - active);
  }

  // ---------------------------------------------------------------- conservation

  lemma {:induction false} FreeAllClear(bitmap: seq<bool>, i: nat)
    requires forall j | i <= j < |bitmap| :: !bitmap[j]
    ensures Free(bitmap, i) == if i + 1 >= |bitmap| then 0 else |bitmap| - 1 - i
    decreases |bitmap| - i
  {
    if i + 1 < |bitmap| {
      FreeAllClear(bitmap, i + 1);
    }
  }

  lemma {:induction false} FreeClearOne(bitmap: seq<bool>, i: nat, k: nat)
    requires k + 1 < |bitmap| && bitmap[k]
    ensures Free(bitmap[k := false], i) == Free(bitmap, i) + if i <= k then 1 else 0
    decreases |bitmap| - i
  {
    if i + 1 < |bitmap| {
      FreeClearOne(bitmap, i + 1, k);
    }
  }

  lemma EmptyPoolClear(p: Pool)
    requires BitsHeld(p) && p.records == map[]
    ensures forall j | 0 <= j < |p.bitmap| :: !p.bitmap[j]
  {
    forall j | 0 <= j < |p.bitmap|
      ensures !p.bitmap[j]
    {
      assert p.bitmap[j] ==> Held(p, p.base + j);
    }
  }

  /** Every usable address is either free or held by exactly one record. */
  lemma {:induction false} Conservation(p: Pool)
    requires Valid(p)
    ensures Free(p.bitmap, 1) + |p.records| == Usable(|p.bitmap|)
    decreases |p.records|
  {
    if p.records == map[] {
      EmptyPoolClear(p);
      FreeAllClear(p.bitmap, 1);
    } else {
      var k :| k in p.records;
      ReleasedValid(p, k);
      var q := Removed(p, k);
      MapRemoveSize(p.records, k);
      Conservation(q);
      FreeClearOne(p.bitmap, 1, p.records[k].ip - p.base);
    }
  }

  lemma MapRemoveSize<K, V>(m: map<K, V>, k: K)
    requires k in m
    ensures |m - {k}| == |m| - 1
  {
    assert (m - {k}).Keys == m.Keys - {k};
  }

  lemma {:induction false} FreeIsZero(bitmap: seq<bool>, i: nat)
    ensures Free(bitmap, i) == 0 <==> FirstFree(bitmap, i) + 1 >= |bitmap|
    decreases |bitmap| - i
  {
    if i + 1 < |bitmap| {
      FreeIsZero(bitmap, i + 1);
    }
  }

  /** A new key is refused exactly when every usable address is recorded, and otherwise gets the least free one. */
  lemma AllocatedExact(p: Pool, podName: string, podNamespace: string)
    requires Valid(p) && PodKey(podName, podNamespace) !in p.records
    ensures var (q, ip) := Allocated(p, podName, podNamespace);
            && (ip.None? <==> |p.records| == Usable(|p.bitmap|))
            && (ip.None? ==> q == p)
            && (ip.Some? ==>
                  && 1 <= ip.value - p.base < |p.bitmap| - 1
                  && !Held(p, ip.value)
                  && (forall a | p.base < a < ip.value :: Held(p, a))
                  && q.records == p.records[PodKey(podName, podNamespace) := Record(ip.value, podName, podNamespace)])
  {
    Conservation(p);
    FreeIsZero(p.bitmap, 1);
    var i := FirstFree(p.bitmap, 1);
    if i + 1 < |p.bitmap| {
      NoWrap(p.base, i);
      BitIsRecord(p, p.base + i);
      forall a | p.base < a < p.base + i
        ensures Held(p, a)
      {
        BitIsRecord(p, a);
      }
    }
  }

  /** Allocating and then releasing a new key is the identity on bitmap and records. */
  lemma AllocateReleaseInverse(p: Pool, podName: string, podNamespace: string)
    requires Valid(p) && PodKey(podName, podNamespace) !in p.records
    ensures Released(Allocated(p, podName, podNamespace).0, PodKey(podName, podNamespace)) == p
  {
    var key := PodKey(podName, podNamespace);
    var i := FirstFree(p.bitmap, 1);
    if i + 1 < |p.bitmap| {
      NoWrap(p.base, i);
      var q := Allocated(p, podName, podNamespace).0;
      assert q.bitmap[i := false] == p.bitmap;
      assert q.records - {key} == p.records;
    }
  }

  /** A retained pool frees exactly the orphaned addresses and keeps every other one. */
  lemma RetainedExact(p: Pool, active: set<string>)
    requires Valid(p)
    ensures var q := Retained(p, active);
            && q.records.Keys == p.records.Keys * active
            && (forall ip: uint32 :: Held(p, ip) <==> Held(q, ip) || ip in OrphanIPs(p, active))
            && (forall ip: uint32 :: !(Held(q, ip) && ip in OrphanIPs(p, active)))
  {
    var q := Retained(p, active);
    forall ip: uint32
      ensures Held(p, ip) <==> Held(q, ip) || ip in OrphanIPs(p, active)
    {
      if Held(p, ip) {
        var k :| k in p.records && p.records[k].ip == ip;
        if k in active {
          assert k in q.records && q.records[k].ip == ip;
        }
      }
      if Held(q, ip) {
        var k :| k in q.records && q.records[k].ip == ip;
        assert k in p.records;
      }
    }
  }

  // ---------------------------------------------------------------- runs

  datatype Op =
    | Allocate(podName: string, podNamespace: string)
    | Release(podName: string, podNamespace: string)
    | Reconcile(active: set<string>)

  ghost function Step(p: Pool, op: Op): Pool {
    match op
    case Allocate(n, ns) => Allocated(p, n, ns).0
    case Release(n, ns) => Released(p, PodKey(n, ns))
    case Reconcile(active) => Retained(p, active)
  }

  ghost function Run(p: Pool, ops: seq<Op>): Pool {
    if ops == [] then p else Step(Run(p, ops[..|ops| - 1]), ops[|ops| - 1])
  }

  lemma StepValid(p: Pool, op: Op)
    requires Valid(p)
    ensures Valid(Step(p, op)) && Step(p, op).base == p.base && |Step(p, op).bitmap| == |p.bitmap|
  {
    match op
    case Allocate(n, ns) => AllocatedValid(p, n, ns);
    case Release(n, ns) => ReleasedValid(p, PodKey(n, ns));
    case Reconcile(active) => RetainedValid(p, active);
  }

  lemma {:induction false} RunFrom(p: Pool, ops: seq<Op>)
    requires Valid(p)
    ensures Valid(Run(p, ops)) && Run(p, ops).base == p.base && |Run(p, ops).bitmap| == |p.bitmap|
    decreases |ops|
  {
    if ops != [] {
      RunFrom(p, ops[..|ops| - 1]);
      StepValid(Run(p, ops[..|ops| - 1]), ops[|ops| - 1]);
    }
  }

  /** What a valid pool says of its block: an address inside it has its bit set exactly when a record
      holds it, and the network and broadcast addresses are held by nobody. */
  ghost predicate Exact(p: Pool) {
    && DistinctIPs(p)
    && (forall a | 0 <= a - p.base < |p.bitmap| :: p.bitmap[a - p.base] <==> Held(p, a))
    && (forall a | Held(p, a) :: p.base < a < p.base + |p.bitmap| - 1)
    && Free(p.bitmap, 1) + |p.records| == Usable(|p.bitmap|)
  }

  lemma ValidExact(p: Pool)
    requires Valid(p)
    ensures Exact(p)
  {
    forall a | 0 <= a - p.base < |p.bitmap|
      ensures p.bitmap[a - p.base] <==> Held(p, a)
    {
      BitIsRecord(p, a);
    }
    forall a | Held(p, a)
      ensures p.base < a < p.base + |p.bitmap| - 1
    {
      var k :| k in p.records && p.records[k].ip == a;
      assert RecordOk(p, k);
    }
    Conservation(p);
  }

  /** After any run from a fresh allocator the bitmap and the records agree exactly, and free plus
      recorded addresses make up the usable block. */
  lemma RunSafe(cidr: Cidr, ops: seq<Op>)
    ensures var p := Run(Fresh(cidr), ops);
            p.base == cidr.ip && |p.bitmap| == cidr.Size() && Exact(p)
  {
    RunFrom(Fresh(cidr), ops);
    ValidExact(Run(Fresh(cidr), ops));
  }

  // ---------------------------------------------------------------- the mutable allocator

  class NodeAllocator {
    const baseIP: uint32
    const bitmap: array<bool>
    var records: map<string, Record>

    ghost function Model(): Pool
      reads this, bitmap
    {
      Pool(baseIP, bitmap[..], records)
    }

    constructor (podCIDR: Cidr)
      ensures Model() == Fresh(podCIDR) && fresh(bitmap)
    {
      baseIP := podCIDR.ip;
      bitmap := new bool[podCIDR.Size()](_ => false);
      records := map[];
      new;
      assert Model().bitmap == Fresh(podCIDR).bitmap;
    }

    method Allocate(podName: string, podNamespace: string) returns (ip: Option<uint32>)
      modifies this, bitmap
      ensures (Model(), ip) == Allocated(old(Model()), podName, podNamespace)
    {
      var key := PodKey(podName, podNamespace);
      if key in records {
        return Some(records[key].ip);
      }
      var i := 0;
      while i < bitmap.Length
        invariant 0 <= i <= bitmap.Length
        invariant unchanged(this) && unchanged(bitmap)
        invariant forall j | 1 <= j < i && j + 1 < bitmap.Length :: bitmap[j]
      {
        if i == 0 || i == bitmap.Length - 1 {
          i := i + 1;
          continue;
        }
        if !bitmap[i] {
          FirstFreeIs(bitmap[..], 1, i);
          var a := Address(baseIP, i);
          bitmap[i] := true;
          records := records[key := Record(a, podName, podNamespace)];
          assert bitmap[..] == old(bitmap[..])[i := true];
          return Some(a);
        }
        i := i + 1;
      }
      if bitmap.Length > 0 {
        FirstFreeIs(bitmap[..], 1, bitmap.Length);
      }
      return None;
    }

    /** Clears the bit of a record and deletes it: the step Release and Reconcile share. */
    method Forget(key: string)
      requires key in records
      modifies this, bitmap
      ensures Model() == Pool(baseIP, ClearBit(old(bitmap[..]), Offset(baseIP, old(records)[key].ip)), old(records) - {key})
    {
      var offset := Offset(baseIP, records[key].ip);
      if offset < bitmap.Length {
        bitmap[offset] := false;
      }
      records := records - {key};
      assert Model().bitmap == ClearBit(old(bitmap[..]), offset);
    }

    method Release(podName: string, podNamespace: string)
      modifies this, bitmap
      ensures Model() == Released(old(Model()), PodKey(podName, podNamespace))
    {
      var key := PodKey(podName, podNamespace);
      if key in records {
        Forget(key);
      }
    }

    method IsAllocated(ip: uint32) returns (found: bool)
      ensures found <==> Held(Model(), ip)
    {
      var rest := records.Keys;
      found := false;
      while rest != {}
        invariant rest <= records.Keys
        invariant forall k | k in records && k !in rest :: records[k].ip != ip
        decreases |rest|
      {
        var k :| k in rest;
        if records[k].ip == ip {
          return true;
        }
        rest := rest - {k};
      }
    }

    method Available() returns (count: nat)
      ensures count == Free(bitmap[..], 1)
      ensures Valid(Model()) ==> count + |records| == Usable(bitmap.Length)
    {
      count := 0;
      var i := 1;
      while i < bitmap.Length - 1
        invariant 1 <= i
        invariant count + Free(bitmap[..], i) == Free(bitmap[..], 1)
      {
        if !bitmap[i] {
          count := count + 1;
        }
        i := i + 1;
      }
      if Valid(Model()) {
        Conservation(Model());
      }
    }

    /** The records of `gone` are forgotten, and `released` lists their addresses. */
    ghost predicate Swept(p: Pool, gone: set<string>, released: seq<uint32>)
      reads this, bitmap
    {
      forall u :: Unfold(u) ==> Model() == Dropped(p, gone) && Lists(released, p, gone)
    }

    method SweepOne(ghost p: Pool, ghost gone: set<string>, released: seq<uint32>, k: string) returns (more: seq<uint32>)
      requires k in p.records && k !in gone && Swept(p, gone, released)
      modifies this, bitmap
      ensures Swept(p, gone + {k}, more)
    {
      assert Unfold(Unit);
      ListsOneMore(released, p, gone, k);
      DropOneMore(p, gone, k);
      more := released + [records[k].ip];
      Forget(k);
    }

    /** Records are visited in an arbitrary order, as Go ranges over a map. */
    method Reconcile(active: set<string>) returns (released: seq<uint32>)
      modifies this, bitmap
      ensures Model() == Retained(old(Model()), active)
      ensures Lists(released, old(Model()), old(records).Keys - active)
    {
      ghost var p := Model();
      ghost var gone := {};
      released := [];
      var rest := records.Keys;
      DropNone(p);
      assert Swept(p, gone, released);
      while rest != {}
        invariant rest <= p.records.Keys && gone == p.records.Keys - rest - active
        invariant Swept(p, gone, released)
        decreases |rest|
      {
        var k :| k in rest;
        rest := rest - {k};
        if k !in active {
          released := SweepOne(p, gone, released, k);
          gone := gone + {k};
        }
      }
      assert gone == p.records.Keys - active;
      assert Unfold(Unit);
    }
  }

  /** `ips` are the addresses of the records of `keys`, each once when the pool holds each once. */
  ghost predicate Lists(ips: seq<uint32>, p: Pool, keys: set<string>) {
    && (forall ip: uint32 :: ip in ips <==> exists k :: k in keys && k in p.records && p.records[k].ip == ip)
    && (DistinctIPs(p) ==> forall i, j | 0 <= i < j < |ips| :: ips[i] != ips[j])
  }

  lemma ListsOneMore(ips: seq<uint32>, p: Pool, keys: set<string>, k: string)
    requires Lists(ips, p, keys) && k in p.records && k !in keys
    ensures Lists(ips + [p.records[k].ip], p, keys + {k})
  {
    var more := ips + [p.records[k].ip];
    forall ip: uint32
      ensures ip in more <==> exists l :: l in keys + {k} && l in p.records && p.records[l].ip == ip
    {
      if ip == p.records[k].ip {
        assert more[|ips|] == ip;
        assert k in keys + {k};
      } else {
        assert ip in more <==> ip in ips;
      }
    }
    assert DistinctIPs(p) ==> p.records[k].ip !in ips;
  }

  lemma DropNone(p: Pool)
    ensures Dropped(p, {}) == p
  {
    assert Dropped(p, {}).bitmap == p.bitmap;
    assert Dropped(p, {}).records == p.records;
  }

  lemma DropOneMore(p: Pool, gone: set<string>, k: string)
    requires k in p.records
    ensures Dropped(p, gone + {k}).bitmap == ClearBit(Dropped(p, gone).bitmap, Offset(p.base, p.records[k].ip))
    ensures Dropped(p, gone + {k}).records == Dropped(p, gone).records - {k}
  {
    var o := Offset(p.base, p.records[k].ip);
    var a, b := Dropped(p, gone + {k}).bitmap, ClearBit(Dropped(p, gone).bitmap, o);
    forall i | 0 <= i < |a|
      ensures a[i] == b[i]
    {
      assert OrphanAt(p, gone + {k}, i) <==> OrphanAt(p, gone, i) || i == o;
    }
  }
}
