/** Saving an allocator and replaying it into a fresh one (pkg/ipam/checkpoint.go). */
module Checkpoint {
  import opened Base
  import opened NodeIpam

  datatype Saved = Saved(podName: string, podNamespace: string, ip: uint32) {
    function Key(): string { PodKey(podName, podNamespace) }
  }

  function FirstSlash(key: string): (i: nat)
    ensures i <= |key|
    ensures i < |key| ==> key[i] == '/'
    ensures '/' !in key[..i]
    ensures '/' in key ==> i < |key|
  {
    if key == "" then 0
    else if key[0] == '/' then 0
    else
      var i := 1 + FirstSlash(key[1..]);
      assert key[..i] == [key[0]] + key[1..][..i - 1];
      i
  }

  /** strings.SplitN(key, "/", 2), with an empty namespace when there is no slash. */
  function SplitKey(key: string): (string, string) {
    var i := FirstSlash(key);
    (key[..i], if i < |key| then key[i + 1..] else "")
  }

  /** Splitting at the first slash and rejoining gives the key back exactly when it has a slash. */
  lemma SplitThenJoin(key: string)
    ensures PodKey(SplitKey(key).0, SplitKey(key).1) == key <==> '/' in key
  {
    var i := FirstSlash(key);
    if '/' in key {
      assert key == key[..i] + "/" + key[i + 1..];
    } else {
      var joined := PodKey(SplitKey(key).0, SplitKey(key).1);
      assert joined[i] == '/';
    }
  }

  /** A saved pod is the pod it was: names hold no slash, namespaces may. */
  lemma SplitPodKey(podName: string, podNamespace: string)
    requires '/' !in podName
    ensures SplitKey(PodKey(podName, podNamespace)) == (podName, podNamespace)
  {
    var key := PodKey(podName, podNamespace);
    var i := FirstSlash(key);
    assert key[|podName|] == '/';
    assert key == key[..i] + ['/'] + key[i + 1..];
    CutOnce('/', key[..i], key[i + 1..], podName, podNamespace);
  }

  // ---------------------------------------------------------------- keys always carry a slash

  ghost predicate SlashKeys(p: Pool) {
    forall k | k in p.records :: '/' in k
  }

  lemma StepSlashKeys(p: Pool, op: Op)
    requires SlashKeys(p)
    ensures SlashKeys(Step(p, op))
  {
    if op.Allocate? {
      var key := PodKey(op.podName, op.podNamespace);
      assert key[|op.podName|] == '/';
    }
  }

  lemma {:induction false} RunSlashKeys(cidr: Cidr, ops: seq<Op>)
    ensures SlashKeys(Run(Fresh(cidr), ops))
    decreases |ops|
  {
    if ops != [] {
      RunSlashKeys(cidr, ops[..|ops| - 1]);
      StepSlashKeys(Run(Fresh(cidr), ops[..|ops| - 1]), ops[|ops| - 1]);
    }
  }

  // ---------------------------------------------------------------- save

  ghost predicate DistinctKeys(rs: seq<Saved>) {
    forall i, j | 0 <= i < j < |rs| :: rs[i].Key() != rs[j].Key()
  }

  ghost function Keys(rs: seq<Saved>): set<string> {
    set r | r in rs :: r.Key()
  }

  lemma KeysAppend(rs: seq<Saved>, r: Saved)
    ensures Keys(rs + [r]) == Keys(rs) + {r.Key()}
  {
    assert forall x :: x in rs + [r] <==> x in rs || x == r;
  }

  /** `rs` lists each key of `keys` once, with the address its record holds. */
  ghost predicate Lists(rs: seq<Saved>, p: Pool, keys: set<string>) {
    && DistinctKeys(rs)
    && Keys(rs) == keys
    && (forall i | 0 <= i < |rs| :: rs[i].Key() in p.records && p.records[rs[i].Key()].ip == rs[i].ip)
  }

  /** A checkpoint of the pool, in whatever order the map was ranged over. */
  ghost predicate Snapshot(rs: seq<Saved>, p: Pool) {
    Lists(rs, p, p.records.Keys)
  }

  lemma ListsOneMore(rs: seq<Saved>, p: Pool, keys: set<string>, r: Saved)
    requires Lists(rs, p, keys)
    requires r.Key() !in keys && r.Key() in p.records && p.records[r.Key()].ip == r.ip
    ensures Lists(rs + [r], p, keys + {r.Key()})
  {
    KeysAppend(rs, r);
    assert forall i | 0 <= i < |rs| :: rs[i].Key() in keys;
  }

  /** The record written for a key. */
  function SavedOf(p: Pool, k: string): Saved
    requires k in p.records
  {
    Saved(SplitKey(k).0, SplitKey(k).1, p.records[k].ip)
  }

  ghost predicate Distinct(order: seq<string>) {
    forall i, j | 0 <= i < j < |order| :: order[i] != order[j]
  }

  /** `rs` are the records of the keys of `order`, one by one. */
  ghost predicate Written(rs: seq<Saved>, p: Pool, order: seq<string>) {
    && |rs| == |order| && Distinct(order)
    && (forall i | 0 <= i < |order| :: order[i] in p.records && rs[i] == SavedOf(p, order[i]))
  }

  lemma SavedOfKey(p: Pool, k: string)
    requires k in p.records && '/' in k
    ensures SavedOf(p, k).Key() == k && SavedOf(p, k).ip == p.records[k].ip
  {
    SplitThenJoin(k);
  }

  lemma WrittenPrefix(rs: seq<Saved>, p: Pool, order: seq<string>)
    requires Written(rs, p, order) && order != []
    ensures var n := |order| - 1;
            && Written(rs[..n], p, order[..n]) && order[n] !in Elements(order[..n])
            && order[n] in p.records && rs[n] == SavedOf(p, order[n])
  {
  }

  /** When every key has a slash, the written records are a snapshot. */
  lemma {:induction false} WrittenLists(rs: seq<Saved>, p: Pool, order: seq<string>)
    requires Written(rs, p, order) && SlashKeys(p)
    ensures Lists(rs, p, Elements(order))
    decreases |order|
  {
    if order == [] {
      assert Keys(rs) == {};
    } else {
      var n := |order| - 1;
      WrittenPrefix(rs, p, order);
      WrittenLists(rs[..n], p, order[..n]);
      SavedOfKey(p, order[n]);
      ListsOneMore(rs[..n], p, Elements(order[..n]), rs[n]);
      ElementsSnoc(order[..n], order[n]);
      assert rs[..n] + [rs[n]] == rs && order[..n] + [order[n]] == order;
    }
  }

  /** Keys are met in an arbitrary order. */
  method Save(a: NodeAllocator) returns (rs: seq<Saved>, ghost order: seq<string>)
    ensures Written(rs, a.Model(), order) && Elements(order) == a.records.Keys
    ensures SlashKeys(a.Model()) ==> Snapshot(rs, a.Model())
  {
    var rest := a.records.Keys;
    order, rs := [], [];
    while rest != {}
      invariant forall k :: k in order <==> k in a.records && k !in rest
      invariant rest <= a.records.Keys && Written(rs, a.Model(), order)
      decreases |rest|
    {
      var k :| k in rest;
      rest := rest - {k};
      var (podName, podNamespace) := SplitKey(k);
      rs := rs + [Saved(podName, podNamespace, a.records[k].ip)];
      order := order + [k];
    }
    assert Elements(order) == a.records.Keys;
    if SlashKeys(a.Model()) {
      WrittenLists(rs, a.Model(), order);
    }
  }

  /** A snapshot has as many entries as the pool has records. */
  lemma {:induction false} ListsSize(rs: seq<Saved>, p: Pool, keys: set<string>)
    requires Lists(rs, p, keys)
    ensures |rs| == |keys|
    decreases |rs|
  {
    if rs == [] {
      assert keys == {};
    } else {
      var n := |rs| - 1;
      KeysAppend(rs[..n], rs[n]);
      assert rs[..n] + [rs[n]] == rs;
      LastKeyNew(rs);
      ListsSize(rs[..n], p, keys - {rs[n].Key()});
    }
  }

  lemma LastKeyNew(rs: seq<Saved>)
    requires DistinctKeys(rs) && rs != []
    ensures rs[|rs| - 1].Key() !in Keys(rs[..|rs| - 1])
  {
  }

  // ---------------------------------------------------------------- restore

  /** Restore: allocate record by record; the flag is false when an allocation failed. */
  function Restored(p: Pool, rs: seq<Saved>): (Pool, bool) {
    if rs == [] then (p, true)
    else
      var (q, ok) := Restored(p, rs[..|rs| - 1]);
      var r := rs[|rs| - 1];
      if !ok then (q, false)
      else
        var (q', ip) := Allocated(q, r.podName, r.podNamespace);
        (q', ip.Some?)
  }

  lemma {:induction false} RestoredValid(p: Pool, rs: seq<Saved>)
    requires Valid(p)
    ensures var q := Restored(p, rs).0;
            Valid(q) && q.base == p.base && |q.bitmap| == |p.bitmap|
    decreases |rs|
  {
    if rs != [] {
      var r := rs[|rs| - 1];
      RestoredValid(p, rs[..|rs| - 1]);
      AllocatedValid(Restored(p, rs[..|rs| - 1]).0, r.podName, r.podNamespace);
    }
  }

  lemma RestoredPrefixFails(p: Pool, rs: seq<Saved>, n: nat)
    requires n <= |rs| && !Restored(p, rs[..n]).1
    ensures Restored(p, rs) == Restored(p, rs[..n])
    decreases |rs|
  {
    if n == |rs| {
      assert rs[..n] == rs;
    } else {
      assert rs[..|rs| - 1][..n] == rs[..n];
      RestoredPrefixFails(p, rs[..|rs| - 1], n);
    }
  }

  method Restore(a: NodeAllocator, rs: seq<Saved>) returns (ok: bool)
    modifies a, a.bitmap
    ensures (a.Model(), ok) == Restored(old(a.Model()), rs)
  {
    var i := 0;
    while i < |rs|
      invariant 0 <= i <= |rs|
      invariant (a.Model(), true) == Restored(old(a.Model()), rs[..i])
    {
      assert rs[..i + 1][..i] == rs[..i];
      var ip := a.Allocate(rs[i].podName, rs[i].podNamespace);
      if ip.None? {
        RestoredPrefixFails(old(a.Model()), rs, i + 1);
        return false;
      }
      i := i + 1;
    }
    assert rs[..i] == rs;
    return true;
  }

  /** The pool that holds record i of rs at offset i + 1, and nothing else. */
  ghost predicate Packed(p: Pool, cidr: Cidr, rs: seq<Saved>) {
    && p.base == cidr.ip
    && |p.bitmap| == cidr.Size()
    && (forall i | 0 <= i < |p.bitmap| :: p.bitmap[i] <==> 1 <= i <= |rs|)
    && (forall i | 0 <= i < |rs| :: rs[i].Key() in p.records && p.records[rs[i].Key()].ip == cidr.ip + 1 + i)
    && p.records.Keys == Keys(rs)
  }

  lemma PackedNext(p: Pool, cidr: Cidr, rs: seq<Saved>, r: Saved)
    requires Packed(p, cidr, rs) && |rs| < Usable(cidr.Size())
    requires r.Key() !in p.records
    ensures var (q, ip) := Allocated(p, r.podName, r.podNamespace);
            ip == Some(cidr.ip + 1 + |rs|) && Packed(q, cidr, rs + [r])
  {
    var n := |rs|;
    CidrFits(cidr);
    FirstFreeIs(p.bitmap, 1, n + 1);
    NoWrap(p.base, n + 1);
    var q := Allocated(p, r.podName, r.podNamespace).0;
    KeysAppend(rs, r);
    assert q.records.Keys == p.records.Keys + {r.Key()};
    assert forall i | 0 <= i < n :: rs[i].Key() in Keys(rs);
  }

  /** The entries that are not repeats of an earlier key. */
  function Firsts(rs: seq<Saved>): seq<Saved> {
    if rs == [] then []
    else
      var before := Firsts(rs[..|rs| - 1]);
      var r := rs[|rs| - 1];
      if Listed(before, r.Key()) then before else before + [r]
  }

  predicate Listed(rs: seq<Saved>, key: string) {
    exists r | r in rs :: r.Key() == key
  }

  /** The entries a block with room for n addresses takes in: the first n new keys. */
  function Taken(rs: seq<Saved>, n: nat): seq<Saved> {
    if |Firsts(rs)| <= n then Firsts(rs) else Firsts(rs)[..n]
  }

  /** Replaying any records into a fresh block packs the new keys from offset 1, in order, as many as
      there is room for; it fails exactly when there are more of them. */
  lemma {:induction false} RestorePacks(cidr: Cidr, rs: seq<Saved>)
    ensures var (q, ok) := Restored(Fresh(cidr), rs);
            && (ok <==> |Firsts(rs)| <= Usable(cidr.Size()))
            && Packed(q, cidr, Taken(rs, Usable(cidr.Size())))
    decreases |rs|
  {
    if rs != [] {
      var n, r := |rs| - 1, rs[|rs| - 1];
      var room := Usable(cidr.Size());
      RestorePacks(cidr, rs[..n]);
      var (q, ok) := Restored(Fresh(cidr), rs[..n]);
      var taken := Taken(rs[..n], room);
      if ok {
        if Listed(Firsts(rs[..n]), r.Key()) {
          assert r.Key() in Keys(taken);
        } else if |taken| < room {
          PackedNext(q, cidr, taken, r);
        } else {
          PackedFull(q, cidr, taken, r);
          assert (Firsts(rs[..n]) + [r])[..room] == taken;
        }
      } else if !Listed(Firsts(rs[..n]), r.Key()) {
        assert (Firsts(rs[..n]) + [r])[..room] == taken;
      }
    }
  }

  lemma PackedFull(p: Pool, cidr: Cidr, rs: seq<Saved>, r: Saved)
    requires Packed(p, cidr, rs) && |rs| == Usable(cidr.Size()) && r.Key() !in p.records
    ensures Allocated(p, r.podName, r.podNamespace) == (p, None)
  {
    FirstFreeIs(p.bitmap, 1, |rs| + 1);
  }

  /** Without repeats nothing is left out. */
  lemma {:induction false} FirstsDistinct(rs: seq<Saved>)
    requires DistinctKeys(rs)
    ensures Firsts(rs) == rs
    decreases |rs|
  {
    if rs != [] {
      var n := |rs| - 1;
      FirstsDistinct(rs[..n]);
      LastKeyNew(rs);
      assert rs[..n] + [rs[n]] == rs;
    }
  }

  lemma RestoreDistinct(cidr: Cidr, rs: seq<Saved>)
    requires DistinctKeys(rs) && |rs| <= Usable(cidr.Size())
    ensures Restored(Fresh(cidr), rs).1 && Packed(Restored(Fresh(cidr), rs).0, cidr, rs)
  {
    RestorePacks(cidr, rs);
    FirstsDistinct(rs);
  }

  lemma {:induction false} FirstsKeys(rs: seq<Saved>)
    ensures DistinctKeys(Firsts(rs))
    ensures rs != [] ==> Firsts(rs) != [] && Firsts(rs)[0] == rs[0]
    decreases |rs|
  {
    if rs != [] {
      FirstsKeys(rs[..|rs| - 1]);
    }
  }

  ghost predicate SameAddresses(p: Pool, q: Pool) {
    && q.records.Keys == p.records.Keys
    && (forall k | k in p.records :: q.records[k].ip == p.records[k].ip)
  }

  ghost predicate InOrder(rs: seq<Saved>, base: uint32) {
    forall i | 0 <= i < |rs| :: rs[i].ip == base + 1 + i
  }

  lemma PackedMatches(p: Pool, q: Pool, cidr: Cidr, rs: seq<Saved>)
    requires Packed(q, cidr, rs) && Snapshot(rs, p)
    ensures SameAddresses(p, q) <==> InOrder(rs, cidr.ip)
  {
    if InOrder(rs, cidr.ip) {
      forall k | k in p.records
        ensures q.records[k].ip == p.records[k].ip
      {
        var r :| r in rs && r.Key() == k;
        var i :| 0 <= i < |rs| && rs[i] == r;
      }
    }
    if SameAddresses(p, q) {
      forall i | 0 <= i < |rs|
        ensures rs[i].ip == cidr.ip + 1 + i
      {
        assert rs[i].Key() in p.records;
      }
    }
  }

  /** A restart: save in any order, restore into a fresh allocator of the same block. The restore never
      fails, keeps the key set, occupies exactly offsets 1..n, and reproduces every address exactly
      when entry i of the checkpoint already held offset i + 1. */
  lemma SaveRestore(cidr: Cidr, p: Pool, rs: seq<Saved>)
    requires Valid(p) && p.base == cidr.ip && |p.bitmap| == cidr.Size()
    requires Snapshot(rs, p)
    ensures var (q, ok) := Restored(Fresh(cidr), rs);
            && ok
            && q.records.Keys == p.records.Keys
            && (forall i | 0 <= i < |q.bitmap| :: q.bitmap[i] <==> 1 <= i <= |p.records|)
            && (SameAddresses(p, q) <==> InOrder(rs, cidr.ip))
  {
    ListsSize(rs, p, p.records.Keys);
    Conservation(p);
    RestoreDistinct(cidr, rs);
    PackedMatches(p, Restored(Fresh(cidr), rs).0, cidr, rs);
  }

  lemma RunIsRestore(cidr: Cidr, a: Saved, b: Saved)
    requires Restored(Fresh(cidr), [a]).1
    ensures Run(Fresh(cidr), [Allocate(a.podName, a.podNamespace), Allocate(b.podName, b.podNamespace)]) ==
            Restored(Fresh(cidr), [a, b]).0
  {
    var one := [Allocate(a.podName, a.podNamespace)];
    var ops := one + [Allocate(b.podName, b.podNamespace)];
    assert one[..0] == [] && ops[..1] == one;
    assert [a][..0] == [] && [a, b][..1] == [a];
    assert Run(Fresh(cidr), one) == Restored(Fresh(cidr), [a]).0;
  }

  ghost predicate PairAt(p: Pool, a: Saved, b: Saved, base: uint32) {
    && p.records.Keys == {a.Key(), b.Key()}
    && p.records[a.Key()].ip == base + 1
    && p.records[b.Key()].ip == base + 2
  }

  lemma PackedPair(p: Pool, cidr: Cidr, a: Saved, b: Saved)
    requires Packed(p, cidr, [a, b])
    ensures PairAt(p, a, b, cidr.ip)
  {
    assert [a, b][0].Key() in p.records && [a, b][1].Key() in p.records;
    assert Keys([a, b]) == {a.Key(), b.Key()};
  }

  lemma RestoredPair(cidr: Cidr, a: Saved, b: Saved)
    requires a.Key() != b.Key() && cidr.Size() >= 4
    ensures Restored(Fresh(cidr), [a]).1 && PairAt(Restored(Fresh(cidr), [a, b]).0, a, b, cidr.ip)
  {
    RestoreDistinct(cidr, [a]);
    RestoreDistinct(cidr, [a, b]);
    PackedPair(Restored(Fresh(cidr), [a, b]).0, cidr, a, b);
  }

  /** Two pods saved in the order opposite to their addresses, as Go may range over them, come back with
      their addresses swapped. */
  lemma RestoreCanSwap(cidr: Cidr, a: Saved, b: Saved)
    requires a.Key() != b.Key() && cidr.Size() >= 4 && a.ip == cidr.ip + 1 && b.ip == cidr.ip + 2
    ensures var p := Run(Fresh(cidr), [Allocate(a.podName, a.podNamespace), Allocate(b.podName, b.podNamespace)]);
            && Snapshot([b, a], p)
            && PairAt(p, a, b, cidr.ip)
            && PairAt(Restored(Fresh(cidr), [b, a]).0, b, a, cidr.ip)
  {
    RestoredPair(cidr, a, b);
    RestoredPair(cidr, b, a);
    RunIsRestore(cidr, a, b);
    assert Keys([b, a]) == {a.Key(), b.Key()};
  }
}
