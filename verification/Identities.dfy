/** Reference-counted security identities (pkg/policy/identity.go). */
module Identities {
  import opened Base
  import opened Labels

  datatype Identity = Identity(labels: Labels, hash: Digest, refCount: int)

  datatype Ids = Ids(identities: map<uint32, Identity>, byHash: map<Digest, uint32>, nextID: uint32)

  function Empty(): Ids {
    Ids(map[], map[], 1)
  }

  function Next(id: uint32): uint32 {
    (id + 1) % TWO32
  }

  /** AllocateIdentity for a label map and its hash: reuse the identity with this hash, or create one. A hash that points at a
      collected identity would be a nil dereference in the source; Linked rules it out. */
  function Acquired(s: Ids, labels: Labels, hash: Digest): (Ids, uint32) {
    if hash in s.byHash then
      var id := s.byHash[hash];
      if id in s.identities then
        (s.(identities := s.identities[id := s.identities[id].(refCount := s.identities[id].refCount + 1)]), id)
      else (s, id)
    else
      (Ids(s.identities[s.nextID := Identity(labels, hash, 1)], s.byHash[hash := s.nextID], Next(s.nextID)), s.nextID)
  }

  /** ReleaseIdentity: one reference less; an identity without references is collected. */
  function Dropped(s: Ids, id: uint32): Ids {
    if id !in s.identities then s
    else
      var one := s.identities[id];
      if one.refCount - 1 <= 0 then s.(identities := s.identities - {id}, byHash := s.byHash - {one.hash})
      else s.(identities := s.identities[id := one.(refCount := one.refCount - 1)])
  }

  function Refs(s: Ids, id: uint32): int {
    if id in s.identities then s.identities[id].refCount else 0
  }

  // ---------------------------------------------------------------- invariant

  predicate HashesLive(s: Ids) {
    forall h | h in s.byHash :: s.byHash[h] in s.identities && s.identities[s.byHash[h]].hash == h
  }

  predicate IdentityOk(s: Ids, created: nat, id: uint32)
    requires id in s.identities
  {
    var one := s.identities[id];
    && 1 <= id <= created
    && one.refCount >= 1
    && one.hash in s.byHash && s.byHash[one.hash] == id
  }

  predicate IdentitiesOk(s: Ids, created: nat) {
    forall id | id in s.identities :: IdentityOk(s, created, id)
  }

  /** After `created` creations, fewer than 2^32: the two tables are inverse to each other, every live
      identity has a reference, and the counter has not come round to an issued number. */
  predicate Inv(s: Ids, created: nat) {
    && created < TWO32
    && s.nextID == (created + 1) % TWO32
    && HashesLive(s)
    && IdentitiesOk(s, created)
  }

  /** No hash leads to a collected identity. Acquiring keeps this even when the counter comes round. */
  predicate Linked(s: Ids) {
    forall h | h in s.byHash :: s.byHash[h] in s.identities
  }

  lemma AcquiredLinked(s: Ids, labels: Labels, hash: Digest)
    requires Linked(s)
    ensures Linked(Acquired(s, labels, hash).0)
  {
  }

  function Creations(s: Ids, hash: Digest): nat {
    if hash in s.byHash then 0 else 1
  }

  lemma AcquiredInv(s: Ids, created: nat, labels: Labels, hash: Digest)
    requires Inv(s, created) && created + Creations(s, hash) < TWO32
    ensures var (s', id) := Acquired(s, labels, hash);
            && Inv(s', created + Creations(s, hash))
            && id in s'.identities && s'.identities[id].hash == hash
            && (forall j :: Refs(s', j) == Refs(s, j) + if j == id then 1 else 0)
  {
    var (s', id) := Acquired(s, labels, hash);
    var n := created + Creations(s, hash);
    assert id in s.identities <==> hash in s.byHash by {
      assert id in s.identities ==> IdentityOk(s, created, id);
    }
    forall j | j in s'.identities
      ensures IdentityOk(s', n, j)
    {
      assert j in s.identities ==> IdentityOk(s, created, j);
    }
  }

  lemma DroppedInv(s: Ids, created: nat, id: uint32)
    requires Inv(s, created)
    ensures Inv(Dropped(s, id), created)
    ensures forall j :: Refs(Dropped(s, id), j) == Refs(s, j) - if j == id && id in s.identities then 1 else 0
  {
    var s' := Dropped(s, id);
    assert id in s.identities ==> IdentityOk(s, created, id);
    forall j | j in s'.identities
      ensures IdentityOk(s', created, j)
    {
      assert IdentityOk(s, created, j);
    }
  }

  /** Releasing what was just acquired restores the live identities and all reference counts. */
  lemma AcquireDropInverse(s: Ids, created: nat, labels: Labels, hash: Digest)
    requires Inv(s, created) && created + Creations(s, hash) < TWO32
    ensures var (s', id) := Acquired(s, labels, hash);
            var s'' := Dropped(s', id);
            && s''.identities == s.identities && s''.byHash == s.byHash
            && s''.nextID == if hash in s.byHash then s.nextID else Next(s.nextID)
  {
    var (s', id) := Acquired(s, labels, hash);
    if hash in s.byHash {
      assert IdentityOk(s, created, id);
    } else {
      assert id in s.identities ==> IdentityOk(s, created, id);
      assert s'.identities - {id} == s.identities;
      assert s'.byHash - {hash} == s.byHash;
    }
  }

  /** The references to the identity of a hash. */
  function HashRefs(s: Ids, hash: Digest): int {
    if hash in s.byHash then Refs(s, s.byHash[hash]) else 0
  }

  lemma LiveIsReferenced(s: Ids, created: nat, hash: Digest)
    requires Inv(s, created)
    ensures hash in s.byHash <==> HashRefs(s, hash) > 0
  {
    assert hash in s.byHash ==> IdentityOk(s, created, s.byHash[hash]);
  }

  lemma AcquiredHashRefs(s: Ids, created: nat, labels: Labels, hash: Digest)
    requires Inv(s, created) && created + Creations(s, hash) < TWO32
    ensures forall g :: HashRefs(Acquired(s, labels, hash).0, g) == HashRefs(s, g) + if g == hash then 1 else 0
  {
    var (s', id) := Acquired(s, labels, hash);
    forall g
      ensures HashRefs(s', g) == HashRefs(s, g) + if g == hash then 1 else 0
    {
      assert g in s.byHash ==> IdentityOk(s, created, s.byHash[g]);
      assert hash !in s.byHash && id in s.identities ==> IdentityOk(s, created, id);
    }
  }

  lemma DroppedHashRefs(s: Ids, created: nat, id: uint32)
    requires Inv(s, created) && id in s.identities
    ensures forall g :: HashRefs(Dropped(s, id), g) == HashRefs(s, g) - if g == s.identities[id].hash then 1 else 0
  {
    assert IdentityOk(s, created, id);
    forall g
      ensures HashRefs(Dropped(s, id), g) == HashRefs(s, g) - if g == s.identities[id].hash then 1 else 0
    {
      assert g in s.byHash ==> IdentityOk(s, created, s.byHash[g]);
    }
  }

  /** Creation number n issues identity n; it is the wildcard 0 exactly for the 2^32-th creation. */
  lemma IssuedNumber(s: Ids, created: nat, labels: Labels, hash: Digest)
    requires Inv(s, created) && hash !in s.byHash
    ensures Acquired(s, labels, hash).1 == 0 <==> created == TWO32 - 1
    ensures created < TWO32 - 1 ==> Acquired(s, labels, hash).1 == created + 1
  {
    if created < TWO32 - 1 {
      assert (created + 1) % TWO32 == created + 1;
    }
  }

  // ---------------------------------------------------------------- sharing

  /** Which hash belongs to which label map. */
  type Naming = (Labels, Digest) -> bool

  /** A hash names one label map, and a label map has one hash. */
  ghost predicate Faithful(naming: Naming) {
    forall a, g, b, h :: Agree(naming, a, g, b, h)
  }

  predicate Agree(naming: Naming, a: Labels, g: Digest, b: Labels, h: Digest) {
    naming(a, g) && naming(b, h) ==> (a == b <==> g == h)
  }

  /** The naming of the source, on the label maps that can be read back from their text. */
  ghost function HashNaming(): Naming {
    (labels: Labels, hash: Digest) => Readable(labels) && hash == IdentityHash(labels)
  }

  lemma HashIsFaithful()
    ensures Faithful(HashNaming())
  {
    var naming := HashNaming();
    forall a, g, b, h
      ensures Agree(naming, a, g, b, h)
    {
      if naming(a, g) && naming(b, h) {
        HashInjective(a, b);
      }
    }
  }

  ghost predicate Named(s: Ids, naming: Naming) {
    forall id | id in s.identities :: naming(s.identities[id].labels, s.identities[id].hash)
  }

  lemma AcquiredNamed(s: Ids, labels: Labels, hash: Digest, naming: Naming)
    requires Named(s, naming) && naming(labels, hash)
    ensures Named(Acquired(s, labels, hash).0, naming)
  {
    var s' := Acquired(s, labels, hash).0;
    forall id | id in s'.identities
      ensures naming(s'.identities[id].labels, s'.identities[id].hash)
    {
      assert id in s.identities ==> naming(s.identities[id].labels, s.identities[id].hash);
    }
  }

  lemma DroppedNamed(s: Ids, id: uint32, naming: Naming)
    requires Named(s, naming)
    ensures Named(Dropped(s, id), naming)
  {
    var s' := Dropped(s, id);
    forall j | j in s'.identities
      ensures naming(s'.identities[j].labels, s'.identities[j].hash)
    {
      assert naming(s.identities[j].labels, s.identities[j].hash);
    }
  }

  lemma NamedIsLabels(s: Ids, created: nat, naming: Naming, i: uint32, j: uint32)
    requires Inv(s, created) && Named(s, naming) && Faithful(naming) && i in s.identities && j in s.identities
    ensures i == j <==> s.identities[i].labels == s.identities[j].labels
  {
    assert IdentityOk(s, created, i) && IdentityOk(s, created, j);
    assert Agree(naming, s.identities[i].labels, s.identities[i].hash, s.identities[j].labels, s.identities[j].hash);
  }

  /** Identities live before and after keep their hash. */
  ghost predicate Stable(a: Ids, b: Ids) {
    forall id | id in a.identities && id in b.identities :: a.identities[id].hash == b.identities[id].hash
  }

  ghost predicate Grows(a: Ids, b: Ids) {
    a.identities.Keys <= b.identities.Keys && Stable(a, b)
  }

  lemma AcquiredGrows(s: Ids, created: nat, labels: Labels, hash: Digest)
    requires Inv(s, created) && created + Creations(s, hash) < TWO32
    ensures Grows(s, Acquired(s, labels, hash).0)
  {
    var id := Acquired(s, labels, hash).1;
    assert hash !in s.byHash && id in s.identities ==> IdentityOk(s, created, id);
  }

  lemma DroppedStable(s: Ids, id: uint32)
    ensures Stable(s, Dropped(s, id))
  {
  }

  // ---------------------------------------------------------------- runs

  datatype Op = Acquire(labels: Labels, hash: Digest) | Drop(id: uint32)

  /** The allocator with the numbers it has issued to new label maps. */
  datatype Traced = Traced(ids: Ids, issued: seq<uint32>)

  function Step(t: Traced, op: Op): Traced {
    match op
    case Acquire(labels, hash) =>
      var (s, id) := Acquired(t.ids, labels, hash);
      Traced(s, if hash in t.ids.byHash then t.issued else t.issued + [id])
    case Drop(id) => Traced(Dropped(t.ids, id), t.issued)
  }

  function RunFrom(t: Traced, ops: seq<Op>): Traced {
    if ops == [] then t else Step(RunFrom(t, ops[..|ops| - 1]), ops[|ops| - 1])
  }

  function Run(ops: seq<Op>): Traced {
    RunFrom(Traced(Empty(), []), ops)
  }

  lemma {:induction false} RunAppend(t: Traced, a: seq<Op>, b: seq<Op>)
    ensures RunFrom(t, a + b) == RunFrom(RunFrom(t, a), b)
    decreases |b|
  {
    if b == [] {
      assert a + b == a;
    } else {
      assert (a + b)[..|a + b| - 1] == a + b[..|b| - 1];
      RunAppend(t, a, b[..|b| - 1]);
    }
  }

  /** With fewer than 2^32 creations the issued numbers are 1, 2, 3, ...: never the wildcard 0, never reused. */
  lemma {:induction false} IssuedInOrder(ops: seq<Op>)
    requires |Run(ops).issued| < TWO32
    ensures Inv(Run(ops).ids, |Run(ops).issued|)
    ensures forall i | 0 <= i < |Run(ops).issued| :: Run(ops).issued[i] == i + 1
    decreases |ops|
  {
    if ops != [] {
      var before, op := Run(ops[..|ops| - 1]), ops[|ops| - 1];
      IssuedInOrder(ops[..|ops| - 1]);
      match op {
        case Acquire(labels, hash) => AcquiredInv(before.ids, |before.issued|, labels, hash);
        case Drop(id) => DroppedInv(before.ids, |before.issued|, id);
      }
    }
  }

  predicate Honest(op: Op, naming: Naming) {
    op.Acquire? ==> naming(op.labels, op.hash)
  }

  lemma {:induction false} RunNamed(ops: seq<Op>, naming: Naming)
    requires forall op | op in ops :: Honest(op, naming)
    ensures Named(Run(ops).ids, naming)
    decreases |ops|
  {
    if ops != [] {
      var before, op := Run(ops[..|ops| - 1]).ids, ops[|ops| - 1];
      RunNamed(ops[..|ops| - 1], naming);
      assert Honest(op, naming);
      match op {
        case Acquire(labels, hash) => AcquiredNamed(before, labels, hash, naming);
        case Drop(id) => DroppedNamed(before, id, naming);
      }
    }
  }

  /** After every run over readable label maps, two live identities are the same exactly when their
      label maps are equal. */
  lemma IdentityIsLabels(ops: seq<Op>, i: uint32, j: uint32)
    requires forall op | op in ops :: Honest(op, HashNaming())
    requires |Run(ops).issued| < TWO32 && i in Run(ops).ids.identities && j in Run(ops).ids.identities
    ensures i == j <==> Run(ops).ids.identities[i].labels == Run(ops).ids.identities[j].labels
  {
    HashIsFaithful();
    RunNamed(ops, HashNaming());
    IssuedInOrder(ops);
    NamedIsLabels(Run(ops).ids, |Run(ops).issued|, HashNaming(), i, j);
  }

  // ---------------------------------------------------------------- the mutable allocator

  class IdentityAllocator {
    var identities: map<uint32, Identity>
    var hashToID: map<Digest, uint32>
    var nextID: uint32

    ghost function Model(): Ids
      reads this
    {
      Ids(identities, hashToID, nextID)
    }

    constructor ()
      ensures Model() == Empty()
    {
      identities, hashToID, nextID := map[], map[], 1;
    }

    method AllocateIdentity(labels: Labels) returns (id: uint32)
      requires Linked(Model())
      modifies this
      ensures (Model(), id) == Acquired(old(Model()), labels, IdentityHash(labels))
    {
      var text := LabelText(labels);
      var hash := Sha256(text);
      if hash in hashToID {
        id := hashToID[hash];
        var one := identities[id];
        identities := identities[id := one.(refCount := one.refCount + 1)];
        return;
      }
      id := nextID;
      nextID := Next(nextID);
      identities := identities[id := Identity(labels, hash, 1)];
      hashToID := hashToID[hash := id];
    }

    method ReleaseIdentity(id: uint32) returns (found: bool)
      modifies this
      ensures Model() == Dropped(old(Model()), id)
      ensures found <==> id in old(identities)
    {
      if id !in identities {
        return false;
      }
      var one := identities[id];
      identities := identities[id := one.(refCount := one.refCount - 1)];
      if identities[id].refCount <= 0 {
        hashToID := hashToID - {one.hash};
        identities := identities - {id};
        assert identities == old(identities) - {id};
      }
      return true;
    }

    method GetIdentityByLabels(labels: Labels) returns (id: Option<uint32>)
      ensures id == if IdentityHash(labels) in hashToID then Some(hashToID[IdentityHash(labels)]) else None
    {
      var text := LabelText(labels);
      var hash := Sha256(text);
      id := if hash in hashToID then Some(hashToID[hash]) else None;
    }
  }
}
