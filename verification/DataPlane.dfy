/** The eBPF data plane's endpoint tables and the map storage the packet program reads
    (pkg/dataplane/loader.go, pkg/dataplane/maps.go). */
module DataPlane {
  import opened Base

  type Bytes = seq<uint8>
  type Storage = map<string, map<Bytes, Bytes>>

  const IDENTITY_MAP := "identity_map"
  const ENDPOINT_MAP := "endpoint_map"

  function BigEndian(v: uint32): Bytes {
    [v / 0x100_0000, v / 0x1_0000 % 0x100, v / 0x100 % 0x100, v % 0x100]
  }

  function LittleEndian(v: uint32): Bytes {
    [v % 0x100, v / 0x100 % 0x100, v / 0x1_0000 % 0x100, v / 0x100_0000]
  }

  function FromBigEndian(b: Bytes): uint32
    requires |b| == 4
  {
    (b[0] as int) * 0x100_0000 + (b[1] as int) * 0x1_0000 + (b[2] as int) * 0x100 + b[3] as int
  }

  function FromLittleEndian(b: Bytes): uint32
    requires |b| == 4
  {
    b[0] as int + (b[1] as int) * 0x100 + (b[2] as int) * 0x1_0000 + (b[3] as int) * 0x100_0000
  }

  lemma WordRoundTrip(v: uint32)
    ensures FromBigEndian(BigEndian(v)) == v && FromLittleEndian(LittleEndian(v)) == v
  {
    assert v / 0x1_0000 == v / 0x100 / 0x100;
    assert v / 0x100_0000 == v / 0x1_0000 / 0x100;
  }

  lemma BigEndianInjective(a: uint32, b: uint32)
    ensures BigEndian(a) == BigEndian(b) <==> a == b
  {
    WordRoundTrip(a);
    WordRoundTrip(b);
  }

  // ---------------------------------------------------------------- map storage

  function Put(s: Storage, name: string, k: Bytes, v: Bytes): Storage {
    if name in s then s[name := s[name][k := v]] else s
  }

  function Delete(s: Storage, name: string, k: Bytes): Storage {
    if name in s then s[name := s[name] - {k}] else s
  }

  /** The maps of these names exist; those that did keep their entries. */
  function WithMaps(s: Storage, names: set<string>): Storage {
    map name | name in s.Keys + names :: if name in s then s[name] else map[]
  }

  lemma WithMoreMaps(s: Storage, names: set<string>, name: string)
    ensures WithMaps(WithMaps(s, names), {name}) == WithMaps(s, names + {name})
  {
  }

  function Get(s: Storage, name: string, k: Bytes): Option<Bytes> {
    if name in s && k in s[name] then Some(s[name][k]) else None
  }

  /** A look-up sees the last write of its entry and no other; a write to a missing map is lost. */
  lemma ReadBack(s: Storage, name: string, k: Bytes, v: Bytes, other: string, l: Bytes)
    ensures Get(Put(s, name, k, v), other, l) == if name in s && other == name && l == k then Some(v) else Get(s, other, l)
    ensures Get(Delete(s, name, k), other, l) == if other == name && l == k then None else Get(s, other, l)
  {
  }

  class MapManager {
    var storage: Storage

    constructor ()
      ensures storage == map[]
    {
      storage := map[];
    }

    method EnsureMap(name: string)
      modifies this
      ensures storage == WithMaps(old(storage), {name})
    {
      if name !in storage {
        storage := storage[name := map[]];
      }
    }

    method UpdateMapEntry(name: string, key: Bytes, value: Bytes) returns (ok: bool)
      modifies this
      ensures storage == Put(old(storage), name, key, value) && (ok <==> name in old(storage))
    {
      ok := name in storage;
      if ok {
        storage := storage[name := storage[name][key := value]];
      }
    }

    method DeleteMapEntry(name: string, key: Bytes) returns (ok: bool)
      modifies this
      ensures storage == Delete(old(storage), name, key) && (ok <==> name in old(storage))
    {
      ok := name in storage;
      if ok {
        storage := storage[name := storage[name] - {key}];
      }
    }

    method LookupMapEntry(name: string, key: Bytes) returns (value: Option<Bytes>)
      ensures value == Get(storage, name, key)
    {
      if name !in storage || key !in storage[name] {
        return None;
      }
      return Some(storage[name][key]);
    }
  }

  // ---------------------------------------------------------------- the data plane

  datatype Endpoint = Endpoint(identity: uint32, ifIndex: int)

  datatype Dp = Dp(endpoints: map<uint32, Endpoint>, identityMap: map<uint32, uint32>, storage: Storage)

  function EndpointBytes(identity: uint32, ifIndex: int): Bytes {
    LittleEndian(ifIndex % TWO32) + LittleEndian(identity) + [0, 0, 0, 0, 0, 0, 0, 0]
  }

  function WithEndpoint(d: Dp, ip: uint32, identity: uint32, ifIndex: int): Dp {
    Dp(d.endpoints[ip := Endpoint(identity, ifIndex)],
       d.identityMap[ip := identity],
       Put(Put(d.storage, IDENTITY_MAP, BigEndian(ip), LittleEndian(identity)),
           ENDPOINT_MAP, BigEndian(ip), EndpointBytes(identity, ifIndex)))
  }

  function WithoutEndpoint(d: Dp, ip: uint32): Dp {
    Dp(d.endpoints - {ip},
       d.identityMap - {ip},
       Delete(Delete(d.storage, IDENTITY_MAP, BigEndian(ip)), ENDPOINT_MAP, BigEndian(ip)))
  }

  function WithIdentity(d: Dp, ip: uint32, identity: uint32): Dp {
    Dp(if ip in d.endpoints then d.endpoints[ip := d.endpoints[ip].(identity := identity)] else d.endpoints,
       d.identityMap[ip := identity],
       Put(d.storage, IDENTITY_MAP, BigEndian(ip), LittleEndian(identity)))
  }

  const DEFAULT_MAPS := [IDENTITY_MAP, "policy_map", "conntrack_map", ENDPOINT_MAP]

  /** A data plane whose programs were just loaded. */
  function Loaded(): Dp {
    Dp(map[], map[], WithMaps(map[], Elements(DEFAULT_MAPS)))
  }

  /** What the packet program reads for an address: network-order key, host-order value, 0 if absent. */
  function KernelIdentity(s: Storage, ip: uint32): uint32 {
    if IDENTITY_MAP in s && BigEndian(ip) in s[IDENTITY_MAP] && |s[IDENTITY_MAP][BigEndian(ip)]| == 4
    then FromLittleEndian(s[IDENTITY_MAP][BigEndian(ip)]) else 0
  }

  /** The pinned identity map holds exactly the in-memory identity map, byte-encoded, and all three
      tables and the pinned endpoint map are about the same addresses. */
  ghost predicate Mirrored(d: Dp) {
    && IDENTITY_MAP in d.storage && ENDPOINT_MAP in d.storage
    && d.endpoints.Keys == d.identityMap.Keys
    && (forall ip: uint32 :: ip in d.identityMap <==> BigEndian(ip) in d.storage[IDENTITY_MAP])
    && (forall ip: uint32 :: ip in d.identityMap <==> BigEndian(ip) in d.storage[ENDPOINT_MAP])
    && (forall ip: uint32 | ip in d.identityMap :: d.storage[IDENTITY_MAP][BigEndian(ip)] == LittleEndian(d.identityMap[ip]))
  }

  lemma NamesDiffer()
    ensures IDENTITY_MAP != ENDPOINT_MAP
  {
    assert IDENTITY_MAP[0] != ENDPOINT_MAP[0];
  }

  lemma LoadedMirrored()
    ensures Mirrored(Loaded())
  {
    assert DEFAULT_MAPS[0] == IDENTITY_MAP && DEFAULT_MAPS[3] == ENDPOINT_MAP;
  }

  lemma WithEndpointMirrored(d: Dp, ip: uint32, identity: uint32, ifIndex: int)
    requires Mirrored(d)
    ensures Mirrored(WithEndpoint(d, ip, identity, ifIndex))
  {
    NamesDiffer();
    var e := WithEndpoint(d, ip, identity, ifIndex);
    assert e.storage[IDENTITY_MAP] == d.storage[IDENTITY_MAP][BigEndian(ip) := LittleEndian(identity)];
    assert e.storage[ENDPOINT_MAP] == d.storage[ENDPOINT_MAP][BigEndian(ip) := EndpointBytes(identity, ifIndex)];
    forall a: uint32
      ensures BigEndian(a) == BigEndian(ip) <==> a == ip
    {
      BigEndianInjective(a, ip);
    }
  }

  lemma WithoutEndpointMirrored(d: Dp, ip: uint32)
    requires Mirrored(d)
    ensures Mirrored(WithoutEndpoint(d, ip))
  {
    NamesDiffer();
    var e := WithoutEndpoint(d, ip);
    assert e.storage[IDENTITY_MAP] == d.storage[IDENTITY_MAP] - {BigEndian(ip)};
    assert e.storage[ENDPOINT_MAP] == d.storage[ENDPOINT_MAP] - {BigEndian(ip)};
    forall a: uint32
      ensures BigEndian(a) == BigEndian(ip) <==> a == ip
    {
      BigEndianInjective(a, ip);
    }
  }

  /** Re-labelling an address keeps the maps in step exactly when it is a programmed endpoint. */
  lemma WithIdentityMirrored(d: Dp, ip: uint32, identity: uint32)
    requires Mirrored(d)
    ensures Mirrored(WithIdentity(d, ip, identity)) <==> ip in d.endpoints
  {
    NamesDiffer();
    var e := WithIdentity(d, ip, identity);
    assert e.storage[IDENTITY_MAP] == d.storage[IDENTITY_MAP][BigEndian(ip) := LittleEndian(identity)];
    assert e.storage[ENDPOINT_MAP] == d.storage[ENDPOINT_MAP];
    forall a: uint32
      ensures BigEndian(a) == BigEndian(ip) <==> a == ip
    {
      BigEndianInjective(a, ip);
    }
    assert ip in e.identityMap;
  }

  /** Removing an endpoint undoes adding it, down to the bytes in the pinned maps. */
  lemma AddRemoveInverse(d: Dp, ip: uint32, identity: uint32, ifIndex: int)
    requires Mirrored(d) && ip !in d.identityMap
    ensures WithoutEndpoint(WithEndpoint(d, ip, identity, ifIndex), ip) == d
  {
    NamesDiffer();
    PutDelete(d.storage, IDENTITY_MAP, ENDPOINT_MAP, BigEndian(ip), LittleEndian(identity), EndpointBytes(identity, ifIndex));
    assert d.endpoints[ip := Endpoint(identity, ifIndex)] - {ip} == d.endpoints;
    assert d.identityMap[ip := identity] - {ip} == d.identityMap;
  }

  lemma PutDelete(s: Storage, a: string, b: string, k: Bytes, v: Bytes, w: Bytes)
    requires a in s && b in s && a != b && k !in s[a] && k !in s[b]
    ensures Delete(Delete(Put(Put(s, a, k, v), b, k, w), a, k), b, k) == s
  {
    assert s[a][k := v] - {k} == s[a];
    assert s[b][k := w] - {k} == s[b];
  }

  /** Bytes by their place: the highest first in an address, the lowest first in a value. */
  lemma ByteOrder(v: uint32)
    ensures var b, l := BigEndian(v), LittleEndian(v);
            && |b| == 4 && |l| == 4
            && v == b[0] as int * 0x100_0000 + b[1] as int * 0x1_0000 + b[2] as int * 0x100 + b[3] as int
            && v == l[3] as int * 0x100_0000 + l[2] as int * 0x1_0000 + l[1] as int * 0x100 + l[0] as int
  {
    WordRoundTrip(v);
  }

  /** The record of an endpoint is 16 bytes: interface index, identity, and zeros. */
  lemma EndpointRecord(identity: uint32, ifIndex: int)
    ensures var bytes := EndpointBytes(identity, ifIndex);
            && |bytes| == 16
            && FromLittleEndian(bytes[0..4]) == ifIndex % TWO32
            && FromLittleEndian(bytes[4..8]) == identity
            && bytes[8..] == [0, 0, 0, 0, 0, 0, 0, 0]
  {
    var bytes := EndpointBytes(identity, ifIndex);
    assert bytes[0..4] == LittleEndian(ifIndex % TWO32) && bytes[4..8] == LittleEndian(identity);
    WordRoundTrip(ifIndex % TWO32);
    WordRoundTrip(identity);
  }

  /** Each endpoint's record in the pinned map, and its identity, are those of the endpoint table. */
  predicate RecordWritten(d: Dp, ip: uint32) {
    && ip in d.endpoints && ip in d.identityMap && d.endpoints[ip].identity == d.identityMap[ip]
    && Get(d.storage, ENDPOINT_MAP, BigEndian(ip)) == Some(EndpointBytes(d.endpoints[ip].identity, d.endpoints[ip].ifIndex))
  }

  ghost predicate RecordsWritten(d: Dp) {
    forall ip: uint32 | ip in d.endpoints :: RecordWritten(d, ip)
  }

  lemma WithEndpointWritten(d: Dp, ip: uint32, identity: uint32, ifIndex: int)
    requires RecordsWritten(d) && ENDPOINT_MAP in d.storage
    ensures RecordsWritten(WithEndpoint(d, ip, identity, ifIndex))
    ensures WithEndpoint(d, ip, identity, ifIndex).endpoints == d.endpoints[ip := Endpoint(identity, ifIndex)]
  {
    NamesDiffer();
    var e := WithEndpoint(d, ip, identity, ifIndex);
    forall a: uint32 | a in e.endpoints
      ensures RecordWritten(e, a)
    {
      BigEndianInjective(a, ip);
      assert a != ip ==> RecordWritten(d, a);
    }
  }

  lemma WithoutEndpointWritten(d: Dp, ip: uint32)
    requires RecordsWritten(d)
    ensures RecordsWritten(WithoutEndpoint(d, ip))
  {
    NamesDiffer();
    var e := WithoutEndpoint(d, ip);
    forall a: uint32 | a in e.endpoints
      ensures RecordWritten(e, a)
    {
      BigEndianInjective(a, ip);
      assert RecordWritten(d, a);
    }
  }

  /** Re-labelling is seen by the packet program, but leaves the endpoint's record behind unless nothing
      changes. */
  lemma WithIdentityWritten(d: Dp, ip: uint32, identity: uint32)
    requires RecordsWritten(d) && IDENTITY_MAP in d.storage
    ensures KernelIdentity(WithIdentity(d, ip, identity).storage, ip) == identity
    ensures RecordsWritten(WithIdentity(d, ip, identity)) <==> (ip in d.endpoints ==> d.endpoints[ip].identity == identity)
  {
    NamesDiffer();
    WordRoundTrip(identity);
    var e := WithIdentity(d, ip, identity);
    forall a: uint32 | a in d.endpoints
      ensures a != ip || d.endpoints[a].identity == identity ==> RecordWritten(e, a)
    {
      assert RecordWritten(d, a);
    }
    if ip in d.endpoints {
      assert RecordWritten(d, ip);
      EndpointRecord(identity, d.endpoints[ip].ifIndex);
      EndpointRecord(d.endpoints[ip].identity, d.endpoints[ip].ifIndex);
      assert RecordWritten(e, ip) ==> d.endpoints[ip].identity == identity;
    }
  }

  /** Programming an endpoint makes the packet program see it, whatever was there before. */
  lemma EndpointSeen(d: Dp, ip: uint32, identity: uint32, ifIndex: int)
    requires IDENTITY_MAP in d.storage
    ensures KernelIdentity(WithEndpoint(d, ip, identity, ifIndex).storage, ip) == identity
  {
    NamesDiffer();
    WordRoundTrip(identity);
  }

  lemma EndpointElsewhere(d: Dp, ip: uint32, identity: uint32, ifIndex: int, other: uint32)
    requires other != ip
    ensures KernelIdentity(WithEndpoint(d, ip, identity, ifIndex).storage, other) == KernelIdentity(d.storage, other)
  {
    NamesDiffer();
    BigEndianInjective(ip, other);
  }

  /** The packet program sees the identity of every programmed address and the wildcard for all others. */
  lemma KernelSees(d: Dp, ip: uint32)
    requires Mirrored(d)
    ensures KernelIdentity(d.storage, ip) == if ip in d.identityMap then d.identityMap[ip] else 0
  {
    if ip in d.identityMap {
      WordRoundTrip(d.identityMap[ip]);
    }
  }

  class EBPFDataPlane {
    var endpoints: map<uint32, Endpoint>
    var identityMap: map<uint32, uint32>
    const maps: MapManager

    ghost function Model(): Dp
      reads this, maps
    {
      Dp(endpoints, identityMap, maps.storage)
    }

    constructor ()
      ensures Model() == Dp(map[], map[], map[]) && fresh(maps)
    {
      endpoints, identityMap := map[], map[];
      maps := new MapManager();
    }

    method LoadPrograms()
      modifies maps
      ensures maps.storage == WithMaps(old(maps.storage), Elements(DEFAULT_MAPS))
    {
      ghost var before := maps.storage;
      assert WithMaps(before, {}) == before;
      for i := 0 to |DEFAULT_MAPS|
        invariant maps.storage == WithMaps(before, Elements(DEFAULT_MAPS[..i]))
      {
        WithMoreMaps(before, Elements(DEFAULT_MAPS[..i]), DEFAULT_MAPS[i]);
        ElementsSnoc(DEFAULT_MAPS[..i], DEFAULT_MAPS[i]);
        assert DEFAULT_MAPS[..i] + [DEFAULT_MAPS[i]] == DEFAULT_MAPS[..i + 1];
        maps.EnsureMap(DEFAULT_MAPS[i]);
      }
      assert DEFAULT_MAPS[..|DEFAULT_MAPS|] == DEFAULT_MAPS;
    }

    method AddPodEndpoint(ip: uint32, identity: uint32, ifIndex: int)
      modifies this, maps
      ensures Model() == WithEndpoint(old(Model()), ip, identity, ifIndex)
    {
      endpoints := endpoints[ip := Endpoint(identity, ifIndex)];
      identityMap := identityMap[ip := identity];
      var _ := maps.UpdateMapEntry(IDENTITY_MAP, BigEndian(ip), LittleEndian(identity));
      var _ := maps.UpdateMapEntry(ENDPOINT_MAP, BigEndian(ip), EndpointBytes(identity, ifIndex));
    }

    method RemovePodEndpoint(ip: uint32)
      modifies this, maps
      ensures Model() == WithoutEndpoint(old(Model()), ip)
    {
      endpoints := endpoints - {ip};
      identityMap := identityMap - {ip};
      var _ := maps.DeleteMapEntry(IDENTITY_MAP, BigEndian(ip));
      var _ := maps.DeleteMapEntry(ENDPOINT_MAP, BigEndian(ip));
    }

    method UpdateIdentity(ip: uint32, identity: uint32) returns (ok: bool)
      modifies this, maps
      ensures Model() == WithIdentity(old(Model()), ip, identity)
      ensures ok <==> IDENTITY_MAP in old(maps.storage)
    {
      if ip in endpoints {
        endpoints := endpoints[ip := endpoints[ip].(identity := identity)];
      }
      identityMap := identityMap[ip := identity];
      ok := maps.UpdateMapEntry(IDENTITY_MAP, BigEndian(ip), LittleEndian(identity));
    }
  }
}
