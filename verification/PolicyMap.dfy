/** From rules to exact-match map entries (pkg/policy/ebpf_writer.go) to the verdict on a packet
    (pkg/dataplane/ebpf/src/cni.c). */
module PolicyMap {
  import opened Base
  import opened Sorting
  import opened Rules
  import Keys

  datatype MapKey = MapKey(src: uint32, dst: uint32, proto: uint8, port: uint16)
  datatype MapValue = MapValue(verdict: uint8, audit: uint8)

  const MAP_ALLOW: uint8 := 1
  const MAP_DENY: uint8 := 0

  const TCP: uint8 := 6
  const UDP: uint8 := 17
  const ICMP: uint8 := 1

  function ProtoNumber(proto: string): uint8 {
    if proto == "tcp" then TCP else if proto == "udp" then UDP else if proto == "icmp" then ICMP else 0
  }

  /** The map key of a rule; a port is cut to 16 bits. */
  function Project(r: Rule): MapKey {
    MapKey(r.src, r.dst, ProtoNumber(r.proto), r.port % 0x1_0000)
  }

  function Value(r: Rule): MapValue {
    MapValue(if r.verdict == ALLOW then MAP_ALLOW else MAP_DENY, 0)
  }

  function Entries(rules: seq<Rule>): map<MapKey, MapValue> {
    if rules == [] then map[]
    else Entries(rules[..|rules| - 1])[Project(rules[|rules| - 1]) := Value(rules[|rules| - 1])]
  }

  method CompileRulesToMapEntries(rules: seq<Rule>) returns (entries: map<MapKey, MapValue>)
    ensures entries == Entries(rules)
  {
    entries := map[];
    for i := 0 to |rules|
      invariant entries == Entries(rules[..i])
    {
      assert rules[..i + 1][..i] == rules[..i];
      var r := rules[i];
      var proto: uint8 := 0;
      match r.proto {
        case "tcp" => proto := 6;
        case "udp" => proto := 17;
        case "icmp" => proto := 1;
        case _ =>
      }
      var verdict := if r.verdict == ALLOW then MAP_ALLOW else MAP_DENY;
      entries := entries[MapKey(r.src, r.dst, proto, r.port % 0x1_0000) := MapValue(verdict, 0)];
    }
    assert rules[..|rules|] == rules;
  }

  /** rules[i] is the last rule with this map key. */
  ghost predicate LastAt(rules: seq<Rule>, k: MapKey, i: int) {
    && 0 <= i < |rules| && Project(rules[i]) == k
    && forall j | i < j < |rules| :: Project(rules[j]) != k
  }

  /** A map entry is there exactly when some rule projects to its key, and holds the verdict of the last one. */
  lemma {:induction false} EntryIsLast(rules: seq<Rule>, k: MapKey)
    ensures k in Entries(rules) <==> exists i :: LastAt(rules, k, i)
    ensures forall i | LastAt(rules, k, i) :: k in Entries(rules) && Entries(rules)[k] == Value(rules[i])
    decreases |rules|
  {
    if rules != [] {
      var n := |rules| - 1;
      EntryIsLast(rules[..n], k);
      if Project(rules[n]) == k {
        assert LastAt(rules, k, n);
      } else {
        forall i
          ensures LastAt(rules, k, i) <==> LastAt(rules[..n], k, i)
        {
        }
      }
    }
  }

  // ---------------------------------------------------------------- packets

  /** A parsed IPv4 packet: the port is read for TCP and UDP only. */
  datatype Packet = Packet(srcIP: uint32, dstIP: uint32, proto: uint8, port: uint16)

  datatype Action = Pass | Drop

  /** What the packet looks up: `identity` reads the identity map, 0 for an unknown address. */
  function PacketKey(p: Packet, identity: uint32 -> uint32): MapKey {
    MapKey(identity(p.srcIP), identity(p.dstIP), p.proto, p.port)
  }

  function HandlePacket(p: Packet, identity: uint32 -> uint32, policy: map<MapKey, MapValue>): Action {
    var key := PacketKey(p, identity);
    var verdict := if key in policy then policy[key].verdict else MAP_ALLOW;
    if verdict == 0 then Drop else Pass
  }

  // ---------------------------------------------------------------- the meaning of the map

  function ProjectsTo(k: MapKey): Rule -> bool {
    (r: Rule) => Project(r) == k
  }

  /** Rules a map key can express: a known lower-case protocol or ANY, and a 16-bit port. */
  predicate Expressible(r: Rule) {
    (r.proto == "tcp" || r.proto == "udp" || r.proto == "icmp" || r.proto == ANY) && 0 <= r.port < 0x1_0000
  }

  lemma ProtoNumbersDiffer(a: Rule, b: Rule)
    requires Expressible(a) && Expressible(b)
    ensures ProtoNumber(a.proto) == ProtoNumber(b.proto) <==> a.proto == b.proto
  {
    assert |ANY| == 3 && ANY[0] == 'A';
    assert "tcp"[0] == 't' && "udp"[0] == 'u' && "icmp"[0] == 'i';
  }

  /** On expressible rules the text key and the map key both say which traffic the rule is about. */
  lemma TextKeyExact(a: Rule, b: Rule)
    requires Expressible(a) && Expressible(b)
    ensures RuleKey(a) == RuleKey(b) <==> SameSelector(a, b)
  {
    Keys.KeyExact(a.src, a.dst, a.proto, a.port, b.src, b.dst, b.proto, b.port);
  }

  lemma MapKeyExact(a: Rule, b: Rule)
    requires Expressible(a) && Expressible(b)
    ensures Project(a) == Project(b) <==> SameSelector(a, b)
  {
    ProtoNumbersDiffer(a, b);
  }

  lemma {:induction false} FirstIndex(s: seq<Rule>, m: Rule -> bool) returns (i: int)
    requires First(s, m).Some?
    ensures 0 <= i < |s| && m(s[i]) && s[i] == First(s, m).value
  {
    if m(s[0]) {
      i := 0;
    } else {
      var j := FirstIndex(s[1..], m);
      i := j + 1;
    }
  }

  lemma {:induction false} FirstNone(s: seq<Rule>, m: Rule -> bool)
    requires First(s, m).None?
    ensures forall i | 0 <= i < |s| :: !m(s[i])
  {
    if s != [] {
      FirstNone(s[1..], m);
      assert forall i | 1 <= i < |s| :: s[i] == s[1..][i - 1];
    }
  }

  /** When each map key has at most one rule, the entry is that rule's verdict. */
  lemma EntryOfUnique(rules: seq<Rule>, k: MapKey)
    requires DistinctKeys(rules, Project)
    ensures var r := First(rules, ProjectsTo(k));
            && (k in Entries(rules) <==> r.Some?)
            && (r.Some? ==> Entries(rules)[k] == Value(r.value))
  {
    EntryIsLast(rules, k);
    if First(rules, ProjectsTo(k)).Some? {
      var i := FirstIndex(rules, ProjectsTo(k));
      assert LastAt(rules, k, i);
    } else {
      FirstNone(rules, ProjectsTo(k));
    }
  }

  ghost predicate AllExpressible(rules: seq<Rule>) {
    forall r | r in rules :: Expressible(r)
  }

  lemma MergedProjectDistinct(policies: seq<Option<seq<Rule>>>)
    requires AllExpressible(Flatten(policies))
    ensures DistinctKeys(Merge(policies), Project)
    ensures forall k :: Respects(Flatten(policies), RuleKey, ProjectsTo(k))
  {
    MergeShape(policies);
    var merged := Merge(policies);
    forall i, j | 0 <= i < j < |merged|
      ensures Project(merged[i]) != Project(merged[j])
    {
      assert merged[i] in merged && merged[j] in merged;
      TextKeyExact(merged[i], merged[j]);
      MapKeyExact(merged[i], merged[j]);
    }
    forall k, x, y | x in Flatten(policies) && y in Flatten(policies) && RuleKey(x) == RuleKey(y)
      ensures ProjectsTo(k)(x) == ProjectsTo(k)(y)
    {
      TextKeyExact(x, y);
      MapKeyExact(x, y);
    }
  }

  /** The decision the rules make for an exact key: that of the highest-priority rule with the key. */
  function Denies(rules: seq<Rule>, k: MapKey): bool {
    var r := Best(rules, ProjectsTo(k), RuleLe);
    r.Some? && r.value.verdict != ALLOW
  }

  /** With the map holding the entries of the merged policies, a packet is dropped exactly when the
      highest-priority input rule with its exact key does not allow; everything else passes. */
  lemma PacketVerdict(policies: seq<Option<seq<Rule>>>, p: Packet, identity: uint32 -> uint32)
    requires AllExpressible(Flatten(policies))
    ensures HandlePacket(p, identity, Entries(Merge(policies))) == Drop <==>
            Denies(Flatten(policies), PacketKey(p, identity))
  {
    var k := PacketKey(p, identity);
    MergedProjectDistinct(policies);
    EntryOfUnique(Merge(policies), k);
    assert Respects(Flatten(policies), RuleKey, ProjectsTo(k));
    MergedFirst(policies, ProjectsTo(k));
  }

  /** IP protocol numbers: 6 is TCP, 17 is UDP, 1 is ICMP. */
  predicate Speaks(proto: uint8, name: string) {
    (proto == 6 && name == "tcp") || (proto == 17 && name == "udp") || (proto == 1 && name == "icmp")
  }

  lemma ProtoNumberExact(name: string, proto: uint8)
    requires name == "tcp" || name == "udp" || name == "icmp"
    ensures ProtoNumber(name) == proto <==> Speaks(proto, name)
  {
    assert "tcp"[0] == 't' && "udp"[0] == 'u' && "icmp"[0] == 'i';
  }

  /** A rule for a named protocol drops exactly the packets of that protocol with its identities and port, if
      it does not allow. */
  lemma OneRuleVerdict(r: Rule, p: Packet, identity: uint32 -> uint32)
    requires (r.proto == "tcp" || r.proto == "udp" || r.proto == "icmp") && 0 <= r.port < 0x1_0000
    ensures HandlePacket(p, identity, Entries(Merge([Some([r])]))) == Drop <==>
            && r.verdict != "allow" && Speaks(p.proto, r.proto)
            && r.src == identity(p.srcIP) && r.dst == identity(p.dstIP) && r.port == p.port
  {
    FlattenOne([r]);
    PacketVerdict([Some([r])], p, identity);
    assert [r][1..] == [];
    var k := PacketKey(p, identity);
    assert Best([r], ProjectsTo(k), RuleLe) == if ProjectsTo(k)(r) then Some(r) else None;
    ProtoNumberExact(r.proto, p.proto);
  }

  // ---------------------------------------------------------------- exact match against first match

  function ProtoName(n: uint8): string {
    if n == TCP then "tcp" else if n == UDP then "udp" else "icmp"
  }

  predicate Transport(p: Packet) {
    p.proto == TCP || p.proto == UDP || p.proto == ICMP
  }

  function FlowOf(p: Packet, identity: uint32 -> uint32): Flow {
    Flow(identity(p.srcIP), identity(p.dstIP), ProtoName(p.proto), p.port)
  }

  function Allows(r: Option<Rule>): bool {
    r.None? || r.value.verdict == ALLOW
  }

  /** The first-match winner is a wildcard rule, and decides otherwise than the best rule with the packet's
      own key, or than the default when there is none. */
  predicate Overruled(rules: seq<Rule>, p: Packet, identity: uint32 -> uint32) {
    var c := Best(rules, Covers(FlowOf(p, identity)), RuleLe);
    && c.Some?
    && Project(c.value) != PacketKey(p, identity)
    && Allows(c) != Allows(Best(rules, ProjectsTo(PacketKey(p, identity)), RuleLe))
  }

  lemma ExactWinner(rules: seq<Rule>, p: Packet, identity: uint32 -> uint32)
    requires AllExpressible(rules) && Transport(p)
    ensures var c, k := Best(rules, Covers(FlowOf(p, identity)), RuleLe), PacketKey(p, identity);
            c.None? || Project(c.value) == k ==> Best(rules, ProjectsTo(k), RuleLe) == c
  {
    var f, k := FlowOf(p, identity), PacketKey(p, identity);
    RuleOrder();
    BestIsLeast(rules, Covers(f), RuleLe);
    BestIsLeast(rules, ProjectsTo(k), RuleLe);
    forall r | r in rules && ProjectsTo(k)(r)
      ensures Covers(f)(r)
    {
      ProjectionCovers(r, p, identity);
    }
    if Best(rules, Covers(f), RuleLe).Some? && Project(Best(rules, Covers(f), RuleLe).value) == k {
      BestOfPart(rules, Covers(f), ProjectsTo(k), RuleLe);
    }
  }

  /** The packet program decides as first match does, exactly when the winner is not a wildcard rule that
      is overruled by the exact key or the default. */
  lemma ExactIsFirstMatch(policies: seq<Option<seq<Rule>>>, p: Packet, identity: uint32 -> uint32)
    requires AllExpressible(Flatten(policies)) && Transport(p)
    ensures var c := Best(Flatten(policies), Covers(FlowOf(p, identity)), RuleLe);
            (HandlePacket(p, identity, Entries(Merge(policies))) == Pass <==> Allows(c)) <==>
            !Overruled(Flatten(policies), p, identity)
  {
    ExactWinner(Flatten(policies), p, identity);
    PacketVerdict(policies, p, identity);
  }

  lemma ProjectionCovers(r: Rule, p: Packet, identity: uint32 -> uint32)
    requires Expressible(r) && Transport(p) && Project(r) == PacketKey(p, identity)
    ensures Covers(FlowOf(p, identity))(r)
  {
  }

  /** A wildcard deny is not enforced on a packet between two identities, although first match denies it. */
  lemma WildcardNotEnforced(p: Packet, identity: uint32 -> uint32)
    requires p.proto == TCP && p.port == 80 && identity(p.srcIP) != 0
    ensures var deny := Rule(0, 0, "tcp", 80, DENY, "iso", "", TIER_NODE_ISOLATION);
            var policies := [Some([deny])];
            && AllExpressible(Flatten(policies))
            && Best(Flatten(policies), Covers(FlowOf(p, identity)), RuleLe) == Some(deny)
            && HandlePacket(p, identity, Entries(Merge(policies))) == Pass
  {
    var deny := Rule(0, 0, "tcp", 80, DENY, "iso", "", TIER_NODE_ISOLATION);
    var policies := [Some([deny])];
    FlattenOne([deny]);
    var k := PacketKey(p, identity);
    assert [deny][1..] == [];
    assert !ProjectsTo(k)(deny);
    assert Best([deny], ProjectsTo(k), RuleLe) == None;
    PacketVerdict(policies, p, identity);
  }

  /** Rules from anyone to anyone, as all node-isolation and platform rules are, never decide a packet
      that has an identity at either end. */
  lemma AnyToAnyInert(rules: seq<Rule>, p: Packet, identity: uint32 -> uint32)
    requires forall r | r in rules :: r.src == 0 && r.dst == 0
    requires identity(p.srcIP) != 0 || identity(p.dstIP) != 0
    ensures HandlePacket(p, identity, Entries(rules)) == Pass
  {
    EntryIsLast(rules, PacketKey(p, identity));
    assert forall i | 0 <= i < |rules| :: rules[i].src == 0 && rules[i].dst == 0;
  }

  /** Rules with any other spelling of the protocol, such as the platform's "UDP" and "TCP", never
      decide a TCP, UDP or ICMP packet. */
  lemma OtherSpellingsInert(rules: seq<Rule>, p: Packet, identity: uint32 -> uint32)
    requires Transport(p) && forall r | r in rules :: ProtoNumber(r.proto) == 0
    ensures HandlePacket(p, identity, Entries(rules)) == Pass
    ensures forall port :: forall r | r in PlatformRules(port) :: ProtoNumber(r.proto) == 0
  {
    EntryIsLast(rules, PacketKey(p, identity));
    assert forall i | 0 <= i < |rules| :: ProtoNumber(rules[i].proto) == 0;
    assert "UDP"[0] != "udp"[0] && "TCP"[0] != "tcp"[0];
    assert |"UDP"| != |"icmp"| && |"TCP"| != |"icmp"|;
    assert "UDP"[0] != "tcp"[0] && "TCP"[0] != "udp"[0];
  }

  /** In general the entry for a map key is the verdict of the lowest-priority merged rule with that key. */
  lemma LowestPriorityDecides(policies: seq<Option<seq<Rule>>>, k: MapKey) returns (r: Rule)
    requires k in Entries(Merge(policies))
    ensures r in Merge(policies) && Project(r) == k && Entries(Merge(policies))[k] == Value(r)
    ensures forall x | x in Merge(policies) && Project(x) == k :: RuleLe(x, r)
  {
    var merged := Merge(policies);
    EntryIsLast(merged, k);
    MergeShape(policies);
    RuleOrder();
    var i :| LastAt(merged, k, i);
    r := merged[i];
    forall x | x in merged && Project(x) == k
      ensures RuleLe(x, r)
    {
      var j :| 0 <= j < |merged| && merged[j] == x;
      assert j <= i;
      assert RuleLe(x, x);
    }
  }

  /** Of two rules with different text keys and one map key, the higher-priority one should decide and
      the other one does. */
  lemma LowerOverwrites(a: Rule, b: Rule)
    requires RuleLe(a, b) && RuleKey(a) != RuleKey(b) && Project(a) == Project(b)
    ensures Best(Flatten([Some([a, b])]), ProjectsTo(Project(a)), RuleLe) == Some(a)
    ensures Project(a) in Entries(Merge([Some([a, b])]))
    ensures Entries(Merge([Some([a, b])]))[Project(a)] == Value(b)
  {
    FlattenOne([a, b]);
    MergedPair(a, b);
    BestOfPair(a, b, Project(a));
    EntriesOfPair(a, b);
  }

  lemma MergedPair(a: Rule, b: Rule)
    requires RuleLe(a, b) && RuleKey(a) != RuleKey(b)
    ensures Merge([Some([a, b])]) == [a, b]
  {
    PairDistinct(a, b, RuleKey);
    MergeFixed([a, b]);
  }

  lemma PairDistinct<K>(a: Rule, b: Rule, key: Rule -> K)
    requires key(a) != key(b)
    ensures DistinctKeys([a, b], key)
  {
  }

  lemma BestOfPair(a: Rule, b: Rule, k: MapKey)
    requires RuleLe(a, b) && Project(a) == k
    ensures Best([a, b], ProjectsTo(k), RuleLe) == Some(a)
  {
    assert [a, b][1..] == [b] && [b][1..] == [];
    var m := ProjectsTo(k);
    assert m(a) && Best([], m, RuleLe) == None;
    assert Best([b], m, RuleLe) == if m(b) then Some(b) else None;
  }

  lemma EntriesOfPair(a: Rule, b: Rule)
    ensures Entries([a, b]) == map[Project(a) := Value(a)][Project(b) := Value(b)]
  {
    assert [a, b][..1] == [a] && [a][..0] == [];
    assert Entries([]) == map[];
    assert Entries([a]) == map[Project(a) := Value(a)];
  }

  /** So a platform rule overwrites a deny of a higher tier when neither protocol is known. */
  lemma DenyOverwritten()
    ensures var deny := Rule(0, 0, "SCTP", 53, DENY, "iso", "", TIER_NODE_ISOLATION);
            var policies := [Some([deny, PlatformRules(9090)[0]])];
            && Denies(Flatten(policies), Project(deny))
            && Project(deny) in Entries(Merge(policies))
            && Entries(Merge(policies))[Project(deny)].verdict == MAP_ALLOW
  {
    var deny := Rule(0, 0, "SCTP", 53, DENY, "iso", "", TIER_NODE_ISOLATION);
    var dns := PlatformRules(9090)[0];
    Keys.KeyExact(0, 0, "SCTP", 53, 0, 0, "UDP", 53);
    assert |"SCTP"| != |"UDP"|;
    assert "UDP"[0] != "udp"[0] && "UDP"[0] != "tcp"[0] && |"UDP"| != |"icmp"|;
    assert "SCTP"[0] != "icmp"[0] && |"SCTP"| != |"tcp"|;
    LowerOverwrites(deny, dns);
    assert DENY[0] != ALLOW[0];
  }
}
