/** Compiling network policies to rules: selectors become identities, and peers, targets and ports a
    cross product (pkg/policy/compiler.go). */
module Compiler {
  import opened Base
  import opened Labels
  import opened Rules
  import opened Sorting
  import Identities
  import Keys
  import SelectorCache

  type Hasher = SelectorCache.Hasher

  /** A peer: a pod selector, or an IP block, which compiles to nothing; namespace selectors are not read. */
  datatype Peer = Pods(podSelector: Labels) | IPBlock(cidr: string)

  datatype Port = Port(protocol: string, port: int)

  /** One ingress or egress rule of a policy. */
  datatype Direction = Direction(peers: seq<Peer>, ports: seq<Port>)

  datatype Spec = Spec(podSelector: Labels, ingress: seq<Direction>, egress: seq<Direction>)

  /** What compilation reads and changes. */
  datatype St = St(ids: Identities.Ids, cache: SelectorCache.Cache)

  /** The two label hashes: of the selector cache and of the identity allocator. */
  datatype Hashes = Hashes(selector: Hasher, identity: Hasher)

  // ---------------------------------------------------------------- resolution

  function PodLabelsOf(cache: SelectorCache.Cache, pod: string): Labels {
    if pod in cache.podLabels then cache.podLabels[pod] else map[]
  }

  /** The live identities of some pods. */
  function LiveOf(st: St, h: Hashes, pods: set<string>): set<uint32> {
    set k | k in pods && h.identity(PodLabelsOf(st.cache, k)) in st.ids.byHash ::
      st.ids.byHash[h.identity(PodLabelsOf(st.cache, k))]
  }

  function Resolved(st: St, h: Hashes, selector: Labels): (St, set<uint32>) {
    var (cache, pods) := SelectorCache.Evaluated(st.cache, h.selector, selector);
    var st1 := St(st.ids, cache);
    var live := LiveOf(st1, h, pods);
    if live != {} then (st1, live)
    else
      var (ids, id) := Identities.Acquired(st.ids, selector, h.identity(selector));
      (St(ids, cache), {id})
  }

  function PeersResolved(st: St, h: Hashes, peers: seq<Peer>): (St, set<uint32>) {
    if peers == [] then (st, {})
    else
      var (st1, ids) := PeersResolved(st, h, peers[..|peers| - 1]);
      var p := peers[|peers| - 1];
      if p.IPBlock? then (st1, ids)
      else
        var (st2, more) := Resolved(st1, h, p.podSelector);
        (st2, ids + more)
  }

  /** No peers means everyone: identity 0. */
  function PeerIDs(st: St, h: Hashes, peers: seq<Peer>): (St, set<uint32>) {
    if peers == [] then (st, {0}) else PeersResolved(st, h, peers)
  }

  /** No ports means any protocol and port. */
  function PortsOf(ports: seq<Port>): seq<Port> {
    if ports == [] then [Port(ANY, 0)] else ports
  }

  // ---------------------------------------------------------------- products

  datatype Origin = Origin(name: string, namespace: string, ingress: bool)

  function TenantRule(o: Origin, target: uint32, peer: uint32, p: Port): Rule {
    if o.ingress then Rule(peer, target, p.protocol, p.port, ALLOW, o.name, o.namespace, TIER_TENANT)
    else Rule(target, peer, p.protocol, p.port, ALLOW, o.name, o.namespace, TIER_TENANT)
  }

  function Product(o: Origin, targets: set<uint32>, peers: set<uint32>, ports: seq<Port>): set<Rule> {
    set t, s, p | t in targets && s in peers && p in ports :: TenantRule(o, t, s, p)
  }

  /** The rules of some directions, resolved one after the other. */
  function Stage(st: St, h: Hashes, o: Origin, targets: set<uint32>, ds: seq<Direction>): (St, set<Rule>) {
    if ds == [] then (st, {})
    else
      var (st1, rules) := Stage(st, h, o, targets, ds[..|ds| - 1]);
      var d := ds[|ds| - 1];
      var (st2, peers) := PeerIDs(st1, h, d.peers);
      (st2, rules + Product(o, targets, peers, PortsOf(d.ports)))
  }

  function Compiled(st: St, h: Hashes, name: string, namespace: string, spec: Spec): (St, set<Rule>) {
    var (st1, targets) := Resolved(st, h, spec.podSelector);
    var (st2, ingress) := Stage(st1, h, Origin(name, namespace, true), targets, spec.ingress);
    var (st3, egress) := Stage(st2, h, Origin(name, namespace, false), targets, spec.egress);
    (st3, ingress + egress)
  }

  lemma {:induction false} StageAllows(st: St, h: Hashes, o: Origin, targets: set<uint32>,
                                       ds: seq<Direction>)
    ensures forall r | r in Stage(st, h, o, targets, ds).1 :: r.verdict == ALLOW
    decreases |ds|
  {
    if ds != [] {
      StageAllows(st, h, o, targets, ds[..|ds| - 1]);
    }
  }

  lemma CompiledAllows(st: St, h: Hashes, name: string, namespace: string, spec: Spec)
    ensures forall r | r in Compiled(st, h, name, namespace, spec).1 :: r.verdict == ALLOW
  {
    var (st1, targets) := Resolved(st, h, spec.podSelector);
    var o, e := Origin(name, namespace, true), Origin(name, namespace, false);
    StageAllows(st1, h, o, targets, spec.ingress);
    var st2 := Stage(st1, h, o, targets, spec.ingress).0;
    StageAllows(st2, h, e, targets, spec.egress);
  }

  // ---------------------------------------------------------------- the declarative meaning

  /** The identities a selector stands for in a state: those of the pods it matches that have one, or
      else the one allocated for the selector's own labels. */
  function IdentitiesOf(st: St, h: Hashes, selector: Labels): set<uint32> {
    var live := LiveOf(st, h, SelectorCache.Naive(st.cache.podLabels, selector));
    if live != {} then live
    else if h.identity(selector) in st.ids.byHash then {st.ids.byHash[h.identity(selector)]}
    else {}
  }

  function PeerUnion(st: St, h: Hashes, peers: seq<Peer>): set<uint32> {
    set p, id | p in peers && p.Pods? && id in IdentitiesOf(st, h, p.podSelector) :: id
  }

  function PeerMeaning(st: St, h: Hashes, peers: seq<Peer>): set<uint32> {
    if peers == [] then {0} else PeerUnion(st, h, peers)
  }

  function DirectionMeaning(st: St, h: Hashes, o: Origin, targets: set<uint32>, ds: seq<Direction>): set<Rule> {
    set d, r | d in ds && r in Product(o, targets, PeerMeaning(st, h, d.peers), PortsOf(d.ports)) :: r
  }

  /** The union of target x peer x port products over ingress and egress, read off one state. */
  function Declared(st: St, h: Hashes, name: string, namespace: string, spec: Spec): set<Rule> {
    var targets := IdentitiesOf(st, h, spec.podSelector);
    DirectionMeaning(st, h, Origin(name, namespace, true), targets, spec.ingress)
    + DirectionMeaning(st, h, Origin(name, namespace, false), targets, spec.egress)
  }

  /** The cache is current and its selectors, like all of dom, have distinct hashes. */
  ghost predicate CacheOk(st: St, h: Hashes, dom: Labels -> bool) {
    && SelectorCache.Inv(st.cache, h.selector)
    && SelectorCache.SpecsInDomain(st.cache, dom)
    && SelectorCache.DistinguishesAll(h.selector, dom)
  }

  /** Same pods; known label hashes keep their identities. */
  ghost predicate Extends(a: St, b: St) {
    && b.cache.podLabels == a.cache.podLabels
    && (forall g | g in a.ids.byHash :: g in b.ids.byHash && b.ids.byHash[g] == a.ids.byHash[g])
  }

  // ---------------------------------------------------------------- selectors in the order of resolution

  /** The state after resolving some selectors one after the other. */
  function After(st: St, h: Hashes, sels: seq<Labels>): St {
    if sels == [] then st else Resolved(After(st, h, sels[..|sels| - 1]), h, sels[|sels| - 1]).0
  }

  function PeerSelectors(peers: seq<Peer>): seq<Labels> {
    if peers == [] then []
    else
      PeerSelectors(peers[..|peers| - 1]) + if peers[|peers| - 1].Pods? then [peers[|peers| - 1].podSelector] else []
  }

  function DirectionSelectors(ds: seq<Direction>): seq<Labels> {
    if ds == [] then [] else DirectionSelectors(ds[..|ds| - 1]) + PeerSelectors(ds[|ds| - 1].peers)
  }

  /** The selectors of a policy as the compiler meets them. */
  function Selectors(spec: Spec): seq<Labels> {
    [spec.podSelector] + DirectionSelectors(spec.ingress) + DirectionSelectors(spec.egress)
  }

  lemma {:induction false} AfterAppend(st: St, h: Hashes, a: seq<Labels>, b: seq<Labels>)
    ensures After(st, h, a + b) == After(After(st, h, a), h, b)
    decreases |b|
  {
    if b == [] {
      assert a + b == a;
    } else {
      assert (a + b)[..|a + b| - 1] == a + b[..|b| - 1];
      AfterAppend(st, h, a, b[..|b| - 1]);
    }
  }

  lemma AfterOne(st: St, h: Hashes, selector: Labels)
    ensures After(st, h, [selector]) == Resolved(st, h, selector).0
  {
    assert [selector][..0] == [];
  }

  /** Selector k, resolved in its turn, gives what it stands for in state z. */
  ghost predicate RightAt(z: St, st: St, h: Hashes, sels: seq<Labels>, k: nat)
    requires k < |sels|
  {
    Resolved(After(st, h, sels[..k]), h, sels[k]).1 == IdentitiesOf(z, h, sels[k])
  }

  ghost predicate Resolves(z: St, st: St, h: Hashes, sels: seq<Labels>) {
    forall k: nat | k < |sels| :: RightAt(z, st, h, sels, k)
  }

  lemma ResolvesAppend(z: St, st: St, h: Hashes, a: seq<Labels>, b: seq<Labels>)
    requires Resolves(z, st, h, a + b)
    ensures Resolves(z, st, h, a) && Resolves(z, After(st, h, a), h, b)
  {
    forall k: nat | k < |a|
      ensures RightAt(z, st, h, a, k)
    {
      assert RightAt(z, st, h, a + b, k);
      assert (a + b)[..k] == a[..k];
    }
    forall k: nat | k < |b|
      ensures RightAt(z, After(st, h, a), h, b, k)
    {
      assert RightAt(z, st, h, a + b, |a| + k);
      assert (a + b)[..|a| + k] == a + b[..k];
      AfterAppend(st, h, a, b[..k]);
    }
  }

  lemma ResolvesOne(z: St, st: St, h: Hashes, selector: Labels)
    requires Resolves(z, st, h, [selector])
    ensures Resolved(st, h, selector).1 == IdentitiesOf(z, h, selector)
  {
    assert RightAt(z, st, h, [selector], 0);
    assert [selector][..0] == [];
  }

  // ---------------------------------------------------------------- from resolutions to rules

  /** One more selector. */
  lemma ResolveNext(z: St, st: St, h: Hashes, before: seq<Labels>, selector: Labels)
    ensures var (st', ids) := Resolved(After(st, h, before), h, selector);
            && st' == After(st, h, before + [selector])
            && (Resolves(z, st, h, before + [selector]) ==> Resolves(z, st, h, before) && ids == IdentitiesOf(z, h, selector))
  {
    AfterAppend(st, h, before, [selector]);
    AfterOne(After(st, h, before), h, selector);
    if Resolves(z, st, h, before + [selector]) {
      ResolvesAppend(z, st, h, before, [selector]);
      ResolvesOne(z, After(st, h, before), h, selector);
    }
  }

  lemma PeerUnionSnoc(z: St, h: Hashes, peers: seq<Peer>, p: Peer)
    ensures PeerUnion(z, h, peers + [p]) ==
            PeerUnion(z, h, peers) + if p.Pods? then IdentitiesOf(z, h, p.podSelector) else {}
  {
    assert forall x :: x in peers + [p] <==> x in peers || x == p;
  }

  lemma {:induction false} PeersFrom(z: St, st: St, h: Hashes, peers: seq<Peer>)
    ensures PeersResolved(st, h, peers).0 == After(st, h, PeerSelectors(peers))
    ensures Resolves(z, st, h, PeerSelectors(peers)) ==> PeersResolved(st, h, peers).1 == PeerUnion(z, h, peers)
    decreases |peers|
  {
    if peers != [] {
      var n := |peers| - 1;
      PeersFrom(z, st, h, peers[..n]);
      assert peers[..n] + [peers[n]] == peers;
      PeerUnionSnoc(z, h, peers[..n], peers[n]);
      if peers[n].Pods? {
        ResolveNext(z, st, h, PeerSelectors(peers[..n]), peers[n].podSelector);
      } else {
        assert PeerSelectors(peers) == PeerSelectors(peers[..n]);
      }
    }
  }

  lemma PeerIDsFrom(z: St, st: St, h: Hashes, peers: seq<Peer>)
    ensures PeerIDs(st, h, peers).0 == After(st, h, PeerSelectors(peers))
    ensures Resolves(z, st, h, PeerSelectors(peers)) ==> PeerIDs(st, h, peers).1 == PeerMeaning(z, h, peers)
  {
    PeersFrom(z, st, h, peers);
  }

  lemma DirectionsSnoc(z: St, h: Hashes, o: Origin, targets: set<uint32>, ds: seq<Direction>)
    requires ds != []
    ensures var d := ds[|ds| - 1];
            DirectionMeaning(z, h, o, targets, ds) ==
            DirectionMeaning(z, h, o, targets, ds[..|ds| - 1]) + Product(o, targets, PeerMeaning(z, h, d.peers), PortsOf(d.ports))
  {
    assert forall d :: d in ds <==> d in ds[..|ds| - 1] || d == ds[|ds| - 1];
  }

  lemma {:induction false} StageFrom(z: St, st: St, h: Hashes, o: Origin, targets: set<uint32>, ds: seq<Direction>)
    ensures Stage(st, h, o, targets, ds).0 == After(st, h, DirectionSelectors(ds))
    ensures Resolves(z, st, h, DirectionSelectors(ds)) ==>
              Stage(st, h, o, targets, ds).1 == DirectionMeaning(z, h, o, targets, ds)
    decreases |ds|
  {
    if ds != [] {
      var n := |ds| - 1;
      var before, last := DirectionSelectors(ds[..n]), PeerSelectors(ds[n].peers);
      StageFrom(z, st, h, o, targets, ds[..n]);
      PeerIDsFrom(z, After(st, h, before), h, ds[n].peers);
      AfterAppend(st, h, before, last);
      if Resolves(z, st, h, before + last) {
        ResolvesAppend(z, st, h, before, last);
        DirectionsSnoc(z, h, o, targets, ds);
      }
    }
  }

  /** A policy whose selectors resolve to what they stand for in z compiles to its meaning in z. */
  lemma CompiledFrom(z: St, st: St, h: Hashes, name: string, namespace: string, spec: Spec)
    ensures Compiled(st, h, name, namespace, spec).0 == After(st, h, Selectors(spec))
    ensures Resolves(z, st, h, Selectors(spec)) ==>
              Compiled(st, h, name, namespace, spec).1 == Declared(z, h, name, namespace, spec)
  {
    var one, ingress, egress := [spec.podSelector], DirectionSelectors(spec.ingress), DirectionSelectors(spec.egress);
    var (st1, targets) := Resolved(st, h, spec.podSelector);
    var o, e := Origin(name, namespace, true), Origin(name, namespace, false);
    AfterOne(st, h, spec.podSelector);
    StageFrom(z, st1, h, o, targets, spec.ingress);
    StageFrom(z, After(st1, h, ingress), h, e, targets, spec.egress);
    AfterAppend(st, h, one, ingress);
    AfterAppend(st, h, one + ingress, egress);
    if Resolves(z, st, h, Selectors(spec)) {
      ResolvesAppend(z, st, h, one + ingress, egress);
      ResolvesAppend(z, st, h, one, ingress);
      ResolvesOne(z, st, h, spec.podSelector);
    }
  }

  // ---------------------------------------------------------------- what resolving changes

  ghost predicate AllIn(sels: seq<Labels>, dom: Labels -> bool) {
    forall s | s in sels :: dom(s)
  }

  /** The live identities of the pods a selector matches. */
  function LiveMatched(st: St, h: Hashes, selector: Labels): set<uint32> {
    LiveOf(st, h, SelectorCache.Naive(st.cache.podLabels, selector))
  }

  /** With a current cache a resolution gives the live identities of the matching pods and changes none, or
      acquires the selector's own. */
  lemma ResolvedStep(st: St, h: Hashes, selector: Labels, dom: Labels -> bool)
    requires CacheOk(st, h, dom) && dom(selector)
    ensures var (st', ids) := Resolved(st, h, selector);
            var live := LiveMatched(st, h, selector);
            var (acquired, id) := Identities.Acquired(st.ids, selector, h.identity(selector));
            && CacheOk(st', h, dom) && st'.cache.podLabels == st.cache.podLabels
            && (live != {} ==> ids == live && st'.ids == st.ids)
            && (live == {} ==> ids == {id} && st'.ids == acquired)
  {
    SelectorCache.EvaluatedKeeps(st.cache, h.selector, selector, dom);
    var (cache, pods) := SelectorCache.Evaluated(st.cache, h.selector, selector);
    LiveSame(st, St(st.ids, cache), h, pods);
  }

  /** The live identities of pods depend on the pods and on the hash table alone. */
  lemma LiveSame(a: St, b: St, h: Hashes, pods: set<string>)
    requires a.cache.podLabels == b.cache.podLabels
    requires forall k | k in pods ::
               var g := h.identity(PodLabelsOf(a.cache, k));
               (g in a.ids.byHash <==> g in b.ids.byHash) && (g in a.ids.byHash ==> a.ids.byHash[g] == b.ids.byHash[g])
    ensures LiveOf(a, h, pods) == LiveOf(b, h, pods)
  {
  }

  /** Right after its resolution a selector stands for what it resolved to. */
  lemma ResolvedMeaning(st: St, h: Hashes, selector: Labels, dom: Labels -> bool)
    requires CacheOk(st, h, dom) && dom(selector)
    ensures var (st', ids) := Resolved(st, h, selector);
            && CacheOk(st', h, dom) && Extends(st, st')
            && ids == IdentitiesOf(st', h, selector) && ids != {}
  {
    ResolvedStep(st, h, selector, dom);
    var (st', ids) := Resolved(st, h, selector);
    var pods := SelectorCache.Naive(st.cache.podLabels, selector);
    if LiveMatched(st, h, selector) != {} {
      LiveSame(st, st', h, pods);
    } else {
      OnlyOwn(st, st', h, selector, pods);
    }
  }

  lemma HasLive(st: St, h: Hashes, pods: set<string>, k: string)
    requires k in pods
    ensures h.identity(PodLabelsOf(st.cache, k)) in st.ids.byHash ==> LiveOf(st, h, pods) != {}
  {
    var g := h.identity(PodLabelsOf(st.cache, k));
    assert g in st.ids.byHash ==> st.ids.byHash[g] in LiveOf(st, h, pods);
  }

  /** When no pod had a live identity, the only one they can have afterwards is the selector's own. */
  lemma OnlyOwn(st: St, st': St, h: Hashes, selector: Labels, pods: set<string>)
    requires LiveOf(st, h, pods) == {} && st'.cache.podLabels == st.cache.podLabels
    requires st'.ids == Identities.Acquired(st.ids, selector, h.identity(selector)).0
    ensures LiveOf(st', h, pods) <= {Identities.Acquired(st.ids, selector, h.identity(selector)).1}
  {
    var id := Identities.Acquired(st.ids, selector, h.identity(selector)).1;
    forall x | x in LiveOf(st', h, pods)
      ensures x == id
    {
      var k :| k in pods && h.identity(PodLabelsOf(st'.cache, k)) in st'.ids.byHash
               && x == st'.ids.byHash[h.identity(PodLabelsOf(st'.cache, k))];
      var g := h.identity(PodLabelsOf(st.cache, k));
      HasLive(st, h, pods, k);
    }
  }

  lemma {:induction false} AfterOk(st: St, h: Hashes, sels: seq<Labels>, dom: Labels -> bool)
    requires CacheOk(st, h, dom) && AllIn(sels, dom)
    ensures CacheOk(After(st, h, sels), h, dom) && Extends(st, After(st, h, sels))
    decreases |sels|
  {
    if sels != [] {
      AfterOk(st, h, sels[..|sels| - 1], dom);
      ResolvedMeaning(After(st, h, sels[..|sels| - 1]), h, sels[|sels| - 1], dom);
    }
  }

  /** Resolving the rest extends what resolving a prefix has left. */
  lemma PrefixExtends(st: St, h: Hashes, sels: seq<Labels>, i: nat, dom: Labels -> bool)
    requires CacheOk(st, h, dom) && AllIn(sels, dom) && i <= |sels|
    ensures CacheOk(After(st, h, sels[..i]), h, dom)
    ensures Extends(st, After(st, h, sels[..i])) && Extends(After(st, h, sels[..i]), After(st, h, sels))
  {
    assert sels[..i] + sels[i..] == sels;
    AfterAppend(st, h, sels[..i], sels[i..]);
    AfterOk(st, h, sels[..i], dom);
    AfterOk(After(st, h, sels[..i]), h, sels[i..], dom);
  }

  // ---------------------------------------------------------------- when compiling disturbs itself

  /** Resolving the selector creates an identity for its own labels. */
  predicate Allocates(st: St, h: Hashes, selector: Labels) {
    LiveMatched(st, h, selector) == {} && h.identity(selector) !in st.ids.byHash
  }

  /** A pod the selector matches has labels with this hash. */
  ghost predicate Carried(pods: map<string, Labels>, h: Hashes, selector: Labels, g: Digest) {
    exists k :: k in pods && SelectorCache.Matches(pods[k], selector) && h.identity(pods[k]) == g
  }

  /** Selector j creates an identity that a pod matched by the earlier selector k then has. */
  ghost predicate Disturbs(st: St, h: Hashes, sels: seq<Labels>, k: nat, j: nat)
    requires k < j < |sels|
  {
    && Allocates(After(st, h, sels[..j]), h, sels[j])
    && Carried(st.cache.podLabels, h, sels[k], h.identity(sels[j]))
  }

  ghost predicate Undisturbed(st: St, h: Hashes, sels: seq<Labels>) {
    forall k: nat, j: nat | k < j < |sels| :: !Disturbs(st, h, sels, k, j)
  }

  lemma NewHere(st: St, h: Hashes, selector: Labels, g: Digest, dom: Labels -> bool)
    requires CacheOk(st, h, dom) && dom(selector)
    requires g !in st.ids.byHash && g in Resolved(st, h, selector).0.ids.byHash
    ensures h.identity(selector) == g && Allocates(st, h, selector)
  {
    ResolvedStep(st, h, selector, dom);
  }

  /** A hash that is new at the end was allocated by some selector. */
  lemma {:induction false} NewFrom(st: St, h: Hashes, sels: seq<Labels>, i: nat, g: Digest, dom: Labels -> bool)
    returns (j: nat)
    requires CacheOk(st, h, dom) && AllIn(sels, dom) && i <= |sels|
    requires g !in After(st, h, sels[..i]).ids.byHash && g in After(st, h, sels).ids.byHash
    ensures i <= j < |sels| && h.identity(sels[j]) == g && Allocates(After(st, h, sels[..j]), h, sels[j])
    decreases |sels| - i
  {
    assert sels[..|sels|] == sels;
    assert sels[..i + 1][..i] == sels[..i];
    if g in After(st, h, sels[..i + 1]).ids.byHash {
      j := i;
      AfterOk(st, h, sels[..i], dom);
      NewHere(After(st, h, sels[..i]), h, sels[i], g, dom);
    } else {
      j := NewFrom(st, h, sels, i + 1, g, dom);
    }
  }

  /** What a selector stands for does not change while no pod it matches gets an identity. */
  lemma MeaningKept(a: St, b: St, h: Hashes, selector: Labels)
    requires Extends(a, b) && IdentitiesOf(a, h, selector) != {}
    requires forall g | Carried(a.cache.podLabels, h, selector, g) :: g in b.ids.byHash ==> g in a.ids.byHash
    ensures IdentitiesOf(b, h, selector) == IdentitiesOf(a, h, selector)
  {
    var pods := SelectorCache.Naive(a.cache.podLabels, selector);
    forall k | k in pods
      ensures var g := h.identity(PodLabelsOf(a.cache, k)); g in b.ids.byHash ==> g in a.ids.byHash
    {
      assert Carried(a.cache.podLabels, h, selector, h.identity(a.cache.podLabels[k]));
    }
    LiveSame(a, b, h, pods);
  }

  /** Selector k resolves to what it stands for right afterwards. */
  lemma RightAfter(st: St, h: Hashes, sels: seq<Labels>, k: nat, dom: Labels -> bool)
    requires CacheOk(st, h, dom) && AllIn(sels, dom) && k < |sels|
    ensures var a := After(st, h, sels[..k + 1]);
            && Resolved(After(st, h, sels[..k]), h, sels[k]).1 == IdentitiesOf(a, h, sels[k]) != {}
            && Extends(st, a) && Extends(a, After(st, h, sels))
  {
    assert sels[..k + 1][..k] == sels[..k];
    PrefixExtends(st, h, sels, k, dom);
    PrefixExtends(st, h, sels, k + 1, dom);
    ResolvedMeaning(After(st, h, sels[..k]), h, sels[k], dom);
  }

  lemma UndisturbedRight(st: St, h: Hashes, sels: seq<Labels>, k: nat, dom: Labels -> bool)
    requires CacheOk(st, h, dom) && AllIn(sels, dom) && k < |sels| && Undisturbed(st, h, sels)
    ensures RightAt(After(st, h, sels), st, h, sels, k)
  {
    var a, z := After(st, h, sels[..k + 1]), After(st, h, sels);
    RightAfter(st, h, sels, k, dom);
    forall g | Carried(a.cache.podLabels, h, sels[k], g)
      ensures g in z.ids.byHash ==> g in a.ids.byHash
    {
      if g in z.ids.byHash && g !in a.ids.byHash {
        var j := NewFrom(st, h, sels, k + 1, g, dom);
        assert Disturbs(st, h, sels, k, j);
        assert false;
      }
    }
    MeaningKept(a, z, h, sels[k]);
  }

  lemma ResolvedInv(st: St, h: Hashes, selector: Labels, created: nat, dom: Labels -> bool) returns (now: nat)
    requires CacheOk(st, h, dom) && dom(selector)
    requires Identities.Inv(st.ids, created) && created + 1 < TWO32
    ensures Identities.Inv(Resolved(st, h, selector).0.ids, now) && now <= created + 1
  {
    now := created;
    ResolvedStep(st, h, selector, dom);
    if LiveMatched(st, h, selector) == {} {
      Identities.AcquiredInv(st.ids, created, selector, h.identity(selector));
      now := created + Identities.Creations(st.ids, h.identity(selector));
    }
  }

  lemma {:induction false} AfterInv(st: St, h: Hashes, sels: seq<Labels>, created: nat, dom: Labels -> bool) returns (now: nat)
    requires CacheOk(st, h, dom) && AllIn(sels, dom)
    requires Identities.Inv(st.ids, created) && created + |sels| < TWO32
    ensures Identities.Inv(After(st, h, sels).ids, now) && now <= created + |sels|
    decreases |sels|
  {
    now := created;
    if sels != [] {
      var n := |sels| - 1;
      now := AfterInv(st, h, sels[..n], created, dom);
      AfterOk(st, h, sels[..n], dom);
      now := ResolvedInv(After(st, h, sels[..n]), h, sels[n], now, dom);
    }
  }

  /** Every identity a selector stands for is that of a live hash. */
  lemma MeaningIsLive(st: St, h: Hashes, selector: Labels, id: uint32) returns (g: Digest)
    requires id in IdentitiesOf(st, h, selector)
    ensures g in st.ids.byHash && st.ids.byHash[g] == id
  {
    if id in LiveMatched(st, h, selector) {
      var k :| k in SelectorCache.Naive(st.cache.podLabels, selector)
               && h.identity(PodLabelsOf(st.cache, k)) in st.ids.byHash
               && id == st.ids.byHash[h.identity(PodLabelsOf(st.cache, k))];
      g := h.identity(PodLabelsOf(st.cache, k));
    } else {
      g := h.identity(selector);
    }
  }

  lemma CarriedStands(z: St, h: Hashes, selector: Labels, g: Digest)
    requires Carried(z.cache.podLabels, h, selector, g) && g in z.ids.byHash
    ensures z.ids.byHash[g] in IdentitiesOf(z, h, selector)
  {
    var k :| k in z.cache.podLabels && SelectorCache.Matches(z.cache.podLabels[k], selector)
             && h.identity(z.cache.podLabels[k]) == g;
    assert k in SelectorCache.Naive(z.cache.podLabels, selector);
    assert z.ids.byHash[g] in LiveMatched(z, h, selector);
  }

  /** A selector stands for something else once a pod it matches has got an identity. */
  lemma StandsDiffer(a: St, z: St, h: Hashes, selector: Labels, g: Digest)
    requires Extends(a, z) && Identities.HashesLive(z.ids)
    requires Carried(z.cache.podLabels, h, selector, g) && g in z.ids.byHash && g !in a.ids.byHash
    ensures IdentitiesOf(a, h, selector) != IdentitiesOf(z, h, selector)
  {
    CarriedStands(z, h, selector, g);
    if z.ids.byHash[g] in IdentitiesOf(a, h, selector) {
      var other := MeaningIsLive(a, h, selector, z.ids.byHash[g]);
    }
  }

  lemma AllocatesNew(st: St, h: Hashes, selector: Labels, dom: Labels -> bool)
    requires CacheOk(st, h, dom) && dom(selector) && Allocates(st, h, selector)
    ensures h.identity(selector) in Resolved(st, h, selector).0.ids.byHash
  {
    ResolvedStep(st, h, selector, dom);
  }

  /** What selector j allocates is not there when an earlier selector is resolved, and is in the end. */
  lemma AllocatedBetween(st: St, h: Hashes, sels: seq<Labels>, i: nat, j: nat, dom: Labels -> bool)
    requires CacheOk(st, h, dom) && AllIn(sels, dom) && i <= j < |sels|
    requires Allocates(After(st, h, sels[..j]), h, sels[j])
    ensures h.identity(sels[j]) !in After(st, h, sels[..i]).ids.byHash
    ensures h.identity(sels[j]) in After(st, h, sels).ids.byHash
  {
    assert sels[..j][..i] == sels[..i] && sels[..j + 1][..j] == sels[..j];
    PrefixExtends(st, h, sels[..j], i, dom);
    PrefixExtends(st, h, sels, j, dom);
    AllocatesNew(After(st, h, sels[..j]), h, sels[j], dom);
    PrefixExtends(st, h, sels, j + 1, dom);
  }

  lemma AfterLive(st: St, h: Hashes, sels: seq<Labels>, created: nat, dom: Labels -> bool)
    requires CacheOk(st, h, dom) && AllIn(sels, dom)
    requires Identities.Inv(st.ids, created) && created + |sels| < TWO32
    ensures Identities.HashesLive(After(st, h, sels).ids)
  {
    var now := AfterInv(st, h, sels, created, dom);
  }

  lemma StandsDifferLater(st: St, h: Hashes, sels: seq<Labels>, k: nat, j: nat, created: nat, dom: Labels -> bool)
    requires CacheOk(st, h, dom) && AllIn(sels, dom) && k < j < |sels| && Disturbs(st, h, sels, k, j)
    requires Identities.Inv(st.ids, created) && created + |sels| < TWO32
    ensures IdentitiesOf(After(st, h, sels[..k + 1]), h, sels[k]) != IdentitiesOf(After(st, h, sels), h, sels[k])
  {
    AfterLive(st, h, sels, created, dom);
    AllocatedBetween(st, h, sels, k + 1, j, dom);
    PrefixExtends(st, h, sels, k + 1, dom);
    StandsDiffer(After(st, h, sels[..k + 1]), After(st, h, sels), h, sels[k], h.identity(sels[j]));
  }

  lemma DisturbedWrong(st: St, h: Hashes, sels: seq<Labels>, k: nat, j: nat, created: nat, dom: Labels -> bool)
    requires CacheOk(st, h, dom) && AllIn(sels, dom) && k < j < |sels| && Disturbs(st, h, sels, k, j)
    requires Identities.Inv(st.ids, created) && created + |sels| < TWO32
    ensures !RightAt(After(st, h, sels), st, h, sels, k)
  {
    StandsDifferLater(st, h, sels, k, j, created, dom);
    RightAfter(st, h, sels, k, dom);
  }

  /** The selectors, resolved one after the other, give what they stand for in the end, exactly when none
      allocates an identity that a pod matched by an earlier one has. */
  lemma ResolvesExact(st: St, h: Hashes, sels: seq<Labels>, created: nat, dom: Labels -> bool)
    requires CacheOk(st, h, dom) && AllIn(sels, dom)
    requires Identities.Inv(st.ids, created) && created + |sels| < TWO32
    ensures Resolves(After(st, h, sels), st, h, sels) <==> Undisturbed(st, h, sels)
  {
    if Undisturbed(st, h, sels) {
      UndisturbedResolves(st, h, sels, dom);
    } else {
      var k: nat, j: nat :| k < j < |sels| && Disturbs(st, h, sels, k, j);
      DisturbedWrong(st, h, sels, k, j, created, dom);
    }
  }

  lemma UndisturbedResolves(st: St, h: Hashes, sels: seq<Labels>, dom: Labels -> bool)
    requires CacheOk(st, h, dom) && AllIn(sels, dom) && Undisturbed(st, h, sels)
    ensures Resolves(After(st, h, sels), st, h, sels)
  {
    forall k: nat | k < |sels|
      ensures RightAt(After(st, h, sels), st, h, sels, k)
    {
      UndisturbedRight(st, h, sels, k, dom);
    }
  }

  // ---------------------------------------------------------------- resolving again

  /** Nothing is left to allocate for the selectors. */
  ghost predicate Settled(z: St, h: Hashes, sels: seq<Labels>) {
    forall s | s in sels :: IdentitiesOf(z, h, s) != {}
  }

  lemma StandsLater(a: St, b: St, h: Hashes, selector: Labels)
    requires Extends(a, b) && IdentitiesOf(a, h, selector) != {}
    ensures IdentitiesOf(b, h, selector) != {}
  {
    var id :| id in IdentitiesOf(a, h, selector);
    if id in LiveMatched(a, h, selector) {
      var k :| k in SelectorCache.Naive(a.cache.podLabels, selector)
               && h.identity(PodLabelsOf(a.cache, k)) in a.ids.byHash;
      assert b.ids.byHash[h.identity(PodLabelsOf(b.cache, k))] in LiveMatched(b, h, selector);
    }
  }

  lemma AfterSettles(st: St, h: Hashes, sels: seq<Labels>, dom: Labels -> bool)
    requires CacheOk(st, h, dom) && AllIn(sels, dom)
    ensures Settled(After(st, h, sels), h, sels)
  {
    forall s | s in sels
      ensures IdentitiesOf(After(st, h, sels), h, s) != {}
    {
      var k :| 0 <= k < |sels| && sels[k] == s;
      assert sels[..k + 1][..k] == sels[..k];
      RightAfter(st, h, sels, k, dom);
      StandsLater(After(st, h, sels[..k + 1]), After(st, h, sels), h, s);
    }
  }

  /** Same pods and same hash table. */
  ghost predicate SameView(a: St, b: St) {
    a.cache.podLabels == b.cache.podLabels && a.ids.byHash == b.ids.byHash
  }

  lemma SameMeaning(a: St, b: St, h: Hashes, selector: Labels)
    requires SameView(a, b)
    ensures IdentitiesOf(a, h, selector) == IdentitiesOf(b, h, selector)
  {
    LiveSame(a, b, h, SelectorCache.Naive(a.cache.podLabels, selector));
  }

  lemma ResolvedAgain(z: St, b: St, h: Hashes, selector: Labels, dom: Labels -> bool)
    requires CacheOk(b, h, dom) && dom(selector) && SameView(z, b) && IdentitiesOf(z, h, selector) != {}
    ensures var (b', ids) := Resolved(b, h, selector);
            CacheOk(b', h, dom) && SameView(z, b') && ids == IdentitiesOf(z, h, selector)
  {
    ResolvedStep(b, h, selector, dom);
    ResolvedMeaning(b, h, selector, dom);
    var b' := Resolved(b, h, selector).0;
    SameMeaning(z, b, h, selector);
    if LiveMatched(b, h, selector) == {} {
      assert h.identity(selector) in b.ids.byHash;
    }
    assert b'.ids.byHash == z.ids.byHash;
    SameMeaning(z, b', h, selector);
  }

  lemma ResolvesSnoc(z: St, st: St, h: Hashes, sels: seq<Labels>)
    requires sels != [] && Resolves(z, st, h, sels[..|sels| - 1])
    requires Resolved(After(st, h, sels[..|sels| - 1]), h, sels[|sels| - 1]).1 == IdentitiesOf(z, h, sels[|sels| - 1])
    ensures Resolves(z, st, h, sels)
  {
    var n := |sels| - 1;
    forall k: nat | k < |sels|
      ensures RightAt(z, st, h, sels, k)
    {
      if k < n {
        assert RightAt(z, st, h, sels[..n], k);
        assert sels[..n][..k] == sels[..k];
      }
    }
  }

  /** In a settled state resolving allocates nothing new, and gives what the selectors stand for. */
  lemma {:induction false} SettledResolves(z: St, h: Hashes, sels: seq<Labels>, dom: Labels -> bool)
    requires CacheOk(z, h, dom) && AllIn(sels, dom) && Settled(z, h, sels)
    ensures CacheOk(After(z, h, sels), h, dom) && SameView(z, After(z, h, sels))
    ensures Resolves(z, z, h, sels)
    decreases |sels|
  {
    if sels != [] {
      var n := |sels| - 1;
      SettledResolves(z, h, sels[..n], dom);
      ResolvedAgain(z, After(z, h, sels[..n]), h, sels[n], dom);
      ResolvesSnoc(z, z, h, sels);
    }
  }

  /** Each selector, resolved a second time in the same order, gives the identities of the first. */
  ghost predicate SameAgain(st: St, h: Hashes, sels: seq<Labels>) {
    forall k: nat | k < |sels| ::
      Resolved(After(st, h, sels[..k]), h, sels[k]).1 == Resolved(After(After(st, h, sels), h, sels[..k]), h, sels[k]).1
  }

  lemma SameAgainIsRight(z: St, st: St, h: Hashes, sels: seq<Labels>)
    requires z == After(st, h, sels) && Resolves(z, z, h, sels)
    ensures SameAgain(st, h, sels) <==> Resolves(z, st, h, sels)
  {
    forall k: nat | k < |sels|
      ensures Resolved(After(st, h, sels[..k]), h, sels[k]).1 == Resolved(After(z, h, sels[..k]), h, sels[k]).1
              <==> RightAt(z, st, h, sels, k)
    {
      assert RightAt(z, z, h, sels, k);
    }
  }

  /** Resolving the selectors of unchanged policies again gives the same identities for each, if and only if
      no selector allocates an identity for labels carried by a pod that an earlier one matches. */
  lemma ResolveAgainExact(st: St, h: Hashes, sels: seq<Labels>, created: nat, dom: Labels -> bool)
    requires CacheOk(st, h, dom) && AllIn(sels, dom)
    requires Identities.Inv(st.ids, created) && created + |sels| < TWO32
    ensures SameAgain(st, h, sels) <==> Undisturbed(st, h, sels)
  {
    AfterOk(st, h, sels, dom);
    AfterSettles(st, h, sels, dom);
    SettledResolves(After(st, h, sels), h, sels, dom);
    ResolvesExact(st, h, sels, created, dom);
    SameAgainIsRight(After(st, h, sels), st, h, sels);
  }

  /** Every cached pod that a selector matches, and that carries the labels of one, has an identity. */
  ghost predicate NeededLive(st: St, h: Hashes, sels: seq<Labels>) {
    forall s, t | s in sels && t in sels && Carried(st.cache.podLabels, h, s, h.identity(t)) ::
      h.identity(t) in st.ids.byHash
  }

  /** Then no selector disturbs another; so much the more when every cached pod has an identity. */
  lemma NeededLiveUndisturbed(st: St, h: Hashes, sels: seq<Labels>, dom: Labels -> bool)
    requires CacheOk(st, h, dom) && AllIn(sels, dom) && NeededLive(st, h, sels)
    ensures Undisturbed(st, h, sels)
  {
    forall k: nat, j: nat | k < j < |sels|
      ensures !Disturbs(st, h, sels, k, j)
    {
      PrefixExtends(st, h, sels, j, dom);
      assert sels[k] in sels && sels[j] in sels;
    }
  }

  // ---------------------------------------------------------------- compiling and recompiling

  /** A policy whose selectors do not disturb each other compiles to exactly its declarative meaning in the
      state it leaves behind, although compiling allocates identities on the way. */
  lemma CompileMeaning(st: St, h: Hashes, name: string, namespace: string, spec: Spec, dom: Labels -> bool)
    requires CacheOk(st, h, dom) && AllIn(Selectors(spec), dom) && Undisturbed(st, h, Selectors(spec))
    ensures var (st', rules) := Compiled(st, h, name, namespace, spec);
            rules == Declared(st', h, name, namespace, spec) && CacheOk(st', h, dom) && Extends(st, st')
  {
    var z := After(st, h, Selectors(spec));
    UndisturbedResolves(st, h, Selectors(spec), dom);
    AfterOk(st, h, Selectors(spec), dom);
    CompiledFrom(z, st, h, name, namespace, spec);
  }

  /** The direction admits the identity: it is one of a pod peer, or 0 when there are no peers at all. */
  ghost predicate PeerOf(st: St, h: Hashes, d: Direction, id: uint32) {
    if d.peers == [] then id == 0
    else exists p :: p in d.peers && p.Pods? && id in IdentitiesOf(st, h, p.podSelector)
  }

  /** Protocol and port are one of the ports, or ANY and 0 when there are none. */
  predicate AdmitsPort(ports: seq<Port>, proto: string, port: int) {
    if ports == [] then proto == "ANY" && port == 0 else Port(proto, port) in ports
  }

  /** A rule of a network policy, field by field: from a peer to a target for ingress, from a target to a peer
      for egress. */
  ghost predicate PolicyRule(st: St, h: Hashes, name: string, namespace: string, spec: Spec, r: Rule) {
    && r.name == name && r.namespace == namespace && r.tier == 2 && r.verdict == "allow"
    && (|| (&& r.dst in IdentitiesOf(st, h, spec.podSelector)
            && exists d :: d in spec.ingress && PeerOf(st, h, d, r.src) && AdmitsPort(d.ports, r.proto, r.port))
        || (&& r.src in IdentitiesOf(st, h, spec.podSelector)
            && exists d :: d in spec.egress && PeerOf(st, h, d, r.dst) && AdmitsPort(d.ports, r.proto, r.port)))
  }

  lemma PeerMeaningExact(st: St, h: Hashes, d: Direction, id: uint32)
    ensures id in PeerMeaning(st, h, d.peers) <==> PeerOf(st, h, d, id)
  {
  }

  lemma PortsExact(ports: seq<Port>, p: Port)
    ensures p in PortsOf(ports) <==> AdmitsPort(ports, p.protocol, p.port)
  {
    assert p == Port(p.protocol, p.port);
  }

  lemma IngressExact(st: St, h: Hashes, name: string, namespace: string, targets: set<uint32>, ds: seq<Direction>, r: Rule)
    ensures r in DirectionMeaning(st, h, Origin(name, namespace, true), targets, ds) <==>
            && r.name == name && r.namespace == namespace && r.tier == 2 && r.verdict == "allow" && r.dst in targets
            && exists d :: d in ds && PeerOf(st, h, d, r.src) && AdmitsPort(d.ports, r.proto, r.port)
  {
    var o := Origin(name, namespace, true);
    forall d | d in ds
      ensures r in Product(o, targets, PeerMeaning(st, h, d.peers), PortsOf(d.ports)) <==>
              && r.name == name && r.namespace == namespace && r.tier == 2 && r.verdict == "allow" && r.dst in targets
              && PeerOf(st, h, d, r.src) && AdmitsPort(d.ports, r.proto, r.port)
    {
      PeerMeaningExact(st, h, d, r.src);
      PortsExact(d.ports, Port(r.proto, r.port));
      ProductIngress(name, namespace, targets, PeerMeaning(st, h, d.peers), PortsOf(d.ports), r);
    }
  }

  lemma ProductIngress(name: string, namespace: string, targets: set<uint32>, peers: set<uint32>, ports: seq<Port>, r: Rule)
    ensures r in Product(Origin(name, namespace, true), targets, peers, ports) <==>
            && r.name == name && r.namespace == namespace && r.tier == 2 && r.verdict == "allow"
            && r.dst in targets && r.src in peers && Port(r.proto, r.port) in ports
  {
    var o := Origin(name, namespace, true);
    if r.dst in targets && r.src in peers && Port(r.proto, r.port) in ports {
      assert TenantRule(o, r.dst, r.src, Port(r.proto, r.port)) in Product(o, targets, peers, ports);
    }
  }

  lemma ProductEgress(name: string, namespace: string, targets: set<uint32>, peers: set<uint32>, ports: seq<Port>, r: Rule)
    ensures r in Product(Origin(name, namespace, false), targets, peers, ports) <==>
            && r.name == name && r.namespace == namespace && r.tier == 2 && r.verdict == "allow"
            && r.src in targets && r.dst in peers && Port(r.proto, r.port) in ports
  {
    var o := Origin(name, namespace, false);
    if r.src in targets && r.dst in peers && Port(r.proto, r.port) in ports {
      assert TenantRule(o, r.src, r.dst, Port(r.proto, r.port)) in Product(o, targets, peers, ports);
    }
  }

  lemma EgressExact(st: St, h: Hashes, name: string, namespace: string, targets: set<uint32>, ds: seq<Direction>, r: Rule)
    ensures r in DirectionMeaning(st, h, Origin(name, namespace, false), targets, ds) <==>
            && r.name == name && r.namespace == namespace && r.tier == 2 && r.verdict == "allow" && r.src in targets
            && exists d :: d in ds && PeerOf(st, h, d, r.dst) && AdmitsPort(d.ports, r.proto, r.port)
  {
    var o := Origin(name, namespace, false);
    forall d | d in ds
      ensures r in Product(o, targets, PeerMeaning(st, h, d.peers), PortsOf(d.ports)) <==>
              && r.name == name && r.namespace == namespace && r.tier == 2 && r.verdict == "allow" && r.src in targets
              && PeerOf(st, h, d, r.dst) && AdmitsPort(d.ports, r.proto, r.port)
    {
      PeerMeaningExact(st, h, d, r.dst);
      PortsExact(d.ports, Port(r.proto, r.port));
      ProductEgress(name, namespace, targets, PeerMeaning(st, h, d.peers), PortsOf(d.ports), r);
    }
  }

  /** The rules an undisturbed policy compiles to, field by field and in both directions. */
  lemma CompiledRules(st: St, h: Hashes, name: string, namespace: string, spec: Spec, dom: Labels -> bool, r: Rule)
    requires CacheOk(st, h, dom) && AllIn(Selectors(spec), dom) && Undisturbed(st, h, Selectors(spec))
    ensures var (st', rules) := Compiled(st, h, name, namespace, spec);
            r in rules <==> PolicyRule(st', h, name, namespace, spec, r)
  {
    CompileMeaning(st, h, name, namespace, spec, dom);
    DeclaredExact(Compiled(st, h, name, namespace, spec).0, h, name, namespace, spec, r);
  }

  lemma DeclaredExact(st: St, h: Hashes, name: string, namespace: string, spec: Spec, r: Rule)
    ensures r in Declared(st, h, name, namespace, spec) <==> PolicyRule(st, h, name, namespace, spec, r)
  {
    var targets := IdentitiesOf(st, h, spec.podSelector);
    IngressExact(st, h, name, namespace, targets, spec.ingress, r);
    EgressExact(st, h, name, namespace, targets, spec.egress, r);
  }

  /** Compiling the unchanged policy again then gives the same rules. */
  lemma RecompileSame(st: St, h: Hashes, name: string, namespace: string, spec: Spec, dom: Labels -> bool)
    requires CacheOk(st, h, dom) && AllIn(Selectors(spec), dom) && Undisturbed(st, h, Selectors(spec))
    ensures var (st1, rules1) := Compiled(st, h, name, namespace, spec);
            var (st2, rules2) := Compiled(st1, h, name, namespace, spec);
            rules1 == rules2
  {
    var z := After(st, h, Selectors(spec));
    CompileMeaning(st, h, name, namespace, spec, dom);
    AfterSettles(st, h, Selectors(spec), dom);
    CompiledFrom(z, st, h, name, namespace, spec);
    SettledResolves(z, h, Selectors(spec), dom);
    CompiledFrom(z, z, h, name, namespace, spec);
  }

  // ---------------------------------------------------------------- a policy that disturbs itself

  /** Resolving a selector that matches one pod, by cache hit or miss. */
  lemma ResolvedOnePod(st: St, h: Hashes, pod: string, selector: Labels)
    requires st.cache.podLabels.Keys == {pod} && SelectorCache.Matches(st.cache.podLabels[pod], selector)
    requires h.selector(selector) in st.cache.results ==> st.cache.results[h.selector(selector)] == {pod}
    ensures var (st', ids) := Resolved(st, h, selector);
            var labels := st.cache.podLabels[pod];
            var g := h.identity(labels);
            && st'.cache.podLabels == st.cache.podLabels
            && st'.cache.results == st.cache.results[h.selector(selector) := {pod}]
            && (g in st.ids.byHash ==> ids == {st.ids.byHash[g]} && st'.ids == st.ids)
            && (g !in st.ids.byHash ==>
                  var (acquired, id) := Identities.Acquired(st.ids, selector, h.identity(selector));
                  ids == {id} && st'.ids == acquired)
  {
    assert SelectorCache.Naive(st.cache.podLabels, selector) == {pod};
    if h.selector(selector) in st.cache.results {
      assert st.cache.results[h.selector(selector) := {pod}] == st.cache.results;
    }
    var (cache, pods) := SelectorCache.Evaluated(st.cache, h.selector, selector);
    assert pods == {pod};
    var g := h.identity(st.cache.podLabels[pod]);
    assert LiveOf(St(st.ids, cache), h, pods) == if g in st.ids.byHash then {st.ids.byHash[g]} else {};
  }

  lemma OneDirection(st: St, h: Hashes, name: string, namespace: string, selector: Labels, labels: Labels)
    ensures var spec := Spec(selector, [Direction([Pods(labels)], [])], []);
            var (st1, targets) := Resolved(st, h, selector);
            var (st2, peers) := Resolved(st1, h, labels);
            var (st3, rules) := Compiled(st, h, name, namespace, spec);
            st3 == st2 && rules == Product(Origin(name, namespace, true), targets, peers, [Port(ANY, 0)])
  {
    var o := Origin(name, namespace, true);
    var d := Direction([Pods(labels)], []);
    var (st1, targets) := Resolved(st, h, selector);
    var (st2, peers) := Resolved(st1, h, labels);
    assert [d][..0] == [] && [Pods(labels)][..0] == [];
    assert PeersResolved(st1, h, []) == (st1, {});
    assert {} + peers == peers;
    assert PeersResolved(st1, h, [Pods(labels)]) == (st2, peers);
    assert Stage(st1, h, o, targets, []) == (st1, {});
    assert Stage(st1, h, o, targets, [d]) == (st2, {} + Product(o, targets, peers, [Port(ANY, 0)]));
  }

  /** One pod without an identity, added to an empty cache. */
  function OnePod(h: Hashes, labels: Labels): St {
    St(Identities.Empty(), SelectorCache.WithPod(SelectorCache.Empty(), h.selector, "p", labels))
  }

  lemma OnePodFresh(h: Hashes, labels: Labels)
    ensures OnePod(h, labels).cache.podLabels == map["p" := labels] && OnePod(h, labels).cache.results == map[]
  {
  }

  /** Resolving "all pods", the pod's own labels, and "all pods" again. */
  lemma ThreeResolutions(h: Hashes, labels: Labels)
    requires h.selector(labels) != h.selector(map[]) && h.identity(labels) != h.identity(map[])
    ensures var (a1, targets1) := Resolved(OnePod(h, labels), h, map[]);
            var (a2, peers1) := Resolved(a1, h, labels);
            targets1 == {1} && peers1 == {2} && Resolved(a2, h, map[]).1 == {2}
  {
    var st := OnePod(h, labels);
    OnePodFresh(h, labels);
    ResolvedOnePod(st, h, "p", map[]);
    var a1 := Resolved(st, h, map[]).0;
    ResolvedOnePod(a1, h, "p", labels);
    var a2 := Resolved(a1, h, labels).0;
    ResolvedOnePod(a2, h, "p", map[]);
  }

  /** Otherwise recompiling can change the rules: compiling gives the pod's labels an identity, and the next
      compilation finds it in place of the selector's own. */
  lemma RecompileCanDiffer(h: Hashes, labels: Labels)
    requires h.selector(labels) != h.selector(map[]) && h.identity(labels) != h.identity(map[])
    ensures var spec := Spec(map[], [Direction([Pods(labels)], [])], []);
            var (st1, rules1) := Compiled(OnePod(h, labels), h, "n", "ns", spec);
            var (st2, rules2) := Compiled(st1, h, "n", "ns", spec);
            rules1 != rules2
  {
    var o, st := Origin("n", "ns", true), OnePod(h, labels);
    ThreeResolutions(h, labels);
    OneDirection(st, h, "n", "ns", map[], labels);
    var a2 := Resolved(Resolved(st, h, map[]).0, h, labels).0;
    OneDirection(a2, h, "n", "ns", map[], labels);
    ProductTargets(o, {1}, {2}, 1, 2);
    ProductTargets(o, {2}, Resolved(Resolved(a2, h, map[]).0, h, labels).1, 1, 2);
  }

  lemma ProductTargets(o: Origin, targets: set<uint32>, peers: set<uint32>, t: uint32, p: uint32)
    ensures TenantRule(o, t, p, Port(ANY, 0)) in Product(o, targets, peers, [Port(ANY, 0)]) <==> t in targets && p in peers
  {
    assert Port(ANY, 0) in [Port(ANY, 0)];
  }

  // ---------------------------------------------------------------- node isolation

  /** One rule of a node-isolation policy: its CIDR is not read, its action is any verdict. */
  datatype Isolation = Isolation(cidr: string, ports: seq<Port>, action: string)

  function IsolationRule(name: string, p: Port, action: string): Rule {
    Rule(0, 0, p.protocol, p.port, action, name, "", TIER_NODE_ISOLATION)
  }

  method CompileNodeIsolationPolicy(name: string, ingress: seq<Isolation>, egress: seq<Isolation>) returns (rules: seq<Rule>)
    ensures forall r :: r in rules <==>
              && r.src == 0 && r.dst == 0 && r.tier == 0 && r.name == name && r.namespace == ""
              && exists i :: (i in ingress || i in egress) && r.verdict == i.action && AdmitsPort(i.ports, r.proto, r.port)
  {
    rules := [];
    var all := ingress + egress;
    for i := 0 to |all|
      invariant forall r | r in rules :: exists x, p :: x in all[..i] && p in PortsOf(x.ports) && r == IsolationRule(name, p, x.action)
      invariant forall x, p | x in all[..i] && p in PortsOf(x.ports) :: IsolationRule(name, p, x.action) in rules
    {
      var ports := PortsOf(all[i].ports);
      ghost var before := rules;
      for j := 0 to |ports|
        invariant forall r | r in before :: r in rules
        invariant forall r | r in rules :: r in before || exists p :: p in ports[..j] && r == IsolationRule(name, p, all[i].action)
        invariant forall p | p in ports[..j] :: IsolationRule(name, p, all[i].action) in rules
      {
        rules := rules + [IsolationRule(name, ports[j], all[i].action)];
      }
      assert ports[..|ports|] == ports;
    }
    assert all[..|all|] == all;
    forall r
      ensures r in rules <==>
              && r.src == 0 && r.dst == 0 && r.tier == 0 && r.name == name && r.namespace == ""
              && exists i :: (i in ingress || i in egress) && r.verdict == i.action && AdmitsPort(i.ports, r.proto, r.port)
    {
      IsolationExact(name, ingress, egress, rules, r);
    }
  }

  ghost predicate IsolationRules(name: string, all: seq<Isolation>, rules: seq<Rule>) {
    && (forall r | r in rules :: exists x, p :: x in all && p in PortsOf(x.ports) && r == IsolationRule(name, p, x.action))
    && (forall x, p | x in all && p in PortsOf(x.ports) :: IsolationRule(name, p, x.action) in rules)
  }

  lemma IsolationExact(name: string, ingress: seq<Isolation>, egress: seq<Isolation>, rules: seq<Rule>, r: Rule)
    requires IsolationRules(name, ingress + egress, rules)
    ensures r in rules <==>
            && r.src == 0 && r.dst == 0 && r.tier == 0 && r.name == name && r.namespace == ""
            && exists i :: (i in ingress || i in egress) && r.verdict == i.action && AdmitsPort(i.ports, r.proto, r.port)
  {
    var all := ingress + egress;
    if r in rules {
      var x, p :| x in all && p in PortsOf(x.ports) && r == IsolationRule(name, p, x.action);
      assert (x in ingress || x in egress) && AdmitsPort(x.ports, r.proto, r.port);
    }
    if r.src == 0 && r.dst == 0 && r.tier == 0 && r.name == name && r.namespace == ""
       && exists i :: (i in ingress || i in egress) && r.verdict == i.action && AdmitsPort(i.ports, r.proto, r.port)
    {
      var i :| (i in ingress || i in egress) && r.verdict == i.action && AdmitsPort(i.ports, r.proto, r.port);
      assert i in all && Port(r.proto, r.port) in PortsOf(i.ports);
      assert r == IsolationRule(name, Port(r.proto, r.port), i.action);
    }
  }

  // ---------------------------------------------------------------- the mutable compiler

  ghost function SourceHashes(): Hashes {
    Hashes(SelectorCache.SourceHasher(), (labels: Labels) => IdentityHash(labels))
  }

  /** The rules a loop over ports, peers or targets has appended. */
  function PortSeq(o: Origin, t: uint32, s: uint32, ports: seq<Port>): seq<Rule> {
    if ports == [] then [] else PortSeq(o, t, s, ports[..|ports| - 1]) + [TenantRule(o, t, s, ports[|ports| - 1])]
  }

  function PeerSeq(o: Origin, t: uint32, peers: seq<uint32>, ports: seq<Port>): seq<Rule> {
    if peers == [] then []
    else PeerSeq(o, t, peers[..|peers| - 1], ports) + PortSeq(o, t, peers[|peers| - 1], ports)
  }

  function TargetSeq(o: Origin, targets: seq<uint32>, peers: seq<uint32>, ports: seq<Port>): seq<Rule> {
    if targets == [] then []
    else TargetSeq(o, targets[..|targets| - 1], peers, ports) + PeerSeq(o, targets[|targets| - 1], peers, ports)
  }

  lemma {:induction false} PortSeqSet(o: Origin, t: uint32, s: uint32, ports: seq<Port>)
    ensures Elements(PortSeq(o, t, s, ports)) == Product(o, {t}, {s}, ports)
    decreases |ports|
  {
    if ports != [] {
      var n := |ports| - 1;
      PortSeqSet(o, t, s, ports[..n]);
      assert forall p :: p in ports <==> p in ports[..n] || p == ports[n];
      ElementsAppend(PortSeq(o, t, s, ports[..n]), [TenantRule(o, t, s, ports[n])]);
    }
  }

  lemma {:induction false} PeerSeqSet(o: Origin, t: uint32, peers: seq<uint32>, ports: seq<Port>)
    ensures Elements(PeerSeq(o, t, peers, ports)) == Product(o, {t}, Elements(peers), ports)
    decreases |peers|
  {
    if peers != [] {
      var n := |peers| - 1;
      PeerSeqSet(o, t, peers[..n], ports);
      PortSeqSet(o, t, peers[n], ports);
      ElementsAppend(PeerSeq(o, t, peers[..n], ports), PortSeq(o, t, peers[n], ports));
      assert Elements(peers) == Elements(peers[..n]) + {peers[n]};
    }
  }

  lemma {:induction false} TargetSeqSet(o: Origin, targets: seq<uint32>, peers: seq<uint32>, ports: seq<Port>)
    ensures Elements(TargetSeq(o, targets, peers, ports)) == Product(o, Elements(targets), Elements(peers), ports)
    decreases |targets|
  {
    if targets != [] {
      var n := |targets| - 1;
      TargetSeqSet(o, targets[..n], peers, ports);
      PeerSeqSet(o, targets[n], peers, ports);
      ElementsAppend(TargetSeq(o, targets[..n], peers, ports), PeerSeq(o, targets[n], peers, ports));
      assert Elements(targets) == Elements(targets[..n]) + {targets[n]};
    }
  }

  /** With a negative port one direction of a policy can emit two rules with one key, and the merge then loses
      a rule that covered a flow. */
  lemma CollisionLosesRule(name: string, namespace: string, target: uint32, src: uint32)
    ensures var o, ports := Origin(name, namespace, true), [Port("tcp", -80), Port("tcp-", 80)];
            var rules := TargetSeq(o, [target], [0], ports);
            var f := Flow(src, target, "tcp-", 80);
            && First(Merge([Some(rules)]), Covers(f)) == None
            && Best(Flatten([Some(rules)]), Covers(f), RuleLe) == Some(TenantRule(o, target, 0, ports[1]))
  {
    var o, ports := Origin(name, namespace, true), [Port("tcp", -80), Port("tcp-", 80)];
    var a, b := TenantRule(o, target, 0, ports[0]), TenantRule(o, target, 0, ports[1]);
    var m := Covers(Flow(src, target, "tcp-", 80));
    PairOfPorts(o, target, 0, ports[0], ports[1]);
    FlattenOne([a, b]);
    Keys.KeyExact(a.src, a.dst, "tcp", -80, b.src, b.dst, "tcp-", 80);
    EqualRank(a, b);
    CollisionKeepsFirst(a, b);
    assert |"tcp"| != |"tcp-"| && "tcp"[0] != ANY[0];
    assert !m(a) && m(b);
    assert [a, b][1..] == [b] && [b][1..] == [] && [a][1..] == [];
    assert Best([b], m, RuleLe) == Some(b);
  }

  lemma PairOfPorts(o: Origin, target: uint32, peer: uint32, p: Port, q: Port)
    ensures TargetSeq(o, [target], [peer], [p, q]) == [TenantRule(o, target, peer, p), TenantRule(o, target, peer, q)]
  {
    assert [p, q][..1] == [p] && [p][..0] == [] && [peer][..0] == [] && [target][..0] == [];
    assert PortSeq(o, target, peer, []) == [];
    assert PortSeq(o, target, peer, [p]) == [TenantRule(o, target, peer, p)];
    assert PeerSeq(o, target, [], [p, q]) == [];
    assert TargetSeq(o, [], [peer], [p, q]) == [];
  }

  ghost predicate Distinct(ids: seq<uint32>) {
    forall i, j | 0 <= i < j < |ids| :: ids[i] != ids[j]
  }

  method ProductRules(o: Origin, targets: seq<uint32>, peers: seq<uint32>, ports: seq<Port>) returns (rules: seq<Rule>)
    ensures Elements(rules) == Product(o, Elements(targets), Elements(peers), ports)
    ensures rules == TargetSeq(o, targets, peers, ports)
  {
    rules := [];
    for i := 0 to |targets|
      invariant rules == TargetSeq(o, targets[..i], peers, ports)
    {
      assert targets[..i + 1][..i] == targets[..i];
      var some := [];
      for j := 0 to |peers|
        invariant some == PeerSeq(o, targets[i], peers[..j], ports)
      {
        assert peers[..j + 1][..j] == peers[..j];
        var few := [];
        for k := 0 to |ports|
          invariant few == PortSeq(o, targets[i], peers[j], ports[..k])
        {
          assert ports[..k + 1][..k] == ports[..k];
          few := few + [TenantRule(o, targets[i], peers[j], ports[k])];
        }
        assert ports[..|ports|] == ports;
        some := some + few;
      }
      assert peers[..|peers|] == peers;
      rules := rules + some;
    }
    assert targets[..|targets|] == targets;
    TargetSeqSet(o, targets, peers, ports);
  }

  class PolicyCompiler {
    const identityAllocator: Identities.IdentityAllocator
    const selectorCache: SelectorCache.SelectorCache

    ghost function Model(): St
      reads this, identityAllocator, selectorCache
    {
      St(identityAllocator.Model(), selectorCache.Model())
    }

    constructor (allocator: Identities.IdentityAllocator)
      ensures identityAllocator == allocator && fresh(selectorCache)
      ensures Model() == St(allocator.Model(), SelectorCache.Empty())
    {
      identityAllocator := allocator;
      selectorCache := new SelectorCache.SelectorCache();
    }

    method FindLive(pod: string) returns (id: Option<uint32>)
      ensures id == LiveAt(Model(), SourceHashes(), pod)
    {
      var labels := if pod in selectorCache.podLabels then selectorCache.podLabels[pod] else map[];
      id := identityAllocator.GetIdentityByLabels(labels);
    }

    /** The live identities of some pods, each once, in any order. */
    method CollectLive(pods: set<string>) returns (ids: seq<uint32>)
      ensures Distinct(ids) && Elements(ids) == LiveOf(Model(), SourceHashes(), pods)
    {
      ghost var st, h := Model(), SourceHashes();
      ids := [];
      var rest := pods;
      ghost var done := {};
      while rest != {}
        invariant rest !! done && rest + done == pods
        invariant Distinct(ids) && Elements(ids) == LiveOf(st, h, done)
        decreases |rest|
      {
        var k :| k in rest;
        rest := rest - {k};
        var id := FindLive(k);
        LiveOneMore(st, h, done, k);
        done := done + {k};
        if id.Some? {
          ids := AddDistinct(ids, id.value);
        }
      }
      assert done == pods;
    }

    method ResolveSelectorToIdentities(selector: Labels) returns (ids: seq<uint32>)
      requires Identities.Linked(identityAllocator.Model())
      modifies identityAllocator, selectorCache
      ensures Distinct(ids) && (Model(), Elements(ids)) == Resolved(old(Model()), SourceHashes(), selector)
      ensures Identities.Linked(identityAllocator.Model())
    {
      ghost var st, h := Model(), SourceHashes();
      var pods := selectorCache.EvaluateSelector(selector);
      ghost var cache := SelectorCache.Evaluated(st.cache, h.selector, selector);
      assert Model() == St(st.ids, cache.0) && pods == cache.1;
      ids := CollectLive(pods);
      ElementsEmpty(ids);
      if |ids| == 0 {
        ids := AllocateForSelector(selector);
      }
    }

    /** No pod with an identity matches: the selector's own labels get one. */
    method AllocateForSelector(selector: Labels) returns (ids: seq<uint32>)
      requires Identities.Linked(identityAllocator.Model())
      modifies identityAllocator
      ensures Distinct(ids) && Identities.Linked(identityAllocator.Model())
      ensures var (after, id) :=
                Identities.Acquired(old(identityAllocator.Model()), selector, SourceHashes().identity(selector));
              identityAllocator.Model() == after && Elements(ids) == {id}
    {
      Identities.AcquiredLinked(identityAllocator.Model(), selector, SourceHashes().identity(selector));
      var id := identityAllocator.AllocateIdentity(selector);
      ids := [id];
    }

    method ResolvePeers(peers: seq<Peer>) returns (ids: seq<uint32>)
      requires Identities.Linked(identityAllocator.Model())
      modifies identityAllocator, selectorCache
      ensures Distinct(ids) && (Model(), Elements(ids)) == PeerIDs(old(Model()), SourceHashes(), peers)
      ensures Identities.Linked(identityAllocator.Model())
    {
      if |peers| == 0 {
        ids := [0];
        assert Elements(ids) == {0};
        return;
      }
      ids := [];
      assert Elements(ids) == {};
      for i := 0 to |peers|
        invariant Identities.Linked(identityAllocator.Model())
        invariant Distinct(ids) && (Model(), Elements(ids)) == PeersResolved(old(Model()), SourceHashes(), peers[..i])
      {
        assert peers[..i + 1][..i] == peers[..i];
        if peers[i].IPBlock? {
          continue;
        }
        var more := ResolveSelectorToIdentities(peers[i].podSelector);
        ids := AddAll(ids, more);
      }
      assert peers[..|peers|] == peers;
    }

    method CompileDirections(o: Origin, targets: seq<uint32>, ds: seq<Direction>) returns (rules: seq<Rule>)
      requires Identities.Linked(identityAllocator.Model())
      modifies identityAllocator, selectorCache
      ensures (Model(), Elements(rules)) == Stage(old(Model()), SourceHashes(), o, Elements(targets), ds)
      ensures Identities.Linked(identityAllocator.Model())
    {
      rules := [];
      assert Elements(rules) == {};
      for i := 0 to |ds|
        invariant Identities.Linked(identityAllocator.Model())
        invariant (Model(), Elements(rules)) == Stage(old(Model()), SourceHashes(), o, Elements(targets), ds[..i])
      {
        assert ds[..i + 1][..i] == ds[..i];
        var peers := ResolvePeers(ds[i].peers);
        var some := ProductRules(o, targets, peers, PortsOf(ds[i].ports));
        ElementsAppend(rules, some);
        rules := rules + some;
      }
      assert ds[..|ds|] == ds;
    }

    method CompilePolicy(name: string, namespace: string, spec: Spec) returns (rules: seq<Rule>)
      requires Identities.Linked(identityAllocator.Model())
      modifies identityAllocator, selectorCache
      ensures (Model(), Elements(rules)) == Compiled(old(Model()), SourceHashes(), name, namespace, spec)
      ensures Identities.Linked(identityAllocator.Model())
    {
      var targets := ResolveSelectorToIdentities(spec.podSelector);
      var ingress := CompileDirections(Origin(name, namespace, true), targets, spec.ingress);
      var egress := CompileDirections(Origin(name, namespace, false), targets, spec.egress);
      ElementsAppend(ingress, egress);
      rules := ingress + egress;
    }
  }

  function AddAll(ids: seq<uint32>, more: seq<uint32>): (r: seq<uint32>)
    ensures Distinct(ids) ==> Distinct(r)
    ensures Elements(r) == Elements(ids) + Elements(more)
    decreases |more|
  {
    if more == [] then ids
    else
      ElementsAppend([more[0]], more[1..]);
      assert [more[0]] + more[1..] == more;
      AddAll(AddDistinct(ids, more[0]), more[1..])
  }

  function LiveAt(st: St, h: Hashes, pod: string): Option<uint32> {
    var g := h.identity(PodLabelsOf(st.cache, pod));
    if g in st.ids.byHash then Some(st.ids.byHash[g]) else None
  }

  lemma LiveOneMore(st: St, h: Hashes, pods: set<string>, k: string)
    ensures LiveOf(st, h, pods + {k}) ==
            match LiveAt(st, h, k) case Some(id) => LiveOf(st, h, pods) + {id} case None => LiveOf(st, h, pods)
  {
  }

  /** Appends an identity that is not listed yet: the seen-map of the source. */
  function AddDistinct(ids: seq<uint32>, id: uint32): (r: seq<uint32>)
    ensures Distinct(ids) ==> Distinct(r)
    ensures Elements(r) == Elements(ids) + {id}
  {
    if id in ids then
      assert Elements(ids) + {id} == Elements(ids);
      ids
    else
      ElementsAppend(ids, [id]);
      ids + [id]
  }
}
