/** The incremental cache of label-selector results (pkg/policy/selector_cache.go). */
module SelectorCache {
  import opened Base
  import opened Labels

  /** The hash of a label map, as a parameter: nothing here depends on how it is computed. */
  type Hasher = Labels -> Digest

  datatype Cache = Cache(
    podLabels: map<string, Labels>,
    podsByLabels: map<Digest, set<string>>,
    results: map<Digest, set<string>>,
    specs: map<Digest, Labels>)

  function Empty(): Cache {
    Cache(map[], map[], map[], map[])
  }

  predicate Matches(podLabels: Labels, selector: Labels) {
    forall k | k in selector :: k in podLabels && podLabels[k] == selector[k]
  }

  /** What a selector selects, by filtering all pods. */
  function Naive(pods: map<string, Labels>, selector: Labels): set<string> {
    set k | k in pods && Matches(pods[k], selector)
  }

  /** A selector selects the pods whose labels hold each of its entries. */
  lemma SelectsExact(pods: map<string, Labels>, selector: Labels, k: string)
    ensures k in Naive(pods, selector) <==> k in pods && selector.Items <= pods[k].Items
  {
    if k in pods && selector.Items <= pods[k].Items {
      forall l | l in selector
        ensures l in pods[k] && pods[k][l] == selector[l]
      {
        assert (l, selector[l]) in selector.Items;
      }
    }
  }

  /** In particular any part of a pod's labels selects it. */
  lemma PartSelects(pods: map<string, Labels>, k: string, part: set<string>)
    requires k in pods
    ensures k in Naive(pods, map l | l in part && l in pods[k] :: pods[k][l])
  {
  }

  // ---------------------------------------------------------------- operations

  function IndexWithout(index: map<Digest, set<string>>, g: Digest, key: string): map<Digest, set<string>> {
    if g !in index then index
    else if index[g] - {key} == {} then index - {g}
    else index[g := index[g] - {key}]
  }

  function IndexWith(index: map<Digest, set<string>>, g: Digest, key: string): map<Digest, set<string>> {
    index[g := (if g in index then index[g] else {}) + {key}]
  }

  function ResultsWithout(results: map<Digest, set<string>>, key: string): map<Digest, set<string>> {
    map g | g in results :: results[g] - {key}
  }

  function Hits(specs: map<Digest, Labels>, labels: Labels): set<Digest> {
    set g | g in specs && Matches(labels, specs[g])
  }

  function ResultsWith(results: map<Digest, set<string>>, hits: set<Digest>, key: string): map<Digest, set<string>> {
    map g | g in results.Keys + hits ::
      (if g in results then results[g] else {}) + (if g in hits then {key} else {})
  }

  function WithoutPod(c: Cache, h: Hasher, key: string): Cache {
    if key !in c.podLabels then c
    else
      Cache(c.podLabels - {key},
            IndexWithout(c.podsByLabels, h(c.podLabels[key]), key),
            ResultsWithout(c.results, key),
            c.specs)
  }

  function WithPod(c: Cache, h: Hasher, key: string, labels: Labels): Cache {
    var d := WithoutPod(c, h, key);
    Cache(d.podLabels[key := labels],
          IndexWith(d.podsByLabels, h(labels), key),
          ResultsWith(d.results, Hits(d.specs, labels), key),
          d.specs)
  }

  /** The read-locked look-up: a hit is returned, a miss leaves the lock. */
  function Probed(c: Cache, h: Hasher, selector: Labels): Option<set<string>> {
    if h(selector) in c.results then Some(c.results[h(selector)]) else None
  }

  /** The write-locked part of a miss, with its second look. */
  function Filled(c: Cache, h: Hasher, selector: Labels): (Cache, set<string>) {
    var g := h(selector);
    if g in c.results then (c, c.results[g])
    else
      var r := Naive(c.podLabels, selector);
      (c.(specs := c.specs[g := selector], results := c.results[g := r]), r)
  }

  function Evaluated(c: Cache, h: Hasher, selector: Labels): (Cache, set<string>) {
    match Probed(c, h, selector)
    case Some(r) => (c, r)
    case None => Filled(c, h, selector)
  }

  function Invalidated(c: Cache, h: Hasher, selector: Labels): Cache {
    c.(results := c.results - {h(selector)}, specs := c.specs - {h(selector)})
  }

  // ---------------------------------------------------------------- invariant

  /** podsByLabels is the exact inverse of podLabels under the hash, without empty entries. */
  ghost predicate Inverse(index: map<Digest, set<string>>, pods: map<string, Labels>, h: Hasher) {
    && (forall g | g in index :: index[g] != {} && forall k | k in index[g] :: k in pods && h(pods[k]) == g)
    && (forall k | k in pods :: h(pods[k]) in index && k in index[h(pods[k])])
  }

  /** Each cached result is what filtering all current pods by its selector gives. */
  ghost predicate Current(c: Cache, h: Hasher) {
    && c.results.Keys == c.specs.Keys
    && (forall g | g in c.specs :: h(c.specs[g]) == g && c.results[g] == Naive(c.podLabels, c.specs[g]))
  }

  ghost predicate Inv(c: Cache, h: Hasher) {
    Inverse(c.podsByLabels, c.podLabels, h) && Current(c, h)
  }

  lemma WithoutPodInverse(index: map<Digest, set<string>>, pods: map<string, Labels>, h: Hasher, key: string)
    requires Inverse(index, pods, h) && key in pods
    ensures Inverse(IndexWithout(index, h(pods[key]), key), pods - {key}, h)
  {
    var g := h(pods[key]);
    var after := IndexWithout(index, g, key);
    forall k | k in pods - {key}
      ensures h(pods[k]) in after && k in after[h(pods[k])]
    {
      assert k in index[h(pods[k])];
      if h(pods[k]) == g {
        assert k in index[g] - {key};
      }
    }
  }

  lemma WithPodInverse(index: map<Digest, set<string>>, pods: map<string, Labels>, h: Hasher, key: string, labels: Labels)
    requires Inverse(index, pods, h) && key !in pods
    ensures Inverse(IndexWith(index, h(labels), key), pods[key := labels], h)
  {
  }

  lemma WithoutPodCurrent(c: Cache, h: Hasher, key: string)
    requires Current(c, h)
    ensures Current(WithoutPod(c, h, key), h)
  {
    var d := WithoutPod(c, h, key);
    forall g | g in d.specs
      ensures d.results[g] == Naive(d.podLabels, d.specs[g])
    {
      assert c.results[g] == Naive(c.podLabels, c.specs[g]);
    }
  }

  lemma WithPodCurrent(c: Cache, h: Hasher, key: string, labels: Labels)
    requires Current(c, h) && key !in c.podLabels
    ensures Current(c.(podLabels := c.podLabels[key := labels], results := ResultsWith(c.results, Hits(c.specs, labels), key)), h)
  {
    var pods, results := c.podLabels[key := labels], ResultsWith(c.results, Hits(c.specs, labels), key);
    forall g | g in c.specs
      ensures g in results && results[g] == Naive(pods, c.specs[g])
    {
      assert c.results[g] == Naive(c.podLabels, c.specs[g]);
    }
  }

  lemma WithoutPodInv(c: Cache, h: Hasher, key: string)
    requires Inv(c, h)
    ensures Inv(WithoutPod(c, h, key), h) && key !in WithoutPod(c, h, key).podLabels
  {
    if key in c.podLabels {
      WithoutPodInverse(c.podsByLabels, c.podLabels, h, key);
    }
    WithoutPodCurrent(c, h, key);
  }

  lemma WithPodInv(c: Cache, h: Hasher, key: string, labels: Labels)
    requires Inv(c, h)
    ensures Inv(WithPod(c, h, key, labels), h)
  {
    WithoutPodInv(c, h, key);
    var d := WithoutPod(c, h, key);
    WithPodInverse(d.podsByLabels, d.podLabels, h, key, labels);
    WithPodCurrent(d, h, key, labels);
  }

  lemma FilledInv(c: Cache, h: Hasher, selector: Labels)
    requires Inv(c, h)
    ensures Inv(Filled(c, h, selector).0, h)
  {
  }

  lemma InvalidatedInv(c: Cache, h: Hasher, selector: Labels)
    requires Inv(c, h)
    ensures Inv(Invalidated(c, h, selector), h)
  {
  }

  // ---------------------------------------------------------------- interleaved runs

  /** The critical sections: an evaluation is a Probe and, on a miss, later a Fill; anything may run
      in between. */
  datatype Op =
    | AddPod(key: string, labels: Labels)
    | RemovePod(key: string)
    | Invalidate(selector: Labels)
    | Probe(selector: Labels)
    | Fill(selector: Labels)

  function Step(c: Cache, h: Hasher, op: Op): Cache {
    match op
    case AddPod(key, labels) => WithPod(c, h, key, labels)
    case RemovePod(key) => WithoutPod(c, h, key)
    case Invalidate(selector) => Invalidated(c, h, selector)
    case Probe(selector) => c
    case Fill(selector) => Filled(c, h, selector).0
  }

  function Run(h: Hasher, ops: seq<Op>): Cache {
    if ops == [] then Empty() else Step(Run(h, ops[..|ops| - 1]), h, ops[|ops| - 1])
  }

  /** The current pods: the labels last added for each and not removed since. */
  function PodRun(ops: seq<Op>): map<string, Labels> {
    if ops == [] then map[]
    else
      var before := PodRun(ops[..|ops| - 1]);
      match ops[|ops| - 1]
      case AddPod(key, labels) => before[key := labels]
      case RemovePod(key) => before - {key}
      case _ => before
  }

  lemma {:induction false} RunPods(h: Hasher, ops: seq<Op>)
    ensures Run(h, ops).podLabels == PodRun(ops)
    decreases |ops|
  {
    if ops != [] {
      var c := Run(h, ops[..|ops| - 1]);
      RunPods(h, ops[..|ops| - 1]);
      match ops[|ops| - 1] {
        case AddPod(key, labels) => assert WithPod(c, h, key, labels).podLabels == c.podLabels[key := labels];
        case RemovePod(key) => assert WithoutPod(c, h, key).podLabels == c.podLabels - {key};
        case _ =>
      }
    }
  }

  /** Invalidating forgets the results under the selector's hash and nothing else. */
  lemma InvalidateForgets(c: Cache, h: Hasher, selector: Labels, other: Labels)
    ensures var d := Invalidated(c, h, selector);
            && Probed(d, h, selector) == None
            && (h(other) != h(selector) ==> Probed(d, h, other) == Probed(c, h, other))
            && d.podLabels == c.podLabels && d.podsByLabels == c.podsByLabels
  {
  }

  /** Selectors the hash tells apart. */
  ghost predicate Distinguishes(h: Hasher, a: Labels, b: Labels) {
    h(a) == h(b) ==> a == b
  }

  ghost predicate DistinguishesAll(h: Hasher, dom: Labels -> bool) {
    forall a, b | dom(a) && dom(b) :: Distinguishes(h, a, b)
  }

  predicate InDomain(op: Op, dom: Labels -> bool) {
    op.Fill? ==> dom(op.selector)
  }

  ghost predicate SpecsInDomain(c: Cache, dom: Labels -> bool) {
    forall g | g in c.specs :: dom(c.specs[g])
  }

  lemma StepInv(c: Cache, h: Hasher, op: Op, dom: Labels -> bool)
    requires Inv(c, h) && SpecsInDomain(c, dom) && InDomain(op, dom)
    ensures Inv(Step(c, h, op), h) && SpecsInDomain(Step(c, h, op), dom)
  {
    match op
    case AddPod(key, labels) => WithPodInv(c, h, key, labels);
    case RemovePod(key) => WithoutPodInv(c, h, key);
    case Invalidate(selector) => InvalidatedInv(c, h, selector);
    case Probe(selector) =>
    case Fill(selector) => FilledInv(c, h, selector);
  }

  lemma {:induction false} RunInv(h: Hasher, ops: seq<Op>, dom: Labels -> bool)
    requires forall op | op in ops :: InDomain(op, dom)
    ensures Inv(Run(h, ops), h) && SpecsInDomain(Run(h, ops), dom)
    decreases |ops|
  {
    if ops != [] {
      RunInv(h, ops[..|ops| - 1], dom);
      StepInv(Run(h, ops[..|ops| - 1]), h, ops[|ops| - 1], dom);
    }
  }

  lemma AnswersCurrent(c: Cache, h: Hasher, selector: Labels, dom: Labels -> bool)
    requires Inv(c, h) && SpecsInDomain(c, dom) && DistinguishesAll(h, dom) && dom(selector)
    ensures Probed(c, h, selector).Some? ==> Probed(c, h, selector).value == Naive(c.podLabels, selector)
    ensures Filled(c, h, selector).1 == Naive(c.podLabels, selector)
    ensures Evaluated(c, h, selector).1 == Naive(c.podLabels, selector)
  {
    var g := h(selector);
    if g in c.results {
      assert dom(c.specs[g]);
      assert Distinguishes(h, c.specs[g], selector);
    }
  }

  lemma EvaluatedKeeps(c: Cache, h: Hasher, selector: Labels, dom: Labels -> bool)
    requires Inv(c, h) && SpecsInDomain(c, dom) && DistinguishesAll(h, dom) && dom(selector)
    ensures var (c', pods) := Evaluated(c, h, selector);
            && Inv(c', h) && SpecsInDomain(c', dom)
            && c'.podLabels == c.podLabels && pods == Naive(c.podLabels, selector)
  {
    AnswersCurrent(c, h, selector, dom);
    StepInv(c, h, Fill(selector), dom);
  }

  /** After any interleaving of critical sections, for selectors the hash tells apart: a hit and a fill
      both answer with exactly the pods that match now, and the label index is the exact inverse. */
  lemma CacheExact(h: Hasher, ops: seq<Op>, selector: Labels, dom: Labels -> bool)
    requires DistinguishesAll(h, dom) && dom(selector)
    requires forall op | op in ops :: InDomain(op, dom)
    ensures var c := Run(h, ops);
            && c.podLabels == PodRun(ops)
            && Inverse(c.podsByLabels, c.podLabels, h)
            && (Probed(c, h, selector).Some? ==> Probed(c, h, selector).value == Naive(c.podLabels, selector))
            && Filled(c, h, selector).1 == Naive(c.podLabels, selector)
            && Evaluated(c, h, selector).1 == Naive(c.podLabels, selector)
  {
    RunPods(h, ops);
    RunInv(h, ops, dom);
    AnswersCurrent(Run(h, ops), h, selector, dom);
  }

  ghost function SourceHasher(): Hasher {
    (labels: Labels) => SelectorHash(labels)
  }

  /** The hash of the source tells readable label maps apart. */
  lemma SourceHasherDistinguishes()
    ensures DistinguishesAll(SourceHasher(), Readable)
  {
    var h := SourceHasher();
    forall a, b | Readable(a) && Readable(b)
      ensures Distinguishes(h, a, b)
    {
      HashInjective(a, b);
    }
  }

  ghost predicate AnswersRight(h: Hasher, ops: seq<Op>, selector: Labels) {
    Evaluated(Run(h, ops), h, selector).1 == Naive(Run(h, ops).podLabels, selector)
  }

  ghost predicate AllIn(ops: seq<Op>, dom: Labels -> bool) {
    forall op | op in ops :: InDomain(op, dom)
  }

  /** Every evaluation after every run over these selectors is right. */
  ghost predicate AlwaysRight(h: Hasher, dom: Labels -> bool) {
    forall ops, selector | AllIn(ops, dom) && dom(selector) :: AnswersRight(h, ops, selector)
  }

  lemma MutualMatch(a: Labels, b: Labels)
    ensures Matches(a, b) && Matches(b, a) <==> a == b
  {
    if Matches(a, b) && Matches(b, a) {
      assert a.Keys == b.Keys;
    }
  }

  /** A pod for each of two label maps, and then an evaluation of the first as a selector. */
  function ConfusingRun(a: Labels, b: Labels): seq<Op> {
    [AddPod("a", a), AddPod("b", b), Fill(a)]
  }

  lemma ConfusingState(h: Hasher, a: Labels, b: Labels)
    ensures var c, pods := Run(h, ConfusingRun(a, b)), map["a" := a, "b" := b];
            c.podLabels == pods && c.results == map[h(a) := Naive(pods, a)]
  {
    var ops := ConfusingRun(a, b);
    var one, two := [AddPod("a", a)], [AddPod("a", a), AddPod("b", b)];
    assert one[..0] == [] && two[..1] == one && ops[..2] == two;
    assert Run(h, []) == Empty();
    var c1, c2 := Run(h, one), Run(h, two);
    assert c1.specs == map[] && c1.results == map[] && c1.podLabels == map["a" := a];
    assert c2.specs == map[] && c2.results == map[] && c2.podLabels == map["a" := a, "b" := b];
  }

  /** The second selector is then answered with the first one's pods. */
  lemma Confused(h: Hasher, a: Labels, b: Labels)
    requires h(a) == h(b) && a != b
    ensures !AnswersRight(h, ConfusingRun(a, b), b)
  {
    var pods := map["a" := a, "b" := b];
    ConfusingState(h, a, b);
    MutualMatch(a, b);
    assert "a" in pods && "b" in pods && pods["a"] == a && pods["b"] == b;
    assert "a" in Naive(pods, a) && "b" in Naive(pods, b);
    assert "a" !in Naive(pods, b) || "b" !in Naive(pods, a);
  }

  /** The cache answers right after every run over some selectors exactly when the hash tells them apart. */
  lemma CollisionExact(h: Hasher, dom: Labels -> bool)
    ensures AlwaysRight(h, dom) <==> DistinguishesAll(h, dom)
  {
    if DistinguishesAll(h, dom) {
      forall ops, selector | AllIn(ops, dom) && dom(selector)
        ensures AnswersRight(h, ops, selector)
      {
        CacheExact(h, ops, selector, dom);
      }
    } else {
      var a, b :| dom(a) && dom(b) && !Distinguishes(h, a, b);
      Confused(h, a, b);
      assert AllIn(ConfusingRun(a, b), dom);
    }
  }

  /** Two label maps the source's hash confuses: one selector is answered with the other's pods. */
  lemma ConfusedSelectors()
    ensures var a, b := map["a" := "b=c"], map["a=b" := "c"];
            !AnswersRight(SourceHasher(), ConfusingRun(a, b), b)
  {
    HashCollision();
    var a, b := map["a" := "b=c"], map["a=b" := "c"];
    assert a != map[] && b != map[] by {
      assert "a" in a && "a=b" in b;
    }
    Confused(SourceHasher(), a, b);
  }

  // ---------------------------------------------------------------- the mutable cache

  ghost predicate ResultsAre(results: map<Digest, set<string>>, before: map<Digest, set<string>>, hits: set<Digest>, key: string) {
    forall u :: Unfold(u) ==> results == ResultsWith(before, hits, key)
  }

  /** `hits` are the matching selectors outside `rest`. */
  ghost predicate HitsSoFar(specs: map<Digest, Labels>, labels: Labels, rest: set<Digest>, hits: set<Digest>) {
    forall u :: Unfold(u) ==> rest <= specs.Keys && hits == Hits(specs, labels) - rest
  }

  lemma HitsNext(specs: map<Digest, Labels>, labels: Labels, rest: set<Digest>, hits: set<Digest>, g: Digest)
    requires HitsSoFar(specs, labels, rest, hits) && g in rest
    ensures g in specs && g !in hits
    ensures HitsSoFar(specs, labels, rest - {g}, if Matches(labels, specs[g]) then hits + {g} else hits)
  {
    assert Unfold(Unit);
  }

  lemma HitsDone(specs: map<Digest, Labels>, labels: Labels, hits: set<Digest>)
    requires HitsSoFar(specs, labels, {}, hits)
    ensures hits == Hits(specs, labels)
  {
    assert Unfold(Unit);
  }

  lemma ResultsDone(results: map<Digest, set<string>>, before: map<Digest, set<string>>, hits: set<Digest>, key: string)
    requires ResultsAre(results, before, hits, key)
    ensures results == ResultsWith(before, hits, key)
  {
    assert Unfold(Unit);
  }

  lemma ResultsWithNone(results: map<Digest, set<string>>, key: string)
    ensures ResultsWith(results, {}, key) == results
  {
    var same := ResultsWith(results, {}, key);
    assert same.Keys == results.Keys;
    forall g | g in results
      ensures same[g] == results[g]
    {
      assert results[g] + {} == results[g];
    }
  }

  lemma ResultsWithOneMore(results: map<Digest, set<string>>, hits: set<Digest>, g: Digest, key: string)
    requires g !in hits
    ensures var before := ResultsWith(results, hits, key);
            ResultsWith(results, hits + {g}, key) == before[g := (if g in before then before[g] else {}) + {key}]
  {
    var before, after := ResultsWith(results, hits, key), ResultsWith(results, hits + {g}, key);
    var put := before[g := (if g in before then before[g] else {}) + {key}];
    assert after.Keys == before.Keys + {g} == put.Keys;
    assert after[g] == put[g];
    assert forall x | x in before && x != g :: after[x] == put[x];
  }

  class SelectorCache {
    var podsByLabels: map<Digest, set<string>>
    var podLabels: map<string, Labels>
    var selectorResults: map<Digest, set<string>>
    var selectorSpecs: map<Digest, Labels>

    ghost function Model(): Cache
      reads this
    {
      Cache(podLabels, podsByLabels, selectorResults, selectorSpecs)
    }

    constructor ()
      ensures Model() == Empty()
    {
      podsByLabels, podLabels, selectorResults, selectorSpecs := map[], map[], map[], map[];
    }

    method HashLabels(labels: Labels) returns (hash: Digest)
      ensures hash == SourceHasher()(labels)
    {
      if labels == map[] {
        return Blank;
      }
      var text := LabelText(labels);
      return Sha256(text);
    }

    method MatchesSelector(labels: Labels, selector: Labels) returns (r: bool)
      ensures r <==> Matches(labels, selector)
    {
      var rest := selector.Keys;
      while rest != {}
        invariant rest <= selector.Keys
        invariant forall k | k in selector && k !in rest :: k in labels && labels[k] == selector[k]
        decreases |rest|
      {
        var k :| k in rest;
        if k !in labels || labels[k] != selector[k] {
          return false;
        }
        rest := rest - {k};
      }
      return true;
    }

    method RemovePodInternal(key: string)
      modifies this
      ensures Model() == WithoutPod(old(Model()), SourceHasher(), key)
    {
      if key !in podLabels {
        return;
      }
      var hash := HashLabels(podLabels[key]);
      if hash in podsByLabels {
        var pods := podsByLabels[hash] - {key};
        podsByLabels := if pods == {} then podsByLabels - {hash} else podsByLabels[hash := pods];
      }
      podLabels := podLabels - {key};
      DropFromResults(key);
    }

    method DropFromResults(key: string)
      modifies this`selectorResults
      ensures selectorResults == ResultsWithout(old(selectorResults), key)
    {
      ghost var before := selectorResults;
      var rest := selectorResults.Keys;
      while rest != {}
        invariant rest <= before.Keys && selectorResults.Keys == before.Keys
        invariant forall g | g in before :: selectorResults[g] == if g in rest then before[g] else before[g] - {key}
        decreases |rest|
      {
        var g :| g in rest;
        rest := rest - {g};
        selectorResults := selectorResults[g := selectorResults[g] - {key}];
      }
    }

    method AddToResults(key: string, labels: Labels)
      modifies this`selectorResults
      ensures selectorResults == ResultsWith(old(selectorResults), Hits(selectorSpecs, labels), key)
    {
      ghost var before := selectorResults;
      ghost var specs := selectorSpecs;
      ghost var hits := {};
      var rest := selectorSpecs.Keys;
      ResultsWithNone(before, key);
      assert ResultsAre(selectorResults, before, hits, key);
      while rest != {}
        invariant HitsSoFar(specs, labels, rest, hits)
        invariant ResultsAre(selectorResults, before, hits, key)
        decreases |rest|
      {
        var g :| g in rest;
        HitsNext(specs, labels, rest, hits, g);
        var matched := MatchesSelector(labels, selectorSpecs[g]);
        if matched {
          AddResult(before, hits, g, key);
          hits := hits + {g};
        }
        rest := rest - {g};
      }
      HitsDone(specs, labels, hits);
      ResultsDone(selectorResults, before, hits, key);
    }

    method AddResult(ghost before: map<Digest, set<string>>, ghost hits: set<Digest>, g: Digest, key: string)
      requires g !in hits && ResultsAre(selectorResults, before, hits, key)
      modifies this`selectorResults
      ensures ResultsAre(selectorResults, before, hits + {g}, key)
    {
      assert Unfold(Unit);
      ResultsWithOneMore(before, hits, g, key);
      var pods := if g in selectorResults then selectorResults[g] else {};
      selectorResults := selectorResults[g := pods + {key}];
    }

    method AddPod(key: string, labels: Labels)
      modifies this
      ensures Model() == WithPod(old(Model()), SourceHasher(), key, labels)
    {
      RemovePodInternal(key);
      podLabels := podLabels[key := labels];
      var hash := HashLabels(labels);
      var pods := if hash in podsByLabels then podsByLabels[hash] else {};
      podsByLabels := podsByLabels[hash := pods + {key}];
      AddToResults(key, labels);
    }

    method RemovePod(key: string)
      modifies this
      ensures Model() == WithoutPod(old(Model()), SourceHasher(), key)
    {
      RemovePodInternal(key);
    }

    method FilterPods(selector: Labels) returns (result: set<string>)
      ensures result == Naive(podLabels, selector)
    {
      result := {};
      var rest := podLabels.Keys;
      while rest != {}
        invariant rest <= podLabels.Keys
        invariant forall k :: k in result <==> k in podLabels && k !in rest && Matches(podLabels[k], selector)
        decreases |rest|
      {
        var k :| k in rest;
        rest := rest - {k};
        var matched := MatchesSelector(podLabels[k], selector);
        if matched {
          result := result + {k};
        }
      }
    }

    method EvaluateSelector(selector: Labels) returns (result: set<string>)
      modifies this
      ensures (Model(), result) == Evaluated(old(Model()), SourceHasher(), selector)
    {
      var hash := HashLabels(selector);
      if hash in selectorResults {
        return selectorResults[hash];
      }
      result := FilterPods(selector);
      selectorSpecs := selectorSpecs[hash := selector];
      selectorResults := selectorResults[hash := result];
    }

    method InvalidateSelector(selector: Labels)
      modifies this
      ensures Model() == Invalidated(old(Model()), SourceHasher(), selector)
    {
      var hash := HashLabels(selector);
      selectorResults := selectorResults - {hash};
      selectorSpecs := selectorSpecs - {hash};
    }
  }
}
