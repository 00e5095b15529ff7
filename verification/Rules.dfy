/** Compiled policy rules: ranking, deduplication and per-node filtering (pkg/policy/compiler.go,
    pkg/policy/platform_rules.go). */
module Rules {
  import opened Base
  import opened Sorting
  import Keys

  const ALLOW := "allow"
  const DENY := "deny"
  const ANY := "ANY"

  const TIER_NODE_ISOLATION := 0
  const TIER_PLATFORM := 1
  const TIER_TENANT := 2

  datatype Rule = Rule(src: uint32, dst: uint32, proto: string, port: int, verdict: string,
                       name: string, namespace: string, tier: int)

  function Score(r: Rule): int {
    (if r.src != 0 then 1 else 0) + (if r.dst != 0 then 1 else 0) + (if r.port != 0 then 1 else 0)
  }

  /** Higher priority or equal: lower tier, then more specific, then smaller name. */
  predicate RuleLe(a: Rule, b: Rule) {
    if a.tier != b.tier then a.tier < b.tier
    else if Score(a) != Score(b) then Score(a) > Score(b)
    else StrLe(a.name, b.name)
  }

  function RuleKey(r: Rule): string {
    Keys.Key(r.src, r.dst, r.proto, r.port)
  }

  lemma RuleOrder()
    ensures Preorder(RuleLe)
  {
    forall x, y
      ensures RuleLe(x, y) || RuleLe(y, x)
    {
      StrLeTotal(x.name, y.name);
    }
    forall x, y, z | RuleLe(x, y) && RuleLe(y, z)
      ensures RuleLe(x, z)
    {
      if x.tier == y.tier == z.tier && Score(x) == Score(y) == Score(z) {
        StrLeTransitive(x.name, y.name, z.name);
      }
    }
  }

  lemma EqualRank(a: Rule, b: Rule)
    ensures RuleLe(a, b) && RuleLe(b, a) <==> a.tier == b.tier && Score(a) == Score(b) && a.name == b.name
  {
    StrLeTotal(a.name, b.name);
  }

  // ---------------------------------------------------------------- deduplication and filtering

  /** The elements whose key was not seen before, in order. */
  function Dedup<T, K(==)>(s: seq<T>, key: T -> K, seen: set<K>): seq<T> {
    if s == [] then []
    else if key(s[0]) in seen then Dedup(s[1..], key, seen)
    else [s[0]] + Dedup(s[1..], key, seen + {key(s[0])})
  }

  ghost function KeySet<T, K>(s: seq<T>, key: T -> K): set<K> {
    set x | x in s :: key(x)
  }

  ghost predicate DistinctKeys<T, K>(s: seq<T>, key: T -> K) {
    forall i, j | 0 <= i < j < |s| :: key(s[i]) != key(s[j])
  }

  function Filter<T>(s: seq<T>, keep: T -> bool): seq<T> {
    if s == [] then [] else (if keep(s[0]) then [s[0]] else []) + Filter(s[1..], keep)
  }

  lemma {:induction false} DedupElements<T, K>(s: seq<T>, key: T -> K, seen: set<K>)
    ensures forall x | x in Dedup(s, key, seen) :: x in s && key(x) !in seen
  {
    if s != [] {
      DedupElements(s[1..], key, seen);
      DedupElements(s[1..], key, seen + {key(s[0])});
    }
  }

  lemma {:induction false} DedupKeySet<T, K>(s: seq<T>, key: T -> K, seen: set<K>)
    ensures KeySet(Dedup(s, key, seen), key) == KeySet(s, key) - seen
  {
    if s != [] {
      var k := key(s[0]);
      DedupKeySet(s[1..], key, if k in seen then seen else seen + {k});
      assert forall x :: x in s <==> x == s[0] || x in s[1..];
      assert KeySet(s, key) == KeySet(s[1..], key) + {k};
      if k !in seen {
        var rest := Dedup(s[1..], key, seen + {k});
        assert forall x :: x in [s[0]] + rest <==> x == s[0] || x in rest;
        assert KeySet([s[0]] + rest, key) == {k} + KeySet(rest, key);
      }
    }
  }

  lemma {:induction false} DedupDistinct<T, K>(s: seq<T>, key: T -> K, seen: set<K>)
    ensures DistinctKeys(Dedup(s, key, seen), key)
  {
    if s != [] {
      DedupDistinct(s[1..], key, seen);
      DedupDistinct(s[1..], key, seen + {key(s[0])});
      DedupElements(s[1..], key, seen + {key(s[0])});
    }
  }

  lemma {:induction false} DedupSorted<T(!new), K>(s: seq<T>, key: T -> K, seen: set<K>, le: (T, T) -> bool)
    requires Sorted(s, le)
    ensures Sorted(Dedup(s, key, seen), le)
  {
    if s != [] {
      SortedTail(s, le);
      DedupSorted(s[1..], key, seen, le);
      DedupSorted(s[1..], key, seen + {key(s[0])}, le);
      DedupElements(s[1..], key, seen + {key(s[0])});
      var rest := Dedup(s[1..], key, seen + {key(s[0])});
      forall i | 0 <= i < |rest|
        ensures le(s[0], rest[i])
      {
        assert rest[i] in rest && rest[i] in s[1..];
      }
    }
  }

  lemma {:induction false} DedupFixed<T, K>(s: seq<T>, key: T -> K, seen: set<K>)
    requires DistinctKeys(s, key) && KeySet(s, key) !! seen
    ensures Dedup(s, key, seen) == s
  {
    if s != [] {
      var k := key(s[0]);
      assert k in KeySet(s, key);
      forall x | x in s[1..]
        ensures key(x) !in seen + {k}
      {
        assert key(x) in KeySet(s, key);
        var i :| 0 <= i < |s[1..]| && s[1..][i] == x;
        assert s[i + 1] == x;
      }
      DedupFixed(s[1..], key, seen + {k});
    }
  }

  /** m does not tell apart elements of s with one key. */
  ghost predicate Respects<T, K>(s: seq<T>, key: T -> K, m: T -> bool) {
    forall x, y | x in s && y in s && key(x) == key(y) :: m(x) == m(y)
  }

  /** Dropping later elements with a key seen before does not change a first match. */
  lemma {:induction false} FirstOfDedup<T(!new), K>(s: seq<T>, key: T -> K, seen: set<K>, m: T -> bool)
    requires Respects(s, key, m)
    requires forall x | x in s && key(x) in seen :: !m(x)
    ensures First(Dedup(s, key, seen), m) == First(s, m)
  {
    if s != [] {
      var k := key(s[0]);
      assert forall x | x in s[1..] :: x in s;
      if k in seen {
        FirstOfDedup(s[1..], key, seen, m);
      } else {
        var rest := Dedup(s[1..], key, seen + {k});
        assert ([s[0]] + rest)[1..] == rest;
        if !m(s[0]) {
          FirstOfDedup(s[1..], key, seen + {k}, m);
        }
      }
    }
  }

  lemma {:induction false} FirstOfFilter<T(!new)>(s: seq<T>, keep: T -> bool, m: T -> bool)
    requires forall x | x in s && m(x) :: keep(x)
    ensures First(Filter(s, keep), m) == First(s, m)
  {
    if s != [] {
      var rest := Filter(s[1..], keep);
      assert forall x | x in s[1..] :: x in s;
      FirstOfFilter(s[1..], keep, m);
      assert ([s[0]] + rest)[1..] == rest;
      assert [] + rest == rest;
    }
  }

  // ---------------------------------------------------------------- merging

  /** The rules of the policies that are not nil, in order. */
  function Flatten(policies: seq<Option<seq<Rule>>>): seq<Rule> {
    if policies == [] then []
    else Flatten(policies[..|policies| - 1]) + policies[|policies| - 1].GetOr([])
  }

  function Merge(policies: seq<Option<seq<Rule>>>): seq<Rule> {
    Dedup(StableSort(Flatten(policies), RuleLe), RuleKey, {})
  }

  method MergeAndPrioritize(policies: seq<Option<seq<Rule>>>) returns (rules: seq<Rule>)
    ensures rules == Merge(policies)
  {
    var all: seq<Rule> := [];
    for i := 0 to |policies|
      invariant all == Flatten(policies[..i])
    {
      assert policies[..i + 1][..i] == policies[..i];
      if policies[i].Some? {
        all := all + policies[i].value;
      }
    }
    assert policies[..|policies|] == policies;
    var sorted := StableSort(all, RuleLe);
    var seen: set<string> := {};
    rules := [];
    for i := 0 to |sorted|
      invariant rules + Dedup(sorted[i..], RuleKey, seen) == Dedup(sorted, RuleKey, {})
    {
      assert sorted[i..][0] == sorted[i] && sorted[i..][1..] == sorted[i + 1..];
      var key := RuleKey(sorted[i]);
      if key !in seen {
        var rest := Dedup(sorted[i + 1..], RuleKey, seen + {key});
        assert rules + ([sorted[i]] + rest) == rules + [sorted[i]] + rest;
        rules := rules + [sorted[i]];
        seen := seen + {key};
      }
    }
  }

  lemma {:induction false} FilterSnoc<T>(s: seq<T>, x: T, keep: T -> bool)
    ensures Filter(s + [x], keep) == Filter(s, keep) + if keep(x) then [x] else []
  {
    if s == [] {
      assert [x][1..] == [];
    } else {
      assert (s + [x])[1..] == s[1..] + [x] && (s + [x])[0] == s[0];
      FilterSnoc(s[1..], x, keep);
      var kept := if keep(s[0]) then [s[0]] else [];
      assert Filter(s + [x], keep) == kept + (Filter(s[1..], keep) + if keep(x) then [x] else []);
    }
  }

  function Relevant(nodeIdentities: set<uint32>): Rule -> bool {
    (r: Rule) => r.src == 0 || r.dst == 0 || r.src in nodeIdentities || r.dst in nodeIdentities
  }

  method FilterRulesForNode(rules: seq<Rule>, nodeIdentities: set<uint32>) returns (filtered: seq<Rule>)
    ensures filtered == Filter(rules, Relevant(nodeIdentities))
  {
    filtered := [];
    for i := 0 to |rules|
      invariant filtered == Filter(rules[..i], Relevant(nodeIdentities))
    {
      var r := rules[i];
      if r.src == 0 || r.dst == 0 || r.src in nodeIdentities || r.dst in nodeIdentities {
        filtered := filtered + [r];
      }
      FilterSnoc(rules[..i], r, Relevant(nodeIdentities));
      assert rules[..i] + [r] == rules[..i + 1];
    }
    assert rules[..|rules|] == rules;
  }

  function KeyIs(k: string): Rule -> bool {
    (r: Rule) => RuleKey(r) == k
  }

  /** The rule kept for a key. */
  function Entry(rules: seq<Rule>, k: string): Option<Rule> {
    First(rules, KeyIs(k))
  }

  lemma MergedFirst(policies: seq<Option<seq<Rule>>>, m: Rule -> bool)
    requires Respects(Flatten(policies), RuleKey, m)
    ensures First(Merge(policies), m) == Best(Flatten(policies), m, RuleLe)
  {
    var all := Flatten(policies);
    RuleOrder();
    SameElements(all, StableSort(all, RuleLe));
    FirstOfDedup(StableSort(all, RuleLe), RuleKey, {}, m);
    FirstOfSorted(all, m, RuleLe);
  }

  lemma SameElements(s: seq<Rule>, t: seq<Rule>)
    requires t == StableSort(s, RuleLe)
    ensures forall x :: x in s <==> x in t
  {
    StableSortContents(s, RuleLe);
    assert forall x :: x in s <==> x in multiset(s);
    assert forall x :: x in t <==> x in multiset(t);
  }

  // ---------------------------------------------------------------- permutation independence

  /** Rules that agree on key, tier and name agree on the verdict. */
  ghost predicate Consistent(rules: seq<Rule>) {
    forall a, b | a in rules && b in rules && RuleKey(a) == RuleKey(b) && a.tier == b.tier && a.name == b.name ::
      a.verdict == b.verdict
  }

  /** Tenant and platform rules only ever allow. */
  lemma AllAllowConsistent(rules: seq<Rule>)
    requires forall r | r in rules :: r.verdict == ALLOW
    ensures Consistent(rules)
  {
  }

  ghost predicate SameDecision(a: Option<Rule>, b: Option<Rule>) {
    match (a, b)
    case (None, None) => true
    case (Some(x), Some(y)) => x.tier == y.tier && x.name == y.name && x.verdict == y.verdict
    case _ => false
  }

  ghost predicate SameRules(s: seq<Rule>, t: seq<Rule>) {
    forall x :: x in s <==> x in t
  }

  lemma BestOfSameRules(s: seq<Rule>, t: seq<Rule>, k: string)
    requires SameRules(s, t) && Consistent(s)
    ensures SameDecision(Best(s, KeyIs(k), RuleLe), Best(t, KeyIs(k), RuleLe))
  {
    RuleOrder();
    BestIsLeast(s, KeyIs(k), RuleLe);
    BestIsLeast(t, KeyIs(k), RuleLe);
    var a, b := Best(s, KeyIs(k), RuleLe), Best(t, KeyIs(k), RuleLe);
    if a.Some? && b.Some? {
      EqualRank(a.value, b.value);
    }
  }

  lemma KeyIsRespects(rules: seq<Rule>, k: string)
    ensures Respects(rules, RuleKey, KeyIs(k))
  {
  }

  /** The merged rules are one per input key, best-ranked first. */
  lemma MergeShape(policies: seq<Option<seq<Rule>>>)
    ensures KeySet(Merge(policies), RuleKey) == KeySet(Flatten(policies), RuleKey)
    ensures DistinctKeys(Merge(policies), RuleKey)
    ensures Sorted(Merge(policies), RuleLe)
    ensures forall r | r in Merge(policies) :: r in Flatten(policies)
  {
    var all := Flatten(policies);
    var sorted := StableSort(all, RuleLe);
    RuleOrder();
    SameElements(all, sorted);
    DedupKeySet(sorted, RuleKey, {});
    DedupDistinct(sorted, RuleKey, {});
    StableSortSorted(all, RuleLe);
    DedupSorted(sorted, RuleKey, {}, RuleLe);
    DedupElements(sorted, RuleKey, {});
    assert KeySet(sorted, RuleKey) == KeySet(all, RuleKey);
  }

  /** The merge depends only on which rules go in: however policies and their rules are grouped, ordered
      or repeated, each key gets the same tier, policy name and verdict. */
  lemma MergeOrderFree(p: seq<Option<seq<Rule>>>, q: seq<Option<seq<Rule>>>, k: string)
    requires SameRules(Flatten(p), Flatten(q)) && Consistent(Flatten(p))
    ensures SameDecision(Entry(Merge(p), k), Entry(Merge(q), k))
  {
    KeyIsRespects(Flatten(p), k);
    KeyIsRespects(Flatten(q), k);
    MergedFirst(p, KeyIs(k));
    MergedFirst(q, KeyIs(k));
    BestOfSameRules(Flatten(p), Flatten(q), k);
  }

  lemma FlattenOne(rules: seq<Rule>)
    ensures Flatten([Some(rules)]) == rules
  {
    assert [Some(rules)][..0] == [];
    assert Flatten([]) == [];
  }

  /** Ranked rules with distinct keys are merged into themselves. */
  lemma MergeFixed(rules: seq<Rule>)
    requires Sorted(rules, RuleLe) && DistinctKeys(rules, RuleKey)
    ensures Merge([Some(rules)]) == rules
  {
    RuleOrder();
    FlattenOne(rules);
    StableSortFixed(rules, RuleLe);
    DedupFixed(rules, RuleKey, {});
  }

  lemma MergeIdempotent(policies: seq<Option<seq<Rule>>>)
    ensures Merge([Some(Merge(policies))]) == Merge(policies)
  {
    MergeShape(policies);
    MergeFixed(Merge(policies));
  }

  lemma {:induction false} FlattenExact(policies: seq<Option<seq<Rule>>>, r: Rule)
    ensures r in Flatten(policies) <==> exists i :: 0 <= i < |policies| && policies[i].Some? && r in policies[i].value
    decreases |policies|
  {
    if policies != [] {
      var n := |policies| - 1;
      FlattenExact(policies[..n], r);
      assert forall i | 0 <= i < n :: policies[..n][i] == policies[i];
    }
  }

  /** How many of the numbers are not zero. */
  function NonZero(xs: seq<int>): nat {
    if xs == [] then 0 else (if xs[0] != 0 then 1 else 0) + NonZero(xs[1..])
  }

  lemma NonZeroThree(x: int, y: int, z: int)
    ensures NonZero([x, y, z]) ==
            (if x != 0 then 1 else 0) + (if y != 0 then 1 else 0) + if z != 0 then 1 else 0
  {
    assert [x, y, z][1..] == [y, z] && [y, z][1..] == [z] && [z][1..] == [];
    assert NonZero([z]) == (if z != 0 then 1 else 0) + NonZero([]);
    assert NonZero([y, z]) == (if y != 0 then 1 else 0) + NonZero([z]);
  }

  /** What the order of merged rules means: they are rules of the policies; the smaller tier comes first; in one
      tier the rule that names more of source, destination and port; and then names do not decrease. */
  lemma MergedRanking(policies: seq<Option<seq<Rule>>>, i: nat, j: nat)
    requires i < j < |Merge(policies)|
    ensures var a, b := Merge(policies)[i], Merge(policies)[j];
            var m, n := NonZero([a.src, a.dst, a.port]), NonZero([b.src, b.dst, b.port]);
            && (exists p :: p in policies && p.Some? && a in p.value)
            && a.tier <= b.tier
            && (a.tier == b.tier ==> m >= n)
            && (a.tier == b.tier && m == n ==> NotAfter(a.name, b.name))
  {
    MergeShape(policies);
    var a, b := Merge(policies)[i], Merge(policies)[j];
    assert a in Merge(policies) && RuleLe(a, b);
    FlattenExact(policies, a);
    NonZeroThree(a.src, a.dst, a.port);
    NonZeroThree(b.src, b.dst, b.port);
    StrLeExact(a.name, b.name);
  }

  // ---------------------------------------------------------------- first-match meaning

  datatype Flow = Flow(src: uint32, dst: uint32, proto: string, port: int)

  /** First-match semantics with 0 and "ANY" as wildcards. */
  function Covers(f: Flow): Rule -> bool {
    (r: Rule) =>
      && (r.src == 0 || r.src == f.src)
      && (r.dst == 0 || r.dst == f.dst)
      && (r.proto == ANY || r.proto == f.proto)
      && (r.port == 0 || r.port == f.port)
  }

  predicate SameSelector(a: Rule, b: Rule) {
    a.src == b.src && a.dst == b.dst && a.proto == b.proto && a.port == b.port
  }

  /** No two rules with different selectors render to one key. */
  ghost predicate NoCollision(rules: seq<Rule>) {
    forall a, b | a in rules && b in rules && RuleKey(a) == RuleKey(b) :: SameSelector(a, b)
  }

  lemma PortsNonNegative(rules: seq<Rule>)
    requires forall r | r in rules :: r.port >= 0
    ensures NoCollision(rules)
  {
    forall a, b | a in rules && b in rules && RuleKey(a) == RuleKey(b)
      ensures SameSelector(a, b)
    {
      Keys.KeyExact(a.src, a.dst, a.proto, a.port, b.src, b.dst, b.proto, b.port);
    }
  }

  /** A first match that is also the first of its key survives deduplication, and stays first. */
  lemma {:induction false} FirstKept(s: seq<Rule>, seen: set<string>, m: Rule -> bool, k: string)
    requires First(s, m).Some? && Entry(s, k) == First(s, m) && k !in seen
    ensures First(Dedup(s, RuleKey, seen), m) == First(s, m)
  {
    var one := RuleKey(s[0]);
    var rest := Dedup(s[1..], RuleKey, seen + {one});
    assert ([s[0]] + rest)[1..] == rest;
    FirstIn(s, m);
    FirstIn(s, KeyIs(k));
    if !m(s[0]) {
      FirstKept(s[1..], if one in seen then seen else seen + {one}, m, k);
    }
  }

  lemma {:induction false} FirstIn<T(!new)>(s: seq<T>, m: T -> bool)
    ensures First(s, m).None? <==> forall x | x in s :: !m(x)
    ensures First(s, m).Some? ==> First(s, m).value in s && m(First(s, m).value)
  {
    if s != [] {
      assert forall x :: x in s <==> x == s[0] || x in s[1..];
      FirstIn(s[1..], m);
    }
  }

  lemma FirstOfKey(rules: seq<Rule>, r: Rule)
    requires DistinctKeys(rules, RuleKey) && r in rules
    ensures Entry(rules, RuleKey(r)) == Some(r)
  {
    FirstIn(rules, KeyIs(RuleKey(r)));
  }

  /** The rule that should decide is the best-ranked one with its rendered key. */
  predicate BestOfItsKey(all: seq<Rule>, r: Rule) {
    Best(all, KeyIs(RuleKey(r)), RuleLe) == Some(r)
  }

  lemma MergedKept(policies: seq<Option<seq<Rule>>>, m: Rule -> bool)
    ensures var b := Best(Flatten(policies), m, RuleLe);
            b.Some? && BestOfItsKey(Flatten(policies), b.value) ==> First(Merge(policies), m) == b
  {
    var all := Flatten(policies);
    var b := Best(all, m, RuleLe);
    RuleOrder();
    FirstOfSorted(all, m, RuleLe);
    if b.Some? && BestOfItsKey(all, b.value) {
      var k := RuleKey(b.value);
      FirstOfSorted(all, KeyIs(k), RuleLe);
      FirstKept(StableSort(all, RuleLe), {}, m, k);
    }
  }

  /** Merging keeps the best match of a property exactly when there is none or it is the best of its key. */
  lemma MergedFirstExact(policies: seq<Option<seq<Rule>>>, m: Rule -> bool)
    ensures var b := Best(Flatten(policies), m, RuleLe);
            First(Merge(policies), m) == b <==> (b.Some? ==> BestOfItsKey(Flatten(policies), b.value))
  {
    var all, merged := Flatten(policies), Merge(policies);
    var b := Best(all, m, RuleLe);
    RuleOrder();
    BestIsLeast(all, m, RuleLe);
    FirstIn(merged, m);
    MergeShape(policies);
    MergedKept(policies, m);
    if b.Some? && First(merged, m) == b {
      FirstOfKey(merged, b.value);
      KeyIsRespects(all, RuleKey(b.value));
      MergedFirst(policies, KeyIs(RuleKey(b.value)));
    }
  }

  /** Sorting, deduplicating and filtering for a node keep, for a flow that touches the node, the
      highest-priority rule covering it, exactly when no better-ranked rule renders to that rule's key. */
  lemma NodeVerdictExact(policies: seq<Option<seq<Rule>>>, node: set<uint32>, f: Flow)
    requires f.src in node || f.dst in node
    ensures var b := Best(Flatten(policies), Covers(f), RuleLe);
            First(Filter(Merge(policies), Relevant(node)), Covers(f)) == b <==>
            (b.Some? ==> BestOfItsKey(Flatten(policies), b.value))
  {
    FirstOfFilter(Merge(policies), Relevant(node), Covers(f));
    MergedFirstExact(policies, Covers(f));
  }

  /** In particular when no two different selectors share a key. */
  lemma NodeVerdictPreserved(policies: seq<Option<seq<Rule>>>, node: set<uint32>, f: Flow)
    requires NoCollision(Flatten(policies))
    requires f.src in node || f.dst in node
    ensures First(Filter(Merge(policies), Relevant(node)), Covers(f)) == Best(Flatten(policies), Covers(f), RuleLe)
  {
    var all := Flatten(policies);
    var b := Best(all, Covers(f), RuleLe);
    NodeVerdictExact(policies, node, f);
    if b.Some? {
      RuleOrder();
      BestIsLeast(all, Covers(f), RuleLe);
      forall r | r in all && KeyIs(RuleKey(b.value))(r)
        ensures Covers(f)(r)
      {
        assert SameSelector(r, b.value);
      }
      BestOfPart(all, Covers(f), KeyIs(RuleKey(b.value)), RuleLe);
    }
  }

  /** The flow has an end on the node. */
  predicate Touches(f: Flow, node: set<uint32>) {
    f.src in node || f.dst in node
  }

  lemma RelevantIsTouching(node: set<uint32>, r: Rule)
    requires node != {}
    ensures Relevant(node)(r) <==> exists f :: Touches(f, node) && Covers(f)(r)
  {
    var n :| n in node;
    if Relevant(node)(r) {
      var f := Flow(if r.src == 0 then n else r.src, if r.src != 0 && r.src !in node && r.dst == 0 then n else r.dst,
                    r.proto, r.port);
      assert Touches(f, node) && Covers(f)(r);
    }
  }

  lemma {:induction false} FilterExact<T>(s: seq<T>, keep: T -> bool, x: T)
    ensures x in Filter(s, keep) <==> x in s && keep(x)
  {
    if s != [] {
      FilterExact(s[1..], keep, x);
    }
  }

  /** A node with identities is given exactly the rules that cover some flow with an end on it. */
  lemma NodeRulesExact(rules: seq<Rule>, node: set<uint32>, r: Rule)
    requires node != {}
    ensures r in Filter(rules, Relevant(node)) <==> r in rules && exists f :: Touches(f, node) && Covers(f)(r)
  {
    FilterExact(rules, Relevant(node), r);
    RelevantIsTouching(node, r);
  }

  /** Of two rules with one key the lower-ranked is lost. */
  lemma CollisionKeepsFirst(a: Rule, b: Rule)
    requires RuleLe(a, b) && RuleKey(a) == RuleKey(b)
    ensures Merge([Some([a, b])]) == [a]
  {
    FlattenOne([a, b]);
    assert [a, b][1..] == [b] && [b][1..] == [];
    assert StableSort([b], RuleLe) == [b];
    assert StableSort([a, b], RuleLe) == [a] + [b];
    assert ([a] + [b])[1..] == [b];
    var seen: set<string> := {};
    assert Dedup([b], RuleKey, seen + {RuleKey(a)}) == [];
    assert Dedup([a] + [b], RuleKey, seen) == [a] + Dedup([b], RuleKey, seen + {RuleKey(a)});
  }

  // ---------------------------------------------------------------- platform rules

  function PlatformRules(monitoringPort: int): seq<Rule> {
    [Rule(0, 0, "UDP", 53, ALLOW, "platform-dns-udp", "", TIER_PLATFORM),
     Rule(0, 0, "TCP", 53, ALLOW, "platform-dns-tcp", "", TIER_PLATFORM),
     Rule(0, 0, "TCP", monitoringPort, ALLOW, "platform-monitoring", "", TIER_PLATFORM)]
  }

  /** The platform allows, as tier 1 and for everyone, exactly UDP and TCP port 53 and its monitoring port on
      TCP, where a monitoring port 0 means any. */
  lemma PlatformExact(monitoringPort: int, f: Flow)
    ensures (exists r :: r in PlatformRules(monitoringPort) && Covers(f)(r)) <==>
            || (f.proto == "UDP" && f.port == 53)
            || (f.proto == "TCP" && (f.port == 53 || f.port == monitoringPort || monitoringPort == 0))
    ensures forall r | r in PlatformRules(monitoringPort) :: r.verdict == "allow" && r.tier == 1 && r.src == 0 && r.dst == 0
  {
    var rules := PlatformRules(monitoringPort);
    assert rules[0] in rules && rules[1] in rules && rules[2] in rules;
    assert forall r | r in rules :: r == rules[0] || r == rules[1] || r == rules[2];
    assert "UDP"[0] != ANY[0] && "TCP"[0] != ANY[0];
  }
}
