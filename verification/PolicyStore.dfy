/** The policy store (pkg/policy/policy_store.go): policies change in one critical section, and are
    recompiled in a second one. */
module PolicyStore {
  import opened Base
  import opened Labels
  import opened Sorting
  import opened Rules
  import opened Compiler
  import Identities

  datatype Stored = Stored(name: string, namespace: string, spec: Spec)

  type Table = map<string, Stored>

  function StoreKey(name: string, namespace: string): string {
    namespace + "/" + name
  }

  /** Namespaces hold no slash, so policies of different name or namespace have different keys. */
  lemma StoreKeyExact(n: string, ns: string, m: string, ms: string)
    requires '/' !in ns && '/' !in ms
    ensures StoreKey(n, ns) == StoreKey(m, ms) <==> n == m && ns == ms
  {
    if StoreKey(n, ns) == StoreKey(m, ms) {
      CutOnce('/', ns, n, ms, m);
    }
  }

  // ================================================================ the rules of a table

  /** The rules of the policies compiled one after the other in the given order. */
  function CompiledAll(st: St, h: Hashes, policies: Table, order: seq<string>): (St, set<Rule>) {
    if order == [] then (st, {})
    else
      var (st1, rules) := CompiledAll(st, h, policies, order[..|order| - 1]);
      var k := order[|order| - 1];
      if k !in policies then (st1, rules)
      else
        var (st2, more) := Compiled(st1, h, policies[k].name, policies[k].namespace, policies[k].spec);
        (st2, rules + more)
  }

  /** Their selectors as the compiler meets them. */
  function TableSelectors(policies: Table, order: seq<string>): seq<Labels> {
    if order == [] then []
    else
      var k := order[|order| - 1];
      TableSelectors(policies, order[..|order| - 1]) + if k in policies then Selectors(policies[k].spec) else []
  }

  function Meaning(st: St, h: Hashes, p: Stored): set<Rule> {
    Declared(st, h, p.name, p.namespace, p.spec)
  }

  /** The rules of a table, read off one state: no order is involved. */
  function TableMeaning(st: St, h: Hashes, policies: Table, keys: set<string>): set<Rule> {
    set k, r | k in keys && k in policies && r in Meaning(st, h, policies[k]) :: r
  }

  lemma TableOneMore(st: St, h: Hashes, policies: Table, keys: set<string>, k: string)
    ensures TableMeaning(st, h, policies, keys + {k}) ==
            TableMeaning(st, h, policies, keys) + if k in policies then Meaning(st, h, policies[k]) else {}
  {
  }

  /** Policies whose selectors resolve to what they stand for in z compile to their meaning in z. */
  lemma {:induction false} TableFrom(z: St, st: St, h: Hashes, policies: Table, order: seq<string>)
    ensures CompiledAll(st, h, policies, order).0 == After(st, h, TableSelectors(policies, order))
    ensures Resolves(z, st, h, TableSelectors(policies, order)) ==>
              CompiledAll(st, h, policies, order).1 == TableMeaning(z, h, policies, Elements(order))
    decreases |order|
  {
    if order != [] {
      var n := |order| - 1;
      var k := order[n];
      TableFrom(z, st, h, policies, order[..n]);
      ElementsSnoc(order[..n], k);
      assert order[..n] + [k] == order;
      TableOneMore(z, h, policies, Elements(order[..n]), k);
      var before := TableSelectors(policies, order[..n]);
      if k in policies {
        TableNext(z, st, h, before, policies[k]);
      } else {
        assert before + [] == before;
      }
    }
  }

  lemma TableNext(z: St, st: St, h: Hashes, before: seq<Labels>, p: Stored)
    ensures var (st', rules) := Compiled(After(st, h, before), h, p.name, p.namespace, p.spec);
            && st' == After(st, h, before + Selectors(p.spec))
            && (Resolves(z, st, h, before + Selectors(p.spec)) ==> Resolves(z, st, h, before) && rules == Meaning(z, h, p))
  {
    CompiledFrom(z, After(st, h, before), h, p.name, p.namespace, p.spec);
    AfterAppend(st, h, before, Selectors(p.spec));
    if Resolves(z, st, h, before + Selectors(p.spec)) {
      ResolvesAppend(z, st, h, before, Selectors(p.spec));
    }
  }

  /** When no selector of the table disturbs an earlier one, the table compiles to its meaning in the state
      it leaves behind. */
  lemma CompileAllMeaning(st: St, h: Hashes, policies: Table, order: seq<string>, dom: Labels -> bool)
    requires CacheOk(st, h, dom) && AllIn(TableSelectors(policies, order), dom)
    requires Undisturbed(st, h, TableSelectors(policies, order))
    ensures var (st', rules) := CompiledAll(st, h, policies, order);
            rules == TableMeaning(st', h, policies, Elements(order)) && CacheOk(st', h, dom)
  {
    var sels := TableSelectors(policies, order);
    UndisturbedResolves(st, h, sels, dom);
    AfterOk(st, h, sels, dom);
    TableFrom(After(st, h, sels), st, h, policies, order);
  }

  // ================================================================ recompilation in any order

  lemma {:induction false} SelectorsFrom(policies: Table, order: seq<string>, s: Labels)
    ensures s in TableSelectors(policies, order) <==>
            exists k :: k in order && k in policies && s in Selectors(policies[k].spec)
    decreases |order|
  {
    if order != [] {
      SelectorsFrom(policies, order[..|order| - 1], s);
      assert forall k :: k in order <==> k in order[..|order| - 1] || k == order[|order| - 1];
    }
  }

  lemma SelectorsAnyOrder(policies: Table, first: seq<string>, second: seq<string>)
    requires Elements(first) == Elements(second)
    ensures forall s :: s in TableSelectors(policies, first) <==> s in TableSelectors(policies, second)
  {
    assert forall k :: k in first <==> k in Elements(first);
    assert forall k :: k in second <==> k in Elements(second);
    forall s
      ensures s in TableSelectors(policies, first) <==> s in TableSelectors(policies, second)
    {
      SelectorsFrom(policies, first, s);
      SelectorsFrom(policies, second, s);
    }
  }

  /** A recompilation of unchanged policies in any order produces the rules of the previous one. */
  lemma RecompileOrderFree(st: St, h: Hashes, policies: Table, first: seq<string>, second: seq<string>, dom: Labels -> bool)
    requires Elements(first) == Elements(second)
    requires CacheOk(st, h, dom) && AllIn(TableSelectors(policies, first), dom)
    requires Undisturbed(st, h, TableSelectors(policies, first))
    ensures var (st1, rules1) := CompiledAll(st, h, policies, first);
            var (st2, rules2) := CompiledAll(st1, h, policies, second);
            rules1 == rules2
  {
    var sels := TableSelectors(policies, first);
    var z := After(st, h, sels);
    CompileAllMeaning(st, h, policies, first, dom);
    TableFrom(z, st, h, policies, first);
    AfterSettles(st, h, sels, dom);
    SelectorsAnyOrder(policies, first, second);
    SettledResolves(z, h, TableSelectors(policies, second), dom);
    TableFrom(z, z, h, policies, second);
  }

  /** A list of compiled policies to merge: the platform's, if any, and the tenants'. */
  ghost predicate Carries(lists: seq<Option<seq<Rule>>>, platform: Option<int>, rules: set<Rule>) {
    forall r :: r in Flatten(lists) <==> r in rules || r in PlatformSet(platform)
  }

  function PlatformSet(platform: Option<int>): set<Rule> {
    if platform.Some? then Elements(PlatformRules(platform.value)) else {}
  }

  lemma {:induction false} TableAllows(st: St, h: Hashes, policies: Table, order: seq<string>)
    ensures forall r | r in CompiledAll(st, h, policies, order).1 :: r.verdict == ALLOW
    decreases |order|
  {
    if order != [] {
      var k := order[|order| - 1];
      TableAllows(st, h, policies, order[..|order| - 1]);
      if k in policies {
        var st1 := CompiledAll(st, h, policies, order[..|order| - 1]).0;
        CompiledAllows(st1, h, policies[k].name, policies[k].namespace, policies[k].spec);
      }
    }
  }

  lemma CarriedConsistent(lists: seq<Option<seq<Rule>>>, platform: Option<int>, rules: set<Rule>)
    requires Carries(lists, platform, rules) && forall r | r in rules :: r.verdict == ALLOW
    ensures Consistent(Flatten(lists))
  {
    AllAllowConsistent(Flatten(lists));
  }

  /** Hence the merged result decides every key alike, whatever order Go ranges over the policies in. */
  lemma RecompileDecidesAlike(st: St, h: Hashes, policies: Table, first: seq<string>, second: seq<string>,
                              p: seq<Option<seq<Rule>>>, q: seq<Option<seq<Rule>>>, platform: Option<int>,
                              dom: Labels -> bool, key: string)
    requires Elements(first) == Elements(second)
    requires CacheOk(st, h, dom) && AllIn(TableSelectors(policies, first), dom)
    requires Undisturbed(st, h, TableSelectors(policies, first))
    requires Carries(p, platform, CompiledAll(st, h, policies, first).1)
    requires Carries(q, platform, CompiledAll(CompiledAll(st, h, policies, first).0, h, policies, second).1)
    ensures SameDecision(Rules.Entry(Merge(p), key), Rules.Entry(Merge(q), key))
  {
    RecompileOrderFree(st, h, policies, first, second, dom);
    TableAllows(st, h, policies, first);
    CarryAlike(p, q, platform, CompiledAll(st, h, policies, first).1, key);
  }

  lemma CarryAlike(p: seq<Option<seq<Rule>>>, q: seq<Option<seq<Rule>>>, platform: Option<int>, rules: set<Rule>, key: string)
    requires Carries(p, platform, rules) && Carries(q, platform, rules) && forall r | r in rules :: r.verdict == ALLOW
    ensures SameDecision(Rules.Entry(Merge(p), key), Rules.Entry(Merge(q), key))
  {
    CarriedConsistent(p, platform, rules);
    MergeOrderFree(p, q, key);
  }

  // ================================================================ the store and its critical sections

  /** A store with the state of its compiler. */
  datatype Store = Store(st: St, policies: Table, compiled: Option<seq<Rule>>, version: int)

  /** The first section of AddPolicy. */
  function WithPolicy(s: Store, name: string, namespace: string, spec: Spec): Store {
    s.(policies := s.policies[StoreKey(name, namespace) := Stored(name, namespace, spec)])
  }

  /** The first section of RemovePolicy. */
  function WithoutPolicy(s: Store, name: string, namespace: string): Store {
    s.(policies := s.policies - {StoreKey(name, namespace)})
  }

  /** Recompiling meets the policies in this order, and merges these lists. */
  ghost predicate Compiles(s: Store, h: Hashes, platform: Option<int>, order: seq<string>, lists: seq<Option<seq<Rule>>>) {
    Elements(order) == s.policies.Keys && Carries(lists, platform, CompiledAll(s.st, h, s.policies, order).1)
  }

  /** The second section of both: Recompile. */
  function Rebuilt(s: Store, h: Hashes, order: seq<string>, lists: seq<Option<seq<Rule>>>): Store {
    Store(CompiledAll(s.st, h, s.policies, order).0, s.policies, Some(Merge(lists)), s.version + 1)
  }

  // ================================================================ interleaved callers

  /** What the latest recompilation started from, met and merged. */
  datatype Build = Build(st: St, order: seq<string>, lists: seq<Option<seq<Rule>>>)

  /** The store with the callers that have done their first section but not their second. */
  datatype System = System(store: Store, between: set<nat>, recompiles: nat, last: Option<Build>)

  /** One critical section of some caller; between two sections pods and identities may change in any way. */
  datatype Section =
    | BeginAdd(caller: nat, name: string, namespace: string, spec: Spec)
    | BeginRemove(caller: nat, name: string, namespace: string)
    | Finish(caller: nat, order: seq<string>, lists: seq<Option<seq<Rule>>>)
    | RecompileOnly(order: seq<string>, lists: seq<Option<seq<Rule>>>)
    | Elsewhere(st: St)

  ghost function Recompiled(x: System, h: Hashes, platform: Option<int>, order: seq<string>, lists: seq<Option<seq<Rule>>>): System {
    if !Compiles(x.store, h, platform, order, lists) then x
    else x.(store := Rebuilt(x.store, h, order, lists), recompiles := x.recompiles + 1,
            last := Some(Build(x.store.st, order, lists)))
  }

  /** A section that cannot run does nothing. */
  ghost function Step(x: System, h: Hashes, platform: Option<int>, sec: Section): System {
    match sec
    case BeginAdd(c, name, ns, spec) =>
      if c in x.between then x
      else x.(store := WithPolicy(x.store, name, ns, spec), between := x.between + {c})
    case BeginRemove(c, name, ns) =>
      if c in x.between || StoreKey(name, ns) !in x.store.policies then x
      else x.(store := WithoutPolicy(x.store, name, ns), between := x.between + {c})
    case Finish(c, order, lists) =>
      if c !in x.between || !Compiles(x.store, h, platform, order, lists) then x
      else Recompiled(x.(between := x.between - {c}), h, platform, order, lists)
    case RecompileOnly(order, lists) => Recompiled(x, h, platform, order, lists)
    case Elsewhere(st) => x.(store := x.store.(st := st))
  }

  ghost function Run(st: St, h: Hashes, platform: Option<int>, sections: seq<Section>): System {
    if sections == [] then System(Store(st, map[], None, 1), {}, 0, None)
    else Step(Run(st, h, platform, sections[..|sections| - 1]), h, platform, sections[|sections| - 1])
  }

  /** The compiled result is the merge of the platform rules and of the current policies, compiled from the
      state the build started in. */
  ghost predicate BuiltFrom(s: Store, h: Hashes, platform: Option<int>, b: Build) {
    Compiles(s.(st := b.st), h, platform, b.order, b.lists) && s.compiled == Some(Merge(b.lists))
  }

  ghost predicate UpToDate(x: System, h: Hashes, platform: Option<int>) {
    x.last.Some? && BuiltFrom(x.store, h, platform, x.last.value)
  }

  ghost predicate Counted(x: System) {
    && x.store.version == 1 + x.recompiles
    && (x.store.compiled.Some? <==> x.recompiles > 0)
  }

  ghost predicate SystemInv(x: System, h: Hashes, platform: Option<int>) {
    && Counted(x)
    && (x.between == {} && x.recompiles > 0 ==> UpToDate(x, h, platform))
    && (x.between == {} && x.recompiles == 0 ==> x.store.policies == map[])
  }

  lemma RecompiledInv(x: System, h: Hashes, platform: Option<int>, order: seq<string>, lists: seq<Option<seq<Rule>>>)
    requires Counted(x) && Compiles(x.store, h, platform, order, lists)
    ensures var y := Recompiled(x, h, platform, order, lists);
            SystemInv(y, h, platform) && UpToDate(y, h, platform) && y.recompiles == x.recompiles + 1
  {
    var y := Recompiled(x, h, platform, order, lists);
    assert y.store.(st := x.store.st).policies == x.store.policies;
  }

  lemma StepInv(x: System, h: Hashes, platform: Option<int>, sec: Section)
    requires SystemInv(x, h, platform)
    ensures SystemInv(Step(x, h, platform, sec), h, platform)
  {
    match sec
    case BeginAdd(c, name, ns, spec) =>
      assert c in x.between + {c};
    case BeginRemove(c, name, ns) =>
      assert c in x.between + {c};
    case Finish(c, order, lists) =>
      if c in x.between && Compiles(x.store, h, platform, order, lists) {
        RecompiledInv(x.(between := x.between - {c}), h, platform, order, lists);
      }
    case RecompileOnly(order, lists) =>
      if Compiles(x.store, h, platform, order, lists) {
        RecompiledInv(x, h, platform, order, lists);
      }
    case Elsewhere(st) =>
  }

  /** In every interleaving, whenever no caller is between its sections and a recompilation has happened,
      the compiled result is the merge of the platform rules and of exactly the current policies; the
      version counts recompilations. */
  lemma {:induction false} CompiledIsCurrent(st: St, h: Hashes, platform: Option<int>, sections: seq<Section>)
    ensures var x := Run(st, h, platform, sections);
            && x.store.version == 1 + x.recompiles
            && (x.store.compiled.Some? <==> x.recompiles > 0)
            && (x.between == {} && x.recompiles > 0 ==> UpToDate(x, h, platform))
            && SystemInv(x, h, platform)
    decreases |sections|
  {
    if sections != [] {
      CompiledIsCurrent(st, h, platform, sections[..|sections| - 1]);
      StepInv(Run(st, h, platform, sections[..|sections| - 1]), h, platform, sections[|sections| - 1]);
    }
  }

  // ---------------------------------------------------------------- which policies are stored

  /** Policies by name and namespace. */
  type Pairs = map<(string, string), Spec>

  /** The policies as callers name them: what an add or remove that ran left, pair by pair. */
  ghost function PairRun(st: St, h: Hashes, platform: Option<int>, sections: seq<Section>): Pairs {
    if sections == [] then map[]
    else
      var before, x := PairRun(st, h, platform, sections[..|sections| - 1]), Run(st, h, platform, sections[..|sections| - 1]);
      match sections[|sections| - 1]
      case BeginAdd(c, name, ns, spec) => if c in x.between then before else before[(name, ns) := spec]
      case BeginRemove(c, name, ns) => if c in x.between then before else before - {(name, ns)}
      case _ => before
  }

  predicate Namespaced(sec: Section) {
    (sec.BeginAdd? || sec.BeginRemove?) ==> '/' !in sec.namespace
  }

  /** The table stores exactly these policies, under their keys. */
  ghost predicate Stores(policies: Table, pairs: Pairs) {
    && (forall q | q in pairs :: '/' !in q.1 && StoredIs(policies, q.0, q.1, pairs[q]))
    && (forall k | k in policies :: OfPair(policies[k], k, pairs))
  }

  predicate StoredIs(policies: Table, name: string, namespace: string, spec: Spec) {
    StoreKey(name, namespace) in policies && policies[StoreKey(name, namespace)] == Stored(name, namespace, spec)
  }

  predicate OfPair(p: Stored, k: string, pairs: Pairs) {
    (p.name, p.namespace) in pairs && k == StoreKey(p.name, p.namespace)
  }

  lemma StoresKey(policies: Table, pairs: Pairs, name: string, namespace: string)
    requires Stores(policies, pairs) && '/' !in namespace
    ensures StoreKey(name, namespace) in policies <==> (name, namespace) in pairs
  {
    var k := StoreKey(name, namespace);
    if k in policies {
      assert OfPair(policies[k], k, pairs);
      assert '/' !in policies[k].namespace;
      StoreKeyExact(name, namespace, policies[k].name, policies[k].namespace);
    }
    if (name, namespace) in pairs {
      assert StoredIs(policies, name, namespace, pairs[(name, namespace)]);
    }
  }

  lemma StoresAdd(policies: Table, pairs: Pairs, name: string, namespace: string, spec: Spec)
    requires Stores(policies, pairs) && '/' !in namespace
    ensures Stores(policies[StoreKey(name, namespace) := Stored(name, namespace, spec)], pairs[(name, namespace) := spec])
  {
    var key, after := StoreKey(name, namespace), pairs[(name, namespace) := spec];
    var table := policies[key := Stored(name, namespace, spec)];
    forall q | q in after
      ensures '/' !in q.1 && StoredIs(table, q.0, q.1, after[q])
    {
      if q != (name, namespace) {
        assert StoredIs(policies, q.0, q.1, pairs[q]);
        StoreKeyExact(q.0, q.1, name, namespace);
      }
    }
    forall k | k in table
      ensures OfPair(table[k], k, after)
    {
      assert k != key ==> OfPair(policies[k], k, pairs);
    }
  }

  lemma StoresRemove(policies: Table, pairs: Pairs, name: string, namespace: string)
    requires Stores(policies, pairs) && '/' !in namespace
    ensures Stores(policies - {StoreKey(name, namespace)}, pairs - {(name, namespace)})
  {
    var key, after := StoreKey(name, namespace), pairs - {(name, namespace)};
    var table := policies - {key};
    forall q | q in after
      ensures '/' !in q.1 && StoredIs(table, q.0, q.1, after[q])
    {
      assert StoredIs(policies, q.0, q.1, pairs[q]);
      StoreKeyExact(q.0, q.1, name, namespace);
    }
    forall k | k in table
      ensures OfPair(table[k], k, after)
    {
      assert OfPair(policies[k], k, pairs);
    }
  }

  ghost predicate AllNamespaced(sections: seq<Section>) {
    forall sec | sec in sections :: Namespaced(sec)
  }

  lemma {:induction false} RunStores(st: St, h: Hashes, platform: Option<int>, sections: seq<Section>)
    requires AllNamespaced(sections)
    ensures Stores(Run(st, h, platform, sections).store.policies, PairRun(st, h, platform, sections))
    decreases |sections|
  {
    if sections != [] {
      var n := |sections| - 1;
      var x, pairs := Run(st, h, platform, sections[..n]), PairRun(st, h, platform, sections[..n]);
      RunStores(st, h, platform, sections[..n]);
      assert Namespaced(sections[n]);
      match sections[n] {
        case BeginAdd(c, name, ns, spec) => StoresAdd(x.store.policies, pairs, name, ns, spec);
        case BeginRemove(c, name, ns) =>
          StoresRemove(x.store.policies, pairs, name, ns);
          if StoreKey(name, ns) !in x.store.policies {
            RemoveUnknown(x.store.policies, pairs, name, ns);
          }
        case _ =>
      }
    }
  }

  lemma RemoveUnknown(policies: Table, pairs: Pairs, name: string, namespace: string)
    requires Stores(policies, pairs) && '/' !in namespace && StoreKey(name, namespace) !in policies
    ensures pairs - {(name, namespace)} == pairs
  {
    StoresKey(policies, pairs, name, namespace);
  }

  /** In every interleaving the stored policies are exactly those last added under their name and namespace
      and not removed since, each once. */
  lemma StoredPolicies(st: St, h: Hashes, platform: Option<int>, sections: seq<Section>)
    requires AllNamespaced(sections)
    ensures var policies, pairs := Run(st, h, platform, sections).store.policies, PairRun(st, h, platform, sections);
            && (forall p :: p in policies.Values <==> (p.name, p.namespace) in pairs && pairs[(p.name, p.namespace)] == p.spec)
            && (forall k, l | k in policies && l in policies
                              && policies[k].name == policies[l].name && policies[k].namespace == policies[l].namespace :: k == l)
  {
    RunStores(st, h, platform, sections);
    var policies, pairs := Run(st, h, platform, sections).store.policies, PairRun(st, h, platform, sections);
    forall p
      ensures p in policies.Values <==> (p.name, p.namespace) in pairs && pairs[(p.name, p.namespace)] == p.spec
    {
      StoredValue(policies, pairs, p);
    }
    forall k, l | k in policies && l in policies
                  && policies[k].name == policies[l].name && policies[k].namespace == policies[l].namespace
      ensures k == l
    {
      assert OfPair(policies[k], k, pairs) && OfPair(policies[l], l, pairs);
    }
  }

  lemma StoredValue(policies: Table, pairs: Pairs, p: Stored)
    requires Stores(policies, pairs)
    ensures p in policies.Values <==> (p.name, p.namespace) in pairs && pairs[(p.name, p.namespace)] == p.spec
  {
    var q := (p.name, p.namespace);
    if q in pairs {
      assert StoredIs(policies, q.0, q.1, pairs[q]);
    }
    if p in policies.Values {
      var k :| k in policies && policies[k] == p;
      assert OfPair(p, k, pairs);
    }
  }

  /** RemovePolicy finds a policy exactly when that name and namespace is stored, and a caller then goes on to
      recompile; adding or removing one pair leaves every other as it was. */
  lemma SectionsByPair(st: St, h: Hashes, platform: Option<int>, sections: seq<Section>, next: Section, other: Stored)
    requires AllNamespaced(sections) && Namespaced(next) && (next.BeginAdd? || next.BeginRemove?)
    requires next.caller !in Run(st, h, platform, sections).between
    ensures var x := Run(st, h, platform, sections);
            var y := Step(x, h, platform, next);
            && (next.BeginRemove? ==>
                  (next.caller in y.between <==> exists p :: p in x.store.policies.Values && p.name == next.name && p.namespace == next.namespace))
            && ((other.name, other.namespace) != (next.name, next.namespace) ==>
                  (other in y.store.policies.Values <==> other in x.store.policies.Values))
  {
    var x, pairs := Run(st, h, platform, sections), PairRun(st, h, platform, sections);
    var q := (next.name, next.namespace);
    RunStores(st, h, platform, sections);
    StoresKey(x.store.policies, pairs, next.name, next.namespace);
    StoredValue(x.store.policies, pairs, other);
    if next.BeginAdd? {
      StoresAdd(x.store.policies, pairs, next.name, next.namespace, next.spec);
      StoredValue(Step(x, h, platform, next).store.policies, pairs[q := next.spec], other);
    } else if q in pairs {
      StoresRemove(x.store.policies, pairs, next.name, next.namespace);
      StoredValue(Step(x, h, platform, next).store.policies, pairs - {q}, other);
      StoredValue(x.store.policies, pairs, Stored(next.name, next.namespace, pairs[q]));
    } else {
      forall p | p in x.store.policies.Values
        ensures !(p.name == next.name && p.namespace == next.namespace)
      {
        StoredValue(x.store.policies, pairs, p);
      }
    }
  }

  // ---------------------------------------------------------------- what a node is given

  /** No caller is between its sections, and the latest build met no selectors that disturb each other. */
  ghost predicate Quiet(x: System, h: Hashes, dom: Labels -> bool) {
    && x.between == {} && x.last.Some?
    && var b, policies := x.last.value, x.store.policies;
    && CacheOk(b.st, h, dom)
    && AllIn(TableSelectors(policies, b.order), dom)
    && Undisturbed(b.st, h, TableSelectors(policies, b.order))
  }

  /** The rules the store should be made of: the platform's and the meaning of the current policies. */
  ghost function DueRules(x: System, h: Hashes, platform: Option<int>): set<Rule>
    requires x.last.Some?
  {
    var b, policies := x.last.value, x.store.policies;
    TableMeaning(CompiledAll(b.st, h, policies, b.order).0, h, policies, policies.Keys) + PlatformSet(platform)
  }

  lemma {:induction false} LastIsBuild(st: St, h: Hashes, platform: Option<int>, sections: seq<Section>)
    ensures var x := Run(st, h, platform, sections);
            x.last.Some? <==> x.recompiles > 0
    decreases |sections|
  {
    if sections != [] {
      LastIsBuild(st, h, platform, sections[..|sections| - 1]);
    }
  }

  /** In a quiet state the compiled result merges exactly the rules that are due. */
  lemma CompiledMeansPolicies(st: St, h: Hashes, platform: Option<int>, sections: seq<Section>, dom: Labels -> bool)
    requires Quiet(Run(st, h, platform, sections), h, dom)
    ensures var x := Run(st, h, platform, sections);
            && x.store.compiled == Some(Merge(x.last.value.lists))
            && (forall r :: r in Flatten(x.last.value.lists) <==> r in DueRules(x, h, platform))
  {
    var x := Run(st, h, platform, sections);
    LastIsBuild(st, h, platform, sections);
    CompiledIsCurrent(st, h, platform, sections);
    CompileAllMeaning(x.last.value.st, h, x.store.policies, x.last.value.order, dom);
  }

  /** `r` is a best-ranked rule of the set that covers the flow, or there is none. */
  ghost predicate Decides(r: Option<Rule>, rules: set<Rule>, f: Flow) {
    && (r.None? <==> forall x | x in rules :: !Covers(f)(x))
    && (r.Some? ==> r.value in rules && Covers(f)(r.value) && forall x | x in rules && Covers(f)(x) :: RuleLe(r.value, x))
  }

  lemma BestDecides(all: seq<Rule>, rules: set<Rule>, f: Flow)
    requires forall r :: r in all <==> r in rules
    ensures Decides(Best(all, Covers(f), RuleLe), rules, f)
  {
    RuleOrder();
    BestIsLeast(all, Covers(f), RuleLe);
  }

  /** In every interleaving, in a quiet state and with non-negative ports: the first rule that covers a flow
      in what GetCompiledForNode gives a node at one of its ends is a best-ranked rule due. */
  lemma StoreDecides(st: St, h: Hashes, platform: Option<int>, sections: seq<Section>, dom: Labels -> bool,
                     node: set<uint32>, f: Flow)
    requires Quiet(Run(st, h, platform, sections), h, dom)
    requires forall r | r in DueRules(Run(st, h, platform, sections), h, platform) :: r.port >= 0
    requires f.src in node || f.dst in node
    ensures var x := Run(st, h, platform, sections);
            Decides(First(Filter(x.store.compiled.GetOr([]), Relevant(node)), Covers(f)), DueRules(x, h, platform), f)
  {
    var x := Run(st, h, platform, sections);
    CompiledMeansPolicies(st, h, platform, sections, dom);
    var lists, due := x.last.value.lists, DueRules(x, h, platform);
    PortsNonNegative(Flatten(lists));
    NodeVerdictPreserved(lists, node, f);
    BestDecides(Flatten(lists), due, f);
  }

  // ================================================================ the mutable store

  function PlatformList(platform: Option<int>): (lists: seq<Option<seq<Rule>>>)
    ensures Carries(lists, platform, {})
  {
    if platform.None? then []
    else
      FlattenOne(PlatformRules(platform.value));
      [Some(PlatformRules(platform.value))]
  }

  class PolicyStore {
    const compiler: PolicyCompiler
    const platform: Option<int>
    var policies: Table
    var compiled: Option<seq<Rule>>
    var version: int

    ghost function Model(): Store
      reads this, compiler, compiler.identityAllocator, compiler.selectorCache
    {
      Store(compiler.Model(), policies, compiled, version)
    }

    constructor (compiler: PolicyCompiler, platform: Option<int>)
      ensures this.compiler == compiler && this.platform == platform
      ensures Model() == Store(compiler.Model(), map[], None, 1)
    {
      this.compiler, this.platform := compiler, platform;
      policies, compiled, version := map[], None, 1;
    }

    method StorePolicy(name: string, namespace: string, spec: Spec)
      modifies this`policies
      ensures Model() == WithPolicy(old(Model()), name, namespace, spec)
    {
      policies := policies[StoreKey(name, namespace) := Stored(name, namespace, spec)];
    }

    method DropPolicy(name: string, namespace: string) returns (found: bool)
      modifies this`policies
      ensures found <==> StoreKey(name, namespace) in old(policies)
      ensures Model() == if found then WithoutPolicy(old(Model()), name, namespace) else old(Model())
    {
      found := StoreKey(name, namespace) in policies;
      if found {
        policies := policies - {StoreKey(name, namespace)};
      }
    }

    /** `lists` are the policies of `order` compiled from `start`, after the platform's. */
    ghost predicate Compiling(start: St, order: seq<string>, lists: seq<Option<seq<Rule>>>)
      reads this`policies, compiler, compiler.identityAllocator, compiler.selectorCache
    {
      forall u :: Unfold(u) ==>
        && compiler.Model() == CompiledAll(start, SourceHashes(), policies, order).0
        && Carries(lists, platform, CompiledAll(start, SourceHashes(), policies, order).1)
    }

    /** Compiles one more policy and appends its rules to the list to merge. */
    method CompileNext(ghost start: St, k: string, ghost order: seq<string>, lists: seq<Option<seq<Rule>>>)
      returns (more: seq<Option<seq<Rule>>>)
      requires k in policies && Identities.Linked(compiler.identityAllocator.Model())
      requires Compiling(start, order, lists)
      modifies compiler.identityAllocator, compiler.selectorCache
      ensures Compiling(start, order + [k], more)
      ensures Identities.Linked(compiler.identityAllocator.Model())
    {
      assert Unfold(Unit);
      var p := policies[k];
      var rules := compiler.CompilePolicy(p.name, p.namespace, p.spec);
      CompiledAllNext(start, SourceHashes(), policies, order, k);
      CarriesMore(lists, platform, CompiledAll(start, SourceHashes(), policies, order).1, rules);
      more := lists + [Some(rules)];
    }

    /** The keys of the table, in any order. */
    method KeyOrder() returns (order: seq<string>)
      ensures Elements(order) == policies.Keys
    {
      order := [];
      var rest := policies.Keys;
      RestAll(rest);
      while rest != {}
        invariant Rest(rest, order, policies.Keys)
        decreases |rest|
      {
        var k :| k in rest;
        RestNext(rest, order, policies.Keys, k);
        rest := rest - {k};
        order := order + [k];
      }
      RestNone(order, policies.Keys);
    }

    /** Compiles every policy, in any order. */
    method CompileTable() returns (lists: seq<Option<seq<Rule>>>, ghost order: seq<string>)
      requires Identities.Linked(compiler.identityAllocator.Model())
      modifies compiler.identityAllocator, compiler.selectorCache
      ensures Elements(order) == policies.Keys && Compiling(old(compiler.Model()), order, lists)
      ensures Identities.Linked(compiler.identityAllocator.Model())
    {
      ghost var start := compiler.Model();
      var keys := KeyOrder();
      lists := PlatformList(platform);
      assert Compiling(start, [], lists) by {
        assert Unfold(Unit);
      }
      assert keys[..0] == [];
      for i := 0 to |keys|
        invariant Identities.Linked(compiler.identityAllocator.Model())
        invariant Compiling(start, keys[..i], lists)
      {
        assert keys[i] in Elements(keys);
        lists := CompileNext(start, keys[i], keys[..i], lists);
        assert keys[..i] + [keys[i]] == keys[..i + 1];
      }
      assert keys[..|keys|] == keys;
      order := keys;
    }

    /** The merge of the platform rules and of every policy, compiled in some order. */
    method Recompile() returns (ghost order: seq<string>, ghost lists: seq<Option<seq<Rule>>>)
      requires Identities.Linked(compiler.identityAllocator.Model())
      modifies this`compiled, this`version, compiler.identityAllocator, compiler.selectorCache
      ensures Compiles(old(Model()), SourceHashes(), platform, order, lists)
      ensures Model() == Rebuilt(old(Model()), SourceHashes(), order, lists)
      ensures Identities.Linked(compiler.identityAllocator.Model())
    {
      var toMerge;
      toMerge, order := CompileTable();
      lists := toMerge;
      assert Unfold(Unit);
      var merged := MergeAndPrioritize(toMerge);
      compiled := Some(merged);
      version := version + 1;
    }

    /** Both sections of a caller with no other caller in between. */
    method AddPolicy(name: string, namespace: string, spec: Spec)
      returns (ghost order: seq<string>, ghost lists: seq<Option<seq<Rule>>>)
      requires Identities.Linked(compiler.identityAllocator.Model())
      modifies this, compiler.identityAllocator, compiler.selectorCache
      ensures var mid := WithPolicy(old(Model()), name, namespace, spec);
              && Compiles(mid, SourceHashes(), platform, order, lists)
              && Model() == Rebuilt(mid, SourceHashes(), order, lists)
    {
      StorePolicy(name, namespace, spec);
      order, lists := Recompile();
    }

    method RemovePolicy(name: string, namespace: string)
      returns (found: bool, ghost order: seq<string>, ghost lists: seq<Option<seq<Rule>>>)
      requires StoreKey(name, namespace) in policies ==> Identities.Linked(compiler.identityAllocator.Model())
      modifies this, compiler.identityAllocator, compiler.selectorCache
      ensures found <==> StoreKey(name, namespace) in old(policies)
      ensures !found ==> Model() == old(Model())
      ensures found ==>
                var mid := WithoutPolicy(old(Model()), name, namespace);
                && Compiles(mid, SourceHashes(), platform, order, lists)
                && Model() == Rebuilt(mid, SourceHashes(), order, lists)
    {
      order, lists := [], [];
      found := DropPolicy(name, namespace);
      if found {
        order, lists := Recompile();
      }
    }

    method GetCompiledForNode(nodeIdentities: set<uint32>) returns (rules: seq<Rule>)
      ensures rules == Filter(compiled.GetOr([]), Relevant(nodeIdentities))
    {
      if compiled.None? {
        return [];
      }
      rules := FilterRulesForNode(compiled.value, nodeIdentities);
    }
  }

  lemma CompiledAllNext(st: St, h: Hashes, policies: Table, order: seq<string>, k: string)
    requires k in policies
    ensures var (st1, rules) := CompiledAll(st, h, policies, order);
            var (st2, more) := Compiled(st1, h, policies[k].name, policies[k].namespace, policies[k].spec);
            CompiledAll(st, h, policies, order + [k]) == (st2, rules + more)
  {
    assert (order + [k])[..|order|] == order;
  }

  lemma CarriesMore(lists: seq<Option<seq<Rule>>>, platform: Option<int>, rules: set<Rule>, more: seq<Rule>)
    requires Carries(lists, platform, rules)
    ensures Carries(lists + [Some(more)], platform, rules + Elements(more))
  {
    assert (lists + [Some(more)])[..|lists|] == lists;
    assert Flatten(lists + [Some(more)]) == Flatten(lists) + more;
    assert forall r :: r in more <==> r in Elements(more);
  }
}
