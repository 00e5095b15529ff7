/** Label maps: their canonical text and its hash (pkg/policy/identity.go, pkg/policy/selector_cache.go),
    and the label maps an ADD request carries (cmd/cni-plugin/main.go, cmd/node-agent/main.go). */
module Labels {
  import opened Base
  import opened Sorting

  type Labels = map<string, string>

  /** hex(sha256(text)), taken to be injective and never empty; the selector cache uses the empty string
      for the empty label map. */
  datatype Digest = Blank | Sha256(text: string)

  // ---------------------------------------------------------------- canonical text

  function Encode(keys: seq<string>, m: Labels): string
    requires forall k | k in keys :: k in m
  {
    if keys == [] then "" else Entry(keys[0], m[keys[0]]) + Encode(keys[1..], m)
  }

  /** Some order of a set: Go ranges over a map in an unspecified one. */
  ghost function Listing(s: set<string>): (r: seq<string>)
    ensures multiset(r) == multiset(s)
  {
    if s == {} then []
    else
      var k :| k in s;
      assert s == s - {k} + {k};
      [k] + Listing(s - {k})
  }

  ghost function SortedKeys(m: Labels): (r: seq<string>)
    ensures multiset(r) == multiset(m.Keys)
    ensures forall k :: k in r <==> k in m
  {
    StableSortContents(Listing(m.Keys), StrLe);
    var r := StableSort(Listing(m.Keys), StrLe);
    assert forall k :: k in r <==> k in multiset(r);
    r
  }

  ghost function Serialize(m: Labels): string {
    Encode(SortedKeys(m), m)
  }

  ghost function IdentityHash(m: Labels): Digest {
    Sha256(Serialize(m))
  }

  ghost function SelectorHash(m: Labels): Digest {
    if m == map[] then Blank else Sha256(Serialize(m))
  }

  /** Whatever order the keys are met in, sorting them gives the same text. */
  lemma OrderIrrelevant(m: Labels, order: seq<string>)
    requires multiset(order) == multiset(m.Keys)
    ensures StableSort(order, StrLe) == SortedKeys(m)
  {
    StrLeOrder();
    StableSortContents(order, StrLe);
    StableSortSorted(order, StrLe);
    StableSortSorted(Listing(m.Keys), StrLe);
    SortedUnique(StableSort(order, StrLe), SortedKeys(m), StrLe);
  }

  method CollectKeys(labels: Labels) returns (keys: seq<string>)
    ensures multiset(keys) == multiset(labels.Keys)
  {
    var rest := labels.Keys;
    ghost var done := {};
    keys := [];
    while rest != {}
      invariant rest !! done && rest + done == labels.Keys
      invariant multiset(keys) == multiset(done)
      decreases |rest|
    {
      var k :| k in rest;
      rest := rest - {k};
      keys := keys + [k];
      done := done + {k};
    }
    assert done == labels.Keys;
  }

  function Entry(k: string, v: string): string {
    k + "=" + v + ";"
  }

  lemma {:induction false} EncodeSnoc(keys: seq<string>, m: Labels, k: string)
    requires k in m && forall k | k in keys :: k in m
    ensures Encode(keys + [k], m) == Encode(keys, m) + Entry(k, m[k])
  {
    if keys == [] {
      assert [k][1..] == [];
    } else {
      assert (keys + [k])[1..] == keys[1..] + [k];
      EncodeSnoc(keys[1..], m, k);
    }
  }

  method RenderText(keys: seq<string>, labels: Labels) returns (text: string)
    requires forall k | k in keys :: k in labels
    ensures text == Encode(keys, labels)
  {
    text := "";
    for i := 0 to |keys|
      invariant text == Encode(keys[..i], labels)
    {
      assert keys[..i + 1] == keys[..i] + [keys[i]];
      EncodeSnoc(keys[..i], labels, keys[i]);
      text := text + Entry(keys[i], labels[keys[i]]);
    }
    assert keys[..|keys|] == keys;
  }

  method LabelText(labels: Labels) returns (text: string)
    ensures text == Serialize(labels)
  {
    var keys := CollectKeys(labels);
    OrderIrrelevant(labels, keys);
    text := RenderText(StableSort(keys, StrLe), labels);
  }

  // ---------------------------------------------------------------- decoding

  function IndexOf(s: string, c: char): (i: nat)
    ensures i <= |s| && c !in s[..i]
    ensures i < |s| ==> s[i] == c
  {
    if s == "" || s[0] == c then 0
    else
      var i := 1 + IndexOf(s[1..], c);
      assert s[..i] == [s[0]] + s[1..][..i - 1];
      i
  }

  lemma {:induction false} IndexOfPrefix(p: string, c: char, rest: string)
    requires c !in p
    ensures IndexOf(p + [c] + rest, c) == |p|
  {
    var s := p + [c] + rest;
    if p != "" {
      assert s[1..] == p[1..] + [c] + rest;
      IndexOfPrefix(p[1..], c, rest);
    }
  }

  /** The first entry of a text, read up to '=' and then up to ';', and what follows it. */
  datatype Head = Head(key: string, value: string, tail: string)

  function FirstEntry(text: string): (r: Option<Head>)
    ensures r.Some? ==> |r.value.tail| < |text| && '=' !in r.value.key && ';' !in r.value.value
  {
    var i := IndexOf(text, '=');
    if i == |text| then None
    else
      var rest := text[i + 1..];
      var j := IndexOf(rest, ';');
      if j == |rest| then None else Some(Head(text[..i], rest[..j], rest[j + 1..]))
  }

  function Decode(text: string): Labels
    decreases |text|
  {
    match FirstEntry(text)
    case None => map[]
    case Some(head) => Decode(head.tail)[head.key := head.value]
  }

  /** The label maps whose text can be read back. */
  predicate Readable(m: Labels) {
    forall k | k in m :: '=' !in k && ';' !in m[k]
  }

  lemma FirstOfEntry(k: string, v: string, tail: string)
    requires '=' !in k && ';' !in v
    ensures FirstEntry(Entry(k, v) + tail) == Some(Head(k, v, tail))
  {
    var text := Entry(k, v) + tail;
    var rest := v + ";" + tail;
    assert text == k + "=" + rest;
    IndexOfPrefix(k, '=', rest);
    assert text[|k| + 1..] == rest && text[..|k|] == k;
    IndexOfPrefix(v, ';', tail);
    assert rest[|v| + 1..] == tail && rest[..|v|] == v;
  }

  lemma {:induction false} DecodeEncode(keys: seq<string>, m: Labels)
    requires Readable(m) && forall k | k in keys :: k in m
    ensures Decode(Encode(keys, m)) == map k | k in keys :: m[k]
  {
    if keys != [] {
      FirstOfEntry(keys[0], m[keys[0]], Encode(keys[1..], m));
      DecodeEncode(keys[1..], m);
    }
  }

  lemma ReadableWith(m: Labels, k: string, v: string)
    requires Readable(m) && '=' !in k && ';' !in v
    ensures Readable(m[k := v])
  {
  }

  lemma {:induction false} DecodeReadable(text: string)
    ensures Readable(Decode(text))
    decreases |text|
  {
    match FirstEntry(text)
    case None =>
    case Some(head) =>
      DecodeReadable(head.tail);
      ReadableWith(Decode(head.tail), head.key, head.value);
  }

  /** Decoding gives a label map back exactly when it is readable. */
  lemma RoundTrip(m: Labels)
    ensures Decode(Serialize(m)) == m <==> Readable(m)
  {
    if Readable(m) {
      DecodeEncode(SortedKeys(m), m);
    }
    DecodeReadable(Serialize(m));
  }

  lemma HashInjective(a: Labels, b: Labels)
    requires Readable(a) && Readable(b)
    ensures IdentityHash(a) == IdentityHash(b) <==> a == b
    ensures SelectorHash(a) == SelectorHash(b) <==> a == b
  {
    RoundTrip(a);
    RoundTrip(b);
  }

  lemma SingletonText(k: string, v: string)
    ensures Serialize(map[k := v]) == Entry(k, v)
  {
    OrderIrrelevant(map[k := v], [k]);
    assert StableSort([k], StrLe) == [k] by {
      assert [k][1..] == [];
    }
    assert Encode([k][1..], map[k := v]) == "";
  }

  /** Outside that domain two different label maps can share one hash. */
  lemma HashCollision()
    ensures var a, b := map["a=b" := "c"], map["a" := "b=c"];
            a != b && !Readable(a) && Readable(b) && IdentityHash(a) == IdentityHash(b)
  {
    SingletonText("a=b", "c");
    SingletonText("a", "b=c");
    SameEntry();
    assert "a" !in map["a=b" := "c"];
  }

  lemma SameEntry()
    ensures Entry("a=b", "c") == Entry("a", "b=c") && '=' in "a=b" && "a" != "a=b"
  {
    assert "a=b"[1] == '=';
  }

  // ---------------------------------------------------------------- CNI_ARGS

  /** strings.Split with a one-character separator. */
  function Split(s: string, c: char): (parts: seq<string>)
    ensures parts != []
    ensures forall p | p in parts :: c !in p
    ensures |parts| == 1 ==> parts == [s]
    decreases |s|
  {
    var i := IndexOf(s, c);
    if i == |s| then
      assert s[..i] == s;
      [s]
    else [s[..i]] + Split(s[i + 1..], c)
  }

  function Join(parts: seq<string>, c: char): string
    requires parts != []
  {
    if |parts| == 1 then parts[0] else parts[0] + [c] + Join(parts[1..], c)
  }

  lemma {:induction false} JoinSplit(s: string, c: char)
    ensures Join(Split(s, c), c) == s
    decreases |s|
  {
    var i := IndexOf(s, c);
    if i < |s| {
      var tail := Split(s[i + 1..], c);
      assert ([s[..i]] + tail)[1..] == tail;
      JoinSplit(s[i + 1..], c);
    }
  }

  lemma SplitPrefix(p: string, c: char, tail: string)
    requires c !in p
    ensures Split(p + [c] + tail, c) == [p] + Split(tail, c)
    ensures Split(p, c) == [p]
  {
    var s := p + [c] + tail;
    IndexOfPrefix(p, c, tail);
    assert s[|p| + 1..] == tail && s[..|p|] == p;
  }

  lemma {:induction false} SplitJoin(parts: seq<string>, c: char)
    requires parts != [] && forall p | p in parts :: c !in p
    ensures Split(Join(parts, c), c) == parts
  {
    if |parts| == 1 {
      SplitPrefix(parts[0], c, "");
    } else {
      SplitPrefix(parts[0], c, Join(parts[1..], c));
      SplitJoin(parts[1..], c);
    }
  }

  /** One ";"-separated entry: kept only if it holds exactly one '='. */
  function WithEntry(m: Labels, entry: string): Labels {
    var kv := Split(entry, '=');
    if |kv| == 2 then m[kv[0] := kv[1]] else m
  }

  function WithEntries(entries: seq<string>): Labels {
    if entries == [] then map[] else WithEntry(WithEntries(entries[..|entries| - 1]), entries[|entries| - 1])
  }

  function Parsed(args: string): Labels {
    if args == "" then map[] else WithEntries(Split(args, ';'))
  }

  method ParseCNIArgs(argsStr: string) returns (args: Labels)
    ensures args == Parsed(argsStr)
  {
    args := map[];
    if argsStr == "" {
      return;
    }
    var pairs := Split(argsStr, ';');
    for i := 0 to |pairs|
      invariant args == WithEntries(pairs[..i])
    {
      assert pairs[..i + 1][..i] == pairs[..i];
      var kv := Split(pairs[i], '=');
      if |kv| == 2 {
        args := args[kv[0] := kv[1]];
      }
    }
    assert pairs[..|pairs|] == pairs;
  }

  predicate Clean(s: string) {
    '=' !in s && ';' !in s
  }

  lemma {:induction false} SplitKeepsOut(s: string, c: char, d: char)
    requires d !in s
    ensures forall p | p in Split(s, c) :: d !in p
    decreases |s|
  {
    var i := IndexOf(s, c);
    if i < |s| {
      SplitKeepsOut(s[i + 1..], c, d);
    }
  }

  lemma {:induction false} EntriesClean(entries: seq<string>)
    requires forall e | e in entries :: ';' !in e
    ensures forall k | k in WithEntries(entries) :: Clean(k) && Clean(WithEntries(entries)[k])
  {
    if entries != [] {
      var n := |entries| - 1;
      EntriesClean(entries[..n]);
      SplitKeepsOut(entries[n], '=', ';');
    }
  }

  lemma ParsedClean(args: string)
    ensures forall k | k in Parsed(args) :: Clean(k) && Clean(Parsed(args)[k])
  {
    if args != "" {
      EntriesClean(Split(args, ';'));
    }
  }

  /** The entry reads "k=v", with no other '='. */
  predicate EntryOf(entry: string, k: string, v: string) {
    entry == k + "=" + v && '=' !in k && '=' !in v
  }

  ghost predicate Keyed(entry: string, k: string) {
    exists v :: EntryOf(entry, k, v)
  }

  lemma EntryExact(entry: string, k: string, v: string)
    ensures EntryOf(entry, k, v) <==> Split(entry, '=') == [k, v]
  {
    assert [k, v][1..] == [v];
    assert Join([k, v], '=') == k + "=" + v;
    if EntryOf(entry, k, v) {
      SplitJoin([k, v], '=');
    }
    JoinSplit(entry, '=');
  }

  lemma KeyedExact(entry: string, k: string)
    ensures Keyed(entry, k) <==> |Split(entry, '=')| == 2 && Split(entry, '=')[0] == k
  {
    var kv := Split(entry, '=');
    if |kv| == 2 {
      assert kv == [kv[0], kv[1]];
      EntryExact(entry, kv[0], kv[1]);
    }
    if Keyed(entry, k) {
      var v :| EntryOf(entry, k, v);
      EntryExact(entry, k, v);
    }
  }

  /** Entry i gives key k the value v, and no later entry is about k. */
  ghost predicate LastOf(entries: seq<string>, k: string, v: string, i: int) {
    && 0 <= i < |entries| && EntryOf(entries[i], k, v)
    && forall j | i < j < |entries| :: !Keyed(entries[j], k)
  }

  ghost predicate SaysLast(entries: seq<string>, k: string, v: string) {
    exists i :: LastOf(entries, k, v, i)
  }

  lemma {:induction false} EntriesExact(entries: seq<string>, k: string, v: string)
    ensures k in WithEntries(entries) && WithEntries(entries)[k] == v <==> SaysLast(entries, k, v)
    decreases |entries|
  {
    if entries != [] {
      var n := |entries| - 1;
      EntriesExact(entries[..n], k, v);
      EntryExact(entries[n], k, v);
      KeyedExact(entries[n], k);
      if EntryOf(entries[n], k, v) {
        assert LastOf(entries, k, v, n);
      } else if !Keyed(entries[n], k) {
        assert forall i :: LastOf(entries, k, v, i) <==> LastOf(entries[..n], k, v, i);
      }
    }
  }

  lemma NoEntries()
    ensures WithEntries(Split("", ';')) == map[]
  {
    assert Split("", ';') == [""] && Split("", '=') == [""];
    assert [""][..0] == [];
  }

  /** A key has a value exactly when the last entry about it says so; an entry with no '=' or several counts
      for nothing. */
  lemma ParsedExact(args: string, k: string, v: string)
    ensures k in Parsed(args) && Parsed(args)[k] == v <==> SaysLast(Split(args, ';'), k, v)
  {
    NoEntries();
    EntriesExact(Split(args, ';'), k, v);
  }

  /** The text "k=v" of a pair, and the map a list of pairs denotes, later pairs winning. */
  function PairText(p: (string, string)): string {
    p.0 + "=" + p.1
  }

  function PairMap(pairs: seq<(string, string)>): Labels {
    if pairs == [] then map[] else PairMap(pairs[..|pairs| - 1])[pairs[|pairs| - 1].0 := pairs[|pairs| - 1].1]
  }

  lemma PairSplits(p: (string, string))
    requires Clean(p.0) && Clean(p.1)
    ensures Split(PairText(p), '=') == [p.0, p.1]
  {
    assert Join([p.0, p.1], '=') == PairText(p) by {
      assert [p.0, p.1][1..] == [p.1];
    }
    SplitJoin([p.0, p.1], '=');
  }

  lemma {:induction false} EntriesOfPairs(pairs: seq<(string, string)>, entries: seq<string>)
    requires |entries| == |pairs|
    requires forall i | 0 <= i < |pairs| :: Clean(pairs[i].0) && Clean(pairs[i].1) && entries[i] == PairText(pairs[i])
    ensures WithEntries(entries) == PairMap(pairs)
  {
    if pairs != [] {
      var n := |pairs| - 1;
      EntriesOfPairs(pairs[..n], entries[..n]);
      PairSplits(pairs[n]);
    }
  }

  /** Parsing a well-formed CNI_ARGS string recovers exactly the pairs it was written from. */
  lemma ParseRender(pairs: seq<(string, string)>, entries: seq<string>)
    requires pairs != [] && |entries| == |pairs|
    requires forall i | 0 <= i < |pairs| :: Clean(pairs[i].0) && Clean(pairs[i].1) && entries[i] == PairText(pairs[i])
    ensures Parsed(Join(entries, ';')) == PairMap(pairs)
  {
    forall e | e in entries
      ensures ';' !in e
    {
      var i :| 0 <= i < |entries| && entries[i] == e;
      assert forall c | c in e :: c in pairs[i].0 || c == '=' || c in pairs[i].1;
    }
    SplitJoin(entries, ';');
    EntriesOfPairs(pairs, entries);
    assert entries[0][|pairs[0].0|] == '=';
    assert Join(entries, ';') != "";
  }

  // ---------------------------------------------------------------- labels of an ADD request

  const POD_NAME := "coordino.io/pod-name"
  const POD_NS := "coordino.io/ns"

  function PodLabels(podName: string, podNamespace: string, args: Labels): Labels {
    map[POD_NAME := podName, POD_NS := podNamespace] + args
  }

  /** Every argument is a label; so are the pod's name and namespace unless an argument overrides them; and
      there are no other labels. */
  lemma PodLabelsExact(podName: string, podNamespace: string, args: Labels, k: string)
    ensures var labels := PodLabels(podName, podNamespace, args);
            && (k in labels <==> k in args || k == "coordino.io/pod-name" || k == "coordino.io/ns")
            && (k in args ==> labels[k] == args[k])
            && ("coordino.io/pod-name" !in args ==> labels["coordino.io/pod-name"] == podName)
            && ("coordino.io/ns" !in args ==> labels["coordino.io/ns"] == podNamespace)
  {
    assert |POD_NAME| != |POD_NS|;
  }

  function ArgOr(args: Labels, key: string): string {
    if key in args then args[key] else ""
  }

  /** Every label map an ADD builds from a CNI_ARGS string is readable, so its hash identifies it. */
  lemma RequestLabelsReadable(args: string)
    ensures var parsed := Parsed(args);
            Readable(PodLabels(ArgOr(parsed, "K8S_POD_NAME"), ArgOr(parsed, "K8S_POD_NAMESPACE"), parsed))
  {
    ParsedClean(args);
    assert '=' !in POD_NAME && '=' !in POD_NS;
  }
}
