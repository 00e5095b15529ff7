/** Stable sorting by a total preorder (the library calls sort.Strings and sort.SliceStable), and the
    byte-wise order of strings. */
module Sorting {
  import opened Base

  ghost predicate Preorder<T(!new)>(le: (T, T) -> bool) {
    && (forall x, y :: le(x, y) || le(y, x))
    && (forall x, y, z :: le(x, y) && le(y, z) ==> le(x, z))
  }

  ghost predicate Sorted<T>(s: seq<T>, le: (T, T) -> bool) {
    forall i, j | 0 <= i < j < |s| :: le(s[i], s[j])
  }

  function Insert<T>(x: T, s: seq<T>, le: (T, T) -> bool): seq<T> {
    if s == [] then [x]
    else if le(x, s[0]) then [x] + s
    else [s[0]] + Insert(x, s[1..], le)
  }

  /** Elements of equal rank keep their order: an earlier one is inserted before a later one. */
  function StableSort<T>(s: seq<T>, le: (T, T) -> bool): seq<T> {
    if s == [] then [] else Insert(s[0], StableSort(s[1..], le), le)
  }

  lemma {:induction false} InsertContents<T>(x: T, s: seq<T>, le: (T, T) -> bool)
    ensures multiset(Insert(x, s, le)) == multiset{x} + multiset(s)
  {
    if s != [] {
      assert s == [s[0]] + s[1..];
      if !le(x, s[0]) {
        InsertContents(x, s[1..], le);
      }
    }
  }

  lemma {:induction false} InsertSorted<T(!new)>(x: T, s: seq<T>, le: (T, T) -> bool)
    requires Preorder(le) && Sorted(s, le)
    ensures Sorted(Insert(x, s, le), le)
  {
    if s == [] {
    } else if le(x, s[0]) {
      assert forall i | 0 <= i < |s| :: le(x, s[i]);
    } else {
      InsertSorted(x, s[1..], le);
      InsertContents(x, s[1..], le);
      var t := Insert(x, s[1..], le);
      forall i | 0 <= i < |t|
        ensures le(s[0], t[i])
      {
        assert t[i] in multiset(t);
        assert t[i] == x || t[i] in s[1..];
      }
    }
  }

  lemma {:induction false} StableSortContents<T>(s: seq<T>, le: (T, T) -> bool)
    ensures multiset(StableSort(s, le)) == multiset(s)
  {
    if s != [] {
      assert s == [s[0]] + s[1..];
      StableSortContents(s[1..], le);
      InsertContents(s[0], StableSort(s[1..], le), le);
    }
  }

  lemma {:induction false} StableSortSorted<T(!new)>(s: seq<T>, le: (T, T) -> bool)
    requires Preorder(le)
    ensures Sorted(StableSort(s, le), le)
  {
    if s != [] {
      StableSortSorted(s[1..], le);
      InsertSorted(s[0], StableSort(s[1..], le), le);
    }
  }

  lemma {:induction false} StableSortFixed<T(!new)>(s: seq<T>, le: (T, T) -> bool)
    requires Preorder(le) && Sorted(s, le)
    ensures StableSort(s, le) == s
  {
    if s != [] {
      assert s == [s[0]] + s[1..];
      StableSortFixed(s[1..], le);
    }
  }

  /** Under an antisymmetric order a sorted list is determined by its contents. */
  lemma {:induction false} SortedUnique<T(!new)>(a: seq<T>, b: seq<T>, le: (T, T) -> bool)
    requires Preorder(le) && (forall x, y :: le(x, y) && le(y, x) ==> x == y)
    requires Sorted(a, le) && Sorted(b, le) && multiset(a) == multiset(b)
    ensures a == b
  {
    if a == [] {
      assert |multiset(b)| == 0;
    } else {
      assert |multiset(a)| == |multiset(b)| == |b|;
      SameTails(a, b, le);
      SortedUnique(a[1..], b[1..], le);
      assert a == [a[0]] + a[1..] && b == [b[0]] + b[1..];
    }
  }

  lemma SameHead<T(!new)>(a: seq<T>, b: seq<T>, le: (T, T) -> bool)
    requires Preorder(le) && (forall x, y :: le(x, y) && le(y, x) ==> x == y)
    requires Sorted(a, le) && Sorted(b, le) && multiset(a) == multiset(b) && a != [] && b != []
    ensures a[0] == b[0]
  {
    assert a[0] in multiset(b) && b[0] in multiset(a);
    HeadLeast(a, b[0], le);
    HeadLeast(b, a[0], le);
  }

  lemma SameTails<T(!new)>(a: seq<T>, b: seq<T>, le: (T, T) -> bool)
    requires Preorder(le) && (forall x, y :: le(x, y) && le(y, x) ==> x == y)
    requires Sorted(a, le) && Sorted(b, le) && multiset(a) == multiset(b) && a != [] && b != []
    ensures a[0] == b[0] && multiset(a[1..]) == multiset(b[1..]) && Sorted(a[1..], le) && Sorted(b[1..], le)
  {
    SameHead(a, b, le);
    TailContents(a);
    TailContents(b);
    SortedTail(a, le);
    SortedTail(b, le);
  }

  lemma TailContents<T>(a: seq<T>)
    requires a != []
    ensures multiset(a[1..]) == multiset(a) - multiset{a[0]}
  {
    assert a == [a[0]] + a[1..];
  }

  lemma SortedTail<T>(a: seq<T>, le: (T, T) -> bool)
    requires Sorted(a, le) && a != []
    ensures Sorted(a[1..], le)
  {
    forall i, j | 0 <= i < j < |a[1..]|
      ensures le(a[1..][i], a[1..][j])
    {
      assert a[1..][i] == a[i + 1] && a[1..][j] == a[j + 1];
    }
  }

  lemma HeadLeast<T(!new)>(a: seq<T>, x: T, le: (T, T) -> bool)
    requires Preorder(le) && Sorted(a, le) && x in a
    ensures le(a[0], x)
  {
    assert le(x, x);
  }

  // ---------------------------------------------------------------- first match and best match

  /** The first element satisfying m: how a priority-ordered list is read. */
  function First<T>(s: seq<T>, m: T -> bool): Option<T> {
    if s == [] then None else if m(s[0]) then Some(s[0]) else First(s[1..], m)
  }

  /** The best-ranked element satisfying m, the earliest among equals: no sorting involved. */
  function Best<T>(s: seq<T>, m: T -> bool, le: (T, T) -> bool): Option<T> {
    if s == [] then None
    else
      var b := Best(s[1..], m, le);
      if m(s[0]) && (b.None? || le(s[0], b.value)) then Some(s[0]) else b
  }

  lemma {:induction false} FirstInsert<T(!new)>(x: T, s: seq<T>, m: T -> bool, le: (T, T) -> bool)
    requires Preorder(le) && Sorted(s, le)
    ensures First(Insert(x, s, le), m) ==
            (var b := First(s, m); if m(x) && (b.None? || le(x, b.value)) then Some(x) else b)
  {
    if s == [] {
      assert [x][1..] == [];
    } else if le(x, s[0]) {
      assert ([x] + s)[1..] == s;
      FirstAbove(x, s, m, le);
    } else {
      assert ([s[0]] + Insert(x, s[1..], le))[1..] == Insert(x, s[1..], le);
      SortedTail(s, le);
      FirstInsert(x, s[1..], m, le);
    }
  }

  lemma {:induction false} FirstAbove<T(!new)>(x: T, s: seq<T>, m: T -> bool, le: (T, T) -> bool)
    requires Preorder(le) && Sorted(s, le) && s != [] && le(x, s[0])
    ensures First(s, m).Some? ==> le(x, First(s, m).value)
  {
    if !m(s[0]) && s[1..] != [] {
      assert le(s[0], s[1]);
      FirstAbove(x, s[1..], m, le);
    }
  }

  /** Reading the sorted list front to back finds the best match of the unsorted one. */
  lemma {:induction false} FirstOfSorted<T(!new)>(s: seq<T>, m: T -> bool, le: (T, T) -> bool)
    requires Preorder(le)
    ensures First(StableSort(s, le), m) == Best(s, m, le)
  {
    if s != [] {
      FirstOfSorted(s[1..], m, le);
      StableSortSorted(s[1..], le);
      FirstInsert(s[0], StableSort(s[1..], le), m, le);
    }
  }

  /** Best is what its name says. */
  lemma {:induction false} BestIsLeast<T(!new)>(s: seq<T>, m: T -> bool, le: (T, T) -> bool)
    requires Preorder(le)
    ensures var b := Best(s, m, le);
            && (b.None? <==> forall x | x in s :: !m(x))
            && (b.Some? ==> b.value in s && m(b.value) && forall x | x in s && m(x) :: le(b.value, x))
  {
    if s != [] {
      BestIsLeast(s[1..], m, le);
      assert forall x :: x in s <==> x == s[0] || x in s[1..];
      assert le(s[0], s[0]);
    }
  }

  /** The overall best is also the best of every part it belongs to. */
  lemma {:induction false} BestOfPart<T(!new)>(s: seq<T>, m: T -> bool, n: T -> bool, le: (T, T) -> bool)
    requires Preorder(le) && forall x | x in s && n(x) :: m(x)
    requires Best(s, m, le).Some? && n(Best(s, m, le).value)
    ensures Best(s, n, le) == Best(s, m, le)
  {
    assert forall x | x in s[1..] :: x in s;
    BestIsLeast(s[1..], m, le);
    BestIsLeast(s[1..], n, le);
    var b := Best(s[1..], m, le);
    if !(m(s[0]) && (b.None? || le(s[0], b.value))) {
      BestOfPart(s[1..], m, n, le);
    }
  }

  // ---------------------------------------------------------------- strings

  /** Lexicographic order, as Go compares strings; on UTF-8 it is the order of code points. */
  predicate StrLe(a: string, b: string) {
    if a == "" then true
    else if b == "" then false
    else a[0] < b[0] || (a[0] == b[0] && StrLe(a[1..], b[1..]))
  }

  /** The texts agree up to i, where a ends or has the smaller character. */
  predicate NotAfterAt(a: string, b: string, i: nat) {
    i <= |a| && i <= |b| && a[..i] == b[..i] && (i == |a| || (i < |b| && a[i] < b[i]))
  }

  ghost predicate NotAfter(a: string, b: string) {
    exists i :: NotAfterAt(a, b, i)
  }

  lemma {:induction false} StrLeExact(a: string, b: string)
    ensures StrLe(a, b) <==> NotAfter(a, b)
  {
    if a == "" {
      assert NotAfterAt(a, b, 0);
    } else if b != "" {
      if a[0] < b[0] {
        assert NotAfterAt(a, b, 0);
      } else if a[0] == b[0] {
        StrLeExact(a[1..], b[1..]);
        if NotAfter(a[1..], b[1..]) {
          var i: nat :| NotAfterAt(a[1..], b[1..], i);
          assert a[..i + 1] == [a[0]] + a[1..][..i] && b[..i + 1] == [b[0]] + b[1..][..i];
          assert NotAfterAt(a, b, i + 1);
        }
        if NotAfter(a, b) {
          NotAfterTail(a, b);
        }
      }
      HeadsInOrder(a, b);
    }
  }

  lemma HeadsInOrder(a: string, b: string)
    requires a != "" && b != ""
    ensures NotAfter(a, b) ==> a[0] <= b[0]
  {
    if NotAfter(a, b) {
      var i: nat :| NotAfterAt(a, b, i);
      if i > 0 {
        assert a[..i][0] == b[..i][0];
      }
    }
  }

  lemma NotAfterTail(a: string, b: string)
    requires a != "" && b != "" && a[0] == b[0] && NotAfter(a, b)
    ensures NotAfter(a[1..], b[1..])
  {
    var i: nat :| NotAfterAt(a, b, i);
    assert a[1..][..i - 1] == a[..i][1..] && b[1..][..i - 1] == b[..i][1..];
    assert NotAfterAt(a[1..], b[1..], i - 1);
  }

  lemma {:induction false} StrLeTotal(a: string, b: string)
    ensures StrLe(a, b) || StrLe(b, a)
    ensures StrLe(a, b) && StrLe(b, a) ==> a == b
  {
    if a != "" && b != "" {
      StrLeTotal(a[1..], b[1..]);
      assert a == [a[0]] + a[1..] && b == [b[0]] + b[1..];
    }
  }

  lemma {:induction false} StrLeTransitive(a: string, b: string, c: string)
    requires StrLe(a, b) && StrLe(b, c)
    ensures StrLe(a, c)
  {
    if a != "" && b != "" && c != "" && a[0] == b[0] == c[0] {
      StrLeTransitive(a[1..], b[1..], c[1..]);
    }
  }

  lemma StrLeOrder()
    ensures Preorder(StrLe)
    ensures forall x, y :: StrLe(x, y) && StrLe(y, x) ==> x == y
  {
    forall x, y
      ensures StrLe(x, y) || StrLe(y, x)
      ensures StrLe(x, y) && StrLe(y, x) ==> x == y
    {
      StrLeTotal(x, y);
    }
    forall x, y, z | StrLe(x, y) && StrLe(y, z)
      ensures StrLe(x, z)
    {
      StrLeTransitive(x, y, z);
    }
  }
}
