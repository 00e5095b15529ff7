/** Shared vocabulary: optional values, 32-bit words and IPv4 CIDR prefixes. */
module Base {

  datatype Option<+T> = None | Some(value: T) {
    function GetOr(default: T): T {
      if Some? then value else default
    }
  }

  /** A definition of the form `forall u :: Unfold(u) ==> body` stays folded for the solver until
      Unfold(Unit) is asserted. */
  datatype Unit = Unit

  predicate Unfold(u: Unit) {
    true
  }

  function Elements<T>(s: seq<T>): set<T> {
    set x | x in s
  }

  lemma ElementsAppend<T>(a: seq<T>, b: seq<T>)
    ensures Elements(a + b) == Elements(a) + Elements(b)
  {
  }

  lemma ElementsSnoc<T>(s: seq<T>, x: T)
    ensures Elements(s + [x]) == Elements(s) + {x}
  {
  }

  /** `rest` are the elements of `all` that `order` does not list. */
  ghost predicate Rest<T(!new)>(rest: set<T>, order: seq<T>, all: set<T>) {
    forall u :: Unfold(u) ==> rest !! Elements(order) && rest + Elements(order) == all
  }

  lemma RestAll<T(!new)>(all: set<T>)
    ensures Rest(all, [], all)
  {
  }

  lemma RestNext<T(!new)>(rest: set<T>, order: seq<T>, all: set<T>, x: T)
    requires Rest(rest, order, all) && x in rest
    ensures x in all && Rest(rest - {x}, order + [x], all)
  {
    assert Unfold(Unit);
    ElementsSnoc(order, x);
  }

  lemma RestNone<T(!new)>(order: seq<T>, all: set<T>)
    requires Rest({}, order, all)
    ensures Elements(order) == all
  {
    assert Unfold(Unit);
  }

  lemma ElementsEmpty<T>(s: seq<T>)
    ensures Elements(s) == {} <==> s == []
  {
    if s != [] {
      assert s[0] in Elements(s);
    }
  }

  /** A text is cut in only one way at the first occurrence of a character. */
  lemma CutOnce(c: char, p: string, r: string, q: string, s: string)
    requires c !in p && c !in q && p + [c] + r == q + [c] + s
    ensures p == q && r == s
  {
    var t, u := p + [c] + r, q + [c] + s;
    assert t[|p|] == c && u[|q|] == c;
    assert t[..|p|] == p && u[..|q|] == q;
    assert t[|p| + 1..] == r && u[|q| + 1..] == s;
  }

  const TWO32: int := 0x1_0000_0000

  type uint32 = x: int | 0 <= x < 0x1_0000_0000
  type uint16 = x: int | 0 <= x < 0x1_0000
  type uint8 = x: int | 0 <= x < 0x100

  function Pow2(n: nat): (r: nat)
    ensures r >= 1
  {
    if n == 0 then 1 else 2 * Pow2(n - 1)
  }

  lemma {:induction false} Pow2Add(a: nat, b: nat)
    ensures Pow2(a + b) == Pow2(a) * Pow2(b)
    decreases a
  {
    if a == 0 {
    } else {
      Pow2Add(a - 1, b);
      MulAssoc(2, Pow2(a - 1), Pow2(b));
    }
  }

  lemma MulAssoc(x: int, y: int, z: int)
    ensures x * (y * z) == (x * y) * z
  {
  }

  lemma Pow2At32()
    ensures Pow2(32) == TWO32
  {
    assert Pow2(8) == 256;
    Pow2Add(8, 8);
    Pow2Add(16, 16);
  }

  /** A prefix length with a base address; as net.ParseCIDR returns it, the address is masked. */
  datatype Prefix = Prefix(ip: uint32, ones: nat) {
    function Size(): (r: nat)
      requires ones <= 32
      ensures r >= 1
    {
      Pow2(32 - ones)
    }

    predicate Masked() {
      ones <= 32 && ip % Size() == 0
    }

    /** The addresses of the block (section 3.1 of RFC 4632). */
    ghost predicate Contains(a: int)
      requires ones <= 32
    {
      ip <= a < ip + Size()
    }
  }

  type Cidr = p: Prefix | p.Masked() witness Prefix(0, 32)

  /** A block of `size` addresses, with size dividing 2^32, never runs past the last address. */
  lemma AlignedFits(ip: nat, size: nat, count: nat)
    requires size >= 1 && ip % size == 0 && ip < size * count
    ensures ip + size <= size * count
  {
    var k := ip / size;
    assert ip == size * k;
    if k >= count {
      MulMonotone(size, count, k);
    } else {
      MulMonotone(size, k + 1, count);
      assert size * (k + 1) == size * k + size;
    }
  }

  lemma MulMonotone(x: nat, y: int, z: int)
    requires y <= z
    ensures x * y <= x * z
  {
  }

  /** The last address of a CIDR is a 32-bit word: address arithmetic inside a block does not wrap. */
  lemma CidrFits(c: Cidr)
    ensures c.ip + c.Size() <= TWO32
  {
    Pow2At32();
    Pow2Add(32 - c.ones, c.ones);
    AlignedFits(c.ip, c.Size(), Pow2(c.ones));
  }
}
