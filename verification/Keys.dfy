/** The text "src-dst-proto-port" under which compiled rules are deduplicated. */
module Keys {
  import opened Base

  function Digit(d: nat): char
    requires d < 10
  {
    ['0', '1', '2', '3', '4', '5', '6', '7', '8', '9'][d]
  }

  function Decimal(n: nat): (s: string)
    ensures s != "" && '-' !in s
  {
    if n < 10 then [Digit(n)] else Decimal(n / 10) + [Digit(n % 10)]
  }

  lemma DigitInjective(a: nat, b: nat)
    requires a < 10 && b < 10 && Digit(a) == Digit(b)
    ensures a == b
  {
  }

  lemma {:induction false} DecimalInjective(a: nat, b: nat)
    requires Decimal(a) == Decimal(b)
    ensures a == b
  {
    var s := Decimal(a);
    if a < 10 && b < 10 {
      DigitInjective(a, b);
    } else if a >= 10 && b >= 10 {
      assert s[|s| - 1] == Digit(a % 10) == Digit(b % 10);
      DigitInjective(a % 10, b % 10);
      assert Decimal(a / 10) == s[..|s| - 1] == Decimal(b / 10);
      DecimalInjective(a / 10, b / 10);
    }
  }

  /** "%d" of a possibly negative number. */
  function Signed(n: int): string {
    if n < 0 then "-" + Decimal(-n) else Decimal(n)
  }

  function Key(src: uint32, dst: uint32, proto: string, port: int): string {
    Decimal(src) + "-" + (Decimal(dst) + "-" + (proto + "-" + Signed(port)))
  }

  lemma LastDash(p: string, r: string, q: string, s: string)
    requires '-' !in r && '-' !in s && p + "-" + r == q + "-" + s
    ensures p == q && r == s
  {
    var t, u := p + "-" + r, q + "-" + s;
    assert t[|p|] == '-' && u[|q|] == '-';
    assert t[..|p|] == p && u[..|q|] == q;
    assert t[|p| + 1..] == r && u[|q| + 1..] == s;
  }

  /** Everything before the last dash of "proto-port": a negative port lends its sign to the protocol. */
  function Lead(proto: string, port: int): string {
    if port < 0 then proto + "-" else proto
  }

  function Abs(n: int): nat {
    if n < 0 then -n else n
  }

  lemma TailShape(proto: string, port: int)
    ensures proto + "-" + Signed(port) == Lead(proto, port) + "-" + Decimal(Abs(port))
  {
  }

  lemma SameTail(p: string, m: int, q: string, n: int)
    ensures p + "-" + Signed(m) == q + "-" + Signed(n) <==> Lead(p, m) == Lead(q, n) && Abs(m) == Abs(n)
  {
    TailShape(p, m);
    TailShape(q, n);
    if p + "-" + Signed(m) == q + "-" + Signed(n) {
      LastDash(Lead(p, m), Decimal(Abs(m)), Lead(q, n), Decimal(Abs(n)));
      DecimalInjective(Abs(m), Abs(n));
    }
  }

  lemma SameLead(p: string, m: int, q: string, n: int)
    requires Abs(m) == Abs(n)
    ensures Lead(p, m) == Lead(q, n) <==>
            || (p == q && m == n)
            || (m < 0 && n == -m && q == p + "-")
            || (n < 0 && m == -n && p == q + "-")
  {
    if m < 0 && n < 0 && Lead(p, m) == Lead(q, n) {
      assert p == (p + "-")[..|p|] && q == (q + "-")[..|q|];
    }
  }

  /** Two rules render to one key exactly when they agree on all four parts, or when one has a negative
      port whose minus sign the other carries at the end of its protocol name. */
  lemma KeyExact(a: uint32, b: uint32, p: string, m: int, c: uint32, d: uint32, q: string, n: int)
    ensures Key(a, b, p, m) == Key(c, d, q, n) <==>
            a == c && b == d &&
            (|| (p == q && m == n)
             || (m < 0 && n == -m && q == p + "-")
             || (n < 0 && m == -n && p == q + "-"))
  {
    var x, y := p + "-" + Signed(m), q + "-" + Signed(n);
    SameTail(p, m, q, n);
    if Abs(m) == Abs(n) {
      SameLead(p, m, q, n);
    }
    if Key(a, b, p, m) == Key(c, d, q, n) {
      CutOnce('-', Decimal(a), Decimal(b) + "-" + x, Decimal(c), Decimal(d) + "-" + y);
      CutOnce('-', Decimal(b), x, Decimal(d), y);
      DecimalInjective(a, c);
      DecimalInjective(b, d);
    }
  }
}
