/** The few facts about multiplication and remainders the models need. */
module Arith {
  const U64: nat := 0x1_0000_0000_0000_0000  // uint64_t wraps here

  lemma {:induction false} SumWraps(a: nat, b: nat)
    requires a < U64 && b < U64
    ensures (a + b) % U64 == if a + b < U64 then a + b else a + b - U64
  {
  }

  lemma {:induction false} MulMono(s: nat, p: nat, q: nat)
    requires p <= q
    ensures s * p <= s * q
  {
    assert s * q - s * p == s * (q - p);
  }

  lemma {:induction false} DivModUnique(x: nat, s: nat, q: nat, r: nat)
    requires s > 0 && r < s && x == s * q + r
    ensures x / s == q && x % s == r
  {
    var q' := x / s;
    assert x == s * q' + x % s;
    if q' < q {
      MulMono(s, q' + 1, q);
    } else if q < q' {
      MulMono(s, q + 1, q');
    }
  }

  /** The next multiple. */
  lemma {:induction false} NextMultiple(a: nat, s: nat)
    requires s > 0 && a % s == 0
    ensures (a + s) % s == 0 && (a + s) / s == a / s + 1
  {
    assert a == s * (a / s);
    assert s * (a / s + 1) == s * (a / s) + s;
    DivModUnique(a + s, s, a / s + 1, 0);
  }

  /** There is no multiple strictly between one and the next. */
  lemma {:induction false} MultipleGap(a: nat, b: nat, s: nat)
    requires s > 0 && a % s == 0 && b % s == 0 && a < b
    ensures a + s <= b
  {
    assert a == s * (a / s) && b == s * (b / s);
    if b / s <= a / s {
      MulMono(s, b / s, a / s);
    } else {
      MulMono(s, a / s + 1, b / s);
      assert s * (a / s + 1) == s * (a / s) + s;
    }
  }

  /** Rounding up to a multiple, as pmm.c:64-67 does it. */
  lemma {:induction false} RoundUp(a: nat, s: nat)
    requires s > 0
    ensures var n := if a % s != 0 then a + (s - a % s) else a;
      a <= n < a + s && n % s == 0
  {
    assert a == s * (a / s) + a % s;
    if a % s != 0 {
      assert s * (a / s + 1) == s * (a / s) + s;
      DivModUnique(a + (s - a % s), s, a / s + 1, 0);
    }
  }

  lemma {:induction false} Regroup(m: nat, b: nat, t: nat, u: nat, r: nat)
    requires u < b && r < m
    ensures m * (b * t + u) + r == (m * b) * t + (m * u + r) && m * u + r < m * b
  {
    MulMono(m, u + 1, b);
    assert m * (u + 1) == m * u + m;
    assert m * (b * t + u) == m * (b * t) + m * u;
    assert m * (b * t) == (m * b) * t;
  }

  lemma {:induction false} MulPos(m: nat, n: nat)
    requires m > 0 && n > 0
    ensures m * n > 0
  {
    MulMono(m, 1, n);
  }

  /** Quotient and remainder by `m * b`, from those by `m` and then by `b`. */
  lemma {:induction false} TwoDigits(x: nat, m: nat, b: nat, t: nat, u: nat, r: nat)
    requires u < b && r < m && x == m * (b * t + u) + r
    ensures m * b > 0 && x / (m * b) == t && x % (m * b) == m * u + r
  {
    MulPos(m, b);
    Regroup(m, b, t, u, r);
    DivModUnique(x, m * b, t, m * u + r);
  }

  lemma {:induction false} DivMod(x: nat, m: nat)
    requires m > 0
    ensures x == m * (x / m) + x % m && x % m < m
  {
  }

  lemma {:induction false} DivDiv(x: nat, m: nat, n: nat)
    requires m > 0 && n > 0
    ensures m * n > 0 && x / m / n == x / (m * n)
  {
    var y, r := x / m, x % m;
    var t, u := y / n, y % n;
    DivMod(x, m);
    DivMod(y, n);
    TwoDigits(x, m, n, t, u, r);
  }

  lemma {:induction false} ModDiv(x: nat, m: nat, b: nat)
    requires m > 0 && b > 0
    ensures m * b > 0 && x % (m * b) / m == x / m % b
  {
    var y, r := x / m, x % m;
    var t, u := y / b, y % b;
    DivMod(x, m);
    DivMod(y, b);
    TwoDigits(x, m, b, t, u, r);
    DivModUnique(m * u + r, m, u, r);
  }

  lemma {:induction false} Ungroup(n: nat, k: nat, q: nat, t: nat, u: nat)
    ensures (n * k) * q + (n * t + u) == n * (k * q + t) + u
  {
    assert (n * k) * q == n * (k * q);
    assert n * (k * q) + n * t == n * (k * q + t);
  }

  lemma {:induction false} ModMod(y: nat, n: nat, k: nat)
    requires n > 0 && k > 0
    ensures n * k > 0 && y % (n * k) % n == y % n
  {
    MulPos(n, k);
    var q, r := y / (n * k), y % (n * k);
    var t, u := r / n, r % n;
    DivMod(y, n * k);
    DivMod(r, n);
    Ungroup(n, k, q, t, u);
    DivModUnique(y, n, k * q + t, u);
  }

  /** Reducing modulo a multiple does not change a digit below it. */
  lemma {:induction false} ModDivMod(x: nat, m: nat, n: nat, k: nat)
    requires m > 0 && n > 0 && k > 0
    ensures m * (n * k) > 0 && x % (m * (n * k)) / m % n == x / m % n
  {
    ModMod(x / m, n, k);
    ModDiv(x, m, n * k);
  }
}
