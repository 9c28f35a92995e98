/** Powers and division facts shared by the models. */
module Powers {

  function Pow(b: nat, e: nat): (r: nat)
    ensures b > 0 ==> r > 0
  {
    if e == 0 then 1 else b * Pow(b, e - 1)
  }

  function Pow2(e: nat): (r: nat)
    ensures r > 0 && (r > 1 <==> e > 0)
  {
    if e == 0 then 1 else 2 * Pow2(e - 1)
  }

  lemma Pow2Next(n: nat)
    ensures Pow2(n + 1) == 2 * Pow2(n)
  {
  }

  lemma {:induction false} Pow2Add(a: nat, b: nat)
    ensures Pow2(a + b) == Pow2(a) * Pow2(b)
  {
    if a > 0 {
      Pow2Add(a - 1, b);
      TwiceMul(Pow2(a - 1), Pow2(b));
    }
  }

  lemma {:induction false} Pow2Mono(a: nat, b: nat)
    requires a <= b
    ensures Pow2(a) <= Pow2(b)
    decreases b - a
  {
    if a < b {
      Pow2Mono(a, b - 1);
      Pow2Next(b - 1);
    }
  }

  lemma PowNext(b: nat, i: nat)
    ensures Pow(b, i + 1) == b * Pow(b, i)
  {
  }

  lemma PowZero(b: nat)
    ensures Pow(b, 0) == 1
  {
  }

  lemma MulAssoc(a: int, b: int, c: int)
    ensures a * (b * c) == (a * b) * c
  {}

  lemma MulDist(a: int, b: int, c: int)
    ensures (a + b) * c == a * c + b * c
  {}

  lemma MulSub(a: int, b: int, c: int)
    ensures (a - b) * c == a * c - b * c
  {}

  lemma {:induction false} PowAdd(b: nat, e: nat, f: nat)
    ensures Pow(b, e + f) == Pow(b, e) * Pow(b, f)
  {
    if e > 0 {
      PowAdd(b, e - 1, f);
      MulAssoc(b, Pow(b, e - 1), Pow(b, f));
    }
  }

  /** Quotient and remainder are determined by the division equation. */
  lemma DivModUnique(x: int, n: int, q: int, r: int)
    requires 0 <= r < n && x == q * n + r
    ensures x % n == r && x / n == q
  {
    var d := x / n - q;
    assert d * n == r - x % n by { assert d * n == (x / n) * n - q * n; }
    assert d >= 1 ==> d * n >= n;
    assert d <= -1 ==> d * n <= -n;
  }

  lemma TwiceMul(k: int, p: int)
    ensures k * (2 * p) == 2 * (k * p) && (2 * k) * p == 2 * (k * p) && (2 * k - 1) * p == 2 * (k * p) - p
  {}

  lemma HalveDiv(x: nat, p: nat)
    requires p > 0
    ensures (x + p) / (2 * p) == (x / p + 1) / 2
  {
    var q, r := x / p, x % p;
    var k := (q + 1) / 2;
    TwiceMul(k, p);
    assert x == q * p + r;
    if q % 2 == 1 {
      assert q == 2 * k - 1;
      DivModUnique(x + p, 2 * p, k, r);
    } else {
      assert q == 2 * k;
      DivModUnique(x + p, 2 * p, k, r + p);
    }
  }

  lemma MulSucc(a: int, p: int)
    ensures (a + 1) * p == a * p + p
  {}

  lemma MulMono(a: int, b: int, p: nat)
    requires a <= b
    ensures a * p <= b * p
  {}

  /** Division rounding up. */
  lemma CeilDiv(n: nat, p: nat, k: nat)
    requires p > 0
    ensures k < (n + p - 1) / p <==> k * p < n
  {
    var w := (n + p - 1) / p;
    MulSucc(w - 1, p);
    if k < w {
      MulMono(k, w - 1, p);
    } else {
      MulMono(w, k, p);
    }
  }

  lemma QuotientBelow(x: nat, e: nat, q: nat)
    requires e > 0 && x < q * e
    ensures x / e < q
  {
    var d := x / e;
    if q <= d {
      MulMono(q, d, e);
    }
  }

  lemma QuotientAbove(x: nat, e: nat, q: int)
    requires e > 0 && x >= q * e
    ensures x / e >= q
  {
    var d := x / e;
    MulSucc(d, e);
    if d + 1 <= q {
      MulMono(d + 1, q, e);
    }
  }
}
