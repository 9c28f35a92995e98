/** Arithmetic on little-endian sequences of 32-bit words. */
module Words {
  import opened Digits
  import opened Powers

  const BASE: nat := 0x1_0000_0000

  /** The number a word sequence stands for. */
  ghost function Num(s: seq<nat>): nat { Value(BASE, s) }

  /** What the words of s can hold. */
  ghost function Modulus(s: seq<nat>): nat { Pow(BASE, |s|) }

  lemma NumBound(s: seq<nat>)
    requires InRange(BASE, s)
    ensures Num(s) < Modulus(s)
  {
    ValueBound(BASE, s);
  }

  lemma WrapsMod(x: nat, t: int, m: nat, q: int)
    requires x < m && x + q * m == t
    ensures x == t % m
  {
    DivModUnique(t, m, q, x);
  }

  /** One digit step of an addition with carry. */
  lemma CarryStep(p: nat, n: nat, v: int, carry: nat, t: int)
    requires v + carry * p == t
    ensures v + (n % BASE) * p + (n / BASE) * (BASE * p) == t + (n - carry) * p
  {
    var lo, hi := n % BASE, n / BASE;
    MulAssoc(hi, BASE, p);
    MulDist(lo, hi * BASE, p);
    MulSub(n, carry, p);
    assert n == hi * BASE + lo;
  }

  /** Complementing every word takes the number from the greatest one. */
  lemma {:induction false} ComplementNum(s: seq<nat>, t: seq<nat>)
    requires |s| == |t| && forall i :: 0 <= i < |s| ==> s[i] + t[i] == BASE - 1
    ensures Num(s) + Num(t) == Modulus(s) - 1
  {
    if s != [] {
      var n := |s| - 1;
      ComplementNum(s[..n], t[..n]);
      MulDist(s[n], t[n], Pow(BASE, n));
      MulSub(BASE, 1, Pow(BASE, n));
    }
  }

  lemma NegateMod(x: nat, t: nat, m: nat)
    requires x + t == m - 1
    ensures (t + 1) % m == (m - x) % m
  {
  }

  lemma ModOf(t: int, m: int, q: int, r: int)
    requires 0 <= r < m && (q == -1 ==> t == r - m) && (q == 0 ==> t == r) && (q == 1 ==> t == r + m) && -1 <= q <= 1
    ensures t % m == r
  {
    DivModUnique(t, m, q, r);
  }

  /** Subtracting by adding the negation. */
  lemma SubtractMod(x: nat, y: nat, m: nat)
    requires x < m && y < m
    ensures (x + (m - y) % m) % m == (x - y) % m
    ensures x >= y ==> (x - y) % m == x - y
  {
    var d := x - y;
    var r := if d >= 0 then d else d + m;
    ModOf(d, m, if d >= 0 then 0 else -1, r);
    var z := if y == 0 then 0 else m - y;
    ModOf(m - y, m, if y == 0 then 1 else 0, z);
    ModOf(x + z, m, if y > 0 && d >= 0 then 1 else 0, r);
  }

  /** One step of the schoolbook product: row j, column i. */
  lemma ProductStep(p: nat, n: nat, v: int, w: nat, carry: nat, t: int, prod: nat)
    requires v + carry * p == t && n == carry + w + prod
    ensures v + (n % BASE - w) * p + (n / BASE) * (BASE * p) == t + prod * p
  {
    CarryStep(p, n, v, carry, t);
    MulSub(n % BASE, w, p);
    MulDist(w, prod, p);
  }

  ghost predicate AllZero(s: seq<nat>) {
    forall i :: 0 <= i < |s| ==> s[i] == 0
  }

  lemma RowTerm(a: nat, y: seq<nat>, i: nat, j: nat)
    requires i < |y|
    ensures (a * Value(BASE, y[..i + 1])) * Pow(BASE, j) ==
              (a * Value(BASE, y[..i])) * Pow(BASE, j) + (a * y[i]) * Pow(BASE, i + j)
  {
    hide Value, Pow;
    var v, pi, pj := Value(BASE, y[..i]), Pow(BASE, i), Pow(BASE, j);
    ValueNext(BASE, y, i);
    PowAdd(BASE, i, j);
    MulDist(v, y[i] * pi, a);
    MulAssoc(a, y[i], pi);
    MulDist(a * v, (a * y[i]) * pi, pj);
    MulAssoc(a * y[i], pi, pj);
  }

  /** After i columns of row j. */
  ghost predicate RowSoFar(a: nat, y: seq<nat>, i: nat, j: nat, s: seq<nat>, carry: nat, was: nat)
    requires i <= |y|
  {
    Num(s) + carry * Pow(BASE, i + j) == was + (a * Value(BASE, y[..i])) * Pow(BASE, j)
  }

  lemma RowStart(a: nat, y: seq<nat>, j: nat, s: seq<nat>)
    ensures RowSoFar(a, y, 0, j, s, 0, Num(s))
  {
    ValueAll(BASE, y);
  }

  lemma RowStep(a: nat, y: seq<nat>, i: nat, j: nat, s: seq<nat>, carry: nat, n: nat, was: nat)
    requires i < |y| && i + j < |s| && RowSoFar(a, y, i, j, s, carry, was) && n == carry + s[i + j] + a * y[i]
    ensures RowSoFar(a, y, i + 1, j, s[i + j := n % BASE], n / BASE, was)
  {
    hide Value, Pow;
    ProductStep(Pow(BASE, i + j), n, Num(s), s[i + j], carry, was + (a * Value(BASE, y[..i])) * Pow(BASE, j), a * y[i]);
    RowTerm(a, y, i, j);
    ValueUpdate(BASE, s, i + j, n % BASE);
    PowNext(BASE, i + j);
  }

  lemma RowEnd(a: nat, y: seq<nat>, i: nat, j: nat, s: seq<nat>, carry: nat, was: nat) returns (q: nat)
    requires i <= |y| && i + j == |s| && RowSoFar(a, y, i, j, s, carry, was)
    ensures Num(s) + q * Modulus(s) == was + (a * Num(y)) * Pow(BASE, j)
  {
    hide Value, Pow;
    var above := ValueAbove(BASE, y, i);
    q := carry + a * above;
    DroppedRow(a, Value(BASE, y[..i]), above, carry, i, j);
  }

  lemma DroppedRow(a: nat, v: nat, q: nat, carry: nat, i: nat, j: nat)
    ensures (a * (v + q * Pow(BASE, i))) * Pow(BASE, j) == (a * v) * Pow(BASE, j) + (a * q) * Pow(BASE, i + j)
    ensures (carry + a * q) * Pow(BASE, i + j) == carry * Pow(BASE, i + j) + (a * q) * Pow(BASE, i + j)
  {
    hide Pow;
    var pi, pj := Pow(BASE, i), Pow(BASE, j);
    PowAdd(BASE, i, j);
    MulDist(v, q * pi, a);
    MulAssoc(a, q, pi);
    MulDist(a * v, (a * q) * pi, pj);
    MulAssoc(a * q, pi, pj);
    MulDist(carry, a * q, Pow(BASE, i + j));
  }

  lemma RowSum(v: nat, xj: nat, p: nat, y: nat)
    ensures (v + xj * p) * y == v * y + (xj * y) * p
  {
    MulDist(v, xj * p, y);
    ThreeFactors(xj, p, y);
    ThreeFactors(xj, y, p);
    MulAssoc(xj, p, y);
    MulAssoc(xj, y, p);
  }

  /** A 64-bit accumulator is wide enough for a product of words and two more words. */
  lemma WordProduct(a: nat, b: nat, c: nat, n: int)
    requires a < BASE && b < BASE && c <= 2 * (BASE - 1) && n == c + a * b
    ensures 0 <= n < BASE * BASE && 0 <= n / BASE < BASE
  {
    MulMono(0, a, b);
    MulMono(a, BASE - 1, b);
    MulMono(b, BASE - 1, BASE - 1);
  }

  lemma ThreeFactors(a: int, b: int, c: int)
    ensures (a * b) * c == (c * a) * b
  {}
}
