/** Compression of amounts (src/compressor.cpp): a bijection on the numbers, and what 64-bit
    arithmetic leaves of it. */
module Amount {
  import opened Powers
  import opened Wrappers

  const COIN: nat := 1_0000_0000
  const MAX_MONEY: nat := 21_000_000_000 * COIN

  // ----- The codec on numbers -----

  ghost function CompressFrom(n: nat, e: nat): nat
    requires n > 0 && e <= 9
    decreases 9 - e
  {
    if n % 10 == 0 && e < 9 then CompressFrom(n / 10, e + 1)
    else if e < 9 then 1 + (9 * (n / 10) + n % 10 - 1) * 10 + e
    else 1 + (n - 1) * 10 + 9
  }

  ghost function Compress(n: nat): nat {
    if n == 0 then 0 else CompressFrom(n, 0)
  }

  /** The digits left of the dropped zeros. */
  ghost function BaseOf(x: nat): nat
    requires x > 0
  {
    var e, y := (x - 1) % 10, (x - 1) / 10;
    if e < 9 then 10 * (y / 9) + y % 9 + 1 else y + 1
  }

  ghost function Decompress(x: nat): nat {
    if x == 0 then 0 else BaseOf(x) * Pow(10, (x - 1) % 10)
  }

  lemma {:induction false} DecompressFrom(n: nat, e: nat)
    requires n > 0 && e <= 9
    ensures CompressFrom(n, e) > 0 && Decompress(CompressFrom(n, e)) == n * Pow(10, e)
    decreases 9 - e
  {
    if n % 10 == 0 && e < 9 {
      DecompressFrom(n / 10, e + 1);
      PowNext(10, e);
      MulAssoc(n / 10, 10, Pow(10, e));
    } else {
      Fields(n, e);
    }
  }

  lemma Fields(n: nat, e: nat)
    requires n > 0 && e <= 9 && (e < 9 ==> n % 10 != 0)
    ensures var x := CompressFrom(n, e);
            x > 0 && (x - 1) % 10 == e && BaseOf(x) == n
  {
  }

  lemma CompressTen(n: nat, e: nat)
    requires n > 0 && e < 9
    ensures CompressFrom(10 * n, e) == CompressFrom(n, e + 1)
  {}

  lemma {:induction false} CompressShifted(m: nat, k: nat, e: nat)
    requires m > 0 && k + e <= 9
    ensures m * Pow(10, k) > 0 && CompressFrom(m * Pow(10, k), e) == CompressFrom(m, e + k)
    decreases k
  {
    if k > 0 {
      hide Pow;
      PowNext(10, k - 1);
      var n := m * Pow(10, k - 1);
      MulAssoc(m, 10, Pow(10, k - 1));
      MulAssoc(10, m, Pow(10, k - 1));
      CompressShifted(m, k - 1, e + 1);
      CompressTen(n, e);
    }
  }

  /** The compressed form: the number of zeros dropped, at most nine, is the last digit, and the
      rest counts the numbers that do not end in zero, or after nine zeros all numbers. */
  lemma CompressForm(m: nat, e: nat)
    requires m > 0 && e <= 9 && (e < 9 ==> m % 10 != 0)
    ensures Compress(m * Pow(10, e)) == if e < 9 then 10 * (m - m / 10 - 1) + e + 1 else 10 * m
  {
    CompressShifted(m, e, 0);
  }

  lemma DecompressCompress(n: nat)
    ensures Decompress(Compress(n)) == n
  {
    hide Decompress;
    if n > 0 {
      DecompressFrom(n, 0);
      PowZero(10);
    } else {
      assert Decompress(0) == 0 by { DecompressZero(); }
    }
  }

  lemma DecompressZero()
    ensures Decompress(0) == 0
  {
  }

  lemma DropZero(m: nat, e: nat)
    requires m > 0 && e < 9
    ensures CompressFrom(10 * m, e) == CompressFrom(m, e + 1)
  {
    assert (10 * m) % 10 == 0 && (10 * m) / 10 == m;
  }

  lemma {:induction false} DropZeros(b: nat, e: nat, j: nat)
    requires b > 0 && e + j <= 9
    ensures b * Pow(10, j) > 0 && CompressFrom(b * Pow(10, j), e) == CompressFrom(b, e + j)
    decreases j
  {
    hide CompressFrom, Pow;
    PowZero(10);
    if j > 0 {
      PowNext(10, j - 1);
      var m := b * Pow(10, j - 1);
      TenTimes(b, Pow(10, j - 1));
      DropZeros(b, e + 1, j - 1);
      assert b * Pow(10, j) == 10 * m;
      DropZero(m, e);
    }
  }

  lemma TenTimes(b: nat, p: nat)
    ensures b * (10 * p) == 10 * (b * p)
  {}

  lemma FieldsBack(x: nat)
    requires x > 0
    ensures BaseOf(x) > 0 && CompressFrom(BaseOf(x), (x - 1) % 10) == x
  {
    var e, y := (x - 1) % 10, (x - 1) / 10;
    if e < 9 {
      var a, b := y / 9, y % 9;
      assert (10 * a + b + 1) % 10 == b + 1 && (10 * a + b + 1) / 10 == a;
    }
  }

  lemma CompressDecompress(x: nat)
    ensures Compress(Decompress(x)) == x
  {
    hide CompressFrom, BaseOf, Pow;
    if x > 0 {
      FieldsBack(x);
      DropZeros(BaseOf(x), 0, (x - 1) % 10);
    }
  }

  lemma {:induction false} CompressFromBound(n: nat, e: nat)
    requires n > 0 && e <= 9
    ensures CompressFrom(n, e) <= 10 * n + e
    ensures e < 9 && n % 10 != 0 ==> CompressFrom(n, e) == 9 * n + n % 10 - 9 + e
    decreases 9 - e
  {
    if n % 10 == 0 && e < 9 {
      CompressFromBound(n / 10, e + 1);
    }
  }

  lemma CompressBound(n: nat)
    ensures Compress(n) <= 9 * n
    ensures n % 10 == 0 ==> Compress(n) <= n + 1
    ensures n % 10 != 0 ==> Compress(n) == 9 * n + n % 10 - 9
  {
    if n > 0 {
      CompressFromBound(n, 0);
      if n % 10 == 0 {
        CompressFromBound(n / 10, 1);
      }
    }
  }

  // ----- The code, in 64-bit words -----

  function Wrap(x: int): (r: nat)
    ensures r < WORD64
  {
    x % WORD64
  }

  lemma CompressStep(n: nat, e: nat)
    requires n > 0 && e <= 9
    ensures n % 10 == 0 && e < 9 ==> CompressFrom(n, e) == CompressFrom(n / 10, e + 1)
    ensures n % 10 != 0 && e < 9 ==> CompressFrom(n, e) == (9 * (n / 10) + n % 10 - 1) * 10 + (1 + e)
    ensures e == 9 ==> CompressFrom(n, e) == (n - 1) * 10 + 10
  {
  }

  lemma WrapOf(x: int, y: int, q: int)
    requires y == x + q * WORD64
    ensures Wrap(x) == Wrap(y)
  {
    DivModUnique(y, WORD64, x / WORD64 + q, x % WORD64);
  }

  lemma WrapSmall(x: nat)
    requires x < WORD64
    ensures Wrap(x) == x
  {
  }

  lemma WrapSum(x: int, y: int)
    ensures Wrap(Wrap(x) + y) == Wrap(x + y) && Wrap(y + Wrap(x)) == Wrap(x + y)
  {
    WrapOf(Wrap(x) + y, x + y, x / WORD64);
  }

  lemma WrapTen(x: int)
    ensures Wrap(Wrap(x) * 10) == Wrap(x * 10)
  {
    WrapOf(Wrap(x) * 10, x * 10, x / WORD64 * 10);
  }

  method CompressAmount(amount: nat) returns (r: nat)
    requires amount < WORD64
    ensures r == Wrap(Compress(amount))
  {
    hide Wrap, CompressFrom;
    WrapSmall(0);
    var n := amount;
    if n == 0 {
      return 0;
    }
    var e := 0;
    while n % 10 == 0 && e < 9
      invariant 0 < n < WORD64 && 0 <= e <= 9 && CompressFrom(n, e) == Compress(amount)
      decreases 9 - e
    {
      CompressStep(n, e);
      n := n / 10;
      e := e + 1;
    }
    CompressStep(n, e);
    if e < 9 {
      var d := n % 10;
      assert 1 <= d <= 9;
      n := n / 10;
      WrapSum(n * 9, d - 1);
      WrapTen(n * 9 + d - 1);
      WrapSum((n * 9 + d - 1) * 10, 1 + e);
      return Wrap(1 + Wrap(Wrap(Wrap(n * 9) + d - 1) * 10) + e);
    } else {
      WrapSum((n - 1) * 10, 10);
      return Wrap(1 + Wrap((n - 1) * 10) + 9);
    }
  }

  method DecompressAmount(amount: nat) returns (r: nat)
    requires amount < WORD64
    ensures r == Wrap(Decompress(amount))
  {
    hide Wrap, Pow;
    var x := amount;
    WrapSmall(0);
    if x == 0 {
      return 0;
    }
    x := x - 1;
    var e := x % 10;
    x := x / 10;
    if e < 9 {
      var d := x % 9 + 1;
      x := x / 9;
      WrapSum(x * 10, d);
      r := Wrap(Wrap(x * 10) + d);
    } else {
      r := Wrap(x + 1);
    }
    ghost var k := 0;
    PowZero(10);
    while e > 0
      invariant 0 <= e && k + e == (amount - 1) % 10 && r == Wrap(BaseOf(amount) * Pow(10, k))
      decreases e
    {
      WrapTimesTen(BaseOf(amount), k);
      r := Wrap(r * 10);
      e := e - 1;
      k := k + 1;
    }
  }

  lemma WrapTimesTen(b: nat, k: nat)
    ensures Wrap(Wrap(b * Pow(10, k)) * 10) == Wrap(b * Pow(10, k + 1))
  {
    hide Wrap, Pow;
    PowNext(10, k);
    TenTimes(b, Pow(10, k));
    WrapTen(b * Pow(10, k));
  }

  // ----- When 64 bits suffice -----

  /** Exactly then the compressed amount fits a word. */
  predicate FitsWord(n: nat) {
    n % 10 == 0 || 9 * n + n % 10 - 9 < WORD64
  }

  lemma FitsWordExact(n: nat)
    requires n < WORD64
    ensures Compress(n) < WORD64 <==> FitsWord(n)
  {
    CompressBound(n);
  }

  /** The bound the format is usually given. */
  lemma SmallAmountsFit(n: nat)
    requires n <= (WORD64 - 1) / 9
    ensures n < WORD64 && FitsWord(n)
  {
  }

  /** Modulo a power of two an odd factor can be divided out. */
  lemma Residue(a: nat, inverse: nat, t: nat, delta: int, root: nat, s: int, q: nat, j: int)
    requires a * inverse == 1 + t * WORD64 && delta * inverse == root + s * WORD64
    requires a * q == delta + j * WORD64 && q < WORD64 && root < WORD64
    ensures q == root
  {
    MulAssoc(inverse, a, q);
    MulDist(1, t * WORD64, q);
    MulDist(delta, j * WORD64, inverse);
    var z := s + j * inverse - t * q;
    assert q == root + z * WORD64 by {
      assert (t * WORD64) * q == (t * q) * WORD64;
      assert (j * WORD64) * inverse == (j * inverse) * WORD64;
    }
    DivModUnique(q, WORD64, z, root);
    DivModUnique(q, WORD64, 0, q);
  }

  // An amount that wrapped and still came back would have digits q with 9 * (10^e - 1) * q in
  // one of few residue classes modulo 2^64, for the exponent e of the wrapped form. The only
  // such q are too large.

  lemma NoCoincidence2(q: nat, delta: int, j: int)
    requires 9 * q <= WORD64 + 8 && (delta == -3 || delta == -2 || delta == 6 || delta == 7)
    ensures 891 * q != delta + j * WORD64
  {
    var root: nat :=
      if delta == -3 then 14223247114072347879
      else if delta == -2 then 9482164742714898586
      else if delta == 6 then 8446993919274407474
      else 3705911547916958181;
    var s := if delta == -3 then -3 else if delta == -2 then -2 else if delta == 6 then 4 else 5;
    if 891 * q == delta + j * WORD64 {
      Residue(891, 13705661702352102323, 662, delta, root, s, q, j);
    }
  }

  lemma NoCoincidence4(q: nat, delta: int, j: int)
    requires 9 * q <= WORD64 + 8 && (delta == 2 || delta == 3 || delta == 11 || delta == 12)
    ensures 89991 * q != delta + j * WORD64
  {
    var root: nat :=
      if delta == 2 then 13238912402357251182
      else if delta == 3 then 10634996566681100965
      else if delta == 11 then 8250413954981450845
      else 5646498119305300628;
    var s := if delta == 2 then 1 else if delta == 3 then 2 else if delta == 11 then 9 else 10;
    if 89991 * q == delta + j * WORD64 {
      Residue(89991, 15842828238033401399, 77288, delta, root, s, q, j);
    }
  }

  lemma NoCoincidence6(q: nat, delta: int, j: int)
    requires 9 * q <= WORD64 + 8 && (delta == -1 || delta == 8)
    ensures 8999991 * q != delta + j * WORD64
  {
    var root: nat := if delta == -1 then 5963108650928922233 else 7635363013697276984;
    var s := if delta == -1 then -1 else 5;
    if 8999991 * q == delta + j * WORD64 {
      Residue(8999991, 12483635422780629383, 6090647, delta, root, s, q, j);
    }
  }

  lemma NoCoincidence8(q: nat, delta: int, j: int)
    requires 9 * q <= WORD64 + 8 && (delta == 4 || delta == 5 || delta == 13 || delta == 14)
    ensures 899999991 * q != delta + j * WORD64
  {
    var root: nat :=
      if delta == 4 then 10381592513505485596
      else if delta == 5 then 8365304623454469091
      else if delta == 13 then 10681745576755888667
      else 8665457686704872162;
    var s := if delta == 4 then 3 else if delta == 5 then 4 else if delta == 13 then 11 else 12;
    if 899999991 * q == delta + j * WORD64 {
      Residue(899999991, 16430456183658535111, 801627125, delta, root, s, q, j);
    }
  }

  /** An amount that does not fit comes back changed. */
  lemma WrappedIsLost(n: nat)
    requires n < WORD64 && !FitsWord(n)
    ensures Wrap(Decompress(Wrap(Compress(n)))) != n
  {
    hide Decompress, Compress, Wrap;
    CompressBound(n);
    var c, k := Wrap(Compress(n)), Compress(n) / WORD64;
    WrapParts(Compress(n));
    if c == 0 {
      DecompressZero();
      WrapSmall(0);
    } else {
      var e, q := (c - 1) % 10, BaseOf(c);
      DecompressIs(c);
      WrapParts(q * Pow(10, e));
      var j := (q * Pow(10, e)) / WORD64;
      LostParts(n, c, k, e, q, j);
    }
  }

  lemma WrapParts(x: nat)
    ensures x == x / WORD64 * WORD64 + Wrap(x)
  {
  }

  lemma DecompressIs(c: nat)
    requires c > 0
    ensures Decompress(c) == BaseOf(c) * Pow(10, (c - 1) % 10)
  {
  }

  lemma BaseTimesNine(c: nat)
    requires c > 0 && (c - 1) % 10 < 9
    ensures 9 * BaseOf(c) == c + 8 - (c - 1) / 10 % 9 - (c - 1) % 10
  {
  }

  /** What coming back unchanged would mean. */
  lemma LostParts(n: nat, c: nat, k: nat, e: nat, q: nat, j: nat)
    requires n < WORD64 && n % 10 != 0 && 0 < c < WORD64 && 9 * n + n % 10 - 9 == k * WORD64 + c && k >= 1
    requires e == (c - 1) % 10 && q == BaseOf(c)
    ensures q * Pow(10, e) != j * WORD64 + n
  {
    hide BaseOf, Pow;
    var b, d := (c - 1) / 10 % 9, n % 10;
    ExponentOf(n, c, k, e);
    BaseTimesNine(c);
    var delta := 1 - d + b + e;
    TenPowers();
    assert 9 * (n - q) == k * WORD64 + delta;
    DeltaOf(k, e, delta, n - q);
    if e == 2 {
      NoCoincidence2(q, delta, k + 9 * j);
    } else if e == 4 {
      NoCoincidence4(q, delta, k + 9 * j);
    } else if e == 6 {
      NoCoincidence6(q, delta, k + 9 * j);
    } else if e == 8 {
      NoCoincidence8(q, delta, k + 9 * j);
    }
  }

  lemma TenPowers()
    ensures Pow(10, 0) == 1 && Pow(10, 2) == 100 && Pow(10, 4) == 10000 && Pow(10, 6) == 1000000 &&
              Pow(10, 8) == 100000000
  {
    PowAdd(10, 2, 2);
    PowAdd(10, 4, 2);
    PowAdd(10, 4, 4);
  }

  lemma ExponentOf(n: nat, c: nat, k: nat, e: nat)
    requires n < WORD64 && n % 10 != 0 && 0 < c < WORD64 && 9 * n + n % 10 - 9 == k * WORD64 + c && k >= 1
    requires e == (c - 1) % 10
    ensures 1 <= k <= 8
    ensures e == if k == 1 || k == 6 then 4 else if k == 2 || k == 7 then 8
              else if k == 3 || k == 8 then 2 else if k == 4 then 6 else 0
  {
  }

  lemma DeltaOf(k: nat, e: nat, delta: int, x: int)
    requires 9 * x == k * WORD64 + delta && e - 8 <= delta <= e + 8 && 1 <= k <= 8
    requires e == if k == 1 || k == 6 then 4 else if k == 2 || k == 7 then 8
               else if k == 3 || k == 8 then 2 else if k == 4 then 6 else 0
    ensures e == 2 ==> delta == -3 || delta == -2 || delta == 6 || delta == 7
    ensures e == 4 ==> delta == 2 || delta == 3 || delta == 11 || delta == 12
    ensures e == 6 ==> delta == -1 || delta == 8
    ensures e == 8 ==> delta == 4 || delta == 5 || delta == 13 || delta == 14
  {
  }

  /** The 64-bit codec restores an amount if and only if its compressed form fits a word. */
  lemma RoundTripExact(n: nat)
    requires n < WORD64
    ensures Wrap(Decompress(Wrap(Compress(n)))) == n <==> FitsWord(n)
  {
    hide Decompress, Compress, Wrap;
    if FitsWord(n) {
      FitsWordExact(n);
      WrapSmall(Compress(n));
      DecompressCompress(n);
      WrapSmall(n);
    } else {
      WrappedIsLost(n);
    }
  }

  /** Some amounts within the money range do not survive. */
  lemma MoneyRangeIsTooWide()
    ensures var n := 2_049_638_230_412_172_403;
            n <= MAX_MONEY && Wrap(Decompress(Wrap(Compress(n)))) != n
  {
    RoundTripExact(2_049_638_230_412_172_403);
  }
}
