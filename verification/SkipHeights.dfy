/** The heights that skip pointers lead to (src/chain.cpp:79-92), and how many steps the walk to
    an ancestor takes (src/chain.cpp:94-118). */
module SkipHeights {
  import opened BitOps
  import opened Powers

  /** Zero is kept: its predecessor -1 has all bits set. */
  function InvertLowestOne(n: nat): nat {
    if n == 0 then 0 else And(n, n - 1)
  }

  /** A number is an odd multiple of its lowest one, and exactly that is removed. */
  lemma {:induction false} LowestOne(n: nat) returns (k: nat, odd: nat)
    requires n > 0
    ensures odd % 2 == 1 && n == odd * Pow2(k) && InvertLowestOne(n) == n - Pow2(k)
  {
    if n % 2 == 1 {
      AndSelf(n / 2);
      k, odd := 0, n;
    } else {
      var j;
      j, odd := LowestOne(n / 2);
      k := j + 1;
      TwiceMul(odd, Pow2(j));
    }
  }

  function GetSkipHeight(height: int): (r: int)
    ensures height >= 0 ==> 0 <= r <= height
    ensures height >= 1 ==> r < height
  {
    if height < 2 then 0
    else if height % 2 == 1 then InvertLowestOne(InvertLowestOne(height - 1)) + 1
    else InvertLowestOne(height)
  }

  // ----- The walk on heights -----

  /** Whether the skip pointer is followed: not if going one block back first leads further. */
  predicate Follows(height: int, target: int) {
    var skip, skipPrev := GetSkipHeight(height), GetSkipHeight(height - 1);
    skip == target || (skip > target && !(skipPrev < skip - 2 && skipPrev >= target))
  }

  function NextHeight(height: int, target: int): (r: int)
    requires 0 <= target < height
    ensures target <= r < height
  {
    if Follows(height, target) then GetSkipHeight(height) else height - 1
  }

  /** The steps of the walk. */
  ghost function Steps(height: int, target: int): nat
    requires 0 <= target <= height
    decreases height
  {
    if height == target then 0 else 1 + Steps(NextHeight(height, target), target)
  }

  // ----- Clearing ones -----

  ghost predicate Multiple(x: int, k: nat) { exists d: int :: x == d * Pow2(k) }

  lemma MultipleBoth(x: int, y: int, k: nat)
    requires Multiple(x, k) && Multiple(y, k)
    ensures Multiple(x + y, k) && Multiple(x - y, k)
  {
    hide Pow2;
    var d: int :| x == d * Pow2(k);
    var e: int :| y == e * Pow2(k);
    MulDist(d, e, Pow2(k));
    MulDist(d - e, e, Pow2(k));
    assert x + y == (d + e) * Pow2(k) && x - y == (d - e) * Pow2(k);
  }

  lemma MultipleLower(x: int, k: nat, j: nat)
    requires j <= k && Multiple(x, k)
    ensures Multiple(x, j)
  {
    hide Pow2;
    var d: int :| x == d * Pow2(k);
    Pow2Add(k - j, j);
    MulAssoc(d, Pow2(k - j), Pow2(j));
    assert x == (d * Pow2(k - j)) * Pow2(j);
  }

  lemma MultiplePow(k: nat, j: nat)
    requires j <= k
    ensures Multiple(Pow2(k), j)
  {
    assert Pow2(k) == 1 * Pow2(k);
    MultipleLower(Pow2(k), k, j);
  }

  lemma {:induction false} ClearLow(d: nat, k: nat)
    ensures (2 * d + 1) * Pow2(k) >= 1 && InvertLowestOne((2 * d + 1) * Pow2(k)) == 2 * d * Pow2(k)
  {
    if k == 0 {
      AndSelf(d);
    } else {
      ClearLow(d, k - 1);
      TwiceMul(2 * d + 1, Pow2(k - 1));
      TwiceMul(2 * d, Pow2(k - 1));
      ClearTwice((2 * d + 1) * Pow2(k - 1));
    }
  }

  lemma ClearTwice(n: nat)
    ensures InvertLowestOne(2 * n) == 2 * InvertLowestOne(n)
  {
    if n > 0 {
      assert (2 * n) / 2 == n && (2 * n - 1) / 2 == n - 1;
    }
  }

  lemma ClearAt(x: nat, k: nat)
    requires Multiple(x, k + 1)
    ensures InvertLowestOne(x + Pow2(k)) == x
  {
    hide Pow2, InvertLowestOne;
    var d: int :| x == d * Pow2(k + 1);
    Pow2Next(k);
    TwiceMul(d, Pow2(k));
    if d < 0 {
      MulMono(d, -1, Pow2(k + 1));
    }
    MulDist(2 * d, 1, Pow2(k));
    ClearLow(d, k);
  }

  lemma ClearBelow(n: nat)
    ensures InvertLowestOne(n) <= n && (n > 0 ==> InvertLowestOne(n) < n)
  {
    if n > 0 {
      var k, odd := LowestOne(n);
    }
  }

  lemma ClearParts(n: nat) returns (k: nat)
    requires n > 0
    ensures Multiple(InvertLowestOne(n), k + 1) && n == InvertLowestOne(n) + Pow2(k)
    ensures n % 2 == 0 ==> k >= 1
  {
    hide InvertLowestOne;
    var odd;
    k, odd := LowestOne(n);
    var d := odd / 2;
    Pow2Next(k);
    TwiceMul(d, Pow2(k));
    MulDist(2 * d, 1, Pow2(k));
    assert InvertLowestOne(n) == d * Pow2(k + 1);
  }

  lemma ClearEven(n: nat)
    requires n % 2 == 0
    ensures InvertLowestOne(n) % 2 == 0
  {
    hide InvertLowestOne;
    ClearTwice(n / 2);
    assert 2 * (n / 2) == n;
  }

  // ----- Within one power of two -----

  /** A bound for walks from base + 2^k to a target above base. */
  ghost function Cell(k: nat): nat {
    if k == 0 then 0 else Cell(k - 1) + 3 + k / 2
  }

  lemma {:induction false} CellGrows(j: nat, k: nat)
    requires j <= k
    ensures Cell(j) <= Cell(k)
  {
    if j < k {
      CellGrows(j, k - 1);
    }
  }

  lemma StepTo(height: int, target: int, next: int)
    requires 0 <= target < height && NextHeight(height, target) == next
    ensures Steps(height, target) == 1 + Steps(next, target)
  {
    hide NextHeight;
  }

  /** From an odd height the skip pointer is followed whenever it does not lead too far. */
  lemma NextFromOdd(y: nat, target: int)
    requires y % 2 == 0 && y > 0 && 0 <= target <= y
    ensures var skip := InvertLowestOne(InvertLowestOne(y)) + 1;
            NextHeight(y + 1, target) == if skip >= target then skip else y
  {
    hide InvertLowestOne;
    ClearBelow(InvertLowestOne(y));
  }

  lemma NextFromEven(y: nat, target: int)
    requires y % 2 == 0 && y > 0 && InvertLowestOne(y) < target < y
    ensures NextHeight(y, target) == y - 1
  {
    hide InvertLowestOne;
  }

  /** What lies one block before an even height leads no further, if its lowest one is high. */
  lemma SkipBefore(b: nat, k: nat)
    requires k >= 1 && Multiple(b, k + 1)
    ensures k >= 3 ==> GetSkipHeight(b + Pow2(k) - 1) == b + Pow2(k) - 7 > b
    ensures k == 2 ==> GetSkipHeight(b + Pow2(k) - 1) == InvertLowestOne(b) + 1
    ensures k == 1 ==> GetSkipHeight(b + Pow2(k) - 1) <= InvertLowestOne(InvertLowestOne(b)) + 1
  {
    hide InvertLowestOne, Multiple, Pow2;
    SmallPowers();
    EvenPower(k);
    EvenMultiple(b, k + 1);
    if k >= 3 {
      Pow2Mono(3, k);
      MultipleLower(b, k + 1, 3);
      MultiplePow(k, 3);
      MultipleBoth(b, Pow2(k), 3);
      TwoCleared(b + Pow2(k));
    } else if k == 2 {
      MultipleLower(b, 3, 2);
      ClearAt(b, 1);
    }
  }

  /** Two below a multiple of eight, clearing twice leads to eight below. */
  lemma TwoCleared(x: nat)
    requires x >= 8 && Multiple(x, 3)
    ensures InvertLowestOne(InvertLowestOne(x - 2)) == x - 8
  {
    hide InvertLowestOne, Multiple, Pow2;
    SmallPowers();
    MultiplePow(3, 3);
    MultipleBoth(x, 8, 3);
    MultiplePow(2, 2);
    MultipleLower(x - 8, 3, 2);
    MultipleBoth(x - 8, 4, 2);
    ClearAt(x - 4, 1);
    ClearAt(x - 8, 2);
  }

  lemma SmallPowers()
    ensures Pow2(0) == 1 && Pow2(1) == 2 && Pow2(2) == 4 && Pow2(3) == 8
  {
    assert Pow2(1) == 2 * Pow2(0);
    assert Pow2(2) == 2 * Pow2(1);
    assert Pow2(3) == 2 * Pow2(2);
  }

  lemma EvenPower(k: nat)
    requires k >= 1
    ensures Pow2(k) % 2 == 0 && Pow2(k) >= 2
  {
  }

  lemma EvenMultiple(x: int, k: nat)
    requires k >= 1 && Multiple(x, k)
    ensures x % 2 == 0
  {
    SmallPowers();
    MultipleLower(x, k, 1);
    var d: int :| x == d * Pow2(1);
  }

  /** The skip height of an even number is the number without its lowest one. */
  lemma SkipOfEven(d: nat, k: nat)
    requires k >= 1
    ensures GetSkipHeight((2 * d + 1) * Pow2(k)) == 2 * d * Pow2(k)
  {
    hide InvertLowestOne, Pow2, Multiple;
    assert Multiple((2 * d + 1) * Pow2(k), k) by { IsMultiple(2 * d + 1, k); }
    EvenMultiple((2 * d + 1) * Pow2(k), k);
    ClearLow(d, k);
  }

  /** Of an odd number, the next two ones above the lowest bit are removed. */
  lemma SkipOfOdd(d: nat, j: nat, i: nat)
    requires 1 <= i < j
    ensures GetSkipHeight((2 * d + 1) * Pow2(j) + Pow2(i) + 1) == 2 * d * Pow2(j) + 1
  {
    hide InvertLowestOne, Pow2, Multiple;
    var high := (2 * d + 1) * Pow2(j);
    assert Multiple(high, j) by { IsMultiple(2 * d + 1, j); }
    MultipleLower(high, j, i + 1);
    EvenMultiple(high, j);
    EvenPower(i);
    ClearLow(d, j);
    ClearAt(high, i);
  }

  lemma IsMultiple(d: int, k: nat)
    ensures Multiple(d * Pow2(k), k)
  {}

  /** From an even height the skip pointer is followed if two of them lead too far. */
  lemma NoDetour(y: nat, target: int)
    requires y % 2 == 0 && y > 0
    requires InvertLowestOne(InvertLowestOne(y)) + 1 < target <= InvertLowestOne(y)
    ensures NextHeight(y, target) == InvertLowestOne(y)
  {
    hide InvertLowestOne, Multiple;
    var k := ClearParts(y);
    var b := InvertLowestOne(y);
    ClearBelow(y);
    SkipBefore(b, k);
    ClearBelow(InvertLowestOne(b));
  }

  lemma {:induction false} CellWalk(base: nat, k: nat, target: int)
    requires k >= 1 && Multiple(base, k + 1) && base < target <= base + Pow2(k)
    ensures Steps(base + Pow2(k), target) <= Cell(k)
    decreases k, k + 1
  {
    hide Steps, InvertLowestOne, Multiple, NextHeight, Pow2;
    var y := base + Pow2(k);
    SmallPowers();
    if target == y {
      NoSteps(y);
    } else {
      EvenPower(k);
      EvenMultiple(base, k + 1);
      ClearAt(base, k);
      NextFromEven(y, target);
      StepTo(y, target, y - 1);
      OddWalk(base, k, 1, target);
    }
  }

  lemma NoSteps(height: int)
    requires height >= 0
    ensures Steps(height, height) == 0
  {
  }

  /** From an odd height in the cell, below which the ones from m to k - 1 are set. */
  lemma {:induction false} OddWalk(base: nat, k: nat, m: nat, target: int)
    requires 1 <= m <= k && m % 2 == 1 && Multiple(base, k + 1)
    requires base < target <= base + Pow2(k) - Pow2(m) + 1
    ensures Steps(base + Pow2(k) - Pow2(m) + 1, target) <= (k - m) / 2 + 2 + Cell(k - 1)
    decreases k, k - m
  {
    hide Steps, InvertLowestOne, Multiple, NextHeight, Pow2;
    var q := base + Pow2(k) - Pow2(m);
    if target == q + 1 {
      NoSteps(q + 1);
    } else {
      assert m < k;
      Ones(base, k, m);
      Pow2Next(m);
      var q1 := q - Pow2(m);
      EvenPower(m);
      EvenMultiple(q1, m + 1);
      NextFromOdd(q, target);
      if m + 1 < k {
        Ones(base, k, m + 1);
        Pow2Next(m + 1);
        var q2 := q1 - Pow2(m + 1);
        if q2 + 1 >= target {
          StepTo(q + 1, target, q2 + 1);
          OddWalk(base, k, m + 2, target);
        } else {
          StepTo(q + 1, target, q);
          FromTop(q, q1, q2, m, k, target);
        }
      } else {
        LastOne(base, q, m, k, target);
      }
    }
  }

  /** Clearing the lowest one of base + 2^k - 2^m. */
  lemma Ones(base: nat, k: nat, m: nat)
    requires m < k && Multiple(base, k + 1)
    ensures var q := base + Pow2(k) - Pow2(m);
            && q - Pow2(m) >= base && Multiple(q - Pow2(m), m + 1) && InvertLowestOne(q) == q - Pow2(m)
  {
    hide InvertLowestOne, Multiple, Pow2;
    Pow2Next(m);
    Pow2Mono(m + 1, k);
    MultipleLower(base, k + 1, m + 1);
    MultiplePow(k, m + 1);
    MultiplePow(m + 1, m + 1);
    MultipleBoth(base, Pow2(k), m + 1);
    MultipleBoth(base + Pow2(k), Pow2(m + 1), m + 1);
    ClearAt(base + Pow2(k) - Pow2(m + 1), m);
  }

  lemma FromTop(q: nat, q1: nat, q2: nat, m: nat, k: nat, target: int)
    requires 1 <= m && m + 1 < k && q2 + 1 < target <= q
    requires q == q1 + Pow2(m) && q1 == q2 + Pow2(m + 1) && Multiple(q1, m + 1) && Multiple(q2, m + 2)
    requires InvertLowestOne(q) == q1 && InvertLowestOne(q1) == q2
    ensures 1 + Steps(q, target) <= 2 + Cell(k - 1)
    decreases k, 0
  {
    hide Steps, InvertLowestOne, Multiple, NextHeight, Pow2;
    EvenPower(m);
    EvenMultiple(q1, m + 1);
    CellGrows(m, k - 1);
    CellGrows(m + 1, k - 1);
    if q1 < target {
      CellWalk(q1, m, target);
    } else {
      NoDetour(q, target);
      StepTo(q, target, q1);
      CellWalk(q2, m + 1, target);
    }
  }

  lemma LastOne(base: nat, q: nat, m: nat, k: nat, target: int)
    requires 1 <= m && m + 1 == k && Multiple(base, k + 1) && q == base + Pow2(m) && base < target <= q
    requires InvertLowestOne(q) == base
    ensures Steps(q + 1, target) <= 2 + Cell(k - 1)
    decreases k, 0
  {
    hide Steps, InvertLowestOne, Multiple, NextHeight, Pow2;
    EvenPower(m);
    EvenMultiple(base, k + 1);
    NextFromOdd(q, target);
    ClearBelow(base);
    ZeroStays();
    MultipleLower(base, k + 1, m + 1);
    var skip := InvertLowestOne(base) + 1;
    if skip >= target {
      StepTo(q + 1, target, skip);
      NoSteps(skip);
    } else {
      StepTo(q + 1, target, q);
      CellWalk(base, m, target);
    }
  }

  lemma ZeroStays()
    ensures InvertLowestOne(0) == 0
  {
  }

  // ----- From any height -----

  /** The number of ones. */
  ghost function Count(n: nat): nat {
    if n == 0 then 0
    else
      ClearBelow(n);
      1 + Count(InvertLowestOne(n))
  }

  lemma {:induction false} CountTwice(n: nat)
    ensures Count(2 * n) == Count(n)
    decreases n
  {
    hide InvertLowestOne;
    if n > 0 {
      ClearTwice(n);
      ClearBelow(n);
      CountTwice(InvertLowestOne(n));
    }
  }

  lemma {:induction false} CountBound(n: nat, bits: nat)
    requires n < Pow2(bits)
    ensures Count(n) <= bits
    decreases bits
  {
    hide InvertLowestOne;
    if n > 0 {
      CountBound(n / 2, bits - 1);
      CountTwice(n / 2);
      if n % 2 == 1 {
        SmallPowers();
        MultipleTwice(n / 2);
        ClearAt(2 * (n / 2), 0);
      }
    }
  }

  lemma MultipleTwice(n: nat)
    ensures Multiple(2 * n, 1)
  {
    SmallPowers();
    assert 2 * n == n * Pow2(1);
  }

  lemma CountClear(n: nat)
    ensures n > 0 ==> Count(InvertLowestOne(n)) == Count(n) - 1
    ensures Count(InvertLowestOne(n)) <= Count(n)
  {
    hide InvertLowestOne;
    ZeroStays();
  }

  /** Once the first skip leads too far, at most one power of two is left. */
  lemma InOneCell(y: nat, target: int, bits: nat)
    requires y % 2 == 0 && y < Pow2(bits) && InvertLowestOne(y) < target <= y
    ensures Steps(y, target) <= Cell(bits)
  {
    hide Steps, InvertLowestOne, Multiple, Pow2;
    var k := ClearParts(y);
    if k >= bits {
      Pow2Mono(bits, k);
    }
    CellGrows(k, bits);
    CellWalk(InvertLowestOne(y), k, target);
  }

  lemma {:induction false} EvenWalk(y: nat, target: int, bits: nat)
    requires y % 2 == 0 && y < Pow2(bits) && 0 <= target <= y
    ensures Steps(y, target) <= Count(y) + 2 + Cell(bits)
    decreases y
  {
    hide Steps, InvertLowestOne, Multiple, Pow2, Count, NextHeight;
    if target == y {
      NoSteps(y);
    } else {
      var b := InvertLowestOne(y);
      ClearBelow(y);
      ClearEven(y);
      CountClear(y);
      if b < target {
        InOneCell(y, target, bits);
      } else if NextHeight(y, target) == b {
        StepTo(y, target, b);
        EvenWalk(b, target, bits);
      } else {
        var z := Detour(y, target);
        StepTo(y, target, y - 1);
        StepTo(y - 1, target, z + 1);
        OddStart(z, target, bits);
      }
    }
  }

  /** Where going one block back leads further, the step after it follows the skip pointer. */
  lemma Detour(y: nat, target: int) returns (z: nat)
    requires y % 2 == 0 && y > 0 && 0 <= target <= InvertLowestOne(y) && NextHeight(y, target) != InvertLowestOne(y)
    ensures z % 2 == 0 && z < y && target <= z + 1 < y - 1 && Count(z) + 2 <= Count(y)
    ensures NextHeight(y, target) == y - 1 && NextHeight(y - 1, target) == z + 1
  {
    hide InvertLowestOne, Multiple, Pow2, Count;
    var b := InvertLowestOne(y);
    var k := ClearParts(y);
    ClearBelow(y);
    SmallPowers();
    SkipBefore(b, k);
    z := InvertLowestOne(InvertLowestOne(y - 2));
    ClearEven(y - 2);
    ClearEven(InvertLowestOne(y - 2));
    NextFromOdd(y - 2, target);
    CountClear(y);
    CountClear(b);
    CountClear(InvertLowestOne(b));
    CountClear(InvertLowestOne(InvertLowestOne(b)));
  }

  lemma {:induction false} OddStart(y: nat, target: int, bits: nat)
    requires y % 2 == 0 && y < Pow2(bits) && 0 <= target <= y + 1
    ensures Steps(y + 1, target) <= Count(y) + 2 + Cell(bits)
    decreases y
  {
    hide Steps, InvertLowestOne, Multiple, Pow2, Count, NextHeight;
    if target == y + 1 {
      NoSteps(y + 1);
    } else if y == 0 {
      FromOne();
    } else {
      var b := InvertLowestOne(y);
      var c := InvertLowestOne(b);
      ClearBelow(y);
      ClearBelow(b);
      ClearEven(y);
      ClearEven(b);
      CountClear(y);
      CountClear(b);
      NextFromOdd(y, target);
      if c + 1 >= target {
        StepTo(y + 1, target, c + 1);
        OddStart(c, target, bits);
      } else {
        StepTo(y + 1, target, y);
        if b < target {
          InOneCell(y, target, bits);
        } else {
          NoDetour(y, target);
          StepTo(y, target, b);
          InOneCell(b, target, bits);
        }
      }
    }
  }

  lemma FromOne()
    ensures Steps(1, 0) == 1
  {
    assert NextHeight(1, 0) == 0;
    NoSteps(0);
  }

  lemma {:induction false} CellSize(k: nat)
    ensures 4 * Cell(k) <= k * k + 13 * k
  {
    if k > 0 {
      CellSize(k - 1);
      assert k * k == (k - 1) * (k - 1) + 2 * k - 1;
    }
  }

  /** Below 2^bits the walk takes at most about bits * bits / 4 steps. */
  lemma StepsBound(height: nat, target: nat, bits: nat)
    requires target <= height < Pow2(bits)
    ensures 4 * Steps(height, target) <= bits * bits + 17 * bits + 8
  {
    hide Steps, Pow2, Count, Cell;
    CellSize(bits);
    var y := height - height % 2;
    CountBound(y, bits);
    if y == height {
      EvenWalk(y, target, bits);
    } else {
      OddStart(y, target, bits);
    }
    Total(Steps(height, target), Count(y), Cell(bits), bits, bits * bits);
  }

  lemma Total(steps: nat, ones: nat, cell: nat, bits: nat, square: int)
    requires steps <= ones + 2 + cell && ones <= bits && 4 * cell <= square + 13 * bits
    ensures 4 * steps <= square + 17 * bits + 8
  {
  }

  // ----- The bound has the right order -----

  lemma {:induction false} DeepOdd(k: nat, m: nat)
    requires 1 <= m < k && m % 2 == 1
    ensures Pow2(k) - Pow2(m) + 1 >= 2 && Pow2(k - 1) >= 2
    ensures Steps(Pow2(k) - Pow2(m) + 1, 2) >= (k - m) / 2 + 1 + Steps(Pow2(k - 1), 2)
    decreases k - m
  {
    hide Steps, InvertLowestOne, Multiple, NextHeight, Pow2;
    EvenPower(k - 1);
    EvenPower(m);
    Pow2Next(m);
    Pow2Next(k - 1);
    ZeroMultiple(k + 1);
    Ones(0, k, m);
    ZeroStays();
    var q := Pow2(k) - Pow2(m);
    EvenMultiple(q - Pow2(m), m + 1);
    NextFromOdd(q, 2);
    if m + 1 == k {
      StepTo(q + 1, 2, q);
    } else {
      Ones(0, k, m + 1);
      Pow2Next(m + 1);
      if m + 2 == k {
        StepTo(q + 1, 2, q);
        NoDetour(q, 2);
        StepTo(q, 2, q - Pow2(m));
      } else {
        Ones(0, k, m + 2);
        EvenPower(m + 2);
        Pow2Next(m + 2);
        StepTo(q + 1, 2, q - Pow2(m) - Pow2(m + 1) + 1);
        DeepOdd(k, m + 2);
      }
    }
  }

  lemma ZeroMultiple(k: nat)
    ensures Multiple(0, k)
  {
    assert 0 == 0 * Pow2(k);
  }

  /** The walk from 2^k to height 2 takes at least about k * k / 4 steps, so no bound linear in
      the number of bits holds. */
  lemma {:induction false} DeepWalk(k: nat)
    requires k >= 1
    ensures Pow2(k) >= 2 && 4 * Steps(Pow2(k), 2) >= k * k - 1
  {
    hide Steps, InvertLowestOne, Multiple, NextHeight, Pow2;
    SmallPowers();
    EvenPower(k);
    if k > 1 {
      DeepWalk(k - 1);
      DeepOdd(k, 1);
      ZeroMultiple(k + 1);
      ClearAt(0, k);
      Pow2Mono(2, k);
      NextFromEven(Pow2(k), 2);
      StepTo(Pow2(k), 2, Pow2(k) - 1);
      assert k * k == (k - 1) * (k - 1) + 2 * k - 1;
    }
  }
}
