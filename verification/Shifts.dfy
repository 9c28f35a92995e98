/** Shifting a sequence of words by any number of bits. */
module Shifts {
  import opened BitOps
  import opened Digits
  import opened Powers
  import opened Words

  lemma Pow2Byte()
    ensures Pow2(8) == 256
  {
    assert Pow2(2) == 4;
    Pow2Add(2, 2);
    Pow2Add(4, 4);
  }

  lemma Pow2Word()
    ensures Pow2(16) == 0x1_0000 && Pow2(32) == BASE
  {
    hide Pow2;
    Pow2Byte();
    Pow2Add(8, 8);
    Pow2Add(16, 16);
  }

  lemma {:induction false} PowBase(i: nat)
    ensures Pow(BASE, i) == Pow2(32 * i)
  {
    if i > 0 {
      PowBase(i - 1);
      Pow2Word();
      Pow2Add(32, 32 * (i - 1));
    }
  }

  /** Adds v at word k, or drops it where there is no such word. */
  function Deposit(s: seq<nat>, k: nat, v: nat): (r: seq<nat>)
    ensures |r| == |s|
  {
    if k < |s| then s[k := Or(s[k], v)] else s
  }

  lemma DepositNum(s: seq<nat>, k: nat, v: nat) returns (q: nat)
    requires k < |s| ==> Or(s[k], v) == s[k] + v
    ensures Num(Deposit(s, k, v)) + q * Modulus(s) == Num(s) + v * Pow(BASE, k)
  {
    hide Value, Pow;
    if k < |s| {
      ValueUpdate(BASE, s, k, s[k] + v);
      q := 0;
    } else {
      PowAdd(BASE, k - |s|, |s|);
      q := v * Pow(BASE, k - |s|);
      MulAssoc(v, Pow(BASE, k - |s|), Pow(BASE, |s|));
    }
  }

  // ----- To the left -----

  /** The two words a shifted word is spread over. */
  lemma SplitLeft(w: nat, s: nat)
    requires w < BASE && s < 32
    ensures w * Pow2(s) == (w / Pow2(32 - s)) * BASE + (w * Pow2(s)) % BASE
    ensures w / Pow2(32 - s) < Pow2(s)
    ensures (w * Pow2(s)) % BASE == (w % Pow2(32 - s)) * Pow2(s)
    ensures (w % Pow2(32 - s)) * Pow2(s) <= BASE - Pow2(s)
  {
    hide Pow2;
    var a, b := Pow2(s), Pow2(32 - s);
    Pow2Word();
    Pow2Add(s, 32 - s);
    var hi, m := w / b, w % b;
    MulDist(hi * b, m, a);
    MulAssoc(hi, b, a);
    MulMono(m + 1, b, a);
    MulSucc(m, a);
    DivModUnique(w * a, BASE, hi, m * a);
    QuotientBelow(w, b, a);
  }

  ghost predicate LeftSoFar(x: seq<nat>, i: nat, k: nat, s: nat, r: seq<nat>, q: nat)
    requires i <= |x|
  {
    && InRange(BASE, r) && |r| == |x|
    && Num(r) + q * Modulus(r) == (Value(BASE, x[..i]) * Pow2(s)) * Pow(BASE, k)
    && (forall j :: i + k < j < |r| ==> r[j] == 0)
    && (i + k < |r| ==> r[i + k] < Pow2(s))
  }

  lemma LeftStart(x: seq<nat>, k: nat, s: nat, r: seq<nat>)
    requires |r| == |x| && AllZero(r)
    ensures LeftSoFar(x, 0, k, s, r, 0)
  {
    ValueZero(BASE, r);
  }

  function LowWord(w: nat, p: nat): nat { (w * p) % BASE }

  function HighWord(w: nat, p: nat): nat
    requires p > 0
  {
    w / p
  }

  function LeftShifted(r: seq<nat>, k: nat, s: nat, w: nat): seq<nat>
    requires s < 32
  {
    Deposit(Deposit(r, k + 1, HighWord(w, Pow2(32 - s))), k, LowWord(w, Pow2(s)))
  }

  lemma LeftStep(x: seq<nat>, i: nat, k: nat, s: nat, r: seq<nat>, q: nat) returns (q': nat)
    requires i < |x| && x[i] < BASE && s < 32 && LeftSoFar(x, i, k, s, r, q)
    ensures LeftSoFar(x, i + 1, k, s, LeftShifted(r, i + k, s, x[i]), q')
  {
    hide Value, Pow, Pow2, Or;
    var w := x[i];
    var hi, lo := w / Pow2(32 - s), (w * Pow2(s)) % BASE;
    SplitLeft(w, s);
    Pow2Word();
    OrZero(hi);
    var r1 := Deposit(r, i + k + 1, hi);
    var q1 := DepositNum(r, i + k + 1, hi);
    if i + k < |r| {
      OrDisjoint(w % Pow2(32 - s), s, r1[i + k]);
    }
    var q2 := DepositNum(r1, i + k, lo);
    q' := q + q1 + q2;
    MulDist(q, q1, Modulus(r));
    MulDist(q + q1, q2, Modulus(r));
    LeftTerm(x, i, k, s, hi, lo);
  }

  lemma LeftTerm(x: seq<nat>, i: nat, k: nat, s: nat, hi: nat, lo: nat)
    requires i < |x| && x[i] * Pow2(s) == hi * BASE + lo
    ensures (Value(BASE, x[..i + 1]) * Pow2(s)) * Pow(BASE, k)
         == (Value(BASE, x[..i]) * Pow2(s)) * Pow(BASE, k) + hi * Pow(BASE, i + k + 1) + lo * Pow(BASE, i + k)
  {
    hide Value, Pow, Pow2;
    var v, p, pi, pk := Value(BASE, x[..i]), Pow2(s), Pow(BASE, i), Pow(BASE, k);
    ValueNext(BASE, x, i);
    MulDist(v, x[i] * pi, p);
    ThreeFactors(x[i], pi, p);
    MulDist(v * p, (p * x[i]) * pi, pk);
    MulAssoc(p * x[i], pi, pk);
    PowAdd(BASE, i, k);
    PowNext(BASE, i + k);
    MulDist(hi * BASE, lo, Pow(BASE, i + k));
    MulAssoc(hi, BASE, Pow(BASE, i + k));
  }

  lemma OrZero(v: nat)
    ensures Or(0, v) == v
  {
  }

  lemma LeftEnd(x: seq<nat>, k: nat, s: nat, r: seq<nat>, q: nat)
    requires LeftSoFar(x, |x|, k, s, r, q)
    ensures Num(r) == (Num(x) * Pow2(32 * k + s)) % Modulus(r)
  {
    hide Value, Pow, Pow2;
    ValueAll(BASE, x);
    PowBase(k);
    Pow2Add(s, 32 * k);
    MulAssoc(Num(x), Pow2(s), Pow(BASE, k));
    NumBound(r);
    WrapsMod(Num(r), Num(x) * Pow2(32 * k + s), Modulus(r), q);
  }

  lemma LeftInRange(x: seq<nat>, k: nat, s: nat, r: seq<nat>, q: nat)
    requires LeftSoFar(x, |x|, k, s, r, q)
    ensures InRange(BASE, r)
  {
  }

  /** A shift by whole words spreads nothing into the next word. */
  lemma NothingOver(r: seq<nat>, k: nat, w: nat)
    requires w < BASE
    ensures Deposit(r, k, HighWord(w, Pow2(32))) == r
  {
    Pow2Word();
    assert w / BASE == 0;
    assert k < |r| ==> Or(r[k], 0) == r[k];
  }

  // ----- To the right -----

  /** rem is what has been shifted out. */
  ghost predicate RightSoFar(x: seq<nat>, i: nat, k: nat, s: nat, r: seq<nat>, rem: nat)
    requires i <= |x| && s < 32
  {
    && InRange(BASE, r) && |r| == |x|
    && (Num(r) * Pow2(s)) * Pow(BASE, k) + rem == Value(BASE, x[..i])
    && (forall j :: 0 <= j < |r| && i <= j + k ==> r[j] == 0)
    && (i > k ==> r[i - k - 1] < Pow2(32 - s))
    && rem < if i <= k then Pow(BASE, i) else Pow2(s) * Pow(BASE, k)
  }

  lemma RightStart(x: seq<nat>, k: nat, s: nat, r: seq<nat>)
    requires s < 32 && |r| == |x| && AllZero(r)
    ensures RightSoFar(x, 0, k, s, r, 0)
  {
    ValueZero(BASE, r);
  }

  function RightShifted(r: seq<nat>, i: nat, k: nat, s: nat, w: nat): seq<nat>
    requires s < 32
  {
    var r1 := if i >= k + 1 && s != 0 then Deposit(r, i - k - 1, LowWord(w, Pow2(32 - s))) else r;
    if i >= k then Deposit(r1, i - k, HighWord(w, Pow2(s))) else r1
  }

  function Weighted(w: nat, p: nat): nat { w * p }

  /** A word is still wholly below the point. */
  lemma RightSkip(x: seq<nat>, i: nat, k: nat, s: nat, r: seq<nat>, rem: nat)
    requires i < |x| && x[i] < BASE && s < 32 && i < k && RightSoFar(x, i, k, s, r, rem)
    ensures RightSoFar(x, i + 1, k, s, r, rem + Weighted(x[i], Pow(BASE, i)))
  {
    hide Value, Pow;
    ValueNext(BASE, x, i);
    MulMono(x[i], BASE - 1, Pow(BASE, i));
    MulSucc(BASE - 1, Pow(BASE, i));
    PowNext(BASE, i);
  }

  /** The word in which the point lies. */
  lemma RightFirst(x: seq<nat>, k: nat, s: nat, r: seq<nat>, rem: nat)
    requires k < |x| && x[k] < BASE && s < 32 && RightSoFar(x, k, k, s, r, rem)
    ensures RightSoFar(x, k + 1, k, s, RightShifted(r, k, k, s, x[k]), rem + Weighted(x[k] % Pow2(s), Pow(BASE, k)))
  {
    hide Value, Pow, Pow2, Or;
    var w, p, pk := x[k], Pow2(s), Pow(BASE, k);
    var h, l := w / p, w % p;
    HighPart(w, s);
    OrZero(h);
    PowZero(BASE);
    ValueUpdate(BASE, r, 0, h);
    ValueNext(BASE, x, k);
    MulDist(Num(r), h, p);
    MulDist(Num(r) * p, h * p, pk);
    MulDist(h * p, l, pk);
    MulMono(l + 1, p, pk);
    MulSucc(l, pk);
  }

  lemma HighPart(w: nat, s: nat)
    requires w < BASE && s < 32
    ensures w / Pow2(s) < Pow2(32 - s) <= BASE && w == (w / Pow2(s)) * Pow2(s) + w % Pow2(s)
  {
    hide Pow2;
    Pow2Word();
    Pow2Add(32 - s, s);
    QuotientBelow(w, Pow2(s), Pow2(32 - s));
    MulMono(1, Pow2(s), Pow2(32 - s));
  }

  /** What the two deposits of a word above the point are. */
  lemma RightShiftedIs(r: seq<nat>, i: nat, k: nat, s: nat, w: nat)
    requires k < i && i - k < |r| && w < BASE && s < 32 && r[i - k - 1] < Pow2(32 - s) && r[i - k] == 0
    ensures var m, lo := i - k - 1, (w % Pow2(s)) * Pow2(32 - s);
            RightShifted(r, i, k, s, w) == r[m := r[m] + lo][m + 1 := w / Pow2(s)]
  {
    hide Pow2, Or;
    var m, l := i - k - 1, w % Pow2(s);
    HighPart(w, s);
    OrZero(w / Pow2(s));
    LowPart(w, s);
    OrDisjoint(l, 32 - s, r[m]);
    assert s == 0 ==> r[m := r[m] + l * Pow2(32 - s)] == r;
  }

  /** A word above it. */
  lemma RightNext(x: seq<nat>, i: nat, k: nat, s: nat, r: seq<nat>, rem: nat)
    requires k < i < |x| && x[i] < BASE && s < 32 && RightSoFar(x, i, k, s, r, rem)
    ensures RightSoFar(x, i + 1, k, s, RightShifted(r, i, k, s, x[i]), rem)
  {
    hide Value, Pow, Pow2, Or, RightShifted;
    var w, m := x[i], i - k - 1;
    var h, l := w / Pow2(s), w % Pow2(s);
    HighPart(w, s);
    var lo := l * Pow2(32 - s);
    LowPart(w, s);
    RightShiftedIs(r, i, k, s, w);
    ValueUpdate(BASE, r, m, r[m] + lo);
    var r1 := r[m := r[m] + lo];
    ValueUpdate(BASE, r1, m + 1, h);
    RightTerm(Num(r), m, k, s, l, h);
    ValueNext(BASE, x, i);
    MulDist(h * Pow2(s), l, Pow(BASE, i));
  }

  lemma LowPart(w: nat, s: nat)
    requires w < BASE && s < 32
    ensures (w % Pow2(s)) * Pow2(32 - s) <= BASE - Pow2(32 - s)
    ensures s == 0 ==> w % Pow2(s) == 0
    ensures s > 0 ==> LowWord(w, Pow2(32 - s)) == (w % Pow2(s)) * Pow2(32 - s)
  {
    if s > 0 {
      SplitLeft(w, 32 - s);
    } else {
      Pow2Word();
    }
  }

  lemma RightTerm(n: nat, m: nat, k: nat, s: nat, l: nat, h: nat)
    requires s < 32
    ensures ((n + (l * Pow2(32 - s)) * Pow(BASE, m) + h * Pow(BASE, m + 1)) * Pow2(s)) * Pow(BASE, k)
         == (n * Pow2(s)) * Pow(BASE, k) + (h * Pow2(s)) * Pow(BASE, m + k + 1) + l * Pow(BASE, m + k + 1)
  {
    hide Pow, Pow2;
    var p, p', pm, pk := Pow2(s), Pow2(32 - s), Pow(BASE, m), Pow(BASE, k);
    Pow2Word();
    Pow2Add(s, 32 - s);
    PowNext(BASE, m);
    PowAdd(BASE, m + 1, k);
    // p * p' == BASE turns the low part of a word into a whole word one place lower
    MoveUp(l, p, p', pm);
    MulDist(n + (l * p') * pm, h * (BASE * pm), p);
    MulDist(n, (l * p') * pm, p);
    ThreeFactors(h, BASE * pm, p);
    MulDist(n * p + l * (BASE * pm), (h * p) * (BASE * pm), pk);
    MulDist(n * p, l * (BASE * pm), pk);
    MulAssoc(l, BASE * pm, pk);
    MulAssoc(h * p, BASE * pm, pk);
  }

  lemma MoveUp(l: nat, p: nat, p': nat, pm: nat)
    ensures ((l * p') * pm) * p == l * ((p * p') * pm)
  {
    MulAssoc(l, p', pm);
    MulAssoc(l, p' * pm, p);
    assert (p' * pm) * p == (p * p') * pm by { ThreeFactors(p', pm, p); }
  }

  lemma RightStep(x: seq<nat>, i: nat, k: nat, s: nat, r: seq<nat>, rem: nat) returns (rem': nat)
    requires i < |x| && x[i] < BASE && s < 32 && RightSoFar(x, i, k, s, r, rem)
    ensures RightSoFar(x, i + 1, k, s, RightShifted(r, i, k, s, x[i]), rem')
  {
    hide RightSoFar;
    if i < k {
      RightSkip(x, i, k, s, r, rem);
      rem' := rem + Weighted(x[i], Pow(BASE, i));
    } else if i == k {
      RightFirst(x, k, s, r, rem);
      rem' := rem + Weighted(x[k] % Pow2(s), Pow(BASE, k));
    } else {
      RightNext(x, i, k, s, r, rem);
      rem' := rem;
    }
  }

  lemma RightInRange(x: seq<nat>, k: nat, s: nat, r: seq<nat>, rem: nat)
    requires s < 32 && RightSoFar(x, |x|, k, s, r, rem)
    ensures InRange(BASE, r)
  {
  }

  lemma RightEnd(x: seq<nat>, k: nat, s: nat, r: seq<nat>, rem: nat)
    requires s < 32 && RightSoFar(x, |x|, k, s, r, rem)
    ensures Num(r) == Num(x) / Pow2(32 * k + s)
  {
    hide Value, Pow, Pow2;
    ValueAll(BASE, x);
    PowBase(k);
    Pow2Add(s, 32 * k);
    MulAssoc(Num(r), Pow2(s), Pow(BASE, k));
    if |x| <= k {
      PowAdd(BASE, k - |x|, |x|);
      MulMono(1, Pow(BASE, k - |x|), Pow(BASE, |x|));
      MulMono(1, Pow2(s), Pow(BASE, k));
    }
    DivModUnique(Num(x), Pow2(32 * k + s), Num(r), rem);
  }

  // ----- The highest and the lowest bit -----

  /** n is the position of the highest bit of v plus one, or zero. */
  ghost predicate IsBitLength(v: nat, n: nat) {
    if n == 0 then v == 0 else Pow2(n - 1) <= v < Pow2(n)
  }

  lemma {:induction false} AndBit(x: nat, n: nat)
    requires x < Pow2(n + 1)
    ensures And(x, Pow2(n)) != 0 <==> x >= Pow2(n)
  {
    if n > 0 {
      AndBit(x / 2, n - 1);
    }
  }

  lemma {:induction false} ZeroAbove(s: seq<nat>, n: nat)
    requires n <= |s| && forall j :: n <= j < |s| ==> s[j] == 0
    ensures Num(s) == Value(BASE, s[..n])
    decreases |s| - n
  {
    if n == |s| {
      ValueAll(BASE, s);
    } else {
      ValueNext(BASE, s, n);
      ZeroAbove(s, n + 1);
    }
  }

  lemma TopWord(s: seq<nat>, pos: nat, n: nat)
    requires InRange(BASE, s) && pos < |s| && forall j :: pos < j < |s| ==> s[j] == 0
    requires Pow2(n) <= s[pos] < Pow2(n + 1)
    ensures IsBitLength(Num(s), 32 * pos + n + 1)
  {
    hide Value, Pow, Pow2;
    ZeroAbove(s, pos + 1);
    ValueNext(BASE, s, pos);
    ValueBound(BASE, s[..pos]);
    PowBase(pos);
    Pow2Add(n, 32 * pos);
    Pow2Add(n + 1, 32 * pos);
    MulMono(Pow2(n), s[pos], Pow(BASE, pos));
    MulMono(s[pos] + 1, Pow2(n + 1), Pow(BASE, pos));
    MulSucc(s[pos], Pow(BASE, pos));
  }

  /** The n lowest bits are clear. */
  ghost predicate LowClear(s: seq<nat>, n: nat) {
    && (forall j :: 0 <= j < n / 32 && j < |s| ==> s[j] == 0)
    && (n / 32 < |s| ==> s[n / 32] % Pow2(n % 32) == 0)
  }

  lemma ClearBelow(w: nat, b: nat)
    requires w % Pow2(b + 1) == 0
    ensures w % Pow2(b) == 0
  {
    hide Pow2;
    Pow2Next(b);
    var m := w / Pow2(b + 1);
    TwiceMul(m, Pow2(b));
    DivModUnique(w, Pow2(b), 2 * m, 0);
  }

  lemma LowClearLess(s: seq<nat>, n: nat)
    requires LowClear(s, n + 1)
    ensures LowClear(s, n)
  {
    hide Pow2;
    if n / 32 < |s| {
      if n % 32 == 31 {
        DivModUnique(0, Pow2(31), 0, 0);
      } else {
        ClearBelow(s[n / 32], n % 32);
      }
    }
  }

  /** Setting bit n of a number whose bits up to n are clear adds its power of two. */
  lemma SetBit(s: seq<nat>, n: nat)
    requires InRange(BASE, s) && n / 32 < |s| && LowClear(s, n + 1)
    ensures var s' := s[n / 32 := Or(s[n / 32], Pow2(n % 32))];
            InRange(BASE, s') && Num(s') == Num(s) + Pow2(n) && LowClear(s', n)
  {
    hide Value, Pow, Pow2, Or;
    var k, b := n / 32, n % 32;
    if b == 31 {
      TopBit();
    } else {
      var m := MultipleOf(s[k], Pow2(b + 1));
      WordBit(m, b);
    }
    LowClearLess(s, n);
    ValueUpdate(BASE, s, k, s[k] + Pow2(b));
    PowBase(k);
    Pow2Add(b, 32 * k);
  }

  lemma WordBit(m: nat, b: nat)
    requires b < 31 && m * Pow2(b + 1) < BASE
    ensures var w := m * Pow2(b + 1);
            Or(w, Pow2(b)) == w + Pow2(b) < BASE && (w + Pow2(b)) % Pow2(b) == 0
  {
    hide Or, Pow2;
    Pow2Next(b);
    OrDisjoint(m, b + 1, Pow2(b));
    RoomForBit(m, b);
    OddMultiple(m, Pow2(b));
  }

  lemma TopBit()
    ensures Or(0, Pow2(31)) == Pow2(31) < BASE && Pow2(31) % Pow2(31) == 0
  {
    hide Or, Pow2;
    Pow2Next(31);
    Pow2Word();
    OrZero(Pow2(31));
    DivModUnique(Pow2(31), Pow2(31), 1, 0);
  }

  lemma MultipleOf(w: nat, p: nat) returns (m: nat)
    requires p > 0 && w % p == 0
    ensures w == m * p
  {
    m := w / p;
  }

  lemma RoomForBit(m: nat, b: nat)
    requires b < 31 && m * Pow2(b + 1) < BASE
    ensures m * Pow2(b + 1) + Pow2(b) < BASE
  {
    hide Pow2;
    var p, q := Pow2(b + 1), Pow2(31 - b);
    Pow2Word();
    Pow2Add(31 - b, b + 1);
    Pow2Next(b);
    if q <= m {
      MulMono(q, m, p);
    } else {
      MulMono(m + 1, q, p);
      MulSucc(m, p);
    }
  }

  lemma OddMultiple(m: nat, p: nat)
    requires p > 0
    ensures (m * (2 * p) + p) % p == 0
  {
    TwiceMul(m, p);
    MulSucc(2 * m, p);
    DivModUnique(m * (2 * p) + p, p, 2 * m + 1, 0);
  }

  lemma Pow2Small()
    ensures Pow2(0) == 1 && Pow2(1) == 2
  {
  }

  lemma NoBits()
    ensures IsBitLength(0, 0)
  {
  }

  // ----- Long division -----

  lemma BitLengths(n: nat, nBits: nat, d: nat, dBits: nat)
    requires IsBitLength(n, nBits) && IsBitLength(d, dBits)
    ensures dBits == 0 <==> d == 0
    ensures dBits > nBits ==> n < d
  {
    if dBits > nBits {
      Pow2Mono(nBits, dBits - 1);
    }
  }

  /** Shifting the divisor to the length of the dividend neither overflows nor leaves more
      than one bit to find. */
  lemma Aligned(n: nat, nBits: nat, d: nat, dBits: nat, width: nat)
    requires IsBitLength(n, nBits) && IsBitLength(d, dBits) && 0 < dBits <= nBits <= 32 * width
    ensures d * Pow2(nBits - dBits) < Pow(BASE, width)
    ensures n < d * Pow2(nBits - dBits + 1)
  {
    hide Pow2, Pow;
    var s := nBits - dBits;
    Pow2Add(dBits, s);
    MulMono(d + 1, Pow2(dBits), Pow2(s));
    MulSucc(d, Pow2(s));
    PowBase(width);
    Pow2Mono(nBits, 32 * width);
    Pow2Add(dBits - 1, s + 1);
    MulMono(Pow2(dBits - 1), d, Pow2(s + 1));
  }

  lemma NothingSet(s: seq<nat>, n: nat)
    requires AllZero(s)
    ensures LowClear(s, n)
  {
    hide Pow2;
    DivModUnique(0, Pow2(n % 32), 0, 0);
  }

  lemma DivideStep(d: nat, shift: nat, q: nat)
    ensures d * Pow2(shift + 1) == 2 * (d * Pow2(shift))
    ensures (q + Pow2(shift)) * d == q * d + d * Pow2(shift)
    ensures shift > 0 ==> (d * Pow2(shift)) / Pow2(1) == d * Pow2(shift - 1)
  {
    hide Pow2;
    Pow2Next(shift);
    Pow2Small();
    TwiceMul(d, Pow2(shift));
    MulDist(q, Pow2(shift), d);
    if shift > 0 {
      Pow2Next(shift - 1);
      TwiceMul(d, Pow2(shift - 1));
    }
  }

  // ----- The two lowest words -----

  lemma TwoWords(s: seq<nat>)
    requires |s| >= 2
    ensures Value(BASE, s[..2]) == s[0] + s[1] * BASE
  {
    hide Value, Pow;
    ValueAll(BASE, s);
    ValueNext(BASE, s, 0);
    ValueNext(BASE, s, 1);
    PowZero(BASE);
    PowNext(BASE, 0);
  }

  lemma LowTwoWords(s: seq<nat>)
    requires |s| >= 2 && InRange(BASE, s)
    ensures Num(s) % (BASE * BASE) == s[0] + s[1] * BASE
  {
    hide Value, Pow;
    TwoWords(s);
    var q := ValueAbove(BASE, s, 2);
    PowZero(BASE);
    PowNext(BASE, 0);
    PowNext(BASE, 1);
    DivModUnique(Num(s), BASE * BASE, q, s[0] + s[1] * BASE);
  }

  lemma HighWordLarge(s: seq<nat>, i: nat)
    requires 2 <= i < |s| && s[i] != 0 && forall j :: i < j < |s| ==> s[j] == 0
    ensures Num(s) >= BASE * BASE
  {
    hide Value, Pow;
    ZeroAbove(s, i + 1);
    ValueNext(BASE, s, i);
    PowAdd(BASE, 2, i - 2);
    PowZero(BASE);
    PowNext(BASE, 0);
    PowNext(BASE, 1);
    MulMono(1, Pow(BASE, i - 2), BASE * BASE);
    MulMono(1, s[i], Pow(BASE, i));
  }
}
