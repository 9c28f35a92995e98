/** Unsigned integers of fixed width in 32-bit words (src/arith_uint256.h,
    src/arith_uint256.cpp). Every operator computes its integer meaning modulo the width. */
module Arith {
  import opened BitOps
  import opened Digits
  import opened Powers
  import opened Shifts
  import opened Words

  /** With the quotient known down to bit shift + 1, the rest is below that bit's multiple of
      the divisor. */
  ghost predicate Dividing(n: nat, d: nat, shift: int, rest: nat, quotient: seq<nat>)
    requires shift >= -1
  {
    rest + Num(quotient) * d == n && rest < d * Pow2(shift + 1) && LowClear(quotient, shift + 1)
  }

  class BaseUint {
    const pn: array<nat>

    ghost predicate Valid()
      reads pn
    {
      pn.Length > 0 && InRange(BASE, pn[..])
    }

    /** Objects own their words. */
    ghost predicate Apart(b: BaseUint) {
      (b == this || b.pn != pn) && b.pn.Length == pn.Length
    }

    constructor (width: nat)
      requires width > 0
      ensures Valid() && fresh(pn) && pn.Length == width && Num(pn[..]) == 0
    {
      pn := new nat[width](i => 0);
      new;
      ValueZero(BASE, pn[..]);
    }

    constructor Copy(b: BaseUint)
      requires b.Valid()
      ensures Valid() && fresh(pn) && pn[..] == b.pn[..]
    {
      pn := new nat[b.pn.Length];
      new;
      for i := 0 to b.pn.Length
        invariant forall j :: 0 <= j < i ==> pn[j] == b.pn[j]
      {
        pn[i] := b.pn[i];
      }
      assert pn[..] == b.pn[..];
    }

    /** += */
    method Add(b: BaseUint)
      requires Valid() && b.Valid() && Apart(b)
      modifies pn
      ensures Valid() && Num(pn[..]) == (old(Num(pn[..])) + old(Num(b.pn[..]))) % old(Modulus(pn[..]))
    {
      hide Value, Pow;
      ghost var x, y := pn[..], b.pn[..];
      var carry := 0;
      ValueAll(BASE, x);
      ValueAll(BASE, y);
      ValueAll(BASE, pn[..]);
      for i := 0 to pn.Length
        invariant InRange(BASE, pn[..]) && 0 <= carry <= 1
        invariant forall j :: i <= j < pn.Length ==> pn[j] == x[j] && b.pn[j] == y[j]
        invariant Value(BASE, pn[..i]) + carry * Pow(BASE, i) == Value(BASE, x[..i]) + Value(BASE, y[..i])
      {
        ghost var before := pn[..];
        var n := carry + pn[i] + b.pn[i];
        ValueNext(BASE, x, i);
        ValueNext(BASE, y, i);
        CarryStep(Pow(BASE, i), n, Value(BASE, pn[..i]), carry, Value(BASE, x[..i]) + Value(BASE, y[..i]));
        MulDist(x[i], y[i], Pow(BASE, i));
        pn[i] := n % BASE;
        carry := n / BASE;
        assert pn[..i] == before[..i];
        ValueNext(BASE, pn[..], i);
        PowNext(BASE, i);
      }
      ValueAll(BASE, pn[..]);
      NumBound(pn[..]);
      WrapsMod(Num(pn[..]), Num(x) + Num(y), Modulus(x), carry);
    }

    /** ~ */
    method Not() returns (r: BaseUint)
      requires Valid()
      ensures fresh(r) && fresh(r.pn) && r.Valid() && r.pn.Length == pn.Length
      ensures Num(r.pn[..]) == Modulus(pn[..]) - 1 - Num(pn[..])
    {
      r := new BaseUint(pn.Length);
      for i := 0 to pn.Length
        invariant forall j :: 0 <= j < i ==> r.pn[j] == BASE - 1 - pn[j]
      {
        r.pn[i] := BASE - 1 - pn[i];
      }
      ComplementNum(pn[..], r.pn[..]);
    }

    /** ++: the loop carries past words that wrap to zero. */
    method Increment()
      requires Valid()
      modifies pn
      ensures Valid() && Num(pn[..]) == (old(Num(pn[..])) + 1) % Modulus(old(pn[..]))
    {
      hide Value, Pow;
      ghost var x := pn[..];
      NumBound(x);
      PowZero(BASE);
      var i := 0;
      while i < pn.Length
        invariant i <= pn.Length && InRange(BASE, pn[..])
        invariant Num(pn[..]) + Pow(BASE, i) == Num(x) + 1
      {
        ghost var before := pn[..];
        var w := pn[i];
        pn[i] := (w + 1) % BASE;
        assert pn[..] == before[i := pn[i]];
        ValueUpdate(BASE, before, i, pn[i]);
        if pn[i] != 0 {
          NumBound(pn[..]);
          WrapsMod(Num(pn[..]), Num(x) + 1, Modulus(x), 0);
          return;
        }
        assert w == BASE - 1;
        PowNext(BASE, i);
        i := i + 1;
      }
      NumBound(pn[..]);
      WrapsMod(Num(pn[..]), Num(x) + 1, Modulus(x), 1);
    }

    /** Unary minus. */
    method Negate() returns (r: BaseUint)
      requires Valid()
      ensures fresh(r) && fresh(r.pn) && r.Valid() && r.pn.Length == pn.Length
      ensures Num(r.pn[..]) == (Modulus(pn[..]) - Num(pn[..])) % Modulus(pn[..])
    {
      hide Value, Pow;
      r := Not();
      NegateMod(Num(pn[..]), Num(r.pn[..]), Modulus(pn[..]));
      r.Increment();
    }

    /** -= */
    method Subtract(b: BaseUint)
      requires Valid() && b.Valid() && Apart(b)
      modifies pn
      ensures Valid() && Num(pn[..]) == (old(Num(pn[..])) - old(Num(b.pn[..]))) % old(Modulus(pn[..]))
      ensures old(Num(pn[..])) >= old(Num(b.pn[..])) ==> Num(pn[..]) == old(Num(pn[..])) - old(Num(b.pn[..]))
    {
      hide Value, Pow;
      NumBound(pn[..]);
      NumBound(b.pn[..]);
      SubtractMod(Num(pn[..]), Num(b.pn[..]), Modulus(pn[..]));
      var minus := b.Negate();
      Add(minus);
    }

    /** *= by a 32-bit factor. */
    method MultiplyWord(b32: nat)
      requires Valid() && b32 < BASE
      modifies pn
      ensures Valid() && Num(pn[..]) == (old(Num(pn[..])) * b32) % old(Modulus(pn[..]))
    {
      hide Value, Pow;
      ghost var x := pn[..];
      var carry := 0;
      ValueAll(BASE, x);
      for i := 0 to pn.Length
        invariant InRange(BASE, pn[..]) && 0 <= carry < BASE
        invariant forall j :: i <= j < pn.Length ==> pn[j] == x[j]
        invariant Value(BASE, pn[..i]) + carry * Pow(BASE, i) == Value(BASE, x[..i]) * b32
      {
        ghost var before := pn[..];
        var n := carry + b32 * pn[i];
        WordProduct(b32, pn[i], carry, n);
        ValueNext(BASE, x, i);
        CarryStep(Pow(BASE, i), n, Value(BASE, pn[..i]), carry, Value(BASE, x[..i]) * b32);
        MulDist(Value(BASE, x[..i]), x[i] * Pow(BASE, i), b32);
        ThreeFactors(x[i], Pow(BASE, i), b32);
        pn[i] := n % BASE;
        carry := n / BASE;
        assert pn[..i] == before[..i];
        ValueNext(BASE, pn[..], i);
        PowNext(BASE, i);
      }
      ValueAll(BASE, pn[..]);
      NumBound(pn[..]);
      WrapsMod(Num(pn[..]), Num(x) * b32, Modulus(x), carry);
    }

    /** One row of the product: adds aj * b, moved up by j words, dropping what overflows. */
    method MultiplyRow(aj: nat, j: nat, b: BaseUint) returns (ghost q: nat)
      requires Valid() && b.Valid() && Apart(b) && aj < BASE && j < pn.Length
      modifies pn
      ensures Valid()
      ensures b == this && old(AllZero(pn[..])) ==> pn[..] == old(pn[..])
      ensures b != this ==> Num(pn[..]) + q * Modulus(pn[..]) == old(Num(pn[..])) + (aj * Num(b.pn[..])) * Pow(BASE, j)
    {
      hide Value, Pow, RowSoFar;
      ghost var was, y := pn[..], b.pn[..];
      RowStart(aj, y, j, was);
      q := 0;
      var carry := 0;
      var i := 0;
      while i + j < pn.Length
        invariant 0 <= i <= pn.Length - j && 0 <= carry < BASE && InRange(BASE, pn[..])
        invariant b == this && AllZero(was) ==> pn[..] == was && carry == 0
        invariant b != this ==> b.pn[..] == y && RowSoFar(aj, y, i, j, pn[..], carry, Num(was))
      {
        ghost var before := pn[..];
        var n := carry + pn[i + j] + aj * b.pn[i];
        WordProduct(aj, b.pn[i], carry + pn[i + j], n);
        if b != this {
          RowStep(aj, y, i, j, before, carry, n, Num(was));
        }
        pn[i + j] := n % BASE;
        carry := n / BASE;
        assert pn[..] == before[i + j := pn[i + j]];
        i := i + 1;
      }
      if b != this {
        q := RowEnd(aj, y, i, j, pn[..], carry, Num(was));
      }
    }

    /** *= by a number. An object multiplied by itself becomes zero: its words are cleared
        before they are read as the other factor. */
    method Multiply(b: BaseUint)
      requires Valid() && b.Valid() && Apart(b)
      modifies pn
      ensures Valid()
      ensures b != this ==> Num(pn[..]) == (old(Num(pn[..])) * old(Num(b.pn[..]))) % old(Modulus(pn[..]))
      ensures b == this ==> Num(pn[..]) == 0
    {
      hide Value, Pow;
      ghost var x, y := pn[..], b.pn[..];
      var a := new BaseUint.Copy(this);
      Clear();
      ValueAll(BASE, x);
      ValueZero(BASE, pn[..]);
      ghost var q := 0;
      for j := 0 to pn.Length
        invariant InRange(BASE, pn[..]) && a.pn[..] == x
        invariant b == this ==> AllZero(pn[..])
        invariant b != this ==> b.pn[..] == y && Num(pn[..]) + q * Modulus(x) == Value(BASE, x[..j]) * Num(y)
      {
        ghost var r := MultiplyRow(a.pn[j], j, b);
        ValueNext(BASE, x, j);
        RowSum(Value(BASE, x[..j]), x[j], Pow(BASE, j), Num(y));
        MulDist(q, r, Modulus(x));
        q := q + r;
      }
      if b == this {
        ValueZero(BASE, pn[..]);
      } else {
        NumBound(pn[..]);
        WrapsMod(Num(pn[..]), Num(x) * Num(y), Modulus(x), q);
      }
    }

    /** Assignment of a 64-bit number. */
    method Assign(b: nat)
      requires pn.Length >= 2 && b < BASE * BASE
      modifies pn
      ensures Valid() && Num(pn[..]) == b
    {
      hide Value, Pow;
      pn[0] := b % BASE;
      pn[1] := b / BASE;
      for i := 2 to pn.Length
        invariant pn[0] == b % BASE && pn[1] == b / BASE
        invariant forall j :: 2 <= j < i ==> pn[j] == 0
      {
        pn[i] := 0;
      }
      TwoWords(pn[..]);
      ZeroAbove(pn[..], 2);
    }

    method GetLow64() returns (r: nat)
      requires Valid() && pn.Length >= 2
      ensures r == Num(pn[..]) % (BASE * BASE)
    {
      hide Value, Pow, Or, Pow2;
      Pow2Word();
      OrDisjoint(pn[1], 32, pn[0]);
      LowTwoWords(pn[..]);
      r := Or(pn[0], pn[1] * BASE);
    }

    method EqualTo(b: nat) returns (r: bool)
      requires Valid() && pn.Length >= 2 && b < BASE * BASE
      ensures r <==> Num(pn[..]) == b
    {
      hide Value, Pow;
      TwoWords(pn[..]);
      var i := pn.Length - 1;
      while i >= 2
        invariant 1 <= i < pn.Length
        invariant forall j :: i < j < pn.Length ==> pn[j] == 0
      {
        if pn[i] != 0 {
          HighWordLarge(pn[..], i);
          return false;
        }
        i := i - 1;
      }
      ZeroAbove(pn[..], 2);
      return pn[1] == b / BASE && pn[0] == b % BASE;
    }

    /** Both parts of a word that is shifted to the left by less than a word. */
    method DepositLeft(n: nat, s: nat, w: nat)
      requires s < 32 && w < BASE
      modifies pn
      ensures pn[..] == LeftShifted(old(pn[..]), n, s, w)
    {
      hide Pow2, Or, LowWord, HighWord;
      ghost var before := pn[..];
      if n + 1 < pn.Length && s != 0 {
        pn[n + 1] := Or(pn[n + 1], HighWord(w, Pow2(32 - s)));
      }
      assert pn[..] == Deposit(before, n + 1, HighWord(w, Pow2(32 - s))) by {
        if s == 0 {
          NothingOver(before, n + 1, w);
        }
      }
      if n < pn.Length {
        pn[n] := Or(pn[n], LowWord(w, Pow2(s)));
      }
    }

    /** <<= */
    method ShiftLeft(shift: nat)
      requires Valid()
      modifies pn
      ensures Valid() && Num(pn[..]) == (old(Num(pn[..])) * Pow2(shift)) % old(Modulus(pn[..]))
    {
      hide Value, Pow, Pow2, Or, LeftSoFar, LowWord, HighWord;
      ghost var x := pn[..];
      var a := new BaseUint.Copy(this);
      Clear();
      var k, s := shift / 32, shift % 32;
      LeftStart(x, k, s, pn[..]);
      ghost var q := 0;
      for i := 0 to pn.Length
        invariant a.pn[..] == x && LeftSoFar(x, i, k, s, pn[..], q)
      {
        ghost var before := pn[..];
        DepositLeft(i + k, s, a.pn[i]);
        q := LeftStep(x, i, k, s, before, q);
      }
      LeftEnd(x, k, s, pn[..], q);
      LeftInRange(x, k, s, pn[..], q);
    }

    /** >>= */
    method ShiftRight(shift: nat)
      requires Valid()
      modifies pn
      ensures Valid() && Num(pn[..]) == old(Num(pn[..])) / Pow2(shift)
    {
      hide Value, Pow, Pow2, Or, RightSoFar, LowWord, HighWord;
      ghost var x := pn[..];
      var a := new BaseUint.Copy(this);
      Clear();
      var k, s := shift / 32, shift % 32;
      RightStart(x, k, s, pn[..]);
      ghost var rem := 0;
      for i := 0 to pn.Length
        invariant a.pn[..] == x && RightSoFar(x, i, k, s, pn[..], rem)
      {
        ghost var before := pn[..];
        if i - k - 1 >= 0 && s != 0 {
          pn[i - k - 1] := Or(pn[i - k - 1], LowWord(a.pn[i], Pow2(32 - s)));
        }
        if i - k >= 0 {
          pn[i - k] := Or(pn[i - k], HighWord(a.pn[i], Pow2(s)));
        }
        assert pn[..] == RightShifted(before, i, k, s, x[i]);
        rem := RightStep(x, i, k, s, before, rem);
      }
      RightEnd(x, k, s, pn[..], rem);
      RightInRange(x, k, s, pn[..], rem);
    }

    method Clear()
      modifies pn
      ensures AllZero(pn[..])
    {
      for i := 0 to pn.Length
        invariant forall j :: 0 <= j < i ==> pn[j] == 0
      {
        pn[i] := 0;
      }
    }

    /** One bit of the quotient. */
    method DivideBit(num: BaseUint, div: BaseUint, shift: nat, ghost n: nat, ghost d: nat)
      requires Valid() && num.Valid() && div.Valid() && shift < 32 * pn.Length
      requires pn.Length == num.pn.Length == div.pn.Length && pn != num.pn && pn != div.pn && num.pn != div.pn
      requires Dividing(n, d, shift, Num(num.pn[..]), pn[..]) && Num(div.pn[..]) == d * Pow2(shift)
      modifies pn, num.pn, div.pn
      ensures Valid() && num.Valid() && div.Valid()
      ensures Dividing(n, d, shift - 1, Num(num.pn[..]), pn[..])
      ensures shift > 0 ==> Num(div.pn[..]) == d * Pow2(shift - 1)
    {
      hide Value, Pow, Pow2, Or, LowClear;
      var cmp := num.CompareTo(div);
      DivideStep(d, shift, Num(pn[..]));
      LowClearLess(pn[..], shift);
      if cmp >= 0 {
        num.Subtract(div);
        SetBit(pn[..], shift);
        ghost var before := pn[..];
        pn[shift / 32] := Or(pn[shift / 32], Pow2(shift % 32));
        assert pn[..] == before[shift / 32 := Or(before[shift / 32], Pow2(shift % 32))];
      }
      div.ShiftRight(1);
    }

    /** /=: long division, one bit at a time. Division by zero throws, after the dividend has
        been cleared. */
    method Divide(b: BaseUint) returns (ok: bool)
      requires Valid() && b.Valid() && Apart(b)
      modifies pn
      ensures Valid() && (ok <==> old(Num(b.pn[..])) != 0)
      ensures ok ==> Num(pn[..]) == old(Num(pn[..])) / old(Num(b.pn[..]))
      ensures !ok ==> Num(pn[..]) == 0
    {
      hide Value, Pow, Pow2, IsBitLength, LowClear;
      ghost var n, d := Num(pn[..]), Num(b.pn[..]);
      var div := new BaseUint.Copy(b);
      var num := new BaseUint.Copy(this);
      Clear();
      ValueZero(BASE, pn[..]);
      var num_bits := num.Bits();
      var div_bits := div.Bits();
      BitLengths(n, num_bits, d, div_bits);
      if div_bits == 0 {
        return false;
      }
      if div_bits > num_bits {
        DivModUnique(n, d, 0, n);
        return true;
      }
      var shift := num_bits - div_bits;
      Aligned(n, num_bits, d, div_bits, pn.Length);
      div.ShiftLeft(shift);
      DivModUnique(d * Pow2(shift), Modulus(pn[..]), 0, d * Pow2(shift));
      NothingSet(pn[..], shift + 1);
      while shift >= 0
        invariant -1 <= shift < 32 * pn.Length
        invariant Valid() && num.Valid() && div.Valid()
        invariant Dividing(n, d, shift, Num(num.pn[..]), pn[..])
        invariant shift >= 0 ==> Num(div.pn[..]) == d * Pow2(shift)
      {
        DivideBit(num, div, shift, n, d);
        shift := shift - 1;
      }
      Pow2Small();
      DivModUnique(n, d, Num(pn[..]), Num(num.pn[..]));
      return true;
    }

    /** The position of the highest set bit plus one, or zero for zero. */
    method Bits() returns (n: nat)
      requires Valid()
      ensures n <= 32 * pn.Length && IsBitLength(Num(pn[..]), n)
    {
      hide Value, Pow, Pow2, And, IsBitLength;
      var pos := pn.Length - 1;
      while pos >= 0
        invariant -1 <= pos < pn.Length
        invariant forall j :: pos < j < pn.Length ==> pn[j] == 0
      {
        if pn[pos] != 0 {
          Pow2Word();
          var nbits := 31;
          while nbits > 0
            invariant 0 <= nbits <= 31 && pn[pos] < Pow2(nbits + 1)
          {
            AndBit(pn[pos], nbits);
            if And(pn[pos], Pow2(nbits)) != 0 {
              TopWord(pn[..], pos, nbits);
              return 32 * pos + nbits + 1;
            }
            nbits := nbits - 1;
          }
          Pow2Small();
          TopWord(pn[..], pos, 0);
          return 32 * pos + 1;
        }
        pos := pos - 1;
      }
      ValueZero(BASE, pn[..]);
      NoBits();
      return 0;
    }

    /** Compares from the most significant word. */
    method CompareTo(b: BaseUint) returns (r: int)
      requires Valid() && b.Valid() && b.pn.Length == pn.Length
      ensures r == if Num(pn[..]) < Num(b.pn[..]) then -1 else if Num(pn[..]) > Num(b.pn[..]) then 1 else 0
    {
      hide Value;
      var i := pn.Length;
      while i > 0
        invariant 0 <= i <= pn.Length
        invariant forall j :: i <= j < pn.Length ==> pn[j] == b.pn[j]
      {
        i := i - 1;
        if pn[i] < b.pn[i] {
          ValueLess(BASE, pn[..], b.pn[..], i);
          return -1;
        }
        if pn[i] > b.pn[i] {
          ValueLess(BASE, b.pn[..], pn[..], i);
          return 1;
        }
      }
      assert pn[..] == b.pn[..];
      return 0;
    }
  }
}
