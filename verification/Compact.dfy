/** The compact form of difficulty targets and the work they stand for
    (src/arith_uint256.cpp, src/chain.cpp). */
module Compact {
  import opened Arith
  import opened BitOps
  import opened Digits
  import opened Powers
  import opened Shifts
  import opened Words

  const SIGN_BIT: nat := 0x0080_0000
  const SIZE_UNIT: nat := 0x0100_0000

  // ----- The number a compact form stands for -----

  function SizeOf(nCompact: nat): nat { nCompact / SIZE_UNIT }

  function MantissaOf(nCompact: nat): nat { nCompact % SIGN_BIT }

  /** mantissa * 256^(size - 3), rounded down. */
  ghost function Decoded(nCompact: nat): nat {
    var size, m := SizeOf(nCompact), MantissaOf(nCompact);
    if size <= 3 then m / Pow(256, 3 - size) else m * Pow(256, size - 3)
  }

  /** The fields of a compact form: a byte for the size, a sign bit, and a mantissa of 23 bits. */
  lemma CompactFields(size: nat, negative: bool, mantissa: nat)
    requires mantissa < 0x80_0000
    ensures var n := 0x100_0000 * size + (if negative then 0x80_0000 else 0) + mantissa;
            SizeOf(n) == size && MantissaOf(n) == mantissa && (And(n, SIGN_BIT) != 0 <==> negative)
  {
    hide And, Pow2;
    var low: nat := (if negative then 0x80_0000 else 0) + mantissa;
    FieldPowers();
    AndTests(size, 23, low);
    FieldQuotients(size, negative, mantissa);
  }

  lemma FieldQuotients(size: nat, negative: bool, mantissa: nat)
    requires mantissa < 0x80_0000
    ensures var n := 0x100_0000 * size + (if negative then 0x80_0000 else 0) + mantissa;
            n / 0x100_0000 == size && n % 0x80_0000 == mantissa
  {}

  function RoundDown(v: nat, p: nat): nat
    requires p > 0
  {
    (v / p) * p
  }

  /** The length in bytes. */
  ghost function ByteLength(v: nat): nat {
    if v == 0 then 0 else 1 + ByteLength(v / 256)
  }

  function Times(a: nat, b: nat): nat {
    MulMono(0, a, b);
    a * b
  }

  function Over(a: nat, b: nat): nat
    requires b > 0
  {
    a / b
  }

  /** The three leading bytes. */
  ghost function Leading(v: nat): nat {
    var size := ByteLength(v);
    if size <= 3 then Times(v, Pow(256, 3 - size)) else Over(v, Pow(256, size - 3))
  }

  ghost function Encoded(v: nat): nat {
    var size, w := ByteLength(v), Leading(v);
    if w >= SIGN_BIT then (size + 1) * SIZE_UNIT + w / 256 else size * SIZE_UNIT + w
  }

  lemma {:induction false} ByteLengthBounds(v: nat)
    ensures v < Pow(256, ByteLength(v))
    ensures v > 0 ==> ByteLength(v) > 0 && Pow(256, ByteLength(v) - 1) <= v
  {
    if v > 0 {
      ByteLengthBounds(v / 256);
    }
  }

  lemma {:induction false} ByteLengthUnique(v: nat, n: nat)
    requires n > 0 && Pow(256, n - 1) <= v < Pow(256, n)
    ensures ByteLength(v) == n
    decreases n
  {
    if n > 1 {
      ByteLengthUnique(v / 256, n - 1);
    }
  }

  lemma {:induction false} PowByte(k: nat)
    ensures Pow(256, k) == Pow2(8 * k)
  {
    if k > 0 {
      PowByte(k - 1);
      Pow2Byte();
      Pow2Add(8, 8 * (k - 1));
    }
  }

  lemma BitsToBytes(v: nat, bits: nat)
    requires IsBitLength(v, bits)
    ensures ByteLength(v) == (bits + 7) / 8
  {
    hide Pow, Pow2;
    if bits > 0 {
      var n := (bits + 7) / 8;
      PowByte(n - 1);
      PowByte(n);
      Pow2Mono(8 * (n - 1), bits - 1);
      Pow2Mono(bits, 8 * n);
      ByteLengthUnique(v, n);
    }
  }

  lemma LeadingBelow(v: nat)
    ensures Leading(v) < SIZE_UNIT
    ensures v > 0 ==> Leading(v) >= 0x1_0000
  {
    hide Pow;
    var n := ByteLength(v);
    ByteLengthBounds(v);
    PowThree();
    if n <= 3 {
      PowAdd(256, n, 3 - n);
      MulMono(v + 1, Pow(256, n), Pow(256, 3 - n));
      MulSucc(v, Pow(256, 3 - n));
      if v > 0 {
        PowAdd(256, n - 1, 3 - n);
        MulMono(Pow(256, n - 1), v, Pow(256, 3 - n));
      }
    } else {
      PowAdd(256, 3, n - 3);
      QuotientBelow(v, Pow(256, n - 3), SIZE_UNIT);
      PowAdd(256, 2, n - 3);
      QuotientAbove(v, Pow(256, n - 3), 0x1_0000);
    }
  }

  lemma PowThree()
    ensures Pow(256, 0) == 1 && Pow(256, 1) == 256 && Pow(256, 2) == 0x1_0000 && Pow(256, 3) == SIZE_UNIT
  {
    assert Pow(256, 2) == 256 * Pow(256, 1);
    assert Pow(256, 3) == 256 * Pow(256, 2);
  }

  lemma FieldsOf(size: nat, m: nat)
    requires m < SIGN_BIT
    ensures SizeOf(size * SIZE_UNIT + m) == size && MantissaOf(size * SIZE_UNIT + m) == m
    ensures (size * SIZE_UNIT + m) % SIZE_UNIT == m
  {
    DivModUnique(size * SIZE_UNIT + m, SIZE_UNIT, size, m);
    DivModUnique(size * SIZE_UNIT + m, SIGN_BIT, 2 * size, m);
  }

  /** Encoding keeps the bytes the mantissa has room for. */
  lemma EncodingRounds(v: nat)
    ensures var size := SizeOf(Encoded(v));
            Decoded(Encoded(v)) == if size <= 3 then v else RoundDown(v, Pow(256, size - 3))
  {
    hide Pow;
    var n, w := ByteLength(v), Leading(v);
    LeadingBelow(v);
    PowThree();
    if w < SIGN_BIT {
      FieldsOf(n, w);
      if n <= 3 {
        DivModUnique(w, Pow(256, 3 - n), v, 0);
      }
    } else {
      FieldsOf(n + 1, w / 256);
      if n < 3 {
        PowNext(256, 2 - n);
        DivByProduct(v, Pow(256, 2 - n));
      } else if n > 3 {
        PowNext(256, n - 3);
        DivTwice(v, Pow(256, n - 3));
      }
    }
  }

  lemma DivByProduct(v: nat, p: nat)
    requires p > 0
    ensures ((v * (256 * p)) / 256) / p == v
  {
    MulAssoc(v, 256, p);
    ThreeFactors(v, 256, p);
    DivModUnique(v * (256 * p), 256, v * p, 0);
    DivModUnique(v * p, p, v, 0);
  }

  lemma DivNoMore(m: nat, p: nat)
    requires p > 0
    ensures 0 <= m / p <= m
  {
    MulMono(1, p, m + 1);
    QuotientBelow(m, p, m + 1);
  }

  lemma DivTwice(v: nat, p: nat)
    requires p > 0
    ensures (v / p) / 256 == v / (256 * p)
  {
    var q := v / p;
    var a, b := q / 256, q % 256;
    MulDist(a * 256, b, p);
    MulAssoc(a, 256, p);
    MulMono(b, 255, p);
    DivModUnique(v, 256 * p, a, b * p + v % p);
  }

  /** Decoding what was encoded rounds down by less than the weight of the last mantissa byte. */
  lemma RoundsDown(v: nat)
    ensures var size := SizeOf(Encoded(v));
            Decoded(Encoded(v)) <= v < Decoded(Encoded(v)) + Pow(256, if size <= 3 then 0 else size - 3)
  {
    hide Pow, Encoded, Decoded;
    EncodingRounds(v);
    PowThree();
  }

  lemma EncodedSize(v: nat)
    ensures SizeOf(Encoded(v)) == ByteLength(v) + if Leading(v) >= SIGN_BIT then 1 else 0
    ensures MantissaOf(Encoded(v)) == if Leading(v) >= SIGN_BIT then Leading(v) / 256 else Leading(v)
    ensures Encoded(v) % SIZE_UNIT < SIGN_BIT
  {
    hide Leading, ByteLength, SizeOf, MantissaOf;
    LeadingBelow(v);
    var n, w := ByteLength(v), Leading(v);
    if w >= SIGN_BIT {
      FieldsOf(n + 1, w / 256);
    } else {
      FieldsOf(n, w);
    }
  }

  /** Rounding keeps the length and the leading bytes, so encoding again changes nothing. */
  lemma EncodingIsIdempotent(v: nat)
    ensures Encoded(Decoded(Encoded(v))) == Encoded(v)
  {
    hide Pow, Encoded, Decoded, Leading, ByteLength;
    var size := SizeOf(Encoded(v));
    EncodingRounds(v);
    EncodedSize(v);
    if size > 3 {
      RoundedLeading(v, size);
      SameEncoding(v, RoundDown(v, Pow(256, size - 3)));
    }
  }

  lemma SameEncoding(v: nat, u: nat)
    requires ByteLength(u) == ByteLength(v)
    requires Leading(u) == if Leading(v) >= SIGN_BIT then Leading(v) / 256 * 256 else Leading(v)
    ensures Encoded(u) == Encoded(v)
  {
    hide Leading, ByteLength;
  }

  lemma RoundedLeading(v: nat, size: nat)
    requires size == ByteLength(v) + (if Leading(v) >= SIGN_BIT then 1 else 0) && size > 3
    ensures var u := RoundDown(v, Pow(256, size - 3));
            && ByteLength(u) == ByteLength(v)
            && Leading(u) == if Leading(v) >= SIGN_BIT then Leading(v) / 256 * 256 else Leading(v)
  {
    hide Pow, ByteLength;
    var n, p := ByteLength(v), Pow(256, size - 3);
    PowThree();
    ByteLengthBounds(v);
    RoundedLength(v, size - 3);
    if size == n {
      DivModUnique((v / p) * p, p, v / p, 0);
    } else if n > 3 {
      PowNext(256, n - 3);
      MovedUp(v, Pow(256, n - 3));
    }
  }

  lemma RoundedLength(v: nat, k: nat)
    requires k < ByteLength(v)
    ensures ByteLength(RoundDown(v, Pow(256, k))) == ByteLength(v)
  {
    hide Pow, ByteLength;
    var n, p := ByteLength(v), Pow(256, k);
    ByteLengthBounds(v);
    assert v > 0 by { ZeroLength(v); }
    // the power a number of n bytes reaches is a multiple of p
    PowAdd(256, n - 1 - k, k);
    QuotientAbove(v, p, Pow(256, n - 1 - k));
    MulMono(Pow(256, n - 1 - k), v / p, p);
    ByteLengthUnique(RoundDown(v, p), n);
  }

  lemma ZeroLength(v: nat)
    ensures v == 0 <==> ByteLength(v) == 0
  {
  }

  lemma MovedUp(v: nat, p: nat)
    requires p > 0
    ensures RoundDown(v, 256 * p) / p == (v / p) / 256 * 256
  {
    DivTwice(v, p);
    var q := v / (256 * p);
    MulAssoc(q, 256, p);
    DivModUnique(q * (256 * p), p, q * 256, 0);
  }

  // ----- The operations -----

  const WIDTH := 8

  ghost function Limit(): nat { Pow(BASE, WIDTH) }

  lemma LimitIs()
    ensures Limit() == Pow2(256) == Pow(256, 32)
  {
    PowBase(WIDTH);
    PowByte(32);
  }

  /** The overflow test on mantissa and size. */
  predicate Overflows(nWord: nat, nSize: nat) {
    nWord != 0 && (nSize > 34 || (nWord > 0xff && nSize > 33) || (nWord > 0xffff && nSize > 32))
  }

  lemma ReachesLimit(m: nat, e: nat)
    requires e <= 32
    ensures m * Pow(256, e) >= Pow(256, 32) <==> m >= Pow(256, 32 - e)
  {
    hide Pow;
    PowAdd(256, 32 - e, e);
    if m >= Pow(256, 32 - e) {
      MulMono(Pow(256, 32 - e), m, Pow(256, e));
    } else {
      MulMono(m + 1, Pow(256, 32 - e), Pow(256, e));
      MulSucc(m, Pow(256, e));
    }
  }

  /** It tells exactly whether the number needs more than 256 bits. */
  lemma OverflowExact(m: nat, size: nat)
    requires m < SIGN_BIT && size > 3
    ensures Overflows(m, size) <==> m * Pow(256, size - 3) >= Limit()
  {
    hide Pow, Limit;
    LimitIs();
    PowThree();
    if size <= 35 {
      ReachesLimit(m, size - 3);
      if size < 33 {
        ThreeBytesFit(35 - size);
      }
    } else {
      BeyondLimit(m, size - 35);
    }
  }

  lemma ThreeBytesFit(k: nat)
    requires k >= 3
    ensures Pow(256, k) >= SIZE_UNIT
  {
    hide Pow;
    PowThree();
    PowAdd(256, k - 3, 3);
    MulMono(1, Pow(256, k - 3), SIZE_UNIT);
  }

  lemma BeyondLimit(m: nat, k: nat)
    ensures m * Pow(256, k + 32) >= Pow(256, 32) <==> m > 0
  {
    hide Pow;
    PowAdd(256, k, 32);
    MulMono(1, Pow(256, k), Pow(256, 32));
    if m > 0 {
      MulMono(1, m, Pow(256, k + 32));
    }
  }

  /** SetCompact on a 256-bit number: the flags say when the number is not the one meant. */
  method SetCompact(a: BaseUint, nCompact: nat) returns (fNegative: bool, fOverflow: bool)
    requires a.pn.Length == WIDTH && nCompact < BASE
    modifies a.pn
    ensures a.Valid() && Num(a.pn[..]) == Decoded(nCompact) % Limit()
    ensures fNegative <==> Decoded(nCompact) != 0 && And(nCompact, SIGN_BIT) != 0
    ensures fOverflow <==> Decoded(nCompact) >= Limit()
  {
    hide Pow, Pow2, Value, And, Or, Decoded, HighWord, Overflows, Limit;
    var nSize := SizeOf(nCompact);
    var nWord := MantissaOf(nCompact);
    DecodedParts(nCompact);
    if nSize <= 3 {
      nWord := HighWord(nWord, Pow2(8 * (3 - nSize)));
      a.Assign(nWord);
    } else {
      a.Assign(nWord);
      a.ShiftLeft(8 * (nSize - 3));
    }
    fNegative := nWord != 0 && And(nCompact, SIGN_BIT) != 0;
    fOverflow := Overflows(nWord, nSize);
  }

  /** What SetCompact computes in either branch. */
  lemma DecodedParts(nCompact: nat)
    ensures var size, m := SizeOf(nCompact), MantissaOf(nCompact);
            && m < SIGN_BIT && Limit() == Pow(BASE, WIDTH)
            && (size <= 3 ==>
                  var w := HighWord(m, Pow2(8 * (3 - size)));
                  Decoded(nCompact) == w == w % Limit() < Limit() && w <= m && !Overflows(w, size))
            && (size > 3 ==>
                  && Decoded(nCompact) == m * Pow2(8 * (size - 3)) && (m == 0 <==> Decoded(nCompact) == 0)
                  && (Overflows(m, size) <==> Decoded(nCompact) >= Limit()))
  {
    hide Pow, Pow2;
    var size, m := SizeOf(nCompact), MantissaOf(nCompact);
    if size <= 3 {
      PowByte(3 - size);
      DivNoMore(m, Pow(256, 3 - size));
      SmallFits(m / Pow(256, 3 - size));
    } else {
      PowByte(size - 3);
      OverflowExact(m, size);
      NonZeroProduct(m, Pow(256, size - 3));
    }
  }

  lemma SmallFits(m: nat)
    requires m < SIZE_UNIT
    ensures m < Limit() && m % Limit() == m
  {
    hide Pow;
    LimitIs();
    PowThree();
    PowAdd(256, 29, 3);
    MulMono(1, Pow(256, 29), SIZE_UNIT);
    DivModUnique(m, Limit(), 0, m);
  }

  lemma NonZeroProduct(m: nat, p: nat)
    requires p > 0
    ensures m * p != 0 <==> m != 0
  {
    MulMono(1, p, m);
  }

  lemma FieldPowers()
    ensures Pow2(23) == SIGN_BIT && Pow2(24) == SIZE_UNIT
  {
    hide Pow2;
    Pow2Word();
    Pow2Byte();
    Pow2Add(16, 8);
    Pow2Next(23);
  }

  /** The leading bytes as GetCompact computes them. */
  method LeadingBytes(a: BaseUint, nSize: nat) returns (w: nat)
    requires a.Valid() && a.pn.Length == WIDTH && nSize == ByteLength(Num(a.pn[..]))
    ensures w == Leading(Num(a.pn[..]))
  {
    hide Pow, Pow2, Value, ByteLength, Leading, LowWord;
    ghost var v := Num(a.pn[..]);
    LeadingParts(v);
    if nSize <= 3 {
      var low := a.GetLow64();
      w := LowWord(low, Pow2(8 * (3 - nSize)));
    } else {
      var bn := new BaseUint.Copy(a);
      bn.ShiftRight(8 * (nSize - 3));
      var low := bn.GetLow64();
      w := low % BASE;
    }
  }

  lemma LeadingParts(v: nat)
    ensures var n := ByteLength(v);
            && (n <= 3 ==> v % (BASE * BASE) == v && LowWord(v, Pow2(8 * (3 - n))) == Leading(v))
            && (n > 3 ==> Leading(v) == v / Pow2(8 * (n - 3)) && Leading(v) % (BASE * BASE) % BASE == Leading(v))
  {
    hide Pow, Pow2, ByteLength;
    var n := ByteLength(v);
    LeadingBelow(v);
    if n <= 3 {
      PowByte(3 - n);
      MulMono(1, Pow(256, 3 - n), v);
      DivModUnique(v, BASE * BASE, 0, v);
      DivModUnique(v * Pow(256, 3 - n), BASE, 0, v * Pow(256, 3 - n));
    } else {
      PowByte(n - 3);
      DivModUnique(Leading(v), BASE * BASE, 0, Leading(v));
    }
  }

  /** GetCompact. The assertions on mantissa and size hold. */
  method GetCompact(a: BaseUint, fNegative: bool) returns (nCompact: nat)
    requires a.Valid() && a.pn.Length == WIDTH
    ensures nCompact == Encoded(Num(a.pn[..])) +
              if fNegative && MantissaOf(Encoded(Num(a.pn[..]))) != 0 then SIGN_BIT else 0
    ensures nCompact < BASE
  {
    hide Pow, Pow2, Value, ByteLength, Leading, And, Or;
    ghost var v := Num(a.pn[..]);
    var bits := a.Bits();
    var nSize := (bits + 7) / 8;
    BitsToBytes(v, bits);
    LeadingBelow(v);
    FieldPowers();
    nCompact := LeadingBytes(a, nSize);
    AndBit(nCompact, 23);
    if And(nCompact, SIGN_BIT) != 0 {
      nCompact := nCompact / 256;
      nSize := nSize + 1;
    }
    assert nCompact < SIGN_BIT && nSize < 256;
    OrDisjoint(nSize, 24, nCompact);
    FieldsOf(nSize, nCompact);
    OrInsert(nSize, 23, nCompact);
    nCompact := Or(nCompact, nSize * SIZE_UNIT);
    assert nCompact == Encoded(v);
    if fNegative && MantissaOf(nCompact) != 0 {
      nCompact := Or(nCompact, SIGN_BIT);
    }
  }

  lemma SignFields(c: nat)
    requires c % SIZE_UNIT < SIGN_BIT
    ensures SizeOf(c + SIGN_BIT) == SizeOf(c) && MantissaOf(c + SIGN_BIT) == MantissaOf(c)
    ensures c == SizeOf(c) * SIZE_UNIT + MantissaOf(c)
  {
    var n, m := c / SIZE_UNIT, c % SIZE_UNIT;
    FieldsOf(n, m);
    DivModUnique(c + SIGN_BIT, SIZE_UNIT, n, m + SIGN_BIT);
    DivModUnique(c + SIGN_BIT, SIGN_BIT, 2 * n + 1, m);
  }

  lemma DecodedFields(c: nat, d: nat)
    requires SizeOf(c) == SizeOf(d) && MantissaOf(c) == MantissaOf(d)
    ensures Decoded(c) == Decoded(d)
  {
    hide Pow;
  }

  /** Only zero is rounded down to zero. */
  lemma RoundsToZero(v: nat)
    ensures Decoded(Encoded(v)) == 0 <==> v == 0
    ensures MantissaOf(Encoded(v)) == 0 <==> v == 0
  {
    hide Pow, Encoded, Decoded, Leading, ByteLength;
    var size := SizeOf(Encoded(v));
    EncodingRounds(v);
    EncodedSize(v);
    LeadingBelow(v);
    ZeroLength(v);
    ZeroLeading();
    if size > 3 {
      RoundedLength(v, size - 3);
      ZeroLength(RoundDown(v, Pow(256, size - 3)));
    }
  }

  lemma ZeroLeading()
    ensures Leading(0) == 0
  {
    MulZero(Pow(256, 3));
  }

  lemma MulZero(p: nat)
    ensures 0 * p == 0
  {
  }

  /** What GetCompact writes for a number and a sign SetCompact reads as that sign and the
      rounded number, without overflow; only zero loses its sign. */
  lemma SignedRoundTrip(v: nat, fNegative: bool)
    requires v < Limit()
    ensures var c := Encoded(v) + if fNegative && MantissaOf(Encoded(v)) != 0 then SIGN_BIT else 0;
            && Decoded(c) == Decoded(Encoded(v)) < Limit()
            && (Decoded(c) != 0 && And(c, SIGN_BIT) != 0 <==> fNegative && v != 0)
  {
    hide Pow, Pow2, Encoded, Decoded, Leading, ByteLength, Limit, And;
    var c, s := Encoded(v), if fNegative && MantissaOf(Encoded(v)) != 0 then SIGN_BIT else 0;
    EncodedSize(v);
    RoundsDown(v);
    RoundsToZero(v);
    SignFields(c);
    if s != 0 {
      DecodedFields(c + s, c);
    }
    FieldPowers();
    AndTests(SizeOf(c), 23, MantissaOf(c) + s);
  }

  // ----- Work -----

  /** A target that passed the checks is not the greatest number, so adding one to it does
      not wrap. */
  lemma TargetBelowMax(nCompact: nat)
    requires Decoded(nCompact) < Limit()
    ensures Decoded(nCompact) + 1 < Limit()
  {
    hide Pow, Limit;
    var size, m := SizeOf(nCompact), MantissaOf(nCompact);
    LimitIs();
    PowThree();
    PowAdd(256, 31, 1);
    if size <= 3 {
      DivNoMore(m, Pow(256, 3 - size));
      SmallFits(m / Pow(256, 3 - size) + 1);
    } else {
      PowNext(256, size - 4);
      TwoMultiples(m, Pow(256, size - 4), Pow(256, 31));
    }
  }

  lemma TwoMultiples(m: nat, p: nat, q: nat)
    requires m * (256 * p) < q * 256
    ensures m * (256 * p) + 1 < q * 256
  {
    assert m * (256 * p) == 256 * (m * p) by { ThreeFactors(m, p, 256); MulAssoc(m, 256, p); }
  }

  /** ~t / (t + 1) + 1 is the quotient of the first number that does not fit. */
  lemma ProofFormula(t: nat, limit: nat)
    requires 0 < t && t + 1 < limit
    ensures (limit - 1 - t) / (t + 1) + 1 == limit / (t + 1) < limit
  {
    var d := t + 1;
    var q, r := (limit - d) / d, (limit - d) % d;
    MulSucc(q, d);
    DivModUnique(limit, d, q + 1, r);
    MulMono(2, d, q + 1);
  }

  /** GetBlockProof: the expected number of hashes below the target, 2^256 / (target + 1). */
  method GetBlockProof(nBits: nat) returns (proof: BaseUint)
    requires nBits < BASE
    ensures fresh(proof) && fresh(proof.pn) && proof.Valid() && proof.pn.Length == WIDTH
    ensures var t := Decoded(nBits);
            Num(proof.pn[..]) == if t == 0 || t >= Limit() || And(nBits, SIGN_BIT) != 0 then 0 else Limit() / (t + 1)
  {
    hide Pow, Pow2, Value, And, Decoded;
    var bnTarget := new BaseUint(WIDTH);
    var fNegative, fOverflow := SetCompact(bnTarget, nBits);
    var zero := bnTarget.EqualTo(0);
    if fNegative || fOverflow || zero {
      proof := new BaseUint(WIDTH);
      ZeroTarget(nBits);
      return;
    }
    ghost var t := Decoded(nBits);
    DivModUnique(t, Limit(), 0, t);
    TargetBelowMax(nBits);
    ProofFormula(t, Limit());
    proof := bnTarget.Not();
    var one := new BaseUint(WIDTH);
    one.Assign(1);
    bnTarget.Add(one);
    DivModUnique(t + 1, Limit(), 0, t + 1);
    var ok := proof.Divide(bnTarget);
    ghost var q := Num(proof.pn[..]);
    DivModUnique(q + 1, Limit(), 0, q + 1);
    proof.Add(one);
  }

  lemma ZeroTarget(nBits: nat)
    ensures 0 < Decoded(nBits) < Limit() ==> Decoded(nBits) % Limit() != 0
  {
    hide Decoded, Limit;
    if 0 < Decoded(nBits) < Limit() {
      DivModUnique(Decoded(nBits), Limit(), 0, Decoded(nBits));
    }
  }
}
