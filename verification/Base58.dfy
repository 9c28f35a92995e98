/** Base58 (src/base58.cpp): byte strings as numbers in base 58, with leading zeros kept. */
module Base58 {
  import opened Digits
  import opened Powers
  import opened Wrappers

  // ----- Positional notation -----

  /** The number a sequence of digits stands for, most significant first. */
  ghost function BigEndian(b: nat, s: seq<nat>): nat {
    if s == [] then 0 else BigEndian(b, s[..|s| - 1]) * b + s[|s| - 1]
  }

  /** The digits of v without leading zeros. */
  ghost function Expand(b: nat, v: nat): seq<nat>
    requires b > 1
  {
    if v == 0 then []
    else
      QuotientSmaller(v, b);
      Expand(b, v / b) + [v % b]
  }

  ghost function LeadingZeros(s: seq<nat>): (n: nat)
    ensures n <= |s| && forall i :: 0 <= i < n ==> s[i] == 0
    ensures n < |s| ==> s[n] != 0
  {
    if s != [] && s[0] == 0 then 1 + LeadingZeros(s[1..]) else 0
  }

  ghost function Stripped(s: seq<nat>): seq<nat> { s[LeadingZeros(s)..] }

  ghost function Zeros(n: nat): (r: seq<nat>)
    ensures |r| == n && forall i :: 0 <= i < n ==> r[i] == 0
  {
    seq(n, _ => 0)
  }

  /** From base `from` to base `to`, one zero for each leading zero. */
  ghost function Convert(from: nat, to: nat, s: seq<nat>): seq<nat>
    requires to > 1
  {
    Zeros(LeadingZeros(s)) + Expand(to, BigEndian(from, s))
  }

  lemma LeadingZerosAre(s: seq<nat>, n: nat)
    requires n <= |s| && (forall i :: 0 <= i < n ==> s[i] == 0) && (n < |s| ==> s[n] != 0)
    ensures LeadingZeros(s) == n
  {
  }

  lemma {:induction false} ExpandDigits(b: nat, v: nat)
    requires b > 1
    ensures InRange(b, Expand(b, v)) && BigEndian(b, Expand(b, v)) == v
    ensures v > 0 ==> Expand(b, v) != [] && Expand(b, v)[0] != 0
    decreases v
  {
    if v > 0 {
      QuotientSmaller(v, b);
      ExpandDigits(b, v / b);
      var e := Expand(b, v / b);
      assert (e + [v % b])[..|e|] == e;
    }
  }

  lemma QuotientSmaller(v: nat, b: nat)
    requires v > 0 && b > 1
    ensures 0 <= v / b < v && v == (v / b) * b + v % b && (v / b == 0 ==> v % b == v)
  {
    MulMono(2, b, v);
    QuotientBelow(v, b, v);
  }

  lemma StrippedNext(s: seq<nat>, d: nat)
    ensures Stripped(s + [d]) == if Stripped(s) == [] && d == 0 then [] else Stripped(s) + [d]
  {
    var n := LeadingZeros(s);
    if n < |s| {
      LeadingZerosAre(s + [d], n);
    } else if d != 0 {
      LeadingZerosAre(s + [d], n);
    } else {
      LeadingZerosAre(s + [d], n + 1);
    }
  }

  lemma ExpandNext(b: nat, v: nat, d: nat)
    requires b > 1 && d < b
    ensures Expand(b, v * b + d) == if v == 0 && d == 0 then [] else Expand(b, v) + [d]
    ensures Expand(b, v) == [] <==> v == 0
  {
    DivModUnique(v * b + d, b, v, d);
    if v > 0 {
      MulMono(1, v, b);
    }
  }

  lemma NothingStripped()
    ensures Stripped([]) == []
  {
  }

  /** Digits are determined by the number, up to leading zeros. */
  lemma {:induction false} ExpandOf(b: nat, s: seq<nat>)
    requires b > 1 && InRange(b, s)
    ensures Expand(b, BigEndian(b, s)) == Stripped(s)
  {
    hide Stripped;
    if s == [] {
      assert Stripped([]) == [] by { NothingStripped(); }
    } else {
      var n := |s| - 1;
      var t, d := s[..n], s[n];
      assert s == t + [d];
      ExpandOf(b, t);
      StrippedNext(t, d);
      ExpandNext(b, BigEndian(b, t), d);
    }
  }

  lemma {:induction false} BigEndianFirst(b: nat, s: seq<nat>)
    requires s != []
    ensures BigEndian(b, s) == s[0] * Pow(b, |s| - 1) + BigEndian(b, s[1..])
  {
    var n := |s| - 1;
    if n > 0 {
      var t := s[..n];
      BigEndianFirst(b, t);
      assert t[1..] == s[1..][..n - 1];
      MulDist(s[0] * Pow(b, n - 1), BigEndian(b, t[1..]), b);
      ThreeTimes(s[0], Pow(b, n - 1), b);
    }
  }

  lemma ThreeTimes(x: nat, p: nat, b: nat)
    ensures (x * p) * b == x * (b * p)
  {
    MulAssoc(x, p, b);
  }

  lemma {:induction false} SkipZeros(b: nat, s: seq<nat>, n: nat)
    requires n <= |s| && forall i :: 0 <= i < n ==> s[i] == 0
    ensures BigEndian(b, s) == BigEndian(b, s[n..])
    decreases n
  {
    if n == 0 {
      assert s[0..] == s;
    } else {
      BigEndianFirst(b, s);
      SkipZeros(b, s[1..], n - 1);
      assert s[1..][n - 1..] == s[n..];
    }
  }

  lemma ConvertParts(from: nat, to: nat, s: seq<nat>)
    requires to > 1
    ensures var c := Convert(from, to, s);
            InRange(to, c) && LeadingZeros(c) == LeadingZeros(s) && BigEndian(to, c) == BigEndian(from, s)
  {
    hide Expand, BigEndian, LeadingZeros;
    var v, n := BigEndian(from, s), LeadingZeros(s);
    ExpandDigits(to, v);
    var c := Convert(from, to, s);
    assert c[n..] == Expand(to, v);
    if v == 0 {
      assert Expand(to, v) == [] by { ExpandZero(to); }
    }
    LeadingZerosAre(c, n);
    SkipZeros(to, c, n);
  }

  lemma ExpandZero(b: nat)
    requires b > 1
    ensures Expand(b, 0) == []
  {
  }

  /** Converting there and back restores every digit string. */
  lemma ConvertBack(from: nat, to: nat, s: seq<nat>)
    requires from > 1 && to > 1 && InRange(from, s)
    ensures Convert(to, from, Convert(from, to, s)) == s
  {
    hide Expand, BigEndian, LeadingZeros;
    ConvertParts(from, to, s);
    ExpandOf(from, s);
    var n := LeadingZeros(s);
    assert s == Zeros(n) + s[n..];
  }

  // ----- The buffers are large enough -----

  /** Room for n digits of base `from` in e digits of base `to`. */
  ghost predicate Fits(from: nat, n: nat, to: nat, e: nat) {
    Pow(from, n) <= Pow(to, e)
  }

  lemma FitsAdd(from: nat, n: nat, m: nat, to: nat, e: nat, f: nat)
    requires Fits(from, n, to, e) && Fits(from, m, to, f)
    ensures Fits(from, n + m, to, e + f)
  {
    hide Pow;
    PowAdd(from, n, m);
    PowAdd(to, e, f);
    MulMono(Pow(from, n), Pow(to, e), Pow(from, m));
    MulMono(Pow(from, m), Pow(to, f), Pow(to, e));
  }

  lemma FitsMore(from: nat, n: nat, to: nat, e: nat, f: nat)
    requires to > 0 && e <= f && Fits(from, n, to, e)
    ensures Fits(from, n, to, f)
  {
    hide Pow;
    PowAdd(to, f - e, e);
    MulMono(1, Pow(to, f - e), Pow(to, e));
  }

  lemma Powers58()
    ensures
      && Pow(58, 1) == 58
      && Pow(58, 2) == 3364
      && Pow(58, 3) == 195112
      && Pow(58, 4) == 11316496
      && Pow(58, 5) == 656356768
      && Pow(58, 6) == 38068692544
      && Pow(58, 7) == 2207984167552
  {
    assert Pow(58, 1) == 58 * Pow(58, 0);
    assert Pow(58, 2) == 58 * Pow(58, 1);
    assert Pow(58, 3) == 58 * Pow(58, 2);
    assert Pow(58, 4) == 58 * Pow(58, 3);
    assert Pow(58, 5) == 58 * Pow(58, 4);
    assert Pow(58, 6) == 58 * Pow(58, 5);
    assert Pow(58, 7) == 58 * Pow(58, 6);
  }

  lemma Powers256()
    ensures
      && Pow(256, 1) == 0x100
      && Pow(256, 2) == 0x10000
      && Pow(256, 3) == 0x1000000
      && Pow(256, 4) == 0x100000000
      && Pow(256, 5) == 0x10000000000
      && Pow(256, 6) == 0x1000000000000
  {
    assert Pow(256, 1) == 256 * Pow(256, 0);
    assert Pow(256, 2) == 256 * Pow(256, 1);
    assert Pow(256, 3) == 256 * Pow(256, 2);
    assert Pow(256, 4) == 256 * Pow(256, 3);
    assert Pow(256, 5) == 256 * Pow(256, 4);
    assert Pow(256, 6) == 256 * Pow(256, 5);
  }

  /** Up to 14 characters, one by one. */
  lemma FewCharacters(n: nat)
    requires n < 15
    ensures Fits(58, n, 256, RoughSize(0, n))
  {
    hide Pow;
    Powers58();
    Powers256();
    PowZero(58);
    PowZero(256);
    if n > 7 {
      FewCharacters(n - 4);
      FitsAdd(58, n - 4, 4, 256, DecodeSize(n - 4), 3);
    }
  }

  lemma FifteenFit()
    ensures Fits(58, 15, 256, 11)
  {
    hide Pow;
    Powers58();
    Powers256();
    PowAdd(58, 7, 7);
    PowAdd(58, 14, 1);
    PowAdd(256, 6, 5);
  }

  /** 58^71 is just below 256^52. */
  lemma SeventyOneFit()
    ensures Fits(58, 71, 256, 52)
  {
    hide Pow;
    Powers58();
    Powers256();
    PowAdd(58, 4, 4);
    PowAdd(58, 8, 8);
    PowAdd(58, 16, 16);
    PowAdd(58, 32, 32);
    PowAdd(58, 64, 7);
    PowAdd(256, 4, 4);
    PowAdd(256, 8, 8);
    PowAdd(256, 16, 16);
    PowAdd(256, 32, 16);
    PowAdd(256, 48, 4);
  }

  /** The size DecodeBase58 allocates for n characters. */
  function DecodeSize(n: nat): nat { n * 733 / 1000 + 1 }

  /** 15 characters in 11 bytes is slightly more than that rate. */
  function RoughSize(a: nat, c: nat): nat { 11 * a + if c == 0 then 0 else DecodeSize(c) }

  lemma RoughFits(a: nat, c: nat)
    requires c < 15
    ensures Fits(58, 15 * a + c, 256, RoughSize(a, c))
    decreases a
  {
    hide Fits;
    if a == 0 {
      FewCharacters(c);
    } else {
      RoughFits(a - 1, c);
      FifteenFit();
      FitsAdd(58, 15 * (a - 1) + c, 15, 256, RoughSize(a - 1, c), 11);
    }
  }

  lemma RoughIsLess(a: nat, c: nat)
    requires a < 5 && c < 15
    ensures RoughSize(a, c) <= DecodeSize(15 * a + c)
  {
    if c > 0 {
      var q, r := c * 733 / 1000, c * 733 % 1000;
      Thousandths(c);
      DivModUnique((15 * a + c) * 733, 1000, 11 * a + q, r - 5 * a);
    } else if a > 0 {
      DivModUnique(15 * a * 733, 1000, 11 * a - 1, 1000 - 5 * a);
    }
  }

  lemma Thousandths(c: nat)
    requires 0 < c < 15
    ensures c * 733 % 1000 >= 20
  {
    assert c < 8 || c >= 8;
  }

  lemma DecodeSizeGrows(n: nat)
    ensures DecodeSize(n) + 52 <= DecodeSize(n + 71)
  {
  }

  /** The buffer DecodeBase58 allocates holds any number of n characters. */
  lemma {:induction false} DecodeRoom(n: nat)
    ensures Fits(58, n, 256, DecodeSize(n))
  {
    hide Fits, DecodeSize, RoughSize;
    if n < 71 {
      var a, c := n / 15, n % 15;
      RoughFits(a, c);
      RoughIsLess(a, c);
      FitsMore(58, n, 256, RoughSize(a, c), DecodeSize(n));
    } else {
      DecodeRoom(n - 71);
      SeventyOneFit();
      DecodeSizeGrows(n - 71);
      FitsAdd(58, n - 71, 71, 256, DecodeSize(n - 71), 52);
      FitsMore(58, n, 256, DecodeSize(n - 71) + 52, DecodeSize(n));
    }
  }

  /** The size EncodeBase58 allocates for n bytes. */
  function EncodeSize(n: nat): nat { n * 138 / 100 + 1 }

  lemma FewBytes(n: nat)
    requires n <= 8
    ensures Fits(256, n, 58, if n == 8 then 11 else EncodeSize(n))
  {
    hide Pow;
    Powers58();
    Powers256();
    PowZero(58);
    PowZero(256);
    PowAdd(58, 4, 5);
    PowAdd(58, 5, 5);
    PowAdd(58, 4, 7);
    PowAdd(256, 3, 4);
    PowAdd(256, 4, 4);
  }

  /** The buffer EncodeBase58 allocates holds any number of n bytes. */
  lemma {:induction false} EncodeRoom(n: nat)
    ensures Fits(256, n, 58, EncodeSize(n))
  {
    hide Fits;
    if n < 8 {
      FewBytes(n);
    } else {
      EncodeRoom(n - 8);
      FewBytes(8);
      FitsAdd(256, n - 8, 8, 58, EncodeSize(n - 8), 11);
      FitsMore(256, n, 58, EncodeSize(n - 8) + 11, EncodeSize(n));
    }
  }

  // ----- One step in place -----

  /** Only the last `length` digits of the buffer are in use. */
  ghost predicate InUse(b: nat, s: seq<nat>, length: nat) {
    InRange(b, s) && length <= |s| && forall j :: 0 <= j < |s| - length ==> s[j] == 0
  }

  /** Multiplies the number in the buffer by mult and adds ch, from the last digit up. The
      carry never leaves the buffer. */
  method MulAdd(buf: array<nat>, base: nat, mult: nat, ch: nat, length: nat) returns (i: nat)
    requires base > 1 && ch < mult && InUse(base, buf[..], length)
    requires BigEndian(base, buf[..]) * mult + ch < Pow(base, buf.Length)
    modifies buf
    ensures InUse(base, buf[..], i) && BigEndian(base, buf[..]) == old(BigEndian(base, buf[..])) * mult + ch
  {
    hide BigEndian, Pow;
    ghost var was := buf[..];
    ghost var size := buf.Length;
    var carry := ch;
    i := 0;
    StepsStart(base, mult, ch, was);
    while (carry != 0 || i < length) && i < buf.Length
      invariant 0 <= i <= buf.Length && 0 <= carry < mult
      invariant InRange(base, buf[..]) && buf[..size - i] == was[..size - i]
      invariant Steps(base, mult, ch, was, buf[..], i, carry)
    {
      ghost var before := buf[..];
      var k := buf.Length - 1 - i;
      var t := carry + mult * buf[k];
      CarryBelow(mult, base, buf[k], carry);
      StepsNext(base, mult, ch, was, before, i, carry);
      buf[k] := t % base;
      carry := t / base;
      assert buf[..] == before[k := buf[k]];
      i := i + 1;
    }
    StepsEnd(base, mult, ch, was, buf[..], i, carry, length);
  }

  /** The last i digits have been worked on. */
  ghost predicate Steps(b: nat, mult: nat, ch: nat, was: seq<nat>, s: seq<nat>, i: nat, carry: nat) {
    && i <= |s| == |was|
    && BigEndian(b, s[|s| - i..]) + carry * Pow(b, i) == BigEndian(b, was[|s| - i..]) * mult + ch
  }

  lemma StepsStart(b: nat, mult: nat, ch: nat, was: seq<nat>)
    ensures Steps(b, mult, ch, was, was, 0, ch)
  {
    assert was[|was|..] == [];
  }

  lemma CarryBelow(mult: nat, b: nat, d: nat, carry: nat)
    requires d < b && carry < mult
    ensures 0 <= (carry + mult * d) / b < mult && 0 <= (carry + mult * d) % b < b
  {
    MulMono(d + 1, b, mult);
    MulSucc(d, mult);
    QuotientBelow(carry + mult * d, b, mult);
  }

  lemma StepsNext(b: nat, mult: nat, ch: nat, was: seq<nat>, s: seq<nat>, i: nat, carry: nat)
    requires b > 1 && Steps(b, mult, ch, was, s, i, carry) && i < |s| && s[|s| - 1 - i] == was[|s| - 1 - i]
    ensures var k := |s| - 1 - i;
            var t := carry + mult * s[k];
            t % b >= 0 && t / b >= 0 && Steps(b, mult, ch, was, s[k := t % b], i + 1, t / b)
  {
    hide BigEndian, Pow;
    var k, p := |s| - 1 - i, Pow(b, i);
    var t := carry + mult * s[k];
    var s' := s[k := t % b];
    assert s'[k..][1..] == s[k + 1..];
    assert was[k..][1..] == was[k + 1..];
    BigEndianFirst(b, s'[k..]);
    BigEndianFirst(b, was[k..]);
    PowNext(b, i);
    StepSum(b, mult, t, p, carry, s[k], BigEndian(b, was[k + 1..]));
  }

  lemma StepSum(b: nat, mult: nat, t: nat, p: nat, carry: nat, d: nat, v: nat)
    requires b > 1 && t == carry + mult * d
    ensures (t % b) * p + (t / b) * (b * p) - carry * p == (d * p + v) * mult - v * mult
  {
    var q, r := t / b, t % b;
    MulAssoc(q, b, p);
    MulDist(r, q * b, p);
    assert t == q * b + r;
    MulDist(carry, mult * d, p);
    MulDist(d * p, v, mult);
    ThreeTimes(d, p, mult);
    MulAssoc(d, mult, p);
  }

  lemma SamePrefixZero(s: seq<nat>, was: seq<nat>, n: nat)
    requires n <= |s| && n <= |was| && s[..n] == was[..n] && forall j :: 0 <= j < n ==> was[j] == 0
    ensures forall j :: 0 <= j < n ==> s[j] == 0
  {
    assert forall j :: 0 <= j < n ==> s[j] == s[..n][j];
  }

  lemma StepsEnd(b: nat, mult: nat, ch: nat, was: seq<nat>, s: seq<nat>, i: nat, carry: nat, length: nat)
    requires b > 1 && Steps(b, mult, ch, was, s, i, carry) && InRange(b, s) && InUse(b, was, length)
    requires s[..|s| - i] == was[..|s| - i] && (i == |s| || (carry == 0 && i >= length))
    requires BigEndian(b, was) * mult + ch < Pow(b, |s|)
    ensures BigEndian(b, s) == BigEndian(b, was) * mult + ch && InUse(b, s, i)
  {
    if i == |s| {
      StepsFull(b, mult, ch, was, s, carry);
    } else {
      StepsRest(b, mult, ch, was, s, i, length);
    }
  }

  lemma StepsFull(b: nat, mult: nat, ch: nat, was: seq<nat>, s: seq<nat>, carry: nat)
    requires b > 1 && Steps(b, mult, ch, was, s, |s|, carry) && InRange(b, s)
    requires BigEndian(b, was) * mult + ch < Pow(b, |s|)
    ensures BigEndian(b, s) == BigEndian(b, was) * mult + ch
  {
    hide BigEndian, Pow;
    assert s[0..] == s && was[0..] == was;
    MulMono(1, if carry > 0 then carry else 1, Pow(b, |s|));
  }

  lemma StepsRest(b: nat, mult: nat, ch: nat, was: seq<nat>, s: seq<nat>, i: nat, length: nat)
    requires b > 1 && Steps(b, mult, ch, was, s, i, 0) && InRange(b, s) && InUse(b, was, length)
    requires length <= i < |s| && s[..|s| - i] == was[..|s| - i]
    ensures BigEndian(b, s) == BigEndian(b, was) * mult + ch && InUse(b, s, i)
  {
    hide BigEndian, Pow, Steps;
    StepsZero(b, mult, ch, was, s, i);
    SamePrefixZero(s, was, |s| - i);
    SkipZeros(b, s, |s| - i);
    SkipZeros(b, was, |s| - i);
  }

  lemma StepsZero(b: nat, mult: nat, ch: nat, was: seq<nat>, s: seq<nat>, i: nat)
    requires Steps(b, mult, ch, was, s, i, 0)
    ensures i <= |s| == |was| && BigEndian(b, s[|s| - i..]) == BigEndian(b, was[|s| - i..]) * mult + ch
  {
    hide BigEndian, Pow;
    assert 0 * Pow(b, i) == 0;
  }

  lemma {:induction false} BigEndianBound(b: nat, s: seq<nat>)
    requires b > 0 && InRange(b, s)
    ensures BigEndian(b, s) < Pow(b, |s|)
  {
    if s != [] {
      var n := |s| - 1;
      BigEndianBound(b, s[..n]);
      MulMono(BigEndian(b, s[..n]) + 1, Pow(b, n), b);
      MulSucc(BigEndian(b, s[..n]), b);
    }
  }

  /** A prefix of a digit string with `zeroes` leading zeros fits where the rest of it fits. */
  lemma PrefixFits(from: nat, to: nat, v: seq<nat>, zeroes: nat, p: nat, size: nat)
    requires from > 1 && to > 1 && InRange(from, v) && zeroes <= p < |v|
    requires (forall i :: 0 <= i < zeroes ==> v[i] == 0) && Fits(from, |v| - zeroes, to, size)
    ensures BigEndian(from, v[..p + 1]) == BigEndian(from, v[..p]) * from + v[p] < Pow(to, size)
  {
    hide Pow;
    var t := v[..p + 1];
    assert t[..p] == v[..p];
    SkipZeros(from, t, zeroes);
    BigEndianBound(from, t[zeroes..]);
    PowAdd(from, |v| - p - 1, p + 1 - zeroes);
    MulMono(1, Pow(from, |v| - p - 1), Pow(from, p + 1 - zeroes));
  }

  /** The digits from the first nonzero one in use are those of the number. */
  lemma InUseDigits(b: nat, s: seq<nat>, length: nat, it: nat)
    requires b > 1 && InUse(b, s, length) && |s| - length <= it <= |s|
    requires (forall j :: |s| - length <= j < it ==> s[j] == 0) && (it < |s| ==> s[it] != 0)
    ensures s[it..] == Expand(b, BigEndian(b, s))
  {
    hide Expand, BigEndian;
    LeadingZerosAre(s, it);
    ExpandOf(b, s);
  }

  // ----- Characters -----

  /** The alphabet (src/base58.cpp:20). */
  function Char(d: nat): char
    requires d < 58
  {
    if d < 9 then ('1' as int + d) as char
    else if d < 17 then ('A' as int + (d - 9)) as char
    else if d < 22 then ('J' as int + (d - 17)) as char
    else if d < 33 then ('P' as int + (d - 22)) as char
    else if d < 44 then ('a' as int + (d - 33)) as char
    else ('m' as int + (d - 44)) as char
  }

  /** The position of a character in the alphabet, or -1. */
  function DigitOf(c: char): int {
    if '1' <= c <= '9' then c as int - '1' as int
    else if 'A' <= c <= 'H' then c as int - 'A' as int + 9
    else if 'J' <= c <= 'N' then c as int - 'J' as int + 17
    else if 'P' <= c <= 'Z' then c as int - 'P' as int + 22
    else if 'a' <= c <= 'k' then c as int - 'a' as int + 33
    else if 'm' <= c <= 'z' then c as int - 'm' as int + 44
    else -1
  }

  lemma CharDigit(d: nat)
    requires d < 58
    ensures DigitOf(Char(d)) == d && !IsSpace(Char(d))
  {
  }

  lemma DigitChar(c: char)
    ensures -1 <= DigitOf(c) < 58
    ensures DigitOf(c) >= 0 ==> Char(DigitOf(c)) == c && !IsSpace(c)
    ensures DigitOf(c) == 0 <==> c == '1'
  {
  }

  /** The alphabet is in the order of the characters' codes. */
  lemma AlphabetOrdered(d: nat, e: nat)
    requires d < e < 58
    ensures Char(d) < Char(e)
  {}

  /** The alphabet consists of the digits and letters of ASCII but the four that are easily
      mistaken; with the order, this fixes every value. */
  lemma AlphabetExactly(c: char)
    ensures DigitOf(c) >= 0 <==>
              && ('0' <= c <= '9' || 'A' <= c <= 'Z' || 'a' <= c <= 'z')
              && c != '0' && c != 'I' && c != 'O' && c != 'l'
    ensures DigitOf(c) >= 0 <==> exists d :: 0 <= d < 58 && Char(d) == c
  {
    DigitChar(c);
    if DigitOf(c) < 0 {
      forall d | 0 <= d < 58 ensures Char(d) != c { CharDigit(d); }
    }
  }

  ghost function Chars(s: seq<nat>): (r: string)
    requires InRange(58, s)
    ensures |r| == |s| && forall i :: 0 <= i < |s| ==> r[i] == Char(s[i])
  {
    seq(|s|, i requires 0 <= i < |s| => Char(s[i]))
  }

  ghost predicate AllDigits(s: string) {
    forall i :: 0 <= i < |s| ==> DigitOf(s[i]) >= 0
  }

  ghost function DigitsOf(s: string): (r: seq<nat>)
    requires AllDigits(s)
    ensures |r| == |s| && forall i :: 0 <= i < |s| ==> r[i] == DigitOf(s[i])
    ensures InRange(58, r)
  {
    assert forall i :: 0 <= i < |s| ==> DigitOf(s[i]) < 58;
    seq(|s|, i requires 0 <= i < |s| => DigitOf(s[i]))
  }

  // ----- Encoding -----

  method EncodeBase58(v: seq<nat>) returns (str: string)
    requires InRange(256, v)
    ensures InRange(58, Convert(256, 58, v)) && str == Chars(Convert(256, 58, v))
  {
    hide Expand, BigEndian, Pow, Fits, LeadingZeros, Char, EncodeSize;
    var zeroes := 0;
    while zeroes < |v| && v[zeroes] == 0
      invariant 0 <= zeroes <= |v| && forall i :: 0 <= i < zeroes ==> v[i] == 0
    {
      zeroes := zeroes + 1;
    }
    LeadingZerosAre(v, zeroes);
    var size := EncodeSize(|v| - zeroes);
    EncodeRoom(|v| - zeroes);
    var b58 := new nat[size](_ => 0);
    BufferStart(256, 58, v, zeroes, b58[..]);
    var length: nat, p := 0, zeroes;
    while p < |v|
      invariant zeroes <= p <= |v|
      invariant InUse(58, b58[..], length) && BigEndian(58, b58[..]) == BigEndian(256, v[..p])
    {
      PrefixFits(256, 58, v, zeroes, p, size);
      length := MulAdd(b58, 58, 256, v[p], length);
      p := p + 1;
    }
    assert v[..p] == v;
    var it := SkipBuffer(b58, size - length);
    InUseDigits(58, b58[..], length, it);
    ConvertParts(256, 58, v);
    ghost var digits := Convert(256, 58, v);
    str := Ones(zeroes);
    while it < size
      invariant 0 <= it <= size && |str| == zeroes + (it - (size - (|digits| - zeroes)))
      invariant forall i :: 0 <= i < |str| ==> str[i] == Char(digits[i])
    {
      str := str + [Char(b58[it])];
      it := it + 1;
    }
  }

  method Ones(n: nat) returns (r: string)
    ensures |r| == n && forall i :: 0 <= i < n ==> r[i] == '1' == Char(0)
  {
    r := seq(n, _ => '1');
  }

  method SkipBuffer(buf: array<nat>, start: nat) returns (it: nat)
    requires start <= buf.Length
    ensures start <= it <= buf.Length && forall j :: start <= j < it ==> buf[j] == 0
    ensures it < buf.Length ==> buf[it] != 0
  {
    it := start;
    while it < buf.Length && buf[it] == 0
      invariant start <= it <= buf.Length && forall j :: start <= j < it ==> buf[j] == 0
    {
      it := it + 1;
    }
  }

  lemma BufferStart(from: nat, to: nat, v: seq<nat>, zeroes: nat, s: seq<nat>)
    requires to > 1 && zeroes <= |v| && (forall i :: 0 <= i < zeroes ==> v[i] == 0)
    requires forall i :: 0 <= i < |s| ==> s[i] == 0
    ensures InUse(to, s, 0) && BigEndian(to, s) == BigEndian(from, v[..zeroes]) == 0
  {
    SkipZeros(to, s, |s|);
    SkipZeros(from, v[..zeroes], zeroes);
  }

  // ----- Decoding -----

  ghost function LeadingSpaces(s: string): (n: nat)
    ensures n <= |s| && forall i :: 0 <= i < n ==> IsSpace(s[i])
    ensures n < |s| ==> !IsSpace(s[n])
  {
    if s != [] && IsSpace(s[0]) then 1 + LeadingSpaces(s[1..]) else 0
  }

  /** The length without trailing whitespace. */
  ghost function Unpadded(s: string): (n: nat)
    ensures n <= |s| && forall i :: n <= i < |s| ==> IsSpace(s[i])
    ensures n > 0 ==> !IsSpace(s[n - 1])
  {
    if s != [] && IsSpace(s[|s| - 1]) then Unpadded(s[..|s| - 1]) else |s|
  }

  /** Surrounding whitespace removed. */
  ghost function Trim(s: string): string {
    var i, j := LeadingSpaces(s), Unpadded(s);
    if i < j then s[i..j] else []
  }

  /** A string is accepted if what whitespace surrounds is in the alphabet. */
  ghost function Decoding(s: string): Option<seq<nat>> {
    if AllDigits(Trim(s)) then Some(Convert(58, 256, DigitsOf(Trim(s)))) else None
  }

  lemma TrimIs(s: string, i: nat, j: nat)
    requires i <= j <= |s| && (forall k :: 0 <= k < i ==> IsSpace(s[k])) && (forall k :: j <= k < |s| ==> IsSpace(s[k]))
    requires forall k :: i <= k < j ==> !IsSpace(s[k])
    ensures i < j ==> Trim(s) == s[i..j]
    ensures i == j ==> Trim(s) == []
  {
    hide LeadingSpaces, Unpadded, IsSpace;
    var a, b := LeadingSpaces(s), Unpadded(s);
    if i < j {
      assert !IsSpace(s[i]) && !IsSpace(s[j - 1]);
      assert a == i && b == j;
    } else {
      assert b == 0;
    }
  }

  /** A character that is not at the outer whitespace stays. */
  lemma TrimKeeps(s: string, i: nat, p: nat, k: nat)
    requires i <= k <= p < |s| && (forall h :: 0 <= h < i ==> IsSpace(s[h])) && !IsSpace(s[i]) && !IsSpace(s[p])
    ensures s[k] in Trim(s)
  {
    hide LeadingSpaces, Unpadded, IsSpace;
    assert LeadingSpaces(s) == i && Unpadded(s) > p;
    assert Trim(s)[k - i] == s[k];
  }

  method DecodeBase58(psz: string) returns (r: Option<seq<nat>>)
    ensures r == Decoding(psz)
  {
    hide Expand, BigEndian, Pow, Fits, LeadingZeros, DigitOf, Trim, DecodeSize, Convert;
    var start := 0;
    while start < |psz| && IsSpace(psz[start])
      invariant 0 <= start <= |psz| && forall k :: 0 <= k < start ==> IsSpace(psz[k])
    {
      start := start + 1;
    }
    var zeroes: nat, p := 0, start;
    while p < |psz| && psz[p] == '1'
      invariant start <= p <= |psz| && zeroes == p - start
      invariant forall k :: start <= k < p ==> psz[k] == '1'
    {
      zeroes, p := zeroes + 1, p + 1;
    }
    ghost var first := p;
    OnesAreDigits(psz, start, p);
    var size := DecodeSize(|psz| - p);
    DecodeRoom(|psz| - p);
    var b256 := new nat[size](_ => 0);
    BufferStart(58, 256, DigitsOf(psz[start..p]), zeroes, b256[..]);
    assert DigitsOf(psz[start..p])[..zeroes] == DigitsOf(psz[start..p]);
    var length: nat := 0;
    while p < |psz| && !IsSpace(psz[p])
      invariant first <= p <= |psz| && b256.Length == size
      invariant AllDigits(psz[start..p]) && forall k :: start <= k < p ==> !IsSpace(psz[k])
      invariant InUse(256, b256[..], length) && BigEndian(256, b256[..]) == BigEndian(58, DigitsOf(psz[start..p]))
    {
      DigitChar(psz[p]);
      var d := DigitOf(psz[p]);
      if d < 0 {
        TrimKeeps(psz, start, p, p);
        return None;
      }
      TokenStep(psz, start, first, p, size);
      length := MulAdd(b256, 256, 58, d, length);
      p := p + 1;
    }
    ghost var end := p;
    while p < |psz| && IsSpace(psz[p])
      invariant end <= p <= |psz| && forall k :: end <= k < p ==> IsSpace(psz[k])
    {
      p := p + 1;
    }
    if p != |psz| {
      SpaceInside(psz, start, end, p);
      return None;
    }
    TrimIs(psz, start, end);
    ghost var token := DigitsOf(psz[start..end]);
    TokenZeros(psz, start, first, end);
    var it := SkipBuffer(b256, size - length);
    InUseDigits(256, b256[..], length, it);
    var vch := seq(zeroes, _ => 0) + b256[it..];
    ConvertIs(58, 256, token, vch, zeroes);
    return Some(vch);
  }

  lemma ConvertIs(from: nat, to: nat, s: seq<nat>, r: seq<nat>, zeroes: nat)
    requires to > 1 && zeroes == LeadingZeros(s) <= |r| && r[zeroes..] == Expand(to, BigEndian(from, s))
    requires forall i :: 0 <= i < zeroes ==> r[i] == 0
    ensures r == Convert(from, to, s)
  {
    assert r == r[..zeroes] + r[zeroes..];
    assert r[..zeroes] == Zeros(zeroes);
  }

  lemma OnesAreDigits(s: string, start: nat, p: nat)
    requires start <= p <= |s| && forall k :: start <= k < p ==> s[k] == '1'
    ensures AllDigits(s[start..p]) && forall k :: 0 <= k < p - start ==> DigitsOf(s[start..p])[k] == 0
    ensures forall k :: start <= k < p ==> !IsSpace(s[k])
  {
  }

  /** The next character of the token, and room for it. */
  lemma TokenStep(s: string, start: nat, first: nat, p: nat, size: nat)
    requires start <= first <= p < |s| && AllDigits(s[start..p]) && DigitOf(s[p]) >= 0
    requires (forall k :: start <= k < first ==> s[k] == '1') && Fits(58, |s| - first, 256, size)
    ensures AllDigits(s[start..p + 1]) && 0 <= DigitOf(s[p]) < 58
    ensures BigEndian(58, DigitsOf(s[start..p + 1])) ==
              BigEndian(58, DigitsOf(s[start..p])) * 58 + DigitOf(s[p]) < Pow(256, size)
  {
    hide Pow, BigEndian;
    var t := s[start..p + 1];
    DigitChar(s[p]);
    assert AllDigits(t) by {
      assert forall i :: 0 <= i < p - start ==> t[i] == s[start..p][i];
    }
    var v := DigitsOf(t);
    assert v[..p - start] == DigitsOf(s[start..p]);
    forall k | 0 <= k < first - start ensures v[k] == 0 {
      DigitChar(t[k]);
    }
    PowAdd(58, |s| - p - 1, p + 1 - first);
    MulMono(1, Pow(58, |s| - p - 1), Pow(58, p + 1 - first));
    assert v[..p - start + 1] == v && v[p - start] == DigitOf(s[p]);
    PrefixFits(58, 256, v, first - start, p - start, size);
  }

  lemma TokenZeros(s: string, start: nat, first: nat, end: nat)
    requires start <= first <= end <= |s| && AllDigits(s[start..end])
    requires (forall k :: start <= k < first ==> s[k] == '1') && (first < |s| ==> s[first] != '1')
    ensures LeadingZeros(DigitsOf(s[start..end])) == first - start
  {
    var t := s[start..end];
    forall k | 0 <= k < |t| ensures t[k] == s[start + k] && (DigitOf(t[k]) == 0 <==> t[k] == '1') {
      DigitChar(t[k]);
    }
    LeadingZerosAre(DigitsOf(t), first - start);
  }

  /** Whitespace between two other characters is not accepted. */
  lemma SpaceInside(s: string, start: nat, end: nat, p: nat)
    requires start <= end < p < |s| && (forall k :: 0 <= k < start ==> IsSpace(s[k])) && !IsSpace(s[start])
    requires IsSpace(s[end]) && !IsSpace(s[p])
    ensures !AllDigits(Trim(s))
  {
    TrimKeeps(s, start, p, end);
    DigitChar(s[end]);
  }

  // ----- Round trips -----

  lemma PlainTrim(s: string)
    requires forall i :: 0 <= i < |s| ==> !IsSpace(s[i])
    ensures Trim(s) == s
  {
    TrimIs(s, 0, |s|);
  }

  /** Decoding what was encoded gives the bytes back. */
  lemma DecodeEncoded(v: seq<nat>)
    requires InRange(256, v)
    ensures InRange(58, Convert(256, 58, v)) && Decoding(Chars(Convert(256, 58, v))) == Some(v)
  {
    hide Convert, Char, DigitOf, Trim, IsSpace;
    ConvertParts(256, 58, v);
    var d := Convert(256, 58, v);
    var s := Chars(d);
    forall i | 0 <= i < |s| ensures DigitOf(s[i]) == d[i] && !IsSpace(s[i]) {
      CharDigit(d[i]);
    }
    PlainTrim(s);
    assert DigitsOf(s) == d;
    ConvertBack(256, 58, v);
  }

  /** Encoding what was decoded gives the string back without its surrounding whitespace. */
  lemma EncodeDecoded(s: string)
    requires Decoding(s).Some?
    ensures var v := Decoding(s).value;
            InRange(256, v) && InRange(58, Convert(256, 58, v)) && Chars(Convert(256, 58, v)) == Trim(s)
  {
    hide Convert, Char, DigitOf, Trim;
    var d := DigitsOf(Trim(s));
    ConvertParts(58, 256, d);
    ConvertBack(58, 256, d);
    forall i | 0 <= i < |d| ensures Char(d[i]) == Trim(s)[i] {
      DigitChar(Trim(s)[i]);
    }
  }
}
