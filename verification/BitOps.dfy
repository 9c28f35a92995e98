/** Bitwise operations on numbers of any size. */
module BitOps {
  import opened Powers

  function And(a: nat, b: nat): (r: nat)
    ensures r <= a && r <= b
    decreases a
  {
    if a == 0 || b == 0 then 0 else 2 * And(a / 2, b / 2) + (if a % 2 == 1 && b % 2 == 1 then 1 else 0)
  }

  lemma {:induction false} AndSelf(a: nat)
    ensures And(a, a) == a
  {
    if a > 0 {
      AndSelf(a / 2);
    }
  }

  function Or(a: nat, b: nat): nat
    decreases a
  {
    if a == 0 then b
    else if b == 0 then a
    else 2 * Or(a / 2, b / 2) + (if a % 2 == 1 || b % 2 == 1 then 1 else 0)
  }

  /** Without a common bit, disjunction is addition. */
  lemma {:induction false} OrDisjoint(m: nat, k: nat, b: nat)
    requires b < Pow2(k)
    ensures Or(m * Pow2(k), b) == Or(b, m * Pow2(k)) == m * Pow2(k) + b
    decreases k
  {
    if k > 0 {
      TwiceMul(m, Pow2(k - 1));
      OrDisjoint(m, k - 1, b / 2);
    }
  }

  /** Masking one bit tells whether it is set. */
  lemma {:induction false} AndTests(m: nat, e: nat, b: nat)
    requires b < Pow2(e + 1)
    ensures And(m * Pow2(e + 1) + b, Pow2(e)) != 0 <==> b >= Pow2(e)
    decreases e
  {
    hide Pow2, And;
    Pow2Next(e);
    Halves(m, Pow2(e), b);
    if e > 0 {
      Pow2Next(e - 1);
      AndTests(m, e - 1, b / 2);
      AndHalves(m * Pow2(e + 1) + b, Pow2(e - 1));
    } else {
      PowOfZero();
      AndOne(m * Pow2(e + 1) + b);
    }
  }

  /** The half of an even multiple and a rest. */
  lemma Halves(m: nat, p: nat, b: nat)
    ensures m * (2 * p) >= 0 && (m * (2 * p) + b) / 2 == m * p + b / 2 && (m * (2 * p) + b) % 2 == b % 2
  {
    TwiceMul(m, p);
    MulMono(0, m, p);
  }

  lemma PowOfZero()
    ensures Pow2(0) == 1
  {
  }

  lemma AndHalves(a: nat, p: nat)
    requires p > 0
    ensures And(a, 2 * p) == 2 * And(a / 2, p)
  {
    hide And;
    AndUnfold(a, 2 * p);
    AndUnfold(a / 2, p);
  }

  lemma AndUnfold(a: nat, b: nat)
    ensures And(a, b) == if a == 0 || b == 0 then 0
                         else 2 * And(a / 2, b / 2) + (if a % 2 == 1 && b % 2 == 1 then 1 else 0)
  {
  }

  lemma OrUnfold(a: nat, b: nat)
    ensures Or(a, b) == if a == 0 then b else if b == 0 then a
                        else 2 * Or(a / 2, b / 2) + (if a % 2 == 1 || b % 2 == 1 then 1 else 0)
  {
  }

  lemma AndOne(a: nat)
    ensures And(a, 1) == a % 2
  {
  }

  lemma OrHalves(a: nat, p: nat)
    requires p > 0
    ensures Or(a, 2 * p) == 2 * Or(a / 2, p) + a % 2
  {
    hide Or;
    OrUnfold(a, 2 * p);
    OrUnfold(a / 2, p);
  }

  lemma OrOne(a: nat)
    requires a % 2 == 0
    ensures Or(a, 1) == a + 1
  {
  }

  /** Setting a clear bit adds it. */
  lemma {:induction false} OrInsert(m: nat, e: nat, b: nat)
    requires b < Pow2(e)
    ensures Or(m * Pow2(e + 1) + b, Pow2(e)) == m * Pow2(e + 1) + b + Pow2(e)
    decreases e
  {
    hide Pow2, Or;
    Pow2Next(e);
    Halves(m, Pow2(e), b);
    if e > 0 {
      Pow2Next(e - 1);
      OrInsert(m, e - 1, b / 2);
      OrHalves(m * Pow2(e + 1) + b, Pow2(e - 1));
    } else {
      PowOfZero();
      OrOne(m * Pow2(e + 1) + b);
    }
  }
}
