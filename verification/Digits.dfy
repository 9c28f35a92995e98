/** Numbers as little-endian sequences of digits. */
module Digits {
  import opened Powers

  ghost predicate InRange(b: nat, s: seq<nat>) {
    forall i :: 0 <= i < |s| ==> s[i] < b
  }

  ghost function Value(b: nat, s: seq<nat>): nat {
    if s == [] then 0 else Value(b, s[..|s| - 1]) + s[|s| - 1] * Pow(b, |s| - 1)
  }

  lemma ValueNext(b: nat, s: seq<nat>, i: nat)
    requires i < |s|
    ensures Value(b, s[..i + 1]) == Value(b, s[..i]) + s[i] * Pow(b, i)
  {
    assert s[..i + 1][..i] == s[..i];
  }

  lemma ValueAll(b: nat, s: seq<nat>)
    ensures Value(b, s[..|s|]) == Value(b, s) && Value(b, s[..0]) == 0
  {
    assert s[..|s|] == s;
  }

  lemma {:induction false} ValueBound(b: nat, s: seq<nat>)
    requires b > 0 && InRange(b, s)
    ensures Value(b, s) < Pow(b, |s|)
  {
    if s != [] {
      var n := |s| - 1;
      ValueBound(b, s[..n]);
      MulMono(s[n], b - 1, Pow(b, n));
      MulSucc(b - 1, Pow(b, n));
    }
  }

  lemma {:induction false} ValueUpdate(b: nat, s: seq<nat>, k: nat, x: nat)
    requires k < |s|
    ensures Value(b, s[k := x]) == Value(b, s) + (x - s[k]) * Pow(b, k)
  {
    hide Pow;
    var n := |s| - 1;
    if k == n {
      assert s[k := x][..n] == s[..n];
      MulSub(x, s[k], Pow(b, k));
    } else {
      assert s[k := x][..n] == s[..n][k := x];
      ValueUpdate(b, s[..n], k, x);
    }
  }

  lemma {:induction false} ValueZero(b: nat, s: seq<nat>)
    requires forall i :: 0 <= i < |s| ==> s[i] == 0
    ensures Value(b, s) == 0
  {
    if s != [] {
      ValueZero(b, s[..|s| - 1]);
    }
  }

  /** What the digits from i upwards contribute is a multiple of the i-th power. */
  lemma {:induction false} ValueAbove(b: nat, s: seq<nat>, i: nat) returns (q: nat)
    requires i <= |s|
    ensures Value(b, s) == Value(b, s[..i]) + q * Pow(b, i)
    decreases |s|
  {
    if i == |s| {
      ValueAll(b, s);
      q := 0;
    } else {
      var n := |s| - 1;
      assert s[..n][..i] == s[..i];
      var r := ValueAbove(b, s[..n], i);
      PowAdd(b, n - i, i);
      MulAssoc(s[n], Pow(b, n - i), Pow(b, i));
      q := r + s[n] * Pow(b, n - i);
      MulDist(r, s[n] * Pow(b, n - i), Pow(b, i));
    }
  }

  /** Digits compare from the top. */
  lemma ValueLess(b: nat, s: seq<nat>, t: seq<nat>, i: nat)
    requires b > 0 && |s| == |t| && InRange(b, s) && InRange(b, t) && i < |s|
    requires s[i] < t[i] && forall j :: i < j < |s| ==> s[j] == t[j]
    ensures Value(b, s) < Value(b, t)
  {
    hide Value, Pow;
    ValueBound(b, s[..i]);
    ValueNext(b, s, i);
    ValueNext(b, t, i);
    MulMono(s[i] + 1, t[i], Pow(b, i));
    MulSucc(s[i], Pow(b, i));
    SameAbove(b, s, t, i + 1);
  }

  lemma {:induction false} SameAbove(b: nat, s: seq<nat>, t: seq<nat>, i: nat)
    requires |s| == |t| && i <= |s| && forall j :: i <= j < |s| ==> s[j] == t[j]
    ensures Value(b, s) - Value(b, s[..i]) == Value(b, t) - Value(b, t[..i])
    decreases |s| - i
  {
    if i == |s| {
      ValueAll(b, s);
      ValueAll(b, t);
    } else {
      ValueNext(b, s, i);
      ValueNext(b, t, i);
      SameAbove(b, s, t, i + 1);
    }
  }
}
