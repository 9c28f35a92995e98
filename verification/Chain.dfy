/** The block tree, its skip pointers, and the active chain (src/chain.h, src/chain.cpp). */
module Chain {
  import opened BitOps
  import opened Powers
  import opened SkipHeights

  // ----- The tree -----

  class BlockIndex {
    var pprev: BlockIndex?
    var pskip: BlockIndex?
    var nHeight: int

    constructor (pprev: BlockIndex?)
      ensures this.pprev == pprev && pskip == null
      ensures nHeight == if pprev == null then 0 else pprev.nHeight + 1
    {
      this.pprev, pskip := pprev, null;
      nHeight := if pprev == null then 0 else pprev.nHeight + 1;
    }

    /** Where every skip pointer is built, the walk takes the steps of the walk on heights. */
    method GetAncestor(ghost S: set<BlockIndex>, height: int) returns (r: BlockIndex?, ghost steps: nat)
      requires Tree(S) && this in S
      ensures r == null <==> height > nHeight || height < 0
      ensures r != null ==> r == Ancestor(S, this, height)
      ensures r != null && SkipsBuilt(S) ==> steps == Steps(nHeight, height)
    {
      hide Up, Linked, And, Steps;
      steps := 0;
      if height > nHeight || height < 0 {
        return null, 0;
      }
      var pindexWalk: BlockIndex, heightWalk := this, nHeight;
      while heightWalk > height
        invariant pindexWalk in S && pindexWalk.nHeight == heightWalk >= height
        invariant Ancestor(S, pindexWalk, height) == Ancestor(S, this, height)
        invariant SkipsBuilt(S) ==> steps + Steps(heightWalk, height) == Steps(nHeight, height)
        decreases heightWalk
      {
        AncestorSteps(S, pindexWalk);
        StepTo(heightWalk, height, NextHeight(heightWalk, height));
        steps := steps + 1;
        var heightSkip := GetSkipHeight(heightWalk);
        var heightSkipPrev := GetSkipHeight(heightWalk - 1);
        if pindexWalk.pskip != null &&
           (heightSkip == height ||
             (heightSkip > height && !(heightSkipPrev < heightSkip - 2 && heightSkipPrev >= height))) {
          assert SkipAt(S, pindexWalk);
          AncestorOfAncestor(S, pindexWalk, heightSkip, height);
          pindexWalk, heightWalk := pindexWalk.pskip, heightSkip;
        } else {
          pindexWalk, heightWalk := pindexWalk.pprev, heightWalk - 1;
        }
      }
      AncestorSteps(S, pindexWalk);
      NoSteps(heightWalk);
      return pindexWalk, steps;
    }

    method BuildSkip(ghost S: set<BlockIndex>)
      requires Tree(S) && this in S
      modifies this`pskip
      ensures Tree(S)
      ensures pprev == null ==> pskip == old(pskip)
      ensures pprev != null ==> pskip != null && SkipAt(S, this)
    {
      hide Up, And;
      AncestorSteps(S, this);
      if pprev != null {
        ghost var steps;
        pskip, steps := pprev.GetAncestor(S, GetSkipHeight(nHeight));
        forall b | b in S ensures SkipAt(S, b) {
          assert old(SkipAt(S, b));
        }
      }
    }
  }

  /** Heights count the steps to the root. */
  ghost predicate LinkedAt(S: set<BlockIndex>, b: BlockIndex)
    requires b in S
    reads S`pprev, S`nHeight
  {
    && b.nHeight >= 0
    && (b.pprev == null <==> b.nHeight == 0)
    && (b.pprev != null ==> b.pprev in S && b.pprev.nHeight == b.nHeight - 1)
  }

  ghost predicate Linked(S: set<BlockIndex>)
    reads S`pprev, S`nHeight
  {
    forall b {:trigger LinkedAt(S, b)} :: b in S ==> LinkedAt(S, b)
  }

  /** The block n steps of pprev below b. */
  ghost function Up(S: set<BlockIndex>, b: BlockIndex, n: nat): (r: BlockIndex)
    requires Linked(S) && b in S && n <= b.nHeight
    reads S`pprev, S`nHeight
    ensures r in S && r.nHeight == b.nHeight - n
    decreases n
  {
    assert LinkedAt(S, b);
    if n == 0 then b else Up(S, b.pprev, n - 1)
  }

  ghost function Ancestor(S: set<BlockIndex>, b: BlockIndex, height: int): (r: BlockIndex)
    requires Linked(S) && b in S && 0 <= height <= b.nHeight
    reads S`pprev, S`nHeight
    ensures r in S && r.nHeight == height
  {
    Up(S, b, b.nHeight - height)
  }

  /** A skip pointer that is set leads to the ancestor at the skip height. */
  ghost predicate SkipAt(S: set<BlockIndex>, b: BlockIndex)
    requires Linked(S) && b in S
    reads S
  {
    b.nHeight >= 0 && (b.pskip != null ==> b.pskip == Ancestor(S, b, GetSkipHeight(b.nHeight)))
  }

  /** Every block but a root has its skip pointer. */
  ghost predicate SkipsBuilt(S: set<BlockIndex>)
    reads S`pprev, S`pskip
  {
    forall b :: b in S && b.pprev != null ==> b.pskip != null
  }

  ghost predicate Tree(S: set<BlockIndex>)
    reads S
  {
    Linked(S) && forall b {:trigger SkipAt(S, b)} :: b in S ==> SkipAt(S, b)
  }

  lemma {:induction false} UpTwice(S: set<BlockIndex>, b: BlockIndex, m: nat, n: nat)
    requires Linked(S) && b in S && m + n <= b.nHeight
    ensures Up(S, Up(S, b, m), n) == Up(S, b, m + n)
    decreases m
  {
    assert LinkedAt(S, b);
    if m > 0 {
      UpTwice(S, b.pprev, m - 1, n);
    }
  }

  lemma AncestorOfAncestor(S: set<BlockIndex>, b: BlockIndex, high: int, low: int)
    requires Linked(S) && b in S && 0 <= low <= high <= b.nHeight
    ensures Ancestor(S, Ancestor(S, b, high), low) == Ancestor(S, b, low)
  {
    hide Up;
    UpTwice(S, b, b.nHeight - high, high - low);
  }

  lemma AncestorSteps(S: set<BlockIndex>, b: BlockIndex)
    requires Linked(S) && b in S
    ensures b.nHeight >= 0 && Ancestor(S, b, b.nHeight) == b
    ensures b.pprev == null <==> b.nHeight == 0
    ensures b.pprev != null ==>
              b.pprev in S && b.pprev.nHeight == b.nHeight - 1 && Ancestor(S, b, b.nHeight - 1) == b.pprev
    ensures forall h :: b.pprev != null && 0 <= h <= b.nHeight - 1 ==> Ancestor(S, b.pprev, h) == Ancestor(S, b, h)
  {
    assert LinkedAt(S, b);
    assert b.pprev != null ==> Up(S, b, 1) == Up(S, b.pprev, 0);
  }

  lemma AncestorPrev(S: set<BlockIndex>, b: BlockIndex, h: int)
    requires Linked(S) && b in S && 0 <= h <= b.nHeight
    ensures h == 0 ==> Ancestor(S, b, h).pprev == null
    ensures h > 0 ==> Ancestor(S, b, h).pprev == Ancestor(S, b, h - 1)
  {
    hide Up;
    AncestorSteps(S, Ancestor(S, b, h));
    if h > 0 {
      AncestorOfAncestor(S, b, h, h - 1);
    }
  }

  /** A larger tree keeps the ancestors of the smaller one. */
  lemma {:induction false} UpGrows(S: set<BlockIndex>, T: set<BlockIndex>, b: BlockIndex, n: nat)
    requires Linked(S) && Linked(T) && S <= T && b in S && n <= b.nHeight
    ensures Up(S, b, n) == Up(T, b, n)
    decreases n
  {
    assert LinkedAt(S, b);
    if n > 0 {
      UpGrows(S, T, b.pprev, n - 1);
    }
  }

  /** Adding a block as AddToBlockIndex does, below a block of the tree or as a root. */
  method AddBlock(ghost S: set<BlockIndex>, pprev: BlockIndex?) returns (b: BlockIndex)
    requires Tree(S) && (pprev != null ==> pprev in S)
    ensures fresh(b) && Tree(S + {b}) && b.pprev == pprev
    ensures pprev != null ==> b.pskip != null
    ensures old(SkipsBuilt(S)) ==> SkipsBuilt(S + {b})
  {
    hide Up, And, Tree;
    b := NewBlock(S, pprev);
    ghost var T := S + {b};
    b.BuildSkip(T);
    forall c | old(SkipsBuilt(S)) && c in T && c.pprev != null ensures c.pskip != null {
      assert c == b || c in S;
    }
  }

  method NewBlock(ghost S: set<BlockIndex>, pprev: BlockIndex?) returns (b: BlockIndex)
    requires Tree(S) && (pprev != null ==> pprev in S)
    ensures fresh(b) && Tree(S + {b}) && b.pprev == pprev
  {
    hide Up, And;
    b := new BlockIndex(pprev);
    ghost var T := S + {b};
    forall c | c in T ensures LinkedAt(T, c) {
      if c in S {
        assert LinkedAt(S, c);
      } else if pprev != null {
        assert LinkedAt(S, pprev);
      }
    }
    forall c | c in T ensures SkipAt(T, c) {
      assert LinkedAt(T, c);
      if c in S {
        assert old(SkipAt(S, c));
        UpGrows(S, T, c, c.nHeight - GetSkipHeight(c.nHeight));
      }
    }
  }

  // ----- The active chain -----

  /** Entry i is a block of height i whose predecessor is entry i - 1. */
  ghost predicate IsChain(S: set<BlockIndex>, v: seq<BlockIndex?>)
    reads S`pprev, S`nHeight
  {
    && Linked(S)
    && forall i :: 0 <= i < |v| ==> v[i] in S && v[i].nHeight == i && (i > 0 ==> v[i].pprev == v[i - 1])
  }

  /** A chain holds all ancestors of each of its blocks. */
  lemma {:induction false} HoldsAncestors(S: set<BlockIndex>, v: seq<BlockIndex?>, i: int, h: int)
    requires IsChain(S, v) && 0 <= h <= i < |v|
    ensures v[i] in S && v[i].nHeight == i && Ancestor(S, v[i], h) == v[h]
    decreases i
  {
    AncestorSteps(S, v[i]);
    if h < i {
      HoldsAncestors(S, v, i - 1, h);
    }
  }

  /** The entries are the tip's ancestors, and that makes them a chain. */
  ghost predicate IsPath(S: set<BlockIndex>, v: seq<BlockIndex?>, tip: BlockIndex)
    requires Linked(S) && tip in S
    reads S`pprev, S`nHeight
  {
    |v| == tip.nHeight + 1 && forall i :: 0 <= i < |v| ==> v[i] == Ancestor(S, tip, i)
  }

  lemma PathIsChain(S: set<BlockIndex>, v: seq<BlockIndex?>, tip: BlockIndex)
    requires Linked(S) && tip in S && IsPath(S, v, tip)
    ensures IsChain(S, v)
  {
    hide Up;
    forall i | 0 <= i < |v|
      ensures v[i] in S && v[i].nHeight == i && (i > 0 ==> v[i].pprev == v[i - 1])
    {
      AncestorSteps(S, v[i]);
      if i > 0 {
        AncestorOfAncestor(S, tip, i, i - 1);
      }
    }
  }

  // ----- Locators -----

  /** The i-th step back: eleven steps of one, then doubling. */
  function LocatorStep(i: nat): nat {
    if i <= 10 then 1 else Pow2(i - 10)
  }

  lemma NextStep(i: nat)
    ensures LocatorStep(0) == 1 && LocatorStep(i) >= 1
    ensures LocatorStep(i + 1) == if i + 1 > 10 then 2 * LocatorStep(i) else LocatorStep(i)
  {
  }

  function StepBack(height: int, step: nat): int {
    if height - step > 0 then height - step else 0
  }

  /** Ancestors of start, from start itself down to its root. */
  ghost predicate IsLocator(S: set<BlockIndex>, start: BlockIndex, v: seq<BlockIndex>)
    requires Linked(S) && start in S
    reads S`pprev, S`nHeight
  {
    && StepsBack(S, start, v)
    && v != [] && v[|v| - 1].nHeight == 0
  }

  ghost predicate StepsBack(S: set<BlockIndex>, start: BlockIndex, v: seq<BlockIndex>)
    requires Linked(S) && start in S
    reads S`pprev, S`nHeight
  {
    && (forall i :: 0 <= i < |v| ==>
         v[i] in S && 0 <= v[i].nHeight <= start.nHeight && v[i] == Ancestor(S, start, v[i].nHeight))
    && (v != [] ==> v[0] == start)
    && (forall i, j :: 0 <= i && j == i + 1 < |v| ==>
         v[j].nHeight == StepBack(v[i].nHeight, LocatorStep(i)) < v[i].nHeight)
  }

  lemma StepsBackStart(S: set<BlockIndex>, start: BlockIndex)
    requires Linked(S) && start in S
    ensures StepsBack(S, start, []) && StepsBack(S, start, [start])
  {
    AncestorSteps(S, start);
  }

  lemma StepsBackAppend(S: set<BlockIndex>, start: BlockIndex, v: seq<BlockIndex>, b: BlockIndex)
    requires Linked(S) && start in S && StepsBack(S, start, v) && v != []
    requires b in S && v[|v| - 1].nHeight > 0 && b.nHeight == StepBack(v[|v| - 1].nHeight, LocatorStep(|v| - 1))
    requires b == Ancestor(S, v[|v| - 1], b.nHeight)
    ensures StepsBack(S, start, v + [b])
  {
    AncestorOfAncestor(S, start, v[|v| - 1].nHeight, b.nHeight);
  }

  /** Before the root is reached nothing is rounded up to it. */
  lemma {:induction false} LocatorHeights(S: set<BlockIndex>, start: BlockIndex, v: seq<BlockIndex>, i: nat)
    requires Linked(S) && start in S && StepsBack(S, start, v) && i < |v| && v[i].nHeight > 0
    ensures start.nHeight == v[i].nHeight + (if i <= 10 then i else 9 + Pow2(i - 10))
    decreases i
  {
    if i > 0 {
      assert v[i].nHeight < v[i - 1].nHeight;
      LocatorHeights(S, start, v, i - 1);
      assert i > 10 ==> LocatorStep(i - 1) == Pow2(i - 11);
    }
  }

  /** A locator is logarithmic in the height. */
  lemma LocatorIsShort(S: set<BlockIndex>, start: BlockIndex, v: seq<BlockIndex>)
    requires Linked(S) && start in S && IsLocator(S, start, v)
    ensures |v| >= 12 ==> Pow2(|v| - 12) <= start.nHeight
  {
    if |v| >= 12 {
      assert v[|v| - 1].nHeight < v[|v| - 2].nHeight;
      LocatorHeights(S, start, v, |v| - 2);
    }
  }

  class ActiveChain {
    var vChain: seq<BlockIndex?>

    constructor ()
      ensures vChain == []
    {
      vChain := [];
    }

    ghost predicate Valid(S: set<BlockIndex>)
      reads this, S`pprev, S`nHeight
    {
      IsChain(S, vChain)
    }

    function At(nHeight: int): BlockIndex?
      reads this
    {
      if nHeight < 0 || nHeight >= |vChain| then null else vChain[nHeight]
    }

    predicate Contains(pindex: BlockIndex)
      reads this, pindex`nHeight
    {
      At(pindex.nHeight) == pindex
    }

    /** Looking at one entry tells whether a block is anywhere on the chain. */
    lemma ContainsExactly(S: set<BlockIndex>, b: BlockIndex)
      requires Valid(S)
      ensures Contains(b) <==> b in vChain
    {}

    function Tip(): BlockIndex?
      reads this
    {
      if |vChain| > 0 then vChain[|vChain| - 1] else null
    }

    function Height(): int
      reads this
    {
      |vChain| - 1
    }

    /** The walk stops where it meets the old chain, and still every entry is right. */
    method SetTip(ghost S: set<BlockIndex>, tip: BlockIndex?)
      requires Valid(S) && (tip != null ==> tip in S)
      modifies this
      ensures Valid(S)
      ensures if tip == null then vChain == [] else IsPath(S, vChain, tip)
    {
      hide Ancestor, Linked;
      if tip == null {
        vChain := [];
        return;
      }
      AncestorSteps(S, tip);
      ghost var was := vChain;
      var size := tip.nHeight + 1;
      vChain := if size <= |vChain| then vChain[..size] else vChain + seq(size - |vChain|, _ => null);
      var pindex: BlockIndex? := tip;
      ghost var h := tip.nHeight;
      while pindex != null && vChain[pindex.nHeight] != pindex
        invariant -1 <= h <= tip.nHeight && |vChain| == size
        invariant if h == -1 then pindex == null else pindex == Ancestor(S, tip, h)
        invariant forall i :: h < i < size ==> vChain[i] == Ancestor(S, tip, i)
        invariant forall i :: 0 <= i <= h ==> vChain[i] == if i < |was| then was[i] else null
        decreases h
      {
        AncestorPrev(S, tip, h);
        vChain := vChain[pindex.nHeight := pindex];
        pindex := pindex.pprev;
        h := h - 1;
      }
      forall i | 0 <= i < size
        ensures vChain[i] == Ancestor(S, tip, i)
      {
        if i <= h {
          HoldsAncestors(S, was, h, i);
          AncestorOfAncestor(S, tip, h, i);
        }
      }
      PathIsChain(S, vChain, tip);
    }

    /** The highest block that is both on the chain and an ancestor of pindex. */
    method FindFork(ghost S: set<BlockIndex>, pindex: BlockIndex?) returns (r: BlockIndex?)
      requires Tree(S) && Valid(S) && (pindex != null ==> pindex in S)
      ensures r != null ==> pindex != null && r in S && Contains(r)
      ensures r != null ==> 0 <= r.nHeight <= pindex.nHeight && r == Ancestor(S, pindex, r.nHeight)
      ensures pindex != null ==>
                forall h :: (if r == null then -1 else r.nHeight) < h <= pindex.nHeight ==>
                  !Contains(Ancestor(S, pindex, h))
    {
      hide Ancestor, Linked;
      if pindex == null {
        return null;
      }
      AncestorSteps(S, pindex);
      r := pindex;
      ghost var h := pindex.nHeight;
      if pindex.nHeight > Height() {
        ghost var steps;
        r, steps := pindex.GetAncestor(S, Height());
        h := Height();
      }
      while r != null && !Contains(r)
        invariant -1 <= h <= pindex.nHeight
        invariant if h == -1 then r == null else r == Ancestor(S, pindex, h)
        invariant forall i :: h < i <= pindex.nHeight ==> !Contains(Ancestor(S, pindex, i))
        decreases h
      {
        AncestorPrev(S, pindex, h);
        r := r.pprev;
        h := h - 1;
      }
    }

    /** Uses the chain's index for blocks on the chain and the skip list for others. */
    method StepDown(ghost S: set<BlockIndex>, pindex: BlockIndex, nHeight: int) returns (r: BlockIndex)
      requires Tree(S) && Valid(S) && pindex in S && 0 <= nHeight <= pindex.nHeight
      ensures r == Ancestor(S, pindex, nHeight)
    {
      if Contains(pindex) {
        HoldsAncestors(S, vChain, pindex.nHeight, nHeight);
        r := At(nHeight);
      } else {
        ghost var steps;
        r, steps := pindex.GetAncestor(S, nHeight);
      }
    }

    /** The hashes of the listed blocks make up the locator. */
    method GetLocator(ghost S: set<BlockIndex>, from: BlockIndex?) returns (vHave: seq<BlockIndex>)
      requires Tree(S) && Valid(S) && (from != null ==> from in S)
      ensures from == null && Tip() == null ==> vHave == []
      ensures from == null && Tip() != null ==> Tip() in S && IsLocator(S, Tip(), vHave)
      ensures from != null ==> IsLocator(S, from, vHave)
    {
      hide Up, StepsBack;
      var start := from;
      if start == null {
        start := Tip();
      }
      vHave := [];
      if start != null {
        vHave := LocatorFrom(S, start);
      }
    }

    method LocatorFrom(ghost S: set<BlockIndex>, start: BlockIndex) returns (vHave: seq<BlockIndex>)
      requires Tree(S) && Valid(S) && start in S
      ensures IsLocator(S, start, vHave)
    {
      hide Up, Linked, StepsBack, Ancestor, LocatorStep, Valid;
      StepsBackStart(S, start);
      NextStep(0);
      var nStep := 1;
      vHave := [start];
      while vHave[|vHave| - 1].nHeight != 0
        invariant vHave != [] && vHave[|vHave| - 1] in S && StepsBack(S, start, vHave)
        invariant nStep == LocatorStep(|vHave| - 1)
        decreases vHave[|vHave| - 1].nHeight
      {
        var pindex := vHave[|vHave| - 1];
        AncestorSteps(S, pindex);
        NextStep(|vHave| - 1);
        var r := StepDown(S, pindex, StepBack(pindex.nHeight, nStep));
        StepsBackAppend(S, start, vHave, r);
        if |vHave| > 10 {
          nStep := nStep * 2;
        }
        vHave := vHave + [r];
      }
    }
  }

  /** Both blocks descend from the same root. */
  method LastCommonAncestor(ghost S: set<BlockIndex>, a: BlockIndex, b: BlockIndex) returns (r: BlockIndex)
    requires Tree(S) && a in S && b in S && a.nHeight >= 0 && b.nHeight >= 0
    requires Ancestor(S, a, 0) == Ancestor(S, b, 0)
    ensures r in S && 0 <= r.nHeight <= a.nHeight && r.nHeight <= b.nHeight
    ensures r == Ancestor(S, a, r.nHeight) == Ancestor(S, b, r.nHeight)
    ensures forall h :: r.nHeight < h <= a.nHeight && h <= b.nHeight ==> Ancestor(S, a, h) != Ancestor(S, b, h)
  {
    hide Ancestor, Linked, GetSkipHeight;
    AncestorSteps(S, a);
    AncestorSteps(S, b);
    var pa: BlockIndex?, pb: BlockIndex? := a, b;
    if a.nHeight > b.nHeight {
      ghost var steps;
      pa, steps := a.GetAncestor(S, b.nHeight);
    } else if b.nHeight > a.nHeight {
      ghost var steps;
      pb, steps := b.GetAncestor(S, a.nHeight);
    }
    ghost var h := pa.nHeight;
    while pa != pb && pa != null && pb != null
      invariant 0 <= h <= a.nHeight && h <= b.nHeight
      invariant pa == Ancestor(S, a, h) && pb == Ancestor(S, b, h)
      invariant forall i :: h < i <= a.nHeight && i <= b.nHeight ==> Ancestor(S, a, i) != Ancestor(S, b, i)
      decreases h
    {
      AncestorPrev(S, a, h);
      AncestorPrev(S, b, h);
      pa, pb := pa.pprev, pb.pprev;
      h := h - 1;
    }
    return pa;
  }
}
