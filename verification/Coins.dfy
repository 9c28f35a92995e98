/** CCoinsViewCache (src/coins.cpp): a stack of write-back caches over a coin database. The
    ghost field views is the reference: one plain map per level, the database first. */
module Coins {
  import opened CoinsLayer
  import opened Wrappers

  /** The database under the stack: BatchWrite as in src/txdb.cpp:124-135. */
  class CoinsDB {
    var coins: View
    var hashBlock: nat

    constructor ()
      ensures coins == map[]
    {
      coins := map[];
      hashBlock := 0;
    }

    method BatchWrite(mapCoins: Cache, hashBlockIn: nat, ghost top: View)
      requires UnspentOnly(coins) && UnspentOnly(top)
      requires EntriesOk(coins, mapCoins) && Overlays(coins, mapCoins, top)
      modifies this
      ensures coins == top && hashBlock == hashBlockIn
    {
      hide UnspentOnly, EntriesOk, Overlays, SetCoin;
      var rest := mapCoins;
      while rest != map[]
        invariant UnspentOnly(coins) && EntriesOk(coins, rest) && Overlays(coins, rest, top)
        decreases |rest|
      {
        var o :| o in rest;
        WriteStep(coins, rest, top, o);
        if rest[o].isDirty {
          coins := SetCoin(coins, o, rest[o].coin);
        }
        ShrinkRest(rest, o);
        rest := rest - {o};
      }
      NothingLeft(coins, top);
      hashBlock := hashBlockIn;
    }
  }

  lemma ShrinkRest(m: Cache, o: OutPoint)
    requires o in m
    ensures |m - {o}| < |m|
  {
    assert (m - {o}).Keys == m.Keys - {o};
  }

  lemma TwiceOnTop(views: seq<View>, v: View)
    requires views != [] && views[|views| - 1] == v
    ensures var r := views + [v]; r[..|r| - 1] == views && r[|r| - 1] == r[|r| - 2] == v
  {}

  /** The stack of views with another view on top. */
  ghost function WithTop(views: seq<View>, v: View): (r: seq<View>)
    requires |views| >= 1
    ensures |r| == |views| && r[|r| - 1] == v && r[..|r| - 1] == views[..|views| - 1]
    ensures |views| >= 2 ==> r[|r| - 2] == views[|views| - 2]
  {
    views[..|views| - 1] + [v]
  }

  class CoinsViewCache {
    const env: Env
    /** The base view: another cache, or the database when there is none. */
    const parent: CoinsViewCache?
    const db: CoinsDB
    var hashBlock: nat
    var cacheCoins: Cache
    var cachedCoinsUsage: int

    ghost var views: seq<View>
    ghost const Repr: set<object>
    ghost const depth: nat

    /** The base views are in order and their reference maps are those below this one. */
    ghost predicate Linked()
      reads Repr
      ensures Linked() ==> this in Repr && |views| >= 2
      decreases depth, 0
    {
      && this in Repr
      && |views| >= 2
      && (parent == null ==> db in Repr && views[..|views| - 1] == [db.coins])
      && (parent != null ==>
            && parent in Repr && parent.Repr <= Repr && this !in parent.Repr && parent.depth < depth
            && parent.Valid() && parent.env == env && parent.views == views[..|views| - 1])
    }

    /** The entries of this cache are right about the base view, and show the top map. */
    ghost predicate InOrder()
      reads this
      requires |views| >= 2
    {
      Layer(env, views[|views| - 2], cacheCoins, views[|views| - 1], cachedCoinsUsage)
    }

    ghost predicate Valid()
      reads Repr
      ensures Valid() ==> this in Repr && |views| >= 2
      decreases depth, 1
    {
      Linked() && InOrder()
    }

    ghost function Top(): View
      reads Repr
      requires Valid()
    {
      views[|views| - 1]
    }

    ghost function Base(): View
      reads Repr
      requires Valid()
    {
      views[|views| - 2]
    }

    lemma ValidParts()
      ensures Valid() <==> Linked() && InOrder()
    {}

    lemma ParentFacts()
      requires Valid()
      ensures parent == null <==> |views| == 2
      ensures parent != null ==>
                && parent.Valid() && parent.Repr <= Repr && parent.env == env
                && parent.views == views[..|views| - 1]
    {}

    /** A caller that is right about overwriting never meets the exception of AddCoin. */
    lemma AddNotThrown(o: OutPoint, overwrite: bool)
      requires Valid()
      ensures overwrite || o !in Top() ==> !AddThrows(Find(cacheCoins, o), overwrite)
    {
      LayerAt(env, Base(), cacheCoins, Top(), cachedCoinsUsage, o);
    }

    constructor OnDatabase(env: Env, db: CoinsDB)
      requires UnspentOnly(db.coins)
      ensures Valid() && fresh(Repr - {db})
      ensures views == [db.coins, db.coins]
    {
      this.env := env;
      this.parent := null;
      this.db := db;
      hashBlock := 0;
      cacheCoins := map[];
      cachedCoinsUsage := 0;
      views := [db.coins, db.coins];
      Repr := {this, db};
      depth := 0;
    }

    constructor OnCache(parent: CoinsViewCache)
      requires parent.Valid()
      ensures Valid() && fresh(Repr - parent.Repr)
      ensures this.parent == parent && this.env == parent.env
      ensures views == parent.views + [parent.Top()]
    {
      this.env := parent.env;
      this.parent := parent;
      this.db := parent.db;
      hashBlock := 0;
      cacheCoins := map[];
      cachedCoinsUsage := 0;
      views := parent.views + [parent.views[|parent.views| - 1]];
      Repr := {this} + parent.Repr;
      depth := parent.depth + 1;
    }

    /** FetchCoin: load an entry from the base view if it is not cached. */
    method FetchCoin(o: OutPoint) returns (found: bool)
      requires Valid()
      modifies Repr
      ensures Valid() && views == old(views) && hashBlock == old(hashBlock)
      ensures found <==> o in cacheCoins
      ensures found <==> o in old(cacheCoins) || o in Top()
      ensures forall p :: p in old(cacheCoins) ==> p in cacheCoins && cacheCoins[p] == old(cacheCoins)[p]
      ensures found && o !in old(cacheCoins) ==> cacheCoins[o] == Entry(Look(Top(), o), false, false)
      decreases depth, 0
    {
      hide Layer;
      LayerAt(env, Base(), cacheCoins, Top(), cachedCoinsUsage, o);
      if o in cacheCoins {
        return true;
      }
      var ok, tmp := false, Spent;
      if parent == null {
        ok := o in db.coins;
        if ok {
          tmp := db.coins[o];
        }
      } else {
        ok, tmp := parent.GetCoin(o);
      }
      assert ok <==> o in Base();
      if !ok {
        return false;
      }
      var entry := Entry(tmp, false, false);
      if tmp.Spent? {
        entry := entry.(isFresh := true);
      }
      UpdateKeeps(env, Base(), cacheCoins, Top(), cachedCoinsUsage, o, Some(entry));
      LayerParts(env, Base(), cacheCoins, Top(), cachedCoinsUsage);
      SameView(Top(), o, tmp);
      cacheCoins := cacheCoins[o := entry];
      cachedCoinsUsage := cachedCoinsUsage + Usage(env, tmp);
      found := true;
    }

    method GetCoin(o: OutPoint) returns (ok: bool, coin: Coin)
      requires Valid()
      modifies Repr
      ensures Valid() && views == old(views) && hashBlock == old(hashBlock)
      ensures ok <==> o in Top()
      ensures ok ==> coin == Top()[o]
      decreases depth, 1
    {
      hide Layer;
      var found := FetchCoin(o);
      LayerAt(env, Base(), cacheCoins, Top(), cachedCoinsUsage, o);
      if found {
        coin := cacheCoins[o].coin;
        return !coin.Spent?, coin;
      }
      return false, Spent;
    }

    /** AddCoin. It throws exactly when an unspent cached entry would be replaced; then only
        the memory count has changed. Otherwise the invariant survives exactly when the
        caller was right that there is no unspent coin to overwrite. */
    method AddCoin(o: OutPoint, coin: Coin, overwrite: bool) returns (thrown: bool)
      requires Valid() && coin.Unspent?
      modifies this
      ensures hashBlock == old(hashBlock)
      ensures thrown <==> !env.unspendable(coin.script) && AddThrows(Find(old(cacheCoins), o), overwrite)
      ensures env.unspendable(coin.script) ==> Valid() && views == old(views)
      ensures thrown ==> cacheCoins == old(cacheCoins) && views == old(views)
                         && cachedCoinsUsage == old(cachedCoinsUsage) - Usage(env, old(cacheCoins)[o].coin)
      ensures !thrown && !env.unspendable(coin.script) ==>
                && views == WithTop(old(views), old(Top())[o := coin])
                && Linked() && (InOrder() <==> overwrite || o !in old(Top()))
                && o in cacheCoins && cacheCoins == old(cacheCoins)[o := cacheCoins[o]] && cacheCoins[o].isDirty
                && (cacheCoins[o].isFresh <==>
                      if o in old(cacheCoins)
                      then old(cacheCoins)[o].isFresh || (!overwrite && !old(cacheCoins)[o].isDirty) else !overwrite)
    {
      hide Layer, Linked;
      if env.unspendable(coin.script) {
        return false;
      }
      ghost var base, top, count := Base(), Top(), cachedCoinsUsage;
      var was := if o in cacheCoins then cacheCoins[o] else Entry(Spent, false, false);
      var usage := cachedCoinsUsage;
      if o in cacheCoins {
        usage := usage - Usage(env, was.coin);
      }
      var isFresh := false;
      if !overwrite {
        if !was.coin.Spent? {
          cachedCoinsUsage := usage;
          return true;
        }
        isFresh := !was.isDirty;
      }
      assert !AddThrows(Find(cacheCoins, o), overwrite);
      AddLayer(env, base, cacheCoins, top, count, o, coin, overwrite);
      assert Added(Find(cacheCoins, o), coin, overwrite) == Entry(coin, true, was.isFresh || isFresh);
      Store(cacheCoins[o := Entry(coin, true, was.isFresh || isFresh)], usage + Usage(env, coin), top[o := coin]);
      thrown := false;
    }

    /** SpendCoin (without asset bookkeeping): afterwards the view has no coin there. The answer
        tells whether the view had one exactly if no spent entry is cached. */
    method SpendCoin(o: OutPoint) returns (ok: bool, moveout: Coin)
      requires Valid()
      modifies Repr
      ensures Valid() && hashBlock == old(hashBlock)
      ensures views == WithTop(old(views), old(Top()) - {o})
      ensures moveout == Look(old(Top()), o)
      ensures ok <==> o in old(cacheCoins) || o in old(Top())
      ensures (ok <==> o in old(Top())) <==> !(o in old(cacheCoins) && old(cacheCoins)[o].coin.Spent?)
      ensures ok ==> (o in cacheCoins <==> !(o in old(cacheCoins) && old(cacheCoins)[o].isFresh))
      ensures ok && o in cacheCoins ==> cacheCoins[o] == Entry(Spent, true, false)
    {
      hide Layer, EntryOk;
      LayerAt(env, Base(), cacheCoins, Top(), cachedCoinsUsage, o);
      ok := FetchCoin(o);
      if !ok {
        assert Top() - {o} == Top();
        assert WithTop(views, Top()) == views;
        return false, Spent;
      }
      moveout := SpendEntry(o);
    }

    method SpendEntry(o: OutPoint) returns (moveout: Coin)
      requires Valid() && o in cacheCoins
      modifies this
      ensures Valid() && hashBlock == old(hashBlock)
      ensures views == WithTop(old(views), old(Top()) - {o})
      ensures moveout == Look(old(Top()), o)
      ensures cacheCoins == if old(cacheCoins)[o].isFresh then old(cacheCoins) - {o}
                            else old(cacheCoins)[o := Entry(Spent, true, false)]
    {
      hide Layer, EntryOk, Look, Linked;
      ghost var top := Top();
      SpendLayer(env, Base(), cacheCoins, top, cachedCoinsUsage, o);
      var e := cacheCoins[o];
      moveout := e.coin;
      var cache := if e.isFresh then cacheCoins - {o} else cacheCoins[o := Entry(Spent, true, e.isFresh)];
      Store(cache, cachedCoinsUsage - Usage(env, e.coin), top - {o});
    }

    /** Uncache: forget an unmodified entry; the view does not change. */
    method Uncache(o: OutPoint)
      requires Valid()
      modifies this
      ensures Valid() && views == old(views) && hashBlock == old(hashBlock)
      ensures cacheCoins == if o in old(cacheCoins) && !old(cacheCoins)[o].isDirty && !old(cacheCoins)[o].isFresh
                            then old(cacheCoins) - {o} else old(cacheCoins)
    {
      hide Layer;
      if o in cacheCoins && !cacheCoins[o].isDirty && !cacheCoins[o].isFresh {
        LayerAt(env, Base(), cacheCoins, Top(), cachedCoinsUsage, o);
        UpdateKeeps(env, Base(), cacheCoins, Top(), cachedCoinsUsage, o, None);
        LayerParts(env, Base(), cacheCoins, Top(), cachedCoinsUsage);
        SameView(Top(), o, Look(Base(), o));
        cachedCoinsUsage := cachedCoinsUsage - Usage(env, cacheCoins[o].coin);
        cacheCoins := cacheCoins - {o};
      }
    }

    /** Replaces the entries, their memory count, and with them the view. */
    method Store(cache: Cache, usage: int, ghost top: View)
      requires Linked()
      modifies this
      ensures Linked() && views == WithTop(old(views), top) && hashBlock == old(hashBlock)
      ensures cacheCoins == cache && cachedCoinsUsage == usage
    {
      cacheCoins, cachedCoinsUsage := cache, usage;
      views := WithTop(views, top);
    }

    /** BatchWrite of one dirty child entry (src/coins.cpp:430-476); the exception about a
        misapplied FRESH flag is never reached. */
    method MergeEntry(o: OutPoint, child: Entry)
      requires Valid() && child.isDirty && EntryOk(child, Look(Top(), o))
      modifies this
      ensures Valid() && views == WithTop(old(views), SetCoin(old(Top()), o, child.coin))
    {
      hide Layer, EntryOk, Look, SetCoin, Linked;
      ghost var top := Top();
      MergeLayer(env, Base(), cacheCoins, top, cachedCoinsUsage, o, child);
      var cache, usage := cacheCoins, cachedCoinsUsage;
      if o !in cache {
        if !(child.isFresh && child.coin.Spent?) {
          cache := cache[o := Entry(child.coin, true, child.isFresh)];
          usage := usage + Usage(env, child.coin);
        } else {
          assert cache - {o} == cache;
        }
      } else {
        var us := cache[o];
        assert !(child.isFresh && !us.coin.Spent?);
        usage := usage - Usage(env, us.coin);
        if us.isFresh && child.coin.Spent? {
          cache := cache - {o};
        } else {
          cache := cache[o := Entry(child.coin, true, us.isFresh)];
          usage := usage + Usage(env, child.coin);
        }
      }
      Store(cache, usage, SetCoin(top, o, child.coin));
    }

    /** BatchWrite: take over the entries of a child cache whose view is top. */
    method BatchWrite(mapCoins: Cache, hashBlockIn: nat, ghost top: View)
      requires Valid() && UnspentOnly(top)
      requires EntriesOk(Top(), mapCoins) && Overlays(Top(), mapCoins, top)
      modifies this
      ensures Valid() && views == WithTop(old(views), top) && hashBlock == hashBlockIn
    {
      hide Layer, EntryOk, UnspentOnly, EntriesOk, Overlays, SetCoin, Look, Linked;
      var rest := mapCoins;
      LayerParts(env, Base(), cacheCoins, Top(), cachedCoinsUsage);
      while rest != map[]
        modifies this
        invariant Valid() && views == WithTop(old(views), Top())
        invariant UnspentOnly(Top()) && EntriesOk(Top(), rest) && Overlays(Top(), rest, top)
        decreases |rest|
      {
        var o :| o in rest;
        WriteStep(Top(), rest, top, o);
        EntryAt(Top(), rest, o);
        if rest[o].isDirty {
          MergeEntry(o, rest[o]);
        }
        ShrinkRest(rest, o);
        rest := rest - {o};
      }
      NothingLeft(Top(), top);
      SetBestBlock(hashBlockIn);
    }

    method SetBestBlock(hashBlockIn: nat)
      requires Valid()
      modifies this`hashBlock
      ensures Valid() && hashBlock == hashBlockIn
    {
      hashBlock := hashBlockIn;
    }

    /** Flush: the base view becomes this view, and this cache is empty again. */
    method WriteBase()
      requires Valid()
      modifies Repr - {this}
      ensures parent == null ==> db.coins == old(Top()) && db.hashBlock == hashBlock
      ensures parent != null ==>
                && parent.Valid() && parent.hashBlock == hashBlock
                && parent.views == WithTop(old(views)[..|old(views)| - 1], old(Top()))
    {
      hide Layer, UnspentOnly, EntriesOk, Overlays;
      LayerParts(env, Base(), cacheCoins, Top(), cachedCoinsUsage);
      if parent == null {
        db.BatchWrite(cacheCoins, hashBlock, Top());
      } else {
        parent.BatchWrite(cacheCoins, hashBlock, Top());
      }
    }

    method Flush()
      requires Valid()
      modifies Repr
      ensures Valid() && cacheCoins == map[] && cachedCoinsUsage == 0
      ensures Top() == Base() == old(Top())
      ensures views == WithTop(old(views)[..|old(views)| - 1], old(Top())) + [old(Top())]
      ensures parent != null ==> parent.hashBlock == old(hashBlock)
      ensures parent == null ==> db.hashBlock == old(hashBlock)
    {
      hide Layer, UnspentOnly, EntriesOk, Overlays, Valid;
      ValidParts();
      ghost var top, shown := Top(), WithTop(views[..|views| - 1], Top());
      LayerParts(env, Base(), cacheCoins, top, cachedCoinsUsage);
      WriteBase();
      assert parent == null ==> shown == [db.coins];
      Empty(shown, top);
    }

    /** Forgets all entries over base views that already show everything. */
    method Empty(ghost shown: seq<View>, ghost top: View)
      requires this in Repr && shown != [] && shown[|shown| - 1] == top && UnspentOnly(top)
      requires parent == null ==> db in Repr && shown == [db.coins]
      requires parent != null ==>
                 && parent in Repr && parent.Repr <= Repr && this !in parent.Repr && parent.depth < depth
                 && parent.Valid() && parent.env == env && parent.views == shown
      modifies this
      ensures Valid() && cacheCoins == map[] && cachedCoinsUsage == 0 && hashBlock == old(hashBlock)
      ensures views == shown + [top]
    {
      hide Layer, UnspentOnly, Valid;
      cacheCoins := map[];
      cachedCoinsUsage := 0;
      EmptyLayer(env, top);
      TwiceOnTop(shown, top);
      views := shown + [top];
      ValidParts();
    }
  }

  // ----- Every run of a stack is a run of plain maps -----

  datatype Op =
    | Get(o: OutPoint)
    | Add(o: OutPoint, coin: Coin, overwrite: bool)
    | Spend(o: OutPoint)
    | Uncache(o: OutPoint)
    | Flush
    | Push
    | Discard

  ghost function TopOf(views: seq<View>): View
    requires |views| >= 2
  {
    views[|views| - 1]
  }

  /** The duty of a caller: coins that are added are unspent, and overwriting is announced. */
  ghost predicate Allowed(views: seq<View>, op: Op)
    requires |views| >= 2
  {
    op.Add? ==> op.coin.Unspent? && (op.overwrite || op.o !in TopOf(views))
  }

  /** The same operation on a stack of plain maps. */
  ghost function StepViews(env: Env, views: seq<View>, op: Op): (r: seq<View>)
    requires |views| >= 2
    ensures |r| >= 2
  {
    var top := TopOf(views);
    match op
    case Add(o, coin, _) =>
      if coin.Spent? || env.unspendable(coin.script) then views else WithTop(views, top[o := coin])
    case Spend(o) => WithTop(views, top - {o})
    case Flush => WithTop(views[..|views| - 1], top) + [top]
    case Push => views + [top]
    case Discard => if |views| > 2 then views[..|views| - 1] else views
    case _ => views
  }

  ghost function SeenBy(views: seq<View>, op: Op): Coin
    requires |views| >= 2
  {
    match op
    case Get(o) => Look(TopOf(views), o)
    case Spend(o) => Look(TopOf(views), o)
    case _ => Spent
  }

  ghost predicate AllAllowed(env: Env, views: seq<View>, ops: seq<Op>)
    requires |views| >= 2
    decreases |ops|
  {
    ops == [] || (Allowed(views, ops[0]) && AllAllowed(env, StepViews(env, views, ops[0]), ops[1..]))
  }

  ghost function RunViews(env: Env, views: seq<View>, ops: seq<Op>): (r: seq<View>)
    requires |views| >= 2
    ensures |r| >= 2
    decreases |ops|
  {
    if ops == [] then views else RunViews(env, StepViews(env, views, ops[0]), ops[1..])
  }

  ghost function RunSeen(env: Env, views: seq<View>, ops: seq<Op>): seq<Coin>
    requires |views| >= 2
    decreases |ops|
  {
    if ops == [] then [] else [SeenBy(views, ops[0])] + RunSeen(env, StepViews(env, views, ops[0]), ops[1..])
  }

  method NewChild(top: CoinsViewCache) returns (child: CoinsViewCache)
    requires top.Valid()
    ensures child.Valid() && child.env == top.env && fresh(child.Repr - top.Repr)
    ensures child.views == top.views + [top.Top()]
  {
    child := new CoinsViewCache.OnCache(top);
  }

  method StepInPlace(top: CoinsViewCache, op: Op) returns (seen: Coin)
    requires top.Valid() && Allowed(top.views, op) && !op.Push? && !op.Discard?
    modifies top.Repr
    ensures top.Valid() && top.views == StepViews(top.env, old(top.views), op)
    ensures seen == SeenBy(old(top.views), op)
  {
    hide Layer, Look, CoinsViewCache.Linked, CoinsViewCache.InOrder, CoinsViewCache.Valid;
    seen := Spent;
    match op
    case Get(o) => seen := GetTop(top, o);
    case Add(o, coin, overwrite) => AddTop(top, o, coin, overwrite);
    case Spend(o) => seen := SpendTop(top, o);
    case Uncache(o) => top.Uncache(o);
    case Flush => FlushTop(top);
  }

  method GetTop(top: CoinsViewCache, o: OutPoint) returns (seen: Coin)
    requires top.Valid()
    modifies top.Repr
    ensures top.Valid() && top.views == old(top.views) && seen == Look(old(top.Top()), o)
  {
    hide Layer, CoinsViewCache.Linked, CoinsViewCache.InOrder, CoinsViewCache.Valid;
    var ok, coin := top.GetCoin(o);
    return if ok then coin else Spent;
  }

  method AddTop(top: CoinsViewCache, o: OutPoint, coin: Coin, overwrite: bool)
    requires top.Valid() && Allowed(top.views, Add(o, coin, overwrite))
    modifies top.Repr
    ensures top.Valid() && top.views == StepViews(top.env, old(top.views), Add(o, coin, overwrite))
  {
    hide Layer, Look, CoinsViewCache.Linked, CoinsViewCache.InOrder, CoinsViewCache.Valid;
    top.AddNotThrown(o, overwrite);
    var _ := top.AddCoin(o, coin, overwrite);
    top.ValidParts();
  }

  method FlushTop(top: CoinsViewCache)
    requires top.Valid()
    modifies top.Repr
    ensures top.Valid() && top.views == StepViews(top.env, old(top.views), Op.Flush)
  {
    hide Layer, Look, CoinsViewCache.Linked, CoinsViewCache.InOrder, CoinsViewCache.Valid;
    top.Flush();
  }

  method Step(top: CoinsViewCache, op: Op) returns (top': CoinsViewCache, seen: Coin)
    requires top.Valid() && Allowed(top.views, op)
    modifies top.Repr
    ensures top'.Valid() && top'.env == top.env && fresh(top'.Repr - top.Repr)
    ensures top'.views == StepViews(top.env, old(top.views), op)
    ensures seen == SeenBy(old(top.views), op)
  {
    hide Layer, Look, CoinsViewCache.Linked, CoinsViewCache.InOrder, CoinsViewCache.Valid;
    top', seen := top, Spent;
    if op.Push? {
      top' := NewChild(top);
    } else if op.Discard? {
      top.ParentFacts();
      if top.parent != null {
        top' := top.parent;
      }
    } else {
      seen := StepInPlace(top, op);
    }
  }

  method SpendTop(top: CoinsViewCache, o: OutPoint) returns (coin: Coin)
    requires top.Valid()
    modifies top.Repr
    ensures top.Valid() && top.views == WithTop(old(top.views), old(top.Top()) - {o})
    ensures coin == Look(old(top.Top()), o)
  {
    hide Layer, Look, CoinsViewCache.Linked, CoinsViewCache.InOrder;
    var ok;
    ok, coin := top.SpendCoin(o);
  }

  /** Whatever is done with a stack of caches of any depth, the lookups and the views of all
      levels are those of a stack of plain maps. */
  method Run(top: CoinsViewCache, ops: seq<Op>) returns (top': CoinsViewCache, seen: seq<Coin>)
    requires top.Valid() && AllAllowed(top.env, top.views, ops)
    modifies top.Repr
    ensures top'.Valid() && fresh(top'.Repr - top.Repr)
    ensures top'.views == RunViews(top.env, old(top.views), ops)
    ensures seen == RunSeen(top.env, old(top.views), ops)
    decreases |ops|
  {
    hide Layer, StepViews, Allowed;
    if ops == [] {
      return top, [];
    }
    var mid, coin := Step(top, ops[0]);
    var rest;
    top', rest := Run(mid, ops[1..]);
    seen := [coin] + rest;
  }

  /** A coin that is not FRESH can be spent twice in a row as far as the answers go: the spent
      entry stays cached. */
  method SpendTwice(c: CoinsViewCache, o: OutPoint) returns (first: bool, second: bool)
    requires c.Valid() && o in c.Top() && !(o in c.cacheCoins && c.cacheCoins[o].isFresh)
    modifies c.Repr
    ensures c.Valid() && first && second && c.views == WithTop(old(c.views), old(c.Top()) - {o})
  {
    hide Layer, EntryOk;
    var coin;
    first, coin := c.SpendCoin(o);
    assert c.Top() - {o} == c.Top();
    second, coin := c.SpendCoin(o);
  }
}
