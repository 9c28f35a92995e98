/** One layer of the UTXO cache stack as values (src/coins.h:32-129): a cache of flagged
    entries over a base view, and the view that the two make together. */
module CoinsLayer {
  import opened Wrappers

  datatype OutPoint = OutPoint(hash: nat, n: nat)

  /** A Coin; Clear() turns it into Spent. */
  datatype Coin = Spent | Unspent(value: int, script: seq<nat>, height: nat, coinBase: bool)

  /** CCoinsCacheEntry with its DIRTY and FRESH flags. */
  datatype Entry = Entry(coin: Coin, isDirty: bool, isFresh: bool)

  /** A view maps outpoints to their unspent coins. */
  type View = map<OutPoint, Coin>

  type Cache = map<OutPoint, Entry>

  function Find<A(==), B>(m: map<A, B>, a: A): Option<B> {
    if a in m then Some(m[a]) else None
  }

  /** What a view says about an outpoint. */
  function Look(v: View, o: OutPoint): Coin {
    if o in v then v[o] else Spent
  }

  ghost predicate UnspentOnly(v: View) {
    forall o :: o in v ==> v[o].Unspent?
  }

  // ----- The invariant -----

  /** An entry without DIRTY equals the base view, FRESH means that the base view has no
      unspent coin, and a spent entry is dirty and never FRESH. */
  ghost predicate EntryOk(e: Entry, below: Coin) {
    && (!e.isDirty ==> e.coin == below)
    && (e.isFresh ==> below == Spent)
    && (e.coin == Spent ==> e.isDirty && !e.isFresh)
  }

  ghost predicate EntriesOk(base: View, cache: Cache) {
    forall o :: o in cache ==> EntryOk(cache[o], Look(base, o))
  }

  /** The coin that a cache entry, or else the base view, gives. */
  ghost function Seen(e: Option<Entry>, below: Coin): Coin {
    if e.Some? then e.value.coin else below
  }

  ghost predicate Overlays(base: View, cache: Cache, top: View) {
    forall o :: Look(top, o) == Seen(Find(cache, o), Look(base, o))
  }

  // ----- Memory accounting -----

  /** The heap memory of a script, and which scripts can never be spent. */
  datatype Env = Env(scriptMemory: seq<nat> -> nat, unspendable: seq<nat> -> bool)

  function Usage(env: Env, c: Coin): nat {
    if c.Spent? then 0 else env.scriptMemory(c.script)
  }

  ghost function Total(env: Env, m: Cache): nat {
    if m == map[] then 0
    else
      var o :| o in m;
      (if m[o].coin.Spent? then 0 else env.scriptMemory(m[o].coin.script)) + Total(env, m - {o})
  }

  lemma {:induction false} TotalRemove(env: Env, m: Cache, o: OutPoint)
    requires o in m
    ensures Total(env, m) == Usage(env, m[o].coin) + Total(env, m - {o})
    decreases |m|
  {
    var o' :| o' in m && Total(env, m) == Usage(env, m[o'].coin) + Total(env, m - {o'});
    if o' != o {
      var m1, m2 := m - {o'}, m - {o};
      assert |m1| < |m| && |m2| < |m| by {
        assert m1.Keys == m.Keys - {o'} && m2.Keys == m.Keys - {o};
      }
      TotalRemove(env, m1, o);
      TotalRemove(env, m2, o');
      assert m1 - {o} == m2 - {o'};
    }
  }

  lemma TotalSet(env: Env, m: Cache, o: OutPoint, e: Entry)
    ensures Total(env, m[o := e]) ==
            Total(env, m) - (if o in m then Usage(env, m[o].coin) else 0) + Usage(env, e.coin)
  {
    TotalRemove(env, m[o := e], o);
    assert m[o := e] - {o} == m - {o};
    if o in m {
      TotalRemove(env, m, o);
    } else {
      assert m - {o} == m;
    }
  }

  /** Everything that holds of one layer between calls. */
  ghost predicate Layer(env: Env, base: View, cache: Cache, top: View, usage: int) {
    && UnspentOnly(base) && UnspentOnly(top)
    && EntriesOk(base, cache)
    && Overlays(base, cache, top)
    && usage == Total(env, cache)
  }

  // ----- The operations on entries -----

  /** AddCoin on an existing or missing entry. */
  function Added(e: Option<Entry>, coin: Coin, overwrite: bool): Entry {
    var was := if e.Some? then e.value else Entry(Spent, false, false);
    var markFresh := !overwrite && !was.isDirty;
    Entry(coin, true, was.isFresh || markFresh)
  }

  /** AddCoin refuses to replace an unspent entry unless told that it may. */
  predicate AddThrows(e: Option<Entry>, overwrite: bool) {
    !overwrite && e.Some? && e.value.coin.Unspent?
  }

  /** SpendCoin on an entry: a FRESH entry disappears, any other one is marked. */
  function SpentEntry(e: Entry): Option<Entry> {
    if e.isFresh then None else Some(Entry(Spent, true, e.isFresh))
  }

  /** BatchWrite of one dirty child entry into the parent's entry. */
  function Merged(parent: Option<Entry>, child: Entry): Option<Entry> {
    match parent
    case None =>
      if child.isFresh && child.coin.Spent? then None else Some(Entry(child.coin, true, child.isFresh))
    case Some(us) =>
      if us.isFresh && child.coin.Spent? then None else Some(Entry(child.coin, true, us.isFresh))
  }

  predicate MergeThrows(parent: Option<Entry>, child: Entry) {
    child.isFresh && parent.Some? && parent.value.coin.Unspent?
  }

  function Update(cache: Cache, o: OutPoint, e: Option<Entry>): Cache {
    if e.Some? then cache[o := e.value] else cache - {o}
  }

  function SetCoin(v: View, o: OutPoint, c: Coin): View {
    if c.Spent? then v - {o} else v[o := c]
  }

  // ----- What they preserve -----

  lemma UpdateKeeps(env: Env, base: View, cache: Cache, top: View, usage: int, o: OutPoint, e: Option<Entry>)
    requires Layer(env, base, cache, top, usage)
    requires e.Some? ==> EntryOk(e.value, Look(base, o))
    ensures Layer(env, base, Update(cache, o, e), SetCoin(top, o, Seen(e, Look(base, o))),
                  usage - (if o in cache then Usage(env, cache[o].coin) else 0)
                  + (if e.Some? then Usage(env, e.value.coin) else 0))
  {
    hide Total, EntriesOk, Overlays, UnspentOnly, Usage;
    UpdateEntries(base, cache, o, e);
    UpdateOverlays(base, cache, top, o, e);
    UpdateTotal(env, cache, o, e);
  }

  lemma UpdateTotal(env: Env, cache: Cache, o: OutPoint, e: Option<Entry>)
    ensures Total(env, Update(cache, o, e)) == Total(env, cache)
              - (if o in cache then Usage(env, cache[o].coin) else 0) +
                (if e.Some? then Usage(env, e.value.coin) else 0)
  {
    hide Total;
    if e.Some? {
      TotalSet(env, cache, o, e.value);
    } else if o in cache {
      TotalRemove(env, cache, o);
    } else {
      assert cache - {o} == cache;
    }
  }

  lemma UpdateEntries(base: View, cache: Cache, o: OutPoint, e: Option<Entry>)
    requires EntriesOk(base, cache) && (e.Some? ==> EntryOk(e.value, Look(base, o)))
    ensures EntriesOk(base, Update(cache, o, e))
  {}

  lemma UpdateOverlays(base: View, cache: Cache, top: View, o: OutPoint, e: Option<Entry>)
    requires UnspentOnly(top) && Overlays(base, cache, top)
    ensures UnspentOnly(SetCoin(top, o, Seen(e, Look(base, o))))
    ensures Overlays(base, Update(cache, o, e), SetCoin(top, o, Seen(e, Look(base, o))))
  {
    var c := Seen(e, Look(base, o));
    forall p ensures Look(SetCoin(top, o, c), p) == if p == o then c else Look(top, p) {}
  }

  lemma SameView(top: View, o: OutPoint, c: Coin)
    requires Look(top, o) == c && UnspentOnly(top)
    ensures SetCoin(top, o, c) == top
  {}

  /** AddCoin without overwrite keeps the invariant exactly when the view has no unspent
      coin at the outpoint: a caller that is wrong about this misapplies FRESH. */
  lemma AddCoinExact(env: Env, base: View, cache: Cache, top: View, usage: int, o: OutPoint, coin: Coin,
                     overwrite: bool)
    requires Layer(env, base, cache, top, usage) && coin.Unspent?
    requires !AddThrows(Find(cache, o), overwrite)
    ensures EntryOk(Added(Find(cache, o), coin, overwrite), Look(base, o)) <==> overwrite || o !in top
    ensures EntriesOk(base, cache[o := Added(Find(cache, o), coin, overwrite)]) <==> overwrite || o !in top
  {
    var e := Added(Find(cache, o), coin, overwrite);
    assert Look(top, o) == Seen(Find(cache, o), Look(base, o));
    assert cache[o := e][o] == e;
    if overwrite || o !in top {
      assert EntryOk(e, Look(base, o));
    }
  }

  lemma SpendKeeps(e: Entry, below: Coin)
    requires EntryOk(e, below)
    ensures SpentEntry(e).Some? ==> EntryOk(SpentEntry(e).value, below)
    ensures Seen(SpentEntry(e), below) == Spent
  {}

  /** Writing a dirty child entry up keeps the parent's invariant against the grandparent,
      makes the parent show the child's coin, and never meets a misapplied FRESH flag. */
  lemma MergeKeeps(parent: Option<Entry>, child: Entry, below: Coin)
    requires parent.Some? ==> EntryOk(parent.value, below)
    requires EntryOk(child, Seen(parent, below)) && child.isDirty
    ensures !MergeThrows(parent, child)
    ensures Merged(parent, child).Some? ==> EntryOk(Merged(parent, child).value, below)
    ensures Seen(Merged(parent, child), below) == child.coin
  {}

  /** What the layer shows at one outpoint. */
  lemma LayerAt(env: Env, base: View, cache: Cache, top: View, usage: int, o: OutPoint)
    requires Layer(env, base, cache, top, usage)
    ensures Look(top, o) == Seen(Find(cache, o), Look(base, o))
    ensures o in top <==> Look(top, o).Unspent?
    ensures o in base <==> Look(base, o).Unspent?
    ensures o in cache ==> EntryOk(cache[o], Look(base, o))
    ensures o in cache ==> usage >= Usage(env, cache[o].coin)
  {
    if o in cache {
      TotalRemove(env, cache, o);
    }
  }

  lemma LayerParts(env: Env, base: View, cache: Cache, top: View, usage: int)
    requires Layer(env, base, cache, top, usage)
    ensures UnspentOnly(base) && UnspentOnly(top) && EntriesOk(base, cache) && Overlays(base, cache, top)
  {}

  lemma EmptyLayer(env: Env, v: View)
    requires UnspentOnly(v)
    ensures Layer(env, v, map[], v, 0)
  {}

  /** One round of a flush: entry o of the remaining child entries is written to the view
      below (or skipped if it is not dirty) and dropped. */
  lemma WriteStep(base: View, rest: Cache, top: View, o: OutPoint)
    requires UnspentOnly(base) && EntriesOk(base, rest) && Overlays(base, rest, top) && o in rest
    ensures var written := SetCoin(base, o, rest[o].coin);
            && UnspentOnly(written) && EntriesOk(written, rest - {o}) && Overlays(written, rest - {o}, top)
            && (!rest[o].isDirty ==> written == base)
  {
    var written := SetCoin(base, o, rest[o].coin);
    forall p ensures Look(written, p) == if p == o then rest[o].coin else Look(base, p) {}
    if !rest[o].isDirty {
      SameView(base, o, rest[o].coin);
    }
    forall p ensures Look(top, p) == Seen(Find(rest - {o}, p), Look(written, p)) {
      assert Look(top, p) == Seen(Find(rest, p), Look(base, p));
    }
  }

  lemma NothingLeft(base: View, top: View)
    requires UnspentOnly(base) && UnspentOnly(top) && Overlays(base, map[], top)
    ensures base == top
  {
    forall o ensures Look(top, o) == Look(base, o) {}
    forall o ensures o in base <==> o in top {
      assert Look(top, o) == Look(base, o);
    }
    forall o | o in base ensures base[o] == top[o] {
      assert Look(top, o) == Look(base, o);
    }
  }

  /** AddCoin on a layer: the new coin shows, and the layer stays in order exactly when the
      caller was right about overwriting. */
  lemma AddLayer(env: Env, base: View, cache: Cache, top: View, usage: int, o: OutPoint, coin: Coin, overwrite: bool)
    requires Layer(env, base, cache, top, usage) && coin.Unspent?
    requires !AddThrows(Find(cache, o), overwrite)
    ensures Layer(env, base, cache[o := Added(Find(cache, o), coin, overwrite)], top[o := coin],
                  usage - (if o in cache then Usage(env, cache[o].coin) else 0) + Usage(env, coin))
            <==> overwrite || o !in top
  {
    AddCoinExact(env, base, cache, top, usage, o, coin, overwrite);
    if overwrite || o !in top {
      UpdateKeeps(env, base, cache, top, usage, o, Some(Added(Find(cache, o), coin, overwrite)));
    }
  }

  lemma SpendLayer(env: Env, base: View, cache: Cache, top: View, usage: int, o: OutPoint)
    requires Layer(env, base, cache, top, usage) && o in cache
    ensures Layer(env, base, Update(cache, o, SpentEntry(cache[o])), top - {o}, usage - Usage(env, cache[o].coin))
    ensures cache[o].coin == Look(top, o)
  {
    LayerAt(env, base, cache, top, usage, o);
    SpendKeeps(cache[o], Look(base, o));
    UpdateKeeps(env, base, cache, top, usage, o, SpentEntry(cache[o]));
  }

  lemma MergeLayer(env: Env, base: View, cache: Cache, top: View, usage: int, o: OutPoint, child: Entry)
    requires Layer(env, base, cache, top, usage)
    requires EntryOk(child, Look(top, o)) && child.isDirty
    ensures !MergeThrows(Find(cache, o), child)
    ensures var e := Merged(Find(cache, o), child);
            Layer(env, base, Update(cache, o, e), SetCoin(top, o, child.coin),
                  usage - (if o in cache then Usage(env, cache[o].coin) else 0)
                  + (if e.Some? then Usage(env, e.value.coin) else 0))
  {
    LayerAt(env, base, cache, top, usage, o);
    MergeKeeps(Find(cache, o), child, Look(base, o));
    UpdateKeeps(env, base, cache, top, usage, o, Merged(Find(cache, o), child));
  }

  lemma EntryAt(base: View, cache: Cache, o: OutPoint)
    requires EntriesOk(base, cache) && o in cache
    ensures EntryOk(cache[o], Look(base, o))
  {}

  // ----- What goes wrong with a misapplied FRESH flag -----

  /** A coin that exists only below is added again without overwrite and then spent: the
      entry vanishes, so the parent still has the first coin after a flush. */
  lemma MisappliedFreshRevives(base: View, o: OutPoint, coin: Coin)
    requires o in base && UnspentOnly(base) && coin.Unspent?
    ensures var e := Added(None, coin, false);
            && !AddThrows(None, false)
            && !EntryOk(e, Look(base, o))
            && SpentEntry(e) == None
            && Seen(SpentEntry(e), Look(base, o)) == base[o] != Spent
  {}
}
