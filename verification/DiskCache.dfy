/**
  `DiskDevice`: a write-back cache of page-sized regions of blocks over an uncached device. The pure part relates
  the cached regions and the platter to the flat disk that readers and writers see.
 */
module DiskCache {
  import opened Helpers
  import opened LRUCache
  import opened RingQueue

  type Block = seq<int>

  // ---------------------------------------------------------------- which region a block is in

  /** The first block of the region of b, for regions of `per` blocks. */
  function Home(b: nat, per: nat): (s: nat)
    requires per > 0
    ensures s <= b < s + per
  {
    if b < per then 0 else per + Home(b - per, per)
  }

  /** What the code computes. */
  lemma {:induction false} HomeIsMod(b: nat, per: nat)
    requires per > 0
    ensures Home(b, per) == b - b % per
  {
    if b >= per {
      HomeIsMod(b - per, per);
      ModShift(b - per, per);
    }
  }

  /** A block is in the region that starts at s exactly when s is its home. */
  lemma {:induction false} HomeIs(s: nat, b: nat, per: nat)
    requires per > 0 && Home(s, per) == s
    ensures s <= b < s + per <==> Home(b, per) == s
  {
    if s >= per && b >= per { HomeIs(s - per, b - per, per); }
  }

  lemma {:induction false} HomeHome(b: nat, per: nat)
    requires per > 0
    ensures Home(Home(b, per), per) == Home(b, per) <= b < Home(b, per) + per
  {
    if b >= per { HomeHome(b - per, per); }
  }

  lemma {:induction false} HomeGrows(b: nat, c: nat, per: nat)
    requires per > 0 && b <= c
    ensures Home(b, per) <= Home(c, per)
  {
    if b >= per { HomeGrows(b - per, c - per, per); }
  }

  /** The regions of n blocks in a row, each once. */
  ghost function Homes(start: nat, n: nat, per: nat): seq<nat>
    requires per > 0
  {
    if n == 0 then []
    else
      var hs, h := Homes(start, n - 1, per), Home(start + n - 1, per);
      if hs != [] && hs[|hs| - 1] == h then hs else hs + [h]
  }

  ghost predicate Different(hs: seq<nat>) { forall i, j :: 0 <= i < j < |hs| ==> hs[i] != hs[j] }

  lemma {:induction false} HomesDiffer(start: nat, n: nat, per: nat)
    requires per > 0
    ensures Different(Homes(start, n, per)) && (Homes(start, n, per) == [] <==> n == 0)
    ensures n > 0 ==> var hs := Homes(start, n, per); hs[|hs| - 1] == Home(start + n - 1, per)
    ensures var hs := Homes(start, n, per); forall i :: 0 <= i < |hs| - 1 ==> hs[i] < hs[|hs| - 1]
  {
    hide Home;
    if n > 0 {
      HomesDiffer(start, n - 1, per);
      if n > 1 { HomeGrows(start + n - 2, start + n - 1, per); }
      var hs, h := Homes(start, n - 1, per), Home(start + n - 1, per);
      if hs != [] && hs[|hs| - 1] != h {
        forall i | 0 <= i < |hs| ensures hs[i] < h { assert i < |hs| - 1 ==> hs[i] < hs[|hs| - 1]; }
      }
    }
  }

  ghost function AsSet(hs: seq<nat>): set<nat> { set h | h in hs }

  // ---------------------------------------------------------------- the cache as a value

  datatype View = View(data: seq<Block>, dirty: bool)
  type Views = map<nat, View>

  /** The regions that still have to be written. */
  ghost function Dirty(views: Views): set<nat> { set s | s in views && views[s].dirty }

  ghost predicate Fitting(s: nat, v: View, platter: seq<Block>, per: nat) {
    && per > 0 && Home(s, per) == s && s + per <= |platter| && |v.data| == per
    && (!v.dirty ==> v.data == platter[s..s + per])
  }

  /** Regions start at multiples of their size and lie on the disk; clean ones hold what the disk holds. */
  ghost predicate Coherent(views: Views, platter: seq<Block>, per: nat) {
    per > 0 && Home(|platter|, per) == |platter| && forall s :: s in views ==> Fitting(s, views[s], platter, per)
  }

  ghost function Look(views: Views, platter: seq<Block>, per: nat, b: nat): Block
    requires b < |platter| && per > 0
  {
    var s := Home(b, per);
    if s in views && b - s < |views[s].data| then views[s].data[b - s] else platter[b]
  }

  /** The disk as its users see it. */
  ghost function Flat(views: Views, platter: seq<Block>, per: nat): (r: seq<Block>)
    requires per > 0
    ensures |r| == |platter|
  {
    seq(|platter|, b requires 0 <= b < |platter| => Look(views, platter, per, b))
  }

  ghost function Stored(platter: seq<Block>, s: nat, data: seq<Block>): (r: seq<Block>)
    requires s + |data| <= |platter|
    ensures |r| == |platter|
  {
    platter[..s] + data + platter[s + |data|..]
  }

  lemma {:induction false} StoredStep(c: seq<Block>, s: nat, buffer: seq<Block>, i: nat)
    requires s + |buffer| <= |c| && i < |buffer|
    ensures Stored(c, s, buffer[..i])[s + i := buffer[i]] == Stored(c, s, buffer[..i + 1])
  {
  }

  lemma {:induction false} StoredEnds(c: seq<Block>, s: nat, buffer: seq<Block>)
    requires s + |buffer| <= |c|
    ensures Stored(c, s, buffer[..0]) == c && Stored(c, s, buffer[..|buffer|]) == Stored(c, s, buffer)
  {
    assert buffer[..|buffer|] == buffer;
  }

  /** A whole region fits where one of its blocks does. */
  lemma {:induction false} RegionFits(b: nat, n: nat, per: nat)
    requires per > 0 && Home(n, per) == n && b < n
    ensures Home(b, per) + per <= n
  {
    if b >= per { RegionFits(b - per, n - per, per); }
  }

  /** Loading a region does not change what is seen. */
  lemma {:induction false} LoadKeeps(views: Views, platter: seq<Block>, per: nat, b: nat)
    requires Coherent(views, platter, per) && b < |platter| && Home(b, per) !in views
    ensures Home(b, per) + per <= |platter|
    ensures
      var s := Home(b, per);
      var views' := views[s := View(platter[s..s + per], false)];
      Coherent(views', platter, per) && Flat(views', platter, per) == Flat(views, platter, per)
  {
    RegionFits(b, |platter|, per);
    HomeHome(b, per);
    hide Home, Look;
    var s := Home(b, per);
    var views' := views[s := View(platter[s..s + per], false)];
    forall x: nat | x < |platter| ensures Look(views', platter, per, x) == Look(views, platter, per, x) {
      LoadLooks(views, platter, per, s, x);
    }
  }

  lemma {:induction false} LoadLooks(views: Views, platter: seq<Block>, per: nat, s: nat, x: nat)
    requires per > 0 && s !in views && s + per <= |platter| && x < |platter|
    ensures Look(views[s := View(platter[s..s + per], false)], platter, per, x) == Look(views, platter, per, x)
  {
    HomeHome(x, per);
  }

  /** Writing a block through its cached region writes that block. */
  lemma {:induction false} WriteShows(views: Views, platter: seq<Block>, per: nat, b: nat, v: Block)
    requires Coherent(views, platter, per) && b < |platter| && Home(b, per) in views
    ensures b - Home(b, per) < |views[Home(b, per)].data|
    ensures
      var s := Home(b, per);
      var views' := views[s := View(views[s].data[b - s := v], true)];
      Coherent(views', platter, per) && Flat(views', platter, per) == Flat(views, platter, per)[b := v]
  {
    HomeHome(b, per);
    var s := Home(b, per);
    assert Fitting(s, views[s], platter, per);
    var views' := views[s := View(views[s].data[b - s := v], true)];
    forall x: nat | x < |platter| ensures Look(views', platter, per, x) == if x == b then v else Look(views, platter, per, x) {
      HomeHome(x, per);
    }
  }

  /** Storing a region leaves the other regions fitting. */
  lemma {:induction false} StoreFits(platter: seq<Block>, per: nat, s: nat, v: View, t: nat, w: View)
    requires Fitting(s, v, platter, per) && Fitting(t, w, platter, per) && s != t
    ensures Fitting(t, w, Stored(platter, s, v.data), per)
  {
    Apart(s, t, per);
  }

  lemma {:induction false} StoreLooks(views: Views, platter: seq<Block>, per: nat, s: nat, x: nat)
    requires s in views && Fitting(s, views[s], platter, per) && x < |platter|
    ensures
      var platter' := Stored(platter, s, views[s].data);
      && Look(views[s := View(views[s].data, false)], platter', per, x) == Look(views, platter, per, x)
      && Look(views - {s}, platter', per, x) == Look(views, platter, per, x)
  {
    HomeIs(s, x, per);
  }

  /** Storing a cached region on the platter does not change what is seen, and the other regions stay coherent. */
  lemma {:induction false} StoreKeeps(views: Views, platter: seq<Block>, per: nat, s: nat)
    requires Coherent(views, platter, per) && s in views
    ensures s + |views[s].data| <= |platter|
    ensures
      var platter' := Stored(platter, s, views[s].data);
      var views' := views[s := View(views[s].data, false)];
      && Coherent(views', platter', per) && Flat(views', platter', per) == Flat(views, platter, per)
      && Coherent(views - {s}, platter', per) && Flat(views - {s}, platter', per) == Flat(views, platter, per)
  {
    assert Fitting(s, views[s], platter, per);
    var platter' := Stored(platter, s, views[s].data);
    var views' := views[s := View(views[s].data, false)];
    assert Fitting(s, views'[s], platter', per);
    forall t | t in views && t != s ensures Fitting(t, views[t], platter', per) {
      StoreFits(platter, per, s, views[s], t, views[t]);
    }
    forall x: nat | x < |platter|
      ensures Look(views', platter', per, x) == Look(views, platter, per, x) == Look(views - {s}, platter', per, x)
    {
      StoreLooks(views, platter, per, s, x);
    }
  }

  lemma {:induction false} Apart(s: nat, t: nat, per: nat)
    requires per > 0 && Home(s, per) == s && Home(t, per) == t && s != t
    ensures s + per <= t || t + per <= s
  {
    HomeIs(s, t, per);
    HomeIs(t, s, per);
  }

  /** Dropping a clean region does not change what is seen. */
  lemma {:induction false} DropKeeps(views: Views, platter: seq<Block>, per: nat, s: nat)
    requires Coherent(views, platter, per) && s in views && !views[s].dirty
    ensures Coherent(views - {s}, platter, per) && Flat(views - {s}, platter, per) == Flat(views, platter, per)
  {
    assert Fitting(s, views[s], platter, per);
    forall x: nat | x < |platter| ensures Look(views - {s}, platter, per, x) == Look(views, platter, per, x) {
      HomeHome(x, per);
    }
  }

  /** With no dirty region the disk holds what is seen. */
  lemma {:induction false} CleanIsStored(views: Views, platter: seq<Block>, per: nat)
    requires Coherent(views, platter, per) && Dirty(views) == {}
    ensures Flat(views, platter, per) == platter
  {
    forall b: nat | b < |platter| ensures Look(views, platter, per, b) == platter[b] {
      HomeHome(b, per);
      var s := Home(b, per);
      if s in views {
        assert Fitting(s, views[s], platter, per);
        assert s !in Dirty(views);
      }
    }
  }

  /** What the steps of the cache do to the regions that have to be written. */
  lemma {:induction false} DirtySteps(views: Views, s: nat, v: View)
    ensures Dirty(views[s := v]) == if v.dirty then Dirty(views) + {s} else Dirty(views) - {s}
    ensures Dirty(views - {s}) == Dirty(views) - {s}
  {
  }

  // ---------------------------------------------------------------- the device

  class CacheRegion {
    const start: nat
    var data: seq<Block>
    var lastUsed: nat
    var dirty: bool

    constructor (start: nat, now: nat)
      ensures this.start == start && data == [] && lastUsed == now && !dirty
    {
      this.start, data, lastUsed, dirty := start, [], now, false;
    }
  }

  /** The counter of cache memory that all devices share. */
  class Accounting {
    var used: nat

    constructor ()
      ensures used == 0
    {
      used := 0;
    }
  }

  class Disk {
    const per: nat
    const account: Accounting
    const cache: Cache<nat, CacheRegion>
    var platter: seq<Block>
    const queue: Queue
    ghost var views: Views
    ghost var regions: set<CacheRegion>

    /** The regions in the cache, each under its own first block, hold what `views` says. */
    ghost predicate Seen()
      reads this`views, this`regions, cache, regions`data, regions`dirty
    {
      cache.Valid() && (forall s :: s in cache.items ==> s in views) && forall s :: s in views ==> Shown(s)
    }

    ghost predicate Shown(s: nat)
      reads this`views, this`regions, cache, regions`data, regions`dirty
    {
      && s in views && s in cache.items && cache.items[s] in regions
      && cache.items[s].start == s && views[s] == View(cache.items[s].data, cache.items[s].dirty)
    }

    ghost predicate Valid()
      reads this`views, this`platter, this`regions, cache, regions`data, regions`dirty
    {
      per > 0 && Seen() && exists v :: v == views && Coherent(v, platter, per)
    }

    ghost function Contents(): seq<Block>
      reads this`views, this`platter
      requires per > 0
    {
      Flat(views, platter, per)
    }

    /** Cache memory accounted for beyond what this device's regions take. */
    ghost function Balance(): int
      reads this`views, account
    {
      account.used - PAGE_SIZE * |views|
    }

    /** Every region that has to be written is in the queue of the write-back thread. */
    ghost predicate Reported()
      reads this`views, queue
    {
      queue.Valid() && forall s :: s in Dirty(views) ==> s in queue.Contents()
    }

    /** Some region in the queue is no longer cached. */
    ghost predicate Stale()
      reads queue, this`views
    {
      queue.Valid() && exists s :: s in queue.Contents() && s !in views
    }

    /** The first i blocks of a write are in the cache, and all their regions but the last are reported. `q` is the queue
        and `dirty` the dirty regions before. */
    ghost predicate Written(q: Ring, dirty: set<nat>, start: nat, i: nat)
      reads this`views, queue
      requires per > 0 && Good(q)
    {
      && queue.Valid() && queue.View() == AddedAll(q, LeftBehind(Homes(start, i, per)))
      && Dirty(views) == dirty + AsSet(Homes(start, i, per))
    }

    ghost predicate Cached(r: CacheRegion)
      reads this`views, cache
    {
      r.start in views && r.start in cache.items && cache.items[r.start] == r
    }

    constructor (platter: seq<Block>, per: nat, account: Accounting)
      requires per > 0 && Home(|platter|, per) == |platter|
      ensures Valid() && fresh(cache) && regions == {} && views == map[] && this.per == per && this.account == account
      ensures this.platter == platter && Contents() == platter && fresh(queue) && queue.Valid() && queue.View() == Ring([], 0, 0, 0)
    {
      this.per, this.account, this.platter, this.views, this.regions := per, account, platter, map[], {};
      this.queue := new Queue();
      this.cache := new Cache<nat, CacheRegion>();
      new;
      assert Coherent(views, platter, per);
    }

    method RegionStart(block: nat) returns (s: nat)
      requires per > 0
      ensures s == Home(block, per)
    {
      HomeIsMod(block, per);
      s := block - block % per;
    }

    /** Looks a region up, which makes it the most recently used. */
    method Fetch(s: nat) returns (hit: Option<CacheRegion>)
      requires Seen()
      modifies cache
      ensures Seen() && cache.items == old(cache.items) && (hit.Some? <==> s in views)
      ensures hit.Some? ==> Cached(hit.value) && hit.value.start == s
    {
      hit := cache.Get(s);
    }

    method Enter(s: nat, r: CacheRegion)
      requires Seen() && s !in views && r.start == s && forall t :: t in views ==> cache.items[t] != r
      modifies this`views, this`regions, cache
      ensures Seen() && cache.items == old(cache.items)[s := r]
      ensures views == old(views)[s := View(r.data, r.dirty)] && regions == old(regions) + {r}
    {
      cache.Insert(s, r);
      views, regions := views[s := View(r.data, r.dirty)], regions + {r};
    }

    /** Makes a region and reads its blocks in. */
    method LoadRegion(s: nat, now: nat) returns (r: CacheRegion)
      requires Seen() && s !in views && s + per <= |platter|
      modifies this`views, this`regions, cache, account
      ensures Seen() && fresh(r) && Cached(r) && r.start == s && regions == old(regions) + {r}
      ensures views == old(views)[s := View(platter[s..s + per], false)] && account.used == old(account.used) + PAGE_SIZE
    {
      r := new CacheRegion(s, now);
      account.used := account.used + PAGE_SIZE;
      r.data := platter[s..s + per];
      Enter(s, r);
    }

    /** The region a block is cached in; it is read in if it is not there. */
    method GetCacheRegion(block: nat, now: nat) returns (r: CacheRegion)
      requires Valid() && block < |platter|
      modifies this`views, this`regions, cache, account
      ensures Valid() && Contents() == old(Contents()) && platter == old(platter)
      ensures Cached(r) && r.start == Home(block, per) && Dirty(views) == Dirty(old(views))
      ensures regions == old(regions) || (fresh(r) && regions == old(regions) + {r})
      ensures Balance() == old(Balance())
    {
      hide Seen, Shown, Dirty, Coherent, Flat, Home;
      ghost var v, p := views, platter;
      var s := RegionStart(block);
      var hit := Fetch(s);
      if hit.Some? {
        return hit.value;
      }
      LoadKeeps(v, p, per, block);
      DirtySteps(v, s, View(p[s..s + per], false));
      NotDirty(v, s);
      r := LoadRegion(s, now);
    }

    /** What is known of a region in the cache. */
    lemma CachedFacts(r: CacheRegion)
      requires Valid() && Cached(r)
      ensures r in regions && Home(r.start, per) == r.start && r.start + per <= |platter| && |r.data| == per
      ensures views[r.start] == View(r.data, r.dirty)
      ensures forall b :: r.start <= b < r.start + per ==> r.data[b - r.start] == Contents()[b]
    {
      assert Shown(r.start) && Fitting(r.start, views[r.start], platter, per);
      forall b | r.start <= b < r.start + per ensures r.data[b - r.start] == Contents()[b] {
        HomeIs(r.start, b, per);
      }
    }

    /** The region of a block, given the region used last. */
    method Select(last: CacheRegion?, block: nat, now: nat) returns (r: CacheRegion)
      requires Valid() && block < |platter| && (last != null ==> Cached(last))
      modifies this`views, this`regions, cache, account, regions`lastUsed
      ensures Valid() && Contents() == old(Contents()) && platter == old(platter)
      ensures Cached(r) && r.start == Home(block, per) && Balance() == old(Balance()) && fresh(regions - old(regions))
      ensures Dirty(views) == Dirty(old(views)) && (last != null && last.start <= block < last.start + per ==> r == last)
    {
      hide Seen, Shown, Coherent, Flat, Dirty;
      if last != null {
        CachedFacts(last);
        HomeIs(last.start, block, per);
      }
      if last == null || !(last.start <= block < last.start + per) {
        r := GetCacheRegion(block, now);
      } else {
        r := last;
      }
      CachedFacts(r);
      r.lastUsed := now;
    }

    /** Reads blocks through the cache. */
    method ReadBlocks(start: nat, count: nat, now: nat) returns (buffer: seq<Block>)
      requires Valid() && start + count <= |platter|
      modifies this`views, this`regions, cache, account, regions`lastUsed
      ensures Valid() && Contents() == old(Contents()) && platter == old(platter)
      ensures buffer == Contents()[start..start + count] && Dirty(views) == Dirty(old(views))
      ensures Balance() == old(Balance()) && fresh(regions - old(regions))
    {
      hide Seen, Shown, Coherent, Flat, Dirty;
      ghost var c := Contents();
      var region: CacheRegion? := null;
      buffer := [];
      for i := 0 to count
        invariant Valid() && Contents() == c && platter == old(platter) && (region != null ==> Cached(region))
        invariant buffer == c[start..start + i] && Dirty(views) == Dirty(old(views))
        invariant Balance() == old(Balance()) && fresh(regions - old(regions))
      {
        var r := Select(region, start + i, now);
        CachedFacts(r);
        buffer := buffer + [r.data[start + i - r.start]];
        region := r;
      }
    }

    method Poke(r: CacheRegion, i: nat, v: Block)
      requires Seen() && Cached(r) && i < |r.data| && i < |views[r.start].data|
      modifies this`views, r`data, r`dirty
      ensures Seen() && Cached(r) && views == old(views)[r.start := View(old(views)[r.start].data[i := v], true)]
    {
      assert Shown(r.start);
      r.dirty := true;
      r.data := r.data[i := v];
      views := views[r.start := View(r.data, true)];
    }

    /** Writes a block in its cached region. */
    method PutBlock(r: CacheRegion, block: nat, v: Block)
      requires Valid() && Cached(r) && block < |platter| && r.start == Home(block, per)
      modifies this`views, r`data, r`dirty
      ensures Valid() && Cached(r) && Contents() == old(Contents())[block := v] && |views| == |old(views)|
      ensures Dirty(views) == Dirty(old(views)) + {r.start}
    {
      hide Seen, Shown, Coherent, Flat, Dirty;
      CachedFacts(r);
      DirtySteps(views, r.start, View(views[r.start].data[block - r.start := v], true));
      WriteShows(views, platter, per, block, v);
      ghost var vs := views;
      Poke(r, block - r.start, v);
      assert views == vs[r.start := View(vs[r.start].data[block - r.start := v], true)];
      assert Coherent(views, platter, per);
    }

    /** Puts a region into the queue of the write-back thread, unless that seems to contain it. */
    method Report(s: nat)
      requires queue.Valid()
      modifies queue
      ensures queue.Valid() && queue.View() == Added(old(queue.View()), s)
    {
      hide Hits, Pushed;
      var hit := queue.Contains(s);
      if !hit { queue.PushBack(s); }
    }

    /** Writes blocks through the cache. With no blocks to write there is no region to report, and the assertion of its
        pointer fails. Otherwise each region written is reported when it is left. */
    method WriteBlocks(start: nat, buffer: seq<Block>, now: nat) returns (ok: bool)
      requires Valid() && queue.Valid() && start + |buffer| <= |platter|
      modifies this`views, this`regions, queue, cache, account, regions
      ensures Valid() && platter == old(platter) && Contents() == Stored(old(Contents()), start, buffer)
      ensures Balance() == old(Balance()) && fresh(regions - old(regions)) && (ok <==> buffer != [])
      ensures queue.Valid() && queue.View() == AddedAll(old(queue.View()), Homes(start, |buffer|, per))
      ensures Dirty(views) == Dirty(old(views)) + AsSet(Homes(start, |buffer|, per))
      ensures old(Reported()) ==> (Reported() <==> NoneMissed(old(queue.View()), Homes(start, |buffer|, per)))
    {
      hide Seen, Shown, Coherent, Flat, Dirty, AddedAll, Homes, NoneMissed, Written;
      ghost var q := queue.View();
      var region := PutBlocks(start, buffer, now);
      HomesEnd(q, start, |buffer|, per);
      if old(Reported()) { WriteMisses(Dirty(old(views)), q, Homes(start, |buffer|, per)); }
      AllWritten(q, Dirty(old(views)), start, |buffer|);
      if region == null {
        return false;
      }
      Report(region.start);
      ok := true;
    }

    /** The loop over the blocks. The last region is not reported yet. */
    method PutBlocks(start: nat, buffer: seq<Block>, now: nat) returns (region: CacheRegion?)
      requires Valid() && queue.Valid() && start + |buffer| <= |platter|
      modifies this`views, this`regions, queue, cache, account, regions
      ensures Valid() && platter == old(platter) && Contents() == Stored(old(Contents()), start, buffer)
      ensures Balance() == old(Balance()) && fresh(regions - old(regions)) && (region != null <==> buffer != [])
      ensures region != null ==> region.start == Home(start + |buffer| - 1, per)
      ensures Written(old(queue.View()), Dirty(old(views)), start, |buffer|)
    {
      hide Seen, Shown, Coherent, Flat, Dirty, Written;
      ghost var c, q := Contents(), queue.View();
      region := null;
      StoredEnds(c, start, buffer);
      NoneWritten(start);
      for i := 0 to |buffer|
        invariant Valid() && platter == old(platter) && (region != null ==> Cached(region))
        invariant Contents() == Stored(c, start, buffer[..i]) && (region != null <==> i > 0)
        invariant Balance() == old(Balance()) && fresh(regions - old(regions))
        invariant region != null ==> region.start == Home(start + i - 1, per)
        invariant Written(q, Dirty(old(views)), start, i)
      {
        StoredStep(c, start, buffer, i);
        region := WriteBlock(region, start, i, buffer[i], now, q, Dirty(old(views)));
      }
    }

    lemma NoneWritten(start: nat)
      requires per > 0 && queue.Valid()
      ensures Written(queue.View(), Dirty(views), start, 0)
    {
    }

    lemma AllWritten(q: Ring, dirty: set<nat>, start: nat, n: nat)
      requires per > 0 && Good(q) && Written(q, dirty, start, n)
      ensures queue.Valid() && queue.View() == AddedAll(q, LeftBehind(Homes(start, n, per)))
      ensures Dirty(views) == dirty + AsSet(Homes(start, n, per)) && (n == 0 ==> queue.View() == AddedAll(q, Homes(start, n, per)))
    {
    }

    /** Writes one block of several. */
    method WriteBlock(last: CacheRegion?, start: nat, i: nat, v: Block, now: nat, ghost q: Ring, ghost dirty: set<nat>)
        returns (r: CacheRegion)
      requires Valid() && start + i < |platter| && (last != null <==> i > 0) && Good(q) && Written(q, dirty, start, i)
      requires last != null ==> Cached(last) && last.start == Home(start + i - 1, per)
      modifies this`views, this`regions, queue, cache, account, regions
      ensures Valid() && Contents() == old(Contents())[start + i := v] && platter == old(platter)
      ensures Cached(r) && r.start == Home(start + i, per) && Balance() == old(Balance()) && fresh(regions - old(regions))
      ensures Written(q, dirty, start, i + 1)
    {
      hide Seen, Shown, Coherent, Flat, Dirty, AddedAll, Homes, LeftBehind, Added;
      HomesStep(q, start, i, per);
      r := NextRegion(last, start + i, now);
      CachedFacts(r);
      PutBlock(r, start + i, v);
    }

    /** The region of the next block to be written. The one before is reported when it is left. */
    method NextRegion(last: CacheRegion?, block: nat, now: nat) returns (r: CacheRegion)
      requires Valid() && queue.Valid() && block < |platter| && (last != null ==> Cached(last))
      modifies this`views, this`regions, queue, cache, account, regions`lastUsed
      ensures Valid() && Contents() == old(Contents()) && platter == old(platter) && queue.Valid()
      ensures Cached(r) && r.start == Home(block, per) && Balance() == old(Balance()) && fresh(regions - old(regions))
      ensures Dirty(views) == Dirty(old(views))
      ensures queue.View() ==
        if last != null && last.start != Home(block, per) then Added(old(queue.View()), last.start) else old(queue.View())
    {
      hide Seen, Shown, Coherent, Flat, Dirty;
      if last != null {
        CachedFacts(last);
        HomeIs(last.start, block, per);
        if !(last.start <= block < last.start + per) { Report(last.start); }
      }
      r := Select(last, block, now);
    }

    /** The least recently used region. */
    method Least() returns (r: CacheRegion)
      requires Seen() && cache.order != []
      ensures Cached(r) && r.start == cache.order[0] && views[r.start] == View(r.data, r.dirty)
    {
      var lru := cache.Lru();
      assert Shown(lru.value.0);
      r := lru.value.1;
    }

    method Forget()
      requires Seen() && cache.order != [] && cache.order[0] in views
      modifies this`views, cache
      ensures Seen() && views == old(views) - {old(cache.order)[0]} && cache.order == old(cache.order)[1..]
      ensures |views| == |old(views)| - 1
    {
      hide Recency;
      ghost var s := cache.order[0];
      assert cache.order[..1] == [s];
      cache.Prune(1);
      assert cache.items == old(cache.items) - {s};
      views := views - {s};
    }

    /** Drops the least recently used region, after storing it if it is dirty. */
    method EvictLru() returns (ghost s: nat)
      requires Valid() && cache.order != [] && account.used >= PAGE_SIZE
      modifies this`views, this`platter, cache, account
      ensures Valid() && Contents() == old(Contents()) && Balance() == old(Balance())
      ensures s == old(cache.order)[0] && s in old(views) && views == old(views) - {s} && |views| == |old(views)| - 1
      ensures cache.order == old(cache.order)[1..] && Dirty(views) == Dirty(old(views)) - {s}
    {
      hide Seen, Shown, Coherent, Flat, Dirty;
      var r := Least();
      DirtySteps(views, r.start, views[r.start]);
      s := r.start;
      ghost var v, p := views, platter;
      StoreKeeps(v, p, per, s);
      if r.dirty {
        platter := platter[..r.start] + r.data + platter[r.start + |r.data|..];
        assert platter == Stored(p, s, v[s].data);
      } else {
        DropKeeps(v, p, per, s);
      }
      account.used := account.used - PAGE_SIZE;
      Forget();
      assert Coherent(views, platter, per);
    }

    method MarkClean(r: CacheRegion)
      requires Seen() && Cached(r)
      modifies this`views, r`dirty
      ensures Seen() && Cached(r) && views == old(views)[r.start := View(r.data, false)]
    {
      assert Shown(r.start);
      r.dirty := false;
      views := views[r.start := View(r.data, false)];
    }

    /** One step of the write-back thread: stores a region that was reported dirty, if it is still cached. */
    method Writeback(loc: nat) returns (found: bool)
      requires Valid()
      modifies this`views, this`platter, cache, regions`dirty
      ensures Valid() && Contents() == old(Contents()) && found == (loc in old(views)) && |views| == |old(views)|
      ensures views.Keys == old(views).Keys && Dirty(views) == Dirty(old(views)) - {loc} && regions == old(regions)
      ensures found ==> loc in views && !views[loc].dirty && loc + |old(views)[loc].data| <= |old(platter)|
      ensures platter == if found then Stored(old(platter), loc, old(views)[loc].data) else old(platter)
      ensures found ==> Home(loc, per) == loc && |old(views)[loc].data| == per
    {
      hide Seen, Coherent, Flat, Dirty;
      var hit := Fetch(loc);
      found := hit.Some?;
      DirtySteps(views, loc, if found then View(views[loc].data, false) else View([], false));
      NotDirty(views, loc);
      if found {
        var r := hit.value;
        CachedFacts(r);
        StoreKeeps(views, platter, per, loc);
        platter := platter[..r.start] + r.data + platter[r.start + |r.data|..];
        MarkClean(r);
        assert Coherent(views, platter, per);
      }
    }

    /** One turn of the write-back thread on this device: the first n entries of the queue are taken out and their regions
        stored. It ends with the queue, or at a region that is no longer cached; that ends the thread. */
    method WritebackQueue() returns (ok: bool, ghost n: nat)
      requires Valid() && queue.Valid()
      modifies this`views, this`platter, queue, cache, regions`dirty
      ensures Valid() && Contents() == old(Contents()) && regions == old(regions) && views.Keys == old(views).Keys && queue.Valid()
      ensures (ok <==> !old(Stale())) && n <= |old(queue.Contents())| && (ok <==> n == |old(queue.Contents())|)
      ensures queue.Contents() == if ok then [] else old(queue.Contents())[n + 1..]
      ensures Dirty(views) == Dirty(old(views)) - AsSet(old(queue.Contents())[..n])
      ensures |platter| == |old(platter)|
      ensures forall b :: 0 <= b < |platter| && Home(b, per) !in old(queue.Contents()) ==> platter[b] == old(platter)[b]
      ensures ok && old(Reported()) ==> platter == Contents()
    {
      hide Seen, Coherent, Flat, Dirty, Good, Elements, AsSet, Stored, Home;
      ghost var q := queue.Contents();
      NoneTaken(q);
      n := 0;
      while queue.size > 0
        invariant Valid() && Contents() == old(Contents()) && regions == old(regions) && views.Keys == old(views).Keys
        invariant queue.Valid() && n <= |q| && queue.Contents() == q[n..] && forall i :: 0 <= i < n ==> q[i] in old(views)
        invariant Dirty(views) == Dirty(old(views)) - AsSet(q[..n]) && |platter| == |old(platter)|
        invariant forall b :: 0 <= b < |platter| && Home(b, per) !in q ==> platter[b] == old(platter)[b]
        decreases |q| - n
      {
        var loc := queue.PopFront();
        assert loc == q[n] && loc in q;
        ghost var p, v := platter, views;
        NotDirty(views, loc);
        TakeOne(q, n);
        var found := Writeback(loc);
        if !found {
          assert loc in q && loc !in old(views);
          return false, n;
        }
        OutsideKept(p, loc, per, v[loc].data, q);
        n := n + 1;
      }
      assert q[..n] == q;
      ok := true;
      if old(Reported()) {
        AllTaken(Dirty(old(views)), q);
        CleanIsStored(views, platter, per);
      }
    }
  }

  lemma NotDirty(views: Views, s: nat)
    ensures s !in views ==> s !in Dirty(views)
  {
  }

  lemma NoneTaken(q: seq<nat>)
    ensures AsSet(q[..0]) == {}
  {
  }

  lemma AllTaken(dirty: set<nat>, q: seq<nat>)
    requires forall s :: s in dirty ==> s in q
    ensures dirty - AsSet(q) == {}
  {
  }

  lemma TakeOne(q: seq<nat>, n: nat)
    requires n < |q|
    ensures AsSet(q[..n + 1]) == AsSet(q[..n]) + {q[n]}
  {
    assert q[..n + 1] == q[..n] + [q[n]];
  }

  /** Storing a region changes no block of another one. */
  lemma {:induction false} OutsideKept(p: seq<Block>, loc: nat, per: nat, data: seq<Block>, q: seq<nat>)
    requires per > 0 && Home(loc, per) == loc && loc in q && |data| == per && loc + per <= |p|
    ensures forall b :: 0 <= b < |p| && Home(b, per) !in q ==> Stored(p, loc, data)[b] == p[b]
  {
    forall b | 0 <= b < |p| && Home(b, per) !in q ensures Stored(p, loc, data)[b] == p[b] { HomeIs(loc, b, per); }
  }

  // ---------------------------------------------------------------- what a write reports

  /** All regions but the last, which is still being written. */
  ghost function LeftBehind(hs: seq<nat>): seq<nat> { if hs == [] then [] else hs[..|hs| - 1] }

  /** The next block is in the last region, or in a new one, and then the last one is reported. */
  lemma {:induction false} HomesStep(q: Ring, start: nat, i: nat, per: nat)
    requires per > 0 && Good(q)
    ensures
      var hs, hs', h := Homes(start, i, per), Homes(start, i + 1, per), Home(start + i, per);
      && (i > 0 ==> hs != [] && hs[|hs| - 1] == Home(start + i - 1, per)) && AsSet(hs') == AsSet(hs) + {h}
      && AddedAll(q, LeftBehind(hs')) ==
           if i > 0 && Home(start + i - 1, per) != h then Added(AddedAll(q, LeftBehind(hs)), Home(start + i - 1, per))
           else AddedAll(q, LeftBehind(hs))
  {
    HomesDiffer(start, i, per);
    var hs, h := Homes(start, i, per), Home(start + i, per);
    if i > 0 && hs[|hs| - 1] != h {
      assert LeftBehind(hs + [h]) == hs;
    }
  }

  lemma {:induction false} HomesEnd(q: Ring, start: nat, n: nat, per: nat)
    requires per > 0 && Good(q)
    ensures
      var hs := Homes(start, n, per);
      && Different(hs)
      && AddedAll(q, hs) == if n == 0 then q else Added(AddedAll(q, LeftBehind(hs)), Home(start + n - 1, per))
  {
    HomesDiffer(start, n, per);
  }

  /** For each region, when its turn comes, it is in the queue already or no slot without an element looks like it. */
  ghost predicate NoneMissed(q: Ring, hs: seq<nat>)
    requires Good(q)
  {
    forall i {:trigger hs[i]} :: 0 <= i < |hs| ==> hs[i] in Elements(q) || !DeadHit(AddedAll(q, hs[..i]), hs[i])
  }

  /** If all dirty regions were in the queue, then all are after a write if and only if none was missed. */
  lemma {:induction false} WriteMisses(dirty: set<nat>, q: Ring, hs: seq<nat>)
    requires Good(q) && Different(hs) && forall s :: s in dirty ==> s in Elements(q)
    ensures (forall s :: s in dirty + AsSet(hs) ==> s in Elements(AddedAll(q, hs))) <==> NoneMissed(q, hs)
  {
    forall s | s in dirty ensures s in Elements(AddedAll(q, hs)) { OnlyAdded(q, hs, s); }
    forall i | 0 <= i < |hs|
      ensures hs[i] in Elements(AddedAll(q, hs)) <==> hs[i] in Elements(q) || !DeadHit(AddedAll(q, hs[..i]), hs[i])
    {
      AddedAllQueues(q, hs, i);
    }
    if forall s :: s in dirty + AsSet(hs) ==> s in Elements(AddedAll(q, hs)) {
      forall i | 0 <= i < |hs| ensures hs[i] in Elements(AddedAll(q, hs)) { assert hs[i] in AsSet(hs); }
    }
  }

  // ---------------------------------------------------------------- all devices together

  ghost function Sum(counts: seq<nat>): nat {
    if counts == [] then 0 else Sum(counts[..|counts| - 1]) + counts[|counts| - 1]
  }

  lemma {:induction false} SumLess(counts: seq<nat>, k: nat)
    requires k < |counts| && counts[k] > 0
    ensures Sum(counts[k := counts[k] - 1]) == Sum(counts) - 1
  {
    var n := |counts| - 1;
    if k < n {
      SumLess(counts[..n], k);
      assert counts[k := counts[k] - 1][..n] == counts[..n][k := counts[k] - 1];
    } else {
      assert counts[k := counts[k] - 1][..n] == counts[..n];
    }
  }

  lemma {:induction false} SumZero(counts: seq<nat>)
    requires forall i :: 0 <= i < |counts| ==> counts[i] == 0
    ensures Sum(counts) == 0
  {
    if counts != [] { SumZero(counts[..|counts| - 1]); }
  }

  /** How many regions each device caches. */
  ghost function Counts(disks: seq<Disk>): seq<nat>
    reads disks
  {
    seq(|disks|, i requires 0 <= i < |disks| reads disks => |disks[i].views|)
  }

  ghost predicate Distinct(disks: seq<Disk>, account: Accounting) {
    && (forall i :: 0 <= i < |disks| ==> disks[i].account == account)
    && forall i, j :: 0 <= i < j < |disks| ==> disks[i] != disks[j] && disks[i].cache != disks[j].cache
  }

  /** The device whose least recently used region was used longest ago; none if nothing is cached. */
  method Choose(disks: seq<Disk>) returns (k: Option<nat>)
    requires forall i :: 0 <= i < |disks| ==> disks[i].Valid()
    ensures k.None? ==> forall i :: 0 <= i < |disks| ==> disks[i].cache.order == []
    ensures k.Some? ==> k.value < |disks| && disks[k.value].cache.order != []
    ensures k.Some? ==> forall i :: 0 <= i < |disks| && disks[i].cache.order != [] ==>
      LruTime(disks[k.value]) <= LruTime(disks[i])
  {
    hide Disk.Seen, Coherent;
    k := None;
    var time := 0;
    for i := 0 to |disks|
      invariant k.None? ==> forall j :: 0 <= j < i ==> disks[j].cache.order == []
      invariant k.Some? ==> k.value < i && disks[k.value].cache.order != [] && time == LruTime(disks[k.value])
      invariant k.Some? ==> forall j :: 0 <= j < i && disks[j].cache.order != [] ==> time <= LruTime(disks[j])
    {
      if disks[i].cache.order != [] {
        var r := disks[i].Least();
        if k.None? || r.lastUsed < time { k, time := Some(i), r.lastUsed; }
      }
    }
  }

  /** An empty list is an empty cache. */
  lemma {:induction false} NothingCached(d: Disk)
    requires d.Valid()
    ensures |d.views| == 0 <==> d.cache.order == []
  {
    KeysOfAre(d.cache.order);
    if d.cache.order == [] {
      assert d.views == map[];
    } else {
      assert d.cache.order[0] in d.views;
    }
  }

  lemma {:induction false} AllEmpty(disks: seq<Disk>)
    requires forall i :: 0 <= i < |disks| ==> disks[i].Valid() && disks[i].cache.order == []
    ensures Sum(Counts(disks)) == 0
  {
    forall i | 0 <= i < |disks| ensures Counts(disks)[i] == 0 { NothingCached(disks[i]); }
    SumZero(Counts(disks));
  }

  /** One round of reclaiming: a region of the device chosen goes, and nothing else. */
  method Reclaim(disks: seq<Disk>, account: Accounting, k: nat)
    requires Distinct(disks, account) && (forall i :: 0 <= i < |disks| ==> disks[i].Valid())
    requires k < |disks| && disks[k].cache.order != [] && account.used == PAGE_SIZE * Sum(Counts(disks))
    modifies disks, (set d | d in disks :: d.cache), account
    ensures forall i :: 0 <= i < |disks| ==> disks[i].Valid() && disks[i].Contents() == old(disks[i].Contents())
    ensures account.used == PAGE_SIZE * Sum(Counts(disks)) && Sum(Counts(disks)) == old(Sum(Counts(disks))) - 1
  {
    hide Disk.Seen, Coherent, Flat;
    ghost var counts := Counts(disks);
    NothingCached(disks[k]);
    SumLess(counts, k);
    ghost var s := disks[k].EvictLru();
    assert Counts(disks) == counts[k := counts[k] - 1];
  }

  /** Frees cache pages across all devices: as many as asked for, or all there are. */
  method FreePages(disks: seq<Disk>, account: Accounting, n: nat) returns (freed: nat)
    requires Distinct(disks, account) && (forall i :: 0 <= i < |disks| ==> disks[i].Valid())
    requires account.used == PAGE_SIZE * Sum(Counts(disks))
    modifies disks, (set d | d in disks :: d.cache), account
    ensures forall i :: 0 <= i < |disks| ==> disks[i].Valid() && disks[i].Contents() == old(disks[i].Contents())
    ensures account.used == PAGE_SIZE * Sum(Counts(disks)) && Sum(Counts(disks)) == old(Sum(Counts(disks))) - freed
    ensures freed == if n < old(Sum(Counts(disks))) then n else old(Sum(Counts(disks)))
  {
    hide Disk.Seen, Coherent, Flat;
    freed := 0;
    while freed < n
      invariant freed <= n && forall i :: 0 <= i < |disks| ==> disks[i].Valid() && disks[i].Contents() == old(disks[i].Contents())
      invariant account.used == PAGE_SIZE * Sum(Counts(disks)) && Sum(Counts(disks)) == old(Sum(Counts(disks))) - freed
    {
      var k := Choose(disks);
      if k.None? {
        AllEmpty(disks);
        break;
      }
      Reclaim(disks, account, k.value);
      freed := freed + 1;
    }
  }

  // ---------------------------------------------------------------- the write-back thread

  ghost predicate Separate(disks: seq<Disk>)
    reads disks
  {
    forall i, j :: 0 <= i < j < |disks| ==>
      && disks[i] != disks[j] && disks[i].cache != disks[j].cache && disks[i].queue != disks[j].queue
      && disks[i].regions !! disks[j].regions
  }

  /** A device before a turn: what its users see, the queue, the dirty regions, and whether the queue is stale. */
  datatype Device = Device(blocks: seq<Block>, queue: seq<nat>, dirty: set<nat>, stale: bool)

  /** The device is in order and its users see the given blocks. */
  ghost predicate Shows(d: Disk, blocks: seq<Block>)
    reads d`views, d`platter, d`regions, d.queue, d.cache, d.regions`data, d.regions`dirty
  {
    d.Valid() && d.queue.Valid() && d.Contents() == blocks
  }

  ghost predicate Stands(d: Disk, was: Device)
    reads d`views, d`platter, d`regions, d.queue, d.cache, d.regions`data, d.regions`dirty
  {
    Shows(d, was.blocks) && d.queue.Contents() == was.queue && Dirty(d.views) == was.dirty && d.Stale() == was.stale
  }

  /** A turn on the device has come to the end of the queue: exactly the regions of the queue are clean, and if those were
      all dirty ones the disk holds what is seen. */
  ghost predicate WrittenBack(d: Disk, was: Device)
    reads d`views, d`platter, d`regions, d.queue, d.cache, d.regions`data, d.regions`dirty
  {
    && Shows(d, was.blocks) && d.queue.Contents() == [] && Dirty(d.views) == was.dirty - AsSet(was.queue)
    && (was.dirty <= AsSet(was.queue) ==> d.platter == was.blocks)
  }

  /** One turn of the write-back thread on one device. */
  method WritebackOne(d: Disk, ghost was: Device) returns (ok: bool)
    requires Stands(d, was)
    modifies d`views, d`platter, d.queue, d.cache, d.regions`dirty
    ensures Shows(d, was.blocks) && (ok <==> !was.stale) && (ok ==> WrittenBack(d, was))
  {
    hide Disk.Seen, Coherent, Flat, Dirty, Disk.Stale;
    ghost var n, q := 0, d.queue.Contents();
    ok, n := d.WritebackQueue();
    assert ok ==> q[..n] == q;
  }

  /** One turn of the write-back thread over all devices. It goes on after it if and only if no device has a stale entry in
      its queue; otherwise the thread ends for good. */
  method WritebackPass(disks: seq<Disk>, ghost was: seq<Device>) returns (ok: bool)
    requires Separate(disks) && |was| == |disks| && forall i :: 0 <= i < |disks| ==> Stands(disks[i], was[i])
    modifies disks, (set d | d in disks :: d.queue), (set d | d in disks :: d.cache), (set d, x | d in disks && x in d.regions :: x)`dirty
    ensures forall i :: 0 <= i < |disks| ==> Shows(disks[i], was[i].blocks)
    ensures ok <==> forall i :: 0 <= i < |disks| ==> !was[i].stale
    ensures ok ==> forall i :: 0 <= i < |disks| ==> WrittenBack(disks[i], was[i])
  {
    hide Shows, Stands, WrittenBack;
    for i := 0 to |disks|
      invariant Separate(disks) && forall j :: 0 <= j < |disks| ==> disks[j].regions == old(disks[j].regions)
      invariant forall j :: 0 <= j < i ==> !was[j].stale && WrittenBack(disks[j], was[j])
      invariant forall j :: i <= j < |disks| ==> Stands(disks[j], was[j])
    {
      ok := WritebackOne(disks[i], was[i]);
      if !ok {
        AllShow(disks, was, i);
        return false;
      }
    }
    AllShow(disks, was, |disks|);
    ok := true;
  }

  lemma AllShow(disks: seq<Disk>, was: seq<Device>, n: nat)
    requires |was| == |disks| && forall j :: 0 <= j < |disks| && j < n ==> WrittenBack(disks[j], was[j])
    requires forall j :: n < j < |disks| ==> Stands(disks[j], was[j])
    requires n < |disks| ==> Shows(disks[n], was[n].blocks)
    ensures forall j :: 0 <= j < |disks| ==> Shows(disks[j], was[j].blocks)
  {
  }

  ghost function LruTime(d: Disk): nat
    reads d.cache, d.cache.items.Values
  {
    if d.cache.order != [] && d.cache.order[0] in d.cache.items then d.cache.items[d.cache.order[0]].lastUsed else 0
  }

  // ---------------------------------------------------------------- whole runs

  datatype Op = Read(start: nat, count: nat) | Write(start: nat, buffer: seq<Block>) | Evict | WriteBack(loc: nat)

  ghost predicate Legal(size: nat, op: Op) {
    match op
    case Read(start, count) => start + count <= size
    case Write(start, buffer) => start + |buffer| <= size
    case Evict => true
    case WriteBack(_) => true
  }

  /** The operations on a disk without a cache. */
  ghost function Step(disk: seq<Block>, op: Op): (r: seq<Block>)
    requires Legal(|disk|, op)
    ensures |r| == |disk|
  {
    if op.Write? then Stored(disk, op.start, op.buffer) else disk
  }

  ghost function Output(disk: seq<Block>, op: Op): seq<Block>
    requires Legal(|disk|, op)
  {
    if op.Read? then disk[op.start..op.start + op.count] else []
  }

  /** A write of no blocks stops the kernel. */
  predicate Stops(op: Op) { op.Write? && op.buffer == [] }

  ghost predicate AllLegal(size: nat, ops: seq<Op>) { forall i :: 0 <= i < |ops| ==> Legal(size, ops[i]) }

  /** What the first n operations return, and the disk after them. */
  ghost function Outputs(disk: seq<Block>, ops: seq<Op>, n: nat): seq<seq<Block>>
    requires AllLegal(|disk|, ops) && n <= |ops|
    decreases |ops|
  {
    if n == 0 then [] else [Output(disk, ops[0])] + Outputs(Step(disk, ops[0]), ops[1..], n - 1)
  }

  ghost function Final(disk: seq<Block>, ops: seq<Op>, n: nat): seq<Block>
    requires AllLegal(|disk|, ops) && n <= |ops|
    decreases |ops|
  {
    if n == 0 then disk else Final(Step(disk, ops[0]), ops[1..], n - 1)
  }

  method Perform(d: Disk, op: Op, now: nat) returns (ok: bool, out: seq<Block>)
    requires d.Valid() && d.queue.Valid() && d.Balance() >= 0 && Legal(|d.Contents()|, op)
    modifies d, d.queue, d.cache, d.account, d.regions
    ensures d.Valid() && d.Balance() == old(d.Balance()) && fresh(d.regions - old(d.regions)) && (ok <==> !Stops(op))
    ensures d.Contents() == Step(old(d.Contents()), op) && out == Output(old(d.Contents()), op)
    ensures d.queue.Valid() && (!op.Write? && old(d.Reported()) ==> d.Reported())
  {
    hide Disk.Seen, Coherent, Dirty;
    ok, out := true, [];
    match op
    case Read(start, count) =>
      out := d.ReadBlocks(start, count, now);
    case Write(start, buffer) =>
      ok := d.WriteBlocks(start, buffer, now);
    case Evict =>
      NothingCached(d);
      if d.cache.order != [] {
        ghost var s := d.EvictLru();
      }
    case WriteBack(loc) =>
      var found := d.Writeback(loc);
  }

  /** Any run of reads, writes, evictions and write-backs returns, and leaves, what it would without a cache, up to a
      write of no blocks. */
  method Run(d: Disk, ops: seq<Op>, now: nat) returns (outs: seq<seq<Block>>, done: nat)
    requires d.Valid() && d.queue.Valid() && d.Balance() >= 0 && AllLegal(|d.Contents()|, ops)
    modifies d, d.queue, d.cache, d.account, d.regions
    ensures d.Valid() && d.queue.Valid() && d.Balance() == old(d.Balance()) && fresh(d.regions - old(d.regions))
    ensures done <= |ops| && (done < |ops| ==> Stops(ops[done])) && forall i :: 0 <= i < done ==> !Stops(ops[i])
    ensures outs == Outputs(old(d.Contents()), ops, done) && d.Contents() == Final(old(d.Contents()), ops, done)
    decreases |ops|
  {
    hide Disk.Seen, Coherent, Flat, Dirty;
    outs, done := [], 0;
    if ops != [] && !Stops(ops[0]) {
      var ok, out := Perform(d, ops[0], now);
      outs, done := Run(d, ops[1..], now + 1);
      outs, done := [out] + outs, done + 1;
    }
  }

  /** Evicting a region that is in the queue ends the write-back thread at its next turn. */
  method EvictedEndsWriteback(d: Disk) returns (ok: bool)
    requires d.Valid() && d.queue.Valid() && d.cache.order != [] && d.account.used >= PAGE_SIZE
    modifies d, d.queue, d.cache, d.account, d.regions
    ensures old(d.cache.order)[0] in old(d.queue.Contents()) ==> !ok
  {
    hide Disk.Seen, Coherent, Flat, Dirty, Elements;
    ghost var s := d.EvictLru();
    ghost var n;
    ok, n := d.WritebackQueue();
  }

  lemma LostHomes()
    ensures Home(32, 8) == 32 && Homes(8, 1, 8) == [8] && Homes(16, 1, 8) == [16] && Homes(24, 1, 8) == [24] && Homes(0, 1, 8) == [0]
  {
    assert Home(0, 8) == 0 && Home(8, 8) == 8 && Home(16, 8) == 16 && Home(24, 8) == 24;
    assert forall s: nat :: Homes(s, 0, 8) == [];
  }

  lemma AddedSingle(q: Ring, v: nat)
    requires Good(q)
    ensures AddedAll(q, [v]) == Added(q, v)
  {
    assert [v][..0] == [];
  }

  /** What the four writes do to a new queue. */
  lemma LostReports()
    ensures
      var a, b, c, d := Ring([], 0, 0, 0), Ring([8], 0, 0, 1), Ring([8, 16], 0, 1, 2), Ring([8, 16, 24, 0], 0, 2, 3);
      && Good(a) && Good(b) && Good(c) && Good(d)
      && AddedAll(a, [8]) == b && AddedAll(b, [16]) == c && AddedAll(c, [24]) == d && AddedAll(d, [0]) == d
      && Elements(d) == [8, 16, 24]
  {
    var a, b, c, d := Ring([], 0, 0, 0), Ring([8], 0, 0, 1), Ring([8, 16], 0, 1, 2), Ring([8, 16, 24, 0], 0, 2, 3);
    hide Pushed, AddedAll, Hits;
    FirstPushes();
    NeverPushed();
    FullExact(a, 8);
    FullExact(b, 16);
    FullExact(c, 24);
    AddedSingle(a, 8);
    AddedSingle(b, 16);
    AddedSingle(c, 24);
    AddedSingle(d, 0);
  }

  /** A write of one block. */
  method WriteOne(d: Disk, b: nat, v: Block, ghost q: Ring)
    requires d.Valid() && d.queue.Valid() && d.per == 8 && b < |d.platter| && Homes(b, 1, 8) == [b] && d.queue.View() == q
    modifies d, d.queue, d.cache, d.account, d.regions
    ensures d.Valid() && d.queue.Valid() && d.queue.View() == AddedAll(q, [b]) && d.platter == old(d.platter)
    ensures d.Contents() == old(d.Contents())[b := v] && Dirty(d.views) == Dirty(old(d.views)) + {b}
    ensures fresh(d.regions - old(d.regions))
  {
    hide Disk.Seen, Coherent, Flat, Dirty, Homes, AddedAll, NoneMissed, Disk.Reported;
    var ok := d.WriteBlocks(b, [v], 0);
    assert AsSet([b]) == {b};
  }

  /** Four writes, to the regions at 8, 16, 24 and 0, and a turn of the write-back thread that ends well: the first block
      is not on the disk, and no turn will put it there until the region is written again. */
  method LostWrite() returns (d: Disk, ok: bool)
    ensures ok && d.Valid() && d.queue.Valid() && d.queue.Contents() == [] && 0 in Dirty(d.views)
    ensures |d.platter| > 0 && d.Contents()[0] == [1] && d.platter[0] == [0]
  {
    hide Disk.Seen, Coherent, Flat, Elements, Homes, AddedAll;
    LostHomes();
    LostReports();
    var account := new Accounting();
    d := new Disk(seq(32, _ => [0]), 8, account);
    WriteOne(d, 8, [1], Ring([], 0, 0, 0));
    WriteOne(d, 16, [1], Ring([8], 0, 0, 1));
    WriteOne(d, 24, [1], Ring([8, 16], 0, 1, 2));
    WriteOne(d, 0, [1], Ring([8, 16, 24, 0], 0, 2, 3));
    assert d.queue.Contents() == [8, 16, 24];
    assert 8 in Dirty(d.views) && 16 in Dirty(d.views) && 24 in Dirty(d.views);
    ghost var n;
    ok, n := d.WritebackQueue();
  }
}
