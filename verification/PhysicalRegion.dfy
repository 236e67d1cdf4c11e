/**
  `PhysicalRegion`: a range of pages cut into buddy zones that share the page array.
 */
module PhysicalRegion {
  import opened Helpers
  import opened BuddyBlocks
  import opened BuddyZone

  /** The records of all pages, and the rest of what one zone looks like at one moment. */
  datatype Links = Links(next: seq<int>, prev: seq<int>)

  datatype ZoneView = ZoneView(first: nat, highest: nat, freelist: seq<int>, bits: seq<seq<bool>>, lists: seq<seq<nat>>, free: nat)

  ghost function End(v: ZoneView): nat { v.first + Pow2(v.highest) }

  ghost function At(v: ZoneView, l: Links): Layout { Layout(v.first, v.highest, v.freelist, v.bits, l.next, l.prev) }

  /** The zone is in order and its counter is exact. */
  ghost predicate InOrder(v: ZoneView, l: Links) {
    Rep(At(v, l), v.lists) && v.free == |PageSet(Blocks(v.lists), v.highest)|
  }

  /** The zones follow each other from page `start` to page `end`. */
  ghost predicate Tiled(vs: seq<ZoneView>, start: nat, end: nat) {
    if vs == [] then start == end else
      var last := vs[|vs| - 1];
      End(last) == end && Tiled(vs[..|vs| - 1], start, last.first)
  }

  ghost function SumFree(vs: seq<ZoneView>): nat {
    if vs == [] then 0 else SumFree(vs[..|vs| - 1]) + vs[|vs| - 1].free
  }

  ghost predicate Arranged(vs: seq<ZoneView>, l: Links, start: nat, end: nat) {
    Tiled(vs, start, end) && forall j {:trigger InOrder(vs[j], l)} :: 0 <= j < |vs| ==> InOrder(vs[j], l)
  }

  // ---------------------------------------------------------------- one zone at a time

  ghost predicate SameLength(l: Links, l': Links) { |l'.next| == |l.next| && |l'.prev| == |l.prev| }

  ghost predicate Same(x: nat, l: Links, l': Links) { SameRecord(x, l.next, l.prev, l'.next, l'.prev) }

  /** The page is on a freelist of the zone, as the first page of a block or behind one. */
  ghost predicate FreeIn(v: ZoneView, x: nat) { InFree(v.first, Blocks(v.lists), x) }

  /** The page belongs to the zone and is not free. */
  ghost predicate UsedIn(v: ZoneView, x: nat) { v.first <= x < End(v) && !FreeIn(v, x) }

  /** A zone depends on the records of its free pages only. */
  lemma {:induction false} OrderFrame(v: ZoneView, l: Links, l': Links)
    requires InOrder(v, l) && SameLength(l, l')
    requires forall x: nat {:trigger Same(x, l, l')} :: FreeIn(v, x) ==> Same(x, l, l')
    ensures InOrder(v, l')
  {
    var z, z' := At(v, l), At(v, l');
    forall k | 0 <= k <= v.highest ensures Threaded(v.lists[k], k, z'.freelist[k], z'.first, z'.next, z'.prev) {
      assert Threaded(v.lists[k], k, z.freelist[k], z.first, z.next, z.prev);
      forall j | 0 <= j < |v.lists[k]| ensures Untouched(v.first + Start(v.lists[k][j], k), z, z') {
        ListedInFree(z, v.lists, k, j);
        assert Same(v.first + Start(v.lists[k][j], k), l, l');
      }
      ThreadFrame(v.lists[k], k, z, z');
    }
  }

  lemma {:induction false} FreeInside(v: ZoneView, l: Links, x: nat)
    requires InOrder(v, l) && FreeIn(v, x)
    ensures v.first <= x < End(v) && v.free > 0
  {
    var c :| c in Blocks(v.lists) && Has(c, x - v.first);
    PageInZone(c, x - v.first, v.highest);
    assert x - v.first in PageSet(Blocks(v.lists), v.highest);
  }

  // ---------------------------------------------------------------- all zones together

  lemma {:induction false} TiledBounds(vs: seq<ZoneView>, start: nat, end: nat, j: nat)
    requires Tiled(vs, start, end) && j < |vs|
    ensures start <= vs[j].first && End(vs[j]) <= end
  {
    var init := vs[..|vs| - 1];
    if j < |init| {
      TiledBounds(init, start, vs[|init|].first, j);
    } else if init != [] {
      TiledBounds(init, start, vs[|init|].first, 0);
    }
  }

  lemma {:induction false} TiledApart(vs: seq<ZoneView>, start: nat, end: nat, i: nat, j: nat)
    requires Tiled(vs, start, end) && i < j < |vs|
    ensures End(vs[i]) <= vs[j].first
  {
    var init := vs[..|vs| - 1];
    if j < |init| {
      TiledApart(init, start, vs[|init|].first, i, j);
    } else {
      TiledBounds(init, start, vs[|init|].first, i);
    }
  }

  lemma {:induction false} TiledSame(vs: seq<ZoneView>, k: nat, v: ZoneView, start: nat, end: nat)
    requires Tiled(vs, start, end) && k < |vs| && v.first == vs[k].first && v.highest == vs[k].highest
    ensures Tiled(vs[k := v], start, end)
  {
    var n := |vs| - 1;
    if k < n {
      TiledSame(vs[..n], k, v, start, vs[n].first);
      assert vs[k := v][..n] == vs[..n][k := v];
    } else {
      assert vs[k := v][..n] == vs[..n];
    }
  }

  /** Every page of the region lies in some zone. */
  lemma {:induction false} TiledFinds(vs: seq<ZoneView>, start: nat, end: nat, page: nat) returns (k: nat)
    requires Tiled(vs, start, end) && start <= page < end
    ensures k < |vs| && vs[k].first <= page < End(vs[k])
  {
    k := |vs| - 1;
    if page < vs[k].first { k := TiledFinds(vs[..k], start, vs[k].first, page); }
  }

  lemma {:induction false} SumChange(vs: seq<ZoneView>, k: nat, v: ZoneView)
    requires k < |vs|
    ensures SumFree(vs[k := v]) - v.free == SumFree(vs) - vs[k].free >= 0
  {
    var n := |vs| - 1;
    if k < n {
      SumChange(vs[..n], k, v);
      assert vs[k := v][..n] == vs[..n][k := v];
    } else {
      assert vs[k := v][..n] == vs[..n];
    }
  }

  lemma {:induction false} SumZero(vs: seq<ZoneView>)
    requires forall j :: 0 <= j < |vs| ==> vs[j].free == 0
    ensures SumFree(vs) == 0
  {
    if vs != [] { SumZero(vs[..|vs| - 1]); }
  }

  /** From `v` to `v'` exactly the given page of the zone went from free to allocated. */
  ghost predicate TakenFrom(v: ZoneView, v': ZoneView, page: nat) {
    && v'.first == v.first <= page && v'.highest == v.highest && v'.free == v.free - 1
    && Allocated(Blocks(v.lists), Block(page - v.first, 0), Blocks(v'.lists), v.highest)
  }

  /** From `v` to `v'` exactly the given page went back to the free ones, and was merged as far as it goes. */
  ghost predicate GivenBack(v: ZoneView, v': ZoneView, page: nat) {
    && UsedIn(v, page) && v'.first == v.first && v'.highest == v.highest && v'.free == v.free + 1
    && Good(Blocks(v.lists), v.highest) && InZone(Block(page - v.first, 0), v.highest)
    && Blocks(v'.lists) == Freed(Blocks(v.lists), Block(page - v.first, 0), v.highest)
  }

  /** The order of the freelist that the next single page is taken from. */
  ghost function Source(v: ZoneView): nat { SourceOrder(v.lists, 0) }

  /** The new region differs in the k-th zone, which is in order, and in links. */
  ghost predicate OnlyZone(vs: seq<ZoneView>, vs': seq<ZoneView>, l: Links, l': Links, k: nat) {
    && k < |vs| && |vs'| == |vs| && vs' == vs[k := vs'[k]] && SameLength(l, l')
    && vs'[k].first == vs[k].first && vs'[k].highest == vs[k].highest && InOrder(vs'[k], l')
  }

  /** Freeing in one zone leaves the others in order. */
  lemma {:induction false} AfterFree(vs: seq<ZoneView>, vs': seq<ZoneView>, l: Links, l': Links, start: nat, end: nat, k: nat)
    requires Arranged(vs, l, start, end) && OnlyZone(vs, vs', l, l', k)
    requires OnlyIn(At(vs[k], l), At(vs'[k], l'), Blocks(vs'[k].lists))
    ensures Arranged(vs', l', start, end) && SumFree(vs') == SumFree(vs) - vs[k].free + vs'[k].free
  {
    TiledSame(vs, k, vs'[k], start, end);
    SumChange(vs, k, vs'[k]);
    forall j | 0 <= j < |vs| ensures InOrder(vs'[j], l') {
      if j != k {
        assert InOrder(vs[j], l);
        if j < k { TiledApart(vs, start, end, j, k); } else { TiledApart(vs, start, end, k, j); }
        forall x: nat | FreeIn(vs[j], x) ensures Same(x, l, l') {
          FreeInside(vs[j], l, x);
          if FreeIn(vs'[k], x) { FreeInside(vs'[k], l', x); }
          assert Untouched(x, At(vs[k], l), At(vs'[k], l'));
        }
        OrderFrame(vs[j], l, l');
      }
    }
  }

  /** Allocating in one zone leaves the others in order if none before it has free pages: the write to the
      page before the zone then hits a page that is on no freelist. */
  lemma {:induction false} AfterAlloc(vs: seq<ZoneView>, vs': seq<ZoneView>, l: Links, l': Links, start: nat, end: nat, k: nat, order: nat)
    requires Arranged(vs, l, start, end) && OnlyZone(vs, vs', l, l', k)
    requires Strikes(At(vs[k], l), At(vs'[k], l'), order, vs[k].lists) && forall j :: 0 <= j < k ==> vs[j].free == 0
    ensures Arranged(vs', l', start, end) && SumFree(vs') == SumFree(vs) - vs[k].free + vs'[k].free
  {
    TiledSame(vs, k, vs'[k], start, end);
    SumChange(vs, k, vs'[k]);
    forall j | 0 <= j < |vs| ensures InOrder(vs'[j], l') {
      assert InOrder(vs[j], l);
      if j != k {
        if k < j { TiledApart(vs, start, end, k, j); }
        forall x: nat | FreeIn(vs[j], x) ensures Same(x, l, l') {
          FreeInside(vs[j], l, x);
          assert InOrder(vs[k], l);
          if FreeIn(vs[k], x) { FreeInside(vs[k], l, x); }
          assert Untouched(x, At(vs[k], l), At(vs'[k], l'));
        }
        OrderFrame(vs[j], l, l');
      }
    }
  }

  // ---------------------------------------------------------------- several pages at once

  /** The last page of the zone may lose its backward link: it is on no freelist of single pages, or at the head of it. */
  ghost predicate KeepsLast(v: ZoneView) {
    var last := Pow2(v.highest) - 1;
    v.lists != [] && (last in v.lists[0] ==> v.lists[0][0] == last)
  }

  /** Taking a block from the freelist of the given order in the k-th zone does no harm to the zone before. */
  ghost predicate Harmless(vs: seq<ZoneView>, k: nat, order: nat)
    requires k < |vs|
  {
    k == 0 || !Empties(vs[k].lists, order) || KeepsLast(vs[k - 1])
  }

  /** Pages of other zones keep their records, apart from the one in front. */
  lemma {:induction false} OtherZoneKept(vs: seq<ZoneView>, v': ZoneView, l: Links, l': Links, start: nat, end: nat, k: nat, order: nat, j: nat, x: nat)
    requires Arranged(vs, l, start, end) && k < |vs| && j < |vs| && j != k && FreeIn(vs[j], x)
    requires Strikes(At(vs[k], l), At(v', l'), order, vs[k].lists) && x != vs[k].first - 1
    ensures Same(x, l, l')
  {
    assert InOrder(vs[j], l) && InOrder(vs[k], l);
    FreeInside(vs[j], l, x);
    if FreeIn(vs[k], x) {
      FreeInside(vs[k], l, x);
      if j < k { TiledApart(vs, start, end, j, k); } else { TiledApart(vs, start, end, k, j); }
    }
    assert Untouched(x, At(vs[k], l), At(v', l'));
  }

  /** The zone in front stays in order if and only if nothing was written there or its last page may lose its link. */
  lemma {:induction false} FrontZone(vs: seq<ZoneView>, v': ZoneView, l: Links, l': Links, start: nat, end: nat, k: nat, order: nat)
    requires Arranged(vs, l, start, end) && SameLength(l, l') && 0 < k < |vs|
    requires Strikes(At(vs[k], l), At(v', l'), order, vs[k].lists)
    ensures InOrder(vs[k - 1], l') <==> Harmless(vs, k, order)
  {
    hide Strikes, InOrder, FreeIn;
    var v := vs[k - 1];
    assert InOrder(v, l);
    TiledNext(vs, start, end, k);
    StrayOrder(v, l, End(v) - 1);
    var l1 := if Empties(vs[k].lists, order) then Links(l.next, l.prev[End(v) - 1 := -1]) else l;
    forall x: nat | FreeIn(v, x) ensures Same(x, l1, l') && Same(x, l', l1) {
      if x != End(v) - 1 { OtherZoneKept(vs, v', l, l', start, end, k, order, k - 1, x); } else { FrontRecord(vs[k], v', l, l', order); }
    }
    if InOrder(v, l1) { OrderFrame(v, l1, l'); }
    if InOrder(v, l') { OrderFrame(v, l', l1); }
  }

  lemma {:induction false} FrontRecord(v: ZoneView, v': ZoneView, l: Links, l': Links, order: nat)
    requires SameLength(l, l') && Strikes(At(v, l), At(v', l'), order, v.lists)
    ensures 0 < v.first <= |l.prev| == |l'.prev| && v.first <= |l.next| == |l'.next| && l'.next[v.first - 1] == l.next[v.first - 1]
    ensures l'.prev[v.first - 1] == if Empties(v.lists, order) then -1 else l.prev[v.first - 1]
  {
  }

  lemma {:induction false} StrayOrder(v: ZoneView, l: Links, front: nat)
    requires InOrder(v, l) && front == End(v) - 1
    ensures front < |l.prev| && (InOrder(v, Links(l.next, l.prev[front := -1])) <==> KeepsLast(v))
  {
    StrayWrite(At(v, l), v.lists);
  }

  /** After an allocation of any size all zones are in order if and only if the zone allocated from is, and the write in
      front of it did no harm. */
  lemma {:induction false} AfterAllocAny(vs: seq<ZoneView>, vs': seq<ZoneView>, l: Links, l': Links, start: nat, end: nat, k: nat, order: nat)
    requires Arranged(vs, l, start, end) && SameLength(l, l') && k < |vs| == |vs'| && vs' == vs[k := vs'[k]]
    requires vs'[k].first == vs[k].first && vs'[k].highest == vs[k].highest
    requires Strikes(At(vs[k], l), At(vs'[k], l'), order, vs[k].lists)
    ensures Arranged(vs', l', start, end) <==> InOrder(vs'[k], l') && Harmless(vs, k, order)
    ensures SumFree(vs') == SumFree(vs) - vs[k].free + vs'[k].free
  {
    hide Strikes, InOrder, Tiled, Empties, KeepsLast;
    TiledSame(vs, k, vs'[k], start, end);
    SumChange(vs, k, vs'[k]);
    if k > 0 { FrontZone(vs, vs'[k], l, l', start, end, k, order); }
    if Arranged(vs', l', start, end) {
      assert InOrder(vs'[k], l') && (k > 0 ==> InOrder(vs'[k - 1], l'));
    }
    forall j | 0 <= j < |vs| && j != k && j != k - 1 ensures InOrder(vs'[j], l') {
      FarZone(vs, vs'[k], l, l', start, end, k, order, j);
    }
  }

  lemma {:induction false} FarZone(vs: seq<ZoneView>, v': ZoneView, l: Links, l': Links, start: nat, end: nat, k: nat, order: nat, j: nat)
    requires Arranged(vs, l, start, end) && SameLength(l, l') && k < |vs| && j < |vs| && j != k && j != k - 1
    requires Strikes(At(vs[k], l), At(v', l'), order, vs[k].lists)
    ensures InOrder(vs[j], l')
  {
    hide Strikes, Rep, FreeIn, Tiled;
    assert InOrder(vs[j], l);
    forall x: nat | FreeIn(vs[j], x) ensures Same(x, l, l') {
      FreeInside(vs[j], l, x);
      NotInFront(vs, start, end, k, j, x);
      OtherZoneKept(vs, v', l, l', start, end, k, order, j, x);
    }
    OrderFrame(vs[j], l, l');
  }

  lemma {:induction false} NotInFront(vs: seq<ZoneView>, start: nat, end: nat, k: nat, j: nat, x: nat)
    requires Tiled(vs, start, end) && k < |vs| && j < |vs| && j != k && j != k - 1 && vs[j].first <= x < End(vs[j])
    ensures x != vs[k].first - 1
  {
    if j < k {
      TiledApart(vs, start, end, j, k - 1);
      TiledNext(vs, start, end, k);
    } else {
      TiledApart(vs, start, end, k, j);
    }
  }

  datatype PagesResult =
    | Pages(first: nat)
    | NoMemory
    | TooLarge
    | Halt // the assertion on the order fails

  /** The k-th zone is the first with at least n free pages. */
  ghost predicate FirstWith(vs: seq<ZoneView>, k: nat, n: nat) {
    k < |vs| && vs[k].free >= n && forall j :: 0 <= j < k ==> vs[j].free < n
  }

  /** From `v` to `v'` the block that starts at the given page was taken for n pages. */
  ghost predicate BlockFrom(v: ZoneView, v': ZoneView, page: nat, n: nat, i: nat)
    requires n > 0
  {
    && v'.first == v.first && v'.highest == v.highest && v'.free == v.free - n && page == v.first + Start(i, OrderFor(n))
    && Allocated(Blocks(v.lists), Block(i, OrderFor(n)), Blocks(v'.lists), v.highest)
  }

  /** A zone of four pages of which the first and the last are free: two are free, but there is no block of two. */
  lemma FragmentedExample()
    ensures
      var v := ZoneView(1, 2, [0, -1, -1], [[true, true], [false], [false]], [[0, 3], [], []], 2);
      var l := Links([0, 3, 0, 0, -1], [0, -1, 0, 0, 0]);
      InOrder(v, l) && OrderFor(2) == 1 && !HasOrder(Blocks(v.lists), 1) && !KeepsLast(v)
  {
    var v := ZoneView(1, 2, [0, -1, -1], [[true, true], [false], [false]], [[0, 3], [], []], 2);
    var l := Links([0, 3, 0, 0, -1], [0, -1, 0, 0, 0]);
    StrayState(At(v, l));
    StrayBlocks(v.lists);
    assert Pow2(0) == 1 && Pow2(1) == 2 && Pow2(2) == 4;
    var f := Blocks(v.lists);
    forall p: nat ensures Covered(p, f) <==> p == 0 || p == 3 {
      assert Has(Block(0, 0), p) <==> p == 0;
      assert Has(Block(3, 0), p) <==> p == 3;
      assert Block(0, 0) in f && Block(3, 0) in f;
    }
    assert PageSet(f, 2) == {0, 3};
    assert HighestBit(2) == 1;
  }

  // ---------------------------------------------------------------- the records of allocated pages

  /** What the record of an allocated page says. */
  datatype Record = Record(refs: nat, reserved: bool)

  function RecordOf(next: int, prev: int): Record { Record(next % 0x1_0000, prev % 0x100 != 0) }

  ghost predicate UsedPage(vs: seq<ZoneView>, x: nat) { exists j :: 0 <= j < |vs| && UsedIn(vs[j], x) }

  ghost function RecordAt(l: Links, x: nat): Record {
    if x < |l.next| && x < |l.prev| then RecordOf(l.next[x], l.prev[x]) else Record(0, false)
  }

  /** Every allocated page keeps its counter and its flag. */
  ghost predicate KeepsRecords(vs: seq<ZoneView>, l: Links, l': Links) {
    forall x: nat {:trigger RecordAt(l', x)} :: UsedPage(vs, x) ==> RecordAt(l', x) == RecordAt(l, x)
  }

  /** The page in front of the zone. */
  ghost function Front(v: ZoneView): nat { if v.first > 0 then v.first - 1 else 0 }

  /** The allocated page in front of the k-th zone would become reserved. */
  ghost predicate Damages(vs: seq<ZoneView>, l: Links, k: nat) {
    0 < k < |vs| && Empties(vs[k].lists, Source(vs[k])) && !RecordAt(l, Front(vs[k])).reserved
  }

  lemma {:induction false} TiledNext(vs: seq<ZoneView>, start: nat, end: nat, k: nat)
    requires Tiled(vs, start, end) && 0 < k < |vs|
    ensures End(vs[k - 1]) == vs[k].first
  {
    var n := |vs| - 1;
    if k < n {
      TiledNext(vs[..n], start, vs[n].first, k);
    } else {
      assert vs[..n][n - 1] == vs[n - 1];
    }
  }

  /** An allocated page other than the one in front of the zone keeps its record. */
  lemma {:induction false} UsedKept(vs: seq<ZoneView>, v': ZoneView, l: Links, l': Links, start: nat, end: nat, k: nat, x: nat)
    requires Arranged(vs, l, start, end) && k < |vs| && Strikes(At(vs[k], l), At(v', l'), Source(vs[k]), vs[k].lists)
    requires UsedPage(vs, x) && x != Front(vs[k])
    ensures Same(x, l, l')
  {
    var j :| 0 <= j < |vs| && UsedIn(vs[j], x);
    assert InOrder(vs[k], l);
    if FreeIn(vs[k], x) {
      FreeInside(vs[k], l, x);
      if j < k { TiledApart(vs, start, end, j, k); } else if k < j { TiledApart(vs, start, end, k, j); }
    }
    assert Untouched(x, At(vs[k], l), At(v', l'));
  }

  /** The page in front of a zone, all zones before which are used up, is allocated unless the zone is the first. */
  lemma {:induction false} FrontUsed(vs: seq<ZoneView>, l: Links, start: nat, end: nat, k: nat)
    requires Arranged(vs, l, start, end) && k < |vs| && forall j :: 0 <= j < k ==> vs[j].free == 0
    ensures InOrder(vs[k], l) && (UsedPage(vs, Front(vs[k])) <==> k > 0)
  {
    assert InOrder(vs[k], l);
    var x := Front(vs[k]);
    if k > 0 {
      TiledNext(vs, start, end, k);
      assert InOrder(vs[k - 1], l);
      if FreeIn(vs[k - 1], x) { FreeInside(vs[k - 1], l, x); }
      assert UsedIn(vs[k - 1], x);
    }
    if UsedPage(vs, x) {
      var j :| 0 <= j < |vs| && UsedIn(vs[j], x);
      if k < j { TiledApart(vs, start, end, k, j); }
    }
  }

  /** Taking a page from the first zone that has any keeps the record of every allocated page if and only if the
      freelist it comes from keeps another block, or the page in front of the zone is none of the region's, or
      that page was reserved already. Otherwise that page becomes reserved. */
  lemma {:induction false} RecordsKept(vs: seq<ZoneView>, v': ZoneView, l: Links, l': Links, start: nat, end: nat, k: nat)
    requires Arranged(vs, l, start, end) && SameLength(l, l') && k < |vs| && forall j :: 0 <= j < k ==> vs[j].free == 0
    requires Strikes(At(vs[k], l), At(v', l'), Source(vs[k]), vs[k].lists)
    ensures KeepsRecords(vs, l, l') <==> !Damages(vs, l, k)
    ensures Damages(vs, l, k) ==> RecordAt(l', Front(vs[k])) == Record(RecordAt(l, Front(vs[k])).refs, true)
  {
    FrontUsed(vs, l, start, end, k);
    var front := Front(vs[k]);
    assert RecordAt(l', front).reserved == (RecordAt(l, front).reserved || Empties(vs[k].lists, Source(vs[k])));
    if Damages(vs, l, k) {
      assert UsedPage(vs, front) && RecordAt(l', front) != RecordAt(l, front);
    } else {
      forall x: nat {:trigger RecordAt(l', x)} | UsedPage(vs, x) ensures RecordAt(l', x) == RecordAt(l, x) {
        if x != front { UsedKept(vs, v', l, l', start, end, k, x); }
      }
    }
  }

  /** Two blocks in one freelist are at least two free pages. */
  lemma {:induction false} TwoListed(lists: seq<seq<nat>>, k: nat, h: nat)
    requires Good(Blocks(lists), h) && k < |lists| && |lists[k]| > 1 && lists[k][0] != lists[k][1]
    ensures |PageSet(Blocks(lists), h)| > 1
  {
    var f, p, q := Blocks(lists), Start(lists[k][0], k), Start(lists[k][1], k);
    ListedPage(lists, k, 0, h);
    ListedPage(lists, k, 1, h);
    StartInjective(lists[k][0], lists[k][1], k);
    assert {p, q} <= PageSet(f, h);
    SubsetSize({p, q}, PageSet(f, h));
  }

  lemma {:induction false} ListedPage(lists: seq<seq<nat>>, k: nat, j: nat, h: nat)
    requires Good(Blocks(lists), h) && k < |lists| && j < |lists[k]|
    ensures Start(lists[k][j], k) in PageSet(Blocks(lists), h)
  {
    InBlocks(lists, Block(lists[k][j], k));
    StartPage(Block(lists[k][j], k), h);
  }

  lemma {:induction false} SubsetSize(a: set<nat>, b: set<nat>)
    requires a <= b
    ensures |a| <= |b|
  {
    assert b == a + (b - a);
  }

  lemma {:induction false} SourceHas(lists: seq<seq<nat>>, k: nat)
    ensures var s := SourceOrder(lists, k); s >= k && (s < |lists| ==> lists[s] != []) && forall j :: k <= j < s && j < |lists| ==> lists[j] == []
    decreases |lists| - k
  {
    if k < |lists| && lists[k] == [] { SourceHas(lists, k + 1); }
  }

  /** The last free page of a zone is the only block of its freelist: whenever a zone other than the first is used up,
      an allocated page of the zone before becomes reserved. */
  lemma {:induction false} LastPageDamages(v: ZoneView, l: Links)
    requires InOrder(v, l) && v.free == 1
    ensures Empties(v.lists, Source(v))
  {
    SourceHas(v.lists, 0);
    var s := Source(v);
    var p :| p in PageSet(Blocks(v.lists), v.highest);
    var c :| c in Blocks(v.lists) && Has(c, p);
    InBlocks(v.lists, c);
    assert Threaded(v.lists[s], s, v.freelist[s], v.first, l.next, l.prev);
    if |v.lists[s]| > 1 { TwoListed(v.lists, s, v.highest); }
  }

  /** The records with that of one page written. */
  ghost function Written(l: Links, page: nat, next: int, prev: int): Links
    requires page < |l.next| && page < |l.prev|
  {
    Links(l.next[page := next], l.prev[page := prev])
  }

  /** Writing the record of an allocated page leaves all zones in order. */
  lemma {:induction false} AfterWrite(vs: seq<ZoneView>, l: Links, start: nat, end: nat, page: nat, next: int, prev: int)
    requires Arranged(vs, l, start, end) && UsedPage(vs, page) && page < |l.next| && page < |l.prev|
    ensures Arranged(vs, Written(l, page, next, prev), start, end)
  {
    var l' := Written(l, page, next, prev);
    var i :| 0 <= i < |vs| && UsedIn(vs[i], page);
    forall j | 0 <= j < |vs| ensures InOrder(vs[j], l') {
      assert InOrder(vs[j], l);
      forall x: nat | FreeIn(vs[j], x) ensures Same(x, l, l') {
        FreeInside(vs[j], l, x);
        if i < j { TiledApart(vs, start, end, i, j); } else if j < i { TiledApart(vs, start, end, j, i); }
      }
      OrderFrame(vs[j], l, l');
    }
  }

  /** The page that an allocation takes was free and is allocated. */
  lemma {:induction false} TakenPage(vs: seq<ZoneView>, vs': seq<ZoneView>, l: Links, start: nat, end: nat, k: nat, page: nat)
    requires Arranged(vs, l, start, end) && k < |vs| == |vs'| && vs' == vs[k := vs'[k]] && TakenFrom(vs[k], vs'[k], page)
    ensures !UsedPage(vs, page) && UsedPage(vs', page) && page != Front(vs[k]) && page < |l.next| == |l.prev|
  {
    hide AllThreaded, AllBitsOk, Good;
    assert InOrder(vs[k], l);
    var b := Block(page - vs[k].first, 0);
    assert Has(b, page - vs[k].first);
    FreeInside(vs[k], l, page);
    PageClear(Blocks(vs'[k].lists), page - vs[k].first);
    assert UsedIn(vs'[k], page);
    if UsedPage(vs, page) {
      var j :| 0 <= j < |vs| && UsedIn(vs[j], page);
      if j < k { TiledApart(vs, start, end, j, k); } else { TiledApart(vs, start, end, k, j); }
    }
  }

  /** Writing the record of a page that was free changes nothing for those that were allocated. */
  lemma {:induction false} WriteKeeps(vs: seq<ZoneView>, l: Links, l1: Links, page: nat, next: int, prev: int)
    requires !UsedPage(vs, page) && page < |l1.next| && page < |l1.prev|
    ensures KeepsRecords(vs, l, Written(l1, page, next, prev)) <==> KeepsRecords(vs, l, l1)
  {
    var l' := Written(l1, page, next, prev);
    forall x: nat {:trigger RecordAt(l', x)} {:trigger RecordAt(l1, x)} | UsedPage(vs, x) ensures RecordAt(l1, x) == RecordAt(l', x) {
      assert Same(x, l1, l');
    }
  }

  lemma {:induction false} UsedOnce(vs: seq<ZoneView>, l: Links, start: nat, end: nat, page: nat) returns (k: nat)
    requires Arranged(vs, l, start, end) && UsedPage(vs, page)
    ensures k < |vs| && UsedIn(vs[k], page) && start <= page < end && page < |l.next| == |l.prev|
  {
    k :| k < |vs| && UsedIn(vs[k], page);
    assert InOrder(vs[k], l);
    TiledBounds(vs, start, end, k);
  }

  /** A page that was given back is not allocated. */
  lemma {:induction false} GivenIsFree(vs: seq<ZoneView>, vs': seq<ZoneView>, start: nat, end: nat, k: nat, page: nat)
    requires Tiled(vs', start, end) && k < |vs| == |vs'| && vs' == vs[k := vs'[k]] && GivenBack(vs[k], vs'[k], page)
    ensures !UsedPage(vs', page)
  {
    var b := Block(page - vs[k].first, 0);
    PageClear(Blocks(vs[k].lists), page - vs[k].first);
    FreedGood(Blocks(vs[k].lists), b, vs[k].highest);
    assert Has(b, page - vs[k].first);
    if UsedPage(vs', page) {
      var j :| 0 <= j < |vs'| && UsedIn(vs'[j], page);
      if j < k { TiledApart(vs', start, end, j, k); } else if k < j { TiledApart(vs', start, end, k, j); }
    }
  }

  /** Such a state: a zone of two pages, both allocated, and behind it a zone of one page. Allocating that one marks
      page 2 reserved. */
  lemma DamageExample()
    ensures
      var vs := [ZoneView(1, 1, [-1, -1], [[false], [false]], [[], []], 0), ZoneView(3, 0, [0], [[true]], [[0]], 1)];
      var l := Links([0, 1, 1, -1], [0, 0, 0, -1]);
      Arranged(vs, l, 1, 4) && UsedPage(vs, 2) && RecordAt(l, 2) == Record(1, false) && Damages(vs, l, 1)
  {
    var a := ZoneView(1, 1, [-1, -1], [[false], [false]], [[], []], 0);
    var b := ZoneView(3, 0, [0], [[true]], [[0]], 1);
    var l := Links([0, 1, 1, -1], [0, 0, 0, -1]);
    assert Pow2(0) == 1 && Pow2(1) == 2;
    EmptyInOrder(a, l);
    FreshRep(At(b, l), b.lists);
    assert InOrder(b, l);
    assert [a, b][..1] == [a] && [a][..0] == [];
    assert Tiled([a], 1, 3) && Tiled([a, b], 1, 4);
    assert UsedIn([a, b][0], 2);
  }

  lemma EmptyInOrder(v: ZoneView, l: Links)
    requires v == ZoneView(1, 1, [-1, -1], [[false], [false]], [[], []], 0) && |l.next| == |l.prev| == 4
    ensures InOrder(v, l) && Blocks(v.lists) == {}
  {
    assert Pow2(0) == 1 && Pow2(1) == 2;
    forall c ensures c !in Blocks(v.lists) { InBlocks(v.lists, c); }
    assert Blocks(v.lists) == {};
    assert PageSet({}, 1) == {};
  }

  // ---------------------------------------------------------------- new zones

  /** Adding a zone that starts at `end` and writes its links there. */
  lemma {:induction false} AfterAdd(vs: seq<ZoneView>, v: ZoneView, l: Links, l': Links, start: nat, end: nat)
    requires Arranged(vs, l, start, end) && v.first == end < |l.next| == |l.prev| && InOrder(v, l')
    requires l' == Links(l.next[end := -1], l.prev[end := -1])
    ensures Arranged(vs + [v], l', start, End(v)) && SumFree(vs + [v]) == SumFree(vs) + v.free
  {
    assert (vs + [v])[..|vs|] == vs;
    forall j | 0 <= j < |vs| ensures InOrder(vs[j], l') {
      assert InOrder(vs[j], l);
      TiledBounds(vs, start, end, j);
      forall x: nat | FreeIn(vs[j], x) ensures Same(x, l, l') { FreeInside(vs[j], l, x); }
      OrderFrame(vs[j], l, l');
    }
  }

  lemma {:induction false} OrderOfPow2(k: nat)
    ensures OrderFor(Pow2(k)) == k
  {
    var r := OrderFor(Pow2(k));
    if r < k { Pow2Grows(r, k); } else if r > k + 1 { Pow2Grows(k, r - 1); }
  }

  // ---------------------------------------------------------------- the region

  ghost function Picture(z: Zone): ZoneView
    reads z
  {
    ZoneView(z.first, z.highest, z.freelist, z.bits, z.lists, z.freePages)
  }

  /** Pages go by the numbers of their records: that of page n is n + 1. */
  class Region {
    const start: nat
    const numPages: nat
    const pages: PageArray
    var zones: seq<Zone>
    var freePages: nat
    ghost var views: seq<ZoneView>

    ghost function PageLinks(): Links
      reads pages
    {
      Links(pages.next, pages.prev)
    }

    /** The zones are distinct, share the page array, and look as `views` says. */
    ghost predicate Seen()
      reads this, zones
    {
      && (forall j :: 0 <= j < |zones| ==> zones[j].pages == pages)
      && (forall i, j :: 0 <= i < j < |zones| ==> zones[i] != zones[j])
      && |views| == |zones| && forall j :: 0 <= j < |zones| ==> views[j] == Picture(zones[j])
    }

    /** The zones tile the region, each of them in order, and the counter is the sum of theirs. */
    ghost predicate Valid()
      reads this, pages, zones
    {
      Seen() && Arranged(views, PageLinks(), start, start + numPages) && freePages == SumFree(views)
    }

    constructor (startPage: nat, numPages: nat, pages: PageArray)
      requires startPage + 1 + numPages <= |pages.next| == |pages.prev|
      modifies pages
      ensures Valid() && start == startPage + 1 && this.numPages == numPages && this.pages == pages && freePages == numPages
    {
      this.start, this.numPages, this.pages, this.freePages, this.zones, this.views := startPage + 1, numPages, pages, numPages, [], [];
      new;
      Carve();
    }

    /** Cuts one more zone of 2^order pages off the region. */
    method AddZone(next: nat, order: nat)
      requires Seen() && order <= MAX_ORDER && 1 <= next && next + Pow2(order) <= |pages.next| == |pages.prev|
      modifies this`zones, this`views, pages
      ensures Seen() && exists v :: views == old(views) + [v] && v.first == next && v.highest == order && v.free == Pow2(order) && InOrder(v, PageLinks())
      ensures PageLinks() == Links(old(pages.next)[next := -1], old(pages.prev)[next := -1])
    {
      OrderOfPow2(order);
      var zone := new Zone(next - 1, Pow2(order), pages);
      assert forall j :: 0 <= j < |zones| ==> zones[j] != zone;
      zones := zones + [zone];
      views := views + [Picture(zone)];
      assert zone.View() == At(Picture(zone), PageLinks());
    }

    /** Cuts the region into zones: each time the largest power of two that is left, up to the largest order. */
    method Carve()
      requires zones == [] && views == [] && 1 <= start && start + numPages <= |pages.next| == |pages.prev|
      modifies this`zones, this`views, pages
      ensures Seen() && Arranged(views, PageLinks(), start, start + numPages) && SumFree(views) == numPages
    {
      var next, left := start, numPages;
      while left > 0
        invariant 0 <= left && next + left == start + numPages
        invariant Seen() && Arranged(views, PageLinks(), start, next) && SumFree(views) == next - start
        invariant |pages.next| == |pages.prev| == |old(pages.next)|
      {
        var order := HighestBit(left);
        if order > MAX_ORDER {
          Pow2Grows(MAX_ORDER, order);
          order := MAX_ORDER;
        }
        ghost var vs, l := views, PageLinks();
        AddZone(next, order);
        AfterAdd(vs, views[|vs|], l, PageLinks(), start, next);
        left := left - Pow2(order);
        next := next + Pow2(order);
      }
    }

    /** Takes one page out of the k-th zone. */
    method TakePage(k: nat) returns (page: nat)
      requires Seen() && k < |zones| && zones[k].freePages > 0 && freePages > 0 && InOrder(views[k], PageLinks())
      modifies this`freePages, this`views, zones[k], pages
      ensures Seen() && freePages == old(freePages) - 1
      ensures OnlyZone(old(views), views, old(PageLinks()), PageLinks(), k) && TakenFrom(old(views[k]), views[k], page)
      ensures Strikes(At(old(views[k]), old(PageLinks())), At(views[k], PageLinks()), Source(old(views[k])), old(views[k]).lists)
    {
      assert zones[k].View() == At(views[k], PageLinks());
      var r, i := zones[k].AllocBlock(1);
      page := r.index;
      freePages := freePages - 1;
      views := views[k := Picture(zones[k])];
      assert zones[k].View() == At(views[k], PageLinks());
    }

    /** Allocates one page in the first zone that has any. */
    method AllocIn(k: nat) returns (page: nat)
      requires Valid() && k < |zones| && zones[k].freePages > 0 && forall j :: 0 <= j < k ==> zones[j].freePages == 0
      modifies this`freePages, this`views, zones[k], pages
      ensures Valid() && freePages == old(freePages) - 1
      ensures k < |old(views)| && views == old(views)[k := views[k]] && TakenFrom(old(views[k]), views[k], page)
      ensures Strikes(At(old(views[k]), old(PageLinks())), At(views[k], PageLinks()), Source(old(views[k])), old(views[k]).lists)
    {
      ghost var vs, l := views, PageLinks();
      SumChange(views, k, views[k]);
      page := TakePage(k);
      AfterAlloc(vs, views, l, PageLinks(), start, start + numPages, k, Source(vs[k]));
    }

    /** One page, from the first zone that has any; fails only when the whole region is used up. */
    method AllocPage() returns (r: Option<nat>, ghost k: nat)
      requires Valid()
      modifies this`freePages, this`views, zones, pages
      ensures Valid() && (r.None? <==> old(freePages) == 0) && (r.None? ==> views == old(views))
      ensures r.Some? ==> freePages == old(freePages) - 1 && k < |old(views)|
      ensures r.Some? ==> views == old(views)[k := views[k]] && TakenFrom(old(views)[k], views[k], r.value)
      ensures r.Some? ==> forall j :: 0 <= j < k ==> old(views)[j].free == 0
      ensures r.Some? ==>
        Strikes(At(old(views)[k], old(PageLinks())), At(views[k], PageLinks()), Source(old(views)[k]), old(views)[k].lists)
      ensures SameLength(old(PageLinks()), PageLinks()) && (r.None? ==> PageLinks() == old(PageLinks()))
    {
      k := 0;
      if freePages == 0 {
        return None, 0;
      }
      for zone := 0 to |zones|
        invariant unchanged(this) && unchanged(zones) && unchanged(pages)
        invariant forall j :: 0 <= j < zone ==> zones[j].freePages == 0
      {
        if zones[zone].freePages > 0 {
          var page := AllocIn(zone);
          return Some(page), zone;
        }
      }
      SumZero(views);
      r := None;
    }

    /** Takes a block for n pages out of the k-th zone. */
    method TakePages(k: nat, n: nat) returns (r: PagesResult, ghost i: nat)
      requires Seen() && k < |zones| && 0 < n <= zones[k].freePages && n <= freePages && InOrder(views[k], PageLinks())
      modifies this`freePages, this`views, zones[k], pages
      ensures Seen() && (r.Pages? || r.Halt?) && (r.Pages? <==> HasOrder(Blocks(old(views[k]).lists), OrderFor(n)))
      ensures r.Halt? ==> freePages == old(freePages) && views == old(views) && PageLinks() == old(PageLinks())
      ensures r.Pages? ==> freePages == old(freePages) - n && |views| == |old(views)| && views == old(views)[k := views[k]]
      ensures r.Pages? ==> BlockFrom(old(views[k]), views[k], r.first, n, i) && SameLength(old(PageLinks()), PageLinks())
      ensures r.Pages? ==> (InOrder(views[k], PageLinks()) <==> n == Pow2(OrderFor(n)))
      ensures r.Pages? ==>
        var v := old(views[k]);
        Strikes(At(v, old(PageLinks())), At(views[k], PageLinks()), SourceOrder(v.lists, OrderFor(n)), v.lists)
    {
      hide Allocated, AllThreaded, AllBitsOk, Good;
      assert zones[k].View() == At(views[k], PageLinks());
      var a;
      a, i := zones[k].AllocBlock(n);
      if !a.Page? {
        assert views[k] == Picture(zones[k]);
        return PagesResult.Halt, 0;
      }
      r := Pages(a.index);
      freePages := freePages - n;
      views := views[k := Picture(zones[k])];
      assert zones[k].View() == At(views[k], PageLinks());
    }

    /** Several pages in a row, from the first zone that has as many; that zone may have no block large enough, and then the
        kernel stops. */
    method AllocPages(n: nat) returns (r: PagesResult, ghost k: nat, ghost i: nat)
      requires Valid() && n > 0
      modifies this`freePages, this`views, zones, pages
      ensures r.TooLarge? <==> n <= old(freePages) && OrderFor(n) > MAX_ORDER
      ensures r.NoMemory? <==>
        n > old(freePages) || (OrderFor(n) <= MAX_ORDER && forall j :: 0 <= j < |old(views)| ==> old(views)[j].free < n)
      ensures r.Pages? || r.Halt? ==> FirstWith(old(views), k, n)
      ensures r.Pages? || r.Halt? ==> (r.Pages? <==> HasOrder(Blocks(old(views)[k].lists), OrderFor(n)))
      ensures !r.Pages? ==> Valid() && views == old(views) && PageLinks() == old(PageLinks()) && freePages == old(freePages)
      ensures r.Pages? ==> freePages == old(freePages) - n && |views| == |old(views)| && views == old(views)[k := views[k]]
      ensures r.Pages? ==> BlockFrom(old(views)[k], views[k], r.first, n, i)
      ensures r.Pages? ==>
        (Valid() <==> n == Pow2(OrderFor(n)) && Harmless(old(views), k, SourceOrder(old(views)[k].lists, OrderFor(n))))
    {
      hide Strikes, InOrder, Allocated, Harmless, Tiled, HasOrder;
      k, i := 0, 0;
      if freePages < n {
        return PagesResult.NoMemory, 0, 0;
      }
      var order := OrderFor(n);
      if order > MAX_ORDER {
        return TooLarge, 0, 0;
      }
      for zone := 0 to |zones|
        invariant unchanged(this) && unchanged(zones) && unchanged(pages)
        invariant forall j :: 0 <= j < zone ==> views[j].free < n
      {
        if zones[zone].freePages >= n {
          ghost var vs, l := views, PageLinks();
          k := zone;
          r, i := TakePages(zone, n);
          if r.Pages? {
            AfterAllocAny(vs, views, l, PageLinks(), start, start + numPages, k, SourceOrder(vs[k].lists, order));
          }
          return;
        }
      }
      r := PagesResult.NoMemory;
    }

    /** Puts one page back into the k-th zone. */
    method PutPage(k: nat, page: nat)
      requires Seen() && k < |zones| && InOrder(views[k], PageLinks()) && UsedIn(views[k], page)
      modifies this`freePages, this`views, zones[k], pages
      ensures Seen() && freePages == old(freePages) + 1
      ensures OnlyZone(old(views), views, old(PageLinks()), PageLinks(), k) && GivenBack(old(views[k]), views[k], page)
      ensures views[k].free == old(views[k]).free + 1
      ensures OnlyIn(At(old(views[k]), old(PageLinks())), At(views[k], PageLinks()), Blocks(views[k].lists))
    {
      hide Good, AllThreaded, AllBitsOk;
      PageClear(Blocks(views[k].lists), page - views[k].first);
      assert zones[k].View() == At(views[k], PageLinks());
      freePages := freePages + 1;
      zones[k].FreeBlock(page, 1, page - zones[k].first);
      views := views[k := Picture(zones[k])];
      assert zones[k].View() == At(views[k], PageLinks());
    }

    method ZoneOf(page: nat) returns (i: nat)
      requires Valid() && start <= page < start + numPages
      ensures i < |views| == |zones| && views[i].first <= page < End(views[i])
    {
      hide InOrder;
      ghost var home := TiledFinds(views, start, start + numPages, page);
      i := 0;
      while !(zones[i].first <= page < zones[i].first + Pow2(zones[i].highest))
        invariant i <= home
        decreases home - i
      {
        i := i + 1;
      }
    }

    /** Frees an allocated page into the zone that contains it. */
    method FreePage(page: nat) returns (ghost k: nat)
      requires Valid() && UsedPage(views, page)
      modifies this`freePages, this`views, zones, pages
      ensures Valid() && freePages == old(freePages) + 1
      ensures k < |old(views)| && views == old(views)[k := views[k]] && GivenBack(old(views)[k], views[k], page)
      ensures OnlyIn(At(old(views)[k], old(PageLinks())), At(views[k], PageLinks()), Blocks(views[k].lists))
    {
      hide OnlyIn, GivenBack, InOrder;
      ghost var vs, l := views, PageLinks();
      ghost var home := UsedOnce(views, l, start, start + numPages, page);
      var i := ZoneOf(page);
      k := i;
      if k < home { TiledApart(vs, start, start + numPages, k, home); } else if home < k { TiledApart(vs, start, start + numPages, home, k); }
      PutPage(i, page);
      AfterFree(vs, views, l, PageLinks(), start, start + numPages, k);
    }

    /** `MemoryManager::alloc_physical_page` on this region: a page with one reference and no reservation. */
    method AllocPhysicalPage() returns (r: Option<nat>, ghost k: nat)
      requires Valid()
      modifies this`freePages, this`views, zones, pages
      ensures Valid() && (r.None? <==> old(freePages) == 0) && (r.None? ==> views == old(views) && PageLinks() == old(PageLinks()))
      ensures r.Some? ==> freePages == old(freePages) - 1 && k < |old(views)|
      ensures r.Some? ==> views == old(views)[k := views[k]] && TakenFrom(old(views)[k], views[k], r.value)
      ensures r.Some? ==> UsedPage(views, r.value) && RecordAt(PageLinks(), r.value) == Record(1, false)
      ensures r.Some? ==> (KeepsRecords(old(views), old(PageLinks()), PageLinks()) <==> !Damages(old(views), old(PageLinks()), k))
      ensures r.Some? && Damages(old(views), old(PageLinks()), k) ==>
        var front := Front(old(views)[k]);
        RecordAt(PageLinks(), front) == Record(RecordAt(old(PageLinks()), front).refs, true)
    {
      hide InOrder, Strikes, TakenFrom, KeepsRecords, UsedPage, Damages, Tiled;
      r, k := AllocPage();
      if r.Some? {
        var page := r.value;
        ghost var vs, l, l1 := old(views), old(PageLinks()), PageLinks();
        RecordsKept(vs, views[k], l, l1, start, start + numPages, k);
        TakenPage(vs, views, l, start, start + numPages, k, page);
        var flags := pages.prev[page] - pages.prev[page] % 0x100;
        AfterWrite(views, l1, start, start + numPages, page, 1, flags);
        WriteKeeps(vs, l, l1, page, 1, flags);
        SetRecord(page, 1, flags);
      }
    }

    method SetRecord(page: nat, next: int, prev: int)
      requires page < |pages.next| && page < |pages.prev|
      modifies pages
      ensures PageLinks() == Written(old(PageLinks()), page, next, prev)
    {
      pages.next, pages.prev := pages.next[page := next], pages.prev[page := prev];
    }

    /** `PhysicalPage::unref`: the last reference frees the page, unless its flag says reserved. */
    method Unref(page: nat) returns (ghost k: nat)
      requires Valid() && UsedPage(views, page) && RecordAt(PageLinks(), page).refs > 0
      modifies this`freePages, this`views, zones, pages
      ensures Valid()
      ensures
        var was := RecordAt(old(PageLinks()), page);
        && (UsedPage(views, page) <==> was.refs > 1 || was.reserved)
        && (UsedPage(views, page) ==> views == old(views) && RecordAt(PageLinks(), page) == Record(was.refs - 1, was.reserved))
        && (!UsedPage(views, page) ==>
              k < |old(views)| && views == old(views)[k := views[k]] && GivenBack(old(views)[k], views[k], page))
    {
      hide InOrder, GivenBack;
      ghost var vs, l := views, PageLinks();
      k := UsedOnce(vs, l, start, start + numPages, page);
      var before := pages.next[page] % 0x1_0000;
      AfterWrite(views, l, start, start + numPages, page, pages.next[page] - 1, pages.prev[page]);
      SetRecord(page, pages.next[page] - 1, pages.prev[page]);
      if before == 1 && pages.prev[page] % 0x100 == 0 {
        k := FreePage(page);
        GivenIsFree(vs, views, start, start + numPages, k, page);
      }
    }
  }
}
