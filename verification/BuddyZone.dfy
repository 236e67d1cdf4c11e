/**
  `BuddyZone`: per-order freelists threaded through the page array and one bit per pair of buddies.
  The representation is tied to the set of free blocks of module BuddyBlocks.
 */
module BuddyZone {
  import opened Helpers
  import opened BuddyBlocks

  /** The page array: one record of two 16-bit words for each page. In the first page of a free block they are the
      links of its freelist. In an allocated page the first is the reference counter, and the low byte of the
      second is the reserved flag. Page n has record n + 1 here: record 0 is the memory in front of the array. */
  class PageArray {
    var next: seq<int>
    var prev: seq<int>

    constructor (n: nat)
      ensures |next| == n && |prev| == n
    {
      next, prev := seq(n, i => 0), seq(n, i => 0);
    }
  }

  // ---------------------------------------------------------------- the representation

  ghost function LinkAt(list: seq<nat>, j: int, k: nat): int { if 0 <= j < |list| then Start(list[j], k) else -1 }

  /** The j-th block of the list has the right links in its first page. */
  ghost predicate Hooked(list: seq<nat>, j: int, k: nat, first: nat, next: seq<int>, prev: seq<int>)
    requires 0 <= j < |list|
  {
    var page := first + Start(list[j], k);
    page < |next| && page < |prev| && next[page] == LinkAt(list, j + 1, k) && prev[page] == LinkAt(list, j - 1, k)
  }

  /** The freelist of order k, starting at block `head`, runs through `list` in both directions. */
  ghost predicate Threaded(list: seq<nat>, k: nat, head: int, first: nat, next: seq<int>, prev: seq<int>) {
    && head == LinkAt(list, 0, k)
    && (forall j {:trigger Hooked(list, j, k, first, next, prev)} :: 0 <= j < |list| ==> Hooked(list, j, k, first, next, prev))
    && (forall i, j :: 0 <= i < j < |list| ==> list[i] != list[j])
  }

  ghost function Blocks(lists: seq<seq<nat>>): set<Block> { set k, i | 0 <= k < |lists| && i in lists[k] :: Block(i, k) }

  /** Each bit says whether exactly one of its two buddies is free. */
  ghost predicate BitsOk(bits: seq<bool>, k: nat, h: nat, f: set<Block>)
    requires k <= h
  {
    && |bits| == (Pow2(h - k) + 1) / 2
    && forall j :: 0 <= j < |bits| ==> bits[j] == ((Block(2 * j, k) in f) != (Block(2 * j + 1, k) in f))
  }

  datatype Layout = Layout(first: nat, highest: nat, freelist: seq<int>, bits: seq<seq<bool>>, next: seq<int>, prev: seq<int>)

  ghost predicate Shaped(z: Layout, lists: seq<seq<nat>>) {
    && |lists| == |z.freelist| == |z.bits| == z.highest + 1
    && 1 <= z.first && z.first + Pow2(z.highest) <= |z.next| == |z.prev|
  }

  ghost predicate AllThreaded(z: Layout, lists: seq<seq<nat>>)
    requires Shaped(z, lists)
  {
    forall k {:trigger Threaded(lists[k], k, z.freelist[k], z.first, z.next, z.prev)} ::
      0 <= k <= z.highest ==> Threaded(lists[k], k, z.freelist[k], z.first, z.next, z.prev)
  }

  ghost predicate AllBitsOk(z: Layout, lists: seq<seq<nat>>)
    requires Shaped(z, lists)
  {
    forall k {:trigger BitsOk(z.bits[k], k, z.highest, Blocks(lists))} ::
      0 <= k <= z.highest ==> BitsOk(z.bits[k], k, z.highest, Blocks(lists))
  }

  ghost predicate Rep(z: Layout, lists: seq<seq<nat>>) {
    Shaped(z, lists) && Good(Blocks(lists), z.highest) && AllThreaded(z, lists) && AllBitsOk(z, lists)
  }

  // ---------------------------------------------------------------- lemmas about lists and pages

  lemma InBlocks(lists: seq<seq<nat>>, b: Block)
    ensures b in Blocks(lists) <==> b.order < |lists| && b.idx in lists[b.order]
  {
  }

  lemma {:induction false} StartPage(b: Block, h: nat)
    requires InZone(b, h)
    ensures Has(b, Start(b.idx, b.order)) && Start(b.idx, b.order) < Pow2(h)
  {
    HasInterval(b, Start(b.idx, b.order));
    StartStep(b.idx, b.order);
    PageInZone(b, Start(b.idx, b.order), h);
  }

  /** Disjoint blocks have different first pages. */
  lemma {:induction false} StartsDiffer(f: set<Block>, b: Block, c: Block, h: nat)
    requires (forall x :: x in f ==> InZone(x, h)) && InZone(b, h) && Clear(f, b) && c in f
    ensures Start(b.idx, b.order) != Start(c.idx, c.order)
  {
    StartPage(b, h);
    StartPage(c, h);
    ClearPage(f, b, Start(b.idx, b.order));
  }

  lemma {:induction false} MemberClear(f: set<Block>, b: Block, h: nat)
    requires Good(f, h) && b in f
    ensures Clear(f - {b}, b)
  {
  }

  ghost predicate SameRecord(x: nat, next: seq<int>, prev: seq<int>, next': seq<int>, prev': seq<int>) {
    x < |next| && x < |prev| && x < |next'| && x < |prev'| ==> next'[x] == next[x] && prev'[x] == prev[x]
  }

  ghost predicate Untouched(x: nat, z: Layout, z': Layout) { SameRecord(x, z.next, z.prev, z'.next, z'.prev) }

  /** The page lies in one of the given blocks of the zone that starts at page `first`. */
  ghost predicate InFree(first: nat, f: set<Block>, x: nat) { first <= x && Covered(x - first, f) }

  ghost predicate SameShape(z: Layout, z': Layout) {
    |z'.next| == |z.next| && |z'.prev| == |z.prev| && z'.first == z.first && z'.highest == z.highest
  }

  /** From z to z' no record was written but those of pages in the given blocks. */
  ghost predicate OnlyIn(z: Layout, z': Layout, f: set<Block>) {
    SameShape(z, z') && forall x: nat {:trigger Untouched(x, z, z')} :: !InFree(z.first, f, x) ==> Untouched(x, z, z')
  }

  lemma OnlyInThen(z: Layout, z': Layout, z'': Layout, f: set<Block>, g: set<Block>)
    requires OnlyIn(z, z', f) && OnlyIn(z', z'', g) && forall p :: Covered(p, f) ==> Covered(p, g)
    ensures OnlyIn(z, z'', g)
  {
    forall x: nat | !InFree(z.first, g, x) ensures Untouched(x, z, z'') {
      assert !InFree(z.first, f, x);
      assert Untouched(x, z, z') && Untouched(x, z', z'');
    }
  }

  /** The first page of a free block lies in a free block. */
  lemma {:induction false} StartInFree(f: set<Block>, b: Block, h: nat, first: nat)
    requires b in f && InZone(b, h)
    ensures InFree(first, f, first + Start(b.idx, b.order)) && Start(b.idx, b.order) < Pow2(h)
  {
    StartPage(b, h);
    assert first + Start(b.idx, b.order) - first == Start(b.idx, b.order);
  }

  /** Writes to pages that are not first pages of the blocks in a freelist do not disturb it. */
  lemma {:induction false} ThreadFrame(list: seq<nat>, k: nat, z: Layout, z': Layout)
    requires k < |z.freelist| && k < |z'.freelist| && z'.freelist[k] == z.freelist[k] && z'.first == z.first
    requires Threaded(list, k, z.freelist[k], z.first, z.next, z.prev) && |z'.next| == |z.next| && |z'.prev| == |z.prev|
    requires forall j :: 0 <= j < |list| ==> Untouched(z.first + Start(list[j], k), z, z')
    ensures Threaded(list, k, z'.freelist[k], z'.first, z'.next, z'.prev)
  {
    forall j | 0 <= j < |list| ensures Hooked(list, j, k, z'.first, z'.next, z'.prev) {
      assert Hooked(list, j, k, z.first, z.next, z.prev);
      assert Untouched(z.first + Start(list[j], k), z, z');
    }
  }

  /** Setting one bit to match a change of one block. */
  lemma {:induction false} BitSet(bits: seq<bool>, k: nat, h: nat, f: set<Block>, f': set<Block>, i: nat, v: bool)
    requires k <= h && BitsOk(bits, k, h, f) && InZone(Block(i, k), h)
    requires forall b: Block :: b.order == k && b.idx != i ==> (b in f <==> b in f')
    requires v == ((Block(i, k) in f') != (Block(Twin(i), k) in f'))
    ensures i / 2 < |bits| && BitsOk(bits[i / 2 := v], k, h, f')
  {
    assert i == 2 * (i / 2) || i == 2 * (i / 2) + 1;
    assert k < h ==> Pow2(h - k) == 2 * Pow2(h - k - 1);
  }

  /** The bits of the other orders stay right. */
  lemma {:induction false} OtherBits(bits: seq<seq<bool>>, k: nat, i: nat, h: nat, f: set<Block>, f': set<Block>, b: seq<bool>)
    requires k <= h && |bits| == h + 1 && BitsOk(b, k, h, f')
    requires forall j {:trigger BitsOk(bits[j], j, h, f)} :: 0 <= j <= h ==> BitsOk(bits[j], j, h, f)
    requires forall x: Block :: x != Block(i, k) ==> (x in f <==> x in f')
    ensures forall j {:trigger BitsOk(bits[k := b][j], j, h, f')} :: 0 <= j <= h ==> BitsOk(bits[k := b][j], j, h, f')
  {
    forall j {:trigger BitsOk(bits[k := b][j], j, h, f')} | 0 <= j <= h ensures BitsOk(bits[k := b][j], j, h, f') {
      assert BitsOk(bits[j], j, h, f);
    }
  }

  lemma {:induction false} GoodWithout(f: set<Block>, b: Block, h: nat)
    requires Good(f, h) && b in f
    ensures Good(f - {b}, h) && InZone(b, h)
  {
  }

  lemma {:induction false} TwinNotFree(f: set<Block>, b: Block, h: nat)
    requires Good(f, h) && b in f
    ensures Block(Twin(b.idx), b.order) !in f
  {
  }

  // ---------------------------------------------------------------- the steps of allocation

  /** Taking the head of the freelist of order k. The write of `prev` goes to the new head, or to the page
      before the zone when the list becomes empty. */
  ghost function Popped(z: Layout, k: nat, i: nat): Layout
    requires k < |z.freelist| && k < |z.bits| && i / 2 < |z.bits[k]|
    requires z.first + Start(i, k) < |z.next| && -1 <= z.next[z.first + Start(i, k)] && 1 <= z.first
    requires z.first + z.next[z.first + Start(i, k)] < |z.prev|
  {
    var head := z.next[z.first + Start(i, k)];
    z.(freelist := z.freelist[k := head],
       bits := z.bits[k := z.bits[k][i / 2 := false]],
       prev := z.prev[z.first + head := -1])
  }

  lemma {:induction false} BlocksPop(lists: seq<seq<nat>>, k: nat)
    requires k < |lists| && lists[k] != [] && forall i, j :: 0 <= i < j < |lists[k]| ==> lists[k][i] != lists[k][j]
    ensures Blocks(lists[k := lists[k][1..]]) == Blocks(lists) - {Block(lists[k][0], k)}
  {
    var lists' := lists[k := lists[k][1..]];
    forall b ensures b in Blocks(lists') <==> b in Blocks(lists) && b != Block(lists[k][0], k) {
      InBlocks(lists, b);
      InBlocks(lists', b);
      assert lists[k] == [lists[k][0]] + lists[k][1..];
    }
  }

  lemma {:induction false} PopRep(z: Layout, lists: seq<seq<nat>>, k: nat)
    requires Rep(z, lists) && k <= z.highest && lists[k] != []
    ensures var i := lists[k][0];
            && z.freelist[k] == Start(i, k) && Block(i, k) in Blocks(lists)
            && i / 2 < |z.bits[k]| && z.bits[k][i / 2]
            && z.first + Start(i, k) < |z.next| && -1 <= z.next[z.first + Start(i, k)]
            && z.next[z.first + Start(i, k)] == LinkAt(lists[k], 1, k) < Pow2(z.highest)
            && Rep(Popped(z, k, i), lists[k := lists[k][1..]])
            && Blocks(lists[k := lists[k][1..]]) == Blocks(lists) - {Block(i, k)}
  {
    hide Good;
    var list, i, h := lists[k], lists[k][0], z.highest;
    var f := Blocks(lists);
    InBlocks(lists, Block(i, k));
    GoodWithout(f, Block(i, k), h);
    assert Threaded(list, k, z.freelist[k], z.first, z.next, z.prev) && BitsOk(z.bits[k], k, h, f);
    TwinNotFree(f, Block(i, k), h);
    BlocksPop(lists, k);
    BitSet(z.bits[k], k, h, f, f - {Block(i, k)}, i, false);
    assert Hooked(list, 0, k, z.first, z.next, z.prev);
    if |list| > 1 { ListedInFree(z, lists, k, 1); }
    var z', lists' := Popped(z, k, i), lists[k := list[1..]];
    PopThread(list, k, z.freelist[k], z.first, z.next, z.prev);
    forall j | 0 <= j <= h ensures Threaded(lists'[j], j, z'.freelist[j], z'.first, z'.next, z'.prev) {
      if j != k {
        PopOtherThread(z, lists, k, j);
      }
    }
    OtherBits(z.bits, k, i, h, f, Blocks(lists'), z'.bits[k]);
    assert AllBitsOk(z', lists');
  }

  /** Taking the head writes to the record of the next block, or, when there is none, in front of the zone. */
  lemma {:induction false} PopStrikes(z: Layout, lists: seq<seq<nat>>, k: nat)
    requires Rep(z, lists) && k <= z.highest && lists[k] != [] && lists[k][0] / 2 < |z.bits[k]|
    requires z.first + Start(lists[k][0], k) < |z.next| && z.next[z.first + Start(lists[k][0], k)] == LinkAt(lists[k], 1, k)
    ensures z.first + LinkAt(lists[k], 1, k) < |z.prev| && Strikes(z, Popped(z, k, lists[k][0]), k, lists)
  {
    if |lists[k]| > 1 { ListedInFree(z, lists, k, 1); }
  }

  lemma {:induction false} PopThread(list: seq<nat>, k: nat, head: int, first: nat, next: seq<int>, prev: seq<int>)
    requires list != [] && Threaded(list, k, head, first, next, prev) && 1 <= first
    ensures var head' := LinkAt(list, 1, k);
            && first + head' < |prev|
            && Threaded(list[1..], k, head', first, next, prev[first + head' := -1])
  {
    var head', t := LinkAt(list, 1, k), list[1..];
    assert Hooked(list, 0, k, first, next, prev);
    if |list| > 1 { assert Hooked(list, 1, k, first, next, prev); }
    var prev' := prev[first + head' := -1];
    forall j | 0 <= j < |t| ensures Hooked(t, j, k, first, next, prev') {
      assert Hooked(list, j + 1, k, first, next, prev);
      if j > 0 { StartInjective(list[1], list[j + 1], k); }
    }
  }

  lemma {:induction false} PopOtherThread(z: Layout, lists: seq<seq<nat>>, k: nat, j: nat)
    requires Rep(z, lists) && k <= z.highest && j <= z.highest && j != k && lists[k] != []
    requires lists[k][0] / 2 < |z.bits[k]| && z.first + Start(lists[k][0], k) < |z.next|
    requires z.next[z.first + Start(lists[k][0], k)] == LinkAt(lists[k], 1, k) && z.first + LinkAt(lists[k], 1, k) < |z.prev|
    ensures var z' := Popped(z, k, lists[k][0]); Threaded(lists[j], j, z'.freelist[j], z'.first, z'.next, z'.prev)
  {
    var z', list, h := Popped(z, k, lists[k][0]), lists[k], z.highest;
    assert Threaded(lists[j], j, z.freelist[j], z.first, z.next, z.prev);
    forall n | 0 <= n < |lists[j]| ensures Untouched(z.first + Start(lists[j][n], j), z, z') {
      if |list| > 1 { DifferentStarts(lists, Block(lists[j][n], j), Block(list[1], k), h); }
    }
    ThreadFrame(lists[j], j, z, z');
  }

  lemma {:induction false} DifferentStarts(lists: seq<seq<nat>>, b: Block, c: Block, h: nat)
    requires Good(Blocks(lists), h) && b.order < |lists| && c.order < |lists| && b.idx in lists[b.order] && c.idx in lists[c.order] && b != c
    ensures Start(b.idx, b.order) != Start(c.idx, c.order)
  {
    InBlocks(lists, b);
    InBlocks(lists, c);
    MemberClear(Blocks(lists), b, h);
    StartsDiffer(Blocks(lists) - {b}, b, c, h);
  }

  /** Putting the second half of a split block, alone, into the empty freelist of order k. */
  ghost function SplitPut(z: Layout, k: nat, i: nat): Layout
    requires k < |z.freelist| && k < |z.bits| && i / 2 < |z.bits[k]|
    requires z.first + Start(i, k) < |z.next| && z.first + Start(i, k) < |z.prev|
  {
    var page := z.first + Start(i, k);
    z.(freelist := z.freelist[k := Start(i, k)],
       bits := z.bits[k := z.bits[k][i / 2 := true]],
       next := z.next[page := -1], prev := z.prev[page := -1])
  }

  lemma {:induction false} BlocksPush(lists: seq<seq<nat>>, k: nat, i: nat)
    requires k < |lists|
    ensures Blocks(lists[k := [i] + lists[k]]) == Blocks(lists) + {Block(i, k)}
  {
    var lists' := lists[k := [i] + lists[k]];
    forall b ensures b in Blocks(lists') <==> b in Blocks(lists) || b == Block(i, k) {
      InBlocks(lists, b);
      InBlocks(lists', b);
    }
  }

  lemma {:induction false} SplitPutRep(z: Layout, lists: seq<seq<nat>>, k: nat, i: nat)
    requires Rep(z, lists) && k <= z.highest && lists[k] == [] && InZone(Block(i, k), z.highest)
    requires Clear(Blocks(lists), Block(i, k)) && Good(Blocks(lists) + {Block(i, k)}, z.highest)
    ensures i / 2 < |z.bits[k]| && z.first + Start(i, k) < |z.next|
    ensures Rep(SplitPut(z, k, i), lists[k := [i]])
  {
    var f, h := Blocks(lists), z.highest;
    StartPage(Block(i, k), h);
    BlocksPush(lists, k, i);
    assert [i] + lists[k] == [i];
    assert BitsOk(z.bits[k], k, h, f);
    TwinNotFree(f + {Block(i, k)}, Block(i, k), h);
    BitSet(z.bits[k], k, h, f, f + {Block(i, k)}, i, true);
    var z', lists' := SplitPut(z, k, i), lists[k := [i]];
    assert Hooked([i], 0, k, z'.first, z'.next, z'.prev);
    forall j | 0 <= j <= h ensures Threaded(lists'[j], j, z'.freelist[j], z'.first, z'.next, z'.prev) {
      assert Threaded(lists[j], j, z.freelist[j], z.first, z.next, z.prev);
      if j != k {
        ClearStarts(lists, j, Block(i, k), h);
        ThreadFrame(lists[j], j, z, z');
      }
    }
    OtherBits(z.bits, k, i, h, f, Blocks(lists'), z'.bits[k]);
    assert AllBitsOk(z', lists');
  }

  lemma {:induction false} ClearStarts(lists: seq<seq<nat>>, j: nat, b: Block, h: nat)
    requires Good(Blocks(lists), h) && j < |lists| && InZone(b, h) && Clear(Blocks(lists), b)
    ensures forall n :: 0 <= n < |lists[j]| ==> Start(lists[j][n], j) != Start(b.idx, b.order)
  {
    forall n | 0 <= n < |lists[j]| ensures Start(lists[j][n], j) != Start(b.idx, b.order) {
      InBlocks(lists, Block(lists[j][n], j));
      StartsDiffer(Blocks(lists), b, Block(lists[j][n], j), h);
    }
  }

  lemma {:induction false} SecondHalfClear(f: set<Block>, b: Block, h: nat)
    requires Clear(f, b) && b.order > 0 && InZone(b, h)
    ensures Clear(f, Half(b, true)) && InZone(Half(b, true), h)
  {
    HalfInside(b, true);
    forall c | c in f ensures !Contains(c, Half(b, true)) && !Contains(Half(b, true), c) {
      if Contains(Half(b, true), c) { ContainsTrans(b, Half(b, true), c); }
      ParentContains(c, Half(b, true));
    }
  }

  ghost predicate CanSplit(z: Layout, order: nat, block: nat) {
    && order < |z.bits| && order < |z.freelist| && Up(block, order) / 2 < |z.bits[order]|
    && z.first + block + Pow2(order) < |z.next| && z.first + block + Pow2(order) < |z.prev|
  }

  /** The second half of the block that starts at page `block` alone in the freelist of its order. */
  ghost function SplitOff(z: Layout, order: nat, block: nat): Layout
    requires CanSplit(z, order, block)
  {
    var half := block + Pow2(order);
    z.(freelist := z.freelist[order := half],
       bits := z.bits[order := z.bits[order][Up(block, order) / 2 := true]],
       next := z.next[z.first + half := -1], prev := z.prev[z.first + half := -1])
  }

  lemma {:induction false} SplitReady(z: Layout, lists: seq<seq<nat>>, order: nat, i: nat, g: set<Block>)
    requires Rep(z, lists) && order < z.highest && z.freelist[order] == -1
    requires Allocated(g, Block(i, order + 1), Blocks(lists), z.highest)
    ensures CanSplit(z, order, Start(i, order + 1))
    ensures var z', lists' := SplitOff(z, order, Start(i, order + 1)), lists[order := [2 * i + 1]];
            Rep(z', lists') && Allocated(g, Block(2 * i, order), Blocks(lists'), z.highest) && OnlyIn(z, z', g)
  {
    assert Threaded(lists[order], order, z.freelist[order], z.first, z.next, z.prev);
    SplitStep(g, Block(i, order + 1), Blocks(lists), z.highest);
    SecondHalfClear(Blocks(lists), Block(i, order + 1), z.highest);
    SplitPutRep(z, lists, order, 2 * i + 1);
    SplitOffIsPut(z, order, i);
    assert [2 * i + 1] + lists[order] == [2 * i + 1];
    BlocksPush(lists, order, 2 * i + 1);
    SplitOnlyIn(z, order, i, g, Blocks(lists));
  }

  lemma {:induction false} SplitOnlyIn(z: Layout, order: nat, i: nat, g: set<Block>, f: set<Block>)
    requires CanSplit(z, order, Start(i, order + 1)) && order < z.highest && Allocated(g, Block(i, order + 1), f, z.highest)
    ensures OnlyIn(z, SplitOff(z, order, Start(i, order + 1)), g)
  {
    var half := Half(Block(i, order + 1), true);
    HalfInside(Block(i, order + 1), true);
    StartStep(2 * i, order);
    UpStart(2 * i + 1, order);
    var p := Start(2 * i + 1, order);
    assert Has(half, p);
    HasUp(half, Block(i, order + 1), p);
    assert Covered(p, g);
    assert p == Start(i, order + 1) + Pow2(order);
  }

  lemma {:induction false} SplitOffIsPut(z: Layout, order: nat, i: nat)
    requires order < |z.freelist| && order < |z.bits| && i < |z.bits[order]|
    requires z.first + Start(2 * i + 1, order) < |z.next| && z.first + Start(2 * i + 1, order) < |z.prev|
    ensures CanSplit(z, order, Start(i, order + 1)) && SplitOff(z, order, Start(i, order + 1)) == SplitPut(z, order, 2 * i + 1)
  {
    StartStep(2 * i, order);
    UpStart(2 * i, order);
  }

  // ---------------------------------------------------------------- the steps of freeing

  /** Putting block i at the head of the freelist of order k. */
  ghost function Hung(z: Layout, k: nat, block: nat): Layout
    requires k < |z.freelist| && k < |z.bits| && Up(block, k) / 2 < |z.bits[k]|
    requires z.first + block < |z.next| && z.first + block < |z.prev|
    requires -1 <= z.freelist[k] && z.first + z.freelist[k] < |z.prev|
  {
    var page, head := z.first + block, z.freelist[k];
    var prev1 := if head == -1 then z.prev else z.prev[z.first + head := block];
    z.(freelist := z.freelist[k := block],
       bits := z.bits[k := z.bits[k][Up(block, k) / 2 := true]],
       next := z.next[page := head], prev := prev1[page := -1])
  }

  ghost function Pushed(z: Layout, k: nat, i: nat): Layout
    requires k < |z.freelist| && k < |z.bits| && i / 2 < |z.bits[k]|
    requires z.first + Start(i, k) < |z.next| && z.first + Start(i, k) < |z.prev|
    requires -1 <= z.freelist[k] && z.first + z.freelist[k] < |z.prev|
  {
    UpStart(i, k);
    Hung(z, k, Start(i, k))
  }

  lemma {:induction false} PushThread(list: seq<nat>, k: nat, i: nat, z: Layout)
    requires k < |z.freelist| && k < |z.bits| && i / 2 < |z.bits[k]| && Threaded(list, k, z.freelist[k], z.first, z.next, z.prev)
    requires i !in list && z.first + Start(i, k) < |z.next| && z.first + Start(i, k) < |z.prev|
    ensures -1 <= z.freelist[k] && z.first + z.freelist[k] < |z.prev|
    ensures var z' := Pushed(z, k, i); Threaded([i] + list, k, Start(i, k), z'.first, z'.next, z'.prev)
  {
    if list != [] { assert Hooked(list, 0, k, z.first, z.next, z.prev); }
    var z', t := Pushed(z, k, i), [i] + list;
    forall n | 0 <= n < |t| ensures Hooked(t, n, k, z'.first, z'.next, z'.prev) {
      if n > 0 {
        assert Hooked(list, n - 1, k, z.first, z.next, z.prev);
        StartInjective(t[n], i, k);
        if n > 1 { StartInjective(t[n], list[0], k); }
      }
    }
  }

  lemma {:induction false} PushRep(z: Layout, lists: seq<seq<nat>>, k: nat, i: nat)
    requires Rep(z, lists) && k <= z.highest && InZone(Block(i, k), z.highest)
    requires Clear(Blocks(lists), Block(i, k)) && Good(Blocks(lists) + {Block(i, k)}, z.highest)
    ensures i / 2 < |z.bits[k]| && z.first + Start(i, k) < |z.next|
    ensures -1 <= z.freelist[k] && z.first + z.freelist[k] < |z.prev|
    ensures Rep(Pushed(z, k, i), lists[k := [i] + lists[k]])
    ensures Blocks(lists[k := [i] + lists[k]]) == Blocks(lists) + {Block(i, k)}
    ensures Up(Start(i, k), k) == i && OnlyIn(z, Pushed(z, k, i), Blocks(lists) + {Block(i, k)})
  {
    var f, h := Blocks(lists), z.highest;
    UpStart(i, k);
    if lists[k] != [] {
      InBlocks(lists, Block(lists[k][0], k));
      StartPage(Block(lists[k][0], k), h);
    }
    InBlocks(lists, Block(i, k));
    StartPage(Block(i, k), h);
    BlocksPush(lists, k, i);
    assert BitsOk(z.bits[k], k, h, f);
    TwinNotFree(f + {Block(i, k)}, Block(i, k), h);
    BitSet(z.bits[k], k, h, f, f + {Block(i, k)}, i, true);
    assert Contains(Block(i, k), Block(i, k));
    assert Threaded(lists[k], k, z.freelist[k], z.first, z.next, z.prev);
    PushThread(lists[k], k, i, z);
    var z', lists' := Pushed(z, k, i), lists[k := [i] + lists[k]];
    forall j | 0 <= j <= h ensures Threaded(lists'[j], j, z'.freelist[j], z'.first, z'.next, z'.prev) {
      if j != k { PushOtherThread(z, lists, k, i, j); }
    }
    OtherBits(z.bits, k, i, h, f, Blocks(lists'), z'.bits[k]);
    assert AllBitsOk(z', lists');
  }

  lemma {:induction false} PushOtherThread(z: Layout, lists: seq<seq<nat>>, k: nat, i: nat, j: nat)
    requires Rep(z, lists) && k <= z.highest && InZone(Block(i, k), z.highest) && Clear(Blocks(lists), Block(i, k))
    requires i / 2 < |z.bits[k]| && z.first + Start(i, k) < |z.next|
    requires -1 <= z.freelist[k] && z.first + z.freelist[k] < |z.prev| && j != k && j <= z.highest
    ensures var z' := Pushed(z, k, i); Threaded(lists[j], j, z'.freelist[j], z'.first, z'.next, z'.prev)
  {
    var z', h := Pushed(z, k, i), z.highest;
    assert Threaded(lists[j], j, z.freelist[j], z.first, z.next, z.prev);
    assert Threaded(lists[k], k, z.freelist[k], z.first, z.next, z.prev);
    ClearStarts(lists, j, Block(i, k), h);
    forall n | 0 <= n < |lists[j]| ensures Untouched(z.first + Start(lists[j][n], j), z, z') {
      if lists[k] != [] { DifferentStarts(lists, Block(lists[j][n], j), Block(lists[k][0], k), h); }
    }
    ThreadFrame(lists[j], j, z, z');
  }

  ghost predicate CanUnlink(z: Layout, k: nat, block: nat) {
    && k < |z.freelist| && z.first + block < |z.next| && z.first + block < |z.prev| 
    && var n, p := z.next[z.first + block], z.prev[z.first + block];
       && -1 <= n && z.first + n < |z.prev| && -1 <= p && z.first + p < |z.next| && n != block && p != block
       && (z.freelist[k] == block ==> p == -1)
  }

  /** Taking the block that starts at page `block` out of the freelist of order k, wherever it is in it. */
  ghost function Unlink(z: Layout, k: nat, block: nat): Layout
    requires CanUnlink(z, k, block)
  {
    var n, p := z.next[z.first + block], z.prev[z.first + block];
    z.(freelist := if z.freelist[k] == block then z.freelist[k := n] else z.freelist,
       prev := if n == -1 then z.prev else z.prev[z.first + n := p],
       next := if p == -1 then z.next else z.next[z.first + p := n])
  }

  ghost function Unlinked(z: Layout, k: nat, i: nat): Layout
    requires k < |z.bits| && i / 2 < |z.bits[k]| && CanUnlink(z, k, Start(i, k))
  {
    Unlink(z.(bits := z.bits[k := z.bits[k][i / 2 := false]]), k, Start(i, k))
  }

  ghost function Without(list: seq<nat>, j: nat): seq<nat>
    requires j < |list|
  {
    list[..j] + list[j + 1..]
  }

  lemma {:induction false} UnlinkThread(list: seq<nat>, k: nat, j: nat, z: Layout)
    requires k < |z.freelist| && k < |z.bits| && Threaded(list, k, z.freelist[k], z.first, z.next, z.prev)
    requires j < |list| && list[j] / 2 < |z.bits[k]|
    ensures CanUnlink(z, k, Start(list[j], k))
    ensures z.next[z.first + Start(list[j], k)] == LinkAt(list, j + 1, k) && z.prev[z.first + Start(list[j], k)] == LinkAt(list, j - 1, k)
    ensures var z' := Unlinked(z, k, list[j]); Threaded(Without(list, j), k, z'.freelist[k], z'.first, z'.next, z'.prev)
  {
    assert Hooked(list, j, k, z.first, z.next, z.prev);
    if j > 0 {
      assert Hooked(list, j - 1, k, z.first, z.next, z.prev);
      StartInjective(list[0], list[j], k);
      StartInjective(list[j - 1], list[j], k);
    }
    if j + 1 < |list| {
      assert Hooked(list, j + 1, k, z.first, z.next, z.prev);
      StartInjective(list[j + 1], list[j], k);
    }
    var z', t := Unlinked(z, k, list[j]), Without(list, j);
    forall n | 0 <= n < |t| ensures Hooked(t, n, k, z'.first, z'.next, z'.prev) {
      UnlinkHook(list, k, j, z, n);
    }
  }

  /** The links of a block that stays, in both directions. */
  lemma {:induction false} UnlinkHook(list: seq<nat>, k: nat, j: nat, z: Layout, n: nat)
    requires k < |z.freelist| && k < |z.bits| && Threaded(list, k, z.freelist[k], z.first, z.next, z.prev)
    requires j < |list| && list[j] / 2 < |z.bits[k]| && n < |Without(list, j)| && CanUnlink(z, k, Start(list[j], k))
    requires z.next[z.first + Start(list[j], k)] == LinkAt(list, j + 1, k) && z.prev[z.first + Start(list[j], k)] == LinkAt(list, j - 1, k)
    ensures var z' := Unlinked(z, k, list[j]); Hooked(Without(list, j), n, k, z'.first, z'.next, z'.prev)
  {
    var t, m := Without(list, j), if n < j then n else n + 1;
    assert t[n] == list[m];
    assert Hooked(list, m, k, z.first, z.next, z.prev);
    NextLink(list, k, j, m, z.first, z.next);
    PrevLink(list, k, j, m, z.first, z.prev);
    WithoutLinks(list, k, j, n);
  }

  lemma {:induction false} WithoutLinks(list: seq<nat>, k: nat, j: nat, n: nat)
    requires j < |list| && n < |list| - 1
    ensures var t, m := Without(list, j), if n < j then n else n + 1;
            && LinkAt(t, n + 1, k) == (if m + 1 == j then LinkAt(list, j + 1, k) else LinkAt(list, m + 1, k))
            && LinkAt(t, n - 1, k) == (if m == j + 1 then LinkAt(list, j - 1, k) else LinkAt(list, m - 1, k))
  {
  }

  lemma {:induction false} NextLink(list: seq<nat>, k: nat, j: nat, m: nat, first: nat, next: seq<int>)
    requires j < |list| && m < |list| && m != j && forall a, b :: 0 <= a < b < |list| ==> list[a] != list[b]
    requires first + Start(list[m], k) < |next| && next[first + Start(list[m], k)] == LinkAt(list, m + 1, k)
    requires j > 0 ==> first + Start(list[j - 1], k) < |next|
    ensures var next' := if j == 0 then next else next[first + Start(list[j - 1], k) := LinkAt(list, j + 1, k)];
            next'[first + Start(list[m], k)] == if m + 1 == j then LinkAt(list, j + 1, k) else LinkAt(list, m + 1, k)
  {
    if j > 0 && m != j - 1 { StartInjective(list[m], list[j - 1], k); }
  }

  lemma {:induction false} PrevLink(list: seq<nat>, k: nat, j: nat, m: nat, first: nat, prev: seq<int>)
    requires j < |list| && m < |list| && m != j && forall a, b :: 0 <= a < b < |list| ==> list[a] != list[b]
    requires first + Start(list[m], k) < |prev| && prev[first + Start(list[m], k)] == LinkAt(list, m - 1, k)
    requires j + 1 < |list| ==> first + Start(list[j + 1], k) < |prev|
    ensures var prev' := if j + 1 == |list| then prev else prev[first + Start(list[j + 1], k) := LinkAt(list, j - 1, k)];
            prev'[first + Start(list[m], k)] == if m == j + 1 then LinkAt(list, j - 1, k) else LinkAt(list, m - 1, k)
  {
    if j + 1 < |list| && m != j + 1 { StartInjective(list[m], list[j + 1], k); }
  }

  lemma {:induction false} BlocksWithout(lists: seq<seq<nat>>, k: nat, j: nat)
    requires k < |lists| && j < |lists[k]| && forall m, n :: 0 <= m < n < |lists[k]| ==> lists[k][m] != lists[k][n]
    ensures Blocks(lists[k := Without(lists[k], j)]) == Blocks(lists) - {Block(lists[k][j], k)}
  {
    var lists' := lists[k := Without(lists[k], j)];
    assert lists[k] == lists[k][..j] + [lists[k][j]] + lists[k][j + 1..];
    forall b ensures b in Blocks(lists') <==> b in Blocks(lists) && b != Block(lists[k][j], k) {
      InBlocks(lists, b);
      InBlocks(lists', b);
    }
  }

  lemma {:induction false} UnlinkRep(z: Layout, lists: seq<seq<nat>>, k: nat, j: nat)
    requires Rep(z, lists) && k <= z.highest && j < |lists[k]|
    ensures var i := lists[k][j];
            && i / 2 < |z.bits[k]| && z.bits[k][i / 2] && CanUnlink(z, k, Start(i, k))
            && Rep(Unlinked(z, k, i), lists[k := Without(lists[k], j)]) && OnlyIn(z, Unlinked(z, k, i), Blocks(lists))
    ensures Blocks(lists[k := Without(lists[k], j)]) == Blocks(lists) - {Block(lists[k][j], k)}
  {
    hide Good;
    var f, h, list, i := Blocks(lists), z.highest, lists[k], lists[k][j];
    InBlocks(lists, Block(i, k));
    GoodWithout(f, Block(i, k), h);
    assert Threaded(list, k, z.freelist[k], z.first, z.next, z.prev) && BitsOk(z.bits[k], k, h, f);
    BlocksWithout(lists, k, j);
    TwinNotFree(f, Block(i, k), h);
    BitSet(z.bits[k], k, h, f, f - {Block(i, k)}, i, false);
    UnlinkThread(list, k, j, z);
    var z', lists' := Unlinked(z, k, i), lists[k := Without(list, j)];
    forall m | 0 <= m <= h ensures Threaded(lists'[m], m, z'.freelist[m], z'.first, z'.next, z'.prev) {
      if m != k { UnlinkOtherThread(z, lists, k, j, m); }
    }
    OtherBits(z.bits, k, i, h, f, Blocks(lists'), z'.bits[k]);
    assert AllBitsOk(z', lists');
    UnlinkOnlyIn(z, lists, k, j);
  }

  lemma {:induction false} UnlinkOnlyIn(z: Layout, lists: seq<seq<nat>>, k: nat, j: nat)
    requires Rep(z, lists) && k <= z.highest && j < |lists[k]| && lists[k][j] / 2 < |z.bits[k]| && CanUnlink(z, k, Start(lists[k][j], k))
    requires var page := z.first + Start(lists[k][j], k);
             z.next[page] == LinkAt(lists[k], j + 1, k) && z.prev[page] == LinkAt(lists[k], j - 1, k)
    ensures OnlyIn(z, Unlinked(z, k, lists[k][j]), Blocks(lists))
  {
    hide AllThreaded, AllBitsOk, Good, InFree;
    if j > 0 { ListedInFree(z, lists, k, j - 1); }
    if j + 1 < |lists[k]| { ListedInFree(z, lists, k, j + 1); }
  }

  lemma {:induction false} ListedInFree(z: Layout, lists: seq<seq<nat>>, k: nat, j: nat)
    requires Good(Blocks(lists), z.highest) && k < |lists| && j < |lists[k]|
    ensures InFree(z.first, Blocks(lists), z.first + Start(lists[k][j], k)) && Start(lists[k][j], k) < Pow2(z.highest)
  {
    InBlocks(lists, Block(lists[k][j], k));
    StartInFree(Blocks(lists), Block(lists[k][j], k), z.highest, z.first);
  }

  lemma {:induction false} UnlinkOtherThread(z: Layout, lists: seq<seq<nat>>, k: nat, j: nat, m: nat)
    requires Rep(z, lists) && k <= z.highest && j < |lists[k]| && m != k && m <= z.highest
    requires lists[k][j] / 2 < |z.bits[k]| && CanUnlink(z, k, Start(lists[k][j], k))
    requires var page := z.first + Start(lists[k][j], k);
             z.next[page] == LinkAt(lists[k], j + 1, k) && z.prev[page] == LinkAt(lists[k], j - 1, k)
    ensures var z' := Unlinked(z, k, lists[k][j]); Threaded(lists[m], m, z'.freelist[m], z'.first, z'.next, z'.prev)
  {
    var z', h, list := Unlinked(z, k, lists[k][j]), z.highest, lists[k];
    assert Threaded(lists[m], m, z.freelist[m], z.first, z.next, z.prev);
    forall n | 0 <= n < |lists[m]| ensures Untouched(z.first + Start(lists[m][n], m), z, z') {
      if j + 1 < |list| { DifferentStarts(lists, Block(lists[m][n], m), Block(list[j + 1], k), h); }
      if j > 0 { DifferentStarts(lists, Block(lists[m][n], m), Block(list[j - 1], k), h); }
    }
    ThreadFrame(lists[m], m, z, z');
  }

  /** What freeing block i needs to know to take its free buddy out of the freelist. */
  lemma {:induction false} BuddyReady(z: Layout, lists: seq<seq<nat>>, k: nat, i: nat) returns (j: nat)
    requires Rep(z, lists) && k < z.highest && Block(Twin(i), k) in Blocks(lists)
    ensures j < |lists[k]| && lists[k][j] == Twin(i)
    ensures var block, other, bit := Start(i, k), Start(Twin(i), k), Up(Start(i, k), k) / 2;
            && bit == Twin(i) / 2 == i / 2 < |z.bits[k]| && z.bits[k][bit]
            && bit * 2 * Pow2(k) == Start(2 * bit, k)
            && (block == Start(2 * bit, k) <==> i % 2 == 0)
            && other == (if i % 2 == 0 then Start(2 * bit, k) + Pow2(k) else Start(2 * bit, k))
            && var z1 := z.(bits := z.bits[k := z.bits[k][bit := false]]);
               && CanUnlink(z1, k, other)
               && Rep(Unlink(z1, k, other), lists[k := Without(lists[k], j)]) && OnlyIn(z, Unlink(z1, k, other), Blocks(lists))
    ensures Blocks(lists[k := Without(lists[k], j)]) == Blocks(lists) - {Block(Twin(i), k)}
  {
    hide AllThreaded, AllBitsOk, Good, OnlyIn, Unlink;
    InBlocks(lists, Block(Twin(i), k));
    j :| 0 <= j < |lists[k]| && lists[k][j] == Twin(i);
    UnlinkRep(z, lists, k, j);
    UpStart(i, k);
    StartIsProduct(2 * (i / 2), k);
    StartStep(2 * (i / 2), k);
    if i % 2 == 1 { StartInjective(i, i - 1, k); }
  }

  /** The bit of a block that is not free says whether its buddy is. */
  lemma {:induction false} BitMeansBuddy(z: Layout, lists: seq<seq<nat>>, k: nat, i: nat)
    requires Rep(z, lists) && k <= z.highest && InZone(Block(i, k), z.highest) && Clear(Blocks(lists), Block(i, k))
    ensures Up(Start(i, k), k) == i && i / 2 < |z.bits[k]|
    ensures z.bits[k][i / 2] <==> k < z.highest && Block(Twin(i), k) in Blocks(lists)
    ensures i / 2 * 2 * Pow2(k) == Start(i / 2, k + 1)
  {
    UpStart(i, k);
    StartIsProduct(i / 2 * 2, k);
    assert BitsOk(z.bits[k], k, z.highest, Blocks(lists));
    assert Contains(Block(i, k), Block(i, k));
    BitSet(z.bits[k], k, z.highest, Blocks(lists), Blocks(lists), i, Block(Twin(i), k) in Blocks(lists));
    assert i == 2 * (i / 2) || i == 2 * (i / 2) + 1;
  }

  /** The bits of the lower orders of a new zone of 2^h pages: no pair is mixed. */
  function FreshBits(h: nat, k: nat): (r: seq<seq<bool>>)
    requires k <= h
    ensures |r| == k
    ensures forall j :: 0 <= j < k ==> |r[j]| == (Pow2(h - j) + 1) / 2 && forall i :: 0 <= i < |r[j]| ==> !r[j][i]
  {
    if k == 0 then [] else FreshBits(h, k - 1) + [seq((Pow2(h - k + 1) + 1) / 2, i => false)]
  }

  function Repeated<T>(x: T, n: nat): (r: seq<T>)
    ensures |r| == n && forall i :: 0 <= i < n ==> r[i] == x
  {
    if n == 0 then [] else Repeated(x, n - 1) + [x]
  }

  lemma {:induction false} FreshRep(z: Layout, lists: seq<seq<nat>>)
    requires 1 <= z.first && z.first + Pow2(z.highest) <= |z.next| == |z.prev|
    requires z.next[z.first] == -1 && z.prev[z.first] == -1
    requires z.freelist == Repeated(-1, z.highest) + [0] && z.bits == FreshBits(z.highest, z.highest) + [[true]]
    requires lists == Repeated([], z.highest) + [[0]]
    ensures Rep(z, lists) && Blocks(lists) == {Block(0, z.highest)} && |PageSet(Blocks(lists), z.highest)| == Pow2(z.highest)
  {
    var h := z.highest;
    WholeCount(h);
    forall b ensures b in Blocks(lists) <==> b == Block(0, h) { InBlocks(lists, b); }
    StartIsProduct(0, h);
    assert Hooked([0], 0, h, z.first, z.next, z.prev);
    forall k | 0 <= k <= h ensures Threaded(lists[k], k, z.freelist[k], z.first, z.next, z.prev) { }
    assert BitsOk(z.bits[h], h, h, Blocks(lists));
  }

  lemma {:induction false} WholeCount(h: nat)
    ensures |PageSet({Block(0, h)}, h)| == Pow2(h)
  {
    var b := Block(0, h);
    TakeWhole({b}, b, h);
    assert {b} - {b} == {};
    AllocatedCount({b}, b, {}, h);
    assert PageSet({}, h) == {};
  }

  // ---------------------------------------------------------------- the zone

  /** The order of the freelist that an allocation of order k takes its block from. */
  ghost function SourceOrder(lists: seq<seq<nat>>, k: nat): nat
    decreases |lists| - k
  {
    if k >= |lists| || lists[k] != [] then k else SourceOrder(lists, k + 1)
  }

  ghost predicate HasOrder(f: set<Block>, k: nat) { exists b :: b in f && b.order >= k }

  /** Allocation takes the only block of the freelist of order k. */
  ghost predicate Empties(lists: seq<seq<nat>>, k: nat) { k < |lists| && |lists[k]| == 1 }

  /** What an allocation that takes its block from the freelist of order k writes: records of pages that were free,
      and, if it empties that list, the second word of the record in front of the zone. */
  ghost predicate Strikes(z: Layout, z': Layout, k: nat, lists: seq<seq<nat>>) {
    && SameShape(z, z') && 1 <= z.first <= |z.prev| && z.first <= |z.next|
    && (forall x: nat {:trigger Untouched(x, z, z')} ::
          !InFree(z.first, Blocks(lists), x) && x != z.first - 1 ==> Untouched(x, z, z'))
    && z'.next[z.first - 1] == z.next[z.first - 1]
    && z'.prev[z.first - 1] == if Empties(lists, k) then -1 else z.prev[z.first - 1]
  }

  lemma StrikesThen(z: Layout, z': Layout, z'': Layout, k: nat, lists: seq<seq<nat>>)
    requires Strikes(z, z', k, lists) && OnlyIn(z', z'', Blocks(lists)) && |z.next| == |z.prev|
    ensures Strikes(z, z'', k, lists)
  {
    forall x: nat | !InFree(z.first, Blocks(lists), x) && x != z.first - 1 ensures Untouched(x, z, z'') {
      assert Untouched(x, z, z') && Untouched(x, z', z'');
    }
    assert Untouched(z.first - 1, z', z'');
  }

  lemma StrikesNothing(z: Layout, k: nat, lists: seq<seq<nat>>)
    requires 1 <= z.first <= |z.prev| && z.first <= |z.next| && !Empties(lists, k)
    ensures Strikes(z, z, k, lists)
  {
  }

  lemma {:induction false} UpStart(i: nat, k: nat)
    ensures Up(Start(i, k), k) == i
  {
    HasInterval(Block(i, k), Start(i, k));
    StartStep(i, k);
  }

  const MAX_ORDER: nat := 10

  /** The largest r such that 2^r is no more than n. */
  function HighestBit(n: nat): (r: nat)
    requires n > 0
    ensures Pow2(r) <= n < 2 * Pow2(r)
  {
    if n == 1 then 0 else HighestBit(n / 2) + 1
  }

  /** The least k such that n pages fit into a block of 2^k. */
  function OrderFor(n: nat): (r: nat)
    requires n > 0
    ensures n <= Pow2(r) && (r > 0 ==> Pow2(r - 1) < n)
  {
    var bit := HighestBit(n);
    if n - Pow2(bit) != 0 then bit + 1 else bit
  }

  datatype AllocResult =
    | Page(index: nat)
    | NoMemory
    | Halt // the assertion on the order fails

  lemma {:induction false} SomeFree(f: set<Block>, h: nat)
    ensures |PageSet(f, h)| > 0 ==> HasOrder(f, 0)
  {
    if |PageSet(f, h)| > 0 {
      var p :| p in PageSet(f, h);
      var c :| c in f && Has(c, p);
      assert c.order >= 0;
    }
  }

  lemma NoOrderAbove(f: set<Block>, h: nat, k: nat)
    requires Good(f, h) && k > h
    ensures !HasOrder(f, k)
  {
  }

  lemma {:induction false} EndInZone(b: Block, h: nat)
    requires b.order <= h && Start(b.idx, b.order) + Pow2(b.order) <= Pow2(h)
    ensures InZone(b, h)
    decreases b.order
  {
    if b.order > 0 {
      StartStep(2 * b.idx, b.order - 1);
      EndInZone(Half(b, true), h);
    }
  }

  class Zone {
    const first: nat
    const highest: nat
    const pages: PageArray
    var freelist: seq<int>
    var bits: seq<seq<bool>>
    var freePages: nat
    ghost var lists: seq<seq<nat>>

    ghost function View(): Layout
      reads this, pages
    {
      Layout(first, highest, freelist, bits, pages.next, pages.prev)
    }

    ghost predicate Valid()
      reads this, pages
    {
      Rep(View(), lists)
    }

    ghost function Free(): set<Block>
      reads this
    {
      Blocks(lists)
    }

    /** A zone that is one free block. The links in its first page are the ones `PhysicalRegion::init` writes. */
    constructor (firstPage: nat, numPages: nat, pages: PageArray)
      requires numPages > 0 && Pow2(OrderFor(numPages)) == numPages && OrderFor(numPages) <= MAX_ORDER
      requires firstPage + 1 + numPages <= |pages.next| == |pages.prev|
      modifies pages
      ensures Valid() && first == firstPage + 1 && this.pages == pages && highest == OrderFor(numPages)
      ensures Free() == {Block(0, highest)} && freePages == numPages && Exact()
      ensures pages.next == old(pages.next)[first := -1] && pages.prev == old(pages.prev)[first := -1]
    {
      var h := OrderFor(numPages);
      this.first, this.highest, this.pages, this.freePages := firstPage + 1, h, pages, numPages;
      freelist, bits, lists := Repeated(-1, h) + [0], FreshBits(h, h) + [[true]], Repeated([], h) + [[0]];
      new;
      pages.next, pages.prev := pages.next[first := -1], pages.prev[first := -1];
      FreshRep(View(), lists);
    }

    lemma HeadFacts(order: nat)
      requires Valid() && order <= highest
      ensures freelist[order] == LinkAt(lists[order], 0, order) && (freelist[order] == -1 <==> lists[order] == [])
    {
      assert Threaded(lists[order], order, freelist[order], first, pages.next, pages.prev);
    }

    method SetBit(order: nat, block: nat, mixed: bool)
      requires order < |bits| && Up(block, order) / 2 < |bits[order]|
      modifies this`bits
      ensures bits == old(bits)[order := old(bits)[order][Up(block, order) / 2 := mixed]]
    {
      bits := bits[order := bits[order][Up(block, order) / 2 := mixed]];
    }

    /** Takes the head of a freelist. */
    method PopHead(order: nat) returns (block: nat, ghost i: nat)
      requires Valid() && order <= highest && freelist[order] != -1
      modifies this, pages
      ensures Valid() && freePages == old(freePages) && block == Start(i, order)
      ensures old(lists)[order] != [] && i == old(lists)[order][0] && Block(i, order) in old(Free())
      ensures lists == old(lists)[order := old(lists)[order][1..]] && Allocated(old(Free()), Block(i, order), Free(), highest)
      ensures Strikes(old(View()), View(), order, old(lists))
    {
      hide AllThreaded, AllBitsOk, Good, Allocated, Strikes;
      ghost var z := View();
      HeadFacts(order);
      PopRep(z, lists, order);
      PopStrikes(z, lists, order);
      i := lists[order][0];
      UpStart(i, order);
      TakeWhole(Free(), Block(i, order), highest);
      block := freelist[order];
      assert bits[order][Up(block, order) / 2];
      SetBit(order, block, false);
      freelist := freelist[order := pages.next[first + block]];
      pages.prev := pages.prev[first + freelist[order] := -1];
      lists := lists[order := lists[order][1..]];
      assert View() == Popped(z, order, i);
    }

    /** Makes the second half of `block` the only entry of an empty freelist. */
    method HangSecondHalf(order: nat, block: nat)
      requires CanSplit(View(), order, block)
      modifies this`freelist, this`bits, pages
      ensures View() == SplitOff(old(View()), order, block)
    {
      SetBit(order, block, true);
      freelist := freelist[order := block + Pow2(order)];
      pages.next := pages.next[first + freelist[order] := -1];
      pages.prev := pages.prev[first + freelist[order] := -1];
    }

    /** Frees the second half of the block of order + 1 that starts at page `block`. */
    method PutSecondHalf(order: nat, block: nat, ghost i: nat, ghost g: set<Block>)
      requires Valid() && order < highest && freelist[order] == -1 && block == Start(i, order + 1)
      requires Allocated(g, Block(i, order + 1), Free(), highest)
      modifies this, pages
      ensures Valid() && freePages == old(freePages)
      ensures lists == old(lists)[order := [2 * i + 1]] && Allocated(g, Block(2 * i, order), Free(), highest)
      ensures OnlyIn(old(View()), View(), g)
    {
      hide AllThreaded, AllBitsOk, Good, Allocated, OnlyIn;
      SplitReady(View(), lists, order, i, g);
      HangSecondHalf(order, block);
      lists := lists[order := [2 * i + 1]];
    }

    /** Allocates a block of the given order, splitting a larger one if need be. */
    method AllocInternal(order: nat) returns (r: Option<nat>, ghost i: nat)
      requires Valid() && order <= highest + 1
      modifies this, pages
      ensures Valid() && freePages == old(freePages)
      ensures r.Some? <==> HasOrder(old(Free()), order)
      ensures r.None? ==> lists == old(lists) && View() == old(View())
      ensures |lists| == |old(lists)| && forall k :: 0 <= k < order && k < |lists| ==> lists[k] == old(lists)[k]
      ensures r.Some? ==> r.value == Start(i, order) && Allocated(old(Free()), Block(i, order), Free(), highest)
      ensures Strikes(old(View()), View(), SourceOrder(old(lists), order), old(lists))
      decreases highest + 1 - order
    {
      hide AllThreaded, AllBitsOk, Good, Allocated, Strikes, OnlyIn;
      i := 0;
      if order > highest {
        StrikesNothing(View(), order, lists);
        return None, 0;
      }
      HeadFacts(order);
      if freelist[order] == -1 {
        r, i := AllocInternal(order + 1);
        if r.None? {
          return None, 0;
        }
        ghost var z := View();
        HeadFacts(order);
        PutSecondHalf(order, r.value, i, old(Free()));
        StrikesThen(old(View()), z, View(), SourceOrder(old(lists), order), old(lists));
        i := 2 * i;
      } else {
        var block;
        block, i := PopHead(order);
        r := Some(block);
      }
    }

    /** Bridges the links around a block, and moves the head on if it was the first. */
    method RemoveFromFreelist(block: nat, order: nat)
      requires CanUnlink(View(), order, block)
      modifies this`freelist, pages
      ensures View() == Unlink(old(View()), order, block)
    {
      var next, prev := pages.next[first + block], pages.prev[first + block];
      if next != -1 {
        pages.prev := pages.prev[first + next := prev];
      }
      if prev != -1 {
        pages.next := pages.next[first + prev := next];
      }
      if freelist[order] == block {
        assert prev == -1;
        freelist := freelist[order := next];
      }
    }

    /** Clears the bit of a pair and takes the buddy of `block` out of its freelist. */
    method DropBuddy(block: nat, order: nat, ghost other: nat)
      requires order < |bits| && Up(block, order) / 2 < |bits[order]|
      requires var firstBuddy := Up(block, order) / 2 * 2 * Pow2(order);
               other == if block == firstBuddy then firstBuddy + Pow2(order) else firstBuddy
      requires CanUnlink(View(), order, other)
      modifies this`bits, this`freelist, pages
      ensures View() == Unlink(old(View()).(bits := old(bits)[order := old(bits)[order][Up(block, order) / 2 := false]]), order, other)
    {
      SetBit(order, block, false);
      var firstBuddy := Up(block, order) / 2 * 2 * Pow2(order);
      if block == firstBuddy {
        RemoveFromFreelist(firstBuddy + Pow2(order), order);
      } else {
        RemoveFromFreelist(firstBuddy, order);
      }
    }

    /** Both buddies are free from now on: takes the one that was out of its freelist. */
    method TakeBuddy(block: nat, order: nat, ghost i: nat)
      requires Valid() && order < highest && block == Start(i, order) && Block(Twin(i), order) in Free()
      modifies this, pages
      ensures Valid() && freePages == old(freePages)
      ensures Free() == old(Free()) - {Block(Twin(i), order)} && OnlyIn(old(View()), View(), old(Free()))
    {
      hide AllThreaded, AllBitsOk, Good, OnlyIn;
      ghost var j := BuddyReady(View(), lists, order, i);
      DropBuddy(block, order, Start(Twin(i), order));
      lists := lists[order := Without(lists[order], j)];
    }

    /** Puts a block at the head of a freelist. */
    method HangFirst(block: nat, order: nat)
      requires order < |freelist| && order < |bits| && Up(block, order) / 2 < |bits[order]|
      requires first + block < |pages.next| && first + block < |pages.prev|
      requires -1 <= freelist[order] && first + freelist[order] < |pages.prev|
      modifies this`bits, this`freelist, pages
      ensures View() == Hung(old(View()), order, block)
    {
      SetBit(order, block, true);
      if freelist[order] != -1 {
        pages.prev := pages.prev[first + freelist[order] := block];
      }
      pages.next := pages.next[first + block := freelist[order]];
      pages.prev := pages.prev[first + block := -1];
      freelist := freelist[order := block];
    }

    method PutFirst(block: nat, order: nat, ghost i: nat)
      requires Valid() && order <= highest && block == Start(i, order)
      requires InZone(Block(i, order), highest) && Clear(Free(), Block(i, order)) && Good(Free() + {Block(i, order)}, highest)
      modifies this, pages
      ensures Valid() && freePages == old(freePages)
      ensures Free() == old(Free()) + {Block(i, order)} && OnlyIn(old(View()), View(), Free())
    {
      hide AllThreaded, AllBitsOk, Good, OnlyIn;
      PushRep(View(), lists, order, i);
      HangFirst(block, order);
      lists := lists[order := [i] + lists[order]];
    }

    /** Frees a block, merging it with its buddy as long as that is free. */
    method FreeInternal(block: nat, order: nat, ghost i: nat)
      requires Valid() && order <= highest && block == Start(i, order)
      requires InZone(Block(i, order), highest) && Clear(Free(), Block(i, order))
      modifies this, pages
      ensures Valid() && freePages == old(freePages)
      ensures Free() == Freed(old(Free()), Block(i, order), highest) && OnlyIn(old(View()), View(), Free())
      decreases highest - order
    {
      hide AllThreaded, AllBitsOk, OnlyIn;
      BitMeansBuddy(View(), lists, order, i);
      FreedGood(Free(), Block(i, order), highest);
      if bits[order][Up(block, order) / 2] {
        var firstBuddy := Up(block, order) / 2 * 2 * Pow2(order);
        MergeStep(Free(), Block(i, order), highest);
        TakeBuddy(block, order, i);
        ghost var z := View();
        FreeInternal(firstBuddy, order + 1, i / 2);
        OnlyInThen(old(View()), z, View(), old(Free()), Free());
      } else {
        PutFirst(block, order, i);
      }
    }

    /** The counter agrees with the free blocks. */
    ghost predicate Exact()
      reads this
    {
      freePages == |PageSet(Free(), highest)|
    }

    /** Allocates a block for numPages pages. The counter is debited by the request, not by the block. */
    method AllocBlock(numPages: nat) returns (r: AllocResult, ghost i: nat)
      requires Valid() && numPages > 0
      modifies this, pages
      ensures Valid()
      ensures r.NoMemory? <==> old(freePages) < numPages
      ensures r.Page? <==> old(freePages) >= numPages && HasOrder(old(Free()), OrderFor(numPages))
      ensures !r.Page? ==> lists == old(lists) && freePages == old(freePages) && View() == old(View())
      ensures r.Page? ==>
        && r.index == first + Start(i, OrderFor(numPages))
        && Allocated(old(Free()), Block(i, OrderFor(numPages)), Free(), highest)
        && freePages == old(freePages) - numPages
        && Strikes(old(View()), View(), SourceOrder(old(lists), OrderFor(numPages)), old(lists))
      ensures r.Page? && old(Exact()) ==> (Exact() <==> numPages == Pow2(OrderFor(numPages)))
      ensures old(Exact()) && numPages == 1 && old(freePages) > 0 ==> r.Page?
    {
      i := 0;
      if freePages < numPages {
        return NoMemory, 0;
      }
      ghost var g := Free();
      var order := OrderFor(numPages);
      if numPages == 1 { SomeFree(g, highest); }
      if order > highest {
        NoOrderAbove(g, highest, order);
        return Halt, 0;
      }
      var block;
      block, i := AllocInternal(order);
      if block.None? {
        return Halt, 0;
      }
      AllocatedCount(g, Block(i, order), Free(), highest);
      freePages := freePages - numPages;
      r := Page(first + block.value);
    }

    /** Frees a block. */
    method FreeBlock(startPage: nat, numPages: nat, ghost i: nat)
      requires Valid() && numPages > 0 && first <= startPage && startPage + numPages <= first + Pow2(highest)
      requires Pow2(OrderFor(numPages)) == numPages && OrderFor(numPages) <= highest
      requires startPage - first == Start(i, OrderFor(numPages)) && Clear(Free(), Block(i, OrderFor(numPages)))
      modifies this, pages
      ensures Valid()
      ensures Free() == Freed(old(Free()), Block(i, OrderFor(numPages)), highest)
      ensures freePages == old(freePages) + numPages && (old(Exact()) ==> Exact())
      ensures OnlyIn(old(View()), View(), Free())
    {
      hide AllThreaded, AllBitsOk, OnlyIn;
      ghost var f, b := Free(), Block(i, OrderFor(numPages));
      EndInZone(b, highest);
      FreeInternal(startPage - first, OrderFor(numPages), i);
      FreedGood(f, b, highest);
      AllocatedCount(Free(), b, f, highest);
      freePages := freePages + numPages;
    }
  }

  // ---------------------------------------------------------------- the write before the zone

  /** The first page of a free block is the zone's last page only for a block of one page. */
  lemma {:induction false} LastPage(b: Block, h: nat)
    requires InZone(b, h) && Start(b.idx, b.order) == Pow2(h) - 1
    ensures b == Block(Pow2(h) - 1, 0)
  {
    assert b.order > 0 ==> Pow2(b.order) == 2 * Pow2(b.order - 1);
    StartStep(b.idx, b.order);
    var p := Start(b.idx + 1, b.order) - 1;
    HasInterval(b, p);
    PageInZone(b, p, h);
  }

  /** When the zone to the right empties a freelist, it clears the `prev` link of this zone's last page.
      That leaves this zone intact if and only if the page is not in the single-page freelist behind
      another block. */
  lemma {:induction false} StrayWrite(z: Layout, lists: seq<seq<nat>>)
    requires Rep(z, lists)
    ensures var last := Pow2(z.highest) - 1;
            Rep(z.(prev := z.prev[z.first + last := -1]), lists) <==> (last in lists[0] ==> lists[0][0] == last)
  {
    var last := Pow2(z.highest) - 1;
    var z' := z.(prev := z.prev[z.first + last := -1]);
    assert Threaded(lists[0], 0, z.freelist[0], z.first, z.next, z.prev);
    if last in lists[0] && lists[0][0] != last {
      var j :| 0 < j < |lists[0]| && lists[0][j] == last;
      assert Start(last, 0) == last && !Hooked(lists[0], j, 0, z'.first, z'.next, z'.prev);
      assert !Threaded(lists[0], 0, z'.freelist[0], z'.first, z'.next, z'.prev);
    } else {
      forall k | 0 <= k <= z.highest ensures Threaded(lists[k], k, z'.freelist[k], z'.first, z'.next, z'.prev) {
        StrayThread(z, lists, k);
      }
    }
  }

  lemma {:induction false} StrayThread(z: Layout, lists: seq<seq<nat>>, k: nat)
    requires Rep(z, lists) && k <= z.highest
    requires var last := Pow2(z.highest) - 1; last in lists[0] ==> lists[0][0] == last
    ensures Threaded(lists[k], k, z.freelist[k], z.first, z.next, z.prev[z.first + Pow2(z.highest) - 1 := -1])
  {
    var last := Pow2(z.highest) - 1;
    var prev' := z.prev[z.first + last := -1];
    assert Threaded(lists[k], k, z.freelist[k], z.first, z.next, z.prev);
    forall j | 0 <= j < |lists[k]| ensures Hooked(lists[k], j, k, z.first, z.next, prev') {
      assert Hooked(lists[k], j, k, z.first, z.next, z.prev);
      InBlocks(lists, Block(lists[k][j], k));
      if Start(lists[k][j], k) == last { LastPage(Block(lists[k][j], k), z.highest); }
    }
  }

  /** Such a state: four pages, of which the last and then the first were freed. */
  lemma StrayWriteBreaks()
    ensures var z := Layout(1, 2, [0, -1, -1], [[true, true], [false], [false]], [0, 3, 0, 0, -1], [0, -1, 0, 0, 0]);
            var lists := [[0, 3], [], []];
            Rep(z, lists) && !Rep(z.(prev := z.prev[1 + 3 := -1]), lists)
  {
    hide Rep;
    var z := Layout(1, 2, [0, -1, -1], [[true, true], [false], [false]], [0, 3, 0, 0, -1], [0, -1, 0, 0, 0]);
    StrayState(z);
    StrayWrite(z, [[0, 3], [], []]);
    assert Pow2(1) == 2 && Pow2(2) == 4;
  }

  lemma StrayState(z: Layout)
    requires z == Layout(1, 2, [0, -1, -1], [[true, true], [false], [false]], [0, 3, 0, 0, -1], [0, -1, 0, 0, 0])
    ensures Rep(z, [[0, 3], [], []])
  {
    hide Good;
    var lists: seq<seq<nat>> := [[0, 3], [], []];
    StrayBlocks(lists);
    assert Pow2(0) == 1 && Pow2(1) == 2 && Pow2(2) == 4;
    assert Start(0, 0) == 0 && Start(3, 0) == 3;
    assert Hooked(lists[0], 0, 0, 1, z.next, z.prev) && Hooked(lists[0], 1, 0, 1, z.next, z.prev);
    assert Threaded(lists[0], 0, 0, 1, z.next, z.prev);
    assert AllThreaded(z, lists);
  }

  lemma StrayBlocks(lists: seq<seq<nat>>)
    requires lists == [[0, 3], [], []]
    ensures Blocks(lists) == {Block(0, 0), Block(3, 0)} && Good(Blocks(lists), 2)
  {
    forall b ensures b in Blocks(lists) <==> b == Block(0, 0) || b == Block(3, 0) { InBlocks(lists, b); }
    assert Pow2(1) == 2 && Pow2(2) == 4;
  }
}
