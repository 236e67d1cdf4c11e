/**
  The mathematics of the buddy system: aligned power-of-two blocks as nodes of a binary tree of page
  indices, sets of free blocks with no two mergeable members, and what freeing and splitting do to them.
 */
module BuddyBlocks {
  import opened Helpers

  /** The idx-th block of 2^order pages. */
  datatype Block = Block(idx: nat, order: nat)

  /** The index of the block of n orders higher that contains block i. */
  function Up(i: nat, n: nat): nat { if n == 0 then i else Up(i / 2, n - 1) }

  ghost predicate Contains(c: Block, b: Block) { b.order <= c.order && Up(b.idx, c.order - b.order) == c.idx }

  ghost predicate Has(c: Block, page: nat) { Up(page, c.order) == c.idx }

  function Twin(i: nat): nat { if i % 2 == 0 then i + 1 else i - 1 }

  function Parent(b: Block): Block { Block(b.idx / 2, b.order + 1) }

  function Half(b: Block, second: bool): Block
    requires b.order > 0
  {
    Block(2 * b.idx + (if second then 1 else 0), b.order - 1)
  }

  ghost predicate InZone(b: Block, h: nat) { b.order <= h && b.idx < Pow2(h - b.order) }

  ghost predicate Covered(page: nat, f: set<Block>) { exists c :: c in f && Has(c, page) }

  ghost predicate AllCovered(b: Block, f: set<Block>) { forall p :: Has(b, p) ==> Covered(p, f) }

  ghost predicate Clear(f: set<Block>, b: Block) { forall c :: c in f ==> !Contains(c, b) && !Contains(b, c) }

  /** The free blocks of a zone of 2^h pages: inside it, disjoint, and fully merged. */
  ghost predicate Good(f: set<Block>, h: nat) {
    && (forall b :: b in f ==> InZone(b, h))
    && (forall b, c :: b in f && c in f && Contains(c, b) ==> b == c)
    && (forall b :: b in f && b.order < h ==> Block(Twin(b.idx), b.order) !in f)
  }

  // ---------------------------------------------------------------- the tree of blocks

  lemma {:induction false} UpAdd(i: nat, m: nat, n: nat)
    ensures Up(i, m + n) == Up(Up(i, m), n)
  {
    if m > 0 { UpAdd(i / 2, m - 1, n); }
  }

  lemma {:induction false} ContainsTrans(d: Block, c: Block, b: Block)
    requires Contains(c, b) && Contains(d, c)
    ensures Contains(d, b)
  {
    UpAdd(b.idx, c.order - b.order, d.order - c.order);
  }

  /** Two blocks that share a block are nested. */
  lemma {:induction false} Nested(d: Block, c: Block, b: Block)
    requires Contains(c, b) && Contains(d, b) && c.order <= d.order
    ensures Contains(d, c)
  {
    UpAdd(b.idx, c.order - b.order, d.order - c.order);
  }

  lemma {:induction false} HasContains(c: Block, page: nat)
    ensures Has(c, page) <==> Contains(c, Block(page, 0))
  {
  }

  lemma {:induction false} ParentContains(c: Block, b: Block)
    ensures Contains(Parent(b), b)
    ensures Contains(c, b) && c.order > b.order ==> Contains(c, Parent(b))
    ensures Contains(c, Parent(b)) ==> Contains(c, b)
  {
    assert Up(b.idx, 1) == b.idx / 2;
    if Contains(c, Parent(b)) { ContainsTrans(c, Parent(b), b); }
  }

  /** What lies strictly inside a block lies in one of its halves. */
  lemma {:induction false} InHalf(b: Block, c: Block)
    requires b.order > 0 && Contains(b, c) && c.order < b.order
    ensures Contains(Half(b, false), c) || Contains(Half(b, true), c)
  {
    var n := b.order - c.order;
    UpAdd(c.idx, n - 1, 1);
    assert Up(Up(c.idx, n - 1), 1) == Up(c.idx, n - 1) / 2;
  }

  lemma {:induction false} HalfInside(b: Block, second: bool)
    requires b.order > 0
    ensures Parent(Half(b, second)) == b && Contains(b, Half(b, second))
    ensures Half(b, second).idx == Twin(Half(b, !second).idx)
  {
    ParentContains(b, Half(b, second));
  }

  lemma {:induction false} HasUp(b: Block, c: Block, page: nat)
    requires Has(b, page) && Contains(c, b)
    ensures Has(c, page)
  {
    HasContains(b, page);
    ContainsTrans(c, b, Block(page, 0));
    HasContains(c, page);
  }

  // ---------------------------------------------------------------- canonical sets of free blocks

  /** If every page of b is free, one free block contains b. */
  lemma {:induction false} Cover(b: Block, f: set<Block>, h: nat) returns (c: Block)
    requires Good(f, h) && b.order <= h && AllCovered(b, f)
    ensures c in f && Contains(c, b)
    decreases b.order
  {
    if b.order == 0 {
      assert Has(b, b.idx);
      c :| c in f && Has(c, b.idx);
    } else {
      var l, r := Half(b, false), Half(b, true);
      HalfInside(b, false);
      HalfInside(b, true);
      forall p | Has(l, p) ensures Covered(p, f) { HasUp(l, b, p); }
      forall p | Has(r, p) ensures Covered(p, f) { HasUp(r, b, p); }
      c := Cover(l, f, h);
      if c.order < b.order {
        assert c == l;
        c := Cover(r, f, h);
        assert c != r;
      }
      Nested(c, b, if Contains(c, l) then l else r);
    }
  }

  /** The free blocks are exactly the maximal aligned blocks of free pages. */
  lemma {:induction false} FreeIffMaximal(b: Block, f: set<Block>, h: nat)
    requires Good(f, h)
    ensures b in f <==> InZone(b, h) && AllCovered(b, f) && (b.order < h ==> !AllCovered(Parent(b), f))
  {
    if b in f {
      assert AllCovered(b, f);
      if b.order < h && AllCovered(Parent(b), f) {
        var c := Cover(Parent(b), f, h);
        ParentContains(c, b);
        assert false;
      }
    }
    if InZone(b, h) && AllCovered(b, f) && (b.order < h ==> !AllCovered(Parent(b), f)) {
      var c := Cover(b, f, h);
      if c.order > b.order {
        ParentContains(c, b);
        forall p | Has(Parent(b), p) ensures Covered(p, f) { HasUp(Parent(b), c, p); }
      }
      assert c == b;
    }
  }

  /** So the set of free pages determines the free blocks. */
  lemma {:induction false} Canonical(f: set<Block>, g: set<Block>, h: nat)
    requires Good(f, h) && Good(g, h) && forall p :: Covered(p, f) <==> Covered(p, g)
    ensures f == g
  {
    forall b ensures b in f <==> b in g {
      FreeIffMaximal(b, f, h);
      FreeIffMaximal(b, g, h);
      assert AllCovered(b, f) <==> AllCovered(b, g);
      assert AllCovered(Parent(b), f) <==> AllCovered(Parent(b), g);
    }
  }

  // ---------------------------------------------------------------- freeing

  /** Freeing b merges it with its buddy as long as that is free. */
  ghost function Freed(f: set<Block>, b: Block, h: nat): set<Block>
    requires b.order <= h
    decreases h - b.order
  {
    var twin := Block(Twin(b.idx), b.order);
    if b.order < h && twin in f then Freed(f - {twin}, Parent(b), h) else f + {b}
  }

  lemma {:induction false} MergeStep(f: set<Block>, b: Block, h: nat)
    requires Good(f, h) && InZone(b, h) && Clear(f, b) && b.order < h && Block(Twin(b.idx), b.order) in f
    ensures var g := f - {Block(Twin(b.idx), b.order)};
            Good(g, h) && InZone(Parent(b), h) && Clear(g, Parent(b))
    ensures forall p :: Has(Parent(b), p) <==> Has(b, p) || Has(Block(Twin(b.idx), b.order), p)
  {
    var twin, up := Block(Twin(b.idx), b.order), Parent(b);
    var g := f - {twin};
    assert Half(up, b.idx % 2 == 1) == b && Half(up, b.idx % 2 == 0) == twin;
    forall c | c in g ensures !Contains(c, up) && !Contains(up, c) {
      ParentContains(c, b);
      if Contains(up, c) {
        if c.order < up.order { InHalf(up, c); }
      }
    }
    forall p ensures Has(up, p) <==> Has(b, p) || Has(twin, p) {
      HalfPages(up, p);
    }
  }

  lemma {:induction false} HalfPages(b: Block, page: nat)
    requires b.order > 0
    ensures Has(b, page) <==> Has(Half(b, false), page) || Has(Half(b, true), page)
  {
    HasContains(b, page);
    HasContains(Half(b, false), page);
    HasContains(Half(b, true), page);
    HalfInside(b, false);
    HalfInside(b, true);
    if Contains(b, Block(page, 0)) { InHalf(b, Block(page, 0)); }
    if Has(Half(b, false), page) { HasUp(Half(b, false), b, page); }
    if Has(Half(b, true), page) { HasUp(Half(b, true), b, page); }
  }

  /** Freeing keeps the free blocks disjoint and fully merged, and frees exactly the pages of b. */
  lemma {:induction false} FreedGood(f: set<Block>, b: Block, h: nat)
    requires Good(f, h) && InZone(b, h) && Clear(f, b)
    ensures Good(Freed(f, b, h), h)
    ensures forall p :: Covered(p, Freed(f, b, h)) <==> Covered(p, f) || Has(b, p)
    decreases h - b.order
  {
    var twin := Block(Twin(b.idx), b.order);
    if b.order < h && twin in f {
      MergeStep(f, b, h);
      var g := f - {twin};
      FreedGood(g, Parent(b), h);
      forall p ensures Covered(p, f) <==> Covered(p, g) || Has(twin, p) {
        if Covered(p, f) {
          var c :| c in f && Has(c, p);
          assert c == twin || c in g;
        }
      }
    } else {
      forall p ensures Covered(p, f + {b}) <==> Covered(p, f) || Has(b, p) {
        if Covered(p, f) {
          var c :| c in f && Has(c, p);
          assert c in f + {b};
        }
        if Has(b, p) { assert b in f + {b}; }
      }
    }
  }

  lemma {:induction false} PageClear(f: set<Block>, page: nat)
    ensures Clear(f, Block(page, 0)) <==> !Covered(page, f)
  {
    forall c ensures Contains(c, Block(page, 0)) <==> Has(c, page) { HasContains(c, page); }
    assert forall c :: Contains(Block(page, 0), c) ==> c == Block(page, 0);
    if !Covered(page, f) {
      assert Has(Block(page, 0), page);
    }
  }

  lemma {:induction false} UpBound(i: nat, n: nat, m: nat)
    requires Up(i, n) < Pow2(m)
    ensures i < Pow2(m + n)
  {
    if n > 0 { UpBound(i / 2, n - 1, m); }
  }

  lemma {:induction false} PageInZone(b: Block, page: nat, h: nat)
    requires InZone(b, h) && Has(b, page)
    ensures InZone(Block(page, 0), h)
  {
    UpBound(page, b.order, h - b.order);
  }

  ghost function FreedPages(f: set<Block>, pages: seq<nat>, h: nat): set<Block> {
    if pages == [] then f else Freed(FreedPages(f, pages[..|pages| - 1], h), Block(pages[|pages| - 1], 0), h)
  }

  lemma {:induction false} FreedPagesGood(f: set<Block>, b: Block, pages: seq<nat>, h: nat)
    requires Good(f, h) && InZone(b, h) && Clear(f, b)
    requires forall i :: 0 <= i < |pages| ==> Has(b, pages[i])
    requires forall i, j :: 0 <= i < j < |pages| ==> pages[i] != pages[j]
    ensures Good(FreedPages(f, pages, h), h)
    ensures forall p :: Covered(p, FreedPages(f, pages, h)) <==> Covered(p, f) || p in pages
  {
    if pages != [] {
      var init, last := pages[..|pages| - 1], pages[|pages| - 1];
      FreedPagesGood(f, b, init, h);
      PageInZone(b, last, h);
      ClearPage(f, b, last);
      PageClear(FreedPages(f, init, h), last);
      FreedGood(FreedPages(f, init, h), Block(last, 0), h);
      assert pages == init + [last];
      assert forall p :: Has(Block(last, 0), p) <==> p == last;
    }
  }

  lemma {:induction false} ClearPage(f: set<Block>, b: Block, page: nat)
    requires Clear(f, b) && Has(b, page)
    ensures !Covered(page, f)
  {
    HasContains(b, page);
    forall c | c in f ensures !Has(c, page) {
      HasContains(c, page);
      if Has(c, page) {
        if c.order <= b.order { Nested(b, c, Block(page, 0)); } else { Nested(c, b, Block(page, 0)); }
      }
    }
  }

  /** Freeing a block page by page, in any order, ends in the same free blocks as freeing it whole. */
  lemma PageByPage(f: set<Block>, b: Block, pages: seq<nat>, h: nat)
    requires Good(f, h) && InZone(b, h) && Clear(f, b)
    requires forall p :: p in pages <==> Has(b, p)
    requires forall i, j :: 0 <= i < j < |pages| ==> pages[i] != pages[j]
    ensures FreedPages(f, pages, h) == Freed(f, b, h)
  {
    FreedPagesGood(f, b, pages, h);
    FreedGood(f, b, h);
    Canonical(FreedPages(f, pages, h), Freed(f, b, h), h);
  }

  // ---------------------------------------------------------------- allocating

  /** f is g with the block b allocated out of it. */
  ghost predicate Allocated(g: set<Block>, b: Block, f: set<Block>, h: nat) {
    && Good(f, h) && InZone(b, h) && Clear(f, b)
    && forall p :: Covered(p, g) <==> Covered(p, f) || Has(b, p)
  }

  lemma {:induction false} TakeWhole(f: set<Block>, b: Block, h: nat)
    requires Good(f, h) && b in f
    ensures Allocated(f, b, f - {b}, h)
  {
    forall p ensures Covered(p, f) <==> Covered(p, f - {b}) || Has(b, p) {
      if Covered(p, f) {
        var c :| c in f && Has(c, p);
        assert c == b || c in f - {b};
      }
    }
  }

  /** Splitting an allocated block: its second half becomes free again, its first half stays allocated. */
  lemma {:induction false} SplitStep(g: set<Block>, b: Block, f: set<Block>, h: nat)
    requires Allocated(g, b, f, h) && b.order > 0
    ensures Allocated(g, Half(b, false), f + {Half(b, true)}, h)
  {
    var l, r := Half(b, false), Half(b, true);
    var k := f + {r};
    HalfInside(b, false);
    HalfInside(b, true);
    forall c | c in f ensures !Contains(c, l) && !Contains(l, c) && !Contains(c, r) && !Contains(r, c) {
      if Contains(l, c) { ContainsTrans(b, l, c); }
      if Contains(r, c) { ContainsTrans(b, r, c); }
      ParentContains(c, l);
      ParentContains(c, r);
    }
    assert l !in f && Twin(r.idx) == l.idx;
    forall p ensures Covered(p, g) <==> Covered(p, k) || Has(l, p) {
      HalfPages(b, p);
      if Covered(p, f) {
        var c :| c in f && Has(c, p);
        assert c in k;
      }
      if Has(r, p) { assert r in k; }
    }
  }

  /** Freeing what was allocated restores the free blocks. */
  lemma AllocateThenFree(g: set<Block>, b: Block, f: set<Block>, h: nat)
    requires Good(g, h) && Allocated(g, b, f, h)
    ensures Freed(f, b, h) == g
  {
    FreedGood(f, b, h);
    Canonical(Freed(f, b, h), g, h);
  }

  // ---------------------------------------------------------------- counting pages

  /** The first page of the i-th block of an order. */
  function Start(i: nat, order: nat): nat
    decreases order
  {
    if order == 0 then i else Start(2 * i, order - 1)
  }

  lemma {:induction false} StartIsProduct(i: nat, order: nat)
    ensures Start(i, order) == i * Pow2(order)
    decreases order
  {
    if order > 0 { StartIsProduct(2 * i, order - 1); }
  }

  lemma {:induction false} StartStep(i: nat, order: nat)
    ensures Start(i + 1, order) == Start(i, order) + Pow2(order)
    decreases order
  {
    if order > 0 {
      StartStep(2 * i, order - 1);
      StartStep(2 * i + 1, order - 1);
    }
  }

  lemma {:induction false} StartInjective(i: nat, j: nat, order: nat)
    requires i != j
    ensures Start(i, order) != Start(j, order)
    decreases order
  {
    if order > 0 { StartInjective(2 * i, 2 * j, order - 1); }
  }

  lemma {:induction false} HasInterval(b: Block, page: nat)
    ensures Has(b, page) <==> Start(b.idx, b.order) <= page < Start(b.idx + 1, b.order)
    decreases b.order
  {
    if b.order > 0 {
      HalfPages(b, page);
      HasInterval(Half(b, false), page);
      HasInterval(Half(b, true), page);
      StartStep(2 * b.idx, b.order - 1);
      StartStep(2 * b.idx + 1, b.order - 1);
    }
  }

  ghost function PageSet(f: set<Block>, h: nat): set<nat> { set p | 0 <= p < Pow2(h) && Covered(p, f) }

  ghost function Interval(lo: nat, n: nat): (s: set<nat>)
    ensures |s| == n && forall p :: p in s <==> lo <= p < lo + n
  {
    if n == 0 then {} else Interval(lo, n - 1) + {lo + n - 1}
  }

  ghost function BlockPages(b: Block): (s: set<nat>)
    ensures |s| == Pow2(b.order) && forall p :: p in s <==> Has(b, p)
  {
    var s := Interval(Start(b.idx, b.order), Pow2(b.order));
    assert forall p: nat {:trigger p in s} :: p in s <==> Has(b, p) by {
      StartStep(b.idx, b.order);
      forall p: nat ensures p in s <==> Has(b, p) { HasInterval(b, p); }
    }
    s
  }

  /** Allocating a block of order k takes 2^k pages. */
  lemma {:induction false} AllocatedCount(g: set<Block>, b: Block, f: set<Block>, h: nat)
    requires Allocated(g, b, f, h)
    ensures |PageSet(g, h)| == |PageSet(f, h)| + Pow2(b.order)
  {
    var own := BlockPages(b);
    forall p | p in own ensures p < Pow2(h) && p !in PageSet(f, h) {
      PageInZone(b, p, h);
      ClearPage(f, b, p);
    }
    assert PageSet(g, h) == PageSet(f, h) + own;
  }
}
