/**
  The kernel heap (`liballoc`): allocation by first fit with a "best bet" to start from, release, and reallocation.
  Block and cell headers are kept by address, and so are the bytes behind them.
 */
module Heap {
  import opened Helpers
  import opened HeapLayout
  import opened HeapLinks

  type Bytes = map<nat, int>

  // ---------------------------------------------------------------- the alignment marks

  /** The byte in front of a buffer tells how far back the cell's data begin. */
  ghost predicate MarkOk(bytes: Bytes, c: Cell) {
    Pointer(c) - ALIGN_INFO in bytes && bytes[Pointer(c) - ALIGN_INFO] == Pointer(c) - c.Data()
  }

  ghost predicate Marked(bytes: Bytes, blocks: seq<Block>) {
    forall k, j {:trigger Has(blocks, k, j)} :: Has(blocks, k, j) ==> MarkOk(bytes, blocks[k].cells[j])
  }

  /** Marking a new cell does not touch the marks of the others. */
  lemma {:induction false} PlaceMarked(bytes: Bytes, blocks: seq<Block>, k: nat, j: nat, c: Cell)
    requires Marked(bytes, blocks) && k < |blocks| && j <= |blocks[k].cells| && Fine(WithCell(blocks, k, j, c))
    ensures Marked(bytes[Pointer(c) - ALIGN_INFO := Pointer(c) - c.Data()], WithCell(blocks, k, j, c))
  {
    var blocks' := WithCell(blocks, k, j, c);
    var bytes' := bytes[Pointer(c) - ALIGN_INFO := Pointer(c) - c.Data()];
    assert Has(blocks', k, j) && blocks'[k].cells[j] == c;
    forall a, i | Has(blocks', a, i) ensures MarkOk(bytes', blocks'[a].cells[i]) {
      if (a, i) != (k, j) {
        assert Has(blocks, a, if a == k && i > j then i - 1 else i);
        CellsDisjoint(blocks', a, i, k, j);
        InsideBlock(blocks', a, i);
        InsideBlock(blocks', k, j);
      }
    }
  }

  lemma {:induction false} TakeMarked(bytes: Bytes, blocks: seq<Block>, k: nat, j: nat)
    requires Marked(bytes, blocks) && Has(blocks, k, j)
    ensures Marked(bytes, WithoutCell(blocks, k, j))
  {
    var blocks' := WithoutCell(blocks, k, j);
    forall a, i | Has(blocks', a, i) ensures MarkOk(bytes, blocks'[a].cells[i]) {
      assert Has(blocks, a, if a == k && i >= j then i + 1 else i);
    }
  }

  lemma {:induction false} ShrinkMarked(bytes: Bytes, blocks: seq<Block>, k: nat, j: nat, req: nat)
    requires Marked(bytes, blocks) && Has(blocks, k, j)
    ensures Marked(bytes, Shrunk(blocks, k, j, req))
  {
    forall a, i | Has(Shrunk(blocks, k, j, req), a, i) ensures MarkOk(bytes, Shrunk(blocks, k, j, req)[a].cells[i]) {
      assert Has(blocks, a, i);
    }
  }

  lemma {:induction false} AppendMarked(bytes: Bytes, blocks: seq<Block>, b: Block)
    requires Marked(bytes, blocks) && b.cells == []
    ensures Marked(bytes, blocks + [b])
  {
    forall a, i | Has(blocks + [b], a, i) ensures MarkOk(bytes, (blocks + [b])[a].cells[i]) { assert Has(blocks, a, i); }
  }

  lemma {:induction false} DropMarked(bytes: Bytes, blocks: seq<Block>, k: nat)
    requires Marked(bytes, blocks) && Fine(blocks) && k < |blocks|
    ensures Marked(Outside(bytes, blocks[k].addr, blocks[k].End()), WithoutBlock(blocks, k))
  {
    var rest := WithoutBlock(blocks, k);
    forall a, i | Has(rest, a, i) ensures MarkOk(Outside(bytes, blocks[k].addr, blocks[k].End()), rest[a].cells[i]) {
      var a' := if a < k then a else a + 1;
      assert Has(blocks, a', i);
      OtherBlockCell(blocks, k, a', i);
      InsideBlock(blocks, a', i);
    }
  }

  // ---------------------------------------------------------------- the heap

  datatype Answer =
    | At(ptr: nat)
    | Null
    | Overrun   // a sum of sizes wraps: the cell would not fit where it is put
    | NullCopy  // contents are copied to address 0
    | Fault     // the memory where the buffer was has been given back
    | Misread   // the header has been overwritten, and what is there now is taken for one

  datatype Freeing =
    | Freed
    | Ignored
    | Fault     // the memory where the buffer was has been given back
    | Misread   // the header has been overwritten, and what is there now is taken for one

  ghost predicate IsBlock(blocks: seq<Block>, k: int, a: nat) { 0 <= k < |blocks| && blocks[k].addr == a }

  /** The best bet is null or a live block. */
  ghost predicate BestOk(best: nat, blocks: seq<Block>) { best == 0 || exists k :: IsBlock(blocks, k, best) }

  lemma {:induction false} BestSame(best: nat, was: seq<Block>, blocks: seq<Block>)
    requires BestOk(best, was) && |was| <= |blocks| && forall i :: 0 <= i < |was| ==> blocks[i].addr == was[i].addr
    ensures BestOk(best, blocks)
  {
    if best != 0 {
      var i :| IsBlock(was, i, best);
      assert IsBlock(blocks, i, best);
    }
  }

  /** There is no block header but those of the blocks. */
  ghost predicate Listed(majors: Majors, blocks: seq<Block>) {
    forall a {:trigger a in majors} :: a in majors ==> exists k :: IsBlock(blocks, k, a)
  }

  lemma {:induction false} ListedSame(majors: Majors, was: seq<Block>, majors': Majors, blocks: seq<Block>)
    requires Listed(majors, was) && |was| <= |blocks| && forall i :: 0 <= i < |was| ==> blocks[i].addr == was[i].addr
    requires forall a :: a in majors' ==> a in majors || exists k :: IsBlock(blocks, k, a)
    ensures Listed(majors', blocks)
  {
    forall a | a in majors ensures exists k :: IsBlock(blocks, k, a) {
      var k :| IsBlock(was, k, a);
      assert IsBlock(blocks, k, a);
    }
  }

  lemma {:induction false} ListedLeft(majors: Majors, was: seq<Block>, majors': Majors, k: nat)
    requires Listed(majors, was) && k < |was| && forall a :: a in majors' ==> a in majors && a != was[k].addr
    ensures Listed(majors', WithoutBlock(was, k))
  {
    forall a | a in majors' ensures exists i :: IsBlock(WithoutBlock(was, k), i, a) {
      var i :| IsBlock(was, i, a);
      assert IsBlock(WithoutBlock(was, k), if i < k then i else i - 1, a);
    }
  }

  /** The address lies in a block. */
  ghost predicate OnBlock(blocks: seq<Block>, a: int) { exists k :: 0 <= k < |blocks| && blocks[k].addr <= a < blocks[k].End() }

  /** An address in a block lies in no other. */
  lemma {:induction false} NotOnOther(blocks: seq<Block>, k: nat, a: int)
    requires Fine(blocks) && k < |blocks| && blocks[k].addr <= a < blocks[k].End()
    ensures !OnBlock(WithoutBlock(blocks, k), a)
  {
    var rest := WithoutBlock(blocks, k);
    forall i | 0 <= i < |rest| ensures !(rest[i].addr <= a < rest[i].End()) {
      var i' := if i < k then i else i + 1;
      assert if i' < k then Apart(blocks[i'], blocks[k]) else Apart(blocks[k], blocks[i']);
    }
  }

  lemma {:induction false} BestLeft(best: nat, was: seq<Block>, k: nat)
    requires BestOk(best, was) && k < |was| && best != was[k].addr
    ensures BestOk(best, WithoutBlock(was, k))
  {
    if best != 0 {
      var i :| IsBlock(was, i, best);
      assert IsBlock(WithoutBlock(was, k), if i < k then i else i - 1, best);
    }
  }

  ghost predicate NoneEmpty(blocks: seq<Block>) {
    forall i {:trigger blocks[i].cells} :: 0 <= i < |blocks| ==> blocks[i].cells != []
  }

  ghost function NewBlock(page: nat, size: nat): Block { Block(page, BlockSize(size), []) }

  ghost predicate Fits(size: nat) { size + MAJOR + MINOR <= MAX - PAGE_SIZE }

  lemma {:induction false} NullIsNone(b: Block, j: nat)
    requires Sound(b)
    ensures CellAt(b.cells, j) == 0 <==> j >= |b.cells|
  {
    if j < |b.cells| { CellInside(b.addr + MAJOR, b.cells, b.End(), j); }
  }

  /** The gap in front of the i-th cell is smaller than needed. */
  ghost predicate TooSmall(b: Block, i: int, need: nat)
    requires 0 <= i <= |b.cells|
  {
    GapEnd(b.cells, b.End(), i) - GapStart(b.addr + MAJOR, b.cells, i) < need
  }

  /** No gap of the block is large enough. */
  ghost predicate Full(b: Block, need: nat) {
    forall i {:trigger TooSmall(b, i, need)} :: 0 <= i <= |b.cells| ==> TooSmall(b, i, need)
  }

  ghost predicate AllFull(blocks: seq<Block>, n: int, need: nat) {
    forall i {:trigger blocks[i]} :: 0 <= i < n && i < |blocks| ==> Full(blocks[i], need)
  }

  /** No gap of any block is large enough for the request, and the system has no block. */
  ghost predicate NoRoom(blocks: seq<Block>, page: nat, req: nat) { page == 0 && AllFull(blocks, |blocks|, Need(req)) }

  lemma NoneFull(blocks: seq<Block>, need: nat)
    ensures AllFull(blocks, 0, need)
  {
  }

  lemma GapNotFull(b: Block, j: nat, need: nat)
    requires j <= |b.cells| && !TooSmall(b, j, need)
    ensures !Full(b, need)
  {
  }

  lemma OneMoreFull(blocks: seq<Block>, i: nat, need: nat)
    requires i < |blocks|
    ensures AllFull(blocks, i, need) && Full(blocks[i], need) ==> AllFull(blocks, i + 1, need)
    ensures !Full(blocks[i], need) ==> !AllFull(blocks, |blocks|, need)
  {
  }

  /** A gap is no larger than all that is free between lo and hi. */
  lemma {:induction false} GapWithinFree(lo: nat, cells: seq<Cell>, hi: nat, j: nat)
    requires Ordered(lo, cells, hi) && j <= |cells|
    ensures GapEnd(cells, hi, j) - GapStart(lo, cells, j) <= hi - lo - Usage(cells)
    decreases |cells|
  {
    if cells != [] {
      if j > 0 {
        GapWithinFree(cells[0].End(), cells[1..], hi, j - 1);
      } else {
        UsageFits(cells[0].End(), cells[1..], hi);
      }
    }
  }

  /** A block with too little free space has no gap with room. */
  lemma {:induction false} CrampedIsFull(b: Block, need: nat)
    requires Sound(b) && b.size < MAJOR + Usage(b.cells) + need
    ensures Full(b, need)
  {
    forall i {:trigger TooSmall(b, i, need)} | 0 <= i <= |b.cells| ensures TooSmall(b, i, need) {
      GapWithinFree(b.addr + MAJOR, b.cells, b.End(), i);
    }
  }

  /** For a request that no block can hold, but whose own sums do not wrap, there is never a gap: it is answered with null if
      and only if the system has no block. */
  lemma {:induction false} OversizedHasNoRoom(blocks: seq<Block>, page: nat, req: nat)
    requires Fine(blocks) && !Served(req) && req + ALIGNMENT + ALIGN_INFO + MINOR < MAX
    ensures NoRoom(blocks, page, req) <==> page == 0
  {
    forall i | 0 <= i < |blocks| ensures Full(blocks[i], Need(req)) {
      assert Sound(blocks[i]);
      CrampedIsFull(blocks[i], Need(req));
    }
  }

  ghost function Grown(blocks: seq<Block>, grown: bool, page: nat, size: nat): seq<Block> {
    if grown then blocks + [NewBlock(page, size)] else blocks
  }

  /** A cell for the request was put into a gap of block k, and p points into it. */
  ghost predicate Placed(was: seq<Block>, blocks: seq<Block>, k: nat, j: nat, c: Cell, requested: nat, p: nat) {
    && k < |was| && Gap(was[k], j, c) && blocks == WithCell(was, k, j, c)
    && c.req == requested && c.size == requested + ALIGNMENT + ALIGN_INFO && p == Pointer(c)
  }

  lemma {:induction false} PlacedNoneEmpty(was: seq<Block>, grown: bool, page: nat, size: nat, blocks: seq<Block>,
                                           k: nat, j: nat, c: Cell, requested: nat, p: nat)
    requires NoneEmpty(was) && Placed(Grown(was, grown, page, size), blocks, k, j, c, requested, p) && (grown ==> k == |was|)
    ensures NoneEmpty(blocks)
  {
    assert blocks[k].cells[j] == c;
    forall i | 0 <= i < |blocks| ensures blocks[i].cells != [] {
      if i != k { assert was[i].cells != []; }
    }
  }

  /** A cell that was put into an old block was put where there was room. */
  lemma {:induction false} PlacedInGap(was: seq<Block>, page: nat, size: nat, blocks: seq<Block>, k: nat, j: nat, c: Cell, requested: nat, p: nat)
    requires Placed(Grown(was, false, page, size), blocks, k, j, c, requested, p) && size == requested + ALIGNMENT + ALIGN_INFO
    ensures !AllFull(was, |was|, MINOR + size)
  {
    assert !TooSmall(was[k], j, MINOR + size);
    assert !Full(was[k], MINOR + size);
  }

  /** Allocation adds exactly the new buffer. */
  lemma {:induction false} PlacedBuffers(was: seq<Block>, grown: bool, page: nat, size: nat, blocks: seq<Block>,
                                         k: nat, j: nat, c: Cell, requested: nat, p: nat)
    requires Placed(Grown(was, grown, page, size), blocks, k, j, c, requested, p)
    ensures Buffers(blocks) == Buffers(was) + {Buffer(p, requested)}
  {
    InsertBuffers(Grown(was, grown, page, size), k, j, c);
    AppendBuffers(was, NewBlock(page, size));
  }

  /** What is left of the layout when a cell is freed: an emptied block goes too. */
  ghost function WithoutBuffer(blocks: seq<Block>, k: nat, j: nat): seq<Block>
    requires Has(blocks, k, j)
  {
    if |blocks[k].cells| > 1 then WithoutCell(blocks, k, j) else WithoutBlock(WithoutCell(blocks, k, j), k)
  }

  /** Release removes exactly the buffer. */
  lemma {:induction false} FreedBuffers(blocks: seq<Block>, k: nat, j: nat)
    requires Fine(blocks) && Has(blocks, k, j)
    ensures Buffers(WithoutBuffer(blocks, k, j)) == Buffers(blocks) - {BufferOf(blocks[k].cells[j])}
  {
    RemoveBuffers(blocks, k, j);
    if |blocks[k].cells| == 1 { DropBuffers(WithoutCell(blocks, k, j), k); }
  }

  /** The bytes that are left when the last cell of a block goes, and the block with it. */
  ghost function LeftOver(bytes: Bytes, blocks: seq<Block>, k: nat): Bytes
    requires k < |blocks|
  {
    if |blocks[k].cells| > 1 then bytes else Outside(bytes, blocks[k].addr, blocks[k].End())
  }

  /** A live cell is still there after another one has been placed. */
  lemma {:induction false} StillThere(was: seq<Block>, grown: bool, page: nat, size: nat, blocks: seq<Block>,
                                      k: nat, j: nat, c: Cell, requested: nat, p: nat, a: nat, i: nat, q: nat)
    requires PointsTo(was, a, i, q) && Placed(Grown(was, grown, page, size), blocks, k, j, c, requested, p)
    ensures var i' := if a == k && i >= j then i + 1 else i;
      PointsTo(blocks, a, i', q) && blocks[a].cells[i'] == was[a].cells[i] && PointsTo(blocks, k, j, p) && (a, i') != (k, j)
  {
  }

  /** Stores into a buffer do not touch the marks. */
  lemma {:induction false} StoreMarked(bytes: Bytes, blocks: seq<Block>, k: nat, j: nat, a: nat, v: int)
    requires Marked(bytes, blocks) && Fine(blocks) && Has(blocks, k, j)
    requires Pointer(blocks[k].cells[j]) <= a < Pointer(blocks[k].cells[j]) + blocks[k].cells[j].req
    ensures Marked(bytes[a := v], blocks)
  {
    InsideBlock(blocks, k, j);
    forall k', j' | Has(blocks, k', j') ensures MarkOk(bytes[a := v], blocks[k'].cells[j']) {
      InsideBlock(blocks, k', j');
      if (k', j') != (k, j) { CellsDisjoint(blocks, k, j, k', j'); }
    }
  }

  function Peek(bytes: Bytes, a: nat): int { if a in bytes then bytes[a] else 0 }

  /** n bytes were copied, and no others changed. */
  ghost predicate Copied(bytes: Bytes, bytes': Bytes, to: nat, from: nat, n: nat) {
    forall a: nat {:trigger Peek(bytes', a)} ::
      Peek(bytes', a) == Peek(bytes, if to <= a < to + n then a - to + from else a)
  }

  lemma {:induction false} CopyStep(bytes: Bytes, bytes': Bytes, to: nat, from: nat, i: nat)
    requires Copied(bytes, bytes', to, from, i) && !(to <= from + i < to + i)
    ensures Copied(bytes, bytes'[to + i := Peek(bytes', from + i)], to, from, i + 1)
  {
    var next := bytes'[to + i := Peek(bytes', from + i)];
    forall a: nat ensures Peek(next, a) == Peek(bytes, if to <= a < to + i + 1 then a - to + from else a) {
      assert a != to + i ==> Peek(next, a) == Peek(bytes', a);
    }
  }

  /** The first n bytes of a buffer are those of another one before. Apart from its mark, and from what went with a block
      that lay from lo to hi, nothing else changed. */
  ghost predicate Moved(bytes: Bytes, bytes': Bytes, to: nat, from: nat, n: nat, lo: nat, hi: nat) {
    forall a: nat {:trigger Peek(bytes', a)} :: a + ALIGN_INFO != to && !(lo <= a < hi) ==>
      Peek(bytes', a) == Peek(bytes, if to <= a < to + n then a - to + from else a)
  }

  lemma {:induction false} MovedBytes(bytes: Bytes, marked: Bytes, mid: Bytes, to: nat, from: nat, n: nat, lo: nat, hi: nat)
    requires to >= ALIGN_INFO && (forall a: nat :: a + ALIGN_INFO != to ==> Peek(marked, a) == Peek(bytes, a))
    requires Copied(marked, mid, to, from, n) && !(from <= to - ALIGN_INFO < from + n)
    ensures Moved(bytes, Outside(mid, lo, hi), to, from, n, lo, hi)
  {
    forall a: nat {:trigger Peek(Outside(mid, lo, hi), a)} | !(lo <= a < hi) ensures Peek(Outside(mid, lo, hi), a) == Peek(mid, a) { }
  }

  /** Every buffer live before, except one, holds the bytes it held. */
  ghost predicate OthersKept(blocks: seq<Block>, k: nat, j: nat, bytes: Bytes, bytes': Bytes) {
    forall b, i, a: nat {:trigger Has(blocks, b, i), Peek(bytes', a)} ::
      Has(blocks, b, i) && (b, i) != (k, j) && Pointer(blocks[b].cells[i]) <= a < Pointer(blocks[b].cells[i]) + blocks[b].cells[i].req
      ==> Peek(bytes', a) == Peek(bytes, a)
  }

  /** The block that goes when a buffer of the given layout is freed: none, or the one it was alone in. */
  ghost function GoneFrom(blocks: seq<Block>, k: nat): nat
    requires k < |blocks|
  {
    if |blocks[k].cells| > 1 then 0 else blocks[k].addr
  }

  ghost function GoneTo(blocks: seq<Block>, k: nat): nat
    requires k < |blocks|
  {
    if |blocks[k].cells| > 1 then 0 else blocks[k].End()
  }

  /** Every buffer live before holds the bytes it held. */
  ghost predicate BuffersKept(blocks: seq<Block>, bytes: Bytes, bytes': Bytes) {
    forall k, j, a: nat {:trigger Has(blocks, k, j), Peek(bytes', a)} ::
      Has(blocks, k, j) && Pointer(blocks[k].cells[j]) <= a < Pointer(blocks[k].cells[j]) + blocks[k].cells[j].req
      ==> Peek(bytes', a) == Peek(bytes, a)
  }

  lemma PlacedRoom(was: seq<Block>, grown: bool, page: nat, size: nat, blocks: seq<Block>, k: nat, j: nat, c: Cell, requested: nat, p: nat)
    requires Placed(Grown(was, grown, page, size), blocks, k, j, c, requested, p)
    ensures PointsTo(blocks, k, j, p) && blocks[k].cells[j].req == requested
  {
  }

  /** A block that goes after another cell was placed had one cell before. */
  lemma PlacedAlone(was: seq<Block>, grown: bool, page: nat, size: nat, blocks: seq<Block>, k: nat, j: nat, c: Cell, requested: nat, p: nat, a: nat)
    requires Placed(Grown(was, grown, page, size), blocks, k, j, c, requested, p) && a < |was| && was[a].cells != []
    ensures a < |blocks| && (|blocks[a].cells| <= 1 ==> |was[a].cells| == 1 && blocks[a].addr == was[a].addr && blocks[a].End() == was[a].End())
  {
  }

  lemma NothingGone(mid: Bytes, blocks: seq<Block>, k: nat)
    requires k < |blocks|
    ensures LeftOver(mid, blocks, k) == Outside(mid, GoneFrom(blocks, k), GoneTo(blocks, k))
  {
    assert Outside(mid, 0, 0) == mid;
  }

  /** Moving a buffer to a new one, and giving back the block it was alone in, leaves the other buffers as they were. */
  lemma {:induction false} MoveKeeps(was: seq<Block>, grown: bool, page: nat, size: nat, blocks: seq<Block>, k: nat, j: nat,
                                     c: Cell, requested: nat, p: nat, a: nat, i: nat, q: nat, bytes: Bytes, marked: Bytes, mid: Bytes)
    requires Fine(was) && Fine(blocks) && PointsTo(was, a, i, q) && BuffersKept(was, bytes, marked)
    requires Placed(Grown(was, grown, page, size), blocks, k, j, c, requested, p)
    requires Copied(marked, mid, p, q, was[a].cells[i].req) && was[a].cells[i].req <= requested
    ensures OthersKept(was, a, i, bytes, Outside(mid, GoneFrom(blocks, a), GoneTo(blocks, a)))
  {
    var bytes' := Outside(mid, GoneFrom(blocks, a), GoneTo(blocks, a));
    forall b, n, x: nat
      | Has(was, b, n) && (b, n) != (a, i) && Pointer(was[b].cells[n]) <= x < Pointer(was[b].cells[n]) + was[b].cells[n].req
      ensures Peek(bytes', x) == Peek(bytes, x)
    {
      assert Peek(marked, x) == Peek(bytes, x);
      StillThere(was, grown, page, size, blocks, k, j, c, requested, p, b, n, Pointer(was[b].cells[n]));
      BuffersDisjoint(blocks, b, if b == k && n >= j then n + 1 else n, k, j);
      assert Peek(mid, x) == Peek(marked, x);
      if |blocks[a].cells| == 1 {
        assert b != a;
        OtherBlockCell(was, a, b, n);
        InsideBlock(was, b, n);
        assert blocks[a].addr == was[a].addr && blocks[a].End() == was[a].End();
      }
    }
  }

  /** The mark of a new buffer lies in none of the others. */
  lemma {:induction false} PlacedKeeps(was: seq<Block>, grown: bool, page: nat, size: nat, blocks: seq<Block>,
                                       k: nat, j: nat, c: Cell, requested: nat, p: nat, bytes: Bytes)
    requires Fine(blocks) && Placed(Grown(was, grown, page, size), blocks, k, j, c, requested, p)
    ensures BuffersKept(was, bytes, bytes[p - ALIGN_INFO := p - c.Data()])
  {
    var bytes' := bytes[p - ALIGN_INFO := p - c.Data()];
    forall b, i, a: nat
      | Has(was, b, i) && Pointer(was[b].cells[i]) <= a < Pointer(was[b].cells[i]) + was[b].cells[i].req
      ensures Peek(bytes', a) == Peek(bytes, a)
    {
      var i' := if b == k && i >= j then i + 1 else i;
      StillThere(was, grown, page, size, blocks, k, j, c, requested, p, b, i, Pointer(was[b].cells[i]));
      CellsDisjoint(blocks, b, i', k, j);
      InsideBlock(blocks, b, i');
    }
  }

  class Heap {
    var root: nat
    var best: nat
    var majors: Majors
    var minors: Minors
    var bytes: Bytes
    ghost var blocks: seq<Block>

    /** Headers and marks match the layout, and the best bet is a block or null. */
    ghost predicate Sane()
      reads this
    {
      && root == AddrAt(blocks, 0) && Rep(majors, minors, blocks) && Marked(bytes, blocks)
      && BestOk(best, blocks) && Listed(majors, blocks)
    }

    ghost predicate Valid()
      reads this
    {
      Sane() && NoneEmpty(blocks)
    }

    constructor ()
      ensures Valid() && blocks == [] && bytes == map[]
    {
      root, best, majors, minors, bytes, blocks := 0, 0, map[], map[], map[], [];
    }

    /** What a block's header says. */
    lemma HeaderFacts(k: nat)
      requires Sane() && k < |blocks|
      ensures Fine(blocks) && blocks[k].addr in majors && blocks[k].addr > 0 && Sound(blocks[k]) && Linked(minors, blocks[k])
      ensures var b, m := blocks[k], majors[blocks[k].addr];
        && m.size == b.size && m.usage == MAJOR + Usage(b.cells) <= m.size && m.first == CellAt(b.cells, 0)
        && m.next == AddrAt(blocks, k + 1) && m.prev == AddrAt(blocks, k - 1) && (m.next == 0 <==> k + 1 == |blocks|)
    {
      assert MajorOk(majors, blocks, k) && Sound(blocks[k]) && Linked(minors, blocks[k]);
      UsageFits(blocks[k].addr + MAJOR, blocks[k].cells, blocks[k].End());
      if k + 1 < |blocks| { assert Sound(blocks[k + 1]); }
    }

    /** Asks the system for another block, for which it returns `page`, and links it behind the last one. */
    method Extend(last: nat, size: nat, page: nat) returns (maj: nat)
      requires Sane() && Fits(size) && (page != 0 ==> Clear(blocks, NewBlock(page, size)))
      requires last == AddrAt(blocks, |blocks| - 1) && (last == 0 <==> blocks == [])
      modifies this`root, this`majors, this`blocks
      ensures Sane() && maj == page
      ensures blocks == if page == 0 then old(blocks) else old(blocks) + [NewBlock(page, size)]
    {
      maj := page;
      if page != 0 {
        var st := PagesFor(size);
        ghost var b, was := NewBlock(page, size), blocks;
        PagesHold(size);
        AppendRep(majors, minors, blocks, b, st);
        AppendMarked(bytes, blocks, b);
        if last == 0 { root := page; } else { majors := majors[last := majors[last].(next := page)]; }
        majors := majors[page := Major(last, 0, st, st * PAGE_SIZE, MAJOR, 0)];
        blocks := blocks + [b];
        BestSame(best, was, blocks);
        assert IsBlock(blocks, |was|, page);
        ListedSame(old(majors), was, majors, blocks);
      }
    }

    /** Looks for a gap of the given size in block k, from the lowest address up. A block without cells is not measured. */
    method FindGap(maj: nat, need: nat, ghost k: nat) returns (found: bool, prev: nat, next: nat, addr: nat, ghost j: nat)
      requires Sane() && IsBlock(blocks, k, maj)
      ensures found ==> j <= |blocks[k].cells| && prev == CellAt(blocks[k].cells, j - 1) && next == CellAt(blocks[k].cells, j)
      ensures found ==> addr == GapStart(maj + MAJOR, blocks[k].cells, j) && (blocks[k].cells == [] || !TooSmall(blocks[k], j, need))
      ensures found ==> forall i :: 0 <= i < j ==> TooSmall(blocks[k], i, need)
      ensures !found ==> blocks[k].cells != [] && Full(blocks[k], need)
    {
      hide Rep, Marked;
      HeaderFacts(k);
      ghost var b := blocks[k];
      found, prev, next, addr, j := false, 0, 0, 0, 0;
      NullIsNone(b, 0);
      if majors[maj].first == 0 {
        return true, 0, 0, maj + MAJOR, 0;
      }
      CellInside(b.addr + MAJOR, b.cells, b.End(), 0);
      if majors[maj].first - maj - MAJOR >= need {
        return true, 0, majors[maj].first, maj + MAJOR, 0;
      }
      var min := majors[maj].first;
      while min != 0
        invariant 0 <= j <= |b.cells| && min == CellAt(b.cells, j)
        invariant forall i :: 0 <= i <= j ==> TooSmall(b, i, need)
        decreases |b.cells| - j
      {
        assert MinorOk(minors, b, j);
        CellInside(b.addr + MAJOR, b.cells, b.End(), j);
        var behind := min + MINOR + minors[min].size;
        NullIsNone(b, j + 1);
        if minors[min].next == 0 {
          if maj + majors[maj].size - behind >= need {
            return true, min, 0, behind, j + 1;
          }
        } else {
          CellInside(b.addr + MAJOR, b.cells, b.End(), j + 1);
          if minors[min].next - behind >= need {
            return true, min, minors[min].next, behind, j + 1;
          }
        }
        min, j := minors[min].next, j + 1;
      }
      NullIsNone(b, j);
    }

    /** Writes the header of a new cell between its neighbours and marks its buffer. Where there is no neighbour in
        front, the block begins with it. Headers of cells freed before that lie in its place are gone. */
    method PlaceCell(maj: nat, prev: nat, next: nat, addr: nat, size: nat, req: nat, ghost k: nat, ghost j: nat) returns (p: nat)
      requires Sane() && IsBlock(blocks, k, maj) && Gap(blocks[k], j, Cell(addr, size, req))
      requires prev == CellAt(blocks[k].cells, j - 1) && next == CellAt(blocks[k].cells, j)
      modifies this`majors, this`minors, this`bytes, this`blocks
      ensures Sane() && blocks == WithCell(old(blocks), k, j, Cell(addr, size, req)) && p == Pointer(Cell(addr, size, req))
      ensures bytes == old(bytes)[p - ALIGN_INFO := p - addr - MINOR]
    {
      hide Rep, Marked, Woven, Outside, BestOk, Threaded;
      ghost var c, b, was := Cell(addr, size, req), blocks[k], blocks;
      HeaderFacts(k);
      GapRep(majors, minors, blocks, k, j, c);
      minors := Outside(minors, addr, addr + MINOR + size);
      PlaceRep(majors, minors, blocks, k, j, c);
      InsertFine(blocks, k, j, c);
      PlaceMarked(bytes, blocks, k, j, c);
      WovenIsThreaded(minors, b, j, c);
      WriteCell(maj, prev, next, addr, size, req);
      p := Aligned(addr + MINOR);
      bytes := bytes[p - ALIGN_INFO := p - (addr + MINOR)];
      blocks := WithCell(blocks, k, j, c);
      BestSame(best, was, blocks);
      ListedSame(old(majors), was, majors, blocks);
    }

    /** The header of a new cell, the links of its neighbours, and the header of its block. */
    method WriteCell(maj: nat, prev: nat, next: nat, addr: nat, size: nat, req: nat)
      requires maj in majors && (prev != 0 ==> prev in minors) && (next != 0 ==> next in minors)
      modifies this`majors, this`minors
      ensures minors == Threaded(old(minors), prev, next, addr, Minor(prev, next, maj, MAGIC, size, req))
      ensures
        var m := old(majors)[maj];
        majors == old(majors)[maj := m.(usage := m.usage + MINOR + size, first := if prev == 0 then addr else m.first)]
    {
      if prev != 0 { minors := minors[prev := minors[prev].(next := addr)]; }
      if next != 0 { minors := minors[next := minors[next].(prev := addr)]; }
      minors := minors[addr := Minor(prev, next, maj, MAGIC, size, req)];
      var m := majors[maj];
      majors := majors[maj := m.(usage := m.usage + MINOR + size, first := if prev == 0 then addr else m.first)];
    }

    /** Remembers a block with more room than the best bet so far. */
    method Bet(maj: nat, diff: nat, bestSize: nat, ghost i: nat) returns (r: nat)
      requires Sane() && IsBlock(blocks, i, maj)
      modifies this`best
      ensures Sane() && bestSize <= r && diff <= r && (r == bestSize || r == diff)
      ensures best == if diff == r && bestSize < r then maj else old(best)
    {
      r := bestSize;
      if bestSize < diff {
        best, r := maj, diff;
        assert IsBlock(blocks, i, best);
      }
    }

    /** Allocates in block i if some gap in it is large enough. */
    method TryBlock(maj: nat, size: nat, requested: nat, ghost i: nat) returns (p: nat, ghost j: nat, ghost c: Cell)
      requires Sane() && IsBlock(blocks, i, maj) && size == requested + ALIGNMENT + ALIGN_INFO
      requires MAJOR + Usage(blocks[i].cells) + MINOR + size <= blocks[i].size
      modifies this`majors, this`minors, this`bytes, this`blocks
      ensures Sane()
      ensures p == 0 ==> blocks == old(blocks) && bytes == old(bytes) && majors == old(majors) && blocks[i].cells != []
      ensures p == 0 ==> Full(blocks[i], MINOR + size)
      ensures p != 0 ==> Placed(old(blocks), blocks, i, j, c, requested, p) && bytes == old(bytes)[p - ALIGN_INFO := p - c.Data()]
      ensures Fine(blocks)
    {
      hide Sane;
      var found, prev, next, addr;
      p, c := 0, Cell(0, 0, 0);
      HeaderFacts(i);
      found, prev, next, addr, j := FindGap(maj, MINOR + size, i);
      if found {
        c := Cell(addr, size, requested);
        p := PlaceCell(maj, prev, next, addr, size, requested, i, j);
      }
      HeaderFacts(i);
    }

    /** The first block of an empty heap. */
    method Start(size: nat, page: nat) returns (ghost grown: bool)
      requires Valid() && Fits(size) && (page != 0 ==> Clear(blocks, NewBlock(page, size)))
      modifies this`root, this`majors, this`blocks
      ensures Sane() && blocks == Grown(old(blocks), grown, page, size) && (grown ==> page != 0 && old(blocks) == [])
      ensures (blocks == [] ==> page == 0) && root == AddrAt(blocks, 0) && (root == 0 <==> blocks == [])
    {
      hide Rep, Marked;
      grown := false;
      if blocks != [] { HeaderFacts(0); }
      if root == 0 {
        var first := Extend(0, size, page);
        grown := page != 0;
      }
    }

    /** Where the search begins: at the best bet if that has room, else at the first block. */
    method FirstCandidate(size: nat) returns (maj: nat, startedBet: bool, bestSize: nat, ghost i: nat)
      requires Sane() && blocks != []
      ensures IsBlock(blocks, i, maj) && maj != 0 && root != 0 && (!startedBet ==> i == 0)
      ensures startedBet ==> bestSize > size + MINOR
    {
      hide Rep, Marked;
      maj, startedBet, bestSize, i := root, false, 0, 0;
      HeaderFacts(0);
      if best != 0 {
        ghost var at: nat :| IsBlock(blocks, at, best);
        HeaderFacts(at);
        bestSize := majors[best].size - majors[best].usage;
        if bestSize > size + MINOR {
          maj, startedBet, i := best, true, at;
        }
      }
    }

    /** Whether some block has a gap of the given size: what the walk over the blocks comes to when nothing is placed. */
    method AnyGap(need: nat) returns (found: bool)
      requires Valid()
      ensures found <==> !AllFull(blocks, |blocks|, need)
    {
      hide Rep, Marked, Full, AllFull;
      var maj := root;
      ghost var i: nat := 0;
      NoneFull(blocks, need);
      if blocks != [] { HeaderFacts(0); }
      while maj != 0
        invariant i <= |blocks| && maj == AddrAt(blocks, i) && (maj == 0 <==> i == |blocks|) && AllFull(blocks, i, need)
        decreases |blocks| - i
      {
        HeaderFacts(i);
        OneMoreFull(blocks, i, need);
        var prev, next, addr;
        ghost var j;
        found, prev, next, addr, j := FindGap(maj, need, i);
        if found {
          GapNotFull(blocks[i], j, need);
          return;
        }
        maj, i := majors[maj].next, i + 1;
      }
      found := false;
    }

    /** Allocates `requested` bytes. `page` is what the system returns if it is asked for another block, null included.
        A request that is not served by the sizes computed ends in an overrun, unless there is nowhere to put it. */
    method Kmalloc(requested: nat, page: nat) returns (r: Answer, ghost k: nat, ghost j: nat, ghost c: Cell, ghost grown: bool)
      requires Valid() && requested < MAX && (page != 0 ==> Clear(blocks, NewBlock(page, Size(requested))))
      modifies this
      ensures (r.At? || r.Null? || r.Overrun?) && (r.Null? <==> NoRoom(old(blocks), page, requested))
      ensures (r.At? ==> Served(requested)) && (r.Overrun? <==> !Served(requested) && !r.Null?) && (Served(requested) <==> BlockHolds(requested))
      ensures !r.Overrun? ==> Valid() && (r.Null? ==> blocks == old(blocks) && bytes == old(bytes))
      ensures r.At? ==> r.ptr != 0 && (grown ==> page != 0 && AllFull(old(blocks), |old(blocks)|, Need(requested)))
      ensures r.At? ==>
        && Placed(Grown(old(blocks), grown, page, Size(requested)), blocks, k, j, c, requested, r.ptr)
        && bytes == old(bytes)[r.ptr - ALIGN_INFO := r.ptr - c.Data()]
        && Buffers(blocks) == old(Buffers(blocks)) + {Buffer(r.ptr, requested)} && BuffersKept(old(blocks), old(bytes), bytes)
    {
      hide Sane, Placed, Buffers, BuffersKept, AllFull, Grown, Clear;
      k, j, c, grown := 0, 0, Cell(0, 0, 0), false;
      BlockHoldsIff(requested);
      if !BlockHolds(requested) {
        var found := AnyGap(Need(requested));
        return if page == 0 && !found then Null else Overrun, 0, 0, c, false;
      }
      var p;
      p, k, j, c, grown := Search(requested, page);
      r := if p == 0 then Null else At(p);
      if p != 0 && !grown { PlacedInGap(old(blocks), page, Size(requested), blocks, k, j, c, requested, p); }
    }

    /** The search for a place, from the best bet on. */
    method Search(requested: nat, page: nat) returns (p: nat, ghost k: nat, ghost j: nat, ghost c: Cell, ghost grown: bool)
      requires Valid() && Served(requested)
      requires page != 0 ==> Clear(blocks, NewBlock(page, requested + ALIGNMENT + ALIGN_INFO))
      modifies this
      ensures Valid() && (p == 0 ==> page == 0 && blocks == old(blocks) && bytes == old(bytes)) && (grown ==> page != 0)
      ensures p == 0 || grown ==> AllFull(old(blocks), |old(blocks)|, MINOR + requested + ALIGNMENT + ALIGN_INFO)
      ensures p != 0 ==>
        && Placed(Grown(old(blocks), grown, page, requested + ALIGNMENT + ALIGN_INFO), blocks, k, j, c, requested, p)
        && bytes == old(bytes)[p - ALIGN_INFO := p - c.Data()]
      ensures p != 0 ==> Buffers(blocks) == old(Buffers(blocks)) + {Buffer(p, requested)} && BuffersKept(old(blocks), old(bytes), bytes)
    {
      hide Sane, Clear, Placed, Buffers, BuffersKept, Full, AllFull, Linked, Sound, Fine;
      var size := requested + ALIGNMENT + ALIGN_INFO;
      ghost var was := blocks;
      PagesHold(size);
      NoneFull(was, MINOR + size);
      p, k, j, c := 0, 0, 0, Cell(0, 0, 0);
      grown := Start(size, page);
      if root == 0 {
        return;
      }
      var maj, startedBet, bestSize;
      ghost var i: nat;
      maj, startedBet, bestSize, i := FirstCandidate(size);
      while maj != 0
        invariant Sane() && IsBlock(blocks, i, maj) && maj != 0 && bytes == old(bytes) && root == AddrAt(blocks, 0) != 0
        invariant blocks == Grown(was, grown, page, size) && (grown ==> page != 0 && i == |was|)
        invariant !startedBet || grown ==> AllFull(was, i, MINOR + size)
        decreases startedBet, !grown, |blocks| - i
      {
        HeaderFacts(i);
        var diff := majors[maj].size - majors[maj].usage;
        assert grown ==> blocks[i] == NewBlock(page, size) && diff >= size + MINOR;
        bestSize := Bet(maj, diff, bestSize, i);
        if diff < size + MINOR {
          CrampedIsFull(blocks[i], MINOR + size);
          OneMoreFull(was, i, MINOR + size);
          if majors[maj].next != 0 {
            i, maj := i + 1, majors[maj].next;
            continue;
          }
          if startedBet {
            maj, startedBet, i := root, false, 0;
            continue;
          }
          maj := Extend(maj, size, page);
          if maj == 0 {
            return;
          }
          grown, i := true, i + 1;
          HeaderFacts(i);
        }
        p, j, c := TryBlock(maj, size, requested, i);
        if p != 0 {
          k := i;
          PlacedNoneEmpty(was, grown, page, size, blocks, k, j, c, requested, p);
          PlacedBuffers(was, grown, page, size, blocks, k, j, c, requested, p);
          PlacedKeeps(was, grown, page, size, blocks, k, j, c, requested, p, old(bytes));
          return;
        }
        HeaderFacts(i);
        OneMoreFull(was, i, MINOR + size);
        if majors[maj].next == 0 {
          if startedBet {
            maj, startedBet, i := root, false, 0;
            continue;
          }
          var more := Extend(maj, size, page);
          if more == 0 {
            return;
          }
          grown := true;
          HeaderFacts(i);
        }
        i, maj := i + 1, majors[maj].next;
      }
    }

    /** Goes back from a buffer to the header of its cell, by the mark in front of the buffer. */
    function Unaligned(ptr: nat): int
      reads this
    {
      if ptr >= ALIGN_INFO && ptr - ALIGN_INFO in bytes && bytes[ptr - ALIGN_INFO] < ALIGNMENT + ALIGN_INFO
      then ptr - bytes[ptr - ALIGN_INFO] - MINOR else ptr - MINOR
    }

    /** What a live pointer leads to. */
    lemma PointerFacts(ptr: nat, k: nat, j: nat)
      requires Sane() && PointsTo(blocks, k, j, ptr)
      ensures Unaligned(ptr) == blocks[k].cells[j].addr && blocks[k].cells[j].addr in minors && MinorOk(minors, blocks[k], j)
      ensures Sound(blocks[k]) && blocks[k].addr in majors
      ensures j > 0 ==> blocks[k].cells[j - 1].addr in minors && blocks[k].cells[j - 1].addr > 0
      ensures j + 1 < |blocks[k].cells| ==> blocks[k].cells[j + 1].addr in minors && blocks[k].cells[j + 1].addr > 0
    {
      assert Has(blocks, k, j);
      assert MarkOk(bytes, blocks[k].cells[j]);
      HeaderFacts(k);
      var b := blocks[k];
      assert MinorOk(minors, b, j);
      if j > 0 { assert MinorOk(minors, b, j - 1); CellInside(b.addr + MAJOR, b.cells, b.End(), j - 1); }
      if j + 1 < |b.cells| { assert MinorOk(minors, b, j + 1); CellInside(b.addr + MAJOR, b.cells, b.End(), j + 1); }
    }

    /** Takes a cell out of its block's list. */
    method Unlink(min: nat, maj: nat, ghost k: nat, ghost j: nat)
      requires Sane() && Has(blocks, k, j) && min == blocks[k].cells[j].addr && maj == blocks[k].addr
      modifies this`majors, this`minors, this`blocks
      ensures Sane() && blocks == WithoutCell(old(blocks), k, j) && min in minors && minors[min].magic == DEAD
    {
      hide Rep, Marked;
      ghost var b, was := blocks[k], blocks;
      PointerFacts(Pointer(b.cells[j]), k, j);
      TakeRep(majors, minors, blocks, k, j);
      TakeMarked(bytes, blocks, k, j);
      if j > 0 { AddressesDiffer(b, j - 1, j); }
      if j + 1 < |b.cells| { AddressesDiffer(b, j + 1, j); }
      var cell, m := minors[min], majors[maj];
      minors := minors[min := cell.(magic := DEAD)];
      if cell.next != 0 { minors := minors[cell.next := minors[cell.next].(prev := cell.prev)]; }
      if cell.prev != 0 { minors := minors[cell.prev := minors[cell.prev].(next := cell.next)]; }
      majors := majors[maj := m.(usage := m.usage - MINOR - cell.size, first := if cell.prev == 0 then cell.next else m.first)];
      blocks := WithoutCell(blocks, k, j);
      BestSame(best, was, blocks);
      ListedSame(old(majors), was, majors, blocks);
    }

    /** Gives a block back to the system, with all that is in it. */
    method Release(maj: nat, ghost k: nat)
      requires Sane() && IsBlock(blocks, k, maj)
      modifies this`root, this`best, this`majors, this`minors, this`bytes, this`blocks
      ensures Sane() && blocks == WithoutBlock(old(blocks), k)
      ensures
        var b := old(blocks)[k];
        minors == Outside(old(minors), b.addr, b.End()) && bytes == Outside(old(bytes), b.addr, b.End())
    {
      hide Rep, Marked, Outside, BestOk, Bridged;
      HeaderFacts(k);
      DropRep(majors, minors, blocks, k);
      DropMarked(bytes, blocks, k);
      var end := maj + majors[maj].size;
      Bridge(maj, k);
      minors, bytes := Outside(minors, maj, end), Outside(bytes, maj, end);
      blocks := WithoutBlock(blocks, k);
    }

    /** Takes a block out of the list of blocks. */
    method Bridge(maj: nat, ghost k: nat)
      requires Sane() && IsBlock(blocks, k, maj)
      modifies this`root, this`best, this`majors
      ensures (k > 0 ==> AddrAt(blocks, k - 1) in old(majors)) && (k + 1 < |blocks| ==> AddrAt(blocks, k + 1) in old(majors))
      ensures majors == Bridged(old(majors), blocks, k) && root == AddrAt(WithoutBlock(blocks, k), 0)
      ensures BestOk(best, WithoutBlock(blocks, k)) && Listed(majors, WithoutBlock(blocks, k))
    {
      hide Rep, Marked, Listed, BestOk;
      HeaderFacts(k);
      if k > 0 { HeaderFacts(k - 1); BlocksDiffer(blocks, k - 1, k); }
      if k + 1 < |blocks| { HeaderFacts(k + 1); BlocksDiffer(blocks, k + 1, k); }
      var m := majors[maj];
      Forget(maj, m.next, k);
      if m.prev != 0 { majors := majors[m.prev := majors[m.prev].(next := m.next)]; }
      if m.next != 0 { majors := majors[m.next := majors[m.next].(prev := m.prev)]; }
      majors := majors - {maj};
      ListedLeft(old(majors), blocks, majors, k);
    }

    /** The block is no longer the first, nor the best bet. */
    method Forget(maj: nat, next: nat, ghost k: nat)
      requires Fine(blocks) && IsBlock(blocks, k, maj) && root == AddrAt(blocks, 0) && next == AddrAt(blocks, k + 1) && BestOk(best, blocks)
      modifies this`root, this`best
      ensures root == AddrAt(WithoutBlock(blocks, k), 0) && BestOk(best, WithoutBlock(blocks, k))
    {
      if k > 0 { BlocksDiffer(blocks, 0, k); }
      if root == maj { root := next; }
      if best == maj { best := 0; } else { BestLeft(best, blocks, k); }
    }

    /** After something was freed in a block that stays, it may be the new best bet. */
    method Rebet(maj: nat, ghost k: nat)
      requires Sane() && IsBlock(blocks, k, maj)
      modifies this`best
      ensures Sane() && (best == old(best) || (best == maj && old(best) != 0))
    {
      hide Rep, Marked;
      if best != 0 {
        ghost var i: nat :| IsBlock(blocks, i, best);
        HeaderFacts(i);
        HeaderFacts(k);
        if majors[maj].size - majors[maj].usage > majors[best].size - majors[best].usage {
          best := maj;
          assert IsBlock(blocks, k, best);
        }
      }
    }

    /** The pointer leads to a header that is not that of a live cell. */
    ghost predicate Stray(ptr: nat)
      reads this
    {
      Unaligned(ptr) in minors && minors[Unaligned(ptr)].magic != MAGIC
    }

    /** The pointer leads to no header any more. */
    ghost predicate Lost(ptr: nat)
      reads this
    {
      Unaligned(ptr) !in minors
    }

    /** The address lies in memory that the heap has from the system. */
    predicate Mapped(a: int)
      reads this
    {
      exists m :: m in majors && m <= a < m + majors[m].size
    }

    lemma MappedIs(a: int)
      requires Sane()
      ensures Mapped(a) <==> OnBlock(blocks, a)
    {
      if m :| m in majors && m <= a < m + majors[m].size {
        var k :| IsBlock(blocks, k, m);
        assert MajorOk(majors, blocks, k);
      }
      if k :| 0 <= k < |blocks| && blocks[k].addr <= a < blocks[k].End() {
        assert MajorOk(majors, blocks, k);
        assert blocks[k].addr in majors;
      }
    }

    /** Frees a buffer. Null, and pointers to cells that are known to be freed, are left alone. Afterwards the pointer is
        known to be freed if and only if its block stays; otherwise its header is gone with the block. */
    method Kfree(ptr: nat, ghost k: nat, ghost j: nat) returns (r: Freeing)
      requires Valid() && (ptr == 0 || Stray(ptr) || Lost(ptr) || PointsTo(blocks, k, j, ptr))
      modifies this
      ensures (r.Ignored? <==> ptr == 0 || old(Stray(ptr))) && (r.Fault? || r.Misread? <==> ptr != 0 && old(Lost(ptr)))
      ensures (r.Fault? ==> !OnBlock(old(blocks), ptr - ALIGN_INFO)) && (r.Misread? ==> OnBlock(old(blocks), ptr - ALIGN_INFO))
      ensures (!r.Misread? ==> Valid()) && (r.Ignored? || r.Fault? ==> blocks == old(blocks) && bytes == old(bytes))
      ensures r.Freed? ==> PointsTo(old(blocks), k, j, ptr) && blocks == WithoutBuffer(old(blocks), k, j)
      ensures r.Freed? ==>
        && Buffers(blocks) == old(Buffers(blocks)) - {Buffer(ptr, old(blocks)[k].cells[j].req)}
        && bytes == LeftOver(old(bytes), old(blocks), k)
        && (Stray(ptr) <==> |old(blocks)[k].cells| > 1)
        && (Lost(ptr) && !OnBlock(blocks, ptr - ALIGN_INFO) <==> |old(blocks)[k].cells| == 1)
    {
      hide Sane, Buffers;
      if ptr == 0 {
        return Ignored;
      }
      var min := Unaligned(ptr);
      if min !in minors {
        MappedIs(ptr - ALIGN_INFO);
        return if Mapped(ptr - ALIGN_INFO) then Freeing.Misread else Freeing.Fault;
      }
      if !Stray(ptr) { PointerFacts(ptr, k, j); }
      if minors[min].magic != MAGIC {
        return Ignored;
      }
      r := Freeing.Freed;
      var maj := minors[min].block;
      HeaderFacts(k);
      InsideBlock(blocks, k, j);
      FreedBuffers(blocks, k, j);
      Unlink(min, maj, k, j);
      HeaderFacts(k);
      NullIsNone(blocks[k], 0);
      if majors[maj].first == 0 {
        NotOnOther(blocks, k, ptr - ALIGN_INFO);
        Release(maj, k);
      } else {
        Rebet(maj, k);
      }
    }

    /** A store into a live buffer. */
    method Poke(a: nat, v: int, ghost k: nat, ghost j: nat)
      requires Sane() && Has(blocks, k, j)
      requires Pointer(blocks[k].cells[j]) <= a < Pointer(blocks[k].cells[j]) + blocks[k].cells[j].req
      modifies this`bytes
      ensures Sane() && bytes == old(bytes)[a := v]
    {
      StoreMarked(bytes, blocks, k, j, a, v);
      bytes := bytes[a := v];
    }

    /** Copies n bytes into a live buffer from elsewhere. */
    method Copy(to: nat, from: nat, n: nat, ghost k: nat, ghost j: nat)
      requires Sane() && PointsTo(blocks, k, j, to) && n <= blocks[k].cells[j].req && (from + n <= to || to + n <= from)
      modifies this`bytes
      ensures Sane() && Copied(old(bytes), bytes, to, from, n)
    {
      hide Rep, Marked;
      for i := 0 to n
        invariant Sane() && Copied(old(bytes), bytes, to, from, i)
      {
        CopyStep(old(bytes), bytes, to, from, i);
        Poke(to + i, Peek(bytes, from + i), k, j);
      }
    }

    /** Shrinks a request in place. */
    method Shrink(min: nat, size: nat, ghost k: nat, ghost j: nat)
      requires Valid() && Has(blocks, k, j) && min == blocks[k].cells[j].addr && size <= blocks[k].cells[j].req
      modifies this`minors, this`blocks
      ensures Valid() && blocks == Shrunk(old(blocks), k, j, size)
    {
      ghost var was := blocks;
      ShrinkRep(majors, minors, blocks, k, j, size);
      ShrinkMarked(bytes, blocks, k, j, size);
      minors := minors[min := minors[min].(req := size)];
      blocks := Shrunk(blocks, k, j, size);
      BestSame(best, was, blocks);
      ListedSame(majors, was, majors, blocks);
    }

    /** Copies a buffer into another live one and frees it. */
    method MoveTo(ptr: nat, p: nat, ghost k: nat, ghost j: nat, ghost b: nat, ghost i: nat) returns (ghost mid: Bytes)
      requires Valid() && PointsTo(blocks, k, j, ptr) && PointsTo(blocks, b, i, p) && (k, j) != (b, i) && ptr != 0
      requires blocks[k].cells[j].req <= blocks[b].cells[i].req
      modifies this
      ensures Valid() && blocks == WithoutBuffer(old(blocks), k, j)
      ensures Copied(old(bytes), mid, p, ptr, old(blocks)[k].cells[j].req) && bytes == LeftOver(mid, old(blocks), k)
      ensures p >= ALIGN_INFO && !(ptr <= p - ALIGN_INFO < ptr + old(blocks)[k].cells[j].req)
      ensures p != ptr && Buffers(blocks) == old(Buffers(blocks)) - {Buffer(ptr, old(blocks)[k].cells[j].req)}
    {
      hide Sane;
      HeaderFacts(k);
      PointerFacts(ptr, k, j);
      BuffersDisjoint(blocks, k, j, b, i);
      CellsDisjoint(blocks, k, j, b, i);
      InsideBlock(blocks, k, j);
      InsideBlock(blocks, b, i);
      var length := minors[Unaligned(ptr)].req;
      Copy(p, ptr, length, b, i);
      mid := bytes;
      PointerFacts(ptr, k, j);
      var f := Kfree(ptr, k, j);
    }

    /** Moves a live buffer to a larger one. Where there is no memory for that, the contents are copied to null. */
    method Grow(ptr: nat, size: nat, page: nat, ghost k: nat, ghost j: nat) returns (r: Answer, ghost lo: nat, ghost hi: nat)
      requires Valid() && PointsTo(blocks, k, j, ptr) && blocks[k].cells[j].req < size < MAX && ptr != 0
      requires page != 0 ==> Clear(blocks, NewBlock(page, Size(size)))
      modifies this
      ensures !r.Fault? && !r.Misread? && (r.Overrun? <==> !Served(size) && !NoRoom(old(blocks), page, size))
      ensures r.NullCopy? || r.Null? <==> NoRoom(old(blocks), page, size)
      ensures (r.NullCopy? ==> old(blocks)[k].cells[j].req > 0) && (r.Null? ==> old(blocks)[k].cells[j].req == 0)
      ensures r.Null? ==> Valid() && Buffers(blocks) == old(Buffers(blocks)) - {Buffer(ptr, 0)}
      ensures r.At? ==> Valid() && (lo == hi || (|old(blocks)[k].cells| == 1 && lo == old(blocks)[k].addr && hi == old(blocks)[k].End()))
      ensures r.At? ==>
        var length := old(blocks)[k].cells[j].req;
        && Moved(old(bytes), bytes, r.ptr, ptr, length, lo, hi) && OthersKept(old(blocks), k, j, old(bytes), bytes)
        && Buffers(blocks) == old(Buffers(blocks)) - {Buffer(ptr, length)} + {Buffer(r.ptr, size)}
    {
      hide Sane, Moved, OthersKept, Buffers, NoRoom, Placed, Clear, Copied, BuffersKept;
      lo, hi := 0, 0;
      ghost var was, req, n := blocks, blocks[k].cells[j].req, Size(size);
      ghost var b: nat, i: nat, c, grown;
      HeaderFacts(k);
      r, b, i, c, grown := Kmalloc(size, page);
      if r.Overrun? {
        return;
      }
      if r.Null? {
        PointerFacts(ptr, k, j);
        if minors[Unaligned(ptr)].req > 0 {
          return NullCopy, 0, 0;
        }
        var f := Kfree(ptr, k, j);
        return;
      }
      ghost var now, marked, at := blocks, bytes, if k == b && j >= i then j + 1 else j;
      StillThere(was, grown, page, n, blocks, b, i, c, size, r.ptr, k, j, ptr);
      PlacedRoom(was, grown, page, n, blocks, b, i, c, size, r.ptr);
      HeaderFacts(k);
      ghost var mid := MoveTo(ptr, r.ptr, k, at, b, i);
      lo, hi := GoneFrom(now, k), GoneTo(now, k);
      NothingGone(mid, now, k);
      PlacedAlone(was, grown, page, n, now, b, i, c, size, r.ptr, k);
      MovedBytes(old(bytes), marked, mid, r.ptr, ptr, req, lo, hi);
      MoveKeeps(was, grown, page, n, now, b, i, c, size, r.ptr, k, j, ptr, old(bytes), marked, mid);
    }

    /** Changes the size of a buffer, keeping what fits of its contents. A null pointer allocates, size 0 frees. */
    method Krealloc(ptr: nat, size: nat, page: nat, ghost k: nat, ghost j: nat) returns (r: Answer, ghost lo: nat, ghost hi: nat)
      requires Valid() && (ptr == 0 || Stray(ptr) || Lost(ptr) || PointsTo(blocks, k, j, ptr))
      requires size < MAX && (page != 0 ==> Clear(blocks, NewBlock(page, Size(size))))
      modifies this
      ensures (r.Fault? || r.Misread? <==> ptr != 0 && old(Lost(ptr))) && (r.At? || r.Null? || r.Fault? ==> Valid())
      ensures (r.Fault? ==> !OnBlock(old(blocks), ptr - ALIGN_INFO)) && (r.Misread? ==> OnBlock(old(blocks), ptr - ALIGN_INFO))
      ensures r.Fault? || (ptr != 0 && old(Stray(ptr))) || (ptr == 0 && size == 0) ==>
        (r.Fault? || r.Null?) && blocks == old(blocks) && bytes == old(bytes)
      ensures ptr == 0 && size > 0 ==>
        && (r.Overrun? <==> !Served(size) && !r.Null?) && !r.NullCopy? && (r.Null? <==> NoRoom(old(blocks), page, size))
        && (r.At? ==> Buffers(blocks) == old(Buffers(blocks)) + {Buffer(r.ptr, size)} && BuffersKept(old(blocks), old(bytes), bytes))
      ensures ptr != 0 && !old(Stray(ptr)) && !old(Lost(ptr)) ==>
        var length := old(blocks)[k].cells[j].req;
        if size == 0 then
          r.Null? && Buffers(blocks) == old(Buffers(blocks)) - {Buffer(ptr, length)} && bytes == LeftOver(old(bytes), old(blocks), k)
        else if size <= length then
          && r == At(ptr) && bytes == old(bytes)
          && Buffers(blocks) == old(Buffers(blocks)) - {Buffer(ptr, length)} + {Buffer(ptr, size)}
        else
          && (r.Overrun? <==> !Served(size) && !NoRoom(old(blocks), page, size))
          && (r.NullCopy? <==> NoRoom(old(blocks), page, size) && length > 0)
          && (r.Null? <==> NoRoom(old(blocks), page, size) && length == 0)
          && (r.Null? ==> Buffers(blocks) == old(Buffers(blocks)) - {Buffer(ptr, 0)})
          && (r.At? ==>
                && Moved(old(bytes), bytes, r.ptr, ptr, length, lo, hi) && OthersKept(old(blocks), k, j, old(bytes), bytes)
                && Buffers(blocks) == old(Buffers(blocks)) - {Buffer(ptr, length)} + {Buffer(r.ptr, size)})
    {
      hide Sane, Buffers, BuffersKept, OthersKept, Moved, Clear, NoRoom, Placed;
      ghost var b, i, c, grown;
      r, lo, hi := Null, 0, 0;
      if size == 0 {
        var f := Kfree(ptr, k, j);
        if f.Fault? { r := Answer.Fault; } else if f.Misread? { r := Answer.Misread; }
        return;
      }
      if ptr == 0 {
        r, b, i, c, grown := Kmalloc(size, page);
        return;
      }
      var min := Unaligned(ptr);
      if min !in minors {
        MappedIs(ptr - ALIGN_INFO);
        return if Mapped(ptr - ALIGN_INFO) then Answer.Misread else Answer.Fault, 0, 0;
      }
      if !Stray(ptr) {
        PointerFacts(ptr, k, j);
        HeaderFacts(k);
      }
      if minors[min].magic != MAGIC {
        return;
      }
      if minors[min].req >= size {
        ShrinkBuffers(blocks, k, j, size);
        Shrink(min, size, k, j);
        return At(ptr), 0, 0;
      }
      r, lo, hi := Grow(ptr, size, page, k, j);
    }
  }

  // ---------------------------------------------------------------- where it fails

  /** A heap with one buffer of one byte, in a block of 16 pages. */
  method OneBuffer() returns (h: Heap, p: nat)
    ensures fresh(h) && h.Valid() && PointsTo(h.blocks, 0, 0, p) && p != 0 && h.blocks[0].cells[0].req == 1
    ensures |h.blocks| == 1 && |h.blocks[0].cells| == 1 && h.blocks[0].size == 0x1_0000
  {
    h := new Heap();
    ghost var k, j, c, grown;
    var r;
    r, k, j, c, grown := h.Kmalloc(1, 0x10_0000);
    p := r.ptr;
    PlacedRoom([], grown, 0x10_0000, Size(1), h.blocks, k, j, c, 1, p);
  }

  /** The second `kfree` of a buffer that was alone in its block finds no header. */
  method FreeTwice() returns (first: Freeing, second: Freeing)
    ensures first.Freed? && second.Fault?
  {
    hide Buffers, Outside;
    var h, p := OneBuffer();
    h.HeaderFacts(0);
    h.PointerFacts(p, 0, 0);
    first := h.Kfree(p, 0, 0);
    second := h.Kfree(p, 0, 0);
  }

  /** A `krealloc` that needs a block when the system has none copies to null. */
  method GrowWithoutMemory() returns (r: Answer)
    ensures r.NullCopy?
  {
    hide Buffers, Outside;
    var h, p := OneBuffer();
    h.HeaderFacts(0);
    h.PointerFacts(p, 0, 0);
    CrampedIsFull(h.blocks[0], Need(70000));
    ghost var lo, hi;
    r, lo, hi := h.Krealloc(p, 70000, 0, 0, 0);
  }
}
