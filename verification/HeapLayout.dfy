/**
  Where the kernel heap (`liballoc`) keeps things: blocks of pages obtained from the system ("majors"), each with
  the allocated cells ("minors") in it in the order of their addresses. This module has the geometry; the linked
  headers are in `Heap`.
 */
module HeapLayout {
  import opened Helpers

  const MAJOR: nat := 24     // size of a block header
  const MINOR: nat := 24     // size of a cell header
  const ALIGNMENT: nat := 16
  const ALIGN_INFO: nat := 16
  const PAGE_COUNT: nat := 16

  /** A cell: its header, `size` bytes behind it, and how many of them were asked for. */
  datatype Cell = Cell(addr: nat, size: nat, req: nat) {
    function Data(): nat { addr + MINOR }
    function End(): nat { addr + MINOR + size }
  }

  datatype Block = Block(addr: nat, size: nat, cells: seq<Cell>) {
    function End(): nat { addr + size }
  }

  // ---------------------------------------------------------------- alignment

  /** The pointer handed out for a cell's data: at least 16 bytes in, and a multiple of 16. */
  function Aligned(data: nat): (p: nat)
    ensures p % ALIGNMENT == 0 && data + ALIGN_INFO <= p < data + ALIGN_INFO + ALIGNMENT
  {
    var p := data + ALIGN_INFO;
    var diff := p % ALIGNMENT;
    if diff != 0 then p + (ALIGNMENT - diff) else p
  }

  function Pointer(c: Cell): nat { Aligned(c.Data()) }

  // ---------------------------------------------------------------- sizes, in 32-bit arithmetic

  /** The size of a cell for a request: with room to align the buffer. */
  function Size(req: nat): nat { (req + ALIGNMENT + ALIGN_INFO) % MAX }

  /** The room that a cell for a request takes, with its header. */
  function Need(req: nat): nat { (Size(req) + MINOR) % MAX }

  /** How many pages to ask the system for, for a first cell of the given size. */
  function PagesFor(size: nat): (n: nat)
    ensures PAGE_COUNT <= n
  {
    var st := ((size + MAJOR) % MAX + MINOR) % MAX;
    var n := if st % PAGE_SIZE == 0 then st / PAGE_SIZE else st / PAGE_SIZE + 1;
    if n < PAGE_COUNT then PAGE_COUNT else n
  }

  /** The size of the block that these pages make. */
  function BlockSize(size: nat): nat { (PagesFor(size) * PAGE_SIZE) % MAX }

  /** A new block for the request holds its cell, and the cell holds the request. */
  predicate BlockHolds(req: nat) {
    req + ALIGNMENT + ALIGN_INFO <= Size(req) && MAJOR + MINOR + Size(req) <= BlockSize(Size(req))
  }

  /** The request is small enough for the sums above. */
  predicate Served(req: nat) { req + ALIGNMENT + ALIGN_INFO + MAJOR + MINOR <= MAX - PAGE_SIZE }

  lemma {:induction false} PagesHold(size: nat)
    requires size + MAJOR + MINOR <= MAX - PAGE_SIZE
    ensures size + MAJOR + MINOR <= PagesFor(size) * PAGE_SIZE == BlockSize(size) <= MAX - PAGE_SIZE
  {
    var st := size + MAJOR + MINOR;
    assert ((size + MAJOR) % MAX + MINOR) % MAX == st;
    assert PagesFor(size) * PAGE_SIZE < MAX;
  }

  /** What `kmalloc` asks the system for holds what it puts there if and only if no sum wraps. */
  lemma {:induction false} BlockHoldsIff(req: nat)
    requires req < MAX
    ensures BlockHolds(req) <==> Served(req)
  {
    var size := Size(req);
    if Served(req) {
      PagesHold(size);
    } else if req + ALIGNMENT + ALIGN_INFO >= MAX {
      assert size == req + ALIGNMENT + ALIGN_INFO - MAX;
    } else if size + MAJOR + MINOR >= MAX {
      WrappedSum(size);
    } else {
      assert ((size + MAJOR) % MAX + MINOR) % MAX == size + MAJOR + MINOR;
      assert PagesFor(size) == 0x10_0000;
    }
  }

  lemma {:induction false} WrappedSum(size: nat)
    requires MAX - MAJOR - MINOR <= size < MAX
    ensures PagesFor(size) == PAGE_COUNT && BlockSize(size) == 0x1_0000
  {
    assert ((size + MAJOR) % MAX + MINOR) % MAX == size + MAJOR + MINOR - MAX;
  }

  /** Such a request: its cell of almost 4 GiB is put into a block of 16 pages. */
  lemma BlockTooSmall()
    ensures var req := MAX - 60; Size(req) == req + 32 && BlockSize(Size(req)) == 0x1_0000 && !BlockHolds(req)
  {
    WrappedSum(MAX - 28);
  }

  // ---------------------------------------------------------------- cells in one block

  /** Cells in ascending order without overlap between lo and hi, each with room for an aligned request. */
  ghost predicate Ordered(lo: nat, cells: seq<Cell>, hi: nat)
    decreases |cells|
  {
    if cells == [] then lo <= hi else
      && lo <= cells[0].addr && cells[0].req + ALIGNMENT + ALIGN_INFO <= cells[0].size
      && Ordered(cells[0].End(), cells[1..], hi)
  }

  /** Bytes taken by cells and their headers. */
  ghost function Usage(cells: seq<Cell>): nat {
    if cells == [] then 0 else MINOR + cells[0].size + Usage(cells[1..])
  }

  ghost function Inserted(cells: seq<Cell>, j: nat, c: Cell): seq<Cell>
    requires j <= |cells|
  {
    cells[..j] + [c] + cells[j..]
  }

  ghost function Removed(cells: seq<Cell>, j: nat): seq<Cell>
    requires j < |cells|
  {
    cells[..j] + cells[j + 1..]
  }

  lemma {:induction false} UsageFits(lo: nat, cells: seq<Cell>, hi: nat)
    requires Ordered(lo, cells, hi)
    ensures lo + Usage(cells) <= hi
    decreases |cells|
  {
    if cells != [] { UsageFits(cells[0].End(), cells[1..], hi); }
  }

  lemma {:induction false} CellInside(lo: nat, cells: seq<Cell>, hi: nat, j: nat)
    requires Ordered(lo, cells, hi) && j < |cells|
    ensures lo <= cells[j].addr && cells[j].End() <= hi && cells[j].req + ALIGNMENT + ALIGN_INFO <= cells[j].size
    ensures j > 0 ==> cells[j - 1].End() <= cells[j].addr
    decreases |cells|
  {
    if j > 0 { CellInside(cells[0].End(), cells[1..], hi, j - 1); }
    UsageFits(cells[0].End(), cells[1..], hi);
  }

  lemma {:induction false} CellsApart(lo: nat, cells: seq<Cell>, hi: nat, i: nat, j: nat)
    requires Ordered(lo, cells, hi) && i < j < |cells|
    ensures cells[i].End() <= cells[j].addr
    decreases |cells|
  {
    if i == 0 {
      CellInside(cells[0].End(), cells[1..], hi, j - 1);
    } else {
      CellsApart(cells[0].End(), cells[1..], hi, i - 1, j - 1);
    }
  }

  /** Where the gap in front of the j-th cell begins and ends. */
  ghost function GapStart(lo: nat, cells: seq<Cell>, j: nat): nat
    requires j <= |cells|
  {
    if j == 0 then lo else cells[j - 1].End()
  }

  ghost function GapEnd(cells: seq<Cell>, hi: nat, j: nat): nat
    requires j <= |cells|
  {
    if j == |cells| then hi else cells[j].addr
  }

  lemma {:induction false} InsertOrdered(lo: nat, cells: seq<Cell>, hi: nat, j: nat, c: Cell)
    requires Ordered(lo, cells, hi) && j <= |cells| && c.req + ALIGNMENT + ALIGN_INFO <= c.size
    requires GapStart(lo, cells, j) <= c.addr && c.End() <= GapEnd(cells, hi, j)
    ensures Ordered(lo, Inserted(cells, j, c), hi) && Usage(Inserted(cells, j, c)) == Usage(cells) + MINOR + c.size
    decreases |cells|
  {
    if j == 0 {
      assert Inserted(cells, 0, c) == [c] + cells;
    } else {
      InsertOrdered(cells[0].End(), cells[1..], hi, j - 1, c);
      assert Inserted(cells, j, c) == [cells[0]] + Inserted(cells[1..], j - 1, c);
    }
  }

  lemma {:induction false} RemoveOrdered(lo: nat, cells: seq<Cell>, hi: nat, j: nat)
    requires Ordered(lo, cells, hi) && j < |cells|
    ensures Ordered(lo, Removed(cells, j), hi) && Usage(Removed(cells, j)) == Usage(cells) - MINOR - cells[j].size
    decreases |cells|
  {
    if j == 0 {
      assert Removed(cells, 0) == cells[1..];
      if |cells| > 1 { CellInside(lo, cells, hi, 1); } else { UsageFits(cells[0].End(), [], hi); }
      OrderedLower(lo, cells[0].End(), cells[1..], hi);
    } else {
      RemoveOrdered(cells[0].End(), cells[1..], hi, j - 1);
      assert Removed(cells, j) == [cells[0]] + Removed(cells[1..], j - 1);
    }
  }

  lemma {:induction false} OrderedLower(lo': nat, lo: nat, cells: seq<Cell>, hi: nat)
    requires Ordered(lo, cells, hi) && lo' <= lo
    ensures Ordered(lo', cells, hi)
  {
  }

  lemma {:induction false} ShrinkOrdered(lo: nat, cells: seq<Cell>, hi: nat, j: nat, req: nat)
    requires Ordered(lo, cells, hi) && j < |cells| && req <= cells[j].req
    ensures Ordered(lo, cells[j := cells[j].(req := req)], hi) && Usage(cells[j := cells[j].(req := req)]) == Usage(cells)
    decreases |cells|
  {
    var shrunk := cells[j := cells[j].(req := req)];
    if j == 0 {
      assert shrunk[1..] == cells[1..];
    } else {
      ShrinkOrdered(cells[0].End(), cells[1..], hi, j - 1, req);
      assert shrunk[1..] == cells[1..][j - 1 := cells[j].(req := req)];
    }
  }

  // ---------------------------------------------------------------- blocks

  ghost predicate Sound(b: Block) {
    0 < b.addr && 0 < b.size <= MAX - PAGE_SIZE && Ordered(b.addr + MAJOR, b.cells, b.End())
  }

  ghost predicate Apart(a: Block, b: Block) { a.End() <= b.addr || b.End() <= a.addr }

  /** The blocks are sound and do not overlap. */
  ghost predicate Fine(blocks: seq<Block>) {
    && (forall i {:trigger Sound(blocks[i])} :: 0 <= i < |blocks| ==> Sound(blocks[i]))
    && forall i, j {:trigger Apart(blocks[i], blocks[j])} :: 0 <= i < j < |blocks| ==> Apart(blocks[i], blocks[j])
  }

  ghost predicate Has(blocks: seq<Block>, k: int, j: int) { 0 <= k < |blocks| && 0 <= j < |blocks[k].cells| }

  /** The pointer is that of the j-th cell of the k-th block. */
  ghost predicate PointsTo(blocks: seq<Block>, k: int, j: int, p: nat) {
    Has(blocks, k, j) && Pointer(blocks[k].cells[j]) == p
  }

  ghost predicate Live(blocks: seq<Block>, p: nat) { exists k, j :: PointsTo(blocks, k, j, p) }

  lemma {:induction false} InsideBlock(blocks: seq<Block>, k: nat, j: nat)
    requires Fine(blocks) && Has(blocks, k, j)
    ensures var b, c := blocks[k], blocks[k].cells[j];
      && b.addr + MAJOR <= c.addr && c.End() <= b.End() && c.req + ALIGNMENT + ALIGN_INFO <= c.size
  {
    assert Sound(blocks[k]);
    CellInside(blocks[k].addr + MAJOR, blocks[k].cells, blocks[k].End(), j);
  }

  /** Cells do not overlap, headers included; so neither do the buffers handed out. */
  lemma {:induction false} CellsDisjoint(blocks: seq<Block>, k: nat, j: nat, k': nat, j': nat)
    requires Fine(blocks) && Has(blocks, k, j) && Has(blocks, k', j') && (k, j) != (k', j')
    ensures var c, d := blocks[k].cells[j], blocks[k'].cells[j']; c.End() <= d.addr || d.End() <= c.addr
  {
    InsideBlock(blocks, k, j);
    InsideBlock(blocks, k', j');
    if k == k' {
      var b := blocks[k];
      assert Sound(b);
      if j < j' { CellsApart(b.addr + MAJOR, b.cells, b.End(), j, j'); } else { CellsApart(b.addr + MAJOR, b.cells, b.End(), j', j); }
    } else {
      assert if k < k' then Apart(blocks[k], blocks[k']) else Apart(blocks[k'], blocks[k]);
    }
  }

  /** Every buffer is aligned, lies inside its own cell behind the header, and overlaps no other buffer. */
  lemma {:induction false} BuffersDisjoint(blocks: seq<Block>, k: nat, j: nat, k': nat, j': nat)
    requires Fine(blocks) && Has(blocks, k, j) && Has(blocks, k', j')
    ensures var c, d := blocks[k].cells[j], blocks[k'].cells[j'];
      && Pointer(c) % ALIGNMENT == 0 && c.Data() + ALIGN_INFO <= Pointer(c) && Pointer(c) + c.req <= c.End()
      && ((k, j) != (k', j') ==> Pointer(c) + c.req <= Pointer(d) || Pointer(d) + d.req <= Pointer(c))
      && (Pointer(c) == Pointer(d) ==> k == k' && j == j')
  {
    InsideBlock(blocks, k, j);
    InsideBlock(blocks, k', j');
    if (k, j) != (k', j') { CellsDisjoint(blocks, k, j, k', j'); }
  }

  // ---------------------------------------------------------------- how the layout changes

  ghost predicate Gap(b: Block, j: nat, c: Cell) {
    && j <= |b.cells| && c.req + ALIGNMENT + ALIGN_INFO <= c.size
    && GapStart(b.addr + MAJOR, b.cells, j) <= c.addr && c.End() <= GapEnd(b.cells, b.End(), j)
  }

  ghost function WithCell(blocks: seq<Block>, k: nat, j: nat, c: Cell): seq<Block>
    requires k < |blocks| && j <= |blocks[k].cells|
  {
    blocks[k := blocks[k].(cells := Inserted(blocks[k].cells, j, c))]
  }

  ghost function WithoutCell(blocks: seq<Block>, k: nat, j: nat): seq<Block>
    requires Has(blocks, k, j)
  {
    blocks[k := blocks[k].(cells := Removed(blocks[k].cells, j))]
  }

  ghost function Shrunk(blocks: seq<Block>, k: nat, j: nat, req: nat): seq<Block>
    requires Has(blocks, k, j)
  {
    blocks[k := blocks[k].(cells := blocks[k].cells[j := blocks[k].cells[j].(req := req)])]
  }

  ghost function WithoutBlock(blocks: seq<Block>, k: nat): seq<Block>
    requires k < |blocks|
  {
    blocks[..k] + blocks[k + 1..]
  }

  lemma {:induction false} SameRanges(blocks: seq<Block>, k: nat, b: Block)
    requires Fine(blocks) && k < |blocks| && Sound(b) && b.addr == blocks[k].addr && b.size == blocks[k].size
    ensures Fine(blocks[k := b])
  {
    var blocks' := blocks[k := b];
    forall i, j | 0 <= i < j < |blocks'| ensures Apart(blocks'[i], blocks'[j]) { assert Apart(blocks[i], blocks[j]); }
  }

  lemma {:induction false} InsertFine(blocks: seq<Block>, k: nat, j: nat, c: Cell)
    requires Fine(blocks) && k < |blocks| && Gap(blocks[k], j, c)
    ensures Fine(WithCell(blocks, k, j, c))
  {
    var b := blocks[k];
    assert Sound(b);
    InsertOrdered(b.addr + MAJOR, b.cells, b.End(), j, c);
    SameRanges(blocks, k, b.(cells := Inserted(b.cells, j, c)));
  }

  ghost predicate Clear(blocks: seq<Block>, b: Block) {
    forall i {:trigger Apart(blocks[i], b)} :: 0 <= i < |blocks| ==> Apart(blocks[i], b)
  }

  lemma {:induction false} AppendFine(blocks: seq<Block>, b: Block)
    requires Fine(blocks) && Sound(b) && Clear(blocks, b)
    ensures Fine(blocks + [b])
  {
    forall i, j | 0 <= i < j < |blocks| + 1 ensures Apart((blocks + [b])[i], (blocks + [b])[j]) {
      if j < |blocks| { assert Apart(blocks[i], blocks[j]); } else { assert Apart(blocks[i], b); }
    }
  }

  lemma {:induction false} DropFine(blocks: seq<Block>, k: nat)
    requires Fine(blocks) && k < |blocks|
    ensures Fine(WithoutBlock(blocks, k))
  {
    var rest := WithoutBlock(blocks, k);
    forall i | 0 <= i < |rest| ensures Sound(rest[i]) { assert Sound(blocks[if i < k then i else i + 1]); }
    forall i, j | 0 <= i < j < |rest| ensures Apart(rest[i], rest[j]) {
      assert Apart(blocks[if i < k then i else i + 1], blocks[if j < k then j else j + 1]);
    }
  }

  // ---------------------------------------------------------------- the buffers handed out

  datatype Buffer = Buffer(ptr: nat, size: nat)

  ghost function BufferOf(c: Cell): Buffer { Buffer(Pointer(c), c.req) }

  ghost predicate IsBuffer(blocks: seq<Block>, k: int, j: int, x: Buffer) {
    Has(blocks, k, j) && BufferOf(blocks[k].cells[j]) == x
  }

  ghost function Buffers(blocks: seq<Block>): set<Buffer> {
    set k, j | 0 <= k < |blocks| && 0 <= j < |blocks[k].cells| && Has(blocks, k, j) :: BufferOf(blocks[k].cells[j])
  }

  lemma {:induction false} InBuffers(blocks: seq<Block>, x: Buffer)
    ensures x in Buffers(blocks) <==> exists k, j :: IsBuffer(blocks, k, j, x)
  {
    if k, j :| IsBuffer(blocks, k, j, x) { assert Has(blocks, k, j); }
    if x in Buffers(blocks) {
      var k, j :| 0 <= k < |blocks| && 0 <= j < |blocks[k].cells| && BufferOf(blocks[k].cells[j]) == x;
      assert IsBuffer(blocks, k, j, x);
    }
  }

  /** Inserting a cell adds its buffer. */
  lemma {:induction false} InsertBuffers(blocks: seq<Block>, k: nat, j: nat, c: Cell)
    requires k < |blocks| && j <= |blocks[k].cells|
    ensures Buffers(WithCell(blocks, k, j, c)) == Buffers(blocks) + {BufferOf(c)}
  {
    var blocks' := WithCell(blocks, k, j, c);
    forall x ensures x in Buffers(blocks') <==> x in Buffers(blocks) || x == BufferOf(c) {
      InBuffers(blocks, x);
      InBuffers(blocks', x);
      if a, i :| IsBuffer(blocks, a, i, x) { assert IsBuffer(blocks', a, if a == k && i >= j then i + 1 else i, x); }
      if x == BufferOf(c) { assert IsBuffer(blocks', k, j, x); }
      if a, i :| IsBuffer(blocks', a, i, x) {
        if (a, i) != (k, j) { assert IsBuffer(blocks, a, if a == k && i > j then i - 1 else i, x); }
      }
    }
  }

  /** Removing a cell removes its buffer, which no other cell has. */
  lemma {:induction false} RemoveBuffers(blocks: seq<Block>, k: nat, j: nat)
    requires Fine(blocks) && Has(blocks, k, j)
    ensures Buffers(WithoutCell(blocks, k, j)) == Buffers(blocks) - {BufferOf(blocks[k].cells[j])}
  {
    var rest, c := WithoutCell(blocks, k, j), blocks[k].cells[j];
    assert Inserted(rest[k].cells, j, c) == blocks[k].cells;
    assert WithCell(rest, k, j, c) == blocks;
    InsertBuffers(rest, k, j, c);
    InBuffers(rest, BufferOf(c));
    forall a, i | Has(rest, a, i) ensures BufferOf(rest[a].cells[i]) != BufferOf(c) {
      BuffersDisjoint(blocks, a, if a == k && i >= j then i + 1 else i, k, j);
    }
  }

  lemma {:induction false} ShrinkBuffers(blocks: seq<Block>, k: nat, j: nat, req: nat)
    requires Fine(blocks) && Has(blocks, k, j)
    ensures Buffers(Shrunk(blocks, k, j, req))
      == Buffers(blocks) - {BufferOf(blocks[k].cells[j])} + {Buffer(Pointer(blocks[k].cells[j]), req)}
  {
    var c' := blocks[k].cells[j].(req := req);
    RemoveBuffers(blocks, k, j);
    InsertBuffers(WithoutCell(blocks, k, j), k, j, c');
    assert Inserted(Removed(blocks[k].cells, j), j, c') == blocks[k].cells[j := c'];
    assert WithCell(WithoutCell(blocks, k, j), k, j, c') == Shrunk(blocks, k, j, req);
  }

  /** An empty block holds no buffers. */
  lemma {:induction false} AppendBuffers(blocks: seq<Block>, b: Block)
    requires b.cells == []
    ensures Buffers(blocks + [b]) == Buffers(blocks)
  {
    forall x ensures x in Buffers(blocks + [b]) <==> x in Buffers(blocks) {
      InBuffers(blocks, x);
      InBuffers(blocks + [b], x);
      if k, j :| IsBuffer(blocks, k, j, x) { assert IsBuffer(blocks + [b], k, j, x); }
      if k, j :| IsBuffer(blocks + [b], k, j, x) { assert IsBuffer(blocks, k, j, x); }
    }
  }

  lemma {:induction false} DropBuffers(blocks: seq<Block>, k: nat)
    requires k < |blocks| && blocks[k].cells == []
    ensures Buffers(WithoutBlock(blocks, k)) == Buffers(blocks)
  {
    var rest := WithoutBlock(blocks, k);
    forall x ensures x in Buffers(rest) <==> x in Buffers(blocks) {
      InBuffers(blocks, x);
      InBuffers(rest, x);
      if a, j :| IsBuffer(blocks, a, j, x) { assert IsBuffer(rest, if a < k then a else a - 1, j, x); }
      if a, j :| IsBuffer(rest, a, j, x) { assert IsBuffer(blocks, if a < k then a else a + 1, j, x); }
    }
  }
}
