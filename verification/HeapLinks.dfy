/**
  The headers of the kernel heap: the doubly linked list of blocks and, in each block, the doubly linked list of its
  cells. Headers are looked up by address. What each insertion and removal writes is proved to leave headers that
  match the new layout.
 */
module HeapLinks {
  import opened Helpers
  import opened HeapLayout

  const MAGIC: nat := 0xc001c0de
  const DEAD: nat := 0xdeaddead

  datatype Major = Major(prev: nat, next: nat, pages: nat, size: nat, usage: nat, first: nat)
  datatype Minor = Minor(prev: nat, next: nat, block: nat, magic: nat, size: nat, req: nat)

  type Majors = map<nat, Major>
  type Minors = map<nat, Minor>

  ghost function AddrAt(blocks: seq<Block>, i: int): nat { if 0 <= i < |blocks| then blocks[i].addr else 0 }

  ghost function CellAt(cells: seq<Cell>, j: int): nat { if 0 <= j < |cells| then cells[j].addr else 0 }

  // ---------------------------------------------------------------- the cells of one block

  ghost predicate MinorOk(minors: Minors, b: Block, j: int)
    requires 0 <= j < |b.cells|
  {
    && b.cells[j].addr in minors
    && minors[b.cells[j].addr]
         == Minor(CellAt(b.cells, j - 1), CellAt(b.cells, j + 1), b.addr, MAGIC, b.cells[j].size, b.cells[j].req)
  }

  ghost predicate Linked(minors: Minors, b: Block) {
    forall j :: 0 <= j < |b.cells| ==> MinorOk(minors, b, j)
  }

  ghost predicate SameWithin(minors: Minors, minors': Minors, b: Block) {
    forall a :: b.addr <= a < b.End() && a in minors ==> a in minors' && minors'[a] == minors[a]
  }

  ghost predicate SameOutside(minors: Minors, minors': Minors, b: Block) {
    forall a :: !(b.addr <= a < b.End()) && a in minors ==> a in minors' && minors'[a] == minors[a]
  }

  lemma {:induction false} LinkedFrame(minors: Minors, minors': Minors, b: Block)
    requires Sound(b) && Linked(minors, b) && SameWithin(minors, minors', b)
    ensures Linked(minors', b)
  {
    forall j | 0 <= j < |b.cells| ensures MinorOk(minors', b, j) {
      assert MinorOk(minors, b, j);
      CellInside(b.addr + MAJOR, b.cells, b.End(), j);
    }
  }

  /** What is left of a part of memory when the addresses from lo to hi are put to another use. */
  function Outside<T>(m: map<nat, T>, lo: nat, hi: nat): map<nat, T> { map a | a in m && !(lo <= a < hi) :: m[a] }

  /** Headers after a new cell has been put in front of the j-th. */
  ghost function Woven(minors: Minors, b: Block, j: nat, c: Cell): Minors
    requires j <= |b.cells| && (j > 0 ==> b.cells[j - 1].addr in minors) && (j < |b.cells| ==> b.cells[j].addr in minors)
  {
    var m := if j > 0 then minors[b.cells[j - 1].addr := minors[b.cells[j - 1].addr].(next := c.addr)] else minors;
    var m' := if j < |b.cells| && b.cells[j].addr in m then m[b.cells[j].addr := m[b.cells[j].addr].(prev := c.addr)] else m;
    m'[c.addr := Minor(CellAt(b.cells, j - 1), CellAt(b.cells, j), b.addr, MAGIC, c.size, c.req)]
  }

  /** The same, as the code writes it: `prev` and `next` are the neighbours, 0 for none. */
  ghost function Threaded(minors: Minors, prev: nat, next: nat, addr: nat, cell: Minor): Minors {
    var m := if prev != 0 && prev in minors then minors[prev := minors[prev].(next := addr)] else minors;
    var m' := if next != 0 && next in m then m[next := m[next].(prev := addr)] else m;
    m'[addr := cell]
  }

  lemma {:induction false} WovenIsThreaded(minors: Minors, b: Block, j: nat, c: Cell)
    requires Sound(b) && j <= |b.cells|
    requires (j > 0 ==> b.cells[j - 1].addr in minors) && (j < |b.cells| ==> b.cells[j].addr in minors)
    ensures var prev, next := CellAt(b.cells, j - 1), CellAt(b.cells, j);
      && (prev == 0 <==> j == 0) && (next == 0 <==> j == |b.cells|)
      && Woven(minors, b, j, c) == Threaded(minors, prev, next, c.addr, Minor(prev, next, b.addr, MAGIC, c.size, c.req))
  {
    if j > 0 { CellInside(b.addr + MAJOR, b.cells, b.End(), j - 1); }
    if j < |b.cells| { CellInside(b.addr + MAJOR, b.cells, b.End(), j); }
  }

  /** Cells are in different places from each other and from a cell in a gap between them. */
  lemma {:induction false} AddressesDiffer(b: Block, i: nat, i': nat)
    requires Sound(b) && i < |b.cells| && i' < |b.cells| && i != i'
    ensures b.cells[i].addr != b.cells[i'].addr
  {
    if i < i' {
      CellsApart(b.addr + MAJOR, b.cells, b.End(), i, i');
    } else {
      CellsApart(b.addr + MAJOR, b.cells, b.End(), i', i);
    }
  }

  lemma {:induction false} GapDiffers(b: Block, j: nat, c: Cell, i: nat)
    requires Sound(b) && Gap(b, j, c) && i < |b.cells|
    ensures b.cells[i].addr != c.addr && b.addr < c.addr < b.End()
  {
    CellInside(b.addr + MAJOR, b.cells, b.End(), i);
    if i < j {
      if i < j - 1 { CellsApart(b.addr + MAJOR, b.cells, b.End(), i, j - 1); }
    } else if j < i {
      CellsApart(b.addr + MAJOR, b.cells, b.End(), j, i);
    }
    if j > 0 { CellInside(b.addr + MAJOR, b.cells, b.End(), j - 1); }
    if j < |b.cells| { CellInside(b.addr + MAJOR, b.cells, b.End(), j); }
  }

  lemma {:induction false} WovenOld(minors: Minors, b: Block, j: nat, c: Cell, i: nat)
    requires Sound(b) && Linked(minors, b) && Gap(b, j, c) && i < |b.cells|
    requires (j > 0 ==> b.cells[j - 1].addr in minors) && (j < |b.cells| ==> b.cells[j].addr in minors)
    ensures MinorOk(Woven(minors, b, j, c), b.(cells := Inserted(b.cells, j, c)), if i < j then i else i + 1)
  {
    assert MinorOk(minors, b, i);
    GapDiffers(b, j, c, i);
    if j > 0 && i != j - 1 { AddressesDiffer(b, j - 1, i); }
    if j < |b.cells| && i != j { AddressesDiffer(b, j, i); }
  }

  /** Putting a cell into a gap leaves the block's list linked, and writes nothing outside the block. */
  lemma {:induction false} WovenLinked(minors: Minors, b: Block, j: nat, c: Cell)
    requires Sound(b) && Linked(minors, b) && Gap(b, j, c)
    ensures (j > 0 ==> b.cells[j - 1].addr in minors) && (j < |b.cells| ==> b.cells[j].addr in minors)
    ensures Linked(Woven(minors, b, j, c), b.(cells := Inserted(b.cells, j, c)))
    ensures SameOutside(minors, Woven(minors, b, j, c), b)
  {
    if j > 0 { assert MinorOk(minors, b, j - 1); CellInside(b.addr + MAJOR, b.cells, b.End(), j - 1); }
    if j < |b.cells| { assert MinorOk(minors, b, j); CellInside(b.addr + MAJOR, b.cells, b.End(), j); }
    var b' := b.(cells := Inserted(b.cells, j, c));
    forall i | 0 <= i < |b'.cells| ensures MinorOk(Woven(minors, b, j, c), b', i) {
      if i < j { WovenOld(minors, b, j, c, i); } else if i > j { WovenOld(minors, b, j, c, i - 1); }
    }
  }

  /** Headers after the j-th cell has been taken out. */
  ghost function Unwoven(minors: Minors, b: Block, j: nat): Minors
    requires j < |b.cells| && b.cells[j].addr in minors
    requires (j > 0 ==> b.cells[j - 1].addr in minors) && (j + 1 < |b.cells| ==> b.cells[j + 1].addr in minors)
  {
    var m := minors[b.cells[j].addr := minors[b.cells[j].addr].(magic := DEAD)];
    var m' := if j + 1 < |b.cells| then m[b.cells[j + 1].addr := m[b.cells[j + 1].addr].(prev := CellAt(b.cells, j - 1))] else m;
    if j > 0 then m'[b.cells[j - 1].addr := m'[b.cells[j - 1].addr].(next := CellAt(b.cells, j + 1))] else m'
  }

  lemma {:induction false} UnwovenOld(minors: Minors, b: Block, j: nat, i: nat)
    requires Sound(b) && Linked(minors, b) && j < |b.cells| && i < |b.cells| && i != j && b.cells[j].addr in minors
    requires (j > 0 ==> b.cells[j - 1].addr in minors) && (j + 1 < |b.cells| ==> b.cells[j + 1].addr in minors)
    ensures MinorOk(Unwoven(minors, b, j), b.(cells := Removed(b.cells, j)), if i < j then i else i - 1)
  {
    assert MinorOk(minors, b, i);
    AddressesDiffer(b, i, j);
    if j > 0 && i != j - 1 { AddressesDiffer(b, j - 1, i); }
    if j + 1 < |b.cells| && i != j + 1 { AddressesDiffer(b, j + 1, i); }
  }

  lemma {:induction false} UnwovenLinked(minors: Minors, b: Block, j: nat)
    requires Sound(b) && Linked(minors, b) && j < |b.cells|
    ensures b.cells[j].addr in minors
    ensures (j > 0 ==> b.cells[j - 1].addr in minors) && (j + 1 < |b.cells| ==> b.cells[j + 1].addr in minors)
    ensures Linked(Unwoven(minors, b, j), b.(cells := Removed(b.cells, j)))
    ensures SameOutside(minors, Unwoven(minors, b, j), b)
  {
    assert MinorOk(minors, b, j);
    CellInside(b.addr + MAJOR, b.cells, b.End(), j);
    if j > 0 { assert MinorOk(minors, b, j - 1); CellInside(b.addr + MAJOR, b.cells, b.End(), j - 1); }
    if j + 1 < |b.cells| { assert MinorOk(minors, b, j + 1); CellInside(b.addr + MAJOR, b.cells, b.End(), j + 1); }
    var b' := b.(cells := Removed(b.cells, j));
    forall i | 0 <= i < |b'.cells| ensures MinorOk(Unwoven(minors, b, j), b', i) {
      UnwovenOld(minors, b, j, if i < j then i else i + 1);
    }
  }

  // ---------------------------------------------------------------- the blocks

  ghost predicate MajorOk(majors: Majors, blocks: seq<Block>, i: int)
    requires 0 <= i < |blocks|
  {
    && blocks[i].addr in majors
    && var m := majors[blocks[i].addr];
      && m.prev == AddrAt(blocks, i - 1) && m.next == AddrAt(blocks, i + 1)
      && m.size == blocks[i].size == m.pages * PAGE_SIZE
      && m.usage == MAJOR + Usage(blocks[i].cells) && m.first == CellAt(blocks[i].cells, 0)
  }

  ghost predicate Rep(majors: Majors, minors: Minors, blocks: seq<Block>) {
    && Fine(blocks)
    && (forall i :: 0 <= i < |blocks| ==> MajorOk(majors, blocks, i))
    && forall i {:trigger Linked(minors, blocks[i])} :: 0 <= i < |blocks| ==> Linked(minors, blocks[i])
  }

  lemma {:induction false} BlocksDiffer(blocks: seq<Block>, i: nat, i': nat)
    requires Fine(blocks) && i < |blocks| && i' < |blocks| && i != i'
    ensures blocks[i].addr != blocks[i'].addr
  {
    assert Sound(blocks[i]) && Sound(blocks[i']);
    assert if i < i' then Apart(blocks[i], blocks[i']) else Apart(blocks[i'], blocks[i]);
  }

  /** The other blocks after a change inside block k. */
  lemma {:induction false} OtherBlock(majors: Majors, m: Major, minors: Minors, minors': Minors, blocks: seq<Block>, k: nat, b': Block, i: nat)
    requires Rep(majors, minors, blocks) && k < |blocks| && i < |blocks| && i != k && b'.addr == blocks[k].addr
    requires SameOutside(minors, minors', blocks[k])
    ensures MajorOk(majors[b'.addr := m], blocks[k := b'], i) && Linked(minors', blocks[i])
  {
    assert MajorOk(majors, blocks, i) && Linked(minors, blocks[i]) && Sound(blocks[i]);
    BlocksDiffer(blocks, i, k);
    assert if i < k then Apart(blocks[i], blocks[k]) else Apart(blocks[k], blocks[i]);
    LinkedFrame(minors, minors', blocks[i]);
  }

  /** A change of the cells of one block, of its own header and of headers inside it keeps everything else. */
  lemma {:induction false} ChangeBlock(majors: Majors, minors: Minors, minors': Minors, blocks: seq<Block>, k: nat, cells: seq<Cell>)
    requires Rep(majors, minors, blocks) && k < |blocks| && blocks[k].addr in majors
    requires Sound(blocks[k].(cells := cells)) && Linked(minors', blocks[k].(cells := cells)) && SameOutside(minors, minors', blocks[k])
    ensures
      var blocks' := blocks[k := blocks[k].(cells := cells)];
      var m := majors[blocks[k].addr].(usage := MAJOR + Usage(cells), first := CellAt(cells, 0));
      Rep(majors[blocks[k].addr := m], minors', blocks')
  {
    var b' := blocks[k].(cells := cells);
    var m := majors[blocks[k].addr].(usage := MAJOR + Usage(cells), first := CellAt(cells, 0));
    SameRanges(blocks, k, b');
    assert MajorOk(majors, blocks, k);
    forall i | 0 <= i < |blocks| && i != k ensures MajorOk(majors[b'.addr := m], blocks[k := b'], i) && Linked(minors', blocks[i]) {
      OtherBlock(majors, m, minors, minors', blocks, k, b', i);
    }
    assert MajorOk(majors[b'.addr := m], blocks[k := b'], k);
  }

  /** Placing a cell into a gap of block k. */
  lemma {:induction false} PlaceRep(majors: Majors, minors: Minors, blocks: seq<Block>, k: nat, j: nat, c: Cell)
    requires Rep(majors, minors, blocks) && k < |blocks| && Gap(blocks[k], j, c)
    ensures blocks[k].addr in majors
    ensures (j > 0 ==> blocks[k].cells[j - 1].addr in minors) && (j < |blocks[k].cells| ==> blocks[k].cells[j].addr in minors)
    ensures
      var m := majors[blocks[k].addr];
      var m' := m.(usage := m.usage + MINOR + c.size, first := if j == 0 then c.addr else m.first);
      Rep(majors[blocks[k].addr := m'], Woven(minors, blocks[k], j, c), WithCell(blocks, k, j, c))
  {
    var b := blocks[k];
    assert MajorOk(majors, blocks, k) && Linked(minors, b) && Sound(b);
    WovenLinked(minors, b, j, c);
    InsertOrdered(b.addr + MAJOR, b.cells, b.End(), j, c);
    ChangeBlock(majors, minors, Woven(minors, b, j, c), blocks, k, Inserted(b.cells, j, c));
  }

  /** Taking the j-th cell out of block k. */
  lemma {:induction false} TakeRep(majors: Majors, minors: Minors, blocks: seq<Block>, k: nat, j: nat)
    requires Rep(majors, minors, blocks) && Has(blocks, k, j)
    ensures blocks[k].addr in majors && blocks[k].cells[j].addr in minors
    ensures (j > 0 ==> blocks[k].cells[j - 1].addr in minors) && (j + 1 < |blocks[k].cells| ==> blocks[k].cells[j + 1].addr in minors)
    ensures MINOR + blocks[k].cells[j].size <= majors[blocks[k].addr].usage
    ensures
      var m := majors[blocks[k].addr];
      var m' := m.(usage := m.usage - MINOR - blocks[k].cells[j].size,
                   first := if j == 0 then CellAt(blocks[k].cells, 1) else m.first);
      Rep(majors[blocks[k].addr := m'], Unwoven(minors, blocks[k], j), WithoutCell(blocks, k, j))
  {
    var b := blocks[k];
    assert MajorOk(majors, blocks, k) && Linked(minors, b) && Sound(b);
    UnwovenLinked(minors, b, j);
    RemoveOrdered(b.addr + MAJOR, b.cells, b.End(), j);
    ChangeBlock(majors, minors, Unwoven(minors, b, j), blocks, k, Removed(b.cells, j));
  }

  /** A smaller request in the same cell. */
  lemma {:induction false} ShrinkRep(majors: Majors, minors: Minors, blocks: seq<Block>, k: nat, j: nat, req: nat)
    requires Rep(majors, minors, blocks) && Has(blocks, k, j) && req <= blocks[k].cells[j].req
    ensures blocks[k].cells[j].addr in minors
    ensures
      var a := blocks[k].cells[j].addr;
      Rep(majors, minors[a := minors[a].(req := req)], Shrunk(blocks, k, j, req))
  {
    var b := blocks[k];
    var a := b.cells[j].addr;
    var cells' := b.cells[j := b.cells[j].(req := req)];
    assert MajorOk(majors, blocks, k) && Linked(minors, b) && Sound(b) && MinorOk(minors, b, j);
    CellInside(b.addr + MAJOR, b.cells, b.End(), j);
    ShrinkOrdered(b.addr + MAJOR, b.cells, b.End(), j, req);
    var minors' := minors[a := minors[a].(req := req)];
    forall i | 0 <= i < |b.cells| ensures MinorOk(minors', b.(cells := cells'), i) {
      assert MinorOk(minors, b, i);
      if i != j { AddressesDiffer(b, i, j); }
    }
    ChangeBlock(majors, minors, minors', blocks, k, cells');
    assert majors[b.addr := majors[b.addr].(usage := MAJOR + Usage(cells'), first := CellAt(cells', 0))] == majors;
  }

  // ---------------------------------------------------------------- blocks come and go

  ghost function Extended(majors: Majors, blocks: seq<Block>, b: Block, pages: nat): Majors
    requires blocks != [] ==> AddrAt(blocks, |blocks| - 1) in majors
  {
    var last := AddrAt(blocks, |blocks| - 1);
    var m := if blocks == [] then majors else majors[last := majors[last].(next := b.addr)];
    m[b.addr := Major(last, 0, pages, b.size, MAJOR, 0)]
  }

  lemma {:induction false} ExtendedOld(majors: Majors, blocks: seq<Block>, b: Block, pages: nat, i: nat)
    requires Fine(blocks + [b]) && Fine(blocks) && i < |blocks| && MajorOk(majors, blocks, i) && AddrAt(blocks, |blocks| - 1) in majors
    ensures MajorOk(Extended(majors, blocks, b, pages), blocks + [b], i)
  {
    BlocksDiffer(blocks + [b], i, |blocks|);
    if i < |blocks| - 1 { BlocksDiffer(blocks, i, |blocks| - 1); }
  }

  lemma {:induction false} ExtendedNew(majors: Majors, blocks: seq<Block>, b: Block, pages: nat)
    requires b.cells == [] && b.size == pages * PAGE_SIZE && (blocks != [] ==> AddrAt(blocks, |blocks| - 1) in majors)
    ensures MajorOk(Extended(majors, blocks, b, pages), blocks + [b], |blocks|)
  {
    var blocks' := blocks + [b];
    assert blocks'[|blocks|] == b && AddrAt(blocks', |blocks| - 1) == AddrAt(blocks, |blocks| - 1);
  }

  /** A new, empty block behind the others. */
  lemma {:induction false} AppendRep(majors: Majors, minors: Minors, blocks: seq<Block>, b: Block, pages: nat)
    requires Rep(majors, minors, blocks) && Sound(b) && Clear(blocks, b) && b.cells == [] && b.size == pages * PAGE_SIZE
    ensures blocks != [] ==> AddrAt(blocks, |blocks| - 1) in majors
    ensures Rep(Extended(majors, blocks, b, pages), minors, blocks + [b])
  {
    AppendFine(blocks, b);
    var n, blocks' := |blocks|, blocks + [b];
    if n > 0 { assert MajorOk(majors, blocks, n - 1); }
    forall i | 0 <= i <= n ensures MajorOk(Extended(majors, blocks, b, pages), blocks', i) && Linked(minors, blocks'[i]) {
      if i < n {
        assert MajorOk(majors, blocks, i) && Linked(minors, blocks[i]);
        ExtendedOld(majors, blocks, b, pages, i);
      } else {
        ExtendedNew(majors, blocks, b, pages);
      }
    }
  }

  /** Headers that are not those of live cells may go. */
  lemma {:induction false} ClearRep(majors: Majors, minors: Minors, blocks: seq<Block>, lo: nat, hi: nat)
    requires Rep(majors, minors, blocks)
    requires forall k, j {:trigger Has(blocks, k, j)} :: Has(blocks, k, j) ==> !(lo <= blocks[k].cells[j].addr < hi)
    ensures Rep(majors, Outside(minors, lo, hi), blocks)
  {
    forall i | 0 <= i < |blocks| ensures Linked(Outside(minors, lo, hi), blocks[i]) {
      assert Linked(minors, blocks[i]);
      forall j | 0 <= j < |blocks[i].cells| ensures MinorOk(Outside(minors, lo, hi), blocks[i], j) {
        assert MinorOk(minors, blocks[i], j) && Has(blocks, i, j);
      }
    }
  }

  /** No live header lies where a new cell is put. */
  lemma {:induction false} GapRep(majors: Majors, minors: Minors, blocks: seq<Block>, k: nat, j: nat, c: Cell)
    requires Rep(majors, minors, blocks) && k < |blocks| && Gap(blocks[k], j, c)
    ensures Rep(majors, Outside(minors, c.addr, c.End()), blocks)
  {
    InsertFine(blocks, k, j, c);
    var blocks' := WithCell(blocks, k, j, c);
    forall a, i {:trigger Has(blocks, a, i)} | Has(blocks, a, i) ensures !(c.addr <= blocks[a].cells[i].addr < c.End()) {
      var i' := if a == k && i >= j then i + 1 else i;
      assert blocks'[a].cells[i'] == blocks[a].cells[i];
      CellsDisjoint(blocks', a, i', k, j);
    }
    ClearRep(majors, minors, blocks, c.addr, c.End());
  }

  /** Headers of the blocks after block k has been taken out. */
  ghost function Bridged(majors: Majors, blocks: seq<Block>, k: nat): Majors
    requires k < |blocks| && (k > 0 ==> AddrAt(blocks, k - 1) in majors) && (k + 1 < |blocks| ==> AddrAt(blocks, k + 1) in majors)
  {
    var p, n := AddrAt(blocks, k - 1), AddrAt(blocks, k + 1);
    var m := if k > 0 then majors[p := majors[p].(next := n)] else majors;
    var m' := if k + 1 < |blocks| && n in m then m[n := m[n].(prev := p)] else m;
    m' - {blocks[k].addr}
  }

  lemma {:induction false} BridgedOld(majors: Majors, blocks: seq<Block>, k: nat, i: nat)
    requires Fine(blocks) && k < |blocks| && i < |blocks| && i != k && MajorOk(majors, blocks, i)
    requires (k > 0 ==> AddrAt(blocks, k - 1) in majors) && (k + 1 < |blocks| ==> AddrAt(blocks, k + 1) in majors)
    ensures MajorOk(Bridged(majors, blocks, k), WithoutBlock(blocks, k), if i < k then i else i - 1)
  {
    hide Bridged, Fine;
    BridgedAt(majors, blocks, k, i);
    WithoutAddresses(blocks, k, i);
  }

  /** The header of a block that stays: only links to the one that goes change. */
  lemma {:induction false} BridgedAt(majors: Majors, blocks: seq<Block>, k: nat, i: nat)
    requires Fine(blocks) && k < |blocks| && i < |blocks| && i != k && blocks[i].addr in majors
    requires (k > 0 ==> AddrAt(blocks, k - 1) in majors) && (k + 1 < |blocks| ==> AddrAt(blocks, k + 1) in majors)
    ensures var a, m := blocks[i].addr, Bridged(majors, blocks, k);
      a in m && m[a] == majors[a].(next := if i + 1 == k then AddrAt(blocks, k + 1) else majors[a].next,
                                   prev := if i == k + 1 then AddrAt(blocks, k - 1) else majors[a].prev)
  {
    BlocksDiffer(blocks, i, k);
    if k > 0 && i != k - 1 { BlocksDiffer(blocks, i, k - 1); }
    if k + 1 < |blocks| && i != k + 1 { BlocksDiffer(blocks, i, k + 1); }
  }

  lemma {:induction false} WithoutAddresses(blocks: seq<Block>, k: nat, i: nat)
    requires k < |blocks| && i < |blocks| && i != k
    ensures var rest, i' := WithoutBlock(blocks, k), if i < k then i else i - 1;
      && i' < |rest| && rest[i'] == blocks[i]
      && AddrAt(rest, i' + 1) == (if i + 1 == k then AddrAt(blocks, k + 1) else AddrAt(blocks, i + 1))
      && AddrAt(rest, i' - 1) == (if i == k + 1 then AddrAt(blocks, k - 1) else AddrAt(blocks, i - 1))
  {
  }

  lemma {:induction false} DropRep(majors: Majors, minors: Minors, blocks: seq<Block>, k: nat)
    requires Rep(majors, minors, blocks) && k < |blocks|
    ensures (k > 0 ==> AddrAt(blocks, k - 1) in majors) && (k + 1 < |blocks| ==> AddrAt(blocks, k + 1) in majors)
    ensures Rep(Bridged(majors, blocks, k), Outside(minors, blocks[k].addr, blocks[k].End()), WithoutBlock(blocks, k))
  {
    if k > 0 { assert MajorOk(majors, blocks, k - 1); }
    if k + 1 < |blocks| { assert MajorOk(majors, blocks, k + 1); }
    DropFine(blocks, k);
    var rest := WithoutBlock(blocks, k);
    forall i | 0 <= i < |rest| ensures MajorOk(Bridged(majors, blocks, k), rest, i) && Linked(minors, rest[i]) {
      var i' := if i < k then i else i + 1;
      assert MajorOk(majors, blocks, i');
      BridgedOld(majors, blocks, k, i');
      assert Linked(minors, blocks[i']);
    }
    forall a, i {:trigger Has(rest, a, i)} | Has(rest, a, i) ensures !(blocks[k].addr <= rest[a].cells[i].addr < blocks[k].End()) {
      OtherBlockCell(blocks, k, if a < k then a else a + 1, i);
    }
    ClearRep(Bridged(majors, blocks, k), minors, rest, blocks[k].addr, blocks[k].End());
  }

  /** The cells of a block lie outside every other block. */
  lemma {:induction false} OtherBlockCell(blocks: seq<Block>, k: nat, a: nat, i: nat)
    requires Fine(blocks) && k < |blocks| && Has(blocks, a, i) && a != k
    ensures var b, c := blocks[k], blocks[a].cells[i]; c.End() <= b.addr || b.End() <= c.addr
  {
    InsideBlock(blocks, a, i);
    assert if k < a then Apart(blocks[k], blocks[a]) else Apart(blocks[a], blocks[k]);
  }
}
