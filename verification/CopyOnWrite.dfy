/**
  Anonymous VM objects whose physical pages are shared copy-on-write (`VMObject`, `AnonymousVMObject`,
  `PhysicalPage`). The pure part relates the shared, reference-counted pages to independent arrays of pages;
  the classes below it are the code.
 */
module CopyOnWrite {
  import opened Helpers

  const MAX_REFS: nat := 0xFFFF

  type Page = s: seq<Byte> | |s| == PAGE_SIZE witness Blank()

  function Blank(): seq<Byte> { seq(PAGE_SIZE, _ => 0) }

  const ZERO_PAGE: Page := Blank()

  // ---------------------------------------------------------------- slots and pages as values

  /** An object's slots: the page in each, 0 for none, and whether it is marked copy-on-write. */
  datatype Slots = Slots(pages: seq<nat>, cow: seq<bool>)

  /** Physical memory: reference counts, contents, the pages the allocator may hand out, and those whose reserved
      flag is set. */
  datatype Memory = Memory(refs: seq<nat>, data: seq<Page>, free: set<nat>, reserved: set<nat>)

  type Objects = map<nat, Slots>

  ghost predicate Names(objs: Objects, id: nat, i: nat, p: nat) {
    id in objs && i < |objs[id].pages| && objs[id].pages[i] == p
  }

  ghost function Holders(objs: Objects, p: nat): set<(nat, nat)> {
    set id, i | id in objs && 0 <= i < |objs[id].pages| && Names(objs, id, i, p) :: (id, i)
  }

  ghost predicate Distinct(pages: seq<nat>) {
    forall i, j :: 0 <= i < j < |pages| && pages[i] != 0 ==> pages[i] != pages[j]
  }

  ghost predicate WellFormed(o: Slots, m: Memory) {
    && |o.cow| == |o.pages| && Distinct(o.pages)
    && forall i :: 0 <= i < |o.pages| ==> o.pages[i] < |m.refs| && (o.cow[i] ==> o.pages[i] != 0)
  }

  /** A committed slot that is not marked copy-on-write is the only one holding its page. */
  ghost predicate Exclusive(objs: Objects) {
    forall p: nat, a: nat, i: nat, b: nat, j: nat :: p != 0 && Names(objs, a, i, p) && Names(objs, b, j, p) && i < |objs[a].cow| && !objs[a].cow[i] ==>
      a == b && i == j
  }

  /** Free pages have no references, and a page without references that is not free is a reserved one. */
  ghost predicate Sound(m: Memory) {
    && |m.data| == |m.refs| > 0
    && (forall p :: p in m.free ==> 0 < p < |m.refs| && m.refs[p] == 0)
    && (forall p :: 0 < p < |m.refs| && m.refs[p] == 0 ==> p in m.free || p in m.reserved)
  }

  /** The pages that nobody holds and nobody can get. */
  ghost function Leaked(m: Memory): set<nat> { set p | 0 < p < |m.refs| && m.refs[p] == 0 && p !in m.free }

  ghost predicate Counted(objs: Objects, m: Memory) {
    forall p :: 0 < p < |m.refs| ==> m.refs[p] == |Holders(objs, p)| <= MAX_REFS
  }

  ghost predicate Inv(objs: Objects, m: Memory) {
    Sound(m) && Counted(objs, m) && Exclusive(objs) && forall id :: id in objs ==> WellFormed(objs[id], m)
  }

  lemma InvSound(objs: Objects, m: Memory)
    requires Inv(objs, m)
    ensures Sound(m)
  {
  }

  lemma InvFacts(objs: Objects, m: Memory, id: nat)
    requires Inv(objs, m) && id in objs
    ensures Sound(m) && WellFormed(objs[id], m) && forall p :: 0 < p < |m.refs| ==> m.refs[p] <= MAX_REFS
  {
  }

  // ---------------------------------------------------------------- what the objects mean

  ghost function Read(o: Slots, m: Memory, i: nat): Page
    requires i < |o.pages|
  {
    if 0 < o.pages[i] < |m.data| then m.data[o.pages[i]] else ZERO_PAGE
  }

  ghost function Values(o: Slots, m: Memory): seq<Page> {
    seq(|o.pages|, i requires 0 <= i < |o.pages| => Read(o, m, i))
  }

  /** Every object as an independent array of pages. */
  ghost function Meaning(objs: Objects, m: Memory): map<nat, seq<Page>> {
    map id | id in objs :: Values(objs[id], m)
  }

  // ---------------------------------------------------------------- one slot gets a page of its own

  /** Page p loses one reference, and goes back to the allocator with the last one unless it is reserved. */
  ghost function Dropped(m: Memory, p: nat): Memory
    requires p < |m.refs| && m.refs[p] > 0
  {
    m.(refs := m.refs[p := m.refs[p] - 1], free := if m.refs[p] == 1 && p !in m.reserved then m.free + {p} else m.free)
  }

  /** Page q is handed out. On the way the allocator may set the reserved flag of one page s, 0 for none, and it
      clears that of q. */
  ghost function Taken(m: Memory, q: nat, content: Page, s: nat): Memory
    requires q < |m.refs| == |m.data|
  {
    Memory(m.refs[q := 1], m.data[q := content], m.free - {q}, Struck(m.reserved, s) - {q})
  }

  function Struck(reserved: set<nat>, s: nat): set<nat> { if s == 0 then reserved else reserved + {s} }

  /** Slot i of the object stops naming its page, if any, and names the fresh page q instead. */
  ghost function Settled(m: Memory, p: nat, q: nat, content: Page, s: nat): Memory
    requires q < |m.refs| == |m.data| && p < |m.refs| && (p != 0 ==> p != q && m.refs[p] > 0)
  {
    if p == 0 then Taken(m, q, content, s) else Dropped(Taken(m, q, content, s), p)
  }

  ghost function Private(objs: Objects, id: nat, i: nat, q: nat): Objects
    requires id in objs && i < |objs[id].pages| == |objs[id].cow|
  {
    objs[id := Slots(objs[id].pages[i := q], objs[id].cow[i := false])]
  }

  lemma {:induction false} HoldersPrivate(objs: Objects, id: nat, i: nat, q: nat, p: nat)
    requires id in objs && i < |objs[id].pages| == |objs[id].cow| && q != objs[id].pages[i]
    ensures p == q ==> Holders(Private(objs, id, i, q), p) == Holders(objs, p) + {(id, i)} && (id, i) !in Holders(objs, p)
    ensures p == objs[id].pages[i] ==> Holders(Private(objs, id, i, q), p) == Holders(objs, p) - {(id, i)} && (id, i) in Holders(objs, p)
    ensures p != q && p != objs[id].pages[i] ==> Holders(Private(objs, id, i, q), p) == Holders(objs, p)
  {
    var objs' := Private(objs, id, i, q);
    forall a: nat, j: nat | (a, j) != (id, i) ensures Names(objs', a, j, p) <==> Names(objs, a, j, p) {
    }
    assert Names(objs', id, i, p) <==> p == q;
    assert Names(objs, id, i, p) <==> p == objs[id].pages[i];
    HoldersAre(objs, p);
    HoldersAre(objs', p);
  }

  lemma {:induction false} HoldersAre(objs: Objects, p: nat)
    ensures forall a: nat, j: nat :: (a, j) in Holders(objs, p) <==> Names(objs, a, j, p)
  {
  }

  /** A page nobody references is in no slot. */
  lemma {:induction false} FreeUnnamed(objs: Objects, m: Memory, q: nat, a: nat, j: nat)
    requires Inv(objs, m) && q in m.free
    ensures !Names(objs, a, j, q)
  {
    HoldersAre(objs, q);
    assert Holders(objs, q) == {};
  }

  lemma {:induction false} PrivateCounted(objs: Objects, m: Memory, id: nat, i: nat, q: nat, content: Page, s: nat)
    requires Inv(objs, m) && id in objs && i < |objs[id].pages| && q in m.free
    requires Ready(objs[id], m, i, q)
    ensures Counted(Private(objs, id, i, q), Settled(m, objs[id].pages[i], q, content, s))
  {
    var objs', m' := Private(objs, id, i, q), Settled(m, objs[id].pages[i], q, content, s);
    FreeUnnamed(objs, m, q, id, i);
    forall p | 0 < p < |m'.refs| ensures m'.refs[p] == |Holders(objs', p)| <= MAX_REFS {
      HoldersPrivate(objs, id, i, q, p);
    }
  }

  lemma {:induction false} SettledSound(m: Memory, p: nat, q: nat, content: Page, s: nat)
    requires Sound(m) && q in m.free && p < |m.refs| && (p != 0 ==> p != q && m.refs[p] > 0)
    ensures Sound(Settled(m, p, q, content, s))
  {
  }

  lemma {:induction false} PrivateExclusive(objs: Objects, m: Memory, id: nat, i: nat, q: nat)
    requires Inv(objs, m) && id in objs && i < |objs[id].pages| && q in m.free
    ensures Exclusive(Private(objs, id, i, q))
  {
    var objs' := Private(objs, id, i, q);
    forall p: nat, a: nat, k: nat, b: nat, j: nat | p != 0 && Names(objs', a, k, p) && Names(objs', b, j, p) && !objs'[a].cow[k] ensures a == b && k == j {
      FreeUnnamed(objs, m, q, a, k);
      FreeUnnamed(objs, m, q, b, j);
      if (a, k) != (id, i) { assert Names(objs, a, k, p); }
      if (b, j) != (id, i) { assert Names(objs, b, j, p); }
    }
  }

  lemma {:induction false} PrivateReads(objs: Objects, m: Memory, id: nat, i: nat, q: nat, s: nat, a: nat)
    requires Inv(objs, m) && id in objs && i < |objs[id].pages| && q in m.free && a in objs
    requires Ready(objs[id], m, i, q)
    ensures
      var o', m' := Private(objs, id, i, q)[a], Settled(m, objs[id].pages[i], q, Read(objs[id], m, i), s);
      WellFormed(o', m') && Values(o', m') == Values(objs[a], m)
  {
    var o', m' := Private(objs, id, i, q)[a], Settled(m, objs[id].pages[i], q, Read(objs[id], m, i), s);
    assert WellFormed(objs[a], m);
    forall j | 0 <= j < |objs[a].pages| ensures objs[a].pages[j] != q && Read(o', m', j) == Read(objs[a], m, j) {
      FreeUnnamed(objs, m, q, a, j);
    }
  }

  /** Fault-in and copy-on-write resolution: the invariant holds again and no object reads differently. */
  lemma {:induction false} SettleKeeps(objs: Objects, m: Memory, id: nat, i: nat, q: nat, s: nat)
    requires Inv(objs, m) && id in objs && i < |objs[id].pages| && q in m.free
    ensures Ready(objs[id], m, i, q)
    ensures
      var objs', m' := Private(objs, id, i, q), Settled(m, objs[id].pages[i], q, Read(objs[id], m, i), s);
      Inv(objs', m') && Meaning(objs', m') == Meaning(objs, m)
  {
    FreeUnnamed(objs, m, q, id, i);
    if objs[id].pages[i] != 0 { NamedCounts(objs, m, id, i); }
    var objs', m' := Private(objs, id, i, q), Settled(m, objs[id].pages[i], q, Read(objs[id], m, i), s);
    PrivateCounted(objs, m, id, i, q, Read(objs[id], m, i), s);
    SettledSound(m, objs[id].pages[i], q, Read(objs[id], m, i), s);
    PrivateExclusive(objs, m, id, i, q);
    forall a | a in objs' ensures WellFormed(objs'[a], m') && Values(objs'[a], m') == Values(objs[a], m) {
      PrivateReads(objs, m, id, i, q, s, a);
    }
  }

  ghost predicate Ready(o: Slots, m: Memory, i: nat, q: nat) {
    && i < |o.pages| == |o.cow| && q < |m.refs| == |m.data| && o.pages[i] < |m.refs|
    && (o.pages[i] != 0 ==> o.pages[i] != q && m.refs[o.pages[i]] > 0)
  }

  /** A slot that names a page accounts for one of its references. */
  lemma {:induction false} NamedCounts(objs: Objects, m: Memory, id: nat, i: nat)
    requires Inv(objs, m) && id in objs && i < |objs[id].pages| && objs[id].pages[i] != 0
    ensures m.refs[objs[id].pages[i]] > 0 && objs[id].pages[i] < |m.refs|
  {
    var p := objs[id].pages[i];
    assert WellFormed(objs[id], m);
    HoldersAre(objs, p);
    assert Names(objs, id, i, p);
    assert (id, i) in Holders(objs, p);
  }

  // ---------------------------------------------------------------- a store to a page of one's own

  /** A store through a committed slot that is not copy-on-write changes that page of that object and nothing else. */
  lemma {:induction false} StoreKeeps(objs: Objects, m: Memory, id: nat, i: nat, content: Page)
    requires Inv(objs, m) && id in objs && i < |objs[id].pages| && objs[id].pages[i] != 0 && !objs[id].cow[i]
    ensures objs[id].pages[i] < |m.data| && id in Meaning(objs, m)
    ensures
      var m' := m.(data := m.data[objs[id].pages[i] := content]);
      var v: seq<Page> := Meaning(objs, m)[id];
      Inv(objs, m') && i < |v| && v[i] == m.data[objs[id].pages[i]] && Meaning(objs, m') == Meaning(objs, m)[id := v[i := content]]
  {
    NamedCounts(objs, m, id, i);
    var p := objs[id].pages[i];
    var m' := m.(data := m.data[p := content]);
    assert Names(objs, id, i, p);
    forall a | a in objs ensures WellFormed(objs[a], m') {
      assert WellFormed(objs[a], m);
    }
    forall a, j | a in objs && 0 <= j < |objs[a].pages| && (a, j) != (id, i) ensures Read(objs[a], m', j) == Read(objs[a], m, j) {
      assert Names(objs, a, j, objs[a].pages[j]);
    }
    assert Values(objs[id], m') == Values(objs[id], m)[i := content];
    forall a | a in objs && a != id ensures Values(objs[a], m') == Values(objs[a], m) {
    }
  }

  /** What a committed slot reads as. */
  lemma {:induction false} LoadReads(objs: Objects, m: Memory, id: nat, i: nat)
    requires Inv(objs, m) && id in objs && i < |objs[id].pages| && objs[id].pages[i] != 0
    ensures objs[id].pages[i] < |m.data| && id in Meaning(objs, m) && i < |Meaning(objs, m)[id]|
    ensures Meaning(objs, m)[id][i] == m.data[objs[id].pages[i]]
  {
    NamedCounts(objs, m, id, i);
  }

  // ---------------------------------------------------------------- a whole object comes or goes

  ghost function Uses(o: Slots, p: nat): nat { if p != 0 && p in o.pages then 1 else 0 }

  /** How many of the first n slots name p: none or one. */
  ghost function Hits(pages: seq<nat>, n: nat, p: nat): nat
    requires n <= |pages|
  {
    if p != 0 && p in pages[..n] then 1 else 0
  }

  /** The counters after the first n slots have each added d to that of their page. */
  ghost function Shifted(refs: seq<nat>, pages: seq<nat>, n: nat, d: int): seq<int>
    requires n <= |pages|
  {
    seq(|refs|, p requires 0 <= p < |refs| => refs[p] + d * Hits(pages, n, p))
  }

  lemma {:induction false} ShiftStep(refs: seq<nat>, pages: seq<nat>, n: nat, d: int)
    requires n < |pages| && Distinct(pages) && pages[n] < |refs|
    ensures pages[n] == 0 ==> Shifted(refs, pages, n + 1, d) == Shifted(refs, pages, n, d)
    ensures pages[n] != 0 ==> Shifted(refs, pages, n, d)[pages[n]] == refs[pages[n]]
    ensures pages[n] != 0 ==> Shifted(refs, pages, n + 1, d) == Shifted(refs, pages, n, d)[pages[n] := refs[pages[n]] + d]
  {
    assert pages[..n + 1] == pages[..n] + [pages[n]];
  }

  lemma {:induction false} ShiftAll(refs: seq<nat>, o: Slots, d: int)
    ensures Shifted(refs, o.pages, 0, d) == refs
    ensures Shifted(refs, o.pages, |o.pages|, d) == seq(|refs|, p requires 0 <= p < |refs| => refs[p] + d * Uses(o, p))
  {
    assert o.pages[..|o.pages|] == o.pages;
  }

  /** The slots of the one object that name p: at most one. */
  ghost function Own(id: nat, o: Slots, p: nat): set<(nat, nat)> {
    if p in o.pages then (var i: nat :| i < |o.pages| && o.pages[i] == p; {(id, i)}) else {}
  }

  lemma {:induction false} OwnNames(objs: Objects, id: nat, o: Slots, p: nat, j: nat)
    requires id in objs && objs[id] == o && Distinct(o.pages) && p != 0
    ensures Names(objs, id, j, p) <==> (id, j) in Own(id, o, p)
  {
  }

  /** Adding an object adds one holder to each page it names. */
  lemma {:induction false} HoldersAdd(objs: Objects, id: nat, o: Slots, p: nat)
    requires id !in objs && Distinct(o.pages) && p != 0
    ensures |Holders(objs[id := o], p)| == |Holders(objs, p)| + Uses(o, p)
  {
    var objs' := objs[id := o];
    HoldersAre(objs, p);
    HoldersAre(objs', p);
    forall a: nat, j: nat ensures (a, j) in Holders(objs', p) <==> (a, j) in Holders(objs, p) + Own(id, o, p) {
      if a == id { OwnNames(objs', id, o, p, j); }
      assert a != id ==> (Names(objs', a, j, p) <==> Names(objs, a, j, p));
    }
    assert Holders(objs', p) == Holders(objs, p) + Own(id, o, p);
    assert Holders(objs, p) !! Own(id, o, p);
  }

  /** Removing it takes that holder away. */
  lemma {:induction false} HoldersRemove(objs: Objects, id: nat, p: nat)
    requires id in objs && Distinct(objs[id].pages) && p != 0
    ensures |Holders(objs, p)| == |Holders(objs - {id}, p)| + Uses(objs[id], p)
  {
    var rest := objs - {id};
    assert rest[id := objs[id]] == objs;
    HoldersAdd(rest, id, objs[id], p);
  }

  /** Marking slots changes no holder. */
  lemma {:induction false} HoldersMark(objs: Objects, id: nat, cow: seq<bool>, p: nat)
    requires id in objs
    ensures Holders(objs[id := objs[id].(cow := cow)], p) == Holders(objs, p)
  {
    var objs' := objs[id := objs[id].(cow := cow)];
    HoldersAre(objs, p);
    HoldersAre(objs', p);
    forall a: nat, j: nat ensures Names(objs', a, j, p) <==> Names(objs, a, j, p) {
    }
  }

  // Clone.

  ghost function Marked(o: Slots): Slots { o.(cow := seq(|o.pages|, i requires 0 <= i < |o.pages| => o.pages[i] != 0)) }

  lemma MarkedAgain(o: Slots)
    ensures Marked(NewSlots(o.pages)) == Marked(o) && Marked(o).pages == o.pages
  {
  }

  ghost function Referenced(m: Memory, o: Slots): Memory {
    m.(refs := seq(|m.refs|, p requires 0 <= p < |m.refs| => m.refs[p] + Uses(o, p)))
  }

  ghost function Cloned(objs: Objects, id: nat, copy: nat): Objects
    requires id in objs
  {
    objs[id := Marked(objs[id])][copy := Marked(objs[id])]
  }

  /** A fault on slot i takes a page from the allocator: the slot is empty, or shared and about to be written. */
  ghost predicate NeedsPage(o: Slots, i: nat, write: bool) {
    i < |o.pages| && i < |o.cow| && (o.pages[i] == 0 || (write && o.cow[i]))
  }

  /** Some page of the object already has as many references as its counter can hold. */
  ghost predicate Saturated(o: Slots, m: Memory) { SaturatedUpTo(o.pages, m.refs, |o.pages|) }

  ghost predicate SaturatedUpTo(pages: seq<nat>, refs: seq<nat>, n: nat)
    requires n <= |pages|
  {
    exists i :: 0 <= i < n && 0 < pages[i] < |refs| && refs[pages[i]] == MAX_REFS
  }

  ghost function MarkedUpTo(o: Slots, n: nat): seq<bool>
    requires n <= |o.pages| == |o.cow|
  {
    seq(|o.pages|, i requires 0 <= i < |o.pages| => if i < n then o.pages[i] != 0 else o.cow[i])
  }

  /** One more slot marked and counted. */
  lemma {:induction false} MarkStep(o: Slots, m: Memory, n: nat)
    requires WellFormed(o, m) && n < |o.pages|
    ensures MarkedUpTo(o, n + 1) == if o.pages[n] == 0 then MarkedUpTo(o, n) else MarkedUpTo(o, n)[n := true]
    ensures SaturatedUpTo(o.pages, m.refs, n + 1) <==>
      SaturatedUpTo(o.pages, m.refs, n) || (o.pages[n] != 0 && m.refs[o.pages[n]] == MAX_REFS)
    ensures SaturatedUpTo(o.pages, m.refs, n + 1) ==> Saturated(o, m)
  {
  }

  lemma {:induction false} MarkAll(o: Slots, m: Memory)
    requires WellFormed(o, m)
    ensures MarkedUpTo(o, 0) == o.cow && MarkedUpTo(o, |o.pages|) == Marked(o).cow
    ensures !SaturatedUpTo(o.pages, m.refs, 0)
  {
  }

  /** Memory after the first n slots have referenced their pages once more. */
  ghost function ReferencedUpTo(m: Memory, o: Slots, n: nat): Memory
    requires n <= |o.pages|
  {
    m.(refs := Shifted(m.refs, o.pages, n, 1))
  }

  lemma {:induction false} CowStep(o: Slots, m: Memory, n: nat)
    requires WellFormed(o, m) && n < |o.pages| && forall p :: 0 < p < |m.refs| ==> m.refs[p] <= MAX_REFS
    ensures var p, m1, marks := o.pages[n], ReferencedUpTo(m, o, n), MarkedUpTo(o, n);
      if p == 0 then
        && ReferencedUpTo(m, o, n + 1) == m1 && MarkedUpTo(o, n + 1) == marks
        && (SaturatedUpTo(o.pages, m.refs, n + 1) <==> SaturatedUpTo(o.pages, m.refs, n))
      else
        && p < |m1.refs| && m1.refs[p] <= MAX_REFS && ReferencedUpTo(m, o, n + 1) == m1.(refs := m1.refs[p := m1.refs[p] + 1])
        && n < |marks| && MarkedUpTo(o, n + 1) == marks[n := true]
        && (SaturatedUpTo(o.pages, m.refs, n + 1) <==> SaturatedUpTo(o.pages, m.refs, n) || m1.refs[p] == MAX_REFS)
    ensures SaturatedUpTo(o.pages, m.refs, n + 1) ==> Saturated(o, m)
  {
    ShiftStep(m.refs, o.pages, n, 1);
    MarkStep(o, m, n);
  }

  lemma {:induction false} CowEnds(o: Slots, m: Memory)
    requires WellFormed(o, m)
    ensures |o.cow| == |o.pages| && ReferencedUpTo(m, o, 0) == m && ReferencedUpTo(m, o, |o.pages|) == Referenced(m, o)
    ensures MarkedUpTo(o, 0) == o.cow && Marked(o) == Slots(o.pages, MarkedUpTo(o, |o.pages|))
    ensures !SaturatedUpTo(o.pages, m.refs, 0)
  {
    ShiftAll(m.refs, o, 1);
    MarkAll(o, m);
  }

  lemma {:induction false} CloneExclusive(objs: Objects, id: nat, copy: nat)
    requires Exclusive(objs) && id in objs && copy !in objs
    ensures Exclusive(Cloned(objs, id, copy))
  {
    var objs' := Cloned(objs, id, copy);
    forall p: nat, a: nat, i: nat, b: nat, j: nat
      | p != 0 && Names(objs', a, i, p) && Names(objs', b, j, p) && i < |objs'[a].cow| && !objs'[a].cow[i]
      ensures a == b && i == j
    {
      assert Names(objs, a, i, p);
      assert Names(objs, if b == copy then id else b, j, p);
    }
  }

  lemma {:induction false} CloneCounted(objs: Objects, m: Memory, id: nat, copy: nat)
    requires Inv(objs, m) && id in objs && copy !in objs && !Saturated(objs[id], m)
    ensures Sound(Referenced(m, objs[id])) && Counted(Cloned(objs, id, copy), Referenced(m, objs[id]))
  {
    var o := objs[id];
    assert WellFormed(o, m);
    forall p | 0 < p < |m.refs| ensures Referenced(m, o).refs[p] == |Holders(Cloned(objs, id, copy), p)| <= MAX_REFS {
      HoldersMark(objs, id, Marked(o).cow, p);
      HoldersAdd(objs[id := Marked(o)], copy, Marked(o), p);
    }
    forall p | 0 < p < |m.refs| && m.refs[p] == 0 ensures Uses(o, p) == 0 {
      Unused(objs, m, id, p);
    }
  }

  lemma {:induction false} CloneReads(objs: Objects, m: Memory, id: nat, a: nat)
    requires Inv(objs, m) && id in objs && a in objs
    ensures var o, m' := objs[a], Referenced(m, objs[id]);
      && WellFormed(o, m') && WellFormed(Marked(o), m')
      && Values(o, m') == Values(o, m) && Values(Marked(o), m') == Values(o, m)
  {
    assert WellFormed(objs[a], m);
  }

  /** Cloning: the copy reads as the original does, and every other object as before. */
  lemma {:induction false} CloneKeeps(objs: Objects, m: Memory, id: nat, copy: nat)
    requires Inv(objs, m) && id in objs && copy !in objs && !Saturated(objs[id], m)
    ensures
      var objs', m' := Cloned(objs, id, copy), Referenced(m, objs[id]);
      Inv(objs', m') && id in Meaning(objs, m) && Meaning(objs', m') == Meaning(objs, m)[copy := Meaning(objs, m)[id]]
  {
    var objs', m' := Cloned(objs, id, copy), Referenced(m, objs[id]);
    CloneExclusive(objs, id, copy);
    CloneCounted(objs, m, id, copy);
    forall a | a in objs' ensures WellFormed(objs'[a], m') && Values(objs'[a], m') == Values(objs[if a == copy then id else a], m) {
      CloneReads(objs, m, id, if a == copy then id else a);
    }
  }

  lemma {:induction false} Unused(objs: Objects, m: Memory, id: nat, p: nat)
    requires Inv(objs, m) && id in objs && p < |m.refs| && m.refs[p] == 0
    ensures Uses(objs[id], p) == 0
  {
    assert WellFormed(objs[id], m);
    if p != 0 { HoldersRemove(objs, id, p); }
  }

  // Destruction.

  ghost predicate AllHeld(m: Memory, o: Slots) { forall p :: 0 < p < |m.refs| && p in o.pages ==> m.refs[p] > 0 }

  ghost function Released(m: Memory, o: Slots): Memory
    requires AllHeld(m, o)
  {
    m.(refs := seq(|m.refs|, p requires 0 <= p < |m.refs| => m.refs[p] - Uses(o, p)), free := m.free + LastUses(m, o, |o.pages|))
  }

  /** Memory after the first n slots have dropped their references. */
  ghost function ReleasedUpTo(m: Memory, o: Slots, n: nat): Memory
    requires AllHeld(m, o) && n <= |o.pages|
  {
    m.(refs := Shifted(m.refs, o.pages, n, -1), free := m.free + LastUses(m, o, n))
  }

  lemma {:induction false} LastUsesStep(m: Memory, o: Slots, n: nat)
    requires n < |o.pages| && Distinct(o.pages) && o.pages[n] < |m.refs|
    ensures var p := o.pages[n]; p != 0 ==> p !in LastUses(m, o, n)
    ensures var p := o.pages[n];
      LastUses(m, o, n + 1) == LastUses(m, o, n) + if p != 0 && m.refs[p] == 1 && p !in m.reserved then {p} else {}
  {
    assert o.pages[..n + 1] == o.pages[..n] + [o.pages[n]];
  }

  lemma {:induction false} ReleaseStep(m: Memory, o: Slots, n: nat)
    requires Sound(m) && AllHeld(m, o) && WellFormed(o, m) && n < |o.pages|
    ensures var p, m1 := o.pages[n], ReleasedUpTo(m, o, n);
      if p == 0 then ReleasedUpTo(m, o, n + 1) == m1
      else p < |m1.refs| && m1.refs[p] > 0 && p !in m1.free && ReleasedUpTo(m, o, n + 1) == Dropped(m1, p)
  {
    ShiftStep(m.refs, o.pages, n, -1);
    LastUsesStep(m, o, n);
  }

  lemma {:induction false} ReleaseAll(m: Memory, o: Slots)
    requires AllHeld(m, o)
    ensures ReleasedUpTo(m, o, 0) == m && ReleasedUpTo(m, o, |o.pages|) == Released(m, o)
  {
    ShiftAll(m.refs, o, -1);
  }

  /** The pages whose last reference is one of the first n slots, without the reserved ones. */
  ghost function LastUses(m: Memory, o: Slots, n: nat): set<nat>
    requires n <= |o.pages|
  {
    set p | p in o.pages[..n] && 0 < p < |m.refs| && m.refs[p] == 1 && p !in m.reserved
  }

  lemma {:induction false} RemoveExclusive(objs: Objects, id: nat)
    requires Exclusive(objs)
    ensures Exclusive(objs - {id})
  {
    forall p: nat, a: nat, i: nat | Names(objs - {id}, a, i, p) ensures Names(objs, a, i, p) {
    }
  }

  lemma {:induction false} UsedPositive(objs: Objects, m: Memory, id: nat)
    requires Inv(objs, m) && id in objs
    ensures AllHeld(m, objs[id])
  {
    forall p | 0 < p < |m.refs| && p in objs[id].pages ensures m.refs[p] > 0 {
      var i :| 0 <= i < |objs[id].pages| && objs[id].pages[i] == p;
      NamedCounts(objs, m, id, i);
    }
  }

  lemma {:induction false} DestroyCounted(objs: Objects, m: Memory, id: nat)
    requires Inv(objs, m) && id in objs && AllHeld(m, objs[id])
    ensures Sound(Released(m, objs[id])) && Counted(objs - {id}, Released(m, objs[id]))
  {
    var o := objs[id];
    assert WellFormed(o, m);
    forall p | 0 < p < |m.refs| ensures Released(m, o).refs[p] == |Holders(objs - {id}, p)| <= MAX_REFS {
      HoldersRemove(objs, id, p);
    }
    assert o.pages[..|o.pages|] == o.pages;
  }

  /** Destruction: the other objects read as before, and exactly the unreserved pages that only this object held become free. */
  lemma {:induction false} DestroyKeeps(objs: Objects, m: Memory, id: nat)
    requires Inv(objs, m) && id in objs
    ensures AllHeld(m, objs[id])
    ensures
      var objs', m' := objs - {id}, Released(m, objs[id]);
      Inv(objs', m') && Meaning(objs', m') == Meaning(objs, m) - {id}
  {
    UsedPositive(objs, m, id);
    DestroyCounted(objs, m, id);
    RemoveExclusive(objs, id);
    var objs', m' := objs - {id}, Released(m, objs[id]);
    forall a | a in objs' ensures WellFormed(objs'[a], m') && Values(objs'[a], m') == Values(objs[a], m) {
      assert WellFormed(objs[a], m);
    }
  }

  /** The pages that only the given object holds. */
  ghost function SoleUses(objs: Objects, id: nat): set<nat>
    requires id in objs
  {
    set p | p in objs[id].pages && p != 0 && Holders(objs - {id}, p) == {}
  }

  /** Of the pages that only this object holds, destruction frees the unreserved ones and leaks the reserved ones. */
  lemma {:induction false} DestroyFrees(objs: Objects, m: Memory, id: nat)
    requires Inv(objs, m) && id in objs && AllHeld(m, objs[id])
    ensures var m', sole := Released(m, objs[id]), SoleUses(objs, id);
      m'.reserved == m.reserved && m'.free == m.free + (sole - m.reserved) && Leaked(m') == Leaked(m) + (sole * m.reserved)
  {
    var o, m', sole := objs[id], Released(m, objs[id]), SoleUses(objs, id);
    assert WellFormed(o, m) && o.pages[..|o.pages|] == o.pages;
    forall p | 0 < p < |m.refs| ensures p in sole <==> p in o.pages && m.refs[p] == 1 {
      HoldersRemove(objs, id, p);
    }
    assert forall p :: p in m.free ==> p !in sole;
  }

  // Creation.

  /** The pages handed out and zeroed; `reserved` is what the flags are then. */
  ghost function Stocked(m: Memory, pages: seq<nat>, reserved: set<nat>): Memory
    requires |m.data| == |m.refs|
  {
    Memory(seq(|m.refs|, p requires 0 <= p < |m.refs| => if p != 0 && p in pages then 1 else m.refs[p]),
           seq(|m.data|, p requires 0 <= p < |m.data| => if p != 0 && p in pages then ZERO_PAGE else m.data[p]),
           m.free - (set p | p in pages && p != 0), reserved)
  }

  ghost predicate Fresh(m: Memory, pages: seq<nat>) {
    Distinct(pages) && forall i :: 0 <= i < |pages| ==> pages[i] == 0 || pages[i] in m.free
  }

  lemma StockedIs(m: Memory, pages: seq<nat>, m': Memory)
    requires Sound(m) && Picked(m, pages) && |m'.data| == |m.data|
    requires m'.refs == Stocked(m, pages, {}).refs && m'.free == Stocked(m, pages, {}).free
    requires forall p :: 0 <= p < |m.data| ==> m'.data[p] == if p in pages then ZERO_PAGE else m.data[p]
    ensures m' == Stocked(m, pages, m'.reserved)
  {
  }

  lemma StockedNone(m: Memory, pages: seq<nat>)
    requires Sound(m) && forall i :: 0 <= i < |pages| ==> pages[i] == 0
    ensures Stocked(m, pages, m.reserved) == m && Fresh(m, pages) && StillReserved(m, pages, m.reserved)
  {
  }

  /** Flags are cleared only for the pages handed out. */
  ghost predicate StillReserved(m: Memory, pages: seq<nat>, r: set<nat>) { forall p :: p in m.reserved ==> p in r || p in pages }

  ghost predicate Picked(m: Memory, pages: seq<nat>) { Fresh(m, pages) && 0 !in pages }

  lemma {:induction false} StockOne(m: Memory, pages: seq<nat>, p: nat, r: set<nat>)
    requires Sound(m) && Picked(m, pages) && p in Stocked(m, pages, r).free
    ensures Picked(m, pages + [p])
    ensures Stocked(m, pages + [p], r).refs == Stocked(m, pages, r).refs[p := 1]
    ensures Stocked(m, pages + [p], r).free == Stocked(m, pages, r).free - {p}
  {
  }

  ghost function Zeros(n: nat): seq<Page> { seq<Page>(n, _ => ZERO_PAGE) }

  ghost function NewSlots(pages: seq<nat>): Slots { Slots(pages, seq(|pages|, _ => false)) }

  lemma {:induction false} CreateExclusive(objs: Objects, m: Memory, id: nat, pages: seq<nat>)
    requires Inv(objs, m) && id !in objs && Fresh(m, pages)
    ensures Exclusive(objs[id := NewSlots(pages)])
  {
    var objs' := objs[id := NewSlots(pages)];
    forall p: nat, a: nat, i: nat, b: nat, j: nat
      | p != 0 && Names(objs', a, i, p) && Names(objs', b, j, p) && i < |objs'[a].cow| && !objs'[a].cow[i]
      ensures a == b && i == j
    {
      if a != id { assert Names(objs, a, i, p); }
      if b != id { assert Names(objs, b, j, p); }
      if p in m.free { FreeUnnamed(objs, m, p, a, i); FreeUnnamed(objs, m, p, b, j); }
    }
  }

  lemma {:induction false} CreateReads(objs: Objects, m: Memory, pages: seq<nat>, r: set<nat>, a: nat)
    requires Inv(objs, m) && a in objs && Fresh(m, pages)
    ensures WellFormed(objs[a], Stocked(m, pages, r)) && Values(objs[a], Stocked(m, pages, r)) == Values(objs[a], m)
  {
    assert WellFormed(objs[a], m);
    forall j | 0 <= j < |objs[a].pages| ensures Read(objs[a], Stocked(m, pages, r), j) == Read(objs[a], m, j) {
      if objs[a].pages[j] in m.free { FreeUnnamed(objs, m, objs[a].pages[j], a, j); }
    }
  }

  lemma {:induction false} CreateCounted(objs: Objects, m: Memory, id: nat, pages: seq<nat>, r: set<nat>)
    requires Inv(objs, m) && id !in objs && Fresh(m, pages) && StillReserved(m, pages, r)
    ensures Sound(Stocked(m, pages, r)) && Counted(objs[id := NewSlots(pages)], Stocked(m, pages, r))
  {
    var m' := Stocked(m, pages, r);
    StockedSound(m, pages, r);
    forall p | 0 < p < |m.refs| ensures m'.refs[p] == |Holders(objs[id := NewSlots(pages)], p)| <= MAX_REFS {
      HoldersAdd(objs, id, NewSlots(pages), p);
    }
  }

  lemma {:induction false} StockedSound(m: Memory, pages: seq<nat>, r: set<nat>)
    requires Sound(m) && Fresh(m, pages) && StillReserved(m, pages, r)
    ensures Sound(Stocked(m, pages, r))
  {
    var m' := Stocked(m, pages, r);
    forall p | 0 < p < |m'.refs| && m'.refs[p] == 0 ensures p in m'.free || p in m'.reserved {
      assert m.refs[p] == 0 && p !in pages;
    }
    forall p | p in m'.free ensures 0 < p < |m'.refs| && m'.refs[p] == 0 {
      assert p in m.free && p !in pages;
    }
  }

  /** Creation: the new object reads as zeros, and every other object as before. */
  lemma {:induction false} CreateKeeps(objs: Objects, m: Memory, id: nat, pages: seq<nat>, r: set<nat>)
    requires Inv(objs, m) && id !in objs && Fresh(m, pages) && StillReserved(m, pages, r)
    ensures
      var objs', m' := objs[id := NewSlots(pages)], Stocked(m, pages, r);
      Inv(objs', m') && Meaning(objs', m') == Meaning(objs, m)[id := Zeros(|pages|)]
  {
    var o := NewSlots(pages);
    var m' := Stocked(m, pages, r);
    CreateExclusive(objs, m, id, pages);
    CreateCounted(objs, m, id, pages, r);
    forall a | a in objs ensures WellFormed(objs[a], m') && Values(objs[a], m') == Values(objs[a], m) {
      CreateReads(objs, m, pages, r, a);
    }
    assert WellFormed(o, m');
    assert Values(o, m') == Zeros(|pages|);
  }

  // ---------------------------------------------------------------- the physical pages

  function Numbers(n: nat): (s: set<nat>)
    ensures forall p :: p in s <==> 0 < p < n
  {
    if n <= 1 then {} else Numbers(n - 1) + {n - 1}
  }

  class PhysicalMemory {
    var refs: seq<nat>
    var data: seq<Page>
    var free: set<nat>
    var reserved: set<nat>

    ghost function View(): Memory
      reads this
    {
      Memory(refs, data, free, reserved)
    }

    constructor (n: nat)
      requires n > 0
      ensures Sound(View()) && |refs| == n && free == Numbers(n) && reserved == {}
    {
      refs, data, free, reserved := seq(n, _ => 0), seq<Page>(n, _ => ZERO_PAGE), Numbers(n), {};
    }

    /** Hands out a page with one reference and unspecified contents. With none left the kernel panics: `None`.
        Which page it is, and whose flag is set by the write in front of a zone, is up to the zones. */
    method AllocPhysicalPage() returns (r: Option<nat>, s: nat)
      requires Sound(View())
      modifies this
      ensures r.None? <==> old(free) == {}
      ensures r.None? ==> View() == old(View())
      ensures r.Some? ==> r.value in old(free) && View() == Taken(old(View()), r.value, old(data)[r.value], s)
    {
      if free == {} {
        return None, 0;
      }
      var p :| p in free;
      s := *;
      refs, free, reserved := refs[p := 1], free - {p}, Struck(reserved, s) - {p};
      r := Some(p);
    }

    /** One more reference; the kernel panics when the counter would wrap. */
    method Ref(p: nat) returns (ok: bool)
      requires p < |refs| && refs[p] <= MAX_REFS
      modifies this`refs
      ensures ok <==> old(refs[p]) < MAX_REFS
      ensures refs == if ok then old(refs)[p := old(refs[p]) + 1] else old(refs)
    {
      ok := refs[p] != MAX_REFS;
      if ok { refs := refs[p := refs[p] + 1]; }
    }

    /** One reference less. With the last one the page is free if and only if it is not reserved; otherwise it leaks. */
    method Unref(p: nat)
      requires 0 < p < |refs| && refs[p] > 0 && p !in free
      modifies this`refs, this`free
      ensures View() == Dropped(old(View()), p)
      ensures p in free <==> old(refs[p]) == 1 && p !in reserved
      ensures p in Leaked(View()) <==> old(refs[p]) == 1 && p in reserved
    {
      refs := refs[p := refs[p] - 1];
      if refs[p] == 0 && p !in reserved { free := free + {p}; }
    }
  }

  // ---------------------------------------------------------------- one object

  /** The number of slots that hold a page. */
  ghost function CommittedSlots(pages: seq<nat>): nat {
    if pages == [] then 0 else CommittedSlots(pages[..|pages| - 1]) + if pages[|pages| - 1] != 0 then 1 else 0
  }

  lemma {:induction false} CommittedAll(pages: seq<nat>)
    ensures CommittedSlots(pages) <= |pages|
    ensures CommittedSlots(pages) == |pages| <==> 0 !in pages
    ensures (forall i :: 0 <= i < |pages| ==> pages[i] == 0) ==> CommittedSlots(pages) == 0
  {
    if pages != [] {
      var n := |pages| - 1;
      CommittedAll(pages[..n]);
      assert pages == pages[..n] + [pages[n]];
    }
  }

  lemma {:induction false} CommittedStep(pages: seq<nat>, i: nat, q: nat)
    requires i < |pages| && q != 0
    ensures CommittedSlots(pages[i := q]) == CommittedSlots(pages) + if pages[i] == 0 then 1 else 0
  {
    var n := |pages| - 1;
    if i < n {
      CommittedStep(pages[..n], i, q);
      assert pages[i := q][..n] == pages[..n][i := q];
    } else {
      assert pages[i := q][..n] == pages[..n];
    }
  }

  datatype Outcome =
    | Done
    | Invalid
    | Halt    // the kernel panics
    | Asserts // the index check of the slot array fails

  class VMObject {
    var pages: seq<nat>
    var cow: seq<bool>
    var committed: nat

    ghost function View(): Slots
      reads this
    {
      Slots(pages, cow)
    }

    /** By how much the counter of committed pages is too high. */
    ghost function Excess(): int
      reads this`pages, this`committed
    {
      committed - CommittedSlots(pages)
    }

    /** An object over the given pages. The counter counts every slot, so it is right if and only if none is empty. */
    constructor Over(pages: seq<nat>, allCow: bool)
      ensures this.pages == pages && Excess() >= 0 && (Excess() == 0 <==> 0 !in pages)
      ensures View() == if allCow then Marked(NewSlots(pages)) else NewSlots(pages)
    {
      this.pages, this.cow, this.committed := pages, seq(|pages|, _ => false), |pages|;
      new;
      if allCow {
        for i := 0 to |pages|
          invariant this.pages == pages && committed == |pages| == |cow|
          invariant forall j :: 0 <= j < |pages| ==> cow[j] == (j < i && pages[j] != 0)
        {
          if pages[i] != 0 { cow := cow[i := true]; }
        }
      }
      CommittedAll(pages);
    }

    constructor Uncommitted(n: nat)
      ensures pages == seq(n, _ => 0) && Excess() == 0 && View() == NewSlots(pages)
    {
      pages, cow, committed := seq(n, _ => 0), seq(n, _ => false), 0;
      new;
      CommittedAll(pages);
    }

    /** Gives a copy-on-write slot a page of its own with the same contents. */
    method TryCowPage(mem: PhysicalMemory, page: nat) returns (r: Outcome, ghost q: nat, ghost s: nat)
      requires Sound(mem.View()) && page < |pages| == |cow| && pages[page] < |mem.refs|
      requires pages[page] != 0 ==> mem.refs[pages[page]] > 0
      requires cow[page] ==> pages[page] != 0
      modifies this`pages, this`cow, mem
      ensures !r.Asserts? && (r.Invalid? <==> !old(cow[page])) && Excess() == old(Excess())
      ensures r.Halt? <==> old(cow[page]) && old(mem.free) == {}
      ensures !r.Done? ==> View() == old(View()) && mem.View() == old(mem.View())
      ensures r.Done? ==>
        && q in old(mem.free) && Ready(old(View()), old(mem.View()), page, q)
        && View() == Slots(old(pages)[page := q], old(cow)[page := false])
        && mem.View() == Settled(old(mem.View()), old(pages[page]), q, old(mem.data[pages[page]]), s)
    {
      q, s := 0, 0;
      if !cow[page] {
        return Invalid, 0, 0;
      }
      var old_page := pages[page];
      var new_page, struck := mem.AllocPhysicalPage();
      if new_page.None? {
        return Halt, 0, 0;
      }
      q, s := new_page.value, struck;
      mem.data := mem.data[new_page.value := mem.data[old_page]];
      mem.Unref(old_page);
      CommittedStep(pages, page, new_page.value);
      pages, cow := pages[page := new_page.value], cow[page := false];
      r := Done;
    }

    /** Commits a zeroed page to an empty slot. */
    method TryFaultInPage(mem: PhysicalMemory, page: nat) returns (r: Outcome, did: bool, ghost q: nat, ghost s: nat)
      requires Sound(mem.View()) && |pages| == |cow|
      modifies this`pages, this`committed, mem
      ensures r.Invalid? <==> page > |old(pages)|
      ensures (r.Asserts? <==> page == |old(pages)|) && Excess() == old(Excess())
      ensures r.Halt? <==> page < |old(pages)| && old(pages[page]) == 0 && old(mem.free) == {}
      ensures did <==> r.Done? && old(pages[page]) == 0
      ensures !did ==> View() == old(View()) && mem.View() == old(mem.View())
      ensures did ==>
        && q in old(mem.free) && View() == Slots(old(pages)[page := q], old(cow))
        && mem.View() == Settled(old(mem.View()), 0, q, ZERO_PAGE, s)
    {
      q, s, did := 0, 0, false;
      if page > |pages| {
        return Invalid, false, 0, 0;
      }
      if page == |pages| {
        return Asserts, false, 0, 0;
      }
      if pages[page] != 0 {
        return Done, false, 0, 0;
      }
      var new_page, struck := mem.AllocPhysicalPage();
      if new_page.None? {
        return Halt, false, 0, 0;
      }
      q, s := new_page.value, struck;
      mem.data := mem.data[new_page.value := ZERO_PAGE];
      CommittedStep(pages, page, new_page.value);
      pages, committed := pages[page := new_page.value], committed + 1;
      return Done, true, q, s;
    }

    /** Marks every committed slot copy-on-write and takes one more reference to each of its pages. */
    method BecomeCowAndRefPages(mem: PhysicalMemory) returns (ok: bool)
      requires Sound(mem.View()) && WellFormed(View(), mem.View())
      requires forall p :: 0 < p < |mem.refs| ==> mem.refs[p] <= MAX_REFS
      modifies this`cow, mem`refs
      ensures ok <==> !Saturated(old(View()), old(mem.View()))
      ensures ok ==> View() == Marked(old(View())) && mem.View() == Referenced(old(mem.View()), old(View()))
    {
      hide Sound, WellFormed, MarkedUpTo, SaturatedUpTo, ReferencedUpTo, Marked, Referenced;
      ghost var o, m := View(), mem.View();
      CowEnds(o, m);
      for i := 0 to |pages|
        invariant mem.View() == ReferencedUpTo(m, o, i) && cow == MarkedUpTo(o, i) && !SaturatedUpTo(pages, m.refs, i)
      {
        CowStep(o, m, i);
        if pages[i] != 0 {
          cow := cow[i := true];
          ok := mem.Ref(pages[i]);
          if !ok {
            return false;
          }
        }
      }
      ok := true;
    }

    /** The destructor: drops this object's reference to each of its pages. */
    method Destroy(mem: PhysicalMemory)
      requires Sound(mem.View()) && WellFormed(View(), mem.View()) && AllHeld(mem.View(), View())
      modifies mem
      ensures mem.View() == Released(old(mem.View()), View())
    {
      hide Sound, WellFormed, AllHeld, ReleasedUpTo, Dropped, Released;
      ghost var m, o := mem.View(), View();
      ReleaseAll(m, o);
      for i := 0 to |pages|
        invariant mem.View() == ReleasedUpTo(m, o, i)
      {
        ReleaseStep(m, o, i);
        if pages[i] != 0 { mem.Unref(pages[i]); }
      }
    }
  }

  // ---------------------------------------------------------------- all objects together

  class System {
    const mem: PhysicalMemory
    var live: map<nat, VMObject>
    var next: nat
    ghost var objs: Objects

    ghost predicate Seen()
      reads this, live.Values
    {
      && objs.Keys == live.Keys
      && (forall id :: id in live ==> objs[id] == live[id].View() && id < next)
      && (forall a, b :: a in live && b in live && a != b ==> live[a] != live[b])
    }

    ghost predicate Valid()
      reads this, mem, live.Values
    {
      Seen() && exists m :: m == mem.View() && Inv(objs, m)
    }

    ghost function Contents(): map<nat, seq<Page>>
      reads this, mem
    {
      Meaning(objs, mem.View())
    }

    constructor (n: nat)
      requires n > 0
      ensures Valid() && fresh(mem) && live == map[] && next == 0 && Contents() == map[]
    {
      mem := new PhysicalMemory(n);
      live, next, objs := map[], 0, map[];
      new;
      assert forall p :: Holders(objs, p) == {};
      assert Inv(objs, mem.View());
    }

    /** Registers a new object under the next name. */
    method Adopt(o: VMObject) returns (id: nat)
      requires Seen() && forall a :: a in live ==> live[a] != o
      modifies this`live, this`next, this`objs
      ensures Seen() && id == old(next) && next == id + 1 && id !in old(objs)
      ensures objs == old(objs)[id := o.View()] && live == old(live)[id := o]
    {
      id := next;
      live, next, objs := live[id := o], next + 1, objs[id := o.View()];
    }

    method Create(n: nat) returns (id: nat)
      requires Valid()
      modifies this`live, this`next, this`objs
      ensures Valid() && id == old(next) && next == id + 1 && id in live && fresh(live[id]) && live == old(live)[id := live[id]]
      ensures Contents() == old(Contents())[id := Zeros(n)] && live[id].Excess() == 0
    {
      hide Inv, Meaning, CommittedSlots, Stocked;
      var o := new VMObject.Uncommitted(n);
      InvSound(objs, mem.View());
      StockedNone(mem.View(), o.pages);
      CreateKeeps(objs, mem.View(), next, o.pages, mem.reserved);
      id := Adopt(o);
    }

    /** As many pages as slots, each with one reference. */
    method AllocPhysicalPages(n: nat) returns (ok: bool, pages: seq<nat>)
      requires Sound(mem.View())
      modifies mem
      ensures ok <==> n <= |old(mem.free)|
      ensures ok ==> |pages| == n && Picked(old(mem.View()), pages)
      ensures ok ==> mem.refs == Stocked(old(mem.View()), pages, {}).refs && mem.free == Stocked(old(mem.View()), pages, {}).free
      ensures ok ==> mem.data == old(mem.data) && StillReserved(old(mem.View()), pages, mem.reserved)
    {
      pages := [];
      ghost var m := mem.View();
      assert mem.refs == Stocked(m, [], {}).refs;
      while |pages| < n
        invariant |pages| <= n && Sound(mem.View()) && Picked(m, pages)
        invariant mem.refs == Stocked(m, pages, {}).refs && mem.free == Stocked(m, pages, {}).free
        invariant StillReserved(m, pages, mem.reserved)
        invariant mem.data == m.data && |mem.free| == |m.free| - |pages|
      {
        var p, s := mem.AllocPhysicalPage();
        if p.None? {
          return false, pages;
        }
        StockOne(m, pages, p.value, {});
        pages := pages + [p.value];
      }
      ok := true;
    }

    /** Zeroes the pages of a new object. */
    method ZeroPages(pages: seq<nat>)
      requires forall p :: p in pages ==> p < |mem.data|
      modifies mem`data
      ensures |mem.data| == |old(mem.data)|
      ensures forall p :: 0 <= p < |mem.data| ==> mem.data[p] == if p in pages then ZERO_PAGE else old(mem.data)[p]
    {
      for i := 0 to |pages|
        invariant |mem.data| == |old(mem.data)|
        invariant forall p :: 0 <= p < |mem.data| ==> mem.data[p] == if p in pages[..i] then ZERO_PAGE else old(mem.data)[p]
      {
        assert pages[i] in pages && pages[..i + 1] == pages[..i] + [pages[i]];
        mem.data := mem.data[pages[i] := ZERO_PAGE];
      }
    }

    method CreateCommitted(n: nat) returns (r: Outcome, id: nat)
      requires Valid()
      modifies this`live, this`next, this`objs, mem
      ensures (r.Done? || r.Halt?) && id == old(next) && (r.Halt? <==> |old(mem.free)| < n)
      ensures r.Done? ==> Valid() && next == id + 1 && id in live && fresh(live[id]) && live == old(live)[id := live[id]]
      ensures r.Done? ==> Contents() == old(Contents())[id := Zeros(n)] && live[id].Excess() == 0
    {
      hide Inv, Meaning, CommittedSlots, Stocked;
      id := next;
      InvSound(objs, mem.View());
      var ok, pages := AllocPhysicalPages(n);
      if !ok {
        return Halt, id;
      }
      var o := new VMObject.Over(pages, false);
      ZeroPages(pages);
      StockedIs(old(mem.View()), pages, mem.View());
      CreateKeeps(objs, old(mem.View()), next, pages, mem.reserved);
      id := Adopt(o);
      r := Done;
    }

    /** A copy of an object that shares all its pages. The kernel panics when a page has too many references. */
    method Clone(id: nat) returns (r: Outcome, copy: nat)
      requires Valid() && id in live
      modifies this`live, this`next, this`objs, mem, live[id]
      ensures (r.Done? || r.Halt?) && copy == old(next)
      ensures r.Halt? <==> Saturated(old(objs)[id], old(mem.View()))
      ensures r.Done? ==> Valid() && next == copy + 1 && copy in live && fresh(live[copy]) && live == old(live)[copy := live[copy]]
      ensures r.Done? ==> Contents() == old(Contents())[copy := old(Contents())[id]]
      ensures r.Done? ==> live[id].Excess() == old(live[id].Excess()) && (live[copy].Excess() == 0 <==> 0 !in old(objs)[id].pages)
    {
      hide CommittedSlots, Inv, Meaning, Referenced, Marked;
      copy := next;
      var ok := Share(id);
      if !ok {
        return Halt, copy;
      }
      CloneKeeps(old(objs), old(mem.View()), id, next);
      var o := new VMObject.Over(live[id].pages, true);
      MarkedAgain(old(objs)[id]);
      copy := Adopt(o);
      r := Done;
    }

    /** Marks an object's slots and references its pages once more, for a second holder. */
    method Share(id: nat) returns (ok: bool)
      requires Valid() && id in live
      modifies this`objs, mem`refs, {live[id]}`cow
      ensures ok <==> !Saturated(old(objs)[id], old(mem.View()))
      ensures ok ==> Seen() && objs == old(objs)[id := Marked(old(objs)[id])] && mem.View() == Referenced(old(mem.View()), old(objs)[id])
    {
      hide Inv, Meaning, Referenced, Marked;
      InvFacts(objs, mem.View(), id);
      ok := live[id].BecomeCowAndRefPages(mem);
      objs := objs[id := live[id].View()];
    }

    /** Records that slot i of one object now holds the fresh page q. */
    ghost method Settle(m: Memory, id: nat, i: nat, q: nat, s: nat)
      requires Inv(objs, m) && id in objs && q in m.free && Ready(objs[id], m, i, q) && objs.Keys == live.Keys
      requires forall a :: a in live ==> (a != id ==> objs[a] == live[a].View()) && a < next
      requires forall a, b :: a in live && b in live && a != b ==> live[a] != live[b]
      requires live[id].View() == Private(objs, id, i, q)[id]
      requires mem.View() == Settled(m, objs[id].pages[i], q, Read(objs[id], m, i), s)
      modifies this`objs
      ensures Valid() && Contents() == Meaning(old(objs), m) && objs == Private(old(objs), id, i, q)
    {
      hide Inv, Meaning, Settled, Read;
      SettleKeeps(objs, m, id, i, q, s);
      objs := Private(objs, id, i, q);
    }

    method Resolve(id: nat, i: nat) returns (r: Outcome)
      requires Valid() && id in live && i < |objs[id].pages|
      modifies this`objs, mem, live[id]
      ensures !r.Asserts? && (r.Invalid? <==> !old(objs)[id].cow[i])
      ensures r.Halt? <==> old(objs)[id].cow[i] && old(mem.free) == {}
      ensures Valid() && Contents() == old(Contents()) && |objs[id].pages| == |old(objs)[id].pages| && live[id].Excess() == old(live[id].Excess())
      ensures r.Done? ==> objs[id].pages[i] != 0 && !objs[id].cow[i]
    {
      hide Inv, Meaning, Settled, CommittedSlots;
      ghost var q, s;
      InvFacts(objs, mem.View(), id);
      if live[id].pages[i] != 0 { NamedCounts(objs, mem.View(), id, i); }
      r, q, s := live[id].TryCowPage(mem, i);
      if r.Done? {
        SettleKeeps(objs, old(mem.View()), id, i, q, s);
        Settle(old(mem.View()), id, i, q, s);
      }
    }

    method FaultIn(id: nat, i: nat) returns (r: Outcome)
      requires Valid() && id in live && i < |objs[id].pages|
      modifies this`objs, mem, live[id]
      ensures (r.Done? || r.Halt?) && (r.Halt? <==> old(objs)[id].pages[i] == 0 && old(mem.free) == {})
      ensures Valid() && Contents() == old(Contents()) && |objs[id].pages| == |old(objs)[id].pages| && live[id].Excess() == old(live[id].Excess())
      ensures r.Done? ==> objs[id].pages[i] != 0 && (old(objs)[id].pages[i] == 0 ==> !objs[id].cow[i])
    {
      hide Inv, Meaning, Settled, CommittedSlots;
      ghost var q, s;
      var did;
      InvFacts(objs, mem.View(), id);
      r, did, q, s := live[id].TryFaultInPage(mem, i);
      if did {
        SettleKeeps(objs, old(mem.View()), id, i, q, s);
        Settle(old(mem.View()), id, i, q, s);
      }
    }

    /** The page-fault path for slot i of a region that may or may not be written: the slot is committed, and private
        if the region may be written. */
    method Fault(id: nat, i: nat, write: bool) returns (r: Outcome)
      requires Valid() && id in live && i < |objs[id].pages|
      modifies this`objs, mem, live[id]
      ensures (r.Done? || r.Halt?) && (r.Halt? <==> old(mem.free) == {} && NeedsPage(old(objs)[id], i, write))
      ensures Valid() && Contents() == old(Contents()) && |objs[id].pages| == |old(objs)[id].pages| && live[id].Excess() == old(live[id].Excess())
      ensures r.Done? ==> objs[id].pages[i] != 0 && (write ==> !objs[id].cow[i])
    {
      assert WellFormed(objs[id], mem.View());
      if live[id].pages[i] == 0 {
        r := FaultIn(id, i);
      } else if write && live[id].cow[i] {
        r := Resolve(id, i);
      } else {
        r := Done;
      }
    }

    /** A byte stored through slot i, after the faults it takes. */
    method Store(id: nat, i: nat, offset: nat, b: Byte) returns (r: Outcome)
      requires Valid() && id in live && i < |objs[id].pages| && offset < PAGE_SIZE
      modifies this`objs, mem, live[id]
      ensures (r.Done? || r.Halt?) && (r.Halt? <==> old(mem.free) == {} && NeedsPage(old(objs)[id], i, true))
      ensures r.Done? ==> Valid()
      ensures r.Done? ==>
        var v := old(Contents())[id];
        Contents() == old(Contents())[id := v[i := v[i][offset := b]]]
    {
      hide Inv, Meaning, CommittedSlots;
      r := Fault(id, i, true);
      if r.Done? {
        LoadReads(objs, mem.View(), id, i);
        var p := live[id].pages[i];
        var content: Page := mem.data[p][offset := b];
        StoreKeeps(objs, mem.View(), id, i, content);
        mem.data := mem.data[p := content];
      }
    }

    /** A page read through slot i, after the fault it takes. */
    method Load(id: nat, i: nat) returns (r: Outcome, v: Page)
      requires Valid() && id in live && i < |objs[id].pages|
      modifies this`objs, mem, live[id]
      ensures (r.Done? || r.Halt?) && (r.Halt? <==> old(mem.free) == {} && NeedsPage(old(objs)[id], i, false))
      ensures r.Done? ==> Valid() && Contents() == old(Contents()) && v == Contents()[id][i]
    {
      hide Inv, Meaning, CommittedSlots;
      r := Fault(id, i, false);
      v := ZERO_PAGE;
      if r.Done? {
        LoadReads(objs, mem.View(), id, i);
        v := mem.data[live[id].pages[i]];
      }
    }

    /** The last reference to an object goes. */
    method Destroy(id: nat)
      requires Valid() && id in live
      modifies this`live, this`objs, mem
      ensures Valid() && Contents() == old(Contents()) - {id} && live == old(live) - {id}
      ensures mem.reserved == old(mem.reserved) && mem.free == old(mem.free) + (SoleUses(old(objs), id) - mem.reserved)
      ensures Leaked(mem.View()) == old(Leaked(mem.View())) + (SoleUses(old(objs), id) * mem.reserved)
    {
      hide Inv, Released, Leaked, SoleUses, Meaning, WellFormed;
      DestroyKeeps(objs, mem.View(), id);
      DestroyFrees(objs, mem.View(), id);
      InvFacts(objs, mem.View(), id);
      live[id].Destroy(mem);
      live, objs := live - {id}, objs - {id};
    }
  }

  // ---------------------------------------------------------------- eager copying, and whole runs

  datatype Op =
    | NewObject(n: nat, commit: bool)
    | CloneOf(id: nat)
    | StoreByte(id: nat, i: nat, offset: nat, b: Byte)
    | LoadPage(id: nat, i: nat)
    | TouchPage(id: nat, i: nat, write: bool)
    | Drop(id: nat)

  /** The same operations on objects that share nothing: each is an array of pages, and cloning copies the array. */
  datatype Eager = Eager(objs: map<nat, seq<Page>>, next: nat)

  ghost predicate Legal(e: Eager, op: Op) {
    match op
    case NewObject(_, _) => true
    case CloneOf(id) => id in e.objs
    case StoreByte(id, i, offset, _) => id in e.objs && i < |e.objs[id]| && offset < PAGE_SIZE
    case LoadPage(id, i) => id in e.objs && i < |e.objs[id]|
    case TouchPage(id, i, _) => id in e.objs && i < |e.objs[id]|
    case Drop(id) => id in e.objs
  }

  ghost function Step(e: Eager, op: Op): Eager
    requires Legal(e, op)
  {
    match op
    case NewObject(n, _) => Eager(e.objs[e.next := Zeros(n)], e.next + 1)
    case CloneOf(id) => Eager(e.objs[e.next := e.objs[id]], e.next + 1)
    case StoreByte(id, i, offset, b) => e.(objs := e.objs[id := e.objs[id][i := e.objs[id][i][offset := b]]])
    case LoadPage(_, _) => e
    case TouchPage(_, _, _) => e
    case Drop(id) => e.(objs := e.objs - {id})
  }

  ghost function Output(e: Eager, op: Op): Option<Page>
    requires Legal(e, op)
  {
    if op.LoadPage? then Some(e.objs[op.id][op.i]) else None
  }

  ghost predicate LegalRun(e: Eager, ops: seq<Op>)
    decreases |ops|
  {
    ops == [] || (Legal(e, ops[0]) && LegalRun(Step(e, ops[0]), ops[1..]))
  }

  /** What the loads of a run return. */
  ghost function Outputs(e: Eager, ops: seq<Op>): seq<Option<Page>>
    requires LegalRun(e, ops)
    decreases |ops|
  {
    if ops == [] then [] else [Output(e, ops[0])] + Outputs(Step(e, ops[0]), ops[1..])
  }

  /** The objects after the first n operations of a run. */
  ghost function After(e: Eager, ops: seq<Op>, n: nat): Eager
    requires LegalRun(e, ops) && n <= |ops|
    decreases |ops|
  {
    if n == 0 then e else After(Step(e, ops[0]), ops[1..], n - 1)
  }

  ghost function Abstract(s: System): Eager
    reads s, s.mem
  {
    Eager(s.Contents(), s.next)
  }

  /** The operation meets a panic: too few free pages, or a reference counter at its limit. */
  ghost predicate Panics(objs: Objects, m: Memory, op: Op) {
    match op
    case NewObject(n, commit) => commit && |m.free| < n
    case CloneOf(id) => id in objs && Saturated(objs[id], m)
    case StoreByte(id, i, _, _) => id in objs && m.free == {} && NeedsPage(objs[id], i, true)
    case LoadPage(id, i) => id in objs && m.free == {} && NeedsPage(objs[id], i, false)
    case TouchPage(id, i, write) => id in objs && m.free == {} && NeedsPage(objs[id], i, write)
    case Drop(_) => false
  }

  /** A legal operation on the arrays of pages is one on objects that exist and slots that they have. */
  lemma LegalMeans(s: System, op: Op)
    requires s.Valid() && Legal(Abstract(s), op)
    ensures op.CloneOf? || op.Drop? ==> op.id in s.live
    ensures op.StoreByte? || op.LoadPage? || op.TouchPage? ==> op.id in s.live && op.i < |s.objs[op.id].pages|
  {
  }

  /** Creates an object, from nothing or as a clone. */
  method Make(s: System, op: Op) returns (r: Outcome)
    requires s.Valid() && Legal(Abstract(s), op) && (op.NewObject? || op.CloneOf?)
    modifies s, s.mem, s.live.Values
    ensures (r.Done? || r.Halt?) && (r.Halt? <==> Panics(old(s.objs), old(s.mem.View()), op))
    ensures r.Done? ==> s.Valid() && Abstract(s) == Step(old(Abstract(s)), op) && fresh(s.live.Values - old(s.live.Values))
  {
    hide Inv, Meaning, CommittedSlots, Saturated;
    LegalMeans(s, op);
    var id;
    match op
    case NewObject(n, commit) =>
      if commit {
        r, id := s.CreateCommitted(n);
      } else {
        id := s.Create(n);
        r := Done;
      }
    case CloneOf(from) =>
      r, id := s.Clone(from);
  }

  /** Uses or drops an object. */
  method Use(s: System, op: Op) returns (r: Outcome, out: Option<Page>)
    requires s.Valid() && Legal(Abstract(s), op) && !op.NewObject? && !op.CloneOf?
    modifies s, s.mem, s.live.Values
    ensures (r.Done? || r.Halt?) && (r.Halt? <==> Panics(old(s.objs), old(s.mem.View()), op))
    ensures r.Done? ==> s.Valid() && Abstract(s) == Step(old(Abstract(s)), op) && out == Output(old(Abstract(s)), op)
    ensures s.live.Values <= old(s.live.Values)
  {
    hide Inv, Meaning, CommittedSlots, NeedsPage, Holders;
    LegalMeans(s, op);
    out := None;
    match op
    case StoreByte(id, i, offset, b) =>
      r := s.Store(id, i, offset, b);
    case LoadPage(id, i) =>
      var v;
      r, v := s.Load(id, i);
      out := Some(v);
    case TouchPage(id, i, write) =>
      r := s.Fault(id, i, write);
    case Drop(id) =>
      s.Destroy(id);
      r := Done;
  }

  method Perform(s: System, op: Op) returns (r: Outcome, out: Option<Page>)
    requires s.Valid() && Legal(Abstract(s), op)
    modifies s, s.mem, s.live.Values
    ensures (r.Done? || r.Halt?) && (r.Halt? <==> Panics(old(s.objs), old(s.mem.View()), op))
    ensures r.Done? ==> s.Valid() && Abstract(s) == Step(old(Abstract(s)), op) && out == Output(old(Abstract(s)), op)
    ensures r.Done? ==> fresh(s.live.Values - old(s.live.Values))
  {
    out := None;
    if op.NewObject? || op.CloneOf? {
      r := Make(s, op);
    } else {
      r, out := Use(s, op);
    }
  }

  lemma StateMeans(s: System)
    requires s.Valid()
    ensures Inv(s.objs, s.mem.View()) && Meaning(s.objs, s.mem.View()) == Abstract(s).objs
  {
  }

  /** Any run of operations returns what eager copying would return. It ends early only where the kernel panics:
      `objs` and `m` are what the next operation then found. */
  method Run(s: System, ops: seq<Op>) returns (outs: seq<Option<Page>>, done: nat, ghost objs: Objects, ghost m: Memory)
    requires s.Valid() && LegalRun(Abstract(s), ops)
    modifies s, s.mem, s.live.Values
    ensures done <= |ops| && |outs| == done && outs <= Outputs(old(Abstract(s)), ops)
    ensures done == |ops| ==> s.Valid() && Abstract(s) == After(old(Abstract(s)), ops, done)
    ensures done < |ops| ==>
      Inv(objs, m) && Meaning(objs, m) == After(old(Abstract(s)), ops, done).objs && Panics(objs, m, ops[done])
    decreases |ops|
  {
    hide Inv, Meaning, Panics, Step, Output, Legal, System.Valid, System.Contents;
    StateMeans(s);
    outs, done, objs, m := [], 0, s.objs, s.mem.View();
    if ops != [] {
      var r, out := Perform(s, ops[0]);
      if r.Done? {
        outs, done, objs, m := Run(s, ops[1..]);
        outs, done := [out] + outs, done + 1;
      }
    }
  }
}
