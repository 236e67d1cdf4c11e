/**
  `kstd::map` at pointer level: heap nodes with child and parent links and cached heights, rotated
  and rewired in place.

  The pointer code is specified on pictures of the heap (finite maps from nodes to their fields), and
  the lemmas say which pictures are layouts of which trees of module AvlTree.
 */
module AvlMap {
  import opened Helpers
  import opened AvlTree

  type HeapTree<V> = Tree<Node<V>, V>
  type HeapPath<V> = Path<Node<V>, V>

  // ---------------------------------------------------------------- pictures of the heap

  /** The fields of one node. */
  datatype Cell<V> = Cell(left: Node?<V>, right: Node?<V>, parent: Node?<V>, height: int, key: int, val: V) {
    ghost function Kid(l: bool): Node?<V> { if l then left else right }
    ghost function WithKid(l: bool, n: Node?<V>): Cell<V> { if l then this.(left := n) else this.(right := n) }
  }

  type Cells<V> = map<Node<V>, Cell<V>>

  ghost function Snapshot<V>(s: set<Node<V>>): Cells<V>
    reads s
  {
    map n | n in s :: Cell(n.left, n.right, n.parent, n.height, n.key, n.val)
  }

  ghost function CachedHeight<V>(n: Node?<V>, c: Cells<V>): int
    requires n != null ==> n in c
  {
    if n == null then 0 else c[n].height
  }

  // ---------------------------------------------------------------- layouts

  ghost function Root<V>(t: HeapTree<V>): Node?<V> { if t.Leaf? then null else t.entry.node }

  ghost function Parent<V>(p: HeapPath<V>): Node?<V> { if p.Top? then null else p.entry.node }

  ghost function PathRoot<V>(p: HeapPath<V>, hole: Node?<V>): Node?<V> {
    if p.Top? then hole else PathRoot(p.up, p.entry.node)
  }

  /** In c, t hangs below `parent` with all its links, pairs and cached heights exact. */
  ghost predicate LaidOut<V>(t: HeapTree<V>, parent: Node?<V>, c: Cells<V>) {
    t.Branch? ==>
      var n := t.entry.node;
      && n in c && c[n] == Cell(Root(t.left), Root(t.right), parent, Height(t), t.entry.key, t.entry.val)
      && LaidOut(t.left, n, c) && LaidOut(t.right, n, c)
  }

  /** The same, except that the height cached in the top node may be stale. */
  ghost predicate LaidOutStale<V>(t: HeapTree<V>, parent: Node?<V>, c: Cells<V>) {
    && t.Branch?
    && var n := t.entry.node;
       && n in c && c[n] == Cell(Root(t.left), Root(t.right), parent, c[n].height, t.entry.key, t.entry.val)
       && LaidOut(t.left, n, c) && LaidOut(t.right, n, c)
  }

  /** In c, p is laid out around a hole that starts at `hole`, whatever heights its nodes cache. */
  ghost predicate PathLaidOut<V>(p: HeapPath<V>, hole: Node?<V>, c: Cells<V>) {
    p.Under? ==>
      var n, s := p.entry.node, p.sibling;
      && n in c
      && c[n] == Cell(if p.isLeft then hole else Root(s), if p.isLeft then Root(s) else hole,
                      Parent(p.up), c[n].height, p.entry.key, p.entry.val)
      && LaidOut(s, n, c)
      && PathLaidOut(p.up, n, c)
  }

  /** In c, the heights cached along p are exact if the hole holds a tree of height h. */
  ghost predicate PathMeasured<V>(p: HeapPath<V>, h: nat, c: Cells<V>) {
    p.Under? ==>
      && p.entry.node in c && c[p.entry.node].height == 1 + Max(h, Height(p.sibling))
      && PathMeasured(p.up, 1 + Max(h, Height(p.sibling)), c)
  }

  ghost predicate Apart<V>(p: HeapPath<V>, t: HeapTree<V>) {
    PathDistinct(p) && Distinct(t) && PathNodes(p) !! Nodes(t)
  }

  /** The heap c holds t in the hole of p, seen from the map's root pointer. */
  ghost predicate Focus<V>(p: HeapPath<V>, t: HeapTree<V>, root: Node?<V>, c: Cells<V>) {
    && Apart(p, t) && Nodes(t) + PathNodes(p) <= c.Keys && root == PathRoot(p, Root(t))
    && LaidOut(t, Parent(p), c) && PathLaidOut(p, Root(t), c)
  }

  ghost predicate StaleFocus<V>(p: HeapPath<V>, t: HeapTree<V>, root: Node?<V>, c: Cells<V>) {
    && Apart(p, t) && Nodes(t) + PathNodes(p) <= c.Keys && root == PathRoot(p, Root(t))
    && LaidOutStale(t, Parent(p), c) && PathLaidOut(p, Root(t), c)
  }

  // ---------------------------------------------------------------- framing

  lemma {:induction false} Frame<V>(t: HeapTree<V>, parent: Node?<V>, c: Cells<V>, c': Cells<V>)
    requires LaidOut(t, parent, c) && forall n <- Nodes(t) :: n in c' && (n in c ==> c'[n] == c[n])
    ensures LaidOut(t, parent, c')
  {
    if t.Branch? {
      Frame(t.left, t.entry.node, c, c');
      Frame(t.right, t.entry.node, c, c');
    }
  }

  lemma {:induction false} PathFrame<V>(p: HeapPath<V>, hole: Node?<V>, c: Cells<V>, c': Cells<V>)
    requires PathLaidOut(p, hole, c) && forall n <- PathNodes(p) :: n in c' && (n in c ==> c'[n] == c[n])
    ensures PathLaidOut(p, hole, c')
  {
    if p.Under? {
      Frame(p.sibling, p.entry.node, c, c');
      PathFrame(p.up, p.entry.node, c, c');
    }
  }

  /** Only the top node's parent link changes. */
  lemma {:induction false} Reparented<V>(t: HeapTree<V>, parent: Node?<V>, parent': Node?<V>, c: Cells<V>, c': Cells<V>)
    requires Distinct(t) && LaidOut(t, parent, c)
    requires forall n <- Nodes(t) :: n in c' && (n in c && n != Root(t) ==> c'[n] == c[n])
    requires t.Branch? ==> c'[t.entry.node] == c[t.entry.node].(parent := parent')
    ensures LaidOut(t, parent', c')
  {
    if t.Branch? {
      Frame(t.left, t.entry.node, c, c');
      Frame(t.right, t.entry.node, c, c');
    }
  }

  /** Only the link that leads down to the hole changes. */
  lemma {:induction false} Redirected<V>(p: HeapPath<V>, hole: Node?<V>, top: Node?<V>, c: Cells<V>, c': Cells<V>)
    requires PathDistinct(p) && PathLaidOut(p, hole, c)
    requires forall n <- PathNodes(p) :: n in c' && (n in c && n != Parent(p) ==> c'[n] == c[n])
    requires p.Under? ==> c'[p.entry.node] == c[p.entry.node].WithKid(p.isLeft, top)
    ensures PathLaidOut(p, top, c')
  {
    if p.Under? {
      Frame(p.sibling, p.entry.node, c, c');
      PathFrame(p.up, p.entry.node, c, c');
    }
  }

  lemma {:induction false} RootOnPath<V>(p: HeapPath<V>, hole: Node?<V>)
    requires p.Under?
    ensures PathRoot(p, hole) in PathNodes(p)
  {
    if p.up.Under? { RootOnPath(p.up, p.entry.node); }
  }

  lemma {:induction false} CachedExact<V>(t: HeapTree<V>, parent: Node?<V>, c: Cells<V>)
    requires LaidOut(t, parent, c)
    ensures (Root(t) != null ==> Root(t) in c) && CachedHeight(Root(t), c) == Height(t)
  {
  }

  // ---------------------------------------------------------------- moving the focus

  lemma {:induction false} Ascend<V>(p: HeapPath<V>, t: HeapTree<V>, root: Node?<V>, c: Cells<V>)
    requires Focus(p, t, root, c) && p.Under?
    ensures var u := Plug(p.entry, p.isLeft, t, p.sibling);
            && StaleFocus(p.up, u, root, c)
            && (c[p.entry.node].height == Height(u) ==> Focus(p.up, u, root, c))
  {
  }

  lemma {:induction false} Descend<V>(p: HeapPath<V>, t: HeapTree<V>, root: Node?<V>, c: Cells<V>, l: bool)
    requires Focus(p, t, root, c) && t.Branch?
    ensures var q := Under(p, t.entry, Kid(t, !l), l);
            && Focus(q, Kid(t, l), root, c)
            && Fill(q, Kid(t, l)) == Fill(p, t)
            && (PathMeasured(p, Height(t), c) ==> PathMeasured(q, Height(Kid(t, l)), c))
  {
  }

  lemma {:induction false} Refilled<V>(p: HeapPath<V>, t: HeapTree<V>, root: Node?<V>, c: Cells<V>)
    requires Focus(p, t, root, c) && PathMeasured(p, Height(t), c)
    ensures Focus(Top, Fill(p, t), root, c)
  {
    if p.Under? {
      Ascend(p, t, root, c);
      Refilled(p.up, Plug(p.entry, p.isLeft, t, p.sibling), root, c);
    }
  }

  /** The focus can be moved to any subtree. */
  lemma {:induction false} Zoom<V>(p: HeapPath<V>, t: HeapTree<V>, root: Node?<V>, c: Cells<V>)
    requires Focus(Top, Fill(p, t), root, c)
    ensures Focus(p, t, root, c)
  {
    if p.Under? {
      Zoom(p.up, Plug(p.entry, p.isLeft, t, p.sibling), root, c);
      Descend(p.up, Plug(p.entry, p.isLeft, t, p.sibling), root, c, p.isLeft);
    }
  }

  /** `update_own_height` makes a stale height exact. */
  lemma {:induction false} Remeasured<V>(p: HeapPath<V>, t: HeapTree<V>, root: Node?<V>, c: Cells<V>)
    requires StaleFocus(p, t, root, c)
    ensures CachedHeight(Root(t.left), c) == Height(t.left) && CachedHeight(Root(t.right), c) == Height(t.right)
    ensures Focus(p, t, root, c[t.entry.node := c[t.entry.node].(height := Height(t))])
  {
    var n := t.entry.node;
    var c' := c[n := c[n].(height := Height(t))];
    CachedExact(t.left, n, c);
    CachedExact(t.right, n, c);
    Frame(t.left, n, c, c');
    Frame(t.right, n, c, c');
    PathFrame(p, n, c, c');
  }

  // ---------------------------------------------------------------- rotations on pictures

  /** In c, node n has the child that a left (right) rotation lifts, and the nodes the rotation touches
      are there and distinct. */
  ghost predicate CanTurn<V>(l: bool, n: Node<V>, c: Cells<V>) {
    && n in c && c[n].Kid(!l) != null && c[n].Kid(!l) in c
    && var r := c[n].Kid(!l);
       var a, b, d, g := c[n].Kid(l), c[r].Kid(l), c[r].Kid(!l), c[n].parent;
       && n != r && n != a && n != b && n != d && n != g && r != a && r != b && r != d && r != g
       && (a == null || a in c) && (d == null || d in c) && (g == null || g in c)
       && (b == null || (b in c && b != g))
  }

  /** The picture after a left (right) rotation of n: at most four cells change. */
  ghost function Turn<V>(l: bool, n: Node<V>, c: Cells<V>): Cells<V>
    requires CanTurn(l, n, c)
  {
    var r: Node<V> := c[n].Kid(!l);
    var b, g := c[r].Kid(l), c[n].parent;
    var low := 1 + Max(CachedHeight(b, c), CachedHeight(c[n].Kid(l), c));
    var high := 1 + Max(CachedHeight(c[r].Kid(!l), c), low);
    var c1 := if b == null then c else c[b := c[b].(parent := n)];
    var c2 := if g == null then c1 else c1[g := c[g].WithKid(c[g].left == n, r)];
    c2[n := c[n].WithKid(!l, b).(parent := r, height := low)]
      [r := c[r].WithKid(l, n).(parent := g, height := high)]
  }

  lemma {:induction false} TurnNodes<V>(l: bool, p: HeapPath<V>, t: HeapTree<V>)
    requires Apart(p, t) && t.Branch? && Kid(t, !l).Branch?
    ensures var r := Kid(t, !l);
            var n, a, b, d := t.entry.node, Root(Kid(t, l)), Root(Kid(r, l)), Root(Kid(r, !l));
            && n != r.entry.node && n != a && n != b && n != d && r.entry.node != a && r.entry.node != b && r.entry.node != d
            && {n, r.entry.node} <= Nodes(t) && Parent(p) != n && Parent(p) != r.entry.node
            && (b != null ==> b in Nodes(t) && b != Parent(p) && b != a && b != d)
            && (a != null ==> a in Nodes(t)) && (d != null ==> d in Nodes(t))
            && (p.Under? ==> p.entry.node in PathNodes(p) && PathRoot(p, n) != n && Root(p.sibling) != n)
  {
    assert Distinct(Kid(t, !l));
    if p.Under? { RootOnPath(p, t.entry.node); }
  }

  /** What a rotation of t under p changes. */
  ghost predicate Turned<V>(l: bool, p: HeapPath<V>, t: HeapTree<V>, c: Cells<V>, c': Cells<V>)
    requires t.Branch? && Kid(t, !l).Branch?
  {
    var rt := Kid(t, !l);
    var n, r, b := t.entry.node, rt.entry.node, Kid(rt, l);
    && n in c && r in c && c'.Keys == c.Keys
    && c'[n] == c[n].WithKid(!l, Root(b)).(parent := r, height := 1 + Max(Height(b), Height(Kid(t, l))))
    && c'[r] == c[r].WithKid(l, n).(parent := Parent(p), height := Height(Rotate(t, l)))
    && (b.Branch? ==> b.entry.node in c && c'[b.entry.node] == c[b.entry.node].(parent := n))
    && (p.Under? ==> p.entry.node in c && c'[p.entry.node] == c[p.entry.node].WithKid(p.isLeft, r))
    && forall x <- c :: x == n || x == r || x == Root(b) || x == Parent(p) || c'[x] == c[x]
  }

  /** In c, the fields that a rotation of t under p reads have the values that t and p give them. */
  ghost predicate TurnReads<V>(l: bool, p: HeapPath<V>, t: HeapTree<V>, c: Cells<V>)
    requires t.Branch? && Kid(t, !l).Branch?
  {
    var rt := Kid(t, !l);
    var n, r, a, b, d := t.entry.node, rt.entry.node, Kid(t, l), Kid(rt, l), Kid(rt, !l);
    && CanTurn(l, n, c)
    && c[n].Kid(!l) == r && c[n].Kid(l) == Root(a) && c[n].parent == Parent(p)
    && c[r].Kid(l) == Root(b) && c[r].Kid(!l) == Root(d)
    && CachedHeight(Root(a), c) == Height(a) && CachedHeight(Root(b), c) == Height(b) && CachedHeight(Root(d), c) == Height(d)
    && (p.Under? ==> p.entry.node in c && (c[p.entry.node].left == n <==> p.isLeft))
  }

  lemma {:induction false} FocusTurnReads<V>(l: bool, p: HeapPath<V>, t: HeapTree<V>, root: Node?<V>, c: Cells<V>)
    requires StaleFocus(p, t, root, c) && Kid(t, !l).Branch?
    ensures TurnReads(l, p, t, c)
  {
    var n, rt := t.entry.node, Kid(t, !l);
    TurnNodes(l, p, t);
    assert LaidOut(rt, n, c);
    CachedExact(Kid(t, l), n, c);
    CachedExact(Kid(rt, l), rt.entry.node, c);
    CachedExact(Kid(rt, !l), rt.entry.node, c);
  }

  lemma {:induction false} TurnIsTurned<V>(l: bool, p: HeapPath<V>, t: HeapTree<V>, c: Cells<V>)
    requires t.Branch? && Kid(t, !l).Branch? && TurnReads(l, p, t, c)
    ensures Turned(l, p, t, c, Turn(l, t.entry.node, c))
  {
  }

  lemma {:induction false} TurnedTree<V>(l: bool, p: HeapPath<V>, t: HeapTree<V>, root: Node?<V>, c: Cells<V>, c': Cells<V>)
    requires StaleFocus(p, t, root, c) && Kid(t, !l).Branch? && Turned(l, p, t, c, c')
    ensures LaidOut(Rotate(t, l), Parent(p), c')
  {
    var rt := Kid(t, !l);
    TurnNodes(l, p, t);
    assert LaidOut(rt, t.entry.node, c) && Distinct(rt);
    Frame(Kid(t, l), t.entry.node, c, c');
    Reparented(Kid(rt, l), rt.entry.node, t.entry.node, c, c');
    Frame(Kid(rt, !l), rt.entry.node, c, c');
  }

  lemma {:induction false} TurnedPath<V>(l: bool, p: HeapPath<V>, t: HeapTree<V>, root: Node?<V>, c: Cells<V>, c': Cells<V>)
    requires StaleFocus(p, t, root, c) && Kid(t, !l).Branch? && Turned(l, p, t, c, c')
    ensures PathLaidOut(p, Kid(t, !l).entry.node, c')
  {
    TurnNodes(l, p, t);
    Redirected(p, t.entry.node, Kid(t, !l).entry.node, c, c');
  }

  /** A rotation on the heap is a rotation of the tree. */
  lemma {:induction false} TurnFocus<V>(l: bool, p: HeapPath<V>, t: HeapTree<V>, root: Node?<V>, c: Cells<V>)
    requires StaleFocus(p, t, root, c) && Kid(t, !l).Branch?
    ensures CanTurn(l, t.entry.node, c)
    ensures var r := Kid(t, !l).entry.node;
            Focus(p, Rotate(t, l), if root == t.entry.node then r else root, Turn(l, t.entry.node, c))
  {
    FocusTurnReads(l, p, t, root, c);
    TurnIsTurned(l, p, t, c);
    var c' := Turn(l, t.entry.node, c);
    TurnedTree(l, p, t, root, c, c');
    TurnedPath(l, p, t, root, c, c');
    RotateKeepsEntries(t, l);
    TurnNodes(l, p, t);
  }

  /** After a rotation the walk goes on at the new top, where nothing is left to do. */
  lemma {:induction false} Repaired<V>(p: HeapPath<V>, t: HeapTree<V>, h: nat)
    requires Repairable(p, t, h)
    ensures Repairable(p, Rebalance(t), h) && -1 <= Factor(Rebalance(t)) <= 1
    ensures BalanceUp(p, Rebalance(t)) == BalanceUp(p, t)
  {
    RebalanceIsAvl(t);
    RebalanceKeepsEntries(t);
  }

  /** Without a rotation the walk goes on at the parent. */
  lemma {:induction false} RepairableAbove<V>(p: HeapPath<V>, t: HeapTree<V>, h: nat)
    requires Repairable(p, t, h) && p.Under? && -1 <= Factor(t) <= 1
    ensures var u := Plug(p.entry, p.isLeft, t, p.sibling);
            Repairable(p.up, u, 1 + Max(h, Height(p.sibling))) && BalanceUp(p.up, u) == BalanceUp(p, t)
  {
    RebalanceIsAvl(Plug(p.entry, p.isLeft, t, p.sibling));
  }

  ghost function StopsLeft<V>(p: HeapPath<V>, t: HeapTree<V>): nat {
    2 * Depth(p) + if -1 <= Factor(t) <= 1 then 0 else 1
  }

  lemma {:induction false} FocusIsStale<V>(p: HeapPath<V>, t: HeapTree<V>, root: Node?<V>, c: Cells<V>)
    requires Focus(p, t, root, c) && t.Branch?
    ensures StaleFocus(p, t, root, c)
  {
  }

  lemma {:induction false} NextStop<V>(p: HeapPath<V>, t: HeapTree<V>, h: nat, root: Node?<V>, c: Cells<V>)
      returns (p': HeapPath<V>, t': HeapTree<V>, h': nat)
    requires Repairable(p, t, h) && Focus(p, Rebalance(t), root, c)
    ensures var next := if -1 <= Factor(t) <= 1 then Parent(p) else Root(Rebalance(t));
            && (next == null ==> Focus(Top, BalanceUp(p, t), root, c))
            && (next != null ==>
                  && Root(t') == next && StaleFocus(p', t', root, c) && Repairable(p', t', h')
                  && BalanceUp(p', t') == BalanceUp(p, t) && StopsLeft(p', t') < StopsLeft(p, t))
  {
    hide Focus, StaleFocus;
    if -1 <= Factor(t) <= 1 {
      if p.Under? {
        Ascend(p, t, root, c);
        RepairableAbove(p, t, h);
        p', t', h' := p.up, Plug(p.entry, p.isLeft, t, p.sibling), 1 + Max(h, Height(p.sibling));
      } else {
        p', t', h' := p, t, h;
      }
    } else {
      Repaired(p, t, h);
      FocusIsStale(p, Rebalance(t), root, c);
      p', t', h' := p, Rebalance(t), h;
    }
  }

  // ---------------------------------------------------------------- attaching and splicing

  /** Hanging the subtree that starts at k below g. */
  ghost function Hang<V>(l: bool, g: Node<V>, k: Node?<V>, c: Cells<V>): Cells<V>
    requires g in c && k != g && (k != null ==> k in c)
  {
    var c1 := c[g := c[g].WithKid(l, k)];
    if k == null then c1 else c1[k := c[k].(parent := g)]
  }

  /** A new childless node in an empty hole. */
  lemma {:induction false} Attached<V>(q: HeapPath<V>, e: Entry<Node<V>, V>, root: Node?<V>, c: Cells<V>, c': Cells<V>)
    requires q.Under? && Focus(q, Leaf, root, c) && e.node !in c
    requires c' == c[q.entry.node := c[q.entry.node].WithKid(q.isLeft, e.node)]
                    [e.node := Cell(null, null, q.entry.node, 1, e.key, e.val)]
    ensures Focus(q, Single(e), root, c')
    ensures forall h :: PathMeasured(q, h, c) ==> PathMeasured(q, h, c')
  {
    Redirected(q, null, e.node, c, c');
    forall h | PathMeasured(q, h, c) ensures PathMeasured(q, h, c') { MeasuredFrame(q, h, c, c'); }
  }

  lemma {:induction false} MeasuredFrame<V>(p: HeapPath<V>, h: nat, c: Cells<V>, c': Cells<V>)
    requires PathMeasured(p, h, c) && forall n <- PathNodes(p) :: n in c' && (n in c ==> c'[n].height == c[n].height)
    ensures PathMeasured(p, h, c')
  {
    if p.Under? { MeasuredFrame(p.up, 1 + Max(h, Height(p.sibling)), c, c'); }
  }

  /** Taking out a node x that has at most one child, by hanging that child in its place. */
  lemma {:induction false} Spliced<V>(q: HeapPath<V>, x: HeapTree<V>, l: bool, root: Node?<V>, c: Cells<V>)
    requires q.Under? && x.Branch? && Kid(x, !l).Leaf? && Focus(q, x, root, c)
    ensures var g, k := q.entry.node, Kid(x, l);
            && g in c && Root(k) != g && (Root(k) != null ==> Root(k) in c)
            && Focus(q, k, root, Hang(q.isLeft, g, Root(k), c))
  {
    var g, k := q.entry.node, Kid(x, l);
    assert LaidOut(k, x.entry.node, c);
    assert k.Branch? ==> k.entry.node in Nodes(x) && k.entry.node in c;
    var c' := Hang(q.isLeft, g, Root(k), c);
    Reparented(k, x.entry.node, g, c, c');
    Redirected(q, x.entry.node, Root(k), c, c');
  }

  /** Storing another pair in the top node. */
  lemma {:induction false} Rewritten<V>(p: HeapPath<V>, t: HeapTree<V>, key: int, val: V, root: Node?<V>, c: Cells<V>)
    requires t.Branch? && Focus(p, t, root, c)
    ensures t.entry.node in c
    ensures Focus(p, t.(entry := Entry(t.entry.node, key, val)), root,
                  c[t.entry.node := c[t.entry.node].(key := key, val := val)])
  {
    var n := t.entry.node;
    var c' := c[n := c[n].(key := key, val := val)];
    Frame(t.left, n, c, c');
    Frame(t.right, n, c, c');
    PathFrame(p, n, c, c');
  }

  lemma {:induction false} ExtremeFocus<V>(l: bool, p: HeapPath<V>, t: HeapTree<V>, root: Node?<V>, c: Cells<V>)
    requires t.Branch? && Focus(p, t, root, c)
    ensures Focus(ExtremePath(l, p, t), Extreme(l, t), root, c)
    decreases t
  {
    if Kid(t, l).Branch? {
      Descend(p, t, root, c, l);
      ExtremeFocus(l, Under(p, t.entry, Kid(t, !l), l), Kid(t, l), root, c);
    }
  }

  /** Once the top node of t stores the pair of its in-order neighbour, the neighbour's own node x is the
      one to splice out; it hangs on the inner side of its parent, unless that is the top node. */
  lemma {:induction false} NeighbourFocus<V>(l: bool, p: HeapPath<V>, t: HeapTree<V>, e: Entry<Node<V>, V>, root: Node?<V>, c: Cells<V>)
    requires t.Branch? && Kid(t, !l).Branch? && e.node == t.entry.node
    requires Focus(p, t.(entry := e), root, c) && Avl(Fill(p, t))
    ensures var x, q := Extreme(l, Kid(t, !l)), ExtremePath(l, Under(p, e, Kid(t, l), !l), Kid(t, !l));
            && Focus(q, x, root, c) && Avl(Fill(q, x))
            && q.Under? && q.isLeft == if q.entry.node == t.entry.node then !l else l
  {
    var u, p1 := t.(entry := e), Under(p, e, Kid(t, l), !l);
    FillAvl(p, t);
    FillAvl(p, u);
    Descend(p, u, root, c, !l);
    ExtremeFocus(l, p1, Kid(t, !l), root, c);
    ExtremeFill(l, p1, Kid(t, !l));
    ExtremeSide(l, p1, Kid(t, !l));
  }

  lemma {:induction false} NeighbourPair<V>(l: bool, p: HeapPath<V>, t: HeapTree<V>, root: Node?<V>, c: Cells<V>)
    requires t.Branch? && Kid(t, !l).Branch? && Focus(p, t, root, c)
    ensures var x := Extreme(l, Kid(t, !l)).entry;
            x.node != t.entry.node && x.node in c && c[x.node].key == x.key && c[x.node].val == x.val
  {
    var q := Under(p, t.entry, Kid(t, l), !l);
    Descend(p, t, root, c, !l);
    ExtremeFocus(l, q, Kid(t, !l), root, c);
    ExtremeFill(l, q, Kid(t, !l));
  }

  /** The picture after the top node n has taken over the pair and the children of its only child k. */
  ghost function Absorb<V>(l: bool, n: Node<V>, k: Node<V>, c: Cells<V>): Cells<V>
    requires n in c && k in c && c[k].left != n && c[k].right != n
    requires (c[k].left != null ==> c[k].left in c) && (c[k].right != null ==> c[k].right in c)
  {
    Hang(l, n, c[k].Kid(l), Hang(!l, n, c[k].Kid(!l), c[n := c[n].(key := c[k].key, val := c[k].val)]))
  }

  /** The tree whose top has taken over the pair and the children of its only child. */
  ghost function Raise<V>(t: HeapTree<V>, l: bool): HeapTree<V>
    requires t.Branch? && Kid(t, l).Branch?
  {
    var x := Kid(t, l);
    Branch(x.left, Entry(t.entry.node, x.entry.key, x.entry.val), x.right)
  }

  lemma {:induction false} Absorbed<V>(p: HeapPath<V>, t: HeapTree<V>, l: bool, root: Node?<V>, c: Cells<V>)
    requires t.Branch? && Kid(t, l).Branch? && Kid(t, !l).Leaf? && Focus(p, t, root, c)
    ensures var x := Kid(t, l);
            var n, k, a, b := t.entry.node, x.entry.node, Root(x.left), Root(x.right);
            && n in c && k in c && c[k].left == a && c[k].right == b && a != n && b != n
            && (a != null ==> a in c) && (b != null ==> b in c && a != b)
            && StaleFocus(p, Branch(x.left, Entry(n, x.entry.key, x.entry.val), x.right), root, Absorb(l, n, k, c))
  {
    var x := Kid(t, l);
    var n, k, a, b := t.entry.node, x.entry.node, Root(x.left), Root(x.right);
    assert LaidOut(x, n, c) && Distinct(x);
    assert a != null ==> a in Nodes(x.left);
    assert b != null ==> b in Nodes(x.right);
    var c' := Absorb(l, n, k, c);
    Reparented(x.left, k, n, c, c');
    Reparented(x.right, k, n, c, c');
    PathFrame(p, n, c, c');
  }

  /** Nodes outside the tree do not matter. */
  lemma {:induction false} Restricted<V>(t: HeapTree<V>, root: Node?<V>, c: Cells<V>, c': Cells<V>)
    requires Focus(Top, t, root, c) && forall n <- Nodes(t) :: n in c' && (n in c ==> c'[n] == c[n])
    ensures Focus(Top, t, root, c')
  {
    Frame(t, null, c, c');
  }

  // ---------------------------------------------------------------- climbing

  /** The node n stands in the hole of p. */
  ghost predicate OnPath<V>(p: HeapPath<V>, n: Node<V>, c: Cells<V>) {
    PathDistinct(p) && n !in PathNodes(p) && n in c && c[n].parent == Parent(p) && PathLaidOut(p, n, c)
  }

  lemma {:induction false} Climb<V>(p: HeapPath<V>, n: Node<V>, c: Cells<V>)
    requires OnPath(p, n, c)
    ensures p.Under? ==>
      var g := p.entry.node;
      && g in c && (c[g].right == n <==> !p.isLeft) && (c[g].left == n <==> p.isLeft)
      && OnPath(p.up, g, c)
  {
  }

  class Node<V> {
    var key: int
    var val: V
    var left: Node?<V>
    var right: Node?<V>
    var parent: Node?<V>
    var height: int

    constructor (key: int, val: V)
      ensures this.key == key && this.val == val && left == null && right == null && parent == null && height == 1
    {
      this.key, this.val, this.left, this.right, this.parent, this.height := key, val, null, null, null, 1;
    }

    /** Right height minus left height, read off the cached heights. */
    function BalanceFactor(): int
      reads this, left, right
    {
      (if right != null then right.height else 0) - (if left != null then left.height else 0)
    }

    method UpdateOwnHeight()
      modifies this`height
      ensures height == 1 + Max(if right != null then old(right.height) else 0, if left != null then old(left.height) else 0)
    {
      height := Max(if right != null then right.height else 0, if left != null then left.height else 0) + 1;
    }

    /** The right child takes the place of this node, which becomes its left child. */
    method RotateLeft(m: Map<V>)
      requires right != null && right != this && left != this && left != right && parent != this && parent != right
      requires right.left != this && right.left != right && right.right != this && right.right != right
      modifies this`right, this`parent, this`height, right`left, right`parent, right`height, m`root
      modifies (if right.left == null then {} else {right.left})`parent
      modifies (if parent == null then {} else {parent})`left, (if parent == null then {} else {parent})`right
      ensures right == old(right.left) && parent == old(right)
      ensures height == 1 + Max(if right == null then 0 else right.height, if left == null then 0 else left.height)
      ensures parent.left == this && parent.parent == old(parent)
      ensures parent.height == 1 + Max(if parent.right == null then 0 else parent.right.height, height)
      ensures right != null ==> right.parent == this
      ensures var g := old(parent); g != null ==>
        && g.left == (if old(g.left) == this then old(right) else old(g.left))
        && g.right == (if old(g.left) == this then old(g.right) else old(right))
      ensures m.root == if old(m.root) == this then old(right) else old(m.root)
    {
      var oldRight := right;
      var oldRightLeft := right.left;
      right.left := this;
      right := oldRightLeft;
      oldRight.parent := parent;
      if parent != null {
        if parent.left == this {
          parent.left := oldRight;
        } else {
          parent.right := oldRight;
        }
      }
      parent := oldRight;
      if right != null {
        right.parent := this;
      }
      UpdateOwnHeight();
      oldRight.UpdateOwnHeight();
      if m.root == this {
        m.root := oldRight;
      }
    }

    /** The mirror image: the left child takes the place of this node. */
    method RotateRight(m: Map<V>)
      requires left != null && left != this && right != this && right != left && parent != this && parent != left
      requires left.right != this && left.right != left && left.left != this && left.left != left
      modifies this`left, this`parent, this`height, left`right, left`parent, left`height, m`root
      modifies (if left.right == null then {} else {left.right})`parent
      modifies (if parent == null then {} else {parent})`left, (if parent == null then {} else {parent})`right
      ensures left == old(left.right) && parent == old(left)
      ensures height == 1 + Max(if right == null then 0 else right.height, if left == null then 0 else left.height)
      ensures parent.right == this && parent.parent == old(parent)
      ensures parent.height == 1 + Max(height, if parent.left == null then 0 else parent.left.height)
      ensures left != null ==> left.parent == this
      ensures var g := old(parent); g != null ==>
        && g.left == (if old(g.left) == this then old(left) else old(g.left))
        && g.right == (if old(g.left) == this then old(g.right) else old(left))
      ensures m.root == if old(m.root) == this then old(left) else old(m.root)
    {
      var oldLeft := left;
      var oldLeftRight := left.right;
      left.right := this;
      left := oldLeftRight;
      oldLeft.parent := parent;
      if parent != null {
        if parent.left == this {
          parent.left := oldLeft;
        } else {
          parent.right := oldLeft;
        }
      }
      parent := oldLeft;
      if left != null {
        left.parent := this;
      }
      UpdateOwnHeight();
      oldLeft.UpdateOwnHeight();
      if m.root == this {
        m.root := oldLeft;
      }
    }

    /** A left rotation, on the picture of any set of nodes that covers it. */
    method TurnLeft(m: Map<V>, ghost s: set<Node<V>>)
      requires CanTurn(true, this, Snapshot(s))
      modifies m`root, s
      ensures Snapshot(s) == Turn(true, this, old(Snapshot(s)))
      ensures m.root == if old(m.root) == this then old(right) else old(m.root)
    {
      RotateLeft(m);
    }

    method TurnRight(m: Map<V>, ghost s: set<Node<V>>)
      requires CanTurn(false, this, Snapshot(s))
      modifies m`root, s
      ensures Snapshot(s) == Turn(false, this, old(Snapshot(s)))
      ensures m.root == if old(m.root) == this then old(left) else old(m.root)
    {
      RotateRight(m);
    }
  
    /** A left rotation of the tree t that fills the hole of p. */
    method SpinLeft(m: Map<V>, ghost s: set<Node<V>>, ghost p: HeapPath<V>, ghost t: HeapTree<V>)
      requires Root(t) == this && StaleFocus(p, t, m.root, Snapshot(s)) && t.right.Branch?
      modifies m`root, s
      ensures Focus(p, Rotate(t, true), m.root, Snapshot(s)) && parent == t.right.entry.node
    {
      TurnFocus(true, p, t, m.root, Snapshot(s));
      TurnLeft(m, s);
    }

    method SpinRight(m: Map<V>, ghost s: set<Node<V>>, ghost p: HeapPath<V>, ghost t: HeapTree<V>)
      requires Root(t) == this && StaleFocus(p, t, m.root, Snapshot(s)) && t.left.Branch?
      modifies m`root, s
      ensures Focus(p, Rotate(t, false), m.root, Snapshot(s)) && parent == t.left.entry.node
    {
      TurnFocus(false, p, t, m.root, Snapshot(s));
      TurnRight(m, s);
    }

    /** If the left child is right-heavy, rotate that left first. */
    method SpinLeftThenRight(m: Map<V>, ghost s: set<Node<V>>, ghost p: HeapPath<V>, ghost t: HeapTree<V>)
      requires Root(t) == this && Focus(p, t, m.root, Snapshot(s)) && Factor(t) < -1
      modifies m`root, s
      ensures Focus(p, Rebalance(t), m.root, Snapshot(s)) && parent == Root(Rebalance(t))
    {
      ghost var q, u := Under(p, t.entry, t.right, true), t;
      Descend(p, t, m.root, Snapshot(s), true);
      CachedExact(t.left.left, left, Snapshot(s));
      CachedExact(t.left.right, left, Snapshot(s));
      if left.BalanceFactor() > 0 {
        left.SpinLeft(m, s, q, t.left);
        Ascend(q, Rotate(t.left, true), m.root, Snapshot(s));
        u := t.(left := Rotate(t.left, true));
      }
      SpinRight(m, s, p, u);
    }

    /** If the right child is left-heavy, rotate that right first. */
    method SpinRightThenLeft(m: Map<V>, ghost s: set<Node<V>>, ghost p: HeapPath<V>, ghost t: HeapTree<V>)
      requires Root(t) == this && Focus(p, t, m.root, Snapshot(s)) && Factor(t) > 1
      modifies m`root, s
      ensures Focus(p, Rebalance(t), m.root, Snapshot(s)) && parent == Root(Rebalance(t))
    {
      ghost var q, u := Under(p, t.entry, t.left, false), t;
      Descend(p, t, m.root, Snapshot(s), false);
      CachedExact(t.right.left, right, Snapshot(s));
      CachedExact(t.right.right, right, Snapshot(s));
      if right.BalanceFactor() < 0 {
        right.SpinRight(m, s, q, t.right);
        Ascend(q, Rotate(t.right, false), m.root, Snapshot(s));
        u := t.(right := Rotate(t.right, false));
      }
      SpinLeft(m, s, p, u);
    }

    /** One rotation, or two where the heavier child leans the other way; none where the factor is small. */
    method Balance(m: Map<V>, ghost s: set<Node<V>>, ghost p: HeapPath<V>, ghost t: HeapTree<V>)
      requires Root(t) == this && Focus(p, t, m.root, Snapshot(s))
      modifies m`root, s
      ensures Focus(p, Rebalance(t), m.root, Snapshot(s))
      ensures parent == if -1 <= Factor(t) <= 1 then Parent(p) else Root(Rebalance(t))
    {
      CachedExact(t.left, this, Snapshot(s));
      CachedExact(t.right, this, Snapshot(s));
      var bfc := BalanceFactor();
      if bfc > -2 && bfc < 2 {
        return;
      }
      if bfc < -1 {
        SpinLeftThenRight(m, s, p, t);
      } else {
        SpinRightThenLeft(m, s, p, t);
      }
    }
  
    /** One stop of the walk: `update_own_height`, then `balance`. */
    method Settle(m: Map<V>, ghost s: set<Node<V>>, ghost p: HeapPath<V>, ghost t: HeapTree<V>)
      requires Root(t) == this && StaleFocus(p, t, m.root, Snapshot(s))
      modifies m`root, s
      ensures Focus(p, Rebalance(t), m.root, Snapshot(s))
      ensures parent == if -1 <= Factor(t) <= 1 then Parent(p) else Root(Rebalance(t))
    {
      ghost var c := Snapshot(s);
      Remeasured(p, t, m.root, c);
      UpdateOwnHeight();
      assert Snapshot(s) == c[this := c[this].(height := Height(t))];
      Balance(m, s, p, t);
    }

    /** Updates this node's and its ancestors' heights, rebalancing on the way to the root. */
    method UpdateHeightAndBalance(m: Map<V>, ghost s: set<Node<V>>, ghost p0: HeapPath<V>, ghost t0: HeapTree<V>, ghost h0: nat)
      requires Root(t0) == this && StaleFocus(p0, t0, m.root, Snapshot(s)) && Repairable(p0, t0, h0)
      modifies m`root, s
      ensures Focus(Top, BalanceUp(p0, t0), m.root, Snapshot(s))
    {
      var cur: Node?<V> := this;
      ghost var p, t := p0, t0;
      ghost var h: nat := h0;
      while cur != null
        invariant cur != null ==> Root(t) == cur && StaleFocus(p, t, m.root, Snapshot(s))
        invariant cur != null ==> Repairable(p, t, h) && BalanceUp(p, t) == BalanceUp(p0, t0)
        invariant cur == null ==> Focus(Top, BalanceUp(p0, t0), m.root, Snapshot(s))
        decreases cur != null, StopsLeft(p, t)
      {
        cur.Settle(m, s, p, t);
        cur := cur.parent;
        p, t, h := NextStop(p, t, h, m.root, Snapshot(s));
      }
    }
  
    /** The leftmost node of the right subtree. */
    method SubtreeSuccessor(ghost s: set<Node<V>>, ghost root: Node?<V>, ghost p: HeapPath<V>, ghost t: HeapTree<V>) returns (n: Node?<V>)
      requires Root(t) == this && Focus(p, t, root, Snapshot(s))
      ensures Focus(p, t, root, Snapshot(s))
      ensures t.right.Leaf? ==> n == null
      ensures t.right.Branch? ==> n == Extreme(true, t.right).entry.node
    {
      if right == null {
        return null;
      }
      var cur: Node<V> := right;
      Descend(p, t, root, Snapshot(s), false);
      ghost var q, u := Under(p, t.entry, t.left, false), t.right;
      while cur.left != null
        invariant Focus(p, t, root, Snapshot(s))
        invariant u.Branch? && Root(u) == cur && Focus(q, u, root, Snapshot(s)) && Extreme(true, u) == Extreme(true, t.right)
        decreases u
      {
        Descend(q, u, root, Snapshot(s), true);
        cur := cur.left;
        q, u := Under(q, u.entry, u.right, true), u.left;
      }
      n := cur;
    }

    /** The rightmost node of the left subtree. */
    method SubtreePredecessor(ghost s: set<Node<V>>, ghost root: Node?<V>, ghost p: HeapPath<V>, ghost t: HeapTree<V>) returns (n: Node?<V>)
      requires Root(t) == this && Focus(p, t, root, Snapshot(s))
      ensures Focus(p, t, root, Snapshot(s))
      ensures t.left.Leaf? ==> n == null
      ensures t.left.Branch? ==> n == Extreme(false, t.left).entry.node
    {
      if left == null {
        return null;
      }
      var cur: Node<V> := left;
      Descend(p, t, root, Snapshot(s), true);
      ghost var q, u := Under(p, t.entry, t.right, true), t.left;
      while cur.right != null
        invariant Focus(p, t, root, Snapshot(s))
        invariant u.Branch? && Root(u) == cur && Focus(q, u, root, Snapshot(s)) && Extreme(false, u) == Extreme(false, t.left)
        decreases u
      {
        Descend(q, u, root, Snapshot(s), false);
        cur := cur.right;
        q, u := Under(q, u.entry, u.left, false), u.right;
      }
      n := cur;
    }

    /** The node that follows this one in key order, or null. */
    method InorderSuccessor(ghost s: set<Node<V>>, ghost root: Node?<V>, ghost p0: HeapPath<V>, ghost t0: HeapTree<V>) returns (n: Node?<V>)
      requires Root(t0) == this && Focus(p0, t0, root, Snapshot(s))
      ensures var rest := Inorder(t0.right) + After(p0); n == if rest == [] then null else rest[0].node
    {
      if right != null {
        LeftmostInorder(Top, t0.right);
        assert (Inorder(t0.right) + After(Top))[0] == Extreme(true, t0.right).entry;
        n := SubtreeSuccessor(s, root, p0, t0);
        return;
      }
      var cur: Node<V> := this;
      ghost var p := p0;
      while cur.parent != null && cur.parent.right == cur
        invariant OnPath(p, cur, Snapshot(s)) && After(p) == After(p0)
        decreases p
      {
        Climb(p, cur, Snapshot(s));
        cur, p := cur.parent, p.up;
      }
      Climb(p, cur, Snapshot(s));
      n := cur.parent;
    }

    /** The node that precedes this one in key order, or null. */
    method InorderPredecessor(ghost s: set<Node<V>>, ghost root: Node?<V>, ghost p0: HeapPath<V>, ghost t0: HeapTree<V>) returns (n: Node?<V>)
      requires Root(t0) == this && Focus(p0, t0, root, Snapshot(s))
      ensures var rest := Before(p0) + Inorder(t0.left); n == if rest == [] then null else rest[|rest| - 1].node
    {
      if left != null {
        RightmostInorder(Top, t0.left);
        assert (Before(Top) + Inorder(t0.left))[|Inorder(t0.left)| - 1] == Extreme(false, t0.left).entry;
        n := SubtreePredecessor(s, root, p0, t0);
        return;
      }
      var cur: Node<V> := this;
      ghost var p := p0;
      while cur.parent != null && cur.parent.left == cur
        invariant OnPath(p, cur, Snapshot(s)) && Before(p) == Before(p0)
        decreases p
      {
        Climb(p, cur, Snapshot(s));
        cur, p := cur.parent, p.up;
      }
      Climb(p, cur, Snapshot(s));
      n := cur.parent;
    }

    method HangLeft(k: Node?<V>, ghost s: set<Node<V>>)
      requires this in s && k != this && (k != null ==> k in s)
      modifies s
      ensures Snapshot(s) == Hang(true, this, k, old(Snapshot(s)))
    {
      left := k;
      if left != null {
        left.parent := this;
      }
    }

    method HangRight(k: Node?<V>, ghost s: set<Node<V>>)
      requires this in s && k != this && (k != null ==> k in s)
      modifies s
      ensures Snapshot(s) == Hang(false, this, k, old(Snapshot(s)))
    {
      right := k;
      if right != null {
        right.parent := this;
      }
    }

    method CopyPair(other: Node<V>, ghost s: set<Node<V>>)
      requires this in s
      modifies this`key, this`val
      ensures Snapshot(s) == var c := old(Snapshot(s)); c[this := c[this].(key := other.key, val := other.val)]
      ensures other.key == old(other.key) && other.val == old(other.val)
    {
      key, val := other.key, other.val;
    }

    /** Replaces this node by its only child, the left one: the pair and the children move here. */
    method AbsorbLeft(ghost s: set<Node<V>>)
      requires this in s && left != null && left in s && left != this && left.left != this && left.right != this
      requires (left.left != null ==> left.left in s) && (left.right != null ==> left.right in s)
      modifies s
      ensures Snapshot(s) == Absorb(true, this, old(left), old(Snapshot(s)))
    {
      var oldLeft := left;
      CopyPair(oldLeft, s);
      HangRight(oldLeft.right, s);
      assert oldLeft.left == Snapshot(s)[oldLeft].left;
      HangLeft(oldLeft.left, s);
    }

    /** Replaces this node by its only child, the right one. */
    method AbsorbRight(ghost s: set<Node<V>>)
      requires this in s && right != null && right in s && right != this && right.left != this && right.right != this
      requires (right.left != null ==> right.left in s) && (right.right != null ==> right.right in s)
      modifies s
      ensures Snapshot(s) == Absorb(false, this, old(right), old(Snapshot(s)))
    {
      var oldRight := right;
      CopyPair(oldRight, s);
      HangLeft(oldRight.left, s);
      assert oldRight.right == Snapshot(s)[oldRight].right;
      HangRight(oldRight.right, s);
    }
  }

  class Map<V> {
    var root: Node?<V>
    var size: nat
    ghost var tree: HeapTree<V>

    /** The nodes of t hold t, and `root` is its top: links both ways, pairs and exact cached heights. */
    ghost predicate Stores(t: HeapTree<V>)
      reads this`root, Nodes(t)
    {
      exists c :: c == Snapshot(Nodes(t)) && Focus(Top, t, root, c)
    }

    ghost predicate WellFormed()
      reads this, Nodes(tree)
    {
      Stores(tree) && Avl(tree) && Sorted(Inorder(tree))
    }

    ghost predicate Valid()
      reads this, Nodes(tree)
    {
      WellFormed() && size == |Inorder(tree)|
    }

    /** The finite map that this object stands for. */
    ghost function Model(): map<int, V>
      reads this
    {
      Contents(Inorder(tree))
    }

    lemma SizeIsCount()
      requires Valid()
      ensures size == |Model()|
    {
      ContentsSize(Inorder(tree));
    }

    constructor ()
      ensures Valid() && Model() == map[] && tree == Leaf
    {
      root, size, tree := null, 0, Leaf;
      new;
      assert Focus(Top, tree, root, Snapshot(Nodes(tree)));
    }

    /** The heap holds t, so t is the tree from now on. */
    ghost method Adopt(t: HeapTree<V>, s: set<Node<V>>)
      requires Focus(Top, t, root, Snapshot(s)) && Avl(t) && Sorted(Inorder(t)) && size == |Inorder(t)|
      modifies this`tree
      ensures tree == t && Valid() && Nodes(tree) <= s
    {
      tree := t;
      ghost var c := Snapshot(Nodes(t));
      Restricted(t, root, Snapshot(s), c);
      assert Focus(Top, t, root, c);
    }

    /** A search for key has come to the subtree t. */
    ghost predicate At(p: HeapPath<V>, t: HeapTree<V>, key: int)
      reads this, Nodes(tree)
    {
      && Fill(p, t) == tree && Focus(p, t, root, Snapshot(Nodes(tree)))
      && PathMeasured(p, Height(t), Snapshot(Nodes(tree))) && Brackets(p, key)
    }

    lemma {:induction false} StepDown(p: HeapPath<V>, t: HeapTree<V>, key: int)
      requires Sorted(Inorder(tree)) && At(p, t, key) && t.Branch? && key != t.entry.key
      ensures var l := key < t.entry.key; At(Under(p, t.entry, Kid(t, !l), l), Kid(t, l), key)
      ensures var n := t.entry.node; n.left == Root(t.left) && n.right == Root(t.right)
    {
      Narrow(p, t, key);
      Descend(p, t, root, Snapshot(Nodes(tree)), key < t.entry.key);
    }

    method FindNode(key: int) returns (n: Node?<V>, ghost visited: nat)
      requires Valid()
      ensures Valid() && (n == null <==> key !in Model())
      ensures n != null ==> n in Nodes(tree) && n.key == key && n.val == Model()[key]
      ensures visited <= Height(tree) && Pow2(visited / 2) <= size + 1
    {
      visited := 0;
      var cur := root;
      ghost var p, t := Top, tree;
      while cur != null
        invariant Valid() && cur == Root(t) && At(p, t, key)
        invariant visited + Height(t) <= Height(tree)
        decreases t
      {
        visited := visited + 1;
        if cur.key == key {
          Present(p, t);
          FillDistinct(p, t);
          AvlIsLow(tree, visited);
          return cur, visited;
        }
        StepDown(p, t, key);
        if key < cur.key {
          cur := cur.left;
          p, t := Under(p, t.entry, t.right, true), t.left;
        } else {
          cur := cur.right;
          p, t := Under(p, t.entry, t.left, false), t.right;
        }
      }
      Absent(p, key);
      AvlIsLow(tree, visited);
      n := null;
    }

    /** Hangs a new node in the empty slot below `node`. */
    method Attach(node: Node<V>, left: bool, key: int, val: V, ghost q: HeapPath<V>, ghost s: set<Node<V>>) returns (n: Node<V>)
      requires q.Under? && q.entry.node == node && q.isLeft == left && Focus(q, Leaf, root, Snapshot(s))
      modifies node`left, node`right, this`size
      ensures size == old(size) + 1
      ensures fresh(n) && n.key == key && n.val == val
      ensures Focus(q, Single(Entry(n, key, val)), root, Snapshot(s + {n}))
      ensures forall h :: old(PathMeasured(q, h, Snapshot(s))) ==> PathMeasured(q, h, Snapshot(s + {n}))
    {
      ghost var c := Snapshot(s);
      n := new Node(key, val);
      if left { node.left := n; } else { node.right := n; }
      n.parent := node;
      size := size + 1;
      Attached(q, Entry(n, key, val), root, c, Snapshot(s + {n}));
    }

    /** Rebalances from `node`, which has just got the child e.node, unless it already had another. */
    method AfterAttach(node: Node<V>, ghost q: HeapPath<V>, ghost e: Entry<Node<V>, V>, ghost s: set<Node<V>>)
      requires q.Under? && q.entry.node == node && Focus(q, Single(e), root, Snapshot(s)) && PathMeasured(q, 0, Snapshot(s))
      requires Avl(Fill(q, Leaf))
      modifies this`root, s
      ensures Focus(Top, Inserted(q, e), root, Snapshot(s))
    {
      InsertedIsAvl(q, e);
      if node.height == 1 {
        Ascend(q, Single(e), root, Snapshot(s));
        node.UpdateHeightAndBalance(this, s, q.up, Plug(q.entry, q.isLeft, Single(e), Leaf), 1);
      } else {
        Refilled(q, Single(e), root, Snapshot(s));
      }
    }

    /** Puts a new pair into the empty slot below `node` that a search for its key reached. */
    method InsertAt(node: Node<V>, left: bool, key: int, val: V, ghost q: HeapPath<V>) returns (n: Node<V>)
      requires Avl(tree) && Sorted(Inorder(tree)) && size == |Inorder(tree)|
      requires q.Under? && q.entry.node == node && q.isLeft == left && At(q, Leaf, key)
      modifies this, Nodes(tree)
      ensures Valid() && Model() == old(Model())[key := val] && key !in old(Model())
      ensures fresh(n) && Nodes(tree) == old(Nodes(tree)) + {n} && n.key == key && n.val == val
    {
      hide Focus, PathMeasured, Avl, Inserted, Sorted, Contents, Brackets;
      FillDistinct(q, Leaf);
      ghost var s := Nodes(tree);
      n := Attach(node, left, key, val, q, s);
      ghost var e := Entry(n, key, val);
      InsertedIsAvl(q, e);
      InsertedContents(q, e);
      AfterAttach(node, q, e, s + {n});
      Adopt(Inserted(q, e), s + {n});
      InsertedKeepsEntries(q, e);
      StoredKey(|Before(q)|);
    }

    method InsertRoot(key: int, val: V) returns (n: Node<V>)
      requires Valid() && root == null
      modifies this
      ensures Valid() && Model() == old(Model())[key := val] && key !in old(Model())
      ensures fresh(n) && Nodes(tree) == old(Nodes(tree)) + {n} && n.key == key && n.val == val
    {
      n := new Node(key, val);
      root := n;
      size := size + 1;
      InsertedContents(Top, Entry(n, key, val));
      Adopt(Single(Entry(n, key, val)), {n});
    }

    /** Inserts the pair; returns its node, or null if the key was there already. */
    method Insert(key: int, val: V) returns (n: Node?<V>)
      requires Valid()
      modifies this, Nodes(tree)
      ensures Valid()
      ensures n == null <==> key in old(Model())
      ensures n == null ==> Model() == old(Model()) && Nodes(tree) == old(Nodes(tree))
      ensures n != null ==> Model() == old(Model())[key := val] && fresh(n) && Nodes(tree) == old(Nodes(tree)) + {n}
      ensures n != null ==> n.key == key && n.val == val
    {
      if root == null {
        n := InsertRoot(key, val);
        return;
      }
      var cur: Node<V> := root;
      ghost var p, t := Top, tree;
      while true
        invariant Valid() && unchanged(this)
        invariant t.Branch? && cur == Root(t) && At(p, t, key)
        decreases t
      {
        if cur.key == key {
          Present(p, t);
          return null;
        }
        StepDown(p, t, key);
        ghost var q := Under(p, t.entry, Kid(t, !(key < cur.key)), key < cur.key);
        if key < cur.key {
          if cur.left != null {
            cur, p, t := cur.left, q, t.left;
          } else {
            n := InsertAt(cur, true, key, val, q);
            return;
          }
        } else {
          if cur.right != null {
            cur, p, t := cur.right, q, t.right;
          } else {
            n := InsertAt(cur, false, key, val, q);
            return;
          }
        }
      }
    }

    /** The stored value of key, if any. */
    method Get(key: int) returns (n: Node?<V>)
      requires Valid()
      ensures Valid() && (n == null <==> key !in Model())
      ensures n != null ==> n in Nodes(tree) && n.key == key && n.val == Model()[key]
    {
      ghost var visited;
      n, visited := FindNode(key);
    }

    /** The node of key, which is inserted with a default value if it is missing. */
    method Index(key: int, default: V) returns (n: Node<V>)
      requires Valid()
      modifies this, Nodes(tree)
      ensures Valid() && n in Nodes(tree) && key in Model() && n.key == key && n.val == Model()[key]
      ensures Model() == if key in old(Model()) then old(Model()) else old(Model())[key := default]
      ensures Nodes(tree) == old(Nodes(tree)) || (fresh(n) && Nodes(tree) == old(Nodes(tree)) + {n})
    {
      var found, visited := FindNode(key);
      if found == null {
        var fresh_ := Insert(key, default);
        return fresh_;
      }
      return found;
    }

    // -------------------------------------------------------------- removal

    /** The subtree t, found below the path p, is the one whose top entry goes. */
    ghost predicate Erasing(p: HeapPath<V>, t: HeapTree<V>)
      reads this, Nodes(tree)
    {
      && t.Branch? && Fill(p, t) == tree && Avl(tree) && Sorted(Inorder(tree)) && size + 1 == |Inorder(tree)|
      && exists c :: c == Snapshot(Nodes(tree)) && Focus(p, t, root, c)
    }

    /** Hangs the only subtree of x, which starts at k, below g in the place of x. */
    method HangBelow(g: Node<V>, left: bool, k: Node?<V>, ghost q: HeapPath<V>, ghost x: HeapTree<V>, ghost l: bool, ghost s: set<Node<V>>)
      requires q.Under? && x.Branch? && Kid(x, !l).Leaf? && Focus(q, x, root, Snapshot(s))
      requires g == q.entry.node && left == q.isLeft && k == Root(Kid(x, l))
      modifies s
      ensures StaleFocus(q.up, Plug(q.entry, left, Kid(x, l), q.sibling), root, Snapshot(s))
    {
      Spliced(q, x, l, root, Snapshot(s));
      if left { g.HangLeft(k, s); } else { g.HangRight(k, s); }
      Ascend(q, Kid(x, l), root, Snapshot(s));
    }

    /** Takes x out by hanging its only subtree, which starts at k, below g; then rebalances from g. */
    method SpliceOut(g: Node<V>, left: bool, k: Node?<V>, ghost q: HeapPath<V>, ghost x: HeapTree<V>, ghost l: bool, ghost s: set<Node<V>>)
      requires q.Under? && x.Branch? && Kid(x, !l).Leaf? && Focus(q, x, root, Snapshot(s)) && Avl(Fill(q, x))
      requires g == q.entry.node && left == q.isLeft && k == Root(Kid(x, l))
      modifies this`root, s
      ensures Focus(Top, Closed(q, Kid(x, l)), root, Snapshot(s))
    {
      hide Focus, StaleFocus, Repairable, BalanceUp;
      FillAvl(q, x);
      Shrunk(q, Kid(x, l), Height(x));
      HangBelow(g, left, k, q, x, l, s);
      g.UpdateHeightAndBalance(this, s, q.up, Plug(q.entry, left, Kid(x, l), q.sibling), 1 + Max(Height(x), Height(q.sibling)));
    }

    /** A search begins at the root, */
    lemma StartAt(key: int)
      requires Valid()
      ensures At(Top, tree, key) && root == Root(tree)
    {
    }

    /** and ends at the key, which can then be erased, */
    lemma FoundAt(p: HeapPath<V>, t: HeapTree<V>, key: int)
      requires Valid() && At(p, t, key) && t.Branch?
      ensures t.entry.node.key == t.entry.key && t.entry.key in Model() && |Inorder(tree)| > 0
    {
      Present(p, t);
    }

    lemma ErasingAt(p: HeapPath<V>, t: HeapTree<V>, key: int)
      requires WellFormed() && size + 1 == |Inorder(tree)| && At(p, t, key) && t.Branch?
      ensures Erasing(p, t)
    {
    }

    /** or nowhere. */
    lemma AbsentAt(p: HeapPath<V>, t: HeapTree<V>, key: int)
      requires Valid() && At(p, t, key) && t.Leaf?
      ensures key !in Model()
    {
      Absent(p, key);
    }

    lemma ErasingDistinct(p: HeapPath<V>, t: HeapTree<V>)
      requires Erasing(p, t)
      ensures Distinct(Fill(p, t)) && t.entry.node in Nodes(Fill(p, t))
    {
      FillDistinct(p, t);
    }

    /** Removes a node without children that is not the root. */
    method EraseLeaf(cur: Node<V>, prev: Node<V>, ghost p: HeapPath<V>, ghost t: HeapTree<V>)
      requires Erasing(p, t) && cur == Root(t) && prev == Parent(p) && t.left.Leaf? && t.right.Leaf?
      modifies this, Nodes(tree)
      ensures Valid() && Model() == old(Model()) - {t.entry.key}
      ensures cur in old(Nodes(tree)) && Nodes(tree) == old(Nodes(tree)) - {cur}
    {
      ghost var s := Nodes(tree);
      LeafErases(p, t);
      ClosedFacts(p, t, true);
      ErasingDistinct(p, t);
      ClosedNodes(p, t, true);
      SpliceOut(prev, prev.left == cur, null, p, t, true, s);
      Adopt(Closed(p, t.left), s);
    }

    method EraseLastNode(ghost t: HeapTree<V>)
      requires Erasing(Top, t) && t.left.Leaf? && t.right.Leaf?
      modifies this
      ensures Valid() && Model() == old(Model()) - {t.entry.key}
      ensures Root(t) in old(Nodes(tree)) && Nodes(tree) == old(Nodes(tree)) - {Root(t)}
    {
      hide Sorted, Contents;
      LeafErases(Top, t);
      root := null;
      Adopt(Leaf, {});
    }

    /** Copies the pair of the in-order neighbour on one side into cur, and splices the neighbour out. */
    method TakeNeighbour(cur: Node<V>, neighbour: Node<V>, l: bool, ghost p: HeapPath<V>, ghost t: HeapTree<V>,
                         ghost q: HeapPath<V>, ghost x: HeapTree<V>, ghost s: set<Node<V>>)
      requires t.Branch? && cur == Root(t) && Kid(t, !l).Branch? && x == Extreme(l, Kid(t, !l)) && neighbour == x.entry.node
      requires q == ExtremePath(l, Under(p, Entry(t.entry.node, x.entry.key, x.entry.val), Kid(t, l), !l), Kid(t, !l))
      requires Focus(p, t, root, Snapshot(s)) && Avl(Fill(p, t))
      modifies this`root, s
      ensures q.Under? && Avl(Fill(q, x)) && Focus(Top, Closed(q, Kid(x, !l)), root, Snapshot(s))
    {
      ghost var e := Entry(t.entry.node, x.entry.key, x.entry.val);
      Rewritten(p, t, e.key, e.val, root, Snapshot(s));
      NeighbourPair(l, p, t, root, Snapshot(s));
      cur.CopyPair(neighbour, s);
      NeighbourFocus(l, p, t, e, root, Snapshot(s));
      var k := if l then neighbour.right else neighbour.left;
      if neighbour.parent == cur {
        SpliceOut(cur, !l, k, q, x, !l, s);
      } else {
        SpliceOut(neighbour.parent, l, k, q, x, !l, s);
      }
    }

    /** Removes the pair of a node that has a right child: the successor's pair takes its place. */
    method EraseBySuccessor(cur: Node<V>, successor: Node<V>, ghost p: HeapPath<V>, ghost t: HeapTree<V>)
      requires Erasing(p, t) && cur == Root(t) && t.right.Branch? && successor == Extreme(true, t.right).entry.node
      modifies this, Nodes(tree)
      ensures Valid() && Model() == old(Model()) - {t.entry.key}
      ensures successor in old(Nodes(tree)) && Nodes(tree) == old(Nodes(tree)) - {successor}
    {
      ghost var s, x := Nodes(tree), Extreme(true, t.right);
      ghost var q := ExtremePath(true, Under(p, Entry(t.entry.node, x.entry.key, x.entry.val), t.left, false), t.right);
      SuccessorErases(p, t);
      ErasingDistinct(p, t);
      NeighbourNodes(true, p, t, Entry(t.entry.node, x.entry.key, x.entry.val));
      TakeNeighbour(cur, successor, true, p, t, q, x, s);
      ClosedFacts(q, x, false);
      Adopt(Closed(q, x.right), s);
    }

    /** Removes the pair of a node that has a left child: the predecessor's pair takes its place. */
    method EraseByPredecessor(cur: Node<V>, predecessor: Node<V>, ghost p: HeapPath<V>, ghost t: HeapTree<V>)
      requires Erasing(p, t) && cur == Root(t) && t.left.Branch? && predecessor == Extreme(false, t.left).entry.node
      modifies this, Nodes(tree)
      ensures Valid() && Model() == old(Model()) - {t.entry.key}
      ensures predecessor in old(Nodes(tree)) && Nodes(tree) == old(Nodes(tree)) - {predecessor}
    {
      ghost var s, x := Nodes(tree), Extreme(false, t.left);
      ghost var q := ExtremePath(false, Under(p, Entry(t.entry.node, x.entry.key, x.entry.val), t.right, true), t.left);
      PredecessorErases(p, t);
      ErasingDistinct(p, t);
      NeighbourNodes(false, p, t, Entry(t.entry.node, x.entry.key, x.entry.val));
      TakeNeighbour(cur, predecessor, false, p, t, q, x, s);
      ClosedFacts(q, x, true);
      Adopt(Closed(q, x.left), s);
    }

    /** Moves the pair and the children of the only child of cur up into cur, and rebalances from there. */
    method RaiseChild(cur: Node<V>, left: bool, ghost p: HeapPath<V>, ghost t: HeapTree<V>, ghost u: HeapTree<V>, ghost s: set<Node<V>>)
      requires t.Branch? && cur == Root(t) && Kid(t, left).Branch? && Kid(t, !left).Leaf? && Focus(p, t, root, Snapshot(s))
      requires u == Raise(t, left) && Repairable(p, u, Height(t))
      modifies this`root, s
      ensures Focus(Top, BalanceUp(p, u), root, Snapshot(s))
    {
      Absorbed(p, t, left, root, Snapshot(s));
      if left { cur.AbsorbLeft(s); } else { cur.AbsorbRight(s); }
      cur.UpdateHeightAndBalance(this, s, p, u, Height(t));
    }

    /** Removes the pair of a node with only one child: the child's pair and children move up. */
    method EraseByOnlyChild(cur: Node<V>, left: bool, ghost p: HeapPath<V>, ghost t: HeapTree<V>)
      requires Erasing(p, t) && cur == Root(t) && Kid(t, left).Branch? && Kid(t, !left).Leaf?
      modifies this, Nodes(tree)
      ensures Valid() && Model() == old(Model()) - {t.entry.key}
      ensures var child := Root(Kid(t, left)); child in old(Nodes(tree)) && Nodes(tree) == old(Nodes(tree)) - {child}
    {
      hide Focus, Repairable, Avl, Sorted, BalanceUp;
      ghost var s, u := Nodes(tree), Raise(t, left);
      OnlyChildErases(p, t, left);
      Raised(p, t, left);
      ErasingDistinct(p, t);
      RaisedNodes(p, t, left);
      RaiseChild(cur, left, p, t, u, s);
      Adopt(BalanceUp(p, u), s);
    }

    /** Removes key and its value, if present. */
    method Erase(key: int) returns (ghost gone: Node?<V>)
      requires Valid()
      modifies this, Nodes(tree)
      ensures Valid() && Model() == old(Model()) - {key} && (gone == null <==> key !in old(Model()))
      ensures if gone == null then Nodes(tree) == old(Nodes(tree)) else gone in old(Nodes(tree)) && Nodes(tree) == old(Nodes(tree)) - {gone}
    {
      hide Focus, Avl, Sorted, Inorder, Brackets, PathMeasured;
      var prev: Node?<V>, cur := null, root;
      ghost var p, t := Top, tree;
      StartAt(key);
      while cur != null
        invariant Valid() && unchanged(this)
        invariant cur == Root(t) && prev == Parent(p) && At(p, t, key)
        decreases t
      {
        FoundAt(p, t, key);
        if cur.key == key {
          size := size - 1;
          ErasingAt(p, t, key);
          gone := EraseHere(cur, prev, p, t);
          return;
        }
        StepDown(p, t, key);
        prev := cur;
        if key < cur.key {
          cur := cur.left;
          p, t := Under(p, t.entry, t.right, true), t.left;
        } else {
          cur := cur.right;
          p, t := Under(p, t.entry, t.left, false), t.right;
        }
      }
      AbsentAt(p, t, key);
      gone := null;
    }

    /** The six ways in which a node that was found goes. */
    method EraseHere(cur: Node<V>, prev: Node?<V>, ghost p: HeapPath<V>, ghost t: HeapTree<V>) returns (ghost gone: Node<V>)
      requires Erasing(p, t) && cur == Root(t) && prev == Parent(p)
      modifies this, Nodes(tree)
      ensures Valid() && Model() == old(Model()) - {t.entry.key}
      ensures gone in old(Nodes(tree)) && Nodes(tree) == old(Nodes(tree)) - {gone}
    {
      gone := cur;
      if cur.left == null && cur.right == null {
        if prev == null {
          EraseLastNode(t);
        } else {
          EraseLeaf(cur, prev, p, t);
        }
      } else if cur == root || cur == prev.right {
        var successor := cur.SubtreeSuccessor(Nodes(tree), root, p, t);
        if successor != null {
          EraseBySuccessor(cur, successor, p, t);
          gone := successor;
        } else {
          EraseByOnlyChild(cur, true, p, t);
          gone := Root(t.left);
        }
      } else {
        var predecessor := cur.SubtreePredecessor(Nodes(tree), root, p, t);
        if predecessor != null {
          EraseByPredecessor(cur, predecessor, p, t);
          gone := predecessor;
        } else {
          EraseByOnlyChild(cur, false, p, t);
          gone := Root(t.right);
        }
      }
    }

    // -------------------------------------------------------------- iteration

    /** The first node in key order. */
    method Begin() returns (n: Node?<V>)
      requires Valid()
      ensures Valid()
      ensures n == if Inorder(tree) == [] then null else Inorder(tree)[0].node
    {
      if root == null {
        return null;
      }
      var cur: Node<V> := root;
      ghost var p, t := Top, tree;
      while cur.left != null
        invariant Valid() && t.Branch? && cur == Root(t) && Focus(p, t, root, Snapshot(Nodes(tree)))
        invariant Before(p) == [] && Fill(p, t) == tree
        decreases t
      {
        Descend(p, t, root, Snapshot(Nodes(tree)), true);
        cur := cur.left;
        p, t := Under(p, t.entry, t.right, true), t.left;
      }
      Neighbours(p, t, 0);
      n := cur;
    }

    /** `operator++` on the i-th node. */
    method Next(n: Node<V>, ghost i: nat) returns (r: Node?<V>)
      requires Valid() && i < |Inorder(tree)| && Inorder(tree)[i].node == n
      ensures Valid()
      ensures r == if i + 1 < |Inorder(tree)| then Inorder(tree)[i + 1].node else null
    {
      ghost var p, t := Locate(Top, tree, i);
      Neighbours(p, t, i);
      Zoom(p, t, root, Snapshot(Nodes(tree)));
      assert Inorder(tree)[i + 1..] == Inorder(t.right) + After(p);
      r := n.InorderSuccessor(Nodes(tree), root, p, t);
    }

    /** `operator--` on the i-th node, or on the end of the map. */
    method Previous(n: Node?<V>, ghost i: nat) returns (r: Node?<V>)
      requires Valid() && i <= |Inorder(tree)|
      requires n == if i == |Inorder(tree)| then null else Inorder(tree)[i].node
      ensures Valid()
      ensures r == if i == 0 then null else Inorder(tree)[i - 1].node
    {
      hide Focus, Avl, Sorted;
      if n == null {
        r := Last();
      } else {
        ghost var p, t := Locate(Top, tree, i);
        Neighbours(p, t, i);
        Zoom(p, t, root, Snapshot(Nodes(tree)));
        assert Inorder(tree)[..i] == Before(p) + Inorder(t.left);
        r := n.InorderPredecessor(Nodes(tree), root, p, t);
      }
    }

    method Last() returns (n: Node?<V>)
      requires Valid()
      ensures Valid()
      ensures var s := Inorder(tree); n == if s == [] then null else s[|s| - 1].node
    {
      if root == null {
        return null;
      }
      var cur: Node<V> := root;
      ghost var p, t := Top, tree;
      while cur.right != null
        invariant Valid() && t.Branch? && cur == Root(t) && Focus(p, t, root, Snapshot(Nodes(tree)))
        invariant After(p) == [] && Fill(p, t) == tree
        decreases t
      {
        Descend(p, t, root, Snapshot(Nodes(tree)), false);
        cur := cur.right;
        p, t := Under(p, t.entry, t.left, false), t.right;
      }
      Neighbours(p, t, |Before(p)| + |Inorder(t.left)|);
      n := cur;
    }

    /** Walking from `begin` with `operator++` visits every key once, in increasing order. */
    method Keys() returns (keys: seq<int>)
      requires Valid()
      ensures |keys| == size && (forall k :: k in keys <==> k in Model())
      ensures forall i, j :: 0 <= i < j < |keys| ==> keys[i] < keys[j]
    {
      keys := [];
      var cur := Begin();
      ghost var i := 0;
      while cur != null
        invariant Valid() && 0 <= i <= |Inorder(tree)|
        invariant cur == if i == |Inorder(tree)| then null else Inorder(tree)[i].node
        invariant |keys| == i && forall j :: 0 <= j < i ==> keys[j] == Inorder(tree)[j].key
        decreases |Inorder(tree)| - i
      {
        StoredKey(i);
        keys := keys + [cur.key];
        cur := Next(cur, i);
        i := i + 1;
      }
      ContentsKeys(Inorder(tree), keys);
    }

    lemma {:induction false} StoredKey(i: nat)
      requires Valid() && i < |Inorder(tree)|
      ensures var e := Inorder(tree)[i]; e.node.key == e.key && e.node.val == e.val
    {
      var p, t := Locate(Top, tree, i);
      Zoom(p, t, root, Snapshot(Nodes(tree)));
    }
  }
}
