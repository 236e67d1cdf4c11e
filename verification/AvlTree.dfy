/**
  The mathematics behind `kstd::map`: trees whose nodes carry the identity of the heap node that
  stores them, the same trees with a hole (the path from a node up to the root), the rotations, and
  the upward walk that restores balance after an update.

  Nothing here touches the heap; module AvlMap shows that the pointer code computes these functions.
 */
module AvlTree {
  import opened Helpers

  /** One stored pair, together with the heap node that holds it. */
  datatype Entry<N, V> = Entry(node: N, key: int, val: V)

  datatype Tree<N, V> = Leaf | Branch(left: Tree<N, V>, entry: Entry<N, V>, right: Tree<N, V>)

  /** A tree with a hole. `Under(up, e, sibling, true)` is the hole left of `e`. */
  datatype Path<N, V> = Top | Under(up: Path<N, V>, entry: Entry<N, V>, sibling: Tree<N, V>, isLeft: bool)

  function Max(a: int, b: int): (m: int)
    ensures m >= a && m >= b && (m == a || m == b)
  {
    if a < b then b else a
  }

  ghost function Height<N, V>(t: Tree<N, V>): nat {
    if t.Leaf? then 0 else 1 + Max(Height(t.left), Height(t.right))
  }

  /** Right height minus left height, as `balance_factor` computes it. */
  ghost function Factor<N, V>(t: Tree<N, V>): int {
    if t.Leaf? then 0 else Height(t.right) - Height(t.left)
  }

  ghost predicate Avl<N, V>(t: Tree<N, V>) {
    t.Branch? ==> -1 <= Factor(t) <= 1 && Avl(t.left) && Avl(t.right)
  }

  ghost function Inorder<N, V>(t: Tree<N, V>): seq<Entry<N, V>> {
    if t.Leaf? then [] else Inorder(t.left) + [t.entry] + Inorder(t.right)
  }

  ghost function Nodes<N, V>(t: Tree<N, V>): set<N> {
    if t.Leaf? then {} else Nodes(t.left) + {t.entry.node} + Nodes(t.right)
  }

  /** No heap node is used twice. */
  ghost predicate Distinct<N, V>(t: Tree<N, V>) {
    t.Branch? ==>
      && Distinct(t.left) && Distinct(t.right)
      && t.entry.node !in Nodes(t.left) && t.entry.node !in Nodes(t.right)
      && Nodes(t.left) !! Nodes(t.right)
  }

  // ---------------------------------------------------------------- trees with a hole

  ghost function Plug<N, V>(e: Entry<N, V>, isLeft: bool, t: Tree<N, V>, sibling: Tree<N, V>): Tree<N, V> {
    if isLeft then Branch(t, e, sibling) else Branch(sibling, e, t)
  }

  ghost function Fill<N, V>(p: Path<N, V>, t: Tree<N, V>): Tree<N, V> {
    if p.Top? then t else Fill(p.up, Plug(p.entry, p.isLeft, t, p.sibling))
  }

  ghost function Depth<N, V>(p: Path<N, V>): nat { if p.Top? then 0 else 1 + Depth(p.up) }

  ghost function PathNodes<N, V>(p: Path<N, V>): set<N> {
    if p.Top? then {} else PathNodes(p.up) + {p.entry.node} + Nodes(p.sibling)
  }

  ghost predicate PathDistinct<N, V>(p: Path<N, V>) {
    p.Under? ==>
      && PathDistinct(p.up) && Distinct(p.sibling)
      && p.entry.node !in PathNodes(p.up) && p.entry.node !in Nodes(p.sibling)
      && PathNodes(p.up) !! Nodes(p.sibling)
  }

  ghost function Before<N, V>(p: Path<N, V>): seq<Entry<N, V>> {
    if p.Top? then [] else if p.isLeft then Before(p.up) else Before(p.up) + Inorder(p.sibling) + [p.entry]
  }

  ghost function After<N, V>(p: Path<N, V>): seq<Entry<N, V>> {
    if p.Top? then [] else if p.isLeft then [p.entry] + Inorder(p.sibling) + After(p.up) else After(p.up)
  }

  /** The path is balanced when a tree of height h fills the hole. */
  ghost predicate PathAvl<N, V>(p: Path<N, V>, h: nat) {
    p.Under? ==>
      && Avl(p.sibling)
      && -1 <= Height(p.sibling) - h <= 1
      && PathAvl(p.up, 1 + Max(h, Height(p.sibling)))
  }

  lemma {:induction false} FillInorder<N, V>(p: Path<N, V>, t: Tree<N, V>)
    ensures Inorder(Fill(p, t)) == Before(p) + Inorder(t) + After(p)
  {
    if p.Under? {
      FillInorder(p.up, Plug(p.entry, p.isLeft, t, p.sibling));
      PlugInorder(p, t);
    }
  }

  lemma {:induction false} PlugInorder<N, V>(p: Path<N, V>, t: Tree<N, V>)
    requires p.Under?
    ensures Before(p.up) + Inorder(Plug(p.entry, p.isLeft, t, p.sibling)) + After(p.up) == Before(p) + Inorder(t) + After(p)
  {
    PlugSeq(Before(p.up), Inorder(t), p.entry, Inorder(p.sibling), After(p.up));
  }

  lemma {:induction false} PlugSeq<T>(a: seq<T>, t: seq<T>, e: T, s: seq<T>, b: seq<T>)
    ensures a + (t + [e] + s) + b == a + t + ([e] + s + b) && a + (s + [e] + t) + b == (a + s + [e]) + t + b
  {
  }

  lemma {:induction false} FillDistinct<N, V>(p: Path<N, V>, t: Tree<N, V>)
    ensures Nodes(Fill(p, t)) == PathNodes(p) + Nodes(t)
    ensures Distinct(Fill(p, t)) <==> PathDistinct(p) && Distinct(t) && PathNodes(p) !! Nodes(t)
  {
    if p.Under? { FillDistinct(p.up, Plug(p.entry, p.isLeft, t, p.sibling)); }
  }

  lemma {:induction false} FillAvl<N, V>(p: Path<N, V>, t: Tree<N, V>)
    ensures Avl(Fill(p, t)) <==> Avl(t) && PathAvl(p, Height(t))
  {
    if p.Under? {
      var u, s := Plug(p.entry, p.isLeft, t, p.sibling), p.sibling;
      assert Height(u) == 1 + Max(Height(t), Height(s));
      assert Avl(u) <==> Avl(t) && Avl(s) && -1 <= Height(s) - Height(t) <= 1;
      FillAvl(p.up, u);
    }
  }

  // ---------------------------------------------------------------- rotations

  ghost function Kid<N, V>(t: Tree<N, V>, left: bool): Tree<N, V>
    requires t.Branch?
  {
    if left then t.left else t.right
  }

  /** A left (or right) rotation: the right (left) child rises above its parent. */
  ghost function Rotate<N, V>(t: Tree<N, V>, left: bool): Tree<N, V>
    requires t.Branch? && Kid(t, !left).Branch?
  {
    var r := Kid(t, !left);
    Plug(r.entry, left, Plug(t.entry, left, Kid(t, left), Kid(r, left)), Kid(r, !left))
  }

  /** What `Node::balance` turns a tree into: nothing, one rotation, or two. */
  ghost function Rebalance<N, V>(t: Tree<N, V>): Tree<N, V>
    requires t.Branch?
  {
    if Factor(t) < -1 then
      Rotate(if Factor(t.left) > 0 then t.(left := Rotate(t.left, true)) else t, false)
    else if Factor(t) > 1 then
      Rotate(if Factor(t.right) < 0 then t.(right := Rotate(t.right, false)) else t, true)
    else t
  }

  lemma {:induction false} RotateKeepsEntries<N, V>(t: Tree<N, V>, left: bool)
    requires t.Branch? && Kid(t, !left).Branch?
    ensures Inorder(Rotate(t, left)) == Inorder(t) && Nodes(Rotate(t, left)) == Nodes(t)
    ensures Distinct(Rotate(t, left)) <==> Distinct(t)
    decreases !left
  {
    if left {
      var a, b, c := Inorder(t.left), Inorder(t.right.left), Inorder(t.right.right);
      assert a + [t.entry] + (b + [t.right.entry] + c) == (a + [t.entry] + b) + [t.right.entry] + c;
    } else {
      assert Rotate(Rotate(t, false), true) == t;
      RotateKeepsEntries(Rotate(t, false), true);
    }
  }

  lemma {:induction false} RebalanceKeepsEntries<N, V>(t: Tree<N, V>)
    requires t.Branch?
    ensures Rebalance(t).Branch? && Inorder(Rebalance(t)) == Inorder(t) && Nodes(Rebalance(t)) == Nodes(t)
    ensures Distinct(t) ==> Distinct(Rebalance(t))
  {
    if Factor(t) < -1 {
      if Factor(t.left) > 0 {
        RotateKeepsEntries(t.left, true);
        RotateKeepsEntries(t.(left := Rotate(t.left, true)), false);
      } else {
        RotateKeepsEntries(t, false);
      }
    } else if Factor(t) > 1 {
      if Factor(t.right) < 0 {
        RotateKeepsEntries(t.right, false);
        RotateKeepsEntries(t.(right := Rotate(t.right, false)), true);
      } else {
        RotateKeepsEntries(t, true);
      }
    }
  }

  /** One call of `balance` repairs a node whose subtrees are balanced and differ by at most two,
      and costs at most one level. */
  lemma {:induction false} RebalanceIsAvl<N, V>(t: Tree<N, V>)
    requires t.Branch? && Avl(t.left) && Avl(t.right) && -2 <= Factor(t) <= 2
    ensures Avl(Rebalance(t))
    ensures Height(t) - 1 <= Height(Rebalance(t)) <= Height(t)
  {
    if Factor(t) == -2 {
      LeftHeavy(t);
    } else if Factor(t) == 2 {
      RightHeavy(t);
    }
  }

  lemma {:induction false} LeftHeavy<N, V>(t: Tree<N, V>)
    requires t.Branch? && Avl(t.left) && Avl(t.right) && Factor(t) == -2
    ensures Avl(Rebalance(t))
    ensures Height(t) - 1 <= Height(Rebalance(t)) <= Height(t)
  {
    if Factor(t.left) > 0 {
      var u := t.(left := Rotate(t.left, true));
      assert Rebalance(t) == Rotate(u, false);
      assert Avl(Rotate(u, false).left) && Height(Rotate(u, false).left) == Height(t.right) + 1;
    }
  }

  lemma {:induction false} RightHeavy<N, V>(t: Tree<N, V>)
    requires t.Branch? && Avl(t.left) && Avl(t.right) && Factor(t) == 2
    ensures Avl(Rebalance(t))
    ensures Height(t) - 1 <= Height(Rebalance(t)) <= Height(t)
  {
    if Factor(t.right) < 0 {
      var u := t.(right := Rotate(t.right, false));
      assert Rebalance(t) == Rotate(u, true);
      assert Avl(Rotate(u, true).right) && Height(Rotate(u, true).right) == Height(t.left) + 1;
    }
  }

  // ---------------------------------------------------------------- the walk to the root

  /** The tree left behind by `update_height_and_balance` started at the root of t. */
  ghost function BalanceUp<N, V>(p: Path<N, V>, t: Tree<N, V>): Tree<N, V>
    requires t.Branch?
    decreases p
  {
    RebalanceKeepsEntries(t);
    if p.Top? then Rebalance(t) else BalanceUp(p.up, Plug(p.entry, p.isLeft, Rebalance(t), p.sibling))
  }

  lemma {:induction false} BalanceUpKeepsEntries<N, V>(p: Path<N, V>, t: Tree<N, V>)
    requires t.Branch?
    ensures Inorder(BalanceUp(p, t)) == Before(p) + Inorder(t) + After(p)
    decreases p
  {
    hide Inorder;
    RebalanceKeepsEntries(t);
    if p.Under? {
      BalanceUpKeepsEntries(p.up, Plug(p.entry, p.isLeft, Rebalance(t), p.sibling));
      PlugInorder(p, Rebalance(t));
    } else {
      assert Before(p) == [] && After(p) == [];
    }
  }

  lemma {:induction false} BalanceUpKeepsNodes<N, V>(p: Path<N, V>, t: Tree<N, V>)
    requires t.Branch?
    ensures Nodes(BalanceUp(p, t)) == PathNodes(p) + Nodes(t)
    ensures PathDistinct(p) && Distinct(t) && PathNodes(p) !! Nodes(t) ==> Distinct(BalanceUp(p, t))
    decreases p
  {
    RebalanceKeepsEntries(t);
    if p.Under? { BalanceUpKeepsNodes(p.up, Plug(p.entry, p.isLeft, Rebalance(t), p.sibling)); }
  }

  /** The hole of p used to hold a tree of height h in a balanced whole, and t is at most one step
      away from a balanced tree that fits there. */
  ghost predicate Repairable<N, V>(p: Path<N, V>, t: Tree<N, V>, h: nat) {
    && t.Branch? && Avl(t.left) && Avl(t.right) && -2 <= Factor(t) <= 2
    && PathAvl(p, h) && h - 1 <= Height(Rebalance(t)) <= h + 1
  }

  /** If the hole used to hold a balanced tree of height h and now holds one that is out by at most
      one level, the walk restores balance everywhere. */
  lemma {:induction false} BalanceUpIsAvl<N, V>(p: Path<N, V>, t: Tree<N, V>, h: nat)
    requires Repairable(p, t, h)
    ensures Avl(BalanceUp(p, t))
    decreases p
  {
    RebalanceIsAvl(t);
    RebalanceKeepsEntries(t);
    if p.Under? {
      var next := Plug(p.entry, p.isLeft, Rebalance(t), p.sibling);
      RebalanceIsAvl(next);
      BalanceUpIsAvl(p.up, next, 1 + Max(h, Height(p.sibling)));
    }
  }

  // ---------------------------------------------------------------- search order and contents

  ghost predicate Sorted<N, V>(s: seq<Entry<N, V>>) {
    forall i, j :: 0 <= i < j < |s| ==> s[i].key < s[j].key
  }

  ghost function Contents<N, V>(s: seq<Entry<N, V>>): map<int, V> {
    if s == [] then map[] else Contents(s[..|s| - 1])[s[|s| - 1].key := s[|s| - 1].val]
  }

  lemma {:induction false} ContentsAt<N, V>(s: seq<Entry<N, V>>, i: nat)
    requires Sorted(s) && i < |s|
    ensures s[i].key in Contents(s) && Contents(s)[s[i].key] == s[i].val
  {
    if i < |s| - 1 { ContentsAt(s[..|s| - 1], i); }
  }

  lemma {:induction false} ContentsIndex<N, V>(s: seq<Entry<N, V>>, k: int) returns (i: nat)
    requires k in Contents(s)
    ensures i < |s| && s[i].key == k
  {
    var r, last := s[..|s| - 1], s[|s| - 1];
    if last.key == k {
      i := |s| - 1;
    } else {
      i := ContentsIndex(r, k);
    }
  }

  lemma ContentsKeys<N, V>(s: seq<Entry<N, V>>, keys: seq<int>)
    requires Sorted(s) && |keys| == |s| && forall i :: 0 <= i < |s| ==> keys[i] == s[i].key
    ensures forall k :: k in keys <==> k in Contents(s)
  {
    forall k ensures k in keys <==> k in Contents(s) {
      if k in Contents(s) {
        var i := ContentsIndex(s, k);
        assert keys[i] == k;
      }
      if k in keys {
        var i :| 0 <= i < |keys| && keys[i] == k;
        ContentsAt(s, i);
      }
    }
  }

  lemma {:induction false} ContentsSize<N, V>(s: seq<Entry<N, V>>)
    requires Sorted(s)
    ensures |Contents(s)| == |s|
  {
    if s != [] {
      var r, last := s[..|s| - 1], s[|s| - 1];
      ContentsSize(r);
      assert forall i :: 0 <= i < |r| ==> r[i] == s[i];
      if last.key in Contents(r) {
        var i := ContentsIndex(r, last.key);
      }
      assert Contents(s).Keys == Contents(r).Keys + {last.key};
    }
  }

  /** Inserting one entry into a sorted sequence adds exactly that pair; leaving it out removes it. */
  lemma ContentsInsert<N, V>(a: seq<Entry<N, V>>, e: Entry<N, V>, b: seq<Entry<N, V>>)
    requires Sorted(a + [e] + b)
    ensures Sorted(a + b)
    ensures e.key !in Contents(a + b)
    ensures Contents(a + [e] + b) == Contents(a + b)[e.key := e.val]
    ensures Contents(a + b) == Contents(a + [e] + b) - {e.key}
  {
    var s, r := a + [e] + b, a + b;
    assert s[|a|] == e;
    assert Sorted(r) by {
      forall i, j | 0 <= i < j < |r| ensures r[i].key < r[j].key {
        var i', j' := if i < |a| then i else i + 1, if j < |a| then j else j + 1;
        assert r[i] == s[i'] && r[j] == s[j'];
      }
    }
    forall i | 0 <= i < |r| ensures r[i].key != e.key {
      assert r[i] == s[if i < |a| then i else i + 1];
    }
    if e.key in Contents(r) {
      var i := ContentsIndex(r, e.key);
    }
    ContentsAt(s, |a|);
    forall k | k in Contents(s) && k != e.key ensures k in Contents(r) && Contents(r)[k] == Contents(s)[k] {
      var i := ContentsIndex(s, k);
      var i' := if i < |a| then i else i - 1;
      assert r[i'] == s[i];
      ContentsAt(s, i);
      ContentsAt(r, i');
    }
    forall k | k in Contents(r) ensures k in Contents(s) {
      var i := ContentsIndex(r, k);
      var i' := if i < |a| then i else i + 1;
      assert r[i] == s[i'];
      ContentsAt(s, i');
    }
  }

  /** Only the pairs matter to the contents, not the nodes that hold them. */
  lemma ContentsMoved<N, V>(a: seq<Entry<N, V>>, e: Entry<N, V>, e': Entry<N, V>, b: seq<Entry<N, V>>)
    requires Sorted(a + [e] + b) && e'.key == e.key && e'.val == e.val
    ensures Sorted(a + [e'] + b) && Contents(a + [e'] + b) == Contents(a + [e] + b)
  {
    var s, s' := a + [e] + b, a + [e'] + b;
    assert forall i :: 0 <= i < |s| ==> s'[i].key == s[i].key;
    ContentsInsert(a, e, b);
    ContentsInsert(a, e', b);
  }

  // ---------------------------------------------------------------- searching

  /** Everything before the hole of p is below key, everything after it above. */
  ghost predicate Brackets<N, V>(p: Path<N, V>, key: int) {
    && (forall i :: 0 <= i < |Before(p)| ==> Before(p)[i].key < key)
    && (forall i :: 0 <= i < |After(p)| ==> key < After(p)[i].key)
  }

  lemma {:induction false} Narrow<N, V>(p: Path<N, V>, t: Tree<N, V>, key: int)
    requires t.Branch? && key != t.entry.key && Sorted(Inorder(Fill(p, t))) && Brackets(p, key)
    ensures var l := key < t.entry.key; Brackets(Under(p, t.entry, Kid(t, !l), l), key)
  {
    FillInorder(p, t);
    AroundKey(Before(p), Inorder(t.left), t.entry, Inorder(t.right), After(p), key);
  }

  /** What lies on the other side of an entry in a sorted sequence lies on the other side of a key. */
  lemma {:induction false} AroundKey<N, V>(before: seq<Entry<N, V>>, a: seq<Entry<N, V>>, e: Entry<N, V>, b: seq<Entry<N, V>>,
                                           after: seq<Entry<N, V>>, key: int)
    requires Sorted(before + (a + [e] + b) + after)
    ensures key < e.key ==> var w := [e] + b + after; forall i :: 0 <= i < |w| ==> key < w[i].key
    ensures e.key < key ==> var w := before + a + [e]; forall i :: 0 <= i < |w| ==> w[i].key < key
  {
    var s, k := before + (a + [e] + b) + after, |before| + |a|;
    assert s[k] == e;
    forall i | 0 <= i < |b + after| ensures s[k + 1 + i] == (b + after)[i] { }
    var w, v := [e] + b + after, before + a + [e];
    forall i | 0 <= i < |w| ensures w[i] == s[k + i] { }
    forall i | 0 <= i < |v| ensures v[i] == s[i] { }
  }

  /** A search that ends in an empty hole has shown the key absent. */
  lemma {:induction false} Absent<N, V>(p: Path<N, V>, key: int)
    requires Sorted(Inorder(Fill(p, Leaf))) && Brackets(p, key)
    ensures key !in Contents(Inorder(Fill(p, Leaf)))
  {
    FillInorder(p, Leaf);
    var s := Inorder(Fill(p, Leaf));
    assert forall i :: 0 <= i < |s| ==> s[i] == if i < |Before(p)| then Before(p)[i] else After(p)[i - |Before(p)|];
    if key in Contents(s) {
      var i := ContentsIndex(s, key);
    }
  }

  lemma {:induction false} Present<N, V>(p: Path<N, V>, t: Tree<N, V>)
    requires t.Branch? && Sorted(Inorder(Fill(p, t)))
    ensures t.entry.key in Contents(Inorder(Fill(p, t))) && Contents(Inorder(Fill(p, t)))[t.entry.key] == t.entry.val
  {
    FillInorder(p, t);
    var s := Inorder(Fill(p, t));
    var k := |Before(p)| + |Inorder(t.left)|;
    assert s[k] == t.entry;
    ContentsAt(s, k);
  }

  // ---------------------------------------------------------------- insertion

  ghost function Single<N, V>(e: Entry<N, V>): Tree<N, V> { Branch(Leaf, e, Leaf) }

  /** The tree after a new entry has been hung in the empty hole of p. */
  ghost function Inserted<N, V>(p: Path<N, V>, e: Entry<N, V>): Tree<N, V> {
    if p.Under? && p.sibling.Leaf? then BalanceUp(p.up, Plug(p.entry, p.isLeft, Single(e), Leaf)) else Fill(p, Single(e))
  }

  /** Below a childless node, the walk up repairs whatever the new leaf upsets; below a node that already
      had a child, no height changes on the way up. */
  lemma {:induction false} InsertedIsAvl<N, V>(p: Path<N, V>, e: Entry<N, V>)
    requires Avl(Fill(p, Leaf))
    ensures Avl(Inserted(p, e))
    ensures p.Under? ==> if p.sibling.Leaf? then Repairable(p.up, Plug(p.entry, p.isLeft, Single(e), Leaf), 1)
                         else Height(p.sibling) == 1
  {
    FillAvl(p, Leaf);
    FillAvl(p, Single(e));
    assert Height(Single(e)) == 1;
    if p.Under? && p.sibling.Leaf? {
      BalanceUpIsAvl(p.up, Plug(p.entry, p.isLeft, Single(e), Leaf), 1);
    }
  }

  lemma {:induction false} InsertedKeepsEntries<N, V>(p: Path<N, V>, e: Entry<N, V>)
    ensures Inorder(Inserted(p, e)) == Before(p) + [e] + After(p)
  {
    assert Inorder(Single(e)) == [e];
    if p.Under? && p.sibling.Leaf? {
      BalanceUpKeepsEntries(p.up, Plug(p.entry, p.isLeft, Single(e), Leaf));
    } else {
      FillInorder(p, Single(e));
    }
  }

  lemma {:induction false} InsertedKeepsNodes<N, V>(p: Path<N, V>, e: Entry<N, V>)
    ensures Nodes(Inserted(p, e)) == Nodes(Fill(p, Leaf)) + {e.node}
  {
    FillDistinct(p, Leaf);
    if p.Under? && p.sibling.Leaf? {
      BalanceUpKeepsNodes(p.up, Plug(p.entry, p.isLeft, Single(e), Leaf));
    } else {
      FillDistinct(p, Single(e));
    }
  }

  /** When the hole is the one a search for the key reached, the result holds the old map and the pair. */
  lemma {:induction false} InsertedContents<N, V>(p: Path<N, V>, e: Entry<N, V>)
    requires Sorted(Inorder(Fill(p, Leaf))) && Brackets(p, e.key)
    ensures Nodes(Inserted(p, e)) == Nodes(Fill(p, Leaf)) + {e.node}
    ensures var s, s' := Inorder(Fill(p, Leaf)), Inorder(Inserted(p, e));
            && Sorted(s') && |s'| == |s| + 1
            && e.key !in Contents(s) && Contents(s') == Contents(s)[e.key := e.val]
  {
    var a, b := Before(p), After(p);
    FillInorder(p, Leaf);
    InsertedKeepsEntries(p, e);
    InsertedKeepsNodes(p, e);
    var r, s := a + b, a + [e] + b;
    assert Inorder(Fill(p, Leaf)) == r;
    forall i, j | 0 <= i < j < |s| ensures s[i].key < s[j].key {
      if i != |a| && j != |a| {
        assert s[i] == r[if i < |a| then i else i - 1] && s[j] == r[if j < |a| then j else j - 1];
      }
    }
    ContentsInsert(a, e, b);
  }

  // ---------------------------------------------------------------- removal

  /** The subtree whose top is the leftmost (rightmost) node of t. */
  ghost function Extreme<N, V>(left: bool, t: Tree<N, V>): (x: Tree<N, V>)
    requires t.Branch?
    ensures x.Branch? && Kid(x, left).Leaf?
  {
    if Kid(t, left).Leaf? then t else Extreme(left, Kid(t, left))
  }

  /** The path that leads to it. */
  ghost function ExtremePath<N, V>(left: bool, p: Path<N, V>, t: Tree<N, V>): Path<N, V>
    requires t.Branch?
    decreases t
  {
    if Kid(t, left).Leaf? then p
    else ExtremePath(left, Under(p, t.entry, Kid(t, !left), left), Kid(t, left))
  }

  lemma {:induction false} ExtremeFill<N, V>(left: bool, p: Path<N, V>, t: Tree<N, V>)
    requires t.Branch?
    ensures var x, q := Extreme(left, t), ExtremePath(left, p, t);
            x.Branch? && Kid(x, left).Leaf? && Fill(q, x) == Fill(p, t) && x.entry.node in Nodes(t)
    decreases t
  {
    if Kid(t, left).Branch? {
      ExtremeFill(left, Under(p, t.entry, Kid(t, !left), left), Kid(t, left));
    }
  }

  /** The last step to it goes left (right), unless it is the top of t itself. */
  lemma {:induction false} ExtremeSide<N, V>(left: bool, p: Path<N, V>, t: Tree<N, V>)
    requires t.Branch?
    ensures var q := ExtremePath(left, p, t); q == p || (q.Under? && q.isLeft == left && q.entry.node in Nodes(t))
    decreases t
  {
    if Kid(t, left).Branch? {
      ExtremeSide(left, Under(p, t.entry, Kid(t, !left), left), Kid(t, left));
    }
  }

  lemma {:induction false} LeftmostInorder<N, V>(p: Path<N, V>, t: Tree<N, V>)
    requires t.Branch?
    ensures var x, q := Extreme(true, t), ExtremePath(true, p, t);
            x.Branch? && Before(q) == Before(p) && [x.entry] + Inorder(x.right) + After(q) == Inorder(t) + After(p)
    decreases t
  {
    if t.left.Branch? {
      LeftmostInorder(Under(p, t.entry, t.right, true), t.left);
      assert Inorder(t.left) + ([t.entry] + Inorder(t.right) + After(p)) == Inorder(t) + After(p);
    }
  }

  lemma {:induction false} RightmostInorder<N, V>(p: Path<N, V>, t: Tree<N, V>)
    requires t.Branch?
    ensures var x, q := Extreme(false, t), ExtremePath(false, p, t);
            x.Branch? && After(q) == After(p) && Before(q) + Inorder(x.left) + [x.entry] == Before(p) + Inorder(t)
    decreases t
  {
    if t.right.Branch? {
      RightmostInorder(Under(p, t.entry, t.left, false), t.right);
      assert (Before(p) + Inorder(t.left) + [t.entry]) + Inorder(t.right) == Before(p) + Inorder(t);
    }
  }

  /** When the tree in the hole of p loses at most one level, the walk from the parent of the hole can
      restore balance. */
  lemma {:induction false} Shrunk<N, V>(p: Path<N, V>, k: Tree<N, V>, hk: nat)
    requires p.Under? && PathAvl(p, hk) && Avl(k) && hk - 1 <= Height(k) <= hk
    ensures Repairable(p.up, Plug(p.entry, p.isLeft, k, p.sibling), 1 + Max(hk, Height(p.sibling)))
  {
    RebalanceIsAvl(Plug(p.entry, p.isLeft, k, p.sibling));
  }

  /** The rebalanced tree once k stands in the hole of q. */
  ghost function Closed<N, V>(q: Path<N, V>, k: Tree<N, V>): Tree<N, V>
    requires q.Under?
  {
    BalanceUp(q.up, Plug(q.entry, q.isLeft, k, q.sibling))
  }

  /** Closing the hole with the only subtree k of the tree x that filled it. */
  lemma {:induction false} ClosedFacts<N, V>(q: Path<N, V>, x: Tree<N, V>, left: bool)
    requires q.Under? && Avl(Fill(q, x)) && x.Branch? && Kid(x, !left).Leaf?
    ensures var k := Kid(x, left);
            && Repairable(q.up, Plug(q.entry, q.isLeft, k, q.sibling), 1 + Max(Height(x), Height(q.sibling)))
            && Avl(Closed(q, k)) && Inorder(Closed(q, k)) == Before(q) + Inorder(k) + After(q)
  {
    hide Repairable, BalanceUp, Inorder;
    var k := Kid(x, left);
    FillAvl(q, x);
    Shrunk(q, k, Height(x));
    BalanceUpIsAvl(q.up, Plug(q.entry, q.isLeft, k, q.sibling), 1 + Max(Height(x), Height(q.sibling)));
    ClosedInorder(q, k);
  }

  /** Splicing x out takes its node away and no other. */
  lemma {:induction false} ClosedNodes<N, V>(q: Path<N, V>, x: Tree<N, V>, left: bool)
    requires q.Under? && Distinct(Fill(q, x)) && x.Branch? && Kid(x, !left).Leaf?
    ensures Nodes(Closed(q, Kid(x, left))) == Nodes(Fill(q, x)) - {x.entry.node} && x.entry.node in Nodes(Fill(q, x))
  {
    FillDistinct(q, x);
    BalanceUpKeepsNodes(q.up, Plug(q.entry, q.isLeft, Kid(x, left), q.sibling));
  }

  /** With the pair of the in-order neighbour moved up, its node is the one to go. */
  lemma {:induction false} NeighbourNodes<N, V>(l: bool, p: Path<N, V>, t: Tree<N, V>, e: Entry<N, V>)
    requires t.Branch? && Kid(t, !l).Branch? && Distinct(Fill(p, t)) && e.node == t.entry.node
    ensures var x, q := Extreme(l, Kid(t, !l)), ExtremePath(l, Under(p, e, Kid(t, l), !l), Kid(t, !l));
            q.Under? && x.Branch? && x.entry.node in Nodes(Fill(p, t)) && Nodes(Closed(q, Kid(x, !l))) == Nodes(Fill(p, t)) - {x.entry.node}
  {
    var x, p1 := Extreme(l, Kid(t, !l)), Under(p, e, Kid(t, l), !l);
    var q := ExtremePath(l, p1, Kid(t, !l));
    ExtremeFill(l, p1, Kid(t, !l));
    ExtremeSide(l, p1, Kid(t, !l));
    assert Plug(e, !l, Kid(t, !l), Kid(t, l)) == t.(entry := e);
    FillDistinct(p, t);
    FillDistinct(p, t.(entry := e));
    ClosedNodes(q, x, !l);
  }

  /** With the pair and the children of the only child moved up, its node is the one to go. */
  lemma {:induction false} RaisedNodes<N, V>(p: Path<N, V>, t: Tree<N, V>, left: bool)
    requires t.Branch? && Kid(t, left).Branch? && Kid(t, !left).Leaf? && Distinct(Fill(p, t))
    ensures var x := Kid(t, left);
            var u := Branch(x.left, Entry(t.entry.node, x.entry.key, x.entry.val), x.right);
            x.entry.node in Nodes(Fill(p, t)) && Nodes(BalanceUp(p, u)) == Nodes(Fill(p, t)) - {x.entry.node}
  {
    var x := Kid(t, left);
    FillDistinct(p, t);
    BalanceUpKeepsNodes(p, Branch(x.left, Entry(t.entry.node, x.entry.key, x.entry.val), x.right));
  }

  lemma {:induction false} ClosedInorder<N, V>(q: Path<N, V>, k: Tree<N, V>)
    requires q.Under?
    ensures Inorder(Closed(q, k)) == Before(q) + Inorder(k) + After(q)
  {
    BalanceUpKeepsEntries(q.up, Plug(q.entry, q.isLeft, k, q.sibling));
    if q.isLeft {
      RegroupLeft(Before(q.up), Inorder(k), q.entry, Inorder(q.sibling), After(q.up));
    } else {
      RegroupRight(Before(q.up), Inorder(q.sibling), q.entry, Inorder(k), After(q.up));
    }
  }

  lemma {:induction false} RegroupLeft<T>(a: seq<T>, b: seq<T>, e: T, c: seq<T>, d: seq<T>)
    ensures a + (b + [e] + c) + d == a + b + ([e] + c + d)
  {
  }

  lemma {:induction false} RegroupRight<T>(a: seq<T>, c: seq<T>, e: T, b: seq<T>, d: seq<T>)
    ensures a + (c + [e] + b) + d == (a + c + [e]) + b + d
  {
  }

  ghost predicate Lacks<N, V>(s: seq<Entry<N, V>>, old_: seq<Entry<N, V>>, key: int) {
    Sorted(s) && |s| + 1 == |old_| && Contents(s) == Contents(old_) - {key}
  }

  /** The neighbour's pair e', moved into the place of e, replaces it. */
  lemma {:induction false} Supplanted<N, V>(a: seq<Entry<N, V>>, e: Entry<N, V>, x: Entry<N, V>, e': Entry<N, V>, b: seq<Entry<N, V>>)
    requires e'.key == x.key && e'.val == x.val
    ensures Sorted(a + [e] + ([x] + b)) ==> Lacks(a + [e'] + b, a + [e] + ([x] + b), e.key)
    ensures Sorted((a + [x]) + [e] + b) ==> Lacks(a + [e'] + b, (a + [x]) + [e] + b, e.key)
  {
    assert a + ([x] + b) == a + [x] + b == (a + [x]) + b;
    if Sorted(a + [e] + ([x] + b)) {
      ContentsInsert(a, e, [x] + b);
      ContentsMoved(a, x, e', b);
    }
    if Sorted((a + [x]) + [e] + b) {
      ContentsInsert(a + [x], e, b);
      ContentsMoved(a, x, e', b);
    }
  }

  /** Removing the entry of t by its in-order successor: the successor's pair moves up, and the node that
      held it is spliced out. */
  lemma {:induction false} SuccessorErases<N, V>(p: Path<N, V>, t: Tree<N, V>)
    requires t.Branch? && t.right.Branch? && Sorted(Inorder(Fill(p, t)))
    ensures var x := Extreme(true, t.right);
            x.Branch? &&
            var e := Entry(t.entry.node, x.entry.key, x.entry.val);
            var q := ExtremePath(true, Under(p, e, t.left, false), t.right);
            Lacks(Before(q) + Inorder(x.right) + After(q), Inorder(Fill(p, t)), t.entry.key)
  {
    ExtremeFill(true, p, t.right);
    var x := Extreme(true, t.right);
    var e := Entry(t.entry.node, x.entry.key, x.entry.val);
    var a, b := SuccessorSplit(p, t, x.entry, e);
    Supplanted(a, t.entry, x.entry, e, b);
  }

  lemma {:induction false} SuccessorSplit<N, V>(p: Path<N, V>, t: Tree<N, V>, x: Entry<N, V>, e: Entry<N, V>)
      returns (a: seq<Entry<N, V>>, b: seq<Entry<N, V>>)
    requires t.Branch? && t.right.Branch? && Extreme(true, t.right).Branch? && x == Extreme(true, t.right).entry
    ensures Inorder(Fill(p, t)) == a + [t.entry] + ([x] + b)
    ensures var q := ExtremePath(true, Under(p, e, t.left, false), t.right);
            Before(q) + Inorder(Extreme(true, t.right).right) + After(q) == a + [e] + b
  {
    FillInorder(p, t);
    var q := ExtremePath(true, Under(p, e, t.left, false), t.right);
    LeftmostInorder(Under(p, e, t.left, false), t.right);
    a, b := Before(p) + Inorder(t.left), Inorder(Extreme(true, t.right).right) + After(q);
    RegroupSuccessor(Before(p), Inorder(t.left), t.entry, Inorder(t.right), After(p), x, Inorder(Extreme(true, t.right).right), After(q));
  }

  lemma {:induction false} RegroupSuccessor<T>(a: seq<T>, l: seq<T>, e: T, r: seq<T>, d: seq<T>, x: T, m: seq<T>, n: seq<T>)
    requires r + d == [x] + m + n
    ensures a + (l + [e] + r) + d == (a + l) + [e] + ([x] + (m + n))
  {
    assert a + (l + [e] + r) + d == (a + l) + [e] + (r + d);
  }

  lemma {:induction false} PredecessorErases<N, V>(p: Path<N, V>, t: Tree<N, V>)
    requires t.Branch? && t.left.Branch? && Sorted(Inorder(Fill(p, t)))
    ensures var x := Extreme(false, t.left);
            x.Branch? &&
            var e := Entry(t.entry.node, x.entry.key, x.entry.val);
            var q := ExtremePath(false, Under(p, e, t.right, true), t.left);
            Lacks(Before(q) + Inorder(x.left) + After(q), Inorder(Fill(p, t)), t.entry.key)
  {
    ExtremeFill(false, p, t.left);
    var x := Extreme(false, t.left);
    var e := Entry(t.entry.node, x.entry.key, x.entry.val);
    var a, b := PredecessorSplit(p, t, x.entry, e);
    Supplanted(a, t.entry, x.entry, e, b);
  }

  lemma {:induction false} PredecessorSplit<N, V>(p: Path<N, V>, t: Tree<N, V>, x: Entry<N, V>, e: Entry<N, V>)
      returns (a: seq<Entry<N, V>>, b: seq<Entry<N, V>>)
    requires t.Branch? && t.left.Branch? && Extreme(false, t.left).Branch? && x == Extreme(false, t.left).entry
    ensures Inorder(Fill(p, t)) == (a + [x]) + [t.entry] + b
    ensures var q := ExtremePath(false, Under(p, e, t.right, true), t.left);
            Before(q) + Inorder(Extreme(false, t.left).left) + After(q) == a + [e] + b
  {
    FillInorder(p, t);
    var q := ExtremePath(false, Under(p, e, t.right, true), t.left);
    RightmostInorder(Under(p, e, t.right, true), t.left);
    a, b := Before(q) + Inorder(Extreme(false, t.left).left), Inorder(t.right) + After(p);
    RegroupPredecessor(Before(p), Inorder(t.left), t.entry, Inorder(t.right), After(p), x, Before(q), Inorder(Extreme(false, t.left).left));
  }

  lemma {:induction false} RegroupPredecessor<T>(a: seq<T>, l: seq<T>, e: T, r: seq<T>, d: seq<T>, x: T, m: seq<T>, n: seq<T>)
    requires a + l == m + n + [x]
    ensures a + (l + [e] + r) + d == ((m + n) + [x]) + [e] + (r + d)
  {
    assert a + (l + [e] + r) + d == (a + l) + [e] + (r + d);
  }

  /** Removing the entry of a node that has only one child: the child's pair moves up, and the node that
      held it goes. */
  lemma {:induction false} OnlyChildErases<N, V>(p: Path<N, V>, t: Tree<N, V>, left: bool)
    requires t.Branch? && Kid(t, left).Branch? && Kid(t, !left).Leaf? && Sorted(Inorder(Fill(p, t)))
    ensures var x := Kid(t, left);
            var e := Entry(t.entry.node, x.entry.key, x.entry.val);
            Lacks(Before(p) + Inorder(Branch(x.left, e, x.right)) + After(p), Inorder(Fill(p, t)), t.entry.key)
  {
    FillInorder(p, t);
    var x := Kid(t, left);
    var e := Entry(t.entry.node, x.entry.key, x.entry.val);
    assert Inorder(t) == if left then Inorder(x) + [t.entry] else [t.entry] + Inorder(x);
    ChildMovedUp(Before(p), Inorder(x.left), x.entry, Inorder(x.right), t.entry, e, After(p));
  }

  lemma {:induction false} Raised<N, V>(p: Path<N, V>, t: Tree<N, V>, left: bool)
    requires t.Branch? && Kid(t, left).Branch? && Kid(t, !left).Leaf? && Avl(Fill(p, t))
    ensures var x := Kid(t, left);
            var u := Branch(x.left, Entry(t.entry.node, x.entry.key, x.entry.val), x.right);
            && Repairable(p, u, Height(t)) && Avl(BalanceUp(p, u))
            && Inorder(BalanceUp(p, u)) == Before(p) + Inorder(u) + After(p)
  {
    var x := Kid(t, left);
    var u := Branch(x.left, Entry(t.entry.node, x.entry.key, x.entry.val), x.right);
    FillAvl(p, t);
    assert Avl(u) && Height(u) == Height(x);
    BalanceUpIsAvl(p, u, Height(t));
    BalanceUpKeepsEntries(p, u);
  }

  lemma {:induction false} ChildMovedUp<N, V>(a: seq<Entry<N, V>>, l: seq<Entry<N, V>>, x: Entry<N, V>, r: seq<Entry<N, V>>,
                           e: Entry<N, V>, e': Entry<N, V>, b: seq<Entry<N, V>>)
    requires e'.key == x.key && e'.val == x.val
    ensures Sorted(a + (l + [x] + r + [e]) + b) ==> Lacks(a + (l + [e'] + r) + b, a + (l + [x] + r + [e]) + b, e.key)
    ensures Sorted(a + ([e] + (l + [x] + r)) + b) ==> Lacks(a + (l + [e'] + r) + b, a + ([e] + (l + [x] + r)) + b, e.key)
  {
    RegroupUp(a, l, x, r, e, e', b);
    var s, s' := a + (l + [x] + r + [e]) + b, a + ([e] + (l + [x] + r)) + b;
    if Sorted(s) {
      ContentsInsert(a + l + [x] + r, e, b);
      ContentsMoved(a + l, x, e', r + b);
    }
    if Sorted(s') {
      ContentsInsert(a, e, l + [x] + r + b);
      ContentsMoved(a + l, x, e', r + b);
    }
  }

  lemma {:induction false} RegroupUp<T>(a: seq<T>, l: seq<T>, x: T, r: seq<T>, e: T, e': T, b: seq<T>)
    ensures a + (l + [e'] + r) + b == a + l + [e'] + (r + b)
    ensures a + (l + [x] + r + [e]) + b == (a + l + [x] + r) + [e] + b && a + l + [x] + (r + b) == (a + l + [x] + r) + b
    ensures a + ([e] + (l + [x] + r)) + b == a + [e] + (l + [x] + r + b) && a + l + [x] + (r + b) == a + (l + [x] + r + b)
  {
    RegroupLeft(a, l, e', r, b);
    RegroupLeft(a, l, x, r, b);
    RegroupRight(a, l, e', r, b);
    RegroupRight(a, l, x, r, b);
  }

  /** Removing a childless node. */
  lemma {:induction false} LeafErases<N, V>(p: Path<N, V>, t: Tree<N, V>)
    requires t.Branch? && t.left.Leaf? && t.right.Leaf? && Sorted(Inorder(Fill(p, t)))
    ensures Lacks(Before(p) + Inorder(t.left) + After(p), Inorder(Fill(p, t)), t.entry.key)
  {
    FillInorder(p, t);
    assert Inorder(t) == [t.entry];
    assert Before(p) + Inorder(t.left) + After(p) == Before(p) + After(p);
    ContentsInsert(Before(p), t.entry, After(p));
  }

  // ---------------------------------------------------------------- the cost of a search

  ghost function Fib(n: nat): nat { if n < 2 then n else Fib(n - 1) + Fib(n - 2) }

  /** A balanced tree of height h holds at least Fib(h + 2) - 1 entries. */
  lemma {:induction false} AvlIsLarge<N, V>(t: Tree<N, V>)
    requires Avl(t)
    ensures Fib(Height(t) + 2) <= |Inorder(t)| + 1
  {
    if t.Branch? {
      AvlIsLarge(t.left);
      AvlIsLarge(t.right);
      FibSum(Height(t.left) + 2, Height(t.right) + 2, Height(t));
    }
  }

  lemma {:induction false} FibSum(a: nat, b: nat, h: nat)
    requires 1 <= h && h <= a <= h + 1 && h <= b <= h + 1 && (a == h + 1 || b == h + 1)
    ensures Fib(h + 2) <= Fib(a) + Fib(b)
  {
    assert Fib(h + 2) == Fib(h + 1) + Fib(h);
  }

  lemma {:induction false} FibDoubles(n: nat)
    ensures Pow2(n / 2) <= Fib(n + 2)
  {
    if n >= 2 {
      FibDoubles(n - 2);
      assert Fib(n + 2) == Fib(n + 1) + Fib(n) == Fib(n) + Fib(n - 1) + Fib(n);
      assert n / 2 == (n - 2) / 2 + 1;
    }
  }

  /** So its height is at most twice the logarithm of its size. */
  lemma {:induction false} AvlIsLow<N, V>(t: Tree<N, V>, depth: nat)
    requires Avl(t) && depth <= Height(t)
    ensures Pow2(depth / 2) <= |Inorder(t)| + 1
  {
    AvlIsLarge(t);
    FibDoubles(Height(t));
    Pow2Grows(depth / 2, Height(t) / 2);
  }

  // ---------------------------------------------------------------- in-order position

  /** Where the i-th entry sits. */
  lemma {:induction false} Locate<N, V>(q: Path<N, V>, t: Tree<N, V>, i: nat) returns (p: Path<N, V>, u: Tree<N, V>)
    requires i < |Inorder(t)|
    ensures Fill(p, u) == Fill(q, t) && u.Branch? && u.entry == Inorder(t)[i]
    ensures |Before(p)| + |Inorder(u.left)| == |Before(q)| + i
    decreases t
  {
    var k := |Inorder(t.left)|;
    if i < k {
      p, u := Locate(Under(q, t.entry, t.right, true), t.left, i);
    } else if i == k {
      p, u := q, t;
    } else {
      p, u := Locate(Under(q, t.entry, t.left, false), t.right, i - k - 1);
    }
  }

  /** The entries on either side of the top of u. */
  lemma {:induction false} Neighbours<N, V>(p: Path<N, V>, u: Tree<N, V>, i: nat)
    requires u.Branch? && i == |Before(p)| + |Inorder(u.left)|
    ensures var s := Inorder(Fill(p, u));
            && i < |s| && s[i] == u.entry
            && s[..i] == Before(p) + Inorder(u.left) && s[i + 1..] == Inorder(u.right) + After(p)
  {
    FillInorder(p, u);
    assert Before(p) + (Inorder(u.left) + [u.entry] + Inorder(u.right)) + After(p)
        == (Before(p) + Inorder(u.left)) + [u.entry] + (Inorder(u.right) + After(p));
  }
}
