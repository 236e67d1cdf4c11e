/**
  `kstd::queue`: a ring buffer that grows. Slots keep their values when elements leave, and slots that were never used
  are zero. The walk of `contains` ends where the number of elements says, not the capacity, so it may look at such slots.
 */
module RingQueue {
  import opened Helpers

  datatype Ring = Ring(storage: seq<nat>, front: nat, back: nat, size: nat)

  ghost predicate Good(r: Ring) {
    && r.size <= |r.storage|
    && if r.size == 0 then r.front == r.back == 0
       else r.front < |r.storage| && r.back == InRing(r.front + r.size - 1, |r.storage|)
  }

  /** The slot that is t steps behind the front. */
  ghost function Slot(r: Ring, t: nat): nat
    requires r.front < |r.storage| && t < |r.storage|
  {
    r.storage[InRing(r.front + t, |r.storage|)]
  }

  /** The elements, from front to back. */
  ghost function Elements(r: Ring): (s: seq<nat>)
    requires Good(r)
    ensures |s| == r.size
  {
    seq(r.size, t requires 0 <= t < r.size => Slot(r, t))
  }

  // ---------------------------------------------------------------- the walk

  /** The elements go past the end of the storage. */
  ghost predicate Wraps(r: Ring) { r.front + r.size > |r.storage| }

  /** How many slots the walk looks at: those of the elements if they go past the end, else all of them if the front is
      nearer to the start than there are elements, else those up to the end and some more from the start on. */
  ghost function Reach(r: Ring): nat
    requires Good(r) && r.size > 0
  {
    if Wraps(r) then r.size
    else if r.front < r.size then |r.storage|
    else |r.storage| - r.front + r.front % r.size
  }

  /** The walk looks at every element, and at no slot twice. */
  lemma {:induction false} ReachBounds(r: Ring)
    requires Good(r) && r.size > 0
    ensures r.size <= Reach(r) <= |r.storage|
  {
  }

  /** It ends at the slot that the code computes, and not before. */
  lemma {:induction false} ReachStops(r: Ring, t: nat)
    requires Good(r) && r.size > 0 && 0 < t <= Reach(r)
    ensures Reach(r) <= |r.storage|
    ensures InRing(r.front + t, |r.storage|) == (r.back + 1) % r.size <==> t == Reach(r)
  {
    StopSlot(r);
  }

  lemma {:induction false} StopSlot(r: Ring)
    requires Good(r) && r.size > 0
    ensures (r.back + 1) % r.size == if Wraps(r) then r.back + 1 else r.front % r.size
    ensures r.front < r.size ==> r.front % r.size == r.front
  {
    if Wraps(r) { SmallMod(r.back + 1, r.size); } else { ModShift(r.front, r.size); }
    if r.front < r.size { SmallMod(r.front, r.size); }
  }

  /** A slot that holds no element, but that the walk looks at, has the value. */
  ghost predicate DeadHit(r: Ring, v: nat)
    requires Good(r)
  {
    r.size > 0 && exists t :: r.size <= t < Reach(r) && t < |r.storage| && Slot(r, t) == v
  }

  /** What `contains` answers. */
  ghost predicate Hits(r: Ring, v: nat)
    requires Good(r)
  {
    v in Elements(r) || DeadHit(r, v)
  }

  lemma {:induction false} VisitHits(r: Ring, v: nat)
    requires Good(r) && r.size > 0
    ensures Reach(r) <= |r.storage| && (Hits(r, v) <==> exists t :: 0 <= t < Reach(r) && Slot(r, t) == v)
  {
    ReachBounds(r);
    if v in Elements(r) {
      var t :| 0 <= t < r.size && Elements(r)[t] == v;
      assert Slot(r, t) == v;
    }
    if t :| 0 <= t < Reach(r) && Slot(r, t) == v {
      assert t < r.size ==> Elements(r)[t] == v;
    }
  }

  /** A full ring, or an empty one, has no slot that could mislead. */
  lemma {:induction false} FullExact(r: Ring, v: nat)
    requires Good(r) && (r.size == 0 || r.size == |r.storage|)
    ensures Hits(r, v) <==> v in Elements(r)
  {
    if r.size > 0 { ReachBounds(r); }
  }

  /** The walk looks at elements only if and only if they go past the end, or fill the storage, or end with it a whole
      number of their lengths from its start. */
  lemma {:induction false} ReachExact(r: Ring)
    requires Good(r) && r.size > 0
    ensures Reach(r) == r.size <==>
      Wraps(r) || r.size == |r.storage| || (r.size <= r.front && r.front + r.size == |r.storage| && r.front % r.size == 0)
  {
  }

  // ---------------------------------------------------------------- the operations

  /** The storage of the given capacity with the elements at its start and zeros behind them. */
  function Moved(s: seq<nat>, capacity: nat): seq<nat>
    requires |s| <= capacity
  {
    s + seq(capacity - |s|, _ => 0)
  }

  ghost function Enlarged(r: Ring): Ring
    requires Good(r)
  {
    if r.size < |r.storage| then r
    else if |r.storage| == 0 then Ring([0], 0, 0, 0)
    else Ring(Moved(Elements(r), 2 * |r.storage|), 0, r.size - 1, r.size)
  }

  ghost function Pushed(r: Ring, v: nat): Ring
    requires Good(r)
  {
    EnlargedGood(r);
    var e := Enlarged(r);
    var back := if e.size == 0 then 0 else InRing(e.back + 1, |e.storage|);
    Ring(e.storage[back := v], if e.size == 0 then 0 else e.front, back, e.size + 1)
  }

  ghost function Popped(r: Ring): Ring
    requires Good(r) && r.size > 0
  {
    if r.size == 1 then Ring(r.storage, 0, 0, 0) else Ring(r.storage, InRing(r.front + 1, |r.storage|), r.back, r.size - 1)
  }

  lemma {:induction false} EnlargedGood(r: Ring)
    requires Good(r)
    ensures Good(Enlarged(r)) && Enlarged(r).size == r.size < |Enlarged(r).storage| && Elements(Enlarged(r)) == Elements(r)
  {
    if r.size == |r.storage| > 0 {
      var e := Enlarged(r);
      forall t | 0 <= t < r.size ensures Slot(e, t) == Elements(r)[t] { }
    }
  }

  /** A push adds its element behind the others. */
  lemma {:induction false} PushedElements(r: Ring, v: nat)
    requires Good(r)
    ensures Good(Pushed(r, v)) && Elements(Pushed(r, v)) == Elements(r) + [v]
  {
    EnlargedGood(r);
    var e, p := Enlarged(r), Pushed(r, v);
    forall t | 0 <= t < e.size ensures Slot(p, t) == Slot(e, t) { }
  }

  /** A pop takes the first one away. */
  lemma {:induction false} PoppedElements(r: Ring)
    requires Good(r) && r.size > 0
    ensures Good(Popped(r)) && Elements(Popped(r)) == Elements(r)[1..] && Elements(r)[0] == r.storage[r.front]
  {
    var p := Popped(r);
    forall t | 0 <= t < p.size ensures Slot(p, t) == Slot(r, t + 1) { }
  }

  class Queue {
    var storage: seq<nat>
    var front: nat
    var back: nat
    var size: nat

    ghost function View(): Ring
      reads this
    {
      Ring(storage, front, back, size)
    }

    ghost predicate Valid()
      reads this
    {
      Good(View())
    }

    ghost function Contents(): seq<nat>
      reads this
      requires Valid()
    {
      Elements(View())
    }

    constructor ()
      ensures Valid() && Contents() == [] && View() == Ring([], 0, 0, 0)
    {
      storage, front, back, size := [], 0, 0, 0;
    }

    /** Moves the elements to a storage of twice the capacity. */
    method Grow()
      requires Valid() && size == |storage|
      modifies this
      ensures Valid() && View() == Enlarged(old(View()))
    {
      EnlargedGood(View());
      if |storage| == 0 {
        storage := [0];
        return;
      }
      var moved: seq<nat> := [];
      for i := 0 to size
        invariant moved == Elements(View())[..i] && unchanged(this)
      {
        moved := moved + [storage[InRing(front + i, |storage|)]];
      }
      storage, front, back := Moved(moved, 2 * |storage|), 0, size - 1;
    }

    method PushBack(v: nat)
      requires Valid()
      modifies this
      ensures Valid() && View() == Pushed(old(View()), v) && Contents() == old(Contents()) + [v]
    {
      hide Elements;
      PushedElements(View(), v);
      EnlargedGood(View());
      if size == |storage| { Grow(); }
      if size == 0 {
        front, back := 0, 0;
      } else {
        back := NextInRing(back, |storage|);
      }
      storage, size := storage[back := v], size + 1;
    }

    method PopFront() returns (v: nat)
      requires Valid() && size > 0
      modifies this
      ensures Valid() && View() == Popped(old(View())) && v == old(Contents())[0] && Contents() == old(Contents())[1..]
    {
      hide Elements;
      PoppedElements(View());
      v := storage[front];
      size := size - 1;
      if size == 0 {
        front, back := 0, 0;
      } else {
        front := NextInRing(front, |storage|);
      }
    }

    /** Answers yes for every element, and for what it finds in slots without one. */
    method Contains(v: nat) returns (hit: bool)
      requires Valid()
      ensures hit <==> Hits(View(), v)
    {
      if size == 0 {
        return false;
      }
      hide Reach, Hits;
      ghost var r, t := View(), 0;
      ReachBounds(r);
      VisitHits(r, v);
      var i := front;
      while true
        invariant 0 <= t < Reach(r) && i == InRing(front + t, |storage|)
        invariant forall u :: 0 <= u < t ==> Slot(r, u) != v
        decreases Reach(r) - t
      {
        if storage[i] == v {
          assert Slot(r, t) == v;
          return true;
        }
        i := NextInRing(i, |storage|);
        t := t + 1;
        ReachStops(r, t);
        if i == (back + 1) % size { break; }
      }
      hit := false;
    }
  }

  // ---------------------------------------------------------------- where it answers wrongly

  /** A push to a full ring that starts at its first slot. */
  lemma {:induction false} PushedFull(s: seq<nat>, v: nat)
    requires s != []
    ensures var r := Ring(s, 0, |s| - 1, |s|);
      Good(r) && Elements(r) == s && Pushed(r, v) == Ring(s + [v] + seq(|s| - 1, _ => 0), 0, |s|, |s| + 1)
  {
    var r := Ring(s, 0, |s| - 1, |s|);
    assert Elements(r) == s;
    assert Moved(s, 2 * |s|)[|s| := v] == s + [v] + seq(|s| - 1, _ => 0);
  }

  lemma FirstPushes()
    ensures Pushed(Ring([], 0, 0, 0), 8) == Ring([8], 0, 0, 1)
    ensures Good(Ring([8], 0, 0, 1)) && Pushed(Ring([8], 0, 0, 1), 16) == Ring([8, 16], 0, 1, 2)
    ensures Good(Ring([8, 16], 0, 1, 2)) && Pushed(Ring([8, 16], 0, 1, 2), 24) == Ring([8, 16, 24, 0], 0, 2, 3)
    ensures Good(Ring([8, 16, 24, 0], 0, 2, 3)) && Pushed(Ring([8, 16, 24, 0], 0, 2, 3), 32) == Ring([8, 16, 24, 32], 0, 3, 4)
  {
    assert Pushed(Ring([], 0, 0, 0), 8) == Ring([8], 0, 0, 1);
    assert Pushed(Ring([8, 16, 24, 0], 0, 2, 3), 32) == Ring([8, 16, 24, 32], 0, 3, 4);
    hide Pushed;
    PushedFull([8], 16);
    PushedFull([8, 16], 24);
    assert [8] + [16] + seq(0, _ => 0) == [8, 16];
    assert [8, 16] + [24] + seq(1, _ => 0) == [8, 16, 24, 0];
  }

  /** After three pushes to a new queue it seems to contain 0, because the fourth slot is zero, */
  lemma NeverPushed()
    ensures
      var r := Ring([8, 16, 24, 0], 0, 2, 3);
      Good(r) && Elements(r) == [8, 16, 24] && Hits(r, 0)
  {
    assert Slot(Ring([8, 16, 24, 0], 0, 2, 3), 3) == 0;
  }

  /** and after a fourth and a pop what was taken out, because its slot was not used again. */
  lemma TakenOut()
    ensures
      var r := Ring([8, 16, 24, 32], 0, 3, 4);
      Good(r) && Elements(r)[0] == 8 && Elements(Popped(r)) == [16, 24, 32] && Hits(Popped(r), 8)
  {
    assert Slot(Popped(Ring([8, 16, 24, 32], 0, 3, 4)), 3) == 8;
  }

  /** So it goes: both answers are wrong. */
  method WrongAnswers() returns (zero: bool, v: nat, again: bool)
    ensures zero && v == 8 && again
  {
    hide Pushed, Popped, Elements, Hits;
    FirstPushes();
    var q := new Queue();
    q.PushBack(8);
    q.PushBack(16);
    q.PushBack(24);
    NeverPushed();
    zero := q.Contains(0);
    q.PushBack(32);
    TakenOut();
    v := q.PopFront();
    again := q.Contains(8);
  }

  // ---------------------------------------------------------------- adding what does not seem to be there

  /** A value is pushed unless `contains` says that it is there. */
  ghost function Added(r: Ring, v: nat): Ring
    requires Good(r)
  {
    if Hits(r, v) then r else Pushed(r, v)
  }

  /** Several values, one after the other. */
  ghost function AddedAll(r: Ring, vs: seq<nat>): Ring
    requires Good(r)
    ensures Good(AddedAll(r, vs))
  {
    if vs == [] then r
    else
      var before := AddedAll(r, vs[..|vs| - 1]);
      PushedElements(before, vs[|vs| - 1]);
      Added(before, vs[|vs| - 1])
  }

  /** Afterwards a value is in the queue if and only if it was, or no slot without an element misled the walk. */
  lemma {:induction false} AddedQueues(r: Ring, v: nat)
    requires Good(r)
    ensures Good(Added(r, v)) && (v in Elements(Added(r, v)) <==> v in Elements(r) || !DeadHit(r, v))
    ensures forall x :: x in Elements(r) ==> x in Elements(Added(r, v))
    ensures forall x :: x in Elements(Added(r, v)) ==> x in Elements(r) || x == v
  {
    PushedElements(r, v);
  }

  /** The same for each of several different values: what counts is the queue when its turn comes. */
  lemma {:induction false} AddedAllQueues(r: Ring, vs: seq<nat>, i: nat)
    requires Good(r) && i < |vs| && forall a, b :: 0 <= a < b < |vs| ==> vs[a] != vs[b]
    ensures vs[i] in Elements(AddedAll(r, vs)) <==> vs[i] in Elements(r) || !DeadHit(AddedAll(r, vs[..i]), vs[i])
  {
    var n := |vs| - 1;
    var before := AddedAll(r, vs[..n]);
    AddedQueues(before, vs[n]);
    if i < n {
      AddedAllQueues(r, vs[..n], i);
      assert vs[..n][..i] == vs[..i];
    } else {
      OnlyAdded(r, vs[..n], vs[n]);
    }
  }

  /** Nothing else comes in, and nothing goes. */
  lemma {:induction false} OnlyAdded(r: Ring, vs: seq<nat>, x: nat)
    requires Good(r)
    ensures x in Elements(r) ==> x in Elements(AddedAll(r, vs))
    ensures x in Elements(AddedAll(r, vs)) ==> x in Elements(r) || x in vs
  {
    if vs != [] {
      var n := |vs| - 1;
      OnlyAdded(r, vs[..n], x);
      AddedQueues(AddedAll(r, vs[..n]), vs[n]);
      assert vs == vs[..n] + [vs[n]];
    }
  }
}
