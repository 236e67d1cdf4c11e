/**
  `VMSpace`: a doubly linked list of used and free areas that tiles a range of virtual addresses. The pure part
  says what splitting and merging do to the tiling; the class below it is the list itself.
 */
module VMSpace {
  import opened Helpers

  datatype Area = Area(start: nat, size: nat, used: bool) {
    function End(): nat { start + size }
    predicate Contains(x: nat) { start <= x < End() }
  }

  // ---------------------------------------------------------------- tilings

  /** Areas that follow each other from s to e. */
  ghost predicate Tiled(areas: seq<Area>, s: nat, e: nat) {
    if areas == [] then s == e else areas[0].start == s && Tiled(areas[1..], areas[0].End(), e)
  }

  /** No area is empty. */
  ghost predicate Solid(areas: seq<Area>) { forall i :: 0 <= i < |areas| ==> areas[i].size > 0 }

  /** No two neighbours are both free. */
  ghost predicate Merged(areas: seq<Area>) {
    forall i :: 0 <= i < |areas| - 1 ==> Parted(areas, i)
  }

  ghost predicate Parted(areas: seq<Area>, i: int)
    requires 0 <= i < |areas| - 1
  {
    areas[i].used || areas[i + 1].used
  }

  ghost function UsedSize(areas: seq<Area>): nat {
    if areas == [] then 0 else (if areas[0].used then areas[0].size else 0) + UsedSize(areas[1..])
  }

  ghost predicate Good(areas: seq<Area>, s: nat, e: nat) {
    areas != [] && Tiled(areas, s, e) && Merged(areas)
  }

  /** Some free area holds address x. */
  ghost predicate FreeAt(areas: seq<Area>, x: nat) {
    exists i :: 0 <= i < |areas| && areas[i].Contains(x) && !areas[i].used
  }

  lemma {:induction false} TiledSplit(a: seq<Area>, b: seq<Area>, s: nat, e: nat) returns (m: nat)
    requires Tiled(a + b, s, e)
    ensures Tiled(a, s, m) && Tiled(b, m, e) && s <= m <= e
  {
    if a == [] {
      assert a + b == b;
      m := s;
      TiledOrder(b, s, e);
    } else {
      assert (a + b)[1..] == a[1..] + b;
      m := TiledSplit(a[1..], b, a[0].End(), e);
    }
  }

  lemma {:induction false} TiledOrder(a: seq<Area>, s: nat, e: nat)
    requires Tiled(a, s, e)
    ensures s <= e
  {
    if a != [] { TiledOrder(a[1..], a[0].End(), e); }
  }

  lemma {:induction false} TiledJoin(a: seq<Area>, b: seq<Area>, s: nat, m: nat, e: nat)
    requires Tiled(a, s, m) && Tiled(b, m, e)
    ensures Tiled(a + b, s, e)
  {
    if a == [] {
      assert a + b == b;
    } else {
      TiledJoin(a[1..], b, a[0].End(), m, e);
      assert (a + b)[1..] == a[1..] + b;
    }
  }

  lemma {:induction false} UsedJoin(a: seq<Area>, b: seq<Area>)
    ensures UsedSize(a + b) == UsedSize(a) + UsedSize(b)
  {
    if a == [] {
      assert a + b == b;
    } else {
      UsedJoin(a[1..], b);
      assert (a + b)[1..] == a[1..] + b;
    }
  }

  /** Two tilings side by side have no free neighbours exactly when neither has and their border is no such pair. */
  lemma {:induction false} MergedJoin(a: seq<Area>, b: seq<Area>)
    ensures Merged(a + b) <==> Merged(a) && Merged(b) && (a == [] || b == [] || a[|a| - 1].used || b[0].used)
  {
    if Merged(a + b) {
      forall i | 0 <= i < |a| - 1 ensures Parted(a, i) { assert Parted(a + b, i); }
      forall i | 0 <= i < |b| - 1 ensures Parted(b, i) { assert Parted(a + b, |a| + i); }
      if a != [] && b != [] { assert Parted(a + b, |a| - 1); }
    }
    if Merged(a) && Merged(b) && (a == [] || b == [] || a[|a| - 1].used || b[0].used) {
      forall i | 0 <= i < |a + b| - 1 ensures Parted(a + b, i) {
        if i < |a| - 1 { assert Parted(a, i); } else if i >= |a| { assert Parted(b, i - |a|); }
      }
    }
  }

  // ---------------------------------------------------------------- an area is replaced by pieces of it

  ghost function Spliced(areas: seq<Area>, lo: nat, hi: nat, pieces: seq<Area>): seq<Area>
    requires lo <= hi <= |areas|
  {
    areas[..lo] + pieces + areas[hi..]
  }

  /** The areas around a replaced stretch, and where the stretch begins and ends. */
  lemma {:induction false} Around(areas: seq<Area>, lo: nat, hi: nat, s: nat, e: nat) returns (a: nat, b: nat)
    requires lo <= hi <= |areas| && Tiled(areas, s, e)
    ensures Tiled(areas[..lo], s, a) && Tiled(areas[lo..hi], a, b) && Tiled(areas[hi..], b, e)
  {
    assert areas == areas[..lo] + areas[lo..];
    a := TiledSplit(areas[..lo], areas[lo..], s, e);
    assert areas[lo..] == areas[lo..hi] + areas[hi..];
    b := TiledSplit(areas[lo..hi], areas[hi..], a, e);
  }

  /** Replacing a stretch by other pieces of the same range keeps a tiling, and changes the used size by the pieces'. */
  lemma {:induction false} SplicedTiled(areas: seq<Area>, lo: nat, hi: nat, pieces: seq<Area>, s: nat, e: nat, a: nat, b: nat)
    requires lo < hi <= |areas| && Tiled(areas, s, e) && Tiled(areas[lo..hi], a, b) && Tiled(pieces, a, b)
    ensures Tiled(Spliced(areas, lo, hi, pieces), s, e)
    ensures UsedSize(Spliced(areas, lo, hi, pieces)) == UsedSize(areas) - UsedSize(areas[lo..hi]) + UsedSize(pieces)
  {
    var a', b' := Around(areas, lo, hi, s, e);
    TiledEnds(areas[lo..hi], a, b, a', b');
    TiledJoin(areas[..lo], pieces, s, a, b);
    TiledJoin(areas[..lo] + pieces, areas[hi..], s, b, e);
    UsedJoin(areas[..lo], pieces);
    UsedJoin(areas[..lo] + pieces, areas[hi..]);
    CutThree(areas, lo, hi);
    UsedJoin(areas[..lo], areas[lo..hi]);
    UsedJoin(areas[..lo] + areas[lo..hi], areas[hi..]);
  }

  lemma {:induction false} TiledEnds(areas: seq<Area>, a: nat, b: nat, a': nat, b': nat)
    requires areas != [] && Tiled(areas, a, b) && Tiled(areas, a', b')
    ensures a == a' && b == b'
  {
    if |areas| > 1 { TiledEnds(areas[1..], areas[0].End(), b, areas[0].End(), b'); }
  }

  /** The pieces of a free area of which n bytes from address x on become used. */
  ghost function Pieces(a: Area, x: nat, n: nat): seq<Area>
    requires a.start <= x && x + n <= a.End()
  {
    Before(a, x) + [Area(x, n, true)] + After(a, x + n)
  }

  ghost function Before(a: Area, x: nat): seq<Area>
    requires a.start <= x
  {
    if a.start < x then [Area(a.start, x - a.start, false)] else []
  }

  ghost function After(a: Area, x: nat): seq<Area>
    requires x <= a.End()
  {
    if x < a.End() then [Area(x, a.End() - x, false)] else []
  }

  ghost predicate Fits(areas: seq<Area>, k: nat, x: nat, n: nat) {
    k < |areas| && !areas[k].used && areas[k].start <= x && x + n <= areas[k].End()
  }

  ghost function Carved(areas: seq<Area>, k: nat, x: nat, n: nat): seq<Area>
    requires Fits(areas, k, x, n)
  {
    Spliced(areas, k, k + 1, Pieces(areas[k], x, n))
  }

  lemma {:induction false} CarvedFive(areas: seq<Area>, k: nat, x: nat, n: nat)
    requires Fits(areas, k, x, n)
    ensures Carved(areas, k, x, n) == areas[..k] + Before(areas[k], x) + [Area(x, n, true)] + After(areas[k], x + n) + areas[k + 1..]
  {
  }

  lemma {:induction false} CarvedFront(areas: seq<Area>, k: nat, n: nat)
    requires k < |areas| && Fits(areas, k, areas[k].start, n) && n < areas[k].size
    ensures var a := areas[k];
      Carved(areas, k, a.start, n) == areas[..k] + [Area(a.start, n, true)] + [Area(a.start + n, a.size - n, false)] + areas[k + 1..]
  {
  }

  /** What is left and right of a free area is used. */
  lemma {:induction false} FreeNeighbours(areas: seq<Area>, k: nat)
    requires Merged(areas) && k < |areas| && !areas[k].used
    ensures k > 0 ==> areas[k - 1].used
    ensures k + 1 < |areas| ==> areas[k + 1].used
  {
    if k > 0 { assert Parted(areas, k - 1); }
    if k + 1 < |areas| { assert Parted(areas, k); }
  }

  /** Carving keeps the tiling, leaves no free neighbours, and uses n bytes more. */
  lemma {:induction false} CarvedGood(areas: seq<Area>, k: nat, x: nat, n: nat, s: nat, e: nat)
    requires Good(areas, s, e) && Fits(areas, k, x, n)
    ensures Good(Carved(areas, k, x, n), s, e) && UsedSize(Carved(areas, k, x, n)) == UsedSize(areas) + n
  {
    var a := areas[k];
    var ps := Pieces(a, x, n);
    assert areas[k..k + 1] == [a];
    var a', b' := Around(areas, k, k + 1, s, e);
    assert Tiled([a], a.start, a.End());
    TiledJoin(Before(a, x), [Area(x, n, true)], a.start, x, x + n);
    TiledJoin(Before(a, x) + [Area(x, n, true)], After(a, x + n), a.start, x + n, a.End());
    SplicedTiled(areas, k, k + 1, ps, s, e, a.start, a.End());
    UsedJoin(Before(a, x), [Area(x, n, true)]);
    UsedJoin(Before(a, x) + [Area(x, n, true)], After(a, x + n));
    MergedCarved(areas, k, ps);
  }

  lemma {:induction false} MergedCarved(areas: seq<Area>, k: nat, ps: seq<Area>)
    requires Merged(areas) && k < |areas| && !areas[k].used && Merged(ps) && ps != []
    ensures Merged(Spliced(areas, k, k + 1, ps))
  {
    FreeNeighbours(areas, k);
    assert areas == areas[..k] + areas[k..];
    MergedJoin(areas[..k], areas[k..]);
    assert areas[k..] == [areas[k]] + areas[k + 1..];
    MergedJoin([areas[k]], areas[k + 1..]);
    MergedJoin(areas[..k], ps);
    MergedJoin(areas[..k] + ps, areas[k + 1..]);
  }

  // ---------------------------------------------------------------- an area is freed and merged

  ghost function Low(areas: seq<Area>, k: nat): nat
    requires k < |areas|
  {
    if k > 0 && !areas[k - 1].used then k - 1 else k
  }

  ghost function High(areas: seq<Area>, k: nat): nat
    requires k < |areas|
  {
    if k + 1 < |areas| && !areas[k + 1].used then k + 2 else k + 1
  }

  /** The freed area together with the free areas next to it. */
  ghost function Freed(areas: seq<Area>, k: nat): seq<Area>
    requires k < |areas| && areas[Low(areas, k)].start <= areas[High(areas, k) - 1].End()
  {
    var lo, hi := Low(areas, k), High(areas, k);
    Spliced(areas, lo, hi, [Area(areas[lo].start, areas[hi - 1].End() - areas[lo].start, false)])
  }

  // The same in the steps in which it happens.

  ghost function Unmarked(areas: seq<Area>, k: nat): seq<Area>
    requires k < |areas|
  {
    areas[k := areas[k].(used := false)]
  }

  ghost function SwallowedFront(areas: seq<Area>, k: nat): seq<Area>
    requires 0 < k < |areas| && areas[k - 1].size <= areas[k].start
  {
    var a := areas[k];
    areas[..k - 1] + [Area(a.start - areas[k - 1].size, a.size + areas[k - 1].size, a.used)] + areas[k + 1..]
  }

  ghost function SwallowedBack(areas: seq<Area>, k: nat): seq<Area>
    requires k + 1 < |areas|
  {
    areas[..k] + [areas[k].(size := areas[k].size + areas[k + 1].size)] + areas[k + 2..]
  }

  ghost function Coalesced(areas: seq<Area>, k: nat): seq<Area>
    requires k < |areas| && (k > 0 ==> areas[k - 1].size <= areas[k].start)
  {
    var j := Low(areas, k);
    var front := if j < k then SwallowedFront(areas, k) else areas;
    if High(areas, k) > k + 1 then SwallowedBack(front, j) else front
  }

  /** The first merge does not change what is behind. */
  lemma {:induction false} NextAfterFront(areas: seq<Area>, k: nat)
    requires k < |areas| && (k > 0 ==> areas[k - 1].size <= areas[k].start)
    ensures
      var j := Low(areas, k);
      var front := if j < k then SwallowedFront(areas, k) else areas;
      j < |front| && Coalesced(areas, k) == if High(front, j) > j + 1 then SwallowedBack(front, j) else front
  {
  }

  lemma {:induction false} ThreeParts(a: seq<Area>, m: Area, c: seq<Area>)
    ensures var all := a + [m] + c;
      && all[..|a|] == a && all[|a|] == m && all[|a| + 1..] == c
      && (c != [] ==> all[|a| + 1] == c[0] && all[|a| + 2..] == c[1..])
  {
  }

  /** The k-th area with the free one in front of it, and what is around them. */
  lemma {:induction false} FrontPart(areas: seq<Area>, k: nat)
    requires k < |areas| && (k > 0 ==> areas[k].start == areas[k - 1].End())
    ensures Low(Unmarked(areas, k), k) == Low(areas, k) && High(Unmarked(areas, k), k) == High(areas, k)
    ensures
      var u, lo := Unmarked(areas, k), Low(areas, k);
      && (if lo < k then SwallowedFront(u, k) else u)
           == areas[..lo] + [Area(areas[lo].start, areas[k].End() - areas[lo].start, false)] + areas[k + 1..]
  {
    var u := Unmarked(areas, k);
    assert u == areas[..k] + [u[k]] + areas[k + 1..];
    if Low(areas, k) < k {
      assert u[..k - 1] == areas[..k - 1];
      assert u[k + 1..] == areas[k + 1..];
    }
  }

  lemma {:induction false} BackPart(areas: seq<Area>, lo: nat, k: nat, m: Area)
    requires lo <= k < |areas| - 1
    ensures SwallowedBack(areas[..lo] + [m] + areas[k + 1..], lo)
      == areas[..lo] + [m.(size := m.size + areas[k + 1].size)] + areas[k + 2..]
  {
    ThreeParts(areas[..lo], m, areas[k + 1..]);
    assert areas[k + 1..][1..] == areas[k + 2..];
  }

  lemma {:induction false} CoalescedShape(areas: seq<Area>, k: nat, lo: nat, m: Area)
    requires k < |areas| && lo == Low(areas, k) && (k > 0 ==> areas[k].start == areas[k - 1].End())
    requires m == Area(areas[lo].start, areas[k].End() - areas[lo].start, false)
    ensures Coalesced(Unmarked(areas, k), k) == if High(areas, k) > k + 1
      then areas[..lo] + [m.(size := m.size + areas[k + 1].size)] + areas[k + 2..]
      else areas[..lo] + [m] + areas[k + 1..]
  {
    hide Unmarked, SwallowedFront, SwallowedBack;
    FrontPart(areas, k);
    if High(areas, k) > k + 1 { BackPart(areas, lo, k, m); }
  }

  lemma {:induction false} CoalescedIsFreed(areas: seq<Area>, k: nat)
    requires k < |areas| && areas[Low(areas, k)].start <= areas[High(areas, k) - 1].End()
    requires k > 0 ==> areas[k].start == areas[k - 1].End()
    requires k + 1 < |areas| ==> areas[k + 1].start == areas[k].End()
    ensures Freed(areas, k) == Coalesced(Unmarked(areas, k), k)
  {
    hide Unmarked, Coalesced;
    var lo := Low(areas, k);
    CoalescedShape(areas, k, lo, Area(areas[lo].start, areas[k].End() - areas[lo].start, false));
  }

  lemma {:induction false} FreedSteps(areas: seq<Area>, k: nat, s: nat, e: nat)
    requires Good(areas, s, e) && k < |areas| && areas[k].used
    ensures areas[Low(areas, k)].start <= areas[High(areas, k) - 1].End()
    ensures k > 0 ==> areas[k - 1].size <= areas[k].start
    ensures Freed(areas, k) == Coalesced(Unmarked(areas, k), k)
  {
    FreedGood(areas, k, s, e);
    if k > 0 { TiledStart(areas, s, e, k); }
    if k + 1 < |areas| { TiledStart(areas, s, e, k + 1); }
    CoalescedIsFreed(areas, k);
  }

  lemma {:induction false} TiledStart(areas: seq<Area>, s: nat, e: nat, k: nat)
    requires Tiled(areas, s, e) && 0 < k < |areas|
    ensures areas[k].start == areas[k - 1].End()
  {
    if k > 1 { TiledStart(areas[1..], areas[0].End(), e, k - 1); }
  }

  lemma {:induction false} StretchTiled(areas: seq<Area>, lo: nat, hi: nat, s: nat, e: nat)
    requires Tiled(areas, s, e) && lo < hi <= |areas|
    ensures Tiled(areas[lo..hi], areas[lo].start, areas[hi - 1].End()) && areas[lo].start <= areas[hi - 1].End()
  {
    var a, b := Around(areas, lo, hi, s, e);
    var part := areas[lo..hi];
    assert part == part[..|part| - 1] + [part[|part| - 1]];
    var m := TiledSplit(part[..|part| - 1], [part[|part| - 1]], a, b);
  }

  /** Freeing keeps the tiling, leaves no free neighbours, and uses less by what was freed. */
  lemma {:induction false} FreedGood(areas: seq<Area>, k: nat, s: nat, e: nat)
    requires Good(areas, s, e) && k < |areas| && areas[k].used
    ensures areas[Low(areas, k)].start <= areas[High(areas, k) - 1].End()
    ensures Good(Freed(areas, k), s, e) && UsedSize(Freed(areas, k)) == UsedSize(areas) - areas[k].size
  {
    var lo, hi := Low(areas, k), High(areas, k);
    StretchTiled(areas, lo, hi, s, e);
    var all := Area(areas[lo].start, areas[hi - 1].End() - areas[lo].start, false);
    SplicedTiled(areas, lo, hi, [all], s, e, all.start, all.End());
    StretchUsed(areas, k);
    MergedFreed(areas, k, all);
  }

  lemma {:induction false} CutAround<T>(s: seq<T>, lo: nat, k: nat, hi: nat)
    requires lo <= k < hi <= |s|
    ensures s[lo..hi] == s[lo..k] + [s[k]] + s[k + 1..hi]
  {
  }

  lemma {:induction false} CutOne<T>(s: seq<T>, k: nat)
    requires k < |s|
    ensures s[k..k + 1] == [s[k]]
  {
  }

  lemma {:induction false} CutThree<T>(s: seq<T>, lo: nat, hi: nat)
    requires lo <= hi <= |s|
    ensures s == s[..lo] + s[lo..hi] + s[hi..]
  {
  }

  lemma {:induction false} StretchUsed(areas: seq<Area>, k: nat)
    requires k < |areas| && areas[k].used
    ensures UsedSize(areas[Low(areas, k)..High(areas, k)]) == areas[k].size
  {
    var lo, hi := Low(areas, k), High(areas, k);
    CutAround(areas, lo, k, hi);
    if lo < k { CutOne(areas, lo); }
    if k + 1 < hi { CutOne(areas, k + 1); }
    UsedJoin(areas[lo..k], [areas[k]]);
    UsedJoin(areas[lo..k] + [areas[k]], areas[k + 1..hi]);
  }

  lemma {:induction false} MergedFreed(areas: seq<Area>, k: nat, all: Area)
    requires Merged(areas) && k < |areas| && areas[k].used
    ensures Merged(Spliced(areas, Low(areas, k), High(areas, k), [all]))
  {
    var lo, hi := Low(areas, k), High(areas, k);
    CutThree(areas, lo, hi);
    MergedJoin(areas[..lo] + areas[lo..hi], areas[hi..]);
    MergedJoin(areas[..lo], areas[lo..hi]);
    if lo > 0 { assert Parted(areas, lo - 1); }
    if hi < |areas| { assert Parted(areas, hi - 1); }
    MergedJoin(areas[..lo], [all]);
    MergedJoin(areas[..lo] + [all], areas[hi..]);
  }

  /** Allocating and then freeing what was allocated restores the tiling. */
  lemma {:induction false} CarveThenFree(areas: seq<Area>, k: nat, x: nat, n: nat)
    requires Merged(areas) && Fits(areas, k, x, n)
    ensures
      var carved, j := Carved(areas, k, x, n), k + |Before(areas[k], x)|;
      && j < |carved| && carved[j] == Area(x, n, true)
      && carved[Low(carved, j)].start <= carved[High(carved, j) - 1].End()
      && Freed(carved, j) == areas
  {
    hide Merged, Carved, Low, High;
    CarvedBounds(areas, k, x, n);
    assert areas == areas[..k] + [areas[k]] + areas[k + 1..];
  }

  /** What would be merged when the new area is freed is what it was cut out of. */
  lemma {:induction false} CarvedBounds(areas: seq<Area>, k: nat, x: nat, n: nat)
    requires Merged(areas) && Fits(areas, k, x, n)
    ensures
      var carved, j := Carved(areas, k, x, n), k + |Before(areas[k], x)|;
      && j < |carved| && carved[j] == Area(x, n, true) && Low(carved, j) == k && carved[k].start == areas[k].start
      && High(carved, j) == j + 1 + |After(areas[k], x + n)| && carved[High(carved, j) - 1].End() == areas[k].End()
      && carved[..k] == areas[..k] && carved[High(carved, j)..] == areas[k + 1..]
  {
    hide Carved, Low, High;
    FreeNeighbours(areas, k);
    CarvedFive(areas, k, x, n);
    PartsBounds(areas[..k], Before(areas[k], x), Area(x, n, true), After(areas[k], x + n), areas[k + 1..]);
  }

  lemma {:induction false} PartsBounds(a: seq<Area>, b: seq<Area>, m: Area, c: seq<Area>, d: seq<Area>)
    requires |b| <= 1 && |c| <= 1 && m.used && (b != [] ==> !b[0].used) && (c != [] ==> !c[0].used)
    requires (a != [] ==> a[|a| - 1].used) && (d != [] ==> d[0].used)
    ensures
      var all, j := a + b + [m] + c + d, |a| + |b|;
      && all[..|a|] == a && all[j] == m && all[j + 1 + |c|..] == d && Low(all, j) == |a| && High(all, j) == j + 1 + |c|
      && all[|a|] == (if b != [] then b[0] else m) && all[j + |c|] == (if c != [] then c[0] else m)
  {
    FiveParts(a, b, m, c, d);
  }

  lemma {:induction false} FiveParts<T>(a: seq<T>, b: seq<T>, m: T, c: seq<T>, d: seq<T>)
    requires |b| <= 1 && |c| <= 1
    ensures var all, j := a + b + [m] + c + d, |a| + |b|;
      && all[..|a|] == a && all[j] == m && all[j + 1 + |c|..] == d
      && (b != [] ==> all[|a|] == b[0]) && (c != [] ==> all[j + 1] == c[0])
      && (a != [] ==> all[|a| - 1] == a[|a| - 1]) && (d != [] ==> all[j + 1 + |c|] == d[0])
  {
  }

  // ---------------------------------------------------------------- what is free, byte by byte

  lemma {:induction false} TiledBounds(areas: seq<Area>, s: nat, e: nat, i: nat)
    requires Tiled(areas, s, e) && i < |areas|
    ensures s <= areas[i].start && areas[i].End() <= e
  {
    if i > 0 { TiledBounds(areas[1..], areas[0].End(), e, i - 1); }
    TiledOrder(areas[1..], areas[0].End(), e);
  }

  /** Every address of the range lies in exactly one area. */
  lemma {:induction false} TiledFinds(areas: seq<Area>, s: nat, e: nat, x: nat) returns (k: nat)
    requires Tiled(areas, s, e) && s <= x < e
    ensures k < |areas| && areas[k].Contains(x)
  {
    k := 0;
    if areas[0].End() <= x {
      k := TiledFinds(areas[1..], areas[0].End(), e, x);
      k := k + 1;
    }
  }

  lemma {:induction false} TiledUnique(areas: seq<Area>, s: nat, e: nat, x: nat, i: nat, j: nat)
    requires Tiled(areas, s, e) && i < |areas| && j < |areas| && areas[i].Contains(x) && areas[j].Contains(x)
    ensures i == j
  {
    if i > 0 && j > 0 {
      TiledUnique(areas[1..], areas[0].End(), e, x, i - 1, j - 1);
    } else if i > 0 {
      TiledBounds(areas[1..], areas[0].End(), e, i - 1);
    } else if j > 0 {
      TiledBounds(areas[1..], areas[0].End(), e, j - 1);
    }
  }

  /** Right behind an area begins the next one. */
  lemma {:induction false} TiledNext(areas: seq<Area>, s: nat, e: nat, k: nat)
    requires Tiled(areas, s, e) && Solid(areas) && k < |areas|
    ensures if k + 1 < |areas| then areas[k + 1].Contains(areas[k].End()) else areas[k].End() == e
  {
    if k > 0 { TiledNext(areas[1..], areas[0].End(), e, k - 1); }
  }

  /** Where no area is empty, a stretch that starts in area k is free throughout exactly when the area is free and holds
      all of it. */
  lemma {:induction false} FreeThroughout(areas: seq<Area>, s: nat, e: nat, k: nat, x: nat, n: nat)
    requires Good(areas, s, e) && Solid(areas) && k < |areas| && areas[k].Contains(x) && n > 0
    ensures (forall y :: x <= y < x + n ==> FreeAt(areas, y)) <==> Fits(areas, k, x, n)
  {
    var a := areas[k];
    if Fits(areas, k, x, n) {
      forall y | x <= y < x + n ensures FreeAt(areas, y) { assert areas[k].Contains(y); }
    } else if a.used {
      NotFree(areas, s, e, k, x);
      assert x <= x < x + n && !FreeAt(areas, x);
    } else {
      FreeNeighbours(areas, k);
      TiledNext(areas, s, e, k);
      if k + 1 < |areas| {
        NotFree(areas, s, e, k + 1, a.End());
      } else {
        Outside(areas, s, e, a.End());
      }
      assert x <= a.End() < x + n && !FreeAt(areas, a.End());
    }
  }

  /** An empty used area between two free ones: all addresses are free, but no area holds all of them. */
  lemma EmptyParts()
    ensures
      var areas := [Area(0, 1, false), Area(1, 0, true), Area(1, 1, false)];
      Good(areas, 0, 2) && (forall y :: 0 <= y < 2 ==> FreeAt(areas, y)) && forall k :: !Fits(areas, k, 0, 2)
  {
    var areas := [Area(0, 1, false), Area(1, 0, true), Area(1, 1, false)];
    assert areas[1..] == [Area(1, 0, true), Area(1, 1, false)] && areas[1..][1..] == [Area(1, 1, false)];
    assert Tiled([Area(1, 1, false)], 1, 2) && Tiled(areas[1..], 1, 2);
    assert areas[0].Contains(0) && areas[2].Contains(1);
  }

  /** Allocation leaves no empty area if and only if it is not for nothing. */
  lemma {:induction false} CarvedSolid(areas: seq<Area>, k: nat, x: nat, n: nat)
    requires Solid(areas) && Fits(areas, k, x, n)
    ensures Solid(Carved(areas, k, x, n)) <==> n > 0
  {
    var carved, ps := Carved(areas, k, x, n), Pieces(areas[k], x, n);
    var j := k + |Before(areas[k], x)|;
    assert carved[j] == Area(x, n, true);
    if n > 0 {
      forall i | 0 <= i < |carved| ensures carved[i].size > 0 {
        if k <= i < k + |ps| { assert carved[i] == ps[i - k]; }
      }
    }
  }

  lemma {:induction false} FreedSolid(areas: seq<Area>, k: nat, s: nat, e: nat)
    requires Good(areas, s, e) && Solid(areas) && k < |areas| && areas[k].used
    ensures areas[Low(areas, k)].start <= areas[High(areas, k) - 1].End() && Solid(Freed(areas, k))
  {
    FreedGood(areas, k, s, e);
    var lo, hi, freed := Low(areas, k), High(areas, k), Freed(areas, k);
    if lo < k { TiledStart(areas, s, e, k); }
    if k + 1 < hi { TiledStart(areas, s, e, k + 1); }
    forall i | 0 <= i < |freed| ensures freed[i].size > 0 {
      if i > lo { assert freed[i] == areas[i + hi - lo - 1]; }
    }
  }

  lemma {:induction false} NotFree(areas: seq<Area>, s: nat, e: nat, k: nat, x: nat)
    requires Tiled(areas, s, e) && k < |areas| && areas[k].Contains(x) && areas[k].used
    ensures !FreeAt(areas, x)
  {
    forall i | 0 <= i < |areas| && areas[i].Contains(x) ensures areas[i].used { TiledUnique(areas, s, e, x, i, k); }
  }

  lemma {:induction false} Outside(areas: seq<Area>, s: nat, e: nat, x: nat)
    requires Tiled(areas, s, e) && !(s <= x < e)
    ensures forall i :: 0 <= i < |areas| ==> !areas[i].Contains(x)
  {
    forall i | 0 <= i < |areas| ensures !areas[i].Contains(x) { TiledBounds(areas, s, e, i); }
  }

  /** The k-th area is free and holds the n bytes from the address on. */
  ghost predicate Holds(areas: seq<Area>, k: int, address: nat, n: nat) {
    0 <= k < |areas| && areas[k].Contains(address) && !areas[k].used && address + n <= areas[k].End()
  }

  /** The k-th area is free, holds the address, and either has exactly n bytes or n bytes from the address on. */
  ghost predicate Admits(areas: seq<Area>, k: int, address: nat, n: nat) {
    0 <= k < |areas| && areas[k].Contains(address) && !areas[k].used && (areas[k].size == n || address + n <= areas[k].End())
  }

  /** Only the area that holds the address matters. */
  lemma {:induction false} OnlyHolder(areas: seq<Area>, s: nat, e: nat, k: nat, address: nat, n: nat)
    requires Tiled(areas, s, e) && k < |areas| && areas[k].Contains(address)
    ensures (exists i :: Admits(areas, i, address, n)) <==> Admits(areas, k, address, n)
    ensures (exists i :: Holds(areas, i, address, n)) <==> Holds(areas, k, address, n)
  {
    forall i | 0 <= i < |areas| && areas[i].Contains(address) ensures i == k { TiledUnique(areas, s, e, address, i, k); }
  }

  /** Where no area is empty, an area holds the stretch exactly when every address of it is free. */
  lemma {:induction false} HoldsIffFree(areas: seq<Area>, s: nat, e: nat, address: nat, n: nat)
    requires Good(areas, s, e) && Solid(areas) && n > 0
    ensures (exists i :: Holds(areas, i, address, n)) <==> forall y :: address <= y < address + n ==> FreeAt(areas, y)
  {
    if s <= address < e {
      var k := TiledFinds(areas, s, e, address);
      OnlyHolder(areas, s, e, k, address, n);
      FreeThroughout(areas, s, e, k, address, n);
    } else {
      Outside(areas, s, e, address);
      assert address <= address < address + n && !FreeAt(areas, address);
    }
  }

  // ---------------------------------------------------------------- the list

  lemma {:induction false} PutSlices<T>(s: seq<T>, k: nat, front: seq<T>)
    requires k < |s|
    ensures var all, j := s[..k] + front + s[k..], k + |front|;
      j < |all| && all[..j + 1] == s[..k] + front + [s[k]] && all[j] == s[k] && all[j + 1..] == s[k + 1..]
  {
  }

  class Node {
    var start: nat
    var size: nat
    var used: bool
    var next: Node?
    var prev: Node?

    constructor ()
      ensures start == 0 && size == 0 && !used && next == null && prev == null
    {
      start, size, used, next, prev := 0, 0, false, null, null;
    }
  }

  ghost function At(nodes: seq<Node>, i: int): Node? {
    if 0 <= i < |nodes| then nodes[i] else null
  }

  ghost predicate Hooked(nodes: seq<Node>, i: int)
    requires 0 <= i < |nodes|
    reads nodes`next, nodes`prev
  {
    nodes[i].next == At(nodes, i + 1) && nodes[i].prev == At(nodes, i - 1)
  }

  ghost predicate Distinct(nodes: seq<Node>) {
    forall i, j :: 0 <= i < j < |nodes| ==> nodes[i] != nodes[j]
  }

  lemma {:induction false} DistinctDrop(nodes: seq<Node>, i: nat)
    requires Distinct(nodes) && i < |nodes|
    ensures Distinct(nodes[..i] + nodes[i + 1..])
  {
    var rest := nodes[..i] + nodes[i + 1..];
    forall a, b | 0 <= a < b < |rest| ensures rest[a] != rest[b] {
      assert rest[a] == nodes[if a < i then a else a + 1] && rest[b] == nodes[if b < i then b else b + 1];
    }
  }

  ghost predicate Chain(nodes: seq<Node>, head: Node)
    reads nodes`next, nodes`prev
  {
    nodes != [] && head == nodes[0] && Distinct(nodes) && forall i :: 0 <= i < |nodes| ==> Hooked(nodes, i)
  }

  ghost function Picture(n: Node): Area
    reads n`start, n`size, n`used
  {
    Area(n.start, n.size, n.used)
  }

  ghost predicate Shows(nodes: seq<Node>, areas: seq<Area>)
    reads nodes`start, nodes`size, nodes`used
  {
    |areas| == |nodes| && forall i :: 0 <= i < |nodes| ==> areas[i] == Picture(nodes[i])
  }

  lemma {:induction false} ShowsFive(a: seq<Node>, b: seq<Node>, c: Node, d: seq<Node>, e: seq<Node>,
                  a': seq<Area>, b': seq<Area>, c': Area, d': seq<Area>, e': seq<Area>)
    requires Shows(a, a') && Shows(b, b') && Picture(c) == c' && Shows(d, d') && Shows(e, e')
    ensures Shows(a + b + [c] + d + e, a' + b' + [c'] + d' + e')
  {
  }

  lemma {:induction false} ShowsFour(a: seq<Node>, b: Node, c: Node, d: seq<Node>, a': seq<Area>, d': seq<Area>)
    requires Shows(a, a') && Shows(d, d')
    ensures Shows(a + [b] + [c] + d, a' + [Picture(b)] + [Picture(c)] + d')
  {
  }

  lemma {:induction false} ShowsThree(a: seq<Node>, b: Node, c: seq<Node>, a': seq<Area>, c': seq<Area>)
    requires Shows(a, a') && Shows(c, c')
    ensures Shows(a + [b] + c, a' + [Picture(b)] + c')
  {
  }

  ghost predicate OnlyNew(nodes: seq<Node>, nodes': seq<Node>, cut: seq<Node>) {
    forall y :: y in nodes' ==> y in nodes || y in cut
  }

  class Space {
    const start: nat
    const size: nat
    var head: Node
    var used: nat
    ghost var nodes: seq<Node>
    ghost var areas: seq<Area>

    ghost predicate Linked()
      reads this`head, this`nodes, nodes`next, nodes`prev
    {
      exists ns :: ns == nodes && Chain(ns, head)
    }

    /** The nodes hold what `areas` says. */
    ghost predicate Seen()
      reads this, nodes`start, nodes`size, nodes`used
    {
      Shows(nodes, areas)
    }

    /** The list is well linked, its areas tile the range without free neighbours, and the counter is exact. */
    ghost predicate Valid()
      reads this, nodes
    {
      Linked() && Seen() && Good(areas, start, start + size) && used == UsedSize(areas)
    }

    constructor (start: nat, size: nat)
      ensures Valid() && this.start == start && this.size == size && fresh(nodes)
      ensures areas == [Area(start, size, false)] && (size > 0 ==> Solid(areas))
    {
      var first := new Node();
      first.start, first.size := start, size;
      this.start, this.size, this.head, this.used, this.nodes := start, size, first, 0, [first];
      this.areas := [Area(start, size, false)];
      new;
      assert Chain(nodes, head);
    }

    /** The nodes outside a stretch around the k-th, and what they hold. */
    lemma SeenAround(lo: nat, k: nat, hi: nat)
      requires Linked() && Seen() && lo <= k < hi <= |nodes|
      ensures |areas| == |nodes| && Picture(nodes[k]) == areas[k] && Hooked(nodes, k)
      ensures Shows(nodes[..lo], areas[..lo]) && nodes[k] !in nodes[..lo]
      ensures Shows(nodes[hi..], areas[hi..]) && nodes[k] !in nodes[hi..]
    {
      assert Chain(nodes, head);
    }

    /** Links a new node in front of the k-th. */
    method LinkBefore(ghost k: nat, cur: Node, node: Node)
      requires Linked() && k < |nodes| && cur == nodes[k] && node !in nodes
      modifies this`head, this`nodes, node`next, node`prev, nodes`next, nodes`prev
      ensures Linked() && nodes == old(nodes)[..k] + [node] + old(nodes)[k..]
    {
      assert Hooked(nodes, k);
      assert k > 0 ==> Hooked(nodes, k - 1);
      node.next, node.prev := cur, cur.prev;
      if cur.prev != null { cur.prev.next := node; }
      cur.prev := node;
      if head == cur { head := node; }
      nodes := nodes[..k] + [node] + nodes[k..];
      forall i | 0 <= i < |nodes| ensures Hooked(nodes, i) {
        assert i < k ==> old(Hooked(nodes, i));
        assert i > k ==> old(Hooked(nodes, i - 1));
      }
      assert Chain(nodes, head);
    }

    /** Links a new node behind the k-th. */
    method LinkAfter(ghost k: nat, cur: Node, node: Node)
      requires Linked() && k < |nodes| && cur == nodes[k] && node !in nodes
      modifies this`nodes, node`next, node`prev, nodes`next, nodes`prev
      ensures Linked() && nodes == old(nodes)[..k + 1] + [node] + old(nodes)[k + 1..]
    {
      assert Hooked(nodes, k);
      assert k + 1 < |nodes| ==> Hooked(nodes, k + 1);
      node.next, node.prev := cur.next, cur;
      if cur.next != null { cur.next.prev := node; }
      cur.next := node;
      nodes := nodes[..k + 1] + [node] + nodes[k + 1..];
      forall i | 0 <= i < |nodes| ensures Hooked(nodes, i) {
        assert i <= k ==> old(Hooked(nodes, i));
        assert i > k + 1 ==> old(Hooked(nodes, i - 1));
      }
      assert Chain(nodes, head);
    }

    /** Unlinks the node in front of the k-th. */
    method UnlinkPrevious(ghost k: nat, region: Node)
      requires Linked() && 0 < k < |nodes| && region == nodes[k]
      modifies this`head, this`nodes, nodes`next, nodes`prev
      ensures Linked() && nodes == old(nodes)[..k - 1] + [region] + old(nodes)[k + 1..]
      ensures forall x :: x in nodes ==> x in old(nodes)
    {
      assert Hooked(nodes, k) && Hooked(nodes, k - 1);
      assert k > 1 ==> Hooked(nodes, k - 2);
      var gone := region.prev;
      region.prev := gone.prev;
      if gone.prev != null { gone.prev.next := region; }
      if head == gone { head := region; }
      nodes := nodes[..k - 1] + [region] + nodes[k + 1..];
      forall i | 0 <= i < |nodes| ensures Hooked(nodes, i) {
        assert i < k - 1 ==> old(Hooked(nodes, i));
        assert i >= k - 1 ==> old(Hooked(nodes, i + 1));
      }
      DistinctDrop(old(nodes), k - 1);
      assert nodes == old(nodes)[..k - 1] + old(nodes)[k - 1 + 1..];
      assert Chain(nodes, head);
    }

    /** Unlinks the node behind the k-th. */
    method UnlinkNext(ghost k: nat, region: Node)
      requires Linked() && k + 1 < |nodes| && region == nodes[k]
      modifies this`nodes, nodes`next, nodes`prev
      ensures Linked() && nodes == old(nodes)[..k] + [region] + old(nodes)[k + 2..]
      ensures forall x :: x in nodes ==> x in old(nodes)
    {
      assert Hooked(nodes, k) && Hooked(nodes, k + 1);
      assert k + 2 < |nodes| ==> Hooked(nodes, k + 2);
      var gone := region.next;
      region.next := gone.next;
      if gone.next != null { gone.next.prev := region; }
      nodes := nodes[..k] + [region] + nodes[k + 2..];
      forall i | 0 <= i < |nodes| ensures Hooked(nodes, i) {
        assert i <= k ==> old(Hooked(nodes, i));
        assert i > k ==> old(Hooked(nodes, i + 1));
      }
      DistinctDrop(old(nodes), k + 1);
      assert nodes == old(nodes)[..k + 1] + old(nodes)[k + 1 + 1..];
      assert Chain(nodes, head);
    }

    /** Puts a new used area of n bytes in front of the k-th. */
    method PutFront(ghost k: nat, cur: Node, n: nat) returns (node: Node)
      requires Linked() && k < |nodes| && cur == nodes[k]
      modifies this`head, this`nodes, nodes`next, nodes`prev
      ensures Linked() && nodes == old(nodes)[..k] + [node] + [cur] + old(nodes)[k + 1..]
      ensures fresh(node) && Picture(node) == Area(cur.start, n, true)
    {
      node := new Node();
      node.start, node.size, node.used := cur.start, n, true;
      LinkBefore(k, cur, node);
    }

    /** The first n bytes of a larger free area become a used area of their own. */
    method SplitFront(ghost k: nat, cur: Node, n: nat) returns (node: Node)
      requires Linked() && Seen() && k < |nodes| && cur == nodes[k] && Fits(areas, k, cur.start, n) && n < cur.size
      modifies this`head, this`nodes, this`areas, nodes
      ensures Linked() && Seen() && areas == Carved(old(areas), k, old(cur.start), n) && k < |nodes| && node == nodes[k]
      ensures (forall x :: x in nodes ==> x in old(nodes) || fresh(x))
    {
      hide Chain, Shows, Carved;
      SeenAround(k, k, k + 1);
      CarvedFront(areas, k, n);
      ghost var front, back, front', back' := nodes[..k], nodes[k + 1..], areas[..k], areas[k + 1..];
      node := PutFront(k, cur, n);
      cur.start, cur.size := cur.start + n, cur.size - n;
      assert Shows(front, front') && Shows(back, back');
      ShowsFour(front, node, cur, back, front', back');
      areas := front' + [Picture(node)] + [Picture(cur)] + back';
      assert nodes == front + [node] + [cur] + back;
    }

    /** Marks a free area of n bytes used, or the first n bytes of a larger one. */
    method Take(ghost k: nat, cur: Node, n: nat) returns (region: Node)
      requires Valid() && k < |nodes| && cur == nodes[k] && Fits(areas, k, cur.start, n)
      modifies this`head, this`used, this`nodes, this`areas, nodes
      ensures Valid() && (forall x :: x in nodes ==> x in old(nodes) || fresh(x))
      ensures areas == Carved(old(areas), k, old(cur.start), n) && k < |nodes| && region == nodes[k] && used == old(used) + n
    {
      CarvedGood(areas, k, cur.start, n, start, start + size);
      used := used + n;
      if cur.size == n {
        assert Carved(areas, k, cur.start, n) == areas[k := Area(cur.start, n, true)];
        cur.used := true;
        areas := areas[k := Area(cur.start, n, true)];
        return cur;
      }
      region := SplitFront(k, cur, n);
    }

    /** First fit. */
    method AllocSpace(n: nat) returns (region: Node?, ghost k: nat)
      requires Valid()
      modifies this`head, this`used, this`nodes, this`areas, nodes
      ensures Valid() && (forall x :: x in nodes ==> x in old(nodes) || fresh(x))
      ensures region == null <==> forall i :: 0 <= i < |old(areas)| ==> old(areas)[i].used || old(areas)[i].size < n
      ensures region == null ==> areas == old(areas) && nodes == old(nodes)
      ensures region != null ==> k < |old(areas)| && k < |nodes| && Fits(old(areas), k, old(areas)[k].start, n)
      ensures region != null ==>
        && (forall i :: 0 <= i < k ==> old(areas)[i].used || old(areas)[i].size < n)
        && areas == Carved(old(areas), k, old(areas)[k].start, n) && region == nodes[k] && used == old(used) + n
        && (Solid(old(areas)) ==> (Solid(areas) <==> n > 0))
    {
      var cur: Node? := head;
      k := 0;
      while cur != null
        invariant k <= |nodes| && cur == At(nodes, k) && unchanged(this) && unchanged(nodes)
        invariant forall i :: 0 <= i < k ==> areas[i].used || areas[i].size < n
        decreases |nodes| - k
      {
        assert Hooked(nodes, k);
        if !cur.used && n <= cur.size {
          if Solid(areas) { CarvedSolid(areas, k, cur.start, n); }
          region := Take(k, cur, n);
          return;
        }
        cur, k := cur.next, k + 1;
      }
      region := null;
    }

    /** Gives what lies in front of address x in the k-th area to a new free area. */
    method CutBefore(ghost k: nat, cur: Node, x: nat) returns (ghost cut: seq<Node>)
      requires Linked() && k < |nodes| && cur == nodes[k] && cur.start <= x
      modifies this`head, this`nodes, nodes`next, nodes`prev
      ensures Linked() && nodes == old(nodes)[..k] + cut + old(nodes)[k..] && |cut| == |Before(Picture(cur), x)|
      ensures fresh(cut) && Shows(cut, Before(Picture(cur), x)) && OnlyNew(old(nodes), nodes, cut)
    {
      cut := [];
      if cur.start < x {
        var node := new Node();
        node.start, node.size, node.used := cur.start, x - cur.start, false;
        LinkBefore(k, cur, node);
        cut := [node];
      } else {
        assert nodes == nodes[..k] + [] + nodes[k..];
      }
    }

    /** Gives what lies behind address x in the k-th area to a new free area. */
    method CutAfter(ghost k: nat, cur: Node, x: nat) returns (ghost cut: seq<Node>)
      requires Linked() && k < |nodes| && cur == nodes[k] && x <= Picture(cur).End()
      modifies this`nodes, nodes`next, nodes`prev
      ensures Linked() && nodes == old(nodes)[..k + 1] + cut + old(nodes)[k + 1..] && |cut| == |After(Picture(cur), x)|
      ensures fresh(cut) && Shows(cut, After(Picture(cur), x)) && OnlyNew(old(nodes), nodes, cut)
    {
      cut := [];
      if x < cur.start + cur.size {
        var node := new Node();
        node.start, node.size, node.used := x, cur.start + cur.size - x, false;
        LinkAfter(k, cur, node);
        cut := [node];
      } else {
        assert nodes == nodes[..k + 1] + [] + nodes[k + 1..];
      }
    }

    /** Cuts both ends off the k-th area. */
    method CutBoth(ghost k: nat, cur: Node, x: nat, n: nat) returns (ghost front: seq<Node>, ghost back: seq<Node>)
      requires Linked() && k < |nodes| && cur == nodes[k] && cur.start <= x && x + n <= Picture(cur).End()
      modifies this`head, this`nodes, nodes`next, nodes`prev
      ensures Linked() && nodes == old(nodes)[..k] + front + [cur] + back + old(nodes)[k + 1..]
      ensures k + |front| < |nodes| && nodes[k + |front|] == cur && |front| == |Before(Picture(cur), x)|
      ensures fresh(front) && Shows(front, Before(Picture(cur), x)) && fresh(back) && Shows(back, After(Picture(cur), x + n))
      ensures OnlyNew(old(nodes), nodes, front + back)
    {
      hide Chain, Shows;
      ghost var ns := nodes;
      front := CutBefore(k, cur, x);
      PutSlices(ns, k, front);
      back := CutAfter(k + |front|, cur, x + n);
    }

    /** The n bytes from address x on become a used area, and what is left of the free area stays free. */
    method SplitMiddle(ghost k: nat, cur: Node, x: nat, n: nat)
      requires Linked() && Seen() && k < |nodes| && cur == nodes[k] && Fits(areas, k, x, n)
      modifies this`head, this`nodes, this`areas, nodes
      ensures Linked() && Seen() && areas == Carved(old(areas), k, x, n) && (forall y :: y in nodes ==> y in old(nodes) || fresh(y))
      ensures var j := k + |Before(old(areas)[k], x)|; j < |nodes| && cur == nodes[j]
    {
      hide Chain, Shows;
      SeenAround(k, k, k + 1);
      ghost var ns := nodes;
      ghost var front, back := CutBoth(k, cur, x, n);
      cur.start, cur.size, cur.used := x, n, true;
      CarvedFive(areas, k, x, n);
      ShowsFive(ns[..k], front, cur, back, ns[k + 1..],
                areas[..k], Before(areas[k], x), Area(x, n, true), After(areas[k], x + n), areas[k + 1..]);
      areas := Carved(areas, k, x, n);
    }

    /** The node whose area holds the address, if any. */
    method Holding(address: nat) returns (cur: Node?, ghost k: nat)
      requires Valid()
      ensures Valid() && cur == At(nodes, k) && k <= |nodes| && (k < |nodes| ==> areas[k].Contains(address))
      ensures forall i :: 0 <= i < k ==> !areas[i].Contains(address)
      ensures cur == null ==> k == |areas|
    {
      cur, k := head, 0;
      while cur != null && !(cur.start <= address < cur.start + cur.size)
        invariant k <= |nodes| && cur == At(nodes, k)
        invariant forall i :: 0 <= i < k ==> !areas[i].Contains(address)
        decreases |nodes| - k
      {
        assert Hooked(nodes, k);
        cur, k := cur.next, k + 1;
      }
    }

    /** Takes n bytes at the address x inside the k-th area. */
    method TakeAt(ghost k: nat, cur: Node, x: nat, n: nat)
      requires Valid() && k < |nodes| && cur == nodes[k] && Fits(areas, k, x, n)
      modifies this`head, this`used, this`nodes, this`areas, nodes
      ensures Valid() && (forall y :: y in nodes ==> y in old(nodes) || fresh(y))
      ensures areas == Carved(old(areas), k, x, n) && used == old(used) + n
      ensures var j := k + |Before(old(areas)[k], x)|; j < |nodes| && cur == nodes[j]
    {
      CarvedGood(areas, k, x, n, start, start + size);
      used := used + n;
      SplitMiddle(k, cur, x, n);
    }

    /** Allocates at a given address. An area of exactly n bytes is taken whole, wherever in it the address lies. */
    method AllocSpaceAt(n: nat, address: nat) returns (region: Node?, ghost k: nat, ghost x: nat)
      requires Valid()
      modifies this`head, this`used, this`nodes, this`areas, nodes
      ensures Valid() && (forall y :: y in nodes ==> y in old(nodes) || fresh(y))
      ensures region == null ==> areas == old(areas) && nodes == old(nodes)
      ensures region != null ==> Fits(old(areas), k, x, n) && areas == Carved(old(areas), k, x, n) && used == old(used) + n
      ensures region != null ==> var j := k + |Before(old(areas)[k], x)|; j < |nodes| && region == nodes[j]
      ensures region != null && x != address ==> old(areas)[k].Contains(address) && old(areas)[k].size == n
      ensures region != null <==> exists i :: Admits(old(areas), i, address, n)
      ensures region != null && x == address <==> exists i :: Holds(old(areas), i, address, n)
      ensures region != null && Solid(old(areas)) ==> (Solid(areas) <==> n > 0)
    {
      hide Carved, Solid, Chain, Shows;
      var cur: Node?;
      cur, k := Holding(address);
      region, x := null, address;
      if cur == null {
        return;
      }
      SeenAround(k, k, k + 1);
      OnlyHolder(areas, start, start + size, k, address, n);
      if !cur.used {
        if Solid(areas) && (cur.size == n || address + n <= cur.start + cur.size) {
          CarvedSolid(areas, k, if cur.size == n then cur.start else address, n);
        }
        if cur.size == n {
          x := cur.start;
          assert Before(areas[k], x) == [];
          region := Take(k, cur, n);
        } else if cur.size - (address - cur.start) >= n {
          region := cur;
          TakeAt(k, cur, address, n);
        }
      }
    }

    /** The start of the first free area of at least n bytes. */
    method FindFreeSpace(n: nat) returns (r: Option<nat>, ghost k: nat)
      requires Valid()
      ensures Valid()
      ensures r.None? <==> forall i :: 0 <= i < |areas| ==> areas[i].used || areas[i].size < n
      ensures r.Some? ==>
        && k < |areas| && !areas[k].used && n <= areas[k].size && r.value == areas[k].start
        && forall i :: 0 <= i < k ==> areas[i].used || areas[i].size < n
    {
      var cur: Node? := head;
      k := 0;
      while cur != null
        invariant k <= |nodes| && cur == At(nodes, k)
        invariant forall i :: 0 <= i < k ==> areas[i].used || areas[i].size < n
        decreases |nodes| - k
      {
        assert Hooked(nodes, k);
        if !cur.used && cur.size >= n {
          return Some(cur.start), k;
        }
        cur, k := cur.next, k + 1;
      }
      r := None;
    }

    /** What the two-phase growth of the heap relies on: the address found is the address of the region allocated there. */
    method FindThenAlloc(n: nat) returns (r: Option<nat>, region: Node?)
      requires Valid()
      modifies this`head, this`used, this`nodes, this`areas, nodes
      ensures Valid() && (r.None? ==> region == null && areas == old(areas))
      ensures r.Some? && n > 0 ==> region != null && region in nodes && region.start == r.value && region.size == n && region.used
    {
      ghost var k;
      region := null;
      r, k := FindFreeSpace(n);
      if r.Some? {
        ghost var x, j;
        assert n > 0 ==> Holds(areas, k, r.value, n);
        region, j, x := AllocSpaceAt(n, r.value);
        if region != null { assert areas[j + |Before(old(areas)[j], x)|] == Area(x, n, true); }
      }
    }

    /** The k-th area swallows the one in front of it. */
    method SwallowPrevious(ghost k: nat, region: Node)
      requires Linked() && Seen() && 0 < k < |nodes| && region == nodes[k] && areas[k - 1].size <= region.start
      modifies this`head, this`nodes, this`areas, nodes
      ensures Linked() && Seen() && nodes == old(nodes)[..k - 1] + [region] + old(nodes)[k + 1..]
      ensures areas == SwallowedFront(old(areas), k) && forall x :: x in nodes ==> x in old(nodes)
    {
      hide Chain, Shows;
      SeenAround(k - 1, k, k + 1);
      SeenAround(k - 1, k - 1, k + 1);
      ghost var front, back, front', back' := nodes[..k - 1], nodes[k + 1..], areas[..k - 1], areas[k + 1..];
      var gone := region.prev;
      UnlinkPrevious(k, region);
      region.start, region.size := region.start - gone.size, region.size + gone.size;
      ShowsThree(front, region, back, front', back');
      areas := front' + [Picture(region)] + back';
    }

    /** The k-th area swallows the one behind it. */
    method SwallowNext(ghost k: nat, region: Node)
      requires Linked() && Seen() && k + 1 < |nodes| && region == nodes[k]
      modifies this`nodes, this`areas, nodes
      ensures Linked() && Seen() && nodes == old(nodes)[..k] + [region] + old(nodes)[k + 2..]
      ensures areas == SwallowedBack(old(areas), k) && forall x :: x in nodes ==> x in old(nodes)
    {
      hide Chain, Shows;
      SeenAround(k, k, k + 2);
      SeenAround(k, k + 1, k + 2);
      ghost var ns := nodes;
      var gone := region.next;
      UnlinkNext(k, region);
      region.size := region.size + gone.size;
      ShowsThree(ns[..k], region, ns[k + 2..], areas[..k], areas[k + 2..]);
      areas := SwallowedBack(areas, k);
    }

    /** Merges the k-th area with the free areas next to it. */
    method Coalesce(region: Node, ghost k: nat)
      requires Linked() && Seen() && k < |nodes| && region == nodes[k] && (k > 0 ==> areas[k - 1].size <= region.start)
      modifies this`head, this`nodes, this`areas, nodes
      ensures Linked() && Seen() && areas == Coalesced(old(areas), k) && forall x :: x in nodes ==> x in old(nodes)
    {
      hide Chain, Shows, SwallowedFront, SwallowedBack, Coalesced, Low, High;
      SeenAround(k, k, k + 1);
      NextAfterFront(areas, k);
      ghost var j := MergeFront(region, k);
      assert forall x :: x in nodes ==> x in old(nodes);
      MergeBack(region, j);
    }

    /** The first of the two merges: with the area in front, if that is free. */
    method MergeFront(region: Node, ghost k: nat) returns (ghost j: nat)
      requires Linked() && Seen() && k < |nodes| && region == nodes[k] && (k > 0 ==> areas[k - 1].size <= region.start)
      modifies this`head, this`nodes, this`areas, nodes
      ensures Linked() && Seen() && j < |nodes| && region == nodes[j] && j == Low(old(areas), k)
      ensures areas == if j < k then SwallowedFront(old(areas), k) else old(areas)
      ensures nodes == if j < k then old(nodes)[..k - 1] + [region] + old(nodes)[k + 1..] else old(nodes)
    {
      hide Chain, Shows, SwallowedFront;
      j := k;
      SeenAround(k, k, k + 1);
      if k > 0 { SeenAround(k - 1, k - 1, k); }
      if region.prev != null && !region.prev.used {
        SwallowPrevious(k, region);
        j := k - 1;
      }
    }

    /** The second: with the area behind, if that is free. */
    method MergeBack(region: Node, ghost k: nat)
      requires Linked() && Seen() && k < |nodes| && region == nodes[k]
      modifies this`nodes, this`areas, nodes
      ensures Linked() && Seen() && areas == if High(old(areas), k) > k + 1 then SwallowedBack(old(areas), k) else old(areas)
      ensures forall x :: x in nodes ==> x in old(nodes)
    {
      hide Chain, Shows, SwallowedBack;
      SeenAround(k, k, k + 1);
      if k + 1 < |nodes| { SeenAround(k + 1, k + 1, k + 2); }
      if region.next != null && !region.next.used {
        SwallowNext(k, region);
      }
    }

    /** Frees a used area and merges it with the free areas next to it. */
    method FreeRegion(region: Node, ghost k: nat)
      requires Valid() && k < |nodes| && region == nodes[k] && region.used
      modifies this`head, this`used, this`nodes, this`areas, nodes
      ensures Valid() && used == old(used) - old(region.size) && (forall x :: x in nodes ==> x in old(nodes))
      ensures old(areas)[Low(old(areas), k)].start <= old(areas)[High(old(areas), k) - 1].End()
      ensures areas == Freed(old(areas), k) && (Solid(old(areas)) ==> Solid(areas))
    {
      hide Solid, Tiled, Merged, UsedSize, Coalesced, Low, High;
      if Solid(areas) { FreedSolid(areas, k, start, start + size); }
      FreedGood(areas, k, start, start + size);
      FreedSteps(areas, k, start, start + size);
      region.used := false;
      used := used - region.size;
      areas := Unmarked(areas, k);
      Coalesce(region, k);
    }
  }
}
