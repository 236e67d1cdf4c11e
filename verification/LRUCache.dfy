/**
  `LRUCache`: a map and a list of its keys, from least to most recently used. It behaves as a plain association
  list in which every use of a key moves its entry to the end.
 */
module LRUCache {
  import opened Helpers

  // ---------------------------------------------------------------- recency lists

  ghost predicate NoRepeats<K>(keys: seq<K>) {
    forall i, j :: 0 <= i < j < |keys| ==> keys[i] != keys[j]
  }

  /** The list without an element. */
  ghost function Without<K>(keys: seq<K>, key: K): seq<K> {
    if keys == [] then [] else (if keys[0] == key then [] else [keys[0]]) + Without(keys[1..], key)
  }

  lemma {:induction false} WithoutKeys<K>(keys: seq<K>, key: K)
    ensures forall k :: k in Without(keys, key) <==> k in keys && k != key
  {
    if keys != [] {
      WithoutKeys(keys[1..], key);
      assert forall k :: k in keys <==> k == keys[0] || k in keys[1..];
    }
  }

  lemma {:induction false} WithoutAbsent<K>(keys: seq<K>, key: K)
    requires key !in keys
    ensures Without(keys, key) == keys
  {
    if keys != [] { WithoutAbsent(keys[1..], key); }
  }

  lemma {:induction false} WithoutAt<K>(keys: seq<K>, i: nat)
    requires NoRepeats(keys) && i < |keys|
    ensures Without(keys, keys[i]) == keys[..i] + keys[i + 1..]
  {
    if i == 0 {
      WithoutAbsent(keys[1..], keys[0]);
    } else {
      WithoutAt(keys[1..], i - 1);
      assert keys[..i] == [keys[0]] + keys[1..][..i - 1];
    }
  }

  /** The stamps grow along the list and stay below the clock. */
  ghost predicate Ordered<K>(order: seq<K>, stamps: map<K, nat>, clock: nat)
    decreases |order|
  {
    order == [] ||
    (var n := |order| - 1; order[n] in stamps && stamps[order[n]] < clock && Ordered(order[..n], stamps, stamps[order[n]]))
  }

  lemma {:induction false} OrderedAt<K>(order: seq<K>, stamps: map<K, nat>, clock: nat, i: nat, j: nat)
    requires Ordered(order, stamps, clock) && i < j <= |order|
    ensures order[i] in stamps && stamps[order[i]] < clock
    ensures j < |order| ==> order[j] in stamps && stamps[order[i]] < stamps[order[j]]
    decreases |order|
  {
    var n := |order| - 1;
    if i < n {
      OrderedAt(order[..n], stamps, stamps[order[n]], i, if j < n then j else i + 1);
      if j < n { OrderedAt(order[..n], stamps, stamps[order[n]], j, j + 1); }
    }
  }

  lemma {:induction false} OrderedOnce<K>(order: seq<K>, stamps: map<K, nat>, clock: nat)
    requires Ordered(order, stamps, clock)
    ensures NoRepeats(order)
  {
    forall i, j | 0 <= i < j < |order| ensures order[i] != order[j] { OrderedAt(order, stamps, clock, i, j); }
  }

  lemma {:induction false} OrderedLater<K>(order: seq<K>, stamps: map<K, nat>, clock: nat, later: nat)
    requires Ordered(order, stamps, clock) && clock <= later
    ensures Ordered(order, stamps, later)
  {
  }

  lemma {:induction false} OrderedCut<K>(order: seq<K>, stamps: map<K, nat>, clock: nat, i: nat)
    requires Ordered(order, stamps, clock) && i < |order|
    ensures Ordered(order[..i] + order[i + 1..], stamps, clock)
    decreases |order|
  {
    var n := |order| - 1;
    if i == n {
      assert order[..i] + order[i + 1..] == order[..n];
      OrderedLater(order[..n], stamps, stamps[order[n]], clock);
    } else {
      var cut := order[..i] + order[i + 1..];
      OrderedCut(order[..n], stamps, stamps[order[n]], i);
      assert cut[..n - 1] == order[..n][..i] + order[..n][i + 1..];
      assert cut[n - 1] == order[n];
    }
  }

  lemma {:induction false} OrderedOther<K>(order: seq<K>, stamps: map<K, nat>, clock: nat, key: K, stamp: nat)
    requires Ordered(order, stamps, clock) && key !in order
    ensures Ordered(order, stamps[key := stamp], clock)
    decreases |order|
  {
    if order != [] {
      var n := |order| - 1;
      OrderedOther(order[..n], stamps, stamps[order[n]], key, stamp);
    }
  }

  /** The list holds exactly the given keys in the order of their last use. */
  ghost predicate Recency<K(!new)>(keys: set<K>, order: seq<K>, stamps: map<K, nat>, clock: nat) {
    Ordered(order, stamps, clock) && keys == KeysOf(order)
  }

  ghost function KeysOf<K>(order: seq<K>): (r: set<K>)
    decreases |order|
  {
    if order == [] then {} else KeysOf(order[..|order| - 1]) + {order[|order| - 1]}
  }

  lemma {:induction false} KeysOfAre<K(!new)>(order: seq<K>)
    ensures forall k :: k in KeysOf(order) <==> k in order
    decreases |order|
  {
    if order != [] {
      var n := |order| - 1;
      KeysOfAre(order[..n]);
      assert order == order[..n] + [order[n]];
    }
  }

  lemma {:induction false} CutRecency<K(!new)>(keys: set<K>, order: seq<K>, stamps: map<K, nat>, clock: nat, i: nat)
    requires Recency(keys, order, stamps, clock) && i < |order|
    ensures Without(order, order[i]) == order[..i] + order[i + 1..]
    ensures Recency(keys - {order[i]}, order[..i] + order[i + 1..], stamps, clock)
  {
    OrderedOnce(order, stamps, clock);
    WithoutAt(order, i);
    WithoutKeys(order, order[i]);
    OrderedCut(order, stamps, clock, i);
    KeysOfAre(order);
    KeysOfAre(Without(order, order[i]));
  }

  /** Using a key puts it at the end, with a stamp later than all others. */
  lemma {:induction false} UseRecency<K(!new)>(keys: set<K>, order: seq<K>, stamps: map<K, nat>, clock: nat, key: K)
    requires Recency(keys, order, stamps, clock) && key !in keys
    ensures Recency(keys + {key}, order + [key], stamps[key := clock], clock + 1)
  {
    KeysOfAre(order);
    OrderedOther(order, stamps, clock, key, clock);
    assert (order + [key])[..|order|] == order;
  }

  ghost function Pruned<K, V>(items: map<K, V>, order: seq<K>, m: nat): map<K, V>
    requires m <= |order|
  {
    if m == 0 then items else Pruned(items, order, m - 1) - {order[m - 1]}
  }

  lemma {:induction false} PrunedAre<K, V>(items: map<K, V>, order: seq<K>, m: nat)
    requires m <= |order|
    ensures Pruned(items, order, m) == items - (set k | k in order[..m])
  {
    if m > 0 {
      PrunedAre(items, order, m - 1);
      assert order[..m] == order[..m - 1] + [order[m - 1]];
    }
  }

  // ---------------------------------------------------------------- the cache

  class Cache<K(==, !new), V> {
    var items: map<K, V>
    var order: seq<K>
    ghost var stamps: map<K, nat>
    ghost var clock: nat

    /** The list holds the keys of the map, each once, in the order of their last use. */
    ghost predicate Valid()
      reads this
    {
      Recency(items.Keys, order, stamps, clock)
    }

    constructor ()
      ensures Valid() && items == map[] && order == [] && clock == 0
    {
      items, order, stamps, clock := map[], [], map[], 0;
      new;
      assert Recency(items.Keys, order, stamps, clock);
    }

    /** Where the key is in the list; the length of the list if it is not there. */
    method IndexOf(key: K) returns (i: nat)
      requires Valid()
      ensures i <= |order| && (i < |order| ==> order[i] == key) && (i == |order| <==> key !in order)
    {
      i := 0;
      while i < |order|
        invariant i <= |order| && key !in order[..i]
      {
        if order[i] == key {
          return;
        }
        assert order[..i + 1] == order[..i] + [order[i]];
        i := i + 1;
      }
      assert order[..i] == order;
    }

    /** Moves the key, if it is there, to the end of the list. */
    method Promote(key: K)
      requires Valid()
      modifies this`order, this`stamps, this`clock
      ensures Valid()
      ensures key in items ==> order == Without(old(order), key) + [key] && stamps == old(stamps)[key := old(clock)] && clock == old(clock) + 1
      ensures key !in items ==> order == old(order) && stamps == old(stamps) && clock == old(clock)
    {
      var i := IndexOf(key);
      KeysOfAre(order);
      if i < |order| {
        CutRecency(items.Keys, order, stamps, clock, i);
        order := order[..i] + order[i + 1..];
        UseRecency(items.Keys - {key}, order, stamps, clock, key);
        assert items.Keys - {key} + {key} == items.Keys;
        order, stamps, clock := order + [key], stamps[key := clock], clock + 1;
        assert Recency(items.Keys, order, stamps, clock);
      }
    }

    /** Adds or replaces an entry and makes it the most recently used. */
    method Insert(key: K, value: V)
      requires Valid()
      modifies this
      ensures Valid() && items == old(items)[key := value] && order == Without(old(order), key) + [key]
      ensures stamps == old(stamps)[key := old(clock)] && clock == old(clock) + 1
    {
      KeysOfAre(order);
      if key in items {
        assert items[key := value].Keys == items.Keys;
        items := items[key := value];
        Promote(key);
      } else {
        UseRecency(items.Keys, order, stamps, clock, key);
        WithoutAbsent(order, key);
        items, order := items[key := value], order + [key];
        stamps, clock := stamps[key := clock], clock + 1;
        assert items.Keys == old(items.Keys) + {key};
      }
    }

    /** Removes an entry, if it is there. */
    method Erase(key: K)
      requires Valid()
      modifies this`items, this`order
      ensures Valid() && items == old(items) - {key} && order == Without(old(order), key)
    {
      KeysOfAre(order);
      items := items - {key};
      var i := 0;
      while i < |order|
        invariant i <= |order| && key !in order[..i] && order == old(order) && items == old(items) - {key}
      {
        if order[i] == key {
          CutRecency(old(items.Keys), order, stamps, clock, i);
          order := order[..i] + order[i + 1..];
          assert items.Keys == old(items.Keys) - {key};
          return;
        }
        assert order[..i + 1] == order[..i] + [order[i]];
        i := i + 1;
      }
      assert order[..i] == order && items.Keys == old(items.Keys);
      WithoutAbsent(order, key);
    }

    /** Looks an entry up; finding it counts as a use. */
    method Get(key: K) returns (r: Option<V>)
      requires Valid()
      modifies this`order, this`stamps, this`clock
      ensures Valid() && r == if key in items then Some(items[key]) else None
      ensures order == if key in items then Without(old(order), key) + [key] else old(order)
      ensures stamps == if key in items then old(stamps)[key := old(clock)] else old(stamps)
    {
      if key in items {
        Promote(key);
        return Some(items[key]);
      }
      r := None;
    }

    /** Removes the least recently used entry. */
    method PopLeast()
      requires Valid() && order != []
      modifies this`items, this`order
      ensures Valid() && order == old(order)[1..] && items == old(items) - {old(order)[0]}
    {
      CutRecency(items.Keys, order, stamps, clock, 0);
      assert order[..0] + order[1..] == order[1..];
      assert (items - {order[0]}).Keys == items.Keys - {order[0]};
      items, order := items - {order[0]}, order[1..];
    }

    /** Removes the n least recently used entries, or all if there are fewer. */
    method Prune(n: nat)
      requires Valid()
      modifies this`items, this`order
      ensures Valid()
      ensures
        var m := if n < |old(order)| then n else |old(order)|;
        order == old(order)[m..] && items == old(items) - (set k | k in old(order)[..m])
    {
      var num := n;
      ghost var m, was := 0, order;
      while order != [] && num > 0
        invariant Valid() && m <= |was| && 0 <= num == n - m && order == was[m..] && items == Pruned(old(items), was, m)
        decreases num
      {
        PopLeast();
        num, m := num - 1, m + 1;
      }
      PrunedAre(old(items), was, m);
    }

    /** The least recently used entry: no other entry was used earlier. */
    method Lru() returns (r: Option<(K, V)>)
      requires Valid()
      ensures r.None? <==> items == map[]
      ensures r.Some? ==>
        && r.value.0 in items && r.value.1 == items[r.value.0] && order != [] && order[0] == r.value.0
        && r.value.0 in stamps && forall k :: k in items && k != r.value.0 ==> k in stamps && stamps[r.value.0] < stamps[k]
    {
      KeysOfAre(order);
      if order == [] {
        return None;
      }
      OrderedAt(order, stamps, clock, 0, 1);
      forall k | k in items && k != order[0] ensures k in stamps && stamps[order[0]] < stamps[k] {
        var j :| 0 <= j < |order| && order[j] == k;
        OrderedAt(order, stamps, clock, 0, j);
      }
      r := Some((order[0], items[order[0]]));
    }
  }
}
