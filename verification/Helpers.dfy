/**
  What several modules need: optional values, bytes, pages, the width of a machine word, and a little arithmetic.
 */
module Helpers {
  datatype Option<T> = None | Some(value: T)

  type Byte = b: int | 0 <= b < 256

  const PAGE_SIZE: nat := 4096

  /** One more than the largest 32-bit number. */
  const MAX: nat := 0x1_0000_0000

  // ---------------------------------------------------------------- powers of two

  function Pow2(n: nat): (r: nat)
    ensures r > 0
  {
    if n == 0 then 1 else 2 * Pow2(n - 1)
  }

  lemma {:induction false} Pow2Grows(a: nat, b: nat)
    requires a <= b
    ensures if a == b then Pow2(a) == Pow2(b) else Pow2(a) < Pow2(b)
  {
    if a < b { Pow2Grows(a, b - 1); }
  }

  // ---------------------------------------------------------------- rings

  /** x reduced by one turn if it goes past the end. */
  function InRing(x: nat, capacity: nat): nat { if x < capacity then x else x - capacity }

  /** The next position in a ring. */
  function NextInRing(x: nat, capacity: nat): (y: nat)
    requires x < capacity
    ensures y == InRing(x + 1, capacity) < capacity
  {
    NextIsInRing(x, capacity);
    (x + 1) % capacity
  }

  lemma {:induction false} NextIsInRing(x: nat, capacity: nat)
    requires x < capacity
    ensures (x + 1) % capacity == InRing(x + 1, capacity)
  {
    if x + 1 < capacity {
      SmallMod(x + 1, capacity);
    } else {
      SameRemainder(capacity, (x + 1) / capacity, (x + 1) % capacity, 1, 0);
    }
  }

  // ---------------------------------------------------------------- remainders

  lemma {:induction false} ModShift(x: nat, d: nat)
    requires d > 0
    ensures (x + d) % d == x % d
  {
    SameRemainder(d, (x + d) / d, (x + d) % d, x / d + 1, x % d);
  }

  lemma {:induction false} SmallMod(x: nat, d: nat)
    requires x < d
    ensures x % d == x
  {
    SameRemainder(d, x / d, x % d, 0, x);
  }

  lemma {:induction false} SameRemainder(d: nat, q: int, r: nat, q': int, r': nat)
    requires r < d && r' < d && d * q + r == d * q' + r'
    ensures r == r'
  {
    assert d * (q - q') == d * q - d * q';
    if q > q' { MulAtLeast(d, q - q'); }
    assert d * (q' - q) == d * q' - d * q;
    if q < q' { MulAtLeast(d, q' - q); }
  }

  lemma {:induction false} MulAtLeast(d: nat, k: int)
    requires k >= 1
    ensures d * k >= d
  {
    if k > 1 {
      MulAtLeast(d, k - 1);
      assert d * k == d * (k - 1) + d;
    }
  }
}
