/** The capacity rule of `nutmeg_realloc_array`, shared by every growable array. */
module Growth {

  /** Capacity given to an array that had none. */
  const InitialCapacity: nat := 4

  function Pow2(k: nat): (r: nat)
    ensures r >= 1
  {
    if k == 0 then 1 else 2 * Pow2(k - 1)
  }

  /** How many times the growth loop doubles `start` before it reaches `min`. */
  function Doublings(start: nat, min: nat): (k: nat)
    requires start >= 1
    ensures start * Pow2(k) >= min
    ensures k > 0 ==> start * Pow2(k - 1) < min
    decreases if start < min then min - start else 0
  {
    if start >= min then 0
    else
      var k := Doublings(2 * start, min);
      DoubleStart(start, k);
      if k > 0 then DoubleStart(start, k - 1); k + 1 else k + 1
  }

  /** Doubling the start is one more doubling. */
  lemma DoubleStart(start: nat, k: nat)
    ensures start * Pow2(k + 1) == (2 * start) * Pow2(k)
  {
    calc {
      start * Pow2(k + 1);
      start * (2 * Pow2(k));
      (2 * start) * Pow2(k);
    }
  }

  /** The capacity after asking for room for `min` elements. */
  function Grow(capacity: nat, min: nat): (r: nat)
    ensures r >= min && r >= capacity
    ensures capacity >= min ==> r == capacity
  {
    if capacity >= min then capacity
    else
      var start := if capacity == 0 then InitialCapacity else capacity;
      start * Pow2(Doublings(start, min))
  }

  lemma {:induction false} Pow2Monotone(j: nat, k: nat)
    requires j <= k
    ensures Pow2(j) <= Pow2(k)
    decreases k
  {
    if j < k {
      Pow2Monotone(j, k - 1);
    }
  }

  /** A growth that happens stops at the first doubling of the starting
      capacity (4 for an empty array) that is at least `min`. */
  lemma GrowIsFirstDoubling(capacity: nat, min: nat)
    requires capacity < min
    ensures var start := if capacity == 0 then InitialCapacity else capacity;
            exists k: nat :: Grow(capacity, min) == start * Pow2(k)
                          && forall j: nat | j < k :: start * Pow2(j) < min
  {
    var start := if capacity == 0 then InitialCapacity else capacity;
    var k := Doublings(start, min);
    assert Grow(capacity, min) == start * Pow2(k);
    forall j: nat | j < k
      ensures start * Pow2(j) < min
    {
      Pow2Monotone(j, k - 1);
      MulMonotone(start, Pow2(j), Pow2(k - 1));
    }
  }

  lemma MulMonotone(a: nat, b: nat, c: nat)
    requires b <= c
    ensures a * b <= a * c
  {
  }
}
