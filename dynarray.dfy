/** The dynamic arrays of chaos.h (`items`, `count`, `capacity`) and their growth macros
    chaos_da_reserve and chaos_da_append. */
module DynArray {

  /** CHAOS_DA_INIT_CAP: the first capacity a zero-capacity array grows to. */
  const InitCap: nat := 256

  function Pow2(k: nat): (p: nat)
    ensures p >= 1
  {
    if k == 0 then 1 else 2 * Pow2(k - 1)
  }

  /** How many doublings take `c` to at least `expected`. */
  function Doublings(c: nat, expected: nat): nat
    requires c > 0
    decreases expected - c
  {
    if expected <= c then 0 else 1 + Doublings(2 * c, expected)
  }

  /** The capacity chaos_da_reserve leaves behind for a request of `expected` items. */
  function ReservedCapacity(capacity: nat, expected: nat): nat
  {
    if expected <= capacity then capacity
    else
      var c := if capacity == 0 then InitCap else capacity;
      c * Pow2(Doublings(c, expected))
  }

  /** `c * 2^Doublings(c, e)` is the least `c * 2^k` that reaches `e`. */
  lemma {:induction false} DoublingsLeast(c: nat, expected: nat)
    requires c > 0
    ensures c * Pow2(Doublings(c, expected)) >= expected
    ensures Doublings(c, expected) > 0 ==> c * Pow2(Doublings(c, expected) - 1) < expected
    decreases expected - c
  {
    if expected > c {
      var k := Doublings(2 * c, expected);
      DoublingsLeast(2 * c, expected);
      assert c * Pow2(k + 1) == (2 * c) * Pow2(k);
      if k > 0 {
        assert c * Pow2(k) == (2 * c) * Pow2(k - 1);
      }
    }
  }

  /** chaos_da_reserve's growth rule: nothing changes when the capacity suffices; otherwise the
      capacity becomes the least `c * 2^k` at or above the request, where `c` is the old
      capacity, or CHAOS_DA_INIT_CAP when it was 0. */
  lemma ReserveGrowsToLeastDoubling(capacity: nat, expected: nat)
    ensures expected <= capacity ==> ReservedCapacity(capacity, expected) == capacity
    ensures ReservedCapacity(capacity, expected) >= expected
    ensures ReservedCapacity(capacity, expected) >= capacity
    ensures expected > capacity ==>
      var c := if capacity == 0 then InitCap else capacity;
      exists k: nat :: ReservedCapacity(capacity, expected) == c * Pow2(k) &&
                       (k == 0 || c * Pow2(k - 1) < expected)
  {
    if expected > capacity {
      var c := if capacity == 0 then InitCap else capacity;
      var k := Doublings(c, expected);
      DoublingsLeast(c, expected);
      assert c * Pow2(k) >= c * 1;
    }
  }

  /** One doubling of `c` leaves the capacity the remaining doublings reach unchanged. */
  lemma DoublingStep(c: nat, expected: nat)
    requires 0 < c < expected
    ensures c * Pow2(Doublings(c, expected)) == (2 * c) * Pow2(Doublings(2 * c, expected))
  {
    var k := Doublings(2 * c, expected);
    assert Pow2(k + 1) == 2 * Pow2(k);
  }

  /** The doubling loop of chaos_da_reserve: start from the capacity (CHAOS_DA_INIT_CAP when
      it is 0) and double until the request fits. */
  method GrowCapacity(capacity: nat, expected: nat) returns (c: nat)
    requires expected > capacity
    ensures c == ReservedCapacity(capacity, expected) && c >= expected
  {
    c := capacity;
    if c == 0 {
      c := InitCap;
    }
    ghost var c0 := c;
    while expected > c
      invariant c > 0
      invariant c * Pow2(Doublings(c, expected)) == c0 * Pow2(Doublings(c0, expected))
      decreases expected - c
    {
      DoublingStep(c, expected);
      c := 2 * c;
    }
  }

  /** A dynamic array. A zero-capacity array stands for the C struct's NULL `items`. */
  class Da<T(0)> {
    var items: array<T>
    var count: nat
    var capacity: nat
    /** The elements in use, `items[0..count)`. */
    ghost var Contents: seq<T>
    ghost var Repr: set<object>

    ghost predicate Valid()
      reads this, Repr
    {
      Repr == {this, items} && items.Length == capacity && count <= capacity &&
      Contents == items[..count]
    }

    /** The C initialiser `{0}`. */
    constructor ()
      ensures Valid() && fresh(Repr)
      ensures Contents == [] && capacity == 0
    {
      items := new T[0];
      count := 0;
      capacity := 0;
      Contents := [];
      Repr := {this, items};
    }

    /** chaos_da_reserve: the doubling loop, then a reallocation that keeps the old items. */
    method Reserve(expected: nat)
      requires Valid()
      modifies Repr
      ensures Valid() && fresh(Repr - old(Repr))
      ensures capacity == ReservedCapacity(old(capacity), expected)
      ensures count == old(count) && Contents == old(Contents)
      ensures expected <= old(capacity) ==> items == old(items) && items[..] == old(items[..])
    {
      if expected > capacity {
        var c := GrowCapacity(capacity, expected);
        var grown := new T[c];
        forall i | 0 <= i < items.Length {
          grown[i] := items[i];
        }
        items := grown;
        capacity := c;
        Repr := {this, items};
      }
    }

    /** chaos_da_append: reserve room for one more item, then store it at index `count`. */
    method Append(x: T)
      requires Valid()
      modifies Repr
      ensures Valid() && fresh(Repr - old(Repr))
      ensures Contents == old(Contents) + [x]
      ensures capacity == ReservedCapacity(old(capacity), old(count) + 1)
    {
      Reserve(count + 1);
      ReserveGrowsToLeastDoubling(old(capacity), old(count) + 1);
      items[count] := x;
      count := count + 1;
      Contents := Contents + [x];
    }
  }
}
