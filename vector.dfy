/**
 * The growable vector of z3_vector.h: `len` items stored in a buffer `val`
 * with room for `max` of them, each `esz` bytes wide.  The buffer is NULL
 * until the first push, which makes room for 32 items; every later push
 * that finds the buffer full doubles it.
 */
module Vectors {
  import Toys

  /** Z3_VECTOR_INITIAL_CAPACITY. */
  const InitialCapacity: nat := 32

  /** The capacity `z3_push` leaves, given the capacity and length it finds. */
  function Grown(max: nat, len: nat): (r: nat)
    requires len <= max
    ensures r > len && r >= max
    ensures len < max ==> r == max
  {
    if len >= max then (if max == 0 then InitialCapacity else 2 * max) else max
  }

  /**
   * The capacity of a vector that received `n` pushes from the empty vector:
   * 0 for none, otherwise the least `32 * 2^j` holding `n` items.
   */
  function CapacityFor(n: nat): (r: nat)
    ensures n <= r
    decreases n
  {
    if n == 0 then 0
    else if n <= InitialCapacity then InitialCapacity
    else 2 * CapacityFor((n + 1) / 2)
  }

  /** `CapacityFor(n)` is 32 times a power of two and below twice `n` once past 32. */
  lemma {:induction false} CapacityForShape(n: nat) returns (j: nat)
    requires n > 0
    ensures CapacityFor(n) == InitialCapacity * Toys.Pow2(j)
    ensures n > InitialCapacity ==> CapacityFor(n) < 2 * n
    decreases n
  {
    if n <= InitialCapacity {
      j := 0;
    } else {
      var j' := CapacityForShape((n + 1) / 2);
      j := j' + 1;
      assert InitialCapacity * Toys.Pow2(j) == 2 * (InitialCapacity * Toys.Pow2(j'));
    }
  }

  /** One push onto a vector whose capacity is that of its length keeps that so. */
  lemma {:induction false} GrownFollowsCapacity(n: nat)
    ensures Grown(CapacityFor(n), n) == CapacityFor(n + 1)
    decreases n
  {
    if n == 0 || n + 1 <= InitialCapacity {
    } else if n == InitialCapacity {
      assert CapacityFor(n + 1) == 2 * CapacityFor((n + 2) / 2);
    } else {
      var h := (n + 1) / 2;
      if n % 2 == 0 {
        assert (n + 2) / 2 == h + 1;
        GrownFollowsCapacity(h);
        if h < CapacityFor(h) {
          assert CapacityFor(h + 1) == CapacityFor(h);
        }
      } else {
        assert (n + 2) / 2 == h;
      }
    }
  }

  class Vector<T> {
    var max: nat
    var len: nat
    var esz: nat
    var val: array?<T>

    /** A NULL buffer goes with zero capacity; otherwise the buffer holds `max` slots and `len <= max`. */
    ghost predicate Valid()
      reads this, val
    {
      len <= max &&
      (val == null <==> max == 0) &&
      (val != null ==> val.Length == max)
    }

    /** The items `0 .. len-1`. */
    function Elements(): (r: seq<T>)
      reads this, val
      requires Valid()
      ensures |r| == len
    {
      if val == null then [] else val[..len]
    }

    /** `z3_vec(type)` and `z3_vec_heap(size)`: empty, no buffer, element size `esz`. */
    constructor Init(esz: nat)
      ensures Valid() && Elements() == []
      ensures this.esz == esz && max == 0 && len == 0 && val == null
    {
      this.esz := esz;
      max := 0;
      len := 0;
      val := null;
    }

    /** `z3_get(vec, i)`: the byte offset of item `i` inside the buffer. */
    function Offset(i: nat): (r: nat)
      reads this
      ensures r == i * esz
    {
      i * esz
    }

    /** The item at index `i`, as read through `z3_get`. */
    function Get(i: nat): (r: T)
      reads this, val
      requires Valid() && i < len
      ensures r == Elements()[i]
    {
      val[i]
    }

    /**
     * `z3_push(vec, item)`: grows a full buffer (32, then doubling), copies
     * the items over as `realloc` does, stores `item` at `len`.
     */
    method Push(item: T)
      requires Valid()
      modifies this, val
      ensures Valid()
      ensures Elements() == old(Elements()) + [item]
      ensures max == Grown(old(max), old(len)) && esz == old(esz)
      ensures val == old(val) || fresh(val)
    {
      if len >= max {
        var m := Grown(max, len);
        var a := new T[m](_ => item);
        forall k | 0 <= k < len {
          a[k] := val[k];
        }
        assert a[..len] == old(Elements());
        max, val := m, a;
      }
      val[len] := item;
      len := len + 1;
    }

    /** `z3_drop_vec`: with a buffer, every field becomes zero and the buffer NULL; without one, nothing changes. */
    method Drop()
      requires Valid()
      modifies this
      ensures Valid() && Elements() == []
      ensures old(val) != null ==> val == null && esz == 0 && max == 0 && len == 0
      ensures old(val) == null ==> val == null && esz == old(esz) && max == old(max) && len == old(len)
    {
      if val != null {
        val := null;
        esz := 0;
        max := 0;
        len := 0;
      }
    }

    /**
     * `z3_drain(vec, type, drop_fn)`: `dropped` lists the items handed to
     * `drop_fn`, one call per item in index order; then the vector is dropped.
     */
    method Drain() returns (dropped: seq<T>)
      requires Valid()
      modifies this
      ensures dropped == old(Elements())
      ensures Valid() && Elements() == [] && val == null
      ensures old(val) != null ==> esz == 0 && max == 0 && len == 0
    {
      dropped := [];
      var i := 0;
      while i < len
        invariant 0 <= i <= len
        invariant dropped == Elements()[..i]
      {
        dropped := dropped + [Get(i)];
        i := i + 1;
      }
      assert dropped == Elements();
      Drop();
    }
  }

  /** Pushing `n` items onto a new vector: `n` items, in order, and capacity `CapacityFor(n)`. */
  method PushAll<T>(esz: nat, items: seq<T>) returns (v: Vector<T>)
    ensures fresh(v) && v.Valid()
    ensures v.Elements() == items && v.max == CapacityFor(|items|) && v.esz == esz
  {
    v := new Vector.Init(esz);
    var i := 0;
    while i < |items|
      invariant 0 <= i <= |items|
      invariant fresh(v) && (v.val == null || fresh(v.val)) && v.Valid()
      invariant v.Elements() == items[..i] && v.max == CapacityFor(i) && v.esz == esz
    {
      GrownFollowsCapacity(i);
      v.Push(items[i]);
      assert items[..i + 1] == items[..i] + [items[i]];
      i := i + 1;
    }
    assert items[..i] == items;
  }
}
